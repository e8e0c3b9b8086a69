/** Queries on the lineage graph: ancestry, impact, and the layered layout. */
module LineageQueries {
  import opened Basics
  import opened Digraph
  import opened LineageIds
  import Lineage
  import LineageRuns

  // ----- topological orders

  ghost predicate Before(order: seq<string>, u: string, v: string) {
    exists i, j :: 0 <= i < j < |order| && order[i] == u && order[j] == v
  }

  /** What the graph library's topological sort returns. */
  ghost predicate IsTopological(g: Graph, order: seq<string>) {
    && Distinct(order)
    && (forall n :: n in order <==> n in g.nodes)
    && forall e :: e in g.edges ==> Before(order, e.0, e.1)
  }

  function IndexOf(order: seq<string>, n: string): (i: nat)
    ensures i <= |order|
    ensures n in order ==> i < |order| && order[i] == n
  {
    if order == [] || order[0] == n then 0 else 1 + IndexOf(order[1..], n)
  }

  ghost predicate SortedBy(s: seq<string>, key: string -> int) {
    forall i, j :: 0 <= i < j < |s| ==> key(s[i]) <= key(s[j])
  }

  function InsertBy(s: seq<string>, x: string, key: string -> int): (r: seq<string>)
    ensures forall y :: y in r <==> y in s || y == x
  {
    if s == [] || key(x) < key(s[0]) then [x] + s
    else
      assert s == [s[0]] + s[1..];
      [s[0]] + InsertBy(s[1..], x, key)
  }

  lemma {:induction false} InsertKeepsSorted(s: seq<string>, x: string, key: string -> int)
    requires SortedBy(s, key)
    ensures SortedBy(InsertBy(s, x, key), key)
  {
    if s != [] && key(x) >= key(s[0]) {
      InsertKeepsSorted(s[1..], x, key);
      var r := InsertBy(s[1..], x, key);
      forall j | 0 <= j < |r|
        ensures key(s[0]) <= key(r[j])
      {
        assert r[j] in r;
        if r[j] != x {
          var i :| 0 <= i < |s[1..]| && s[1..][i] == r[j];
          assert s[i + 1] == r[j];
        }
      }
    }
  }

  lemma {:induction false} InsertKeepsDistinct(s: seq<string>, x: string, key: string -> int)
    requires Distinct(s) && x !in s
    ensures Distinct(InsertBy(s, x, key))
  {
    if s != [] && key(x) >= key(s[0]) {
      InsertKeepsDistinct(s[1..], x, key);
      assert s[0] !in s[1..];
      assert s[0] !in InsertBy(s[1..], x, key);
    }
  }

  /** The library sort, by a numeric key. */
  function SortBy(s: seq<string>, key: string -> int): (r: seq<string>)
    ensures forall y :: y in r <==> y in s
  {
    if s == [] then []
    else
      var k := |s| - 1;
      assert s == s[..k] + [s[k]];
      InsertBy(SortBy(s[..k], key), s[k], key)
  }

  lemma {:induction false} SortByProperties(s: seq<string>, key: string -> int)
    ensures SortedBy(SortBy(s, key), key)
    ensures Distinct(s) ==> Distinct(SortBy(s, key))
  {
    if s != [] {
      var k := |s| - 1;
      SortByProperties(s[..k], key);
      InsertKeepsSorted(SortBy(s[..k], key), s[k], key);
      if Distinct(s) {
        assert Distinct(s[..k]) && s[k] !in s[..k];
        InsertKeepsDistinct(SortBy(s[..k], key), s[k], key);
      }
    }
  }

  /** Sorting the nodes by a ranking gives a topological order. */
  lemma RankedHasOrder(g: Graph, rank: string -> int) returns (order: seq<string>)
    requires Valid(g) && Ranks(g, rank)
    ensures IsTopological(g, order)
  {
    order := SortBy(g.nodes, rank);
    SortByProperties(g.nodes, rank);
    hide SortBy;
    forall e | e in g.edges
      ensures Before(order, e.0, e.1)
    {
      assert e.0 in order && e.1 in order;
      var i :| 0 <= i < |order| && order[i] == e.0;
      var j :| 0 <= j < |order| && order[j] == e.1;
      assert i < j;
    }
  }

  /** Every recorded run can be sorted. */
  lemma RunHasOrder(records: seq<Lineage.Record>) returns (order: seq<string>)
    requires LineageRuns.GoodRun(records)
    ensures IsTopological(Lineage.GraphOf(records), order)
  {
    hide Lineage.GraphOf;
    Lineage.RunEdges(records);
    LineageRuns.RunIsRanked(records);
    order := RankedHasOrder(Lineage.GraphOf(records), id => LineageRuns.Rank(records, id));
  }

  // ----- ancestry

  predicate IsStep(g: Graph, n: string) {
    n in g.attrs && g.attrs[n].StepNode?
  }

  predicate IsFile(g: Graph, n: string) {
    n in g.attrs && g.attrs[n].SourceFile?
  }

  function StepNodes(g: Graph, order: seq<string>): (r: seq<string>)
    ensures forall n :: n in r <==> n in order && IsStep(g, n)
    ensures Distinct(order) ==> Distinct(r)
  {
    if order == [] then []
    else
      var k := |order| - 1;
      assert order == order[..k] + [order[k]];
      StepNodes(g, order[..k]) + (if IsStep(g, order[k]) then [order[k]] else [])
  }

  const UNKNOWN := "unknown"

  predicate IsNamedFile(g: Graph, n: string) { IsFile(g, n) && g.attrs[n].title != "unknown" }

  /** `r` names the first named file of the list. */
  ghost predicate FirstNamed(g: Graph, order: seq<string>, r: string) {
    exists k :: 0 <= k < |order| && NamedAt(g, order, r, k)
  }

  ghost predicate NamedAt(g: Graph, order: seq<string>, r: string, k: nat)
    requires k < |order|
  {
    && IsNamedFile(g, order[k]) && IsFile(g, order[k]) && g.attrs[order[k]].title == r
    && forall m :: 0 <= m < k ==> !IsNamedFile(g, order[m])
  }

  /** The name of the first source file met; a file that is itself called "unknown" is
      passed over like no file at all. */
  function FirstFile(g: Graph, order: seq<string>): string {
    if order == [] then UNKNOWN
    else if IsNamedFile(g, order[0]) then g.attrs[order[0]].title
    else FirstFile(g, order[1..])
  }

  lemma {:induction false} FirstFileFacts(g: Graph, order: seq<string>)
    ensures FirstFile(g, order) == "unknown" <==> forall n :: n in order ==> !IsNamedFile(g, n)
    ensures FirstFile(g, order) != "unknown" ==> FirstNamed(g, order, FirstFile(g, order))
  {
    hide IsNamedFile;
    if order != [] {
      var head, rest := order[0], order[1..];
      assert order == [head] + rest;
      if !IsNamedFile(g, head) {
        FirstFileFacts(g, rest);
        if FirstFile(g, rest) != UNKNOWN {
          LaterNamed(g, head, rest, FirstFile(g, rest));
        }
      } else {
        FileTitle(g, head);
        assert NamedAt(g, order, g.attrs[head].title, 0);
      }
    }
  }

  lemma FileTitle(g: Graph, n: string)
    requires IsNamedFile(g, n)
    ensures IsFile(g, n) && g.attrs[n].title != "unknown"
  {
  }

  lemma LaterNamed(g: Graph, head: string, rest: seq<string>, r: string)
    requires !IsNamedFile(g, head) && FirstNamed(g, rest, r)
    ensures FirstNamed(g, [head] + rest, r)
  {
    hide IsNamedFile;
    var k :| 0 <= k < |rest| && NamedAt(g, rest, r, k);
    var order := [head] + rest;
    assert order[k + 1] == rest[k];
    assert forall m :: 1 <= m < k + 1 ==> order[m] == rest[m - 1];
    assert NamedAt(g, order, r, k + 1);
  }

  datatype Transformation = Transformation(step: string, stepType: string)

  function TransformationOf(g: Graph, n: string): Transformation
    requires IsStep(g, n)
  {
    Transformation(g.attrs[n].step, g.attrs[n].stepType)
  }

  function Transformations(g: Graph, nodes: seq<string>): (r: seq<Transformation>)
    requires forall i :: 0 <= i < |nodes| ==> IsStep(g, nodes[i])
    ensures |r| == |nodes|
    ensures forall i :: 0 <= i < |nodes| ==> r[i] == TransformationOf(g, nodes[i])
  {
    seq(|nodes|, i requires 0 <= i < |nodes| => TransformationOf(g, nodes[i]))
  }

  /** The steps a column went through and the file it came from.  `met` is the order in
      which the search meets the nodes that reach the column; the file is the first one
      met, and `steps` lists every step node among them once, in the topological order. */
  method GetColumnAncestry(g: Graph, step: string, column: string, topo: seq<string>)
    returns (file: string, steps: seq<string>, chain: seq<Transformation>, ghost met: seq<string>)
    requires Valid(g) && IsTopological(g, topo)
    ensures ColumnId(step, column) !in g.nodes ==> file == "unknown" && steps == [] && chain == []
    ensures ColumnId(step, column) in g.nodes ==>
      && Distinct(met) && (forall n :: n in met <==> Reach(g, n, ColumnId(step, column)))
      && (forall n :: n in steps <==> IsStep(g, n) && Reach(g, n, ColumnId(step, column)))
      && Distinct(steps) && SortedBy(steps, n => IndexOf(topo, n))
      && (file == "unknown" <==> forall n :: IsNamedFile(g, n) ==> !Reach(g, n, ColumnId(step, column)))
      && (file != "unknown" ==> FirstNamed(g, met, file))
    ensures |chain| == |steps| && forall i :: 0 <= i < |steps| ==>
      IsStep(g, steps[i]) && chain[i] == TransformationOf(g, steps[i])
  {
    hide ColumnId, SortBy, Reach;
    var target := ColumnId(step, column);
    if target !in g.nodes {
      met := [];
      return UNKNOWN, [], [], met;
    }
    var order := SearchBackward(g, target);
    met := order;
    file := FirstFile(g, order);
    FirstFileFacts(g, order);
    var seen := StepNodes(g, order);
    steps := SortBy(seen, n => IndexOf(topo, n));
    SortByProperties(seen, n => IndexOf(topo, n));
    chain := Transformations(g, steps);
  }

  // ----- impact

  function Flip(edges: seq<(string, string)>): (r: seq<(string, string)>)
    ensures |r| == |edges|
    ensures forall i :: 0 <= i < |edges| ==> r[i] == (edges[i].1, edges[i].0)
  {
    seq(|edges|, i requires 0 <= i < |edges| => (edges[i].1, edges[i].0))
  }

  lemma FlipEdges(edges: seq<(string, string)>, u: string, v: string)
    ensures (u, v) in Flip(edges) <==> (v, u) in edges
  {
    if (v, u) in edges {
      var i :| 0 <= i < |edges| && edges[i] == (v, u);
      assert Flip(edges)[i] == (u, v);
    }
  }

  function Reversed(p: seq<string>): (r: seq<string>)
    ensures |r| == |p|
    ensures forall i :: 0 <= i < |p| ==> r[i] == p[|p| - 1 - i]
  {
    seq(|p|, i requires 0 <= i < |p| => p[|p| - 1 - i])
  }

  lemma ReversedPath(g: Graph, h: Graph, p: seq<string>)
    requires IsPath(g, p) && h.nodes == g.nodes
    requires forall u, v :: (u, v) in g.edges ==> (v, u) in h.edges
    ensures IsPath(h, Reversed(p))
  {
    var r := Reversed(p);
    forall i | 0 <= i < |r| - 1
      ensures (r[i], r[i + 1]) in h.edges
    {
      assert (p[|p| - 2 - i], p[|p| - 2 - i + 1]) in g.edges;
    }
  }

  lemma FlippedReach(g: Graph, u: string, v: string)
    ensures Reach(g.(edges := Flip(g.edges)), u, v) <==> Reach(g, v, u)
  {
    var h := g.(edges := Flip(g.edges));
    forall x, y { FlipEdges(g.edges, x, y); }
    if p :| PathFromTo(g, p, v, u) {
      ReversedPath(g, h, p);
      assert PathFromTo(h, Reversed(p), u, v);
    }
    if p :| PathFromTo(h, p, u, v) {
      ReversedPath(h, g, p);
      assert PathFromTo(g, Reversed(p), v, u);
    }
  }

  lemma FlippedValid(g: Graph)
    requires Valid(g)
    ensures Valid(g.(edges := Flip(g.edges)))
  {
    var f := Flip(g.edges);
    forall e | e in f
      ensures (e.1, e.0) in g.edges
    {
      FlipEdges(g.edges, e.0, e.1);
    }
  }

  /** The label a downstream node is reported under, for output columns and files. */
  function OutputLabel(g: Graph, n: string): string {
    if n !in g.attrs then ""
    else match g.attrs[n]
      case OutputColumn(_, column) => column
      case OutputFile(title) => title
      case _ => ""
  }

  function OutputLabels(g: Graph, nodes: seq<string>): (r: seq<string>)
    ensures forall l :: l in r <==> l != "" && exists n :: n in nodes && OutputLabel(g, n) == l
  {
    if nodes == [] then []
    else
      var k := |nodes| - 1;
      var last := OutputLabel(g, nodes[k]);
      assert nodes == nodes[..k] + [nodes[k]];
      OutputLabels(g, nodes[..k]) + (if last == "" then [] else [last])
  }

  datatype Impact = Impact(nodes: seq<string>, steps: seq<Transformation>, outputs: seq<string>)

  /** Everything downstream of a column: exactly the other nodes it reaches, so a
      column lies downstream of another exactly when the other is visited by its
      ancestry search.  A column that is not in the graph is an error. */
  method GetImpactAnalysis(g: Graph, step: string, column: string) returns (impact: Option<Impact>)
    requires Valid(g)
    ensures impact.None? <==> ColumnId(step, column) !in g.nodes
    ensures impact.Some? ==>
      && Distinct(impact.value.nodes)
      && (forall n :: n in impact.value.nodes <==> n != ColumnId(step, column) && Reach(g, ColumnId(step, column), n))
      && (forall n :: IsStep(g, n) && n != ColumnId(step, column) && Reach(g, ColumnId(step, column), n) ==>
            TransformationOf(g, n) in impact.value.steps)
      && (forall t :: t in impact.value.steps ==>
            exists n :: n in impact.value.nodes && IsStep(g, n) && t == TransformationOf(g, n))
      && (forall l :: l in impact.value.outputs <==>
            l != "" && exists n :: n in impact.value.nodes && OutputLabel(g, n) == l)
  {
    hide ColumnId, Reach, IsStep, TransformationOf;
    var source := ColumnId(step, column);
    if source !in g.nodes {
      return None;
    }
    FlippedValid(g);
    var order := SearchBackward(g.(edges := Flip(g.edges)), source);
    forall n { FlippedReach(g, n, source); }
    var nodes := Without(order, source);
    WithoutDistinct(order, source);
    var stepNodes := StepNodes(g, nodes);
    var steps := Transformations(g, stepNodes);
    StepsListed(g, stepNodes, steps);
    impact := Some(Impact(nodes, steps, OutputLabels(g, nodes)));
  }

  lemma StepsListed(g: Graph, nodes: seq<string>, steps: seq<Transformation>)
    requires |steps| == |nodes|
    requires forall i :: 0 <= i < |nodes| ==> IsStep(g, nodes[i]) && steps[i] == TransformationOf(g, nodes[i])
    ensures forall n :: n in nodes ==> IsStep(g, n) && TransformationOf(g, n) in steps
    ensures forall t :: t in steps ==> exists n :: n in nodes && IsStep(g, n) && t == TransformationOf(g, n)
  {
    hide IsStep, TransformationOf;
    forall n | n in nodes
      ensures IsStep(g, n) && TransformationOf(g, n) in steps
    {
      var i :| 0 <= i < |nodes| && nodes[i] == n;
      assert IsStep(g, nodes[i]) && steps[i] == TransformationOf(g, nodes[i]);
    }
    forall t | t in steps
      ensures exists n :: n in nodes && IsStep(g, n) && t == TransformationOf(g, n)
    {
      var i :| 0 <= i < |steps| && steps[i] == t;
      assert nodes[i] in nodes && IsStep(g, nodes[i]) && t == TransformationOf(g, nodes[i]);
    }
  }

  // ----- layers

  ghost predicate PathInto(g: Graph, p: seq<string>, n: string) {
    IsPath(g, p) && p[|p| - 1] == n
  }

  ghost predicate FromSource(g: Graph, p: seq<string>) {
    p != [] && Preds(g.edges, p[0]) == []
  }

  /** `l` is the length of a longest path ending at `n`, and one such path starts at a
      node without predecessors. */
  ghost predicate IsLongest(g: Graph, n: string, l: nat) {
    && (exists p :: PathInto(g, p, n) && FromSource(g, p) && |p| == l + 1)
    && (forall p :: PathInto(g, p, n) ==> |p| <= l + 1)
  }

  lemma {:induction false} PathInShrinks(g: Graph, p: seq<string>, n: string)
    requires PathInto(g, p, n) && |p| > 1
    ensures p[|p| - 2] in Preds(g.edges, n) && PathInto(g, p[..|p| - 1], p[|p| - 2])
  {
    assert (p[|p| - 2], p[|p| - 1]) in g.edges;
  }

  lemma {:induction false} PathInGrows(g: Graph, p: seq<string>, u: string, n: string)
    requires Valid(g) && PathInto(g, p, u) && u in Preds(g.edges, n)
    ensures PathInto(g, p + [n], n) && (FromSource(g, p) ==> FromSource(g, p + [n]))
  {
    assert (u, n) in g.edges;
  }

  lemma {:induction false} SourceIsLongest(g: Graph, n: string)
    requires Valid(g) && n in g.nodes && Preds(g.edges, n) == []
    ensures IsLongest(g, n, 0)
  {
    hide IsPath;
    assert PathInto(g, [n], n) && FromSource(g, [n]) by { OneNodePath(g, n); }
    forall p | PathInto(g, p, n) && |p| > 1
      ensures false
    {
      PathInShrinks(g, p, n);
    }
    NonEmptyPaths(g, n);
  }

  lemma OneNodePath(g: Graph, n: string)
    requires n in g.nodes
    ensures PathInto(g, [n], n)
  {
  }

  lemma NonEmptyPaths(g: Graph, n: string)
    ensures forall p :: PathInto(g, p, n) ==> |p| >= 1
  {
  }

  lemma {:induction false} LongestGrows(g: Graph, n: string, layers: map<string, nat>, u: string)
    requires Valid(g) && n in g.nodes && u in Preds(g.edges, n)
    requires forall w :: w in Preds(g.edges, n) ==> w in layers
    requires forall w :: w in Preds(g.edges, n) ==> IsLongest(g, w, layers[w])
    requires forall w :: w in Preds(g.edges, n) ==> layers[w] <= layers[u]
    ensures IsLongest(g, n, layers[u] + 1)
  {
    hide PathInto, FromSource, Valid;
    assert IsLongest(g, u, layers[u]);
    var p :| PathInto(g, p, u) && FromSource(g, p) && |p| == layers[u] + 1;
    PathInGrows(g, p, u, n);
    forall q | PathInto(g, q, n)
      ensures |q| <= layers[u] + 2
    {
      if |q| > 1 {
        PathInShrinks(g, q, n);
        assert IsLongest(g, q[|q| - 2], layers[q[|q| - 2]]);
      }
    }
  }

  /** A predecessor of greatest layer. */
  method GreatestLayer(preds: seq<string>, layers: map<string, nat>) returns (u: string)
    requires preds != [] && forall w :: w in preds ==> w in layers
    ensures u in preds && forall w :: w in preds ==> layers[w] <= layers[u]
  {
    u := preds[0];
    for j := 1 to |preds|
      invariant u in preds
      invariant forall i :: 0 <= i < j ==> layers[preds[i]] <= layers[u]
    {
      if layers[preds[j]] > layers[u] {
        u := preds[j];
      }
    }
  }

  lemma PredsComeFirst(g: Graph, topo: seq<string>, k: nat, u: string)
    requires IsTopological(g, topo) && k < |topo| && u in Preds(g.edges, topo[k])
    ensures u in topo[..k]
  {
    assert (u, topo[k]) in g.edges;
    assert Before(topo, u, topo[k]);
    var i, j :| 0 <= i < j < |topo| && topo[i] == u && topo[j] == topo[k];
    assert j == k && topo[..k][i] == u;
  }

  /** Every node gets the length of its longest path from a source, given any
      topological order. */
  method AssignLayers(g: Graph, topo: seq<string>) returns (layers: map<string, nat>)
    requires Valid(g) && IsTopological(g, topo)
    ensures forall n :: n in layers <==> n in g.nodes
    ensures forall n :: n in layers ==> IsLongest(g, n, layers[n])
  {
    hide IsLongest;
    layers := map[];
    for k := 0 to |topo|
      invariant forall n :: n in layers <==> n in topo[..k]
      invariant forall n :: n in layers ==> IsLongest(g, n, layers[n])
    {
      var node := topo[k];
      assert topo[..k + 1] == topo[..k] + [node];
      assert node in topo;
      var preds := Preds(g.edges, node);
      if preds == [] {
        SourceIsLongest(g, node);
        layers := layers[node := 0];
      } else {
        forall u | u in preds ensures u in layers { PredsComeFirst(g, topo, k, u); }
        var u := GreatestLayer(preds, layers);
        LongestGrows(g, node, layers, u);
        layers := layers[node := layers[u] + 1];
      }
    }
    assert topo[..|topo|] == topo;
  }

  /** Every edge goes to a strictly larger layer. */
  lemma EdgesGoRight(g: Graph, layers: map<string, nat>, u: string, v: string)
    requires Valid(g) && (u, v) in g.edges && u in layers && v in layers
    requires IsLongest(g, u, layers[u]) && IsLongest(g, v, layers[v])
    ensures layers[u] < layers[v]
  {
    hide PathInto, FromSource, Valid;
    var p :| PathInto(g, p, u) && FromSource(g, p) && |p| == layers[u] + 1;
    PathInGrows(g, p, u, v);
  }

  // ----- positions

  const LAYER_X_SPACING := 300
  const NODE_Y_SPACING := 80

  datatype Placed = Placed(id: string, x: int, y: int)

  /** The nodes of one layer, in the order the layers were assigned. */
  function LayerNodes(topo: seq<string>, layers: map<string, nat>, l: nat): (r: seq<string>)
    ensures forall n :: n in r <==> n in topo && n in layers && layers[n] == l
    ensures Distinct(topo) ==> Distinct(r)
  {
    if topo == [] then []
    else
      var k := |topo| - 1;
      assert topo == topo[..k] + [topo[k]];
      LayerNodes(topo[..k], layers, l) + (if topo[k] in layers && layers[topo[k]] == l then [topo[k]] else [])
  }

  /** A layout of the nodes in layers below `bound`: each node once, at its layer's
      column, and no two nodes at one place. */
  ghost predicate IsLayout(placed: seq<Placed>, layers: map<string, nat>, bound: nat) {
    && (forall i :: 0 <= i < |placed| ==>
          placed[i].id in layers && layers[placed[i].id] < bound
          && placed[i].x == LAYER_X_SPACING * layers[placed[i].id])
    && (forall n :: n in layers && layers[n] < bound ==> exists i :: 0 <= i < |placed| && placed[i].id == n)
    && (forall i, j :: 0 <= i < j < |placed| ==>
          placed[i].id != placed[j].id && (placed[i].x, placed[i].y) != (placed[j].x, placed[j].y))
  }

  function PlaceLayer(nodes: seq<string>, l: nat): (r: seq<Placed>)
    ensures |r| == |nodes|
    ensures forall i :: 0 <= i < |nodes| ==> r[i] == Placed(nodes[i], LAYER_X_SPACING * l, NODE_Y_SPACING * i)
  {
    seq(|nodes|, i requires 0 <= i < |nodes| => Placed(nodes[i], LAYER_X_SPACING * l, NODE_Y_SPACING * i))
  }

  lemma LayoutGrows(placed: seq<Placed>, layers: map<string, nat>, bound: nat, nodes: seq<string>)
    requires IsLayout(placed, layers, bound) && Distinct(nodes)
    requires forall n :: n in nodes <==> n in layers && layers[n] == bound
    ensures IsLayout(placed + PlaceLayer(nodes, bound), layers, bound + 1)
  {
    var added := PlaceLayer(nodes, bound);
    var all := placed + added;
    forall i | 0 <= i < |added|
      ensures added[i].id in layers && layers[added[i].id] == bound
    {
      assert nodes[i] in nodes;
    }
    forall n | n in layers && layers[n] < bound + 1
      ensures exists i :: 0 <= i < |all| && all[i].id == n
    {
      if layers[n] < bound {
        var i :| 0 <= i < |placed| && placed[i].id == n;
        assert all[i].id == n;
      } else {
        var i :| 0 <= i < |nodes| && nodes[i] == n;
        assert all[|placed| + i].id == n;
      }
    }
    forall i, j | 0 <= i < j < |all|
      ensures all[i].id != all[j].id && (all[i].x, all[i].y) != (all[j].x, all[j].y)
    {
      if j < |placed| {
        assert all[i] == placed[i] && all[j] == placed[j];
      } else if i >= |placed| {
        assert all[i] == added[i - |placed|] && all[j] == added[j - |placed|];
      } else {
        assert all[i] == placed[i] && all[j] == added[j - |placed|];
      }
    }
  }

  /** The nodes of the node's layer that come before it. */
  ghost function Above(topo: seq<string>, layers: map<string, nat>, n: string): set<string>
    requires n in layers
  {
    set m | m in topo && m in layers && layers[m] == layers[n] && IndexOf(topo, m) < IndexOf(topo, n)
  }

  lemma {:induction false} IndexInPrefix(front: seq<string>, last: string, m: string)
    ensures m in front ==> IndexOf(front + [last], m) == IndexOf(front, m) < |front|
    ensures last !in front ==> IndexOf(front + [last], last) == |front|
  {
    if front == [] {
      assert front + [last] == [last];
    } else {
      assert (front + [last])[0] == front[0] && (front + [last])[1..] == front[1..] + [last];
      IndexInPrefix(front[1..], last, m);
    }
  }

  /** A node's place in its layer is the number of those above it. */
  lemma {:induction false} PlaceIsAbove(topo: seq<string>, layers: map<string, nat>, l: nat, i: nat)
    requires Distinct(topo) && i < |LayerNodes(topo, layers, l)|
    ensures LayerNodes(topo, layers, l)[i] in layers
    ensures |Above(topo, layers, LayerNodes(topo, layers, l)[i])| == i
  {
    var front, last, n := topo[..|topo| - 1], topo[|topo| - 1], LayerNodes(topo, layers, l)[i];
    var before := LayerNodes(front, layers, l);
    assert topo == front + [last] && n in LayerNodes(topo, layers, l);
    FrontDistinct(topo);
    hide IndexOf, Above, Distinct;
    if i < |before| {
      PlaceIsAbove(front, layers, l, i);
      assert n == before[i] && n in before;
      SameAbove(front, last, layers, n);
    } else {
      AllAbove(front, last, layers);
      assert Above(topo, layers, n) == set m | m in before;
      DistinctSize(before);
    }
  }

  lemma FrontDistinct(s: seq<string>)
    requires Distinct(s) && s != []
    ensures Distinct(s[..|s| - 1]) && s[|s| - 1] !in s[..|s| - 1]
  {
  }

  lemma SameAbove(front: seq<string>, last: string, layers: map<string, nat>, n: string)
    requires n in front && n in layers && last !in front
    ensures Above(front + [last], layers, n) == Above(front, layers, n)
  {
    hide IndexOf;
    forall m { IndexInPrefix(front, last, m); }
  }

  lemma AllAbove(front: seq<string>, last: string, layers: map<string, nat>)
    requires last in layers && last !in front
    ensures Above(front + [last], layers, last) == set m | m in front && m in layers && layers[m] == layers[last]
  {
    hide IndexOf;
    forall m { IndexInPrefix(front, last, m); }
  }

  lemma MoreInOrder(a: seq<Placed>, b: seq<Placed>, topo: seq<string>, layers: map<string, nat>)
    requires InOrder(a, topo, layers) && InOrder(b, topo, layers)
    ensures InOrder(a + b, topo, layers)
  {
    hide Above;
  }

  ghost predicate InOrder(placed: seq<Placed>, topo: seq<string>, layers: map<string, nat>) {
    forall i :: 0 <= i < |placed| ==>
      placed[i].id in layers && placed[i].y == NODE_Y_SPACING * |Above(topo, layers, placed[i].id)|
  }

  lemma {:induction false} LayerInOrder(topo: seq<string>, layers: map<string, nat>, l: nat)
    requires Distinct(topo)
    ensures InOrder(PlaceLayer(LayerNodes(topo, layers, l), l), topo, layers)
  {
    hide Above;
    forall i | 0 <= i < |LayerNodes(topo, layers, l)| {
      PlaceIsAbove(topo, layers, l, i);
    }
  }

  /** The layout places every node exactly once, in the column of its layer and below the
      nodes of that layer that come before it, and no two nodes share a position. */
  method PositionNodes(topo: seq<string>, layers: map<string, nat>) returns (placed: seq<Placed>)
    requires Distinct(topo) && forall n :: n in layers <==> n in topo
    ensures |placed| == |topo|
    ensures forall n :: n in layers ==> exists i :: 0 <= i < |placed| && placed[i].id == n
    ensures forall i :: 0 <= i < |placed| ==>
      placed[i].id in layers && placed[i].x == LAYER_X_SPACING * layers[placed[i].id]
    ensures InOrder(placed, topo, layers)
    ensures forall i, j :: 0 <= i < j < |placed| ==>
      placed[i].id != placed[j].id && (placed[i].x, placed[i].y) != (placed[j].x, placed[j].y)
  {
    hide Above, LayerNodes, PlaceLayer;
    placed := [];
    var bound := 0;
    for k := 0 to |topo|
      invariant forall i :: 0 <= i < k ==> layers[topo[i]] < bound
    {
      assert topo[k] in topo;
      if layers[topo[k]] >= bound {
        bound := layers[topo[k]] + 1;
      }
    }
    for l := 0 to bound
      invariant IsLayout(placed, layers, l) && InOrder(placed, topo, layers)
    {
      hide IsLayout, InOrder;
      var nodes := LayerNodes(topo, layers, l);
      LayerInOrder(topo, layers, l);
      MoreInOrder(placed, PlaceLayer(nodes, l), topo, layers);
      LayoutGrows(placed, layers, l, nodes);
      placed := placed + PlaceLayer(nodes, l);
    }
    SameLength(placed, topo, layers);
  }

  lemma SameLength(placed: seq<Placed>, topo: seq<string>, layers: map<string, nat>)
    requires Distinct(topo) && forall n :: n in layers <==> n in topo
    requires forall n :: n in layers ==> exists i :: 0 <= i < |placed| && placed[i].id == n
    requires forall i :: 0 <= i < |placed| ==> placed[i].id in layers
    requires forall i, j :: 0 <= i < j < |placed| ==> placed[i].id != placed[j].id
    ensures |placed| == |topo|
  {
    var ids := seq(|placed|, i requires 0 <= i < |placed| => placed[i].id);
    DistinctSize(ids);
    DistinctSize(topo);
    assert (set n | n in ids) == (set n | n in topo) by {
      forall n | n in topo
        ensures n in ids
      {
        var i :| 0 <= i < |placed| && placed[i].id == n;
        assert ids[i] == n;
      }
    }
  }

  lemma {:induction false} DistinctSize(s: seq<string>)
    requires Distinct(s)
    ensures |set n | n in s| == |s|
  {
    if s != [] {
      var k := |s| - 1;
      DistinctSize(s[..k]);
      assert s == s[..k] + [s[k]];
      assert (set n | n in s) == (set n | n in s[..k]) + {s[k]};
    }
  }
}
