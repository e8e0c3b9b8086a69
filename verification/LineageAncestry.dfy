/** The ancestry query on the graph of a recorded run, in terms of the records. */
module LineageAncestry {
  import opened Basics
  import opened Digraph
  import opened LineageIds
  import opened Lineage
  import opened LineageRuns
  import opened LineageQueries

  // ----- the nodes a record names

  /** A column node as a record sets it: a source column exactly for loads. */
  function ColumnAttrs(step: string, column: string, source: bool): Attributes {
    if source then SourceColumn(step, column) else OutputColumn(step, column)
  }

  ghost predicate GivesNode(columns: seq<string>, step: string, source: bool, n: string, a: Attributes) {
    exists c :: c in columns && n == ColumnId(step, c) && a == ColumnAttrs(step, c, source)
  }

  /** A record names its step, the file it loads, the columns it gives and the file it saves. */
  ghost predicate NamesNode(r: Record, n: string, a: Attributes) {
    || (n == StepId(r.step) && a == StepNode(r.step, StepType(r)))
    || (r.Load? && n == FileId(r.fileId) && a == SourceFile(r.fileName))
    || GivesNode(Outputs(r), r.step, r.Load?, n, a)
    || (r.Save? && n == OutputId(r.step, r.filename) && a == OutputFile(r.filename))
  }

  ghost predicate Besides(n: string) { "col::" <= n || "output::" <= n }

  lemma KindsApart(n: string, step: string, file: string)
    ensures Besides(n) ==> n != StepId(step) && n != FileId(file)
    ensures StepId(step) != FileId(file)
  {
    assert StepId(step)[0] == 's' && FileId(file)[0] == 'f' && "col::"[0] == 'c' && "output::"[0] == 'o';
  }

  lemma ColumnIsBesides(step: string, column: string)
    ensures Besides(ColumnId(step, column)) && Besides(OutputId(step, column))
    ensures ColumnId(step, column) != OutputId(step, column)
  {
    assert ColumnId(step, column)[..5] == "col::";
    assert OutputId(step, column)[..8] == "output::";
  }

  lemma GivesNodePlus(a: seq<string>, b: seq<string>, step: string, source: bool, n: string, t: Attributes)
    ensures GivesNode(a + b, step, source, n, t) <==>
      GivesNode(a, step, source, n, t) || GivesNode(b, step, source, n, t)
  {
    hide ColumnId;
    assert forall c :: c in a + b <==> c in a || c in b;
  }

  lemma GivesNodeOne(c: string, step: string, source: bool, n: string, t: Attributes)
    ensures GivesNode([c], step, source, n, t) <==> n == ColumnId(step, c) && t == ColumnAttrs(step, c, source)
  {
    hide ColumnId;
    assert c in [c];
  }

  lemma {:induction false} CarryNames(
    step: string, input: string, columns: seq<string>, mapping: map<string, string>, n: string, t: Attributes)
    ensures Node(n, t) in CarryAll(step, input, columns, mapping) <==>
      GivesNode(RenamedAll(mapping, columns), step, false, n, t)
  {
    hide ColumnId, StepId;
    if columns != [] {
      var k := |columns| - 1;
      CarryNames(step, input, columns[..k], mapping, n, t);
      assert RenamedAll(mapping, columns) == RenamedAll(mapping, columns[..k]) + [Renamed(mapping, columns[k])];
      hide GivesNode, RenamedAll;
      GivesNodePlus(RenamedAll(mapping, columns[..k]), [Renamed(mapping, columns[k])], step, false, n, t);
      GivesNodeOne(Renamed(mapping, columns[k]), step, false, n, t);
    }
  }

  lemma {:induction false} GiveNames(step: string, columns: seq<string>, source: bool, n: string, t: Attributes)
    ensures Node(n, t) in GiveAll(step, columns, source) <==> GivesNode(columns, step, source, n, t)
  {
    hide ColumnId, StepId;
    if columns != [] {
      var k := |columns| - 1;
      GiveNames(step, columns[..k], source, n, t);
      assert columns == columns[..k] + [columns[k]];
      hide GivesNode;
      GivesNodePlus(columns[..k], [columns[k]], step, source, n, t);
      GivesNodeOne(columns[k], step, source, n, t);
    }
  }

  lemma {:induction false} TakeNames(step: string, input: string, columns: seq<string>, n: string, t: Attributes)
    ensures Node(n, t) !in TakeAll(step, input, columns)
  {
    hide ColumnId, StepId;
    if columns != [] {
      TakeNames(step, input, columns[..|columns| - 1], n, t);
    }
  }

  lemma BodyNames(r: Record, n: string, t: Attributes)
    ensures Node(n, t) in Body(r) <==> GivesNode(Outputs(r), r.step, r.Load?, n, t)
  {
    hide ColumnId, StepId, OutputId, CarryAll, GiveAll, TakeAll, GivesNode;
    match r
    case Load(step, _, _, columns) => GiveNames(step, columns, true, n, t);
    case Passthrough(step, _, input, columns) =>
      CarryNames(step, input, columns, map[], n, t);
      assert RenamedAll(map[], columns) == columns;
    case Projection(step, input, kept, dropped) =>
      CarryNames(step, input, kept, map[], n, t);
      TakeNames(step, input, dropped, n, t);
      assert RenamedAll(map[], kept) == kept;
    case Rename(step, input, mapping, columns) => CarryNames(step, input, columns, mapping, n, t);
    case Join(step, left, right, leftColumns, rightColumns, outputs) =>
      TakeNames(step, left, leftColumns, n, t);
      TakeNames(step, right, rightColumns, n, t);
      GiveNames(step, outputs, false, n, t);
    case Aggregate(step, input, groupBy, aggregated, outputs) =>
      CarryNames(step, input, groupBy, map[], n, t);
      TakeNames(step, input, aggregated, n, t);
      GiveNames(step, outputs, false, n, t);
      assert RenamedAll(map[], groupBy) == groupBy;
      GivesNodePlus(groupBy, outputs, step, false, n, t);
    case Save(step, input, _, columns) =>
      TakeNames(step, input, columns, n, t);
      NoneGiven(step, n, t);
    case Reshape(step, _, input, inputs, outputs) =>
      TakeNames(step, input, inputs, n, t);
      GiveNames(step, outputs, false, n, t);
  }

  lemma NoneGiven(step: string, n: string, t: Attributes)
    ensures !GivesNode([], step, false, n, t)
  {
  }

  /** A record call sets exactly the nodes it names. */
  lemma RecordNames(r: Record, n: string, a: Attributes)
    ensures Node(n, a) in Changes(r) <==> NamesNode(r, n, a)
  {
    hide Body, StepId, FileId, OutputId, GivesNode, StepType;
    BodyNames(r, n, a);
    var h := Header(r);
    match r
    case Load(_, _, _, _) => assert h[0] in h && h[1] in h && h[2] in h;
    case Save(_, _, _, _) => assert h[0] in h && h[1] in h;
    case _ => assert h[0] in h;
  }

  // ----- the attributes of a graph

  ghost predicate Sets(cs: seq<Change>, n: string) { exists a :: Node(n, a) in cs }

  lemma ApplyOneAttrs(g: Graph, c: Change, n: string)
    ensures c.Node? && c.id == n ==> n in ApplyOne(g, c).attrs && ApplyOne(g, c).attrs[n] == c.attrs
    ensures !(c.Node? && c.id == n) ==> SameAttrs(g, ApplyOne(g, c), n)
  {
  }

  lemma SetsLast(front: seq<Change>, last: Change, n: string)
    ensures Sets(front + [last], n) <==> Sets(front, n) || (last.Node? && last.id == n)
  {
    if last.Node? && last.id == n {
      assert Node(n, last.attrs) in front + [last];
    }
    if a :| Node(n, a) in front {
      assert Node(n, a) in front + [last];
    }
  }

  lemma {:induction false} ApplyAttrs(g: Graph, cs: seq<Change>, n: string)
    ensures Sets(cs, n) ==> n in Apply(g, cs).attrs && Node(n, Apply(g, cs).attrs[n]) in cs
    ensures !Sets(cs, n) ==> SameAttrs(g, Apply(g, cs), n)
  {
    if cs != [] {
      hide Sets, ApplyOne, Changes;
      var k := |cs| - 1;
      var front, last := cs[..k], cs[k];
      ApplyAttrs(g, front, n);
      assert cs == front + [last];
      SetsLast(front, last, n);
      ApplyOneAttrs(Apply(g, front), last, n);
    }
  }

  /** A record call leaves its step's node as it set it. */
  lemma {:induction false} StepNodeSet(g: Graph, r: Record)
    ensures StepId(r.step) in Apply(g, Changes(r)).attrs
    ensures Apply(g, Changes(r)).attrs[StepId(r.step)] == StepNode(r.step, StepType(r))
  {
    hide StepId, FileId, OutputId, ColumnId, Outputs, StepType, Besides, Changes, Apply;
    var n, a := StepId(r.step), StepNode(r.step, StepType(r));
    RecordNames(r, n, a);
    assert Sets(Changes(r), n);
    ApplyAttrs(g, Changes(r), n);
    var b := Apply(g, Changes(r)).attrs[n];
    RecordNames(r, n, b);
    NamedKind(r, n, b);
    KindsApart(n, r.step, if r.Load? then r.fileId else "");
  }

  ghost predicate SameAttrs(g: Graph, g': Graph, n: string) {
    (n in g'.attrs <==> n in g.attrs) && (n in g'.attrs ==> g'.attrs[n] == g.attrs[n])
  }

  /** Some record names the node with these attributes. */
  ghost predicate Says(records: seq<Record>, n: string, a: Attributes) {
    exists i :: 0 <= i < |records| && NamesNode(records[i], n, a)
  }

  /** In the graph of a run a node has attributes exactly when a record names it, and
      then those under which a record names it. */
  lemma {:induction false} RunSays(records: seq<Record>, n: string)
    ensures n in GraphOf(records).attrs <==> exists a :: Says(records, n, a)
    ensures n in GraphOf(records).attrs ==> Says(records, n, GraphOf(records).attrs[n])
  {
    hide NamesNode, Changes, Apply;
    if records == [] {
      assert forall a :: !Says(records, n, a);
    } else {
      var k := |records| - 1;
      RunSays(records[..k], n);
      SaysStep(records[..k], records[k], n);
      ApplyAttrs(GraphOf(records[..k]), Changes(records[k]), n);
      assert records == records[..k] + [records[k]];
      forall a { RecordNames(records[k], n, a); }
    }
  }

  lemma SaysStep(records: seq<Record>, r: Record, n: string)
    ensures forall a :: Says(records + [r], n, a) <==> Says(records, n, a) || NamesNode(r, n, a)
  {
    hide NamesNode;
    var all := records + [r];
    assert all[|records|] == r && forall i :: 0 <= i < |records| ==> all[i] == records[i];
  }

  ghost predicate Loads(r: Record, n: string) { r.Load? && n == FileId(r.fileId) }

  ghost predicate HasStep(records: seq<Record>, n: string) {
    exists i :: 0 <= i < |records| && n == StepId(records[i].step)
  }

  ghost predicate HasFile(records: seq<Record>, n: string) {
    exists i :: 0 <= i < |records| && Loads(records[i], n)
  }

  ghost predicate IsRecordedStep(records: seq<Record>, n: string, a: Attributes) {
    exists i :: 0 <= i < |records| && n == StepId(records[i].step)
      && a == StepNode(records[i].step, StepType(records[i]))
  }

  ghost predicate IsRecordedFile(records: seq<Record>, n: string, a: Attributes) {
    exists i :: 0 <= i < |records| && Loads(records[i], n) && a == SourceFile(records[i].fileName)
  }

  /** The step nodes are those of the records, with their types, and the file nodes
      those of the loads, with a name they were loaded under. */
  lemma {:induction false} RunAttrs(records: seq<Record>, n: string)
    ensures var g := GraphOf(records);
      && (IsStep(g, n) <==> HasStep(records, n)) && (IsStep(g, n) ==> IsRecordedStep(records, n, g.attrs[n]))
      && (IsFile(g, n) <==> HasFile(records, n)) && (IsFile(g, n) ==> IsRecordedFile(records, n, g.attrs[n]))
  {
    hide GraphOf, StepId, FileId, OutputId, ColumnId, StepType, Besides, Outputs;
    RunSays(records, n);
    if i :| 0 <= i < |records| && n == StepId(records[i].step) {
      assert NamesNode(records[i], n, StepNode(records[i].step, StepType(records[i])));
      assert Says(records, n, StepNode(records[i].step, StepType(records[i])));
    }
    if i :| 0 <= i < |records| && Loads(records[i], n) {
      assert NamesNode(records[i], n, SourceFile(records[i].fileName));
      assert Says(records, n, SourceFile(records[i].fileName));
    }
    if n in GraphOf(records).attrs {
      var j :| 0 <= j < |records| && NamesNode(records[j], n, GraphOf(records).attrs[n]);
      NamedKind(records[j], n, GraphOf(records).attrs[n]);
      forall i | 0 <= i < |records|
        ensures !(n == StepId(records[i].step) && Loads(records[j], n))
        ensures !(n == StepId(records[j].step) && Loads(records[i], n))
        ensures Besides(n) ==> n != StepId(records[i].step) && !Loads(records[i], n)
      {
        KindsApart(n, records[i].step, if records[j].Load? then records[j].fileId else "");
        KindsApart(n, records[j].step, if records[i].Load? then records[i].fileId else "");
      }
    }
  }

  lemma NamedKind(r: Record, n: string, a: Attributes)
    requires NamesNode(r, n, a)
    ensures a.SourceColumn? || a.OutputColumn? || a.OutputFile? ==> Besides(n)
  {
    hide StepId, FileId, OutputId, ColumnId, StepType, Besides, Outputs;
    if c :| c in Outputs(r) && n == ColumnId(r.step, c) {
      ColumnIsBesides(r.step, c);
    }
    if r.Save? {
      ColumnIsBesides(r.step, r.filename);
    }
  }

  /** What a node's identifier says about the record that named it. */
  lemma NamedBy(records: seq<Record>, i: nat, n: string, a: Attributes)
    requires GoodRun(records) && i < |records| && NamesNode(records[i], n, a)
    ensures match a
      case StepNode(_, _) => Decode(n) == StepRef(records[i].step)
      case SourceFile(_) => Decode(n).FileRef?
      case SourceColumn(step, c) =>
        step == records[i].step && Decode(n) == ColumnRef(step, c) && records[i].Load? && c in Outputs(records[i])
      case OutputColumn(step, c) =>
        step == records[i].step && Decode(n) == ColumnRef(step, c) && !records[i].Load? && c in Outputs(records[i])
      case OutputFile(title) =>
        records[i].Save? && title == records[i].filename && Decode(n) == OutputRef(records[i].step, title)
  {
    hide Decode, StepId, FileId, OutputId, ColumnId, StepType, Outputs;
    var r := records[i];
    DecodeStep(r.step);
    if r.Load? { DecodeFile(r.fileId); }
    if r.Save? { DecodeOutput(r.step, r.filename); }
    if GivesNode(Outputs(r), r.step, r.Load?, n, a) {
      var c :| c in Outputs(r) && n == ColumnId(r.step, c) && a == ColumnAttrs(r.step, c, r.Load?);
      DecodeColumn(r.step, c);
    }
  }

  /** In the graph of a good run every column a record gives carries its step and its
      name, as a source column exactly for loads. */
  lemma {:induction false} ColumnSays(records: seq<Record>, i: nat, column: string)
    requires GoodRun(records) && i < |records| && column in Outputs(records[i])
    ensures ColumnId(records[i].step, column) in GraphOf(records).attrs
    ensures GraphOf(records).attrs[ColumnId(records[i].step, column)] ==
      if records[i].Load? then SourceColumn(records[i].step, column) else OutputColumn(records[i].step, column)
  {
    hide Decode, StepId, FileId, OutputId, ColumnId, StepType, Outputs, GraphOf;
    var r, n := records[i], ColumnId(records[i].step, column);
    RunSays(records, n);
    DecodeColumn(r.step, column);
    assert NamesNode(r, n, ColumnAttrs(r.step, column, r.Load?));
    assert Says(records, n, ColumnAttrs(r.step, column, r.Load?));
    var j :| 0 <= j < |records| && NamesNode(records[j], n, GraphOf(records).attrs[n]);
    NamedBy(records, j, n, GraphOf(records).attrs[n]);
    SameStep(records, i, j);
  }

  /** And every saved file carries its name. */
  lemma {:induction false} SavedSays(records: seq<Record>, i: nat)
    requires GoodRun(records) && i < |records| && records[i].Save?
    ensures OutputId(records[i].step, records[i].filename) in GraphOf(records).attrs
    ensures GraphOf(records).attrs[OutputId(records[i].step, records[i].filename)] == OutputFile(records[i].filename)
  {
    hide Decode, StepId, FileId, OutputId, ColumnId, StepType, Outputs, GraphOf;
    var r, n := records[i], OutputId(records[i].step, records[i].filename);
    RunSays(records, n);
    DecodeOutput(r.step, r.filename);
    assert NamesNode(r, n, OutputFile(r.filename));
    assert Says(records, n, OutputFile(r.filename));
    var j :| 0 <= j < |records| && NamesNode(records[j], n, GraphOf(records).attrs[n]);
    NamedBy(records, j, n, GraphOf(records).attrs[n]);
  }

  /** Every node was named by a record or stands at the end of an edge. */
  ghost predicate Tight(g: Graph) {
    forall n :: n in g.nodes ==> n in g.attrs || exists m :: (n, m) in g.edges || (m, n) in g.edges
  }

  lemma TightOne(g: Graph, c: Change)
    requires Tight(g)
    ensures Tight(ApplyOne(g, c))
  {
    var g' := ApplyOne(g, c);
    forall n | n in g'.nodes
      ensures n in g'.attrs || exists m :: (n, m) in g'.edges || (m, n) in g'.edges
    {
      if n in g.nodes && n !in g.attrs {
        var m :| (n, m) in g.edges || (m, n) in g.edges;
        assert (n, m) in g'.edges || (m, n) in g'.edges;
      } else if c.Edge? && n !in g.attrs {
        assert (c.source, c.target) in g'.edges;
      }
    }
  }

  lemma {:induction false} TightApply(g: Graph, cs: seq<Change>)
    requires Tight(g)
    ensures Tight(Apply(g, cs))
  {
    hide Tight, ApplyOne;
    if cs != [] {
      TightApply(g, cs[..|cs| - 1]);
      TightOne(Apply(g, cs[..|cs| - 1]), cs[|cs| - 1]);
    }
  }

  lemma {:induction false} RunIsTight(records: seq<Record>)
    ensures Tight(GraphOf(records))
  {
    hide Apply, Changes;
    if records != [] {
      RunIsTight(records[..|records| - 1]);
      TightApply(GraphOf(records[..|records| - 1]), Changes(records[|records| - 1]));
    }
  }

  /** The nodes of a run are the steps, files, columns and outputs its records name and
      the ends of the edges they stand for. */
  lemma {:induction false} RunNodes(records: seq<Record>, n: string)
    ensures n in GraphOf(records).nodes <==>
      (exists a :: Says(records, n, a))
      || exists i, m :: 0 <= i < |records| && (SaysEdge(records[i], n, m) || SaysEdge(records[i], m, n))
  {
    hide SaysEdge, GraphOf, Says;
    RunSays(records, n);
    RunEdges(records);
    RunIsTight(records);
    var g := GraphOf(records);
    if i, m :| 0 <= i < |records| && (SaysEdge(records[i], n, m) || SaysEdge(records[i], m, n)) {
      assert (n, m) in g.edges || (m, n) in g.edges;
    }
    if n in g.nodes && n !in g.attrs {
      var m :| (n, m) in g.edges || (m, n) in g.edges;
    }
  }

  // ----- the query

  /** The target column flows from a column that the record's step gives. */
  ghost predicate OnFlow(records: seq<Record>, r: Record, target: (string, string)) {
    exists chain :: FlowFrom(records, r, target, chain)
  }

  ghost predicate FlowFrom(records: seq<Record>, r: Record, target: (string, string), chain: seq<(string, string)>) {
    Chain(records, chain) && chain[0].0 == r.step && chain[0].1 in Outputs(r) && chain[|chain| - 1] == target
  }

  /** A step node reaches a column exactly when the column flows from what the step gives. */
  lemma {:induction false} StepReaches(records: seq<Record>, j: nat, target: (string, string))
    requires GoodRun(records) && j < |records| && ':' !in target.0
    ensures Reach(GraphOf(records), StepId(records[j].step), ColumnId(target.0, target.1)) <==>
      OnFlow(records, records[j], target)
  {
    hide ColumnId, StepId, FileId, OutputId, Inputs, Outputs, GraphOf, Decode;
    var r, g := records[j], GraphOf(records);
    if p :| PathFromTo(g, p, StepId(r.step), ColumnId(target.0, target.1)) {
      PathFromStep(records, j, p, target);
    }
    if chain :| FlowFrom(records, r, target, chain) {
      ChainFromStep(records, j, chain);
    }
  }

  lemma {:induction false} PathFromStep(records: seq<Record>, j: nat, p: seq<string>, target: (string, string))
    requires GoodRun(records) && j < |records| && ':' !in target.0
    requires PathFromTo(GraphOf(records), p, StepId(records[j].step), ColumnId(target.0, target.1))
    ensures OnFlow(records, records[j], target)
  {
    hide ColumnId, StepId, FileId, OutputId, Inputs, Outputs, GraphOf, Decode;
    var r := records[j];
    var c := NextIsColumn(records, j, p, target);
    assert PathFromTo(GraphOf(records), p[1..], ColumnId(r.step, c), ColumnId(target.0, target.1));
    var chain := PathIsChain(records, p[1..], (r.step, c), target);
    assert FlowFrom(records, r, target, chain);
  }

  lemma NextIsColumn(records: seq<Record>, j: nat, p: seq<string>, target: (string, string)) returns (c: string)
    requires GoodRun(records) && j < |records| && ':' !in target.0
    requires PathFromTo(GraphOf(records), p, StepId(records[j].step), ColumnId(target.0, target.1))
    ensures |p| > 1 && c in Outputs(records[j]) && p[1] == ColumnId(records[j].step, c)
  {
    hide ColumnId, StepId, FileId, OutputId, Inputs, Outputs, GraphOf, Decode;
    var r := records[j];
    DecodeStep(r.step);
    DecodeColumn(target.0, target.1);
    assert (p[0], p[1]) in GraphOf(records).edges;
    FromStep(records, j, p[1]);
    if r.Save? && p[1] == OutputId(r.step, r.filename) {
      DecodeOutput(r.step, r.filename);
      FromOutput(records, j, if |p| > 2 then p[2] else "");
    }
    c :| c in Outputs(r) && p[1] == ColumnId(r.step, c);
  }

  lemma {:induction false} ChainFromStep(records: seq<Record>, j: nat, chain: seq<(string, string)>)
    requires j < |records| && Chain(records, chain) && chain[0].0 == records[j].step
    requires chain[0].1 in Outputs(records[j])
    ensures var target := chain[|chain| - 1];
      Reach(GraphOf(records), StepId(records[j].step), ColumnId(target.0, target.1))
  {
    hide ColumnId, StepId, FileId, OutputId, Inputs, Outputs, GraphOf, Reach, Flows;
    var r, g, first := records[j], GraphOf(records), chain[0];
    RunEdges(records);
    assert SaysEdge(r, StepId(r.step), ColumnId(r.step, first.1));
    assert (StepId(r.step), ColumnId(first.0, first.1)) in g.edges;
    ReachSelf(g, StepId(r.step));
    ReachLast(g, StepId(r.step), StepId(r.step), ColumnId(first.0, first.1));
    if |chain| > 1 {
      ChainReaches(records, chain);
      var target := chain[|chain| - 1];
      ReachTrans(g, StepId(r.step), ColumnId(first.0, first.1), ColumnId(target.0, target.1));
    }
  }

  /** An edge out of a file comes from a load of it. */
  lemma FileEdge(records: seq<Record>, f: string, v: string) returns (j: nat)
    requires (FileId(f), v) in GraphOf(records).edges
    ensures j < |records| && Loads(records[j], FileId(f)) && v == StepId(records[j].step)
  {
    hide ColumnId, StepId, FileId, OutputId, Inputs, Outputs, GraphOf, Besides;
    RunEdges(records);
    j :| 0 <= j < |records| && SaysEdge(records[j], FileId(f), v);
    var r := records[j];
    KindsApart(FileId(f), r.step, f);
    if c :| c in Inputs(r) && FileId(f) == ColumnId(c.0, c.1) {
      ColumnIsBesides(c.0, c.1);
    }
  }

  lemma FileToStep(records: seq<Record>, f: string, p: seq<string>, target: (string, string)) returns (j: nat)
    requires PathFromTo(GraphOf(records), p, FileId(f), ColumnId(target.0, target.1))
    ensures j < |records| && Loads(records[j], FileId(f))
    ensures Reach(GraphOf(records), StepId(records[j].step), ColumnId(target.0, target.1))
  {
    hide ColumnId, StepId, OutputId, GraphOf, Besides, FileId;
    ColumnIsBesides(target.0, target.1);
    KindsApart(ColumnId(target.0, target.1), "", f);
    assert (p[0], p[1]) in GraphOf(records).edges;
    j := FileEdge(records, f, p[1]);
    assert PathFromTo(GraphOf(records), p[1..], StepId(records[j].step), ColumnId(target.0, target.1));
  }

  lemma {:induction false} StepToFile(records: seq<Record>, j: nat, target: (string, string))
    requires j < |records| && records[j].Load?
    requires Reach(GraphOf(records), StepId(records[j].step), ColumnId(target.0, target.1))
    ensures Reach(GraphOf(records), FileId(records[j].fileId), ColumnId(target.0, target.1))
  {
    hide ColumnId, StepId, OutputId, Inputs, Outputs, GraphOf, FileId, Reach;
    var g, n := GraphOf(records), FileId(records[j].fileId);
    RunEdges(records);
    assert SaysEdge(records[j], n, StepId(records[j].step));
    assert (n, StepId(records[j].step)) in g.edges;
    ReachEdge(g, n, StepId(records[j].step), ColumnId(target.0, target.1));
  }

  /** A file reaches a column exactly when the column flows from what a load of it gives. */
  lemma {:induction false} FileReaches(records: seq<Record>, f: string, target: (string, string))
    requires GoodRun(records) && ':' !in target.0
    ensures Reach(GraphOf(records), FileId(f), ColumnId(target.0, target.1)) <==>
      exists j :: 0 <= j < |records| && Loads(records[j], FileId(f)) && OnFlow(records, records[j], target)
  {
    hide ColumnId, StepId, OutputId, GraphOf, OnFlow, FileId;
    if Reach(GraphOf(records), FileId(f), ColumnId(target.0, target.1)) {
      var p :| PathFromTo(GraphOf(records), p, FileId(f), ColumnId(target.0, target.1));
      var j := FileToStep(records, f, p, target);
      StepReaches(records, j, target);
    }
    if j :| 0 <= j < |records| && Loads(records[j], FileId(f)) && OnFlow(records, records[j], target) {
      StepReaches(records, j, target);
      StepToFile(records, j, target);
    }
  }

  ghost predicate Explains(records: seq<Record>, target: (string, string), node: string, t: Transformation) {
    exists j :: 0 <= j < |records| && OnFlow(records, records[j], target)
      && node == StepId(records[j].step) && t == Transformation(records[j].step, StepType(records[j]))
  }

  /** A load of the file lies on a flow into the target, and the file was loaded under
      that name. */
  ghost predicate ComesFrom(records: seq<Record>, target: (string, string), file: string) {
    exists j, m :: 0 <= j < |records| && 0 <= m < |records| && records[j].Load? && OnFlow(records, records[j], target)
      && records[m].Load? && records[m].fileId == records[j].fileId && records[m].fileName == file
  }

  /** Asked about an output column of a recorded run, the ancestry query lists exactly the
      recorded steps on a flow into the column, each once with its type and in
      topological order, and names a file whose load lies on such a flow.  When every
      step that gives columns was recorded with something it read, and no file is called
      "unknown", it always names one. */
  method AncestryOfRun(records: seq<Record>, i: nat, column: string, topo: seq<string>)
    returns (file: string, steps: seq<string>, chain: seq<Transformation>)
    requires GoodRun(records) && i < |records| && column in Outputs(records[i]) && IsTopological(GraphOf(records), topo)
    ensures |chain| == |steps| && Distinct(steps) && SortedBy(steps, n => IndexOf(topo, n))
    ensures forall k :: 0 <= k < |steps| ==> Explains(records, (records[i].step, column), steps[k], chain[k])
    ensures forall j :: 0 <= j < |records| && OnFlow(records, records[j], (records[i].step, column)) ==>
      StepId(records[j].step) in steps
    ensures file != "unknown" ==> ComesFrom(records, (records[i].step, column), file)
    ensures ColumnsKnown(records) && Fed(records) && NoUnknown(records) ==> file != "unknown"
  {
    var g, target := GraphOf(records), (records[i].step, column);
    ghost var met;
    ColumnRecorded(records, i, column);
    hide ColumnId, StepId, FileId, OutputId, Inputs, Outputs, GraphOf, OnFlow, Reach, IsTopological, IndexOf;
    file, steps, chain, met := GetColumnAncestry(g, records[i].step, column, topo);
    forall k | 0 <= k < |steps| ensures Explains(records, target, steps[k], chain[k]) {
      StepExplained(records, target, steps[k]);
    }
    forall j | 0 <= j < |records| && OnFlow(records, records[j], target) ensures StepId(records[j].step) in steps {
      StepReaches(records, j, target);
      RunAttrs(records, StepId(records[j].step));
    }
    if file != UNKNOWN {
      ghost var k :| 0 <= k < |met| && NamedAt(g, met, file, k);
      assert met[k] in met;
      FileExplained(records, target, met[k]);
    } else if ColumnsKnown(records) && Fed(records) && NoUnknown(records) {
      FileFound(records, i, column);
    }
  }

  ghost predicate NoUnknown(records: seq<Record>) {
    forall j :: 0 <= j < |records| && records[j].Load? ==> records[j].fileName != "unknown"
  }

  lemma {:induction false} ColumnRecorded(records: seq<Record>, i: nat, column: string)
    requires i < |records| && column in Outputs(records[i])
    ensures Valid(GraphOf(records)) && ColumnId(records[i].step, column) in GraphOf(records).nodes
  {
    hide ColumnId, StepId, FileId, OutputId, Outputs, GraphOf;
    RunEdges(records);
    assert SaysEdge(records[i], StepId(records[i].step), ColumnId(records[i].step, column));
    assert (StepId(records[i].step), ColumnId(records[i].step, column)) in GraphOf(records).edges;
  }

  lemma {:induction false} StepExplained(records: seq<Record>, target: (string, string), n: string)
    requires GoodRun(records) && ':' !in target.0
    requires IsStep(GraphOf(records), n) && Reach(GraphOf(records), n, ColumnId(target.0, target.1))
    ensures Explains(records, target, n, TransformationOf(GraphOf(records), n))
  {
    hide ColumnId, StepId, GraphOf, OnFlow, Reach, StepType;
    RunAttrs(records, n);
    var j :| 0 <= j < |records| && n == StepId(records[j].step)
      && GraphOf(records).attrs[n] == StepNode(records[j].step, StepType(records[j]));
    StepReaches(records, j, target);
  }

  lemma {:induction false} FileExplained(records: seq<Record>, target: (string, string), n: string)
    requires GoodRun(records) && ':' !in target.0
    requires IsFile(GraphOf(records), n) && Reach(GraphOf(records), n, ColumnId(target.0, target.1))
    ensures ComesFrom(records, target, GraphOf(records).attrs[n].title)
  {
    hide ColumnId, StepId, FileId, GraphOf, OnFlow, Reach;
    RunAttrs(records, n);
    var i :| 0 <= i < |records| && Loads(records[i], n);
    FileReaches(records, records[i].fileId, target);
    var j :| 0 <= j < |records| && Loads(records[j], n) && OnFlow(records, records[j], target);
    var m :| 0 <= m < |records| && Loads(records[m], n) && GraphOf(records).attrs[n] == SourceFile(records[m].fileName);
    DecodeFile(records[j].fileId);
    DecodeFile(records[m].fileId);
  }

  lemma {:induction false} FileFound(records: seq<Record>, i: nat, column: string)
    requires GoodRun(records) && ColumnsKnown(records) && Fed(records) && NoUnknown(records)
    requires i < |records| && column in Outputs(records[i])
    ensures var g, target := GraphOf(records), ColumnId(records[i].step, column);
      exists n :: IsNamedFile(g, n) && Reach(g, n, target)
  {
    hide ColumnId, StepId, FileId, OutputId, Inputs, Outputs, GraphOf;
    FedIsTraced(records, i, column);
    var g, t := GraphOf(records), (records[i].step, column);
    var f :| Reach(g, FileId(f), ColumnId(t.0, t.1));
    var p :| PathFromTo(g, p, FileId(f), ColumnId(t.0, t.1));
    var j := FileToStep(records, f, p, t);
    RunAttrs(records, FileId(f));
  }
}
