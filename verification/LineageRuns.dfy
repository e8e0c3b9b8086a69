/** What the graph of a whole recorded run means: it has no cycles, and a column
    reaches another exactly through a chain of recorded column flows. */
module LineageRuns {
  import opened Digraph
  import opened LineageIds
  import opened Lineage
  import Pipeline
  import Parser

  /** Steps recorded in pipeline order under the names the parser accepts: distinct,
      without a colon, each reading columns of earlier steps. */
  ghost predicate GoodRun(records: seq<Record>) {
    && (forall i, j :: 0 <= i < j < |records| ==> records[i].step != records[j].step)
    && (forall i :: 0 <= i < |records| ==> ':' !in records[i].step)
    && (forall i, c :: 0 <= i < |records| && c in Inputs(records[i]) ==> RecordedBefore(records, i, c.0))
  }

  ghost predicate RecordedBefore(records: seq<Record>, k: nat, step: string) {
    exists j :: 0 <= j < k && j < |records| && records[j].step == step
  }

  /** A pipeline the parser accepts, recorded step by step, is such a run. */
  lemma AcceptedPipelineRecordsWell(steps: seq<Pipeline.Step>, records: seq<Record>)
    requires Parser.WellFormed(steps) && |records| == |steps|
    requires forall i :: 0 <= i < |steps| ==> records[i].step == steps[i].name
    requires forall i, c :: 0 <= i < |steps| && c in Inputs(records[i]) ==> c.0 in Pipeline.StepInputs(steps[i])
    ensures GoodRun(records)
  {
    hide Inputs, Pipeline.StepInputs, Parser.IsIdentifier;
    forall i | 0 <= i < |records|
      ensures ':' !in records[i].step
    {
      assert Parser.WellFormedStep(steps[i]);
      Parser.IdentifierFacts(steps[i].name);
    }
    forall i, c | 0 <= i < |records| && c in Inputs(records[i])
      ensures RecordedBefore(records, i, c.0)
    {
      assert Pipeline.NamesStepBefore(steps, i, c.0);
      var j :| 0 <= j < i && steps[j].name == c.0;
      assert records[j].step == c.0;
    }
  }

  /** The position of the record of a step, or the number of records. */
  function Position(records: seq<Record>, step: string): (k: nat)
    ensures k <= |records|
    ensures k < |records| ==> records[k].step == step
    ensures forall i :: 0 <= i < k ==> records[i].step != step
  {
    if records == [] || records[0].step == step then 0
    else
      var k := Position(records[1..], step);
      assert forall i :: 1 <= i < 1 + k ==> records[i] == records[1..][i - 1];
      1 + k
  }

  /** Files first, then for each step its node and after it its columns and outputs. */
  function Rank(records: seq<Record>, id: string): int {
    match Decode(id)
    case FileRef(_) => 0
    case StepRef(step) => 3 * Position(records, step) + 1
    case ColumnRef(step, _) => 3 * Position(records, step) + 2
    case OutputRef(step, _) => 3 * Position(records, step) + 2
    case NoRef => 0
  }

  lemma {:induction false} PositionOf(records: seq<Record>, i: nat)
    requires GoodRun(records) && i < |records|
    ensures Position(records, records[i].step) == i
  {
  }

  lemma EdgeClimbs(records: seq<Record>, i: nat, u: string, v: string)
    requires GoodRun(records) && i < |records| && SaysEdge(records[i], u, v)
    ensures Rank(records, u) < Rank(records, v)
  {
    hide Decode, ColumnId, StepId, FileId, OutputId, Inputs, Outputs;
    var r := records[i];
    PositionOf(records, i);
    DecodeStep(r.step);
    if Takes(Inputs(r), r.step, u, v) {
      var c :| c in Inputs(r) && u == ColumnId(c.0, c.1);
      assert RecordedBefore(records, i, c.0);
      var j :| 0 <= j < i && records[j].step == c.0;
      PositionOf(records, j);
      DecodeColumn(c.0, c.1);
    } else if Gives(Outputs(r), r.step, u, v) {
      var c :| c in Outputs(r) && v == ColumnId(r.step, c);
      DecodeColumn(r.step, c);
    } else if r.Load? {
      DecodeFile(r.fileId);
    } else {
      DecodeOutput(r.step, r.filename);
    }
  }

  lemma {:induction false} RunIsRanked(records: seq<Record>)
    requires GoodRun(records)
    ensures Ranks(GraphOf(records), id => Rank(records, id))
  {
    hide GraphOf, SaysEdge, Rank;
    RunEdges(records);
    forall e | e in GraphOf(records).edges
      ensures Rank(records, e.0) < Rank(records, e.1)
    {
      assert (e.0, e.1) in GraphOf(records).edges;
      var i :| 0 <= i < |records| && SaysEdge(records[i], e.0, e.1);
      EdgeClimbs(records, i, e.0, e.1);
    }
  }

  /** The graph of a run has no cycle, so the fallback for cyclic graphs in the
      queries is never taken. */
  lemma {:induction false} RunIsAcyclic(records: seq<Record>)
    requires GoodRun(records)
    ensures !exists p :: IsCycle(GraphOf(records), p)
  {
    RunIsRanked(records);
    RankedIsAcyclic(GraphOf(records), id => Rank(records, id));
  }

  // ----- which edges leave and enter a node

  /** What the two ends of a record's edge are, read off their identifiers. */
  ghost predicate Ends(r: Record, u: string, v: string) {
    match Decode(u)
    case FileRef(fileId) => r.Load? && fileId == r.fileId && Decode(v) == StepRef(r.step)
    case ColumnRef(step, column) => (step, column) in Inputs(r) && Decode(v) == StepRef(r.step)
    case StepRef(step) =>
      && step == r.step
      && (match Decode(v)
          case ColumnRef(step', column) => step' == r.step && column in Outputs(r)
          case OutputRef(_, _) => r.Save?
          case _ => false)
    case _ => false
  }

  lemma EdgeEnds(records: seq<Record>, i: nat, u: string, v: string)
    requires GoodRun(records) && i < |records| && SaysEdge(records[i], u, v)
    ensures Ends(records[i], u, v)
  {
    hide Decode, ColumnId, StepId, FileId, OutputId, Inputs, Outputs;
    var r := records[i];
    DecodeStep(r.step);
    if Takes(Inputs(r), r.step, u, v) {
      var c :| c in Inputs(r) && u == ColumnId(c.0, c.1);
      assert RecordedBefore(records, i, c.0);
      DecodeColumn(c.0, c.1);
    } else if Gives(Outputs(r), r.step, u, v) {
      var c :| c in Outputs(r) && v == ColumnId(r.step, c);
      DecodeColumn(r.step, c);
    } else if r.Load? {
      DecodeFile(r.fileId);
    } else {
      DecodeOutput(r.step, r.filename);
    }
  }

  lemma EdgeOf(records: seq<Record>, u: string, v: string) returns (i: nat)
    requires GoodRun(records) && (u, v) in GraphOf(records).edges
    ensures i < |records| && SaysEdge(records[i], u, v) && Ends(records[i], u, v)
  {
    hide SaysEdge, GraphOf, GoodRun, Ends;
    RunEdges(records);
    i :| 0 <= i < |records| && SaysEdge(records[i], u, v);
    EdgeEnds(records, i, u, v);
  }

  /** Identifiers with the same reading inside a run are equal. */
  lemma SameStep(records: seq<Record>, i: nat, j: nat)
    requires GoodRun(records) && i < |records| && j < |records| && records[i].step == records[j].step
    ensures i == j
  {
  }

  /** An edge out of a column goes to the node of a step that reads it. */
  lemma FromColumn(records: seq<Record>, c: (string, string), v: string) returns (i: nat)
    requires GoodRun(records) && ':' !in c.0
    requires (ColumnId(c.0, c.1), v) in GraphOf(records).edges
    ensures i < |records| && v == StepId(records[i].step) && c in Inputs(records[i])
  {
    DecodeColumn(c.0, c.1);
    hide GraphOf, Inputs, Outputs, Decode, ColumnId, StepId, FileId, OutputId, GoodRun;
    i := EdgeOf(records, ColumnId(c.0, c.1), v);
    DecodeStep(records[i].step);
  }

  /** An edge out of a step node goes to one of its columns, or to its output file. */
  lemma {:induction false} FromStep(records: seq<Record>, i: nat, v: string)
    requires GoodRun(records) && i < |records|
    requires (StepId(records[i].step), v) in GraphOf(records).edges
    ensures Gives(Outputs(records[i]), records[i].step, StepId(records[i].step), v)
      || (records[i].Save? && v == OutputId(records[i].step, records[i].filename))
  {
    DecodeStep(records[i].step);
    hide GraphOf, Inputs, Outputs, Decode, ColumnId, StepId, FileId, OutputId, GoodRun, Gives;
    var j := EdgeOf(records, StepId(records[i].step), v);
    SameStep(records, i, j);
    NoStepFile(records[j], StepId(records[i].step));
    NoStepTaken(records, j, StepId(records[i].step), v);
  }

  lemma NoStepFile(r: Record, u: string)
    requires Decode(u).StepRef?
    ensures r.Load? ==> u != FileId(r.fileId)
  {
    if r.Load? { DecodeFile(r.fileId); }
  }

  lemma NoStepTaken(records: seq<Record>, j: nat, u: string, v: string)
    requires GoodRun(records) && j < |records| && Decode(u).StepRef?
    ensures !Takes(Inputs(records[j]), records[j].step, u, v)
  {
    hide Decode, ColumnId, StepId, Inputs;
    forall d | d in Inputs(records[j])
      ensures u != ColumnId(d.0, d.1)
    {
      assert RecordedBefore(records, j, d.0);
      DecodeColumn(d.0, d.1);
    }
  }

  /** An edge into a step node comes from a column it reads, or from its file. */
  lemma {:induction false} IntoStep(records: seq<Record>, i: nat, u: string)
    requires GoodRun(records) && i < |records|
    requires (u, StepId(records[i].step)) in GraphOf(records).edges
    ensures Takes(Inputs(records[i]), records[i].step, u, StepId(records[i].step))
      || (records[i].Load? && u == FileId(records[i].fileId))
  {
    var v := StepId(records[i].step);
    DecodeStep(records[i].step);
    hide GraphOf, Inputs, Outputs, Decode, ColumnId, StepId, FileId, OutputId, GoodRun, Takes;
    var j := EdgeOf(records, u, v);
    DecodeStep(records[j].step);
    SameStep(records, i, j);
    NoStepGiven(records, j, u, v);
  }

  lemma NoStepGiven(records: seq<Record>, j: nat, u: string, v: string)
    requires GoodRun(records) && j < |records| && Decode(v).StepRef?
    ensures !Gives(Outputs(records[j]), records[j].step, u, v)
    ensures records[j].Save? ==> v != OutputId(records[j].step, records[j].filename)
  {
    hide Decode, ColumnId, StepId, OutputId, Outputs;
    if records[j].Save? { DecodeOutput(records[j].step, records[j].filename); }
    forall d | d in Outputs(records[j])
      ensures v != ColumnId(records[j].step, d)
    {
      DecodeColumn(records[j].step, d);
    }
  }

  /** An edge into a column comes from the node of the step that gives it. */
  lemma IntoColumn(records: seq<Record>, c: (string, string), u: string) returns (i: nat)
    requires GoodRun(records) && ':' !in c.0
    requires (u, ColumnId(c.0, c.1)) in GraphOf(records).edges
    ensures i < |records| && records[i].step == c.0 && u == StepId(c.0) && c.1 in Outputs(records[i])
  {
    DecodeColumn(c.0, c.1);
    hide GraphOf, Inputs, Outputs, Decode, ColumnId, StepId, FileId, OutputId, GoodRun;
    i := EdgeOf(records, u, ColumnId(c.0, c.1));
    DecodeStep(records[i].step);
  }

  lemma {:induction false} FromOutput(records: seq<Record>, i: nat, v: string)
    requires GoodRun(records) && i < |records| && records[i].Save?
    ensures (OutputId(records[i].step, records[i].filename), v) !in GraphOf(records).edges
  {
    var u := OutputId(records[i].step, records[i].filename);
    DecodeOutput(records[i].step, records[i].filename);
    hide GraphOf, Inputs, Outputs, Decode, ColumnId, StepId, FileId, OutputId;
    if (u, v) in GraphOf(records).edges {
      var j := EdgeOf(records, u, v);
    }
  }

  // ----- column flow

  /** Some record reads column `a` and gives column `b`. */
  ghost predicate Flows(records: seq<Record>, a: (string, string), b: (string, string)) {
    exists i :: 0 <= i < |records| && records[i].step == b.0 && a in Inputs(records[i]) && b.1 in Outputs(records[i])
  }

  ghost predicate Chain(records: seq<Record>, chain: seq<(string, string)>) {
    chain != [] && forall i :: 0 <= i < |chain| - 1 ==> Flows(records, chain[i], chain[i + 1])
  }

  lemma {:induction false} FlowReaches(records: seq<Record>, a: (string, string), b: (string, string))
    requires Flows(records, a, b)
    ensures Reach(GraphOf(records), ColumnId(a.0, a.1), ColumnId(b.0, b.1))
  {
    hide ColumnId, StepId, FileId, OutputId, Inputs, Outputs, GraphOf, Reach;
    var i :| 0 <= i < |records| && records[i].step == b.0 && a in Inputs(records[i]) && b.1 in Outputs(records[i]);
    var g := GraphOf(records);
    RunEdges(records);
    assert SaysEdge(records[i], ColumnId(a.0, a.1), StepId(b.0));
    assert SaysEdge(records[i], StepId(b.0), ColumnId(b.0, b.1));
    assert (StepId(b.0), ColumnId(b.0, b.1)) in g.edges && (ColumnId(a.0, a.1), StepId(b.0)) in g.edges;
    ReachSelf(g, ColumnId(b.0, b.1));
    ReachEdge(g, StepId(b.0), ColumnId(b.0, b.1), ColumnId(b.0, b.1));
    ReachEdge(g, ColumnId(a.0, a.1), StepId(b.0), ColumnId(b.0, b.1));
  }

  /** Soundness: whatever a column derives from, through any number of recorded
      steps, is its ancestor in the graph. */
  lemma {:induction false} ChainReaches(records: seq<Record>, chain: seq<(string, string)>)
    requires Chain(records, chain) && |chain| > 1
    ensures Reach(GraphOf(records), ColumnId(chain[0].0, chain[0].1),
                  ColumnId(chain[|chain| - 1].0, chain[|chain| - 1].1))
    decreases |chain|
  {
    hide ColumnId, GraphOf, Flows, Reach;
    var n := |chain| - 1;
    FlowReaches(records, chain[n - 1], chain[n]);
    if n > 1 {
      ChainReaches(records, chain[..n]);
      ReachTrans(GraphOf(records), ColumnId(chain[0].0, chain[0].1), ColumnId(chain[n - 1].0, chain[n - 1].1),
                 ColumnId(chain[n].0, chain[n].1));
    }
  }

  /** Completeness: a path between two columns is a chain of recorded flows. */
  lemma {:induction false} PathIsChain(records: seq<Record>, p: seq<string>, a: (string, string), b: (string, string))
    returns (chain: seq<(string, string)>)
    requires GoodRun(records) && ':' !in a.0 && ':' !in b.0
    requires PathFromTo(GraphOf(records), p, ColumnId(a.0, a.1), ColumnId(b.0, b.1))
    ensures Chain(records, chain) && chain[0] == a && chain[|chain| - 1] == b
    decreases |p|
  {
    hide ColumnId, StepId, FileId, OutputId, Inputs, Outputs, GraphOf, Decode;
    DecodeColumn(a.0, a.1);
    DecodeColumn(b.0, b.1);
    if |p| == 1 {
      chain := [a];
    } else {
      assert (p[0], p[1]) in GraphOf(records).edges;
      var i := FromColumn(records, a, p[1]);
      var step := records[i].step;
      DecodeStep(step);
      assert |p| > 2;
      assert (p[1], p[2]) in GraphOf(records).edges;
      FromStep(records, i, p[2]);
      if !Gives(Outputs(records[i]), step, p[1], p[2]) {
        DecodeOutput(step, records[i].filename);
        assert |p| > 3;
        assert (p[2], p[3]) in GraphOf(records).edges;
        FromOutput(records, i, p[3]);
        assert false;
      }
      var c :| c in Outputs(records[i]) && p[2] == ColumnId(step, c);
      assert PathFromTo(GraphOf(records), p[2..], ColumnId(step, c), ColumnId(b.0, b.1));
      var rest := PathIsChain(records, p[2..], (step, c), b);
      assert Flows(records, a, (step, c));
      chain := [a] + rest;
    }
  }

  /** The graph says exactly what the records say. */
  lemma {:induction false} ReachIsFlow(records: seq<Record>, a: (string, string), b: (string, string))
    requires GoodRun(records) && ':' !in a.0 && ':' !in b.0 && a != b
    ensures Reach(GraphOf(records), ColumnId(a.0, a.1), ColumnId(b.0, b.1)) <==>
      exists chain :: Chain(records, chain) && chain[0] == a && chain[|chain| - 1] == b
  {
    hide ColumnId, GraphOf, Flows;
    if Reach(GraphOf(records), ColumnId(a.0, a.1), ColumnId(b.0, b.1)) {
      var p :| PathFromTo(GraphOf(records), p, ColumnId(a.0, a.1), ColumnId(b.0, b.1));
      var chain := PathIsChain(records, p, a, b);
    }
    if chain :| Chain(records, chain) && chain[0] == a && chain[|chain| - 1] == b {
      ChainReaches(records, chain);
    }
  }

  // ----- what columns are computed from

  /** How the step a record describes computes output column `out`: unchanged from the
      column of that name, from the column renamed to it, from either side of a join,
      from a grouping or an aggregated column, or from any input of a reshaping step. */
  ghost predicate ComputedFrom(r: Record, out: string, source: (string, string)) {
    match r
    case Load(_, _, _, _) => false
    case Passthrough(_, _, input, columns) => out in columns && source == (input, out)
    case Projection(_, input, kept, _) => out in kept && source == (input, out)
    case Rename(_, input, mapping, columns) =>
      exists c :: c in columns && out == Renamed(mapping, c) && source == (input, c)
    case Join(_, left, right, leftColumns, rightColumns, outputs) =>
      out in outputs && ((source.0 == left && source.1 in leftColumns)
        || (source.0 == right && source.1 in rightColumns))
    case Aggregate(_, input, groupBy, aggregated, outputs) =>
      || (out in groupBy && source == (input, out))
      || (out in outputs && source.0 == input && (source.1 in groupBy || source.1 in aggregated))
    case Save(_, _, _, _) => false
    case Reshape(_, _, input, inputs, outputs) => out in outputs && source.0 == input && source.1 in inputs
  }

  lemma InOf(step: string, columns: seq<string>, c: string)
    requires c in columns
    ensures (step, c) in Of(step, columns)
  {
    var i :| 0 <= i < |columns| && columns[i] == c;
    assert Of(step, columns)[i] == (step, c);
  }

  lemma ComputedFlows(r: Record, out: string, source: (string, string))
    requires ComputedFrom(r, out, source)
    ensures source in Inputs(r) && out in Outputs(r)
  {
    match r
    case Passthrough(_, _, input, columns) => InOf(input, columns, out);
    case Projection(_, input, kept, _) => InOf(input, kept, out);
    case Rename(_, input, mapping, columns) =>
      var i :| 0 <= i < |columns| && out == Renamed(mapping, columns[i]) && source == (input, columns[i]);
      InOf(input, columns, columns[i]);
      assert RenamedAll(mapping, columns)[i] == out;
    case Join(_, left, right, leftColumns, rightColumns, _) =>
      if source.0 == left && source.1 in leftColumns {
        InOf(left, leftColumns, source.1);
      } else {
        InOf(right, rightColumns, source.1);
      }
    case Aggregate(_, input, groupBy, aggregated, _) =>
      if source.1 in groupBy { InOf(input, groupBy, source.1); } else { InOf(input, aggregated, source.1); }
    case Reshape(_, _, input, inputs, _) => InOf(input, inputs, source.1);
  }

  /** `chain` runs from a column to one computed from it, step by step. */
  ghost predicate Derivation(records: seq<Record>, chain: seq<(string, string)>) {
    |chain| > 1 && forall i :: 0 <= i < |chain| - 1 ==> DerivedIn(records, chain[i], chain[i + 1])
  }

  ghost predicate DerivedIn(records: seq<Record>, a: (string, string), b: (string, string)) {
    exists i :: 0 <= i < |records| && records[i].step == b.0 && ComputedFrom(records[i], b.1, a)
  }

  /** The graph over-approximates data flow: every column that a column is computed
      from, through any chain of steps, is its ancestor. */
  lemma {:induction false} DerivedIsAncestor(records: seq<Record>, chain: seq<(string, string)>)
    requires Derivation(records, chain)
    ensures Reach(GraphOf(records), ColumnId(chain[0].0, chain[0].1),
                  ColumnId(chain[|chain| - 1].0, chain[|chain| - 1].1))
  {
    hide ColumnId, GraphOf, Inputs, Outputs, ComputedFrom;
    forall i | 0 <= i < |chain| - 1
      ensures Flows(records, chain[i], chain[i + 1])
    {
      assert DerivedIn(records, chain[i], chain[i + 1]);
      var j :| 0 <= j < |records| && records[j].step == chain[i + 1].0
        && ComputedFrom(records[j], chain[i + 1].1, chain[i]);
      ComputedFlows(records[j], chain[i + 1].1, chain[i]);
    }
    ChainReaches(records, chain);
  }

  /** A column that a WASM step only passes along is not traced through it: it is an
      ancestor of its own copy exactly when it is also one of the function's arguments. */
  lemma {:induction false} PassedColumnTraced(records: seq<Record>, i: nat, column: string)
    requires GoodRun(records) && i < |records| && records[i].Reshape?
    requires RecordedBefore(records, i, records[i].input)
    requires column in records[i].outputs
    ensures Reach(GraphOf(records), ColumnId(records[i].input, column), ColumnId(records[i].step, column))
      <==> column in records[i].inputs
  {
    var r := records[i];
    var a, b := (r.input, column), (r.step, column);
    if column in r.inputs {
      ComputedFlows(r, column, a);
      assert Flows(records, a, b);
      assert Chain(records, [a, b]);
      ChainReaches(records, [a, b]);
    } else if Reach(GraphOf(records), ColumnId(a.0, a.1), ColumnId(b.0, b.1)) {
      NotTraced(records, i, column);
    }
  }

  /** A path that ends in a column of a step enters the step from a column it reads. */
  lemma ArrivesThrough(records: seq<Record>, i: nat, p: seq<string>, a: (string, string), column: string)
    returns (c: (string, string))
    requires GoodRun(records) && i < |records| && !records[i].Load?
    requires ':' !in a.0 && a.0 != records[i].step
    requires PathFromTo(GraphOf(records), p, ColumnId(a.0, a.1), ColumnId(records[i].step, column))
    ensures |p| > 2 && c in Inputs(records[i]) && p[|p| - 3] == ColumnId(c.0, c.1)
  {
    var step, g, n := records[i].step, GraphOf(records), |p| - 1;
    DecodeColumn(a.0, a.1);
    DecodeColumn(step, column);
    DecodeStep(step);
    hide GraphOf, ColumnId, StepId, FileId, Decode, Outputs, Inputs;
    assert (p[n - 1], p[n]) in g.edges;
    var k := IntoColumn(records, (step, column), p[n - 1]);
    assert n > 1;
    assert (p[n - 2], p[n - 1]) in g.edges;
    IntoStep(records, i, p[n - 2]);
    c :| c in Inputs(records[i]) && p[n - 2] == ColumnId(c.0, c.1);
  }

  /** Columns of one step do not reach each other. */
  lemma {:induction false} SiblingsApart(records: seq<Record>, step: string, c: string, d: string)
    requires GoodRun(records) && ':' !in step
    requires Reach(GraphOf(records), ColumnId(step, c), ColumnId(step, d))
    ensures c == d
  {
    hide GraphOf, ColumnId, Decode, Reach;
    DecodeColumn(step, c);
    DecodeColumn(step, d);
    RunIsRanked(records);
    ReachClimbs(GraphOf(records), id => Rank(records, id), ColumnId(step, c), ColumnId(step, d));
  }

  lemma EarlierName(records: seq<Record>, i: nat, step: string)
    requires GoodRun(records) && i < |records| && RecordedBefore(records, i, step)
    ensures ':' !in step && step != records[i].step
  {
  }

  lemma {:induction false} NotTraced(records: seq<Record>, i: nat, column: string)
    requires GoodRun(records) && i < |records| && records[i].Reshape?
    requires RecordedBefore(records, i, records[i].input)
    requires Reach(GraphOf(records), ColumnId(records[i].input, column), ColumnId(records[i].step, column))
    ensures column in records[i].inputs
  {
    var r, g := records[i], GraphOf(records);
    EarlierName(records, i, r.input);
    hide GraphOf, ColumnId, Decode, GoodRun;
    var p :| PathFromTo(g, p, ColumnId(r.input, column), ColumnId(r.step, column));
    var c := ArrivesThrough(records, i, p, (r.input, column), column);
    assert c.0 == r.input && c.1 in r.inputs;
    PathPrefix(g, p, |p| - 2);
    SiblingsApart(records, r.input, column, c.1);
  }

  // ----- tracing back to files

  /** The columns a record reads are columns that earlier records gave. */
  ghost predicate ColumnsKnown(records: seq<Record>) {
    forall i, c :: 0 <= i < |records| && c in Inputs(records[i]) ==> GivenBefore(records, i, c)
  }

  ghost predicate GivenBefore(records: seq<Record>, k: nat, c: (string, string)) {
    exists j :: 0 <= j < k && j < |records| && records[j].step == c.0 && c.1 in Outputs(records[j])
  }

  /** A step that gives columns reads a file or a column. */
  ghost predicate Fed(records: seq<Record>) {
    forall i :: 0 <= i < |records| && !records[i].Load? && Outputs(records[i]) != [] ==> Inputs(records[i]) != []
  }

  ghost predicate Traced(records: seq<Record>, c: (string, string)) {
    exists f :: Reach(GraphOf(records), FileId(f), ColumnId(c.0, c.1))
  }

  ghost predicate AllTraced(records: seq<Record>) {
    forall i, c :: 0 <= i < |records| && c in Outputs(records[i]) ==> Traced(records, (records[i].step, c))
  }

  lemma {:induction false} FedIsTraced(records: seq<Record>, i: nat, c: string)
    requires GoodRun(records) && ColumnsKnown(records) && Fed(records)
    requires i < |records| && c in Outputs(records[i])
    ensures Traced(records, (records[i].step, c))
    decreases i
  {
    hide GraphOf, ColumnId, StepId, FileId, OutputId, Inputs, Outputs, Reach;
    var r, g := records[i], GraphOf(records);
    RunEdges(records);
    assert SaysEdge(r, StepId(r.step), ColumnId(r.step, c));
    assert (StepId(r.step), ColumnId(r.step, c)) in g.edges;
    if r.Load? {
      assert SaysEdge(r, FileId(r.fileId), StepId(r.step));
      assert (FileId(r.fileId), StepId(r.step)) in g.edges;
      ReachSelf(g, FileId(r.fileId));
      ReachLast(g, FileId(r.fileId), FileId(r.fileId), StepId(r.step));
      ReachLast(g, FileId(r.fileId), StepId(r.step), ColumnId(r.step, c));
    } else {
      assert Outputs(r) != [];
      var a := Inputs(r)[0];
      assert a in Inputs(r);
      assert GivenBefore(records, i, a);
      var j :| 0 <= j < i && records[j].step == a.0 && a.1 in Outputs(records[j]);
      FedIsTraced(records, j, a.1);
      var f :| Reach(g, FileId(f), ColumnId(a.0, a.1));
      assert Flows(records, a, (r.step, c));
      FlowReaches(records, a, (r.step, c));
      ReachTrans(g, FileId(f), ColumnId(a.0, a.1), ColumnId(r.step, c));
    }
  }

  lemma UnfedIsUntraced(records: seq<Record>, i: nat, c: string)
    requires GoodRun(records) && i < |records| && c in Outputs(records[i])
    requires !records[i].Load? && Inputs(records[i]) == []
    ensures !Traced(records, (records[i].step, c))
  {
    var r, g := records[i], GraphOf(records);
    hide GraphOf, ColumnId, StepId, FileId, OutputId, Outputs, Decode;
    forall f, p | PathFromTo(g, p, FileId(f), ColumnId(r.step, c))
      ensures false
    {
      DecodeFile(f);
      DecodeColumn(r.step, c);
      DecodeStep(r.step);
      var n := |p| - 1;
      assert (p[n - 1], p[n]) in g.edges;
      var k := IntoColumn(records, (r.step, c), p[n - 1]);
      assert (p[n - 2], p[n - 1]) in g.edges;
      IntoStep(records, i, p[n - 2]);
    }
  }

  /** Every column reaches back to a source file exactly when every step that gives
      columns was recorded with something it read. */
  lemma TracedExactlyWhenFed(records: seq<Record>)
    requires GoodRun(records) && ColumnsKnown(records)
    ensures AllTraced(records) <==> Fed(records)
  {
    hide Traced, Inputs, Outputs, GoodRun;
    if Fed(records) {
      forall i, c | 0 <= i < |records| && c in Outputs(records[i])
        ensures Traced(records, (records[i].step, c))
      {
        FedIsTraced(records, i, c);
      }
    } else {
      var i :| 0 <= i < |records| && !records[i].Load? && Outputs(records[i]) != [] && Inputs(records[i]) == [];
      var c := Outputs(records[i])[0];
      assert c in Outputs(records[i]);
      UnfedIsUntraced(records, i, c);
    }
  }
}
