/** The impact query on the graph of a recorded run, in terms of the records. */
module LineageImpact {
  import opened Basics
  import opened Digraph
  import opened LineageIds
  import opened Lineage
  import opened LineageRuns
  import opened LineageQueries
  import opened LineageAncestry

  /** Column `b` is column `a` or derives from it through recorded flows. */
  ghost predicate FlowsTo(records: seq<Record>, a: (string, string), b: (string, string)) {
    exists chain :: Chain(records, chain) && chain[0] == a && chain[|chain| - 1] == b
  }

  /** The column flows into what the record reads. */
  ghost predicate Touches(records: seq<Record>, r: Record, source: (string, string)) {
    exists c :: c in Inputs(r) && FlowsTo(records, source, c)
  }

  lemma {:induction false} FlowReachesColumn(records: seq<Record>, a: (string, string), b: (string, string))
    requires FlowsTo(records, a, b) && ColumnId(b.0, b.1) in GraphOf(records).nodes
    ensures Reach(GraphOf(records), ColumnId(a.0, a.1), ColumnId(b.0, b.1))
  {
    hide ColumnId, GraphOf, Flows, Reach;
    var chain :| Chain(records, chain) && chain[0] == a && chain[|chain| - 1] == b;
    if |chain| == 1 {
      ReachSelf(GraphOf(records), ColumnId(b.0, b.1));
    } else {
      ChainReaches(records, chain);
    }
  }

  lemma {:induction false} LastEdge(g: Graph, p: seq<string>, u: string, v: string)
    requires PathFromTo(g, p, u, v) && u != v
    ensures |p| > 1 && (p[|p| - 2], v) in g.edges && PathFromTo(g, p[..|p| - 1], u, p[|p| - 2])
  {
    assert (p[|p| - 2], p[|p| - 2 + 1]) in g.edges;
  }

  /** Nothing leads from a column back to a file. */
  lemma {:induction false} NoColumnToFile(records: seq<Record>, source: (string, string), file: string)
    requires GoodRun(records) && ':' !in source.0
    ensures !Reach(GraphOf(records), ColumnId(source.0, source.1), FileId(file))
  {
    hide GraphOf, Decode, ColumnId, FileId, Reach;
    if Reach(GraphOf(records), ColumnId(source.0, source.1), FileId(file)) {
      RunIsRanked(records);
      ReachClimbs(GraphOf(records), id => Rank(records, id), ColumnId(source.0, source.1), FileId(file));
      DecodeFile(file);
      DecodeColumn(source.0, source.1);
    }
  }

  lemma {:induction false} StepReadsFlow(records: seq<Record>, j: nat, source: (string, string), p: seq<string>)
    requires GoodRun(records) && j < |records| && ':' !in source.0
    requires PathFromTo(GraphOf(records), p, ColumnId(source.0, source.1), StepId(records[j].step))
    ensures Touches(records, records[j], source)
  {
    hide ColumnId, StepId, FileId, OutputId, Inputs, Outputs, GraphOf, Decode, Flows;
    var r, g, before := records[j], GraphOf(records), p[..|p| - 1];
    DecodeStep(r.step);
    DecodeColumn(source.0, source.1);
    LastEdge(g, p, ColumnId(source.0, source.1), StepId(r.step));
    assert Reach(g, ColumnId(source.0, source.1), p[|p| - 2]);
    IntoStep(records, j, p[|p| - 2]);
    if r.Load? {
      NoColumnToFile(records, source, r.fileId);
    }
    var c :| c in Inputs(r) && p[|p| - 2] == ColumnId(c.0, c.1);
    assert RecordedBefore(records, j, c.0);
    var chain := PathIsChain(records, before, source, c);
    assert FlowsTo(records, source, c);
  }

  lemma {:induction false} FlowReachesStep(records: seq<Record>, j: nat, source: (string, string))
    requires j < |records| && Touches(records, records[j], source)
    ensures Reach(GraphOf(records), ColumnId(source.0, source.1), StepId(records[j].step))
  {
    hide ColumnId, StepId, FileId, OutputId, Inputs, Outputs, GraphOf, FlowsTo, Reach;
    var r := records[j];
    var c :| c in Inputs(r) && FlowsTo(records, source, c);
    RunEdges(records);
    assert SaysEdge(r, ColumnId(c.0, c.1), StepId(r.step));
    assert (ColumnId(c.0, c.1), StepId(r.step)) in GraphOf(records).edges;
    FlowReachesColumn(records, source, c);
    ReachLast(GraphOf(records), ColumnId(source.0, source.1), ColumnId(c.0, c.1), StepId(r.step));
  }

  /** A column reaches a step node exactly when it flows into what the step reads. */
  lemma {:induction false} ColumnReachesStep(records: seq<Record>, j: nat, source: (string, string))
    requires GoodRun(records) && j < |records| && ':' !in source.0
    ensures Reach(GraphOf(records), ColumnId(source.0, source.1), StepId(records[j].step)) <==>
      Touches(records, records[j], source)
  {
    hide ColumnId, StepId, GraphOf, Touches;
    if p :| PathFromTo(GraphOf(records), p, ColumnId(source.0, source.1), StepId(records[j].step)) {
      StepReadsFlow(records, j, source, p);
    }
    if Touches(records, records[j], source) {
      FlowReachesStep(records, j, source);
    }
  }

  /** An edge into a saved file comes from the step that saves it. */
  lemma {:induction false} IntoOutput(records: seq<Record>, j: nat, u: string)
    requires GoodRun(records) && j < |records| && records[j].Save?
    requires (u, OutputId(records[j].step, records[j].filename)) in GraphOf(records).edges
    ensures u == StepId(records[j].step)
  {
    var v := OutputId(records[j].step, records[j].filename);
    DecodeOutput(records[j].step, records[j].filename);
    hide GraphOf, Inputs, Outputs, Decode, ColumnId, StepId, FileId, OutputId, GoodRun;
    var i := EdgeOf(records, u, v);
    DecodeStep(records[i].step);
    if records[i].Save? {
      DecodeSaved(records, i);
    }
  }

  lemma DecodeSaved(records: seq<Record>, i: nat)
    requires GoodRun(records) && i < |records| && records[i].Save?
    ensures Decode(OutputId(records[i].step, records[i].filename)) == OutputRef(records[i].step, records[i].filename)
  {
    DecodeOutput(records[i].step, records[i].filename);
  }

  /** A column reaches a saved file exactly when it flows into what was saved. */
  lemma {:induction false} ColumnReachesOutput(records: seq<Record>, j: nat, source: (string, string))
    requires GoodRun(records) && j < |records| && records[j].Save? && ':' !in source.0
    ensures Reach(GraphOf(records), ColumnId(source.0, source.1), OutputId(records[j].step, records[j].filename)) <==>
      Touches(records, records[j], source)
  {
    hide ColumnId, StepId, FileId, OutputId, GraphOf, Decode, Touches, Inputs, Outputs, GoodRun;
    var r, g, from := records[j], GraphOf(records), ColumnId(source.0, source.1);
    var file := OutputId(r.step, r.filename);
    DecodeSaved(records, j);
    DecodeColumn(source.0, source.1);
    ColumnReachesStep(records, j, source);
    if p :| PathFromTo(g, p, from, file) {
      LastEdge(g, p, from, file);
      IntoOutput(records, j, p[|p| - 2]);
      assert Reach(g, from, StepId(r.step));
    }
    if Touches(records, r, source) {
      RunEdges(records);
      assert SaysEdge(r, StepId(r.step), file);
      ReachLast(g, from, StepId(r.step), file);
    }
  }

  // ----- what is reported

  /** The label of a column other than the source that a step other than a load gives
      and the source flows to. */
  ghost predicate LabelsColumn(records: seq<Record>, source: (string, string), l: string) {
    exists j :: 0 <= j < |records| && !records[j].Load? && l in Outputs(records[j])
      && (records[j].step, l) != source && FlowsTo(records, source, (records[j].step, l))
  }

  /** The name of a file that was saved from what the source flows into. */
  ghost predicate LabelsFile(records: seq<Record>, source: (string, string), l: string) {
    exists j :: 0 <= j < |records| && records[j].Save? && records[j].filename == l
      && Touches(records, records[j], source)
  }

  ghost predicate TouchedStep(records: seq<Record>, source: (string, string), t: Transformation) {
    exists j :: 0 <= j < |records| && Touches(records, records[j], source)
      && t == Transformation(records[j].step, StepType(records[j]))
  }

  lemma {:induction false} ColumnNode(records: seq<Record>, j: nat, column: string)
    requires j < |records| && column in Outputs(records[j])
    ensures ColumnId(records[j].step, column) in GraphOf(records).nodes
  {
    ColumnRecorded(records, j, column);
  }

  /** A downstream node is reported under a label the records explain. */
  lemma {:induction false} LabelExplained(records: seq<Record>, source: (string, string), n: string)
    requires GoodRun(records) && ':' !in source.0
    requires n != ColumnId(source.0, source.1) && Reach(GraphOf(records), ColumnId(source.0, source.1), n)
    requires OutputLabel(GraphOf(records), n) != ""
    ensures var l := OutputLabel(GraphOf(records), n);
      LabelsColumn(records, source, l) || LabelsFile(records, source, l)
  {
    hide ColumnId, StepId, FileId, OutputId, Inputs, Outputs, GraphOf, Decode, StepType, Reach, Flows, Touches, GoodRun;
    RunSays(records, n);
    var a := GraphOf(records).attrs[n];
    var j :| 0 <= j < |records| && NamesNode(records[j], n, a);
    NamedBy(records, j, n, a);
    if a.OutputColumn? {
      NamedColumn(records[j], n, a);
      assert a.step == records[j].step;
      ColonFree(records, j);
      ReachIsFlow(records, source, (a.step, a.column));
      assert FlowsTo(records, source, (a.step, a.column));
    } else {
      NamedFile(records[j], n, a);
      ColumnReachesOutput(records, j, source);
    }
  }

  lemma ColonFree(records: seq<Record>, j: nat)
    requires GoodRun(records) && j < |records|
    ensures ':' !in records[j].step
  {
  }

  lemma NamedColumn(r: Record, n: string, a: Attributes)
    requires NamesNode(r, n, a) && a.OutputColumn?
    ensures n == ColumnId(a.step, a.column)
  {
    hide ColumnId, StepId, FileId, OutputId, Outputs;
  }

  lemma NamedFile(r: Record, n: string, a: Attributes)
    requires NamesNode(r, n, a) && a.OutputFile?
    ensures r.Save? && n == OutputId(r.step, r.filename)
  {
    hide ColumnId, StepId, FileId, OutputId, Outputs;
  }

  /** A label the records explain is that of a downstream node. */
  lemma {:induction false} ColumnLabelled(records: seq<Record>, source: (string, string), l: string) returns (n: string)
    requires GoodRun(records) && ':' !in source.0 && LabelsColumn(records, source, l)
    ensures n != ColumnId(source.0, source.1) && Reach(GraphOf(records), ColumnId(source.0, source.1), n)
    ensures OutputLabel(GraphOf(records), n) == l
  {
    hide ColumnId, GraphOf, Outputs, Decode, Reach, Flows;
    var j :| 0 <= j < |records| && !records[j].Load? && l in Outputs(records[j])
      && (records[j].step, l) != source && FlowsTo(records, source, (records[j].step, l));
    n := ColumnId(records[j].step, l);
    ColumnSays(records, j, l);
    ColumnNode(records, j, l);
    FlowReachesColumn(records, source, (records[j].step, l));
    DecodeColumn(records[j].step, l);
    DecodeColumn(source.0, source.1);
  }

  lemma {:induction false} FileLabelled(records: seq<Record>, source: (string, string), l: string) returns (n: string)
    requires GoodRun(records) && ':' !in source.0 && LabelsFile(records, source, l)
    ensures n != ColumnId(source.0, source.1) && Reach(GraphOf(records), ColumnId(source.0, source.1), n)
    ensures OutputLabel(GraphOf(records), n) == l
  {
    hide ColumnId, OutputId, GraphOf, Decode, Reach, Touches;
    var j :| 0 <= j < |records| && records[j].Save? && records[j].filename == l && Touches(records, records[j], source);
    n := OutputId(records[j].step, l);
    SavedSays(records, j);
    ColumnReachesOutput(records, j, source);
    DecodeSaved(records, j);
    DecodeColumn(source.0, source.1);
  }

  /** Asked about a column of a recorded run, the impact query lists exactly the recorded
      steps the column flows into, with their types, and exactly the names of the columns
      derived from it and of the files saved from them. */
  method ImpactOfRun(records: seq<Record>, i: nat, column: string) returns (impact: Impact)
    requires GoodRun(records) && i < |records| && column in Outputs(records[i])
    ensures forall t :: t in impact.steps <==> TouchedStep(records, (records[i].step, column), t)
    ensures forall l :: l in impact.outputs <==>
      && l != ""
      && (|| LabelsColumn(records, (records[i].step, column), l)
          || LabelsFile(records, (records[i].step, column), l))
  {
    var g, source := GraphOf(records), (records[i].step, column);
    ColumnRecorded(records, i, column);
    hide ColumnId, StepId, FileId, OutputId, Inputs, Outputs, GraphOf, Reach, StepType, Touches, OutputLabel,
      LabelsColumn, LabelsFile, TransformationOf, IsStep;
    var found := GetImpactAnalysis(g, records[i].step, column);
    impact := found.value;
    forall t ensures t in impact.steps <==> TouchedStep(records, source, t) {
      if t in impact.steps {
        var n :| n in impact.nodes && IsStep(g, n) && t == TransformationOf(g, n);
        StepTouched(records, source, n);
      }
      if TouchedStep(records, source, t) {
        var n := StepListed(records, source, t);
        assert TransformationOf(g, n) in impact.steps;
      }
    }
    forall l ensures l in impact.outputs <==>
        l != "" && (LabelsColumn(records, source, l) || LabelsFile(records, source, l)) {
      if l in impact.outputs {
        var n :| n in impact.nodes && OutputLabel(g, n) == l;
        LabelExplained(records, source, n);
      } else if LabelsColumn(records, source, l) {
        var n := ColumnLabelled(records, source, l);
        assert n in impact.nodes;
      } else if LabelsFile(records, source, l) {
        var n := FileLabelled(records, source, l);
        assert n in impact.nodes;
      }
    }
  }

  lemma {:induction false} StepTouched(records: seq<Record>, source: (string, string), n: string)
    requires GoodRun(records) && ':' !in source.0 && IsStep(GraphOf(records), n)
    requires Reach(GraphOf(records), ColumnId(source.0, source.1), n)
    ensures TouchedStep(records, source, TransformationOf(GraphOf(records), n))
  {
    hide ColumnId, StepId, GraphOf, Touches, Reach, StepType;
    RunAttrs(records, n);
    var j :| 0 <= j < |records| && n == StepId(records[j].step)
      && GraphOf(records).attrs[n] == StepNode(records[j].step, StepType(records[j]));
    ColumnReachesStep(records, j, source);
  }

  lemma {:induction false} StepListed(records: seq<Record>, source: (string, string), t: Transformation)
    returns (n: string)
    requires GoodRun(records) && ':' !in source.0 && TouchedStep(records, source, t)
    ensures n != ColumnId(source.0, source.1) && Reach(GraphOf(records), ColumnId(source.0, source.1), n)
    ensures IsStep(GraphOf(records), n) && TransformationOf(GraphOf(records), n) == t
  {
    hide ColumnId, StepId, GraphOf, Touches, Reach, StepType, Decode;
    var j :| 0 <= j < |records| && Touches(records, records[j], source)
      && t == Transformation(records[j].step, StepType(records[j]));
    n := StepId(records[j].step);
    ColumnReachesStep(records, j, source);
    RunAttrs(records, n);
    var m :| 0 <= m < |records| && n == StepId(records[m].step)
      && GraphOf(records).attrs[n] == StepNode(records[m].step, StepType(records[m]));
    DecodeStep(records[j].step);
    DecodeStep(records[m].step);
    SameStep(records, j, m);
    DecodeColumn(source.0, source.1);
  }
}
