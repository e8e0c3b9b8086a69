/** The lineage recorder: what each record call adds to the graph, and what the graph
    of a whole run says about where columns come from. */
module Lineage {
  import opened Digraph
  import opened LineageIds

  /** One record call.  Filter, sort, validate, deduplicate, fill-nulls, sample and
      stream-publish steps are recorded as a passthrough; pivot, unpivot, SQL and
      WASM steps connect their input columns to every output column. */
  datatype Record =
    | Load(step: string, fileId: string, fileName: string, columns: seq<string>)
    | Passthrough(step: string, stepType: string, input: string, columns: seq<string>)
    | Projection(step: string, input: string, kept: seq<string>, dropped: seq<string>)
    | Rename(step: string, input: string, mapping: map<string, string>, columns: seq<string>)
    | Join(step: string, left: string, right: string,
           leftColumns: seq<string>, rightColumns: seq<string>, outputs: seq<string>)
    | Aggregate(step: string, input: string, groupBy: seq<string>, aggregated: seq<string>, outputs: seq<string>)
    | Save(step: string, input: string, filename: string, columns: seq<string>)
    | Reshape(step: string, stepType: string, input: string, inputs: seq<string>, outputs: seq<string>)

  // ----- graph changes, one at a time

  datatype Change = Node(id: string, attrs: Attributes) | Edge(source: string, target: string)

  function ApplyOne(g: Graph, c: Change): Graph {
    match c
    case Node(id, attrs) => AddNode(g, id, attrs)
    case Edge(source, target) => AddEdge(g, source, target)
  }

  function Apply(g: Graph, cs: seq<Change>): Graph {
    if cs == [] then g else ApplyOne(Apply(g, cs[..|cs| - 1]), cs[|cs| - 1])
  }

  function Renamed(mapping: map<string, string>, column: string): string {
    if column in mapping then mapping[column] else column
  }

  /** An output column fed by an input column through the step node. */
  function Carry(step: string, input: string, column: string, output: string): seq<Change> {
    [Node(ColumnId(step, output), OutputColumn(step, output)),
     Edge(ColumnId(input, column), StepId(step)),
     Edge(StepId(step), ColumnId(step, output))]
  }

  function CarryAll(step: string, input: string, columns: seq<string>, mapping: map<string, string>): seq<Change> {
    if columns == [] then []
    else
      var k := |columns| - 1;
      CarryAll(step, input, columns[..k], mapping) + Carry(step, input, columns[k], Renamed(mapping, columns[k]))
  }

  function TakeAll(step: string, input: string, columns: seq<string>): seq<Change> {
    if columns == [] then []
    else TakeAll(step, input, columns[..|columns| - 1]) + [Edge(ColumnId(input, columns[|columns| - 1]), StepId(step))]
  }

  function GiveAll(step: string, columns: seq<string>, source: bool): seq<Change> {
    if columns == [] then []
    else
      var column := columns[|columns| - 1];
      GiveAll(step, columns[..|columns| - 1], source)
      + [Node(ColumnId(step, column), if source then SourceColumn(step, column) else OutputColumn(step, column)),
         Edge(StepId(step), ColumnId(step, column))]
  }

  function StepType(r: Record): string {
    match r
    case Load(_, _, _, _) => "load"
    case Passthrough(_, stepType, _, _) => stepType
    case Projection(_, _, _, _) => "select"
    case Rename(_, _, _, _) => "rename"
    case Join(_, _, _, _, _, _) => "join"
    case Aggregate(_, _, _, _, _) => "aggregate"
    case Save(_, _, _, _) => "save"
    case Reshape(_, stepType, _, _, _) => stepType
  }

  function Header(r: Record): seq<Change> {
    var node := Node(StepId(r.step), StepNode(r.step, StepType(r)));
    match r
    case Load(step, fileId, fileName, _) =>
      [Node(FileId(fileId), SourceFile(fileName)), node, Edge(FileId(fileId), StepId(step))]
    case Save(step, _, filename, _) => [node, Node(OutputId(step, filename), OutputFile(filename))]
    case _ => [node]
  }

  function Body(r: Record): seq<Change> {
    match r
    case Load(step, _, _, columns) => GiveAll(step, columns, true)
    case Passthrough(step, _, input, columns) => CarryAll(step, input, columns, map[])
    case Projection(step, input, kept, dropped) => CarryAll(step, input, kept, map[]) + TakeAll(step, input, dropped)
    case Rename(step, input, mapping, columns) => CarryAll(step, input, columns, mapping)
    case Join(step, left, right, leftColumns, rightColumns, outputs) =>
      TakeAll(step, left, leftColumns) + TakeAll(step, right, rightColumns) + GiveAll(step, outputs, false)
    case Aggregate(step, input, groupBy, aggregated, outputs) =>
      CarryAll(step, input, groupBy, map[]) + TakeAll(step, input, aggregated) + GiveAll(step, outputs, false)
    case Save(step, input, filename, columns) =>
      TakeAll(step, input, columns) + [Edge(StepId(step), OutputId(step, filename))]
    case Reshape(step, _, input, inputs, outputs) => TakeAll(step, input, inputs) + GiveAll(step, outputs, false)
  }

  function Changes(r: Record): seq<Change> {
    Header(r) + Body(r)
  }

  /** The graph after a run of record calls. */
  function GraphOf(records: seq<Record>): Graph {
    if records == [] then EMPTY
    else Apply(GraphOf(records[..|records| - 1]), Changes(records[|records| - 1]))
  }

  // ----- what a record says, apart from how it is stored

  /** The columns a record reads, with the step each belongs to. */
  function Inputs(r: Record): seq<(string, string)> {
    match r
    case Load(_, _, _, _) => []
    case Passthrough(_, _, input, columns) => Of(input, columns)
    case Projection(_, input, kept, dropped) => Of(input, kept) + Of(input, dropped)
    case Rename(_, input, _, columns) => Of(input, columns)
    case Join(_, left, right, leftColumns, rightColumns, _) => Of(left, leftColumns) + Of(right, rightColumns)
    case Aggregate(_, input, groupBy, aggregated, _) => Of(input, groupBy) + Of(input, aggregated)
    case Save(_, input, _, columns) => Of(input, columns)
    case Reshape(_, _, input, inputs, _) => Of(input, inputs)
  }

  function Of(step: string, columns: seq<string>): (r: seq<(string, string)>)
    ensures |r| == |columns|
    ensures forall i :: 0 <= i < |r| ==> r[i] == (step, columns[i])
  {
    seq(|columns|, i requires 0 <= i < |columns| => (step, columns[i]))
  }

  /** The columns a record gives its step. */
  function Outputs(r: Record): seq<string> {
    match r
    case Load(_, _, _, columns) => columns
    case Passthrough(_, _, _, columns) => columns
    case Projection(_, _, kept, _) => kept
    case Rename(_, _, mapping, columns) => RenamedAll(mapping, columns)
    case Join(_, _, _, _, _, outputs) => outputs
    case Aggregate(_, _, groupBy, _, outputs) => groupBy + outputs
    case Save(_, _, _, _) => []
    case Reshape(_, _, _, _, outputs) => outputs
  }

  function RenamedAll(mapping: map<string, string>, columns: seq<string>): (r: seq<string>)
    ensures |r| == |columns|
    ensures forall i :: 0 <= i < |r| ==> r[i] == Renamed(mapping, columns[i])
  {
    seq(|columns|, i requires 0 <= i < |columns| => Renamed(mapping, columns[i]))
  }

  /** An edge into the step node from one of the columns. */
  ghost predicate Takes(columns: seq<(string, string)>, step: string, u: string, v: string) {
    v == StepId(step) && exists c :: c in columns && u == ColumnId(c.0, c.1)
  }

  /** An edge from the step node to one of its columns. */
  ghost predicate Gives(columns: seq<string>, step: string, u: string, v: string) {
    u == StepId(step) && exists c :: c in columns && v == ColumnId(step, c)
  }

  /** The edges a record stands for. */
  ghost predicate SaysEdge(r: Record, u: string, v: string) {
    || Takes(Inputs(r), r.step, u, v)
    || Gives(Outputs(r), r.step, u, v)
    || (r.Load? && u == FileId(r.fileId) && v == StepId(r.step))
    || (r.Save? && u == StepId(r.step) && v == OutputId(r.step, r.filename))
  }

  // ----- edges of change lists

  ghost predicate Adds(cs: seq<Change>, u: string, v: string) {
    Edge(u, v) in cs
  }

  lemma ApplyOneEdges(g: Graph, c: Change)
    requires Valid(g)
    ensures Valid(ApplyOne(g, c))
    ensures forall u, v :: (u, v) in ApplyOne(g, c).edges <==> (u, v) in g.edges || c == Edge(u, v)
  {
  }

  lemma {:induction false} ApplyEdges(g: Graph, cs: seq<Change>)
    requires Valid(g)
    ensures Valid(Apply(g, cs))
    ensures forall u, v :: (u, v) in Apply(g, cs).edges <==> (u, v) in g.edges || Adds(cs, u, v)
  {
    hide Valid, ApplyOne;
    if cs != [] {
      var k := |cs| - 1;
      ApplyEdges(g, cs[..k]);
      ApplyOneEdges(Apply(g, cs[..k]), cs[k]);
      assert cs == cs[..k] + [cs[k]];
    }
  }

  lemma {:induction false} CarryAdds(
    step: string, input: string, columns: seq<string>, mapping: map<string, string>, u: string, v: string)
    ensures Adds(CarryAll(step, input, columns, mapping), u, v) <==>
      Takes(Of(input, columns), step, u, v) || Gives(RenamedAll(mapping, columns), step, u, v)
  {
    hide ColumnId, StepId;
    if columns != [] {
      var k := |columns| - 1;
      CarryAdds(step, input, columns[..k], mapping, u, v);
      assert Of(input, columns) == Of(input, columns[..k]) + [(input, columns[k])];
      assert RenamedAll(mapping, columns) == RenamedAll(mapping, columns[..k]) + [Renamed(mapping, columns[k])];
      hide Takes, Gives;
      TakesPlus(Of(input, columns[..k]), [(input, columns[k])], step, u, v);
      GivesPlus(RenamedAll(mapping, columns[..k]), [Renamed(mapping, columns[k])], step, u, v);
      TakesOne((input, columns[k]), step, u, v);
      GivesOne(Renamed(mapping, columns[k]), step, u, v);
    }
  }

  lemma {:induction false} TakeAdds(step: string, input: string, columns: seq<string>, u: string, v: string)
    ensures Adds(TakeAll(step, input, columns), u, v) <==> Takes(Of(input, columns), step, u, v)
  {
    hide ColumnId, StepId;
    if columns != [] {
      var k := |columns| - 1;
      TakeAdds(step, input, columns[..k], u, v);
      assert Of(input, columns) == Of(input, columns[..k]) + [(input, columns[k])];
      hide Takes;
      TakesPlus(Of(input, columns[..k]), [(input, columns[k])], step, u, v);
      TakesOne((input, columns[k]), step, u, v);
    }
  }

  lemma {:induction false} GiveAdds(step: string, columns: seq<string>, source: bool, u: string, v: string)
    ensures Adds(GiveAll(step, columns, source), u, v) <==> Gives(columns, step, u, v)
  {
    hide ColumnId, StepId;
    if columns != [] {
      var k := |columns| - 1;
      GiveAdds(step, columns[..k], source, u, v);
      assert columns == columns[..k] + [columns[k]];
      hide Gives;
      GivesPlus(columns[..k], [columns[k]], step, u, v);
      GivesOne(columns[k], step, u, v);
    }
  }

  lemma TakesOne(c: (string, string), step: string, u: string, v: string)
    ensures Takes([c], step, u, v) <==> v == StepId(step) && u == ColumnId(c.0, c.1)
  {
    hide ColumnId, StepId;
    assert c in [c];
  }

  lemma GivesOne(c: string, step: string, u: string, v: string)
    ensures Gives([c], step, u, v) <==> u == StepId(step) && v == ColumnId(step, c)
  {
    hide ColumnId, StepId;
    assert c in [c];
  }

  lemma TakesPlus(a: seq<(string, string)>, b: seq<(string, string)>, step: string, u: string, v: string)
    ensures Takes(a + b, step, u, v) <==> Takes(a, step, u, v) || Takes(b, step, u, v)
  {
    hide ColumnId, StepId;
    assert forall c :: c in a + b <==> c in a || c in b;
  }

  lemma GivesPlus(a: seq<string>, b: seq<string>, step: string, u: string, v: string)
    ensures Gives(a + b, step, u, v) <==> Gives(a, step, u, v) || Gives(b, step, u, v)
  {
    hide ColumnId, StepId;
    assert forall c :: c in a + b <==> c in a || c in b;
  }

  /** A record call adds exactly the edges it stands for. */
  lemma RecordAddsEdges(r: Record, u: string, v: string)
    ensures Adds(Changes(r), u, v) <==> SaysEdge(r, u, v)
  {
    hide ColumnId, StepId, FileId, OutputId, CarryAll, TakeAll, GiveAll, Takes, Gives;
    match r
    case Load(step, _, _, columns) =>
      GiveAdds(step, columns, true, u, v);
      TakesNone(step, u, v);
    case Passthrough(step, _, input, columns) =>
      CarryAdds(step, input, columns, map[], u, v);
      assert RenamedAll(map[], columns) == columns;
    case Projection(step, input, kept, dropped) =>
      CarryAdds(step, input, kept, map[], u, v);
      TakeAdds(step, input, dropped, u, v);
      assert RenamedAll(map[], kept) == kept;
      TakesPlus(Of(input, kept), Of(input, dropped), step, u, v);
    case Rename(step, input, mapping, columns) =>
      CarryAdds(step, input, columns, mapping, u, v);
    case Join(step, left, right, leftColumns, rightColumns, outputs) =>
      TakeAdds(step, left, leftColumns, u, v);
      TakeAdds(step, right, rightColumns, u, v);
      GiveAdds(step, outputs, false, u, v);
      TakesPlus(Of(left, leftColumns), Of(right, rightColumns), step, u, v);
    case Aggregate(step, input, groupBy, aggregated, outputs) =>
      CarryAdds(step, input, groupBy, map[], u, v);
      TakeAdds(step, input, aggregated, u, v);
      GiveAdds(step, outputs, false, u, v);
      assert RenamedAll(map[], groupBy) == groupBy;
      TakesPlus(Of(input, groupBy), Of(input, aggregated), step, u, v);
      GivesPlus(groupBy, outputs, step, u, v);
    case Save(step, input, _, columns) =>
      TakeAdds(step, input, columns, u, v);
      GivesNone(step, u, v);
    case Reshape(step, _, input, inputs, outputs) =>
      TakeAdds(step, input, inputs, u, v);
      GiveAdds(step, outputs, false, u, v);
  }

  lemma TakesNone(step: string, u: string, v: string)
    ensures !Takes([], step, u, v)
  {
  }

  lemma GivesNone(step: string, u: string, v: string)
    ensures !Gives([], step, u, v)
  {
  }

  /** The edges of a run are those its records stand for. */
  lemma {:induction false} RunEdges(records: seq<Record>)
    ensures Valid(GraphOf(records))
    ensures forall u, v :: (u, v) in GraphOf(records).edges <==>
      exists i :: 0 <= i < |records| && SaysEdge(records[i], u, v)
  {
    hide Valid, SaysEdge, Changes;
    if records == [] {
      EmptyValid();
    } else {
      var k := |records| - 1;
      RunEdges(records[..k]);
      ApplyEdges(GraphOf(records[..k]), Changes(records[k]));
      forall u, v
        ensures (u, v) in GraphOf(records).edges <==> exists i :: 0 <= i < |records| && SaysEdge(records[i], u, v)
      {
        RecordAddsEdges(records[k], u, v);
        assert forall i :: 0 <= i < k ==> records[..k][i] == records[i];
      }
    }
  }

  lemma EmptyValid()
    ensures Valid(EMPTY)
  {
  }
}
