/** The recorder object: each record method changes the graph in place. */
module LineageRecorder {
  import opened Digraph
  import opened LineageIds
  import opened Lineage
  import LineageAncestry

  lemma {:induction false} ApplyConcat(g: Graph, a: seq<Change>, b: seq<Change>)
    ensures Apply(g, a + b) == Apply(Apply(g, a), b)
  {
    hide ApplyOne;
    if b == [] {
      assert a + b == a;
    } else {
      var k := |b| - 1;
      assert (a + b)[..|a + b| - 1] == a + b[..k] && (a + b)[|a + b| - 1] == b[k];
      ApplyConcat(g, a, b[..k]);
    }
  }

  lemma {:induction false} ApplyTwo(g: Graph, x: Change, y: Change)
    ensures Apply(g, [x, y]) == ApplyOne(ApplyOne(g, x), y)
  {
    hide ApplyOne;
    assert [x, y][..1] == [x] && [x][..0] == [];
    assert Apply(g, [x]) == ApplyOne(g, x);
  }

  lemma {:induction false} ApplyThree(g: Graph, x: Change, y: Change, z: Change)
    ensures Apply(g, [x, y, z]) == ApplyOne(ApplyOne(ApplyOne(g, x), y), z)
  {
    hide ApplyOne;
    assert [x, y, z][..2] == [x, y];
    ApplyTwo(g, x, y);
  }

  lemma {:induction false} ApplyLast(g: Graph, a: seq<Change>, x: Change)
    ensures Apply(g, a + [x]) == ApplyOne(Apply(g, a), x)
  {
    assert (a + [x])[..|a|] == a;
  }

  class Recorder {
    var graph: Graph
    /** The record calls made so far. */
    ghost var records: seq<Record>

    ghost predicate Valid()
      reads this
    {
      graph == GraphOf(records)
    }

    /** The step's node carries this type. */
    ghost predicate TypedAs(step: string, stepType: string)
      reads this
    {
      StepId(step) in graph.attrs && graph.attrs[StepId(step)] == StepNode(step, stepType)
    }

    constructor ()
      ensures Valid() && records == []
    {
      graph, records := EMPTY, [];
    }

    method CarryColumns(step: string, input: string, columns: seq<string>, mapping: map<string, string>)
      modifies this`graph
      ensures graph == Apply(old(graph), CarryAll(step, input, columns, mapping))
    {
      for k := 0 to |columns|
        invariant graph == Apply(old(graph), CarryAll(step, input, columns[..k], mapping))
      {
        var output := Renamed(mapping, columns[k]);
        assert columns[..k + 1][..k] == columns[..k];
        ghost var before := graph;
        graph := AddNode(graph, ColumnId(step, output), OutputColumn(step, output));
        graph := AddEdge(graph, ColumnId(input, columns[k]), StepId(step));
        graph := AddEdge(graph, StepId(step), ColumnId(step, output));
        var c := Carry(step, input, columns[k], output);
        ApplyThree(before, c[0], c[1], c[2]);
        ApplyConcat(old(graph), CarryAll(step, input, columns[..k], mapping), c);
      }
      assert columns[..|columns|] == columns;
    }

    method TakeColumns(step: string, input: string, columns: seq<string>)
      modifies this`graph
      ensures graph == Apply(old(graph), TakeAll(step, input, columns))
    {
      for k := 0 to |columns|
        invariant graph == Apply(old(graph), TakeAll(step, input, columns[..k]))
      {
        assert columns[..k + 1][..k] == columns[..k];
        ApplyLast(old(graph), TakeAll(step, input, columns[..k]), Edge(ColumnId(input, columns[k]), StepId(step)));
        graph := AddEdge(graph, ColumnId(input, columns[k]), StepId(step));
      }
      assert columns[..|columns|] == columns;
    }

    method GiveColumns(step: string, columns: seq<string>, source: bool)
      modifies this`graph
      ensures graph == Apply(old(graph), GiveAll(step, columns, source))
    {
      for k := 0 to |columns|
        invariant graph == Apply(old(graph), GiveAll(step, columns[..k], source))
      {
        var id := ColumnId(step, columns[k]);
        var attrs := if source then SourceColumn(step, columns[k]) else OutputColumn(step, columns[k]);
        assert columns[..k + 1][..k] == columns[..k];
        ApplyTwo(graph, Node(id, attrs), Edge(StepId(step), id));
        ApplyConcat(old(graph), GiveAll(step, columns[..k], source), [Node(id, attrs), Edge(StepId(step), id)]);
        graph := AddNode(graph, id, attrs);
        graph := AddEdge(graph, StepId(step), id);
      }
      assert columns[..|columns|] == columns;
    }

    method AddStepNode(step: string, stepType: string)
      modifies this`graph
      ensures graph == Apply(old(graph), [Node(StepId(step), StepNode(step, stepType))])
    {
      var node := Node(StepId(step), StepNode(step, stepType));
      assert [node][..0] == [];
      graph := AddNode(graph, StepId(step), StepNode(step, stepType));
    }

    /** Every record method leaves the graph of one more record. */
    ghost method Done(before: Graph, r: Record)
      requires before == GraphOf(records) && graph == Apply(before, Changes(r))
      modifies this`records
      ensures Valid() && records == old(records) + [r]
      ensures TypedAs(r.step, StepType(r))
    {
      LineageAncestry.StepNodeSet(before, r);
      assert (records + [r])[..|records|] == records;
      records := records + [r];
    }

    method RecordLoad(fileId: string, fileName: string, step: string, columns: seq<string>)
      requires Valid()
      modifies this
      ensures Valid() && records == old(records) + [Load(step, fileId, fileName, columns)]
      ensures TypedAs(step, "load")
    {
      hide FileId, StepId, ColumnId, GiveAll, AddNode, AddEdge, GraphOf;
      var r := Load(step, fileId, fileName, columns);
      ghost var before, h := graph, Header(r);
      ApplyThree(graph, h[0], h[1], h[2]);
      graph := AddNode(graph, FileId(fileId), SourceFile(fileName));
      graph := AddNode(graph, StepId(step), StepNode(step, "load"));
      graph := AddEdge(graph, FileId(fileId), StepId(step));
      GiveColumns(step, columns, true);
      ApplyConcat(before, h, Body(r));
      Done(before, r);
    }

    method RecordPassthrough(step: string, stepType: string, input: string, columns: seq<string>)
      requires Valid()
      modifies this
      ensures Valid() && records == old(records) + [Passthrough(step, stepType, input, columns)]
      ensures TypedAs(step, stepType)
    {
      var r := Passthrough(step, stepType, input, columns);
      ghost var before := graph;
      AddStepNode(step, stepType);
      CarryColumns(step, input, columns, map[]);
      ApplyConcat(before, Header(r), Body(r));
      Done(before, r);
    }

    method RecordProjection(step: string, input: string, kept: seq<string>, dropped: seq<string>)
      requires Valid()
      modifies this
      ensures Valid() && records == old(records) + [Projection(step, input, kept, dropped)]
      ensures TypedAs(step, "select")
    {
      var r := Projection(step, input, kept, dropped);
      ghost var before := graph;
      AddStepNode(step, "select");
      ghost var mid := graph;
      CarryColumns(step, input, kept, map[]);
      TakeColumns(step, input, dropped);
      ApplyConcat(mid, CarryAll(step, input, kept, map[]), TakeAll(step, input, dropped));
      ApplyConcat(before, Header(r), Body(r));
      Done(before, r);
    }

    method RecordRename(step: string, input: string, mapping: map<string, string>, columns: seq<string>)
      requires Valid()
      modifies this
      ensures Valid() && records == old(records) + [Rename(step, input, mapping, columns)]
      ensures TypedAs(step, "rename")
    {
      var r := Rename(step, input, mapping, columns);
      ghost var before := graph;
      AddStepNode(step, "rename");
      CarryColumns(step, input, columns, mapping);
      ApplyConcat(before, Header(r), Body(r));
      Done(before, r);
    }

    method RecordJoin(
      step: string, left: string, right: string, leftColumns: seq<string>, rightColumns: seq<string>,
      outputs: seq<string>)
      requires Valid()
      modifies this
      ensures Valid() && records == old(records) + [Join(step, left, right, leftColumns, rightColumns, outputs)]
      ensures TypedAs(step, "join")
    {
      var r := Join(step, left, right, leftColumns, rightColumns, outputs);
      ghost var before := graph;
      AddStepNode(step, "join");
      ghost var mid := graph;
      TakeColumns(step, left, leftColumns);
      TakeColumns(step, right, rightColumns);
      GiveColumns(step, outputs, false);
      ghost var a, b, c := TakeAll(step, left, leftColumns), TakeAll(step, right, rightColumns),
        GiveAll(step, outputs, false);
      ApplyConcat(mid, a, b);
      ApplyConcat(mid, a + b, c);
      ApplyConcat(before, Header(r), Body(r));
      Done(before, r);
    }

    method RecordAggregate(
      step: string, input: string, groupBy: seq<string>, aggregated: seq<string>, outputs: seq<string>)
      requires Valid()
      modifies this
      ensures Valid() && records == old(records) + [Aggregate(step, input, groupBy, aggregated, outputs)]
      ensures TypedAs(step, "aggregate")
    {
      hide CarryAll, TakeAll, GiveAll, Apply, StepId, ColumnId;
      var r := Aggregate(step, input, groupBy, aggregated, outputs);
      ghost var before := graph;
      AddStepNode(step, "aggregate");
      ghost var mid := graph;
      CarryColumns(step, input, groupBy, map[]);
      TakeColumns(step, input, aggregated);
      GiveColumns(step, outputs, false);
      ghost var a, b, c := CarryAll(step, input, groupBy, map[]), TakeAll(step, input, aggregated),
        GiveAll(step, outputs, false);
      ApplyConcat(mid, a, b);
      ApplyConcat(mid, a + b, c);
      ApplyConcat(before, Header(r), Body(r));
      Done(before, r);
    }

    method RecordSave(step: string, input: string, filename: string, columns: seq<string>)
      requires Valid()
      modifies this
      ensures Valid() && records == old(records) + [Save(step, input, filename, columns)]
      ensures TypedAs(step, "save")
    {
      var r := Save(step, input, filename, columns);
      ghost var before, h := graph, Header(r);
      ApplyTwo(graph, h[0], h[1]);
      graph := AddNode(graph, StepId(step), StepNode(step, "save"));
      graph := AddNode(graph, OutputId(step, filename), OutputFile(filename));
      ghost var mid := graph;
      TakeColumns(step, input, columns);
      ApplyLast(mid, TakeAll(step, input, columns), Edge(StepId(step), OutputId(step, filename)));
      graph := AddEdge(graph, StepId(step), OutputId(step, filename));
      ApplyConcat(before, h, Body(r));
      Done(before, r);
    }

    method RecordReshape(step: string, stepType: string, input: string, inputs: seq<string>, outputs: seq<string>)
      requires Valid()
      modifies this
      ensures Valid() && records == old(records) + [Reshape(step, stepType, input, inputs, outputs)]
      ensures TypedAs(step, stepType)
    {
      var r := Reshape(step, stepType, input, inputs, outputs);
      ghost var before := graph;
      AddStepNode(step, stepType);
      ghost var mid := graph;
      TakeColumns(step, input, inputs);
      GiveColumns(step, outputs, false);
      ApplyConcat(mid, TakeAll(step, input, inputs), GiveAll(step, outputs, false));
      ApplyConcat(before, Header(r), Body(r));
      Done(before, r);
    }
  }
}
