/** The WebAssembly step: a row loop that calls a guest function, and the cache of
    compiled modules.

    Cells, floats, guest memory and modules are arbitrary types.  The guest may change
    its memory on every call, so the value of a row can depend on the rows before it. */
module Wasm {
  import opened Basics
  import opened Lru

  const MAX_CACHED_MODULES := 100

  datatype Table<V> = Table(names: seq<string>, columns: map<string, seq<V>>, rows: nat)
  {
    ghost predicate Valid() {
      && Distinct(names)
      && (forall c :: c in names <==> c in columns)
      && (forall c :: c in columns ==> |columns[c]| == rows)
    }
  }

  datatype Reply<+F> = Returned(value: Option<F>) | Raised

  /** What the loop needs from its surroundings. `shown` is the cell the data frame shows
      for a column and row, and `alarm` the row at which the timeout fires, if any. */
  datatype Run<!V, !F, !M> = Run(
    inputs: seq<string>, output: string, rows: nat,
    shown: (string, nat) -> V, toFloat: V -> Option<F>, fromFloat: F -> V, missing: V,
    call: (M, seq<F>) -> (M, Reply<F>), start: M, alarm: Option<nat>)

  // ----- what one row does

  datatype Row<+V> = Kept(value: V) | Unconverted | Failed

  function Collect<V, F, M>(run: Run<V, F, M>, cols: seq<string>, i: nat): (r: Option<seq<F>>)
    ensures r.Some? ==> |r.value| == |cols| && forall j :: 0 <= j < |cols| ==>
      run.toFloat(run.shown(cols[j], i)) == Some(r.value[j])
    ensures r.None? ==> exists j :: 0 <= j < |cols| && run.toFloat(run.shown(cols[j], i)).None?
  {
    if cols == [] then Some([])
    else
      var first, rest := run.toFloat(run.shown(cols[0], i)), Collect(run, cols[1..], i);
      if first.Some? && rest.Some? then Some([first.value] + rest.value) else None
  }

  /** A repeated input name makes the data frame show a column of cells instead of a
      cell, which never converts. */
  function Args<V, F, M>(run: Run<V, F, M>, i: nat): Option<seq<F>> {
    if Distinct(run.inputs) then Collect(run, run.inputs, i) else None
  }

  function RowStep<V, F, M>(run: Run<V, F, M>, m: M, i: nat): (M, Row<V>) {
    var args := Args(run, i);
    if args.None? then (m, Unconverted)
    else
      var (m', reply) := run.call(m, args.value);
      match reply
      case Returned(Some(f)) => (m', Kept(run.fromFloat(f)))
      case Returned(None) => (m', Kept(run.missing))
      case Raised => (m', Failed)
  }

  function Memory<V, F, M>(run: Run<V, F, M>, i: nat): M {
    if i == 0 then run.start else RowStep(run, Memory(run, i - 1), i - 1).0
  }

  function RowAt<V, F, M>(run: Run<V, F, M>, i: nat): Row<V> { RowStep(run, Memory(run, i), i).1 }

  function Errors<V, F, M>(run: Run<V, F, M>, i: nat): nat {
    if i == 0 then 0 else Errors(run, i - 1) + if RowAt(run, i - 1).Failed? then 1 else 0
  }

  function MaxErrors(rows: nat): nat { if rows / 10 > 10 then rows / 10 else 10 }

  ghost function FailedRows<V, F, M>(run: Run<V, F, M>, i: nat): set<nat> {
    set r: nat | r < i && RowAt(run, r).Failed?
  }

  /** The counter is the number of rows on which the call failed. */
  lemma {:induction false} ErrorsCount<V, F, M>(run: Run<V, F, M>, i: nat)
    ensures Errors(run, i) == |FailedRows(run, i)|
  {
    hide RowAt;
    if i == 0 {
      assert FailedRows(run, i) == {};
    } else {
      ErrorsCount(run, i - 1);
      FailedStep(run, i);
    }
  }

  lemma FailedStep<V, F, M>(run: Run<V, F, M>, i: nat)
    requires i > 0
    ensures |FailedRows(run, i)| == |FailedRows(run, i - 1)| + if RowAt(run, i - 1).Failed? then 1 else 0
  {
    hide RowAt;
    var before := FailedRows(run, i - 1);
    if RowAt(run, i - 1).Failed? {
      assert FailedRows(run, i) == before + {i - 1};
    } else {
      assert FailedRows(run, i) == before;
    }
  }

  lemma {:induction false} ErrorsGrow<V, F, M>(run: Run<V, F, M>, i: nat, j: nat)
    requires i <= j
    ensures Errors(run, i) <= Errors(run, j)
  {
    hide RowAt;
    if i < j { ErrorsGrow(run, i, j - 1); }
  }

  // ----- what the rows mean

  ghost predicate Converted<V, F, M>(run: Run<V, F, M>, i: nat, args: seq<F>) {
    && |args| == |run.inputs|
    && forall j :: 0 <= j < |args| ==> run.toFloat(run.shown(run.inputs[j], i)) == Some(args[j])
  }

  /** A row is unreadable if an input is named twice or one of its cells is no number. */
  ghost predicate Unreadable<V, F, M>(run: Run<V, F, M>, i: nat) {
    || (exists j, k :: 0 <= j < k < |run.inputs| && run.inputs[j] == run.inputs[k])
    || exists j :: 0 <= j < |run.inputs| && run.toFloat(run.shown(run.inputs[j], i)).None?
  }

  /** The guest is called once for every readable row, in order, on the memory the row
      before left; its answer decides the row: a value, a null, or a failure. */
  lemma {:induction false} RowMeans<V, F, M>(run: Run<V, F, M>, i: nat)
    ensures Memory(run, 0) == run.start
    ensures Unreadable(run, i) ==> RowAt(run, i) == Unconverted && Memory(run, i + 1) == Memory(run, i)
    ensures !Unreadable(run, i) ==> exists args :: Converted(run, i, args)
    ensures !Unreadable(run, i) ==> forall args :: Converted(run, i, args) ==>
      var (after, reply) := run.call(Memory(run, i), args);
      && Memory(run, i + 1) == after
      && match reply
         case Returned(Some(f)) => RowAt(run, i) == Kept(run.fromFloat(f))
         case Returned(None) => RowAt(run, i) == Kept(run.missing)
         case Raised => RowAt(run, i) == Failed
  {
    hide Collect;
    if !Unreadable(run, i) {
      assert Distinct(run.inputs);
      var args := Collect(run, run.inputs, i);
      assert args.Some? && Converted(run, i, args.value);
      forall other | Converted(run, i, other)
        ensures other == args.value
      {
        assert forall j :: 0 <= j < |other| ==> Some(other[j]) == Some(args.value[j]);
      }
    }
  }

  /** More than ten failures, and more than one in ten rows. */
  ghost predicate TooMany(failures: nat, rows: nat) { failures > 10 && 10 * failures > rows }

  lemma TooManyExactly(failures: nat, rows: nat)
    ensures failures > MaxErrors(rows) <==> TooMany(failures, rows)
  {
  }

  ghost predicate TooManyFailed<V, F, M>(run: Run<V, F, M>, i: nat) { TooMany(|FailedRows(run, i)|, run.rows) }

  lemma {:induction false} TooManyCounted<V, F, M>(run: Run<V, F, M>, i: nat)
    ensures Errors(run, i) > MaxErrors(run.rows) <==> TooManyFailed(run, i)
  {
    hide FailedRows, Errors;
    ErrorsCount(run, i);
    TooManyExactly(Errors(run, i), run.rows);
  }

  // ----- the lists of a row

  function Cols<V, F, M>(run: Run<V, F, M>): seq<string> { run.inputs + [run.output] }

  /** A row that was not computed loses its input cells too. */
  function CellsOf<V, F, M>(run: Run<V, F, M>, row: Row<V>, i: nat): (r: seq<V>)
    ensures |r| == |Cols(run)|
  {
    match row
    case Kept(v) => seq(|run.inputs|, j requires 0 <= j < |run.inputs| => run.shown(run.inputs[j], i)) + [v]
    case _ => seq(|run.inputs| + 1, _ => run.missing)
  }

  function RowCells<V, F, M>(run: Run<V, F, M>, i: nat): (r: seq<V>)
    ensures |r| == |Cols(run)|
  {
    CellsOf(run, RowAt(run, i), i)
  }

  function AppendAll<V>(lists: map<string, seq<V>>, cols: seq<string>, cells: seq<V>): (r: map<string, seq<V>>)
    requires |cols| == |cells| && forall c :: c in cols ==> c in lists
    ensures r.Keys == lists.Keys
  {
    if cols == [] then lists
    else AppendAll(lists[cols[0] := lists[cols[0]] + [cells[0]]], cols[1..], cells[1..])
  }

  function ListsAfter<V, F, M>(run: Run<V, F, M>, lists: map<string, seq<V>>, i: nat): (r: map<string, seq<V>>)
    requires forall c :: c in Cols(run) ==> c in lists
    ensures r.Keys == lists.Keys
  {
    if i == 0 then lists else AppendAll(ListsAfter(run, lists, i - 1), Cols(run), RowCells(run, i - 1))
  }

  /** `t`, `n` times over. */
  function Fold(n: nat, t: nat): nat { if n == 0 then 0 else Fold(n - 1, t) + t }

  function Times(cols: seq<string>, c: string): nat {
    if cols == [] then 0 else (if cols[0] == c then 1 else 0) + Times(cols[1..], c)
  }

  lemma {:induction false} AppendLength<V>(lists: map<string, seq<V>>, cols: seq<string>, cells: seq<V>, c: string)
    requires |cols| == |cells| && (forall c :: c in cols ==> c in lists) && c in lists
    ensures |AppendAll(lists, cols, cells)[c]| == |lists[c]| + Times(cols, c)
    ensures c !in cols ==> AppendAll(lists, cols, cells)[c] == lists[c]
    decreases |cols|
  {
    if cols != [] {
      AppendLength(lists[cols[0] := lists[cols[0]] + [cells[0]]], cols[1..], cells[1..], c);
    }
  }

  /** With distinct columns each list grows by its own cell. */
  lemma {:induction false} AppendDistinct<V>(lists: map<string, seq<V>>, cols: seq<string>, cells: seq<V>, j: nat)
    requires |cols| == |cells| && (forall c :: c in cols ==> c in lists) && Distinct(cols) && j < |cols|
    ensures AppendAll(lists, cols, cells)[cols[j]] == lists[cols[j]] + [cells[j]]
    decreases |cols|
  {
    var lists' := lists[cols[0] := lists[cols[0]] + [cells[0]]];
    if j == 0 {
      AppendLength(lists', cols[1..], cells[1..], cols[0]);
    } else {
      assert cols[1..][j - 1] == cols[j] && cells[1..][j - 1] == cells[j];
      AppendDistinct(lists', cols[1..], cells[1..], j - 1);
    }
  }

  lemma {:induction false} ListsLength<V, F, M>(run: Run<V, F, M>, lists: map<string, seq<V>>, i: nat, c: string)
    requires (forall c :: c in Cols(run) ==> c in lists) && c in lists
    ensures |ListsAfter(run, lists, i)[c]| == |lists[c]| + Fold(i, Times(Cols(run), c))
    ensures c !in Cols(run) ==> ListsAfter(run, lists, i)[c] == lists[c]
  {
    hide RowCells, AppendAll, Times, Cols;
    if i > 0 {
      ListsLength(run, lists, i - 1, c);
      AppendLength(ListsAfter(run, lists, i - 1), Cols(run), RowCells(run, i - 1), c);
    }
  }

  lemma {:induction false} ListsCell<V, F, M>(run: Run<V, F, M>, lists: map<string, seq<V>>, i: nat, j: nat, r: nat)
    requires (forall c :: c in Cols(run) ==>
      c in lists && lists[c] == []) && Distinct(Cols(run)) && j < |Cols(run)| && r < i
    ensures |ListsAfter(run, lists, i)[Cols(run)[j]]| == i
    ensures ListsAfter(run, lists, i)[Cols(run)[j]][r] == RowCells(run, r)[j]
  {
    hide RowCells, AppendAll, Times, Cols;
    var c := Cols(run)[j];
    AppendDistinct(ListsAfter(run, lists, i - 1), Cols(run), RowCells(run, i - 1), j);
    if r < i - 1 {
      ListsCell(run, lists, i - 1, j, r);
    } else if i > 1 {
      ListsCell(run, lists, i - 1, j, 0);
    } else {
      assert ListsAfter(run, lists, 0)[c] == [];
    }
  }

  // ----- when the lists stay aligned

  lemma {:induction false} TimesIsOne(cols: seq<string>)
    ensures Distinct(cols) <==> forall c :: c in cols ==> Times(cols, c) == 1
    ensures forall c :: Times(cols, c) > 0 <==> c in cols
  {
    if cols != [] {
      var head, rest := cols[0], cols[1..];
      assert cols == [head] + rest;
      TimesIsOne(rest);
      assert forall c :: Times(cols, c) == (if c == head then 1 else 0) + Times(rest, c);
      if Distinct(cols) {
        assert head !in rest && Distinct(rest);
        assert Times(rest, head) == 0;
      }
      if forall c :: c in cols ==> Times(cols, c) == 1 {
        assert Times(cols, head) == 1;
        assert head !in rest;
        assert forall c :: c in rest ==> c in cols && Times(rest, c) == 1;
      }
    }
  }

  /** Every list has one entry per row exactly when the inputs are distinct and exclude
      the output (or there is no row). */
  lemma {:induction false} AlignedExactly<V, F, M>(run: Run<V, F, M>, lists: map<string, seq<V>>)
    requires forall c :: c in Cols(run) ==> c in lists && lists[c] == []
    requires forall c :: c in lists && c !in Cols(run) ==> |lists[c]| == run.rows
    ensures (forall c :: c in lists ==> |ListsAfter(run, lists, run.rows)[c]| == run.rows)
      <==> run.rows == 0 || (Distinct(run.inputs) && run.output !in run.inputs)
  {
    var cols, n := Cols(run), run.rows;
    TimesIsOne(cols);
    assert Distinct(cols) <==>
      Distinct(run.inputs) && run.output !in run.inputs by { DistinctCols(run.inputs, run.output); }
    hide Times, ListsAfter, Distinct, Cols;
    forall c | c in lists
      ensures |ListsAfter(run, lists, n)[c]| == n <==> n == 0 || c !in cols || Times(cols, c) == 1
    {
      ListsLength(run, lists, n, c);
      OnlyOnce(n, Times(cols, c));
    }
  }

  lemma {:induction false} OnlyOnce(n: nat, t: nat)
    ensures Fold(n, t) == n <==> n == 0 || t == 1
    ensures t > 1 && n > 0 ==> Fold(n, t) > n
    ensures t == 0 ==> Fold(n, t) == 0
  {
    if n > 0 { OnlyOnce(n - 1, t); }
  }

  lemma {:induction false} Twice(n: nat)
    ensures Fold(n, 2) == 2 * n
  {
    if n > 0 { Twice(n - 1); }
  }

  lemma DistinctCols(inputs: seq<string>, output: string)
    ensures Distinct(inputs + [output]) <==> Distinct(inputs) && output !in inputs
  {
    var cols := inputs + [output];
    if Distinct(cols) {
      assert forall i :: 0 <= i < |inputs| ==> cols[i] == inputs[i];
      assert forall i :: 0 <= i < |inputs| ==> inputs[i] != cols[|inputs|];
    }
  }

  // ----- the loop

  datatype LoopResult<V> = Finished(lists: map<string, seq<V>>) | TooManyErrors | TimedOut

  method AppendRow<V>(lists: map<string, seq<V>>, cols: seq<string>, cells: seq<V>) returns (r: map<string, seq<V>>)
    requires |cols| == |cells| && forall c :: c in cols ==> c in lists
    ensures r == AppendAll(lists, cols, cells)
  {
    r := lists;
    var j := 0;
    while j < |cols|
      invariant j <= |cols| && r.Keys == lists.Keys
      invariant AppendAll(r, cols[j..], cells[j..]) == AppendAll(lists, cols, cells)
    {
      assert cols[j..][1..] == cols[j + 1..] && cells[j..][1..] == cells[j + 1..];
      r := r[cols[j] := r[cols[j]] + [cells[j]]];
      j := j + 1;
    }
    assert cols[j..] == [];
  }

  method CallRow<V, F, M>(run: Run<V, F, M>, m: M, i: nat) returns (m': M, row: Row<V>)
    ensures (m', row) == RowStep(run, m, i)
  {
    var args := Args(run, i);
    if args.None? {
      return m, Unconverted;
    }
    var (after, reply) := run.call(m, args.value);
    match reply {
      case Returned(result) =>
        return after, Kept(if result.Some? then run.fromFloat(result.value) else run.missing);
      case Raised =>
        return after, Failed;
    }
  }

  predicate Interrupted<V, F, M>(run: Run<V, F, M>) { run.alarm.Some? && run.alarm.value < run.rows }

  /** The rows are taken in order; the loop ends early with a failure once more than
      the allowed rows have failed, or when the alarm goes off. */
  method RunRows<V, F, M>(run: Run<V, F, M>, lists: map<string, seq<V>>) returns (r: LoopResult<V>)
    requires forall c :: c in Cols(run) ==> c in lists
    ensures r.Finished? ==> r.lists == ListsAfter(run, lists, run.rows)
    ensures r.Finished? ==> Errors(run, run.rows) <= MaxErrors(run.rows) && !Interrupted(run)
    ensures r.TooManyErrors? ==> Errors(run, run.rows) > MaxErrors(run.rows)
    ensures r.TooManyErrors? && Interrupted(run) ==> Errors(run, run.alarm.value) > MaxErrors(run.rows)
    ensures r.TimedOut? ==> Interrupted(run) && Errors(run, run.alarm.value) <= MaxErrors(run.rows)
  {
    hide RowStep, AppendAll, CellsOf, MaxErrors;
    var acc := lists;
    var m := run.start;
    var errors := 0;
    var i := 0;
    while i < run.rows
      invariant i <= run.rows && m == Memory(run, i) && acc == ListsAfter(run, lists, i)
      invariant errors == Errors(run, i) <= MaxErrors(run.rows)
      invariant run.alarm.Some? ==> i <= run.alarm.value || run.alarm.value >= run.rows
    {
      if run.alarm == Some(i) {
        return TimedOut;
      }
      var row;
      m, row := CallRow(run, m, i);
      if row.Failed? {
        errors := errors + 1;
        if errors > MaxErrors(run.rows) {
          ErrorsGrow(run, i + 1, run.rows);
          if Interrupted(run) {
            ErrorsGrow(run, i + 1, run.alarm.value);
          }
          return TooManyErrors;
        }
      }
      acc := AppendRow(acc, Cols(run), CellsOf(run, row, i));
      i := i + 1;
    }
    return Finished(acc);
  }

  // ----- the whole step

  /** `start` is the memory of a new instance, if the module can be instantiated. */
  datatype Guest<!W, !V, !F, !M> = Guest(
    exports: W -> set<string>, start: W -> Option<M>, call: (W, string, M, seq<F>) -> (M, Reply<F>),
    toFloat: V -> Option<F>, fromFloat: F -> V, missing: V)

  datatype StepSpec = StepSpec(name: string, inputs: seq<string>, output: string)

  datatype StepResult<V> = Done(table: Table<V>) | BadStep | BadModule | Unlinked | Stopped(timeout: bool) | Uneven

  function RunOf<W, V, F, M>(
    g: Guest<W, V, F, M>, w: W, step: StepSpec, rows: nat, shown: (string, nat) -> V, alarm: Option<nat>): Run<V, F, M>
    requires g.start(w).Some?
  {
    Run(step.inputs, step.output, rows, shown, g.toFloat, g.fromFloat, g.missing,
        (m, args) => g.call(w, step.name, m, args), g.start(w).value, alarm)
  }

  predicate Runnable<W, V, F, M>(w: Option<W>, g: Guest<W, V, F, M>, name: string) {
    w.Some? && g.start(w.value).Some? && name in g.exports(w.value)
  }

  predicate FieldsOk<V>(table: Table<V>, step: StepSpec) {
    step.name != "" && step.inputs != [] && step.output != "" && forall c :: c in step.inputs ==> c in table.names
  }

  /** A field is missing, or an input is no column of the table. */
  ghost predicate Incomplete<V>(table: Table<V>, step: StepSpec) {
    step.name == "" || step.inputs == [] || step.output == "" || exists c :: c in step.inputs && c !in table.names
  }

  /** The row loop of a step: its columns and output, the guest's own conversions, and
      calls of the named export on the memory of a new instance. */
  ghost predicate StandsFor<W, V, F(!new), M(!new)>(
    run: Run<V, F, M>, g: Guest<W, V, F, M>, w: W, step: StepSpec, rows: nat, shown: (string, nat) -> V,
    alarm: Option<nat>)
  {
    && run.inputs == step.inputs && run.output == step.output && run.rows == rows && run.alarm == alarm
    && run.shown == shown && run.toFloat == g.toFloat && run.fromFloat == g.fromFloat && run.missing == g.missing
    && g.start(w) == Some(run.start)
    && forall m, args :: run.call(m, args) == g.call(w, step.name, m, args)
  }

  function StartLists<V>(table: Table<V>, cols: seq<string>): map<string, seq<V>> {
    map c | c in table.columns.Keys + (set x | x in cols) :: if c in cols then [] else table.columns[c]
  }

  predicate EvenLists<V>(lists: map<string, seq<V>>, n: nat) { forall c :: c in lists ==> |lists[c]| == n }

  /** `w` is the module the step runs and `run` its row loop: the step gets through. */
  ghost predicate GetsThrough<V, F, M>(table: Table<V>, run: Run<V, F, M>) {
    var lists := ListsAfter(run, StartLists(table, Cols(run)), run.rows);
    !Interrupted(run) && !TooManyFailed(run, run.rows) && EvenLists(lists, |lists[run.output]|)
  }

  /** Row `i` of the result: the guest's value or a null in the output, and the shown
      cells or nulls in the inputs. */
  ghost predicate RowFilled<V, F, M>(run: Run<V, F, M>, columns: map<string, seq<V>>, i: nat) {
    && run.output in columns && i < |columns[run.output]|
    && columns[run.output][i] == (match RowAt(run, i) case Kept(v) => v case _ => run.missing)
    && forall c :: c in run.inputs ==>
        c in columns && i < |columns[c]|
        && columns[c][i] == if RowAt(run, i).Kept? then run.shown(c, i) else run.missing
  }

  /** A completed step: one entry per row in every column, every row filled, and the
      columns outside the inputs and the output unchanged. */
  ghost predicate Filled<V, F, M>(table: Table<V>, run: Run<V, F, M>, t: Table<V>) {
    && t.Valid() && t.rows == table.rows
    && t.names == (if run.output in table.names then table.names else table.names + [run.output])
    && (forall i :: 0 <= i < t.rows ==> RowFilled(run, t.columns, i))
    && (forall c :: c in table.columns && c !in run.inputs && c != run.output ==>
          c in t.columns && t.columns[c] == table.columns[c])
  }

  lemma {:induction false} FilledCells<V, F, M>(run: Run<V, F, M>, lists: map<string, seq<V>>, i: nat)
    requires (forall c :: c in Cols(run) ==> c in lists && lists[c] == []) && Distinct(Cols(run)) && i < run.rows
    ensures RowFilled(run, ListsAfter(run, lists, run.rows), i)
  {
    hide ListsAfter, RowAt;
    var k := |run.inputs|;
    assert Cols(run)[k] == run.output;
    ListsCell(run, lists, run.rows, k, i);
    var after := ListsAfter(run, lists, run.rows);
    forall c | c in run.inputs
      ensures |after[c]| == run.rows && after[c][i] == if RowAt(run, i).Kept? then run.shown(c, i) else run.missing
    {
      var j :| 0 <= j < |run.inputs| && run.inputs[j] == c;
      assert Cols(run)[j] == c;
      ListsCell(run, lists, run.rows, j, i);
    }
  }

  lemma StartFacts<V>(table: Table<V>, cols: seq<string>)
    requires table.Valid()
    ensures var lists := StartLists(table, cols);
      && (forall c :: c in lists <==> c in table.names || c in cols)
      && (forall c :: c in cols ==> lists[c] == [])
      && (forall c :: c in lists && c !in cols ==>
            c in table.columns && lists[c] == table.columns[c] && |lists[c]| == table.rows)
  {
  }

  ghost predicate Assembled<V, F, M>(table: Table<V>, run: Run<V, F, M>, t: Table<V>) {
    && table.Valid() && run.rows == table.rows && (forall c :: c in run.inputs ==> c in table.names)
    && (forall c :: c in Cols(run) ==> c in StartLists(table, Cols(run)))
    && t.columns == ListsAfter(run, StartLists(table, Cols(run)), run.rows)
    && run.output in t.columns && t.rows == |t.columns[run.output]|
    && t.names == (if run.output in table.names then table.names else table.names + [run.output])
  }

  lemma FilledShape<V, F, M>(table: Table<V>, run: Run<V, F, M>, t: Table<V>)
    requires Assembled(table, run, t) && Distinct(run.inputs) && run.output !in run.inputs
    ensures t.Valid() && t.rows == table.rows
  {
    hide Assembled, Distinct;
    NamesAgree(table, run, t);
    LengthsAgree(table, run, t);
    NamesDistinct(table, run, t);
  }

  lemma LengthsAgree<V, F, M>(table: Table<V>, run: Run<V, F, M>, t: Table<V>)
    requires Assembled(table, run, t) && Distinct(run.inputs) && run.output !in run.inputs
    ensures t.rows == table.rows && forall c :: c in t.columns ==> |t.columns[c]| == table.rows
  {
    StartFacts(table, Cols(run));
    AlignedExactly(run, StartLists(table, Cols(run)));
    hide ListsAfter, Distinct, StartLists, Cols;
  }

  lemma NamesDistinct<V, F, M>(table: Table<V>, run: Run<V, F, M>, t: Table<V>)
    requires Assembled(table, run, t)
    ensures Distinct(t.names)
  {
    DistinctCols(table.names, run.output);
    hide ListsAfter, Distinct, StartLists, Cols;
  }

  lemma NamesAgree<V, F, M>(table: Table<V>, run: Run<V, F, M>, t: Table<V>)
    requires Assembled(table, run, t)
    ensures forall c :: c in t.names <==> c in t.columns
  {
    StartFacts(table, Cols(run));
    hide ListsAfter, Distinct, StartLists;
    forall c
      ensures c in t.names <==> c in t.columns
    {
      assert c in Cols(run) <==> c in run.inputs || c == run.output;
    }
  }

  lemma FilledRest<V, F, M>(table: Table<V>, run: Run<V, F, M>, t: Table<V>, c: string)
    requires Assembled(table, run, t) && c in table.columns && c !in run.inputs && c != run.output
    ensures c in t.columns && t.columns[c] == table.columns[c]
  {
    StartFacts(table, Cols(run));
    hide ListsAfter, StartLists;
    ListsLength(run, StartLists(table, Cols(run)), run.rows, c);
  }

  lemma FilledRow<V, F, M>(table: Table<V>, run: Run<V, F, M>, t: Table<V>, i: nat)
    requires Assembled(table, run, t) && Distinct(run.inputs) && run.output !in run.inputs && i < run.rows
    ensures RowFilled(run, t.columns, i)
  {
    StartFacts(table, Cols(run));
    DistinctCols(run.inputs, run.output);
    hide ListsAfter, StartLists, Distinct, RowAt;
    FilledCells(run, StartLists(table, Cols(run)), i);
    assert forall c :: c in run.inputs ==> c in Cols(run);
  }

  lemma StepIsFilled<V, F, M>(table: Table<V>, run: Run<V, F, M>, t: Table<V>)
    requires Assembled(table, run, t) && Distinct(run.inputs) && run.output !in run.inputs
    ensures Filled(table, run, t)
  {
    hide Distinct, RowFilled, Table.Valid, Cols, StartLists, ListsAfter;
    FilledShape(table, run, t);
    forall c | c in table.columns && c !in run.inputs && c != run.output
      ensures c in t.columns && t.columns[c] == table.columns[c]
    {
      FilledRest(table, run, t, c);
    }
    forall i | 0 <= i < t.rows
      ensures RowFilled(run, t.columns, i)
    {
      FilledRow(table, run, t, i);
    }
  }

  lemma {:induction false} TwiceInPair(c: string)
    ensures Times([c, c], c) == 2
  {
    assert [c, c][1..] == [c] && [c][1..] == [];
    assert Times([c], c) == 1;
  }

  /** Writing the result over the only column gives two entries per row. */
  lemma {:induction false} OnlyColumnDoubles<V, F, M>(table: Table<V>, run: Run<V, F, M>, c: string)
    requires table.Valid() && table.names == [c] && run.inputs == [c] && run.output == c && run.rows == table.rows
    ensures EvenLists(ListsAfter(run, StartLists(table, Cols(run)), run.rows), 2 * table.rows)
  {
    TwiceInPair(c);
    StartFacts(table, Cols(run));
    assert Cols(run) == [c, c];
    hide ListsAfter, StartLists, Times, Cols;
    forall x | x in StartLists(table, Cols(run))
      ensures |ListsAfter(run, StartLists(table, Cols(run)), run.rows)[x]| == 2 * table.rows
    {
      assert x == c && c in Cols(run);
      Twice(run.rows);
      ListsLength(run, StartLists(table, Cols(run)), run.rows, x);
    }
  }

  /** When the step completes, with what table, and otherwise which failure it is. */
  ghost predicate Resulting<V, F, M>(table: Table<V>, run: Run<V, F, M>, r: StepResult<V>) {
    && (r.Done? <==> GetsThrough(table, run)) && (r.Done? ==> Assembled(table, run, r.table))
    && (r == Stopped(true) <==> Interrupted(run) && !TooManyFailed(run, run.alarm.value))
    && (r == Stopped(false) <==>
          TooManyFailed(run, run.rows) && (Interrupted(run) ==> TooManyFailed(run, run.alarm.value)))
    && (r.Done? && Distinct(run.inputs) && run.output !in run.inputs ==> Filled(table, run, r.table))
  }

  /** The rows and what is made of their lists. */
  method RunStep<V, F, M>(table: Table<V>, run: Run<V, F, M>) returns (r: StepResult<V>)
    requires table.Valid() && run.rows == table.rows && forall c :: c in run.inputs ==> c in table.names
    ensures Resulting(table, run, r) && (r.Done? || r.Uneven? || r.Stopped?)
  {
    hide ListsAfter, Errors, Filled, Distinct, MaxErrors, FailedRows, RowFilled, Table.Valid, TooManyFailed;
    TooManyCounted(run, run.rows);
    if Interrupted(run) {
      TooManyCounted(run, run.alarm.value);
    }
    var result := RunRows(run, StartLists(table, Cols(run)));
    match result {
      case TooManyErrors => return Stopped(false);
      case TimedOut => return Stopped(true);
      case Finished(lists) =>
        assert run.output in Cols(run);
        if !EvenLists(lists, |lists[run.output]|) {
          return Uneven;
        }
        var names := if run.output in table.names then table.names else table.names + [run.output];
        r := Done(Table(names, lists, |lists[run.output]|));
        if Distinct(run.inputs) && run.output !in run.inputs {
          StepIsFilled(table, run, r.table);
        }
    }
  }

  class WasmExecutor<W> {
    const compile: seq<bv8> -> Option<W>
    const hash: seq<bv8> -> string
    const inUse: seq<bv8> -> bool
    var modules: Ordered<W>
    ghost var history: seq<Event>

    /** A cached module is the compilation of the module in use that has its hash. */
    ghost predicate CompilationOf(k: string, w: W) {
      forall b :: inUse(b) && hash(b) == k ==> compile(b) == Some(w)
    }

    ghost predicate Collisionless() { forall b, c :: inUse(b) && inUse(c) && hash(b) == hash(c) ==> b == c }

    lemma OnlyCompilation(bytes: seq<bv8>, w: W)
      requires Collisionless() && inUse(bytes)
      ensures CompilationOf(hash(bytes), w) <==> compile(bytes) == Some(w)
    {
    }

    ghost predicate Valid()
      reads this
    {
      && modules.Valid() && Collisionless()
      && modules.order == Held(history, MAX_CACHED_MODULES) && |modules.order| <= MAX_CACHED_MODULES
      && (forall k :: k in modules.items ==> CompilationOf(k, modules.items[k]))
    }

    constructor (compile: seq<bv8> -> Option<W>, hash: seq<bv8> -> string, inUse: seq<bv8> -> bool)
      requires forall b, c :: inUse(b) && inUse(c) && hash(b) == hash(c) ==> b == c
      ensures Valid() && history == [] && this.compile == compile && this.hash == hash && this.inUse == inUse
    {
      this.compile, this.hash, this.inUse := compile, hash, inUse;
      modules, history := Ordered([], map[]), [];
    }

    /** Always the compilation of the given bytes, cached or not. */
    method GetOrCompile(bytes: seq<bv8>) returns (r: Option<W>)
      requires Valid() && inUse(bytes)
      modifies this
      ensures Valid() && r == compile(bytes)
      ensures history == if r.Some? then old(history) + [Used(hash(bytes))] else old(history)
      ensures forall j :: j in old(modules.items) && j !in modules.items ==>
        |old(modules.order)| == 100 && j == old(modules.order)[0]
    {
      hide Held, After, Ordered.Valid, CompilationOf, Collisionless;
      var k := hash(bytes);
      HeldUse(history, k);
      if k in modules.items {
        MovedFacts(modules, k, MAX_CACHED_MODULES);
        OnlyCompilation(bytes, modules.items[k]);
        modules := MoveToEnd(modules, k);
        history := history + [Used(k)];
        return Some(modules.items[k]);
      }
      r := compile(bytes);
      if r.Some? {
        StoredFacts(modules, k, r.value, MAX_CACHED_MODULES);
        OnlyCompilation(bytes, r.value);
        modules := SetLast(modules, k, r.value);
        if |modules.order| > MAX_CACHED_MODULES {
          modules := PopFirst(modules);
        }
        history := history + [Used(k)];
      }
    }

    method Execute<V, F(!new), M(!new)>(
      table: Table<V>, step: StepSpec, bytes: seq<bv8>, g: Guest<W, V, F, M>,
      shown: (string, nat) -> V, alarm: Option<nat>)
      returns (r: StepResult<V>)
      requires Valid() && table.Valid() && inUse(bytes)
      modifies this
      ensures Valid()
      ensures Incomplete(table, step) ==> r == BadStep && history == old(history)
      ensures !Incomplete(table, step) && compile(bytes).None? ==> r == BadModule
      ensures !Incomplete(table, step) && compile(bytes).Some? ==>
        var w := compile(bytes).value;
        && (r == Unlinked <==> g.start(w).None?)
        && (r == BadStep <==> g.start(w).Some? && step.name !in g.exports(w))
      ensures !Incomplete(table, step) && Runnable(compile(bytes), g, step.name) ==>
        !r.BadModule? && exists run ::
          StandsFor(run, g, compile(bytes).value, step, table.rows, shown, alarm) && Resulting(table, run, r)
    {
      hide Held, Resulting, Ordered.Valid, CompilationOf, Collisionless;
      if !FieldsOk(table, step) {
        return BadStep;
      }
      var module_ := GetOrCompile(bytes);
      if module_.None? {
        return BadModule;
      }
      var w := module_.value;
      if g.start(w).None? {
        return Unlinked;
      }
      if step.name !in g.exports(w) {
        return BadStep;
      }
      var run := RunOf(g, w, step, table.rows, shown, alarm);
      assert StandsFor(run, g, w, step, table.rows, shown, alarm);
      r := RunStep(table, run);
    }
  }

  lemma {:induction false} HeldUse(h: seq<Event>, k: string)
    ensures Held(h + [Used(k)], MAX_CACHED_MODULES) == After(Held(h, MAX_CACHED_MODULES), Used(k), MAX_CACHED_MODULES)
  {
    assert (h + [Used(k)])[..|h|] == h;
  }

  lemma MovedFacts<V>(d: Ordered<V>, k: string, n: nat)
    requires d.Valid() && |d.order| <= n && k in d.items
    ensures MoveToEnd(d, k).Valid() && MoveToEnd(d, k).order == After(d.order, Used(k), n)
            && |MoveToEnd(d, k).order| <= n
  {
    OperationsKeepValid(d, k, d.items[k]);
    WithoutDistinct(d.order, k);
  }
}
