/** Batch execution with eviction of dead tables, and the loop that never evicts. */
module Runner {
  import opened Basics
  import opened Pipeline

  /** What running one step can do: return a result, raise the step error that
      the run loop turns into a failed summary, or raise anything else. */
  datatype StepOutcome<+T> =
    | Done(table: T, rowsIn: nat, rowsOut: nat)
    | StepError(error: string)
    | OtherError(error: string)

  /** The step executor sees the step and the tables found for its inputs. */
  type Executor<!T> = (Step, seq<Option<T>>) -> StepOutcome<T>

  datatype Event =
    | Running(step: string, index: nat)
    | StepCompleted(step: string, index: nat, rowsIn: nat, rowsOut: nat)
    | StepFailed(step: string, index: nat, error: string)

  datatype Status = Going | Completed | Failed(error: string) | Raised(error: string)

  datatype StepResult<+T> = StepResult(step: string, table: T, rowsIn: nat, rowsOut: nat)

  /** Everything a caller of the run loop can observe. */
  datatype Summary<+T> = Summary(status: Status, results: seq<StepResult<T>>, rows: nat, events: seq<Event>)

  function Lookup<T>(registry: map<string, T>, refs: seq<string>): (found: seq<Option<T>>)
    ensures |found| == |refs|
    ensures forall j :: 0 <= j < |refs| ==>
      found[j] == if refs[j] in registry then Some(registry[refs[j]]) else None
  {
    if refs == [] then []
    else [if refs[0] in registry then Some(registry[refs[0]]) else None] + Lookup(registry, refs[1..])
  }

  /** One turn of the run loop, seen from outside: the events it emits and what it
      adds to the summary. */
  function Advance<T>(s: Summary<T>, step: Step, index: nat, outcome: StepOutcome<T>): Summary<T> {
    var started := s.events + [Running(step.name, index)];
    match outcome
    case Done(table, rowsIn, rowsOut) =>
      Summary(Going, s.results + [StepResult(step.name, table, rowsIn, rowsOut)], s.rows + rowsIn,
              started + [StepCompleted(step.name, index, rowsIn, rowsOut)])
    case StepError(error) =>
      Summary(Failed(error), s.results, s.rows, started + [StepFailed(step.name, index, error)])
    case OtherError(error) =>
      Summary(Raised(error), s.results, s.rows, started)
  }

  function Finish<T>(s: Summary<T>): Summary<T> {
    if s.status == Going then s.(status := Completed) else s
  }

  // ----- the loop that keeps every table

  datatype Kept<+T> = Kept(summary: Summary<T>, tables: map<string, T>)

  function KeepTurn<T>(s: Kept<T>, step: Step, index: nat, exec: Executor<T>): Kept<T> {
    var outcome := exec(step, Lookup(s.tables, StepInputs(step)));
    Kept(Advance(s.summary, step, index, outcome),
         if outcome.Done? then s.tables[step.name := outcome.table] else s.tables)
  }

  /** The first `k` turns of a run that stores every output and drops none. */
  function KeepAll<T>(steps: seq<Step>, exec: Executor<T>, k: nat): Kept<T>
    requires k <= |steps|
  {
    if k == 0 then Kept(Summary(Going, [], 0, []), map[])
    else
      var prev := KeepAll(steps, exec, k - 1);
      if prev.summary.status != Going then prev else KeepTurn(prev, steps[k - 1], k - 1, exec)
  }

  function RunKeepingAll<T>(steps: seq<Step>, exec: Executor<T>): Summary<T> {
    Finish(KeepAll(steps, exec, |steps|).summary)
  }

  // ----- the loop that evicts

  /** The in-place update of the registry and the remaining counts after a step. */
  function Evict<T>(registry: map<string, T>, remaining: map<string, int>, name: string, consumed: seq<string>)
    : (map<string, T>, map<string, int>)
  {
    if consumed == [] then (registry, remaining)
    else
      var ref := consumed[0];
      if ref !in remaining then Evict(registry, remaining, name, consumed[1..])
      else
        var left := remaining[ref] - 1;
        Evict(if left <= 0 && ref != name then registry - {ref} else registry,
              remaining[ref := left], name, consumed[1..])
  }

  datatype Evicting<+T> = Evicting(summary: Summary<T>, registry: map<string, T>, remaining: map<string, int>)

  function Counts(steps: seq<Step>): (counts: map<string, int>)
    ensures forall ref :: ref in counts <==> Reads(steps, ref) > 0
    ensures forall ref :: ref in counts ==> counts[ref] == Reads(steps, ref)
  {
    if steps == [] then map[]
    else AddReads(Counts(steps[1..]), StepInputs(steps[0]))
  }

  function AddReads(counts: map<string, int>, refs: seq<string>): (sum: map<string, int>)
    ensures forall ref :: ref in sum <==> ref in counts || Occurrences(refs, ref) > 0
    ensures forall ref :: ref in sum ==>
      sum[ref] == (if ref in counts then counts[ref] else 0) + Occurrences(refs, ref)
  {
    if refs == [] then counts
    else
      var rest := AddReads(counts, refs[1..]);
      rest[refs[0] := (if refs[0] in rest then rest[refs[0]] else 0) + 1]
  }

  /** One turn of the run loop: look the inputs up, execute, store and evict. */
  function Turn<T>(s: Evicting<T>, step: Step, index: nat, exec: Executor<T>): Evicting<T> {
    var outcome := exec(step, Lookup(s.registry, StepInputs(step)));
    var next := Advance(s.summary, step, index, outcome);
    if outcome.Done? then
      var (registry, remaining) :=
        Evict(s.registry[step.name := outcome.table], s.remaining, step.name, StepInputs(step));
      Evicting(next, registry, remaining)
    else s.(summary := next)
  }

  /** The first `k` turns of the run loop as it is. */
  function RunTurns<T>(steps: seq<Step>, exec: Executor<T>, k: nat): Evicting<T>
    requires k <= |steps|
  {
    if k == 0 then Evicting(Summary(Going, [], 0, []), map[], Counts(steps))
    else
      var prev := RunTurns(steps, exec, k - 1);
      if prev.summary.status != Going then prev else Turn(prev, steps[k - 1], k - 1, exec)
  }

  // ----- one turn at a time

  lemma RunStep<T>(steps: seq<Step>, exec: Executor<T>, k: nat)
    requires k < |steps|
    ensures var s, next, step := RunTurns(steps, exec, k), RunTurns(steps, exec, k + 1), steps[k];
      && (s.summary.status != Going ==> next == s)
      && (s.summary.status == Going ==>
            var outcome := exec(step, Lookup(s.registry, StepInputs(step)));
            && next.summary == Advance(s.summary, step, k, outcome)
            && (outcome.Done? <==> next.summary.status == Going)
            && (outcome.Done? ==>
                  (next.registry, next.remaining)
                  == Evict(s.registry[step.name := outcome.table], s.remaining, step.name, StepInputs(step))))
  {
    hide Lookup, Evict;
  }

  lemma {:induction false} Started<T>(steps: seq<Step>, exec: Executor<T>)
    ensures RunTurns(steps, exec, 0) == Evicting(Summary(Going, [], 0, []), map[], Counts(steps))
    ensures KeepAll(steps, exec, 0) == Kept(Summary(Going, [], 0, []), map[])
  {
  }

  lemma KeepStep<T>(steps: seq<Step>, exec: Executor<T>, k: nat)
    requires k < |steps|
    ensures var s, next, step := KeepAll(steps, exec, k), KeepAll(steps, exec, k + 1), steps[k];
      && (s.summary.status != Going ==> next == s)
      && (s.summary.status == Going ==>
            var outcome := exec(step, Lookup(s.tables, StepInputs(step)));
            && next.summary == Advance(s.summary, step, k, outcome)
            && (outcome.Done? <==> next.summary.status == Going)
            && next.tables == if outcome.Done? then s.tables[step.name := outcome.table] else s.tables)
  {
    hide Lookup;
  }

  // ----- what one eviction pass does

  /** A pass lowers each count by the number of reads, drops a table exactly when
      its count is spent, and touches nothing else. */
  lemma {:induction false} EvictEffect<T>(
    registry: map<string, T>, remaining: map<string, int>, name: string, consumed: seq<string>)
    ensures var (after, left) := Evict(registry, remaining, name, consumed);
      && left.Keys == remaining.Keys
      && (forall ref :: ref in remaining ==> left[ref] == remaining[ref] - Occurrences(consumed, ref))
      && after.Keys <= registry.Keys
      && (forall ref :: ref in after ==> after[ref] == registry[ref])
      && (forall ref :: ref in registry ==>
            (ref in after <==> !(ref in remaining && ref in consumed && ref != name && left[ref] <= 0)))
    decreases |consumed|
  {
    if consumed != [] {
      var ref := consumed[0];
      if ref !in remaining {
        EvictEffect(registry, remaining, name, consumed[1..]);
      } else {
        var left := remaining[ref] - 1;
        var registry' := if left <= 0 && ref != name then registry - {ref} else registry;
        EvictEffect(registry', remaining[ref := left], name, consumed[1..]);
        OccurrencesPositive(consumed[1..], ref);
      }
    }
  }

  /** At every turn the counts are the reads the rest of the pipeline still makes. */
  lemma {:induction false} RemainingIsReadsLeft<T>(steps: seq<Step>, exec: Executor<T>, k: nat)
    requires k <= |steps|
    requires RunTurns(steps, exec, k).summary.status == Going
    ensures var s := RunTurns(steps, exec, k);
      && (forall ref :: ref in s.remaining <==> Reads(steps, ref) > 0)
      && (forall ref :: ref in s.remaining ==> s.remaining[ref] == Reads(steps[k..], ref))
  {
    hide RunTurns, Lookup, Evict, Advance;
    if k == 0 {
      Started(steps, exec);
      assert steps[0..] == steps;
    } else {
      RunStep(steps, exec, k - 1);
      RemainingIsReadsLeft(steps, exec, k - 1);
      var prev := RunTurns(steps, exec, k - 1);
      var step := steps[k - 1];
      var outcome := exec(step, Lookup(prev.registry, StepInputs(step)));
      EvictEffect(prev.registry[step.name := outcome.table], prev.remaining, step.name, StepInputs(step));
      assert steps[k - 1..][0] == step && steps[k - 1..][1..] == steps[k..];
    }
  }

  /** Eviction is invisible: at every turn, for every step list and every executor,
      the evicting loop has shown the same events and results as the keeping loop,
      and the tables a later step reads are the same in both. */
  lemma {:induction false} SameTurns<T>(steps: seq<Step>, exec: Executor<T>, k: nat)
    requires k <= |steps|
    ensures RunTurns(steps, exec, k).summary == KeepAll(steps, exec, k).summary
    ensures RunTurns(steps, exec, k).summary.status == Going ==>
      var registry, tables := RunTurns(steps, exec, k).registry, KeepAll(steps, exec, k).tables;
      && (forall ref :: ref in registry ==> ref in tables && registry[ref] == tables[ref])
      && (forall ref :: ref in tables && Reads(steps[k..], ref) > 0 ==> ref in registry)
  {
    hide RunTurns, KeepAll, Lookup, Evict, Advance, StepInputs, Reads;
    if k == 0 {
      Started(steps, exec);
    } else {
      SameTurns(steps, exec, k - 1);
      RunStep(steps, exec, k - 1);
      KeepStep(steps, exec, k - 1);
      var prev := RunTurns(steps, exec, k - 1);
      if prev.summary.status == Going {
        SameLookups(steps, exec, k - 1);
        if RunTurns(steps, exec, k).summary.status == Going {
          SameRegistry(steps, exec, k - 1);
        }
      }
    }
  }

  lemma SameRegistry<T>(steps: seq<Step>, exec: Executor<T>, k: nat)
    requires k < |steps| && RunTurns(steps, exec, k).summary.status == Going
    requires var s, kept := RunTurns(steps, exec, k), KeepAll(steps, exec, k);
      && s.summary == kept.summary
      && (forall ref :: ref in s.registry ==> ref in kept.tables && s.registry[ref] == kept.tables[ref])
      && (forall ref :: ref in kept.tables && Reads(steps[k..], ref) > 0 ==> ref in s.registry)
    requires RunTurns(steps, exec, k + 1).summary.status == Going
    requires Lookup(RunTurns(steps, exec, k).registry, StepInputs(steps[k]))
          == Lookup(KeepAll(steps, exec, k).tables, StepInputs(steps[k]))
    ensures var registry, tables := RunTurns(steps, exec, k + 1).registry, KeepAll(steps, exec, k + 1).tables;
      && (forall ref :: ref in registry ==> ref in tables && registry[ref] == tables[ref])
      && (forall ref :: ref in tables && Reads(steps[k + 1..], ref) > 0 ==> ref in registry)
  {
    hide RunTurns, KeepAll, Lookup, Evict, Advance, StepInputs, Occurrences;
    RunStep(steps, exec, k);
    KeepStep(steps, exec, k);
    RemainingIsReadsLeft(steps, exec, k);
    var s, step := RunTurns(steps, exec, k), steps[k];
    var outcome := exec(step, Lookup(s.registry, StepInputs(step)));
    EvictEffect(s.registry[step.name := outcome.table], s.remaining, step.name, StepInputs(step));
    assert steps[k..][0] == step && steps[k..][1..] == steps[k + 1..];
  }

  lemma {:induction false} SameLookups<T>(steps: seq<Step>, exec: Executor<T>, k: nat)
    requires k < |steps|
    requires var registry, tables := RunTurns(steps, exec, k).registry, KeepAll(steps, exec, k).tables;
      && (forall ref :: ref in registry ==> ref in tables && registry[ref] == tables[ref])
      && (forall ref :: ref in tables && Reads(steps[k..], ref) > 0 ==> ref in registry)
    ensures Lookup(RunTurns(steps, exec, k).registry, StepInputs(steps[k]))
         == Lookup(KeepAll(steps, exec, k).tables, StepInputs(steps[k]))
  {
    var refs := StepInputs(steps[k]);
    forall j | 0 <= j < |refs|
      ensures Reads(steps[k..], refs[j]) > 0
    {
      OccurrencesPositive(refs, refs[j]);
    }
  }

  // ----- what the parser's checks add

  /** The keeping loop holds the output of every step it has run. */
  lemma {:induction false} KeptHasEveryOutput<T>(steps: seq<Step>, exec: Executor<T>, k: nat)
    requires k <= |steps|
    requires KeepAll(steps, exec, k).summary.status == Going
    ensures forall ref :: ref in KeepAll(steps, exec, k).tables <==> NamesStepBefore(steps, k, ref)
  {
    hide Lookup, KeepAll, Advance, StepInputs;
    if k == 0 {
      Started(steps, exec);
    } else {
      KeepStep(steps, exec, k - 1);
      var prev, kept := KeepAll(steps, exec, k - 1).tables, KeepAll(steps, exec, k).tables;
      KeptHasEveryOutput(steps, exec, k - 1);
      assert kept.Keys == prev.Keys + {steps[k - 1].name};
      forall ref
        ensures ref in kept <==> NamesStepBefore(steps, k, ref)
      {
        assert NamesStepBefore(steps, k, ref) <==> NamesStepBefore(steps, k - 1, ref) || ref == steps[k - 1].name;
      }
    }
  }

  /** In a pipeline whose references name earlier steps, no step ever finds an
      input missing, although tables are being dropped. */
  lemma {:induction false} NoInputMissing<T>(steps: seq<Step>, exec: Executor<T>, k: nat, j: nat)
    requires k < |steps| && j < |StepInputs(steps[k])|
    requires ReadsEarlier(steps)
    requires RunTurns(steps, exec, k).summary.status == Going
    ensures Lookup(RunTurns(steps, exec, k).registry, StepInputs(steps[k]))[j].Some?
  {
    SameTurns(steps, exec, k);
    SameLookups(steps, exec, k);
    KeptHasEveryOutput(steps, exec, k);
    assert StepInputs(steps[k])[j] in StepInputs(steps[k]);
  }

  /** Memory bound: after `k` turns the registry holds exactly the outputs that a
      later step still reads, and the outputs that no step ever reads. */
  lemma {:induction false} RegistryIsLiveTables<T>(steps: seq<Step>, exec: Executor<T>, k: nat)
    requires k <= |steps|
    requires UniqueNames(steps) && ReadsEarlier(steps)
    requires RunTurns(steps, exec, k).summary.status == Going
    ensures forall ref :: ref in RunTurns(steps, exec, k).registry <==>
      NamesStepBefore(steps, k, ref) && (Reads(steps[k..], ref) > 0 || Reads(steps, ref) == 0)
  {
    hide RunTurns, Lookup, Evict, Advance, UniqueNames, ReadsEarlier;
    if k == 0 {
      Started(steps, exec);
    } else {
      RunStep(steps, exec, k - 1);
      var prev, step := RunTurns(steps, exec, k - 1), steps[k - 1];
      RegistryIsLiveTables(steps, exec, k - 1);
      RemainingIsReadsLeft(steps, exec, k - 1);
      RemainingIsReadsLeft(steps, exec, k);
      var outcome := exec(step, Lookup(prev.registry, StepInputs(step)));
      EvictEffect(prev.registry[step.name := outcome.table], prev.remaining, step.name, StepInputs(step));
      forall ref
        ensures ref in RunTurns(steps, exec, k).registry <==>
          NamesStepBefore(steps, k, ref) && (Reads(steps[k..], ref) > 0 || Reads(steps, ref) == 0)
      {
        assert steps[k - 1..][0] == step && steps[k - 1..][1..] == steps[k..];
        OccurrencesPositive(StepInputs(step), ref);
        assert NamesStepBefore(steps, k, ref) <==> NamesStepBefore(steps, k - 1, ref) || ref == step.name;
        if ref == step.name {
          OnlyLaterStepsRead(steps, k - 1);
        }
      }
    }
  }

  /** With unique names and backward references, a step's output is read only after it. */
  lemma {:induction false} OnlyLaterStepsRead(steps: seq<Step>, k: nat)
    requires k < |steps|
    requires UniqueNames(steps) && ReadsEarlier(steps)
    ensures Reads(steps, steps[k].name) == Reads(steps[k + 1..], steps[k].name)
  {
    var ref := steps[k].name;
    ReadsOfPrefix(steps, k + 1, ref);
    ReadsPositive(steps[..k + 1], ref);
    forall i | 0 <= i < k + 1
      ensures ref !in StepInputs(steps[i])
    {
      assert !NamesStepBefore(steps, i, ref);
    }
  }

  // ----- what a run means, without any registry

  function SumRows<T>(results: seq<StepResult<T>>): nat {
    if results == [] then 0 else SumRows(results[..|results| - 1]) + results[|results| - 1].rowsIn
  }

  /** The events of the first `n` completed steps, two per step. */
  function CompletedEvents<T>(results: seq<StepResult<T>>): seq<Event> {
    if results == [] then []
    else
      var i := |results| - 1;
      CompletedEvents(results[..i])
      + [Running(results[i].step, i), StepCompleted(results[i].step, i, results[i].rowsIn, results[i].rowsOut)]
  }

  /** The events after the completed steps: those of the step that stopped the run. */
  function StopEvents(status: Status, steps: seq<Step>, n: nat): seq<Event>
    requires n <= |steps| && (status.Failed? || status.Raised? ==> n < |steps|)
  {
    match status
    case Failed(error) => [Running(steps[n].name, n), StepFailed(steps[n].name, n, error)]
    case Raised(_) => [Running(steps[n].name, n)]
    case _ => []
  }

  ghost predicate HasShape<T>(s: Summary<T>, steps: seq<Step>, k: nat) {
    var n := |s.results|;
    && n <= k <= |steps|
    && s.status != Completed && (s.status == Going <==> n == k)
    && (forall i :: 0 <= i < n ==> s.results[i].step == steps[i].name)
    && s.rows == SumRows(s.results)
    && s.events == CompletedEvents(s.results) + StopEvents(s.status, steps, n)
  }

  lemma ShapeAdvances<T>(s: Summary<T>, steps: seq<Step>, k: nat, outcome: StepOutcome<T>)
    requires k < |steps| && HasShape(s, steps, k) && s.status == Going
    ensures HasShape(Advance(s, steps[k], k, outcome), steps, k + 1)
  {
    var next := Advance(s, steps[k], k, outcome);
    assert s.events == CompletedEvents(s.results);
    if outcome.Done? {
      assert next.results[..k] == s.results;
      assert next.events == CompletedEvents(next.results);
    } else {
      assert next.events == CompletedEvents(s.results) + StopEvents(next.status, steps, k);
    }
  }

  lemma ShapeStarts<T>(steps: seq<Step>)
    ensures HasShape<T>(Summary(Going, [], 0, []), steps, 0)
  {
  }

  lemma ShapeStays<T>(s: Summary<T>, steps: seq<Step>, k: nat)
    requires k < |steps| && HasShape(s, steps, k) && s.status != Going
    ensures HasShape(s, steps, k + 1)
  {
  }

  /** One result per completed step in pipeline order, the row total is the sum of
      their inputs, and a failure is reported for the first step without a result. */
  lemma {:induction false} SummaryShape<T>(steps: seq<Step>, exec: Executor<T>, k: nat)
    requires k <= |steps|
    ensures HasShape(RunTurns(steps, exec, k).summary, steps, k)
  {
    hide RunTurns, Lookup, Advance, StepInputs, Evict, HasShape;
    if k == 0 {
      Started(steps, exec);
      ShapeStarts<T>(steps);
    } else {
      SummaryShape(steps, exec, k - 1);
      RunStep(steps, exec, k - 1);
      var prev := RunTurns(steps, exec, k - 1);
      if prev.summary.status == Going {
        ShapeAdvances(prev.summary, steps, k - 1, exec(steps[k - 1], Lookup(prev.registry, StepInputs(steps[k - 1]))));
      } else {
        ShapeStays(prev.summary, steps, k - 1);
      }
    }
  }

  /** The table of the last step before `i` called `ref`, if there is one. */
  function OutputBefore<T>(steps: seq<Step>, results: seq<StepResult<T>>, i: nat, ref: string): (found: Option<T>)
    requires i <= |steps| && i <= |results|
    ensures found.Some? <==> NamesStepBefore(steps, i, ref)
  {
    if i == 0 then None
    else if steps[i - 1].name == ref then Some(results[i - 1].table)
    else
      var found := OutputBefore(steps, results, i - 1, ref);
      assert NamesStepBefore(steps, i, ref) <==> NamesStepBefore(steps, i - 1, ref);
      found
  }

  /** The table a reference stands for; a field left empty stands for none. */
  function Given<T>(steps: seq<Step>, results: seq<StepResult<T>>, i: nat, ref: string): seq<Option<T>>
    requires i <= |steps| && i <= |results|
  {
    if ref == "" then [] else [OutputBefore(steps, results, i, ref)]
  }

  /** The tables that the steps named by step `i` produced, left before right. */
  function InputsOf<T>(steps: seq<Step>, results: seq<StepResult<T>>, i: nat): seq<Option<T>>
    requires i < |steps| && i <= |results|
  {
    match steps[i].kind
    case Join(left, right) => Given(steps, results, i, left) + Given(steps, results, i, right)
    case Save(input) => Given(steps, results, i, input)
    case Validate(input) => Given(steps, results, i, input)
    case Rename(input) => Given(steps, results, i, input)
    case Transform(input) => Given(steps, results, i, input)
    case _ => []
  }

  /** Every result is the executor's answer to the results of the steps it names. */
  ghost predicate Solves<T>(steps: seq<Step>, exec: Executor<T>, results: seq<StepResult<T>>) {
    && |results| <= |steps|
    && forall i :: 0 <= i < |results| ==>
         exec(steps[i], InputsOf(steps, results, i)) == Done(results[i].table, results[i].rowsIn, results[i].rowsOut)
  }

  lemma {:induction false} OutputOfPrefix<T>(
    steps: seq<Step>, early: seq<StepResult<T>>, all: seq<StepResult<T>>, i: nat, ref: string)
    requires i <= |steps| && i <= |early| && early <= all
    ensures OutputBefore(steps, early, i, ref) == OutputBefore(steps, all, i, ref)
  {
    if i > 0 {
      OutputOfPrefix(steps, early, all, i - 1, ref);
      assert early[i - 1] == all[i - 1];
    }
  }

  lemma InputsOfPrefix<T>(steps: seq<Step>, early: seq<StepResult<T>>, all: seq<StepResult<T>>, i: nat)
    requires i < |steps| && i <= |early| && early <= all
    ensures InputsOf(steps, early, i) == InputsOf(steps, all, i)
  {
    hide OutputBefore;
    forall ref: string
      ensures OutputBefore(steps, early, i, ref) == OutputBefore(steps, all, i, ref)
    {
      OutputOfPrefix(steps, early, all, i, ref);
    }
  }

  /** The tables the keeping loop holds are the outputs of the steps it has run. */
  ghost predicate HoldsOutputs<T>(s: Kept<T>, steps: seq<Step>, k: nat) {
    && k <= |steps| && |s.summary.results| == k
    && forall ref :: OutputBefore(steps, s.summary.results, k, ref)
                     == if ref in s.tables then Some(s.tables[ref]) else None
  }

  lemma HeldAreInputs<T>(s: Kept<T>, steps: seq<Step>, k: nat)
    requires k < |steps| && HoldsOutputs(s, steps, k)
    ensures |s.summary.results| == k
    ensures Lookup(s.tables, StepInputs(steps[k])) == InputsOf(steps, s.summary.results, k)
  {
    hide OutputBefore;
    if steps[k].kind.Join? {
      GivenLookup(s, steps, k, steps[k].kind.left);
      GivenLookup(s, steps, k, steps[k].kind.right);
      var left, right := NonEmpty([steps[k].kind.left]), NonEmpty([steps[k].kind.right]);
      assert NonEmpty([steps[k].kind.left, steps[k].kind.right]) == left + right;
      assert Lookup(s.tables, left + right) == Lookup(s.tables, left) + Lookup(s.tables, right);
    } else if StepInputs(steps[k]) != [] {
      GivenLookup(s, steps, k, steps[k].kind.input);
    }
  }

  lemma GivenLookup<T>(s: Kept<T>, steps: seq<Step>, k: nat, ref: string)
    requires k < |steps| && HoldsOutputs(s, steps, k)
    ensures Lookup(s.tables, NonEmpty([ref])) == Given(steps, s.summary.results, k, ref)
  {
    hide OutputBefore;
  }

  lemma HoldsNext<T>(s: Kept<T>, steps: seq<Step>, k: nat, added: StepResult<T>, next: Kept<T>)
    requires k < |steps| && HoldsOutputs(s, steps, k)
    requires next.summary.results == s.summary.results + [added]
    requires next.tables == s.tables[steps[k].name := added.table]
    ensures HoldsOutputs(next, steps, k + 1)
  {
    forall ref
      ensures OutputBefore(steps, next.summary.results, k + 1, ref)
              == if ref in next.tables then Some(next.tables[ref]) else None
    {
      OutputOfPrefix(steps, s.summary.results, next.summary.results, k, ref);
    }
  }

  lemma SolvesNext<T>(steps: seq<Step>, exec: Executor<T>, results: seq<StepResult<T>>, added: StepResult<T>)
    requires Solves(steps, exec, results) && |results| < |steps|
    requires exec(steps[|results|], InputsOf(steps, results, |results|))
          == Done(added.table, added.rowsIn, added.rowsOut)
    ensures Solves(steps, exec, results + [added])
  {
    hide InputsOf;
    var all := results + [added];
    forall i | 0 <= i < |all|
      ensures exec(steps[i], InputsOf(steps, all, i)) == Done(all[i].table, all[i].rowsIn, all[i].rowsOut)
    {
      InputsOfPrefix(steps, results, all, i);
    }
  }

  /** What stopped a run: for the first step without a result, the executor's answer
      to the results of the steps it names. */
  ghost predicate Stopped<T>(steps: seq<Step>, exec: Executor<T>, s: Summary<T>) {
    var n := |s.results|;
    && n < |steps|
    && match exec(steps[n], InputsOf(steps, s.results, n))
       case Done(_, _, _) => false
       case StepError(error) => s.status == Failed(error)
       case OtherError(error) => s.status == Raised(error)
  }

  lemma {:induction false} KeptSolves<T>(steps: seq<Step>, exec: Executor<T>, k: nat)
    requires k <= |steps|
    ensures var kept := KeepAll(steps, exec, k);
      && Solves(steps, exec, kept.summary.results)
      && if kept.summary.status == Going then HoldsOutputs(kept, steps, k) else Stopped(steps, exec, kept.summary)
  {
    hide Lookup, KeepAll, StepInputs, InputsOf, Solves, HoldsOutputs;
    if k == 0 {
      Started(steps, exec);
      NothingSolves(steps, exec);
    } else {
      KeptSolves(steps, exec, k - 1);
      KeepStep(steps, exec, k - 1);
      var prev, kept, step := KeepAll(steps, exec, k - 1), KeepAll(steps, exec, k), steps[k - 1];
      if prev.summary.status == Going {
        HeldAreInputs(prev, steps, k - 1);
        var outcome := exec(step, InputsOf(steps, prev.summary.results, k - 1));
        if outcome.Done? {
          var added := StepResult(step.name, outcome.table, outcome.rowsIn, outcome.rowsOut);
          HoldsNext(prev, steps, k - 1, added, kept);
          SolvesNext(steps, exec, prev.summary.results, added);
        }
      }
    }
  }

  lemma NothingSolves<T>(steps: seq<Step>, exec: Executor<T>)
    ensures Solves(steps, exec, []) && HoldsOutputs<T>(Kept(Summary(Going, [], 0, []), map[]), steps, 0)
  {
  }

  /** At every turn, for every step list and executor, the tables produced are the
      executor's answers to the tables that the steps each one names produced,
      whatever was evicted on the way. */
  lemma {:induction false} ResultsSolvePipeline<T>(steps: seq<Step>, exec: Executor<T>, k: nat)
    requires k <= |steps|
    ensures Solves(steps, exec, RunTurns(steps, exec, k).summary.results)
  {
    hide RunTurns, KeepAll, Solves, InputsOf;
    SameTurns(steps, exec, k);
    KeptSolves(steps, exec, k);
  }

  /** A run that stopped reports what the executor answered for the first step
      without a result: a step error as a failure, anything else as raised. */
  lemma {:induction false} StoppedByAnswer<T>(steps: seq<Step>, exec: Executor<T>, k: nat)
    requires k <= |steps|
    ensures RunTurns(steps, exec, k).summary.status != Going ==> Stopped(steps, exec, RunTurns(steps, exec, k).summary)
  {
    hide RunTurns, KeepAll, InputsOf;
    SameTurns(steps, exec, k);
    KeptSolves(steps, exec, k);
  }

  /** The summary of a finished run, told by the executor alone: its results are the
      executor's answers up to the first step it refuses, and status and events say
      how that step was refused. */
  ghost predicate Reported<T>(steps: seq<Step>, exec: Executor<T>, s: Summary<T>) {
    var n := |s.results|;
    && Solves(steps, exec, s.results)
    && (forall i :: 0 <= i < n ==> s.results[i].step == steps[i].name)
    && s.rows == SumRows(s.results)
    && if n == |steps| then s.status == Completed && s.events == CompletedEvents(s.results)
       else
         match exec(steps[n], InputsOf(steps, s.results, n))
         case Done(_, _, _) => false
         case StepError(error) =>
           && s.status == Failed(error)
           && s.events == CompletedEvents(s.results) + [Running(steps[n].name, n), StepFailed(steps[n].name, n, error)]
         case OtherError(error) =>
           && s.status == Raised(error)
           && s.events == CompletedEvents(s.results) + [Running(steps[n].name, n)]
  }

  lemma {:induction false} RunIsReported<T>(steps: seq<Step>, exec: Executor<T>)
    ensures Reported(steps, exec, Finish(RunTurns(steps, exec, |steps|).summary))
  {
    hide RunTurns, Solves, InputsOf, SumRows, CompletedEvents;
    SummaryShape(steps, exec, |steps|);
    ResultsSolvePipeline(steps, exec, |steps|);
    StoppedByAnswer(steps, exec, |steps|);
    var s := RunTurns(steps, exec, |steps|).summary;
    assert s.status == Going ==> s.events == CompletedEvents(s.results) + [];
  }

  lemma {:induction false} SolutionsAgree<T>(
    steps: seq<Step>, exec: Executor<T>, a: seq<StepResult<T>>, b: seq<StepResult<T>>, i: nat)
    requires Solves(steps, exec, a) && Solves(steps, exec, b) && i <= |a| && i <= |b|
    requires forall j :: 0 <= j < |a| ==> a[j].step == steps[j].name
    requires forall j :: 0 <= j < |b| ==> b[j].step == steps[j].name
    ensures a[..i] == b[..i]
  {
    hide InputsOf;
    if i > 0 {
      SolutionsAgree(steps, exec, a, b, i - 1);
      InputsOfPrefix(steps, a[..i - 1], a, i - 1);
      InputsOfPrefix(steps, b[..i - 1], b, i - 1);
      assert a[i - 1] == b[i - 1];
      assert a[..i] == a[..i - 1] + [a[i - 1]] && b[..i] == b[..i - 1] + [b[i - 1]];
    }
  }

  lemma NoLongerReport<T>(steps: seq<Step>, exec: Executor<T>, a: Summary<T>, b: Summary<T>)
    requires Reported(steps, exec, a) && Reported(steps, exec, b)
    ensures |a.results| >= |b.results|
  {
    hide InputsOf, SumRows, CompletedEvents;
    var n := |a.results|;
    if n < |b.results| {
      SolutionsAgree(steps, exec, a.results, b.results, n);
      assert a.results[..n] == a.results;
      InputsOfPrefix(steps, a.results, b.results, n);
      assert false;
    }
  }

  /** Exactly one summary fits: step list and executor determine all a caller sees. */
  lemma ReportIsUnique<T>(steps: seq<Step>, exec: Executor<T>, a: Summary<T>, b: Summary<T>)
    requires Reported(steps, exec, a) && Reported(steps, exec, b)
    ensures a == b
  {
    hide InputsOf, SumRows, CompletedEvents;
    NoLongerReport(steps, exec, a, b);
    NoLongerReport(steps, exec, b, a);
    var n := |a.results|;
    SolutionsAgree(steps, exec, a.results, b.results, n);
    assert a.results[..n] == a.results && b.results[..n] == b.results;
  }

  lemma {:induction false} NoFailureAmongCompleted<T>(results: seq<StepResult<T>>, e: Event)
    requires e in CompletedEvents(results)
    ensures !e.StepFailed?
  {
    var i := |results| - 1;
    if e in CompletedEvents(results[..i]) {
      NoFailureAmongCompleted(results[..i], e);
    }
  }

  /** A failure event is emitted exactly for the first step without a result, and
      exactly when the executor answers it with a step error. */
  lemma FailedEventExactly<T>(steps: seq<Step>, exec: Executor<T>, s: Summary<T>, name: string, n: nat, error: string)
    requires Reported(steps, exec, s)
    ensures StepFailed(name, n, error) in s.events <==>
      && n == |s.results| < |steps| && name == steps[n].name
      && exec(steps[n], InputsOf(steps, s.results, n)) == StepError(error)
  {
    hide InputsOf, SumRows, CompletedEvents;
    if StepFailed(name, n, error) in CompletedEvents(s.results) {
      NoFailureAmongCompleted(s.results, StepFailed(name, n, error));
    }
  }

  // ----- the run loop

  method ComputeConsumerCounts(steps: seq<Step>) returns (counts: map<string, int>)
    ensures forall ref :: ref in counts <==> Reads(steps, ref) > 0
    ensures forall ref :: ref in counts ==> counts[ref] == Reads(steps, ref)
  {
    counts := map[];
    for k := 0 to |steps|
      invariant forall ref :: ref in counts <==> Reads(steps[..k], ref) > 0
      invariant forall ref :: ref in counts ==> counts[ref] == Reads(steps[..k], ref)
    {
      hide Occurrences, Reads, StepInputs;
      counts := CountInputs(counts, StepInputs(steps[k]));
      forall ref ensures Reads(steps[..k + 1], ref) == Reads(steps[..k], ref) + Occurrences(StepInputs(steps[k]), ref) {
        ReadsAppended(steps, k, ref);
      }
    }
    assert steps[..|steps|] == steps;
  }

  lemma {:induction false} ReadsAppended(steps: seq<Step>, k: nat, ref: string)
    requires k < |steps|
    ensures Reads(steps[..k + 1], ref) == Reads(steps[..k], ref) + Occurrences(StepInputs(steps[k]), ref)
  {
    ReadsOfPrefix(steps[..k + 1], k, ref);
    assert steps[..k + 1][..k] == steps[..k] && steps[..k + 1][k..] == [steps[k]];
  }

  /** One step's inputs, each counted as often as it is named. */
  method CountInputs(before: map<string, int>, refs: seq<string>) returns (counts: map<string, int>)
    ensures forall ref :: ref in counts <==> ref in before || Occurrences(refs, ref) > 0
    ensures forall ref :: ref in counts ==>
      counts[ref] == (if ref in before then before[ref] else 0) + Occurrences(refs, ref)
  {
    counts := before;
    for j := 0 to |refs|
      invariant forall ref :: ref in counts <==> ref in before || Occurrences(refs[..j], ref) > 0
      invariant forall ref :: ref in counts ==>
        counts[ref] == (if ref in before then before[ref] else 0) + Occurrences(refs[..j], ref)
    {
      forall ref
        ensures Occurrences(refs[..j + 1], ref) == Occurrences(refs[..j], ref) + (if refs[j] == ref then 1 else 0) {
        assert refs[..j + 1] == refs[..j] + [refs[j]];
        OccurrencesInsert(refs[..j], [refs[j]], ref);
      }
      hide Occurrences;
      counts := counts[refs[j] := (if refs[j] in counts then counts[refs[j]] else 0) + 1];
    }
    assert refs[..|refs|] == refs;
  }

  class TableRegistry<T> {
    var tables: map<string, T>
    var remaining: map<string, int>

    constructor (remaining: map<string, int>)
      ensures this.tables == map[] && this.remaining == remaining
    {
      this.tables, this.remaining := map[], remaining;
    }

    method StoreAndEvict(name: string, table: T, consumed: seq<string>)
      modifies this
      ensures (tables, remaining) == Evict(old(tables)[name := table], old(remaining), name, consumed)
    {
      tables := tables[name := table];
      for j := 0 to |consumed|
        invariant Evict(tables, remaining, name, consumed[j..])
               == Evict(old(tables)[name := table], old(remaining), name, consumed)
      {
        var ref := consumed[j];
        assert consumed[j..][0] == ref && consumed[j..][1..] == consumed[j + 1..];
        if ref in remaining {
          remaining := remaining[ref := remaining[ref] - 1];
          if remaining[ref] <= 0 && ref != name {
            tables := tables - {ref};
          }
        }
      }
    }
  }

  method RunLoop<T>(steps: seq<Step>, exec: Executor<T>) returns (summary: Summary<T>)
    ensures summary == RunTurns(steps, exec, |steps|).summary
  {
    var consumers := ComputeConsumerCounts(steps);
    assert consumers == Counts(steps);
    var registry := new TableRegistry<T>(consumers);
    summary := Summary(Going, [], 0, []);
    var k := 0;
    while k < |steps| && summary.status == Going
      invariant k <= |steps|
      invariant RunTurns(steps, exec, k) == Evicting(summary, registry.tables, registry.remaining)
    {
      var step := steps[k];
      var outcome := exec(step, Lookup(registry.tables, StepInputs(step)));
      summary := Advance(summary, step, k, outcome);
      if outcome.Done? {
        registry.StoreAndEvict(step.name, outcome.table, StepInputs(step));
      }
      k := k + 1;
    }
    StoppedStays(steps, exec, k, |steps|);
  }

  /** Running a pipeline gives what running it without ever dropping a table gives:
      the one summary the executor's answers determine. */
  method Execute<T>(steps: seq<Step>, exec: Executor<T>) returns (summary: Summary<T>)
    ensures summary == RunKeepingAll(steps, exec)
    ensures Reported(steps, exec, summary)
  {
    hide Reported;
    SameTurns(steps, exec, |steps|);
    RunIsReported(steps, exec);
    summary := RunLoop(steps, exec);
    summary := Finish(summary);
  }

  lemma {:induction false} StoppedStays<T>(steps: seq<Step>, exec: Executor<T>, k: nat, n: nat)
    requires k <= n <= |steps|
    requires k == n || RunTurns(steps, exec, k).summary.status != Going
    ensures RunTurns(steps, exec, n) == RunTurns(steps, exec, k)
    decreases n - k
  {
    if k < n {
      StoppedStays(steps, exec, k, n - 1);
    }
  }
}
