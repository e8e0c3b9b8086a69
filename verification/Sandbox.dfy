/** The sandbox that tries a patched pipeline on sampled tables.  It drops dead
    tables with its own code, and save steps store nothing in it. */
module Sandbox {
  import opened Basics
  import opened Pipeline
  import Parser
  import Runner

  datatype SandboxError =
    | NoSample(step: string, fileId: string)
    | Unavailable(step: string, input: string)
    | StepFailed(error: string)
    | NoOutput

  datatype Result<+T> = Ok(value: T) | Err(error: SandboxError)

  /** Rename and the DuckDB-backed steps, as a function of the step and its tables. */
  type Executor<!T> = (Step, seq<T>) -> Result<T>

  datatype Fetched<+T> = Found(tables: seq<T>) | Missing(input: string)

  /** The tables for a step's reference fields, or the first one not available. */
  function Require<T>(refs: seq<(string, string)>, registry: map<string, T>): (f: Fetched<T>)
    ensures f.Found? <==> forall j :: 0 <= j < |refs| ==> refs[j].1 in registry
    ensures f.Found? ==> |f.tables| == |refs| && forall j :: 0 <= j < |refs| ==> f.tables[j] == registry[refs[j].1]
  {
    if refs == [] then Found([])
    else if refs[0].1 !in registry then Missing(refs[0].1)
    else
      var rest := Require(refs[1..], registry);
      assert forall j :: 0 <= j < |refs[1..]| ==> refs[1..][j] == refs[j + 1];
      if rest.Missing? then rest else Found([registry[refs[0].1]] + rest.tables)
  }

  /** The table a step yields from the tables it can look up: a load yields its
      sample, save and validate yield their input, every other step is executed.
      A step without an input field asks for the empty name. */
  function StepValue<T>(step: Step, sampled: map<string, T>, exec: Executor<T>, tables: map<string, T>): Result<T> {
    if step.kind.Load? then
      if step.kind.fileId in sampled then Ok(sampled[step.kind.fileId]) else Err(NoSample(step.name, step.kind.fileId))
    else
      var refs := if References(step) == [] then [("input", "")] else References(step);
      var found := Require(refs, tables);
      if found.Missing? then Err(Unavailable(step.name, found.input))
      else if step.kind.Save? || step.kind.Validate? then Ok(found.tables[0])
      else exec(step, found.tables)
  }

  // ----- the value of a pipeline: every table kept, save storing its input

  datatype Meaning<+T> = Meaning(tables: map<string, T>, last: Option<T>, error: Option<SandboxError>)

  function MeaningTurn<T>(m: Meaning<T>, step: Step, sampled: map<string, T>, exec: Executor<T>): Meaning<T> {
    var v := StepValue(step, sampled, exec, m.tables);
    if v.Err? then m.(error := Some(v.error)) else Meaning(m.tables[step.name := v.value], Some(v.value), None)
  }

  function MeaningOf<T>(steps: seq<Step>, sampled: map<string, T>, exec: Executor<T>, k: nat): Meaning<T>
    requires k <= |steps|
  {
    if k == 0 then Meaning(map[], None, None)
    else
      var prev := MeaningOf(steps, sampled, exec, k - 1);
      if prev.error.Some? then prev else MeaningTurn(prev, steps[k - 1], sampled, exec)
  }

  function PipelineValue<T>(steps: seq<Step>, sampled: map<string, T>, exec: Executor<T>): Result<T> {
    var m := MeaningOf(steps, sampled, exec, |steps|);
    if m.error.Some? then Err(m.error.value) else if m.last.None? then Err(NoOutput) else Ok(m.last.value)
  }

  // ----- the sandbox loop

  datatype State<+T> =
    State(registry: map<string, T>, counts: map<string, int>, last: Option<T>, error: Option<SandboxError>)

  /** Releasing a step's dependencies is the runner's eviction pass with no table
      exempt: no dependency is the empty name. */
  function Release<T>(s: State<T>, step: Step): State<T> {
    var (registry, counts) := Runner.Evict(s.registry, s.counts, "", StepInputs(step));
    s.(registry := registry, counts := counts)
  }

  /** A turn before its dependencies are released. */
  function Stored<T>(s: State<T>, step: Step, sampled: map<string, T>, exec: Executor<T>): State<T> {
    if step.kind.Save? then
      s.(last := if step.kind.input in s.registry then Some(s.registry[step.kind.input]) else s.last)
    else
      var v := StepValue(step, sampled, exec, s.registry);
      if v.Err? then s.(error := Some(v.error))
      else s.(registry := s.registry[step.name := v.value], last := Some(v.value))
  }

  function Turn<T>(s: State<T>, step: Step, sampled: map<string, T>, exec: Executor<T>): State<T> {
    var mid := Stored(s, step, sampled, exec);
    if mid.error.Some? then mid else Release(mid, step)
  }

  function Turns<T>(steps: seq<Step>, sampled: map<string, T>, exec: Executor<T>, k: nat): State<T>
    requires k <= |steps|
  {
    if k == 0 then State(map[], Runner.Counts(steps), None, None)
    else
      var prev := Turns(steps, sampled, exec, k - 1);
      if prev.error.Some? then prev else Turn(prev, steps[k - 1], sampled, exec)
  }

  function Outcome<T>(s: State<T>): Result<T> {
    if s.error.Some? then Err(s.error.value) else if s.last.None? then Err(NoOutput) else Ok(s.last.value)
  }

  // ----- conditions a caller can read off the step list

  ghost predicate NamesSave(steps: seq<Step>, ref: string) {
    exists i :: 0 <= i < |steps| && steps[i].name == ref && steps[i].kind.Save?
  }

  ghost predicate NamesFilled(steps: seq<Step>) {
    forall k :: 0 <= k < |steps| ==> steps[k].name != ""
  }

  ghost predicate EveryFileSampled<T>(steps: seq<Step>, sampled: map<string, T>) {
    forall k :: 0 <= k < |steps| && steps[k].kind.Load? ==> steps[k].kind.fileId in sampled
  }

  /** A step the sandbox can feed: no stream source, and unless it is a save step
      itself, no read of a save step. */
  ghost predicate Feedable(steps: seq<Step>, step: Step) {
    && !step.kind.StreamConsume?
    && (!step.kind.Save? ==> forall ref :: ref in StepInputs(step) ==> !NamesSave(steps, ref))
  }

  ghost predicate AllFeedable(steps: seq<Step>) {
    forall k :: 0 <= k < |steps| ==> Feedable(steps, steps[k])
  }

  ghost predicate NoReadOfSave(steps: seq<Step>) {
    forall k, ref :: 0 <= k < |steps| && ref in StepInputs(steps[k]) ==> !NamesSave(steps, ref)
  }

  // ----- proofs

  lemma {:induction false} TurnsStart<T>(steps: seq<Step>, sampled: map<string, T>, exec: Executor<T>)
    ensures Turns(steps, sampled, exec, 0) == State(map[], Runner.Counts(steps), None, None)
  {
  }

  lemma TurnsNext<T>(steps: seq<Step>, sampled: map<string, T>, exec: Executor<T>, k: nat)
    requires k < |steps|
    ensures var prev := Turns(steps, sampled, exec, k);
      Turns(steps, sampled, exec, k + 1) == if prev.error.Some? then prev else Turn(prev, steps[k], sampled, exec)
  {
    hide Turn;
  }

  lemma TurnsStep<T>(steps: seq<Step>, sampled: map<string, T>, exec: Executor<T>, k: nat)
    requires 0 < k <= |steps|
    requires Turns(steps, sampled, exec, k).error.None?
    ensures var prev := Turns(steps, sampled, exec, k - 1);
      && prev.error.None?
      && Stored(prev, steps[k - 1], sampled, exec).error.None?
      && Turns(steps, sampled, exec, k) == Release(Stored(prev, steps[k - 1], sampled, exec), steps[k - 1])
  {
    hide Stored;
  }

  lemma ReleaseEffect<T>(s: State<T>, step: Step)
    ensures var r := Release(s, step);
      && r.last == s.last && r.error == s.error
      && r.counts.Keys == s.counts.Keys
      && (forall ref :: ref in s.counts ==> r.counts[ref] == s.counts[ref] - Occurrences(StepInputs(step), ref))
      && (forall ref :: ref in r.registry ==> ref in s.registry && r.registry[ref] == s.registry[ref])
      && (forall ref :: ref in s.registry && ref in s.counts && r.counts[ref] > 0 ==> ref in r.registry)
  {
    Runner.EvictEffect(s.registry, s.counts, "", StepInputs(step));
  }

  lemma StoredEffect<T>(s: State<T>, step: Step, sampled: map<string, T>, exec: Executor<T>)
    requires s.error.None? && Stored(s, step, sampled, exec).error.None?
    ensures var mid := Stored(s, step, sampled, exec);
      && mid.counts == s.counts
      && (forall ref :: ref in s.registry ==> ref in mid.registry)
      && (!step.kind.Save? ==> step.name in mid.registry)
      && (forall ref :: ref in mid.registry ==> ref in s.registry || (ref == step.name && !step.kind.Save?))
  {
  }

  lemma {:induction false} ReadsHead(steps: seq<Step>, k: nat, ref: string)
    requires k < |steps|
    ensures Reads(steps[k..], ref) == Occurrences(StepInputs(steps[k]), ref) + Reads(steps[k + 1..], ref)
  {
    assert steps[k..][0] == steps[k] && steps[k..][1..] == steps[k + 1..];
  }

  ghost predicate CountsLeft(counts: map<string, int>, steps: seq<Step>, k: nat)
    requires k <= |steps|
  {
    && (forall ref :: ref in counts <==> Reads(steps, ref) > 0)
    && (forall ref :: ref in counts ==> counts[ref] == Reads(steps[k..], ref))
  }

  lemma CountsLowered(counts: map<string, int>, after: map<string, int>, steps: seq<Step>, k: nat)
    requires k < |steps| && CountsLeft(counts, steps, k)
    requires after.Keys == counts.Keys
    requires forall ref :: ref in counts ==> after[ref] == counts[ref] - Occurrences(StepInputs(steps[k]), ref)
    ensures CountsLeft(after, steps, k + 1)
  {
    forall ref | ref in after
      ensures after[ref] == Reads(steps[k + 1..], ref)
    {
      ReadsHead(steps, k, ref);
    }
  }

  lemma {:induction false} CountsStart(steps: seq<Step>)
    ensures CountsLeft(Runner.Counts(steps), steps, 0)
  {
    assert steps[0..] == steps;
  }

  /** At every turn the counts are the reads the rest of the pipeline still makes. */
  lemma {:induction false} CountsAreReadsLeft<T>(steps: seq<Step>, sampled: map<string, T>, exec: Executor<T>, k: nat)
    requires k <= |steps|
    requires Turns(steps, sampled, exec, k).error.None?
    ensures CountsLeft(Turns(steps, sampled, exec, k).counts, steps, k)
  {
    hide Turns, Turn, Stored, Release, StepValue, Runner.Evict, CountsLeft;
    if k == 0 {
      TurnsStart(steps, sampled, exec);
      CountsStart(steps);
    } else {
      TurnsStep(steps, sampled, exec, k);
      CountsAreReadsLeft(steps, sampled, exec, k - 1);
      var prev, step := Turns(steps, sampled, exec, k - 1), steps[k - 1];
      var mid := Stored(prev, step, sampled, exec);
      StoredEffect(prev, step, sampled, exec);
      ReleaseEffect(mid, step);
      CountsLowered(prev.counts, Turns(steps, sampled, exec, k).counts, steps, k - 1);
    }
  }

  /** The registry after `k` turns holds the output of every earlier step that is
      not a save step and is still read. */
  ghost predicate Holds<T>(steps: seq<Step>, registry: map<string, T>, k: nat)
    requires k <= |steps|
  {
    forall i :: 0 <= i < k && !steps[i].kind.Save? && Reads(steps[k..], steps[i].name) > 0 ==> steps[i].name in registry
  }

  lemma HoldsAdvances<T>(steps: seq<Step>, k: nat, before: map<string, T>, mid: State<T>)
    requires k < |steps| && Holds(steps, before, k)
    requires forall ref :: ref in before ==> ref in mid.registry
    requires !steps[k].kind.Save? ==> steps[k].name in mid.registry
    requires CountsLeft(Release(mid, steps[k]).counts, steps, k + 1)
    ensures Holds(steps, Release(mid, steps[k]).registry, k + 1)
  {
    ReleaseEffect(mid, steps[k]);
    forall i | 0 <= i < k + 1 && !steps[i].kind.Save? && Reads(steps[k + 1..], steps[i].name) > 0
      ensures steps[i].name in Release(mid, steps[k]).registry
    {
      ReadsHead(steps, k, steps[i].name);
      ReadsOfPrefix(steps, k + 1, steps[i].name);
    }
  }

  lemma {:induction false} RegistryHolds<T>(steps: seq<Step>, sampled: map<string, T>, exec: Executor<T>, k: nat)
    requires k <= |steps|
    requires Turns(steps, sampled, exec, k).error.None?
    ensures Holds(steps, Turns(steps, sampled, exec, k).registry, k)
  {
    hide Turn, Stored, Release, StepValue, Runner.Evict;
    if k > 0 {
      TurnsStep(steps, sampled, exec, k);
      RegistryHolds(steps, sampled, exec, k - 1);
      CountsAreReadsLeft(steps, sampled, exec, k);
      var prev, step := Turns(steps, sampled, exec, k - 1), steps[k - 1];
      StoredEffect(prev, step, sampled, exec);
      HoldsAdvances(steps, k - 1, prev.registry, Stored(prev, step, sampled, exec));
    }
  }

  lemma InputHeld<T>(steps: seq<Step>, registry: map<string, T>, k: nat, ref: string)
    requires k < |steps| && ReadsEarlier(steps)
    requires ref in StepInputs(steps[k]) && !NamesSave(steps, ref)
    requires Holds(steps, registry, k)
    ensures ref in registry
  {
    assert NamesStepBefore(steps, k, ref);
    var i :| 0 <= i < k && steps[i].name == ref;
    OccurrencesPositive(StepInputs(steps[k]), ref);
    assert Reads(steps[k..], ref) > 0;
  }

  lemma ReferenceIsInput(step: Step, j: nat)
    requires Parser.WellFormedStep(step) && j < |References(step)|
    ensures References(step)[j].1 in StepInputs(step)
  {
    Parser.InputsAreReferences(step, References(step)[j].1);
    assert !Parser.Blank(References(step)[j].1);
  }

  /** In an accepted pipeline of feedable steps with every file sampled, no step is
      refused for an unavailable input, whatever the executor does. */
  lemma {:induction false} NeverUnavailable<T>(steps: seq<Step>, sampled: map<string, T>, exec: Executor<T>, k: nat)
    requires k <= |steps|
    requires Parser.WellFormed(steps) && EveryFileSampled(steps, sampled) && AllFeedable(steps)
    requires forall s, ts :: exec(s, ts).Err? ==> exec(s, ts).error.StepFailed?
    ensures Turns(steps, sampled, exec, k).error.Some? ==> Turns(steps, sampled, exec, k).error.value.StepFailed?
  {
    hide Turns, Turn, Parser.WellFormed, EveryFileSampled, AllFeedable, Holds;
    if k == 0 {
      TurnsStart(steps, sampled, exec);
    } else {
      NeverUnavailable(steps, sampled, exec, k - 1);
      TurnsNext(steps, sampled, exec, k - 1);
      var prev := Turns(steps, sampled, exec, k - 1);
      if prev.error.None? {
        RegistryHolds(steps, sampled, exec, k - 1);
        TurnNotUnavailable(steps, sampled, exec, prev, k - 1);
      }
    }
  }

  lemma TurnNotUnavailable<T>(steps: seq<Step>, sampled: map<string, T>, exec: Executor<T>, prev: State<T>, k: nat)
    requires k < |steps| && prev.error.None? && Holds(steps, prev.registry, k)
    requires Parser.WellFormed(steps) && EveryFileSampled(steps, sampled) && AllFeedable(steps)
    requires forall s, ts :: exec(s, ts).Err? ==> exec(s, ts).error.StepFailed?
    ensures var next := Turn(prev, steps[k], sampled, exec); next.error.Some? ==> next.error.value.StepFailed?
  {
    hide Release, StepValue, Require, StepInputs, References, Holds;
    var step := steps[k];
    ReleaseEffect(Stored(prev, step, sampled, exec), step);
    if !step.kind.Save? {
      forall j | 0 <= j < |References(step)|
        ensures References(step)[j].1 in prev.registry
      {
        ReferenceIsInput(step, j);
        InputHeld(steps, prev.registry, k, References(step)[j].1);
      }
      StepNotUnavailable(step, sampled, exec, prev.registry);
    }
  }

  lemma StepNotUnavailable<T>(step: Step, sampled: map<string, T>, exec: Executor<T>, tables: map<string, T>)
    requires Parser.WellFormedStep(step) && !step.kind.StreamConsume?
    requires step.kind.Load? ==> step.kind.fileId in sampled
    requires forall j :: 0 <= j < |References(step)| ==> References(step)[j].1 in tables
    requires forall s, ts :: exec(s, ts).Err? ==> exec(s, ts).error.StepFailed?
    ensures var v := StepValue(step, sampled, exec, tables); v.Err? ==> v.error.StepFailed?
  {
    var refs := References(step);
    match step.kind
    case Join(left, right) => assert refs[0].1 == left && refs[1].1 == right;
    case Save(input) => assert refs[0].1 == input;
    case Validate(input) => assert refs[0].1 == input;
    case Rename(input) => assert refs[0].1 == input;
    case Transform(input) => assert refs[0].1 == input;
    case _ =>
  }

  // ----- and it fails when the condition does not hold

  ghost predicate NamesStoredBefore(steps: seq<Step>, k: nat, ref: string) {
    exists i :: 0 <= i < k && i < |steps| && steps[i].name == ref && !steps[i].kind.Save?
  }

  ghost predicate NoSaves<T>(steps: seq<Step>, registry: map<string, T>, k: nat) {
    forall ref :: ref in registry ==> NamesStoredBefore(steps, k, ref)
  }

  lemma NoSavesAdvances<T>(steps: seq<Step>, k: nat, before: map<string, T>, mid: State<T>)
    requires k < |steps| && NoSaves(steps, before, k)
    requires forall ref :: ref in mid.registry ==> ref in before || (ref == steps[k].name && !steps[k].kind.Save?)
    ensures NoSaves(steps, Release(mid, steps[k]).registry, k + 1)
  {
    ReleaseEffect(mid, steps[k]);
    forall ref | ref in mid.registry
      ensures NamesStoredBefore(steps, k + 1, ref)
    {
      if ref in before {
        assert NamesStoredBefore(steps, k, ref);
      }
    }
  }

  lemma {:induction false} RegistryHasNoSaves<T>(steps: seq<Step>, sampled: map<string, T>, exec: Executor<T>, k: nat)
    requires k <= |steps|
    requires Turns(steps, sampled, exec, k).error.None?
    ensures NoSaves(steps, Turns(steps, sampled, exec, k).registry, k)
  {
    hide Turn, Stored, Release, StepValue, Runner.Evict;
    if k > 0 {
      TurnsStep(steps, sampled, exec, k);
      RegistryHasNoSaves(steps, sampled, exec, k - 1);
      var prev, step := Turns(steps, sampled, exec, k - 1), steps[k - 1];
      StoredEffect(prev, step, sampled, exec);
      NoSavesAdvances(steps, k - 1, prev.registry, Stored(prev, step, sampled, exec));
    }
  }

  lemma {:induction false} ErrorStays<T>(steps: seq<Step>, sampled: map<string, T>, exec: Executor<T>, k: nat, n: nat)
    requires k <= n <= |steps|
    ensures Turns(steps, sampled, exec, k).error.Some? ==>
      Turns(steps, sampled, exec, n) == Turns(steps, sampled, exec, k)
    decreases n - k
  {
    hide Turn;
    if k < n {
      ErrorStays(steps, sampled, exec, k, n - 1);
    }
  }

  lemma MissingReferenceFails<T>(
    step: Step, sampled: map<string, T>, exec: Executor<T>, tables: map<string, T>, ref: string)
    requires ref in StepInputs(step) && ref !in tables
    ensures StepValue(step, sampled, exec, tables).Err?
  {
    Parser.InputsAreReferences(step, ref);
  }

  lemma NoInputFails<T>(step: Step, sampled: map<string, T>, exec: Executor<T>, tables: map<string, T>)
    requires step.kind.StreamConsume? && "" !in tables
    ensures StepValue(step, sampled, exec, tables).Err?
  {
    assert [("input", "")][0].1 !in tables;
  }

  lemma UnfeedableStepFails<T>(
    steps: seq<Step>, sampled: map<string, T>, exec: Executor<T>, registry: map<string, T>, k: nat)
    requires k < |steps| && UniqueNames(steps) && NamesFilled(steps) && !Feedable(steps, steps[k])
    requires NoSaves(steps, registry, k)
    ensures !steps[k].kind.Save? && StepValue(steps[k], sampled, exec, registry).Err?
  {
    hide StepValue, StepInputs;
    if steps[k].kind.StreamConsume? {
      assert !NamesStoredBefore(steps, k, "");
      NoInputFails(steps[k], sampled, exec, registry);
    } else {
      var ref :| ref in StepInputs(steps[k]) && NamesSave(steps, ref);
      assert !NamesStoredBefore(steps, k, ref);
      MissingReferenceFails(steps[k], sampled, exec, registry, ref);
    }
  }

  /** One unfeedable step makes the whole sandbox run fail, for every executor. */
  lemma {:induction false} UnfeedableFails<T>(steps: seq<Step>, sampled: map<string, T>, exec: Executor<T>)
    requires UniqueNames(steps) && NamesFilled(steps) && !AllFeedable(steps)
    ensures Turns(steps, sampled, exec, |steps|).error.Some?
  {
    hide StepValue, Release;
    var k :| 0 <= k < |steps| && !Feedable(steps, steps[k]);
    if Turns(steps, sampled, exec, k).error.None? {
      RegistryHasNoSaves(steps, sampled, exec, k);
      UnfeedableStepFails(steps, sampled, exec, Turns(steps, sampled, exec, k).registry, k);
      ErrorStays(steps, sampled, exec, k + 1, |steps|);
    } else {
      ErrorStays(steps, sampled, exec, k, |steps|);
    }
  }

  lemma TurnSetsLast<T>(prev: State<T>, step: Step, sampled: map<string, T>, exec: Executor<T>)
    requires prev.error.None? && Turn(prev, step, sampled, exec).error.None?
    requires prev.last.Some? || !step.kind.Save?
    ensures Turn(prev, step, sampled, exec).last.Some?
  {
    hide Runner.Evict, StepValue;
  }

  lemma FirstIsNoSave(steps: seq<Step>)
    requires Parser.WellFormed(steps) && steps != []
    ensures !steps[0].kind.Save?
  {
    assert Parser.WellFormedStep(steps[0]);
    assert forall ref :: !NamesStepBefore(steps, 0, ref);
    if steps[0].kind.Save? {
      ReferenceIsInput(steps[0], 0);
    }
  }

  /** An accepted pipeline that got anywhere has something to show. */
  lemma {:induction false} LastIsSet<T>(steps: seq<Step>, sampled: map<string, T>, exec: Executor<T>, k: nat)
    requires 0 < k <= |steps| && Parser.WellFormed(steps) && Turns(steps, sampled, exec, k).error.None?
    ensures Turns(steps, sampled, exec, k).last.Some?
  {
    hide Turns, Turn, Parser.WellFormed;
    TurnsStart(steps, sampled, exec);
    TurnsNext(steps, sampled, exec, k - 1);
    var prev := Turns(steps, sampled, exec, k - 1);
    if prev.error.None? {
      if k > 1 {
        LastIsSet(steps, sampled, exec, k - 1);
      } else {
        FirstIsNoSave(steps);
      }
      TurnSetsLast(prev, steps[k - 1], sampled, exec);
    }
  }

  /** For accepted pipelines with every file sampled, feedability is exactly what
      separates the runs that only an executor can fail from those that always fail. */
  lemma {:induction false} FeedableExactly<T>(steps: seq<Step>, sampled: map<string, T>, table: T)
    requires Parser.WellFormed(steps) && EveryFileSampled(steps, sampled)
    ensures AllFeedable(steps) <==> Turns(steps, sampled, (s, ts) => Ok(table), |steps|).error.None?
    ensures steps != [] ==> (AllFeedable(steps) <==> Outcome(Turns(steps, sampled, (s, ts) => Ok(table), |steps|)).Ok?)
    ensures steps == [] ==> Outcome(Turns(steps, sampled, (s, ts) => Ok(table), 0)) == Err(NoOutput)
  {
    hide Turns, EveryFileSampled, AllFeedable;
    var exec: Executor<T> := (s, ts) => Ok(table);
    TurnsStart(steps, sampled, exec);
    if steps != [] && Turns(steps, sampled, exec, |steps|).error.None? {
      LastIsSet(steps, sampled, exec, |steps|);
    }
    if AllFeedable(steps) {
      NeverUnavailable(steps, sampled, exec, |steps|);
      NoStepFailure(steps, sampled, table, |steps|);
    } else {
      FilledNames(steps);
      UnfeedableFails(steps, sampled, exec);
    }
  }

  lemma {:induction false} NoStepFailure<T>(steps: seq<Step>, sampled: map<string, T>, table: T, k: nat)
    requires k <= |steps|
    ensures var s := Turns(steps, sampled, (s, ts) => Ok(table), k); s.error.Some? ==> !s.error.value.StepFailed?
  {
    hide Turns, Turn;
    var exec: Executor<T> := (s, ts) => Ok(table);
    if k == 0 {
      TurnsStart(steps, sampled, exec);
    } else {
      NoStepFailure(steps, sampled, table, k - 1);
      TurnsNext(steps, sampled, exec, k - 1);
      var prev := Turns(steps, sampled, exec, k - 1);
      if prev.error.None? {
        TurnNoFailure(prev, steps[k - 1], sampled, table);
      }
    }
  }

  lemma TurnNoFailure<T>(prev: State<T>, step: Step, sampled: map<string, T>, table: T)
    requires prev.error.None?
    ensures var next := Turn(prev, step, sampled, (s, ts) => Ok(table)); next.error.Some? ==>
      !next.error.value.StepFailed?
  {
    hide Runner.Evict;
  }

  // ----- the value the sandbox reports

  ghost predicate Agrees<T>(s: State<T>, m: Meaning<T>, steps: seq<Step>, k: nat) {
    && s.error == m.error && s.last == m.last
    && (s.error.None? ==>
          && Below(s.registry, m.tables)
          && (forall ref :: ref in m.tables ==> NamesStepBefore(steps, k, ref)))
  }

  lemma {:induction false} SameFetch<T>(refs: seq<(string, string)>, a: map<string, T>, b: map<string, T>)
    requires forall j :: 0 <= j < |refs| ==> refs[j].1 in a && refs[j].1 in b && a[refs[j].1] == b[refs[j].1]
    ensures Require(refs, a) == Require(refs, b)
  {
  }

  lemma SameValue<T>(step: Step, sampled: map<string, T>, exec: Executor<T>, a: map<string, T>, b: map<string, T>)
    requires Below(a, b)
    requires forall j :: 0 <= j < |References(step)| ==> References(step)[j].1 in a
    requires "" !in b
    ensures StepValue(step, sampled, exec, a) == StepValue(step, sampled, exec, b)
  {
    if References(step) != [] {
      SameFetch(References(step), a, b);
    }
  }

  /** When no step reads a save step, the sandbox computes the value of the pipeline
      with every table kept and with save and validate as identities; it fails
      exactly when that value fails, with the same error. */
  lemma {:induction false} SandboxIsValue<T>(steps: seq<Step>, sampled: map<string, T>, exec: Executor<T>, k: nat)
    requires k <= |steps|
    requires Parser.WellFormed(steps) && NoReadOfSave(steps)
    ensures Agrees(Turns(steps, sampled, exec, k), MeaningOf(steps, sampled, exec, k), steps, k)
  {
    hide Turn, MeaningTurn, StepValue, Stored, Release;
    if k > 0 {
      SandboxIsValue(steps, sampled, exec, k - 1);
      var prev, step := Turns(steps, sampled, exec, k - 1), steps[k - 1];
      if prev.error.None? {
        RegistryHolds(steps, sampled, exec, k - 1);
        RegistryHasNoSaves(steps, sampled, exec, k - 1);
        forall j | 0 <= j < |References(step)|
          ensures References(step)[j].1 in prev.registry
        {
          ReferenceIsInput(step, j);
          InputHeld(steps, prev.registry, k - 1, References(step)[j].1);
        }
        FilledNames(steps);
        MeaningStep(MeaningOf(steps, sampled, exec, k - 1), prev, steps, sampled, exec, k - 1);
      }
    }
  }

  lemma FilledNames(steps: seq<Step>)
    requires Parser.WellFormed(steps)
    ensures NamesFilled(steps)
  {
    forall k | 0 <= k < |steps|
      ensures steps[k].name != ""
    {
      assert Parser.WellFormedStep(steps[k]);
      Parser.IdentifierFacts(steps[k].name);
    }
  }

  ghost predicate Below<T>(registry: map<string, T>, tables: map<string, T>) {
    forall ref :: ref in registry ==> ref in tables && registry[ref] == tables[ref]
  }

  /** A turn of the sandbox and a turn of the meaning, when the step has one value. */
  lemma StoredBelow<T>(m: Meaning<T>, s: State<T>, step: Step, sampled: map<string, T>, exec: Executor<T>)
    requires s.error.None? && m.error.None? && s.last == m.last && Below(s.registry, m.tables)
    requires StepValue(step, sampled, exec, s.registry) == StepValue(step, sampled, exec, m.tables)
    requires step.kind.Save? ==> step.kind.input in s.registry
    requires step.kind.Save? ==> StepValue(step, sampled, exec, s.registry) == Ok(s.registry[step.kind.input])
    requires step.name !in s.registry
    ensures var mid, m' := Stored(s, step, sampled, exec), MeaningTurn(m, step, sampled, exec);
      mid.error == m'.error && mid.last == m'.last && (mid.error.None? ==> Below(mid.registry, m'.tables))
  {
    hide StepValue;
  }

  lemma MeaningStep<T>(m: Meaning<T>, s: State<T>, steps: seq<Step>, sampled: map<string, T>, exec: Executor<T>, k: nat)
    requires k < |steps| && UniqueNames(steps) && NamesFilled(steps)
    requires s.error.None? && Agrees(s, m, steps, k) && NoSaves(steps, s.registry, k)
    requires forall j :: 0 <= j < |References(steps[k])| ==> References(steps[k])[j].1 in s.registry
    ensures Agrees(Turn(s, steps[k], sampled, exec), MeaningTurn(m, steps[k], sampled, exec), steps, k + 1)
  {
    hide StepValue, Release, Stored;
    var step := steps[k];
    assert "" !in m.tables by {
      assert !NamesStepBefore(steps, k, "");
    }
    SameValue(step, sampled, exec, s.registry, m.tables);
    SaveIsIdentity(step, sampled, exec, s);
    assert !NamesStoredBefore(steps, k, step.name);
    StoredBelow(m, s, step, sampled, exec);
    var mid := Stored(s, step, sampled, exec);
    ReleaseEffect(mid, step);
    NamesGrow(m.tables, MeaningTurn(m, step, sampled, exec).tables, steps, k);
  }

  lemma NamesGrow<T>(tables: map<string, T>, after: map<string, T>, steps: seq<Step>, k: nat)
    requires k < |steps| && forall ref :: ref in tables ==> NamesStepBefore(steps, k, ref)
    requires forall ref :: ref in after ==> ref in tables || ref == steps[k].name
    ensures forall ref :: ref in after ==> NamesStepBefore(steps, k + 1, ref)
  {
    forall ref | ref in after
      ensures NamesStepBefore(steps, k + 1, ref)
    {
      assert ref in tables ==> NamesStepBefore(steps, k, ref);
    }
  }

  lemma SaveIsIdentity<T>(step: Step, sampled: map<string, T>, exec: Executor<T>, s: State<T>)
    requires forall j :: 0 <= j < |References(step)| ==> References(step)[j].1 in s.registry
    ensures step.kind.Save? ==>
      step.kind.input in s.registry && StepValue(step, sampled, exec, s.registry) == Ok(s.registry[step.kind.input])
  {
    if step.kind.Save? {
      assert References(step)[0].1 == step.kind.input;
    }
  }

  // ----- what every accepted pipeline yields, kind by kind

  /** A table passed on, or the complaint that there is none. */
  function Passed<T>(step: Step, input: string, table: Option<T>): Result<T> {
    if table.Some? then Ok(table.value) else Err(Unavailable(step.name, input))
  }

  /** What a step yields when `find` tells the tables under the names it reads. */
  function Answer<T>(step: Step, sampled: map<string, T>, exec: Executor<T>, find: string -> Option<T>): Result<T> {
    match step.kind
    case Load(file) => if file in sampled then Ok(sampled[file]) else Err(NoSample(step.name, file))
    case Save(input) => Passed(step, input, find(input))
    case Validate(input) => Passed(step, input, find(input))
    case Rename(input) => Applied(step, exec, input, find)
    case Transform(input) => Applied(step, exec, input, find)
    case Join(left, right) =>
      if find(left).None? then Err(Unavailable(step.name, left))
      else if find(right).None? then Err(Unavailable(step.name, right))
      else exec(step, [find(left).value, find(right).value])
    case StreamConsume => Applied(step, exec, "", find)
    case Untyped(_) => Applied(step, exec, "", find)
  }

  function Applied<T>(step: Step, exec: Executor<T>, input: string, find: string -> Option<T>): Result<T> {
    if find(input).None? then Err(Unavailable(step.name, input)) else exec(step, [find(input).value])
  }

  /** The table that a step before `i` called `ref` stored. */
  function StoredBefore<T>(steps: seq<Step>, stored: seq<Option<T>>, i: nat, ref: string): (found: Option<T>)
    requires i <= |steps| && i <= |stored|
    ensures found.Some? <==> exists j :: 0 <= j < i && steps[j].name == ref && stored[j].Some?
  {
    if i == 0 then None
    else if steps[i - 1].name == ref && stored[i - 1].Some? then stored[i - 1]
    else StoredBefore(steps, stored, i - 1, ref)
  }

  /** What step `i` yields on the tables that the steps it names stored. */
  ghost function AnswerAt<T>(
    steps: seq<Step>, sampled: map<string, T>, exec: Executor<T>, stored: seq<Option<T>>, i: nat): Result<T>
    requires i < |steps| && i <= |stored|
  {
    Answer(steps[i], sampled, exec, ref => StoredBefore(steps, stored, i, ref))
  }

  /** What `i` steps leave to show: the last table stored, or the one a later save names. */
  function Shown<T>(steps: seq<Step>, stored: seq<Option<T>>, i: nat): Option<T>
    requires i <= |steps| && i <= |stored|
  {
    if i == 0 then None
    else if !steps[i - 1].kind.Save? then stored[i - 1]
    else
      var saved := StoredBefore(steps, stored, i - 1, steps[i - 1].kind.input);
      if saved.Some? then saved else Shown(steps, stored, i - 1)
  }

  /** A save stores nothing, every other step what it yields. */
  ghost predicate StoresAnswers<T>(
    steps: seq<Step>, sampled: map<string, T>, exec: Executor<T>, stored: seq<Option<T>>)
  {
    && |stored| <= |steps|
    && forall i :: 0 <= i < |stored| ==>
         if steps[i].kind.Save? then stored[i] == None
         else stored[i].Some? && AnswerAt(steps, sampled, exec, stored, i) == Ok(stored[i].value)
  }

  /** `r` is the answer of a pipeline whose steps store `stored`: what the last of them
      leaves to show, or the error of the first step that yields one. */
  ghost predicate Answers<T>(
    steps: seq<Step>, sampled: map<string, T>, exec: Executor<T>, stored: seq<Option<T>>, r: Result<T>)
  {
    && StoresAnswers(steps, sampled, exec, stored)
    && if |stored| == |steps| then
         r == if Shown(steps, stored, |steps|).Some? then Ok(Shown(steps, stored, |steps|).value) else Err(NoOutput)
       else !steps[|stored|].kind.Save? && r.Err? && AnswerAt(steps, sampled, exec, stored, |stored|) == r
  }

  lemma AnswerAgrees<T>(
    step: Step, sampled: map<string, T>, exec: Executor<T>, a: string -> Option<T>, b: string -> Option<T>)
    requires forall ref :: ref == "" || ref in StepInputs(step) ==> a(ref) == b(ref)
    ensures Answer(step, sampled, exec, a) == Answer(step, sampled, exec, b)
  {
  }

  /** On any tables the code's value of a step is its answer. */
  lemma ValueIsAnswer<T>(step: Step, sampled: map<string, T>, exec: Executor<T>, tables: map<string, T>)
    ensures StepValue(step, sampled, exec, tables)
         == Answer(step, sampled, exec, ref => if ref in tables then Some(tables[ref]) else None)
  {
    match step.kind
    case Load(_) =>
    case Join(left, right) => RequireTwo(("left", left), ("right", right), tables);
    case Save(input) => RequireOne(("input", input), tables);
    case Validate(input) => RequireOne(("input", input), tables);
    case Rename(input) => RequireOne(("input", input), tables);
    case Transform(input) => RequireOne(("input", input), tables);
    case StreamConsume => RequireOne(("input", ""), tables);
    case Untyped(_) => RequireOne(("input", ""), tables);
  }

  lemma {:induction false} RequireOne<T>(ref: (string, string), tables: map<string, T>)
    ensures Require([ref], tables) == if ref.1 in tables then Found([tables[ref.1]]) else Missing(ref.1)
  {
    assert [ref][0] == ref && [ref][1..] == [];
  }

  lemma {:induction false} RequireTwo<T>(a: (string, string), b: (string, string), tables: map<string, T>)
    ensures Require([a, b], tables) ==
      if a.1 !in tables then Missing(a.1)
      else if b.1 !in tables then Missing(b.1)
      else Found([tables[a.1], tables[b.1]])
  {
    assert [a, b][0] == a && [a, b][1..] == [b];
    RequireOne(b, tables);
  }

  lemma {:induction false} StoredOfPrefix<T>(
    steps: seq<Step>, early: seq<Option<T>>, all: seq<Option<T>>, i: nat, ref: string)
    requires i <= |steps| && i <= |early| && early <= all
    ensures StoredBefore(steps, early, i, ref) == StoredBefore(steps, all, i, ref)
  {
    if i > 0 {
      StoredOfPrefix(steps, early, all, i - 1, ref);
      assert early[i - 1] == all[i - 1];
    }
  }

  lemma AnswerOfPrefix<T>(
    steps: seq<Step>, sampled: map<string, T>, exec: Executor<T>, early: seq<Option<T>>, all: seq<Option<T>>, i: nat)
    requires i < |steps| && i <= |early| && early <= all
    ensures AnswerAt(steps, sampled, exec, early, i) == AnswerAt(steps, sampled, exec, all, i)
  {
    hide StoredBefore, Answer;
    forall ref {
      StoredOfPrefix(steps, early, all, i, ref);
    }
    AnswerAgrees(steps[i], sampled, exec,
                 ref => StoredBefore(steps, early, i, ref), ref => StoredBefore(steps, all, i, ref));
  }

  lemma {:induction false} ShownOfPrefix<T>(steps: seq<Step>, early: seq<Option<T>>, all: seq<Option<T>>, i: nat)
    requires i <= |steps| && i <= |early| && early <= all
    ensures Shown(steps, early, i) == Shown(steps, all, i)
  {
    hide StoredBefore;
    if i > 0 {
      ShownOfPrefix(steps, early, all, i - 1);
      assert early[i - 1] == all[i - 1];
      if steps[i - 1].kind.Save? {
        StoredOfPrefix(steps, early, all, i - 1, steps[i - 1].kind.input);
      }
    }
  }

  lemma StoresNext<T>(
    steps: seq<Step>, sampled: map<string, T>, exec: Executor<T>, stored: seq<Option<T>>, added: Option<T>)
    requires StoresAnswers(steps, sampled, exec, stored) && |stored| < |steps|
    requires if steps[|stored|].kind.Save? then added == None
             else added.Some? && AnswerAt(steps, sampled, exec, stored, |stored|) == Ok(added.value)
    ensures StoresAnswers(steps, sampled, exec, stored + [added])
  {
    hide AnswerAt;
    var all := stored + [added];
    forall i | 0 <= i < |all|
      ensures if steps[i].kind.Save? then all[i] == None
              else all[i].Some? && AnswerAt(steps, sampled, exec, all, i) == Ok(all[i].value)
    {
      AnswerOfPrefix(steps, sampled, exec, stored, all, i);
    }
  }

  /** The registry holds only tables that were stored under their names. */
  ghost predicate HoldsStored<T>(registry: map<string, T>, steps: seq<Step>, stored: seq<Option<T>>, k: nat) {
    && k == |stored| <= |steps|
    && forall ref :: ref in registry ==> StoredBefore(steps, stored, k, ref) == Some(registry[ref])
  }

  lemma {:induction false} FoundIsStored<T>(
    steps: seq<Step>, sampled: map<string, T>, exec: Executor<T>, stored: seq<Option<T>>, registry: map<string, T>,
    k: nat, ref: string)
    requires k < |steps| && NamesFilled(steps) && Holds(steps, registry, k)
    requires StoresAnswers(steps, sampled, exec, stored) && HoldsStored(registry, steps, stored, k)
    requires ref == "" || ref in StepInputs(steps[k])
    ensures StoredBefore(steps, stored, k, ref) == if ref in registry then Some(registry[ref]) else None
  {
    hide AnswerAt, StepInputs;
    if StoredBefore(steps, stored, k, ref).Some? {
      var i :| 0 <= i < k && steps[i].name == ref && stored[i].Some?;
      ReadsHead(steps, k, ref);
      OccurrencesPositive(StepInputs(steps[k]), ref);
      assert !steps[i].kind.Save?;
    }
  }

  lemma ValueIsAnswerAt<T>(
    steps: seq<Step>, sampled: map<string, T>, exec: Executor<T>, stored: seq<Option<T>>, registry: map<string, T>,
    k: nat)
    requires k < |steps| && NamesFilled(steps) && Holds(steps, registry, k)
    requires StoresAnswers(steps, sampled, exec, stored) && HoldsStored(registry, steps, stored, k)
    ensures StepValue(steps[k], sampled, exec, registry) == AnswerAt(steps, sampled, exec, stored, k)
  {
    hide StepValue, Answer, StoredBefore, StepInputs, Holds, StoresAnswers;
    forall ref | ref == "" || ref in StepInputs(steps[k]) {
      FoundIsStored(steps, sampled, exec, stored, registry, k, ref);
    }
    ValueIsAnswer(steps[k], sampled, exec, registry);
    AnswerAgrees(steps[k], sampled, exec, ref => if ref in registry then Some(registry[ref]) else None,
                 ref => StoredBefore(steps, stored, k, ref));
  }

  /** How a run that took `k` turns stands to the tables its steps stored. */
  ghost predicate Traced<T>(
    s: State<T>, steps: seq<Step>, sampled: map<string, T>, exec: Executor<T>, stored: seq<Option<T>>, k: nat)
    requires k <= |steps|
  {
    && StoresAnswers(steps, sampled, exec, stored)
    && if s.error.None? then HoldsStored(s.registry, steps, stored, k) && s.last == Shown(steps, stored, k)
       else
         && |stored| < k && !steps[|stored|].kind.Save?
         && AnswerAt(steps, sampled, exec, stored, |stored|) == Err(s.error.value)
  }

  lemma HoldsStoredNext<T>(
    before: map<string, T>, after: map<string, T>, steps: seq<Step>, stored: seq<Option<T>>, added: Option<T>, k: nat)
    requires k < |steps| && HoldsStored(before, steps, stored, k)
    requires forall ref :: ref in before ==> ref != steps[k].name
    requires forall ref :: ref in after ==>
      if ref in before then after[ref] == before[ref] else ref == steps[k].name && added == Some(after[ref])
    ensures HoldsStored(after, steps, stored + [added], k + 1)
  {
    forall ref | ref in after
      ensures StoredBefore(steps, stored + [added], k + 1, ref) == Some(after[ref])
    {
      StoredOfPrefix(steps, stored, stored + [added], k, ref);
    }
  }

  lemma TraceNext<T>(
    prev: State<T>, steps: seq<Step>, sampled: map<string, T>, exec: Executor<T>, stored: seq<Option<T>>, k: nat)
    returns (after: seq<Option<T>>)
    requires k < |steps| && UniqueNames(steps) && NamesFilled(steps) && prev.error.None?
    requires steps[k].kind.Save? ==> steps[k].kind.input in StepInputs(steps[k])
    requires Holds(steps, prev.registry, k) && NoSaves(steps, prev.registry, k)
    requires Traced(prev, steps, sampled, exec, stored, k)
    ensures Traced(Turn(prev, steps[k], sampled, exec), steps, sampled, exec, after, k + 1)
  {
    hide StepValue, Release, AnswerAt, StoresAnswers, StoredBefore, StepInputs, Holds;
    var step := steps[k];
    var mid := Stored(prev, step, sampled, exec);
    ReleaseEffect(mid, step);
    assert forall ref :: ref in prev.registry ==> NamesStoredBefore(steps, k, ref);
    if step.kind.Save? {
      FoundIsStored(steps, sampled, exec, stored, prev.registry, k, step.kind.input);
      StoresNext(steps, sampled, exec, stored, None);
      after := stored + [None];
      ShownNext(steps, stored, None);
      HoldsStoredNext(prev.registry, Release(mid, step).registry, steps, stored, None, k);
    } else {
      ValueIsAnswerAt(steps, sampled, exec, stored, prev.registry, k);
      var v := StepValue(step, sampled, exec, prev.registry);
      if v.Ok? {
        StoresNext(steps, sampled, exec, stored, Some(v.value));
        after := stored + [Some(v.value)];
        ShownNext(steps, stored, Some(v.value));
        HoldsStoredNext(prev.registry, Release(mid, step).registry, steps, stored, Some(v.value), k);
      } else {
        after := stored;
      }
    }
  }

  lemma {:induction false} ShownNext<T>(steps: seq<Step>, stored: seq<Option<T>>, added: Option<T>)
    requires |stored| < |steps|
    ensures Shown(steps, stored + [added], |stored| + 1) ==
      if !steps[|stored|].kind.Save? then added
      else
        var saved := StoredBefore(steps, stored, |stored|, steps[|stored|].kind.input);
        if saved.Some? then saved else Shown(steps, stored, |stored|)
  {
    hide StoredBefore;
    var k := |stored|;
    ShownOfPrefix(steps, stored, stored + [added], k);
    if steps[k].kind.Save? {
      StoredOfPrefix(steps, stored, stored + [added], k, steps[k].kind.input);
    }
  }

  lemma {:induction false} RunTraced<T>(steps: seq<Step>, sampled: map<string, T>, exec: Executor<T>, k: nat)
    returns (stored: seq<Option<T>>)
    requires k <= |steps| && Parser.WellFormed(steps)
    ensures Traced(Turns(steps, sampled, exec, k), steps, sampled, exec, stored, k)
  {
    hide Turn, Traced;
    if k == 0 {
      stored := [];
      TraceStarts(steps, sampled, exec);
    } else {
      stored := RunTraced(steps, sampled, exec, k - 1);
      var prev := Turns(steps, sampled, exec, k - 1);
      if prev.error.None? {
        RegistryHolds(steps, sampled, exec, k - 1);
        RegistryHasNoSaves(steps, sampled, exec, k - 1);
        FilledNames(steps);
        assert Parser.WellFormedStep(steps[k - 1]);
        if steps[k - 1].kind.Save? {
          ReferenceIsInput(steps[k - 1], 0);
        }
        stored := TraceNext(prev, steps, sampled, exec, stored, k - 1);
      } else {
        TraceStays(prev, steps, sampled, exec, stored, k - 1);
      }
    }
  }

  lemma {:induction false} TraceStarts<T>(steps: seq<Step>, sampled: map<string, T>, exec: Executor<T>)
    ensures Traced(Turns(steps, sampled, exec, 0), steps, sampled, exec, [], 0)
  {
    TurnsStart(steps, sampled, exec);
  }

  lemma TraceStays<T>(
    s: State<T>, steps: seq<Step>, sampled: map<string, T>, exec: Executor<T>, stored: seq<Option<T>>, k: nat)
    requires k < |steps| && s.error.Some? && Traced(s, steps, sampled, exec, stored, k)
    ensures Traced(s, steps, sampled, exec, stored, k + 1)
  {
  }

  /** Whatever the sandbox drops on the way, on every accepted pipeline it ends with
      what its steps yield, kind by kind, or with the error of the first that fails. */
  lemma RunAnswers<T>(steps: seq<Step>, sampled: map<string, T>, exec: Executor<T>) returns (stored: seq<Option<T>>)
    requires Parser.WellFormed(steps)
    ensures Answers(steps, sampled, exec, stored, Outcome(Turns(steps, sampled, exec, |steps|)))
  {
    hide Turns, AnswerAt, StoresAnswers, Shown;
    stored := RunTraced(steps, sampled, exec, |steps|);
  }

  lemma {:induction false} StoresAgree<T>(
    steps: seq<Step>, sampled: map<string, T>, exec: Executor<T>, a: seq<Option<T>>, b: seq<Option<T>>, i: nat)
    requires StoresAnswers(steps, sampled, exec, a) && StoresAnswers(steps, sampled, exec, b)
    requires i <= |a| && i <= |b|
    ensures a[..i] == b[..i]
  {
    hide AnswerAt;
    if i > 0 {
      StoresAgree(steps, sampled, exec, a, b, i - 1);
      AnswerOfPrefix(steps, sampled, exec, a[..i - 1], a, i - 1);
      AnswerOfPrefix(steps, sampled, exec, b[..i - 1], b, i - 1);
      assert a[i - 1] == b[i - 1];
      assert a[..i] == a[..i - 1] + [a[i - 1]] && b[..i] == b[..i - 1] + [b[i - 1]];
    }
  }

  lemma NoLongerAnswer<T>(
    steps: seq<Step>, sampled: map<string, T>, exec: Executor<T>,
    a: seq<Option<T>>, b: seq<Option<T>>, r: Result<T>, q: Result<T>)
    requires Answers(steps, sampled, exec, a, r) && Answers(steps, sampled, exec, b, q)
    ensures |a| >= |b|
  {
    hide AnswerAt, Shown;
    var n := |a|;
    if n < |b| {
      StoresAgree(steps, sampled, exec, a, b, n);
      assert a[..n] == a;
      AnswerOfPrefix(steps, sampled, exec, a, b, n);
      assert false;
    }
  }

  /** Step list, samples and executor determine the answer. */
  lemma AnswerIsUnique<T>(
    steps: seq<Step>, sampled: map<string, T>, exec: Executor<T>,
    a: seq<Option<T>>, b: seq<Option<T>>, r: Result<T>, q: Result<T>)
    requires Answers(steps, sampled, exec, a, r) && Answers(steps, sampled, exec, b, q)
    ensures a == b && r == q
  {
    hide AnswerAt, Shown;
    NoLongerAnswer(steps, sampled, exec, a, b, r, q);
    NoLongerAnswer(steps, sampled, exec, b, a, q, r);
    StoresAgree(steps, sampled, exec, a, b, |a|);
    assert a[..|a|] == a && b[..|a|] == b;
  }

  // ----- the loop

  class SandboxRun<T> {
    var registry: map<string, T>
    var counts: map<string, int>
    var last: Option<T>
    var error: Option<SandboxError>

    ghost function Now(): State<T>
      reads this
    {
      State.State(registry, counts, last, error)
    }

    constructor (counts: map<string, int>)
      ensures Now() == State.State(map[], counts, None, None)
    {
      this.registry, this.counts, this.last, this.error := map[], counts, None, None;
    }

    method ReleaseDependencies(step: Step)
      modifies this
      ensures Now() == Release(old(Now()), step)
    {
      var deps := StepInputs(step);
      for j := 0 to |deps|
        invariant Runner.Evict(registry, counts, "", deps[j..]) == Runner.Evict(old(registry), old(counts), "", deps)
        invariant last == old(last) && error == old(error)
      {
        var dep := deps[j];
        assert deps[j..][0] == dep && deps[j..][1..] == deps[j + 1..];
        assert dep in deps;
        if dep in counts {
          counts := counts[dep := counts[dep] - 1];
          if counts[dep] <= 0 {
            registry := registry - {dep};
          }
        }
      }
    }

    method TakeTurn(step: Step, sampled: map<string, T>, exec: Executor<T>)
      requires error.None?
      modifies this
      ensures Now() == Turn(old(Now()), step, sampled, exec)
    {
      hide StepValue, Release;
      if step.kind.Save? {
        last := if step.kind.input in registry then Some(registry[step.kind.input]) else last;
      } else {
        var v := StepValue(step, sampled, exec, registry);
        if v.Err? {
          error := Some(v.error);
          return;
        }
        registry := registry[step.name := v.value];
        last := Some(v.value);
      }
      ReleaseDependencies(step);
    }
  }

  method RunLoop<T>(steps: seq<Step>, sampled: map<string, T>, exec: Executor<T>) returns (result: Result<T>)
    ensures result == Outcome(Turns(steps, sampled, exec, |steps|))
  {
    hide Turn;
    var counts := Runner.ComputeConsumerCounts(steps);
    assert counts == Runner.Counts(steps);
    var run := new SandboxRun<T>(counts);
    var k := 0;
    while k < |steps| && run.error.None?
      invariant k <= |steps|
      invariant Turns(steps, sampled, exec, k) == run.Now()
    {
      run.TakeTurn(steps[k], sampled, exec);
      k := k + 1;
    }
    ErrorStays(steps, sampled, exec, k, |steps|);
    result := if run.error.Some? then Err(run.error.value)
      else if run.last.None? then Err(NoOutput) else Ok(run.last.value);
  }

  /** On accepted pipelines the sandbox answers with what their steps yield; when no
      step reads a save step, that is the value of the pipeline. */
  method RunPipelineInSandbox<T>(
    steps: seq<Step>, sampled: map<string, T>, exec: Executor<T>) returns (result: Result<T>)
    ensures result == Outcome(Turns(steps, sampled, exec, |steps|))
    ensures Parser.WellFormed(steps) ==> exists stored :: Answers(steps, sampled, exec, stored, result)
    ensures Parser.WellFormed(steps) && NoReadOfSave(steps) ==> result == PipelineValue(steps, sampled, exec)
  {
    hide Turns, MeaningOf, Answers;
    if Parser.WellFormed(steps) {
      ghost var stored := RunAnswers(steps, sampled, exec);
      assert Answers(steps, sampled, exec, stored, Outcome(Turns(steps, sampled, exec, |steps|)));
    }
    if Parser.WellFormed(steps) && NoReadOfSave(steps) {
      SandboxIsValue(steps, sampled, exec, |steps|);
    }
    result := RunLoop(steps, sampled, exec);
  }
}
