/** The pipeline as the parser hands it on: an ordered list of named steps.

    A step reads other steps by name.  Everything in a step that does not decide
    which tables it reads is kept as opaque text in `config`. */
module Pipeline {

  datatype StepKind =
    | Load(fileId: string)
    | Join(left: string, right: string)
    | Save(input: string)
    | Validate(input: string)
    | Rename(input: string)
    | Transform(input: string)  // every other step type that has one input
    | StreamConsume             // reads a topic, not a step
    | Untyped(typeText: string) // the type text names no step type

  datatype Step = Step(name: string, kind: StepKind, config: string)

  /** The reference fields a step has, blank or not, with the field's name. */
  function References(step: Step): seq<(string, string)> {
    match step.kind
    case Load(_) => []
    case Join(left, right) => [("left", left), ("right", right)]
    case Save(input) => [("input", input)]
    case Validate(input) => [("input", input)]
    case Rename(input) => [("input", input)]
    case Transform(input) => [("input", input)]
    case StreamConsume => []
    case Untyped(_) => []
  }

  function NonEmpty(refs: seq<string>): (kept: seq<string>)
    ensures forall ref :: ref in kept <==> ref in refs && ref != ""
  {
    if refs == [] then []
    else (if refs[0] == "" then [] else [refs[0]]) + NonEmpty(refs[1..])
  }

  /** The step names a step looks up in the table registry, in the order
      input, left, right; a self-join names the same step twice. */
  function StepInputs(step: Step): (inputs: seq<string>) {
    match step.kind
    case Join(left, right) => NonEmpty([left, right])
    case Save(input) => NonEmpty([input])
    case Validate(input) => NonEmpty([input])
    case Rename(input) => NonEmpty([input])
    case Transform(input) => NonEmpty([input])
    case _ => []
  }

  ghost predicate UniqueNames(steps: seq<Step>) {
    forall i, j :: 0 <= i < j < |steps| ==> steps[i].name != steps[j].name
  }

  ghost predicate NamesStepBefore(steps: seq<Step>, k: nat, ref: string) {
    exists i :: 0 <= i < k && i < |steps| && steps[i].name == ref
  }

  /** Every non-empty reference names an earlier step. */
  ghost predicate ReadsEarlier(steps: seq<Step>) {
    forall k, ref :: 0 <= k < |steps| && ref in StepInputs(steps[k]) ==> NamesStepBefore(steps, k, ref)
  }

  /** How many times `ref` occurs in `refs`. */
  function Occurrences(refs: seq<string>, ref: string): nat {
    if refs == [] then 0
    else (if refs[0] == ref then 1 else 0) + Occurrences(refs[1..], ref)
  }

  /** How many reads of `ref` the steps make between them. */
  function Reads(steps: seq<Step>, ref: string): nat {
    if steps == [] then 0
    else Occurrences(StepInputs(steps[0]), ref) + Reads(steps[1..], ref)
  }

  lemma {:induction false} OccurrencesPositive(refs: seq<string>, ref: string)
    ensures Occurrences(refs, ref) > 0 <==> ref in refs
  {
    if refs != [] {
      OccurrencesPositive(refs[1..], ref);
    }
  }

  lemma {:induction false} ReadsPositive(steps: seq<Step>, ref: string)
    ensures Reads(steps, ref) > 0 <==> exists k :: 0 <= k < |steps| && ref in StepInputs(steps[k])
  {
    if steps != [] {
      OccurrencesPositive(StepInputs(steps[0]), ref);
      ReadsPositive(steps[1..], ref);
      if k :| 0 <= k < |steps[1..]| && ref in StepInputs(steps[1..][k]) {
        assert ref in StepInputs(steps[k + 1]);
      }
      if k :| 0 <= k < |steps| && ref in StepInputs(steps[k]) {
        assert k > 0 ==> ref in StepInputs(steps[1..][k - 1]);
      }
    }
  }

  lemma {:induction false} ReadsOfPrefix(steps: seq<Step>, k: nat, ref: string)
    requires k <= |steps|
    ensures Reads(steps, ref) == Reads(steps[..k], ref) + Reads(steps[k..], ref)
  {
    if k > 0 {
      assert steps[..k][0] == steps[0] && steps[..k][1..] == steps[1..][..k - 1];
      assert steps[k..] == steps[1..][k - 1..];
      ReadsOfPrefix(steps[1..], k - 1, ref);
    } else {
      assert steps[..k] == [] && steps[k..] == steps;
    }
  }

  lemma {:induction false} OccurrencesInsert(a: seq<string>, b: seq<string>, ref: string)
    ensures Occurrences(a + b, ref) == Occurrences(a, ref) + Occurrences(b, ref)
  {
    if a == [] {
      assert a + b == b;
    } else {
      assert (a + b)[1..] == a[1..] + b;
      OccurrencesInsert(a[1..], b, ref);
    }
  }
}
