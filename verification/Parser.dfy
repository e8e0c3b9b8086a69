/** The parser's structural checks: unique well-formed names, known step types,
    filled-in references, and references to earlier steps only. */
module Parser {
  import opened Basics
  import opened Pipeline

  datatype ValidationError =
    | DuplicateName(name: string, count: nat)
    | BadNameFormat(name: string)
    | UnknownType(name: string, typeText: string)
    | EmptyField(name: string, field: string)
    | UnknownReference(name: string, field: string, ref: string)
    | OtherError(message: string)

  /** The characters Python's `str.strip` removes. */
  predicate IsSpace(c: char) {
    var n := c as int;
    || 9 <= n <= 13 || 0x1c <= n <= 0x20 || n == 0x85 || n == 0xa0 || n == 0x1680
    || 0x2000 <= n <= 0x200a || n == 0x2028 || n == 0x2029 || n == 0x202f || n == 0x205f || n == 0x3000
  }

  predicate Blank(s: string) {
    forall i :: 0 <= i < |s| ==> IsSpace(s[i])
  }

  predicate IsWordStart(c: char) {
    'a' <= c <= 'z' || 'A' <= c <= 'Z' || c == '_'
  }

  predicate IsWordChar(c: char) {
    IsWordStart(c) || '0' <= c <= '9'
  }

  predicate IsWord(s: string) {
    s != "" && IsWordStart(s[0]) && forall i :: 0 <= i < |s| ==> IsWordChar(s[i])
  }

  /** The identifier pattern; its end anchor also accepts one final newline. */
  predicate IsIdentifier(s: string) {
    IsWord(s) || (s != "" && s[|s| - 1] == '\n' && IsWord(s[..|s| - 1]))
  }

  lemma SmallExactly(c: char)
    ensures 'a' <= c <= 'z' <==> c in SmallLetters()
  {
    assert 'a' <= c <= 'z' ==> SmallLetters()[c as int - 'a' as int] == c;
  }

  lemma CapitalExactly(c: char)
    ensures 'A' <= c <= 'Z' <==> c in CapitalLetters()
  {
    assert 'A' <= c <= 'Z' ==> CapitalLetters()[c as int - 'A' as int] == c;
  }

  lemma DigitExactly(c: char)
    ensures '0' <= c <= '9' <==> c in Numerals()
  {
    assert '0' <= c <= '9' ==> Numerals()[c as int - '0' as int] == c;
  }

  /** Letters and digits that do not start with a digit, alone or before one line end. */
  ghost predicate Spelled(s: string, w: string) {
    && (s == w || s == w + "\n") && w != "" && w[0] !in Numerals()
    && forall i :: 0 <= i < |w| ==>
         w[i] in SmallLetters() || w[i] in CapitalLetters() || w[i] in Numerals() || w[i] == '_'
  }

  /** The pattern accepts exactly letters and digits that do not start with a digit, and
      the same with one final newline. */
  lemma IdentifierExactly(s: string)
    ensures IsIdentifier(s) <==> exists w :: Spelled(s, w)
  {
    forall c: char
      ensures 'a' <= c <= 'z' <==> c in SmallLetters()
      ensures 'A' <= c <= 'Z' <==> c in CapitalLetters()
      ensures '0' <= c <= '9' <==> c in Numerals()
    {
      SmallExactly(c);
      CapitalExactly(c);
      DigitExactly(c);
    }
    if IsWord(s) {
      assert Spelled(s, s);
    } else if IsIdentifier(s) {
      assert s == s[..|s| - 1] + "\n";
      assert Spelled(s, s[..|s| - 1]);
    }
    if w :| Spelled(s, w) {
      assert s != w ==> s[..|s| - 1] == w;
    }
  }

  lemma IdentifierFacts(s: string)
    requires IsIdentifier(s)
    ensures s != "" && !Blank(s) && ':' !in s
  {
    assert !IsSpace(s[0]);
  }

  // ----- what each check reports

  function Names(steps: seq<Step>): (names: seq<string>)
    ensures |names| == |steps|
    ensures forall i :: 0 <= i < |steps| ==> names[i] == steps[i].name
  {
    seq(|steps|, i requires 0 <= i < |steps| => steps[i].name)
  }

  /** The distinct names in order of first appearance. */
  function FirstAppearances(names: seq<string>): (firsts: seq<string>)
    ensures forall n :: n in firsts <==> n in names
  {
    if names == [] then []
    else
      var rest := names[..|names| - 1];
      var last := names[|names| - 1];
      FirstAppearances(rest) + (if last in rest then [] else [last])
  }

  function RepeatErrors(distinct: seq<string>, names: seq<string>): seq<ValidationError> {
    if distinct == [] then []
    else
      var n := distinct[|distinct| - 1];
      RepeatErrors(distinct[..|distinct| - 1], names)
      + (if Occurrences(names, n) > 1 then [DuplicateName(n, Occurrences(names, n))] else [])
  }

  function FormatErrors(step: Step): seq<ValidationError> {
    if step.name != "" && !IsIdentifier(step.name) then [BadNameFormat(step.name)] else []
  }

  function TypeErrors(step: Step): seq<ValidationError> {
    if step.kind.Untyped? then [UnknownType(step.name, step.kind.typeText)] else []
  }

  function BlankReferences(name: string, refs: seq<(string, string)>): seq<ValidationError> {
    if refs == [] then []
    else (if Blank(refs[0].1) then [EmptyField(name, refs[0].0)] else []) + BlankReferences(name, refs[1..])
  }

  /** `fields` reports the fields that only steps of certain types require. */
  function RequiredErrors(step: Step, fields: Step -> seq<ValidationError>): seq<ValidationError> {
    if Blank(step.name) then [EmptyField(if step.name == "" then "<unnamed>" else step.name, "name")]
    else if step.kind.Load? then
      if Blank(step.kind.fileId) then [EmptyField(step.name, "file_id")] else []
    else if step.kind.Untyped? then []
    else BlankReferences(step.name, References(step)) + fields(step)
  }

  function Required(fields: Step -> seq<ValidationError>): Step -> seq<ValidationError> {
    step => RequiredErrors(step, fields)
  }

  function ReferenceErrors(name: string, refs: seq<(string, string)>, available: seq<string>): seq<ValidationError> {
    if refs == [] then []
    else
      (if refs[0].1 != "" && refs[0].1 !in available then [UnknownReference(name, refs[0].0, refs[0].1)] else [])
      + ReferenceErrors(name, refs[1..], available)
  }

  function PerStep(steps: seq<Step>, check: Step -> seq<ValidationError>): seq<ValidationError> {
    if steps == [] then []
    else PerStep(steps[..|steps| - 1], check) + check(steps[|steps| - 1])
  }

  function AllReferenceErrors(steps: seq<Step>): seq<ValidationError> {
    if steps == [] then []
    else
      var rest := steps[..|steps| - 1];
      var step := steps[|steps| - 1];
      AllReferenceErrors(rest) + ReferenceErrors(step.name, References(step), Names(rest))
  }

  // ----- what silence of each check means

  lemma {:induction false} OccurrencesAtTwo(names: seq<string>, i: nat, j: nat)
    requires i < j < |names| && names[i] == names[j]
    ensures Occurrences(names, names[i]) > 1
  {
    if i == 0 {
      OccurrencesPositive(names[1..], names[j]);
      assert names[1..][j - 1] == names[j];
    } else {
      OccurrencesAtTwo(names[1..], i - 1, j - 1);
    }
  }

  lemma {:induction false} OccurrencesRepeated(names: seq<string>, n: string) returns (i: nat, j: nat)
    requires Occurrences(names, n) > 1
    ensures i < j < |names| && names[i] == n && names[j] == n
  {
    if names[0] == n {
      OccurrencesPositive(names[1..], n);
      var k :| 0 <= k < |names[1..]| && names[1..][k] == n;
      i, j := 0, k + 1;
    } else {
      i, j := OccurrencesRepeated(names[1..], n);
      i, j := i + 1, j + 1;
    }
  }

  /** One report per repeated name, with its count, and no other. */
  lemma {:induction false} RepeatErrorsExact(distinct: seq<string>, names: seq<string>, e: ValidationError)
    ensures e in RepeatErrors(distinct, names) <==>
      e.DuplicateName? && e.name in distinct && e.count == Occurrences(names, e.name) && e.count > 1
  {
    if distinct != [] {
      RepeatErrorsExact(distinct[..|distinct| - 1], names, e);
    }
  }

  lemma DuplicatesSilent(steps: seq<Step>)
    ensures RepeatErrors(FirstAppearances(Names(steps)), Names(steps)) == [] <==> UniqueNames(steps)
  {
    var names := Names(steps);
    var errors := RepeatErrors(FirstAppearances(names), names);
    if errors != [] {
      RepeatErrorsExact(FirstAppearances(names), names, errors[0]);
      var i, j := OccurrencesRepeated(names, errors[0].name);
      assert steps[i].name == steps[j].name;
    } else {
      forall i, j | 0 <= i < j < |steps|
        ensures steps[i].name != steps[j].name
      {
        if steps[i].name == steps[j].name {
          OccurrencesAtTwo(names, i, j);
          RepeatErrorsExact(FirstAppearances(names), names, DuplicateName(names[i], Occurrences(names, names[i])));
        }
      }
    }
  }

  lemma {:induction false} PerStepSilent(steps: seq<Step>, check: Step -> seq<ValidationError>)
    ensures PerStep(steps, check) == [] <==> forall k :: 0 <= k < |steps| ==> check(steps[k]) == []
  {
    if steps != [] {
      PerStepSilent(steps[..|steps| - 1], check);
    }
  }

  lemma {:induction false} BlankReferencesSilent(name: string, refs: seq<(string, string)>)
    ensures BlankReferences(name, refs) == [] <==> forall j :: 0 <= j < |refs| ==> !Blank(refs[j].1)
  {
    if refs != [] {
      BlankReferencesSilent(name, refs[1..]);
      assert forall j :: 0 <= j < |refs[1..]| ==> refs[1..][j] == refs[j + 1];
    }
  }

  lemma {:induction false} ReferenceErrorsSilent(name: string, refs: seq<(string, string)>, available: seq<string>)
    ensures ReferenceErrors(name, refs, available) == [] <==>
      forall j :: 0 <= j < |refs| ==> refs[j].1 == "" || refs[j].1 in available
  {
    if refs != [] {
      ReferenceErrorsSilent(name, refs[1..], available);
      assert forall j :: 0 <= j < |refs[1..]| ==> refs[1..][j] == refs[j + 1];
    }
  }

  lemma InputsAreReferences(step: Step, ref: string)
    ensures ref in StepInputs(step) <==>
      ref != "" && exists j :: 0 <= j < |References(step)| && References(step)[j].1 == ref
  {
    match step.kind
    case Join(left, right) =>
      assert References(step)[0].1 == left && References(step)[1].1 == right;
    case Save(input) => assert References(step)[0].1 == input;
    case Validate(input) => assert References(step)[0].1 == input;
    case Rename(input) => assert References(step)[0].1 == input;
    case Transform(input) => assert References(step)[0].1 == input;
    case _ =>
  }

  lemma StepReferencesSilent(steps: seq<Step>, k: nat)
    requires k < |steps|
    ensures ReferenceErrors(steps[k].name, References(steps[k]), Names(steps[..k])) == [] <==>
      forall ref :: ref in StepInputs(steps[k]) ==> NamesStepBefore(steps, k, ref)
  {
    var refs, names := References(steps[k]), Names(steps[..k]);
    ReferenceErrorsSilent(steps[k].name, refs, names);
    forall ref ensures ref in names <==> NamesStepBefore(steps, k, ref) {
      if i :| 0 <= i < k && steps[i].name == ref {
        assert names[i] == ref;
      }
    }
    forall ref { InputsAreReferences(steps[k], ref); }
    forall j | 0 <= j < |refs| ensures refs[j].1 == "" || refs[j].1 in StepInputs(steps[k]) {
      InputsAreReferences(steps[k], refs[j].1);
    }
  }

  lemma {:induction false} ReferencesSilent(steps: seq<Step>, n: nat)
    requires n <= |steps|
    ensures AllReferenceErrors(steps[..n]) == [] <==>
      forall k, ref :: 0 <= k < n && ref in StepInputs(steps[k]) ==> NamesStepBefore(steps, k, ref)
  {
    hide ReferenceErrors, StepInputs, Names, References;
    if n > 0 {
      ReferencesSilent(steps, n - 1);
      StepReferencesSilent(steps, n - 1);
      assert steps[..n][..n - 1] == steps[..n - 1];
    }
  }

  /** What the checks together are meant to establish. */
  ghost predicate WellFormed(steps: seq<Step>) {
    && UniqueNames(steps)
    && ReadsEarlier(steps)
    && forall k :: 0 <= k < |steps| ==> WellFormedStep(steps[k])
  }

  ghost predicate WellFormedStep(step: Step) {
    && IsIdentifier(step.name)
    && !step.kind.Untyped?
    && (step.kind.Load? ==> !Blank(step.kind.fileId))
    && forall j :: 0 <= j < |References(step)| ==> !Blank(References(step)[j].1)
  }

  /** The fields its type requires are there; a load requires no other. */
  predicate FieldsFilled(step: Step, fields: Step -> seq<ValidationError>) {
    step.kind.Load? || fields(step) == []
  }

  // ----- the checks as the source runs them, each appending to a shared list

  lemma {:induction false} NameAppended(names: seq<string>, k: nat, n: string)
    requires k < |names|
    ensures Occurrences(names[..k + 1], n) == Occurrences(names[..k], n) + (if n == names[k] then 1 else 0)
    ensures Occurrences(names[..k], n) > 0 <==> n in names[..k]
  {
    assert names[..k + 1] == names[..k] + [names[k]];
    OccurrencesInsert(names[..k], [names[k]], n);
    OccurrencesPositive(names[..k], n);
  }

  lemma FirstAppended(names: seq<string>, k: nat)
    requires k < |names|
    ensures FirstAppearances(names[..k + 1])
      == FirstAppearances(names[..k]) + (if names[k] in names[..k] then [] else [names[k]])
  {
    assert names[..k + 1][..k] == names[..k];
  }

  ghost predicate CountsOf(seen: map<string, nat>, names: seq<string>) {
    && (forall n :: n in seen <==> Occurrences(names, n) > 0)
    && (forall n :: n in seen ==> seen[n] == Occurrences(names, n))
  }

  lemma CountsAppend(seen: map<string, nat>, names: seq<string>, k: nat)
    requires k < |names| && CountsOf(seen, names[..k])
    ensures CountsOf(seen[names[k] := (if names[k] in seen then seen[names[k]] else 0) + 1], names[..k + 1])
    ensures names[k] in seen <==> names[k] in names[..k]
  {
    hide Occurrences;
    forall n
      ensures Occurrences(names[..k + 1], n) == Occurrences(names[..k], n) + (if n == names[k] then 1 else 0)
      ensures Occurrences(names[..k], n) > 0 <==> n in names[..k]
    {
      NameAppended(names, k, n);
    }
  }

  /** The insertion-ordered dictionary of name counts, as its keys and its values. */
  method CountNames(names: seq<string>) returns (order: seq<string>, seen: map<string, nat>)
    ensures order == FirstAppearances(names)
    ensures forall n :: n in seen <==> n in names
    ensures forall n :: n in seen ==> seen[n] == Occurrences(names, n)
  {
    order, seen := [], map[];
    assert FirstAppearances(names[..0]) == [] && CountsOf(seen, names[..0]);
    for k := 0 to |names|
      invariant order == FirstAppearances(names[..k])
      invariant CountsOf(seen, names[..k])
    {
      hide FirstAppearances, CountsOf;
      FirstAppended(names, k);
      CountsAppend(seen, names, k);
      if names[k] !in seen {
        order := order + [names[k]];
      }
      seen := seen[names[k] := (if names[k] in seen then seen[names[k]] else 0) + 1];
    }
    assert names[..|names|] == names;
    forall n ensures Occurrences(names, n) > 0 <==> n in names { OccurrencesPositive(names, n); }
  }

  lemma {:induction false} RepeatAppended(order: seq<string>, k: nat, names: seq<string>)
    requires k < |order|
    ensures var count := Occurrences(names, order[k]);
      RepeatErrors(order[..k + 1], names)
        == RepeatErrors(order[..k], names) + (if count > 1 then [DuplicateName(order[k], count)] else [])
  {
    hide Occurrences;
    assert order[..k + 1][..k] == order[..k];
  }

  method CheckDuplicateStepNames(steps: seq<Step>, errors: seq<ValidationError>) returns (errors': seq<ValidationError>)
    ensures errors' == errors + RepeatErrors(FirstAppearances(Names(steps)), Names(steps))
  {
    hide Occurrences, FirstAppearances;
    var names := Names(steps);
    var order, seen := CountNames(names);
    errors' := errors;
    for k := 0 to |order|
      invariant errors' == errors + RepeatErrors(order[..k], names)
    {
      hide RepeatErrors;
      assert order[k] in order;
      RepeatAppended(order, k, names);
      if seen[order[k]] > 1 {
        errors' := errors' + [DuplicateName(order[k], seen[order[k]])];
      }
    }
    assert order[..|order|] == order;
  }

  method CheckEachStep(steps: seq<Step>, check: Step -> seq<ValidationError>, errors: seq<ValidationError>)
    returns (errors': seq<ValidationError>)
    ensures errors' == errors + PerStep(steps, check)
  {
    errors' := errors;
    for k := 0 to |steps|
      invariant errors' == errors + PerStep(steps[..k], check)
    {
      assert steps[..k + 1][..k] == steps[..k];
      errors' := errors' + check(steps[k]);
    }
    assert steps[..|steps|] == steps;
  }

  method CheckReference(step: Step, available: seq<string>, errors: seq<ValidationError>)
    returns (errors': seq<ValidationError>)
    ensures errors' == errors + ReferenceErrors(step.name, References(step), available)
  {
    var refs := References(step);
    errors' := errors;
    for j := 0 to |refs|
      invariant errors' + ReferenceErrors(step.name, refs[j..], available)
        == errors + ReferenceErrors(step.name, refs, available)
    {
      assert refs[j..][0] == refs[j] && refs[j..][1..] == refs[j + 1..];
      if refs[j].1 != "" && refs[j].1 !in available {
        errors' := errors' + [UnknownReference(step.name, refs[j].0, refs[j].1)];
      }
    }
  }

  method CheckStepReferences(steps: seq<Step>, errors: seq<ValidationError>) returns (errors': seq<ValidationError>)
    ensures errors' == errors + AllReferenceErrors(steps)
  {
    hide ReferenceErrors, References;
    errors' := errors;
    var seenSteps: seq<string> := [];
    for k := 0 to |steps|
      invariant seenSteps == Names(steps[..k])
      invariant errors' == errors + AllReferenceErrors(steps[..k])
    {
      assert steps[..k + 1][..k] == steps[..k];
      errors' := CheckReference(steps[k], seenSteps, errors');
      assert Names(steps[..k + 1]) == seenSteps + [steps[k].name];
      seenSteps := seenSteps + [steps[k].name];
    }
    assert steps[..|steps|] == steps;
  }

  // ----- which errors the checks report

  /** An error of the five checks: a repeated name with its count, a malformed name, an
      unknown type, a required text that is blank, or a reference to no earlier step. */
  ghost predicate Reported(steps: seq<Step>, e: ValidationError) {
    match e
    case DuplicateName(name, count) => count == Occurrences(Names(steps), name) && count > 1
    case BadNameFormat(name) =>
      name != "" && !IsIdentifier(name) && exists k :: 0 <= k < |steps| && steps[k].name == name
    case UnknownType(name, typeText) =>
      exists k :: 0 <= k < |steps| && steps[k].name == name && steps[k].kind == Untyped(typeText)
    case EmptyField(name, field) => exists k :: 0 <= k < |steps| && Lacks(steps[k], name, field)
    case UnknownReference(name, field, ref) =>
      exists k :: 0 <= k < |steps| && steps[k].name == name && Misses(steps, k, field, ref)
    case OtherError(_) => false
  }

  /** A blank name is reported alone; of a named step the blank file or reference fields. */
  ghost predicate Lacks(step: Step, name: string, field: string) {
    if Blank(step.name) then field == "name" && name == (if step.name == "" then "<unnamed>" else step.name)
    else
      && name == step.name
      && match step.kind
         case Load(fileId) => field == "file_id" && Blank(fileId)
         case Join(left, right) => (field == "left" && Blank(left)) || (field == "right" && Blank(right))
         case Save(input) => field == "input" && Blank(input)
         case Validate(input) => field == "input" && Blank(input)
         case Rename(input) => field == "input" && Blank(input)
         case Transform(input) => field == "input" && Blank(input)
         case StreamConsume => false
         case Untyped(_) => false
  }

  ghost predicate Misses(steps: seq<Step>, k: nat, field: string, ref: string)
    requires k < |steps|
  {
    && ref != "" && !NamesStepBefore(steps, k, ref)
    && match steps[k].kind
       case Load(_) => false
       case Join(left, right) => (field == "left" && ref == left) || (field == "right" && ref == right)
       case Save(input) => field == "input" && ref == input
       case Validate(input) => field == "input" && ref == input
       case Rename(input) => field == "input" && ref == input
       case Transform(input) => field == "input" && ref == input
       case StreamConsume => false
       case Untyped(_) => false
  }

  /** The fields of a step that only some types require are asked for. */
  ghost predicate AsksFields(step: Step) { !Blank(step.name) && !step.kind.Load? && !step.kind.Untyped? }

  lemma {:induction false} PerStepExact(steps: seq<Step>, check: Step -> seq<ValidationError>, e: ValidationError)
    ensures e in PerStep(steps, check) <==> exists k :: 0 <= k < |steps| && e in check(steps[k])
  {
    if steps != [] {
      var n := |steps| - 1;
      PerStepExact(steps[..n], check, e);
      assert forall k :: 0 <= k < n ==> steps[..n][k] == steps[k];
    }
  }

  lemma {:induction false} BlankReferencesExact(name: string, refs: seq<(string, string)>, e: ValidationError)
    ensures e in BlankReferences(name, refs) <==>
      exists j :: 0 <= j < |refs| && e == EmptyField(name, refs[j].0) && Blank(refs[j].1)
  {
    hide Blank;
    if refs != [] {
      var rest := refs[1..];
      BlankReferencesExact(name, rest, e);
      assert forall j :: 0 < j < |refs| ==> refs[j] == rest[j - 1];
    }
  }

  lemma {:induction false} ReferenceErrorsExact(
    name: string, refs: seq<(string, string)>, available: seq<string>, e: ValidationError)
    ensures e in ReferenceErrors(name, refs, available) <==>
      exists j :: 0 <= j < |refs| && e == UnknownReference(name, refs[j].0, refs[j].1)
        && refs[j].1 != "" && refs[j].1 !in available
  {
    if refs != [] {
      var rest := refs[1..];
      ReferenceErrorsExact(name, rest, available, e);
      assert forall j :: 0 < j < |refs| ==> refs[j] == rest[j - 1];
    }
  }

  ghost predicate RefersBlank(step: Step, e: ValidationError) {
    exists j :: 0 <= j < |References(step)| && e == EmptyField(step.name, References(step)[j].0)
      && Blank(References(step)[j].1)
  }

  lemma RefersBlankIsLacks(step: Step, name: string, field: string)
    requires !Blank(step.name) && !step.kind.Load?
    ensures RefersBlank(step, EmptyField(name, field)) <==> Lacks(step, name, field)
  {
    hide Blank;
    var refs := References(step);
    match step.kind
    case Join(left, right) => assert refs[0] == ("left", left) && refs[1] == ("right", right);
    case Save(input) => assert refs[0] == ("input", input);
    case Validate(input) => assert refs[0] == ("input", input);
    case Rename(input) => assert refs[0] == ("input", input);
    case Transform(input) => assert refs[0] == ("input", input);
    case _ =>
  }

  lemma RequiredExact(step: Step, fields: Step -> seq<ValidationError>, e: ValidationError)
    ensures e in RequiredErrors(step, fields) <==>
      (e.EmptyField? && Lacks(step, e.name, e.field)) || (AsksFields(step) && e in fields(step))
  {
    hide Blank;
    if !Blank(step.name) && !step.kind.Load? {
      BlankReferencesExact(step.name, References(step), e);
      if e.EmptyField? {
        RefersBlankIsLacks(step, e.name, e.field);
      }
    }
  }

  ghost predicate RefersMissing(step: Step, available: seq<string>, e: ValidationError) {
    exists j :: 0 <= j < |References(step)|
      && e == UnknownReference(step.name, References(step)[j].0, References(step)[j].1)
      && References(step)[j].1 != "" && References(step)[j].1 !in available
  }

  lemma NamesBefore(steps: seq<Step>, k: nat, ref: string)
    requires k <= |steps|
    ensures ref in Names(steps[..k]) <==> NamesStepBefore(steps, k, ref)
  {
    if i :| 0 <= i < k && steps[i].name == ref {
      assert Names(steps[..k])[i] == ref;
    }
  }

  lemma RefersMissingIsMisses(steps: seq<Step>, k: nat, e: ValidationError)
    requires k < |steps|
    ensures RefersMissing(steps[k], Names(steps[..k]), e) <==>
      e.UnknownReference? && e.name == steps[k].name && Misses(steps, k, e.field, e.ref)
  {
    hide Names, NamesStepBefore;
    var step, refs := steps[k], References(steps[k]);
    forall ref { NamesBefore(steps, k, ref); }
    match step.kind
    case Join(left, right) => assert refs[0] == ("left", left) && refs[1] == ("right", right);
    case Save(input) => assert refs[0] == ("input", input);
    case Validate(input) => assert refs[0] == ("input", input);
    case Rename(input) => assert refs[0] == ("input", input);
    case Transform(input) => assert refs[0] == ("input", input);
    case _ =>
  }

  lemma {:induction false} AllReferenceErrorsExact(steps: seq<Step>, n: nat, e: ValidationError)
    requires n <= |steps|
    ensures e in AllReferenceErrors(steps[..n]) <==>
      exists k :: 0 <= k < n && e.UnknownReference? && e.name == steps[k].name && Misses(steps, k, e.field, e.ref)
  {
    hide ReferenceErrors, References, Names, Misses;
    if n > 0 {
      AllReferenceErrorsExact(steps, n - 1, e);
      assert steps[..n][..n - 1] == steps[..n - 1] && steps[..n][n - 1] == steps[n - 1];
      ReferenceErrorsExact(steps[n - 1].name, References(steps[n - 1]), Names(steps[..n - 1]), e);
      RefersMissingIsMisses(steps, n - 1, e);
    }
  }

  lemma RepeatsReported(steps: seq<Step>, e: ValidationError)
    ensures var names := Names(steps);
      e in RepeatErrors(FirstAppearances(names), names) <==> e.DuplicateName? && Reported(steps, e)
  {
    hide Blank, IsIdentifier, Occurrences, Names;
    RepeatErrorsExact(FirstAppearances(Names(steps)), Names(steps), e);
    if e.DuplicateName? {
      OccurrencesPositive(Names(steps), e.name);
    }
  }

  lemma {:induction false} NamesReported(steps: seq<Step>, e: ValidationError)
    ensures e in PerStep(steps, FormatErrors) <==> e.BadNameFormat? && Reported(steps, e)
    ensures e in PerStep(steps, TypeErrors) <==> e.UnknownType? && Reported(steps, e)
  {
    hide PerStep, Blank, IsIdentifier, Lacks, Misses;
    PerStepExact(steps, FormatErrors, e);
    PerStepExact(steps, TypeErrors, e);
  }

  lemma {:induction false} FieldsReported(steps: seq<Step>, fields: Step -> seq<ValidationError>, e: ValidationError)
    ensures e in PerStep(steps, Required(fields)) <==>
      || (e.EmptyField? && Reported(steps, e))
      || exists k :: 0 <= k < |steps| && AsksFields(steps[k]) && e in fields(steps[k])
  {
    hide PerStep, RequiredErrors, Lacks, Misses, AsksFields, IsIdentifier;
    PerStepExact(steps, Required(fields), e);
    forall k | 0 <= k < |steps| {
      RequiredExact(steps[k], fields, e);
    }
  }

  lemma {:induction false} MissingReported(steps: seq<Step>, e: ValidationError)
    ensures e in AllReferenceErrors(steps) <==> e.UnknownReference? && Reported(steps, e)
  {
    hide AllReferenceErrors, Lacks, Misses, IsIdentifier;
    AllReferenceErrorsExact(steps, |steps|, e);
    assert steps[..|steps|] == steps;
  }

  /** The five checks report exactly the errors there are, besides those of the fields
      that only some types require. */
  lemma {:induction false} ReportsExact(steps: seq<Step>, fields: Step -> seq<ValidationError>, e: ValidationError)
    ensures var names := Names(steps);
      (|| e in RepeatErrors(FirstAppearances(names), names) || e in PerStep(steps, FormatErrors)
       || e in PerStep(steps, TypeErrors) || e in PerStep(steps, Required(fields)) || e in AllReferenceErrors(steps))
      <==> Reported(steps, e) || exists k :: 0 <= k < |steps| && AsksFields(steps[k]) && e in fields(steps[k])
  {
    RepeatsReported(steps, e);
    NamesReported(steps, e);
    FieldsReported(steps, fields, e);
    MissingReported(steps, e);
    hide FirstAppearances, Names, RepeatErrors, AllReferenceErrors, PerStep, Lacks, Misses, IsIdentifier, AsksFields,
      Occurrences;
  }

  /** The checks accept a step list exactly when it is well formed and the other checks
      are silent: those `before` and `after` the ones modelled here, and the required
      `fields` of steps of certain types. */
  method Validate(
    steps: seq<Step>, before: seq<Step> -> seq<ValidationError>, fields: Step -> seq<ValidationError>,
    after: seq<Step> -> seq<ValidationError>)
    returns (errors: seq<ValidationError>)
    ensures errors == [] <==> WellFormed(steps) && before(steps) == [] && after(steps) == []
                              && forall k :: 0 <= k < |steps| ==> FieldsFilled(steps[k], fields)
    ensures forall e :: e in errors <==>
      || e in before(steps) || e in after(steps) || Reported(steps, e)
      || exists k :: 0 <= k < |steps| && AsksFields(steps[k]) && e in fields(steps[k])
  {
    hide Reported, AsksFields, FirstAppearances, Names;
    hide WellFormed, PerStep, RepeatErrors, AllReferenceErrors, FieldsFilled;
    errors := CheckDuplicateStepNames(steps, before(steps));
    ghost var e1 := errors;
    errors := CheckEachStep(steps, FormatErrors, errors);
    ghost var e2 := errors;
    errors := CheckEachStep(steps, TypeErrors, errors);
    ghost var e3 := errors;
    errors := CheckEachStep(steps, Required(fields), errors);
    ghost var e4 := errors;
    errors := CheckStepReferences(steps, errors);
    ghost var e5 := errors;
    errors := errors + after(steps);
    SilenceMeansWellFormed(steps, fields);
    assert e5 == [] <==> e4 == [] && AllReferenceErrors(steps) == [];
    assert e4 == [] <==> e3 == [] && PerStep(steps, Required(fields)) == [];
    assert e3 == [] <==> e2 == [] && PerStep(steps, TypeErrors) == [];
    assert e2 == [] <==> e1 == [] && PerStep(steps, FormatErrors) == [];
    forall e { ReportsExact(steps, fields, e); }
  }

  lemma {:induction false} SilenceMeansWellFormed(steps: seq<Step>, fields: Step -> seq<ValidationError>)
    ensures
      (&& RepeatErrors(FirstAppearances(Names(steps)), Names(steps)) == []
       && PerStep(steps, FormatErrors) == []
       && PerStep(steps, TypeErrors) == []
       && PerStep(steps, Required(fields)) == []
       && AllReferenceErrors(steps) == [])
      <==> WellFormed(steps) && forall k :: 0 <= k < |steps| ==> FieldsFilled(steps[k], fields)
  {
    hide PerStep, RepeatErrors, AllReferenceErrors, UniqueNames, FirstAppearances, Names, WellFormedStep, FieldsFilled;
    DuplicatesSilent(steps);
    StepsSilent(steps, fields);
    ReferencesSilent(steps, |steps|);
    assert steps[..|steps|] == steps;
  }

  lemma {:induction false} StepsSilent(steps: seq<Step>, fields: Step -> seq<ValidationError>)
    ensures PerStep(steps, FormatErrors) == [] && PerStep(steps, TypeErrors) == []
            && PerStep(steps, Required(fields)) == []
      <==> forall k :: 0 <= k < |steps| ==> WellFormedStep(steps[k]) && FieldsFilled(steps[k], fields)
  {
    hide PerStep, WellFormedStep, FormatErrors, TypeErrors, RequiredErrors, FieldsFilled;
    PerStepSilent(steps, FormatErrors);
    PerStepSilent(steps, TypeErrors);
    PerStepSilent(steps, Required(fields));
    forall k | 0 <= k < |steps|
      ensures FormatErrors(steps[k]) == [] && TypeErrors(steps[k]) == [] && Required(fields)(steps[k]) == []
        <==> WellFormedStep(steps[k]) && FieldsFilled(steps[k], fields)
    {
      StepSilent(steps[k], fields);
    }
  }

  lemma StepSilent(step: Step, fields: Step -> seq<ValidationError>)
    ensures FormatErrors(step) == [] && TypeErrors(step) == [] && RequiredErrors(step, fields) == []
      <==> WellFormedStep(step) && FieldsFilled(step, fields)
  {
    BlankReferencesSilent(step.name, References(step));
    if IsIdentifier(step.name) {
      IdentifierFacts(step.name);
    }
  }
}
