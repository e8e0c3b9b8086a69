/** The bounded repair loop: ask for a patch, check it, apply it, try it out, record
    what happened, and stop at the first success or exhausted quota.

    The model's replies, JSON and YAML reading and writing, and the trial run are
    functions of the surroundings; replies and trials may differ from attempt to attempt. */
module Healing {
  import opened Basics
  import opened Patch

  const MAX_HEALING_RETRIES := 3

  // ----- what a well-formed patch is

  function Field(v: Value, name: string): Value
    requires v.Dict?
  {
    Lookup(v.entries, Text(name))
  }

  /** Booleans are numbers, and both of them lie between zero and one. */
  predicate ConfidenceOk(v: Value) {
    v.Bool? || (v.Whole? && 0 <= v.whole <= 1) || (v.Decimal? && 0.0 <= v.decimal <= 1.0)
  }

  predicate ItemOk(v: Value) {
    v.Dict? && HasKey(v.entries, Text("step_name")) && HasKey(v.entries, Text("field"))
    && HasKey(v.entries, Text("old_value")) && HasKey(v.entries, Text("new_value"))
  }

  /** A mapping with a confidence between zero and one, a textual description, and a
      list of items that have all four fields. */
  ghost predicate WellFormed(patch: Value) {
    && patch.Dict? && Field(patch, "change_description").Text? && Field(patch, "patches").List?
    && (var confidence := NumberOf(Field(patch, "confidence"));
        confidence.Some? && 0.0 <= confidence.value <= 1.0)
    && forall i :: 0 <= i < |Field(patch, "patches").items| ==> HasAllFields(Field(patch, "patches").items[i])
  }

  ghost predicate HasAllFields(v: Value) {
    v.Dict? && forall name :: name in ["step_name", "field", "old_value", "new_value"] ==> HasKey(v.entries, Text(name))
  }

  lemma ItemOkExactly(v: Value)
    ensures ItemOk(v) <==> HasAllFields(v)
  {
    hide HasKey;
    var names := ["step_name", "field", "old_value", "new_value"];
    if HasAllFields(v) {
      assert names[0] in names && names[1] in names && names[2] in names && names[3] in names;
    }
  }

  lemma ConfidenceExactly(v: Value)
    ensures ConfidenceOk(v) <==> NumberOf(v).Some? && 0.0 <= NumberOf(v).value <= 1.0
  {
  }

  method ValidateHealingPatch(patch: Value) returns (valid: bool)
    ensures valid <==> WellFormed(patch)
  {
    hide HasAllFields, ItemOk, ConfidenceOk, NumberOf;
    if patch.Dict? {
      ConfidenceExactly(Field(patch, "confidence"));
    }
    if !patch.Dict? || !ConfidenceOk(Field(patch, "confidence")) || !Field(patch, "change_description").Text? {
      return false;
    }
    var patches := Field(patch, "patches");
    if !patches.List? {
      return false;
    }
    for i := 0 to |patches.items|
      invariant forall j :: 0 <= j < i ==> HasAllFields(patches.items[j])
    {
      ItemOkExactly(patches.items[i]);
      if !ItemOk(patches.items[i]) {
        return false;
      }
    }
    return true;
  }

  // ----- the surroundings

  datatype Reply = Raw(text: string) | Unavailable(quota: bool)

  datatype World = World(
    reply: nat -> Reply, parse: string -> Option<Value>, str: Value -> string,
    load: string -> Option<seq<StepEntry>>, dump: (string, seq<StepEntry>) -> string, trial: (nat, string) -> bool)

  function ItemOf(w: World, v: Value): Item
    requires HasAllFields(v)
  {
    Item(w.str(Field(v, "step_name")), w.str(Field(v, "field")), Field(v, "old_value"), Field(v, "new_value"))
  }

  function ItemsOf(w: World, patch: Value): seq<Item>
    requires WellFormed(patch)
  {
    var items := Field(patch, "patches").items;
    seq(|items|, i requires 0 <= i < |items| => ItemOf(w, items[i]))
  }

  /** The items of the patch, field by field: step and field names as text, the values
      as they are. */
  ghost predicate ReadsItems(w: World, patch: Value, items: seq<Item>)
    requires WellFormed(patch)
  {
    var vs := Field(patch, "patches").items;
    && |items| == |vs|
    && forall i :: 0 <= i < |vs| ==>
         && vs[i].Dict?
         && items[i].step == w.str(Field(vs[i], "step_name")) && items[i].field == w.str(Field(vs[i], "field"))
         && items[i].oldValue == Field(vs[i], "old_value") && items[i].newValue == Field(vs[i], "new_value")
  }

  datatype Status = Failed | AiInvalid | ValidationFailed | Applied

  datatype Attempt = Attempt(number: nat, status: Status)

  datatype HealingResult = HealingResult(success: bool, patchedYaml: Option<string>, attempts: nat)

  // ----- what an attempt deserves

  ghost predicate Usable(w: World, n: nat, patch: Value) {
    && w.reply(n).Raw? && w.parse(w.reply(n).text) == Some(patch)
    && WellFormed(patch) && Field(patch, "patches").items != []
  }

  /** `healed` is the original with the n-th reply's patch applied, and passed its trial. */
  ghost predicate Heals(w: World, yaml: string, n: nat, healed: string) {
    exists patch, steps, items, result ::
      && Usable(w, n, patch) && w.load(yaml) == Some(steps)
      && ReadsItems(w, patch, items) && ApplyPatch(steps, items) == Some(result)
      && healed == w.dump(yaml, result) && w.trial(n, healed)
  }

  ghost predicate Deserves(w: World, yaml: string, n: nat, status: Status) {
    match status
    case Failed => w.reply(n).Unavailable?
    case AiInvalid => w.reply(n).Raw? && forall patch :: !Usable(w, n, patch)
    case ValidationFailed => (exists patch :: Usable(w, n, patch)) && forall healed :: !Heals(w, yaml, n, healed)
    case Applied => exists healed :: Heals(w, yaml, n, healed)
  }

  /** The loop goes on after such an attempt. */
  ghost predicate GoesOn(w: World, a: Attempt) { a.status != Applied && !OutOfQuota(w, a.number) }

  ghost predicate OutOfQuota(w: World, n: nat) { w.reply(n).Unavailable? && w.reply(n).quota }

  /** The four outcomes of an attempt exclude each other, and one of them applies. */
  lemma OneStatus(w: World, yaml: string, n: nat)
    ensures exists status :: Deserves(w, yaml, n, status)
    ensures forall s, t :: Deserves(w, yaml, n, s) && Deserves(w, yaml, n, t) ==> s == t
  {
    hide WellFormed, ApplyPatch, ReadsItems;
    if w.reply(n).Unavailable? {
      assert Deserves(w, yaml, n, Failed);
    } else if forall patch :: !Usable(w, n, patch) {
      assert Deserves(w, yaml, n, AiInvalid);
    } else if healed :| Heals(w, yaml, n, healed) {
      assert Deserves(w, yaml, n, Applied);
    } else {
      assert Deserves(w, yaml, n, ValidationFailed);
    }
  }

  /** One attempt. */
  method TryOnce(w: World, yaml: string, n: nat) returns (status: Status, healed: Option<string>)
    ensures Deserves(w, yaml, n, status)
    ensures status == Failed <==> w.reply(n).Unavailable?
    ensures status == Applied <==> healed.Some?
    ensures healed.Some? ==> Heals(w, yaml, n, healed.value)
  {
    hide WellFormed, ApplyPatch;
    healed := None;
    var reply := w.reply(n);
    if reply.Unavailable? {
      return Failed, None;
    }
    var parsed := w.parse(reply.text);
    if parsed.None? {
      return AiInvalid, None;
    }
    var patch := parsed.value;
    var valid := ValidateHealingPatch(patch);
    if !valid {
      return AiInvalid, None;
    }
    IsDict(patch);
    if Field(patch, "patches").items == [] {
      return AiInvalid, None;
    }
    assert Usable(w, n, patch);
    var loaded := w.load(yaml);
    if loaded.None? {
      return ValidationFailed, None;
    }
    var items := ItemsOf(w, patch);
    ItemsRead(w, patch);
    OnlyItems(w, patch);
    hide ReadsItems;
    var result := PatchSteps(loaded.value, items);
    if result.None? {
      return ValidationFailed, None;
    }
    var text := w.dump(yaml, result.value);
    if !w.trial(n, text) {
      return ValidationFailed, None;
    }
    assert Heals(w, yaml, n, text);
    return Applied, Some(text);
  }

  lemma ItemsRead(w: World, patch: Value)
    requires WellFormed(patch)
    ensures ReadsItems(w, patch, ItemsOf(w, patch))
  {
    hide HasKey, Lookup;
  }

  lemma OnlyItems(w: World, patch: Value)
    requires WellFormed(patch)
    ensures forall items :: ReadsItems(w, patch, items) ==> items == ItemsOf(w, patch)
  {
    hide HasKey, Lookup;
  }

  lemma IsDict(patch: Value)
    requires WellFormed(patch)
    ensures patch.Dict? && Field(patch, "patches").List?
  {
  }

  /** The log has one entry per attempt, numbered from one, each with the status the
      attempt deserves; it ends at the first success or exhausted quota and else after
      three.  The result is a success exactly when the last entry is an applied patch.
      The reported number of attempts is that of the log, except when the quota ran out
      before the third attempt: then it is still three. */
  method AttemptHeal(w: World, yaml: string) returns (result: HealingResult, log: seq<Attempt>)
    ensures 1 <= |log| <= MAX_HEALING_RETRIES
    ensures forall i :: 0 <= i < |log| ==> log[i].number == i + 1 && Deserves(w, yaml, log[i].number, log[i].status)
    ensures forall i :: 0 <= i < |log| - 1 ==> GoesOn(w, log[i])
    ensures |log| == MAX_HEALING_RETRIES || !GoesOn(w, log[|log| - 1])
    ensures result.success <==> log[|log| - 1].status == Applied
    ensures result.success <==> result.patchedYaml.Some?
    ensures result.success ==> Heals(w, yaml, |log|, result.patchedYaml.value) && result.attempts == |log|
    ensures !result.success ==> result.attempts == MAX_HEALING_RETRIES
    ensures result.attempts == |log| <==> !(|log| < MAX_HEALING_RETRIES && OutOfQuota(w, |log|))
  {
    hide Heals, Deserves;
    log := [];
    var n := 1;
    while n <= MAX_HEALING_RETRIES
      invariant 1 <= n <= MAX_HEALING_RETRIES + 1 && |log| == n - 1
      invariant forall i :: 0 <= i < |log| ==> log[i].number == i + 1 && Deserves(w, yaml, log[i].number, log[i].status)
      invariant forall i :: 0 <= i < |log| ==> GoesOn(w, log[i])
    {
      var status, healed := TryOnce(w, yaml, n);
      log := log + [Attempt(n, status)];
      if status == Applied {
        return HealingResult(true, healed, n), log;
      }
      if status == Failed && w.reply(n).quota {
        break;
      }
      n := n + 1;
    }
    result := HealingResult(false, None, MAX_HEALING_RETRIES);
  }

  /** With the quota gone at the first call one attempt is recorded and three reported. */
  method HealWithoutQuota(w: World, yaml: string) returns (result: HealingResult, log: seq<Attempt>)
    requires OutOfQuota(w, 1)
    ensures !result.success && |log| == 1 && result.attempts == 3
  {
    result, log := AttemptHeal(w, yaml);
    assert log[0].number == 1 && !GoesOn(w, log[0]);
  }
}
