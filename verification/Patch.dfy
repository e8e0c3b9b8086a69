/** Structural patches on the steps of a pipeline document.

    Values are the document's values after YAML loading; mappings keep their order.
    Values are compared as Python compares them: true is 1 and 1.0, false is 0 and 0.0,
    and the order of a mapping's entries does not matter. */
module Patch {
  import opened Basics

  datatype Value =
    | Text(text: string) | Whole(whole: int) | Decimal(decimal: real) | Bool(bit: bool) | Null
    | List(items: seq<Value>) | Dict(entries: seq<(Value, Value)>)

  /** An element of the step list; one that is no mapping is never touched. */
  datatype StepEntry = StepDict(fields: map<string, Value>) | NoDict(value: Value)

  datatype Item = Item(step: string, field: string, oldValue: Value, newValue: Value)

  predicate Hashable(v: Value) { !v.List? && !v.Dict? }

  // ----- equality

  datatype Canonical =
    | CanonText(text: string) | CanonNumber(number: real) | CanonNull
    | CanonList(items: seq<Canonical>) | CanonDict(entries: set<(Canonical, Canonical)>)

  function Canon(v: Value): Canonical {
    match v
    case Text(text) => CanonText(text)
    case Whole(whole) => CanonNumber(whole as real)
    case Decimal(decimal) => CanonNumber(decimal)
    case Bool(bit) => CanonNumber(if bit then 1.0 else 0.0)
    case Null => CanonNull
    case List(items) => CanonList(seq(|items|, i requires 0 <= i < |items| => Canon(items[i])))
    case Dict(entries) => CanonDict(set i | 0 <= i < |entries| :: (Canon(entries[i].0), Canon(entries[i].1)))
  }

  predicate Eq(a: Value, b: Value) { Canon(a) == Canon(b) }

  // ----- values rewritten by the five handlers

  function Swap(v: Value, a: Value, b: Value): Value { if Eq(v, a) then b else v }

  function PatchList(items: seq<Value>, a: Value, b: Value): (r: seq<Value>)
    ensures |r| == |items| && forall i :: 0 <= i < |items| ==> r[i] == Swap(items[i], a, b)
  {
    seq(|items|, i requires 0 <= i < |items| => Swap(items[i], a, b))
  }

  predicate HasKey(entries: seq<(Value, Value)>, k: Value) {
    exists i :: 0 <= i < |entries| && Eq(entries[i].0, k)
  }

  /** `d[k] = v`: a present key keeps its place, a new one goes to the end. */
  function SetKey(entries: seq<(Value, Value)>, k: Value, v: Value): (r: seq<(Value, Value)>)
    ensures HasKey(entries, k) ==> |r| == |entries| && forall i :: 0 <= i < |r| ==> r[i].0 == entries[i].0
    ensures !HasKey(entries, k) ==> r == entries + [(k, v)]
  {
    hide Canon;
    if entries == [] then [(k, v)]
    else if Eq(entries[0].0, k) then
      assert HasKey(entries, k);
      [(entries[0].0, v)] + entries[1..]
    else
      var head, rest := entries[0], entries[1..];
      assert HasKey(rest, k) <==> HasKey(entries, k) by {
        if i :| 0 <= i < |entries| && Eq(entries[i].0, k) { assert rest[i - 1] == entries[i]; }
        if i :| 0 <= i < |rest| && Eq(rest[i].0, k) { assert entries[i + 1] == rest[i]; }
      }
      [head] + SetKey(rest, k, v)
  }

  function Build(done: seq<(Value, Value)>, pairs: seq<(Value, Value)>): seq<(Value, Value)>
    decreases |pairs|
  {
    if pairs == [] then done else Build(SetKey(done, pairs[0].0, pairs[0].1), pairs[1..])
  }

  function Substituted(entries: seq<(Value, Value)>, a: Value, b: Value): (r: seq<(Value, Value)>)
    ensures |r| == |entries| && forall i :: 0 <= i < |r| ==>
      r[i] == (Swap(entries[i].0, a, b), Swap(entries[i].1, a, b))
  {
    seq(|entries|, i requires 0 <= i < |entries| => (Swap(entries[i].0, a, b), Swap(entries[i].1, a, b)))
  }

  /** Keys and values are rewritten; entries whose keys become equal are merged. */
  function PatchMapping(entries: seq<(Value, Value)>, a: Value, b: Value): seq<(Value, Value)> {
    Build([], Substituted(entries, a, b))
  }

  function Lookup(entries: seq<(Value, Value)>, k: Value): Value {
    if entries == [] then Null else if Eq(entries[0].0, k) then entries[0].1 else Lookup(entries[1..], k)
  }

  /** The first entry with the key. */
  ghost predicate FirstAt(entries: seq<(Value, Value)>, k: Value, i: nat) {
    i < |entries| && Eq(entries[i].0, k) && forall j :: 0 <= j < i ==> !Eq(entries[j].0, k)
  }

  const COLUMN := Text("column")

  function PatchAggregation(v: Value, a: Value, b: Value): Value {
    if v.Dict? && Eq(Lookup(v.entries, COLUMN), a) then Dict(SetKey(v.entries, COLUMN, b)) else v
  }

  function PatchAggregations(items: seq<Value>, a: Value, b: Value): (r: seq<Value>)
    ensures |r| == |items| && forall i :: 0 <= i < |items| ==> r[i] == PatchAggregation(items[i], a, b)
  {
    seq(|items|, i requires 0 <= i < |items| => PatchAggregation(items[i], a, b))
  }

  /** The new value of a field, from its current one; None is a rejected patch. */
  function PatchField(field: string, current: Option<Value>, a: Value, b: Value): Option<Value> {
    if field == "columns" || field == "group_by" then
      if current.Some? && current.value.List? then Some(List(PatchList(current.value.items, a, b))) else None
    else if field == "by" then
      if current.Some? && current.value.List? then Some(List(PatchList(current.value.items, a, b))) else Some(b)
    else if field == "mapping" then
      if current.Some? && current.value.Dict? && (HasKey(current.value.entries, a) ==> Hashable(b))
      then Some(Dict(PatchMapping(current.value.entries, a, b))) else None
    else if field == "aggregations" then
      if current.Some? && current.value.List? then Some(List(PatchAggregations(current.value.items, a, b))) else None
    else if current.Some? then Some(b) else None
  }

  // ----- the document

  predicate IsNamed(s: StepEntry, name: string) {
    s.StepDict? && "name" in s.fields && s.fields["name"] == Text(name)
  }

  /** The step a name stands for: the last one that bears it. */
  function Locate(steps: seq<StepEntry>, name: string): (r: Option<nat>)
    ensures r.Some? ==> r.value < |steps| && IsNamed(steps[r.value], name) && forall j :: r.value < j < |steps| ==>
      !IsNamed(steps[j], name)
    ensures r.None? ==> forall j :: 0 <= j < |steps| ==> !IsNamed(steps[j], name)
  {
    if steps == [] then None
    else if IsNamed(steps[|steps| - 1], name) then Some(|steps| - 1)
    else Locate(steps[..|steps| - 1], name)
  }

  function FieldAt(steps: seq<StepEntry>, i: nat, f: string): Option<Value> {
    if i < |steps| && steps[i].StepDict? && f in steps[i].fields then Some(steps[i].fields[f]) else None
  }

  function SetField(steps: seq<StepEntry>, i: nat, f: string, v: Value): seq<StepEntry>
    requires i < |steps| && steps[i].StepDict?
  {
    steps[i := StepDict(steps[i].fields[f := v])]
  }

  /** Names are looked up in the document as it was before the first item. */
  function ApplyItem(original: seq<StepEntry>, steps: seq<StepEntry>, item: Item): (r: Option<seq<StepEntry>>)
    requires SameSteps(original, steps)
    ensures r.Some? ==> SameSteps(original, r.value)
  {
    var at := Locate(original, item.step);
    if at.None? then None
    else
      var patched := PatchField(item.field, FieldAt(steps, at.value, item.field), item.oldValue, item.newValue);
      if patched.None? then None else Some(SetField(steps, at.value, item.field, patched.value))
  }

  predicate SameSteps(a: seq<StepEntry>, b: seq<StepEntry>) {
    |a| == |b| && forall i :: 0 <= i < |a| ==> (a[i].NoDict? ==> b[i] == a[i]) && (a[i].StepDict? ==> b[i].StepDict?)
  }

  function ApplyItems(original: seq<StepEntry>, steps: seq<StepEntry>, items: seq<Item>): (r: Option<seq<StepEntry>>)
    requires SameSteps(original, steps)
    ensures r.Some? ==> SameSteps(original, r.value)
    decreases |items|
  {
    if items == [] then Some(steps)
    else
      var next := ApplyItem(original, steps, items[0]);
      if next.None? then None else ApplyItems(original, next.value, items[1..])
  }

  function ApplyPatch(
    steps: seq<StepEntry>, items: seq<Item>): Option<seq<StepEntry>> { ApplyItems(steps, steps, items) }

  // ----- only the named fields change

  ghost predicate Targets(original: seq<StepEntry>, item: Item, i: nat, f: string) {
    Locate(original, item.step) == Some(i) && item.field == f
  }

  lemma ItemFacts(original: seq<StepEntry>, steps: seq<StepEntry>, item: Item, i: nat, f: string)
    requires SameSteps(original, steps) && ApplyItem(original, steps, item).Some?
    ensures FieldAt(ApplyItem(original, steps, item).value, i, f)
      == if Targets(original, item, i, f) then PatchField(f, FieldAt(steps, i, f), item.oldValue, item.newValue)
         else FieldAt(steps, i, f)
  {
    hide PatchField;
  }

  /** Every field that no item names is as before, and no other appears. */
  lemma {:induction false} OthersKept(
    original: seq<StepEntry>, steps: seq<StepEntry>, items: seq<Item>, i: nat, f: string)
    requires SameSteps(original, steps) && ApplyItems(original, steps, items).Some?
    requires forall n :: 0 <= n < |items| ==> !Targets(original, items[n], i, f)
    ensures FieldAt(ApplyItems(original, steps, items).value, i, f) == FieldAt(steps, i, f)
    decreases |items|
  {
    hide ApplyItem, Locate, FieldAt;
    if items != [] {
      ItemFacts(original, steps, items[0], i, f);
      var next := ApplyItem(original, steps, items[0]).value;
      assert forall n :: 0 <= n < |items[1..]| ==> items[1..][n] == items[n + 1];
      OthersKept(original, next, items[1..], i, f);
    }
  }

  // ----- patches on different fields

  ghost predicate Apart(original: seq<StepEntry>, items: seq<Item>) {
    forall m, n :: 0 <= m < n < |items| && items[m].field == items[n].field ==>
      Locate(original, items[m].step) != Locate(original, items[n].step) || Locate(original, items[n].step).None?
  }

  /** The item alone is accepted. */
  ghost predicate Accepted(steps: seq<StepEntry>, item: Item) { ApplyItem(steps, steps, item).Some? }

  /** The fields the items name are still those of the original. */
  ghost predicate Untouched(original: seq<StepEntry>, steps: seq<StepEntry>, items: seq<Item>) {
    forall n :: 0 <= n < |items| ==> Awaits(original, steps, items[n])
  }

  ghost predicate Awaits(original: seq<StepEntry>, steps: seq<StepEntry>, item: Item) {
    var at := Locate(original, item.step);
    at.Some? ==> FieldAt(steps, at.value, item.field) == FieldAt(original, at.value, item.field)
  }

  /** The item's field became what the item makes of the original's field. */
  ghost predicate Took(original: seq<StepEntry>, result: seq<StepEntry>, item: Item) {
    var at := Locate(original, item.step);
    && at.Some?
    && FieldAt(result, at.value, item.field)
      == PatchField(item.field, FieldAt(original, at.value, item.field), item.oldValue, item.newValue)
  }

  lemma HeadStep(original: seq<StepEntry>, steps: seq<StepEntry>, item: Item)
    requires SameSteps(original, steps) && Awaits(original, steps, item)
    ensures ApplyItem(original, steps, item).Some? <==> Accepted(original, item)
    ensures ApplyItem(original, steps, item).Some? ==> Took(original, ApplyItem(original, steps, item).value, item)
  {
    hide PatchField;
  }

  lemma StillAwaits(original: seq<StepEntry>, steps: seq<StepEntry>, items: seq<Item>)
    requires SameSteps(original, steps) && items != [] && Apart(original, items) && Untouched(original, steps, items)
    requires ApplyItem(original, steps, items[0]).Some?
    ensures Untouched(original, ApplyItem(original, steps, items[0]).value, items[1..]) && Apart(original, items[1..])
  {
    var next, rest := ApplyItem(original, steps, items[0]).value, items[1..];
    assert Locate(original, items[0].step).Some?;
    hide ApplyItem, FieldAt, PatchField;
    forall n | 0 <= n < |rest|
      ensures Awaits(original, next, rest[n])
    {
      assert rest[n] == items[n + 1] && Awaits(original, steps, items[n + 1]);
      var at := Locate(original, rest[n].step);
      if at.Some? {
        ItemFacts(original, steps, items[0], at.value, rest[n].field);
      }
    }
  }

  lemma {:induction false} TookStays(original: seq<StepEntry>, steps: seq<StepEntry>, items: seq<Item>, first: Item)
    requires SameSteps(original, steps) && Took(original, steps, first) && Apart(original, [first] + items)
    requires ApplyItems(original, steps, items).Some?
    ensures Took(original, ApplyItems(original, steps, items).value, first)
  {
    hide ApplyItems, FieldAt, PatchField, Locate;
    var all, at := [first] + items, Locate(original, first.step).value;
    forall n | 0 <= n < |items|
      ensures !Targets(original, items[n], at, first.field)
    {
      assert all[0] == first && all[n + 1] == items[n];
    }
    OthersKept(original, steps, items, at, first.field);
  }

  /** Items on different fields do not see each other: the patch is accepted exactly
      when each item alone is, and each field becomes what its item makes of it. */
  lemma {:induction false} InParallel(original: seq<StepEntry>, steps: seq<StepEntry>, items: seq<Item>)
    requires SameSteps(original, steps) && Apart(original, items) && Untouched(original, steps, items)
    ensures ApplyItems(original, steps, items).Some? <==> forall n :: 0 <= n < |items| ==> Accepted(original, items[n])
    ensures ApplyItems(original, steps, items).Some? ==>
      forall n :: 0 <= n < |items| ==> Took(original, ApplyItems(original, steps, items).value, items[n])
    decreases |items|
  {
    hide ApplyItem, FieldAt, PatchField, Apart, Accepted, Took, Awaits;
    if items != [] {
      var rest := items[1..];
      assert items == [items[0]] + rest;
      HeadStep(original, steps, items[0]);
      if ApplyItem(original, steps, items[0]).Some? {
        var next := ApplyItem(original, steps, items[0]).value;
        StillAwaits(original, steps, items);
        InParallel(original, next, rest);
        assert forall n :: 0 <= n < |rest| ==> rest[n] == items[n + 1];
        if ApplyItems(original, next, rest).Some? {
          TookStays(original, next, rest, items[0]);
        }
      }
    }
  }

  lemma SameFieldsSame(a: seq<StepEntry>, b: seq<StepEntry>, original: seq<StepEntry>)
    requires SameSteps(original, a) && SameSteps(original, b)
    requires forall i: nat, f :: FieldAt(a, i, f) == FieldAt(b, i, f)
    ensures a == b
  {
    forall i | 0 <= i < |a|
      ensures a[i] == b[i]
    {
      if original[i].StepDict? {
        forall f ensures f in a[i].fields <==> f in b[i].fields
          ensures f in a[i].fields ==> a[i].fields[f] == b[i].fields[f]
        {
          assert FieldAt(a, i, f) == FieldAt(b, i, f);
        }
        assert a[i].fields == b[i].fields;
      }
    }
  }

  lemma OriginalUntouched(steps: seq<StepEntry>, items: seq<Item>)
    ensures SameSteps(steps, steps) && Untouched(steps, steps, items)
  {
  }

  lemma SameField(steps: seq<StepEntry>, items: seq<Item>, other: seq<Item>, i: nat, f: string)
    requires Apart(steps, items) && Apart(steps, other) && (forall x :: x in items <==> x in other)
    requires ApplyPatch(steps, items).Some? && ApplyPatch(steps, other).Some?
    ensures FieldAt(ApplyPatch(steps, items).value, i, f) == FieldAt(ApplyPatch(steps, other).value, i, f)
  {
    hide ApplyItems, FieldAt, PatchField, Apart, Locate;
    OriginalUntouched(steps, items);
    OriginalUntouched(steps, other);
    InParallel(steps, steps, items);
    InParallel(steps, steps, other);
    if n :| 0 <= n < |items| && Targets(steps, items[n], i, f) {
      assert items[n] in other;
      var m :| 0 <= m < |other| && other[m] == items[n];
      assert Took(steps, ApplyPatch(steps, items).value, items[n])
        && Took(steps, ApplyPatch(steps, other).value, other[m]);
    } else {
      forall m | 0 <= m < |other| ensures !Targets(steps, other[m], i, f) {
        assert other[m] in items;
      }
      OthersKept(steps, steps, items, i, f);
      OthersKept(steps, steps, other, i, f);
    }
  }

  /** In whatever order items on different fields are given, the patch is accepted or
      rejected alike and leaves the same document. */
  lemma OrderDoesNotMatter(steps: seq<StepEntry>, items: seq<Item>, other: seq<Item>)
    requires Apart(steps, items) && Apart(steps, other) && (forall x :: x in items <==> x in other)
    ensures ApplyPatch(steps, items) == ApplyPatch(steps, other)
  {
    hide ApplyItems, FieldAt, PatchField, Apart, Locate, Accepted, Took;
    OriginalUntouched(steps, items);
    OriginalUntouched(steps, other);
    InParallel(steps, steps, items);
    InParallel(steps, steps, other);
    assert ApplyPatch(steps, items).Some? <==> ApplyPatch(steps, other).Some? by {
      assert forall n :: 0 <= n < |items| ==> items[n] in other;
      assert forall n :: 0 <= n < |other| ==> other[n] in items;
    }
    if ApplyPatch(steps, items).Some? {
      var a, b := ApplyPatch(steps, items).value, ApplyPatch(steps, other).value;
      forall i: nat, f ensures FieldAt(a, i, f) == FieldAt(b, i, f) { SameField(steps, items, other, i, f); }
      SameFieldsSame(a, b, steps);
    }
  }

  // ----- there and back

  /** Replacing `a` by `b` and then `b` by `a` leaves the value as it was: one that is
      equal to `a` has to be `a` itself, and none other may be equal to `b`. */
  predicate Restorable(x: Value, a: Value, b: Value) {
    (Eq(x, a) ==> x == a) && (Eq(x, b) ==> Eq(x, a))
  }

  lemma SwapBack(x: Value, a: Value, b: Value)
    ensures Swap(Swap(x, a, b), b, a) == x <==> Restorable(x, a, b)
  {
    hide Canon;
  }

  /** There and back restores a list exactly when each of its items is restorable; so it
      does whenever the new value was not in it and the old one is written in one way. */
  lemma ListRoundTrip(items: seq<Value>, a: Value, b: Value)
    ensures PatchList(PatchList(items, a, b), b, a) == items
      <==> forall i :: 0 <= i < |items| ==> Restorable(items[i], a, b)
  {
    hide Eq, Restorable, Swap;
    var back := PatchList(PatchList(items, a, b), b, a);
    forall i | 0 <= i < |items|
      ensures back[i] == items[i] <==> Restorable(items[i], a, b)
    {
      SwapBack(items[i], a, b);
    }
  }

  /** A true or a 1.0 in the list is replaced as a 1 would be, and comes back as a 1. */
  lemma TrueIsOne(x: Value)
    requires x == Bool(true) || x == Decimal(1.0)
    ensures var one, name := Whole(1), Text("x");
      && PatchList([x], one, name) == [name] && PatchList(PatchList([x], one, name), name, one) == [one]
      && !Restorable(x, one, name)
  {
    assert Canon(x) == Canon(Whole(1));
  }

  ghost predicate DistinctKeys(entries: seq<(Value, Value)>) {
    forall i, j :: 0 <= i < j < |entries| ==> !Eq(entries[i].0, entries[j].0)
  }

  /** Building a mapping loses an entry exactly when a key repeats. */
  lemma {:induction false} BuildFacts(done: seq<(Value, Value)>, pairs: seq<(Value, Value)>)
    requires DistinctKeys(done)
    ensures |Build(done, pairs)| <= |done| + |pairs|
    ensures |Build(done, pairs)| == |done| + |pairs| <==> DistinctKeys(done + pairs)
    ensures DistinctKeys(done + pairs) ==> Build(done, pairs) == done + pairs
    ensures DistinctKeys(Build(done, pairs))
    decreases |pairs|
  {
    hide Canon;
    var all := done + pairs;
    if pairs == [] {
      assert all == done;
    } else {
      var (k, v) := pairs[0];
      var next := SetKey(done, k, v);
      if HasKey(done, k) {
        var i :| 0 <= i < |done| && Eq(done[i].0, k);
        assert Eq(all[i].0, all[|done|].0);
        BuildFacts(next, pairs[1..]);
      } else {
        assert next == done + [(k, v)] && next + pairs[1..] == all;
        NewKey(done, k, v);
        BuildFacts(next, pairs[1..]);
      }
    }
  }

  lemma NewKey(done: seq<(Value, Value)>, k: Value, v: Value)
    requires DistinctKeys(done) && !HasKey(done, k)
    ensures DistinctKeys(done + [(k, v)])
  {
    hide Canon;
  }

  lemma PatchMappingFacts(entries: seq<(Value, Value)>, a: Value, b: Value)
    ensures |PatchMapping(entries, a, b)| <= |entries| && DistinctKeys(PatchMapping(entries, a, b))
    ensures |PatchMapping(entries, a, b)| == |entries| <==> DistinctKeys(Substituted(entries, a, b))
    ensures DistinctKeys(Substituted(entries, a, b)) ==> PatchMapping(entries, a, b) == Substituted(entries, a, b)
  {
    hide Build, Swap, Eq;
    var pairs := Substituted(entries, a, b);
    BuildFacts([], pairs);
    assert [] + pairs == pairs;
  }

  ghost predicate RestorableEntry(entry: (Value, Value), a: Value, b: Value) {
    Restorable(entry.0, a, b) && Restorable(entry.1, a, b)
  }

  /** The same for a mapping, keys and values alike. */
  lemma MappingRoundTrip(entries: seq<(Value, Value)>, a: Value, b: Value)
    requires DistinctKeys(entries)
    ensures PatchMapping(PatchMapping(entries, a, b), b, a) == entries
      <==> forall i :: 0 <= i < |entries| ==> RestorableEntry(entries[i], a, b)
  {
    hide PatchMapping, Eq, Restorable, Swap;
    var there := PatchMapping(entries, a, b);
    PatchMappingFacts(entries, a, b);
    PatchMappingFacts(there, b, a);
    var back := Substituted(Substituted(entries, a, b), b, a);
    forall i | 0 <= i < |entries|
      ensures back[i] == entries[i] <==> RestorableEntry(entries[i], a, b)
    {
      SwapBack(entries[i].0, a, b);
      SwapBack(entries[i].1, a, b);
    }
    if forall i :: 0 <= i < |entries| ==> RestorableEntry(entries[i], a, b) {
      NoClash(entries, a, b);
      assert back == entries;
    }
  }

  /** What the handler makes of a mapping field and back. */
  ghost predicate MappingRestored(entries: seq<(Value, Value)>, a: Value, b: Value) {
    var there := PatchField("mapping", Some(Dict(entries)), a, b);
    there.Some? && PatchField("mapping", there, b, a) == Some(Dict(entries))
  }

  /** The handler refuses to make a list or a mapping a key.  It restores a mapping, whose
      keys are hashable, exactly when it accepts the patch and every entry is restorable. */
  lemma MappingFieldRoundTrip(entries: seq<(Value, Value)>, a: Value, b: Value)
    requires DistinctKeys(entries) && forall i :: 0 <= i < |entries| ==> Hashable(entries[i].0)
    ensures MappingRestored(entries, a, b)
      <==> (HasKey(entries, a) ==> Hashable(b)) && forall i :: 0 <= i < |entries| ==> RestorableEntry(entries[i], a, b)
  {
    hide Eq, Restorable, PatchMapping, DistinctKeys, HasKey, Hashable, PatchField;
    MappingRoundTrip(entries, a, b);
    MappingHandled(entries, a, b);
    MappingHandled(PatchMapping(entries, a, b), b, a);
    if forall i :: 0 <= i < |entries| ==> RestorableEntry(entries[i], a, b) {
      if HasKey(PatchMapping(entries, a, b), b) {
        KeyBack(entries, a, b);
      }
    }
  }

  lemma MappingHandled(entries: seq<(Value, Value)>, a: Value, b: Value)
    ensures PatchField("mapping", Some(Dict(entries)), a, b)
      == if HasKey(entries, a) ==> Hashable(b) then Some(Dict(PatchMapping(entries, a, b))) else None
  {
    hide Eq, PatchMapping;
  }

  /** If the new value became a key, the old one was a key. */
  lemma KeyBack(entries: seq<(Value, Value)>, a: Value, b: Value)
    requires DistinctKeys(entries) && forall i :: 0 <= i < |entries| ==> RestorableEntry(entries[i], a, b)
    requires HasKey(PatchMapping(entries, a, b), b) && forall i :: 0 <= i < |entries| ==> Hashable(entries[i].0)
    ensures Hashable(a)
  {
    NoClash(entries, a, b);
    PatchMappingFacts(entries, a, b);
    hide PatchMapping, Canon, DistinctKeys;
    var there := Substituted(entries, a, b);
    var i :| 0 <= i < |there| && Eq(there[i].0, b);
    assert RestorableEntry(entries[i], a, b);
    assert Eq(entries[i].0, a);
    EqualHashable(entries[i].0, a);
  }

  lemma EqualHashable(x: Value, y: Value)
    requires Eq(x, y) && Hashable(x)
    ensures Hashable(y)
  {
  }

  lemma NoClash(entries: seq<(Value, Value)>, a: Value, b: Value)
    requires DistinctKeys(entries) && forall i :: 0 <= i < |entries| ==> RestorableEntry(entries[i], a, b)
    ensures DistinctKeys(Substituted(entries, a, b))
  {
    hide Canon;
    var there := Substituted(entries, a, b);
    forall i, j | 0 <= i < j < |there|
      ensures !Eq(there[i].0, there[j].0)
    {
      assert RestorableEntry(entries[i], a, b) && RestorableEntry(entries[j], a, b);
    }
  }

  lemma {:induction false} SetKeyFacts(entries: seq<(Value, Value)>, k: Value, v: Value, other: Value)
    ensures Lookup(SetKey(entries, k, v), other) == if Eq(other, k) then v else Lookup(entries, other)
    ensures HasKey(entries, k) ==> SetKey(SetKey(entries, k, v), k, Lookup(entries, k)) == entries
  {
    hide Canon;
    if entries != [] {
      var head, rest := entries[0], entries[1..];
      assert entries == [head] + rest;
      SetKeyFacts(rest, k, v, other);
      var there := SetKey(entries, k, v);
      if Eq(head.0, k) {
        assert there == [(head.0, v)] + rest && there[1..] == rest;
      } else {
        assert there == [head] + SetKey(rest, k, v) && there[1..] == SetKey(rest, k, v);
        if HasKey(entries, k) { KeyInRest(entries, k); }
      }
    } else {
      assert SetKey([], k, v)[1..] == [];
    }
  }

  lemma KeyInRest(entries: seq<(Value, Value)>, k: Value)
    requires HasKey(entries, k) && !Eq(entries[0].0, k)
    ensures HasKey(entries[1..], k)
  {
    hide Eq;
    var i :| 0 <= i < |entries| && Eq(entries[i].0, k);
    assert entries[1..][i - 1] == entries[i];
  }

  /** An aggregation is changed in its column only, and only when that was the old value. */
  lemma {:induction false} AggregationFacts(v: Value, a: Value, b: Value, other: Value)
    requires v.Dict?
    ensures PatchAggregation(v, a, b).Dict?
    ensures Lookup(PatchAggregation(v, a, b).entries, other)
      == if Eq(other, COLUMN) && Eq(Lookup(v.entries, COLUMN), a) then b else Lookup(v.entries, other)
  {
    hide Eq;
    SetKeyFacts(v.entries, COLUMN, b, other);
  }

  /** A missing column counts as null, and an aggregation that gains one is not restored. */
  ghost predicate RestorableAggregation(v: Value, a: Value, b: Value) {
    v.Dict? ==>
      var c := Lookup(v.entries, COLUMN);
      Restorable(c, a, b) && (Eq(c, a) ==> HasKey(v.entries, COLUMN))
  }

  lemma AggregationBack(v: Value, a: Value, b: Value)
    ensures PatchAggregation(PatchAggregation(v, a, b), b, a) == v <==> RestorableAggregation(v, a, b)
  {
    hide Canon, Lookup, SetKey, HasKey;
    if v.Dict? {
      var c, there := Lookup(v.entries, COLUMN), SetKey(v.entries, COLUMN, b);
      SetKeyFacts(v.entries, COLUMN, b, COLUMN);
      SetKeyFacts(v.entries, COLUMN, a, COLUMN);
      SetKeyFacts(there, COLUMN, a, COLUMN);
      SetKeyGrows(v.entries, COLUMN, b);
      SetKeyGrows(there, COLUMN, a);
    }
  }

  lemma {:induction false} SetKeyGrows(entries: seq<(Value, Value)>, k: Value, v: Value)
    ensures |SetKey(entries, k, v)| >= |entries|
    ensures !HasKey(entries, k) ==> |SetKey(entries, k, v)| > |entries|
  {
    hide Eq;
  }

  /** The same for aggregations, whose columns are the values replaced. */
  lemma AggregationRoundTrip(items: seq<Value>, a: Value, b: Value)
    ensures PatchAggregations(PatchAggregations(items, a, b), b, a) == items
      <==> forall i :: 0 <= i < |items| ==> RestorableAggregation(items[i], a, b)
  {
    hide PatchAggregation, RestorableAggregation;
    var back := PatchAggregations(PatchAggregations(items, a, b), b, a);
    forall i | 0 <= i < |items|
      ensures back[i] == items[i] <==> RestorableAggregation(items[i], a, b)
    {
      AggregationBack(items[i], a, b);
    }
  }

  // ----- what one item does to a field, field by field

  /** Two values are equal when Python says so. */
  ghost predicate PythonEqual(x: Value, y: Value) {
    || (x.Null? && y.Null?)
    || (x.Text? && y.Text? && x.text == y.text)
    || (NumberOf(x).Some? && NumberOf(x) == NumberOf(y))
    || (x.List? && y.List? && |x.items| == |y.items| && forall i :: 0 <= i < |x.items| ==> Eq(x.items[i], y.items[i]))
    || (x.Dict? && y.Dict? && EntriesWithin(x.entries, y.entries) && EntriesWithin(y.entries, x.entries))
  }

  ghost function NumberOf(v: Value): Option<real> {
    match v
    case Whole(whole) => Some(whole as real)
    case Decimal(decimal) => Some(decimal)
    case Bool(bit) => Some(if bit then 1.0 else 0.0)
    case _ => None
  }

  ghost predicate HasEntry(entries: seq<(Value, Value)>, e: (Value, Value)) {
    exists j :: 0 <= j < |entries| && Eq(entries[j].0, e.0) && Eq(entries[j].1, e.1)
  }

  ghost predicate EntriesWithin(a: seq<(Value, Value)>, b: seq<(Value, Value)>) {
    forall i :: 0 <= i < |a| ==> HasEntry(b, a[i])
  }

  ghost function CanonEntries(entries: seq<(Value, Value)>): set<(Canonical, Canonical)> {
    set i | 0 <= i < |entries| :: (Canon(entries[i].0), Canon(entries[i].1))
  }

  lemma WithinIsSubset(a: seq<(Value, Value)>, b: seq<(Value, Value)>)
    ensures EntriesWithin(a, b) <==> CanonEntries(a) <= CanonEntries(b)
  {
    hide Canon;
    if CanonEntries(a) <= CanonEntries(b) {
      forall i | 0 <= i < |a|
        ensures HasEntry(b, a[i])
      {
        assert (Canon(a[i].0), Canon(a[i].1)) in CanonEntries(a);
        var j :| 0 <= j < |b| && (Canon(b[j].0), Canon(b[j].1)) == (Canon(a[i].0), Canon(a[i].1));
      }
    }
    if EntriesWithin(a, b) {
      forall e | e in CanonEntries(a)
        ensures e in CanonEntries(b)
      {
        var i :| 0 <= i < |a| && (Canon(a[i].0), Canon(a[i].1)) == e;
        assert HasEntry(b, a[i]);
        var j :| 0 <= j < |b| && Eq(b[j].0, a[i].0) && Eq(b[j].1, a[i].1);
        assert (Canon(b[j].0), Canon(b[j].1)) in CanonEntries(b);
      }
    }
  }

  lemma ListsEqual(x: seq<Value>, y: seq<Value>)
    ensures Eq(List(x), List(y)) <==> |x| == |y| && forall i :: 0 <= i < |x| ==> Eq(x[i], y[i])
  {
    var a, b := Canon(List(x)).items, Canon(List(y)).items;
    assert forall i :: 0 <= i < |x| ==> a[i] == Canon(x[i]);
    assert forall i :: 0 <= i < |y| ==> b[i] == Canon(y[i]);
  }

  /** The comparison of canonical forms is Python's equality: numbers and booleans by
      value, lists item by item, mappings by their entries in any order. */
  lemma EqIsPythons(x: Value, y: Value)
    ensures Eq(x, y) <==> PythonEqual(x, y)
  {
    if x.List? && y.List? {
      ListsEqual(x.items, y.items);
    } else if x.Dict? && y.Dict? {
      WithinIsSubset(x.entries, y.entries);
      WithinIsSubset(y.entries, x.entries);
      assert Canon(x) == CanonDict(CanonEntries(x.entries)) && Canon(y) == CanonDict(CanonEntries(y.entries));
    }
  }

  /** The new list has the old one's items, those equal to `a` replaced by `b`. */
  ghost predicate ListReplaced(was: seq<Value>, now: seq<Value>, a: Value, b: Value) {
    |now| == |was| && forall i :: 0 <= i < |was| ==> now[i] == if Eq(was[i], a) then b else was[i]
  }

  /** The same for the keys and values of a mapping's entries. */
  ghost predicate PairsReplaced(
    was: seq<(Value, Value)>, now: seq<(Value, Value)>, a: Value, b: Value)
  {
    && |now| == |was|
    && forall i :: 0 <= i < |was| ==>
         && now[i].0 == (if Eq(was[i].0, a) then b else was[i].0)
         && now[i].1 == (if Eq(was[i].1, a) then b else was[i].1)
  }

  /** `v` is what the last of the pairs with the key says, or null without one. */
  ghost predicate LastSays(pairs: seq<(Value, Value)>, k: Value, v: Value) {
    if HasKey(pairs, k) then
      exists i :: 0 <= i < |pairs| && Eq(pairs[i].0, k) && v == pairs[i].1
        && forall j :: i < j < |pairs| ==> !Eq(pairs[j].0, k)
    else v == Null
  }

  /** A mapping rebuilt from the pairs: their keys, each with the value given last; the
      pairs themselves when their keys differ. */
  ghost predicate RebuiltFrom(pairs: seq<(Value, Value)>, now: seq<(Value, Value)>) {
    && DistinctKeys(now)
    && (forall k :: HasKey(now, k) <==> HasKey(pairs, k))
    && (forall k :: LastSays(pairs, k, Lookup(now, k)))
    && (DistinctKeys(pairs) ==> now == pairs)
  }

  /** The entry of the key holds `v` now, and nothing else changed; a new key is added. */
  ghost predicate EntrySet(was: seq<(Value, Value)>, now: seq<(Value, Value)>, k: Value, v: Value) {
    if HasKey(was, k) then exists i: nat :: FirstAt(was, k, i) && now == was[i := (was[i].0, v)]
    else now == was + [(k, v)]
  }

  /** The column of an aggregation is that of its first entry under that name, or null. */
  ghost predicate HasColumn(v: Value, c: Value) {
    v.Dict? &&
    if HasKey(v.entries, Text("column")) then
      exists i: nat :: FirstAt(v.entries, Text("column"), i) && Eq(v.entries[i].1, c)
    else Eq(Null, c)
  }

  ghost predicate AggregationReplaced(was: Value, now: Value, a: Value, b: Value) {
    if HasColumn(was, a) then now.Dict? && EntrySet(was.entries, now.entries, Text("column"), b) else now == was
  }

  /** When an item is accepted for a field that holds `current`. */
  ghost predicate Takes(field: string, current: Option<Value>, a: Value, b: Value) {
    match field
    case "columns" => current.Some? && current.value.List?
    case "group_by" => current.Some? && current.value.List?
    case "aggregations" => current.Some? && current.value.List?
    case "mapping" =>
      current.Some? && current.value.Dict? && (HasKey(current.value.entries, a) ==> !b.List? && !b.Dict?)
    case "by" => true
    case _ => current.Some?
  }

  /** What an accepted item makes of the field. */
  ghost predicate Becomes(field: string, current: Option<Value>, a: Value, b: Value, now: Value)
    requires Takes(field, current, a, b)
  {
    match field
    case "columns" => now.List? && ListReplaced(current.value.items, now.items, a, b)
    case "group_by" => now.List? && ListReplaced(current.value.items, now.items, a, b)
    case "aggregations" =>
      && now.List? && |now.items| == |current.value.items|
      && forall i :: 0 <= i < |now.items| ==> AggregationReplaced(current.value.items[i], now.items[i], a, b)
    case "mapping" =>
      now.Dict? && exists pairs :: PairsReplaced(current.value.entries, pairs, a, b) && RebuiltFrom(pairs, now.entries)
    case "by" =>
      if current.Some? && current.value.List? then now.List? && ListReplaced(current.value.items, now.items, a, b)
      else now == b
    case _ => now == b
  }

  lemma {:induction false} SetIsEntrySet(entries: seq<(Value, Value)>, k: Value, v: Value)
    ensures EntrySet(entries, SetKey(entries, k, v), k, v)
  {
    hide Eq, EntrySet, HasKey;
    if entries == [] {
      assert EntrySet([], [(k, v)], k, v) by { SetInEmpty(k, v); }
    } else if Eq(entries[0].0, k) {
      SetAtHead(entries, k, v);
    } else {
      SetIsEntrySet(entries[1..], k, v);
      SetBehindHead(entries, k, v, SetKey(entries[1..], k, v));
    }
  }

  lemma SetInEmpty(k: Value, v: Value)
    ensures EntrySet([], [(k, v)], k, v)
  {
    hide Eq;
  }

  lemma SetAtHead(entries: seq<(Value, Value)>, k: Value, v: Value)
    requires entries != [] && Eq(entries[0].0, k)
    ensures EntrySet(entries, [(entries[0].0, v)] + entries[1..], k, v)
  {
    hide Eq;
    assert FirstAt(entries, k, 0);
    assert [(entries[0].0, v)] + entries[1..] == entries[0 := (entries[0].0, v)];
  }

  lemma SetBehindHead(entries: seq<(Value, Value)>, k: Value, v: Value, now: seq<(Value, Value)>)
    requires entries != [] && !Eq(entries[0].0, k) && EntrySet(entries[1..], now, k, v)
    ensures EntrySet(entries, [entries[0]] + now, k, v)
  {
    hide Eq;
    var rest := entries[1..];
    if HasKey(entries, k) {
      KeyInRest(entries, k);
      var i: nat :| FirstAt(rest, k, i) && now == rest[i := (rest[i].0, v)];
      assert forall j :: 0 < j <= i ==> entries[j] == rest[j - 1];
      assert FirstAt(entries, k, i + 1);
      assert [entries[0]] + now == entries[i + 1 := (entries[i + 1].0, v)];
    } else {
      forall j | 0 <= j < |rest|
        ensures !Eq(rest[j].0, k)
      {
        assert rest[j] == entries[j + 1];
      }
      assert [entries[0]] + (rest + [(k, v)]) == entries + [(k, v)];
    }
  }

  lemma FirstInRest(entries: seq<(Value, Value)>, k: Value, i: nat)
    requires entries != [] && !Eq(entries[0].0, k)
    ensures FirstAt(entries, k, i) <==> i > 0 && FirstAt(entries[1..], k, i - 1)
    ensures FirstAt(entries, k, i) ==> i < |entries| && entries[i] == entries[1..][i - 1]
  {
    hide Eq;
    var rest := entries[1..];
    assert forall j :: 0 < j < |entries| ==> entries[j] == rest[j - 1];
    if i > 0 && FirstAt(rest, k, i - 1) {
      forall j | 0 < j < i
        ensures !Eq(entries[j].0, k)
      {
        assert entries[j] == rest[j - 1];
      }
    }
    if FirstAt(entries, k, i) {
      assert forall j :: 0 <= j < i - 1 ==> rest[j] == entries[j + 1];
    }
  }

  lemma {:induction false} LookupIsFirst(entries: seq<(Value, Value)>, k: Value)
    ensures !HasKey(entries, k) ==> Lookup(entries, k) == Null
    ensures forall i: nat :: FirstAt(entries, k, i) ==> Lookup(entries, k) == entries[i].1
    ensures HasKey(entries, k) ==> exists i: nat :: FirstAt(entries, k, i)
  {
    hide Eq, FirstAt, HasKey;
    if entries == [] {
      NoKey(k);
      forall i: nat { NoFirst(k, i); }
    } else {
      HeadOrRest(entries, k);
      if Eq(entries[0].0, k) {
        forall i: nat { FirstAtHead(entries, k, i); }
        assert FirstAt(entries, k, 0);
      } else {
        LookupIsFirst(entries[1..], k);
        forall i: nat | FirstAt(entries, k, i)
          ensures i < |entries| && Lookup(entries, k) == entries[i].1
        {
          FirstInRest(entries, k, i);
        }
        if HasKey(entries, k) {
          var i: nat :| FirstAt(entries[1..], k, i);
          FirstInRest(entries, k, i + 1);
          assert FirstAt(entries, k, i + 1);
        }
      }
    }
  }

  lemma NoFirst(k: Value, i: nat)
    ensures !FirstAt([], k, i)
  {
  }

  lemma FirstAtHead(entries: seq<(Value, Value)>, k: Value, i: nat)
    requires entries != [] && Eq(entries[0].0, k)
    ensures FirstAt(entries, k, i) <==> i == 0
  {
    hide Eq;
  }

  lemma AggregationIsReplaced(v: Value, a: Value, b: Value)
    ensures AggregationReplaced(v, PatchAggregation(v, a, b), a, b)
  {
    hide Canon, Lookup, SetKey, EntrySet, HasKey, FirstAt;
    if v.Dict? {
      LookupIsFirst(v.entries, COLUMN);
      SetIsEntrySet(v.entries, COLUMN, b);
    }
  }

  lemma {:induction false} BuildLooksUp(done: seq<(Value, Value)>, pairs: seq<(Value, Value)>, k: Value)
    ensures HasKey(Build(done, pairs), k) <==> HasKey(done, k) || HasKey(pairs, k)
    ensures if HasKey(pairs, k) then LastSays(pairs, k, Lookup(Build(done, pairs), k))
            else Lookup(Build(done, pairs), k) == Lookup(done, k)
    decreases |pairs|
  {
    hide Canon, Lookup, SetKey, HasKey, LastSays;
    if pairs != [] {
      var key, v, rest := pairs[0].0, pairs[0].1, pairs[1..];
      BuildLooksUp(SetKey(done, key, v), rest, k);
      SetKeyFacts(done, key, v, k);
      SetHasKey(done, key, v, k);
      HeadOrRest(pairs, k);
      if HasKey(rest, k) {
        LastInRest(pairs, k, Lookup(Build(done, pairs), k));
      } else if Eq(key, k) {
        LastAtHead(pairs, k);
      }
    } else {
      NoKey(k);
    }
  }

  lemma HeadOrRest(pairs: seq<(Value, Value)>, k: Value)
    requires pairs != []
    ensures HasKey(pairs, k) <==> Eq(pairs[0].0, k) || HasKey(pairs[1..], k)
  {
    hide Eq;
    var rest := pairs[1..];
    assert forall j :: 0 < j < |pairs| ==> pairs[j] == rest[j - 1];
    if j :| 0 <= j < |rest| && Eq(rest[j].0, k) { assert Eq(pairs[j + 1].0, k); }
  }

  lemma LastAtHead(pairs: seq<(Value, Value)>, k: Value)
    requires pairs != [] && Eq(pairs[0].0, k) && !HasKey(pairs[1..], k)
    ensures LastSays(pairs, k, pairs[0].1)
  {
    hide Eq;
    var rest := pairs[1..];
    forall j | 0 < j < |pairs|
      ensures !Eq(pairs[j].0, k)
    {
      assert pairs[j] == rest[j - 1];
    }
  }

  lemma LastInRest(pairs: seq<(Value, Value)>, k: Value, v: Value)
    requires pairs != [] && HasKey(pairs[1..], k) && LastSays(pairs[1..], k, v)
    ensures LastSays(pairs, k, v)
  {
    hide Canon;
    var rest := pairs[1..];
    var i :| 0 <= i < |rest| && Eq(rest[i].0, k) && v == rest[i].1 && forall j :: i < j < |rest| ==> !Eq(rest[j].0, k);
    assert forall j :: 0 < j < |pairs| ==> pairs[j] == rest[j - 1];
    assert Eq(pairs[i + 1].0, k);
  }

  lemma {:induction false} SetHasKey(entries: seq<(Value, Value)>, k: Value, v: Value, other: Value)
    ensures HasKey(SetKey(entries, k, v), other) <==> HasKey(entries, other) || Eq(k, other)
  {
    hide Canon;
    var now := SetKey(entries, k, v);
    SetIsEntrySet(entries, k, v);
    if HasKey(entries, k) {
      var i: nat :| FirstAt(entries, k, i) && now == entries[i := (entries[i].0, v)];
      assert Eq(now[i].0, k);
      if j :| 0 <= j < |entries| && Eq(entries[j].0, other) { assert Eq(now[j].0, other); }
      if j :| 0 <= j < |now| && Eq(now[j].0, other) { assert Eq(entries[j].0, other); }
    } else {
      assert now[|entries|] == (k, v);
      if j :| 0 <= j < |entries| && Eq(entries[j].0, other) { assert Eq(now[j].0, other); }
    }
  }

  lemma MappingIsRebuilt(entries: seq<(Value, Value)>, a: Value, b: Value)
    ensures exists pairs :: PairsReplaced(entries, pairs, a, b) && RebuiltFrom(pairs, PatchMapping(entries, a, b))
  {
    hide Canon, Build, Lookup, HasKey;
    var pairs := Substituted(entries, a, b);
    PatchMappingFacts(entries, a, b);
    var now := PatchMapping(entries, a, b);
    forall k
      ensures HasKey(now, k) <==> HasKey(pairs, k)
      ensures LastSays(pairs, k, Lookup(now, k))
    {
      BuildLooksUp([], pairs, k);
      NoKey(k);
    }
    assert PairsReplaced(entries, pairs, a, b) && RebuiltFrom(pairs, PatchMapping(entries, a, b));
  }

  lemma {:induction false} NoKey(k: Value)
    ensures !HasKey([], k) && Lookup([], k) == Null
  {
  }

  ghost predicate Handled(field: string, current: Option<Value>, a: Value, b: Value) {
    var now := PatchField(field, current, a, b);
    (now.Some? <==> Takes(field, current, a, b)) && (now.Some? ==> Becomes(field, current, a, b, now.value))
  }

  lemma ListHandled(field: string, current: Option<Value>, a: Value, b: Value)
    requires field == "columns" || field == "group_by"
    ensures Handled(field, current, a, b)
  {
    hide Eq, HasKey, PatchMapping, PatchAggregation, AggregationReplaced, PairsReplaced, RebuiltFrom;
  }

  lemma SortHandled(current: Option<Value>, a: Value, b: Value)
    ensures Handled("by", current, a, b)
  {
    hide Eq, HasKey, PatchMapping, PatchAggregation, AggregationReplaced, PairsReplaced, RebuiltFrom;
  }

  lemma AggregationsHandled(current: Option<Value>, a: Value, b: Value)
    ensures Handled("aggregations", current, a, b)
  {
    hide Eq, HasKey, PatchMapping, PatchAggregation, AggregationReplaced, PairsReplaced, RebuiltFrom;
    if current.Some? && current.value.List? {
      forall i | 0 <= i < |current.value.items| {
        AggregationIsReplaced(current.value.items[i], a, b);
      }
    }
  }

  lemma MappingFieldHandled(current: Option<Value>, a: Value, b: Value)
    ensures Handled("mapping", current, a, b)
  {
    hide Eq, HasKey, PatchMapping, PatchAggregation, AggregationReplaced, PairsReplaced, RebuiltFrom;
    if current.Some? && current.value.Dict? {
      MappingIsRebuilt(current.value.entries, a, b);
    }
  }

  lemma ScalarHandled(field: string, current: Option<Value>, a: Value, b: Value)
    requires field !in ["columns", "group_by", "aggregations", "mapping", "by"]
    ensures Handled(field, current, a, b)
  {
    hide Eq, HasKey, PatchMapping, PatchAggregation, AggregationReplaced, PairsReplaced, RebuiltFrom;
    var names := ["columns", "group_by", "aggregations", "mapping", "by"];
    assert field != names[0] && field != names[1] && field != names[2] && field != names[3] && field != names[4];
  }

  /** The dispatch, told by the field's name. */
  lemma FieldBecomes(field: string, current: Option<Value>, a: Value, b: Value)
    ensures PatchField(field, current, a, b).Some? <==> Takes(field, current, a, b)
    ensures Takes(field, current, a, b) ==> Becomes(field, current, a, b, PatchField(field, current, a, b).value)
  {
    hide PatchField, Takes, Becomes;
    if field == "columns" || field == "group_by" {
      ListHandled(field, current, a, b);
    } else if field == "by" {
      SortHandled(current, a, b);
    } else if field == "aggregations" {
      AggregationsHandled(current, a, b);
    } else if field == "mapping" {
      MappingFieldHandled(current, a, b);
    } else {
      ScalarHandled(field, current, a, b);
    }
  }

  /** What one item makes of the document: rejected exactly when no step had the name
      before the patch or its field does not take the item; otherwise that field becomes
      what its name says, and every other is as before. */
  ghost predicate OneItem(original: seq<StepEntry>, steps: seq<StepEntry>, item: Item, r: Option<seq<StepEntry>>) {
    var at := Locate(original, item.step);
    if at.None? then r.None?
    else
      var current := FieldAt(steps, at.value, item.field);
      && (r.Some? <==> Takes(item.field, current, item.oldValue, item.newValue))
      && (r.Some? ==>
            && SameSteps(steps, r.value)
            && (forall i: nat, f :: (i, f) != (at.value, item.field) ==> FieldAt(r.value, i, f) == FieldAt(steps, i, f))
            && FieldAt(r.value, at.value, item.field).Some?
            && Becomes(item.field, current, item.oldValue, item.newValue,
                       FieldAt(r.value, at.value, item.field).value))
  }

  lemma OneItemMeans(original: seq<StepEntry>, steps: seq<StepEntry>, item: Item)
    requires SameSteps(original, steps)
    ensures OneItem(original, steps, item, ApplyItem(original, steps, item))
  {
    hide PatchField, Takes, Becomes, Locate;
    var at := Locate(original, item.step);
    if at.Some? {
      FieldBecomes(item.field, FieldAt(steps, at.value, item.field), item.oldValue, item.newValue);
    }
  }

  /** What a patch makes of the document: its items take effect one after another, each on
      what those before it left, until one is rejected and the whole patch with it. */
  ghost predicate Patched(
    original: seq<StepEntry>, steps: seq<StepEntry>, items: seq<Item>, r: Option<seq<StepEntry>>)
    decreases |items|
  {
    if items == [] then r == Some(steps)
    else exists next :: OneItem(original, steps, items[0], next)
           && if next.None? then r.None? else Patched(original, next.value, items[1..], r)
  }

  lemma {:induction false} PatchedItems(original: seq<StepEntry>, steps: seq<StepEntry>, items: seq<Item>)
    requires SameSteps(original, steps)
    ensures Patched(original, steps, items, ApplyItems(original, steps, items))
    decreases |items|
  {
    hide ApplyItem, OneItem;
    if items != [] {
      var next := ApplyItem(original, steps, items[0]);
      OneItemMeans(original, steps, items[0]);
      if next.Some? {
        PatchedItems(original, next.value, items[1..]);
      }
    }
  }

  lemma AloneIsItem(steps: seq<StepEntry>, item: Item)
    ensures ApplyPatch(steps, [item]) == ApplyItem(steps, steps, item)
  {
    hide ApplyItem;
    assert [item][1..] == [];
    var next := ApplyItem(steps, steps, item);
    if next.Some? {
      assert ApplyItems(steps, next.value, []) == next;
    }
  }

  // ----- there and back on the document

  /** The item and then its inverse are accepted and leave the document as it was. */
  ghost predicate Undone(steps: seq<StepEntry>, item: Item) {
    var there := ApplyPatch(steps, [item]);
    && there.Some?
    && ApplyPatch(there.value, [Item(item.step, item.field, item.newValue, item.oldValue)]) == Some(steps)
  }

  /** A mapping as a document has it: distinct, hashable keys. */
  ghost predicate GoodMapping(v: Value) {
    v.Dict? ==> DistinctKeys(v.entries) && forall i :: 0 <= i < |v.entries| ==> Hashable(v.entries[i].0)
  }

  /** When replacing and replacing back restores what a field of a step called `step` holds. */
  ghost predicate FieldRestorable(field: string, step: string, current: Value, a: Value, b: Value) {
    match field
    case "columns" => AllRestorable(current, a, b)
    case "group_by" => AllRestorable(current, a, b)
    case "aggregations" => AggregationsRestorable(current, a, b)
    case "mapping" => EntriesRestorable(current, a, b)
    case "by" => if current.List? then AllRestorable(current, a, b) else current == a && !b.List?
    case "name" => current == a && (a == Text(step) ==> b == a)
    case _ => current == a
  }

  ghost predicate AggregationsRestorable(current: Value, a: Value, b: Value) {
    current.List? && forall i :: 0 <= i < |current.items| ==> RestorableAggregation(current.items[i], a, b)
  }

  ghost predicate EntriesRestorable(current: Value, a: Value, b: Value) {
    && current.Dict? && (HasKey(current.entries, a) ==> Hashable(b))
    && forall i :: 0 <= i < |current.entries| ==> RestorableEntry(current.entries[i], a, b)
  }

  ghost predicate AllRestorable(current: Value, a: Value, b: Value) {
    current.List? && forall i :: 0 <= i < |current.items| ==> Restorable(current.items[i], a, b)
  }

  ghost predicate FieldBack(field: string, current: Value, a: Value, b: Value) {
    var there := PatchField(field, Some(current), a, b);
    there.Some? && PatchField(field, there, b, a) == Some(current)
  }

  lemma ListBack(items: seq<Value>, a: Value, b: Value)
    ensures List(PatchList(PatchList(items, a, b), b, a)) == List(items) <==> AllRestorable(List(items), a, b)
  {
    hide Restorable, Swap;
    ListRoundTrip(items, a, b);
  }

  lemma ListFieldBack(field: string, current: Value, a: Value, b: Value)
    requires field == "columns" || field == "group_by" || (field == "by" && current.List?)
    ensures FieldBack(field, current, a, b) <==> AllRestorable(current, a, b)
  {
    hide Eq, PatchMapping, PatchAggregations, PatchList, AllRestorable, HasKey;
    if current.List? {
      ListBack(current.items, a, b);
    } else {
      NotAll(current, a, b);
    }
  }

  lemma NotAll(current: Value, a: Value, b: Value)
    requires !current.List?
    ensures !AllRestorable(current, a, b)
  {
  }

  lemma AggregationsBack(current: Value, a: Value, b: Value)
    ensures FieldBack("aggregations", current, a, b) <==> AggregationsRestorable(current, a, b)
  {
    hide Eq, PatchMapping, PatchAggregations, PatchList, RestorableAggregation, HasKey;
    if current.List? {
      AggregationRoundTrip(current.items, a, b);
    }
  }

  lemma MappingBack(current: Value, a: Value, b: Value)
    requires GoodMapping(current)
    ensures FieldBack("mapping", current, a, b) <==> EntriesRestorable(current, a, b)
  {
    hide Eq, PatchMapping, PatchAggregations, PatchList, RestorableEntry, HasKey, DistinctKeys, Hashable;
    if current.Dict? {
      MappingFieldRoundTrip(current.entries, a, b);
    }
  }

  /** A sort field that held no list is not restored if the new value is one. */
  lemma SortBack(current: Value, a: Value, b: Value)
    requires !current.List?
    ensures FieldBack("by", current, a, b) <==> current == a && !b.List?
  {
    hide Eq, PatchMapping, PatchAggregations, PatchList, HasKey;
  }

  lemma ScalarBack(field: string, current: Value, a: Value, b: Value)
    requires field !in ["columns", "group_by", "aggregations", "mapping", "by"]
    ensures FieldBack(field, current, a, b) <==> current == a
  {
    hide Eq, PatchMapping, PatchAggregations, PatchList, HasKey;
    assert "columns" in ["columns", "group_by", "aggregations", "mapping", "by"];
  }

  lemma ListFieldRestorable(field: string, step: string, current: Value, a: Value, b: Value)
    requires field == "columns" || field == "group_by" || (field == "by" && current.List?)
    ensures FieldRestorable(field, step, current, a, b) <==> AllRestorable(current, a, b)
  {
    hide AllRestorable, AggregationsRestorable, EntriesRestorable;
  }

  lemma ScalarRestorable(field: string, step: string, current: Value, a: Value, b: Value)
    requires field !in ["columns", "group_by", "aggregations", "mapping", "by", "name"]
    ensures FieldRestorable(field, step, current, a, b) <==> current == a
  {
    hide AllRestorable, AggregationsRestorable, EntriesRestorable;
    var names := ["columns", "group_by", "aggregations", "mapping", "by", "name"];
    assert forall i :: 0 <= i < 6 ==> field != names[i];
    assert field != names[0] && field != names[1] && field != names[2] && field != names[3] && field != names[4]
      && field != names[5];
  }

  lemma OtherRestorable(step: string, current: Value, a: Value, b: Value)
    ensures FieldRestorable("aggregations", step, current, a, b) <==> AggregationsRestorable(current, a, b)
    ensures FieldRestorable("mapping", step, current, a, b) <==> EntriesRestorable(current, a, b)
    ensures !current.List? ==> (FieldRestorable("by", step, current, a, b) <==> current == a && !b.List?)
  {
    hide AllRestorable, AggregationsRestorable, EntriesRestorable;
  }

  lemma FieldBackExactly(field: string, step: string, current: Value, a: Value, b: Value)
    requires GoodMapping(current) && field != "name"
    ensures FieldBack(field, current, a, b) <==> FieldRestorable(field, step, current, a, b)
  {
    hide FieldBack, FieldRestorable, AllRestorable, GoodMapping, AggregationsRestorable, EntriesRestorable;
    OtherRestorable(step, current, a, b);
    if field == "columns" || field == "group_by" || (field == "by" && current.List?) {
      ListFieldBack(field, current, a, b);
      ListFieldRestorable(field, step, current, a, b);
    } else if field == "aggregations" {
      AggregationsBack(current, a, b);
    } else if field == "mapping" {
      MappingBack(current, a, b);
    } else if field == "by" {
      SortBack(current, a, b);
    } else {
      ScalarBack(field, current, a, b);
      ScalarRestorable(field, step, current, a, b);
    }
  }

  lemma {:induction false} LocateKept(steps: seq<StepEntry>, at: nat, field: string, v: Value, name: string)
    requires at < |steps| && steps[at].StepDict? && field != "name"
    ensures Locate(SetField(steps, at, field, v), name) == Locate(steps, name)
  {
    hide Locate;
    var now := SetField(steps, at, field, v);
    assert forall j :: 0 <= j < |steps| ==> (IsNamed(now[j], name) <==> IsNamed(steps[j], name));
    LocateIsLast(steps, name);
    LocateIsLast(now, name);
  }

  ghost predicate BearsName(s: StepEntry, name: string) {
    s.StepDict? && "name" in s.fields && s.fields["name"].Text? && s.fields["name"].text == name
  }

  /** A name stands for the last step that bears it. */
  lemma {:induction false} LocateIsLast(steps: seq<StepEntry>, name: string)
    ensures forall i: nat :: Locate(steps, name) == Some(i) <==>
      i < |steps| && BearsName(steps[i], name) && forall j :: i < j < |steps| ==> !BearsName(steps[j], name)
  {
  }

  lemma SetTwice(steps: seq<StepEntry>, at: nat, field: string, v: Value, w: Value)
    requires at < |steps| && steps[at].StepDict?
    ensures SetField(SetField(steps, at, field, v), at, field, w) == steps <==> FieldAt(steps, at, field) == Some(w)
  {
    var once := SetField(steps, at, field, v);
    var now := SetField(once, at, field, w);
    assert now[at].fields == steps[at].fields[field := w];
    if FieldAt(steps, at, field) == Some(w) {
      assert steps[at].fields[field := w] == steps[at].fields;
      assert now == steps;
    }
  }

  /** A step whose name was patched is found again under the old one only if nothing changed. */
  lemma {:induction false} NameUndone(steps: seq<StepEntry>, item: Item, at: nat)
    requires item.field == "name" && Locate(steps, item.step) == Some(at)
    ensures Undone(steps, item) <==> item.oldValue == item.newValue == Text(item.step)
  {
    AloneIsItem(steps, item);
    var there := SetField(steps, at, "name", item.newValue);
    var back := Item(item.step, "name", item.newValue, item.oldValue);
    AloneIsItem(there, back);
    hide Locate;
    assert ApplyPatch(steps, [item]) == Some(there);
    if item.newValue == Text(item.step) {
      assert there[at].fields == steps[at].fields;
      assert there == steps;
      SetTwice(steps, at, "name", item.newValue, item.oldValue);
    } else {
      assert ApplyPatch(there, [back]) != Some(steps);
    }
  }

  /** An item is undone by its inverse exactly when its step exists and holds a value in
      the field that is restorable there. */
  lemma {:induction false} UndoneExactly(steps: seq<StepEntry>, item: Item)
    requires forall i: nat, f :: FieldAt(steps, i, f).Some? ==> GoodMapping(FieldAt(steps, i, f).value)
    ensures Undone(steps, item) <==>
      var at := Locate(steps, item.step);
      && at.Some? && FieldAt(steps, at.value, item.field).Some?
      && FieldRestorable(item.field, item.step, FieldAt(steps, at.value, item.field).value,
                         item.oldValue, item.newValue)
  {
    hide PatchField, Locate, GoodMapping, FieldRestorable;
    var at := Locate(steps, item.step);
    AloneIsItem(steps, item);
    if at.Some? {
      if item.field == "name" {
        NameUndone(steps, item, at.value);
        NameRestorable(item.step, FieldAt(steps, at.value, "name").value, item.oldValue, item.newValue);
      } else {
        FieldUndone(steps, item, at.value);
        if FieldAt(steps, at.value, item.field).Some? {
          FieldBackExactly(item.field, item.step, FieldAt(steps, at.value, item.field).value,
                           item.oldValue, item.newValue);
        }
      }
    }
  }

  lemma NameRestorable(step: string, current: Value, a: Value, b: Value)
    requires current == Text(step)
    ensures FieldRestorable("name", step, current, a, b) <==> a == b == Text(step)
  {
  }

  lemma {:induction false} FieldUndone(steps: seq<StepEntry>, item: Item, at: nat)
    requires item.field != "name" && Locate(steps, item.step) == Some(at)
    ensures Undone(steps, item) <==>
      FieldAt(steps, at, item.field).Some?
      && FieldBack(item.field, FieldAt(steps, at, item.field).value, item.oldValue, item.newValue)
  {
    AloneIsItem(steps, item);
    hide PatchField, Locate;
    var field, current, a, b := item.field, FieldAt(steps, at, item.field), item.oldValue, item.newValue;
    var p := PatchField(field, current, a, b);
    if p.Some? {
      var there := SetField(steps, at, field, p.value);
      var back := Item(item.step, field, b, a);
      LocateKept(steps, at, field, p.value, item.step);
      AloneIsItem(there, back);
      assert FieldAt(there, at, field) == p;
      var q := PatchField(field, p, b, a);
      if q.Some? {
        SetTwice(steps, at, field, p.value, q.value);
      }
    }
  }

  // ----- the loops

  method PatchMappingField(entries: seq<(Value, Value)>, a: Value, b: Value) returns (updated: seq<(Value, Value)>)
    ensures updated == PatchMapping(entries, a, b)
  {
    updated := [];
    ghost var pairs := Substituted(entries, a, b);
    var i := 0;
    while i < |entries|
      invariant i <= |entries|
      invariant Build(updated, pairs[i..]) == Build([], pairs)
    {
      assert pairs[i..][1..] == pairs[i + 1..];
      var key := if Eq(entries[i].0, a) then b else entries[i].0;
      var value := if Eq(entries[i].1, a) then b else entries[i].1;
      updated := SetKey(updated, key, value);
      i := i + 1;
    }
  }

  method PatchSteps(steps: seq<StepEntry>, items: seq<Item>) returns (r: Option<seq<StepEntry>>)
    ensures r == ApplyPatch(steps, items)
    ensures Patched(steps, steps, items, r)
  {
    hide ApplyItem, OneItem, Patched;
    PatchedItems(steps, steps, items);
    var current := steps;
    var n := 0;
    assert items[0..] == items;
    while n < |items|
      invariant n <= |items| && SameSteps(steps, current)
      invariant ApplyItems(steps, current, items[n..]) == ApplyPatch(steps, items)
    {
      assert items[n..][1..] == items[n + 1..];
      var next := ApplyItem(steps, current, items[n]);
      if next.None? {
        return None;
      }
      current := next.value;
      n := n + 1;
    }
    return Some(current);
  }
}
