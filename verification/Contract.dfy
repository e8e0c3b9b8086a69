/** Data contracts: the checks that list violations, and the declarative contract they
    decide.

    Cell values are an arbitrary type with an arbitrary order `less` and rendering
    `text`.  A contract is taken after its YAML has been read. */
module Contract {
  import opened Basics

  datatype ArrowType = Integer | Floating | Boolean | Text | Instant | Other(name: string)

  datatype Column<V> = Column(arrowType: ArrowType, cells: seq<Option<V>>)

  datatype Table<V> = Table(columns: map<string, Column<V>>, rows: nat)
  {
    ghost predicate Valid() { forall c :: c in columns ==> |columns[c].cells| == rows }
  }

  datatype ColumnSpec<V> = ColumnSpec(
    typeName: string, notNull: bool, minValue: Option<V>, maxValue: Option<V>,
    allowed: Option<seq<string>>, unique: bool)

  /** A promised column whose specification is not a mapping has none. */
  datatype Terms<V> = Terms(
    columns: seq<(string, Option<ColumnSpec<V>>)>, nullThresholds: seq<(string, real)>,
    minRows: Option<int>, maxRows: Option<int>)

  /** `percent` is the percentage computed for so many nulls among so many cells. */
  datatype Values<!V> = Values(less: (V, V) -> bool, text: Option<V> -> string, percent: (nat, nat) -> real)

  datatype Rule =
    | ParseError | NoOutput | ColumnRemoved | TypeChanged | NotNull | MinValue | MaxValue | AllowedValues | Unique
    | NullThreshold | RowsBelow | RowsAbove | UnexpectedColumn

  datatype Violation = Violation(column: string, rule: Rule)

  /** Every rule but these two is an error. */
  predicate IsError(rule: Rule) { rule != NullThreshold && rule != UnexpectedColumn }

  // ----- type categories

  function Categories(): map<string, string> {
    map[
      "int8" := "integer", "int16" := "integer", "int32" := "integer", "int64" := "integer",
      "uint8" := "integer", "uint16" := "integer", "uint32" := "integer", "uint64" := "integer",
      "float16" := "float", "float32" := "float", "float64" := "float", "double" := "float",
      "bool" := "boolean",
      "object" := "string", "string" := "string", "large_string" := "string",
      "utf8" := "string", "large_utf8" := "string",
      "timestamp[ns]" := "datetime", "timestamp[us]" := "datetime",
      "timestamp[ms]" := "datetime", "timestamp[s]" := "datetime",
      "date32" := "datetime", "date64" := "datetime"]
  }

  function Lower(s: string): string {
    seq(|s|, i requires 0 <= i < |s| => if 'A' <= s[i] <= 'Z' then s[i] + 32 as char else s[i])
  }

  lemma Alphabet(k: nat)
    requires k < 26
    ensures CapitalLetters()[k] as int == 'A' as int + k && SmallLetters()[k] as int == 'a' as int + k
  {
  }

  /** Capitals become the small letters at their place in the alphabet, and nothing else changes. */
  lemma LowerExactly(s: string, i: nat)
    requires i < |s|
    ensures |Lower(s)| == |s|
    ensures forall k :: 0 <= k < 26 && s[i] == CapitalLetters()[k] ==> Lower(s)[i] == SmallLetters()[k]
    ensures s[i] !in CapitalLetters() ==> Lower(s)[i] == s[i]
  {
    assert 'A' <= s[i] <= 'Z' ==> CapitalLetters()[s[i] as int - 'A' as int] == s[i];
    forall k | 0 <= k < 26
      ensures CapitalLetters()[k] as int == 'A' as int + k && SmallLetters()[k] as int == 'a' as int + k
    {
      Alphabet(k);
    }
  }

  function NamedCategory(name: string): string {
    if Lower(name) in Categories() then Categories()[Lower(name)] else Lower(name)
  }

  function ArrowCategory(t: ArrowType): string {
    match t
    case Integer => "integer"
    case Floating => "float"
    case Boolean => "boolean"
    case Text => "string"
    case Instant => "datetime"
    case Other(name) => NamedCategory(name)
  }

  // ----- which type names a column fits

  /** The names under which a contract can promise a type, in lower case. */
  ghost predicate Spells(name: string, t: ArrowType) {
    match t
    case Integer =>
      name in {"int8", "int16", "int32", "int64", "uint8", "uint16", "uint32", "uint64", "integer"}
    case Floating => name in {"float16", "float32", "float64", "double", "float"}
    case Boolean => name in {"bool", "boolean"}
    case Text => name in {"object", "string", "large_string", "utf8", "large_utf8"}
    case Instant =>
      name in {"timestamp[ns]", "timestamp[us]", "timestamp[ms]", "timestamp[s]", "date32", "date64", "datetime"}
    case Other(_) => false
  }

  lemma CategorySpelled(name: string, t: ArrowType)
    requires !t.Other?
    ensures NamedCategory(name) == ArrowCategory(t) <==> Spells(Lower(name), t)
  {
    LoweredSpelled(Lower(name), t);
    hide Lower, Spells, Categories;
  }

  lemma LoweredSpelled(n: string, t: ArrowType)
    requires !t.Other?
    ensures (if n in Categories() then Categories()[n] else n) == ArrowCategory(t) <==> Spells(n, t)
  {
    hide Lower;
    var m := Categories();
    match t
    case Integer => assert n in m && m[n] == "integer" ==> Spells(n, t);
    case Floating => assert n in m && m[n] == "float" ==> Spells(n, t);
    case Boolean => assert n in m && m[n] == "boolean" ==> Spells(n, t);
    case Text => assert n in m && m[n] == "string" ==> Spells(n, t);
    case Instant => assert n in m && m[n] == "datetime" ==> Spells(n, t);
  }

  /** A type of another kind fits its own name and the names that share a kind with it. */
  ghost predicate Fits(t: ArrowType, name: string) {
    match t
    case Other(own) =>
      Lower(own) == Lower(name) || exists u: ArrowType :: Spells(Lower(own), u) && Spells(Lower(name), u)
    case _ => Spells(Lower(name), t)
  }

  lemma KindsDiffer(t: ArrowType, u: ArrowType)
    requires !t.Other? && !u.Other? && ArrowCategory(t) == ArrowCategory(u)
    ensures t == u
  {
  }

  lemma HasKind(name: string) returns (t: ArrowType)
    ensures if t.Other? then NamedCategory(name) == Lower(name) && forall u :: !Spells(Lower(name), u)
            else Spells(Lower(name), t) && NamedCategory(name) == ArrowCategory(t)
  {
    CategorySpelled(name, Integer);
    CategorySpelled(name, Floating);
    CategorySpelled(name, Boolean);
    CategorySpelled(name, Text);
    CategorySpelled(name, Instant);
    hide NamedCategory, Spells;
    t := if NamedCategory(name) == "integer" then Integer
      else if NamedCategory(name) == "float" then Floating
      else if NamedCategory(name) == "boolean" then Boolean
      else if NamedCategory(name) == "string" then Text
      else if NamedCategory(name) == "datetime" then Instant
      else Other(name);
    if t.Other? {
      NoKind(name);
    }
  }

  lemma NoKind(name: string)
    requires NamedCategory(name) !in ["integer", "float", "boolean", "string", "datetime"]
    ensures NamedCategory(name) == Lower(name)
    ensures forall u :: !Spells(Lower(name), u)
  {
    forall u
      ensures !Spells(Lower(name), u)
    {
      if !u.Other? {
        CategorySpelled(name, u);
        assert ArrowCategory(u) in ["integer", "float", "boolean", "string", "datetime"];
      }
    }
  }

  /** The lookup in the category table decides whether the promised name fits. */
  lemma FitsExactly(t: ArrowType, name: string)
    ensures ArrowCategory(t) == NamedCategory(name) <==> Fits(t, name)
  {
    if t.Other? {
      hide Spells, NamedCategory, Lower;
      var a := HasKind(t.name);
      var b := HasKind(name);
      if !a.Other? {
        CategorySpelled(name, a);
      } else if !b.Other? {
        CategorySpelled(t.name, b);
      }
      if u: ArrowType :| Spells(Lower(t.name), u) && Spells(Lower(name), u) {
        SpelledIsKind(t.name, u);
        SpelledIsKind(name, u);
      }
    } else {
      CategorySpelled(name, t);
    }
  }

  lemma SpelledIsKind(name: string, u: ArrowType)
    requires Spells(Lower(name), u)
    ensures NamedCategory(name) == ArrowCategory(u)
  {
    CategorySpelled(name, u);
  }

  // ----- the contract, declaratively

  ghost predicate Repeats<V>(cells: seq<Option<V>>) {
    exists i, j :: 0 <= i < j < |cells| && cells[i].Some? && cells[i] == cells[j]
  }

  ghost predicate HasNull<V>(cells: seq<Option<V>>) { exists i :: 0 <= i < |cells| && cells[i].None? }

  ghost predicate HasBelow<V>(values: Values<V>, cells: seq<Option<V>>, bound: V) {
    exists i :: 0 <= i < |cells| && cells[i].Some? && values.less(cells[i].value, bound)
  }

  ghost predicate HasAbove<V>(values: Values<V>, cells: seq<Option<V>>, bound: V) {
    exists i :: 0 <= i < |cells| && cells[i].Some? && values.less(bound, cells[i].value)
  }

  /** Nulls are rendered and looked up like any other cell. */
  ghost predicate HasDisallowed<V>(values: Values<V>, cells: seq<Option<V>>, allowed: seq<string>) {
    exists i :: 0 <= i < |cells| && values.text(cells[i]) !in allowed
  }

  ghost predicate SpecBroken<V>(values: Values<V>, column: Column<V>, spec: ColumnSpec<V>, rule: Rule) {
    match rule
    case TypeChanged => spec.typeName != "" && ArrowCategory(column.arrowType) != NamedCategory(spec.typeName)
    case NotNull => spec.notNull && HasNull(column.cells)
    case MinValue => spec.minValue.Some? && HasBelow(values, column.cells, spec.minValue.value)
    case MaxValue => spec.maxValue.Some? && HasAbove(values, column.cells, spec.maxValue.value)
    case AllowedValues => spec.allowed.Some? && HasDisallowed(values, column.cells, spec.allowed.value)
    case Unique => spec.unique && Repeats(column.cells)
    case _ => false
  }

  ghost predicate EntryBroken<V>(
    values: Values<V>, table: Table<V>, entry: (string, Option<ColumnSpec<V>>), v: Violation) {
    && v.column == entry.0 && entry.1.Some?
    && if entry.0 in table.columns then SpecBroken(values, table.columns[entry.0], entry.1.value, v.rule)
       else v.rule == ColumnRemoved
  }

  /** The percentage computed for the column's nulls is above the promised one. */
  ghost predicate RateBroken<V>(values: Values<V>, table: Table<V>, entry: (string, real), v: Violation) {
    && v == Violation(entry.0, NullThreshold) && entry.0 in table.columns && table.rows > 0
    && values.percent(|Nulls(table.columns[entry.0].cells)|, table.rows) > entry.1
  }

  ghost function Nulls<V>(cells: seq<Option<V>>): set<nat> { set i: nat | i < |cells| && cells[i].None? }

  const ROW_COUNT := "__row_count__"

  ghost predicate RowsBroken<V>(table: Table<V>, terms: Terms<V>, v: Violation) {
    || (v == Violation("__row_count__", RowsBelow) && terms.minRows.Some? && table.rows < terms.minRows.value)
    || (v == Violation("__row_count__", RowsAbove) && terms.maxRows.Some? && table.rows > terms.maxRows.value)
  }

  ghost predicate Unpromised<V>(table: Table<V>, terms: Terms<V>, v: Violation) {
    && v.rule == UnexpectedColumn && v.column in table.columns
    && forall i :: 0 <= i < |terms.columns| ==> terms.columns[i].0 != v.column
  }

  function Promised<V>(terms: Terms<V>): set<string> { set i | 0 <= i < |terms.columns| :: terms.columns[i].0 }

  ghost predicate ColumnsBroken<V>(
    values: Values<V>, table: Table<V>, entries: seq<(string, Option<ColumnSpec<V>>)>, v: Violation) {
    exists i :: 0 <= i < |entries| && EntryBroken(values, table, entries[i], v)
  }

  ghost predicate RatesBroken<V>(values: Values<V>, table: Table<V>, entries: seq<(string, real)>, v: Violation) {
    exists i :: 0 <= i < |entries| && RateBroken(values, table, entries[i], v)
  }

  /** The rule of the violation is broken for its column. */
  ghost predicate Broken<V>(values: Values<V>, output: Option<Table<V>>, terms: Option<Terms<V>>, v: Violation) {
    if terms.None? then v == Violation("__contract__", ParseError)
    else if output.None? then v == Violation("__all__", NoOutput)
    else
      || ColumnsBroken(values, output.value, terms.value.columns, v)
      || RatesBroken(values, output.value, terms.value.nullThresholds, v)
      || RowsBroken(output.value, terms.value, v)
      || Unpromised(output.value, terms.value, v)
  }

  // ----- the same contract as a promise

  ghost predicate ColumnMeets<V>(values: Values<V>, column: Column<V>, spec: ColumnSpec<V>) {
    var cells := column.cells;
    && (spec.typeName == "" || Fits(column.arrowType, spec.typeName))
    && (spec.notNull ==> forall i :: 0 <= i < |cells| ==> cells[i].Some?)
    && (spec.minValue.Some? ==> forall i :: 0 <= i < |cells| && cells[i].Some? ==>
          !values.less(cells[i].value, spec.minValue.value))
    && (spec.maxValue.Some? ==> forall i :: 0 <= i < |cells| && cells[i].Some? ==>
          !values.less(spec.maxValue.value, cells[i].value))
    && (spec.allowed.Some? ==> forall i :: 0 <= i < |cells| ==> values.text(cells[i]) in spec.allowed.value)
    && (spec.unique ==> forall i, j :: 0 <= i < j < |cells| && cells[i].Some? ==> cells[i] != cells[j])
  }

  ghost predicate EntryMet<V>(values: Values<V>, table: Table<V>, entry: (string, Option<ColumnSpec<V>>)) {
    entry.1.Some? ==> entry.0 in table.columns && ColumnMeets(values, table.columns[entry.0], entry.1.value)
  }

  ghost predicate Meets<V>(values: Values<V>, table: Table<V>, terms: Terms<V>) {
    && (forall i :: 0 <= i < |terms.columns| ==> EntryMet(values, table, terms.columns[i]))
    && (forall i :: 0 <= i < |terms.nullThresholds| ==> RateMet(values, table, terms.nullThresholds[i]))
    && (terms.minRows.Some? ==> terms.minRows.value <= table.rows)
    && (terms.maxRows.Some? ==> table.rows <= terms.maxRows.value)
    && forall c :: c in table.columns ==> exists i :: 0 <= i < |terms.columns| && terms.columns[i].0 == c
  }

  ghost predicate RateMet<V>(values: Values<V>, table: Table<V>, entry: (string, real)) {
    entry.0 in table.columns && table.rows > 0 ==>
      values.percent(|Nulls(table.columns[entry.0].cells)|, table.rows) <= entry.1
  }

  lemma SpecMetExactly<V>(values: Values<V>, column: Column<V>, spec: ColumnSpec<V>)
    ensures ColumnMeets(values, column, spec) <==> forall rule :: !SpecBroken(values, column, spec, rule)
  {
    FitsExactly(column.arrowType, spec.typeName);
    hide Fits, ArrowCategory, NamedCategory;
    if forall rule :: !SpecBroken(values, column, spec, rule) {
      assert !SpecBroken(values, column, spec, TypeChanged);
      assert !SpecBroken(values, column, spec, NotNull);
      assert !SpecBroken(values, column, spec, MinValue);
      assert !SpecBroken(values, column, spec, MaxValue);
      assert !SpecBroken(values, column, spec, AllowedValues);
      assert !SpecBroken(values, column, spec, Unique);
    }
  }

  lemma EntryMetExactly<V>(values: Values<V>, table: Table<V>, entry: (string, Option<ColumnSpec<V>>))
    ensures EntryMet(values, table, entry) <==> forall v :: !EntryBroken(values, table, entry, v)
  {
    hide ColumnMeets, SpecBroken;
    if entry.1.Some? {
      if entry.0 in table.columns {
        SpecMetExactly(values, table.columns[entry.0], entry.1.value);
        assert forall rule :: EntryBroken(values, table, entry, Violation(entry.0, rule)) <==>
          SpecBroken(values, table.columns[entry.0], entry.1.value, rule);
      } else {
        assert EntryBroken(values, table, entry, Violation(entry.0, ColumnRemoved));
      }
    }
  }

  /** No rule is broken exactly when the table keeps every promise of the contract. */
  lemma MeetsExactly<V>(values: Values<V>, table: Table<V>, terms: Terms<V>)
    ensures Meets(values, table, terms) <==> forall v :: !Broken(values, Some(table), Some(terms), v)
  {
    hide ColumnMeets, EntryBroken;
    if Meets(values, table, terms) {
      forall v
        ensures !Broken(values, Some(table), Some(terms), v)
      {
        forall i | 0 <= i < |terms.columns| ensures !EntryBroken(values, table, terms.columns[i], v) {
          EntryMetExactly(values, table, terms.columns[i]);
        }
        assert forall i :: 0 <= i < |terms.nullThresholds| ==> RateMet(values, table, terms.nullThresholds[i]);
      }
    } else {
      var v := Culprit(values, table, terms);
    }
  }

  lemma Culprit<V>(values: Values<V>, table: Table<V>, terms: Terms<V>) returns (v: Violation)
    requires !Meets(values, table, terms)
    ensures Broken(values, Some(table), Some(terms), v)
  {
    hide ColumnMeets, EntryBroken, Nulls;
    forall i | 0 <= i < |terms.columns|
      ensures EntryMet(values, table, terms.columns[i]) <==>
        forall v :: !EntryBroken(values, table, terms.columns[i], v)
    {
      EntryMetExactly(values, table, terms.columns[i]);
    }
    if i :| 0 <= i < |terms.columns| && !EntryMet(values, table, terms.columns[i]) {
      v :| EntryBroken(values, table, terms.columns[i], v);
    } else if i :| 0 <= i < |terms.nullThresholds| && !RateMet(values, table, terms.nullThresholds[i]) {
      v := Violation(terms.nullThresholds[i].0, NullThreshold);
      assert RateBroken(values, table, terms.nullThresholds[i], v);
    } else if terms.minRows.Some? && table.rows < terms.minRows.value {
      v := Violation(ROW_COUNT, RowsBelow);
    } else if terms.maxRows.Some? && table.rows > terms.maxRows.value {
      v := Violation(ROW_COUNT, RowsAbove);
    } else {
      var c :| c in table.columns && forall i :: 0 <= i < |terms.columns| ==> terms.columns[i].0 != c;
      v := Violation(c, UnexpectedColumn);
    }
  }

  // ----- the computed percentage and the true one

  ghost function TrueRate<V>(table: Table<V>, name: string): real
    requires name in table.columns && table.rows > 0
  {
    |Nulls(table.columns[name].cells)| as real * 100.0 / table.rows as real
  }

  ghost predicate TrulyMet<V>(table: Table<V>, entry: (string, real)) {
    entry.0 in table.columns && table.rows > 0 ==> TrueRate(table, entry.0) <= entry.1
  }

  /** The contract with true percentages. */
  ghost predicate TrulyMeets<V>(values: Values<V>, table: Table<V>, terms: Terms<V>) {
    && Meets(values, table, terms.(nullThresholds := []))
    && forall i :: 0 <= i < |terms.nullThresholds| ==> TrulyMet(table, terms.nullThresholds[i])
  }

  // ----- percentages in doubles

  /** `m` over a power of two is a double nearest to `x`. */
  ghost predicate RoundsTo(x: real, m: int, power: int) {
    && power > 0 && 0x10_0000_0000_0000 <= m <= 0x20_0000_0000_0000
    && m as real - 0.5 <= x * power as real <= m as real + 0.5
  }

  ghost predicate RoundsBy(x: real, y: real, m: int, power: int) {
    RoundsTo(x, m, power) && y == m as real / power as real
  }

  ghost predicate NearestDouble(x: real, y: real) { exists m, power :: RoundsBy(x, y, m, power) }

  /** The percentage is a division and a multiplication, each rounded to a double. */
  ghost predicate InDoubles<V>(values: Values<V>) {
    forall n: nat, t: nat :: 0 < t && n <= t ==> DoublePercent(n, t, values.percent(n, t))
  }

  ghost predicate DoublePercent(n: nat, t: nat, percent: real)
    requires t > 0
  {
    if n == 0 then percent == 0.0
    else
      var x := n as real / t as real;
      exists q :: PercentVia(x, q, percent)
  }

  ghost predicate PercentVia(x: real, q: real, percent: real) {
    NearestDouble(x, q) && NearestDouble(q * 100.0, percent)
  }

  const EPSILON := 0.00000000000000012
  const TOLERANCE := 0.0000000000001

  ghost predicate Near(x: real, y: real, margin: real) { -margin <= x - y <= margin }

  /** A nearest double is off by less than one part in 10^15. */
  lemma NearestIsNear(x: real, y: real)
    requires x > 0.0 && NearestDouble(x, y)
    ensures Near(y, x, x * EPSILON)
  {
    var m, power :| RoundsBy(x, y, m, power);
    var p := power as real;
    assert y * p == m as real;
    assert (y - x) * p == m as real - x * p;
    assert x * p * EPSILON >= 0.5;
    assert (x * EPSILON) * p == x * p * EPSILON;
    Cancel(y - x, x * EPSILON, p);
    Cancel(x - y, x * EPSILON, p);
  }

  lemma Cancel(a: real, b: real, p: real)
    requires p > 0.0 && a * p <= b * p
    ensures a <= b
  {
  }

  lemma DoublePercentIsNear(n: nat, t: nat, percent: real)
    requires 0 < t && n <= t && DoublePercent(n, t, percent)
    ensures Near(percent, n as real * 100.0 / t as real, TOLERANCE)
  {
    hide NearestDouble;
    if n > 0 {
      var x := n as real / t as real;
      var q :| PercentVia(x, q, percent);
      assert 0.0 < x <= 1.0 by { Fraction(n, t); }
      NearestIsNear(x, q);
      assert q > 0.0;
      NearestIsNear(q * 100.0, percent);
      assert n as real * 100.0 / t as real == x * 100.0;
    }
  }

  lemma Fraction(n: nat, t: nat)
    requires 0 < n <= t
    ensures 0.0 < n as real / t as real <= 1.0
  {
  }

  // ----- when the rule errs

  /** The null rate is the promised one, and the computed percentage is above it. */
  ghost predicate TippedOver<V>(values: Values<V>, table: Table<V>, entry: (string, real)) {
    && entry.0 in table.columns && table.rows > 0
    && var nulls := |Nulls(table.columns[entry.0].cells)|;
      100.0 * nulls as real == entry.1 * table.rows as real && values.percent(nulls, table.rows) > entry.1
  }

  predicate WholeThreshold(entry: (string, real)) { entry.1 == entry.1.Floor as real }

  const MAX_EXACT_ROWS := 1_000_000_000_000

  lemma Opposite(x: real, r: real)
    ensures -x * r == -(x * r)
  {
  }

  lemma AtLeastOne(gap: real, r: real)
    requires 0.0 < r <= MAX_EXACT_ROWS as real && gap * r >= 1.0
    ensures gap >= 0.000000000001
  {
    assert 0.000000000001 * r <= 1.0;
    Cancel(0.000000000001, gap, r);
  }

  lemma RateTimes(n: nat, t: nat, limit: int)
    requires t > 0
    ensures var rate, r, l := n as real * 100.0 / t as real, t as real, limit as real;
      (rate - l) * r == (100 * n - limit * t) as real && (100 * n == limit * t ==> rate * r == l * r)
  {
    var x, r, l := n as real * 100.0, t as real, limit as real;
    assert x / r * r == x;
    assert l * r == (limit * t) as real;
    assert (x / r - l) * r == x / r * r - l * r;
  }

  /** An integer threshold is hit exactly or missed by more than rounding can bridge. */
  lemma RateSides(n: nat, t: nat, limit: int, percent: real)
    requires 0 < t <= MAX_EXACT_ROWS && Near(percent, n as real * 100.0 / t as real, TOLERANCE)
    ensures 100 * n > limit * t ==> n as real * 100.0 / t as real > limit as real && percent > limit as real
    ensures 100 * n < limit * t ==> n as real * 100.0 / t as real < limit as real && percent < limit as real
    ensures 100 * n == limit * t ==> n as real * 100.0 / t as real == limit as real
  {
    var r, rate, l, diff := t as real, n as real * 100.0 / t as real, limit as real, 100 * n - limit * t;
    RateTimes(n, t, limit);
    if diff > 0 {
      AtLeastOne(rate - l, r);
    } else if diff < 0 {
      Opposite(rate - l, r);
      AtLeastOne(l - rate, r);
    } else {
      Cancel(rate, l, r);
      Cancel(l, rate, r);
    }
  }

  /** For an integer threshold and at most 10^12 rows the rule misjudges the true null
      rate exactly when the rate is the threshold itself and its computed percentage is
      above it; it never overlooks a rate that is too high. */
  lemma RateErrsExactly<V>(values: Values<V>, table: Table<V>, entry: (string, real))
    requires table.Valid() && InDoubles(values) && WholeThreshold(entry) && table.rows <= MAX_EXACT_ROWS
    ensures RateMet(values, table, entry) != TrulyMet(table, entry) <==> TippedOver(values, table, entry)
    ensures TippedOver(values, table, entry) ==> TrulyMet(table, entry)
  {
    hide InDoubles, DoublePercent, Nulls, Near;
    if entry.0 in table.columns && table.rows > 0 {
      var n, t := |Nulls(table.columns[entry.0].cells)|, table.rows;
      NullsBounded(table.columns[entry.0].cells);
      PercentNear(values, n, t);
      var limit := entry.1.Floor;
      RateSides(n, t, limit, values.percent(n, t));
      assert 100.0 * n as real == (100 * n) as real && entry.1 * t as real == (limit * t) as real;
    }
  }

  lemma NullsBounded<V>(cells: seq<Option<V>>)
    ensures |Nulls(cells)| <= |cells|
  {
    NullCountIsNulls(cells);
  }

  lemma PercentNear<V>(values: Values<V>, n: nat, t: nat)
    requires InDoubles(values) && 0 < t && n <= t
    ensures Near(values.percent(n, t), n as real * 100.0 / t as real, TOLERANCE)
  {
    hide DoublePercent, Near;
    DoublePercentIsNear(n, t, values.percent(n, t));
  }

  /** For any threshold the rule is right when the true rate is further from it than
      rounding can reach. */
  lemma RateSettled<V>(values: Values<V>, table: Table<V>, entry: (string, real))
    requires table.Valid() && InDoubles(values) && entry.0 in table.columns && table.rows > 0
    requires !Near(TrueRate(table, entry.0), entry.1, TOLERANCE)
    ensures RateMet(values, table, entry) <==> TrulyMet(table, entry)
  {
    hide InDoubles, Nulls;
    NullsBounded(table.columns[entry.0].cells);
    PercentNear(values, |Nulls(table.columns[entry.0].cells)|, table.rows);
  }

  /** So with integer thresholds a table is misjudged exactly when it keeps every promise
      and some null rate is a threshold whose computed percentage is above it. */
  lemma VerdictErrsExactly<V>(values: Values<V>, table: Table<V>, terms: Terms<V>)
    requires table.Valid() && InDoubles(values) && table.rows <= MAX_EXACT_ROWS
    requires forall i :: 0 <= i < |terms.nullThresholds| ==> WholeThreshold(terms.nullThresholds[i])
    ensures Meets(values, table, terms) ==> TrulyMeets(values, table, terms)
    ensures Meets(values, table, terms) != TrulyMeets(values, table, terms) <==>
      && TrulyMeets(values, table, terms)
      && exists i :: 0 <= i < |terms.nullThresholds| && TippedOver(values, table, terms.nullThresholds[i])
  {
    hide RateMet, TrulyMet, TippedOver, EntryMet, Promised, InDoubles, WholeThreshold;
    var rates := terms.nullThresholds;
    forall i | 0 <= i < |rates|
      ensures RateMet(values, table, rates[i]) != TrulyMet(table, rates[i]) <==> TippedOver(values, table, rates[i])
      ensures TippedOver(values, table, rates[i]) ==> TrulyMet(table, rates[i])
    {
      RateErrsExactly(values, table, rates[i]);
    }
    assert Promised(terms.(nullThresholds := [])) == Promised(terms) by { SamePromised(terms); }
    var others := Meets(values, table, terms.(nullThresholds := []));
    assert Meets(values, table, terms) <==> others && forall i :: 0 <= i < |rates| ==> RateMet(values, table, rates[i]);
  }

  lemma SamePromised<V>(terms: Terms<V>)
    ensures Promised(terms.(nullThresholds := [])) == Promised(terms)
  {
  }

  /** In doubles, 7 of 25 cells are more than 28 percent. */
  lemma DoublesOvershoot()
    ensures DoublePercent(7, 25, 7881299347898369.0 / 281474976710656.0)
    ensures 7881299347898369.0 / 281474976710656.0 > 28.0
  {
    var q, percent := 5044031582654956.0 / 18014398509481984.0, 7881299347898369.0 / 281474976710656.0;
    assert RoundsBy(7.0 / 25.0, q, 5044031582654956, 18014398509481984);
    assert RoundsBy(q * 100.0, percent, 7881299347898369, 281474976710656);
    assert PercentVia(7.0 / 25.0, q, percent);
    assert 7 as real / 25 as real == 7.0 / 25.0;
  }

  /** So a column of 25 cells with 7 nulls and a threshold of 28 is reported although its
      null rate is 28 percent. */
  lemma SevenOfTwentyFive<V>(values: Values<V>, table: Table<V>, name: string)
    requires table.Valid() && table.rows == 25 && name in table.columns && |Nulls(table.columns[name].cells)| == 7
    requires values.percent(7, 25) == 7881299347898369.0 / 281474976710656.0
    ensures TrulyMet(table, (name, 28.0)) && TippedOver(values, table, (name, 28.0))
    ensures RateBroken(values, table, (name, 28.0), Violation(name, NullThreshold))
  {
    DoublesOvershoot();
  }

  // ----- the counts the checks are made of

  function NullCount<V>(cells: seq<Option<V>>): nat {
    if cells == [] then 0 else (if cells[|cells| - 1].None? then 1 else 0) + NullCount(cells[..|cells| - 1])
  }

  function CountIf<V>(cells: seq<Option<V>>, p: V -> bool): nat {
    if cells == [] then 0
    else (if cells[|cells| - 1].Some? && p(cells[|cells| - 1].value) then 1 else 0) + CountIf(cells[..|cells| - 1], p)
  }

  function Present<V>(cells: seq<Option<V>>): set<V> { set i | 0 <= i < |cells| && cells[i].Some? :: cells[i].value }

  lemma {:induction false} NullCountIsNulls<V>(cells: seq<Option<V>>)
    ensures NullCount(cells) == |Nulls(cells)| <= |cells|
    ensures NullCount(cells) > 0 <==> exists i :: 0 <= i < |cells| && cells[i].None?
  {
    if cells != [] {
      var n := |cells| - 1;
      var front := cells[..n];
      NullCountIsNulls(front);
      assert Nulls(cells) == Nulls(front) + if cells[n].None? then {n} else {};
      assert forall i :: 0 <= i < n ==> cells[i] == front[i];
    }
  }

  lemma {:induction false} CountIfIsExists<V>(cells: seq<Option<V>>, p: V -> bool)
    ensures CountIf(cells, p) > 0 <==> exists i :: 0 <= i < |cells| && cells[i].Some? && p(cells[i].value)
  {
    if cells != [] {
      var front := cells[..|cells| - 1];
      CountIfIsExists(front, p);
      assert forall i :: 0 <= i < |front| ==> cells[i] == front[i];
    }
  }

  /** Fewer distinct values than non-null cells means exactly that a value repeats. */
  lemma {:induction false} DistinctCountExact<V>(cells: seq<Option<V>>)
    ensures |Present(cells)| <= |cells| - NullCount(cells)
    ensures |Present(cells)| < |cells| - NullCount(cells) <==> Repeats(cells)
  {
    if cells != [] {
      var n := |cells| - 1;
      var front, last := cells[..n], cells[n];
      DistinctCountExact(front);
      RepeatsStep(cells);
      if last.Some? {
        assert Present(cells) == Present(front) + {last.value};
        assert last.value in Present(front) <==> exists i :: 0 <= i < n && front[i] == last;
        if last.value in Present(front) { assert Present(cells) == Present(front); }
      } else {
        assert Present(cells) == Present(front);
      }
    }
  }

  lemma RepeatsStep<V>(cells: seq<Option<V>>)
    requires cells != []
    ensures var n := |cells| - 1;
      Repeats(cells) <==> Repeats(cells[..n]) || (cells[n].Some? && exists i :: 0 <= i < n && cells[..n][i] == cells[n])
  {
    var n := |cells| - 1;
    var front := cells[..n];
    assert forall i :: 0 <= i < n ==> cells[i] == front[i];
  }

  // ----- the checks

  /** A violation is appended when its check fails. */
  function Report(vs: seq<Violation>, broken: bool, v: Violation): (r: seq<Violation>)
    ensures forall x :: x in r <==> x in vs || (broken && x == v)
  {
    if broken then vs + [v] else vs
  }

  function AnyNull<V>(cells: seq<Option<V>>): (r: bool)
    ensures r <==> HasNull(cells)
  {
    NullCountIsNulls(cells);
    NullCount(cells) > 0
  }

  function AnyBelow<V>(values: Values<V>, cells: seq<Option<V>>, bound: V): (r: bool)
    ensures r <==> HasBelow(values, cells, bound)
  {
    var below := (x: V) => values.less(x, bound);
    CountIfIsExists(cells, below);
    CountIf(cells, below) > 0
  }

  function AnyAbove<V>(values: Values<V>, cells: seq<Option<V>>, bound: V): (r: bool)
    ensures r <==> HasAbove(values, cells, bound)
  {
    var above := (x: V) => values.less(bound, x);
    CountIfIsExists(cells, above);
    CountIf(cells, above) > 0
  }

  function AnyDisallowed<V>(values: Values<V>, cells: seq<Option<V>>, allowed: seq<string>): (r: bool)
    ensures r <==> HasDisallowed(values, cells, allowed)
  {
    var renderings := set i | 0 <= i < |cells| :: values.text(cells[i]);
    assert forall i :: 0 <= i < |cells| ==> values.text(cells[i]) in renderings;
    exists r :: r in renderings && r !in allowed
  }

  function AnyRepeated<V(==)>(cells: seq<Option<V>>): (r: bool)
    ensures r <==> Repeats(cells)
  {
    DistinctCountExact(cells);
    |Present(cells)| < |cells| - NullCount(cells)
  }

  method CheckSpec<V(==)>(
    values: Values<V>, name: string, column: Column<V>, spec: ColumnSpec<V>)
    returns (vs: seq<Violation>)
    ensures forall v :: v in vs <==> v.column == name && SpecBroken(values, column, spec, v.rule)
  {
    hide HasNull, HasBelow, HasAbove, HasDisallowed, Repeats, ArrowCategory, NamedCategory;
    var cells := column.cells;
    var changed := spec.typeName != "" && ArrowCategory(column.arrowType) != NamedCategory(spec.typeName);
    var nulls := spec.notNull && AnyNull(cells);
    var below := spec.minValue.Some? && AnyBelow(values, cells, spec.minValue.value);
    var above := spec.maxValue.Some? && AnyAbove(values, cells, spec.maxValue.value);
    var disallowed := spec.allowed.Some? && AnyDisallowed(values, cells, spec.allowed.value);
    var repeated := spec.unique && AnyRepeated(cells);
    forall rule
      ensures Flagged(rule, changed, nulls, below, above, disallowed, repeated) <==>
        SpecBroken(values, column, spec, rule)
    {
    }
    hide SpecBroken, Flagged, AnyNull, AnyBelow, AnyAbove, AnyDisallowed, AnyRepeated;
    vs := ReportAll(name, changed, nulls, below, above, disallowed, repeated);
  }

  predicate Flagged(
    rule: Rule, changed: bool, nulls: bool, below: bool, above: bool, disallowed: bool, repeated: bool) {
    || (rule == TypeChanged && changed) || (rule == NotNull && nulls) || (rule == MinValue && below)
    || (rule == MaxValue && above) || (rule == AllowedValues && disallowed) || (rule == Unique && repeated)
  }

  method ReportAll(name: string, changed: bool, nulls: bool, below: bool, above: bool, disallowed: bool, repeated: bool)
    returns (vs: seq<Violation>)
    ensures forall v :: v in vs <==>
      v.column == name && Flagged(v.rule, changed, nulls, below, above, disallowed, repeated)
  {
    vs := Report([], changed, Violation(name, TypeChanged));
    vs := Report(vs, nulls, Violation(name, NotNull));
    vs := Report(vs, below, Violation(name, MinValue));
    vs := Report(vs, above, Violation(name, MaxValue));
    vs := Report(vs, disallowed, Violation(name, AllowedValues));
    vs := Report(vs, repeated, Violation(name, Unique));
  }

  method CheckColumns<V(==)>(
    values: Values<V>, table: Table<V>, entries: seq<(string, Option<ColumnSpec<V>>)>)
    returns (vs: seq<Violation>)
    ensures forall v :: v in vs <==> ColumnsBroken(values, table, entries, v)
  {
    hide SpecBroken;
    vs := [];
    for k := 0 to |entries|
      invariant forall v :: v in vs <==> exists i :: 0 <= i < k && EntryBroken(values, table, entries[i], v)
    {
      var (name, spec) := entries[k];
      if spec.Some? {
        var more := [Violation(name, ColumnRemoved)];
        if name in table.columns {
          more := CheckSpec(values, name, table.columns[name], spec.value);
        }
        assert forall v :: v in more <==> EntryBroken(values, table, entries[k], v);
        vs := vs + more;
      }
    }
  }

  method CheckNullRates<V>(
    values: Values<V>, table: Table<V>, entries: seq<(string, real)>) returns (vs: seq<Violation>)
    requires table.Valid()
    ensures forall v :: v in vs <==> RatesBroken(values, table, entries, v)
  {
    vs := [];
    for k := 0 to |entries|
      invariant forall v :: v in vs <==> exists i :: 0 <= i < k && RateBroken(values, table, entries[i], v)
    {
      var broken := RateAbove(values, table, entries[k]);
      hide RateBroken;
      vs := Report(vs, broken, Violation(entries[k].0, NullThreshold));
    }
  }

  method RateAbove<V>(values: Values<V>, table: Table<V>, entry: (string, real)) returns (broken: bool)
    requires table.Valid()
    ensures forall v :: RateBroken(values, table, entry, v) <==> broken && v == Violation(entry.0, NullThreshold)
  {
    var (name, limit) := entry;
    if name !in table.columns || |table.columns[name].cells| == 0 {
      return false;
    }
    var cells := table.columns[name].cells;
    NullCountIsNulls(cells);
    return values.percent(NullCount(cells), |cells|) > limit;
  }

  /** The validator reports exactly the broken rules, each with its column, and passes
      exactly when none is broken. */
  method ValidateAgainstContract<V(==)>(values: Values<V>, output: Option<Table<V>>, terms: Option<Terms<V>>)
    returns (passed: bool, vs: seq<Violation>)
    requires output.Some? ==> output.value.Valid()
    ensures forall v :: v in vs <==> Broken(values, output, terms, v)
    ensures passed <==> forall v :: !Broken(values, output, terms, v)
  {
    hide ColumnsBroken, RatesBroken, RowsBroken;
    if terms.None? {
      assert Broken(values, output, terms, Violation("__contract__", ParseError));
      return false, [Violation("__contract__", ParseError)];
    }
    if output.None? {
      assert Broken(values, output, terms, Violation("__all__", NoOutput));
      return false, [Violation("__all__", NoOutput)];
    }
    var table := output.value;
    var columns := CheckColumns(values, table, terms.value.columns);
    var rates := CheckNullRates(values, table, terms.value.nullThresholds);
    var rows := CheckRows(table, terms.value);
    var extra := Unlisted(table.columns.Keys - Promised(terms.value));
    assert forall v :: v in extra <==> Unpromised(table, terms.value, v);
    vs := columns + rates + rows + extra;
    passed := |vs| == 0;
    if !passed { assert vs[0] in vs; }
  }

  method CheckRows<V>(table: Table<V>, terms: Terms<V>) returns (vs: seq<Violation>)
    ensures forall v :: v in vs <==> RowsBroken(table, terms, v)
  {
    vs := Report([], terms.minRows.Some? && table.rows < terms.minRows.value, Violation(ROW_COUNT, RowsBelow));
    vs := Report(vs, terms.maxRows.Some? && table.rows > terms.maxRows.value, Violation(ROW_COUNT, RowsAbove));
  }

  method Unlisted(names: set<string>) returns (vs: seq<Violation>)
    ensures forall v :: v in vs <==> v.rule == UnexpectedColumn && v.column in names
  {
    vs := [];
    var todo := names;
    while todo != {}
      invariant todo <= names
      invariant forall v :: v in vs <==> v.rule == UnexpectedColumn && v.column in names - todo
      decreases |todo|
    {
      var c :| c in todo;
      vs := vs + [Violation(c, UnexpectedColumn)];
      todo := todo - {c};
    }
  }

  // ----- enforcement

  datatype BreachReport = BreachReport(hasBreaches: bool, shouldBlock: bool, breaches: seq<Violation>)

  function CountErrors(vs: seq<Violation>): (n: nat)
    ensures n > 0 <==> exists v :: v in vs && IsError(v.rule)
    ensures n <= |vs|
  {
    if vs == [] then 0
    else
      assert vs == [vs[0]] + vs[1..];
      (if IsError(vs[0].rule) then 1 else 0) + CountErrors(vs[1..])
  }

  function BuildBreachReport(passed: bool, vs: seq<Violation>, severity: string): BreachReport {
    if passed then BreachReport(false, false, [])
    else BreachReport(true, severity == "block" && CountErrors(vs) > 0, vs)
  }

  /** A run is blocked exactly when the severity is "block" and a rule other than the
      null rate and the unexpected column is broken. */
  method CheckRun<V(==)>(
    values: Values<V>, output: Option<Table<V>>, terms: Option<Terms<V>>, severity: string)
    returns (r: BreachReport)
    requires output.Some? ==> output.value.Valid()
    ensures r.shouldBlock <==>
      && severity == "block"
      && exists v :: Broken(values, output, terms, v) && v.rule != NullThreshold && v.rule != UnexpectedColumn
    ensures r.hasBreaches <==> exists v :: Broken(values, output, terms, v)
    ensures forall v :: v in r.breaches <==> Broken(values, output, terms, v)
  {
    hide Broken;
    var passed, vs := ValidateAgainstContract(values, output, terms);
    r := BuildBreachReport(passed, vs, severity);
  }
}
