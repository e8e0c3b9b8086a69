/** Quoting, and the filter, sort and aggregate builders that use it.

    The scanner reads everything a builder puts between quotes as blanks, so the
    code it sees depends on the step's shape and not on its names and values. */
module SqlBuilder {
  import opened Basics
  import opened SqlScanner

  datatype Built = Sql(text: string) | ValueError

  datatype Value =
    | NullValue
    | BoolValue(b: bool)
    | IntValue(n: int)
    | FloatValue(repr: string)
    | TextValue(s: string)
    | ListValue(vs: seq<Value>)

  /** `s` with every `q` written twice. */
  function Doubled(s: string, q: char): string {
    if s == "" then ""
    else (if s[0] == q then [q, q] else [s[0]]) + Doubled(s[1..], q)
  }

  function Quote(s: string, q: char): string {
    [q] + Doubled(s, q) + [q]
  }

  function QuoteIdentifier(id: string): Built {
    if id == "" then ValueError else Sql(Quote(id, '"'))
  }

  function Digits(n: nat): (s: string)
    ensures s != "" && forall i :: 0 <= i < |s| ==> '0' <= s[i] <= '9'
  {
    var last := ['0' + (n % 10) as char];
    if n < 10 then last else Digits(n / 10) + last
  }

  function IntText(n: int): string {
    if n < 0 then "-" + Digits(-n) else Digits(n)
  }

  const NON_FINITE := {"nan", "inf", "-inf"}

  function SqlLiteral(v: Value): Built {
    match v
    case NullValue => Sql("NULL")
    case BoolValue(b) => Sql(if b then "TRUE" else "FALSE")
    case IntValue(n) => Sql(IntText(n))
    case FloatValue(repr) => if repr in NON_FINITE then ValueError else Sql(repr)
    case TextValue(s) => Sql(Quote(s, '\''))
    case ListValue(vs) =>
      var items := SqlLiterals(vs);
      if items.ValueError? then ValueError else Sql("(" + items.text + ")")
  }

  /** The literals of a list, separated by commas. */
  function SqlLiterals(vs: seq<Value>): Built {
    if vs == [] then Sql("")
    else
      var first := SqlLiteral(vs[0]);
      var rest := SqlLiterals(vs[1..]);
      if first.ValueError? || rest.ValueError? then ValueError
      else Sql(first.text + (if |vs| == 1 then "" else ", " + rest.text))
  }

  // ----- unquoting

  /** Reads a quoted body back: pairs become single characters. */
  function Undoubled(body: string, q: char): string {
    if body == "" then ""
    else if body[0] == q && |body| > 1 && body[1] == q then [q] + Undoubled(body[2..], q)
    else [body[0]] + Undoubled(body[1..], q)
  }

  function Unquote(t: string): string {
    if |t| < 2 then "" else Undoubled(t[1..|t| - 1], t[0])
  }

  lemma {:induction false} DoubledRoundTrip(s: string, q: char)
    ensures Paired(Doubled(s, q), q)
    ensures Undoubled(Doubled(s, q), q) == s
  {
    if s != "" {
      DoubledRoundTrip(s[1..], q);
      var d := Doubled(s, q);
      assert s == [s[0]] + s[1..];
      if s[0] == q {
        assert d[2..] == Doubled(s[1..], q);
      } else {
        assert d[1..] == Doubled(s[1..], q);
      }
    }
  }

  /** Quoting loses nothing. */
  lemma QuoteRoundTrip(s: string, q: char)
    ensures Unquote(Quote(s, q)) == s
  {
    DoubledRoundTrip(s, q);
    assert Quote(s, q)[1..|Quote(s, q)| - 1] == Doubled(s, q);
  }

  // ----- how the scanner sees a piece of SQL

  /** In code state before and after, `text` is masked to `mask`. */
  ghost predicate Masks(text: string, mask: string) {
    Scan(text, Code) == (mask, Code)
  }

  predicate Neutral(c: char) {
    !IsTag(c) && c != '-' && c != '/' && c != '*'
  }

  predicate Apart(a: string, b: string) {
    a == "" || b == "" || Neutral(a[|a| - 1]) || Neutral(b[0])
  }

  lemma Glue(a: string, ma: string, b: string, mb: string)
    requires Masks(a, ma) && Masks(b, mb) && Apart(a, b)
    ensures Masks(a + b, ma + mb)
  {
    ScanSplit(a, b, Code);
  }

  /** A quoted piece is masked to blanks of its own length, whatever is in it. */
  lemma QuotedMasks(s: string, q: char)
    requires q == '\'' || q == '"'
    ensures Masks(Quote(s, q), Blanks(|Quote(s, q)|))
  {
    DoubledRoundTrip(s, q);
    ScanQuotedToken(q, Doubled(s, q), "");
    assert Text(Quoted(q, Doubled(s, q))) + "" == Quote(s, q);
    assert Blanks(|Quote(s, q)|) + "" == Blanks(|Quote(s, q)|);
  }

  /** Placed anywhere in code, a quoted piece is masked to blanks and the text on
      both sides is masked as if it stood alone: no name or value leaks into code,
      and none hides code. */
  lemma {:induction false} QuotingComposes(before: string, s: string, q: char, after: string)
    requires q == '\'' || q == '"'
    requires Scan(before, Code).1 == Code
    ensures var quoted := Quote(s, q);
      && Scan(before + quoted + after, Code)
         == (Scan(before, Code).0 + Blanks(|quoted|) + Scan(after, Code).0, Scan(after, Code).1)
      && (Mask(before + quoted + after).Ok? <==> Mask(after).Ok?)
  {
    var quoted := Quote(s, q);
    QuotedMasks(s, q);
    assert quoted[0] == q && quoted[|quoted| - 1] == q;
    ScanSplit(before, quoted, Code);
    assert (before + quoted)[|before + quoted| - 1] == q;
    ScanSplit(before + quoted, after, Code);
  }

  /** Text without quotes, dollars and comment openers. */
  predicate PlainText(t: string) {
    forall i :: 0 <= i < |t| ==>
      && t[i] != '\'' && t[i] != '"' && t[i] != '$'
      && (i + 1 < |t| ==> !(t[i] == '-' && t[i + 1] == '-') && !(t[i] == '/' && t[i + 1] == '*'))
  }

  lemma {:induction false} PlainMasks(t: string)
    requires PlainText(t)
    ensures Masks(t, t)
  {
    if t != "" {
      assert PlainText(t[1..]);
      PlainMasks(t[1..]);
      assert Next(t, Code) == (Code, 1);
      assert t == t[..1] + t[1..];
    }
  }

  lemma IntPlain(n: int)
    ensures PlainText(IntText(n))
  {
  }

  /** Floats print as digits, a point, an exponent and signs that never repeat. */
  predicate Printable(v: Value) {
    match v
    case FloatValue(repr) => PlainText(repr)
    case ListValue(vs) => forall i :: 0 <= i < |vs| ==> Printable(vs[i])
    case _ => true
  }

  /** What is left of a literal after masking: its text unless it is a string. */
  function MaskedLiteral(v: Value): string
    requires SqlLiteral(v).Sql?
  {
    match v
    case TextValue(s) => Blanks(|Quote(s, '\'')|)
    case ListValue(vs) => "(" + MaskedLiterals(vs) + ")"
    case _ => SqlLiteral(v).text
  }

  function MaskedLiterals(vs: seq<Value>): string
    requires SqlLiterals(vs).Sql?
  {
    if vs == [] then ""
    else MaskedLiteral(vs[0]) + (if |vs| == 1 then "" else ", " + MaskedLiterals(vs[1..]))
  }

  lemma {:induction false} LiteralMasks(v: Value)
    requires Printable(v) && SqlLiteral(v).Sql?
    ensures Masks(SqlLiteral(v).text, MaskedLiteral(v))
    decreases v, 1
  {
    hide Masks, Digits, Quote;
    match v
    case NullValue => PlainMasks("NULL");
    case BoolValue(b) => PlainMasks("TRUE"); PlainMasks("FALSE");
    case IntValue(n) => IntPlain(n); PlainMasks(IntText(n));
    case FloatValue(repr) => PlainMasks(repr);
    case TextValue(s) => QuotedMasks(s, '\'');
    case ListValue(vs) =>
      LiteralsMask(vs);
      PlainMasks("(");
      PlainMasks(")");
      Glue("(", "(", SqlLiterals(vs).text, MaskedLiterals(vs));
      Glue("(" + SqlLiterals(vs).text, "(" + MaskedLiterals(vs), ")", ")");
  }

  lemma {:induction false} LiteralsMask(vs: seq<Value>)
    requires SqlLiterals(vs).Sql?
    requires forall i :: 0 <= i < |vs| ==> Printable(vs[i])
    ensures Masks(SqlLiterals(vs).text, MaskedLiterals(vs))
    decreases vs, 0
  {
    hide Masks;
    if vs == [] {
      PlainMasks("");
    } else {
      LiteralMasks(vs[0]);
      if |vs| == 1 {
        assert SqlLiterals(vs).text == SqlLiteral(vs[0]).text;
        assert MaskedLiterals(vs) == MaskedLiteral(vs[0]);
      } else {
        LiteralsMask(vs[1..]);
        PlainMasks(", ");
        Glue(", ", ", ", SqlLiterals(vs[1..]).text, MaskedLiterals(vs[1..]));
        Glue(SqlLiteral(vs[0]).text, MaskedLiteral(vs[0]),
             ", " + SqlLiterals(vs[1..]).text, ", " + MaskedLiterals(vs[1..]));
      }
    }
  }

  // ----- the filter builder

  const WHERE := "SELECT * FROM " + "__input__ WHERE "
  const ORDER_BY := "SELECT * FROM " + "__input__ ORDER BY "

  function CompareOperator(op: string): Option<string> {
    match op
    case "equals" => Some(" = ")
    case "eq" => Some(" = ")
    case "not_equals" => Some(" != ")
    case "neq" => Some(" != ")
    case "greater_than" => Some(" > ")
    case "gt" => Some(" > ")
    case "less_than" => Some(" < ")
    case "lt" => Some(" < ")
    case "gte" => Some(" >= ")
    case "lte" => Some(" <= ")
    case _ => None
  }

  /** The operator text and the pattern of the operators that match on text. */
  function PatternOperator(op: string, text: string): Option<(string, string)> {
    match op
    case "contains" => Some((" AS VARCHAR) LIKE ", "%" + text + "%"))
    case "not_contains" => Some((" AS VARCHAR) NOT LIKE ", "%" + text + "%"))
    case "starts_with" => Some((" AS VARCHAR) LIKE ", text + "%"))
    case "ends_with" => Some((" AS VARCHAR) LIKE ", "%" + text))
    case _ => None
  }

  function NullOperator(op: string): Option<string> {
    match op
    case "is_null" => Some(" IS NULL")
    case "is_not_null" => Some(" IS NOT NULL")
    case _ => None
  }

  /** `op` is the operator in lower case and `text` is how the value prints. */
  function BuildFilterSql(column: string, op: string, value: Value, text: string): Built {
    var col := QuoteIdentifier(column);
    if col.ValueError? then ValueError
    else if CompareOperator(op).Some? then
      var literal := SqlLiteral(value);
      if literal.ValueError? then ValueError
      else Sql(WHERE + (col.text + CompareOperator(op).value + literal.text))
    else if PatternOperator(op, text).Some? then
      var (like, pattern) := PatternOperator(op, text).value;
      Sql(WHERE + ("CAST(" + col.text + like + Quote(pattern, '\'')))
    else if NullOperator(op).Some? then Sql(WHERE + (col.text + NullOperator(op).value))
    else ValueError
  }

  /** The code of a filter: fixed by the operator, with `c` blanks for the column
      and the masked value or pattern. */
  function FilterSkeleton(op: string, c: nat, masked: string): string {
    if CompareOperator(op).Some? then WHERE + (Blanks(c) + CompareOperator(op).value + masked)
    else if PatternOperator(op, "").Some? then WHERE + ("CAST(" + Blanks(c) + PatternOperator(op, "").value.0 + masked)
    else if NullOperator(op).Some? then WHERE + (Blanks(c) + NullOperator(op).value)
    else ""
  }

  lemma ConstantsMask()
    ensures Masks(WHERE, WHERE) && Masks(ORDER_BY, ORDER_BY) && Masks("CAST(", "CAST(")
  {
    hide Masks;
    PlainMasks("SELECT * FROM ");
    PlainMasks("__input__ WHERE ");
    PlainMasks("__input__ ORDER BY ");
    PlainMasks("CAST(");
    Glue("SELECT * FROM ", "SELECT * FROM ", "__input__ WHERE ", "__input__ WHERE ");
    Glue("SELECT * FROM ", "SELECT * FROM ", "__input__ ORDER BY ", "__input__ ORDER BY ");
  }

  lemma MasksMeansMask(text: string, mask: string)
    requires Masks(text, mask)
    ensures Mask(text) == Ok(mask)
  {
    hide Scan;
  }

  /** Operators are plain code between blanks. */
  ghost predicate Spaced(t: string) { Masks(t, t) && t != "" && t[0] == ' ' && t[|t| - 1] == ' ' }

  lemma SpacedPlain(t: string)
    requires PlainText(t) && t != "" && t[0] == ' ' && t[|t| - 1] == ' '
    ensures Spaced(t)
  {
    PlainMasks(t);
  }

  lemma ComparesMask(op: string)
    ensures CompareOperator(op).Some? ==> Spaced(CompareOperator(op).value)
  {
    hide Spaced;
    SpacedPlain(" = ");
    SpacedPlain(" != ");
    SpacedPlain(" > ");
    SpacedPlain(" < ");
    SpacedPlain(" >= ");
    SpacedPlain(" <= ");
  }

  lemma PatternsMask(op: string, text: string)
    ensures PatternOperator(op, text).Some? ==> Spaced(PatternOperator(op, text).value.0)
  {
    hide Spaced;
    SpacedPlain(" AS VARCHAR) LIKE ");
    SpacedPlain(" AS VARCHAR) NOT LIKE ");
  }

  lemma NullsMask(op: string)
    ensures NullOperator(op).Some? ==>
      var t := NullOperator(op).value; Masks(t, t) && t != "" && t[0] == ' '
  {
    hide Masks;
    PlainMasks(" IS NULL");
    PlainMasks(" IS NOT NULL");
  }

  /** Three pieces whose middle starts and ends with a blank. */
  lemma GlueThree(a: string, ma: string, b: string, mb: string, c: string, mc: string)
    requires Masks(a, ma) && Masks(b, mb) && Masks(c, mc)
    requires b != "" && b[0] == ' ' && b[|b| - 1] == ' '
    ensures Masks(a + b + c, ma + mb + mc)
  {
    hide Masks;
    Glue(a, ma, b, mb);
    assert (a + b)[|a + b| - 1] == ' ';
    Glue(a + b, ma + mb, c, mc);
  }

  lemma GlueWhere(predicateText: string, mask: string)
    requires Masks(predicateText, mask)
    ensures Masks(WHERE + predicateText, WHERE + mask)
  {
    hide Masks;
    ConstantsMask();
    assert WHERE[|WHERE| - 1] == ' ';
    Glue(WHERE, WHERE, predicateText, mask);
  }

  lemma GlueCast(rest: string, mask: string)
    requires Masks(rest, mask)
    ensures Masks("CAST(" + rest, "CAST(" + mask)
  {
    hide Masks;
    ConstantsMask();
    Glue("CAST(", "CAST(", rest, mask);
  }

  lemma {:induction false} ComparisonMasks(column: string, t: string, value: Value)
    requires Masks(t, t) && t != "" && t[0] == ' ' && t[|t| - 1] == ' '
    requires Printable(value) && SqlLiteral(value).Sql?
    ensures var n := |Quote(column, '"')|;
      Mask(WHERE + (Quote(column, '"') + t + SqlLiteral(value).text))
        == Ok(WHERE + (Blanks(n) + t + MaskedLiteral(value)))
  {
    hide Masks, Mask, Quote, SqlLiteral, MaskedLiteral;
    var col, n, literal, masked := Quote(column, '"'), |Quote(column, '"')|,
      SqlLiteral(value).text, MaskedLiteral(value);
    QuotedMasks(column, '"');
    LiteralMasks(value);
    GlueThree(col, Blanks(n), t, t, literal, masked);
    GlueWhere(col + t + literal, Blanks(n) + t + masked);
    MasksMeansMask(WHERE + (col + t + literal), WHERE + (Blanks(n) + t + masked));
  }

  lemma PatternMasks(column: string, like: string, pattern: string)
    requires Masks(like, like) && like != "" && like[0] == ' ' && like[|like| - 1] == ' '
    ensures var n, m := |Quote(column, '"')|, |Quote(pattern, '\'')|;
      Mask(WHERE + ("CAST(" + Quote(column, '"') + like + Quote(pattern, '\'')))
        == Ok(WHERE + ("CAST(" + Blanks(n) + like + Blanks(m)))
  {
    hide Masks, Mask, Quote;
    var col, n, quoted, m := Quote(column, '"'), |Quote(column, '"')|, Quote(pattern, '\''), |Quote(pattern, '\'')|;
    QuotedMasks(column, '"');
    QuotedMasks(pattern, '\'');
    GlueCast(col, Blanks(n));
    GlueThree("CAST(" + col, "CAST(" + Blanks(n), like, like, quoted, Blanks(m));
    GlueWhere("CAST(" + col + like + quoted, "CAST(" + Blanks(n) + like + Blanks(m));
    MasksMeansMask(WHERE + ("CAST(" + col + like + quoted), WHERE + ("CAST(" + Blanks(n) + like + Blanks(m)));
  }

  lemma NullTestMasks(column: string, t: string)
    requires Masks(t, t) && t != "" && t[0] == ' '
    ensures Mask(WHERE + (Quote(column, '"') + t)) == Ok(WHERE + (Blanks(|Quote(column, '"')|) + t))
  {
    hide Masks, Mask, Quote;
    var col, n := Quote(column, '"'), |Quote(column, '"')|;
    QuotedMasks(column, '"');
    Glue(col, Blanks(n), t, t);
    GlueWhere(col + t, Blanks(n) + t);
    MasksMeansMask(WHERE + (col + t), WHERE + (Blanks(n) + t));
  }

  lemma LikeIsFixed(op: string, text: string)
    ensures PatternOperator(op, text).Some? <==> PatternOperator(op, "").Some?
    ensures PatternOperator(op, text).Some? ==> PatternOperator(op, text).value.0 == PatternOperator(op, "").value.0
  {
  }

  /** For every column name and every value, the scanner sees the operator's skeleton. */
  lemma {:induction false} FilterKeepsSkeleton(column: string, op: string, value: Value, text: string)
    requires BuildFilterSql(column, op, value, text).Sql? && Printable(value)
    ensures var masked :=
        if CompareOperator(op).Some? then MaskedLiteral(value)
        else if PatternOperator(op, text).Some? then Blanks(|Quote(PatternOperator(op, text).value.1, '\'')|)
        else "";
      Mask(BuildFilterSql(column, op, value, text).text)
        == Ok(FilterSkeleton(op, |Quote(column, '"')|, masked))
  {
    ComparesMask(op);
    PatternsMask(op, text);
    NullsMask(op);
    LikeIsFixed(op, text);
    hide CompareOperator, PatternOperator, NullOperator, Masks, Mask, Quote, SqlLiteral, MaskedLiteral;
    if CompareOperator(op).Some? {
      ComparisonMasks(column, CompareOperator(op).value, value);
    } else if PatternOperator(op, text).Some? {
      PatternMasks(column, PatternOperator(op, text).value.0, PatternOperator(op, text).value.1);
    } else {
      NullTestMasks(column, NullOperator(op).value);
    }
  }

  // ----- lists of quoted names

  function Join(parts: seq<string>): string {
    if parts == [] then ""
    else if |parts| == 1 then parts[0]
    else parts[0] + ", " + Join(parts[1..])
  }

  lemma {:induction false} JoinMasks(parts: seq<string>, masks: seq<string>)
    requires |parts| == |masks|
    requires forall i :: 0 <= i < |parts| ==> Masks(parts[i], masks[i])
    ensures Masks(Join(parts), Join(masks))
  {
    hide Masks;
    if parts == [] {
      PlainMasks("");
    } else if |parts| > 1 {
      PlainMasks(", ");
      JoinMasks(parts[1..], masks[1..]);
      GlueComma(parts[0], masks[0], Join(parts[1..]), Join(masks[1..]));
    }
  }

  lemma GlueComma(a: string, ma: string, b: string, mb: string)
    requires Masks(a, ma) && Masks(b, mb)
    ensures Masks(a + ", " + b, ma + ", " + mb)
  {
    hide Masks;
    PlainMasks(", ");
    Glue(a, ma, ", ", ", ");
    assert (a + ", ")[|a + ", "| - 1] == ' ';
    Glue(a + ", ", ma + ", ", b, mb);
  }

  // ----- the sort builder

  function NonEmptyNames(names: seq<string>): (kept: seq<string>)
    ensures "" !in kept
  {
    if names == [] then []
    else (if names[0] == "" then [] else [names[0]]) + NonEmptyNames(names[1..])
  }

  /** One direction per column, true for ascending: a single flag is repeated, and a
      list of another length is refused. */
  function Directions(n: nat, ascending: Option<seq<bool>>, descending: bool): Option<seq<bool>> {
    match ascending
    case None => Some(seq(n, _ => !descending))
    case Some(flags) =>
      if |flags| == 1 && n > 1 then Some(seq(n, _ => flags[0]))
      else if |flags| != n then None
      else Some(flags)
  }

  function Direction(asc: bool): string {
    if asc then " ASC" else " DESC"
  }

  function SortTerms(columns: seq<string>, directions: seq<bool>): (terms: seq<string>)
    requires |columns| == |directions|
    ensures |terms| == |columns|
    ensures forall i :: 0 <= i < |columns| ==> terms[i] == Quote(columns[i], '"') + Direction(directions[i])
  {
    seq(|columns|, i requires 0 <= i < |columns| => Quote(columns[i], '"') + Direction(directions[i]))
  }

  function BuildSortSql(sortBy: seq<string>, ascending: Option<seq<bool>>, descending: bool): Built {
    var columns := NonEmptyNames(sortBy);
    if columns == [] then ValueError
    else
      var directions := Directions(|columns|, ascending, descending);
      if directions.None? then ValueError
      else Sql(ORDER_BY + Join(SortTerms(columns, directions.value)))
  }

  function SortMasks(columns: seq<string>, directions: seq<bool>): (masks: seq<string>)
    requires |columns| == |directions|
    ensures |masks| == |columns|
    ensures forall i :: 0 <= i < |columns| ==> masks[i] == Blanks(|Quote(columns[i], '"')|) + Direction(directions[i])
  {
    seq(|columns|, i requires 0 <= i < |columns| => Blanks(|Quote(columns[i], '"')|) + Direction(directions[i]))
  }

  lemma SortTermMasks(column: string, asc: bool)
    ensures Masks(Quote(column, '"') + Direction(asc), Blanks(|Quote(column, '"')|) + Direction(asc))
  {
    hide Masks;
    QuotedMasks(column, '"');
    PlainMasks(" ASC");
    PlainMasks(" DESC");
    Glue(Quote(column, '"'), Blanks(|Quote(column, '"')|), Direction(asc), Direction(asc));
  }

  /** Sorting SQL is its column count and directions, for every choice of names. */
  lemma {:induction false} SortKeepsSkeleton(sortBy: seq<string>, ascending: Option<seq<bool>>, descending: bool)
    requires BuildSortSql(sortBy, ascending, descending).Sql?
    ensures var columns := NonEmptyNames(sortBy);
      Mask(BuildSortSql(sortBy, ascending, descending).text)
        == Ok(ORDER_BY + Join(SortMasks(columns, Directions(|columns|, ascending, descending).value)))
  {
    var columns := NonEmptyNames(sortBy);
    var directions := Directions(|columns|, ascending, descending).value;
    var terms, masks := SortTerms(columns, directions), SortMasks(columns, directions);
    forall i | 0 <= i < |columns|
      ensures Masks(terms[i], masks[i])
    {
      SortTermMasks(columns[i], directions[i]);
    }
    JoinMasks(terms, masks);
    GlueOrderBy(Join(terms), Join(masks));
  }

  lemma GlueOrderBy(rest: string, mask: string)
    requires Masks(rest, mask)
    ensures Masks(ORDER_BY + rest, ORDER_BY + mask)
  {
    hide Masks;
    ConstantsMask();
    assert ORDER_BY[|ORDER_BY| - 1] == ' ';
    Glue(ORDER_BY, ORDER_BY, rest, mask);
  }

  // ----- the aggregate builder

  datatype Aggregation = Aggregation(column: string, fn: string, alias: Option<string>)

  function SimpleFunction(fn: string): (name: Option<string>)
    ensures name.Some? ==> forall i :: 0 <= i < |name.value| ==> 'A' <= name.value[i] <= 'Z' || name.value[i] == '_'
  {
    match fn
    case "sum" => Some("SUM")
    case "mean" => Some("AVG")
    case "avg" => Some("AVG")
    case "min" => Some("MIN")
    case "max" => Some("MAX")
    case "count" => Some("COUNT")
    case "median" => Some("MEDIAN")
    case "std" => Some("STDDEV_SAMP")
    case "var" => Some("VAR_SAMP")
    case "first" => Some("FIRST")
    case "last" => Some("LAST")
    case "mode" => Some("MODE")
    case _ => None
  }

  /** The text before and after the column, for the functions DuckDB is asked for. */
  function AggregateShape(fn: string): Option<(string, string)> {
    match fn
    case "count_distinct" => Some(("COUNT(DISTINCT ", ") AS "))
    case "p50" => Some(("QUANTILE_CONT(", ", 0.5) AS "))
    case "p95" => Some(("QUANTILE_CONT(", ", 0.95) AS "))
    case _ =>
      match SimpleFunction(fn)
      case Some(name) => Some((name + "(", ") AS "))
      case None => None
  }

  function Alias(agg: Aggregation): string {
    match agg.alias
    case Some(alias) => alias
    case None => agg.column + "_" + agg.fn
  }

  function AggregateTerm(agg: Aggregation): Built {
    if agg.column == "" || Alias(agg) == "" || AggregateShape(agg.fn).None? then ValueError
    else
      var (open, close) := AggregateShape(agg.fn).value;
      Sql(open + Quote(agg.column, '"') + close + Quote(Alias(agg), '"'))
  }

  function AggregateTerms(aggs: seq<Aggregation>): Option<seq<string>> {
    if aggs == [] then Some([])
    else
      var init := AggregateTerms(aggs[..|aggs| - 1]);
      var last := AggregateTerm(aggs[|aggs| - 1]);
      if init.None? || last.ValueError? then None else Some(init.value + [last.text])
  }

  function QuotedNames(names: seq<string>): (quoted: seq<string>)
    ensures |quoted| == |names|
    ensures forall i :: 0 <= i < |names| ==> quoted[i] == Quote(names[i], '"')
  {
    seq(|names|, i requires 0 <= i < |names| => Quote(names[i], '"'))
  }

  function GroupClause(groupBy: seq<string>, quoted: seq<string>): string {
    if groupBy == [] then "" else " GROUP BY " + Join(quoted)
  }

  /** `fn` is the function name in lower case. */
  function AggregateSql(groupBy: seq<string>, aggs: seq<Aggregation>): Built {
    if aggs == [] || "" in groupBy || AggregateTerms(aggs).None? then ValueError
    else
      var group := QuotedNames(groupBy);
      Sql("SELECT " + Join(group + AggregateTerms(aggs).value) + (" FROM __input__" + GroupClause(groupBy, group)))
  }

  method BuildAggregateSql(groupBy: seq<string>, aggs: seq<Aggregation>) returns (r: Built)
    ensures r == AggregateSql(groupBy, aggs)
  {
    if aggs == [] || "" in groupBy {
      return ValueError;
    }
    var selectParts := QuotedNames(groupBy);
    for k := 0 to |aggs|
      invariant AggregateTerms(aggs[..k]).Some?
      invariant selectParts == QuotedNames(groupBy) + AggregateTerms(aggs[..k]).value
    {
      assert aggs[..k + 1][..k] == aggs[..k];
      var term := AggregateTerm(aggs[k]);
      if term.ValueError? {
        TermsFail(aggs, k);
        return ValueError;
      }
      selectParts := selectParts + [term.text];
    }
    assert aggs[..|aggs|] == aggs;
    r := Sql("SELECT " + Join(selectParts) + (" FROM __input__" + GroupClause(groupBy, QuotedNames(groupBy))));
  }

  lemma {:induction false} TermsFail(aggs: seq<Aggregation>, k: nat)
    requires k < |aggs| && AggregateTerm(aggs[k]).ValueError?
    ensures AggregateTerms(aggs).None?
    decreases |aggs|
  {
    if k < |aggs| - 1 {
      TermsFail(aggs[..|aggs| - 1], k);
    }
  }

  function NameMasks(names: seq<string>): (masks: seq<string>)
    ensures |masks| == |names|
    ensures forall i :: 0 <= i < |names| ==> masks[i] == Blanks(|Quote(names[i], '"')|)
  {
    seq(|names|, i requires 0 <= i < |names| => Blanks(|Quote(names[i], '"')|))
  }

  function AggregateMasks(aggs: seq<Aggregation>): (masks: seq<string>)
    requires AggregateTerms(aggs).Some?
    ensures |masks| == |aggs|
  {
    if aggs == [] then []
    else
      var agg := aggs[|aggs| - 1];
      var (open, close) := AggregateShape(agg.fn).value;
      AggregateMasks(aggs[..|aggs| - 1])
      + [open + Blanks(|Quote(agg.column, '"')|) + close + Blanks(|Quote(Alias(agg), '"')|)]
  }

  lemma ShapeMasks(fn: string)
    requires AggregateShape(fn).Some?
    ensures var (open, close) := AggregateShape(fn).value;
      && Masks(open, open) && open != "" && Neutral(open[|open| - 1])
      && Masks(close, close) && close != "" && Neutral(close[0]) && close[|close| - 1] == ' '
  {
    hide Masks, SimpleFunction;
    ClosesMask();
    PlainMasks("COUNT(DISTINCT ");
    PlainMasks("QUANTILE_CONT(");
    if SimpleFunction(fn).Some? {
      SimplePlain(fn);
      PlainMasks(SimpleFunction(fn).value + "(");
    }
  }

  lemma ClosesMask()
    ensures Masks(") AS ", ") AS ") && Masks(", 0.5) AS ", ", 0.5) AS ") && Masks(", 0.95) AS ", ", 0.95) AS ")
  {
    hide Masks;
    PlainMasks(") AS ");
    PlainMasks(", 0.5) AS ");
    PlainMasks(", 0.95) AS ");
  }

  lemma SimplePlain(fn: string)
    requires SimpleFunction(fn).Some?
    ensures PlainText(SimpleFunction(fn).value + "(")
  {
  }

  lemma TermMasks(agg: Aggregation)
    requires AggregateTerm(agg).Sql?
    ensures var (open, close) := AggregateShape(agg.fn).value;
      Masks(AggregateTerm(agg).text, open + Blanks(|Quote(agg.column, '"')|) + close + Blanks(|Quote(Alias(agg), '"')|))
  {
    hide Masks, AggregateShape, Quote, Alias;
    ShapeMasks(agg.fn);
    var (open, close) := AggregateShape(agg.fn).value;
    QuotedMasks(agg.column, '"');
    QuotedMasks(Alias(agg), '"');
    GlueFour(open, close, Quote(agg.column, '"'), Quote(Alias(agg), '"'));
  }

  lemma GlueFour(open: string, close: string, col: string, alias: string)
    requires Masks(open, open) && Masks(close, close) && close != "" && Neutral(close[0]) && close[|close| - 1] == ' '
    requires open != "" && Neutral(open[|open| - 1])
    requires Masks(col, Blanks(|col|)) && Masks(alias, Blanks(|alias|))
    ensures Masks(open + col + close + alias, open + Blanks(|col|) + close + Blanks(|alias|))
  {
    hide Masks, Blanks;
    Glue(open, open, col, Blanks(|col|));
    Glue(open + col, open + Blanks(|col|), close, close);
    assert (open + col + close)[|open + col + close| - 1] == ' ';
    Glue(open + col + close, open + Blanks(|col|) + close, alias, Blanks(|alias|));
  }

  lemma {:induction false} TermsMask(aggs: seq<Aggregation>)
    requires AggregateTerms(aggs).Some?
    ensures |AggregateTerms(aggs).value| == |aggs|
    ensures forall i :: 0 <= i < |aggs| ==> Masks(AggregateTerms(aggs).value[i], AggregateMasks(aggs)[i])
  {
    if aggs != [] {
      TermMasks(aggs[|aggs| - 1]);
      hide Masks, AggregateTerm, AggregateShape;
      TermsMask(aggs[..|aggs| - 1]);
    }
  }

  /** Aggregation SQL is fixed by the functions and the number of grouping columns. */
  lemma {:induction false} AggregateKeepsSkeleton(groupBy: seq<string>, aggs: seq<Aggregation>)
    requires AggregateSql(groupBy, aggs).Sql?
    ensures var group := NameMasks(groupBy);
      Mask(AggregateSql(groupBy, aggs).text)
        == Ok("SELECT " + Join(group + AggregateMasks(aggs)) + (" FROM __input__" + GroupClause(groupBy, group)))
  {
    hide Masks, Mask, Quote, AggregateTerms, AggregateMasks, GroupClause, Join, Blanks;
    var quoted, group := QuotedNames(groupBy), NameMasks(groupBy);
    var terms, masks := AggregateTerms(aggs).value, AggregateMasks(aggs);
    forall i | 0 <= i < |groupBy|
      ensures Masks(quoted[i], group[i])
    {
      QuotedMasks(groupBy[i], '"');
    }
    TermsMask(aggs);
    JoinMasks(quoted, group);
    JoinMasks(quoted + terms, group + masks);
    GroupMasks(groupBy, quoted, group);
    SelectMasks(Join(quoted + terms), Join(group + masks),
                " FROM __input__" + GroupClause(groupBy, quoted), " FROM __input__" + GroupClause(groupBy, group));
    MasksMeansMask("SELECT " + Join(quoted + terms) + (" FROM __input__" + GroupClause(groupBy, quoted)),
                   "SELECT " + Join(group + masks) + (" FROM __input__" + GroupClause(groupBy, group)));
  }

  lemma {:induction false} GroupMasks(groupBy: seq<string>, quoted: seq<string>, group: seq<string>)
    requires Masks(Join(quoted), Join(group))
    ensures Masks(" FROM __input__" + GroupClause(groupBy, quoted), " FROM __input__" + GroupClause(groupBy, group))
  {
    hide Masks;
    PlainMasks(" FROM __input__");
    PlainMasks(" GROUP BY ");
    PlainMasks("");
    Glue(" GROUP BY ", " GROUP BY ", Join(quoted), Join(group));
    Glue(" FROM __input__", " FROM __input__", GroupClause(groupBy, quoted), GroupClause(groupBy, group));
  }

  lemma SelectMasks(a: string, ma: string, b: string, mb: string)
    requires Masks(a, ma) && Masks(b, mb) && b != "" && b[0] == ' '
    ensures Masks("SELECT " + a + b, "SELECT " + ma + mb)
  {
    hide Masks;
    PlainMasks("SELECT ");
    Glue("SELECT ", "SELECT ", a, ma);
    Glue("SELECT " + a, "SELECT " + ma, b, mb);
  }
}
