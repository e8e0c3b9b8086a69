/** What the built SQL says: a reader of the builders' texts, and what its conditions mean.

    Reading a built text gives the step's condition, order or aggregations back, for every
    name and value. */
module SqlReading {
  import opened Basics
  import opened SqlBuilder
  import Glob

  // ----- quoted pieces and numbers

  /** Reads up to the closing quote; a doubled quote stands for itself. */
  function ReadBody(s: string, q: char): (r: Option<(string, string)>)
    ensures r.Some? ==> |r.value.1| < |s|
  {
    if s == "" then None
    else if s[0] == q && (|s| == 1 || s[1] != q) then Some(("", s[1..]))
    else
      var rest := ReadBody(if s[0] == q then s[2..] else s[1..], q);
      if rest.None? then None else Some(([s[0]] + rest.value.0, rest.value.1))
  }

  function ReadQuoted(s: string, q: char): (r: Option<(string, string)>)
    ensures r.Some? ==> |r.value.1| < |s|
  {
    if s == "" || s[0] != q then None else ReadBody(s[1..], q)
  }

  lemma {:induction false} BodyReads(c: string, q: char, rest: string)
    requires rest == "" || rest[0] != q
    ensures ReadBody(Doubled(c, q) + [q] + rest, q) == Some((c, rest))
  {
    var s := Doubled(c, q) + [q] + rest;
    if c == "" {
      assert s[1..] == rest;
    } else {
      BodyReads(c[1..], q, rest);
      var tail := Doubled(c[1..], q) + [q] + rest;
      assert c == [c[0]] + c[1..];
      if c[0] == q {
        assert s[2..] == tail;
      } else {
        assert s[1..] == tail;
      }
    }
  }

  /** A quoted text is read back whatever is in it, as long as no quote follows. */
  lemma QuotedReads(c: string, q: char, rest: string)
    requires rest == "" || rest[0] != q
    ensures ReadQuoted(Quote(c, q) + rest, q) == Some((c, rest))
  {
    BodyReads(c, q, rest);
    assert (Quote(c, q) + rest)[1..] == Doubled(c, q) + [q] + rest;
  }

  predicate IsDigit(c: char) { '0' <= c <= '9' }

  predicate IsNumberChar(c: char) { IsDigit(c) || c == '-' || c == '+' || c == '.' || c == 'e' }

  function NatOf(digits: string): nat {
    if digits == "" then 0
    else
      var n := |digits| - 1;
      10 * NatOf(digits[..n]) + if IsDigit(digits[n]) then (digits[n] - '0') as nat else 0
  }

  predicate IsIntText(t: string) {
    var digits := if t != "" && t[0] == '-' then t[1..] else t;
    digits != "" && forall i :: 0 <= i < |digits| ==> IsDigit(digits[i])
  }

  function IntOf(t: string): int {
    if t != "" && t[0] == '-' then -(NatOf(t[1..]) as int) else NatOf(t)
  }

  lemma {:induction false} NatReads(n: nat)
    ensures NatOf(Digits(n)) == n
  {
    if n >= 10 {
      NatReads(n / 10);
      assert Digits(n)[..|Digits(n)| - 1] == Digits(n / 10);
    }
  }

  lemma IntReads(n: int)
    ensures IsIntText(IntText(n)) && IntOf(IntText(n)) == n
    ensures IntText(n) != "" && forall i :: 0 <= i < |IntText(n)| ==> IsNumberChar(IntText(n)[i])
  {
    if n < 0 {
      NatReads(-n);
      var t := Digits(-n);
      assert IntText(n)[0] == '-' && IntText(n)[1..] == t;
      assert forall i :: 0 <= i < |t| ==> IsDigit(t[i]);
    } else {
      NatReads(n);
      var t := Digits(n);
      assert IntText(n) == t && '0' <= t[0] <= '9' && t[0] != '-';
      assert forall i :: 0 <= i < |t| ==> IsDigit(t[i]);
    }
  }

  function NumberRun(s: string): (n: nat)
    ensures n <= |s|
  {
    if s == "" || !IsNumberChar(s[0]) then 0 else 1 + NumberRun(s[1..])
  }

  lemma {:induction false} NumberRunIs(t: string, rest: string)
    requires forall i :: 0 <= i < |t| ==> IsNumberChar(t[i])
    requires rest == "" || !IsNumberChar(rest[0])
    ensures NumberRun(t + rest) == |t|
  {
    if t == "" {
      assert t + rest == rest;
    } else {
      assert (t + rest)[1..] == t[1..] + rest;
      NumberRunIs(t[1..], rest);
    }
  }

  // ----- literals

  function ReadWord(s: string, word: string, v: Value): (r: Option<(Value, string)>)
    requires word != ""
    ensures r.Some? ==> |r.value.1| < |s|
  {
    if word <= s then Some((v, s[|word|..])) else None
  }

  function ReadNumber(s: string): (r: Option<(Value, string)>)
    ensures r.Some? ==> |r.value.1| < |s|
  {
    var n := NumberRun(s);
    if n == 0 then None
    else Some((if IsIntText(s[..n]) then IntValue(IntOf(s[..n])) else FloatValue(s[..n]), s[n..]))
  }

  /** A literal at the start of the text, and what follows it. */
  function ReadValue(s: string): (r: Option<(Value, string)>)
    ensures r.Some? ==> |r.value.1| < |s|
    decreases |s|, 1
  {
    if s == "" then None
    else if s[0] == '\'' then
      var text := ReadQuoted(s, '\'');
      if text.None? then None else Some((TextValue(text.value.0), text.value.1))
    else if s[0] == '(' then
      if |s| > 1 && s[1] == ')' then Some((ListValue([]), s[2..]))
      else
        var items := ReadItems(s[1..]);
        if items.None? then None else Some((ListValue(items.value.0), items.value.1))
    else if s[0] == 'N' then ReadWord(s, "NULL", NullValue)
    else if s[0] == 'T' then ReadWord(s, "TRUE", BoolValue(true))
    else if s[0] == 'F' then ReadWord(s, "FALSE", BoolValue(false))
    else ReadNumber(s)
  }

  /** The literals of a list, up to its closing parenthesis. */
  function ReadItems(s: string): (r: Option<(seq<Value>, string)>)
    ensures r.Some? ==> |r.value.1| < |s|
    decreases |s|, 2
  {
    var first := ReadValue(s);
    if first.None? then None
    else
      var (v, rest) := first.value;
      if rest == "" then None
      else if rest[0] == ')' then Some(([v], rest[1..]))
      else if ", " <= rest then
        var others := ReadItems(rest[2..]);
        if others.None? then None else Some(([v] + others.value.0, others.value.1))
      else None
  }

  /** Floats print as number characters that are not those of an integer. */
  predicate Readable(v: Value) {
    match v
    case FloatValue(repr) =>
      repr != "" && !IsIntText(repr) && forall i :: 0 <= i < |repr| ==> IsNumberChar(repr[i])
    case ListValue(vs) => forall i :: 0 <= i < |vs| ==> Readable(vs[i])
    case _ => true
  }

  /** What may follow a literal. */
  predicate Stops(rest: string) { rest == "" || rest[0] == ',' || rest[0] == ')' }

  lemma {:induction false} NumberReads(t: string, rest: string, v: Value)
    requires t != "" && (forall i :: 0 <= i < |t| ==> IsNumberChar(t[i])) && Stops(rest)
    requires v == if IsIntText(t) then IntValue(IntOf(t)) else FloatValue(t)
    ensures ReadValue(t + rest) == Some((v, rest))
  {
    hide IsIntText, IntOf;
    NumberRunIs(t, rest);
    assert (t + rest)[..|t|] == t && (t + rest)[|t|..] == rest && (t + rest)[0] == t[0];
    assert ReadNumber(t + rest) == Some((v, rest));
  }

  lemma {:induction false} WordReads(word: string, rest: string, v: Value)
    requires (word, v) in {("NULL", NullValue), ("TRUE", BoolValue(true)), ("FALSE", BoolValue(false))}
    ensures ReadValue(word + rest) == Some((v, rest))
  {
    assert (word + rest)[|word|..] == rest && word <= word + rest;
  }

  lemma {:induction false} LiteralStarts(v: Value)
    requires Readable(v) && SqlLiteral(v).Sql?
    ensures SqlLiteral(v).text != "" && SqlLiteral(v).text[0] != ')'
  {
    hide SqlLiterals, Quote;
    match v
    case IntValue(n) => IntReads(n);
    case FloatValue(repr) => assert IsNumberChar(repr[0]);
    case TextValue(s) => assert Quote(s, '\'')[0] == '\'' by { QuoteStarts(s, '\''); }
    case _ =>
  }

  lemma QuoteStarts(s: string, q: char)
    ensures Quote(s, q) != "" && Quote(s, q)[0] == q
  {
  }

  /** A literal, nested lists included, is read back exactly. */
  lemma {:induction false} LiteralReads(v: Value, rest: string)
    requires Readable(v) && SqlLiteral(v).Sql? && Stops(rest)
    ensures ReadValue(SqlLiteral(v).text + rest) == Some((v, rest))
    decreases v, 1
  {
    hide Quote, Digits, SqlLiterals, IntText, IsIntText, IntOf, ReadItems;
    match v
    case NullValue => WordReads("NULL", rest, v);
    case BoolValue(b) => WordReads(if b then "TRUE" else "FALSE", rest, v);
    case IntValue(n) =>
      IntReads(n);
      NumberReads(IntText(n), rest, v);
    case FloatValue(repr) => NumberReads(repr, rest, v);
    case TextValue(s) =>
      QuoteStarts(s, '\'');
      QuotedReads(s, '\'', rest);
    case ListValue(vs) =>
      var s := SqlLiteral(v).text + rest;
      if vs == [] {
        EmptyReads(rest);
      } else {
        ItemsRead(vs, rest);
        assert s[1..] == SqlLiterals(vs).text + (")" + rest);
        LiteralsStart(vs);
      }
  }

  /** A value without a literal: a float that is no number, alone or in a list. */
  ghost predicate Unwritable(v: Value) {
    match v
    case FloatValue(repr) => repr == "nan" || repr == "inf" || repr == "-inf"
    case ListValue(vs) => exists i :: 0 <= i < |vs| && Unwritable(vs[i])
    case _ => false
  }

  lemma {:induction false} LiteralRefused(v: Value)
    ensures SqlLiteral(v).ValueError? <==> Unwritable(v)
    decreases v, 1
  {
    if v.ListValue? {
      hide Quote;
      LiteralsRefused(v.vs);
    }
  }

  lemma {:induction false} LiteralsRefused(vs: seq<Value>)
    ensures SqlLiterals(vs).ValueError? <==> exists i :: 0 <= i < |vs| && Unwritable(vs[i])
    decreases vs, 0
  {
    hide SqlLiteral, Unwritable;
    if vs != [] {
      var rest := vs[1..];
      LiteralRefused(vs[0]);
      LiteralsRefused(rest);
      assert forall i :: 0 < i < |vs| ==> vs[i] == rest[i - 1];
    }
  }

  lemma {:induction false} EmptyReads(rest: string)
    ensures SqlLiteral(ListValue([])).text == "()" && ReadValue("()" + rest) == Some((ListValue([]), rest))
  {
    assert ("()" + rest)[2..] == rest;
  }

  lemma {:induction false} LiteralsStart(vs: seq<Value>)
    requires vs != [] && SqlLiterals(vs).Sql? && forall i :: 0 <= i < |vs| ==> Readable(vs[i])
    ensures SqlLiterals(vs).text != "" && SqlLiterals(vs).text[0] != ')'
  {
    hide SqlLiteral, Readable;
    LiteralStarts(vs[0]);
  }

  lemma {:induction false} ItemsRead(vs: seq<Value>, rest: string)
    requires vs != [] && SqlLiterals(vs).Sql? && forall i :: 0 <= i < |vs| ==> Readable(vs[i])
    ensures ReadItems(SqlLiterals(vs).text + (")" + rest)) == Some((vs, rest))
    decreases vs, 0
  {
    hide SqlLiteral, Readable, ReadValue;
    var first, s := SqlLiteral(vs[0]).text, SqlLiterals(vs).text + (")" + rest);
    if |vs| == 1 {
      var after := ")" + rest;
      assert s == first + after;
      LiteralReads(vs[0], after);
      assert after[1..] == rest;
      assert vs == [vs[0]];
    } else {
      var others := SqlLiterals(vs[1..]).text + (")" + rest);
      var after := ", " + others;
      assert s == first + after;
      LiteralReads(vs[0], after);
      assert after[2..] == others && ", " <= after;
      ItemsRead(vs[1..], rest);
      assert vs == [vs[0]] + vs[1..];
    }
  }

  // ----- filters

  datatype Comparison = Equal | Unequal | Greater | Less | AtLeast | AtMost

  datatype Condition =
    | Compares(column: string, comparison: Comparison, value: Value)
    | IsLike(column: string, pattern: string, negated: bool)
    | IsNull(column: string, negated: bool)

  function After(s: string, prefix: string): Option<string> {
    if prefix <= s then Some(s[|prefix|..]) else None
  }

  function ReadComparison(s: string): Option<(Comparison, string)> {
    if " = " <= s then Some((Equal, s[3..]))
    else if " != " <= s then Some((Unequal, s[4..]))
    else if " >= " <= s then Some((AtLeast, s[4..]))
    else if " <= " <= s then Some((AtMost, s[4..]))
    else if " > " <= s then Some((Greater, s[3..]))
    else if " < " <= s then Some((Less, s[3..]))
    else None
  }

  function ReadPattern(column: string, s: string, negated: bool): Option<Condition> {
    var pattern := ReadQuoted(s, '\'');
    if pattern.None? || pattern.value.1 != "" then None else Some(IsLike(column, pattern.value.0, negated))
  }

  /** The condition after `WHERE`. */
  function ReadCondition(s: string): Option<Condition> {
    var cast := After(s, "CAST(");
    var name := ReadQuoted(if cast.Some? then cast.value else s, '"');
    if name.None? then None
    else
      var (column, rest) := name.value;
      if cast.Some? then
        if After(rest, " AS VARCHAR) LIKE ").Some? then
          ReadPattern(column, After(rest, " AS VARCHAR) LIKE ").value, false)
        else if After(rest, " AS VARCHAR) NOT LIKE ").Some? then
          ReadPattern(column, After(rest, " AS VARCHAR) NOT LIKE ").value, true)
        else None
      else if rest == " IS NULL" then Some(IsNull(column, false))
      else if rest == " IS NOT NULL" then Some(IsNull(column, true))
      else
        var op := ReadComparison(rest);
        if op.None? then None
        else
          var value := ReadValue(op.value.1);
          if value.None? || value.value.1 != "" then None
          else Some(Compares(column, op.value.0, value.value.0))
  }

  function ReadFilter(sql: string): Option<Condition> {
    var condition := After(sql, "SELECT * FROM __input__ WHERE ");
    if condition.None? then None else ReadCondition(condition.value)
  }

  /** What a filter step asks for; `op` is the operator's name in lower case and `text`
      how the value prints. */
  ghost function Meant(column: string, op: string, value: Value, text: string): Option<Condition> {
    if op in {"equals", "eq"} then Some(Compares(column, Equal, value))
    else if op in {"not_equals", "neq"} then Some(Compares(column, Unequal, value))
    else if op in {"greater_than", "gt"} then Some(Compares(column, Greater, value))
    else if op in {"less_than", "lt"} then Some(Compares(column, Less, value))
    else if op == "gte" then Some(Compares(column, AtLeast, value))
    else if op == "lte" then Some(Compares(column, AtMost, value))
    else if op == "contains" then Some(IsLike(column, "%" + text + "%", false))
    else if op == "not_contains" then Some(IsLike(column, "%" + text + "%", true))
    else if op == "starts_with" then Some(IsLike(column, text + "%", false))
    else if op == "ends_with" then Some(IsLike(column, "%" + text, false))
    else if op == "is_null" then Some(IsNull(column, false))
    else if op == "is_not_null" then Some(IsNull(column, true))
    else None
  }

  lemma ComparisonReads(op: string, rest: string)
    requires CompareOperator(op).Some?
    ensures Meant("", op, NullValue, "").Some? && Meant("", op, NullValue, "").value.Compares?
    ensures ReadComparison(CompareOperator(op).value + rest)
      == Some((Meant("", op, NullValue, "").value.comparison, rest))
    ensures var t := CompareOperator(op).value; t != "" && t[0] == ' ' && t[1] != 'I'
  {
    var t := CompareOperator(op).value;
    var s := t + rest;
    assert s[|t|..] == rest && t <= s;
    assert s[0] == t[0] && s[1] == t[1] && s[2] == t[2];
  }

  lemma ComparisonMeant(column: string, op: string, value: Value, text: string)
    requires CompareOperator(op).Some?
    ensures Meant("", op, NullValue, "").Some? && Meant("", op, NullValue, "").value.Compares?
    ensures Meant(column, op, value, text) ==
      Some(Compares(column, Meant("", op, NullValue, "").value.comparison, value))
  {
  }

  lemma WhereReads(rest: string)
    ensures ReadFilter(WHERE + rest) == ReadCondition(rest)
  {
    hide ReadCondition;
    var prefix := "SELECT * FROM __input__ WHERE ";
    assert WHERE == prefix;
    assert (prefix + rest)[|prefix|..] == rest;
  }

  lemma NoCast(column: string, rest: string)
    ensures After(Quote(column, '"') + rest, "CAST(").None?
  {
    QuoteStarts(column, '"');
    hide Quote;
    assert (Quote(column, '"') + rest)[0] == '"' && "CAST("[0] == 'C';
  }

  /** A comparison in the text is the one the operator names. */
  lemma {:induction false} CompareReads(column: string, op: string, value: Value, text: string)
    requires CompareOperator(op).Some? && SqlLiteral(value).Sql? && Readable(value)
    ensures ReadCondition(Quote(column, '"') + CompareOperator(op).value + SqlLiteral(value).text)
      == Meant(column, op, value, text)
  {
    ComparisonReads(op, SqlLiteral(value).text);
    ComparisonMeant(column, op, value, text);
    hide CompareOperator, SqlLiteral, Quote, Meant, Readable, ReadValue, ReadComparison;
    var rest := CompareOperator(op).value + SqlLiteral(value).text;
    assert Quote(column, '"') + rest == Quote(column, '"') + CompareOperator(op).value + SqlLiteral(value).text;
    NoCast(column, rest);
    QuotedReads(column, '"', rest);
    LiteralReads(value, "");
    assert SqlLiteral(value).text + "" == SqlLiteral(value).text;
    assert rest[1] != 'I' && " IS NULL"[1] == 'I' && " IS NOT NULL"[1] == 'I';
  }

  lemma PatternMeant(column: string, op: string, value: Value, text: string)
    requires CompareOperator(op).None? && PatternOperator(op, text).Some?
    ensures var (like, pattern) := PatternOperator(op, text).value;
      && (like == " AS VARCHAR) LIKE " || like == " AS VARCHAR) NOT LIKE ")
      && Meant(column, op, value, text) == Some(IsLike(column, pattern, like == " AS VARCHAR) NOT LIKE "))
  {
    assert " AS VARCHAR) LIKE "[12] == ' ' && " AS VARCHAR) LIKE "[13] == 'L' && " AS VARCHAR) NOT LIKE "[13] == 'N';
  }

  lemma LikeReads(column: string, like: string, pattern: string)
    requires like == " AS VARCHAR) LIKE " || like == " AS VARCHAR) NOT LIKE "
    ensures ReadCondition("CAST(" + Quote(column, '"') + like + Quote(pattern, '\''))
      == Some(IsLike(column, pattern, like == " AS VARCHAR) NOT LIKE "))
  {
    hide Quote, ReadComparison, ReadValue;
    var quoted := Quote(pattern, '\'');
    var rest := like + quoted;
    var s := "CAST(" + Quote(column, '"') + like + quoted;
    assert s == "CAST(" + (Quote(column, '"') + rest) && s[5..] == Quote(column, '"') + rest;
    QuotedReads(column, '"', rest);
    QuotedReads(pattern, '\'', "");
    assert quoted + "" == quoted && rest[|like|..] == quoted;
    assert rest[13] == like[13] && " AS VARCHAR) LIKE "[13] == 'L' && " AS VARCHAR) NOT LIKE "[13] == 'N';
  }

  lemma NullTestReads(column: string, t: string)
    requires t == " IS NULL" || t == " IS NOT NULL"
    ensures ReadCondition(Quote(column, '"') + t) == Some(IsNull(column, t == " IS NOT NULL"))
  {
    hide Quote, ReadComparison, ReadValue;
    NoCast(column, t);
    QuotedReads(column, '"', t);
    assert |" IS NULL"| != |" IS NOT NULL"|;
  }

  lemma NullMeant(column: string, op: string, value: Value, text: string)
    requires CompareOperator(op).None? && PatternOperator(op, text).None?
    ensures NullOperator(op).Some? ==>
      var t := NullOperator(op).value;
      && (t == " IS NULL" || t == " IS NOT NULL")
      && Meant(column, op, value, text) == Some(IsNull(column, t == " IS NOT NULL"))
    ensures NullOperator(op).None? ==> Meant(column, op, value, text).None?
  {
    assert |" IS NULL"| != |" IS NOT NULL"|;
  }

  /** The built filter says what the step asks for: reading it back gives the column, the
      comparison the operator names, and the value, for every column and value. */
  lemma {:induction false} FilterReadsBack(column: string, op: string, value: Value, text: string)
    requires BuildFilterSql(column, op, value, text).Sql? && Readable(value)
    ensures ReadFilter(BuildFilterSql(column, op, value, text).text) == Meant(column, op, value, text)
    ensures Meant(column, op, value, text).Some?
  {
    hide CompareOperator, PatternOperator, NullOperator, SqlLiteral, Quote, Meant, Readable, ReadFilter, ReadCondition;
    if CompareOperator(op).Some? {
      CompareReads(column, op, value, text);
      ComparisonMeant(column, op, value, text);
      WhereReads(Quote(column, '"') + CompareOperator(op).value + SqlLiteral(value).text);
    } else if PatternOperator(op, text).Some? {
      var (like, pattern) := PatternOperator(op, text).value;
      PatternMeant(column, op, value, text);
      LikeReads(column, like, pattern);
      WhereReads("CAST(" + Quote(column, '"') + like + Quote(pattern, '\''));
    } else {
      NullMeant(column, op, value, text);
      NullTestReads(column, NullOperator(op).value);
      WhereReads(Quote(column, '"') + NullOperator(op).value);
    }
  }

  /** It is refused exactly for an empty column, an unknown operator, or a comparison
      with a value that has no literal. */
  lemma {:induction false} FilterRefused(column: string, op: string, value: Value, text: string)
    ensures BuildFilterSql(column, op, value, text).ValueError? <==>
      || column == "" || Meant(column, op, value, text).None?
      || (Meant(column, op, value, text).value.Compares? && Unwritable(value))
  {
    LiteralRefused(value);
    hide SqlLiteral, Quote, Unwritable;
    if CompareOperator(op).Some? {
      ComparisonMeant(column, op, value, text);
    } else if PatternOperator(op, text).Some? {
      PatternMeant(column, op, value, text);
    } else {
      NullMeant(column, op, value, text);
    }
    hide CompareOperator, PatternOperator, NullOperator, Meant;
  }
}
