/** Reading sort and aggregate texts back, and what a pattern filter matches. */
module SqlOrder {
  import opened Basics
  import opened SqlBuilder
  import opened SqlReading
  import Glob

  // ----- patterns

  /** A pattern as the database reads it: `%` is any text, `_` any character. */
  function LikeTokens(p: string): (ts: seq<Glob.Token>)
    ensures |ts| == |p|
  {
    if p == "" then []
    else
      [if p[0] == '%' then Glob.AnyRun else if p[0] == '_' then Glob.AnyChar else Glob.Literal(p[0])]
      + LikeTokens(p[1..])
  }

  predicate Like(s: string, pattern: string) { Glob.Matches(LikeTokens(pattern), s) }

  predicate Wildless(t: string) { '%' !in t && '_' !in t }

  ghost predicate Within(t: string, s: string) { exists i :: 0 <= i <= |s| && t <= s[i..] }

  lemma {:induction false} TokensConcat(a: string, b: string)
    ensures LikeTokens(a + b) == LikeTokens(a) + LikeTokens(b)
  {
    if a == "" {
      assert a + b == b;
    } else {
      assert (a + b)[1..] == a[1..] + b;
      TokensConcat(a[1..], b);
    }
  }

  lemma {:induction false} WildlessTokens(t: string)
    requires Wildless(t)
    ensures LikeTokens(t) == Glob.Literals(t)
  {
    if t != "" {
      WildlessTokens(t[1..]);
    }
  }

  lemma {:induction false} AnyMatches(s: string)
    ensures Glob.Matches([Glob.AnyRun], s)
  {
    var ts := [Glob.AnyRun];
    assert ts[1..] == [];
    if s != "" {
      AnyMatches(s[1..]);
    }
  }

  lemma {:induction false} PercentIsAny()
    ensures LikeTokens("%") == [Glob.AnyRun]
  {
    assert "%"[1..] == "";
  }

  /** Text in front and anything after it. */
  lemma LikePrefix(t: string, s: string)
    requires Wildless(t)
    ensures Like(s, t + "%") <==> t <= s
  {
    TokensConcat(t, "%");
    PercentIsAny();
    WildlessTokens(t);
    var ts, any := LikeTokens(t), [Glob.AnyRun];
    if Glob.Matches(ts + any, s) {
      var i := Glob.SplitMatches(ts, any, s);
      Glob.LiteralsMatch(t, s[..i]);
    }
    if t <= s {
      Glob.LiteralsMatch(t, s[..|t|]);
      AnyMatches(s[|t|..]);
      Glob.MatchesSplit(ts, any, s, |t|);
    }
  }

  /** Anything and the text at the end. */
  lemma LikeSuffix(t: string, s: string)
    requires Wildless(t)
    ensures Like(s, "%" + t) <==> |t| <= |s| && s[|s| - |t|..] == t
  {
    TokensConcat("%", t);
    PercentIsAny();
    WildlessTokens(t);
    Glob.RunThenLiterals(t, s);
  }

  lemma LikeWithin(t: string, s: string)
    requires Wildless(t)
    ensures Like(s, "%" + t + "%") <==> Within(t, s)
  {
    TokensConcat("%", t + "%");
    assert "%" + (t + "%") == "%" + t + "%";
    PercentIsAny();
    var any, ts := [Glob.AnyRun], LikeTokens(t + "%");
    if Glob.Matches(any + ts, s) {
      var i := Glob.SplitMatches(any, ts, s);
      LikePrefix(t, s[i..]);
    }
    if i :| 0 <= i <= |s| && t <= s[i..] {
      AnyMatches(s[..i]);
      LikePrefix(t, s[i..]);
      Glob.MatchesSplit(any, ts, s, i);
    }
  }

  /** A text the pattern matches that has no wildcard in it. */
  function Filled(t: string): (s: string)
    ensures Wildless(s)
  {
    if t == "" then ""
    else if t[0] == '%' then Filled(t[1..])
    else [if t[0] == '_' then 'a' else t[0]] + Filled(t[1..])
  }

  lemma {:induction false} FilledMatches(t: string)
    ensures Glob.Matches(LikeTokens(t), Filled(t))
  {
    if t != "" {
      var ts := LikeTokens(t);
      assert ts[1..] == LikeTokens(t[1..]);
      FilledMatches(t[1..]);
      if t[0] != '%' {
        assert Filled(t)[1..] == Filled(t[1..]);
      }
    }
  }

  lemma {:induction false} FilledLike(t: string)
    ensures Like(Filled(t), t + "%") && Like(Filled(t), "%" + t) && Like(Filled(t), "%" + t + "%")
  {
    var s, ts, any := Filled(t), LikeTokens(t), [Glob.AnyRun];
    FilledMatches(t);
    AnyMatches("");
    PercentIsAny();
    TokensConcat(t, "%");
    TokensConcat("%", t);
    TokensConcat("%" + t, "%");
    assert s[..|s|] == s && s[|s|..] == "" && s[..0] == "" && s[0..] == s;
    Glob.MatchesSplit(ts, any, s, |s|);
    Glob.MatchesSplit(any, ts, s, 0);
    Glob.MatchesSplit(any + ts, any, s, |s|);
  }

  lemma WildNotIn(t: string, s: string)
    requires !Wildless(t) && Wildless(s)
    ensures !Within(t, s) && !(t <= s) && !(|t| <= |s| && s[|s| - |t|..] == t)
  {
    forall u: string | t <= u
      ensures '%' in u || '_' in u
    {
      var k :| 0 <= k < |t| && (t[k] == '%' || t[k] == '_');
      assert u[k] == t[k];
    }
    assert forall i :: 0 <= i <= |s| ==> Wildless(s[i..]);
  }

  /** A `contains` filter keeps the texts that contain the value exactly when the value has
      neither `%` nor `_`; the same for `starts_with` and `ends_with`. */
  lemma PatternsMeanTextExactly(t: string)
    ensures (forall s :: Like(s, "%" + t + "%") <==> Within(t, s)) <==> Wildless(t)
    ensures (forall s :: Like(s, t + "%") <==> t <= s) <==> Wildless(t)
    ensures (forall s :: Like(s, "%" + t) <==> |t| <= |s| && s[|s| - |t|..] == t) <==> Wildless(t)
  {
    hide Like, Within;
    if Wildless(t) {
      forall s
        ensures Like(s, "%" + t + "%") <==> Within(t, s)
        ensures Like(s, t + "%") <==> t <= s
        ensures Like(s, "%" + t) <==> |t| <= |s| && s[|s| - |t|..] == t
      {
        LikeWithin(t, s);
        LikePrefix(t, s);
        LikeSuffix(t, s);
      }
    } else {
      FilledLike(t);
      WildNotIn(t, Filled(t));
    }
  }

  // ----- sorting

  /** Terms of a quoted name and a direction, true for ascending. */
  function ReadTerms(s: string): (r: Option<seq<(string, bool)>>)
    decreases |s|
  {
    var name := ReadQuoted(s, '"');
    if name.None? then None
    else
      var (column, rest) := name.value;
      var asc := " ASC" <= rest;
      if !asc && !(" DESC" <= rest) then None
      else
        var tail := rest[if asc then 4 else 5..];
        if tail == "" then Some([(column, asc)])
        else if ", " <= tail then
          var others := ReadTerms(tail[2..]);
          if others.None? then None else Some([(column, asc)] + others.value)
        else None
  }

  function ReadSort(sql: string): Option<seq<(string, bool)>> {
    var terms := After(sql, "SELECT * FROM __input__ ORDER BY ");
    if terms.None? then None else ReadTerms(terms.value)
  }

  function Pairs(columns: seq<string>, directions: seq<bool>): (r: seq<(string, bool)>)
    requires |columns| == |directions|
    ensures |r| == |columns| && forall i :: 0 <= i < |r| ==> r[i] == (columns[i], directions[i])
  {
    seq(|columns|, i requires 0 <= i < |columns| => (columns[i], directions[i]))
  }

  lemma {:induction false} OneTermReads(column: string, asc: bool, tail: string)
    requires tail == "" || ", " <= tail
    ensures ReadTerms(Quote(column, '"') + Direction(asc) + tail) ==
      if tail == "" then Some([(column, asc)])
      else if ReadTerms(tail[2..]).None? then None
      else Some([(column, asc)] + ReadTerms(tail[2..]).value)
  {
    hide Quote;
    var rest := Direction(asc) + tail;
    assert Quote(column, '"') + Direction(asc) + tail == Quote(column, '"') + rest;
    QuotedReads(column, '"', rest);
    assert asc ==> " ASC" <= rest && rest[4..] == tail;
    assert rest[1] == Direction(asc)[1] && " ASC"[1] == 'A' && " DESC"[1] == 'D';
    assert !asc ==> " DESC" <= rest && rest[5..] == tail;
  }

  lemma {:induction false} TermsRead(columns: seq<string>, directions: seq<bool>)
    requires |columns| == |directions| > 0
    ensures ReadTerms(Join(SortTerms(columns, directions))) == Some(Pairs(columns, directions))
    decreases |columns|
  {
    hide Quote, Direction, ReadTerms;
    var terms := SortTerms(columns, directions);
    var head := terms[0];
    if |columns| == 1 {
      OneTermReads(columns[0], directions[0], "");
      assert head + "" == Join(terms);
      assert Pairs(columns, directions) == [(columns[0], directions[0])];
    } else {
      var rest := SortTerms(columns[1..], directions[1..]);
      assert terms[1..] == rest;
      var tail := ", " + Join(rest);
      assert Join(terms) == head + tail;
      assert tail[2..] == Join(rest);
      OneTermReads(columns[0], directions[0], tail);
      TermsRead(columns[1..], directions[1..]);
      assert Pairs(columns, directions) == [(columns[0], directions[0])] + Pairs(columns[1..], directions[1..]);
    }
  }

  /** The i-th of n columns is sorted upwards. */
  ghost predicate Upwards(ascending: Option<seq<bool>>, descending: bool, n: nat, i: nat) {
    match ascending
    case None => !descending
    case Some(flags) =>
      if |flags| == 1 then flags[0]
      else |flags| == n && i < n && flags[i]
  }

  /** Which names are kept is decided one by one, and their order stays. */
  lemma {:induction false} KeptNames(a: seq<string>, b: seq<string>)
    ensures NonEmptyNames(a + b) == NonEmptyNames(a) + NonEmptyNames(b)
  {
    if a == [] {
      assert a + b == b;
    } else {
      var ab := a + b;
      assert ab[0] == a[0] && ab[1..] == a[1..] + b;
      KeptNames(a[1..], b);
      var head := if a[0] == "" then [] else [a[0]];
      assert NonEmptyNames(ab) == head + (NonEmptyNames(a[1..]) + NonEmptyNames(b));
    }
  }

  lemma {:induction false} KeptName(x: string)
    ensures NonEmptyNames([x]) == if x == "" then [] else [x]
  {
    assert [x][1..] == [];
  }

  /** The built sort says what the step asks for: its columns in order, each upwards or
      downwards as the flags say.  It is refused exactly without a column, or with a list
      of flags that is neither a single one nor one for each column. */
  lemma {:induction false} SortReadsBack(sortBy: seq<string>, ascending: Option<seq<bool>>, descending: bool)
    ensures var columns, sql := NonEmptyNames(sortBy), BuildSortSql(sortBy, ascending, descending);
      && (sql.ValueError? <==>
            columns == [] || (ascending.Some? && |ascending.value| != 1 && |ascending.value| != |columns|))
      && (sql.Sql? ==>
            var read := ReadSort(sql.text);
            && read.Some? && |read.value| == |columns|
            && forall i :: 0 <= i < |columns| ==>
                 read.value[i].0 == columns[i]
                 && (read.value[i].1 <==> Upwards(ascending, descending, |columns|, i)))
  {
    hide Quote, ReadTerms, Direction, SortTerms, Join;
    var columns := NonEmptyNames(sortBy);
    var directions := Directions(|columns|, ascending, descending);
    if columns != [] && directions.Some? {
      TermsRead(columns, directions.value);
      OrderReads(Join(SortTerms(columns, directions.value)));
    }
  }

  lemma {:induction false} OrderReads(rest: string)
    ensures ReadSort(ORDER_BY + rest) == ReadTerms(rest)
  {
    hide ReadTerms;
    var prefix := "SELECT * FROM __input__ ORDER BY ";
    assert ORDER_BY == prefix;
    assert (prefix + rest)[|prefix|..] == rest;
  }

  // ----- aggregation

  /** What is selected: a grouping column, or a function of a column under an alias, with
      the text around the column. */
  datatype Selected = Grouped(column: string) | Computed(open: string, column: string, close: string, alias: string)

  function ToQuote(s: string): (k: nat)
    ensures k <= |s|
  {
    if s == "" || s[0] == '"' then 0 else 1 + ToQuote(s[1..])
  }

  /** One selected item and what follows it. */
  function ReadSelected(s: string): (r: Option<(Selected, string)>)
    ensures r.Some? ==> |r.value.1| < |s|
  {
    var k := ToQuote(s);
    var column := ReadQuoted(s[k..], '"');
    if column.None? then None
    else if k == 0 then Some((Grouped(column.value.0), column.value.1))
    else
      var rest := column.value.1;
      var n := ToQuote(rest);
      var alias := ReadQuoted(rest[n..], '"');
      if alias.None? then None
      else Some((Computed(s[..k], column.value.0, rest[..n], alias.value.0), alias.value.1))
  }

  /** The selected items, up to something other than a comma. */
  function ReadSelection(s: string): (r: Option<(seq<Selected>, string)>)
    decreases |s|
  {
    var first := ReadSelected(s);
    if first.None? then None
    else
      var (item, rest) := first.value;
      if ", " <= rest then
        var others := ReadSelection(rest[2..]);
        if others.None? then None else Some(([item] + others.value.0, others.value.1))
      else Some(([item], rest))
  }

  /** The items and the grouping of an aggregation. */
  function ReadAggregate(sql: string): Option<(seq<Selected>, seq<Selected>)> {
    var selection := After(sql, "SELECT ");
    if selection.None? || ReadSelection(selection.value).None? then None
    else
      var (items, rest) := ReadSelection(selection.value).value;
      if rest == " FROM __input__" then Some((items, []))
      else
        var group := After(rest, " FROM __input__ GROUP BY ");
        if group.None? || ReadSelection(group.value).None? || ReadSelection(group.value).value.1 != "" then None
        else Some((items, ReadSelection(group.value).value.0))
  }

  lemma {:induction false} ToQuoteIs(a: string, rest: string)
    requires '"' !in a
    ensures ToQuote(a + "\"" + rest) == |a|
  {
    if a != "" {
      assert (a + "\"" + rest)[1..] == a[1..] + "\"" + rest;
      ToQuoteIs(a[1..], rest);
    }
  }

  lemma QuoteSplits(c: string, a: string, rest: string)
    requires '"' !in a
    ensures var s := a + Quote(c, '"') + rest;
      ToQuote(s) == |a| && s[..|a|] == a && s[|a|..] == Quote(c, '"') + rest
  {
    var body := Doubled(c, '"') + ['"'] + rest;
    assert a + Quote(c, '"') + rest == a + "\"" + body;
    ToQuoteIs(a, body);
  }

  /** What an item of a text may be followed by. */
  predicate Goes(rest: string) { rest == "" || rest[0] == ',' || rest[0] == ' ' }

  lemma GroupedReads(c: string, rest: string)
    requires Goes(rest)
    ensures ReadSelected(Quote(c, '"') + rest) == Some((Grouped(c), rest))
  {
    QuoteSplits(c, "", rest);
    hide Quote;
    assert "" + Quote(c, '"') + rest == Quote(c, '"') + rest;
    QuotedReads(c, '"', rest);
  }

  lemma Rebracketed(a: string, b: string, c: string, d: string, e: string)
    ensures a + b + c + d + e == a + b + (c + d + e)
  {
  }

  lemma ComputedReads(open: string, c: string, close: string, alias: string, rest: string)
    requires open != "" && '"' !in open && close != "" && '"' !in close && Goes(rest)
    ensures ReadSelected(open + Quote(c, '"') + close + Quote(alias, '"') + rest)
      == Some((Computed(open, c, close, alias), rest))
  {
    var after := close + Quote(alias, '"') + rest;
    QuoteSplits(c, open, after);
    QuoteSplits(alias, close, rest);
    hide Quote, ReadQuoted, ToQuote;
    assert open + Quote(c, '"') + close + Quote(alias, '"') + rest == open + Quote(c, '"') + after by {
      Rebracketed(open, Quote(c, '"'), close, Quote(alias, '"'), rest);
    }
    assert after[0] == close[0];
    QuotedReads(c, '"', after);
    QuotedReads(alias, '"', rest);
  }

  ghost predicate Reads(text: string, item: Selected) {
    forall rest :: Goes(rest) ==> ReadSelected(text + rest) == Some((item, rest))
  }

  lemma NameIsRead(c: string)
    ensures Reads(Quote(c, '"'), Grouped(c))
  {
    hide Quote, ReadSelected;
    forall rest | Goes(rest)
      ensures ReadSelected(Quote(c, '"') + rest) == Some((Grouped(c), rest))
    {
      GroupedReads(c, rest);
    }
  }

  lemma ShapeUnquoted(fn: string)
    requires AggregateShape(fn).Some?
    ensures var (open, close) := AggregateShape(fn).value; open != "" && '"' !in open && close != "" && '"' !in close
  {
  }

  function ItemOf(agg: Aggregation): Selected
    requires AggregateShape(agg.fn).Some?
  {
    var (open, close) := AggregateShape(agg.fn).value;
    Computed(open, agg.column, close, if agg.alias.Some? then agg.alias.value else agg.column + "_" + agg.fn)
  }

  lemma TermIsRead(agg: Aggregation)
    requires AggregateTerm(agg).Sql?
    ensures Reads(AggregateTerm(agg).text, ItemOf(agg))
  {
    ShapeUnquoted(agg.fn);
    hide Quote, ReadSelected, AggregateShape;
    var (open, close) := AggregateShape(agg.fn).value;
    forall rest | Goes(rest)
      ensures ReadSelected(AggregateTerm(agg).text + rest) == Some((ItemOf(agg), rest))
    {
      ComputedReads(open, agg.column, close, Alias(agg), rest);
    }
  }

  lemma {:induction false} SelectionReads(texts: seq<string>, items: seq<Selected>, rest: string)
    requires |texts| == |items| > 0 && forall i :: 0 <= i < |texts| ==> Reads(texts[i], items[i])
    requires Goes(rest) && !(", " <= rest)
    ensures ReadSelection(Join(texts) + rest) == Some((items, rest))
    decreases |texts|
  {
    hide Reads, ReadSelected;
    if |texts| == 1 {
      assert items == [items[0]];
      ItemReads(texts[0], items[0], rest);
    } else {
      var tail := ", " + (Join(texts[1..]) + rest);
      assert Join(texts) + rest == texts[0] + tail;
      assert ", " <= tail && tail[2..] == Join(texts[1..]) + rest && tail[0] == ',';
      ItemReads(texts[0], items[0], tail);
      SelectionReads(texts[1..], items[1..], rest);
      assert items == [items[0]] + items[1..];
    }
  }

  lemma ItemReads(text: string, item: Selected, rest: string)
    requires Reads(text, item) && Goes(rest)
    ensures ReadSelected(text + rest) == Some((item, rest))
  {
  }

  function GroupItems(names: seq<string>): (r: seq<Selected>)
    ensures |r| == |names| && forall i :: 0 <= i < |r| ==> r[i] == Grouped(names[i])
  {
    seq(|names|, i requires 0 <= i < |names| => Grouped(names[i]))
  }

  /** The text around the column is that of the function. */
  ghost predicate Named(fn: string, open: string, close: string) {
    || (fn == "sum" && open == "SUM(" && close == ") AS ")
    || (fn in {"mean", "avg"} && open == "AVG(" && close == ") AS ")
    || (fn == "min" && open == "MIN(" && close == ") AS ")
    || (fn == "max" && open == "MAX(" && close == ") AS ")
    || (fn == "count" && open == "COUNT(" && close == ") AS ")
    || (fn == "median" && open == "MEDIAN(" && close == ") AS ")
    || (fn == "std" && open == "STDDEV_SAMP(" && close == ") AS ")
    || (fn == "var" && open == "VAR_SAMP(" && close == ") AS ")
    || (fn == "first" && open == "FIRST(" && close == ") AS ")
    || (fn == "last" && open == "LAST(" && close == ") AS ")
    || (fn == "mode" && open == "MODE(" && close == ") AS ")
    || (fn == "count_distinct" && open == "COUNT(DISTINCT " && close == ") AS ")
    || (fn == "p50" && open == "QUANTILE_CONT(" && close == ", 0.5) AS ")
    || (fn == "p95" && open == "QUANTILE_CONT(" && close == ", 0.95) AS ")
  }

  lemma ShapeNames(fn: string)
    ensures AggregateShape(fn).Some? ==> Named(fn, AggregateShape(fn).value.0, AggregateShape(fn).value.1)
    ensures AggregateShape(fn).Some? <==> fn in {"sum", "mean", "avg", "min", "max", "count", "median", "std", "var",
      "first", "last", "mode", "count_distinct", "p50", "p95"}
  {
  }

  /** The items say what the aggregations ask for: function, column, and alias, which is
      the column and the function's name unless one is given. */
  ghost predicate Asks(item: Selected, agg: Aggregation) {
    && item.Computed? && Named(agg.fn, item.open, item.close) && item.column == agg.column
    && item.alias == if agg.alias.Some? then agg.alias.value else agg.column + "_" + agg.fn
  }

  lemma {:induction false} TermsAreRead(aggs: seq<Aggregation>, i: nat)
    requires AggregateTerms(aggs).Some? && i < |aggs|
    ensures |AggregateTerms(aggs).value| == |aggs| && AggregateTerm(aggs[i]).Sql?
    ensures Reads(AggregateTerms(aggs).value[i], ItemOf(aggs[i]))
    decreases |aggs|
  {
    hide AggregateShape, Reads, AggregateTerm;
    TermShape(aggs[|aggs| - 1]);
    if i < |aggs| - 1 {
      TermsAreRead(aggs[..|aggs| - 1], i);
    } else {
      TermIsRead(aggs[i]);
      if |aggs| > 1 {
        TermsAreRead(aggs[..|aggs| - 1], 0);
      }
    }
  }

  lemma TermShape(agg: Aggregation)
    ensures AggregateTerm(agg).Sql? ==> AggregateShape(agg.fn).Some?
  {
    hide AggregateShape, Quote;
  }

  /** The built aggregation says what the step asks for: the grouping columns, then each
      function of its column under its alias, grouped by those columns; and it is refused
      exactly for no aggregation, an empty name, or an unknown function. */
  lemma {:induction false} AggregateReadsBack(groupBy: seq<string>, aggs: seq<Aggregation>)
    requires AggregateSql(groupBy, aggs).Sql?
    ensures var read := ReadAggregate(AggregateSql(groupBy, aggs).text); var n := |groupBy|;
      && read.Some? && |read.value.0| == n + |aggs|
      && read.value.0[..n] == GroupItems(groupBy) == read.value.1
      && forall i :: 0 <= i < |aggs| ==> Asks(read.value.0[n + i], aggs[i])
  {
    hide Quote, ReadSelection, Reads, AggregateShape, AggregateTerm, AggregateTerms, Named, Join;
    var terms, quoted := AggregateTerms(aggs).value, QuotedNames(groupBy);
    forall i | 0 <= i < |aggs|
      ensures |terms| == |aggs| && AggregateTerm(aggs[i]).Sql? && AggregateShape(aggs[i].fn).Some?
      ensures Reads(terms[i], ItemOf(aggs[i])) && Asks(ItemOf(aggs[i]), aggs[i])
    {
      TermsAreRead(aggs, i);
      TermShape(aggs[i]);
      ShapeNames(aggs[i].fn);
    }
    TermsAreRead(aggs, 0);
    forall i | 0 <= i < |groupBy|
      ensures Reads(quoted[i], Grouped(groupBy[i]))
    {
      NameIsRead(groupBy[i]);
    }
    var items := seq(|aggs|, i requires 0 <= i < |aggs| => ItemOf(aggs[i]));
    var all := GroupItems(groupBy) + items;
    SelectAndGroupRead(quoted, terms, GroupItems(groupBy), items);
    assert all[..|groupBy|] == GroupItems(groupBy);
    assert GroupClause(groupBy, quoted) == GroupClause(quoted, quoted);
  }

  lemma {:induction false} SelectAndGroupRead(
    quoted: seq<string>, terms: seq<string>, group: seq<Selected>, items: seq<Selected>)
    requires |quoted| == |group| && |terms| == |items| > 0
    requires forall i :: 0 <= i < |quoted| ==> Reads(quoted[i], group[i])
    requires forall i :: 0 <= i < |terms| ==> Reads(terms[i], items[i])
    ensures ReadAggregate("SELECT " + Join(quoted + terms) + (" FROM __input__" + GroupClause(quoted, quoted)))
      == Some((group + items, group))
  {
    hide Reads, ReadSelection, Join;
    var rest := " FROM __input__" + GroupClause(quoted, quoted);
    var all := Join(quoted + terms) + rest;
    assert rest[0] == ' ' && rest[1] == 'F';
    assert !(", " <= rest);
    SelectionReads(quoted + terms, group + items, rest);
    assert "SELECT " + Join(quoted + terms) + rest == "SELECT " + all && ("SELECT " + all)[7..] == all;
    if quoted == [] {
      assert group == [] && rest == " FROM __input__";
    } else {
      var names := Join(quoted);
      SelectionReads(quoted, group, "");
      assert names + "" == names;
      GroupIsRest(names);
      assert rest == " FROM __input__" + (" GROUP BY " + names);
    }
  }

  lemma GroupIsRest(names: string)
    ensures var rest := " FROM __input__" + (" GROUP BY " + names);
      rest != " FROM __input__" && After(rest, " FROM __input__ GROUP BY ") == Some(names)
  {
    var rest, prefix := " FROM __input__" + (" GROUP BY " + names), " FROM __input__ GROUP BY ";
    assert rest == prefix + names && rest[|prefix|..] == names;
    assert |rest| > |" FROM __input__"|;
  }

  lemma {:induction false} TermsRefused(aggs: seq<Aggregation>)
    ensures AggregateTerms(aggs).None? <==> exists i :: 0 <= i < |aggs| && AggregateTerm(aggs[i]).ValueError?
  {
    hide AggregateTerm;
    if aggs != [] {
      var front := aggs[..|aggs| - 1];
      TermsRefused(front);
      assert forall i :: 0 <= i < |front| ==> front[i] == aggs[i];
    }
  }

  lemma AggregateRefused(groupBy: seq<string>, aggs: seq<Aggregation>)
    ensures AggregateSql(groupBy, aggs).ValueError? <==>
      || aggs == [] || "" in groupBy
      || exists i :: 0 <= i < |aggs| && Unbuildable(aggs[i])
  {
    TermsRefused(aggs);
    forall i | 0 <= i < |aggs| {
      TermRefused(aggs[i]);
    }
    hide AggregateTerm, Unbuildable;
  }

  lemma TermRefused(agg: Aggregation)
    ensures AggregateTerm(agg).ValueError? <==> Unbuildable(agg)
  {
    hide AggregateShape, Quote;
    assert |agg.column + "_" + agg.fn| > 0;
  }

  /** The column or the alias is empty, or the function is unknown. */
  ghost predicate Unbuildable(agg: Aggregation) {
    || agg.column == "" || agg.alias == Some("") || AggregateShape(agg.fn).None?
  }
}
