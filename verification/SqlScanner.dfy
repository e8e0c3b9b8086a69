/** The scanner that blanks out literals and comments of an SQL text, and an
    independent account of what it should do: a decomposition into tokens. */
module SqlScanner {

  datatype Mode =
    | Code
    | SingleQuote
    | DoubleQuote
    | LineComment
    | BlockComment
    | DollarQuote(delimiter: string)

  datatype Masked = Ok(text: string) | Unterminated

  predicate IsTagStart(c: char) {
    'A' <= c <= 'Z' || 'a' <= c <= 'z' || c == '_'
  }

  predicate IsTagChar(c: char) {
    IsTagStart(c) || '0' <= c <= '9'
  }

  /** The length of the longest prefix of tag characters. */
  function TagRun(s: string): (n: nat)
    ensures n <= |s|
    ensures forall i :: 0 <= i < n ==> IsTagChar(s[i])
    ensures n < |s| ==> !IsTagChar(s[n])
  {
    if s == "" || !IsTagChar(s[0]) then 0 else 1 + TagRun(s[1..])
  }

  /** The length of the dollar-quote delimiter at the start of `s`, or 0. */
  function DelimiterLength(s: string): (n: nat)
    ensures n <= |s|
    ensures n > 0 ==> IsDelimiter(s[..n])
  {
    if s == "" || s[0] != '$' then 0
    else
      var n := TagRun(s[1..]);
      if 1 + n < |s| && s[1 + n] == '$' && (n == 0 || IsTagStart(s[1])) then n + 2 else 0
  }

  predicate IsDelimiter(d: string) {
    |d| >= 2 && d[0] == '$' && d[|d| - 1] == '$' && forall i :: 1 <= i < |d| - 1 ==> IsTagChar(d[i])
  }

  /** A dollar quote's delimiter: two dollars, and between them nothing or a tag of
      letters, digits and underscores that does not start with a digit. */
  ghost predicate Opens(d: string, s: string) {
    && d <= s && |d| >= 2 && d[0] == '$' && d[|d| - 1] == '$'
    && (|d| > 2 ==> !('0' <= d[1] <= '9'))
    && forall i :: 1 <= i < |d| - 1 ==>
         'A' <= d[i] <= 'Z' || 'a' <= d[i] <= 'z' || d[i] == '_' || '0' <= d[i] <= '9'
  }

  /** The scanner finds a delimiter exactly when the text starts with one, and all of it. */
  lemma DelimiterExactly(s: string)
    ensures DelimiterLength(s) > 0 ==> Opens(s[..DelimiterLength(s)], s)
    ensures forall d :: Opens(d, s) ==> DelimiterLength(s) == |d|
  {
    forall d | Opens(d, s)
      ensures DelimiterLength(s) == |d|
    {
      assert s[..|d|] == d;
      var n := TagRun(s[1..]);
      assert forall i :: 1 <= i < |d| - 1 ==> s[i] == d[i] && IsTagChar(s[i]);
      assert s[|d| - 1] == '$';
      assert forall i :: 0 <= i < |s| - 1 ==> s[1..][i] == s[i + 1];
    }
  }

  function Blanks(n: nat): (s: string)
    ensures |s| == n && forall i :: 0 <= i < n ==> s[i] == ' '
  {
    seq(n, _ => ' ')
  }

  /** What the scanner does at the start of the remaining text `s`: the mode after,
      and how many characters it consumes. */
  function Next(s: string, mode: Mode): (r: (Mode, nat))
    requires s != ""
    ensures 1 <= r.1 <= |s|
    ensures r.0.DollarQuote? ==> mode == r.0 || IsDelimiter(r.0.delimiter)
  {
    var two := |s| > 1;
    match mode
    case Code =>
      if s[0] == '$' then
        var n := DelimiterLength(s);
        if n > 0 then (DollarQuote(s[..n]), n) else (Code, 1)
      else if s[0] == '\'' then (SingleQuote, 1)
      else if s[0] == '"' then (DoubleQuote, 1)
      else if s[0] == '-' && two && s[1] == '-' then (LineComment, 2)
      else if s[0] == '/' && two && s[1] == '*' then (BlockComment, 2)
      else (Code, 1)
    case SingleQuote =>
      if s[0] == '\'' && two && s[1] == '\'' then (mode, 2)
      else if s[0] == '\'' then (Code, 1)
      else (mode, 1)
    case DoubleQuote =>
      if s[0] == '"' && two && s[1] == '"' then (mode, 2)
      else if s[0] == '"' then (Code, 1)
      else (mode, 1)
    case LineComment =>
      if s[0] == '\n' then (Code, 1) else (mode, 1)
    case BlockComment =>
      if s[0] == '*' && two && s[1] == '/' then (Code, 2) else (mode, 1)
    case DollarQuote(d) =>
      if d != "" && d <= s then (Code, |d|) else (mode, 1)
  }

  /** What it writes for the characters consumed: code and the newline that ends a
      line comment are kept, everything else is blank. */
  function Emit(s: string, mode: Mode): (out: string)
    requires s != ""
    ensures |out| == Next(s, mode).1
  {
    var (after, width) := Next(s, mode);
    if (mode == Code && after == Code) || (mode == LineComment && after == Code) then s[..1] else Blanks(width)
  }

  function Scan(s: string, mode: Mode): (r: (string, Mode))
    ensures |r.0| == |s|
  {
    if s == "" then ("", mode)
    else
      var (after, width) := Next(s, mode);
      var rest := Scan(s[width..], after);
      (Emit(s, mode) + rest.0, rest.1)
  }

  function Mask(sql: string): Masked {
    var (text, mode) := Scan(sql, Code);
    if mode == Code || mode == LineComment then Ok(text) else Unterminated
  }

  lemma {:induction false} ScanStep(sql: string, i: nat, mode: Mode, done: string)
    requires i < |sql|
    ensures var (after, width) := Next(sql[i..], mode);
      && i + width <= |sql|
      && done + Scan(sql[i..], mode).0 == done + Emit(sql[i..], mode) + Scan(sql[i + width..], after).0
      && Scan(sql[i..], mode).1 == Scan(sql[i + width..], after).1
  {
    hide Next, Emit;
    var (after, width) := Next(sql[i..], mode);
    assert sql[i..][width..] == sql[i + width..];
  }

  method StripLiteralsAndComments(sql: string) returns (r: Masked)
    ensures r == Mask(sql)
  {
    hide Next, Emit;
    var result, i, mode := "", 0, Code;
    assert sql[0..] == sql && "" + Scan(sql, Code).0 == Scan(sql, Code).0;
    while i < |sql|
      invariant i <= |sql|
      invariant Scan(sql, Code).0 == result + Scan(sql[i..], mode).0
      invariant Scan(sql, Code).1 == Scan(sql[i..], mode).1
    {
      ScanStep(sql, i, mode, result);
      var (after, width) := Next(sql[i..], mode);
      result := result + Emit(sql[i..], mode);
      i := i + width;
      mode := after;
    }
    assert sql[i..] == "" && result + "" == result;
    r := if mode == Code || mode == LineComment then Ok(result) else Unterminated;
  }

  // ----- an independent account: tokens

  datatype Token =
    | Plain(c: char)
    | Quoted(quote: char, body: string)
    | Line(comment: string, closed: bool)
    | Block(comment: string)
    | Dollar(delimiter: string, body: string)

  function Text(t: Token): string {
    match t
    case Plain(c) => [c]
    case Quoted(q, body) => [q] + body + [q]
    case Line(comment, closed) => "--" + comment + (if closed then "\n" else "")
    case Block(comment) => "/*" + comment + "*/"
    case Dollar(d, body) => d + body + d
  }

  function Texts(ts: seq<Token>): string {
    if ts == [] then "" else Text(ts[0]) + Texts(ts[1..])
  }

  /** Code is kept, the newline that closes a line comment is kept, the rest is blank. */
  function Masking(t: Token): string {
    match t
    case Plain(c) => [c]
    case Line(comment, true) => Blanks(|comment| + 2) + "\n"
    case _ => Blanks(|Text(t)|)
  }

  function Maskings(ts: seq<Token>): string {
    if ts == [] then "" else Masking(ts[0]) + Maskings(ts[1..])
  }

  /** A body in which every quote character stands in a pair. */
  predicate Paired(body: string, q: char) {
    || body == ""
    || (body[0] != q && Paired(body[1..], q))
    || (body[0] == q && |body| > 1 && body[1] == q && Paired(body[2..], q))
  }

  /** `d` occurs in `s + d` only at the end. */
  predicate FirstAtEnd(s: string, d: string) {
    forall k :: 0 <= k < |s| ==> !(d <= (s + d)[k..])
  }

  /** `t` is a token when `rest` follows it. */
  predicate IsToken(t: Token, rest: string) {
    match t
    case Plain(c) =>
      && c != '\'' && c != '"'
      && !(c == '-' && rest != "" && rest[0] == '-')
      && !(c == '/' && rest != "" && rest[0] == '*')
      && DelimiterLength([c] + rest) == 0
    case Quoted(q, body) => (q == '\'' || q == '"') && Paired(body, q) && (rest == "" || rest[0] != q)
    case Line(comment, closed) => '\n' !in comment && (!closed ==> rest == "")
    case Block(comment) => FirstAtEnd(comment, "*/")
    case Dollar(d, body) => DelimiterLength(d + body + d + rest) == |d| > 0 && FirstAtEnd(body, d)
  }

  predicate Lexes(ts: seq<Token>) {
    ts == [] || (IsToken(ts[0], Texts(ts[1..])) && Lexes(ts[1..]))
  }

  // ----- every token sequence is masked as it should be

  /** One blank-writing step of the scanner in front of a known remainder. */
  lemma {:induction false} ScanBlank(s: string, mode: Mode, after: Mode, w: nat, n: nat, tail: (string, Mode))
    requires s != "" && Next(s, mode) == (after, w)
    requires !(mode == Code && after == Code) && !(mode == LineComment && after == Code)
    requires Scan(s[w..], after) == (Blanks(n) + tail.0, tail.1)
    ensures Scan(s, mode) == (Blanks(w + n) + tail.0, tail.1)
  {
    hide Next;
    assert Emit(s, mode) == Blanks(w);
    assert Blanks(w) + (Blanks(n) + tail.0) == Blanks(w + n) + tail.0;
  }

  /** The same when the token ends here. */
  lemma {:induction false} ScanBlankEnd(s: string, mode: Mode, w: nat, rest: string)
    requires s != "" && Next(s, mode) == (Code, w)
    requires mode != Code && mode != LineComment
    requires s[w..] == rest
    ensures Scan(s, mode) == (Blanks(w) + Scan(rest, Code).0, Scan(rest, Code).1)
  {
    hide Next;
  }

  lemma {:induction false} ScanQuoted(q: char, body: string, rest: string)
    requires q == '\'' || q == '"'
    requires Paired(body, q) && (rest == "" || rest[0] != q)
    ensures var mode := if q == '"' then DoubleQuote else SingleQuote;
      Scan(body + [q] + rest, mode) == (Blanks(|body| + 1) + Scan(rest, Code).0, Scan(rest, Code).1)
    decreases |body|
  {
    hide Scan;
    var mode := if q == '"' then DoubleQuote else SingleQuote;
    var s := body + [q] + rest;
    if body == "" {
      assert s[1..] == rest;
      ScanBlankEnd(s, mode, 1, rest);
    } else {
      var w := if body[0] == q then 2 else 1;
      assert Next(s, mode) == (mode, w);
      assert s[w..] == body[w..] + [q] + rest;
      ScanQuoted(q, body[w..], rest);
      ScanBlank(s, mode, mode, w, |body[w..]| + 1, Scan(rest, Code));
    }
  }

  lemma {:induction false} ScanNewline(rest: string)
    ensures Scan("\n" + rest, LineComment) == ("\n" + Scan(rest, Code).0, Scan(rest, Code).1)
  {
    var s := "\n" + rest;
    assert s[1..] == rest && s[..1] == "\n";
    assert Next(s, LineComment) == (Code, 1);
  }

  lemma {:induction false} ScanClosedLine(comment: string, rest: string)
    requires '\n' !in comment
    ensures Scan(comment + "\n" + rest, LineComment)
      == (Blanks(|comment|) + ("\n" + Scan(rest, Code).0), Scan(rest, Code).1)
  {
    hide Scan;
    var s, tail := comment + "\n" + rest, ("\n" + Scan(rest, Code).0, Scan(rest, Code).1);
    if comment == "" {
      assert s == "\n" + rest;
      ScanNewline(rest);
      assert Blanks(0) + tail.0 == tail.0;
    } else {
      assert s[0] == comment[0] && s[0] != '\n';
      ScanClosedLine(comment[1..], rest);
      assert s[1..] == comment[1..] + "\n" + rest;
      ScanBlank(s, LineComment, LineComment, 1, |comment[1..]|, tail);
    }
  }

  lemma {:induction false} ScanOpenLine(comment: string)
    requires '\n' !in comment
    ensures Scan(comment, LineComment) == (Blanks(|comment|), LineComment)
  {
    if comment == "" {
      assert Blanks(0) == "";
    } else {
      assert comment[0] in comment;
      assert Next(comment, LineComment) == (LineComment, 1);
      ScanOpenLine(comment[1..]);
      assert Blanks(|comment[1..]|) + "" == Blanks(|comment[1..]|);
      ScanBlank(comment, LineComment, LineComment, 1, |comment[1..]|, ("", LineComment));
      assert Blanks(|comment|) + "" == Blanks(|comment|);
    }
  }

  lemma FirstAtEndTail(body: string, d: string)
    requires body != "" && FirstAtEnd(body, d)
    ensures FirstAtEnd(body[1..], d)
  {
    forall k | 0 <= k < |body[1..]|
      ensures !(d <= (body[1..] + d)[k..])
    {
      assert (body[1..] + d)[k..] == (body + d)[k + 1..];
    }
  }

  lemma NotAtFront(body: string, d: string, rest: string)
    requires body != "" && FirstAtEnd(body, d)
    ensures !(d <= body + d + rest)
  {
    assert (body + d)[0..] == body + d;
    assert (body + d + rest)[..|d|] == (body + d)[..|d|];
  }

  /** Block comments and dollar quotes run to the first occurrence of their closer. */
  lemma {:induction false} ScanUntil(mode: Mode, d: string, body: string, rest: string)
    requires (mode == BlockComment && d == "*/") || (mode == DollarQuote(d) && d != "")
    requires FirstAtEnd(body, d)
    ensures Scan(body + d + rest, mode) == (Blanks(|body| + |d|) + Scan(rest, Code).0, Scan(rest, Code).1)
    decreases |body|
  {
    hide Scan, FirstAtEnd;
    var s := body + d + rest;
    if body == "" {
      assert s == d + rest && s[..|d|] == d && s[|d|..] == rest;
      assert mode == BlockComment ==> s[0] == '*' && s[1] == '/';
      assert Next(s, mode) == (Code, |d|);
      ScanBlankEnd(s, mode, |d|, rest);
    } else {
      NotAtFront(body, d, rest);
      assert mode == BlockComment ==> (s[0] == '*' && s[1] == '/' <==> s[..2] == d);
      assert Next(s, mode) == (mode, 1);
      assert s[1..] == body[1..] + d + rest;
      FirstAtEndTail(body, d);
      ScanUntil(mode, d, body[1..], rest);
      ScanBlank(s, mode, mode, 1, |body[1..]| + |d|, Scan(rest, Code));
    }
  }

  /** The scanner is back in code state after the token. */
  ghost predicate MasksTo(t: Token, rest: string) {
    Scan(Text(t) + rest, Code) == (Masking(t) + Scan(rest, Code).0, Scan(rest, Code).1)
  }

  lemma ScanPlain(c: char, rest: string)
    requires IsToken(Plain(c), rest)
    ensures MasksTo(Plain(c), rest)
  {
    var s := [c] + rest;
    assert s[1..] == rest;
    assert Next(s, Code) == (Code, 1);
  }

  lemma ScanQuotedToken(q: char, body: string, rest: string)
    requires IsToken(Quoted(q, body), rest)
    ensures MasksTo(Quoted(q, body), rest)
  {
    hide Scan, Paired;
    var s := Text(Quoted(q, body)) + rest;
    assert s[1..] == body + [q] + rest;
    ScanQuoted(q, body, rest);
    ScanBlank(s, Code, if q == '"' then DoubleQuote else SingleQuote, 1, |body| + 1, Scan(rest, Code));
  }

  lemma ScanLineToken(comment: string, rest: string)
    requires '\n' !in comment
    ensures MasksTo(Line(comment, true), rest)
  {
    hide Scan;
    var s := Text(Line(comment, true)) + rest;
    assert s[2..] == comment + "\n" + rest;
    assert s[0] == '-' && s[1] == '-';
    ScanClosedLine(comment, rest);
    ScanBlank(s, Code, LineComment, 2, |comment|, ("\n" + Scan(rest, Code).0, Scan(rest, Code).1));
    assert Blanks(2 + |comment|) + ("\n" + Scan(rest, Code).0) == Masking(Line(comment, true)) + Scan(rest, Code).0;
  }

  lemma ScanOpenLineToken(comment: string)
    requires '\n' !in comment
    ensures Scan(Text(Line(comment, false)), Code) == (Masking(Line(comment, false)), LineComment)
  {
    hide Scan;
    var s := Text(Line(comment, false));
    assert s[2..] == comment;
    assert s[0] == '-' && s[1] == '-';
    ScanOpenLine(comment);
    assert Blanks(|comment|) + "" == Blanks(|comment|);
    ScanBlank(s, Code, LineComment, 2, |comment|, ("", LineComment));
    assert Blanks(2 + |comment|) + "" == Masking(Line(comment, false));
  }

  lemma ScanBlockToken(comment: string, rest: string)
    requires IsToken(Block(comment), rest)
    ensures MasksTo(Block(comment), rest)
  {
    hide Scan, FirstAtEnd;
    var s := Text(Block(comment)) + rest;
    assert s[2..] == comment + "*/" + rest;
    assert Next(s, Code) == (BlockComment, 2);
    ScanUntil(BlockComment, "*/", comment, rest);
    ScanBlank(s, Code, BlockComment, 2, |comment| + 2, Scan(rest, Code));
  }

  lemma ScanDollarToken(d: string, body: string, rest: string)
    requires IsToken(Dollar(d, body), rest)
    ensures MasksTo(Dollar(d, body), rest)
  {
    hide Scan, FirstAtEnd, IsDelimiter;
    var s := Text(Dollar(d, body)) + rest;
    assert s == d + body + d + rest && s[..|d|] == d && s[|d|..] == body + d + rest;
    assert s[0] == '$';
    assert Next(s, Code) == (DollarQuote(d), |d|);
    ScanUntil(DollarQuote(d), d, body, rest);
    ScanBlank(s, Code, DollarQuote(d), |d|, |body| + |d|, Scan(rest, Code));
  }

  /** One token is masked and the scanner is back in code state after it, unless it
      is a line comment that runs to the end of the text. */
  lemma ScanToken(t: Token, rest: string)
    requires IsToken(t, rest)
    ensures !(t.Line? && !t.closed) ==> MasksTo(t, rest)
    ensures t.Line? && !t.closed ==> Scan(Text(t), Code) == (Masking(t), LineComment)
  {
    match t
    case Plain(c) => ScanPlain(c, rest);
    case Quoted(q, body) => ScanQuotedToken(q, body, rest);
    case Line(comment, closed) => ScanLineToken(comment, rest); ScanOpenLineToken(comment);
    case Block(comment) => ScanBlockToken(comment, rest);
    case Dollar(d, body) => ScanDollarToken(d, body, rest);
  }

  lemma {:induction false} LexedIsMasked(ts: seq<Token>)
    requires Lexes(ts)
    ensures Mask(Texts(ts)) == Ok(Maskings(ts))
  {
    if ts != [] {
      var rest := Texts(ts[1..]);
      LexedIsMasked(ts[1..]);
      ScanToken(ts[0], rest);
      if ts[0].Line? && !ts[0].closed {
        assert Texts(ts) == Text(ts[0]) && Maskings(ts[1..]) == "";
        assert Maskings(ts) == Masking(ts[0]);
      }
    }
  }

  // ----- every text the scanner accepts is a token sequence

  predicate Accepting(mode: Mode) {
    mode == Code || mode == LineComment
  }

  lemma {:induction false} ScanFinal(s: string, mode: Mode)
    ensures s == "" ==> Scan(s, mode).1 == mode
    ensures s != "" ==> Scan(s, mode).1 == Scan(s[Next(s, mode).1..], Next(s, mode).0).1
  {
    hide Next, Emit;
  }

  lemma {:induction false} FindQuoted(s: string, q: char) returns (body: string, rest: string)
    requires q == '\'' || q == '"'
    requires var mode := if q == '"' then DoubleQuote else SingleQuote; Accepting(Scan(s, mode).1)
    ensures s == body + [q] + rest && Paired(body, q) && (rest == "" || rest[0] != q)
    ensures var mode := if q == '"' then DoubleQuote else SingleQuote; Scan(rest, Code).1 == Scan(s, mode).1
    decreases |s|
  {
    hide Scan;
    var mode := if q == '"' then DoubleQuote else SingleQuote;
    ScanFinal(s, mode);
    var (after, w) := Next(s, mode);
    if after == Code {
      body, rest := "", s[1..];
      assert s == [q] + rest;
    } else {
      var tail;
      tail, rest := FindQuoted(s[w..], q);
      body := s[..w] + tail;
      assert body[w..] == tail;
      assert s == body + [q] + rest;
    }
  }

  lemma {:induction false} FindLine(s: string) returns (comment: string, closed: bool, rest: string)
    ensures s == comment + (if closed then "\n" else "") + rest && '\n' !in comment
    ensures !closed ==> rest == ""
    ensures closed ==> Scan(rest, Code).1 == Scan(s, LineComment).1
  {
    if s == "" {
      comment, closed, rest := "", false, "";
    } else if s[0] == '\n' {
      comment, closed, rest := "", true, s[1..];
    } else {
      comment, closed, rest := FindLine(s[1..]);
      comment := [s[0]] + comment;
    }
  }

  lemma {:induction false} FindUntil(s: string, mode: Mode, d: string) returns (body: string, rest: string)
    requires (mode == BlockComment && d == "*/") || (mode == DollarQuote(d) && d != "")
    requires Accepting(Scan(s, mode).1)
    ensures s == body + d + rest && FirstAtEnd(body, d)
    ensures Scan(rest, Code).1 == Scan(s, mode).1
    decreases |s|
  {
    hide Scan, FirstAtEnd;
    ScanFinal(s, mode);
    assert mode == BlockComment && |s| >= 2 ==> (s[0] == '*' && s[1] == '/' <==> s[..2] == d);
    if d <= s {
      body, rest := "", s[|d|..];
      assert s == d + rest;
      FirstAtEndEmpty(d);
    } else {
      var body';
      body', rest := FindUntil(s[1..], mode, d);
      body := [s[0]] + body';
      assert s == body + d + rest;
      FirstAtEndCons(s[0], body', d, rest);
    }
  }

  lemma FirstAtEndEmpty(d: string)
    ensures FirstAtEnd("", d)
  {
  }

  lemma FirstAtEndCons(c: char, body: string, d: string, rest: string)
    requires FirstAtEnd(body, d) && !(d <= [c] + body + d + rest)
    ensures FirstAtEnd([c] + body, d)
  {
    var whole := [c] + body + d;
    forall k | 0 <= k < |body| + 1
      ensures !(d <= whole[k..])
    {
      if k == 0 {
        assert whole[0..] == whole && (whole + rest)[..|d|] == whole[..|d|];
      } else {
        assert whole[k..] == (body + d)[k - 1..];
      }
    }
  }

  ghost predicate Splits(s: string, t: Token, rest: string) {
    s == Text(t) + rest && IsToken(t, rest) && Accepting(Scan(rest, Code).1)
  }

  lemma FirstQuoted(s: string, q: char) returns (t: Token, rest: string)
    requires q == '\'' || q == '"'
    requires s != "" && s[0] == q && Accepting(Scan(s, Code).1)
    ensures Splits(s, t, rest)
  {
    hide Scan, Paired;
    ScanFinal(s, Code);
    var body;
    body, rest := FindQuoted(s[1..], q);
    t := Quoted(q, body);
    assert s == [q] + s[1..];
  }

  lemma FirstLine(s: string) returns (t: Token, rest: string)
    requires |s| > 1 && s[..2] == "--" && Accepting(Scan(s, Code).1)
    ensures Splits(s, t, rest)
  {
    hide Scan;
    ScanFinal(s, Code);
    ScanFinal("", Code);
    assert s[0] == s[..2][0] && s[1] == s[..2][1];
    var comment, closed;
    comment, closed, rest := FindLine(s[2..]);
    t := Line(comment, closed);
    assert s == "--" + s[2..];
  }

  lemma FirstBlock(s: string) returns (t: Token, rest: string)
    requires |s| > 1 && s[..2] == "/*" && Accepting(Scan(s, Code).1)
    ensures Splits(s, t, rest)
  {
    hide Scan, FirstAtEnd;
    ScanFinal(s, Code);
    assert s[0] == s[..2][0] && s[1] == s[..2][1];
    var body;
    body, rest := FindUntil(s[2..], BlockComment, "*/");
    t := Block(body);
    assert s == "/*" + s[2..];
  }

  lemma FirstDollar(s: string) returns (t: Token, rest: string)
    requires DelimiterLength(s) > 0 && Accepting(Scan(s, Code).1)
    ensures Splits(s, t, rest)
  {
    hide Scan, FirstAtEnd, IsDelimiter;
    ScanFinal(s, Code);
    var d := s[..DelimiterLength(s)];
    var body;
    body, rest := FindUntil(s[|d|..], DollarQuote(d), d);
    t := Dollar(d, body);
    assert s == d + body + d + rest;
  }

  lemma FirstPlain(s: string) returns (t: Token, rest: string)
    requires s != "" && Next(s, Code) == (Code, 1) && Accepting(Scan(s, Code).1)
    ensures Splits(s, t, rest)
  {
    hide Scan;
    t, rest := Plain(s[0]), s[1..];
    assert s == [s[0]] + rest;
    ScanFinal(s, Code);
  }

  /** The first token of a text in code state, and the text after it. */
  lemma FirstToken(s: string) returns (t: Token, rest: string)
    requires s != "" && Accepting(Scan(s, Code).1)
    ensures Splits(s, t, rest) && |rest| < |s|
  {
    hide Scan, Splits;
    if s[0] == '\'' || s[0] == '"' {
      t, rest := FirstQuoted(s, s[0]);
    } else if DelimiterLength(s) > 0 {
      t, rest := FirstDollar(s);
    } else if |s| > 1 && s[..2] == "--" {
      t, rest := FirstLine(s);
    } else if |s| > 1 && s[..2] == "/*" {
      t, rest := FirstBlock(s);
    } else {
      assert |s| > 1 ==> s[..2] == [s[0], s[1]];
      t, rest := FirstPlain(s);
    }
    SplitsShorter(s, t, rest);
  }

  lemma SplitsShorter(s: string, t: Token, rest: string)
    requires Splits(s, t, rest)
    ensures |rest| < |s|
  {
    hide Scan, FirstAtEnd, Paired;
    assert |s| == |Text(t)| + |rest|;
  }

  lemma {:induction false} TokensOf(s: string) returns (ts: seq<Token>)
    requires Accepting(Scan(s, Code).1)
    ensures Texts(ts) == s && Lexes(ts)
    decreases |s|
  {
    if s == "" {
      ts := [];
    } else {
      var t, rest := FirstToken(s);
      var rest' := TokensOf(rest);
      ts := [t] + rest';
      assert ts[1..] == rest';
    }
  }

  /** The scanner raises exactly on the texts that are not a sequence of complete
      tokens, and on every other text it masks literals and comments token by token. */
  lemma MaskIsTokenwise(sql: string)
    ensures Mask(sql).Ok? <==> exists ts :: Lexes(ts) && Texts(ts) == sql
    ensures forall ts :: Lexes(ts) && Texts(ts) == sql ==> Mask(sql) == Ok(Maskings(ts))
  {
    if Mask(sql).Ok? {
      var ts := TokensOf(sql);
    }
    forall ts | Lexes(ts) && Texts(ts) == sql
      ensures Mask(sql) == Ok(Maskings(ts))
    {
      LexedIsMasked(ts);
    }
  }

  // ----- scanning a text piece by piece

  predicate IsTag(c: char) {
    IsTagChar(c) || c == '$'
  }

  /** Two neighbouring characters that never open or close anything together.  Two
      equal quotes may meet: a literal that ends and a literal that starts are
      masked as the one literal the scanner takes them for. */
  predicate SafePair(x: char, y: char) {
    && !(IsTag(x) && IsTag(y))
    && !(x == '-' && y == '-')
    && !(x == '/' && y == '*') && !(x == '*' && y == '/')
  }

  predicate Safe(a: string, b: string) {
    a == "" || b == "" || SafePair(a[|a| - 1], b[0])
  }

  lemma {:induction false} TagRunSplit(a: string, b: string)
    ensures TagRun(a) < |a| ==> TagRun(a + b) == TagRun(a)
    ensures TagRun(a) == |a| && (b == "" || !IsTagChar(b[0])) ==> TagRun(a + b) == |a|
  {
    if a == "" {
      assert a + b == b;
    } else {
      assert (a + b)[1..] == a[1..] + b;
      TagRunSplit(a[1..], b);
    }
  }

  lemma DelimiterSplit(a: string, b: string)
    requires a != "" && Safe(a, b)
    ensures DelimiterLength(a + b) == DelimiterLength(a)
    ensures DelimiterLength(a) > 0 ==> (a + b)[..DelimiterLength(a)] == a[..DelimiterLength(a)]
  {
    assert (a + b)[1..] == a[1..] + b;
    TagRunSplit(a[1..], b);
    if a[0] == '$' && TagRun(a[1..]) == |a[1..]| {
      assert IsTag(a[|a| - 1]);
    }
  }

  lemma PrefixSplit(d: string, a: string, b: string)
    requires IsDelimiter(d) && a != "" && Safe(a, b)
    ensures d <= a + b <==> d <= a
  {
    if |a| < |d| <= |a + b| {
      assert (a + b)[|a| - 1] == a[|a| - 1] && (a + b)[|a|] == b[0];
      assert IsTag(d[|a| - 1]) && IsTag(d[|a|]);
      assert d[|a| - 1] != (a + b)[|a| - 1] || d[|a|] != (a + b)[|a|];
    }
    if |d| <= |a| {
      assert (a + b)[..|d|] == a[..|d|];
    }
  }

  /** Two quotes of the kind that is open, one ending each piece. */
  predicate QuotesMeet(a: string, b: string, mode: Mode) {
    && |a| == 1 && b != "" && a[0] == b[0]
    && ((mode == SingleQuote && a[0] == '\'') || (mode == DoubleQuote && a[0] == '"'))
  }

  lemma NextSplit(a: string, b: string, mode: Mode)
    requires a != "" && Safe(a, b) && !QuotesMeet(a, b, mode)
    requires mode.DollarQuote? ==> IsDelimiter(mode.delimiter)
    ensures Next(a + b, mode) == Next(a, mode)
    ensures Emit(a + b, mode) == Emit(a, mode)
  {
    DelimiterSplit(a, b);
    if mode.DollarQuote? {
      PrefixSplit(mode.delimiter, a, b);
    }
  }

  lemma {:induction false} ScanQuotesMeet(a: string, b: string, mode: Mode)
    requires QuotesMeet(a, b, mode)
    ensures Scan(a, mode) == (" ", Code)
    ensures Scan(a + b, mode) == (" " + Scan(b, Code).0, Scan(b, Code).1)
  {
    LoneQuote(a, b, mode);
    assert (a + b)[2..] == b[1..];
    assert Next(a + b, mode) == (mode, 2) && Next(b, Code) == (mode, 1);
    var (x, final) := Scan(b[1..], mode);
    assert Emit(b, Code) == " " && Emit(a + b, mode) == "  ";
    assert Scan(b, Code) == (" " + x, final);
    assert Scan(a + b, mode) == ("  " + x, final);
    assert "  " + x == " " + (" " + x);
  }

  lemma {:induction false} LoneQuote(a: string, b: string, mode: Mode)
    requires QuotesMeet(a, b, mode)
    ensures Scan(a, mode) == (" ", Code)
  {
    assert a[1..] == "";
    assert Next(a, mode) == (Code, 1) && Emit(a, mode) == " ";
    assert Scan("", Code) == ("", Code) && " " + "" == " ";
  }

  /** Where two pieces meet in a safe pair, the whole is scanned as the first piece
      and then the second from the state the first one leaves. */
  lemma {:induction false} ScanSplit(a: string, b: string, mode: Mode)
    requires Safe(a, b)
    requires mode.DollarQuote? ==> IsDelimiter(mode.delimiter)
    ensures var first := Scan(a, mode); var second := Scan(b, first.1);
      Scan(a + b, mode) == (first.0 + second.0, second.1)
    decreases |a|
  {
    hide Next, Emit, IsDelimiter, SafePair;
    if a == "" {
      assert a + b == b && "" + Scan(b, mode).0 == Scan(b, mode).0;
    } else if QuotesMeet(a, b, mode) {
      ScanQuotesMeet(a, b, mode);
    } else {
      NextSplit(a, b, mode);
      var (after, w) := Next(a, mode);
      assert (a + b)[w..] == a[w..] + b;
      ScanSplit(a[w..], b, after);
      var out, x, y := Emit(a, mode), Scan(a[w..], after).0, Scan(b, Scan(a[w..], after).1).0;
      assert out + (x + y) == (out + x) + y;
    }
  }
}
