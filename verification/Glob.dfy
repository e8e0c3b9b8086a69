/** File name patterns of one path component, as Python's `glob` reads them. */
module Glob {
  import opened Basics

  datatype Token = Literal(c: char) | AnyChar | AnyRun | OneOf(negated: bool, body: string)

  /** Where the class that starts before `t` is closed: a bracket right at its start,
      after an optional `!`, belongs to it. */
  function CloseAt(t: string): (r: Option<nat>)
    ensures r.Some? ==> r.value < |t| && t[r.value] == ']'
  {
    var start := if t != "" && t[0] == '!' then 1 else 0;
    var from := if start < |t| && t[start] == ']' then start + 1 else start;
    FindClose(t, from)
  }

  function FindClose(t: string, from: nat): (r: Option<nat>)
    requires from <= |t|
    ensures r.Some? ==> from <= r.value < |t| && t[r.value] == ']'
    decreases |t| - from
  {
    if from == |t| then None else if t[from] == ']' then Some(from) else FindClose(t, from + 1)
  }

  /** The first token of a pattern and its width; a bracket that is never closed stands
      for itself. */
  function First(p: string): (r: (Token, nat))
    requires p != ""
    ensures 0 < r.1 <= |p|
  {
    if p[0] == '*' then (AnyRun, 1)
    else if p[0] == '?' then (AnyChar, 1)
    else if p[0] == '[' && CloseAt(p[1..]).Some? then
      var n := CloseAt(p[1..]).value;
      (Class(p[1..][..n]), n + 2)
    else (Literal(p[0]), 1)
  }

  function Parse(p: string): seq<Token> {
    if p == "" then [] else [First(p).0] + Parse(p[First(p).1..])
  }

  function Class(body: string): Token {
    if body != "" && body[0] == '!' then OneOf(true, body[1..]) else OneOf(false, body)
  }

  /** Single characters and ranges. */
  predicate InClass(body: string, c: char) {
    if body == "" then false
    else if |body| >= 3 && body[1] == '-' then body[0] <= c <= body[2] || InClass(body[3..], c)
    else body[0] == c || InClass(body[1..], c)
  }

  predicate Fits(t: Token, c: char) {
    match t
    case Literal(d) => c == d
    case OneOf(negated, body) => InClass(body, c) != negated
    case _ => true
  }

  predicate Matches(ts: seq<Token>, name: string)
    decreases |ts| + |name|
  {
    if ts == [] then name == ""
    else if ts[0].AnyRun? then Matches(ts[1..], name) || (name != "" && Matches(ts, name[1..]))
    else name != "" && Fits(ts[0], name[0]) && Matches(ts[1..], name[1..])
  }

  predicate Globs(p: string, name: string) { Matches(Parse(p), name) }

  /** No wildcard in it. */
  predicate Plain(p: string) { '*' !in p && '?' !in p && '[' !in p }

  function Literals(s: string): (ts: seq<Token>)
    ensures |ts| == |s|
  {
    if s == "" then [] else [Literal(s[0])] + Literals(s[1..])
  }

  // ----- matching piece by piece

  lemma {:induction false} MatchesSplit(a: seq<Token>, b: seq<Token>, name: string, i: nat)
    requires i <= |name| && Matches(a, name[..i]) && Matches(b, name[i..])
    ensures Matches(a + b, name)
    decreases |a| + |name|
  {
    if a == [] {
      assert a + b == b && name[i..] == name;
    } else {
      var rest := a[1..];
      assert (a + b)[0] == a[0] && (a + b)[1..] == rest + b;
      if a[0].AnyRun? && Matches(rest, name[..i]) {
        MatchesSplit(rest, b, name, i);
      } else {
        var tail := name[1..];
        assert name[..i][1..] == tail[..i - 1] && name[i..] == tail[i - 1..];
        MatchesSplit(if a[0].AnyRun? then a else rest, b, tail, i - 1);
      }
    }
  }

  lemma {:induction false} SplitMatches(a: seq<Token>, b: seq<Token>, name: string) returns (i: nat)
    requires Matches(a + b, name)
    ensures i <= |name| && Matches(a, name[..i]) && Matches(b, name[i..])
    decreases |a| + |name|
  {
    if a == [] {
      assert a + b == b && name[0..] == name;
      i := 0;
    } else {
      var rest := a[1..];
      assert (a + b)[0] == a[0] && (a + b)[1..] == rest + b;
      if a[0].AnyRun? && Matches(rest + b, name) {
        i := SplitMatches(rest, b, name);
      } else {
        var tail := name[1..];
        var k := SplitMatches(if a[0].AnyRun? then a else rest, b, tail);
        i := k + 1;
        assert name[..i][1..] == tail[..k] && name[i..] == tail[k..];
      }
    }
  }

  lemma {:induction false} LiteralsMatch(s: string, name: string)
    ensures Matches(Literals(s), name) <==> name == s
  {
    if s != "" {
      var ts := Literals(s);
      assert ts[0] == Literal(s[0]) && ts[1..] == Literals(s[1..]);
      if name != "" {
        LiteralsMatch(s[1..], name[1..]);
        assert name == [name[0]] + name[1..] && s == [s[0]] + s[1..];
      }
    }
  }

  /** Anything that ends in `s`. */
  lemma {:induction false} RunThenLiterals(s: string, name: string)
    ensures Matches([AnyRun] + Literals(s), name) <==> |name| >= |s| && name[|name| - |s|..] == s
    decreases |name|
  {
    var ts := [AnyRun] + Literals(s);
    assert ts[0].AnyRun? && ts[1..] == Literals(s);
    LiteralsMatch(s, name);
    if name != "" {
      RunThenLiterals(s, name[1..]);
      assert |name| > |s| ==> name[|name| - |s|..] == name[1..][|name| - 1 - |s|..];
      assert |name| == |s| ==> name[0..] == name;
    }
  }

  // ----- parsing piece by piece

  lemma {:induction false} FindCloseConcat(t: string, b: string, from: nat)
    requires from <= |t| && ']' !in b
    ensures FindClose(t + b, from) == FindClose(t, from)
    decreases |t| - from
  {
    if from < |t| {
      FindCloseConcat(t, b, from + 1);
    } else {
      NoClose(t + b, from);
    }
  }

  lemma {:induction false} NoClose(t: string, from: nat)
    requires from <= |t| && ']' !in t[from..]
    ensures FindClose(t, from) == None
    decreases |t| - from
  {
    if from < |t| {
      assert t[from..][0] == t[from] && t[from..][1..] == t[from + 1..];
      NoClose(t, from + 1);
    }
  }

  lemma CloseConcat(t: string, b: string)
    requires ']' !in b
    ensures CloseAt(t + b) == CloseAt(t)
  {
    var all := t + b;
    assert forall i :: 0 <= i < |t| ==> all[i] == t[i];
    if t == "" || t == "!" {
      assert ']' !in all;
      NoClose(all, if all != "" && all[0] == '!' then 1 else 0);
    } else {
      var start := if t[0] == '!' then 1 else 0;
      FindCloseConcat(t, b, if t[start] == ']' then start + 1 else start);
    }
  }

  lemma FirstConcat(a: string, b: string)
    requires a != "" && ('[' !in a || ']' !in b)
    ensures First(a + b) == First(a)
  {
    hide CloseAt, Class;
    assert (a + b)[0] == a[0] && (a + b)[1..] == a[1..] + b;
    if a[0] == '[' {
      CloseConcat(a[1..], b);
      if CloseAt(a[1..]).Some? {
        var n := CloseAt(a[1..]).value;
        assert (a[1..] + b)[..n] == a[1..][..n];
      }
    }
  }

  /** Patterns are read piece by piece unless a class reaches over the border. */
  lemma {:induction false} ParseConcat(a: string, b: string)
    requires '[' !in a || ']' !in b
    ensures Parse(a + b) == Parse(a) + Parse(b)
    decreases |a|
  {
    hide First;
    if a == "" {
      assert a + b == b;
    } else {
      FirstConcat(a, b);
      var (t, w) := First(a);
      var rest := a[w..];
      assert (a + b)[w..] == rest + b;
      assert '[' in rest ==> '[' in a;
      ParseConcat(rest, b);
      assert Parse(a) == [t] + Parse(rest) && Parse(a + b) == [t] + Parse(rest + b);
    }
  }

  lemma {:induction false} PlainParse(p: string)
    requires Plain(p)
    ensures Parse(p) == Literals(p)
  {
    if p != "" {
      PlainParse(p[1..]);
    }
  }

  /** A pattern without wildcards matches itself only. */
  lemma PlainGlobs(p: string, name: string)
    requires Plain(p)
    ensures Globs(p, name) <==> name == p
  {
    PlainParse(p);
    LiteralsMatch(p, name);
  }

  lemma {:induction false} StarGlobs(name: string)
    ensures Globs("*", name)
  {
    var ts := Parse("*");
    assert "*"[1..] == "" && ts == [AnyRun] && ts[1..] == [];
    if name != "" { StarGlobs(name[1..]); }
  }

  // ----- what a class means

  lemma {:induction false} ClosesAtEnd(s: string, from: nat)
    requires from <= |s| && ']' !in s
    ensures FindClose(s + "]", from) == Some(|s|)
    decreases |s| - from
  {
    if from < |s| {
      assert (s + "]")[from] == s[from];
      ClosesAtEnd(s, from + 1);
    }
  }

  lemma {:induction false} ListedInClass(s: string, c: char)
    requires '-' !in s
    ensures InClass(s, c) <==> c in s
  {
    if s != "" {
      assert s == [s[0]] + s[1..];
      ListedInClass(s[1..], c);
    }
  }

  /** A bracketed pattern is one class. */
  lemma {:induction false} BracketsParse(s: string)
    requires s != "" && s != "!" && ']' !in s
    ensures Parse("[" + s + "]") == [Class(s)]
  {
    hide Class;
    var p := "[" + s + "]";
    assert p[1..] == s + "]" && p[1..][..|s|] == s;
    ClosesAtEnd(s, 0);
    if s[0] == '!' {
      ClosesAtEnd(s, 1);
    }
    assert First(p) == (Class(s), |s| + 2);
    assert p[|s| + 2..] == "";
    assert Parse("") == [];
  }

  lemma {:induction false} OneMatches(t: Token, c: char)
    requires !t.AnyRun?
    ensures Matches([t], [c]) <==> Fits(t, c)
  {
    var ts, name := [t], [c];
    assert ts[1..] == [] && name[1..] == "";
  }

  /** A class matches one of the characters it lists, a negated one any other, a range the
      characters between its ends, and a question mark any character. */
  lemma ClassMeans(s: string, a: char, b: char, c: char)
    requires s != "" && '-' !in s && ']' !in s
    requires a !in "!]" && b != ']'
    ensures s[0] != '!' ==> (Globs("[" + s + "]", [c]) <==> c in s)
    ensures Globs("[!" + s + "]", [c]) <==> c !in s
    ensures Globs("[" + [a, '-', b] + "]", [c]) <==> a <= c <= b
    ensures Globs("?", [c])
  {
    hide InClass, Parse, Matches;
    ListedInClass(s, c);
    if s[0] != '!' {
      BracketsParse(s);
      OneMatches(Class(s), c);
    }
    var n := "!" + s;
    assert "[!" + s + "]" == "[" + n + "]" && n[1..] == s;
    BracketsParse(n);
    OneMatches(Class(n), c);
    BracketsParse([a, '-', b]);
    OneMatches(Class([a, '-', b]), c);
    RangeInClass(a, b, c);
    MarkParse();
    OneMatches(AnyChar, c);
  }

  lemma {:induction false} RangeInClass(a: char, b: char, c: char)
    ensures InClass([a, '-', b], c) <==> a <= c <= b
  {
    assert [a, '-', b][3..] == "";
  }

  lemma {:induction false} MarkParse()
    ensures Parse("?") == [AnyChar]
  {
    assert "?"[1..] == "";
  }
}
