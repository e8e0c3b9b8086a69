/** What the other modules share. */
module Basics {
  function SmallLetters(): string { "abcdefghijklmnopqrstuvwxyz" }

  function CapitalLetters(): string { "ABCDEFGHIJKLMNOPQRSTUVWXYZ" }

  function Numerals(): string { "0123456789" }


  datatype Option<+T> = None | Some(value: T)

  predicate Distinct<T(==)>(s: seq<T>) {
    forall i, j :: 0 <= i < j < |s| ==> s[i] != s[j]
  }

  // ----- removal of a name from a list

  function Without(order: seq<string>, k: string): (r: seq<string>)
    ensures |r| <= |order|
    ensures forall x :: x in r <==> x in order && x != k
  {
    if order == [] then []
    else
      var head, rest := order[0], Without(order[1..], k);
      assert order == [head] + order[1..];
      if head == k then rest else [head] + rest
  }

  lemma {:induction false} WithoutAbsent(s: seq<string>, k: string)
    requires k !in s
    ensures Without(s, k) == s
  {
    if s != [] {
      WithoutAbsent(s[1..], k);
      assert s == [s[0]] + s[1..];
    }
  }

  lemma {:induction false} WithoutAt(a: seq<string>, k: string, b: seq<string>)
    requires k !in a && k !in b
    ensures Without(a + [k] + b, k) == a + b
  {
    var s := a + [k] + b;
    if a == [] {
      assert s[0] == k && s[1..] == b && a + b == b;
      WithoutAbsent(b, k);
    } else {
      var rest := a[1..];
      assert s[0] == a[0] && a[0] != k && s[1..] == rest + [k] + b;
      assert k !in rest;
      WithoutAt(rest, k, b);
      assert Without(s, k) == [a[0]] + (rest + b);
      assert a == [a[0]] + rest;
    }
  }

  /** In an order without repetition the key leaves and the rest keeps its order. */
  lemma {:induction false} WithoutSplit(s: seq<string>, i: nat)
    requires i < |s| && Distinct(s)
    ensures Without(s, s[i]) == s[..i] + s[i + 1..]
  {
    assert s == s[..i] + [s[i]] + s[i + 1..];
    WithoutAt(s[..i], s[i], s[i + 1..]);
  }

  lemma {:induction false} WithoutDistinct(s: seq<string>, k: string)
    requires Distinct(s)
    ensures Distinct(Without(s, k)) && (k in s ==> |Without(s, k)| == |s| - 1) && (k !in s ==> Without(s, k) == s)
  {
    if k in s {
      var i :| 0 <= i < |s| && s[i] == k;
      WithoutSplit(s, i);
    } else {
      WithoutAbsent(s, k);
    }
  }
}
