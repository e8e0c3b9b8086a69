/** Ordered dictionaries kept in order of use, and what such a bounded cache holds
    after any history. */
module Lru {
  import opened Basics

  /** Keys from the least to the most recently used, with their values. */
  datatype Ordered<V> = Ordered(order: seq<string>, items: map<string, V>)
  {
    ghost predicate Valid() {
      Distinct(order) && forall k :: k in order <==> k in items
    }
  }

  /** `d[k] = v` followed by `move_to_end(k)`. */
  function SetLast<V>(d: Ordered<V>, k: string, v: V): Ordered<V> {
    Ordered(Without(d.order, k) + [k], d.items[k := v])
  }

  /** `move_to_end(k)` of a present key. */
  function MoveToEnd<V>(d: Ordered<V>, k: string): Ordered<V> {
    Ordered(Without(d.order, k) + [k], d.items)
  }

  /** `popitem(last=False)` */
  function PopFirst<V>(d: Ordered<V>): Ordered<V>
    requires d.order != []
  {
    Ordered(d.order[1..], d.items - {d.order[0]})
  }

  /** `pop(k, None)` */
  function Pop<V>(d: Ordered<V>, k: string): Ordered<V> {
    Ordered(Without(d.order, k), d.items - {k})
  }

  lemma {:induction false} MovedOrder(order: seq<string>, k: string)
    requires Distinct(order)
    ensures Distinct(Without(order, k) + [k])
    ensures forall x :: x in Without(order, k) + [k] <==> x in order || x == k
  {
    WithoutDistinct(order, k);
  }

  lemma OperationsKeepValid<V>(d: Ordered<V>, k: string, v: V)
    requires d.Valid()
    ensures SetLast(d, k, v).Valid() && Pop(d, k).Valid()
    ensures k in d.items ==> MoveToEnd(d, k).Valid()
    ensures d.order != [] ==> PopFirst(d).Valid()
  {
    hide Without, Distinct;
    MovedOrder(d.order, k);
    WithoutDistinct(d.order, k);
    if d.order != [] {
      FirstRemoved(d);
    }
  }

  lemma FirstRemoved<V>(d: Ordered<V>)
    requires d.Valid() && d.order != []
    ensures PopFirst(d).Valid()
  {
    var head, rest := d.order[0], d.order[1..];
    assert d.order == [head] + rest;
    forall x ensures x in rest <==> x in d.items - {head} { }
  }

  // ----- what is held after a history

  datatype Event = Used(key: string) | Dropped(key: string)

  function Trim(s: seq<string>, n: nat): seq<string> { if |s| > n then s[|s| - n..] else s }

  /** The order after one event of a cache of at most `n` entries. */
  function After(order: seq<string>, e: Event, n: nat): seq<string> {
    match e
    case Used(k) => Trim(Without(order, k) + [k], n)
    case Dropped(k) => Without(order, k)
  }

  function Held(h: seq<Event>, n: nat): seq<string> {
    if h == [] then [] else After(Held(h[..|h| - 1], n), h[|h| - 1], n)
  }

  /** The last event about the key was a use. */
  predicate Live(h: seq<Event>, k: string) {
    h != [] && (if h[|h| - 1].key == k then h[|h| - 1].Used? else Live(h[..|h| - 1], k))
  }

  /** The keys used after the last use of `k`. */
  function UsedSince(h: seq<Event>, k: string): set<string> {
    if h == [] then {}
    else
      var e, rest := h[|h| - 1], h[..|h| - 1];
      if e.Dropped? then UsedSince(rest, k)
      else if e.key == k then {}
      else UsedSince(rest, k) + {e.key}
  }

  lemma {:induction false} NotUsedSinceItself(h: seq<Event>, k: string)
    ensures k !in UsedSince(h, k)
  {
    if h != [] { NotUsedSinceItself(h[..|h| - 1], k); }
  }

  lemma SeqCard(s: seq<string>, all: set<string>)
    requires Distinct(s) && forall x :: x in s ==> x in all
    ensures |s| <= |all|
    decreases |s|
  {
    if s != [] {
      assert forall x :: x in s[1..] ==> x in s;
      SeqCard(s[1..], all - {s[0]});
    }
  }

  /** The order is by last use: a later key was used after the last use of an earlier
      one; what is held is live; and a live key that is not held was pushed out by `n`
      others. */
  ghost predicate Explained(h: seq<Event>, order: seq<string>, n: nat) {
    && Distinct(order) && |order| <= n
    && (forall k :: k in order ==> Live(h, k))
    && (forall i, j :: 0 <= i < j < |order| ==> order[j] in UsedSince(h, order[i]))
    && (forall k :: Live(h, k) && k !in order ==> |UsedSince(h, k)| >= n)
  }

  lemma {:induction false} ExplainedDropped(h: seq<Event>, order: seq<string>, n: nat, k: string)
    requires Explained(h, order, n)
    ensures Explained(h + [Dropped(k)], Without(order, k), n)
  {
    var h' := h + [Dropped(k)];
    assert h'[..|h|] == h;
    WithoutDistinct(order, k);
    if k in order {
      var i :| 0 <= i < |order| && order[i] == k;
      WithoutSplit(order, i);
    }
    assert forall x :: UsedSince(h', x) == UsedSince(h, x);
    assert forall x :: Live(h', x) <==> x != k && Live(h, x);
  }

  lemma {:induction false} UsedFacts(h: seq<Event>, k: string, x: string)
    ensures Live(h + [Used(k)], x) <==> x == k || Live(h, x)
    ensures UsedSince(h + [Used(k)], x) == if x == k then {} else UsedSince(h, x) + {k}
  {
    assert (h + [Used(k)])[..|h|] == h;
  }

  lemma Grows(s: set<string>, k: string)
    ensures |s + {k}| >= |s|
  {
    if k in s { assert s + {k} == s; }
  }

  /** The order after a use and before any trimming. */
  lemma {:induction false} ExplainedMoved(h: seq<Event>, order: seq<string>, n: nat, k: string)
    requires Explained(h, order, n)
    ensures var moved := Without(order, k) + [k];
      && Distinct(moved) && |moved| <= n + 1
      && (forall x :: x in moved ==> Live(h + [Used(k)], x))
      && (forall i, j :: 0 <= i < j < |moved| ==> moved[j] in UsedSince(h + [Used(k)], moved[i]))
      && (forall x :: Live(h + [Used(k)], x) && x !in moved ==> |UsedSince(h + [Used(k)], x)| >= n)
  {
    hide Live, UsedSince;
    var rest := Without(order, k);
    WithoutDistinct(order, k);
    if k in order {
      var i :| 0 <= i < |order| && order[i] == k;
      WithoutSplit(order, i);
    }
    assert forall i, j :: 0 <= i < j < |rest| ==> rest[j] in UsedSince(h, rest[i]);
    forall x
      ensures Live(h + [Used(k)], x) <==> x == k || Live(h, x)
      ensures UsedSince(h + [Used(k)], x) == if x == k then {} else UsedSince(h, x) + {k}
      ensures |UsedSince(h, x) + {k}| >= |UsedSince(h, x)|
    {
      UsedFacts(h, k, x);
      Grows(UsedSince(h, x), k);
    }
  }

  /** What a use leaves when the least recent key has to go. */
  lemma {:induction false} FirstPushedOut(h: seq<Event>, moved: seq<string>, n: nat)
    requires Distinct(moved) && |moved| == n + 1
    requires forall i, j :: 0 <= i < j < |moved| ==> moved[j] in UsedSince(h, moved[i])
    ensures |UsedSince(h, moved[0])| >= n
  {
    hide UsedSince;
    var first, kept := moved[0], moved[1..];
    forall x | x in kept ensures x in UsedSince(h, first) {
      var j :| 0 <= j < |kept| && kept[j] == x;
      assert moved[j + 1] == x;
    }
    SeqCard(kept, UsedSince(h, first));
  }

  lemma {:induction false} ExplainedUsed(h: seq<Event>, order: seq<string>, n: nat, k: string)
    requires Explained(h, order, n)
    ensures Explained(h + [Used(k)], Trim(Without(order, k) + [k], n), n)
  {
    hide Live, UsedSince, Without;
    var moved, h' := Without(order, k) + [k], h + [Used(k)];
    ExplainedMoved(h, order, n, k);
    if |moved| > n {
      var kept := moved[1..];
      assert kept == Trim(moved, n) && moved == [moved[0]] + kept;
      FirstPushedOut(h', moved, n);
    }
  }

  lemma {:induction false} HeldExplained(h: seq<Event>, n: nat)
    ensures Explained(h, Held(h, n), n)
  {
    hide Explained;
    if h == [] {
      assert Explained(h, [], n) by { EmptyExplained(n); }
    } else {
      var rest, e := h[..|h| - 1], h[|h| - 1];
      assert h == rest + [e];
      HeldExplained(rest, n);
      match e
      case Used(k) => ExplainedUsed(rest, Held(rest, n), n, k);
      case Dropped(k) => ExplainedDropped(rest, Held(rest, n), n, k);
    }
  }

  lemma EmptyExplained(n: nat)
    ensures Explained([], [], n)
  {
  }

  // ----- exactly, when nothing is dropped

  lemma {:induction false} UseIsOrdered(h: seq<Event>, a: string, b: string)
    ensures !(a in UsedSince(h, b) && b in UsedSince(h, a))
  {
    if h != [] { UseIsOrdered(h[..|h| - 1], a, b); }
  }

  /** Whatever was used after a held key is held. */
  ghost predicate Closed(h: seq<Event>, order: seq<string>) {
    forall a, x :: a in order && x in UsedSince(h, a) ==> x in order
  }

  lemma {:induction false} ClosedUsed(h: seq<Event>, order: seq<string>, n: nat, k: string)
    requires Explained(h, order, n) && Closed(h, order)
    ensures Closed(h + [Used(k)], Trim(Without(order, k) + [k], n))
  {
    hide Live, UsedSince;
    var moved, h' := Without(order, k) + [k], h + [Used(k)];
    var kept := Trim(moved, n);
    ExplainedMoved(h, order, n, k);
    assert |moved| <= n || kept == moved[1..];
    forall a, x | a in kept && x in UsedSince(h', a)
      ensures x in kept
    {
      UsedFacts(h, k, a);
      assert x in moved;
      if x !in kept {
        assert x == moved[0] && a in moved[1..];
        UseIsOrdered(h', a, x);
      }
    }
  }

  lemma {:induction false} HeldClosed(h: seq<Event>, n: nat)
    requires forall e :: e in h ==> e.Used?
    ensures Closed(h, Held(h, n))
  {
    hide Explained;
    if h != [] {
      hide Closed;
      var rest, e := h[..|h| - 1], h[|h| - 1];
      assert h == rest + [e] && e in h && forall x :: x in rest ==> x in h;
      HeldClosed(rest, n);
      HeldExplained(rest, n);
      ClosedUsed(rest, Held(rest, n), n, e.key);
    }
  }

  /** A key is held exactly when fewer than `n` distinct other keys were used since its
      last use.  With dropped keys, such a key is still held. */
  lemma {:induction false} HeldExactly(h: seq<Event>, n: nat, k: string)
    ensures Live(h, k) && |UsedSince(h, k)| < n ==> k in Held(h, n)
    ensures (forall e :: e in h ==> e.Used?) ==> (k in Held(h, n) <==> Live(h, k) && |UsedSince(h, k)| < n)
  {
    hide Live, UsedSince, Held;
    HeldExplained(h, n);
    var order := Held(h, n);
    if (forall e :: e in h ==> e.Used?) && k in order {
      var i :| 0 <= i < |order| && order[i] == k;
      HeldClosed(h, n);
      NotUsedSinceItself(h, k);
      forall x | x in UsedSince(h, k)
        ensures x in order[i + 1..]
      {
        UseIsOrdered(h, x, k);
        assert x in order;
      }
      SetOf(order[i + 1..], UsedSince(h, k));
    }
  }

  lemma SetOf(s: seq<string>, all: set<string>)
    requires forall x :: x in all ==> x in s
    ensures |all| <= |s|
    decreases |s|
  {
    if s != [] {
      assert s == [s[0]] + s[1..];
      SetOf(s[1..], all - {s[0]});
    } else {
      assert all == {};
    }
  }

  // ----- one store into a bounded cache

  function Stored<V>(d: Ordered<V>, k: string, v: V, n: nat): Ordered<V> {
    var s := SetLast(d, k, v);
    if |s.order| > n then PopFirst(s) else s
  }

  /** What is held after a store: its key, and of the others all but at most the least
      recently used of a full cache. */
  ghost predicate HoldsAfter<V>(d: Ordered<V>, k: string, v: V, n: nat, r: Ordered<V>) {
    && k in r.items && r.items[k] == v
    && (forall j :: j in r.items && j != k ==> j in d.items && r.items[j] == d.items[j])
    && (forall j :: j in d.items && j !in r.items ==> |d.order| == n > 0 && j == d.order[0])
  }

  lemma FullStore<V>(d: Ordered<V>, k: string, v: V, n: nat)
    requires d.Valid() && |d.order| <= n && n > 0 && |SetLast(d, k, v).order| > n
    ensures HoldsAfter(d, k, v, n, PopFirst(SetLast(d, k, v)))
    ensures |d.order| == n && SetLast(d, k, v).order == d.order + [k]
  {
    hide Without, Distinct;
    WithoutDistinct(d.order, k);
    var first := d.order[0];
    assert first in d.order && first != k;
    assert PopFirst(SetLast(d, k, v)).items == d.items[k := v] - {first};
  }

  lemma RoomStore<V>(d: Ordered<V>, k: string, v: V, n: nat)
    ensures HoldsAfter(d, k, v, n, SetLast(d, k, v))
  {
    hide Without;
  }

  lemma StoredFacts<V>(d: Ordered<V>, k: string, v: V, n: nat)
    requires d.Valid() && |d.order| <= n && n > 0
    ensures var r := Stored(d, k, v, n);
      && r.Valid() && |r.order| <= n && |SetLast(d, k, v).order| <= n + 1
      && r.order == After(d.order, Used(k), n) && HoldsAfter(d, k, v, n, r)
  {
    hide Without, Ordered.Valid, HoldsAfter;
    OperationsKeepValid(d, k, v);
    var s := SetLast(d, k, v);
    if |s.order| > n {
      FirstRemoved(s);
      FullStore(d, k, v, n);
    } else {
      RoomStore(d, k, v, n);
    }
  }
}
