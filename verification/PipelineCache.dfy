/** The two-level cache of pipeline texts.

    The hash is taken to be free of collisions on the texts in use and the Redis keys of
    the cache to be written only here.  Every call to Redis may be skipped, succeed, or fail with or
    without having taken effect; entries in Redis may expire at any time. */
module PipelineCache {
  import opened Basics
  import opened Lru

  const PREFIX := "yaml:parsed:"
  const MAX_ENTRIES := 256
  const BACKOFF_SECONDS := 5.0

  datatype ParseResult<+P, +E> = Ok(pipeline: P) | ParseError(error: E) | EmptyText

  /** One attempt to reach Redis: the time, and what would come of it. */
  datatype Attempt = Attempt(now: real, outcome: Outcome)
  datatype Outcome = Succeeds | Fails(applied: bool)

  predicate Reaches(disabledUntil: real, at: Attempt) { at.now >= disabledUntil }

  predicate Answers(disabledUntil: real, at: Attempt) { Reaches(disabledUntil, at) && at.outcome.Succeeds? }

  /** The effect of a write or deletion took place. */
  predicate Applies(disabledUntil: real, at: Attempt) {
    Reaches(disabledUntil, at) && (at.outcome.Succeeds? || at.outcome.applied)
  }

  function Deadline(disabledUntil: real, at: Attempt): real {
    if !Reaches(disabledUntil, at) then disabledUntil
    else if at.outcome.Succeeds? then 0.0
    else at.now + BACKOFF_SECONDS
  }

  /** After a failure Redis is left alone for five seconds, whatever a call would have
      done, and asked again from then on; after a success it is asked at once. */
  lemma BackOff(disabledUntil: real, last: Attempt, next: Attempt)
    requires disabledUntil <= last.now <= next.now && 0.0 <= next.now
    ensures var after := Deadline(disabledUntil, last);
      && (last.outcome.Fails? && next.now < last.now + 5.0 ==>
            !Answers(after, next) && !Applies(after, next) && Deadline(after, next) == after)
      && (last.outcome.Succeeds? || next.now >= last.now + 5.0 ==>
            && (Answers(after, next) <==> next.outcome == Succeeds)
            && (Applies(after, next) <==> next.outcome != Fails(false)))
  {
  }

  class Cache<P, E> {
    const parse: string -> ParseResult<P, E>
    const hash: string -> string
    const isSpace: char -> bool
    const inUse: string -> bool
    var local: Ordered<string>
    var redis: map<string, string>
    var disabledUntil: real
    ghost var history: seq<Event>

    function Key(text: string): string { PREFIX + hash(text) }

    predicate Blank(text: string) { forall i :: 0 <= i < |text| ==> isSpace(text[i]) }

    /** What a caller is promised: the parse of the text itself. */
    function Parsed(text: string): ParseResult<P, E> {
      if Blank(text) then EmptyText else parse(text)
    }

    /** A cached text is one that parses, under its own hash. */
    ghost predicate Cached(k: string, text: string) {
      k == Key(text) && inUse(text) && Parsed(text).Ok? && parse(text).Ok?
    }

    ghost predicate Collisionless() { forall s, t :: inUse(s) && inUse(t) && hash(s) == hash(t) ==> s == t }

    ghost predicate Valid()
      reads this
    {
      && Collisionless() && local.Valid()
      && local.order == Held(history, MAX_ENTRIES) && |local.order| <= MAX_ENTRIES
      && (forall k :: k in local.items ==> Cached(k, local.items[k]))
      && (forall k :: k in redis ==> Cached(k, redis[k]))
    }

    constructor (parse: string -> ParseResult<P, E>, hash: string -> string,
                isSpace: char -> bool, inUse: string -> bool)
      requires forall s, t :: inUse(s) && inUse(t) && hash(s) == hash(t) ==> s == t
      ensures Valid() && local.order == [] && redis == map[] && history == []
      ensures this.parse == parse && this.hash == hash && this.isSpace == isSpace && this.inUse == inUse
    {
      this.parse, this.hash, this.isSpace, this.inUse := parse, hash, isSpace, inUse;
      local, redis, disabledUntil, history := Ordered([], map[]), map[], 0.0, [];
    }

    lemma KeyOfText(k: string, text: string, y: string)
      requires Collisionless() && Cached(k, text) && inUse(y) && k == Key(y)
      ensures text == y
    {
      assert Key(text)[|PREFIX|..] == hash(text) && Key(y)[|PREFIX|..] == hash(y);
    }

    // ----- the local level

    /** A use of a key: its text becomes the most recent, and the least recent goes when
        there is no room. */
    method LocalSet(k: string, text: string)
      requires Valid() && Cached(k, text)
      modifies this`local, this`history
      ensures Valid() && history == old(history) + [Used(k)]
      ensures k in local.items && local.items[k] == text
      ensures forall j :: j in local.items && j != k ==> j in old(local.items)
      ensures forall j :: j in old(local.items) && j !in local.items ==>
        |old(local.order)| == 256 && j == old(local.order)[0]
    {
      hide Held, Cached, Collisionless, After, Ordered.Valid;
      StoredFacts(local, k, text, MAX_ENTRIES);
      HeldStep(history, Used(k));
      local := SetLast(local, k, text);
      while |local.order| > MAX_ENTRIES
        invariant local == SetLast(old(local), k, text) || local == Stored(old(local), k, text, MAX_ENTRIES)
        invariant history == old(history)
        decreases |local.order|
      {
        local := PopFirst(local);
      }
      history := history + [Used(k)];
    }

    method LocalGet(k: string) returns (r: Option<string>)
      requires Valid()
      modifies this`local, this`history
      ensures Valid() && local.items == old(local.items)
      ensures r == if k in local.items then Some(local.items[k]) else None
      ensures r.Some? ==> history == old(history) + [Used(k)]
      ensures r.None? ==> history == old(history) && local == old(local)
    {
      hide Held, Cached, Collisionless;
      if k !in local.items {
        return None;
      }
      OperationsKeepValid(local, k, "");
      WithoutDistinct(local.order, k);
      local := MoveToEnd(local, k);
      history := history + [Used(k)];
      HeldStep(old(history), Used(k));
      return Some(local.items[k]);
    }

    // ----- the Redis level

    method RedisGet(k: string, at: Attempt) returns (r: Option<string>)
      modifies this`disabledUntil
      ensures disabledUntil == Deadline(old(disabledUntil), at)
      ensures r == if Answers(old(disabledUntil), at) && k in redis then Some(redis[k]) else None
    {
      if at.now < disabledUntil {
        return None;
      }
      if at.outcome.Succeeds? {
        disabledUntil := 0.0;
        return if k in redis then Some(redis[k]) else None;
      }
      disabledUntil := at.now + BACKOFF_SECONDS;
      return None;
    }

    method RedisSet(k: string, text: string, at: Attempt)
      modifies this`disabledUntil, this`redis
      ensures disabledUntil == Deadline(old(disabledUntil), at)
      ensures redis == if Applies(old(disabledUntil), at) then old(redis)[k := text] else old(redis)
    {
      if at.now >= disabledUntil {
        if at.outcome.Succeeds? || at.outcome.applied {
          redis := redis[k := text];
        }
        disabledUntil := if at.outcome.Succeeds? then 0.0 else at.now + BACKOFF_SECONDS;
      }
    }

    method RedisDelete(k: string, at: Attempt)
      modifies this`disabledUntil, this`redis
      ensures disabledUntil == Deadline(old(disabledUntil), at)
      ensures redis == if Applies(old(disabledUntil), at) then old(redis) - {k} else old(redis)
    {
      if at.now >= disabledUntil {
        if at.outcome.Succeeds? || at.outcome.applied {
          redis := redis - {k};
        }
        disabledUntil := if at.outcome.Succeeds? then 0.0 else at.now + BACKOFF_SECONDS;
      }
    }

    // ----- the operations

    /** Whatever the state of the two levels and of Redis, the result is the parse of
        the given text, and exactly the texts that parse count as used. */
    method GetParsedPipeline(y: string, useRedis: bool, onGet: Attempt, onSet: Attempt) returns (r: ParseResult<P, E>)
      requires Valid() && inUse(y)
      modifies this
      ensures Valid()
      ensures r == Parsed(y)
      ensures r == if forall i :: 0 <= i < |y| ==> isSpace(y[i]) then EmptyText else parse(y)
      ensures r.Ok? ==> history == old(history) + [Used(Key(y))] && Key(y) in local.items && local.items[Key(y)] == y
      ensures !r.Ok? ==> history == old(history) && local == old(local) && redis == old(redis)
      ensures Blank(y) || !useRedis || Key(y) in old(local.items) ==>
        redis == old(redis) && disabledUntil == old(disabledUntil)
      ensures !Blank(y) && useRedis && Key(y) !in old(local.items) ==>
        var asked := Deadline(old(disabledUntil), onGet);
        if !r.Ok? || (Answers(old(disabledUntil), onGet) && Key(y) in old(redis)) then
          redis == old(redis) && disabledUntil == asked
        else redis == (if Applies(asked, onSet) then old(redis)[Key(y) := y] else old(redis))
             && disabledUntil == Deadline(asked, onSet)
    {
      hide Key, Held;
      if Blank(y) {
        return EmptyText;
      }
      var k := Key(y);
      var found := LocalGet(k);
      if found.Some? {
        KeyOfText(k, found.value, y);
        return parse(found.value);
      }
      if useRedis {
        var remote := RedisGet(k, onGet);
        if remote.Some? { KeyOfText(k, remote.value, y); }
        if remote.Some? && remote.value != "" && parse(remote.value).Ok? {
          LocalSet(k, remote.value);
          return parse(remote.value);
        }
      }
      r := parse(y);
      if r.Ok? {
        LocalSet(k, y);
        if useRedis {
          RedisSet(k, y, onSet);
        }
      }
    }

    method InvalidatePipelineCache(y: string, useRedis: bool, onDelete: Attempt)
      requires Valid()
      modifies this
      ensures Valid() && history == old(history) + [Dropped(Key(y))]
      ensures local.items == old(local.items) - {Key(y)}
      ensures redis == if useRedis && Applies(old(disabledUntil), onDelete) then old(redis) - {Key(y)} else old(redis)
      ensures disabledUntil == if useRedis then Deadline(old(disabledUntil), onDelete) else old(disabledUntil)
    {
      hide Key, Held, Cached, Collisionless;
      OperationsKeepValid(local, Key(y), "");
      local := Pop(local, Key(y));
      history := history + [Dropped(Key(y))];
      HeldStep(old(history), Dropped(Key(y)));
      if useRedis {
        RedisDelete(Key(y), onDelete);
      }
    }

    /** An entry of Redis expires. */
    method Expire(k: string)
      requires Valid()
      modifies this`redis
      ensures Valid() && redis == old(redis) - {k}
    {
      redis := redis - {k};
    }

    /** The local level holds the text exactly while fewer than 256 other texts were
        used since (as long as nothing was invalidated), and then under its own hash. */
    lemma LocalHit(y: string)
      requires Valid() && inUse(y)
      ensures Live(history, Key(y)) && |UsedSince(history, Key(y))| < 256 ==> Key(y) in local.items
      ensures (forall e :: e in history ==> e.Used?) ==>
        (Key(y) in local.items <==> Live(history, Key(y)) && |UsedSince(history, Key(y))| < 256)
      ensures Key(y) in local.items ==> local.items[Key(y)] == y
    {
      hide Held, Live, UsedSince, Key;
      HeldExactly(history, MAX_ENTRIES, Key(y));
      if Key(y) in local.items { KeyOfText(Key(y), local.items[Key(y)], y); }
    }
  }

  lemma {:induction false} HeldStep(h: seq<Event>, e: Event)
    ensures Held(h + [e], MAX_ENTRIES) == After(Held(h, MAX_ENTRIES), e, MAX_ENTRIES)
  {
    assert (h + [e])[..|h|] == h;
  }
}
