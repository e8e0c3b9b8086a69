/** The bus object: each method is the step of the same name of the state machine. */
module ArrowDataBus {
  import opened Basics
  import opened ArrowKeys
  import opened ArrowBus

  /** Entries of a tier among those only the manifest knows. */
  function EntryTally(entries: map<string, Entry>, order: seq<string>, tier: Tier): nat {
    if order == [] then 0
    else (if order[0] in entries && entries[order[0]].tier == tier then 1 else 0)
         + EntryTally(entries, order[1..], tier)
  }

  ghost function EntriesIn(entries: map<string, Entry>, keys: seq<string>, tier: Tier): set<string> {
    set k | k in keys && k in entries && entries[k].tier == tier
  }

  /** That is the number of entries the manifest lists in the tier. */
  lemma {:induction false} EntryTallyIsCount(entries: map<string, Entry>, order: seq<string>, tier: Tier)
    requires forall i, j :: 0 <= i < j < |order| ==> order[i] != order[j]
    ensures EntryTally(entries, order, tier) == |EntriesIn(entries, order, tier)|
  {
    hide EntriesIn;
    if order == [] {
      NoEntries(entries, tier);
    } else {
      var k, rest := order[0], order[1..];
      EntryTallyIsCount(entries, rest, tier);
      assert order == [k] + rest;
      assert k !in rest by { assert forall j :: 0 <= j < |rest| ==> rest[j] == order[j + 1]; }
      OneMoreEntry(entries, k, rest, tier);
    }
  }

  lemma NoEntries(entries: map<string, Entry>, tier: Tier)
    ensures EntriesIn(entries, [], tier) == {}
  {
  }

  lemma OneMoreEntry(entries: map<string, Entry>, k: string, rest: seq<string>, tier: Tier)
    requires k !in rest
    ensures |EntriesIn(entries, [k] + rest, tier)|
      == |EntriesIn(entries, rest, tier)| + if k in entries && entries[k].tier == tier then 1 else 0
  {
    assert EntriesIn(entries, [k] + rest, tier)
      == EntriesIn(entries, rest, tier) + if k in entries && entries[k].tier == tier then {k} else {};
  }

  datatype PutResult = Stored(tier: Tier) | EmptyKey | UploadFailed

  /** Tables held in Redis. */
  ghost function HotKeys<T>(redis: map<string, RedisValue<T>>): set<string> { set rk | rk in redis && redis[rk].Bytes? }

  lemma DemotedIsOne<T>(cfg: Config<T>, b: ArrowBus.Bus<T>, rk: string, persisted: bool)
    requires Demotes(cfg, b, rk)
    ensures |HotKeys(DemoteOne(cfg, b, rk, persisted).redis)| + 1 == |HotKeys(b.redis)|
  {
    hide ManifestKey, ShmPath, ParseRedisDataKey, EntryOf;
    assert HotKeys(DemoteOne(cfg, b, rk, persisted).redis) == HotKeys(b.redis) - {rk};
  }

  /** A table in Redis under a data key that takes at least half the small threshold. */
  ghost predicate Demotable<T>(cfg: Config<T>, b: ArrowBus.Bus<T>, rk: string) {
    && "arrow_bus:" <= rk && ':' in rk[10..]
    && !("arrow_bus:manifest:" <= rk) && !("arrow_bus:shm:" <= rk)
    && rk in HotKeys(b.redis) && 2 * cfg.ipcSize(b.redis[rk].table) + 1 >= cfg.small
  }

  /** The keys of the scan that can be demoted and whose shared-memory write goes through. */
  ghost function Candidates<T>(
    cfg: Config<T>, b: ArrowBus.Bus<T>, scan: seq<string>, written: set<string>): set<string>
  {
    set rk | rk in scan && rk in written && Demotable(cfg, b, rk)
  }

  lemma DemotesExactly<T>(cfg: Config<T>, b: ArrowBus.Bus<T>, rk: string)
    ensures Demotes(cfg, b, rk) <==> Demotable(cfg, b, rk)
  {
    hide RedisKey;
  }

  /** Demoting one key leaves every other as demotable as it was. */
  lemma StillDemotable<T>(cfg: Config<T>, b: ArrowBus.Bus<T>, rk: string, other: string, persisted: bool)
    requires Demotes(cfg, b, rk) && other != rk
    ensures Demotable(cfg, DemoteOne(cfg, b, rk, persisted), other) <==> Demotable(cfg, b, other)
  {
    hide ManifestKey, ShmPath, ParseRedisDataKey, EntryOf;
  }

  lemma DemotedIsGone<T>(cfg: Config<T>, b: ArrowBus.Bus<T>, rk: string, persisted: bool)
    requires Demotes(cfg, b, rk)
    ensures HotKeys(DemoteOne(cfg, b, rk, persisted).redis) == HotKeys(b.redis) - {rk}
  {
    hide ManifestKey, ShmPath, ParseRedisDataKey, EntryOf;
  }

  /** A scan demotes candidates only, and of those as many as there are, up to five. */
  lemma {:induction false} ScanDemotes<T>(
    cfg: Config<T>, b: ArrowBus.Bus<T>, scan: seq<string>, written: set<string>, persisted: set<string>, evicted: nat)
    requires evicted <= 5
    ensures var after := HotKeys(DemoteScan(cfg, b, scan, written, persisted, evicted).redis);
      && HotKeys(b.redis) - Candidates(cfg, b, scan, written) <= after <= HotKeys(b.redis)
      && |HotKeys(b.redis)| - |after| == AtMost(5 - evicted, |Candidates(cfg, b, scan, written)|)
    decreases |scan|
  {
    hide Demotes, DemoteOne, HotKeys, Demotable, Candidates, DemoteScan;
    assert scan[0..] == scan;
    if scan == [] || evicted == 5 {
      ScanDone(cfg, b, scan, written, persisted, evicted, 0);
      NoCandidates(cfg, b, written);
    } else {
      var rk, rest := scan[0], scan[1..];
      ScanNext(cfg, b, scan, written, persisted, evicted, 0);
      assert scan == [rk] + rest;
      if rk in written && Demotes(cfg, b, rk) {
        var next := DemoteOne(cfg, b, rk, rk in persisted);
        ScanDemotes(cfg, next, rest, written, persisted, evicted + 1);
        CandidatesLeft(cfg, b, rk, rest, written, rk in persisted);
        OneLess(HotKeys(b.redis), Candidates(cfg, b, scan, written), rk,
                HotKeys(DemoteScan(cfg, next, rest, written, persisted, evicted + 1).redis), 5 - evicted);
      } else {
        ScanDemotes(cfg, b, rest, written, persisted, evicted);
        CandidatesStay(cfg, b, rk, rest, written);
      }
    }
  }

  lemma NoCandidates<T>(cfg: Config<T>, b: ArrowBus.Bus<T>, written: set<string>)
    ensures Candidates(cfg, b, [], written) == {}
  {
  }

  lemma CandidatesStay<T>(cfg: Config<T>, b: ArrowBus.Bus<T>, rk: string, rest: seq<string>, written: set<string>)
    requires !(rk in written && Demotes(cfg, b, rk))
    ensures Candidates(cfg, b, [rk] + rest, written) == Candidates(cfg, b, rest, written)
  {
    hide Demotes, Demotable;
    DemotesExactly(cfg, b, rk);
  }

  /** Counting down from a set by one of its candidates. */
  lemma OneLess(hot: set<string>, candidates: set<string>, rk: string, after: set<string>, limit: nat)
    requires rk in hot && rk in candidates && limit > 0
    requires (hot - {rk}) - (candidates - {rk}) <= after <= hot - {rk}
    requires |hot - {rk}| - |after| == AtMost(limit - 1, |candidates - {rk}|)
    ensures hot - candidates <= after <= hot && |hot| - |after| == AtMost(limit, |candidates|)
  {
  }

  function AtMost(limit: nat, n: nat): nat { if n < limit then n else limit }

  lemma CandidatesLeft<T>(
    cfg: Config<T>, b: ArrowBus.Bus<T>, rk: string, rest: seq<string>, written: set<string>, persisted: bool)
    requires rk in written && Demotes(cfg, b, rk)
    ensures var next, all := DemoteOne(cfg, b, rk, persisted), Candidates(cfg, b, [rk] + rest, written);
      && rk in all && Candidates(cfg, next, rest, written) == all - {rk}
      && rk in HotKeys(b.redis) && HotKeys(next.redis) == HotKeys(b.redis) - {rk}
  {
    hide Demotes, DemoteOne;
    DemotesExactly(cfg, b, rk);
    DemotedIsGone(cfg, b, rk, persisted);
    var next := DemoteOne(cfg, b, rk, persisted);
    forall other | other != rk
      ensures Demotable(cfg, next, other) <==> Demotable(cfg, b, other)
    {
      StillDemotable(cfg, b, rk, other, persisted);
    }
    hide HotKeys;
  }

  /** The scan, one key at a time. */
  lemma {:induction false} ScanNext<T>(
    cfg: Config<T>, b: ArrowBus.Bus<T>, scan: seq<string>,
    written: set<string>, persisted: set<string>, evicted: nat, i: nat)
    requires i < |scan| && evicted < 5
    ensures DemoteScan(cfg, b, scan[i..], written, persisted, evicted)
      == if scan[i] in written && Demotes(cfg, b, scan[i])
         then DemoteScan(cfg, DemoteOne(cfg, b, scan[i], scan[i] in persisted),
                         scan[i + 1..], written, persisted, evicted + 1)
         else DemoteScan(cfg, b, scan[i + 1..], written, persisted, evicted)
  {
    hide Demotes, DemoteOne;
    assert scan[i..][1..] == scan[i + 1..];
  }

  lemma {:induction false} ScanDone<T>(
    cfg: Config<T>, b: ArrowBus.Bus<T>, scan: seq<string>,
    written: set<string>, persisted: set<string>, evicted: nat, i: nat)
    requires i == |scan| || (i < |scan| && evicted >= 5)
    ensures DemoteScan(cfg, b, scan[i..], written, persisted, evicted) == b
  {
  }

  method Listed(s: set<string>) returns (order: seq<string>)
    ensures Lists(order, s)
  {
    order := [];
    var todo := s;
    while todo != {}
      invariant todo <= s && Lists(order, s - todo)
      decreases |todo|
    {
      var k :| k in todo;
      order := order + [k];
      todo := todo - {k};
    }
  }

  class Bus<T> {
    const cfg: Config<T>
    var locations: map<string, Location>
    var redis: map<string, RedisValue<T>>
    var shm: map<string, T>
    var spill: map<string, T>

    ghost function State(): ArrowBus.Bus<T>
      reads this
    {
      ArrowBus.Bus(locations, redis, shm, spill)
    }

    constructor (cfg: Config<T>)
      ensures this.cfg == cfg && State() == EmptyBus()
    {
      this.cfg := cfg;
      locations, redis, shm, spill := map[], map[], map[], map[];
    }

    method DeleteLocationPayload(tier: Tier, pointer: string)
      modifies this
      ensures State() == DeletePayload(old(State()), tier, pointer)
    {
      match tier {
        case Redis => redis := redis - {pointer};
        case Shm => shm := shm - {pointer};
        case Spill => spill := spill - {pointer};
      }
    }

    method RemoveManifestEntry(run: string, key: string)
      modifies this`redis
      ensures redis == RemoveEntry(old(redis), run, key)
    {
      hide ManifestKey;
      var mk := ManifestKey(run);
      if mk in redis && redis[mk].Hash? {
        var entries := redis[mk].entries - {key};
        if |entries| == 0 {
          assert entries == map[];
          redis := redis - {mk};
        } else {
          redis := redis[mk := Hash(entries)];
        }
      }
    }

    method RecordAt(loc: Location, persisted: bool)
      modifies this
      ensures State() == RecordLocation(old(State()), loc, persisted)
    {
      locations := locations[loc.key := loc];
      var mk := ManifestKey(loc.run);
      if persisted {
        if mk !in redis {
          redis := redis[mk := Hash(map[loc.key := EntryOf(loc)])];
        } else if redis[mk].Hash? {
          redis := redis[mk := Hash(redis[mk].entries[loc.key := EntryOf(loc)])];
        }
      }
    }

    method DeleteKey(key: string)
      modifies this
      ensures State() == Delete(old(State()), key)
    {
      hide DeletePayload, RemoveEntry;
      if key in locations {
        var loc := locations[key];
        locations := locations - {key};
        DeleteLocationPayload(loc.tier, loc.pointer);
        RemoveManifestEntry(loc.run, key);
      }
    }

    /** The table goes to the fastest tier that takes its size and whose write goes through. */
    method PutTable(key: string, table: T, run: string, uuid: string, faults: Faults) returns (r: PutResult)
      modifies this
      ensures r == EmptyKey <==> key == ""
      ensures r == Stored(Redis) <==>
        key != "" && 1 <= cfg.small && cfg.size(table) <= cfg.small && faults.redis.Written?
      ensures r == Stored(Shm) <==>
        key != "" && r != Stored(Redis) && 1 <= cfg.medium && cfg.size(table) <= cfg.medium && faults.shmWrites
      ensures r == Stored(Spill) <==> key != "" && r != Stored(Redis) && r != Stored(Shm) && faults.spillWrites
      ensures r == UploadFailed <==> key != "" && r != Stored(Redis) && r != Stored(Shm) && !faults.spillWrites
      ensures State() == Put(cfg, old(State()), key, table, run, uuid, faults)
      ensures r.Stored? ==> key in locations && locations[key] == Location(
        key, run, r.tier,
        match r.tier {
          case Redis => RedisKey(run, key)
          case Shm => ShmPath(cfg.shmDir, cfg.digest, run, key)
          case Spill => SpillName(cfg.diskPrefix, run, cfg.safeKey(key), uuid)
        },
        if cfg.size(table) == 0 then 1 else cfg.size(table))
      ensures r.UploadFailed? ==> key !in locations
    {
      hide Delete, RecordLocation, RedisKey, ShmPath, SpillName, ManifestKey;
      if key == "" {
        return EmptyKey;
      }
      DeleteLocations(State(), key);
      DeleteKey(key);
      var size := SizeOf(cfg, table);
      if size <= cfg.small && !faults.redis.Refused? {
        redis := redis[RedisKey(run, key) := Bytes(table)];
      }
      if size <= cfg.small && faults.redis.Written? {
        var pointer := RedisKey(run, key);
        RecordedThere(State(), Location(key, run, Redis, pointer, size), faults.manifestWrites);
        RecordAt(Location(key, run, Redis, pointer, size), faults.manifestWrites);
        return Stored(Redis);
      }
      if size <= cfg.medium && faults.shmWrites {
        var pointer := ShmPath(cfg.shmDir, cfg.digest, run, key);
        shm := shm[pointer := table];
        RecordedThere(State(), Location(key, run, Shm, pointer, size), faults.manifestWrites);
        RecordAt(Location(key, run, Shm, pointer, size), faults.manifestWrites);
        return Stored(Shm);
      }
      if !faults.spillWrites {
        return UploadFailed;
      }
      var pointer := SpillName(cfg.diskPrefix, run, cfg.safeKey(key), uuid);
      spill := spill[pointer := table];
      RecordedThere(State(), Location(key, run, Spill, pointer, size), faults.manifestWrites);
      RecordAt(Location(key, run, Spill, pointer, size), faults.manifestWrites);
      return Stored(Spill);
    }

    method GetTable(key: string) returns (r: GetResult<T>)
      ensures r == Get(State(), key)
      ensures key !in locations ==> r == KeyError
      ensures key in locations ==>
        var loc := locations[key];
        match loc.tier
        case Redis => r == if loc.pointer in HotKeys(redis) then Table(redis[loc.pointer].table) else KeyError
        case Shm => r == if loc.pointer in shm then Table(shm[loc.pointer]) else KeyError
        case Spill => r == if loc.pointer in spill then Table(spill[loc.pointer]) else StorageError
    {
      if key !in locations {
        return KeyError;
      }
      var loc := locations[key];
      match loc.tier {
        case Redis =>
          if loc.pointer in redis && redis[loc.pointer].Bytes? { return Table(redis[loc.pointer].table); }
          return KeyError;
        case Shm =>
          if loc.pointer in shm { return Table(shm[loc.pointer]); }
          return KeyError;
        case Spill =>
          if loc.pointer in spill { return Table(spill[loc.pointer]); }
          return StorageError;
      }
    }

    method DemoteKey(rk: string, run: string, key: string, persisted: bool)
      requires Demotes(cfg, State(), rk) && ParseRedisDataKey(rk) == Some((run, key))
      modifies this
      ensures State() == DemoteOne(cfg, old(State()), rk, persisted)
    {
      hide RedisKey, ManifestKey, ShmPath, ParseRedisDataKey, RecordLocation;
      var table := redis[rk].table;
      var path := ShmPath(cfg.shmDir, cfg.digest, run, key);
      shm := shm[path := table];
      RecordAt(Location(key, run, Shm, path, cfg.ipcSize(table)), persisted);
      redis := redis - {rk};
    }

    /** The run and key of a scanned entry that is a table large enough to demote. */
    method Qualifying(rk: string) returns (found: Option<(string, string)>)
      ensures found.Some? <==> Demotes(cfg, State(), rk)
      ensures found.Some? ==> found == ParseRedisDataKey(rk)
    {
      hide ParseRedisDataKey;
      if DATA_PREFIX <= rk && !(MANIFEST_PREFIX <= rk) && !(SHM_KEY_PREFIX <= rk)
        && rk in redis && redis[rk].Bytes? && cfg.ipcSize(redis[rk].table) >= cfg.small / 2
      {
        return ParseRedisDataKey(rk);
      }
      return None;
    }

    /** One scanned key: demoted when it qualifies and its writes go through. */
    method DemoteIfQualified(rk: string, written: set<string>, persisted: set<string>) returns (demoted: bool)
      modifies this
      ensures demoted <==> rk in written && Demotes(cfg, old(State()), rk)
      ensures demoted ==> State() == DemoteOne(cfg, old(State()), rk, rk in persisted)
      ensures demoted ==> |HotKeys(redis)| + 1 == |HotKeys(old(redis))|
      ensures !demoted ==> State() == old(State())
    {
      hide ParseRedisDataKey, Demotes, DemoteOne, HotKeys;
      var found := Qualifying(rk);
      demoted := found.Some? && rk in written;
      if demoted {
        DemotedIsOne(cfg, State(), rk, rk in persisted);
        DemoteKey(rk, found.value.0, found.value.1, rk in persisted);
      }
    }

    method DemoteUpToFive(scan: seq<string>, written: set<string>, persisted: set<string>) returns (evicted: nat)
      modifies this
      ensures State() == DemoteScan(cfg, old(State()), scan, written, persisted, 0)
      ensures evicted <= 5 && |HotKeys(redis)| + evicted == |HotKeys(old(redis))|
    {
      hide Demotes, DemoteOne, HotKeys, DemoteScan;
      evicted := 0;
      var i := 0;
      assert scan[0..] == scan;
      while i < |scan| && evicted < 5
        invariant i <= |scan| && evicted <= 5 && |HotKeys(redis)| + evicted == |HotKeys(old(redis))|
        invariant DemoteScan(cfg, State(), scan[i..], written, persisted, evicted)
          == DemoteScan(cfg, old(State()), scan, written, persisted, 0)
      {
        ScanNext(cfg, State(), scan, written, persisted, evicted, i);
        var demoted := DemoteIfQualified(scan[i], written, persisted);
        if demoted {
          evicted := evicted + 1;
        }
        i := i + 1;
      }
      ScanDone(cfg, State(), scan, written, persisted, evicted, i);
    }

    /** Demotion of at most five entries of the scan, when Redis is reachable and `pressed`
        for memory and shared memory is available; nothing otherwise. */
    method MaybeEvictHotToWarm(pressed: bool, scan: seq<string>, written: set<string>, persisted: set<string>)
      returns (evicted: nat)
      modifies this
      ensures pressed ==> State() == DemoteScan(cfg, old(State()), scan, written, persisted, 0)
      ensures !pressed ==> State() == old(State())
      ensures evicted <= 5 && |HotKeys(redis)| + evicted == |HotKeys(old(redis))|
      ensures pressed ==> evicted == AtMost(5, |Candidates(cfg, old(State()), scan, written)|)
      ensures HotKeys(old(redis)) - Candidates(cfg, old(State()), scan, written) <= HotKeys(redis)
    {
      hide DemoteScan, HotKeys, Candidates;
      evicted := 0;
      if pressed {
        ScanDemotes(cfg, State(), scan, written, persisted, 0);
        evicted := DemoteUpToFive(scan, written, persisted);
      }
    }

    /** Returns how many entries of each tier were removed, and the orders in which the
        local and the manifest's entries were visited. */
    method Cleanup(run: string) returns (hot: nat, warm: nat, cold: nat, keys: seq<string>, left: seq<string>)
      modifies this
      ensures Lists(keys, KeysOf(old(State()), run))
      ensures State() == CleanupRun(cfg, old(State()), run, keys, left)
      ensures var cleared := DeleteKeys(old(State()), keys);
        var entries := ManifestOf(cleared, run);
        var unknown := entries - (set k | k in keys);
        && Lists(left, entries.Keys)
        && hot == Tally(old(State()), keys, Redis) + EntryTally(unknown, left, Redis)
        && warm == Tally(old(State()), keys, Shm) + EntryTally(unknown, left, Shm)
        && cold == Tally(old(State()), keys, Spill) + EntryTally(unknown, left, Spill)
    {
      hide Delete, RemoveEntry, DeletePayload, ManifestKey, Lists, Sweep, DeleteKeys, DropEntries, Tally, EntryTally;
      keys := Listed(set k | k in locations && locations[k].run == run);
      hot, warm, cold := DeleteAll(keys);
      var mk := ManifestKey(run);
      var entries := if mk in redis && redis[mk].Hash? then redis[mk].entries else map[];
      left := Listed(entries.Keys);
      var unknown := entries - (set k | k in keys);
      var hot', warm', cold' := DropAll(run, unknown, left);
      hot, warm, cold := hot + hot', warm + warm', cold + cold';
      SweepRun(run);
    }

    /** Orphaned files of the run, and its manifest. */
    method SweepRun(run: string)
      modifies this
      ensures State() == Sweep(cfg, old(State()), run)
    {
      hide ManifestKey, Swept, SpillSwept;
      shm := map p | p in shm && !Swept(cfg.shmDir, run, p) :: shm[p];
      spill := map p | p in spill && !SpillSwept(cfg.diskPrefix, run, p) :: spill[p];
      redis := redis - {ManifestKey(run)};
    }

    method DeleteAll(keys: seq<string>) returns (hot: nat, warm: nat, cold: nat)
      modifies this
      ensures State() == DeleteKeys(old(State()), keys)
      ensures hot == Tally(old(State()), keys, Redis) && warm == Tally(old(State()), keys, Shm)
        && cold == Tally(old(State()), keys, Spill)
    {
      hide Delete;
      hot, warm, cold := 0, 0, 0;
      var i := 0;
      assert keys[0..] == keys;
      while i < |keys|
        invariant i <= |keys|
        invariant DeleteKeys(State(), keys[i..]) == DeleteKeys(old(State()), keys)
        invariant hot + Tally(State(), keys[i..], Redis) == Tally(old(State()), keys, Redis)
        invariant warm + Tally(State(), keys[i..], Shm) == Tally(old(State()), keys, Shm)
        invariant cold + Tally(State(), keys[i..], Spill) == Tally(old(State()), keys, Spill)
      {
        assert keys[i..][1..] == keys[i + 1..];
        if keys[i] in locations {
          match locations[keys[i]].tier {
            case Redis => hot := hot + 1;
            case Shm => warm := warm + 1;
            case Spill => cold := cold + 1;
          }
        }
        DeleteKey(keys[i]);
        i := i + 1;
      }
    }

    method DropAll(
      run: string, entries: map<string, Entry>, order: seq<string>) returns (hot: nat, warm: nat, cold: nat)
      modifies this
      ensures State() == DropEntries(old(State()), run, entries, order)
      ensures hot == EntryTally(entries, order, Redis) && warm == EntryTally(entries, order, Shm)
        && cold == EntryTally(entries, order, Spill)
    {
      hide RemoveEntry, DeletePayload;
      hot, warm, cold := 0, 0, 0;
      var i := 0;
      assert order[0..] == order;
      while i < |order|
        invariant i <= |order|
        invariant DropEntries(State(), run, entries, order[i..]) == DropEntries(old(State()), run, entries, order)
        invariant hot + EntryTally(entries, order[i..], Redis) == EntryTally(entries, order, Redis)
        invariant warm + EntryTally(entries, order[i..], Shm) == EntryTally(entries, order, Shm)
        invariant cold + EntryTally(entries, order[i..], Spill) == EntryTally(entries, order, Spill)
      {
        assert order[i..][1..] == order[i + 1..];
        if order[i] in entries {
          var e := entries[order[i]];
          match e.tier {
            case Redis => hot := hot + 1;
            case Shm => warm := warm + 1;
            case Spill => cold := cold + 1;
          }
          DeleteLocationPayload(e.tier, e.pointer);
          RemoveManifestEntry(run, order[i]);
        }
        i := i + 1;
      }
    }
  }

  lemma RecordedThere<T>(b: ArrowBus.Bus<T>, loc: Location, persisted: bool)
    ensures loc.key in RecordLocation(b, loc, persisted).locations
    ensures RecordLocation(b, loc, persisted).locations[loc.key] == loc
  {
  }

  /** In a reachable state each entry of the run is counted once, in its tier, and none
      is left for the manifest to recover. */
  lemma {:induction false} CleanupCounts<T>(
    cfg: Config<T>, b: ArrowBus.Bus<T>, abs: map<string, Held<T>>, run: string, keys: seq<string>,
    left: seq<string>, tier: Tier)
    requires Inv(cfg, b, abs) && ValidRun(run) && Lists(keys, KeysOf(b, run))
    requires Lists(left, ManifestOf(DeleteKeys(b, keys), run).Keys)
    ensures var unknown := ManifestOf(DeleteKeys(b, keys), run) - (set k | k in keys);
      Tally(b, keys, tier) + EntryTally(unknown, left, tier)
        == |set k | k in KeysOf(b, run) && b.locations[k].tier == tier|
    ensures CleanupRun(cfg, b, run, keys, left) == CleanupRun(cfg, b, run, keys, [])
  {
    hide Inv, DeleteKeys, ManifestOf, Sweep, Payload, ManifestKey;
    CleanupIsExact(cfg, b, abs, run, keys);
    NoneTallied(DeleteKeys(b, keys), run, left, tier);
    TallyIsCount(b, keys, tier);
    assert InTier(b.locations, keys, tier) == set k | k in KeysOf(b, run) && b.locations[k].tier == tier;
  }

  lemma {:induction false} NoneTallied<T>(b: ArrowBus.Bus<T>, run: string, order: seq<string>, tier: Tier)
    ensures EntryTally(map[], order, tier) == 0 && DropEntries(b, run, map[], order) == b
  {
    if order != [] {
      NoneTallied(b, run, order[1..], tier);
    }
  }
}
