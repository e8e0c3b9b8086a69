/** What the persisted manifests say about a bus, and what a restarted worker can do
    with them. */
module ArrowManifest {
  import opened Basics
  import opened ArrowKeys
  import opened ArrowBus

  /** The manifest a run should have. */
  ghost function RunEntries(locations: map<string, Location>, run: string): map<string, Entry> {
    map k | k in locations && locations[k].run == run ::
      Entry(locations[k].tier, locations[k].pointer, locations[k].size)
  }

  ghost predicate Mirrors<T>(b: Bus<T>) {
    forall run :: ValidRun(run) ==> ManifestOf(b, run) == RunEntries(b.locations, run)
  }

  /** Operations whose manifest writes go through and that expire no manifest. */
  ghost predicate FaultFree<T>(op: Op<T>) {
    match op
    case PutOp(_, _, _, _, faults) => faults.manifestWrites
    case DemoteOp(_, written, persisted) => written <= persisted
    case ExpireRedisOp(redisKey) => forall run :: ValidRun(run) ==> redisKey != ManifestKey(run)
    case _ => true
  }

  // ----- one entry removed or added

  lemma RemoveEntryManifest<T>(b: Bus<T>, run: string, key: string, other: string)
    ensures ManifestOf(b.(redis := RemoveEntry(b.redis, run, key)), other)
      == if other == run then ManifestOf(b, other) - {key} else ManifestOf(b, other)
  {
    hide ManifestKey;
    if other != run && ManifestKey(other) == ManifestKey(run) {
      ManifestKeysApart(other, run);
    }
  }

  lemma PersistManifest<T>(b: Bus<T>, loc: Location, other: string)
    requires ManifestKey(loc.run) in b.redis ==> b.redis[ManifestKey(loc.run)].Hash?
    ensures ManifestOf(RecordLocation(b, loc, true), other)
      == if other == loc.run then ManifestOf(b, other)[loc.key := EntryOf(loc)] else ManifestOf(b, other)
  {
    hide ManifestKey, EntryOf;
    if other != loc.run && ManifestKey(other) == ManifestKey(loc.run) {
      ManifestKeysApart(other, loc.run);
    }
  }

  /** Payload changes leave every manifest alone. */
  lemma PayloadManifest<T>(cfg: Config<T>, b: Bus<T>, loc: Location, table: T, run: string)
    requires PointerOk(cfg, loc) && ValidRun(loc.run)
    ensures ManifestOf(DeletePayload(b, loc.tier, loc.pointer), run) == ManifestOf(b, run)
    ensures ManifestOf(StorePayload(b, loc.tier, loc.pointer, table), run) == ManifestOf(b, run)
  {
    hide ManifestKey, RedisKey, ShmPath;
    if loc.tier == Redis {
      DataIsNotManifest(loc.run, loc.key, run);
    }
  }

  lemma DeleteManifest<T>(cfg: Config<T>, b: Bus<T>, abs: map<string, Held<T>>, key: string, run: string)
    requires Inv(cfg, b, abs) && key in b.locations
    ensures ManifestOf(Delete(b, key), run)
      == if run == b.locations[key].run then ManifestOf(b, run) - {key} else ManifestOf(b, run)
  {
    assert LocationOk(cfg, b, key, abs[key]);
    var loc := b.locations[key];
    var b0 := b.(locations := b.locations - {key});
    assert ManifestOf(b0, run) == ManifestOf(b, run);
    PayloadManifest(cfg, b0, loc, abs[key].table, run);
    hide RemoveEntry, DeletePayload, ManifestOf, PointerOk, ValidRun;
    RemoveEntryManifest(DeletePayload(b0, loc.tier, loc.pointer), loc.run, key, run);
  }

  lemma EntriesAfterDelete(locations: map<string, Location>, key: string, run: string)
    ensures key in locations && locations[key].run == run ==>
      RunEntries(locations - {key}, run) == RunEntries(locations, run) - {key}
    ensures key in locations && locations[key].run != run ==>
      RunEntries(locations - {key}, run) == RunEntries(locations, run)
  {
    hide EntryOf;
  }

  lemma EntriesAfterStore(locations: map<string, Location>, loc: Location, run: string)
    requires loc.key in locations ==> locations[loc.key].run == loc.run
    ensures RunEntries(locations[loc.key := loc], run)
      == if run == loc.run then RunEntries(locations, run)[loc.key := EntryOf(loc)] else RunEntries(locations, run)
  {
  }

  lemma DeleteMirrors<T>(cfg: Config<T>, b: Bus<T>, abs: map<string, Held<T>>, key: string)
    requires Inv(cfg, b, abs) && Mirrors(b)
    ensures Mirrors(Delete(b, key))
  {
    hide Inv, ManifestOf, RunEntries, ValidRun;
    DeleteLocations(b, key);
    if key in b.locations {
      forall run | ValidRun(run)
        ensures ManifestOf(Delete(b, key), run) == RunEntries(Delete(b, key).locations, run)
      {
        hide Delete;
        DeleteManifest(cfg, b, abs, key, run);
        EntriesAfterDelete(b.locations, key, run);
      }
    }
  }

  lemma StoredManifestIsHash<T>(cfg: Config<T>, b: Bus<T>, abs: map<string, Held<T>>, loc: Location, table: T)
    requires Ready(cfg, b, abs, loc.key, loc.run) && ValidRun(loc.run) && PointerOk(cfg, loc)
    ensures var mid := StorePayload(b, loc.tier, loc.pointer, table);
      ManifestKey(loc.run) in mid.redis ==> mid.redis[ManifestKey(loc.run)].Hash?
  {
    hide Ready, ManifestKey, RedisKey, ShmPath;
    if ManifestKey(loc.run) in b.redis { ManifestIsHash(cfg, b, abs, loc.key, loc.run); }
    if loc.tier == Redis { DataIsNotManifest(loc.run, loc.key, loc.run); }
  }

  lemma StoreMirrorsRun<T>(cfg: Config<T>, b: Bus<T>, abs: map<string, Held<T>>, loc: Location, table: T, run: string)
    requires Ready(cfg, b, abs, loc.key, loc.run) && ValidRun(loc.run) && PointerOk(cfg, loc)
    requires loc.key in b.locations ==> b.locations[loc.key].run == loc.run
    requires ManifestOf(b, run) == RunEntries(b.locations, run)
    ensures ManifestOf(RecordLocation(StorePayload(b, loc.tier, loc.pointer, table), loc, true), run)
      == RunEntries(b.locations[loc.key := loc], run)
  {
    hide Ready, ManifestOf, RunEntries, ValidRun, PointerOk, RecordLocation, StorePayload, ManifestKey;
    StoredManifestIsHash(cfg, b, abs, loc, table);
    PayloadManifest(cfg, b, loc, table, run);
    PersistManifest(StorePayload(b, loc.tier, loc.pointer, table), loc, run);
    EntriesAfterStore(b.locations, loc, run);
  }

  lemma StoreMirrors<T>(cfg: Config<T>, b: Bus<T>, abs: map<string, Held<T>>, loc: Location, table: T)
    requires Ready(cfg, b, abs, loc.key, loc.run) && Mirrors(b) && ValidRun(loc.run) && PointerOk(cfg, loc)
    requires loc.key in b.locations ==> b.locations[loc.key].run == loc.run
    ensures Mirrors(RecordLocation(StorePayload(b, loc.tier, loc.pointer, table), loc, true))
  {
    hide Ready, ManifestOf, RunEntries, ValidRun, PointerOk, RecordLocation, StorePayload;
    StoredLocations(b, loc, table, true);
    forall run | ValidRun(run)
      ensures ManifestOf(RecordLocation(StorePayload(b, loc.tier, loc.pointer, table), loc, true), run)
        == RunEntries(b.locations[loc.key := loc], run)
    {
      StoreMirrorsRun(cfg, b, abs, loc, table, run);
    }
  }

  lemma AttemptMirrors<T>(cfg: Config<T>, b: Bus<T>, key: string, table: T, run: string, faults: Faults)
    requires Mirrors(b) && ValidRun(run)
    ensures Mirrors(Attempted(cfg, b, key, table, run, faults))
  {
    var b' := Attempted(cfg, b, key, table, run, faults);
    hide RunEntries, RedisKey, ManifestKey, Leaks;
    forall r | ValidRun(r) ensures ManifestOf(b', r) == ManifestOf(b, r) { DataIsNotManifest(run, key, r); }
  }

  lemma PutMirrors<T>(
    cfg: Config<T>, b: Bus<T>, abs: map<string, Held<T>>,
    key: string, table: T, run: string, uuid: string, faults: Faults)
    requires Inv(cfg, b, abs) && Mirrors(b) && key != "" && ValidRun(run) && cfg.inUse(DigestText(run, key))
    requires faults.manifestWrites && NoHarm(cfg, table, run, faults)
    ensures Mirrors(Put(cfg, b, key, table, run, uuid, faults))
  {
    hide Inv, Ready, Delete, StorePayload, RecordLocation, ValidRun, Mirrors, Attempted, NoHarm, Payload;
    DeleteReadies(cfg, b, abs, key, run);
    DeleteMirrors(cfg, b, abs, key);
    AttemptReadies(cfg, Delete(b, key), abs, key, table, run, faults);
    AttemptMirrors(cfg, Delete(b, key), key, table, run, faults);
    var attempted := Attempted(cfg, Delete(b, key), key, table, run, faults);
    if Stores(cfg, table, faults) {
      var tier := ChooseTier(cfg, table, faults);
      var loc := Location(key, run, tier, PointerFor(cfg, tier, run, key, uuid), SizeOf(cfg, table));
      StoreMirrors(cfg, attempted, abs, loc, table);
    }
  }

  lemma LoseMirrors<T>(b: Bus<T>, rk: string, path: string)
    requires Mirrors(b) && forall run :: ValidRun(run) ==> rk != ManifestKey(run)
    ensures Mirrors(b.(redis := b.redis - {rk})) && Mirrors(b.(shm := b.shm - {path}))
  {
    hide ValidRun, ManifestKey, RunEntries;
    forall run | ValidRun(run)
      ensures ManifestOf(b.(redis := b.redis - {rk}), run) == ManifestOf(b, run)
      ensures ManifestOf(b.(shm := b.shm - {path}), run) == ManifestOf(b, run)
    {
    }
  }

  lemma DemoteMirrors<T>(cfg: Config<T>, b: Bus<T>, abs: map<string, Held<T>>, rk: string)
    requires Inv(cfg, b, abs) && Mirrors(b) && Demotes(cfg, b, rk)
    ensures Mirrors(DemoteOne(cfg, b, rk, true))
  {
    DemotedLocation(cfg, b, abs, rk);
    var (run, key) := ParseRedisDataKey(rk).value;
    var table := b.redis[rk].table;
    DemoteIsStore(cfg, b, rk, run, key, table, true);
    DemoteReady(cfg, b, abs, rk, key);
    forall r | ValidRun(r) ensures rk != ManifestKey(r) { DataIsNotManifest(run, key, r); }
    hide Inv, Ready, Mirrors, ParseRedisDataKey, ShmPath;
    hide ManifestKey, RedisKey, ValidRun, DemoteOne, RecordLocation, StorePayload;
    LoseMirrors(b, rk, "");
    var loc := Location(key, run, Shm, ShmPath(cfg.shmDir, cfg.digest, run, key), cfg.ipcSize(table));
    StoreMirrors(cfg, b.(redis := b.redis - {rk}), abs, loc, table);
  }

  lemma {:induction false} DemoteScanMirrors<T>(
    cfg: Config<T>, b: Bus<T>, abs: map<string, Held<T>>,
    scan: seq<string>, written: set<string>, persisted: set<string>, evicted: nat)
    requires Inv(cfg, b, abs) && Mirrors(b) && written <= persisted
    ensures Mirrors(DemoteScan(cfg, b, scan, written, persisted, evicted))
    decreases |scan|
  {
    hide Inv, Mirrors, DemoteOne, Demotes;
    if scan != [] && evicted < 5 {
      if scan[0] in written && Demotes(cfg, b, scan[0]) {
        DemoteKeepsInv(cfg, b, abs, scan[0], true);
        DemoteMirrors(cfg, b, abs, scan[0]);
        DemoteScanMirrors(cfg, DemoteOne(cfg, b, scan[0], true), abs, scan[1..], written, persisted, evicted + 1);
      } else {
        DemoteScanMirrors(cfg, b, abs, scan[1..], written, persisted, evicted);
      }
    }
  }

  lemma {:induction false} DeleteKeysMirrors<T>(
    cfg: Config<T>, b: Bus<T>, abs: map<string, Held<T>>, order: seq<string>)
    requires Inv(cfg, b, abs) && Mirrors(b)
    ensures Mirrors(DeleteKeys(b, order))
    decreases |order|
  {
    hide Inv, Mirrors, Delete;
    if order != [] {
      DeleteKeepsInv(cfg, b, abs, order[0]);
      DeleteMirrors(cfg, b, abs, order[0]);
      DeleteKeysMirrors(cfg, Delete(b, order[0]), abs - {order[0]}, order[1..]);
    }
  }

  lemma SweepManifest<T>(cfg: Config<T>, b: Bus<T>, run: string, other: string)
    ensures ManifestOf(Sweep(cfg, b, run), other) == if other == run then map[] else ManifestOf(b, other)
  {
    hide ManifestKey, Swept, SpillSwept;
    if other != run && ManifestKey(other) == ManifestKey(run) {
      ManifestKeysApart(other, run);
    }
  }

  lemma SweepMirrors<T>(cfg: Config<T>, b: Bus<T>, run: string)
    requires Mirrors(b) && KeysOf(b, run) == {}
    ensures Mirrors(Sweep(cfg, b, run))
  {
    SweepLocations(cfg, b, run);
    hide ValidRun, ManifestOf, Sweep;
    forall other | ValidRun(other)
      ensures ManifestOf(Sweep(cfg, b, run), other) == RunEntries(b.locations, other)
    {
      SweepManifest(cfg, b, run, other);
      if other == run {
        assert forall k :: k in b.locations ==> k !in KeysOf(b, run);
      }
    }
  }

  lemma CleanupMirrors<T>(cfg: Config<T>, b: Bus<T>, abs: map<string, Held<T>>, run: string, keys: seq<string>)
    requires Inv(cfg, b, abs) && Mirrors(b) && Lists(keys, KeysOf(b, run))
    ensures Mirrors(CleanupRun(cfg, b, run, keys, []))
  {
    hide Inv, Mirrors, DeleteKeys, Sweep, ManifestOf, Payload;
    DeleteKeysKeepInv(cfg, b, abs, keys);
    DeleteKeysMirrors(cfg, b, abs, keys);
    assert KeysOf(DeleteKeys(b, keys), run) == {};
    SweepMirrors(cfg, DeleteKeys(b, keys), run);
  }

  lemma StepMirrors<T>(cfg: Config<T>, b: Bus<T>, abs: map<string, Held<T>>, op: Op<T>)
    requires Inv(cfg, b, abs) && Mirrors(b) && Allowed(cfg, b, op) && FaultFree(op)
    ensures Mirrors(Step(cfg, b, op))
  {
    hide Inv, Put, Delete, DemoteScan, CleanupRun, ValidRun, Fresh, Lists, KeysOf, Mirrors, ManifestKey, NoHarm;
    match op
    case PutOp(key, table, run, uuid, faults) =>
      if key == "" {
        PutEmptyKey(cfg, b, table, run, uuid, faults);
      } else {
        PutMirrors(cfg, b, abs, key, table, run, uuid, faults);
      }
    case DeleteOp(key) => DeleteMirrors(cfg, b, abs, key);
    case DemoteOp(scan, written, persisted) => DemoteScanMirrors(cfg, b, abs, scan, written, persisted, 0);
    case CleanupOp(run, keys) => CleanupMirrors(cfg, b, abs, run, keys);
    case ExpireRedisOp(redisKey) => LoseMirrors(b, redisKey, "");
    case ExpireShmOp(path) => ShmExpiryMirrors(b, path);
  }

  lemma ShmExpiryMirrors<T>(b: Bus<T>, path: string)
    requires Mirrors(b)
    ensures Mirrors(b.(shm := b.shm - {path}))
  {
    hide ManifestKey, RunEntries;
    assert forall run :: ManifestOf(b.(shm := b.shm - {path}), run) == ManifestOf(b, run);
  }

  /** In every state a bus reaches without losing a manifest write or a manifest, the
      persisted manifest of each run lists exactly the run's locations, each with its
      tier, pointer and size. */
  lemma {:induction false} ManifestsMirror<T>(cfg: Config<T>, ops: seq<Op<T>>)
    requires GoodDigest(cfg.digest, cfg.inUse) && AllAllowed(cfg, EmptyBus(), ops)
    requires forall n :: 0 <= n < |ops| ==> FaultFree(ops[n])
    ensures Mirrors(RunOps(cfg, EmptyBus(), ops))
    ensures Inv(cfg, RunOps(cfg, EmptyBus(), ops), ExpectedAfter(cfg, map[], ops))
  {
    hide GoodDigest, Inv, Step, Expected, Allowed, FaultFree, Mirrors;
    EmptyInv(cfg);
    RunKeepsInv(cfg, EmptyBus(), map[], ops);
    if ops == [] {
      EmptyMirrors<T>();
    } else {
      var n := |ops| - 1;
      assert forall m :: 0 <= m < n ==> ops[..n][..m] == ops[..m];
      ManifestsMirror(cfg, ops[..n]);
      StepMirrors(cfg, RunOps(cfg, EmptyBus(), ops[..n]), ExpectedAfter(cfg, map[], ops[..n]), ops[n]);
    }
  }

  lemma EmptyMirrors<T>()
    ensures Mirrors<T>(EmptyBus())
  {
    hide ManifestKey;
  }

  // ----- without expiry nothing is lost

  ghost predicate Present<T>(b: Bus<T>) {
    forall k :: k in b.locations ==> Payload(b, b.locations[k]).Some?
  }

  ghost predicate PresentBut<T>(b: Bus<T>, key: string) {
    forall k :: k in b.locations && k != key ==> Payload(b, b.locations[k]).Some?
  }

  lemma StorePresent<T>(cfg: Config<T>, b: Bus<T>, abs: map<string, Held<T>>, loc: Location, table: T, persisted: bool)
    requires Ready(cfg, b, abs, loc.key, loc.run) && ValidRun(loc.run) && PointerOk(cfg, loc) && PresentBut(b, loc.key)
    requires loc.tier == Spill ==> forall k :: k in b.locations && k != loc.key && b.locations[k].tier == Spill ==>
      b.locations[k].pointer != loc.pointer
    ensures Present(RecordLocation(StorePayload(b, loc.tier, loc.pointer, table), loc, persisted))
  {
    var mid := StorePayload(b, loc.tier, loc.pointer, table);
    var b' := RecordLocation(mid, loc, persisted);
    assert b'.locations == b.locations[loc.key := loc];
    StorePayloadHeld(cfg, b, loc, table, persisted);
    hide GoodDigest, RedisReady, StorePayload, RecordLocation, PointerOk, ValidRun, Payload, SpillApart;
    forall k | k in b'.locations
      ensures Payload(b', b'.locations[k]).Some?
    {
      if k != loc.key {
        assert LocationOk(cfg, b, k, abs[k]);
        StoreKeepsPayload(cfg, b, loc, table, b.locations[k]);
        PersistKeepsPayload(cfg, mid, loc, b.locations[k], persisted);
      }
    }
  }

  lemma PutPresent<T>(
    cfg: Config<T>, b: Bus<T>, abs: map<string, Held<T>>,
    key: string, table: T, run: string, uuid: string, faults: Faults)
    requires Inv(cfg, b, abs) && Present(b) && key != "" && ValidRun(run) && cfg.inUse(DigestText(run, key))
    requires Fresh(cfg, b, run, key, uuid) && NoHarm(cfg, table, run, faults)
    ensures Present(Put(cfg, b, key, table, run, uuid, faults))
  {
    hide Inv, Ready, Delete, StorePayload, RecordLocation, ValidRun, Payload, Attempted, NoHarm;
    DeleteReadies(cfg, b, abs, key, run);
    AttemptReadies(cfg, Delete(b, key), abs, key, table, run, faults);
    var attempted := Attempted(cfg, Delete(b, key), key, table, run, faults);
    if Stores(cfg, table, faults) {
      var tier := ChooseTier(cfg, table, faults);
      var loc := Location(key, run, tier, PointerFor(cfg, tier, run, key, uuid), SizeOf(cfg, table));
      StorePresent(cfg, attempted, abs, loc, table, faults.manifestWrites);
    }
  }

  lemma DemotePresent<T>(cfg: Config<T>, b: Bus<T>, abs: map<string, Held<T>>, rk: string, persisted: bool)
    requires Inv(cfg, b, abs) && Present(b) && Demotes(cfg, b, rk)
    ensures Present(DemoteOne(cfg, b, rk, persisted))
  {
    DemotedLocation(cfg, b, abs, rk);
    var (run, key) := ParseRedisDataKey(rk).value;
    var table := b.redis[rk].table;
    DemoteIsStore(cfg, b, rk, run, key, table, persisted);
    DemoteReady(cfg, b, abs, rk, key);
    LosePresent(cfg, b, abs, rk, key);
    hide Inv, Ready, Present, PresentBut, ParseRedisDataKey, ShmPath;
    hide ManifestKey, RedisKey, ValidRun, DemoteOne, RecordLocation, StorePayload;
    var loc := Location(key, run, Shm, ShmPath(cfg.shmDir, cfg.digest, run, key), cfg.ipcSize(table));
    StorePresent(cfg, b.(redis := b.redis - {rk}), abs, loc, table, persisted);
  }

  lemma LosePresent<T>(cfg: Config<T>, b: Bus<T>, abs: map<string, Held<T>>, rk: string, key: string)
    requires Inv(cfg, b, abs) && Present(b) && key in b.locations && b.locations[key].tier == Redis
    requires b.locations[key].pointer == rk
    ensures PresentBut(b.(redis := b.redis - {rk}), key)
  {
    hide RedisOk, GoodDigest, PointerOk, ValidRun, SpillApart;
    assert LocationOk(cfg, b, key, abs[key]);
    forall k | k in b.locations && k != key
      ensures Payload(b.(redis := b.redis - {rk}), b.locations[k]).Some?
    {
      assert LocationOk(cfg, b, k, abs[k]);
      if b.locations[k].tier == Redis {
        PointersApart(cfg, b.locations[k], b.locations[key]);
      }
    }
  }

  lemma {:induction false} DemoteScanPresent<T>(
    cfg: Config<T>, b: Bus<T>, abs: map<string, Held<T>>,
    scan: seq<string>, written: set<string>, persisted: set<string>, evicted: nat)
    requires Inv(cfg, b, abs) && Present(b)
    ensures Present(DemoteScan(cfg, b, scan, written, persisted, evicted))
    decreases |scan|
  {
    hide Inv, Present, DemoteOne, Demotes;
    if scan != [] && evicted < 5 {
      if scan[0] in written && Demotes(cfg, b, scan[0]) {
        var kept := scan[0] in persisted;
        DemoteKeepsInv(cfg, b, abs, scan[0], kept);
        DemotePresent(cfg, b, abs, scan[0], kept);
        DemoteScanPresent(cfg, DemoteOne(cfg, b, scan[0], kept), abs, scan[1..], written, persisted, evicted + 1);
      } else {
        DemoteScanPresent(cfg, b, abs, scan[1..], written, persisted, evicted);
      }
    }
  }

  lemma CleanupPresent<T>(cfg: Config<T>, b: Bus<T>, abs: map<string, Held<T>>, run: string, keys: seq<string>)
    requires Inv(cfg, b, abs) && Present(b) && ValidRun(run) && Lists(keys, KeysOf(b, run))
    ensures Present(CleanupRun(cfg, b, run, keys, []))
  {
    hide Inv, Payload, CleanupRun, ValidRun, Lists, KeysOf;
    CleanupIsExact(cfg, b, abs, run, keys);
    var b' := CleanupRun(cfg, b, run, keys, []);
    forall k | k in b'.locations
      ensures Payload(b', b'.locations[k]).Some?
    {
      assert k in b.locations && k !in KeysOf(b, run) && Get(b', k) == Get(b, k);
    }
  }

  lemma DeletePresent<T>(cfg: Config<T>, b: Bus<T>, abs: map<string, Held<T>>, key: string)
    requires Inv(cfg, b, abs) && Present(b)
    ensures Present(Delete(b, key))
  {
    hide Inv, Ready, Delete, Payload;
    DeleteReadies(cfg, b, abs, key, "");
  }

  ghost predicate KeepsPayloads<T>(op: Op<T>) { !op.ExpireRedisOp? && !op.ExpireShmOp? }

  lemma StepPresent<T>(cfg: Config<T>, b: Bus<T>, abs: map<string, Held<T>>, op: Op<T>)
    requires Inv(cfg, b, abs) && Present(b) && Allowed(cfg, b, op) && KeepsPayloads(op)
    ensures Present(Step(cfg, b, op))
  {
    hide Inv, Put, Delete, DemoteScan, CleanupRun, ValidRun, Fresh, Lists, KeysOf, Present, NoHarm;
    match op
    case PutOp(key, table, run, uuid, faults) =>
      if key == "" {
        PutEmptyKey(cfg, b, table, run, uuid, faults);
      } else {
        PutPresent(cfg, b, abs, key, table, run, uuid, faults);
      }
    case DeleteOp(key) => DeletePresent(cfg, b, abs, key);
    case DemoteOp(scan, written, persisted) => DemoteScanPresent(cfg, b, abs, scan, written, persisted, 0);
    case CleanupOp(run, keys) => CleanupPresent(cfg, b, abs, run, keys);
  }

  lemma {:induction false} RunPresent<T>(cfg: Config<T>, ops: seq<Op<T>>)
    requires GoodDigest(cfg.digest, cfg.inUse) && AllAllowed(cfg, EmptyBus(), ops)
    requires forall n :: 0 <= n < |ops| ==> KeepsPayloads(ops[n])
    ensures Present(RunOps(cfg, EmptyBus(), ops))
    ensures Inv(cfg, RunOps(cfg, EmptyBus(), ops), ExpectedAfter(cfg, map[], ops))
  {
    hide GoodDigest, Inv, Step, Expected, Allowed, KeepsPayloads, Payload;
    EmptyInv(cfg);
    RunKeepsInv(cfg, EmptyBus(), map[], ops);
    if ops != [] {
      hide Present;
      var n := |ops| - 1;
      assert forall m :: 0 <= m < n ==> ops[..n][..m] == ops[..m];
      RunPresent(cfg, ops[..n]);
      StepPresent(cfg, RunOps(cfg, EmptyBus(), ops[..n]), ExpectedAfter(cfg, map[], ops[..n]), ops[n]);
    }
  }

  /** As long as nothing expires the bus is the plain map: every key that was stored and
      neither deleted nor cleaned up is found, with its last table, whatever was demoted
      and whichever writes failed.  A put whose upload fails leaves its key deleted. */
  lemma {:induction false} BusIsMap<T>(cfg: Config<T>, ops: seq<Op<T>>, key: string)
    requires GoodDigest(cfg.digest, cfg.inUse) && AllAllowed(cfg, EmptyBus(), ops)
    requires forall n :: 0 <= n < |ops| ==> KeepsPayloads(ops[n])
    ensures var abs := ExpectedAfter(cfg, map[], ops);
      Get(RunOps(cfg, EmptyBus(), ops), key) == if key in abs then Table(abs[key].table) else KeyError
  {
    RunPresent(cfg, ops);
    hide GoodDigest, AllAllowed, KeepsPayloads, RunOps, ExpectedAfter, Payload;
    GetIsLastPut(cfg, RunOps(cfg, EmptyBus(), ops), ExpectedAfter(cfg, map[], ops), key);
  }

  // ----- a restarted worker

  /** An entry of a manifest as a location. */
  ghost function AsLocation(
    run: string, key: string, e: Entry): Location { Location(key, run, e.tier, e.pointer, e.size) }

  lemma DropOne<T>(b: Bus<T>, run: string, key: string, e: Entry, loc: Location)
    ensures var b1 := DeletePayload(b, e.tier, e.pointer);
      var b' := b1.(redis := RemoveEntry(b1.redis, run, key));
      && b'.locations == b.locations
      && (Payload(b, loc).None? || (loc.tier == e.tier && loc.pointer == e.pointer) ==> Payload(b', loc).None?)
  {
    var b1 := DeletePayload(b, e.tier, e.pointer);
    hide RemoveEntry, ManifestKey;
    if loc.tier == Redis && loc.pointer in RemoveEntry(b1.redis, run, key) {
      RemoveFacts(b1.redis, run, key, loc.pointer);
    }
  }

  lemma {:induction false} DropClears<T>(
    b: Bus<T>, run: string, entries: map<string, Entry>, order: seq<string>, loc: Location)
    ensures DropEntries(b, run, entries, order).locations == b.locations
    ensures Payload(b, loc).None? || (loc.key in order && loc.key in entries && EntryOf(loc) == entries[loc.key]) ==>
      Payload(DropEntries(b, run, entries, order), loc).None?
    decreases |order|
  {
    hide Payload, RemoveEntry, DeletePayload;
    if order != [] {
      if order[0] !in entries {
        DropClears(b, run, entries, order[1..], loc);
      } else {
        var b1 := DeletePayload(b, entries[order[0]].tier, entries[order[0]].pointer);
        DropOne(b, run, order[0], entries[order[0]], loc);
        DropClears(b1.(redis := RemoveEntry(b1.redis, run, order[0])), run, entries, order[1..], loc);
      }
    }
  }

  /** The payload of `loc` is out of reach of a manifest entry. */
  ghost predicate EntryApart<T>(cfg: Config<T>, run: string, k: string, e: Entry, loc: Location) {
    && PointerOk(cfg, AsLocation(run, k, e)) && k != loc.key
    && (e.tier == Spill && loc.tier == Spill ==> e.pointer != loc.pointer)
  }

  lemma {:induction false} DropKeeps<T>(
    cfg: Config<T>, b: Bus<T>, run: string, entries: map<string, Entry>, order: seq<string>, loc: Location)
    requires GoodDigest(cfg.digest, cfg.inUse) && ValidRun(run) && ValidRun(loc.run) && PointerOk(cfg, loc)
    requires forall k :: k in entries ==> EntryApart(cfg, run, k, entries[k], loc)
    ensures Payload(DropEntries(b, run, entries, order), loc) == Payload(b, loc)
    decreases |order|
  {
    hide Payload, RemoveEntry, DeletePayload, GoodDigest, ValidRun, PointerOk;
    if order != [] {
      if order[0] !in entries {
        DropKeeps(cfg, b, run, entries, order[1..], loc);
      } else {
        var e := entries[order[0]];
        assert EntryApart(cfg, run, order[0], e, loc);
        var b1 := DeletePayload(b, e.tier, e.pointer);
        DeletePayloadKeeps(cfg, b, AsLocation(run, order[0], e), loc);
        RemoveEntryKeepsPayload(cfg, b1, run, order[0], loc);
        DropKeeps(cfg, b1.(redis := RemoveEntry(b1.redis, run, order[0])), run, entries, order[1..], loc);
      }
    }
  }

  /** A worker that restarts has no locations.  From the manifest alone its cleanup
      removes every payload of the run, and no payload of another run. */
  lemma RestartedCleanup<T>(cfg: Config<T>, b: Bus<T>, abs: map<string, Held<T>>, run: string, left: seq<string>)
    requires Inv(cfg, b, abs) && Mirrors(b) && ValidRun(run) && Lists(left, ManifestOf(b, run).Keys)
    ensures var b' := CleanupRun(cfg, b.(locations := map[]), run, [], left);
      && ManifestKey(run) !in b'.redis
      && (forall k :: k in KeysOf(b, run) ==> Payload(b', b.locations[k]) == None)
      && (forall k :: k in b.locations && k !in KeysOf(b, run) ==>
            Payload(b', b.locations[k]) == Payload(b, b.locations[k]))
  {
    var b0 := b.(locations := map[]);
    var entries := RunEntries(b.locations, run);
    RestartState(cfg, b, run, left);
    hide Inv, Mirrors, Payload, Sweep, DropEntries, CleanupRun, ManifestKey, ManifestOf, RunEntries, Lists, ValidRun;
    forall k | k in b.locations
      ensures k in KeysOf(b, run) ==>
        Payload(Sweep(cfg, DropEntries(b0, run, entries, left), run), b.locations[k]) == None
      ensures k !in KeysOf(b, run) ==>
        Payload(Sweep(cfg, DropEntries(b0, run, entries, left), run), b.locations[k]) == Payload(b, b.locations[k])
    {
      if k in KeysOf(b, run) {
        RestartClears(cfg, b, abs, run, left, k);
      } else {
        RestartKeeps(cfg, b, abs, run, left, k);
      }
    }
  }

  lemma {:induction false} RestartState<T>(cfg: Config<T>, b: Bus<T>, run: string, left: seq<string>)
    requires Mirrors(b) && ValidRun(run)
    ensures CleanupRun(cfg, b.(locations := map[]), run, [], left)
      == Sweep(cfg, DropEntries(b.(locations := map[]), run, RunEntries(b.locations, run), left), run)
    ensures ManifestKey(run) !in CleanupRun(cfg, b.(locations := map[]), run, [], left).redis
    ensures ManifestOf(b, run) == RunEntries(b.locations, run)
  {
    hide DropEntries, ManifestKey, ValidRun, RunEntries;
    var b0 := b.(locations := map[]);
    assert ManifestOf(b0, run) == ManifestOf(b, run);
    assert ManifestOf(b0, run) - (set k | k in []) == ManifestOf(b0, run);
  }

  lemma {:induction false} RestartClears<T>(
    cfg: Config<T>, b: Bus<T>, abs: map<string, Held<T>>, run: string, left: seq<string>, k: string)
    requires Inv(cfg, b, abs) && k in KeysOf(b, run) && Lists(left, RunEntries(b.locations, run).Keys)
    ensures Payload(Sweep(cfg, DropEntries(b.(locations := map[]), run, RunEntries(b.locations, run), left), run),
                    b.locations[k]) == None
  {
    hide Inv, Payload, Sweep, DropEntries, ManifestKey;
    KeyOfLocation(cfg, b, abs, k);
    var b0 := b.(locations := map[]);
    DropClears(b0, run, RunEntries(b.locations, run), left, b.locations[k]);
    SweepShrinks(cfg, DropEntries(b0, run, RunEntries(b.locations, run), left), run, b.locations[k]);
  }

  lemma {:induction false} RestartKeeps<T>(
    cfg: Config<T>, b: Bus<T>, abs: map<string, Held<T>>, run: string, left: seq<string>, k: string)
    requires Inv(cfg, b, abs) && ValidRun(run) && k in b.locations && k !in KeysOf(b, run)
    ensures Payload(Sweep(cfg, DropEntries(b.(locations := map[]), run, RunEntries(b.locations, run), left), run),
                    b.locations[k])
      == Payload(b, b.locations[k])
  {
    var b0 := b.(locations := map[]);
    var entries, loc := RunEntries(b.locations, run), b.locations[k];
    assert Payload(b0, loc) == Payload(b, loc);
    hide Payload, Sweep, DropEntries, ManifestKey, GoodDigest, RedisOk, PointerOk, ValidRun;
    assert LocationOk(cfg, b, k, abs[k]);
    forall j | j in entries
      ensures EntryApart(cfg, run, j, entries[j], loc)
    {
      assert LocationOk(cfg, b, j, abs[j]);
      assert AsLocation(run, j, entries[j]) == b.locations[j];
    }
    DropKeeps(cfg, b0, run, entries, left, loc);
    SweepKeepsOthers(cfg, DropEntries(b0, run, entries, left), run, loc);
  }

  // ----- why deletions in Redis have to succeed

  /** When the deletion inside an overwriting `put` fails, the old payload stays in
      Redis, and a later demotion puts it over the new table. */
  lemma {:induction false} FailedDeleteResurrects<T>(
    cfg: Config<T>, key: string, older: T, newer: T, run: string, uuid: string)
    requires key != "" && ValidRun(run) && run != "shm"
    requires SizeOf(cfg, older) <= cfg.small < SizeOf(cfg, newer) <= cfg.medium && cfg.small / 2 <= cfg.ipcSize(older)
    ensures var ok := Faults(Written, true, true, true);
      var first := Put(cfg, EmptyBus(), key, older, run, uuid, ok);
      var second := Put(cfg, first.(locations := first.locations - {key}), key, newer, run, uuid, ok);
      var rk := RedisKey(run, key);
      && Get(second, key) == Table(newer)
      && Get(DemoteScan(cfg, second, [rk], {rk}, {rk}, 0), key) == Table(older)
  {
    hide RedisKey, ManifestKey, ParseRedisDataKey, Put, DemoteOne, DemoteScan, Get, Demotes, ValidRun, SizeOf;
    var ok := Faults(Written, true, true, true);
    var first := Put(cfg, EmptyBus(), key, older, run, uuid, ok);
    var orphan := first.(locations := first.locations - {key});
    FirstPut(cfg, key, older, run, uuid);
    StoredOver(cfg, orphan, key, older, newer, run, uuid);
    var second := Put(cfg, orphan, key, newer, run, uuid, ok);
    Qualifies(cfg, second, run, key);
    DemotedWins(cfg, second, RedisKey(run, key), run, key);
  }

  lemma Qualifies<T>(cfg: Config<T>, b: Bus<T>, run: string, key: string)
    requires ValidRun(run) && run != "shm" && RedisKey(run, key) in b.redis && b.redis[RedisKey(run, key)].Bytes?
    requires cfg.small / 2 <= cfg.ipcSize(b.redis[RedisKey(run, key)].table)
    ensures Demotes(cfg, b, RedisKey(run, key)) && ParseRedisDataKey(RedisKey(run, key)) == Some((run, key))
  {
    hide RedisKey, ParseRedisDataKey;
    DataKeyRoundTrip(run, key);
    PrefixesApart(run, key);
  }

  lemma PrefixesApart(run: string, key: string)
    requires ValidRun(run) && run != "shm"
    ensures DATA_PREFIX <= RedisKey(run, key)
    ensures !(MANIFEST_PREFIX <= RedisKey(run, key)) && !(SHM_KEY_PREFIX <= RedisKey(run, key))
  {
    hide RedisKey;
    DataKeyWord(run, key, "manifest");
    DataKeyWord(run, key, "shm");
    assert DATA_PREFIX + "manifest" + ":" == MANIFEST_PREFIX && DATA_PREFIX + "shm" + ":" == SHM_KEY_PREFIX;
  }

  lemma FirstPut<T>(cfg: Config<T>, key: string, table: T, run: string, uuid: string)
    requires key != "" && ValidRun(run) && SizeOf(cfg, table) <= cfg.small
    ensures var b := Put(cfg, EmptyBus(), key, table, run, uuid, Faults(Written, true, true, true));
      && b.locations.Keys == {key} && RedisKey(run, key) in b.redis && b.redis[RedisKey(run, key)] == Bytes(table)
  {
    hide RedisKey, ManifestKey, ShmPath, EntryOf, SizeOf;
    DataIsNotManifest(run, key, run);
  }

  lemma StoredOver<T>(cfg: Config<T>, b: Bus<T>, key: string, older: T, newer: T, run: string, uuid: string)
    requires key != "" && ValidRun(run) && key !in b.locations && RedisKey(run, key) in b.redis
    requires b.redis[RedisKey(run, key)] == Bytes(older)
    requires cfg.small < SizeOf(cfg, newer) <= cfg.medium
    ensures var b' := Put(cfg, b, key, newer, run, uuid, Faults(Written, true, true, true));
      Get(b', key) == Table(newer) && RedisKey(run, key) in b'.redis && b'.redis[RedisKey(run, key)] == Bytes(older)
  {
    hide RedisKey, ManifestKey, ShmPath, EntryOf, SizeOf;
    DataIsNotManifest(run, key, run);
  }

  lemma {:induction false} DemotedWins<T>(cfg: Config<T>, b: Bus<T>, rk: string, run: string, key: string)
    requires Demotes(cfg, b, rk) && ParseRedisDataKey(rk) == Some((run, key))
    ensures Get(DemoteScan(cfg, b, [rk], {rk}, {rk}, 0), key) == Table(b.redis[rk].table)
  {
    hide ParseRedisDataKey, ShmPath, ManifestKey, PersistEntry;
    assert [rk][1..] == [];
    assert DemoteScan(cfg, b, [rk], {rk}, {rk}, 0) == DemoteOne(cfg, b, rk, true);
  }

  // ----- writes to Redis that fail after taking effect

  /** A get returns something that the plain map does not hold under its key. */
  ghost predicate Strays<T>(cfg: Config<T>, b: Bus<T>, abs: map<string, Held<T>>, ops: seq<Op<T>>, k: string) {
    var found, held := Get(RunOps(cfg, b, ops), k), ExpectedAfter(cfg, abs, ops);
    found.Table? && (k !in held || found.table != held[k].table)
  }

  ghost predicate CanStray<T(!new)>(cfg: Config<T>, b: Bus<T>, abs: map<string, Held<T>>) {
    exists ops, k :: AllAllowed(cfg, b, ops) && Strays(cfg, b, abs, ops, k)
  }

  /** What such a write leaves behind comes back as a stale table, in some later run of
      harmless operations, exactly when a demotion would pick it up: when it is at least
      half the small threshold and its run is not called "shm". */
  lemma LeakReturnsExactly<T(!new)>(
    cfg: Config<T>, b: Bus<T>, abs: map<string, Held<T>>,
    key: string, table: T, run: string, uuid: string, faults: Faults)
    requires Inv(cfg, b, abs) && key != "" && ValidRun(run) && cfg.inUse(DigestText(run, key))
    requires Fresh(cfg, b, run, key, uuid) && Leaks(cfg, table, faults)
    ensures CanStray(cfg, Put(cfg, b, key, table, run, uuid, faults), PutIn(cfg, abs, key, table, run, faults))
      <==> run != "shm" && cfg.small / 2 <= cfg.ipcSize(table)
  {
    hide PutIn;
    var after, abs' := Put(cfg, b, key, table, run, uuid, faults), PutIn(cfg, abs, key, table, run, faults);
    if run != "shm" && cfg.small / 2 <= cfg.ipcSize(table) {
      LeakedComesBack(cfg, b, abs, key, table, run, uuid, faults);
    } else {
      PutKeepsInv(cfg, b, abs, key, table, run, uuid, faults);
      hide Inv, Put, AllAllowed, RunOps, ExpectedAfter, Get;
      forall ops, k | AllAllowed(cfg, after, ops) ensures !Strays(cfg, after, abs', ops, k) {
        RunKeepsInv(cfg, after, abs', ops);
        GetIsLastPut(cfg, RunOps(cfg, after, ops), ExpectedAfter(cfg, abs', ops), k);
      }
    }
  }

  /** Deleting the key and demoting what is left brings the table back. */
  lemma LeakedComesBack<T(!new)>(
    cfg: Config<T>, b: Bus<T>, abs: map<string, Held<T>>,
    key: string, table: T, run: string, uuid: string, faults: Faults)
    requires key != "" && ValidRun(run) && run != "shm" && Leaks(cfg, table, faults)
    requires cfg.small / 2 <= cfg.ipcSize(table)
    ensures CanStray(cfg, Put(cfg, b, key, table, run, uuid, faults), PutIn(cfg, abs, key, table, run, faults))
  {
    hide Put, Delete, RedisKey, DemoteScan, Get, Leaks;
    hide ValidRun, Demotes, ParseRedisDataKey, RunOps, ExpectedAfter, AllAllowed;
    hide PutIn;
    var rk := RedisKey(run, key);
    var after, abs' := Put(cfg, b, key, table, run, uuid, faults), PutIn(cfg, abs, key, table, run, faults);
    LeakedStays(cfg, b, key, table, run, uuid, faults);
    TwoOps(cfg, after, abs', key, rk);
    Qualifies(cfg, Delete(after, key), run, key);
    DemotedWins(cfg, Delete(after, key), rk, run, key);
    assert Strays(cfg, after, abs', [DeleteOp(key), DemoteOp([rk], {rk}, {rk})], key);
  }

  lemma {:induction false} TwoOps<T>(cfg: Config<T>, b: Bus<T>, abs: map<string, Held<T>>, key: string, rk: string)
    ensures var ops: seq<Op<T>> := [DeleteOp(key), DemoteOp([rk], {rk}, {rk})];
      && RunOps(cfg, b, ops) == DemoteScan(cfg, Delete(b, key), [rk], {rk}, {rk}, 0)
      && ExpectedAfter(cfg, abs, ops) == abs - {key} && AllAllowed(cfg, b, ops)
  {
    hide Delete, DemoteScan;
    var ops: seq<Op<T>> := [DeleteOp(key), DemoteOp([rk], {rk}, {rk})];
    assert ops[..1] == [ops[0]] && ops[..1][..0] == [];
    assert RunOps(cfg, b, []) == b && ExpectedAfter(cfg, abs, []) == abs;
    assert RunOps(cfg, b, ops[..1]) == Delete(b, key) && ExpectedAfter(cfg, abs, ops[..1]) == abs - {key};
  }

  lemma LeakedStays<T>(
    cfg: Config<T>, b: Bus<T>, key: string, table: T, run: string, uuid: string, faults: Faults)
    requires key != "" && ValidRun(run) && Leaks(cfg, table, faults)
    ensures var rk, after := RedisKey(run, key), Delete(Put(cfg, b, key, table, run, uuid, faults), key);
      rk in after.redis && after.redis[rk] == Bytes(table)
  {
    hide RedisKey, ManifestKey, ShmPath, SpillName, EntryOf, SizeOf, Delete;
    DataIsNotManifest(run, key, run);
    DeleteLocations(b, key);
    var put := Put(cfg, b, key, table, run, uuid, faults);
    assert put.redis[RedisKey(run, key)] == Bytes(table);
    if Stores(cfg, table, faults) {
      assert put.locations[key].tier != Redis && put.locations[key].run == run;
      DeleteKeepsElsewhere(put, key, RedisKey(run, key));
    } else {
      DeleteUnheld(put, key);
    }
  }

  lemma DeleteUnheld<T>(b: Bus<T>, key: string)
    requires key !in b.locations
    ensures Delete(b, key) == b
  {
  }

  lemma DeleteKeepsElsewhere<T>(b: Bus<T>, key: string, rk: string)
    requires key in b.locations && b.locations[key].tier != Redis && rk in b.redis
    requires rk != ManifestKey(b.locations[key].run)
    ensures rk in Delete(b, key).redis && Delete(b, key).redis[rk] == b.redis[rk]
  {
    hide ManifestKey;
  }
}
