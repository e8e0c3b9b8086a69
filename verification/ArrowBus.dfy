/** The tiered table store as a state machine, and the plain map it refines.

    Tables are kept as values: writing and reading a table through any tier is taken
    to be lossless.  One bus owns the Redis keys; deletions in Redis succeed, while
    writes may fail and entries may expire at any time. */
module ArrowBus {
  import opened Basics
  import opened ArrowKeys

  datatype Tier = Redis | Shm | Spill

  datatype Location = Location(key: string, run: string, tier: Tier, pointer: string, size: nat)

  /** What a manifest keeps of a location. */
  datatype Entry = Entry(tier: Tier, pointer: string, size: nat)

  datatype RedisValue<+T> = Bytes(table: T) | Hash(entries: map<string, Entry>)

  datatype Bus<+T> = Bus(
    locations: map<string, Location>,
    redis: map<string, RedisValue<T>>,
    shm: map<string, T>,
    spill: map<string, T>)

  /** Thresholds, sizes and naming; `inUse` are the texts whose digests are known to differ. */
  datatype Config<!T> = Config(
    small: nat, medium: nat,
    size: T -> nat, ipcSize: T -> nat,
    shmDir: string, digest: string -> string, inUse: string -> bool,
    diskPrefix: string, safeKey: string -> string)

  datatype GetResult<+T> = Table(table: T) | KeyError | StorageError

  // ----- the operations

  function EntryOf(loc: Location): Entry { Entry(loc.tier, loc.pointer, loc.size) }

  /** `hset` of one manifest entry. */
  function PersistEntry<T>(redis: map<string, RedisValue<T>>, loc: Location): map<string, RedisValue<T>> {
    var mk := ManifestKey(loc.run);
    if mk in redis && redis[mk].Bytes? then redis
    else
      var entries := if mk in redis then redis[mk].entries else map[];
      redis[mk := Hash(entries[loc.key := EntryOf(loc)])]
  }

  /** `hdel` of one manifest entry; an empty manifest is removed. */
  function RemoveEntry<T>(redis: map<string, RedisValue<T>>, run: string, key: string): map<string, RedisValue<T>> {
    var mk := ManifestKey(run);
    if mk !in redis || redis[mk].Bytes? then redis
    else if redis[mk].entries - {key} == map[] then redis - {mk}
    else redis[mk := Hash(redis[mk].entries - {key})]
  }

  function RecordLocation<T>(b: Bus<T>, loc: Location, persisted: bool): Bus<T> {
    b.(locations := b.locations[loc.key := loc],
       redis := if persisted then PersistEntry(b.redis, loc) else b.redis)
  }

  function DeletePayload<T>(b: Bus<T>, tier: Tier, pointer: string): Bus<T> {
    match tier
    case Redis => b.(redis := b.redis - {pointer})
    case Shm => b.(shm := b.shm - {pointer})
    case Spill => b.(spill := b.spill - {pointer})
  }

  function Delete<T>(b: Bus<T>, key: string): Bus<T> {
    if key !in b.locations then b
    else
      var loc := b.locations[key];
      var b' := DeletePayload(b.(locations := b.locations - {key}), loc.tier, loc.pointer);
      b'.(redis := RemoveEntry(b'.redis, loc.run, key))
  }

  /** A write to Redis goes through, fails without effect, or fails after taking effect. */
  datatype RedisWrite = Written | Refused | Leaked

  /** What becomes of the writes of one `put`. */
  datatype Faults = Faults(redis: RedisWrite, manifestWrites: bool, shmWrites: bool, spillWrites: bool)

  function SizeOf<T>(cfg: Config<T>, table: T): nat {
    if cfg.size(table) < 1 then 1 else cfg.size(table)
  }

  function ChooseTier<T>(cfg: Config<T>, table: T, faults: Faults): Tier {
    if SizeOf(cfg, table) <= cfg.small && faults.redis.Written? then Redis
    else if SizeOf(cfg, table) <= cfg.medium && faults.shmWrites then Shm
    else Spill
  }

  function PointerFor<T>(cfg: Config<T>, tier: Tier, run: string, key: string, uuid: string): string {
    match tier
    case Redis => RedisKey(run, key)
    case Shm => ShmPath(cfg.shmDir, cfg.digest, run, key)
    case Spill => SpillName(cfg.diskPrefix, run, cfg.safeKey(key), uuid)
  }

  function StorePayload<T>(b: Bus<T>, tier: Tier, pointer: string, table: T): Bus<T> {
    match tier
    case Redis => b.(redis := b.redis[pointer := Bytes(table)])
    case Shm => b.(shm := b.shm[pointer := table])
    case Spill => b.(spill := b.spill[pointer := table])
  }

  /** The attempt to write to Redis failed and yet left the table there. */
  predicate Leaks<T>(cfg: Config<T>, table: T, faults: Faults) {
    SizeOf(cfg, table) <= cfg.small && faults.redis.Leaked?
  }

  /** Redis after an attempt that does not end in the Redis tier. */
  function Attempted<T>(cfg: Config<T>, b: Bus<T>, key: string, table: T, run: string, faults: Faults): Bus<T> {
    if Leaks(cfg, table, faults) then b.(redis := b.redis[RedisKey(run, key) := Bytes(table)]) else b
  }

  /** A table is left behind exactly when it fits into the small threshold and its write
      raised after taking effect. */
  lemma AttemptLeaves<T>(cfg: Config<T>, b: Bus<T>, key: string, table: T, run: string, faults: Faults)
    ensures Attempted(cfg, b, key, table, run, faults) == b.(redis :=
      if 1 <= cfg.small && cfg.size(table) <= cfg.small && faults.redis.Leaked?
      then b.redis[RedisKey(run, key) := Bytes(table)] else b.redis)
  {
    hide RedisKey;
  }

  /** The table finds a place; otherwise the upload to spill storage fails and `put` with it. */
  predicate Stores<T>(cfg: Config<T>, table: T, faults: Faults) {
    ChooseTier(cfg, table, faults) != Spill || faults.spillWrites
  }

  /** `put` of a non-empty key; the empty key is refused before anything happens, and a
      failing upload leaves the key deleted. */
  function Put<T>(cfg: Config<T>, b: Bus<T>, key: string, table: T, run: string, uuid: string, faults: Faults): Bus<T> {
    if key == "" then b
    else
      var attempted := Attempted(cfg, Delete(b, key), key, table, run, faults);
      if !Stores(cfg, table, faults) then attempted
      else
        var tier := ChooseTier(cfg, table, faults);
        var pointer := PointerFor(cfg, tier, run, key, uuid);
        RecordLocation(StorePayload(attempted, tier, pointer, table),
                       Location(key, run, tier, pointer, SizeOf(cfg, table)), faults.manifestWrites)
  }

  function Payload<T>(b: Bus<T>, loc: Location): Option<T> {
    match loc.tier
    case Redis =>
        if loc.pointer in b.redis && b.redis[loc.pointer].Bytes? then Some(b.redis[loc.pointer].table) else None
    case Shm => if loc.pointer in b.shm then Some(b.shm[loc.pointer]) else None
    case Spill => if loc.pointer in b.spill then Some(b.spill[loc.pointer]) else None
  }

  function Get<T>(b: Bus<T>, key: string): GetResult<T> {
    if key !in b.locations then KeyError
    else
      match Payload(b, b.locations[key])
      case Some(table) => Table(table)
      case None => if b.locations[key].tier == Spill then StorageError else KeyError
  }

  /** Demotion of one scanned Redis key, when it qualifies. */
  function Demotes<T>(cfg: Config<T>, b: Bus<T>, rk: string): bool {
    && DATA_PREFIX <= rk && !(MANIFEST_PREFIX <= rk) && !(SHM_KEY_PREFIX <= rk)
    && rk in b.redis && b.redis[rk].Bytes?
    && cfg.ipcSize(b.redis[rk].table) >= cfg.small / 2
    && ParseRedisDataKey(rk).Some?
  }

  function DemoteOne<T>(cfg: Config<T>, b: Bus<T>, rk: string, persisted: bool): Bus<T>
    requires Demotes(cfg, b, rk)
  {
    var (run, key) := ParseRedisDataKey(rk).value;
    var table := b.redis[rk].table;
    var path := ShmPath(cfg.shmDir, cfg.digest, run, key);
    var b' := RecordLocation(b.(shm := b.shm[path := table]),
        Location(key, run, Shm, path, cfg.ipcSize(table)), persisted);
    b'.(redis := b'.redis - {rk})
  }

  /** The scan visits keys in any order and stops after five demotions; `written` are
      the keys whose shared-memory write succeeds, `persisted` those whose manifest
      write does. */
  function DemoteScan<T>(
    cfg: Config<T>, b: Bus<T>, scan: seq<string>, written: set<string>, persisted: set<string>, evicted: nat): Bus<T>
    decreases |scan|
  {
    if scan == [] || evicted >= 5 then b
    else if scan[0] in written && Demotes(cfg, b, scan[0]) then
      DemoteScan(cfg, DemoteOne(cfg, b, scan[0], scan[0] in persisted), scan[1..], written, persisted, evicted + 1)
    else DemoteScan(cfg, b, scan[1..], written, persisted, evicted)
  }

  // ----- the plain map

  datatype Held<+T> = Held(run: string, table: T)

  // ----- the invariant

  ghost predicate PointerOk<T>(cfg: Config<T>, loc: Location) {
    cfg.inUse(DigestText(loc.run, loc.key)) &&
    match loc.tier
    case Redis => loc.pointer == RedisKey(loc.run, loc.key)
    case Shm => loc.pointer == ShmPath(cfg.shmDir, cfg.digest, loc.run, loc.key)
    case Spill => '/' in loc.pointer
  }

  ghost predicate LocationOk<T>(cfg: Config<T>, b: Bus<T>, k: string, held: Held<T>)
    requires k in b.locations
  {
    var loc := b.locations[k];
    && loc.key == k && loc.run == held.run && ValidRun(loc.run) && PointerOk(cfg, loc)
    && (Payload(b, loc).Some? ==> Payload(b, loc).value == held.table)
  }

  ghost predicate IsDataKey(rk: string) { exists run, key :: ValidRun(run) && rk == RedisKey(run, key) }

  /** A table that a failed write left behind and that no demotion will pick up. */
  ghost predicate Leftover<T>(cfg: Config<T>, rk: string, table: T) {
    IsDataKey(rk) && (SHM_KEY_PREFIX <= rk || cfg.ipcSize(table) < cfg.small / 2)
  }

  /** A location other than that of `key` points to the Redis key. */
  ghost predicate LocatedBut(locations: map<string, Location>, rk: string, key: string) {
    exists k :: k in locations && k != key && locations[k].tier == Redis && locations[k].pointer == rk
  }

  ghost predicate Located(locations: map<string, Location>, rk: string) {
    exists k :: k in locations && locations[k].tier == Redis && locations[k].pointer == rk
  }

  /** A Redis value belongs to a current location, is a leftover, or is the manifest of
      a run whose entries are current locations of that run. */
  ghost predicate RedisOk<T>(cfg: Config<T>, b: Bus<T>, rk: string)
    requires rk in b.redis
  {
    match b.redis[rk]
    case Bytes(table) => Located(b.locations, rk) || Leftover(cfg, rk, table)
    case Hash(entries) => exists run :: ValidRun(run) && rk == ManifestKey(run) && ListsRun(b.locations, entries, run)
  }

  ghost predicate ListsRun(locations: map<string, Location>, entries: map<string, Entry>, run: string) {
    forall k :: k in entries ==> k in locations && locations[k].run == run
  }

  ghost predicate SpillApart(locations: map<string, Location>) {
    forall k, k' :: k in locations && k' in locations && k != k'
      && locations[k].tier == Spill && locations[k'].tier == Spill
      ==> locations[k].pointer != locations[k'].pointer
  }

  ghost predicate Inv<T>(cfg: Config<T>, b: Bus<T>, abs: map<string, Held<T>>) {
    && GoodDigest(cfg.digest, cfg.inUse)
    && b.locations.Keys == abs.Keys
    && (forall k :: k in b.locations ==> LocationOk(cfg, b, k, abs[k]))
    && (forall rk :: rk in b.redis ==> RedisOk(cfg, b, rk))
    && SpillApart(b.locations)
  }

  /** Whatever the bus returns is the table held under that key, and a key that is not
      held is a key error. */
  lemma GetIsLastPut<T>(cfg: Config<T>, b: Bus<T>, abs: map<string, Held<T>>, key: string)
    requires Inv(cfg, b, abs)
    ensures Get(b, key).Table? ==> key in abs && Get(b, key).table == abs[key].table
    ensures key !in abs ==> Get(b, key) == KeyError
  {
    if key in b.locations {
      assert LocationOk(cfg, b, key, abs[key]);
    }
  }

  // ----- what the manifest writes do to a Redis value

  lemma PersistFacts<T>(redis: map<string, RedisValue<T>>, loc: Location, rk: string)
    requires rk in PersistEntry(redis, loc)
    ensures rk != ManifestKey(loc.run) ==> rk in redis && PersistEntry(redis, loc)[rk] == redis[rk]
    ensures rk in redis && redis[rk].Bytes? ==> PersistEntry(redis, loc)[rk] == redis[rk]
    ensures rk == ManifestKey(loc.run) && (rk !in redis || redis[rk].Hash?) ==>
      PersistEntry(redis, loc)[rk] == Hash((if rk in redis then redis[rk].entries else map[])[loc.key := EntryOf(loc)])
  {
    hide ManifestKey, EntryOf;
  }

  lemma RemoveFacts<T>(redis: map<string, RedisValue<T>>, run: string, key: string, rk: string)
    requires rk in RemoveEntry(redis, run, key)
    ensures rk in redis
    ensures rk != ManifestKey(run) || redis[rk].Bytes? ==> RemoveEntry(redis, run, key)[rk] == redis[rk]
    ensures rk == ManifestKey(run) && redis[rk].Hash? ==>
      RemoveEntry(redis, run, key)[rk] == Hash(redis[rk].entries - {key})
  {
    hide ManifestKey;
  }

  /** What is left in Redis after deleting a recorded key. */
  lemma DeleteFacts<T>(b: Bus<T>, key: string, rk: string)
    requires key in b.locations && rk in Delete(b, key).redis
    ensures var loc, redis := b.locations[key], Delete(b, key).redis;
      && rk in b.redis
      && (loc.tier == Redis ==> rk != loc.pointer)
      && (rk != ManifestKey(loc.run) || b.redis[rk].Bytes? ==> redis[rk] == b.redis[rk])
      && (rk == ManifestKey(loc.run) && b.redis[rk].Hash? ==> redis[rk] == Hash(b.redis[rk].entries - {key}))
  {
    hide RemoveEntry, ManifestKey;
    var loc := b.locations[key];
    var mid := DeletePayload(b.(locations := b.locations - {key}), loc.tier, loc.pointer);
    RemoveFacts(mid.redis, loc.run, key, rk);
  }

  // ----- one key cleared, then stored again

  /** The invariant for every key but `key`: no payload in Redis is recorded under it,
      and only the manifest of `run` may still list it. */
  ghost predicate Ready<T>(cfg: Config<T>, b: Bus<T>, abs: map<string, Held<T>>, key: string, run: string) {
    && GoodDigest(cfg.digest, cfg.inUse)
    && (forall k :: k != key ==> (k in b.locations <==> k in abs))
    && (forall k :: k in b.locations && k != key ==> k in abs && LocationOk(cfg, b, k, abs[k]))
    && (forall rk :: rk in b.redis ==> RedisReady(cfg, b, rk, key, run))
    && SpillApart(b.locations - {key})
  }

  ghost predicate RedisReady<T>(cfg: Config<T>, b: Bus<T>, rk: string, key: string, run: string)
    requires rk in b.redis
  {
    match b.redis[rk]
    case Bytes(table) => LocatedBut(b.locations, rk, key) || Leftover(cfg, rk, table)
    case Hash(entries) => exists r :: ValidRun(r) && rk == ManifestKey(r) && ListsBut(b.locations, entries, r, key, run)
  }

  ghost predicate ListsBut(
    locations: map<string, Location>, entries: map<string, Entry>, r: string, key: string, run: string) {
    forall k :: k in entries ==> if k == key then r == run else k in locations && locations[k].run == r
  }

  lemma PointersApart<T>(cfg: Config<T>, x: Location, y: Location)
    requires GoodDigest(cfg.digest, cfg.inUse) && PointerOk(cfg, x) && PointerOk(cfg, y) && ValidRun(x.run)
    requires ValidRun(y.run)
    requires x.key != y.key && x.tier == y.tier && x.tier != Spill
    ensures x.pointer != y.pointer
  {
    hide RedisKey, ShmPath, GoodDigest;
    if x.pointer == y.pointer {
      if x.tier == Redis {
        DataKeysApart(x.run, x.key, y.run, y.key);
      } else {
        ShmPathsApart(cfg.shmDir, cfg.digest, cfg.inUse, x.run, x.key, y.run, y.key);
      }
    }
  }

  /** Storing under another key leaves a payload alone. */
  lemma StoreKeepsPayload<T>(cfg: Config<T>, b: Bus<T>, loc: Location, table: T, other: Location)
    requires GoodDigest(cfg.digest, cfg.inUse) && PointerOk(cfg, loc) && PointerOk(cfg, other) && ValidRun(loc.run)
    requires ValidRun(other.run)
    requires loc.key != other.key && (loc.tier == Spill && other.tier == Spill ==> loc.pointer != other.pointer)
    ensures Payload(StorePayload(b, loc.tier, loc.pointer, table), other) == Payload(b, other)
  {
    hide PointerOk, GoodDigest;
    if loc.tier == other.tier && loc.tier != Spill {
      PointersApart(cfg, loc, other);
    }
  }

  /** A manifest write leaves every payload alone. */
  lemma PersistKeepsPayload<T>(cfg: Config<T>, b: Bus<T>, loc: Location, other: Location, persisted: bool)
    requires PointerOk(cfg, other) && ValidRun(other.run)
    ensures Payload(RecordLocation(b, loc, persisted), other) == Payload(b, other)
  {
    if other.tier == Redis {
      DataIsNotManifest(other.run, other.key, loc.run);
    }
  }

  lemma ManifestIsHash<T>(cfg: Config<T>, b: Bus<T>, abs: map<string, Held<T>>, key: string, run: string)
    requires Ready(cfg, b, abs, key, run) && ManifestKey(run) in b.redis
    ensures b.redis[ManifestKey(run)].Hash?
  {
    hide ManifestKey, RedisKey, ShmPath, GoodDigest, SpillApart;
    var rk := ManifestKey(run);
    assert RedisReady(cfg, b, rk, key, run);
    if b.redis[rk].Bytes? {
      if k :| k in b.locations && k != key && b.locations[k].tier == Redis && b.locations[k].pointer == rk {
        assert LocationOk(cfg, b, k, abs[k]);
        DataIsNotManifest(b.locations[k].run, k, run);
      } else {
        var r, k :| ValidRun(r) && rk == RedisKey(r, k);
        DataIsNotManifest(r, k, run);
      }
    }
  }

  /** A value that is neither the stored payload nor the manifest of its run stays good. */
  lemma StoreElsewhere<T>(cfg: Config<T>, b: Bus<T>, loc: Location, b': Bus<T>, rk: string)
    requires rk in b.redis && RedisReady(cfg, b, rk, loc.key, loc.run) && b'.locations == b.locations[loc.key := loc]
    requires rk in b'.redis && b'.redis[rk] == b.redis[rk]
    ensures RedisOk(cfg, b', rk)
  {
    hide ManifestKey, RedisKey, ValidRun, Leftover;
    if b.redis[rk].Bytes? {
      if k :| k in b.locations && k != loc.key && b.locations[k].tier == Redis && b.locations[k].pointer == rk {
        assert b'.locations[k] == b.locations[k];
      }
    } else {
      var r :| ValidRun(r) && rk == ManifestKey(r) && ListsBut(b.locations, b.redis[rk].entries, r, loc.key, loc.run);
      assert ListsRun(b'.locations, b'.redis[rk].entries, r);
    }
  }

  lemma StoreRedis<T>(cfg: Config<T>, b: Bus<T>, loc: Location, table: T, persisted: bool, rk: string)
    requires ValidRun(loc.run) && PointerOk(cfg, loc)
    requires rk in b.redis ==> RedisReady(cfg, b, rk, loc.key, loc.run)
    requires rk in b.redis && rk == ManifestKey(loc.run) ==> b.redis[rk].Hash?
    requires rk in RecordLocation(StorePayload(b, loc.tier, loc.pointer, table), loc, persisted).redis
    ensures RedisOk(cfg, RecordLocation(StorePayload(b, loc.tier, loc.pointer, table), loc, persisted), rk)
  {
    hide ManifestKey, RedisKey, ShmPath, PersistEntry, EntryOf, Leftover, RedisReady, ListsRun;
    var mid := StorePayload(b, loc.tier, loc.pointer, table);
    var b' := RecordLocation(mid, loc, persisted);
    if loc.tier == Redis {
      DataIsNotManifest(loc.run, loc.key, loc.run);
    }
    if persisted {
      PersistFacts(mid.redis, loc, rk);
    }
    if persisted && rk == ManifestKey(loc.run) {
      StoreManifest(cfg, b, loc, rk, b'.locations, b'.redis[rk]);
    } else if loc.tier == Redis && rk == loc.pointer {
      assert b'.locations[loc.key].pointer == rk;
    } else {
      StoreElsewhere(cfg, b, loc, b', rk);
    }
  }

  lemma StoreManifest<T>(
    cfg: Config<T>, b: Bus<T>, loc: Location, rk: string, locations: map<string, Location>, value: RedisValue<T>)
    requires ValidRun(loc.run) && rk == ManifestKey(loc.run) && locations == b.locations[loc.key := loc]
    requires rk in b.redis ==> RedisReady(cfg, b, rk, loc.key, loc.run) && b.redis[rk].Hash?
    requires value == Hash((if rk in b.redis then b.redis[rk].entries else map[])[loc.key := EntryOf(loc)])
    ensures ListsRun(locations, value.entries, loc.run)
  {
    hide ManifestKey, EntryOf, ValidRun;
    if rk in b.redis {
      var r :| ValidRun(r) && rk == ManifestKey(r) && ListsBut(b.locations, b.redis[rk].entries, r, loc.key, loc.run);
      ManifestKeysApart(r, loc.run);
    }
  }

  lemma StorePayloadHeld<T>(cfg: Config<T>, b: Bus<T>, loc: Location, table: T, persisted: bool)
    requires PointerOk(cfg, loc) && ValidRun(loc.run)
    ensures Payload(RecordLocation(StorePayload(b, loc.tier, loc.pointer, table), loc, persisted), loc) == Some(table)
  {
    PersistKeepsPayload(cfg, StorePayload(b, loc.tier, loc.pointer, table), loc, loc, persisted);
  }

  lemma StoreLocation<T>(cfg: Config<T>, b: Bus<T>, loc: Location, table: T, persisted: bool, k: string, held: Held<T>)
    requires GoodDigest(cfg.digest, cfg.inUse) && PointerOk(cfg, loc) && ValidRun(loc.run)
    requires k in b.locations && k != loc.key && LocationOk(cfg, b, k, held)
    requires loc.tier == Spill && b.locations[k].tier == Spill ==> loc.pointer != b.locations[k].pointer
    ensures var b' := RecordLocation(StorePayload(b, loc.tier, loc.pointer, table), loc, persisted);
      k in b'.locations && LocationOk(cfg, b', k, held)
  {
    var mid := StorePayload(b, loc.tier, loc.pointer, table);
    assert RecordLocation(mid, loc, persisted).locations == b.locations[loc.key := loc];
    hide PointerOk, GoodDigest, ValidRun, StorePayload, RecordLocation, Payload;
    StoreKeepsPayload(cfg, b, loc, table, b.locations[k]);
    PersistKeepsPayload(cfg, mid, loc, b.locations[k], persisted);
  }

  lemma StoreSpill(locations: map<string, Location>, loc: Location)
    requires SpillApart(locations - {loc.key})
    requires loc.tier == Spill ==> forall k :: k in locations && k != loc.key && locations[k].tier == Spill ==>
      locations[k].pointer != loc.pointer
    ensures SpillApart(locations[loc.key := loc])
  {
    var before, after := locations - {loc.key}, locations[loc.key := loc];
    forall k, k' | k in after && k' in after && k != k' && after[k].tier == Spill && after[k'].tier == Spill
      ensures after[k].pointer != after[k'].pointer
    {
      assert k != loc.key ==> k in before && before[k] == after[k];
      assert k' != loc.key ==> k' in before && before[k'] == after[k'];
    }
  }

  /** Storing a table under a cleared key. */
  lemma StoreKeepsInv<T>(cfg: Config<T>, b: Bus<T>, abs: map<string, Held<T>>, loc: Location, table: T, persisted: bool)
    requires Ready(cfg, b, abs, loc.key, loc.run) && ValidRun(loc.run) && PointerOk(cfg, loc)
    requires loc.tier == Spill ==> forall k :: k in b.locations && k != loc.key && b.locations[k].tier == Spill ==>
      b.locations[k].pointer != loc.pointer
    ensures Inv(cfg, RecordLocation(StorePayload(b, loc.tier, loc.pointer, table), loc, persisted),
                abs[loc.key := Held(loc.run, table)])
  {
    hide GoodDigest, RedisOk, RedisReady, StorePayload, RecordLocation;
    hide PointerOk, ValidRun, LocationOk, ManifestKey, SpillApart;
    var b' := RecordLocation(StorePayload(b, loc.tier, loc.pointer, table), loc, persisted);
    var abs' := abs[loc.key := Held(loc.run, table)];
    StoredLocations(b, loc, table, persisted);
    StoreSpill(b.locations, loc);
    forall k ensures k in b'.locations.Keys <==> k in abs'.Keys {
      assert k != loc.key ==> (k in b.locations <==> k in abs);
    }
    if ManifestKey(loc.run) in b.redis { ManifestIsHash(cfg, b, abs, loc.key, loc.run); }
    forall rk | rk in b'.redis ensures RedisOk(cfg, b', rk) {
      StoreRedis(cfg, b, loc, table, persisted, rk);
    }
    forall k | k in b'.locations ensures LocationOk(cfg, b', k, abs'[k]) {
      if k == loc.key {
        StoredLocationOk(cfg, b, loc, table, persisted);
      } else {
        StoreLocation(cfg, b, loc, table, persisted, k, abs[k]);
      }
    }
  }

  lemma StoredLocations<T>(b: Bus<T>, loc: Location, table: T, persisted: bool)
    ensures RecordLocation(StorePayload(b, loc.tier, loc.pointer, table), loc, persisted).locations
      == b.locations[loc.key := loc]
  {
    hide PersistEntry;
  }

  lemma StoredLocationOk<T>(cfg: Config<T>, b: Bus<T>, loc: Location, table: T, persisted: bool)
    requires PointerOk(cfg, loc) && ValidRun(loc.run)
    ensures var b' := RecordLocation(StorePayload(b, loc.tier, loc.pointer, table), loc, persisted);
      loc.key in b'.locations && LocationOk(cfg, b', loc.key, Held(loc.run, table))
  {
    hide StorePayload, RecordLocation, PointerOk, ValidRun, Payload;
    StoredLocations(b, loc, table, persisted);
    StorePayloadHeld(cfg, b, loc, table, persisted);
  }

  // ----- delete

  lemma DeletePayloadKeeps<T>(cfg: Config<T>, b: Bus<T>, loc: Location, other: Location)
    requires GoodDigest(cfg.digest, cfg.inUse) && PointerOk(cfg, loc) && PointerOk(cfg, other) && ValidRun(loc.run)
    requires ValidRun(other.run)
    requires loc.key != other.key && (loc.tier == Spill && other.tier == Spill ==> loc.pointer != other.pointer)
    ensures Payload(DeletePayload(b, loc.tier, loc.pointer), other) == Payload(b, other)
  {
    hide PointerOk, GoodDigest;
    if loc.tier == other.tier && loc.tier != Spill {
      PointersApart(cfg, loc, other);
    }
  }

  lemma RemoveEntryKeepsPayload<T>(cfg: Config<T>, b: Bus<T>, run: string, key: string, other: Location)
    requires PointerOk(cfg, other) && ValidRun(other.run)
    ensures Payload(b.(redis := RemoveEntry(b.redis, run, key)), other) == Payload(b, other)
  {
    if other.tier == Redis {
      DataIsNotManifest(other.run, other.key, run);
    }
  }

  lemma DeleteRedis<T>(cfg: Config<T>, b: Bus<T>, key: string, rk: string, run: string)
    requires key in b.locations && rk in Delete(b, key).redis && (rk in b.redis ==> RedisOk(cfg, b, rk))
    ensures RedisReady(cfg, Delete(b, key), rk, key, run)
    ensures Delete(b, key).redis[rk].Hash? ==> key !in Delete(b, key).redis[rk].entries
  {
    hide ManifestKey, Delete, ValidRun, Leftover;
    var b', loc := Delete(b, key), b.locations[key];
    DeleteLocations(b, key);
    DeleteFacts(b, key, rk);
    if b.redis[rk].Bytes? {
      if k :| k in b.locations && b.locations[k].tier == Redis && b.locations[k].pointer == rk {
        assert k != key && b'.locations[k] == b.locations[k];
      }
    } else {
      var r :| ValidRun(r) && rk == ManifestKey(r) && ListsRun(b.locations, b.redis[rk].entries, r);
      assert ListsBut(b'.locations, b'.redis[rk].entries, r, key, run);
    }
  }

  lemma UnheldReady<T>(cfg: Config<T>, b: Bus<T>, abs: map<string, Held<T>>, key: string, run: string)
    requires Inv(cfg, b, abs) && key !in b.locations
    ensures Ready(cfg, b, abs, key, run)
    ensures forall rk :: rk in b.redis && b.redis[rk].Hash? ==> key !in b.redis[rk].entries
  {
    hide ManifestKey, RedisKey, ShmPath, GoodDigest, LocationOk, ValidRun;
    assert b.locations - {key} == b.locations;
    forall rk | rk in b.redis
      ensures RedisReady(cfg, b, rk, key, run)
      ensures b.redis[rk].Hash? ==> key !in b.redis[rk].entries
    {
      assert RedisOk(cfg, b, rk);
      if b.redis[rk].Hash? {
        var r :| ValidRun(r) && rk == ManifestKey(r) && ListsRun(b.locations, b.redis[rk].entries, r);
        assert ListsBut(b.locations, b.redis[rk].entries, r, key, run);
      }
    }
  }

  /** Deleting a key clears it and touches no other. */
  lemma DeleteReadies<T>(cfg: Config<T>, b: Bus<T>, abs: map<string, Held<T>>, key: string, run: string)
    requires Inv(cfg, b, abs)
    ensures Ready(cfg, Delete(b, key), abs, key, run)
    ensures Delete(b, key).locations == b.locations - {key}
    ensures forall k :: k in b.locations && k != key ==>
      Payload(Delete(b, key), b.locations[k]) == Payload(b, b.locations[k])
    ensures forall rk :: rk in Delete(b, key).redis && Delete(b, key).redis[rk].Hash? ==>
      key !in Delete(b, key).redis[rk].entries
  {
    if key !in b.locations {
      UnheldReady(cfg, b, abs, key, run);
      assert b.locations - {key} == b.locations;
    } else {
      HeldReady(cfg, b, abs, key, run);
    }
  }

  lemma SpillShrinks(locations: map<string, Location>, key: string)
    requires SpillApart(locations)
    ensures SpillApart(locations - {key})
  {
    var less := locations - {key};
    assert forall k :: k in less ==> k in locations && less[k] == locations[k];
  }

  lemma HeldOthers<T>(cfg: Config<T>, b: Bus<T>, abs: map<string, Held<T>>, key: string)
    requires Inv(cfg, b, abs) && key in b.locations
    ensures forall k :: k in b.locations && k != key ==>
      Payload(Delete(b, key), b.locations[k]) == Payload(b, b.locations[k])
    ensures forall k :: k in b.locations && k != key ==>
      k in Delete(b, key).locations && LocationOk(cfg, Delete(b, key), k, abs[k])
  {
    var b' := Delete(b, key);
    hide Delete, RedisOk, GoodDigest, PointerOk, Payload, ValidRun, SpillApart;
    DeleteLocations(b, key);
    forall k | k in b.locations && k != key
      ensures Payload(b', b.locations[k]) == Payload(b, b.locations[k])
      ensures k in b'.locations && LocationOk(cfg, b', k, abs[k])
    {
      DeleteKeepsPayload(cfg, b, abs, key, k);
      assert LocationOk(cfg, b, k, abs[k]) && b'.locations[k] == b.locations[k];
    }
  }

  lemma DeleteLocations<T>(b: Bus<T>, key: string)
    ensures Delete(b, key).locations == b.locations - {key}
  {
    hide RemoveEntry;
  }

  lemma HeldRedis<T>(cfg: Config<T>, b: Bus<T>, key: string, run: string)
    requires key in b.locations && forall rk :: rk in b.redis ==> RedisOk(cfg, b, rk)
    ensures forall rk :: rk in Delete(b, key).redis ==> RedisReady(cfg, Delete(b, key), rk, key, run)
    ensures forall rk :: rk in Delete(b, key).redis && Delete(b, key).redis[rk].Hash? ==>
      key !in Delete(b, key).redis[rk].entries
  {
    hide Delete, RedisReady, RedisOk;
    forall rk | rk in Delete(b, key).redis
      ensures RedisReady(cfg, Delete(b, key), rk, key, run)
      ensures Delete(b, key).redis[rk].Hash? ==> key !in Delete(b, key).redis[rk].entries
    {
      DeleteRedis(cfg, b, key, rk, run);
    }
  }

  lemma HeldReady<T>(cfg: Config<T>, b: Bus<T>, abs: map<string, Held<T>>, key: string, run: string)
    requires Inv(cfg, b, abs) && key in b.locations
    ensures Ready(cfg, Delete(b, key), abs, key, run)
    ensures Delete(b, key).locations == b.locations - {key}
    ensures forall k :: k in b.locations && k != key ==>
      Payload(Delete(b, key), b.locations[k]) == Payload(b, b.locations[k])
    ensures forall rk :: rk in Delete(b, key).redis && Delete(b, key).redis[rk].Hash? ==>
      key !in Delete(b, key).redis[rk].entries
  {
    hide Delete, RedisReady, RedisOk, GoodDigest, Payload, SpillApart, LocationOk;
    DeleteLocations(b, key);
    SpillShrinks(b.locations, key);
    HeldOthers(cfg, b, abs, key);
    HeldRedis(cfg, b, key, run);
    assert b.locations - {key} - {key} == b.locations - {key};
  }

  lemma DeleteKeepsPayload<T>(cfg: Config<T>, b: Bus<T>, abs: map<string, Held<T>>, key: string, k: string)
    requires Inv(cfg, b, abs) && key in b.locations && k in b.locations && k != key
    ensures Payload(Delete(b, key), b.locations[k]) == Payload(b, b.locations[k])
  {
    assert LocationOk(cfg, b, k, abs[k]) && LocationOk(cfg, b, key, abs[key]);
    hide PointerOk, GoodDigest, RedisOk, RemoveEntry, DeletePayload, ValidRun;
    var loc := b.locations[key];
    var b0 := b.(locations := b.locations - {key});
    DeletePayloadKeeps(cfg, b0, loc, b.locations[k]);
    RemoveEntryKeepsPayload(cfg, DeletePayload(b0, loc.tier, loc.pointer), loc.run, key, b.locations[k]);
  }

  /** A cleared key that no manifest lists is gone. */
  lemma ReadyIsInv<T>(cfg: Config<T>, b: Bus<T>, abs: map<string, Held<T>>, key: string, run: string)
    requires Ready(cfg, b, abs, key, run) && key !in b.locations
    requires forall rk :: rk in b.redis && b.redis[rk].Hash? ==> key !in b.redis[rk].entries
    ensures Inv(cfg, b, abs - {key})
  {
    hide ManifestKey, RedisKey, ShmPath, GoodDigest, LocationOk;
    assert b.locations - {key} == b.locations;
    forall rk | rk in b.redis
      ensures RedisOk(cfg, b, rk)
    {
      assert RedisReady(cfg, b, rk, key, run);
      if b.redis[rk].Hash? {
        var r :| ValidRun(r) && rk == ManifestKey(r) && ListsBut(b.locations, b.redis[rk].entries, r, key, run);
        assert ListsRun(b.locations, b.redis[rk].entries, r);
      }
    }
  }

  lemma DeleteKeepsInv<T>(cfg: Config<T>, b: Bus<T>, abs: map<string, Held<T>>, key: string)
    requires Inv(cfg, b, abs)
    ensures Inv(cfg, Delete(b, key), abs - {key})
  {
    hide Inv, Ready, Delete;
    DeleteReadies(cfg, b, abs, key, "");
    ReadyIsInv(cfg, Delete(b, key), abs, key, "");
  }

  // ----- put

  /** The spill name is new. */
  ghost predicate Fresh<T>(cfg: Config<T>, b: Bus<T>, run: string, key: string, uuid: string) {
    forall k :: k in b.locations ==> b.locations[k].pointer != SpillName(cfg.diskPrefix, run, cfg.safeKey(key), uuid)
  }

  /** A write that fails after taking effect leaves something that is never demoted. */
  ghost predicate NoHarm<T>(cfg: Config<T>, table: T, run: string, faults: Faults) {
    Leaks(cfg, table, faults) ==> run == "shm" || cfg.ipcSize(table) < cfg.small / 2
  }

  lemma ShmRunIsSkipped(run: string, key: string)
    requires ':' !in run
    ensures SHM_KEY_PREFIX <= RedisKey(run, key) <==> run == "shm"
  {
    if run == "shm" {
      assert RedisKey("shm", key) == SHM_KEY_PREFIX + key;
    } else {
      DataKeyWord(run, key, "shm");
    }
  }

  lemma LeakIsLeftover<T>(cfg: Config<T>, key: string, table: T, run: string)
    requires ValidRun(run) && (run == "shm" || cfg.ipcSize(table) < cfg.small / 2)
    ensures Leftover(cfg, RedisKey(run, key), table)
  {
    hide RedisKey;
    ShmRunIsSkipped(run, key);
  }

  /** The failed attempt keeps a cleared key clear. */
  lemma AttemptReadies<T>(
    cfg: Config<T>, b: Bus<T>, abs: map<string, Held<T>>, key: string, table: T, run: string, faults: Faults)
    requires Ready(cfg, b, abs, key, run) && ValidRun(run) && NoHarm(cfg, table, run, faults)
    ensures Ready(cfg, Attempted(cfg, b, key, table, run, faults), abs, key, run)
    ensures Attempted(cfg, b, key, table, run, faults).locations == b.locations
    ensures forall k :: k in b.locations && k != key ==>
      Payload(Attempted(cfg, b, key, table, run, faults), b.locations[k]) == Payload(b, b.locations[k])
  {
    if Leaks(cfg, table, faults) {
      var rk := RedisKey(run, key);
      var b' := b.(redis := b.redis[rk := Bytes(table)]);
      LeakIsLeftover(cfg, key, table, run);
      hide RedisKey, GoodDigest, ShmPath, Leftover, LocatedBut, Leaks;
      forall k | k in b.locations && k != key
        ensures Payload(b', b.locations[k]) == Payload(b, b.locations[k]) && LocationOk(cfg, b', k, abs[k])
      {
        AttemptKeepsPayload(cfg, b, abs, key, table, run, k);
      }
      hide Payload, LocationOk, ManifestKey, ValidRun;
      forall r | r in b'.redis ensures RedisReady(cfg, b', r, key, run) {
        assert r in b.redis ==> RedisReady(cfg, b, r, key, run);
      }
    }
  }

  lemma AttemptKeepsPayload<T>(
    cfg: Config<T>, b: Bus<T>, abs: map<string, Held<T>>, key: string, table: T, run: string, k: string)
    requires Ready(cfg, b, abs, key, run) && ValidRun(run) && k in b.locations && k != key
    ensures var b' := b.(redis := b.redis[RedisKey(run, key) := Bytes(table)]);
      Payload(b', b.locations[k]) == Payload(b, b.locations[k]) && k in abs && LocationOk(cfg, b', k, abs[k])
  {
    hide RedisKey, GoodDigest, ShmPath, RedisReady, SpillApart;
    assert LocationOk(cfg, b, k, abs[k]);
    if b.locations[k].tier == Redis && b.locations[k].pointer == RedisKey(run, key) {
      DataKeysApart(run, key, b.locations[k].run, k);
    }
  }

  /** What the plain map becomes by a put of a non-empty key. */
  function PutIn<T>(
    cfg: Config<T>, abs: map<string, Held<T>>, key: string, table: T, run: string, faults: Faults): map<string, Held<T>>
  {
    if Stores(cfg, table, faults) then abs[key := Held(run, table)] else abs - {key}
  }

  lemma AttemptLists<T>(cfg: Config<T>, b: Bus<T>, key: string, table: T, run: string, faults: Faults)
    requires forall rk :: rk in b.redis && b.redis[rk].Hash? ==> key !in b.redis[rk].entries
    ensures var redis := Attempted(cfg, b, key, table, run, faults).redis;
      forall rk :: rk in redis && redis[rk].Hash? ==> key !in redis[rk].entries
  {
    hide RedisKey, Leaks;
  }

  lemma PutKeepsInv<T>(
    cfg: Config<T>, b: Bus<T>, abs: map<string, Held<T>>,
    key: string, table: T, run: string, uuid: string, faults: Faults)
    requires Inv(cfg, b, abs) && key != "" && ValidRun(run) && cfg.inUse(DigestText(run, key))
    requires Fresh(cfg, b, run, key, uuid) && NoHarm(cfg, table, run, faults)
    ensures Inv(cfg, Put(cfg, b, key, table, run, uuid, faults), PutIn(cfg, abs, key, table, run, faults))
  {
    hide Inv, Ready, Delete, StorePayload, RecordLocation, ValidRun, Attempted, NoHarm, Payload;
    DeleteReadies(cfg, b, abs, key, run);
    AttemptReadies(cfg, Delete(b, key), abs, key, table, run, faults);
    var attempted := Attempted(cfg, Delete(b, key), key, table, run, faults);
    if Stores(cfg, table, faults) {
      var tier := ChooseTier(cfg, table, faults);
      var loc := Location(key, run, tier, PointerFor(cfg, tier, run, key, uuid), SizeOf(cfg, table));
      StoreKeepsInv(cfg, attempted, abs, loc, table, faults.manifestWrites);
    } else {
      AttemptLists(cfg, Delete(b, key), key, table, run, faults);
      ReadyIsInv(cfg, attempted, abs, key, run);
    }
  }

  // ----- demotion

  lemma DemotedLocation<T>(cfg: Config<T>, b: Bus<T>, abs: map<string, Held<T>>, rk: string)
    requires Inv(cfg, b, abs) && Demotes(cfg, b, rk)
    ensures var (run, key) := ParseRedisDataKey(rk).value;
      && ValidRun(run) && rk == RedisKey(run, key)
      && key in b.locations && b.locations[key].run == run && b.locations[key].tier == Redis
      && b.locations[key].pointer == rk
      && abs[key] == Held(run, b.redis[rk].table) && cfg.inUse(DigestText(run, key))
  {
    hide RedisKey, ParseRedisDataKey, GoodDigest, SpillApart, IsDataKey;
    assert RedisOk(cfg, b, rk);
    var k :| k in b.locations && b.locations[k].tier == Redis && b.locations[k].pointer == rk;
    assert LocationOk(cfg, b, k, abs[k]);
    DataKeyRoundTrip(b.locations[k].run, k);
  }

  lemma DemoteRedis<T>(cfg: Config<T>, b: Bus<T>, rk: string, key: string, r: string)
    requires key in b.locations && b.locations[key].tier == Redis && b.locations[key].pointer == rk
    requires r in b.redis && r != rk && RedisOk(cfg, b, r)
    ensures RedisReady(cfg, b.(redis := b.redis - {rk}), r, key, b.locations[key].run)
  {
    hide ManifestKey, ValidRun, Leftover;
    if b.redis[r].Hash? {
      var m :| ValidRun(m) && r == ManifestKey(m) && ListsRun(b.locations, b.redis[r].entries, m);
      assert ListsBut(b.locations, b.redis[r].entries, m, key, b.locations[key].run);
    }
  }

  lemma DemoteKeepsOther<T>(cfg: Config<T>, b: Bus<T>, abs: map<string, Held<T>>, rk: string, key: string, k: string)
    requires Inv(cfg, b, abs) && key in b.locations && b.locations[key].tier == Redis && b.locations[key].pointer == rk
    requires k in b.locations && k != key
    ensures LocationOk(cfg, b.(redis := b.redis - {rk}), k, abs[k])
  {
    hide RedisOk, GoodDigest, PointerOk, ValidRun, SpillApart;
    assert LocationOk(cfg, b, key, abs[key]) && LocationOk(cfg, b, k, abs[k]);
    if b.locations[k].tier == Redis {
      PointersApart(cfg, b.locations[k], b.locations[key]);
    }
  }

  lemma DemoteReady<T>(cfg: Config<T>, b: Bus<T>, abs: map<string, Held<T>>, rk: string, key: string)
    requires Inv(cfg, b, abs) && key in b.locations && b.locations[key].tier == Redis && b.locations[key].pointer == rk
    ensures Ready(cfg, b.(redis := b.redis - {rk}), abs, key, b.locations[key].run)
  {
    hide RedisOk, RedisReady, GoodDigest, LocationOk, SpillApart;
    var b' := b.(redis := b.redis - {rk});
    SpillShrinks(b.locations, key);
    forall r | r in b'.redis ensures RedisReady(cfg, b', r, key, b.locations[key].run) {
      DemoteRedis(cfg, b, rk, key, r);
    }
    forall k | k in b'.locations && k != key ensures LocationOk(cfg, b', k, abs[k]) {
      DemoteKeepsOther(cfg, b, abs, rk, key, k);
    }
  }

  /** Demotion is storing the same table in shared memory after clearing it in Redis. */
  lemma DemoteIsStore<T>(cfg: Config<T>, b: Bus<T>, rk: string, run: string, key: string, table: T, persisted: bool)
    requires Demotes(cfg, b, rk) && ParseRedisDataKey(rk) == Some((run, key)) && b.redis[rk] == Bytes(table)
    requires rk == RedisKey(run, key) && ValidRun(run)
    ensures var path := ShmPath(cfg.shmDir, cfg.digest, run, key);
      DemoteOne(cfg, b, rk, persisted)
        == RecordLocation(StorePayload(b.(redis := b.redis - {rk}), Shm, path, table),
                          Location(key, run, Shm, path, cfg.ipcSize(table)), persisted)
  {
    DataIsNotManifest(run, key, run);
    hide ParseRedisDataKey, ShmPath, ManifestKey, RedisKey, Demotes, EntryOf;
    var loc := Location(key, run, Shm, ShmPath(cfg.shmDir, cfg.digest, run, key), cfg.ipcSize(table));
    assert PersistEntry(b.redis - {rk}, loc) == PersistEntry(b.redis, loc) - {rk};
  }

  lemma DemoteKeepsInv<T>(cfg: Config<T>, b: Bus<T>, abs: map<string, Held<T>>, rk: string, persisted: bool)
    requires Inv(cfg, b, abs) && Demotes(cfg, b, rk)
    ensures Inv(cfg, DemoteOne(cfg, b, rk, persisted), abs)
  {
    DemotedLocation(cfg, b, abs, rk);
    var (run, key) := ParseRedisDataKey(rk).value;
    var table := b.redis[rk].table;
    DemoteIsStore(cfg, b, rk, run, key, table, persisted);
    DemoteReady(cfg, b, abs, rk, key);
    hide Inv, Ready, ParseRedisDataKey, ShmPath, ManifestKey;
    hide RedisKey, ValidRun, DemoteOne, RecordLocation, StorePayload;
    var loc := Location(key, run, Shm, ShmPath(cfg.shmDir, cfg.digest, run, key), cfg.ipcSize(table));
    StoreKeepsInv(cfg, b.(redis := b.redis - {rk}), abs, loc, table, persisted);
    assert abs[key := Held(run, table)] == abs;
  }

  lemma {:induction false} DemoteScanKeepsInv<T>(
    cfg: Config<T>, b: Bus<T>, abs: map<string, Held<T>>,
    scan: seq<string>, written: set<string>, persisted: set<string>, evicted: nat)
    requires Inv(cfg, b, abs)
    ensures Inv(cfg, DemoteScan(cfg, b, scan, written, persisted, evicted), abs)
    decreases |scan|
  {
    hide Inv, DemoteOne, Demotes;
    if scan != [] && evicted < 5 {
      if scan[0] in written && Demotes(cfg, b, scan[0]) {
        var kept := scan[0] in persisted;
        DemoteKeepsInv(cfg, b, abs, scan[0], kept);
        DemoteScanKeepsInv(cfg, DemoteOne(cfg, b, scan[0], kept), abs, scan[1..], written, persisted, evicted + 1);
      } else {
        DemoteScanKeepsInv(cfg, b, abs, scan[1..], written, persisted, evicted);
      }
    }
  }

  // ----- expiry

  /** Losing a payload or a manifest keeps the invariant. */
  lemma ExpiryKeepsInv<T>(cfg: Config<T>, b: Bus<T>, abs: map<string, Held<T>>, redisKey: string, path: string)
    requires Inv(cfg, b, abs)
    ensures Inv(cfg, b.(redis := b.redis - {redisKey}), abs)
    ensures Inv(cfg, b.(shm := b.shm - {path}), abs)
  {
    var b1, b2 := b.(redis := b.redis - {redisKey}), b.(shm := b.shm - {path});
    hide GoodDigest, PointerOk, ValidRun, SpillApart, ManifestKey;
    forall k | k in b.locations
      ensures LocationOk(cfg, b1, k, abs[k]) && LocationOk(cfg, b2, k, abs[k])
    {
      assert LocationOk(cfg, b, k, abs[k]);
    }
    forall rk | rk in b.redis
      ensures rk in b1.redis ==> RedisOk(cfg, b1, rk)
      ensures RedisOk(cfg, b2, rk)
    {
      assert RedisOk(cfg, b, rk);
    }
  }

  // ----- cleanup of a run

  function ManifestOf<T>(b: Bus<T>, run: string): map<string, Entry> {
    var mk := ManifestKey(run);
    if mk in b.redis && b.redis[mk].Hash? then b.redis[mk].entries else map[]
  }

  function DeleteKeys<T>(b: Bus<T>, order: seq<string>): Bus<T>
    decreases |order|
  {
    if order == [] then b else DeleteKeys(Delete(b, order[0]), order[1..])
  }

  /** Entries that only the manifest knows, as after a restart. */
  function DropEntries<T>(b: Bus<T>, run: string, entries: map<string, Entry>, order: seq<string>): Bus<T>
    decreases |order|
  {
    if order == [] then b
    else if order[0] !in entries then DropEntries(b, run, entries, order[1..])
    else
      var b' := DeletePayload(b, entries[order[0]].tier, entries[order[0]].pointer);
      DropEntries(b'.(redis := RemoveEntry(b'.redis, run, order[0])), run, entries, order[1..])
  }

  function Sweep<T>(cfg: Config<T>, b: Bus<T>, run: string): Bus<T> {
    b.(shm := map p | p in b.shm && !Swept(cfg.shmDir, run, p) :: b.shm[p],
       spill := map p | p in b.spill && !SpillSwept(cfg.diskPrefix, run, p) :: b.spill[p],
       redis := b.redis - {ManifestKey(run)})
  }

  /** `keys` and `left` are the orders in which the local and the remaining manifest
      entries of the run are visited. */
  function CleanupRun<T>(cfg: Config<T>, b: Bus<T>, run: string, keys: seq<string>, left: seq<string>): Bus<T> {
    var b1 := DeleteKeys(b, keys);
    var entries := ManifestOf(b1, run) - (set k | k in keys);
    Sweep(cfg, DropEntries(b1, run, entries, left), run)
  }

  ghost predicate Lists(order: seq<string>, s: set<string>) {
    (forall i, j :: 0 <= i < j < |order| ==> order[i] != order[j]) && forall k :: k in order <==> k in s
  }

  ghost function KeysOf<T>(b: Bus<T>, run: string): set<string> {
    set k | k in b.locations && b.locations[k].run == run
  }

  lemma {:induction false} DeleteKeysKeepInv<T>(
    cfg: Config<T>, b: Bus<T>, abs: map<string, Held<T>>, order: seq<string>)
    requires Inv(cfg, b, abs)
    ensures Inv(cfg, DeleteKeys(b, order), abs - (set k | k in order))
    ensures DeleteKeys(b, order).locations == b.locations - (set k | k in order)
    ensures forall k :: k in b.locations && k !in order ==>
      Payload(DeleteKeys(b, order), b.locations[k]) == Payload(b, b.locations[k])
    decreases |order|
  {
    hide Inv, Delete, Payload;
    if order == [] {
      assert abs - (set k | k in order) == abs && b.locations - (set k | k in order) == b.locations;
    } else {
      var first, rest := order[0], order[1..];
      DeleteKeepsInv(cfg, b, abs, first);
      DeleteReadies(cfg, b, abs, first, "");
      DeleteKeysKeepInv(cfg, Delete(b, first), abs - {first}, rest);
      MinusAll(abs, first, rest);
      MinusAll(b.locations, first, rest);
      assert order == [first] + rest;
    }
  }

  lemma MinusAll<V>(m: map<string, V>, first: string, rest: seq<string>)
    ensures m - {first} - (set k | k in rest) == m - (set k | k in [first] + rest)
    ensures forall k :: k in [first] + rest <==> k == first || k in rest
  {
    assert (set k | k in [first] + rest) == {first} + set k | k in rest;
  }

  /** In a reachable state nothing is left for the manifest to recover. */
  lemma NothingLeft<T>(cfg: Config<T>, b: Bus<T>, abs: map<string, Held<T>>, run: string)
    requires Inv(cfg, b, abs) && KeysOf(b, run) == {}
    ensures ManifestOf(b, run) == map[]
  {
    hide ManifestKey, GoodDigest, LocationOk, SpillApart;
    var mk := ManifestKey(run);
    if mk in b.redis && b.redis[mk].Hash? {
      assert RedisOk(cfg, b, mk);
      var r :| ValidRun(r) && mk == ManifestKey(r) && ListsRun(b.locations, b.redis[mk].entries, r);
      ManifestKeysApart(r, run);
      forall k | k in b.redis[mk].entries
        ensures k in KeysOf(b, run)
      {
      }
    }
  }

  /** The sweep of a run loses nothing another run has recorded. */
  lemma SweepKeepsOthers<T>(cfg: Config<T>, b: Bus<T>, run: string, loc: Location)
    requires GoodDigest(cfg.digest, cfg.inUse)
    requires PointerOk(cfg, loc) && ValidRun(loc.run) && ValidRun(run) && loc.run != run
    ensures Payload(Sweep(cfg, b, run), loc) == Payload(b, loc)
  {
    match loc.tier
    case Redis => DataIsNotManifest(loc.run, loc.key, run);
    case Shm => SweepIsOwn(cfg.shmDir, cfg.digest, loc.run, loc.key, run);
    case Spill =>
  }

  lemma SweepKeepsInv<T>(cfg: Config<T>, b: Bus<T>, abs: map<string, Held<T>>, run: string)
    requires Inv(cfg, b, abs) && ValidRun(run) && KeysOf(b, run) == {}
    ensures Inv(cfg, Sweep(cfg, b, run), abs)
    ensures forall k :: k in b.locations ==> Payload(Sweep(cfg, b, run), b.locations[k]) == Payload(b, b.locations[k])
  {
    var b' := Sweep(cfg, b, run);
    assert b'.locations == b.locations && forall rk :: rk in b'.redis ==> rk in b.redis && b'.redis[rk] == b.redis[rk];
    hide GoodDigest, PointerOk, ValidRun, SpillApart, ManifestKey, Sweep, Payload;
    forall k | k in b.locations
      ensures Payload(b', b.locations[k]) == Payload(b, b.locations[k])
      ensures LocationOk(cfg, b', k, abs[k])
    {
      assert LocationOk(cfg, b, k, abs[k]);
      assert b.locations[k].run != run by { assert k !in KeysOf(b, run); }
      SweepKeepsOthers(cfg, b, run, b.locations[k]);
    }
    forall rk | rk in b'.redis
      ensures RedisOk(cfg, b', rk)
    {
      assert RedisOk(cfg, b, rk);
    }
  }

  // ----- what a cleanup leaves

  lemma DeleteShrinks<T>(b: Bus<T>, key: string, loc: Location)
    ensures Payload(b, loc).None? ==> Payload(Delete(b, key), loc).None?
    ensures key in b.locations && b.locations[key] == loc ==> Payload(Delete(b, key), loc).None?
  {
    if key in b.locations && loc.tier == Redis && loc.pointer in Delete(b, key).redis {
      DeleteFacts(b, key, loc.pointer);
    }
  }

  lemma {:induction false} DeleteKeysClears<T>(b: Bus<T>, order: seq<string>, loc: Location)
    ensures Payload(b, loc).None? ==> Payload(DeleteKeys(b, order), loc).None?
    ensures loc.key in order && loc.key in b.locations && b.locations[loc.key] == loc ==>
      Payload(DeleteKeys(b, order), loc).None?
    decreases |order|
  {
    hide Payload, Delete;
    if order != [] {
      DeleteShrinks(b, order[0], loc);
      DeleteLocations(b, order[0]);
      DeleteKeysClears(Delete(b, order[0]), order[1..], loc);
    }
  }

  lemma SweepShrinks<T>(cfg: Config<T>, b: Bus<T>, run: string, loc: Location)
    ensures Payload(b, loc).None? ==> Payload(Sweep(cfg, b, run), loc).None?
  {
  }

  function OtherRuns<T>(abs: map<string, Held<T>>, run: string): map<string, Held<T>> {
    map k | k in abs && abs[k].run != run :: abs[k]
  }

  lemma RunsAgree<T>(cfg: Config<T>, b: Bus<T>, abs: map<string, Held<T>>, run: string)
    requires Inv(cfg, b, abs)
    ensures forall k :: k in abs ==> (k in KeysOf(b, run) <==> abs[k].run == run)
    ensures abs - KeysOf(b, run) == OtherRuns(abs, run)
  {
    hide RedisOk, SpillApart, PointerOk, Payload, ValidRun, GoodDigest;
    forall k | k in abs
      ensures k in KeysOf(b, run) <==> abs[k].run == run
    {
      assert LocationOk(cfg, b, k, abs[k]);
    }
  }

  /** Cleaning up a run removes its locations, its manifest and every payload recorded
      for it, and changes nothing that another run can read. */
  lemma {:induction false} CleanupIsExact<T>(
    cfg: Config<T>, b: Bus<T>, abs: map<string, Held<T>>, run: string, keys: seq<string>)
    requires Inv(cfg, b, abs) && ValidRun(run) && Lists(keys, KeysOf(b, run))
    ensures var b' := CleanupRun(cfg, b, run, keys, []);
      && Inv(cfg, b', OtherRuns(abs, run))
      && b'.locations == b.locations - KeysOf(b, run) && ManifestKey(run) !in b'.redis
      && (forall k :: k in KeysOf(b, run) ==> Payload(b', b.locations[k]) == None)
      && (forall k :: k in b.locations && k !in KeysOf(b, run) ==> Get(b', k) == Get(b, k))
    ensures ManifestOf(DeleteKeys(b, keys), run) - (set k | k in keys) == map[]
  {
    hide Inv, Payload, Sweep, DeleteKeys, ManifestKey, ManifestOf;
    var b1 := DeleteKeys(b, keys);
    DeleteKeysKeepInv(cfg, b, abs, keys);
    assert (set k | k in keys) == KeysOf(b, run);
    RunsAgree(cfg, b, abs, run);
    assert KeysOf(b1, run) == {};
    NothingLeft(cfg, b1, OtherRuns(abs, run), run);
    SweepKeepsInv(cfg, b1, OtherRuns(abs, run), run);
    SweepLocations(cfg, b1, run);
    forall k | k in KeysOf(b, run)
      ensures Payload(Sweep(cfg, b1, run), b.locations[k]) == None
    {
      KeyOfLocation(cfg, b, abs, k);
      DeleteKeysClears(b, keys, b.locations[k]);
      SweepShrinks(cfg, b1, run, b.locations[k]);
    }
  }

  lemma SweepLocations<T>(cfg: Config<T>, b: Bus<T>, run: string)
    ensures Sweep(cfg, b, run).locations == b.locations && ManifestKey(run) !in Sweep(cfg, b, run).redis
  {
  }

  lemma KeyOfLocation<T>(cfg: Config<T>, b: Bus<T>, abs: map<string, Held<T>>, k: string)
    requires Inv(cfg, b, abs) && k in b.locations
    ensures b.locations[k].key == k
  {
    assert LocationOk(cfg, b, k, abs[k]);
  }

  // ----- the tally a cleanup returns

  function Tally<T>(b: Bus<T>, order: seq<string>, tier: Tier): nat
    decreases |order|
  {
    if order == [] then 0
    else (if order[0] in b.locations && b.locations[order[0]].tier == tier then 1 else 0)
         + Tally(Delete(b, order[0]), order[1..], tier)
  }

  ghost function InTier(locations: map<string, Location>, order: seq<string>, tier: Tier): set<string> {
    set k | k in order && k in locations && locations[k].tier == tier
  }

  lemma InTierStep(locations: map<string, Location>, head: string, rest: seq<string>, tier: Tier)
    requires head in locations && head !in rest
    ensures |InTier(locations, [head] + rest, tier)|
      == (if locations[head].tier == tier then 1 else 0) + |InTier(locations - {head}, rest, tier)|
  {
    var order := [head] + rest;
    var less := locations - {head};
    var all, tail := InTier(locations, order, tier), InTier(less, rest, tier);
    assert forall k :: k in order <==> k == head || k in rest;
    forall k
      ensures k in all <==> k in tail || (k == head && locations[head].tier == tier)
    {
      assert k in less ==> less[k] == locations[k];
    }
    hide InTier;
    OneMore(tail, all, head, locations[head].tier == tier);
  }

  lemma OneMore(tail: set<string>, all: set<string>, head: string, more: bool)
    requires forall k :: k in all <==> k in tail || (k == head && more)
    requires head !in tail
    ensures |all| == (if more then 1 else 0) + |tail|
  {
    assert all == if more then tail + {head} else tail;
  }

  /** The tally of a tier is the number of the run's entries in that tier. */
  lemma {:induction false} TallyIsCount<T>(b: Bus<T>, order: seq<string>, tier: Tier)
    requires forall i, j :: 0 <= i < j < |order| ==> order[i] != order[j]
    requires forall k :: k in order ==> k in b.locations
    ensures Tally(b, order, tier) == |InTier(b.locations, order, tier)|
    decreases |order|
  {
    hide Delete, InTier;
    if order == [] {
      NoneInTier(b.locations, tier);
    } else {
      DeleteLocations(b, order[0]);
      assert order == [order[0]] + order[1..] && order[0] !in order[1..];
      TallyIsCount(Delete(b, order[0]), order[1..], tier);
      InTierStep(b.locations, order[0], order[1..], tier);
    }
  }

  lemma NoneInTier(locations: map<string, Location>, tier: Tier)
    ensures InTier(locations, [], tier) == {}
  {
  }

  // ----- whole runs of the bus

  datatype Op<+T> =
    | PutOp(key: string, table: T, run: string, uuid: string, faults: Faults)
    | DeleteOp(key: string)
    | DemoteOp(scan: seq<string>, written: set<string>, persisted: set<string>)
    | CleanupOp(run: string, keys: seq<string>)
    | ExpireRedisOp(redisKey: string)
    | ExpireShmOp(path: string)

  function Step<T>(cfg: Config<T>, b: Bus<T>, op: Op<T>): Bus<T> {
    match op
    case PutOp(key, table, run, uuid, faults) => Put(cfg, b, key, table, run, uuid, faults)
    case DeleteOp(key) => Delete(b, key)
    case DemoteOp(scan, written, persisted) => DemoteScan(cfg, b, scan, written, persisted, 0)
    case CleanupOp(run, keys) => CleanupRun(cfg, b, run, keys, [])
    case ExpireRedisOp(redisKey) => b.(redis := b.redis - {redisKey})
    case ExpireShmOp(path) => b.(shm := b.shm - {path})
  }

  /** The plain last-writer map: demotion and expiry do not exist for it. */
  function Expected<T>(cfg: Config<T>, abs: map<string, Held<T>>, op: Op<T>): map<string, Held<T>> {
    match op
    case PutOp(key, table, run, _, faults) => if key == "" then abs else PutIn(cfg, abs, key, table, run, faults)
    case DeleteOp(key) => abs - {key}
    case CleanupOp(run, _) => OtherRuns(abs, run)
    case _ => abs
  }

  /** What the environment promises about an operation. */
  ghost predicate Allowed<T>(cfg: Config<T>, b: Bus<T>, op: Op<T>) {
    match op
    case PutOp(key, table, run, uuid, faults) =>
      ValidRun(run) && cfg.inUse(DigestText(run, key))
      && Fresh(cfg, b, run, key, uuid) && NoHarm(cfg, table, run, faults)
    case CleanupOp(run, keys) => ValidRun(run) && Lists(keys, KeysOf(b, run))
    case _ => true
  }

  function RunOps<T>(cfg: Config<T>, b: Bus<T>, ops: seq<Op<T>>): Bus<T> {
    if ops == [] then b else Step(cfg, RunOps(cfg, b, ops[..|ops| - 1]), ops[|ops| - 1])
  }

  function ExpectedAfter<T>(cfg: Config<T>, abs: map<string, Held<T>>, ops: seq<Op<T>>): map<string, Held<T>> {
    if ops == [] then abs else Expected(cfg, ExpectedAfter(cfg, abs, ops[..|ops| - 1]), ops[|ops| - 1])
  }

  ghost predicate AllAllowed<T>(cfg: Config<T>, b: Bus<T>, ops: seq<Op<T>>) {
    forall n :: 0 <= n < |ops| ==> Allowed(cfg, RunOps(cfg, b, ops[..n]), ops[n])
  }

  lemma StepKeepsInv<T>(cfg: Config<T>, b: Bus<T>, abs: map<string, Held<T>>, op: Op<T>)
    requires Inv(cfg, b, abs) && Allowed(cfg, b, op)
    ensures Inv(cfg, Step(cfg, b, op), Expected(cfg, abs, op))
  {
    hide Inv, Put, Delete, DemoteScan, CleanupRun, OtherRuns, ValidRun, Fresh, Lists, KeysOf, NoHarm, PutIn;
    match op
    case PutOp(key, table, run, uuid, faults) =>
      if key == "" {
        PutEmptyKey(cfg, b, table, run, uuid, faults);
      } else {
        PutKeepsInv(cfg, b, abs, key, table, run, uuid, faults);
      }
    case DeleteOp(key) => DeleteKeepsInv(cfg, b, abs, key);
    case DemoteOp(scan, written, persisted) => DemoteScanKeepsInv(cfg, b, abs, scan, written, persisted, 0);
    case CleanupOp(run, keys) => CleanupIsExact(cfg, b, abs, run, keys);
    case ExpireRedisOp(redisKey) => ExpiryKeepsInv(cfg, b, abs, redisKey, "");
    case ExpireShmOp(path) => ExpiryKeepsInv(cfg, b, abs, "", path);
  }

  lemma PutEmptyKey<T>(cfg: Config<T>, b: Bus<T>, table: T, run: string, uuid: string, faults: Faults)
    ensures Put(cfg, b, "", table, run, uuid, faults) == b
  {
  }

  lemma {:induction false} RunKeepsInv<T>(cfg: Config<T>, b: Bus<T>, abs: map<string, Held<T>>, ops: seq<Op<T>>)
    requires Inv(cfg, b, abs) && AllAllowed(cfg, b, ops)
    ensures Inv(cfg, RunOps(cfg, b, ops), ExpectedAfter(cfg, abs, ops))
  {
    hide Inv, Step, Expected, Allowed;
    if ops != [] {
      var n := |ops| - 1;
      assert forall m :: 0 <= m < n ==> ops[..n][..m] == ops[..m];
      RunKeepsInv(cfg, b, abs, ops[..n]);
      StepKeepsInv(cfg, RunOps(cfg, b, ops[..n]), ExpectedAfter(cfg, abs, ops[..n]), ops[n]);
    }
  }

  function EmptyBus<T>(): Bus<T> { Bus(map[], map[], map[], map[]) }

  /** Over any run of puts, deletions, demotions, cleanups and expiries from an empty
      bus, `get` returns the table last put under the key or fails: never a table that
      was overwritten, deleted, cleaned up or put under another key. */
  lemma {:induction false} BusRefinesMap<T>(cfg: Config<T>, ops: seq<Op<T>>, key: string)
    requires GoodDigest(cfg.digest, cfg.inUse) && AllAllowed(cfg, EmptyBus(), ops)
    ensures var b, abs := RunOps(cfg, EmptyBus(), ops), ExpectedAfter(cfg, map[], ops);
      && (Get(b, key).Table? ==> key in abs && Get(b, key).table == abs[key].table)
      && (key !in abs ==> Get(b, key) == KeyError)
  {
    hide GoodDigest, Get;
    EmptyInv(cfg);
    RunKeepsInv(cfg, EmptyBus(), map[], ops);
    GetIsLastPut(cfg, RunOps(cfg, EmptyBus(), ops), ExpectedAfter(cfg, map[], ops), key);
  }

  lemma EmptyInv<T>(cfg: Config<T>)
    requires GoodDigest(cfg.digest, cfg.inUse)
    ensures Inv(cfg, EmptyBus(), map[])
  {
  }
}
