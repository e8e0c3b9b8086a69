/** Names the Arrow bus gives to its entries in Redis and in shared memory. */
module ArrowKeys {
  import opened Basics
  import opened Glob

  const DATA_PREFIX := "arrow_bus:"
  const MANIFEST_PREFIX := "arrow_bus:manifest:"
  const SHM_KEY_PREFIX := "arrow_bus:shm:"

  function RedisKey(run: string, key: string): string { DATA_PREFIX + run + ":" + key }
  function ManifestKey(run: string): string { MANIFEST_PREFIX + run }

  /** Run identifiers that keep the bus's names apart and stand for themselves in file
      name patterns.  UUIDs are such identifiers. */
  predicate ValidRun(run: string) {
    ':' !in run && '_' !in run && '/' !in run && Plain(run) && run != "manifest"
  }

  function FirstOf(s: string, c: char): (k: nat)
    ensures k <= |s|
    ensures k < |s| ==> s[k] == c
    ensures c !in s[..k]
  {
    if s == "" || s[0] == c then 0
    else
      var k := FirstOf(s[1..], c);
      assert s[..1 + k] == [s[0]] + s[1..][..k];
      1 + k
  }

  /** Reads a data key back into run and logical key, or fails. */
  function ParseRedisDataKey(s: string): Option<(string, string)> {
    if !(DATA_PREFIX <= s) then None
    else
      var rest := s[|DATA_PREFIX|..];
      var k := FirstOf(rest, ':');
      if k == |rest| then None else Some((rest[..k], rest[k + 1..]))
  }

  /** The first separator after a text without it is the one that follows. */
  lemma {:induction false} FirstOfJoined(a: string, c: char, b: string)
    requires c !in a
    ensures FirstOf(a + [c] + b, c) == |a|
  {
    if a != "" {
      var s := a + [c] + b;
      assert s[0] == a[0] && s[1..] == a[1..] + [c] + b;
      FirstOfJoined(a[1..], c, b);
    }
  }

  /** Data keys are read back exactly, even when the logical key contains a colon. */
  lemma DataKeyRoundTrip(run: string, key: string)
    requires ':' !in run
    ensures ParseRedisDataKey(RedisKey(run, key)) == Some((run, key))
  {
    var s := RedisKey(run, key);
    var rest := run + [':'] + key;
    assert s[..|DATA_PREFIX|] == DATA_PREFIX && s[|DATA_PREFIX|..] == rest;
    FirstOfJoined(run, ':', key);
    assert rest[..|run|] == run && rest[|run| + 1..] == key;
  }

  lemma DataKeysApart(run: string, key: string, run': string, key': string)
    requires ':' !in run && ':' !in run' && RedisKey(run, key) == RedisKey(run', key')
    ensures run == run' && key == key'
  {
    DataKeyRoundTrip(run, key);
    DataKeyRoundTrip(run', key');
  }

  /** A data key is never a manifest key when the run is not called "manifest". */
  lemma DataIsNotManifest(run: string, key: string, run': string)
    requires ':' !in run && run != "manifest"
    ensures RedisKey(run, key) != ManifestKey(run')
  {
    assert ManifestKey(run') == DATA_PREFIX + "manifest" + ":" + run';
    assert RedisKey("manifest", run') == ManifestKey(run');
    if RedisKey(run, key) == ManifestKey(run') {
      assert ':' !in "manifest";
      DataKeysApart(run, key, "manifest", run');
    }
  }

  lemma ManifestKeysApart(run: string, run': string)
    requires ManifestKey(run) == ManifestKey(run')
    ensures run == run'
  {
    assert ManifestKey(run)[|MANIFEST_PREFIX|..] == run;
    assert ManifestKey(run')[|MANIFEST_PREFIX|..] == run';
  }

  /** A data key starts like the keys of another word only when that is its run. */
  lemma DataKeyWord(run: string, key: string, word: string)
    requires ':' !in run && ':' !in word && run != word
    ensures !(DATA_PREFIX + word + ":" <= RedisKey(run, key))
    ensures DATA_PREFIX <= RedisKey(run, key)
  {
    var s, prefix := RedisKey(run, key), DATA_PREFIX + word + ":";
    assert s[..|DATA_PREFIX|] == DATA_PREFIX;
    if prefix <= s {
      assert s == RedisKey(word, s[|prefix|..]);
      DataKeysApart(run, key, word, s[|prefix|..]);
    }
  }

  /** A run called "manifest" would store its tables over the manifests of other runs. */
  lemma RunNamedManifestCollides(key: string)
    ensures RedisKey("manifest", key) == ManifestKey(key)
  {
    assert RedisKey("manifest", key) == "arrow_bus:" + "manifest" + ":" + key;
  }

  // ----- shared-memory files

  const SHM_EXTENSION := ".arrow"

  /** The part of a file name that all files of a run share. */
  function ShmPrefix(dir: string, run: string): string { dir + "/pipelineiq_" + run + "_" }

  function ShmPath(dir: string, digest: string -> string, run: string, key: string): string {
    ShmPrefix(dir, run) + digest(DigestText(run, key)) + SHM_EXTENSION
  }

  function DigestText(run: string, key: string): string { run + ":" + key }

  predicate HexDigits(d: string) {
    forall i :: 0 <= i < |d| ==> '0' <= d[i] <= '9' || 'a' <= d[i] <= 'f'
  }

  /** Sixteen hexadecimal characters, different for different texts among those in use. */
  ghost predicate GoodDigest(digest: string -> string, inUse: string -> bool) {
    && (forall s :: |digest(s)| == 16 && HexDigits(digest(s)))
    && (forall s, t :: inUse(s) && inUse(t) && digest(s) == digest(t) ==> s == t)
  }

  lemma ShmPathsApart(
    dir: string, digest: string -> string, inUse: string -> bool, run: string, key: string, run': string,
    key': string)
    requires GoodDigest(digest, inUse) && ':' !in run && ':' !in run'
    requires inUse(DigestText(run, key)) && inUse(DigestText(run', key'))
    requires ShmPath(dir, digest, run, key) == ShmPath(dir, digest, run', key')
    ensures run == run' && key == key'
  {
    var p, q := ShmPath(dir, digest, run, key), ShmPath(dir, digest, run', key');
    var d, d' := digest(DigestText(run, key)), digest(DigestText(run', key'));
    var n := |p| - 22;
    assert p[n..n + 16] == d && q[n..n + 16] == d';
    assert run + [':'] + key == run' + [':'] + key';
    FirstOfJoined(run, ':', key);
    FirstOfJoined(run', ':', key');
    assert (run + [':'] + key)[..|run|] == run && (run' + [':'] + key')[..|run'|] == run';
    assert (run + [':'] + key)[|run| + 1..] == key && (run' + [':'] + key')[|run'| + 1..] == key';
  }

  const SHM_PREFIX := "pipelineiq_"

  /** The pattern the sweep of a run hands to the file system. */
  function SweepPattern(run: string): string { SHM_PREFIX + (run + ("_*" + SHM_EXTENSION)) }

  /** The per-run sweep: the files in the directory that match the run's pattern.  The
      run holds no slash, which would make the pattern name a directory. */
  predicate Swept(dir: string, run: string, path: string) {
    dir + "/" <= path && '/' !in path[|dir| + 1..] && Globs(SweepPattern(run), path[|dir| + 1..])
  }

  function Tail(): seq<Token> { [Literal('_')] + ([AnyRun] + Literals(SHM_EXTENSION)) }

  lemma PlainConstants()
    ensures Plain(SHM_PREFIX) && Plain("_") && Plain(SHM_EXTENSION) && ']' !in "_*" + SHM_EXTENSION && '[' !in "_"
  {
  }

  lemma TailParse()
    ensures Parse("_*" + SHM_EXTENSION) == Tail()
  {
    hide Literals;
    PlainConstants();
    assert "_*" + SHM_EXTENSION == "_" + ("*" + SHM_EXTENSION);
    ParseConcat("_", "*" + SHM_EXTENSION);
    PlainParse("_");
    SingleLiteral('_');
    ParseStar(SHM_EXTENSION);
    PlainParse(SHM_EXTENSION);
  }

  lemma SingleLiteral(c: char)
    ensures Literals([c]) == [Literal(c)]
  {
    assert [c][1..] == [];
  }

  lemma {:induction false} ParseStar(p: string)
    ensures Parse("*" + p) == [AnyRun] + Parse(p)
  {
    assert ("*" + p)[0] == '*' && ("*" + p)[1..] == p;
  }

  lemma {:induction false} PatternParts(run: string)
    ensures Parse(SweepPattern(run)) == Literals(SHM_PREFIX) + (Parse(run) + Tail())
  {
    hide Parse, Literals, Tail, Plain;
    PlainConstants();
    NoBracket();
    ParseConcat(SHM_PREFIX, run + ("_*" + SHM_EXTENSION));
    ParseConcat(run, "_*" + SHM_EXTENSION);
    PlainParse(SHM_PREFIX);
    TailParse();
  }

  lemma NoBracket()
    ensures '[' !in SHM_PREFIX
  {
  }

  lemma {:induction false} TailMatches(name: string)
    ensures Matches(Tail(), name) <==> name != "" && name[0] == '_' && EndsInExtension(name[1..])
  {
    var ts := Tail();
    assert ts[0] == Literal('_') && ts[1..] == [AnyRun] + Literals(SHM_EXTENSION);
    hide Literals;
    if name != "" { RunThenLiterals(SHM_EXTENSION, name[1..]); }
  }

  predicate EndsInExtension(s: string) { |s| >= |SHM_EXTENSION| && s[|s| - |SHM_EXTENSION|..] == SHM_EXTENSION }

  /** A part of the name that ends before an underscore and matches the run's pattern. */
  ghost predicate GlobsUpTo(p: string, name: string, i: nat) {
    i < |name| && name[i] == '_' && Globs(p, name[..i])
  }

  /** What the pattern of a run says about a file name, behind the common prefix. */
  lemma NameMatches(run: string, name: string)
    ensures Globs(SweepPattern(run), SHM_PREFIX + name)
      <==> exists i: nat :: GlobsUpTo(run, name, i) && EndsInExtension(name[i + 1..])
  {
    hide Matches, Parse, Literals, Tail;
    var all := SHM_PREFIX + name;
    PatternParts(run);
    if Globs(SweepPattern(run), all) {
      var k := SplitMatches(Literals(SHM_PREFIX), Parse(run) + Tail(), all);
      LiteralsMatch(SHM_PREFIX, all[..k]);
      assert |all[..k]| == k && all[k..] == name;
      var i := SplitMatches(Parse(run), Tail(), name);
      TailMatches(name[i..]);
      assert name[i..][1..] == name[i + 1..];
      assert GlobsUpTo(run, name, i);
    }
    if i: nat :| GlobsUpTo(run, name, i) && EndsInExtension(name[i + 1..]) {
      assert name[i..][1..] == name[i + 1..];
      TailMatches(name[i..]);
      MatchesSplit(Parse(run), Tail(), name, i);
      LiteralsMatch(SHM_PREFIX, all[..|SHM_PREFIX|]);
      assert all[..|SHM_PREFIX|] == SHM_PREFIX && all[|SHM_PREFIX|..] == name;
      MatchesSplit(Literals(SHM_PREFIX), Parse(run) + Tail(), all, |SHM_PREFIX|);
    }
  }

  /** Only an underscore of the run itself can end the matched part. */
  lemma UpToInRun(run: string, d: string, run': string)
    requires HexDigits(d) && '/' !in run
    ensures var name := run + "_" + d + SHM_EXTENSION;
      (exists i: nat :: GlobsUpTo(run', name, i) && EndsInExtension(name[i + 1..]))
      <==> exists i: nat :: GlobsUpTo(run', run + "_", i)
  {
    hide Globs, HexDigits, EndsInExtension;
    var start, name := run + "_", run + "_" + d + SHM_EXTENSION;
    DigestSafe(run, d);
    assert name[..|start|] == start;
    if i: nat :| GlobsUpTo(run', name, i) && EndsInExtension(name[i + 1..]) {
      assert name[..i] == start[..i] && name[i] == start[i];
      assert GlobsUpTo(run', start, i);
    }
    if i: nat :| GlobsUpTo(run', start, i) {
      assert name[..i] == start[..i] && name[i] == start[i];
      EndStays(run, d, i);
      assert GlobsUpTo(run', name, i);
    }
  }

  /** The sweep of a run takes a file of another exactly when the swept run, read as a
      pattern, matches the other or a part of it that ends before an underscore. */
  lemma SweepIsExact(dir: string, digest: string -> string, run: string, key: string, run': string)
    requires HexDigits(digest(DigestText(run, key))) && '/' !in run && '/' !in run'
    ensures Swept(dir, run', ShmPath(dir, digest, run, key)) <==> exists i: nat :: GlobsUpTo(run', run + "_", i)
  {
    hide Globs, SweepPattern, HexDigits, GlobsUpTo, EndsInExtension;
    var d := digest(DigestText(run, key));
    var path, name := ShmPath(dir, digest, run, key), run + "_" + d + SHM_EXTENSION;
    assert path == dir + "/" + (SHM_PREFIX + name);
    assert path[..|dir| + 1] == dir + "/" && path[|dir| + 1..] == SHM_PREFIX + name;
    DigestSafe(run, d);
    NameMatches(run', name);
    UpToInRun(run, d, run');
  }

  lemma DigestSafe(run: string, d: string)
    requires HexDigits(d) && '/' !in run
    ensures var name := run + "_" + d + SHM_EXTENSION;
      '/' !in SHM_PREFIX + name && forall i :: |run| < i < |name| ==> name[i] != '_'
  {
    var name, tail := run + "_" + d + SHM_EXTENSION, d + SHM_EXTENSION;
    assert forall i :: |run| < i < |name| ==> name[i] == tail[i - |run| - 1];
  }

  lemma EndStays(run: string, d: string, i: nat)
    requires i <= |run|
    ensures EndsInExtension((run + "_" + d + SHM_EXTENSION)[i + 1..])
  {
  }

  /** A run without wildcards takes the files of the runs that start with it, a
      following underscore included. */
  lemma SweepOfPlain(dir: string, digest: string -> string, run: string, key: string, run': string)
    requires HexDigits(digest(DigestText(run, key))) && '/' !in run && '/' !in run' && Plain(run')
    ensures Swept(dir, run', ShmPath(dir, digest, run, key)) <==> run' + "_" <= run + "_"
  {
    hide Globs, Swept, HexDigits;
    SweepIsExact(dir, digest, run, key, run');
    var start := run + "_";
    if i: nat :| GlobsUpTo(run', start, i) {
      PlainGlobs(run', start[..i]);
      assert start[..i + 1] == run' + "_";
    }
    if run' + "_" <= start {
      assert start[..|run'|] == run' && start[|run'|] == '_';
      PlainGlobs(run', start[..|run'|]);
      assert GlobsUpTo(run', start, |run'|);
    }
  }

  /** So without wildcards and underscores it takes every file of its own run and none
      of another. */
  lemma SweepIsOwn(dir: string, digest: string -> string, run: string, key: string, run': string)
    requires HexDigits(digest(DigestText(run, key))) && '/' !in run && '/' !in run' && Plain(run')
    requires '_' !in run && '_' !in run'
    ensures Swept(dir, run', ShmPath(dir, digest, run, key)) <==> run == run'
  {
    hide Swept, HexDigits;
    SweepOfPlain(dir, digest, run, key, run');
    if run' + "_" <= run + "_" {
      assert (run + "_")[|run'|] == '_';
      assert forall i :: 0 <= i < |run| ==> (run + "_")[i] == run[i];
      assert |run'| == |run|;
      assert run' == (run' + "_")[..|run|] && run == (run + "_")[..|run|];
    }
  }

  /** With an underscore in a run identifier the sweep of one run takes another's. */
  lemma SweepTakesLongerRun(dir: string, digest: string -> string, run: string, tail: string, key: string)
    requires HexDigits(digest(DigestText(run + "_" + tail, key))) && '/' !in run && '/' !in tail && Plain(run)
    ensures Swept(dir, run, ShmPath(dir, digest, run + "_" + tail, key))
  {
    hide Swept, HexDigits;
    SweepOfPlain(dir, digest, run + "_" + tail, key, run);
    assert (run + "_" + tail + "_")[..|run| + 1] == run + "_";
  }

  /** The sweep of a run called "*" takes the files of every run. */
  lemma StarSweepsAll(dir: string, digest: string -> string, run: string, key: string)
    requires HexDigits(digest(DigestText(run, key))) && '/' !in run
    ensures Swept(dir, "*", ShmPath(dir, digest, run, key))
  {
    hide Swept, HexDigits, Globs;
    SweepIsExact(dir, digest, run, key, "*");
    StarGlobs((run + "_")[..|run|]);
    assert GlobsUpTo("*", run + "_", |run|);
  }

  /** The sweep of a run called "[ab]" leaves its own files. */
  lemma BracketsMissTheirOwn(dir: string, digest: string -> string, key: string)
    requires HexDigits(digest(DigestText("[ab]", key)))
    ensures !Swept(dir, "[ab]", ShmPath(dir, digest, "[ab]", key))
  {
    hide Swept, HexDigits, Globs;
    SweepIsExact(dir, digest, "[ab]", key, "[ab]");
    var start := "[ab]" + "_";
    assert start[0] != '_' && start[1] != '_' && start[2] != '_' && start[3] != '_' && |start| == 5;
    if i: nat :| GlobsUpTo("[ab]", start, i) {
      BracketsMatchOne(start[..i]);
    }
  }

  lemma BracketsMatchOne(name: string)
    requires Globs("[ab]", name)
    ensures |name| == 1
  {
    var p, t := "[ab]", "ab]";
    assert p[1..] == t && t[0] == 'a' && t[1] == 'b' && t[2] == ']';
    assert FindClose(t, 2) == Some(2) && FindClose(t, 1) == Some(2) && FindClose(t, 0) == Some(2);
    assert CloseAt(t) == Some(2) && First(p) == (Class("ab"), 4) by { assert t[..2] == "ab"; }
    assert p[4..] == "";
    var ts := Parse(p);
    assert ts == [Class("ab")] && ts[1..] == [];
    assert !ts[0].AnyRun? && Matches(ts, name);
    assert Matches([], name[1..]);
  }

  // ----- spill objects

  function SpillName(prefix: string, run: string, safeKey: string, uuid: string): (name: string)
    ensures '/' in name
  {
    prefix + "/" + (run + "/" + prefix + "_" + run + "_" + safeKey + "_" + uuid + ".parquet")
  }

  /** The sweep for orphaned spill files looks at the top level of the storage
      directory only.  Prefix and run hold no slash. */
  predicate SpillSwept(prefix: string, run: string, name: string) {
    '/' !in name && Globs(prefix + "_" + run + "_*.parquet", name)
  }

  lemma PlainStarPlain(head: string, tail: string, middle: string)
    requires Plain(head) && Plain(tail)
    ensures Globs(head + ("*" + tail), head + (middle + tail))
  {
    hide Matches, Parse, Literals;
    var rest := middle + tail;
    ParseConcat(head, "*" + tail);
    ParseStar(tail);
    PlainParse(head);
    PlainParse(tail);
    LiteralsMatch(head, head);
    assert rest[|rest| - |tail|..] == tail;
    RunThenLiterals(tail, rest);
    var name := head + rest;
    assert name[..|head|] == head && name[|head|..] == rest;
    MatchesSplit(Literals(head), [AnyRun] + Literals(tail), name, |head|);
  }

  lemma PlainExtension()
    ensures Plain(".parquet") && Plain("_") && '/' !in ".parquet"
  {
  }

  /** Without wildcards in prefix and run the pattern is matched by the names that start
      with both and end in the extension. */
  lemma SpillSweepOfPlain(prefix: string, run: string, middle: string)
    requires Plain(prefix) && Plain(run) && '/' !in prefix + "_" + run + "_" + middle
    ensures SpillSwept(prefix, run, prefix + "_" + run + "_" + middle + ".parquet")
  {
    var head := prefix + "_" + run + "_";
    PlainExtension();
    assert Plain(head);
    PlainStarPlain(head, ".parquet", middle);
    hide Globs, Plain;
    assert head + middle + ".parquet" == head + (middle + ".parquet");
    assert head + "*.parquet" == head + ("*" + ".parquet");
    assert prefix + "_" + run + "_*.parquet" == head + "*.parquet";
  }

  /** The file a spill name ends in is one the sweep would take if it lay there. */
  lemma SpillMissedByFolder(prefix: string, run: string, safeKey: string, uuid: string)
    requires Plain(prefix) && Plain(run) && '/' !in prefix + "_" + run + "_" + safeKey + "_" + uuid
    ensures var file := prefix + "_" + run + "_" + safeKey + "_" + uuid + ".parquet";
      SpillName(prefix, run, safeKey, uuid) == prefix + "/" + run + "/" + file && SpillSwept(prefix, run, file)
  {
    var middle := safeKey + "_" + uuid;
    assert prefix + "_" + run + "_" + middle == prefix + "_" + run + "_" + safeKey + "_" + uuid;
    SpillSweepOfPlain(prefix, run, middle);
    assert prefix + "_" + run + "_" + middle + ".parquet"
      == prefix + "_" + run + "_" + safeKey + "_" + uuid + ".parquet";
  }

  /** So no name the bus gives is ever among them. */
  lemma SpillNeverSwept(prefix: string, run: string, safeKey: string, uuid: string, run': string)
    ensures !SpillSwept(prefix, run', SpillName(prefix, run, safeKey, uuid))
  {
  }
}
