/**
 * `SyncLruCache<T>` (src/cache.rs): a bounded key/value cache with
 * least-recently-used eviction whose whole contents are written to a JSON
 * file after every `put`, and replayed from that file on construction.
 *
 * The in-memory store is the value model of `lru::LruCache` in module
 * LruModel. The file system is a ghost map from path to what the file there
 * decodes to; which step of a write fails is a parameter.
 */
module Cache {
  import opened Wrappers
  import opened LruModel

  /** One record of the snapshot file. */
  datatype CacheEntry<T> = CacheEntry(key: string, value: T)

  /** What a snapshot file's text decodes to: its records, or a decoding failure. */
  datatype Document<T> = Entries(entries: seq<CacheEntry<T>>) | Malformed

  /** The file at the cache's path as construction finds it. */
  datatype StoredFile<T> = CannotOpen | CannotRead | Readable(doc: Document<T>)

  datatype IoError = ReadFailed | DecodeFailed | OpenTempFailed | EncodeOrWriteFailed | RenameFailed

  /** The step of `sync_to_file` that fails, if any. */
  datatype SyncFault = NoFault | OpenTempFails | EncodeOrWriteFails | RenameFails

  /** The temporary sibling written before the rename: never the snapshot path itself. */
  function TempPath(path: string): (t: string)
    ensures t != path && |t| == |path| + 4 && t[..|path|] == path
  {
    path + ".tmp"
  }

  /** The records as in-memory entries, so that the LruModel vocabulary applies to them. */
  function ToEntries<T>(es: seq<CacheEntry<T>>): (r: seq<Entry<T>>)
    ensures |r| == |es|
    ensures forall i :: 0 <= i < |es| ==> r[i] == Entry(es[i].key, es[i].value)
  {
    seq(|es|, i requires 0 <= i < |es| => Entry(es[i].key, es[i].value))
  }

  /** The records `sync_to_file` writes: one per entry, in the crate's iteration order. */
  function Snapshot<T>(c: LruCache<T>): seq<CacheEntry<T>>
  {
    var it := Iter(c);
    seq(|it|, i requires 0 <= i < |it| => CacheEntry(it[i].key, it[i].value))
  }

  /** The replay loop of `new`: `put` every record, in file order, into an empty cache of capacity `cap`. */
  function Load<T>(cap: nat, es: seq<CacheEntry<T>>): LruCache<T>
  {
    if es == [] then Empty(cap)
    else Put(Load(cap, es[..|es| - 1]), es[|es| - 1].key, es[|es| - 1].value).cache
  }

  /** The value of the last record for `key`, if any. */
  function LastValue<T>(es: seq<CacheEntry<T>>, key: string): Option<T>
  {
    if es == [] then None
    else if es[|es| - 1].key == key then Some(es[|es| - 1].value)
    else LastValue(es[..|es| - 1], key)
  }

  // ---------------------------------------------------------------------------
  // The snapshot lists exactly the current entries

  lemma {:induction false} ToMapReverse<T>(s: seq<Entry<T>>, t: seq<Entry<T>>)
    requires DistinctKeys(s) && |s| == |t|
    requires forall i :: 0 <= i < |t| ==> t[i] == s[|s| - 1 - i]
    ensures DistinctKeys(t)
    ensures ToMap(t) == ToMap(s)
  {
    forall i, j | 0 <= i < j < |t| ensures t[i].key != t[j].key {
      assert t[i] == s[|s| - 1 - i] && t[j] == s[|s| - 1 - j];
    }
    ToMapKeys(s);
    ToMapKeys(t);
    forall k | k in Keys(s) ensures k in Keys(t) {
      var i :| 0 <= i < |s| && s[i].key == k;
      assert t[|s| - 1 - i] == s[i];
    }
    forall k | k in Keys(t) ensures k in Keys(s) {
      var i :| 0 <= i < |t| && t[i].key == k;
    }
    forall k | k in ToMap(t) ensures ToMap(t)[k] == ToMap(s)[k] {
      var i :| 0 <= i < |t| && t[i].key == k;
      ToMapAt(t, i);
      ToMapAt(s, |s| - 1 - i);
    }
  }

  /**
   * What `sync_to_file` writes lists every entry exactly once, most recently
   * used first, with its value unchanged, and never more than the capacity.
   */
  lemma SnapshotListsContents<T>(c: LruCache<T>)
    requires LruModel.Valid(c)
    ensures |Snapshot(c)| == |c.order| <= c.cap
    ensures forall i :: 0 <= i < |c.order| ==> ToEntries(Snapshot(c))[i] == c.order[|c.order| - 1 - i]
    ensures DistinctKeys(ToEntries(Snapshot(c)))
    ensures ToMap(ToEntries(Snapshot(c))) == ToMap(c.order)
  {
    ToMapReverse(c.order, ToEntries(Snapshot(c)));
  }

  // ---------------------------------------------------------------------------
  // Replaying a snapshot

  lemma {:induction false} LoadValid<T>(cap: nat, es: seq<CacheEntry<T>>)
    requires 0 < cap
    ensures Load(cap, es).cap == cap
    ensures LruModel.Valid(Load(cap, es))
  {
    if es != [] {
      LoadValid(cap, es[..|es| - 1]);
      PutValid(Load(cap, es[..|es| - 1]), es[|es| - 1].key, es[|es| - 1].value);
    }
  }

  /** Every key that survives the replay holds the value of its LAST record in the file. */
  lemma {:induction false} LoadLatestWins<T>(cap: nat, es: seq<CacheEntry<T>>, key: string)
    requires 0 < cap
    requires key in ToMap(Load(cap, es).order)
    ensures LastValue(es, key) == Some(ToMap(Load(cap, es).order)[key])
  {
    if es == [] {
      assert false;
    } else {
      var init, last := es[..|es| - 1], es[|es| - 1];
      var c := Load(cap, init);
      LoadValid(cap, init);
      PutContents(c, last.key, last.value);
      if key != last.key {
        LoadLatestWins(cap, init, key);
      }
    }
  }

  lemma {:induction false} DistinctKeysCard<T>(s: seq<Entry<T>>)
    requires DistinctKeys(s)
    ensures |Keys(s)| == |s|
  {
    if s != [] {
      var init, last := s[..|s| - 1], s[|s| - 1];
      DistinctInit(s);
      DistinctKeysCard(init);
      assert init + [last] == s;
      KeysSnoc(init, last);
    }
  }

  lemma KeysInit<T>(es: seq<CacheEntry<T>>)
    requires es != []
    ensures Keys(ToEntries(es)) == Keys(ToEntries(es[..|es| - 1])) + {es[|es| - 1].key}
  {
    var init := es[..|es| - 1];
    assert ToEntries(es) == ToEntries(init) + [Entry(es[|es| - 1].key, es[|es| - 1].value)];
    KeysSnoc(ToEntries(init), Entry(es[|es| - 1].key, es[|es| - 1].value));
  }

  lemma CardAddOne(s: set<string>, x: string)
    ensures |s + {x}| == if x in s then |s| else |s| + 1
  {
    if x in s {
      assert s + {x} == s;
    }
  }

  /** When the file names at most `cap` distinct keys, the replay evicts nothing: every key survives. */
  lemma {:induction false} LoadKeepsAll<T>(cap: nat, es: seq<CacheEntry<T>>)
    requires 0 < cap
    requires |Keys(ToEntries(es))| <= cap
    ensures Keys(Load(cap, es).order) == Keys(ToEntries(es))
  {
    if es != [] {
      var init, last := es[..|es| - 1], es[|es| - 1];
      KeysInit(es);
      CardAddOne(Keys(ToEntries(init)), last.key);
      LoadKeepsAll(cap, init);
      var c := Load(cap, init);
      LoadValid(cap, init);
      PutContents(c, last.key, last.value);
      ToMapKeys(c.order);
      ToMapKeys(Put(c, last.key, last.value).cache.order);
      if last.key !in Keys(c.order) {
        DistinctKeysCard(c.order);
        assert |Keys(ToEntries(init))| < |Keys(ToEntries(es))|;
      }
    }
  }

  /** Replaying records with distinct keys, no more than the capacity, lays them out in file order. */
  lemma {:induction false} LoadDistinct<T>(cap: nat, es: seq<CacheEntry<T>>)
    requires 0 < cap && |es| <= cap && DistinctKeys(ToEntries(es))
    ensures Load(cap, es).order == ToEntries(es)
  {
    if es != [] {
      var init, last := es[..|es| - 1], es[|es| - 1];
      assert ToEntries(es) == ToEntries(init) + [Entry(last.key, last.value)];
      DistinctInit(ToEntries(es));
      assert ToEntries(init) == ToEntries(es)[..|es| - 1];
      LoadDistinct(cap, init);
      LoadValid(cap, init);
      var c := Load(cap, init);
      assert IndexOf(c.order, last.key) == None;
      assert |c.order| < c.cap;
    }
  }

  /**
   * Round trip: reloading what `sync_to_file` wrote, with the same capacity,
   * gives back the same key-to-value mapping, with no extra key. The recency
   * order comes back reversed, because the file lists the most recently used
   * entry first and the replay makes the last record the most recently used.
   */
  lemma ReloadRoundTrip<T>(c: LruCache<T>)
    requires LruModel.Valid(c)
    ensures ToMap(Load(c.cap, Snapshot(c)).order) == ToMap(c.order)
    ensures |Load(c.cap, Snapshot(c)).order| == |c.order|
    ensures forall i :: 0 <= i < |c.order| ==> Load(c.cap, Snapshot(c)).order[i] == c.order[|c.order| - 1 - i]
  {
    SnapshotListsContents(c);
    LoadDistinct(c.cap, Snapshot(c));
  }

  /**
   * A write through `get_mut` that changes the value leaves memory and the
   * last written snapshot disagreeing on that key.
   */
  lemma GetMutDiverges<T>(c: LruCache<T>, key: string, edit: T -> T)
    requires LruModel.Valid(c) && Lookup(c, key).Some?
    requires edit(Lookup(c, key).value) != Lookup(c, key).value
    ensures ToMap(GetMut(c, key, edit).cache.order) != ToMap(ToEntries(Snapshot(c)))
  {
    SnapshotListsContents(c);
    GetMutWrites(c, key, edit);
  }

  /** The path-to-document view of a map of files: `None` when there is no file. */
  function FileAt<T>(disk: map<string, Document<T>>, path: string): Option<Document<T>>
  {
    if path in disk then Some(disk[path]) else None
  }

  // ---------------------------------------------------------------------------
  // The cache object

  class SyncLruCache<T> {
    /** The in-memory store (`cache: LruCache<String, T>`). */
    var cache: LruCache<T>
    const filePath: string
    /** The files this cache reads and writes, as far as it has seen them. */
    ghost var disk: map<string, Document<T>>

    ghost predicate Valid()
      reads this
    {
      LruModel.Valid(cache)
    }

    constructor (cache: LruCache<T>, filePath: string, ghost disk: map<string, Document<T>>)
      requires LruModel.Valid(cache)
      ensures Valid()
      ensures this.cache == cache && this.filePath == filePath && this.disk == disk
    {
      this.cache := cache;
      this.filePath := filePath;
      this.disk := disk;
    }

    /**
     * `SyncLruCache::new`: a file that cannot be opened gives an empty cache;
     * a read or decode failure is returned; otherwise the records are
     * replayed with `put`, in file order, without writing anything back.
     */
    static method New(size: nat, filePath: string, file: StoredFile<T>) returns (r: Result<SyncLruCache<T>, IoError>)
      requires 0 < size
      ensures file.CannotOpen? ==>
        r.Success? && fresh(r.value) && r.value.Valid() && r.value.filePath == filePath
        && r.value.cache == Empty(size) && r.value.disk == map[]
      ensures file.CannotRead? ==> r == Failure(ReadFailed)
      ensures file == Readable(Malformed) ==> r == Failure(DecodeFailed)
      ensures file.Readable? && file.doc.Entries? ==>
        r.Success? && fresh(r.value) && r.value.Valid() && r.value.filePath == filePath
        && r.value.cache == Load(size, file.doc.entries) && r.value.disk == map[filePath := file.doc]
    {
      match file
      case CannotOpen =>
        var c := new SyncLruCache(Empty(size), filePath, map[]);
        r := Success(c);
      case CannotRead =>
        r := Failure(ReadFailed);
      case Readable(Malformed) =>
        r := Failure(DecodeFailed);
      case Readable(Entries(entries)) =>
        var cache := Empty(size);
        for i := 0 to |entries|
          invariant cache == Load(size, entries[..i])
          invariant LruModel.Valid(cache)
        {
          assert entries[..i + 1][..i] == entries[..i];
          PutValid(cache, entries[i].key, entries[i].value);
          cache := LruModel.Put(cache, entries[i].key, entries[i].value).cache;
        }
        assert entries[..|entries|] == entries;
        var c := new SyncLruCache(cache, filePath, map[filePath := Entries(entries)]);
        r := Success(c);
    }

    /**
     * `put`: the in-memory store is updated first, then the whole contents
     * are written out; a failed write is returned and the update stays.
     */
    method Put(key: string, value: T, fault: SyncFault) returns (r: Result<Option<T>, IoError>)
      requires Valid()
      modifies this
      ensures Valid()
      ensures cache == LruModel.Put(old(cache), key, value).cache
      ensures fault == NoFault ==>
        r == Success(LruModel.Put(old(cache), key, value).previous)
        && disk == (old(disk) - {TempPath(filePath)})[filePath := Entries(Snapshot(cache))]
      ensures fault == OpenTempFails ==> r == Failure(OpenTempFailed) && disk == old(disk)
      ensures fault == EncodeOrWriteFails ==>
        r == Failure(EncodeOrWriteFailed) && disk == old(disk)[TempPath(filePath) := Malformed]
      ensures fault == RenameFails ==>
        r == Failure(RenameFailed) && disk == old(disk)[TempPath(filePath) := Entries(Snapshot(cache))]
    {
      var result := LruModel.Put(cache, key, value);
      PutValid(cache, key, value);
      cache := result.cache;
      var synced := SyncToFile(fault);
      if synced.Failure? {
        r := Failure(synced.error);
      } else {
        r := Success(result.previous);
      }
    }

    /** `get`: a copy of the value, promoting the key; the files are not touched. */
    method Get(key: string) returns (r: Option<T>)
      requires Valid()
      modifies this
      ensures Valid() && disk == old(disk)
      ensures cache == LruModel.Get(old(cache), key).cache
      ensures r == Lookup(old(cache), key)
    {
      var g := LruModel.Get(cache, key);
      if key in Keys(cache.order) {
        GetHit(cache, key);
      } else {
        GetMiss(cache, key);
      }
      cache := g.cache;
      r := g.value;
    }

    /**
     * `get_mut` and a write through the reference it returns, modelled by
     * `edit`: the files are not touched, so they fall behind memory.
     */
    method GetMut(key: string, edit: T -> T) returns (found: bool)
      requires Valid()
      modifies this
      ensures Valid() && disk == old(disk)
      ensures cache == LruModel.GetMut(old(cache), key, edit).cache
      ensures found == Lookup(old(cache), key).Some?
    {
      var g := LruModel.GetMut(cache, key, edit);
      GetMutWrites(cache, key, edit);
      ToMapKeys(cache.order);
      cache := g.cache;
      found := g.found;
    }

    /**
     * `sync_to_file`: open and truncate `<path>.tmp`, write the records, then
     * rename it onto the path. Until the rename succeeds the path keeps its
     * previous content.
     */
    method SyncToFile(fault: SyncFault) returns (r: Result<(), IoError>)
      requires Valid()
      modifies this`disk
      ensures fault == NoFault ==>
        r == Success(()) && disk == (old(disk) - {TempPath(filePath)})[filePath := Entries(Snapshot(cache))]
      ensures fault == OpenTempFails ==> r == Failure(OpenTempFailed) && disk == old(disk)
      ensures fault == EncodeOrWriteFails ==>
        r == Failure(EncodeOrWriteFailed) && disk == old(disk)[TempPath(filePath) := Malformed]
      ensures fault == RenameFails ==>
        r == Failure(RenameFailed) && disk == old(disk)[TempPath(filePath) := Entries(Snapshot(cache))]
    {
      var tempPath := TempPath(filePath);
      if fault == OpenTempFails {
        return Failure(OpenTempFailed);
      }
      var entries := Snapshot(cache);
      if fault == EncodeOrWriteFails {
        disk := disk[tempPath := Malformed];
        return Failure(EncodeOrWriteFailed);
      }
      disk := disk[tempPath := Entries(entries)];
      if fault == RenameFails {
        return Failure(RenameFailed);
      }
      disk := (disk - {tempPath})[filePath := Entries(entries)];
      r := Success(());
    }
  }

  /**
   * The capacity-two scenario written out in the comments at the end of
   * src/cache.rs, with every write to the file succeeding: a new cache
   * (no snapshot yet) and two puts.
   */
  method CommentedScenarioPuts() returns (cache: SyncLruCache<int>)
    ensures cache.Valid() && cache.cache == LruCache(2, [Entry("apple", 3), Entry("banana", 2)])
  {
    var made := SyncLruCache<int>.New(2, "cache.json", CannotOpen);
    cache := made.value;
    var p := cache.Put("apple", 3, NoFault);
    p := cache.Put("banana", 2, NoFault);
    assert cache.cache.order == [Entry("apple", 3), Entry("banana", 2)];
  }

  /** The same scenario, continued: the reads up to the eviction, each moving what it finds to the front. */
  method CommentedScenarioReads(cache: SyncLruCache<int>) returns (apple: Option<int>, banana: Option<int>, pear: Option<int>)
    requires cache.Valid() && cache.cache == LruCache(2, [Entry("apple", 3), Entry("banana", 2)])
    modifies cache
    ensures apple == Some(3) && banana == Some(2) && pear == None
    ensures cache.Valid() && cache.cache == LruCache(2, [Entry("apple", 3), Entry("banana", 2)])
  {
    ToMapAt(cache.cache.order, 0);
    apple := cache.Get("apple");
    assert cache.cache.order == [Entry("banana", 2), Entry("apple", 3)];
    ToMapAt(cache.cache.order, 0);
    banana := cache.Get("banana");
    assert cache.cache.order == [Entry("apple", 3), Entry("banana", 2)];
    assert IndexOf(cache.cache.order, "pear") == None;
    ToMapKeys(cache.cache.order);
    pear := cache.Get("pear");
  }

  /** The same scenario, continued: an update of "banana", then "pear" evicts "apple". */
  method CommentedScenarioEviction(cache: SyncLruCache<int>)
    returns (banana: Result<Option<int>, IoError>, pear: Result<Option<int>, IoError>)
    requires cache.Valid() && cache.cache == LruCache(2, [Entry("apple", 3), Entry("banana", 2)])
    modifies cache
    ensures banana == Success(Some(2)) && pear == Success(None)
    ensures cache.Valid() && cache.cache == LruCache(2, [Entry("banana", 4), Entry("pear", 5)])
  {
    banana := cache.Put("banana", 4, NoFault);
    assert cache.cache.order == [Entry("apple", 3), Entry("banana", 4)];
    assert IndexOf(cache.cache.order, "pear") == None;
    pear := cache.Put("pear", 5, NoFault);
  }

  /** The rest of the same scenario: reads after the eviction, then a write through `get_mut`, read back. */
  method CommentedScenarioGetMut(cache: SyncLruCache<int>)
    returns (pear: Option<int>, banana: Option<int>, apple: Option<int>, found: bool, written: Option<int>)
    requires cache.Valid() && cache.cache == LruCache(2, [Entry("banana", 4), Entry("pear", 5)])
    modifies cache
    ensures pear == Some(5) && banana == Some(4) && apple == None
    ensures found && written == Some(6)
    ensures cache.Valid() && cache.cache == LruCache(2, [Entry("pear", 5), Entry("banana", 6)])
  {
    ToMapAt(cache.cache.order, 1);
    pear := cache.Get("pear");
    ToMapAt(cache.cache.order, 0);
    banana := cache.Get("banana");
    assert cache.cache.order == [Entry("pear", 5), Entry("banana", 4)];
    assert IndexOf(cache.cache.order, "apple") == None;
    ToMapKeys(cache.cache.order);
    apple := cache.Get("apple");
    found := cache.GetMut("banana", _ => 6);
    assert cache.cache.order == [Entry("pear", 5), Entry("banana", 6)];
    ToMapAt(cache.cache.order, 1);
    written := cache.Get("banana");
  }
}
