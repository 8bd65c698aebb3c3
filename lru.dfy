/**
 * The recency semantics of `lru::LruCache<String, T>`, the in-memory store
 * behind `SyncLruCache` in src/cache.rs. The crate itself (a hash map over a
 * doubly linked list) is not part of this model; what is modelled is what the
 * cache observes of it: a bounded capacity and a total recency order.
 *
 * The entries are kept in recency order, least recently used first: `put`,
 * `get` and `get_mut` on a present key move it to the end, and `put` of a new
 * key into a full cache drops the first entry.
 */
module LruModel {
  import opened Wrappers

  /** One key/value pair held by the cache. */
  datatype Entry<T> = Entry(key: string, value: T)

  /** The capacity (a `NonZeroUsize` in the source) and the entries, least recently used first. */
  datatype LruCache<T> = LruCache(cap: nat, order: seq<Entry<T>>)

  datatype PutResult<T> = PutResult(cache: LruCache<T>, previous: Option<T>)
  datatype GetResult<T> = GetResult(cache: LruCache<T>, value: Option<T>)
  datatype GetMutResult<T> = GetMutResult(cache: LruCache<T>, found: bool)

  predicate DistinctKeys<T>(s: seq<Entry<T>>)
  {
    forall i, j :: 0 <= i < j < |s| ==> s[i].key != s[j].key
  }

  /** The invariant of the crate: positive capacity, never more entries than it, one entry per key. */
  predicate Valid<T>(c: LruCache<T>)
  {
    0 < c.cap && |c.order| <= c.cap && DistinctKeys(c.order)
  }

  function Keys<T>(s: seq<Entry<T>>): set<string>
  {
    set i | 0 <= i < |s| :: s[i].key
  }

  /** The key-to-value mapping the entries hold. */
  function ToMap<T>(s: seq<Entry<T>>): (m: map<string, T>)
  {
    if s == [] then map[]
    else ToMap(s[..|s| - 1])[s[|s| - 1].key := s[|s| - 1].value]
  }

  /** What a lookup that does not touch recency (the crate's `peek`) would see. */
  function Lookup<T>(c: LruCache<T>, key: string): Option<T>
  {
    var m := ToMap(c.order);
    if key in m then Some(m[key]) else None
  }

  /** The position of `key` in the recency order, if present. */
  function IndexOf<T>(s: seq<Entry<T>>, key: string): (r: Option<nat>)
    ensures r.Some? ==> r.value < |s| && s[r.value].key == key
    ensures r.None? <==> key !in Keys(s)
  {
    if s == [] then None
    else if s[|s| - 1].key == key then Some(|s| - 1)
    else
      KeysSnoc(s[..|s| - 1], s[|s| - 1]);
      assert s[..|s| - 1] + [s[|s| - 1]] == s;
      var r := IndexOf(s[..|s| - 1], key);
      r
  }

  function RemoveAt<T>(s: seq<Entry<T>>, i: nat): seq<Entry<T>>
    requires i < |s|
  {
    s[..i] + s[i + 1..]
  }

  /** Move the entry at `i` to the most-recently-used end, holding `value`. */
  function Promote<T>(c: LruCache<T>, i: nat, value: T): LruCache<T>
    requires i < |c.order|
  {
    LruCache(c.cap, RemoveAt(c.order, i) + [Entry(c.order[i].key, value)])
  }

  function Empty<T>(cap: nat): LruCache<T>
  {
    LruCache(cap, [])
  }

  /**
   * `LruCache::put`: an existing key takes the new value, becomes most recently
   * used and its old value is returned; a new key is appended, first evicting
   * the least recently used entry when the cache is full.
   */
  function Put<T>(c: LruCache<T>, key: string, value: T): PutResult<T>
  {
    match IndexOf(c.order, key)
    case Some(i) => PutResult(Promote(c, i, value), Some(c.order[i].value))
    case None =>
      if c.cap <= |c.order| && c.order != [] then
        PutResult(LruCache(c.cap, c.order[1..] + [Entry(key, value)]), None)
      else
        PutResult(LruCache(c.cap, c.order + [Entry(key, value)]), None)
  }

  /** `LruCache::get`: a hit returns the value and promotes the key; a miss changes nothing. */
  function Get<T>(c: LruCache<T>, key: string): GetResult<T>
  {
    match IndexOf(c.order, key)
    case Some(i) => GetResult(Promote(c, i, c.order[i].value), Some(c.order[i].value))
    case None => GetResult(c, None)
  }

  /**
   * `LruCache::get_mut` followed by the caller's write through the returned
   * reference, modelled by `edit`: a hit promotes the key and stores
   * `edit(old value)`; a miss changes nothing.
   */
  function GetMut<T>(c: LruCache<T>, key: string, edit: T -> T): GetMutResult<T>
  {
    match IndexOf(c.order, key)
    case Some(i) => GetMutResult(Promote(c, i, edit(c.order[i].value)), true)
    case None => GetMutResult(c, false)
  }

  /** `LruCache::iter`: the entries, most recently used first. */
  function Iter<T>(c: LruCache<T>): (r: seq<Entry<T>>)
    ensures |r| == |c.order|
    ensures forall i :: 0 <= i < |r| ==> r[i] == c.order[|c.order| - 1 - i]
    decreases |c.order|
  {
    if c.order == [] then []
    else [c.order[|c.order| - 1]] + Iter(LruCache(c.cap, c.order[..|c.order| - 1]))
  }

  // ---------------------------------------------------------------------------
  // Facts about keys and the key-to-value mapping

  lemma KeysSnoc<T>(s: seq<Entry<T>>, e: Entry<T>)
    ensures Keys(s + [e]) == Keys(s) + {e.key}
  {
    var t := s + [e];
    forall k | k in Keys(t) ensures k in Keys(s) + {e.key} {
      var i :| 0 <= i < |t| && t[i].key == k;
      if i < |s| { assert s[i] == t[i]; }
    }
    forall k | k in Keys(s) + {e.key} ensures k in Keys(t) {
      if k == e.key {
        assert t[|s|] == e;
      } else {
        var i :| 0 <= i < |s| && s[i].key == k;
        assert t[i] == s[i];
      }
    }
  }

  lemma DistinctSnoc<T>(s: seq<Entry<T>>, e: Entry<T>)
    requires DistinctKeys(s) && e.key !in Keys(s)
    ensures DistinctKeys(s + [e])
  {
    var t := s + [e];
    forall i, j | 0 <= i < j < |t| ensures t[i].key != t[j].key {
      if j == |s| {
        assert t[i] == s[i];
      } else {
        assert t[i] == s[i] && t[j] == s[j];
      }
    }
  }

  lemma RemoveAtFacts<T>(s: seq<Entry<T>>, i: nat)
    requires DistinctKeys(s) && i < |s|
    ensures DistinctKeys(RemoveAt(s, i))
    ensures Keys(RemoveAt(s, i)) == Keys(s) - {s[i].key}
    ensures |RemoveAt(s, i)| == |s| - 1
  {
    var r := RemoveAt(s, i);
    assert forall p :: 0 <= p < |r| ==> r[p] == (if p < i then s[p] else s[p + 1]);
    forall k | k in Keys(r) ensures k in Keys(s) - {s[i].key} {
      var p :| 0 <= p < |r| && r[p].key == k;
    }
    forall k | k in Keys(s) - {s[i].key} ensures k in Keys(r) {
      var p :| 0 <= p < |s| && s[p].key == k;
      if p < i { assert r[p] == s[p]; } else { assert r[p - 1] == s[p]; }
    }
  }

  /** In a sequence with one entry per key, the mapping sends each key to its entry's value. */
  lemma {:induction false} ToMapAt<T>(s: seq<Entry<T>>, i: nat)
    requires DistinctKeys(s) && i < |s|
    ensures s[i].key in ToMap(s) && ToMap(s)[s[i].key] == s[i].value
  {
    ToMapKeys(s);
    if i < |s| - 1 {
      ToMapAt(s[..|s| - 1], i);
    }
  }

  lemma ToMapSnoc<T>(s: seq<Entry<T>>, e: Entry<T>)
    ensures ToMap(s + [e]) == ToMap(s)[e.key := e.value]
  {
    assert (s + [e])[..|s|] == s;
  }

  /** The mapping holds exactly the keys of the entries. */
  lemma {:induction false} ToMapKeys<T>(s: seq<Entry<T>>)
    ensures ToMap(s).Keys == Keys(s)
  {
    if s != [] {
      var init, last := s[..|s| - 1], s[|s| - 1];
      assert init + [last] == s;
      ToMapKeys(init);
      KeysSnoc(init, last);
    }
  }

  lemma DistinctInit<T>(s: seq<Entry<T>>)
    requires DistinctKeys(s) && s != []
    ensures DistinctKeys(s[..|s| - 1])
    ensures s[|s| - 1].key !in Keys(s[..|s| - 1])
  {
    var init := s[..|s| - 1];
    forall p | 0 <= p < |init| ensures init[p].key != s[|s| - 1].key {
      assert init[p] == s[p];
    }
  }

  lemma ToMapRemoveLast<T>(s: seq<Entry<T>>)
    requires DistinctKeys(s) && s != []
    ensures ToMap(s[..|s| - 1]) == ToMap(s) - {s[|s| - 1].key}
  {
    var init, last := s[..|s| - 1], s[|s| - 1];
    assert init + [last] == s;
    ToMapSnoc(init, last);
    DistinctInit(s);
    ToMapKeys(init);
    var m := ToMap(init);
    assert last.key !in m;
    calc {
      ToMap(s) - {last.key};
      m[last.key := last.value] - {last.key};
      m;
    }
  }

  lemma RemoveAtSnoc<T>(s: seq<Entry<T>>, i: nat)
    requires i < |s| - 1
    ensures RemoveAt(s, i) == RemoveAt(s[..|s| - 1], i) + [s[|s| - 1]]
  {
  }

  lemma {:induction false} ToMapRemoveAt<T>(s: seq<Entry<T>>, i: nat)
    requires DistinctKeys(s) && i < |s|
    ensures ToMap(RemoveAt(s, i)) == ToMap(s) - {s[i].key}
  {
    if i == |s| - 1 {
      assert RemoveAt(s, i) == s[..|s| - 1];
      ToMapRemoveLast(s);
    } else {
      var init, last := s[..|s| - 1], s[|s| - 1];
      var k := s[i].key;
      assert k != last.key;
      DistinctInit(s);
      RemoveAtSnoc(s, i);
      ToMapSnoc(RemoveAt(init, i), last);
      ToMapRemoveAt(init, i);
      assert init[i] == s[i];
      assert init + [last] == s;
      ToMapSnoc(init, last);
      calc {
        ToMap(RemoveAt(s, i));
        ToMap(RemoveAt(init, i))[last.key := last.value];
        (ToMap(init) - {k})[last.key := last.value];
        ToMap(init)[last.key := last.value] - {k};
        ToMap(s) - {k};
      }
    }
  }

  // ---------------------------------------------------------------------------
  // The operations keep the invariant and do what the crate promises

  lemma PromoteFacts<T>(c: LruCache<T>, i: nat, value: T)
    requires Valid(c) && i < |c.order|
    ensures Valid(Promote(c, i, value))
    ensures ToMap(Promote(c, i, value).order) == ToMap(c.order)[c.order[i].key := value]
    ensures Keys(Promote(c, i, value).order) == Keys(c.order)
  {
    var k := c.order[i].key;
    var rest := RemoveAt(c.order, i);
    RemoveAtFacts(c.order, i);
    DistinctSnoc(rest, Entry(k, value));
    KeysSnoc(rest, Entry(k, value));
    ToMapRemoveAt(c.order, i);
    assert (rest + [Entry(k, value)])[..|rest|] == rest;
  }

  /** `put` keeps the capacity bound and the one-entry-per-key rule. */
  lemma PutValid<T>(c: LruCache<T>, key: string, value: T)
    requires Valid(c)
    ensures Valid(Put(c, key, value).cache)
    ensures |Put(c, key, value).cache.order| <= c.cap
  {
    match IndexOf(c.order, key)
    case Some(i) => PromoteFacts(c, i, value);
    case None =>
      if c.cap <= |c.order| && c.order != [] {
        RemoveAtFacts(c.order, 0);
        assert RemoveAt(c.order, 0) == c.order[1..];
        DistinctSnoc(c.order[1..], Entry(key, value));
      } else {
        DistinctSnoc(c.order, Entry(key, value));
      }
  }

  /** `put` returns the key's previous value when it was present, `None` otherwise. */
  lemma PutPrevious<T>(c: LruCache<T>, key: string, value: T)
    requires Valid(c)
    ensures Put(c, key, value).previous == Lookup(c, key)
  {
    ToMapKeys(c.order);
    match IndexOf(c.order, key)
    case Some(i) => ToMapAt(c.order, i);
    case None =>
  }

  /**
   * After `put` the key maps to the new value and is most recently used; the
   * other keys keep their values, except that a new key arriving in a full
   * cache drops the least recently used entry.
   */
  lemma PutContents<T>(c: LruCache<T>, key: string, value: T)
    requires Valid(c)
    ensures var r := Put(c, key, value).cache;
      && r.cap == c.cap
      && r.order[|r.order| - 1] == Entry(key, value)
      && ToMap(r.order) ==
         (if key in Keys(c.order) || |c.order| < c.cap then ToMap(c.order)
          else ToMap(c.order) - {c.order[0].key})[key := value]
  {
    match IndexOf(c.order, key)
    case Some(i) => PromoteFacts(c, i, value);
    case None =>
      var e := Entry(key, value);
      if c.cap <= |c.order| && c.order != [] {
        ToMapRemoveAt(c.order, 0);
        assert RemoveAt(c.order, 0) == c.order[1..];
        assert (c.order[1..] + [e])[..|c.order| - 1] == c.order[1..];
      } else {
        assert (c.order + [e])[..|c.order|] == c.order;
      }
  }

  /** A new key arriving in a full cache evicts exactly one entry, the least recently used one. */
  lemma PutEvictsOne<T>(c: LruCache<T>, key: string, value: T)
    requires Valid(c) && key !in Keys(c.order) && |c.order| == c.cap
    ensures var r := Put(c, key, value).cache;
      && |r.order| == c.cap
      && c.order[0].key != key
      && Keys(r.order) == Keys(c.order) - {c.order[0].key} + {key}
  {
    var e := Entry(key, value);
    RemoveAtFacts(c.order, 0);
    assert RemoveAt(c.order, 0) == c.order[1..];
    KeysSnoc(c.order[1..], e);
  }

  /** A `get` hit returns the stored value, promotes the key and leaves the mapping as it was. */
  lemma GetHit<T>(c: LruCache<T>, key: string)
    requires Valid(c) && key in Keys(c.order)
    ensures var g := Get(c, key);
      && g.value == Lookup(c, key) && g.value.Some?
      && Valid(g.cache)
      && ToMap(g.cache.order) == ToMap(c.order)
      && g.cache.order[|g.cache.order| - 1].key == key
  {
    ToMapKeys(c.order);
    var i := IndexOf(c.order, key).value;
    PromoteFacts(c, i, c.order[i].value);
    ToMapAt(c.order, i);
  }

  /** A `get` miss returns `None` and changes nothing. */
  lemma GetMiss<T>(c: LruCache<T>, key: string)
    requires key !in Keys(c.order)
    ensures Get(c, key) == GetResult(c, None)
    ensures Lookup(c, key) == None
  {
    ToMapKeys(c.order);
  }

  /** A write through `get_mut` stores the edited value under the key and promotes it. */
  lemma GetMutWrites<T>(c: LruCache<T>, key: string, edit: T -> T)
    requires Valid(c)
    ensures var g := GetMut(c, key, edit);
      && Valid(g.cache)
      && g.found == (key in Keys(c.order))
      && ToMap(g.cache.order) ==
         match Lookup(c, key)
         case Some(v) => ToMap(c.order)[key := edit(v)]
         case None => ToMap(c.order)
  {
    ToMapKeys(c.order);
    match IndexOf(c.order, key)
    case Some(i) =>
      PromoteFacts(c, i, edit(c.order[i].value));
      ToMapAt(c.order, i);
    case None =>
  }

  // ---------------------------------------------------------------------------
  // An independent account of recency: the history of accesses

  /** One call that touches the store. */
  datatype Access<!T> =
    | PutAccess(key: string, value: T)
    | GetAccess(key: string)
    | GetMutAccess(key: string, edit: T -> T)

  function Apply<T>(c: LruCache<T>, a: Access<T>): LruCache<T>
  {
    match a
    case PutAccess(k, v) => Put(c, k, v).cache
    case GetAccess(k) => Get(c, k).cache
    case GetMutAccess(k, edit) => GetMut(c, k, edit).cache
  }

  /** The store an empty cache of capacity `cap` reaches through the accesses `h`. */
  function Replay<T>(cap: nat, h: seq<Access<T>>): LruCache<T>
  {
    if h == [] then Empty(cap) else Apply(Replay(cap, h[..|h| - 1]), h[|h| - 1])
  }

  /** The position in `h` of the last access that names `key`, or -1. */
  function LastTouch<T>(h: seq<Access<T>>, key: string): (t: int)
    ensures -1 <= t < |h|
    ensures 0 <= t ==> h[t].key == key
    ensures forall j :: t < j < |h| ==> h[j].key != key
  {
    if h == [] then -1
    else if h[|h| - 1].key == key then |h| - 1
    else LastTouch(h[..|h| - 1], key)
  }

  /** Every entry has been touched, and entries are ordered by when they were last touched. */
  ghost predicate RecencyMatches<T>(order: seq<Entry<T>>, h: seq<Access<T>>)
  {
    && (forall i :: 0 <= i < |order| ==> 0 <= LastTouch(h, order[i].key))
    && (forall i, j :: 0 <= i < j < |order| ==> LastTouch(h, order[i].key) < LastTouch(h, order[j].key))
  }

  lemma RecencyRemoveAt<T>(s: seq<Entry<T>>, i: nat, h: seq<Access<T>>)
    requires RecencyMatches(s, h) && i < |s|
    ensures RecencyMatches(RemoveAt(s, i), h)
  {
    var r := RemoveAt(s, i);
    forall p | 0 <= p < |r| ensures r[p] == s[Skip(p, i)] {
    }
    forall p, q | 0 <= p < q < |r| ensures LastTouch(h, r[p].key) < LastTouch(h, r[q].key) {
      assert r[p] == s[Skip(p, i)] && r[q] == s[Skip(q, i)];
    }
  }

  /** Where position `p` of `RemoveAt(s, i)` came from in `s`. */
  function Skip(p: nat, i: nat): nat
  {
    if p < i then p else p + 1
  }

  lemma RecencySnoc<T>(s: seq<Entry<T>>, e: Entry<T>, h: seq<Access<T>>, a: Access<T>)
    requires RecencyMatches(s, h) && e.key == a.key && a.key !in Keys(s)
    ensures RecencyMatches(s + [e], h + [a])
  {
    var h' := h + [a];
    assert h'[..|h|] == h;
    forall i | 0 <= i < |s| ensures LastTouch(h', s[i].key) == LastTouch(h, s[i].key) {
      assert s[i].key in Keys(s);
    }
    assert LastTouch(h', e.key) == |h|;
    var t := s + [e];
    forall i, j | 0 <= i < j < |t| ensures LastTouch(h', t[i].key) < LastTouch(h', t[j].key) {
      assert t[i] == s[i];
      if j < |s| { assert t[j] == s[j]; }
    }
  }

  lemma {:induction false} RecencyApply<T>(c: LruCache<T>, h: seq<Access<T>>, a: Access<T>)
    requires Valid(c) && RecencyMatches(c.order, h)
    ensures Apply(c, a).cap == c.cap
    ensures Valid(Apply(c, a)) && RecencyMatches(Apply(c, a).order, h + [a])
  {
    var h' := h + [a];
    assert h'[..|h|] == h;
    match IndexOf(c.order, a.key)
    case Some(i) =>
      var v := match a
        case PutAccess(_, v) => v
        case GetAccess(_) => c.order[i].value
        case GetMutAccess(_, edit) => edit(c.order[i].value);
      assert Apply(c, a) == Promote(c, i, v);
      PromoteFacts(c, i, v);
      RemoveAtFacts(c.order, i);
      RecencyRemoveAt(c.order, i, h);
      RecencySnoc(RemoveAt(c.order, i), Entry(a.key, v), h, a);
    case None =>
      if a.PutAccess? {
        PutValid(c, a.key, a.value);
        if c.cap <= |c.order| && c.order != [] {
          RemoveAtFacts(c.order, 0);
          assert RemoveAt(c.order, 0) == c.order[1..];
          RecencyRemoveAt(c.order, 0, h);
          RecencySnoc(c.order[1..], Entry(a.key, a.value), h, a);
        } else {
          RecencySnoc(c.order, Entry(a.key, a.value), h, a);
        }
      } else {
        assert Apply(c, a) == c;
        forall i | 0 <= i < |c.order| ensures LastTouch(h', c.order[i].key) == LastTouch(h, c.order[i].key) {
          assert c.order[i].key in Keys(c.order);
        }
      }
  }

  /** Replaying any history keeps the invariant, and the recency order is the order of last touches. */
  lemma {:induction false} ReplayRecency<T>(cap: nat, h: seq<Access<T>>)
    requires 0 < cap
    ensures Replay(cap, h).cap == cap
    ensures Valid(Replay(cap, h))
    ensures RecencyMatches(Replay(cap, h).order, h)
  {
    if h != [] {
      var init := h[..|h| - 1];
      ReplayRecency(cap, init);
      assert init + [h[|h| - 1]] == h;
      RecencyApply(Replay(cap, init), init, h[|h| - 1]);
    }
  }

  /**
   * Inserting a new key into a full cache evicts exactly one entry: the one
   * whose last `get`, `get_mut` or `put` lies furthest in the past.
   */
  lemma EvictsLeastRecentlyTouched<T>(cap: nat, h: seq<Access<T>>, key: string, value: T)
    requires 0 < cap
    requires key !in Keys(Replay(cap, h).order) && |Replay(cap, h).order| == cap
    ensures var c := Replay(cap, h);
      var victim := c.order[0].key;
      && Keys(Put(c, key, value).cache.order) == Keys(c.order) - {victim} + {key}
      && forall k :: k in Keys(c.order) && k != victim ==> LastTouch(h, victim) < LastTouch(h, k)
  {
    var c := Replay(cap, h);
    ReplayRecency(cap, h);
    PutEvictsOne(c, key, value);
    forall k | k in Keys(c.order) && k != c.order[0].key
      ensures LastTouch(h, c.order[0].key) < LastTouch(h, k)
    {
      var j :| 0 <= j < |c.order| && c.order[j].key == k;
    }
  }
}
