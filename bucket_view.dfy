/**
 * The computations behind the bucket-list page (src/pages/bucket_list.rs)
 * that do not depend on its mutable state: the substring filter over bucket
 * names, the three orders `sort_view_indices` sorts by, the stable sort
 * itself, and the window of rows `build_list_items` hands to the list widget.
 *
 * A view is a sequence of indices into the bucket items.
 */
module BucketView {

  /** A bucket as the page uses it (`BucketItem`): only its name matters here. */
  datatype BucketItem = BucketItem(name: string)

  /** `BucketListSortType`: the three orders the sort dialog offers. */
  datatype SortType = Default | NameAsc | NameDesc

  // ---------------------------------------------------------------------------
  // The order on names: Rust's `Ord` for `String`, lexicographic by character

  predicate LexLe(a: string, b: string)
  {
    if a == [] then true
    else if b == [] then false
    else if a[0] != b[0] then a[0] < b[0]
    else LexLe(a[1..], b[1..])
  }

  lemma {:induction false} LexLeTotal(a: string, b: string)
    ensures LexLe(a, b) || LexLe(b, a)
  {
    if a != [] && b != [] && a[0] == b[0] {
      LexLeTotal(a[1..], b[1..]);
    }
  }

  lemma {:induction false} LexLeTransitive(a: string, b: string, c: string)
    requires LexLe(a, b) && LexLe(b, c)
    ensures LexLe(a, c)
  {
    if a != [] && b != [] && c != [] && a[0] == b[0] && b[0] == c[0] {
      LexLeTransitive(a[1..], b[1..], c[1..]);
    }
  }

  lemma {:induction false} LexLeAntisymmetric(a: string, b: string)
    requires LexLe(a, b) && LexLe(b, a)
    ensures a == b
  {
    if a != [] && b != [] {
      LexLeAntisymmetric(a[1..], b[1..]);
      assert a == [a[0]] + a[1..] && b == [b[0]] + b[1..];
    }
  }

  // ---------------------------------------------------------------------------
  // The filter: `str::contains`

  /** `name.contains(pattern)`, searched from the front. */
  predicate Contains(name: string, pattern: string)
  {
    pattern <= name || (name != [] && Contains(name[1..], pattern))
  }

  /** `pattern` occurs in `name` starting at position `i`. */
  predicate OccursAt(name: string, pattern: string, i: int)
  {
    0 <= i && i + |pattern| <= |name| && name[i..i + |pattern|] == pattern
  }

  /** `Contains` holds exactly when the pattern occurs at some position of the name. */
  lemma {:induction false} ContainsAt(name: string, pattern: string)
    ensures Contains(name, pattern) <==> exists i :: OccursAt(name, pattern, i)
  {
    if pattern <= name {
      assert OccursAt(name, pattern, 0);
    } else if name == [] {
      assert forall i :: !OccursAt(name, pattern, i);
    } else {
      ContainsAt(name[1..], pattern);
      if exists i :: OccursAt(name, pattern, i) {
        var i :| OccursAt(name, pattern, i);
        assert i != 0;
        OccursAtShift(name, pattern, i);
      }
      if exists i :: OccursAt(name[1..], pattern, i) {
        var i :| OccursAt(name[1..], pattern, i);
        OccursAtShift(name, pattern, i + 1);
      }
    }
  }

  lemma OccursAtShift(name: string, pattern: string, i: int)
    requires name != [] && 0 < i
    ensures OccursAt(name, pattern, i) <==> OccursAt(name[1..], pattern, i - 1)
  {
    if i + |pattern| <= |name| {
      assert name[i..i + |pattern|] == name[1..][i - 1..i - 1 + |pattern|];
    }
  }

  lemma {:induction false} ContainsEmpty(name: string)
    ensures Contains(name, [])
  {
  }

  /** A name shorter than the pattern cannot contain it. */
  lemma {:induction false} ContainsTooShort(name: string, pattern: string)
    requires |name| < |pattern|
    ensures !Contains(name, pattern)
  {
    if name != [] {
      ContainsTooShort(name[1..], pattern);
    }
  }

  /** No match starts before the first occurrence of the pattern's first character. */
  lemma {:induction false} ContainsSkip(name: string, pattern: string, k: nat)
    requires pattern != [] && k <= |name| && pattern[0] !in name[..k]
    ensures Contains(name, pattern) <==> Contains(name[k..], pattern)
  {
    if k > 0 {
      assert name[0] in name[..k];
      assert name[1..][..k - 1] == name[1..k];
      assert forall x :: x in name[1..k] ==> x in name[..k];
      assert name[1..][k - 1..] == name[k..];
      ContainsSkip(name[1..], pattern, k - 1);
    }
  }

  /** A name without the pattern's first character does not contain the pattern. */
  lemma Lacks(name: string, pattern: string)
    requires pattern != [] && pattern[0] !in name
    ensures !Contains(name, pattern)
  {
    assert name[..|name|] == name && name[|name|..] == [];
    ContainsSkip(name, pattern, |name|);
  }

  predicate InRange(items: seq<BucketItem>, view: seq<nat>)
  {
    forall i :: 0 <= i < |view| ==> view[i] < |items|
  }

  predicate StrictlyIncreasing(s: seq<nat>)
  {
    forall i, j :: 0 <= i < j < |s| ==> s[i] < s[j]
  }

  /** `(0..n).collect()`. */
  function Range(n: nat): (r: seq<nat>)
    ensures |r| == n && forall i :: 0 <= i < n ==> r[i] == i
  {
    seq(n, i requires 0 <= i < n => i)
  }

  /**
   * The computation in `filter_view_indices`: the indices of the items whose
   * name contains `filter`, in item order.
   */
  function FilterIndices(items: seq<BucketItem>, filter: string): (r: seq<nat>)
    ensures InRange(items, r) && StrictlyIncreasing(r)
  {
    if items == [] then []
    else
      var init := FilterIndices(items[..|items| - 1], filter);
      if Contains(items[|items| - 1].name, filter) then init + [|items| - 1] else init
  }

  /** `FilterIndices` holds an index exactly when that item's name contains the filter. */
  lemma {:induction false} FilterIndicesMatch(items: seq<BucketItem>, filter: string)
    ensures forall i :: 0 <= i < |items| ==> (i in FilterIndices(items, filter) <==> Contains(items[i].name, filter))
  {
    if items != [] {
      var init := items[..|items| - 1];
      FilterIndicesMatch(init, filter);
      assert forall i :: 0 <= i < |init| ==> init[i] == items[i];
      assert forall i :: i in FilterIndices(init, filter) ==> i < |init|;
    }
  }

  /**
   * `FilterIndices` is the one ascending enumeration of the matching indices:
   * any strictly increasing sequence holding exactly the matches is it.
   */
  lemma FilterIndicesUnique(items: seq<BucketItem>, filter: string, r: seq<nat>)
    requires StrictlyIncreasing(r) && InRange(items, r)
    requires forall i :: 0 <= i < |items| ==> (i in r <==> Contains(items[i].name, filter))
    ensures r == FilterIndices(items, filter)
  {
    FilterIndicesMatch(items, filter);
    IncreasingSameElements(r, FilterIndices(items, filter));
  }

  /** Two strictly increasing sequences with the same elements are equal. */
  lemma {:induction false} IncreasingSameElements(a: seq<nat>, b: seq<nat>)
    requires StrictlyIncreasing(a) && StrictlyIncreasing(b)
    requires forall x :: x in a <==> x in b
    ensures a == b
  {
    SameElementsEmpty(a, b);
    if a != [] {
      SameElementsHeads(a, b);
      SameElementsTails(a, b);
      IncreasingSameElements(a[1..], b[1..]);
      assert a == [a[0]] + a[1..] && b == [b[0]] + b[1..];
    }
  }

  lemma SameElementsEmpty(a: seq<nat>, b: seq<nat>)
    requires forall x :: x in a <==> x in b
    ensures a == [] <==> b == []
  {
    if a != [] {
      assert a[0] in b;
    }
    if b != [] {
      assert b[0] in a;
    }
  }

  /** The least element comes first in both. */
  lemma SameElementsHeads(a: seq<nat>, b: seq<nat>)
    requires StrictlyIncreasing(a) && StrictlyIncreasing(b)
    requires forall x :: x in a <==> x in b
    requires a != [] && b != []
    ensures a[0] == b[0]
  {
    assert a[0] in b && b[0] in a;
    var p :| 0 <= p < |b| && b[p] == a[0];
    var q :| 0 <= q < |a| && a[q] == b[0];
    assert a[0] <= a[q] && b[0] <= b[p];
  }

  lemma SameElementsTails(a: seq<nat>, b: seq<nat>)
    requires StrictlyIncreasing(a) && StrictlyIncreasing(b)
    requires forall x :: x in a <==> x in b
    requires a != [] && b != [] && a[0] == b[0]
    ensures StrictlyIncreasing(a[1..]) && StrictlyIncreasing(b[1..])
    ensures forall x :: x in a[1..] <==> x in b[1..]
  {
    forall x ensures x in a[1..] <==> x in b[1..] {
      assert x in a[1..] <==> x in a && x != a[0];
      assert x in b[1..] <==> x in b && x != b[0];
    }
  }

  /** An empty filter keeps every index, in order. */
  lemma {:induction false} FilterEmptyKeepsAll(items: seq<BucketItem>)
    ensures FilterIndices(items, []) == Range(|items|)
  {
    if items != [] {
      FilterEmptyKeepsAll(items[..|items| - 1]);
      ContainsEmpty(items[|items| - 1].name);
    }
  }

  // ---------------------------------------------------------------------------
  // The three orders and the stable sort of `sort_view_indices`

  /**
   * The comparator each sort type uses, as "a may stay before b":
   * `sort()` on the indices, or `sort_by` on the names, ascending or descending.
   */
  predicate InOrder(items: seq<BucketItem>, t: SortType, a: nat, b: nat)
    requires a < |items| && b < |items|
  {
    match t
    case Default => a <= b
    case NameAsc => LexLe(items[a].name, items[b].name)
    case NameDesc => LexLe(items[b].name, items[a].name)
  }

  /** The comparator ranks `a` and `b` equal. */
  predicate Tied(items: seq<BucketItem>, t: SortType, a: nat, b: nat)
    requires a < |items| && b < |items|
  {
    InOrder(items, t, a, b) && InOrder(items, t, b, a)
  }

  lemma InOrderTotal(items: seq<BucketItem>, t: SortType, a: nat, b: nat)
    requires a < |items| && b < |items|
    ensures InOrder(items, t, a, b) || InOrder(items, t, b, a)
  {
    if t != Default {
      LexLeTotal(items[a].name, items[b].name);
    }
  }

  lemma InOrderTransitive(items: seq<BucketItem>, t: SortType, a: nat, b: nat, c: nat)
    requires a < |items| && b < |items| && c < |items|
    requires InOrder(items, t, a, b) && InOrder(items, t, b, c)
    ensures InOrder(items, t, a, c)
  {
    match t
    case Default =>
    case NameAsc => LexLeTransitive(items[a].name, items[b].name, items[c].name);
    case NameDesc => LexLeTransitive(items[c].name, items[b].name, items[a].name);
  }

  /** Ties are exactly: the same index for `Default`, the same name for the name orders. */
  lemma TiedMeans(items: seq<BucketItem>, t: SortType, a: nat, b: nat)
    requires a < |items| && b < |items|
    ensures Tied(items, t, a, b) <==> if t == Default then a == b else items[a].name == items[b].name
  {
    if t != Default {
      LexLeTotal(items[a].name, items[a].name);
      if Tied(items, t, a, b) {
        LexLeAntisymmetric(items[a].name, items[b].name);
      }
    }
  }

  ghost predicate SortedBy(items: seq<BucketItem>, t: SortType, s: seq<nat>)
    requires InRange(items, s)
  {
    forall i, j :: 0 <= i < j < |s| ==> InOrder(items, t, s[i], s[j])
  }

  /** Insert `x` after every element that may stay before it: the step of a stable insertion sort. */
  function Insert(items: seq<BucketItem>, t: SortType, x: nat, s: seq<nat>): (r: seq<nat>)
    requires x < |items| && InRange(items, s)
    ensures InRange(items, r) && |r| == |s| + 1
  {
    if s == [] then [x]
    else if InOrder(items, t, s[0], x) then
      [s[0]] + Insert(items, t, x, s[1..])
    else [x] + s
  }

  /** `Insert` adds `x` and loses nothing. */
  lemma {:induction false} InsertPermutes(items: seq<BucketItem>, t: SortType, x: nat, s: seq<nat>)
    requires x < |items| && InRange(items, s)
    ensures multiset(Insert(items, t, x, s)) == multiset(s) + multiset{x}
  {
    if s != [] {
      assert s == [s[0]] + s[1..];
      if InOrder(items, t, s[0], x) {
        InsertPermutes(items, t, x, s[1..]);
      }
    }
  }

  /**
   * Where `Insert` puts `x`: after the elements of `pre`, which may all stay
   * before it, and in front of `post`, whose head may not.
   */
  lemma {:induction false} InsertAfter(items: seq<BucketItem>, t: SortType, x: nat, pre: seq<nat>, post: seq<nat>)
    requires x < |items| && InRange(items, pre) && InRange(items, post)
    requires forall i :: 0 <= i < |pre| ==> InOrder(items, t, pre[i], x)
    requires post != [] ==> !InOrder(items, t, post[0], x)
    ensures InRange(items, pre + post)
    ensures Insert(items, t, x, pre + post) == pre + [x] + post
  {
    if pre == [] {
      assert pre + post == post && pre + [x] + post == [x] + post;
    } else {
      var rest := pre[1..];
      forall i | 0 <= i < |rest| ensures InOrder(items, t, rest[i], x) {
        assert rest[i] == pre[i + 1];
      }
      InsertAfter(items, t, x, rest, post);
      ConsAppend(pre, post, x);
      assert Insert(items, t, x, pre + post) == [pre[0]] + Insert(items, t, x, rest + post);
    }
  }

  lemma ConsAppend(pre: seq<nat>, post: seq<nat>, x: nat)
    requires pre != []
    ensures (pre + post)[0] == pre[0] && (pre + post)[1..] == pre[1..] + post
    ensures pre + [x] + post == [pre[0]] + (pre[1..] + [x] + post)
  {
    assert pre == [pre[0]] + pre[1..];
  }

  /**
   * `sort_view_indices`: Rust's `sort` and `sort_by` are stable sorts, modelled
   * here by insertion sort; the lemmas below show the result is a sorted
   * permutation that keeps tied indices in their previous order.
   */
  function SortIndices(items: seq<BucketItem>, t: SortType, s: seq<nat>): (r: seq<nat>)
    requires InRange(items, s)
    ensures InRange(items, r) && |r| == |s|
  {
    if s == [] then []
    else Insert(items, t, s[|s| - 1], SortIndices(items, t, s[..|s| - 1]))
  }

  /** The sort is a permutation of the view. */
  lemma {:induction false} SortPermutes(items: seq<BucketItem>, t: SortType, s: seq<nat>)
    requires InRange(items, s)
    ensures multiset(SortIndices(items, t, s)) == multiset(s)
  {
    if s != [] {
      var init := s[..|s| - 1];
      SortPermutes(items, t, init);
      InsertPermutes(items, t, s[|s| - 1], SortIndices(items, t, init));
      assert s == init + [s[|s| - 1]];
    }
  }

  /** Sorting a sequence with one more index inserts that index into the sorted rest. */
  lemma SortSnoc(items: seq<BucketItem>, t: SortType, s: seq<nat>, x: nat)
    requires InRange(items, s) && x < |items|
    ensures InRange(items, s + [x])
    ensures SortIndices(items, t, s + [x]) == Insert(items, t, x, SortIndices(items, t, s))
  {
    assert (s + [x])[..|s|] == s;
  }

  lemma SortedTail(items: seq<BucketItem>, t: SortType, s: seq<nat>)
    requires InRange(items, s) && SortedBy(items, t, s) && s != []
    ensures InRange(items, s[1..]) && SortedBy(items, t, s[1..])
  {
    forall i, j | 0 <= i < j < |s[1..]| ensures InOrder(items, t, s[1..][i], s[1..][j]) {
      assert s[1..][i] == s[i + 1] && s[1..][j] == s[j + 1];
    }
  }

  lemma {:induction false} InsertSorted(items: seq<BucketItem>, t: SortType, x: nat, s: seq<nat>)
    requires x < |items| && InRange(items, s) && SortedBy(items, t, s)
    ensures SortedBy(items, t, Insert(items, t, x, s))
    decreases |s|, 1
  {
    if s != [] {
      if InOrder(items, t, s[0], x) {
        InsertSortedPast(items, t, x, s);
      } else {
        InOrderTotal(items, t, s[0], x);
        forall q | 0 <= q < |s| ensures InOrder(items, t, x, s[q]) {
          if q > 0 {
            InOrderTransitive(items, t, x, s[0], s[q]);
          }
        }
      }
    }
  }

  /** The case of `InsertSorted` where `x` moves past the head of `s`. */
  lemma {:induction false} InsertSortedPast(items: seq<BucketItem>, t: SortType, x: nat, s: seq<nat>)
    requires x < |items| && InRange(items, s) && SortedBy(items, t, s)
    requires s != [] && InOrder(items, t, s[0], x)
    ensures SortedBy(items, t, Insert(items, t, x, s))
    decreases |s|, 0
  {
    var rest := Insert(items, t, x, s[1..]);
    InsertPermutes(items, t, x, s[1..]);
    SortedTail(items, t, s);
    InsertSorted(items, t, x, s[1..]);
    assert Insert(items, t, x, s) == [s[0]] + rest;
    forall p | 0 <= p < |rest| ensures InOrder(items, t, s[0], rest[p]) {
      assert rest[p] in multiset(rest);
      if rest[p] != x {
        assert rest[p] in multiset(s[1..]);
        var q :| 0 <= q < |s[1..]| && s[1..][q] == rest[p];
        assert s[q + 1] == rest[p];
      }
    }
  }

  /** The stable sort orders the view by the comparator of the sort type. */
  lemma {:induction false} SortSorted(items: seq<BucketItem>, t: SortType, s: seq<nat>)
    requires InRange(items, s)
    ensures SortedBy(items, t, SortIndices(items, t, s))
  {
    if s != [] {
      SortSorted(items, t, s[..|s| - 1]);
      InsertSorted(items, t, s[|s| - 1], SortIndices(items, t, s[..|s| - 1]));
    }
  }

  /** The members of `s` that the comparator ties with `k`, in their order in `s`. */
  function TiedRun(items: seq<BucketItem>, t: SortType, k: nat, s: seq<nat>): seq<nat>
    requires k < |items| && InRange(items, s)
  {
    if s == [] then []
    else TiedRun(items, t, k, s[..|s| - 1]) + (if Tied(items, t, s[|s| - 1], k) then [s[|s| - 1]] else [])
  }

  lemma {:induction false} TiedRunAppend(items: seq<BucketItem>, t: SortType, k: nat, a: seq<nat>, b: seq<nat>)
    requires k < |items| && InRange(items, a) && InRange(items, b)
    ensures TiedRun(items, t, k, a + b) == TiedRun(items, t, k, a) + TiedRun(items, t, k, b)
  {
    if b == [] {
      assert a + b == a;
    } else {
      assert (a + b)[..|a + b| - 1] == a + b[..|b| - 1];
      TiedRunAppend(items, t, k, a, b[..|b| - 1]);
    }
  }

  lemma {:induction false} TiedRunNone(items: seq<BucketItem>, t: SortType, k: nat, s: seq<nat>)
    requires k < |items| && InRange(items, s)
    requires forall i :: 0 <= i < |s| ==> !Tied(items, t, s[i], k)
    ensures TiedRun(items, t, k, s) == []
  {
    if s != [] {
      TiedRunNone(items, t, k, s[..|s| - 1]);
    }
  }

  /** A one-element run: the element itself when it ties with `k`. */
  lemma TiedRunSingle(items: seq<BucketItem>, t: SortType, k: nat, x: nat)
    requires k < |items| && x < |items|
    ensures TiedRun(items, t, k, [x]) == if Tied(items, t, x, k) then [x] else []
  {
    assert [x][..0] == [];
  }

  /**
   * When `x` cannot stay after the head of the sorted `s`, no member of `s`
   * ties with `k` if `x` does.
   */
  lemma NoTieAfterGreater(items: seq<BucketItem>, t: SortType, k: nat, x: nat, s: seq<nat>)
    requires k < |items| && x < |items| && InRange(items, s) && SortedBy(items, t, s)
    requires s != [] && !InOrder(items, t, s[0], x) && Tied(items, t, x, k)
    ensures TiedRun(items, t, k, s) == []
  {
    forall i | 0 <= i < |s| ensures !Tied(items, t, s[i], k) {
      if Tied(items, t, s[i], k) {
        InOrderTransitive(items, t, s[i], k, x);
        if i > 0 {
          InOrderTransitive(items, t, s[0], s[i], x);
        }
      }
    }
    TiedRunNone(items, t, k, s);
  }

  /** The case of `InsertTiedRun` where `x` moves past the head of `s`. */
  lemma {:induction false} InsertTiedRunPast(items: seq<BucketItem>, t: SortType, k: nat, x: nat, s: seq<nat>)
    requires k < |items| && x < |items| && InRange(items, s) && SortedBy(items, t, s)
    requires s != [] && InOrder(items, t, s[0], x)
    ensures TiedRun(items, t, k, Insert(items, t, x, s)) ==
            TiedRun(items, t, k, s) + (if Tied(items, t, x, k) then [x] else [])
    decreases |s|, 0
  {
    var rest := s[1..];
    assert s == [s[0]] + rest;
    var inserted := Insert(items, t, x, rest);
    assert Insert(items, t, x, s) == [s[0]] + inserted;
    SortedTail(items, t, s);
    InsertTiedRun(items, t, k, x, rest);
    TiedRunCons(items, t, k, s[0], inserted, rest, if Tied(items, t, x, k) then [x] else []);
  }

  /** Putting the same element in front of two sequences keeps a relation between their runs of ties. */
  lemma TiedRunCons(items: seq<BucketItem>, t: SortType, k: nat, y: nat, a: seq<nat>, b: seq<nat>, tail: seq<nat>)
    requires k < |items| && y < |items| && InRange(items, a) && InRange(items, b)
    requires TiedRun(items, t, k, a) == TiedRun(items, t, k, b) + tail
    ensures TiedRun(items, t, k, [y] + a) == TiedRun(items, t, k, [y] + b) + tail
  {
    TiedRunAppend(items, t, k, [y], a);
    TiedRunAppend(items, t, k, [y], b);
    var head := TiedRun(items, t, k, [y]);
    assert head + (TiedRun(items, t, k, b) + tail) == (head + TiedRun(items, t, k, b)) + tail;
  }

  lemma {:induction false} InsertTiedRun(items: seq<BucketItem>, t: SortType, k: nat, x: nat, s: seq<nat>)
    requires k < |items| && x < |items| && InRange(items, s) && SortedBy(items, t, s)
    ensures TiedRun(items, t, k, Insert(items, t, x, s)) ==
            TiedRun(items, t, k, s) + (if Tied(items, t, x, k) then [x] else [])
    decreases |s|, 1
  {
    if s == [] {
      TiedRunSingle(items, t, k, x);
    } else if InOrder(items, t, s[0], x) {
      InsertTiedRunPast(items, t, k, x, s);
    } else {
      InsertTiedRunFront(items, t, k, x, s);
    }
  }

  /** The case of `InsertTiedRun` where `x` goes in front of `s`. */
  lemma InsertTiedRunFront(items: seq<BucketItem>, t: SortType, k: nat, x: nat, s: seq<nat>)
    requires k < |items| && x < |items| && InRange(items, s) && SortedBy(items, t, s)
    requires s != [] && !InOrder(items, t, s[0], x)
    ensures TiedRun(items, t, k, Insert(items, t, x, s)) ==
            TiedRun(items, t, k, s) + (if Tied(items, t, x, k) then [x] else [])
  {
    assert Insert(items, t, x, s) == [x] + s;
    if Tied(items, t, x, k) {
      NoTieAfterGreater(items, t, k, x, s);
    }
    TiedRunFront(items, t, k, x, s);
  }

  /** An element put in front of a sequence with no ties of its own adds itself to the run. */
  lemma TiedRunFront(items: seq<BucketItem>, t: SortType, k: nat, x: nat, s: seq<nat>)
    requires k < |items| && x < |items| && InRange(items, s)
    requires Tied(items, t, x, k) ==> TiedRun(items, t, k, s) == []
    ensures TiedRun(items, t, k, [x] + s) == TiedRun(items, t, k, s) + (if Tied(items, t, x, k) then [x] else [])
  {
    TiedRunSingle(items, t, k, x);
    TiedRunAppend(items, t, k, [x], s);
    if Tied(items, t, x, k) {
      assert [x] + [] == [] + [x];
    } else {
      assert [] + TiedRun(items, t, k, s) == TiedRun(items, t, k, s) + [];
    }
  }

  /** Stability: indices the comparator ties keep the order they had before the sort. */
  lemma {:induction false} SortStable(items: seq<BucketItem>, t: SortType, k: nat, s: seq<nat>)
    requires k < |items| && InRange(items, s)
    ensures TiedRun(items, t, k, SortIndices(items, t, s)) == TiedRun(items, t, k, s)
  {
    if s != [] {
      var init := s[..|s| - 1];
      SortStable(items, t, k, init);
      SortSorted(items, t, init);
      InsertTiedRun(items, t, k, s[|s| - 1], SortIndices(items, t, init));
    }
  }

  /** Sorting the ascending enumeration of a set of indices by `Default` changes nothing. */
  lemma {:induction false} SortDefaultIncreasing(items: seq<BucketItem>, s: seq<nat>)
    requires InRange(items, s) && StrictlyIncreasing(s)
    ensures SortIndices(items, Default, s) == s
  {
    if s != [] {
      var init, last := s[..|s| - 1], s[|s| - 1];
      IncreasingInit(items, s);
      SortDefaultIncreasing(items, init);
      InsertAtEnd(items, last, init);
    }
  }

  lemma IncreasingInit(items: seq<BucketItem>, s: seq<nat>)
    requires InRange(items, s) && StrictlyIncreasing(s) && s != []
    ensures InRange(items, s[..|s| - 1]) && StrictlyIncreasing(s[..|s| - 1])
    ensures forall i :: 0 <= i < |s| - 1 ==> s[i] <= s[|s| - 1]
    ensures s == s[..|s| - 1] + [s[|s| - 1]]
  {
  }

  lemma {:induction false} InsertAtEnd(items: seq<BucketItem>, x: nat, s: seq<nat>)
    requires x < |items| && InRange(items, s)
    requires forall i :: 0 <= i < |s| ==> s[i] <= x
    ensures Insert(items, Default, x, s) == s + [x]
  {
    if s != [] {
      InsertAtEnd(items, x, s[1..]);
      assert s == [s[0]] + s[1..];
    }
  }

  /** Two strictly increasing sequences with the same elements are equal. */
  lemma {:induction false} IncreasingUnique(a: seq<nat>, b: seq<nat>)
    requires StrictlyIncreasing(a) && StrictlyIncreasing(b) && multiset(a) == multiset(b)
    ensures a == b
  {
    assert |a| == |multiset(a)| == |multiset(b)| == |b|;
    if a != [] {
      HeadsEqual(a, b);
      assert a == [a[0]] + a[1..] && b == [b[0]] + b[1..];
      assert multiset(a[1..]) == multiset(a) - multiset{a[0]};
      assert multiset(b[1..]) == multiset(b) - multiset{b[0]};
      IncreasingUnique(a[1..], b[1..]);
    }
  }

  lemma HeadsEqual(a: seq<nat>, b: seq<nat>)
    requires StrictlyIncreasing(a) && StrictlyIncreasing(b) && multiset(a) == multiset(b)
    requires a != [] && b != []
    ensures a[0] == b[0]
  {
    assert a[0] in multiset(b) && b[0] in multiset(a);
    var p :| 0 <= p < |b| && b[p] == a[0];
    var q :| 0 <= q < |a| && a[q] == b[0];
    assert a[0] <= a[q];
    assert b[0] <= b[p];
  }

  lemma {:induction false} SortedDefaultIncreasing(items: seq<BucketItem>, s: seq<nat>)
    requires InRange(items, s) && SortedBy(items, Default, s)
    requires forall i, j :: 0 <= i < j < |s| ==> s[i] != s[j]
    ensures StrictlyIncreasing(s)
  {
  }

  /** A run of ties under `Default` is every occurrence of `k`, so it depends only on the multiset. */
  lemma {:induction false} TiedRunDefault(items: seq<BucketItem>, k: nat, s: seq<nat>)
    requires k < |items| && InRange(items, s)
    ensures TiedRun(items, Default, k, s) == seq(multiset(s)[k], i => k)
  {
    if s != [] {
      var init := s[..|s| - 1];
      TiedRunDefault(items, k, init);
      assert s == init + [s[|s| - 1]];
      assert multiset(s) == multiset(init) + multiset{s[|s| - 1]};
    }
  }

  /** Under the two name orders, ties are the same: equal names. */
  lemma {:induction false} TiedRunByName(items: seq<BucketItem>, t1: SortType, t2: SortType, k: nat, s: seq<nat>)
    requires t1 != Default && t2 != Default && k < |items| && InRange(items, s)
    ensures TiedRun(items, t1, k, s) == TiedRun(items, t2, k, s)
  {
    if s != [] {
      TiedRunByName(items, t1, t2, k, s[..|s| - 1]);
      TiedMeans(items, t1, s[|s| - 1], k);
      TiedMeans(items, t2, s[|s| - 1], k);
    }
  }

  /** The last element of a sorted sequence is after every element, and so is the last of any sorted permutation. */
  lemma LastsTied(items: seq<BucketItem>, t: SortType, a: seq<nat>, b: seq<nat>)
    requires InRange(items, a) && InRange(items, b) && SortedBy(items, t, a) && SortedBy(items, t, b)
    requires multiset(a) == multiset(b) && a != [] && b != []
    ensures Tied(items, t, a[|a| - 1], b[|b| - 1])
  {
    var x, y := a[|a| - 1], b[|b| - 1];
    assert y in multiset(a) && x in multiset(b);
    var p :| 0 <= p < |a| && a[p] == y;
    var q :| 0 <= q < |b| && b[q] == x;
    if p < |a| - 1 {
      assert InOrder(items, t, a[p], x);
    } else {
      InOrderTotal(items, t, x, x);
    }
    if q < |b| - 1 {
      assert InOrder(items, t, b[q], y);
    } else {
      InOrderTotal(items, t, y, y);
    }
  }

  /** The sorted tail: dropping the last element keeps a sequence sorted. */
  lemma SortedInit(items: seq<BucketItem>, t: SortType, s: seq<nat>)
    requires InRange(items, s) && SortedBy(items, t, s) && s != []
    ensures InRange(items, s[..|s| - 1]) && SortedBy(items, t, s[..|s| - 1])
  {
  }

  lemma SnocInjective(a: seq<nat>, x: nat, b: seq<nat>, y: nat)
    requires a + [x] == b + [y]
    ensures a == b && x == y
  {
    assert |a| == |b|;
    assert (a + [x])[|a|] == x && (b + [y])[|b|] == y;
    assert a == (a + [x])[..|a|] && b == (b + [y])[..|b|];
  }

  lemma TiedRunSnoc(items: seq<BucketItem>, t: SortType, k: nat, a: seq<nat>, x: nat)
    requires k < |items| && InRange(items, a) && x < |items|
    ensures TiedRun(items, t, k, a + [x]) == TiedRun(items, t, k, a) + (if Tied(items, t, x, k) then [x] else [])
  {
    assert (a + [x])[..|a + [x]| - 1] == a;
  }

  /** Runs of ties that agree on two sequences ending in the same element agree without it. */
  lemma TiedRunsInit(items: seq<BucketItem>, t: SortType, a: seq<nat>, b: seq<nat>, x: nat)
    requires InRange(items, a) && InRange(items, b) && x < |items|
    requires forall k: nat :: k < |items| ==> TiedRun(items, t, k, a + [x]) == TiedRun(items, t, k, b + [x])
    ensures forall k: nat :: k < |items| ==> TiedRun(items, t, k, a) == TiedRun(items, t, k, b)
  {
    forall k: nat | k < |items| ensures TiedRun(items, t, k, a) == TiedRun(items, t, k, b) {
      TiedRunSnoc(items, t, k, a, x);
      TiedRunSnoc(items, t, k, b, x);
      var tail := if Tied(items, t, x, k) then [x] else [];
      assert TiedRun(items, t, k, a) + tail == TiedRun(items, t, k, b) + tail;
      assert TiedRun(items, t, k, a) == (TiedRun(items, t, k, a) + tail)[..|TiedRun(items, t, k, a)|];
      assert TiedRun(items, t, k, b) == (TiedRun(items, t, k, b) + tail)[..|TiedRun(items, t, k, b)|];
    }
  }

  /** A run of ties with `k` ends with the last element of `s` when that element ties with `k`. */
  lemma TiedRunEndsWith(items: seq<BucketItem>, t: SortType, k: nat, s: seq<nat>)
    requires k < |items| && InRange(items, s) && s != [] && Tied(items, t, s[|s| - 1], k)
    ensures TiedRun(items, t, k, s) == TiedRun(items, t, k, s[..|s| - 1]) + [s[|s| - 1]]
  {
  }

  /** Two sorted permutations with the same runs of ties end with the same element. */
  lemma SameLast(items: seq<BucketItem>, t: SortType, a: seq<nat>, b: seq<nat>)
    requires InRange(items, a) && InRange(items, b) && SortedBy(items, t, a) && SortedBy(items, t, b)
    requires multiset(a) == multiset(b) && a != [] && b != []
    requires TiedRun(items, t, a[|a| - 1], a) == TiedRun(items, t, a[|a| - 1], b)
    ensures a[|a| - 1] == b[|b| - 1]
  {
    var x, y := a[|a| - 1], b[|b| - 1];
    LastsTied(items, t, a, b);
    InOrderTotal(items, t, x, x);
    TiedRunEndsWith(items, t, x, a);
    TiedRunEndsWith(items, t, x, b);
    SnocInjective(TiedRun(items, t, x, a[..|a| - 1]), x, TiedRun(items, t, x, b[..|b| - 1]), y);
  }

  /**
   * A sorted permutation is fixed by its runs of ties: two sequences sorted
   * by the same comparator, with the same elements and the same order within
   * every run of ties, are equal.
   */
  lemma {:induction false} SortUnique(items: seq<BucketItem>, t: SortType, a: seq<nat>, b: seq<nat>)
    requires InRange(items, a) && InRange(items, b) && SortedBy(items, t, a) && SortedBy(items, t, b)
    requires multiset(a) == multiset(b)
    requires forall k: nat :: k < |items| ==> TiedRun(items, t, k, a) == TiedRun(items, t, k, b)
    ensures a == b
  {
    PermutationLength(a, b);
    if a != [] {
      var x := a[|a| - 1];
      var ia, ib := a[..|a| - 1], b[..|b| - 1];
      SameLast(items, t, a, b);
      PermutationInit(a, b);
      TiedRunsInit(items, t, ia, ib, x);
      SortedInit(items, t, a);
      SortedInit(items, t, b);
      SortUnique(items, t, ia, ib);
    }
  }

  lemma PermutationLength(a: seq<nat>, b: seq<nat>)
    requires multiset(a) == multiset(b)
    ensures |a| == |b|
  {
    assert |a| == |multiset(a)| && |b| == |multiset(b)|;
  }

  /** Removing the same last element from two permutations of each other leaves permutations. */
  lemma PermutationInit(a: seq<nat>, b: seq<nat>)
    requires multiset(a) == multiset(b) && a != [] && b != [] && a[|a| - 1] == b[|b| - 1]
    ensures a == a[..|a| - 1] + [a[|a| - 1]] && b == b[..|b| - 1] + [a[|a| - 1]]
    ensures multiset(a[..|a| - 1]) == multiset(b[..|b| - 1])
  {
    var x, ia, ib := a[|a| - 1], a[..|a| - 1], b[..|b| - 1];
    assert a == ia + [x] && b == ib + [x];
    assert multiset(a) == multiset(ia) + multiset{x};
    assert multiset(b) == multiset(ib) + multiset{x};
    assert multiset(ia) == multiset(a) - multiset{x};
  }

  /**
   * What a stable sort promises of `r` as a sorting of `s`: a permutation,
   * sorted by the comparator, with every run of ties in its order in `s`.
   */
  ghost predicate StableSortOf(items: seq<BucketItem>, t: SortType, s: seq<nat>, r: seq<nat>)
    requires InRange(items, s) && InRange(items, r)
  {
    && multiset(r) == multiset(s)
    && SortedBy(items, t, r)
    && (forall k: nat :: k < |items| ==> TiedRun(items, t, k, r) == TiedRun(items, t, k, s))
  }

  /** `SortIndices` keeps the promise of a stable sort. */
  lemma SortIsStableSort(items: seq<BucketItem>, t: SortType, s: seq<nat>)
    requires InRange(items, s)
    ensures StableSortOf(items, t, s, SortIndices(items, t, s))
  {
    SortPermutes(items, t, s);
    SortSorted(items, t, s);
    forall k: nat | k < |items| ensures TiedRun(items, t, k, SortIndices(items, t, s)) == TiedRun(items, t, k, s) {
      SortStable(items, t, k, s);
    }
  }

  /** The stable sort is characterised by its promise: exactly one sequence keeps it, and that is `SortIndices`. */
  lemma SortCharacterized(items: seq<BucketItem>, t: SortType, s: seq<nat>, r: seq<nat>)
    requires InRange(items, s) && InRange(items, r)
    ensures r == SortIndices(items, t, s) <==> StableSortOf(items, t, s, r)
  {
    var sorted := SortIndices(items, t, s);
    SortIsStableSort(items, t, s);
    if StableSortOf(items, t, s, r) {
      forall k: nat | k < |items| ensures TiedRun(items, t, k, r) == TiedRun(items, t, k, sorted) {
      }
      SortUnique(items, t, r, sorted);
    }
  }

  /**
   * Re-sorting forgets the previous order: sorting the ascending indices by
   * one order and then by another gives the same view as sorting them by the
   * second order directly.
   */
  lemma Resort(items: seq<BucketItem>, t1: SortType, t2: SortType, s: seq<nat>)
    requires InRange(items, s) && StrictlyIncreasing(s)
    ensures SortIndices(items, t2, SortIndices(items, t1, s)) == SortIndices(items, t2, s)
  {
    var mid := SortIndices(items, t1, s);
    if t1 == Default {
      SortDefaultIncreasing(items, s);
    } else {
      SortPermutes(items, t1, s);
      forall k: nat | k < |items| ensures TiedRun(items, t2, k, mid) == TiedRun(items, t2, k, s) {
        if t2 == Default {
          TiedRunDefault(items, k, mid);
          TiedRunDefault(items, k, s);
        } else {
          TiedRunByName(items, t1, t2, k, mid);
          TiedRunByName(items, t1, t2, k, s);
          SortStable(items, t1, k, s);
        }
      }
      SortIsStableSort(items, t2, mid);
      SortCharacterized(items, t2, s, SortIndices(items, t2, mid));
    }
  }

  /**
   * The view the page shows for a filter and an order: the matching indices,
   * sorted by the order, ties kept in item order.
   */
  function ViewOf(items: seq<BucketItem>, filter: string, t: SortType): (view: seq<nat>)
    ensures InRange(items, view)
  {
    SortIndices(items, t, FilterIndices(items, filter))
  }

  /**
   * What `ViewOf` holds: exactly the items whose name contains the filter,
   * each once, sorted by the order.
   */
  lemma ViewOfContents(items: seq<BucketItem>, filter: string, t: SortType)
    ensures var view := ViewOf(items, filter, t);
      && (forall i :: 0 <= i < |items| ==> (i in view <==> Contains(items[i].name, filter)))
      && (forall i, j :: 0 <= i < j < |view| ==> view[i] != view[j])
      && SortedBy(items, t, view)
  {
    var f := FilterIndices(items, filter);
    var view := ViewOf(items, filter, t);
    FilterIndicesMatch(items, filter);
    SortPermutes(items, t, f);
    SortSorted(items, t, f);
    forall i | 0 <= i < |items| ensures i in view <==> Contains(items[i].name, filter) {
      assert i in view <==> i in multiset(view);
      assert i in f <==> i in multiset(f);
    }
    forall i, j | 0 <= i < j < |view| ensures view[i] != view[j] {
      if view[i] == view[j] {
        // `i` and `j` tie under `Default`, so the run of ties with `view[i]` has two members
        TiedRunDefault(items, view[i], view);
        TiedRunDefault(items, view[i], f);
        IncreasingCount(f, view[i]);
        CountAtLeastTwo(view, i, j);
      }
    }
  }

  /** A strictly increasing sequence holds each value at most once. */
  lemma {:induction false} IncreasingCount(s: seq<nat>, v: nat)
    requires StrictlyIncreasing(s)
    ensures multiset(s)[v] <= 1
  {
    if s != [] {
      var init := s[..|s| - 1];
      IncreasingCount(init, v);
      assert s == init + [s[|s| - 1]];
      assert multiset(s) == multiset(init) + multiset{s[|s| - 1]};
      if s[|s| - 1] == v {
        assert v !in init;
      }
    }
  }

  lemma CountAtLeastTwo(s: seq<nat>, i: nat, j: nat)
    requires i < j < |s| && s[i] == s[j]
    ensures multiset(s)[s[i]] >= 2
  {
    assert s == s[..j] + s[j..];
    assert s[i] in s[..j] && s[j] in s[j..];
    assert multiset(s) == multiset(s[..j]) + multiset(s[j..]);
  }

  // ---------------------------------------------------------------------------
  // The visible window: `build_list_items`

  /** One row of the list: the bucket name and whether it is drawn as selected. */
  datatype ListRow = ListRow(name: string, selected: bool)

  function Min(a: int, b: int): int
  {
    if a <= b then a else b
  }

  /** `skip(n)`. */
  function Skip(s: seq<nat>, n: nat): seq<nat>
  {
    if n <= |s| then s[n..] else []
  }

  /** `take(n)`. */
  function Take(s: seq<nat>, n: nat): seq<nat>
  {
    if n <= |s| then s[..n] else s
  }

  /** `enumerate().map(...)`: the row for each index, selected when its position plus `offset` is `selected`. */
  function MarkRows(items: seq<BucketItem>, shown: seq<nat>, position: nat, offset: nat, selected: nat): (rows: seq<ListRow>)
    requires InRange(items, shown)
    ensures |rows| == |shown|
    ensures forall i :: 0 <= i < |rows| ==>
      rows[i].name == items[shown[i]].name && (rows[i].selected <==> position + i + offset == selected)
  {
    if shown == [] then []
    else [ListRow(items[shown[0]].name, position + offset == selected)]
         + MarkRows(items, shown[1..], position + 1, offset, selected)
  }

  /**
   * `build_list_items`: skip `offset` indices of the view, keep at most
   * `height - 2` (the border takes two lines) and mark the selected row.
   */
  function BuildListItems(items: seq<BucketItem>, view: seq<nat>, offset: nat, selected: nat, height: nat): (rows: seq<ListRow>)
    requires 2 <= height && InRange(items, view)
    ensures |rows| == Min(height - 2, if offset <= |view| then |view| - offset else 0)
    ensures forall i :: 0 <= i < |rows| ==>
      rows[i].name == items[view[offset + i]].name && (rows[i].selected <==> i + offset == selected)
  {
    MarkRows(items, Take(Skip(view, offset), height - 2), 0, offset, selected)
  }

  /**
   * At most one row is marked, and one is exactly when the selection falls
   * inside the window; that row shows the selected bucket.
   */
  lemma SelectedRowShown(items: seq<BucketItem>, view: seq<nat>, offset: nat, selected: nat, height: nat)
    requires 2 <= height && InRange(items, view)
    ensures var rows := BuildListItems(items, view, offset, selected, height);
      && (forall i, j :: 0 <= i < j < |rows| ==> !(rows[i].selected && rows[j].selected))
      && ((exists i :: 0 <= i < |rows| && rows[i].selected) <==> offset <= selected < offset + |rows|)
      && (offset <= selected < offset + |rows| ==> rows[selected - offset].name == items[view[selected]].name)
  {
    var rows := BuildListItems(items, view, offset, selected, height);
    if offset <= selected < offset + |rows| {
      assert rows[selected - offset].selected;
    }
  }
}
