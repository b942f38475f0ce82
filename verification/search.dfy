/** Sorting and binary search over sequences, as used by the Rust tool's
    `slice::sort`, `binary_search_by_key` and `binary_search_by`. */
module Search {
  import opened Strings

  // ---------------------------------------------------------------------
  // Sorted string sequences

  ghost predicate Sorted(s: seq<string>) {
    forall i, j :: 0 <= i < j < |s| ==> Le(s[i], s[j])
  }

  /** Inserting into a sorted sequence, before the first element that is
      not smaller. */
  function Insert(x: string, s: seq<string>): (r: seq<string>)
    requires Sorted(s)
    ensures Sorted(r)
    ensures multiset(r) == multiset(s) + multiset{x}
    ensures |r| == |s| + 1
  {
    if |s| == 0 then [x]
    else if Le(x, s[0]) then
      InsertFrontSorted(x, s);
      [x] + s
    else
      LeTotal(x, s[0]);
      var rest := Insert(x, s[1..]);
      assert multiset(s) == multiset{s[0]} + multiset(s[1..]) by {
        assert s == [s[0]] + s[1..];
      }
      InsertBehindSorted(s[0], rest, x, s[1..]);
      [s[0]] + rest
  }

  lemma InsertFrontSorted(x: string, s: seq<string>)
    requires Sorted(s) && |s| > 0 && Le(x, s[0])
    ensures Sorted([x] + s)
  {
    forall j | 0 < j < |s| + 1
      ensures Le(x, ([x] + s)[j])
    {
      if j > 1 {
        LeTrans(x, s[0], s[j - 1]);
      }
    }
  }

  lemma InsertBehindSorted(h: string, rest: seq<string>, x: string, tail: seq<string>)
    requires Sorted(rest) && Sorted([h] + tail) && Lt(h, x)
    requires multiset(rest) == multiset(tail) + multiset{x}
    ensures Sorted([h] + rest)
  {
    forall j | 0 <= j < |rest|
      ensures Le(h, rest[j])
    {
      assert rest[j] in multiset(rest);
      if rest[j] != x {
        assert rest[j] in multiset(tail);
        var k :| 0 <= k < |tail| && tail[k] == rest[j];
        assert ([h] + tail)[0] == h && ([h] + tail)[k + 1] == tail[k];
      }
    }
  }

  /** Insertion sort by code-point order. Equal strings are identical, so
      this is the one sorted permutation, whatever algorithm Rust uses. */
  function SortStrings(s: seq<string>): (r: seq<string>)
    ensures Sorted(r)
    ensures multiset(r) == multiset(s)
    ensures |r| == |s|
  {
    if |s| == 0 then []
    else
      assert s == [s[0]] + s[1..];
      Insert(s[0], SortStrings(s[1..]))
  }

  // ---------------------------------------------------------------------
  // Binary search for a key (Rust's `binary_search_by_key`)

  lemma SortedBelow(items: seq<string>, mid: nat, key: string)
    requires Sorted(items) && mid < |items| && Lt(items[mid], key)
    ensures forall i :: 0 <= i <= mid ==> Lt(items[i], key)
  {
    forall i | 0 <= i <= mid
      ensures Lt(items[i], key)
    {
      if i < mid {
        LeLtTrans(items[i], items[mid], key);
      }
    }
  }

  lemma SortedAbove(items: seq<string>, mid: nat, key: string)
    requires Sorted(items) && mid < |items| && Lt(key, items[mid])
    ensures forall i :: mid <= i < |items| ==> Lt(key, items[i])
  {
    forall i | mid <= i < |items|
      ensures Lt(key, items[i])
    {
      if i > mid {
        LtLeTrans(key, items[mid], items[i]);
      }
    }
  }

  /** Rust's `binary_search_by_key(&key, ..).is_ok()` on the window
      `[lo, hi)`: halve the window at `lo + (hi - lo) / 2` until the key is
      met or the window is empty. */
  function BinarySearch(items: seq<string>, key: string, lo: nat, hi: nat): (found: bool)
    requires lo <= hi <= |items|
    requires Sorted(items)
    requires forall i :: 0 <= i < lo ==> Lt(items[i], key)
    requires forall i :: hi <= i < |items| ==> Lt(key, items[i])
    ensures found <==> key in items
    decreases hi - lo
  {
    if lo == hi then
      assert forall i :: 0 <= i < |items| ==> Lt(items[i], key) || Lt(key, items[i]);
      false
    else
      var mid := lo + (hi - lo) / 2;
      match Cmp(items[mid], key)
      case Equal => true
      case Less =>
        SortedBelow(items, mid, key);
        BinarySearch(items, key, mid + 1, hi)
      case Greater =>
        CmpFlip(key, items[mid]);
        SortedAbove(items, mid, key);
        BinarySearch(items, key, lo, mid)
  }

  /** Membership by binary search over a whole sorted sequence. */
  function Contains(items: seq<string>, key: string): (found: bool)
    requires Sorted(items)
    ensures found <==> key in items
  {
    BinarySearch(items, key, 0, |items|)
  }

  // ---------------------------------------------------------------------
  // Partition point (Rust's `binary_search_by` with a comparator that
  // never answers `Equal`)

  /** The elements satisfying `before` form a prefix of `s`. */
  ghost predicate Partitioned<T>(s: seq<T>, before: T -> bool) {
    forall i, j :: 0 <= i < j < |s| && before(s[j]) ==> before(s[i])
  }

  lemma SortedPair(a: string, b: string)
    requires Lt(a, b)
    ensures Sorted([a, b])
  {
  }

  lemma PartitionedPair<T>(a: T, b: T, before: T -> bool)
    requires before(a)
    ensures Partitioned([a, b], before)
  {
  }

  /** A sequence that satisfies `before` exactly on its first `p`
      elements is partitioned, and the search finds `p`. */
  lemma PartitionPointAt<T>(s: seq<T>, before: T -> bool, p: nat)
    requires p <= |s|
    requires forall i :: 0 <= i < p ==> before(s[i])
    requires forall i :: p <= i < |s| ==> !before(s[i])
    ensures Partitioned(s, before)
    ensures PartitionPoint(s, before, 0, |s|) == p
  {
    var q := PartitionPoint(s, before, 0, |s|);
    // The smaller of the two points is below both bounds of the other
    // description, which pins `q` to `p`.
    var m := if q < p then q else p;
    if m < |s| {
      var b := before(s[m]);
    }
  }

  /** The index where a partitioned sequence stops satisfying `before`,
      found by the halving search of Rust's `binary_search_by`
      (`mid = left + size / 2`): when the comparator never answers `Equal`
      the search always ends in `Err(left)`, and `left` is this index. */
  function PartitionPoint<T>(s: seq<T>, before: T -> bool, lo: nat, hi: nat): (p: nat)
    requires lo <= hi <= |s|
    requires Partitioned(s, before)
    requires forall i :: 0 <= i < lo ==> before(s[i])
    requires forall i :: hi <= i < |s| ==> !before(s[i])
    ensures lo <= p <= hi
    ensures forall i :: 0 <= i < p ==> before(s[i])
    ensures forall i :: p <= i < |s| ==> !before(s[i])
    decreases hi - lo
  {
    if lo == hi then lo
    else
      var mid := lo + (hi - lo) / 2;
      if before(s[mid]) then PartitionPoint(s, before, mid + 1, hi)
      else PartitionPoint(s, before, lo, mid)
  }
}
