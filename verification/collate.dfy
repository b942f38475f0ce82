/** The two list operations the Python data scripts repeat: keeping the
    first record seen for each id, and Python's stable `list.sort(key=...,
    reverse=True)` on an integer key; and filling a dictionary from pairs,
    a later pair replacing an earlier one. */
module Collate {
  import opened Wrappers

  // ---------------------------------------------------------------------
  // First-occurrence deduplication

  lemma InitLast<T>(s: seq<T>)
    requires |s| > 0
    ensures s == s[..|s| - 1] + [s[|s| - 1]]
  {
  }

  lemma TakeSnoc<T>(s: seq<T>, i: nat)
    requires i < |s|
    ensures s[..i + 1] == s[..i] + [s[i]] && s[..i + 1][..i] == s[..i]
  {
  }

  lemma TakeAll<T>(s: seq<T>)
    ensures s[..|s|] == s
  {
  }

  /** The ids of the elements of `s`. */
  function Ids<T, K>(s: seq<T>, id: T -> K): set<K> {
    set k | 0 <= k < |s| :: id(s[k])
  }

  lemma IdsSnoc<T, K>(s: seq<T>, x: T, id: T -> K)
    ensures Ids(s + [x], id) == Ids(s, id) + {id(x)}
  {
    var t := s + [x];
    assert t[|s|] == x;
    assert forall k :: 0 <= k < |s| ==> t[k] == s[k];
  }

  /** Reference definition: an element is kept when its id is neither in
      `seen` nor the id of an earlier element. */
  function FirstOccurrences<T, K>(seen: set<K>, s: seq<T>, id: T -> K): seq<T>
    decreases |s|
  {
    if |s| == 0 then []
    else
      var init := s[..|s| - 1];
      var last := s[|s| - 1];
      FirstOccurrences(seen, init, id)
      + (if id(last) in seen || id(last) in Ids(init, id) then [] else [last])
  }

  /** The Python scripts' loop: a `seen` set seeded with `seen0`, a record
      skipped when its id is in `seen`, else appended and its id added. */
  method DedupFirst<T, K>(seen0: set<K>, s: seq<T>, id: T -> K) returns (r: seq<T>, seen: set<K>)
    ensures r == FirstOccurrences(seen0, s, id)
    ensures seen == seen0 + Ids(s, id)
  {
    r := [];
    seen := seen0;
    for i := 0 to |s|
      invariant r == FirstOccurrences(seen0, s[..i], id)
      invariant seen == seen0 + Ids(s[..i], id)
    {
      TakeSnoc(s, i);
      IdsSnoc(s[..i], s[i], id);
      if id(s[i]) !in seen {
        r := r + [s[i]];
        seen := seen + {id(s[i])};
      }
    }
    TakeAll(s);
  }

  /** No two kept elements share an id, and no kept id was already seen. */
  lemma {:induction false} FirstOccurrencesDistinct<T, K>(seen: set<K>, s: seq<T>, id: T -> K)
    ensures var r := FirstOccurrences(seen, s, id);
      && (forall i, j :: 0 <= i < j < |r| ==> id(r[i]) != id(r[j]))
      && (forall i :: 0 <= i < |r| ==> id(r[i]) !in seen)
      && Ids(r, id) == Ids(s, id) - seen
    decreases |s|
  {
    if |s| > 0 {
      var init := s[..|s| - 1];
      var last := s[|s| - 1];
      var prev := FirstOccurrences(seen, init, id);
      FirstOccurrencesDistinct(seen, init, id);
      InitLast(s);
      IdsSnoc(init, last, id);
      if id(last) in seen || id(last) in Ids(init, id) {
        assert FirstOccurrences(seen, s, id) == prev + [];
        assert prev + [] == prev;
      } else {
        IdsSnoc(prev, last, id);
        var r := prev + [last];
        forall i, j | 0 <= i < j < |r|
          ensures id(r[i]) != id(r[j])
        {
          if j == |prev| {
            assert id(r[i]) in Ids(prev, id);
          }
        }
      }
    }
  }

  /** Every kept element comes from `s`, in the order of `s`. */
  lemma {:induction false} FirstOccurrencesSubseq<T, K>(seen: set<K>, s: seq<T>, id: T -> K)
    ensures multiset(FirstOccurrences(seen, s, id)) <= multiset(s)
    ensures forall x :: x in FirstOccurrences(seen, s, id) ==> x in s
    decreases |s|
  {
    if |s| > 0 {
      var init := s[..|s| - 1];
      FirstOccurrencesSubseq(seen, init, id);
      InitLast(s);
    }
  }

  /** An element whose id is unseen and not shared with an earlier element
      is kept. */
  lemma {:induction false} FirstOccurrenceKept<T, K>(seen: set<K>, s: seq<T>, id: T -> K, i: nat)
    requires i < |s|
    requires id(s[i]) !in seen
    requires forall k :: 0 <= k < i ==> id(s[k]) != id(s[i])
    ensures s[i] in FirstOccurrences(seen, s, id)
    decreases |s|
  {
    var init := s[..|s| - 1];
    if i < |s| - 1 {
      FirstOccurrenceKept(seen, init, id, i);
    }
  }

  // ---------------------------------------------------------------------
  // Stable sort by a descending integer key

  ghost predicate SortedDesc<T>(s: seq<T>, key: T -> int) {
    forall i, j :: 0 <= i < j < |s| ==> key(s[i]) >= key(s[j])
  }

  /** Inserting `x` before the first element whose key is not larger: `x`
      precedes the elements with an equal key. */
  function InsertDesc<T>(x: T, s: seq<T>, key: T -> int): (r: seq<T>)
    requires SortedDesc(s, key)
    ensures SortedDesc(r, key)
    ensures multiset(r) == multiset(s) + multiset{x}
    ensures |r| == |s| + 1
  {
    if |s| == 0 || key(x) >= key(s[0]) then [x] + s
    else
      var rest := InsertDesc(x, s[1..], key);
      assert s == [s[0]] + s[1..];
      HeadBoundsInsert(x, s, rest, key);
      [s[0]] + rest
  }

  /** Keeping the head in front of a sorted insertion into the tail keeps
      the list sorted. */
  lemma HeadBoundsInsert<T>(x: T, s: seq<T>, rest: seq<T>, key: T -> int)
    requires SortedDesc(s, key) && |s| > 0 && key(x) < key(s[0])
    requires SortedDesc(rest, key) && multiset(rest) == multiset(s[1..]) + multiset{x}
    ensures SortedDesc([s[0]] + rest, key)
  {
    forall j | 0 <= j < |rest|
      ensures key(s[0]) >= key(rest[j])
    {
      assert rest[j] in multiset(rest);
      if rest[j] != x {
        assert rest[j] in multiset(s[1..]);
        var k :| 0 <= k < |s[1..]| && s[1..][k] == rest[j];
        assert s[k + 1] == rest[j];
      }
    }
    var r := [s[0]] + rest;
    forall i, j | 0 <= i < j < |r| ensures key(r[i]) >= key(r[j]) {
      assert r[j] == rest[j - 1];
      if i > 0 {
        assert r[i] == rest[i - 1];
      }
    }
  }

  /** Python's `sorted(s, key=key, reverse=True)`: descending by key, and
      elements with equal keys keep their input order. */
  function SortDesc<T>(s: seq<T>, key: T -> int): (r: seq<T>)
    ensures SortedDesc(r, key)
    ensures multiset(r) == multiset(s)
    ensures |r| == |s|
  {
    if |s| == 0 then []
    else
      assert s == [s[0]] + s[1..];
      InsertDesc(s[0], SortDesc(s[1..], key), key)
  }

  /** The elements of `s` whose key is `k`, in order. */
  function WithKey<T>(s: seq<T>, key: T -> int, k: int): seq<T>
  {
    if |s| == 0 then []
    else (if key(s[0]) == k then [s[0]] else []) + WithKey(s[1..], key, k)
  }

  lemma {:induction false} InsertDescWithKey<T>(x: T, s: seq<T>, key: T -> int, k: int)
    requires SortedDesc(s, key)
    ensures WithKey(InsertDesc(x, s, key), key, k) == WithKey([x] + s, key, k)
    decreases |s|
  {
    if |s| > 0 && key(x) < key(s[0]) {
      var tail := InsertDesc(x, s[1..], key);
      assert InsertDesc(x, s, key) == [s[0]] + tail;
      InsertDescWithKey(x, s[1..], key, k);
      assert [s[0]] + s[1..] == s;
      PassWithKey(x, s[0], s[1..], tail, key, k);
    }
  }

  /** Moving `x` past a larger-keyed element leaves each key's elements in
      place. */
  lemma PassWithKey<T>(x: T, y: T, s: seq<T>, tail: seq<T>, key: T -> int, k: int)
    requires key(x) < key(y)
    requires WithKey(tail, key, k) == WithKey([x] + s, key, k)
    ensures WithKey([y] + tail, key, k) == WithKey([x] + ([y] + s), key, k)
  {
    WithKeyCons(y, tail, key, k);
    WithKeyCons(x, s, key, k);
    WithKeyCons(x, [y] + s, key, k);
    WithKeyCons(y, s, key, k);
  }

  lemma WithKeyCons<T>(a: T, t: seq<T>, key: T -> int, k: int)
    ensures WithKey([a] + t, key, k) == (if key(a) == k then [a] else []) + WithKey(t, key, k)
  {
    assert ([a] + t)[1..] == t;
  }

  /** Stability: sorting does not reorder the elements that share a key. */
  lemma {:induction false} SortDescStable<T>(s: seq<T>, key: T -> int, k: int)
    ensures WithKey(SortDesc(s, key), key, k) == WithKey(s, key, k)
    decreases |s|
  {
    if |s| > 0 {
      InsertDescWithKey(s[0], SortDesc(s[1..], key), key, k);
      SortDescStable(s[1..], key, k);
      assert ([s[0]] + SortDesc(s[1..], key))[1..] == SortDesc(s[1..], key);
    }
  }

  // ---------------------------------------------------------------------
  // Filling a dictionary

  /** The value of the last pair with the given key (reference
      definition). */
  function LastValue<K(==), V>(pairs: seq<(K, V)>, key: K): (r: Option<V>)
    ensures r.None? <==> forall k :: 0 <= k < |pairs| ==> pairs[k].0 != key
    ensures r.Some? ==> exists k ::
      0 <= k < |pairs| && pairs[k] == (key, r.value) && forall j :: k < j < |pairs| ==> pairs[j].0 != key
  {
    if |pairs| == 0 then None
    else if pairs[|pairs| - 1].0 == key then Some(pairs[|pairs| - 1].1)
    else
      var init := pairs[..|pairs| - 1];
      var r := LastValue(init, key);
      assert forall k :: 0 <= k < |init| ==> init[k] == pairs[k];
      assert r.Some? ==> exists k ::
        0 <= k < |pairs| && pairs[k] == (key, r.value) && forall j :: k < j < |pairs| ==> pairs[j].0 != key by {
        if r.Some? {
          var k :| 0 <= k < |init| && init[k] == (key, r.value) && forall j :: k < j < |init| ==> init[j].0 != key;
          assert forall j :: k < j < |pairs| ==> pairs[j].0 != key;
        }
      }
      r
  }

  /** `d[k] = v` for each pair in order. */
  function Bind<K(==), V>(pairs: seq<(K, V)>): (m: map<K, V>)
    ensures m.Keys == (set k | 0 <= k < |pairs| :: pairs[k].0)
  {
    if |pairs| == 0 then map[]
    else
      var init := pairs[..|pairs| - 1];
      var m := Bind(init);
      assert forall k :: 0 <= k < |init| ==> init[k] == pairs[k];
      m[pairs[|pairs| - 1].0 := pairs[|pairs| - 1].1]
  }

  /** Each key is bound to the value of its last pair. */
  lemma {:induction false} BindKeepsLast<K, V>(pairs: seq<(K, V)>, key: K)
    ensures key in Bind(pairs) <==> LastValue(pairs, key).Some?
    ensures key in Bind(pairs) ==> Bind(pairs)[key] == LastValue(pairs, key).value
    decreases |pairs|
  {
    if |pairs| > 0 && pairs[|pairs| - 1].0 != key {
      BindKeepsLast(pairs[..|pairs| - 1], key);
    }
  }

  // ---------------------------------------------------------------------
  // Collecting keys

  /** The keys of all elements, or `None` when an element has none. */
  function AllKeys<T, K>(xs: seq<T>, f: T -> Option<K>): (r: Option<set<K>>)
    ensures r.Some? <==> forall k :: 0 <= k < |xs| ==> f(xs[k]).Some?
  {
    if forall k :: 0 <= k < |xs| ==> f(xs[k]).Some?
    then Some(set k | 0 <= k < |xs| :: f(xs[k]).value)
    else None
  }

  /** Every element mapped, or `None` as soon as one maps to nothing. */
  function MapAll<T, U>(xs: seq<T>, f: T -> Option<U>): (r: Option<seq<U>>)
    ensures r.Some? <==> forall k :: 0 <= k < |xs| ==> f(xs[k]).Some?
    ensures r.Some? ==> |r.value| == |xs| && forall k :: 0 <= k < |xs| ==> r.value[k] == f(xs[k]).value
  {
    if |xs| == 0 then Some([])
    else
      match (f(xs[0]), MapAll(xs[1..], f))
      case (Some(y), Some(rest)) => Some([y] + rest)
      case (None, _) => None
      case (Some(_), None) =>
        assert exists k :: 0 <= k < |xs[1..]| && f(xs[1..][k]).None?;
        None
  }

  /** The concatenation of every element's items, or `None` as soon as
      one element has none. */
  function ConcatAll<T, U>(xs: seq<T>, f: T -> Option<seq<U>>): (r: Option<seq<U>>)
    ensures r.Some? <==> forall k :: 0 <= k < |xs| ==> f(xs[k]).Some?
    ensures r.Some? ==> forall y :: y in r.value ==>
      exists k :: 0 <= k < |xs| && y in f(xs[k]).value
    ensures r.Some? ==> forall k, y :: 0 <= k < |xs| && y in f(xs[k]).value ==> y in r.value
  {
    if |xs| == 0 then Some([])
    else
      match (f(xs[0]), ConcatAll(xs[1..], f))
      case (Some(here), Some(rest)) =>
        assert forall k :: 1 <= k < |xs| ==> xs[k] == xs[1..][k - 1];
        Some(here + rest)
      case (None, _) => None
      case (Some(_), None) =>
        assert !(forall k :: 0 <= k < |xs| ==> f(xs[k]).Some?) by {
          var k :| 0 <= k < |xs[1..]| && f(xs[1..][k]).None?;
          assert xs[k + 1] == xs[1..][k];
        }
        None
  }

  /** Adding each element's key to a set in order, stopping at the first
      element without one. */
  method CollectKeys<T, K>(xs: seq<T>, f: T -> Option<K>) returns (r: Option<set<K>>)
    ensures r == AllKeys(xs, f)
  {
    var seen: set<K> := {};
    for i := 0 to |xs|
      invariant forall k :: 0 <= k < i ==> f(xs[k]).Some?
      invariant seen == set k | 0 <= k < i :: f(xs[k]).value
    {
      var key := f(xs[i]);
      if key.None? {
        return None;
      }
      seen := seen + {key.value};
    }
    r := Some(seen);
  }

  /** Elements whose keys are known have exactly those keys. */
  lemma AllKeysOf<T, K>(xs: seq<T>, f: T -> Option<K>, keys: seq<K>)
    requires |keys| == |xs| && forall k :: 0 <= k < |xs| ==> f(xs[k]) == Some(keys[k])
    ensures AllKeys(xs, f) == Some(set k | 0 <= k < |keys| :: keys[k])
  {
    assert (set k | 0 <= k < |xs| :: f(xs[k]).value) == (set k | 0 <= k < |keys| :: keys[k]);
  }

  /** The keys of two sequences one after the other are those of both. */
  lemma AllKeysAppend<T, K>(a: seq<T>, b: seq<T>, f: T -> Option<K>)
    requires AllKeys(a, f).Some? && AllKeys(b, f).Some?
    ensures AllKeys(a + b, f) == Some(AllKeys(a, f).value + AllKeys(b, f).value)
  {
    var ab := a + b;
    assert forall k :: 0 <= k < |a| ==> ab[k] == a[k];
    assert forall k :: 0 <= k < |b| ==> ab[|a| + k] == b[k];
    assert AllKeys(ab, f).Some?;
    var s := AllKeys(ab, f).value;
    assert AllKeys(a, f).value <= s by {
      forall x | x in AllKeys(a, f).value ensures x in s {
        var k :| 0 <= k < |a| && f(a[k]).value == x;
        assert f(ab[k]).value == x;
      }
    }
    assert AllKeys(b, f).value <= s by {
      forall x | x in AllKeys(b, f).value ensures x in s {
        var k :| 0 <= k < |b| && f(b[k]).value == x;
        assert f(ab[|a| + k]).value == x;
      }
    }
    assert s <= AllKeys(a, f).value + AllKeys(b, f).value by {
      forall x | x in s ensures x in AllKeys(a, f).value + AllKeys(b, f).value {
        var k :| 0 <= k < |ab| && f(ab[k]).value == x;
        if k < |a| {
          assert f(a[k]).value == x;
        } else {
          assert f(b[k - |a|]).value == x;
        }
      }
    }
    assert s == AllKeys(a, f).value + AllKeys(b, f).value;
  }
}
