/**
 * The comparator of `renderCollection` and the stable sort
 * (`Array.prototype.sort`) it is used with.
 */
module Ordering {
  import opened Wrappers
  import opened Rarity
  import opened Ledger

  /** The sort modes with a locale-independent comparator. */
  datatype SortMode = ByRarity | ByCount

  /** The comparator: negative when `a` goes first, positive when `b` does, 0 on a tie. */
  function Compare(mode: SortMode, a: Entry, b: Entry): int {
    match mode
    case ByCount => b.count - a.count
    case ByRarity =>
      var rr := RarityRank(b.rarity) - RarityRank(a.rarity);
      if rr != 0 then rr else b.count - a.count
  }

  /** What the comparator compares: a tie is exactly an equal key. */
  function Key(mode: SortMode, e: Entry): (int, int) {
    match mode
    case ByCount => (0, e.count)
    case ByRarity => (RarityRank(e.rarity), e.count)
  }

  /** A sort key: larger keys go first, compared lexicographically. */
  type KeyFn = Entry -> (int, int)

  function KeyOf(mode: SortMode): KeyFn {
    e => Key(mode, e)
  }

  /** `a` may stand before `b`: its key is not smaller. */
  predicate Before(key: KeyFn, a: Entry, b: Entry) {
    key(a).0 > key(b).0 || (key(a).0 == key(b).0 && key(a).1 >= key(b).1)
  }

  /** `a` must stand before `b`: its key is larger. */
  predicate Ahead(key: KeyFn, a: Entry, b: Entry) {
    key(a).0 > key(b).0 || (key(a).0 == key(b).0 && key(a).1 > key(b).1)
  }

  /** The comparator orders by key, higher keys first, lexicographically, and is antisymmetric. */
  lemma CompareMeaning(mode: SortMode, a: Entry, b: Entry)
    ensures Compare(mode, a, b) == 0 <==> Key(mode, a) == Key(mode, b)
    ensures Compare(mode, a, b) < 0 <==> Ahead(KeyOf(mode), a, b)
    ensures Compare(mode, a, b) <= 0 <==> Before(KeyOf(mode), a, b)
    ensures Compare(mode, b, a) == -Compare(mode, a, b)
  {
  }

  // ---------------------------------------------------------------------
  // A stable sort by key
  // ---------------------------------------------------------------------

  predicate Sorted(key: KeyFn, s: seq<Entry>) {
    forall i, j :: 0 <= i < j < |s| ==> Before(key, s[i], s[j])
  }

  /** Insert `x` before the first element it must precede, so equal keys keep their order. */
  function Insert(key: KeyFn, s: seq<Entry>, x: Entry): seq<Entry> {
    if s == [] then [x]
    else if Ahead(key, x, s[0]) then [x] + s
    else [s[0]] + Insert(key, s[1..], x)
  }

  /** Stable insertion sort: the unique stable result any stable sort gives for this key. */
  function SortBy(key: KeyFn, s: seq<Entry>): seq<Entry> {
    if s == [] then [] else Insert(key, SortBy(key, s[..|s| - 1]), s[|s| - 1])
  }

  /** `items.sort(comparator)` in `mode`. */
  function Sort(mode: SortMode, s: seq<Entry>): seq<Entry> {
    SortBy(KeyOf(mode), s)
  }

  /** The entries of `s` whose key is `k`, in order. */
  function KeyClass(key: KeyFn, s: seq<Entry>, k: (int, int)): seq<Entry> {
    if s == [] then []
    else (if key(s[0]) == k then [s[0]] else []) + KeyClass(key, s[1..], k)
  }

  lemma {:induction false} KeyClassAppend(key: KeyFn, a: seq<Entry>, b: seq<Entry>, k: (int, int))
    ensures KeyClass(key, a + b, k) == KeyClass(key, a, k) + KeyClass(key, b, k)
    decreases |a|
  {
    if a == [] {
      assert a + b == b;
    } else {
      assert (a + b)[1..] == a[1..] + b;
      KeyClassAppend(key, a[1..], b, k);
    }
  }

  lemma {:induction false} InsertPermutes(key: KeyFn, s: seq<Entry>, x: Entry)
    ensures multiset(Insert(key, s, x)) == multiset(s) + multiset{x}
    decreases |s|
  {
    if s != [] && !Ahead(key, x, s[0]) {
      InsertPermutes(key, s[1..], x);
      assert s == [s[0]] + s[1..];
    }
  }

  lemma SortedTail(key: KeyFn, s: seq<Entry>)
    requires Sorted(key, s) && s != []
    ensures Sorted(key, s[1..])
  {
    forall i, j | 0 <= i < j < |s[1..]|
      ensures Before(key, s[1..][i], s[1..][j])
    {
      assert s[1..][i] == s[i + 1] && s[1..][j] == s[j + 1];
    }
  }

  lemma {:induction false} InsertSorted(key: KeyFn, s: seq<Entry>, x: Entry)
    requires Sorted(key, s)
    ensures Sorted(key, Insert(key, s, x))
    decreases |s|
  {
    if s == [] {
    } else if Ahead(key, x, s[0]) {
      InsertFrontSorted(key, s, x);
    } else {
      SortedTail(key, s);
      InsertSorted(key, s[1..], x);
      InsertBehindSorted(key, s, x);
    }
  }

  lemma InsertFrontSorted(key: KeyFn, s: seq<Entry>, x: Entry)
    requires Sorted(key, s) && s != [] && Ahead(key, x, s[0])
    ensures Sorted(key, Insert(key, s, x))
  {
    var r := Insert(key, s, x);
    assert r == [x] + s;
    forall i, j | 0 <= i < j < |r|
      ensures Before(key, r[i], r[j])
    {
      if i == 0 {
        assert Before(key, s[0], s[j - 1]);
      } else {
        assert r[i] == s[i - 1] && r[j] == s[j - 1];
      }
    }
  }

  /** When `x` goes behind the head, the head still precedes everything after it. */
  lemma InsertBehindSorted(key: KeyFn, s: seq<Entry>, x: Entry)
    requires Sorted(key, s) && s != [] && !Ahead(key, x, s[0])
    requires Sorted(key, Insert(key, s[1..], x))
    ensures Sorted(key, Insert(key, s, x))
  {
    var r := Insert(key, s, x);
    var tail := Insert(key, s[1..], x);
    assert r == [s[0]] + tail;
    assert forall j :: 0 <= j < |s[1..]| ==> s[1..][j] == s[j + 1];
    InsertKeepsBound(key, s[0], s[1..], x);
    forall i, j | 0 <= i < j < |r|
      ensures Before(key, r[i], r[j])
    {
      assert r[j] == tail[j - 1];
      if i > 0 {
        assert r[i] == tail[i - 1];
      }
    }
  }

  /** An entry that may precede every element of `t` and `x` may precede every element of `Insert(t, x)`. */
  lemma {:induction false} InsertKeepsBound(key: KeyFn, h: Entry, t: seq<Entry>, x: Entry)
    requires Before(key, h, x)
    requires forall j :: 0 <= j < |t| ==> Before(key, h, t[j])
    ensures forall j :: 0 <= j < |Insert(key, t, x)| ==> Before(key, h, Insert(key, t, x)[j])
    decreases |t|
  {
    if t != [] && !Ahead(key, x, t[0]) {
      assert forall j :: 0 <= j < |t[1..]| ==> t[1..][j] == t[j + 1];
      InsertKeepsBound(key, h, t[1..], x);
      assert Insert(key, t, x) == [t[0]] + Insert(key, t[1..], x);
    } else if t != [] {
      assert Insert(key, t, x) == [x] + t;
    }
  }

  lemma {:induction false} InsertStable(key: KeyFn, s: seq<Entry>, x: Entry, k: (int, int))
    requires Sorted(key, s)
    ensures KeyClass(key, Insert(key, s, x), k) == KeyClass(key, s, k) + KeyClass(key, [x], k)
    decreases |s|
  {
    if s == [] {
      assert Insert(key, s, x) == [x];
      assert s + [x] == [x];
    } else if Ahead(key, x, s[0]) {
      InsertFrontStable(key, s, x, k);
    } else {
      SortedTail(key, s);
      InsertStable(key, s[1..], x, k);
      InsertBehindStable(key, s, x, k);
    }
  }

  /** Inserting at the front keeps every key class stable: nothing in `s` ties with `x`. */
  lemma InsertFrontStable(key: KeyFn, s: seq<Entry>, x: Entry, k: (int, int))
    requires Sorted(key, s) && s != [] && Ahead(key, x, s[0])
    ensures KeyClass(key, Insert(key, s, x), k) == KeyClass(key, s, k) + KeyClass(key, [x], k)
  {
    assert Insert(key, s, x) == [x] + s;
    KeyClassAppend(key, [x], s, k);
    if key(x) == k {
      NoneWithKey(key, s, x);
    } else {
      assert KeyClass(key, [x], k) == [];
    }
  }

  /** When `x` goes behind the head, the head stays first in its key class. */
  lemma InsertBehindStable(key: KeyFn, s: seq<Entry>, x: Entry, k: (int, int))
    requires s != [] && !Ahead(key, x, s[0])
    requires KeyClass(key, Insert(key, s[1..], x), k) == KeyClass(key, s[1..], k) + KeyClass(key, [x], k)
    ensures KeyClass(key, Insert(key, s, x), k) == KeyClass(key, s, k) + KeyClass(key, [x], k)
  {
    assert Insert(key, s, x) == [s[0]] + Insert(key, s[1..], x);
    assert s == [s[0]] + s[1..];
    ConsClass(key, s[0], s[1..], Insert(key, s[1..], x), KeyClass(key, [x], k), k);
  }

  /** Putting the same entry in front of two lists keeps a key-class relation between them. */
  lemma ConsClass(key: KeyFn, e: Entry, t: seq<Entry>, t': seq<Entry>, b: seq<Entry>, k: (int, int))
    requires KeyClass(key, t', k) == KeyClass(key, t, k) + b
    ensures KeyClass(key, [e] + t', k) == KeyClass(key, [e] + t, k) + b
  {
    var head := if key(e) == k then [e] else [];
    KeyClassCons(key, e, t', k);
    KeyClassCons(key, e, t, k);
    assert head + (KeyClass(key, t, k) + b) == (head + KeyClass(key, t, k)) + b;
  }

  lemma KeyClassCons(key: KeyFn, e: Entry, t: seq<Entry>, k: (int, int))
    ensures KeyClass(key, [e] + t, k) == (if key(e) == k then [e] else []) + KeyClass(key, t, k)
  {
    assert ([e] + t)[0] == e;
    assert ([e] + t)[1..] == t;
  }

  /** When `x` must precede the head of a sorted `s`, no element of `s` ties with `x`. */
  lemma NoneWithKey(key: KeyFn, s: seq<Entry>, x: Entry)
    requires Sorted(key, s) && s != [] && Ahead(key, x, s[0])
    ensures KeyClass(key, s, key(x)) == []
  {
    forall i | 0 <= i < |s|
      ensures key(s[i]) != key(x)
    {
      if i > 0 {
        assert Before(key, s[0], s[i]);
      }
    }
    KeyClassEmpty(key, s, key(x));
  }

  lemma {:induction false} KeyClassEmpty(key: KeyFn, s: seq<Entry>, k: (int, int))
    requires forall i :: 0 <= i < |s| ==> key(s[i]) != k
    ensures KeyClass(key, s, k) == []
    decreases |s|
  {
    if s != [] {
      KeyClassEmpty(key, s[1..], k);
    }
  }

  /** Sorting by a key orders, permutes and keeps every key class in input order. */
  lemma {:induction false} SortByCorrect(key: KeyFn, s: seq<Entry>)
    ensures Sorted(key, SortBy(key, s))
    ensures multiset(SortBy(key, s)) == multiset(s)
    ensures forall k :: KeyClass(key, SortBy(key, s), k) == KeyClass(key, s, k)
    decreases |s|
  {
    if s != [] {
      var init := s[..|s| - 1];
      var x := s[|s| - 1];
      SortByCorrect(key, init);
      InsertSorted(key, SortBy(key, init), x);
      InsertPermutes(key, SortBy(key, init), x);
      assert s == init + [x];
      forall k ensures KeyClass(key, SortBy(key, s), k) == KeyClass(key, s, k) {
        InsertStable(key, SortBy(key, init), x, k);
        KeyClassAppend(key, init, [x], k);
      }
    }
  }

  // ---------------------------------------------------------------------
  // The collection sort
  // ---------------------------------------------------------------------

  /**
   * The sorted list is in comparator order (no later entry must come
   * before an earlier one), is a permutation of its input, and is stable:
   * entries the comparator ties keep their relative order.
   */
  lemma SortCorrect(mode: SortMode, s: seq<Entry>)
    ensures var r := Sort(mode, s);
      forall i, j :: 0 <= i < j < |r| ==> Compare(mode, r[i], r[j]) <= 0
    ensures multiset(Sort(mode, s)) == multiset(s)
    ensures forall k :: KeyClass(KeyOf(mode), Sort(mode, s), k) == KeyClass(KeyOf(mode), s, k)
  {
    SortByCorrect(KeyOf(mode), s);
    var r := Sort(mode, s);
    forall i, j | 0 <= i < j < |r|
      ensures Compare(mode, r[i], r[j]) <= 0
    {
      assert Before(KeyOf(mode), r[i], r[j]);
      CompareMeaning(mode, r[i], r[j]);
    }
  }

  /**
   * In "rarity" mode higher ranks come first and, within a rank, higher
   * counts; in "count" mode higher counts come first.
   */
  lemma SortOrder(mode: SortMode, s: seq<Entry>, i: nat, j: nat)
    requires i < j < |s|
    ensures var r := Sort(mode, s);
      |r| == |s| &&
      match mode
      case ByRarity =>
        RarityRank(r[i].rarity) > RarityRank(r[j].rarity)
        || (RarityRank(r[i].rarity) == RarityRank(r[j].rarity) && r[i].count >= r[j].count)
      case ByCount => r[i].count >= r[j].count
  {
    SortByCorrect(KeyOf(mode), s);
    var r := Sort(mode, s);
    assert |r| == |multiset(r)| == |multiset(s)| == |s|;
    assert Before(KeyOf(mode), r[i], r[j]);
  }

  /** In "rarity" mode the first entry has the highest rank present, e.g. a legendary before any common. */
  lemma HighestRankFirst(s: seq<Entry>, e: Entry)
    requires e in s
    ensures |Sort(ByRarity, s)| > 0
    ensures RarityRank(Sort(ByRarity, s)[0].rarity) >= RarityRank(e.rarity)
  {
    SortByCorrect(KeyOf(ByRarity), s);
    var r := Sort(ByRarity, s);
    assert e in multiset(r);
    var j :| 0 <= j < |r| && r[j] == e;
    if j > 0 {
      assert Before(KeyOf(ByRarity), r[0], r[j]);
    }
  }
}
