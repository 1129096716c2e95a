/**
 * The collection ledger of public/main.js: `addToCollection` and
 * `computeStats`. The ledger is the in-memory value of the stored
 * collection object; its entries are kept in insertion order, the order in
 * which `Object.values` and `for ... in` visit them.
 */
module Ledger {
  import opened Wrappers
  import opened Rarity
  import opened Catalog

  datatype Entry = Entry(id: string, name: string, image: string, rarity: Option<string>, count: int)

  type Collection = seq<Entry>

  /** The stored object maps each id to one entry: no id occurs twice. */
  predicate Keyed(col: Collection) {
    forall i, j :: 0 <= i < j < |col| ==> col[i].id != col[j].id
  }

  /** Every stored entry has been counted at least once. */
  predicate Positive(col: Collection) {
    forall i :: 0 <= i < |col| ==> col[i].count >= 1
  }

  /** `c.id ?? \`${c.name ?? "card"}|${c.image ?? ""}\``. */
  function CardId(c: Card): string {
    match c.id
    case Some(i) => i
    case None => c.name.GetOr("card") + "|" + c.image.GetOr("")
  }

  /** The zero-count entry created for a card whose id is not yet stored. */
  function NewEntry(c: Card): Entry {
    Entry(CardId(c), c.name.GetOr("Sans nom"), c.image.GetOr(""), Some(c.rarity.GetOr("common")), 0)
  }

  /** Position of the entry stored under `id`. */
  function IndexOf(col: Collection, id: string): (r: Option<nat>)
    ensures r.Some? ==> r.value < |col| && col[r.value].id == id
    ensures r.None? ==> forall i :: 0 <= i < |col| ==> col[i].id != id
  {
    if col == [] then None
    else if col[|col| - 1].id == id then Some(|col| - 1)
    else IndexOf(col[..|col| - 1], id)
  }

  /** The count stored under `id`, 0 when there is no entry. */
  function CountOf(col: Collection, id: string): int {
    match IndexOf(col, id)
    case Some(i) => col[i].count
    case None => 0
  }

  /** `col[id].count += 1`. */
  function Bump(col: Collection, id: string): Collection {
    match IndexOf(col, id)
    case Some(i) => col[i := col[i].(count := col[i].count + 1)]
    case None => col
  }

  /** One iteration of `addToCollection`: create the entry if absent, then count the card. */
  function AddCard(col: Collection, c: Card): Collection {
    var withEntry := if IndexOf(col, CardId(c)).None? then col + [NewEntry(c)] else col;
    Bump(withEntry, CardId(c))
  }

  /** `addToCollection(cardsPulled)` on the loaded collection. */
  function AddToCollection(col: Collection, drawn: seq<Card>): Collection
    decreases |drawn|
  {
    if drawn == [] then col else AddToCollection(AddCard(col, drawn[0]), drawn[1..])
  }

  /** How many cards of `drawn` map to `id`. */
  function Occurrences(drawn: seq<Card>, id: string): nat {
    if drawn == [] then 0
    else (if CardId(drawn[0]) == id then 1 else 0) + Occurrences(drawn[1..], id)
  }

  /** Sum of all entry counts. */
  function SumCounts(col: Collection): int {
    if col == [] then 0 else SumCounts(col[..|col| - 1]) + col[|col| - 1].count
  }

  // ---------------------------------------------------------------------
  // Lemmas about one card
  // ---------------------------------------------------------------------

  lemma {:induction false} IndexOfKeyed(col: Collection, i: nat)
    requires Keyed(col) && i < |col|
    ensures IndexOf(col, col[i].id) == Some(i)
    decreases |col|
  {
    if i < |col| - 1 {
      assert col[..|col| - 1][i] == col[i];
      IndexOfKeyed(col[..|col| - 1], i);
    }
  }

  lemma {:induction false} SumCountsUpdate(col: Collection, i: nat, e: Entry)
    requires i < |col|
    ensures SumCounts(col[i := e]) == SumCounts(col) - col[i].count + e.count
    decreases |col|
  {
    var n := |col|;
    if i < n - 1 {
      assert col[i := e][..n - 1] == col[..n - 1][i := e];
      SumCountsUpdate(col[..n - 1], i, e);
    } else {
      assert col[i := e][..n - 1] == col[..n - 1];
    }
  }

  /** Appending a fresh entry and bumping it. */
  lemma AppendThenBump(col: Collection, c: Card)
    requires IndexOf(col, CardId(c)).None?
    ensures IndexOf(col + [NewEntry(c)], CardId(c)) == Some(|col|)
    ensures AddCard(col, c) == col + [NewEntry(c).(count := 1)]
  {
    var e := NewEntry(c);
    var w := col + [e];
    IndexOfLast(col, e);
    assert AddCard(col, c) == Bump(w, CardId(c));
    assert Bump(w, CardId(c)) == w[|col| := e.(count := 1)];
    SnocUpdate(col, e, e.(count := 1));
  }

  /** The entry just appended is found at the end. */
  lemma IndexOfLast(col: Collection, e: Entry)
    ensures IndexOf(col + [e], e.id) == Some(|col|)
  {
    var w := col + [e];
    assert w[|w| - 1] == e;
  }

  lemma SnocUpdate(col: Collection, e: Entry, e': Entry)
    ensures (col + [e])[|col| := e'] == col + [e']
  {
  }

  /**
   * `col'` is `col` with card `c` recorded once: its id's count is one
   * higher, every other entry is where and as it was, ids stay unique, a
   * new id gets a fresh entry at the end, and the total is one higher.
   */
  ghost predicate RecordedOnce(col: Collection, col': Collection, c: Card) {
    && Keyed(col')
    && |col| <= |col'| <= |col| + 1
    && (forall i :: 0 <= i < |col| ==> col'[i].id == col[i].id)
    && (forall i :: 0 <= i < |col| && col[i].id != CardId(c) ==> col'[i] == col[i])
    && (forall id :: CountOf(col', id) == CountOf(col, id) + (if id == CardId(c) then 1 else 0))
    && (forall id :: id != CardId(c) ==> IndexOf(col', id) == IndexOf(col, id))
    && (|col'| == |col| + 1 ==> IndexOf(col, CardId(c)).None? && col'[|col|] == NewEntry(c).(count := 1))
    && SumCounts(col') == SumCounts(col) + 1
  }

  /** One iteration of the loop records its card once. */
  lemma AddCardEffect(col: Collection, c: Card)
    requires Keyed(col)
    ensures RecordedOnce(col, AddCard(col, c), c)
  {
    match IndexOf(col, CardId(c))
    case Some(k) => BumpExisting(col, c, k);
    case None => AppendNew(col, c);
  }

  lemma BumpExisting(col: Collection, c: Card, k: nat)
    requires Keyed(col) && IndexOf(col, CardId(c)) == Some(k)
    ensures RecordedOnce(col, AddCard(col, c), c)
  {
    AddCardAt(col, c, k);
    CountUp(col, c, k);
  }

  /** A card already in the ledger only raises the count of its entry. */
  lemma AddCardAt(col: Collection, c: Card, k: nat)
    requires IndexOf(col, CardId(c)) == Some(k)
    ensures AddCard(col, c) == col[k := col[k].(count := col[k].count + 1)]
  {
    assert AddCard(col, c) == Bump(col, CardId(c));
  }

  /** Raising the count of the entry at `k`, the entry of card `c`, records `c` once. */
  lemma CountUp(col: Collection, c: Card, k: nat)
    requires Keyed(col) && k < |col| && col[k].id == CardId(c)
    ensures RecordedOnce(col, col[k := col[k].(count := col[k].count + 1)], c)
  {
    var id := CardId(c);
    var e := col[k].(count := col[k].count + 1);
    var col' := col[k := e];
    assert forall i :: 0 <= i < |col| && i != k ==> col'[i] == col[i];
    assert Keyed(col') by {
      forall i, j | 0 <= i < j < |col'|
        ensures col'[i].id != col'[j].id
      {
        assert col'[i].id == col[i].id && col'[j].id == col[j].id;
      }
    }
    assert SumCounts(col') == SumCounts(col) + 1 by {
      SumCountsUpdate(col, k, e);
    }
    assert CountOf(col', id) == CountOf(col, id) + 1 by {
      IndexOfKeyed(col', k);
      IndexOfKeyed(col, k);
    }
    forall other | other != id
      ensures IndexOf(col', other) == IndexOf(col, other)
      ensures CountOf(col', other) == CountOf(col, other)
    {
      IndexOfOtherUnchanged(col, k, e, other);
    }
  }

  lemma AppendNew(col: Collection, c: Card)
    requires Keyed(col) && IndexOf(col, CardId(c)).None?
    ensures RecordedOnce(col, AddCard(col, c), c)
  {
    var id := CardId(c);
    var e := NewEntry(c).(count := 1);
    var col' := AddCard(col, c);
    AppendThenBump(col, c);
    assert col' == col + [e];
    assert col'[..|col|] == col;
    assert col'[|col|] == e && e.id == id;
    assert SumCounts(col') == SumCounts(col) + 1;
    assert Keyed(col') by {
      forall i, j | 0 <= i < j < |col'|
        ensures col'[i].id != col'[j].id
      {
        if j < |col| {
          assert col'[i] == col[i] && col'[j] == col[j];
        } else {
          assert col'[i] == col[i];
        }
      }
    }
    forall other | other != id
      ensures IndexOf(col', other) == IndexOf(col, other)
    {
      assert IndexOf(col', other) == IndexOf(col'[..|col|], other);
    }
    forall other
      ensures CountOf(col', other) == CountOf(col, other) + (if other == id then 1 else 0)
    {
      if other != id {
        assert IndexOf(col', other) == IndexOf(col'[..|col|], other);
        match IndexOf(col, other)
        case Some(i) => assert col'[i] == col[i];
        case None =>
      }
    }
  }

  /** Replacing an entry by one with the same id does not move any other id. */
  lemma {:induction false} IndexOfOtherUnchanged(col: Collection, k: nat, e: Entry, other: string)
    requires k < |col| && e.id == col[k].id && other != e.id
    ensures IndexOf(col[k := e], other) == IndexOf(col, other)
    decreases |col|
  {
    var n := |col|;
    if col[n - 1].id == other {
    } else if k < n - 1 {
      assert col[k := e][..n - 1] == col[..n - 1][k := e];
      IndexOfOtherUnchanged(col[..n - 1], k, e, other);
    } else {
      assert col[k := e][..n - 1] == col[..n - 1];
    }
  }

  // ---------------------------------------------------------------------
  // addToCollection
  // ---------------------------------------------------------------------

  /**
   * After `addToCollection(drawn)` every id's count has risen by the number
   * of drawn cards that map to it; ids stay unique, earlier entries keep
   * their place, and the total rises by exactly |drawn|.
   */
  lemma {:induction false} AddToCollectionCounts(col: Collection, drawn: seq<Card>)
    requires Keyed(col)
    ensures var col' := AddToCollection(col, drawn);
      && Keyed(col')
      && |col| <= |col'|
      && (forall i :: 0 <= i < |col| ==> col'[i].id == col[i].id)
      && (forall id :: CountOf(col', id) == CountOf(col, id) + Occurrences(drawn, id))
      && SumCounts(col') == SumCounts(col) + |drawn|
    decreases |drawn|
  {
    if drawn != [] {
      AddCardEffect(col, drawn[0]);
      AddToCollectionCounts(AddCard(col, drawn[0]), drawn[1..]);
    }
  }

  /** Ids that no drawn card maps to keep their entry unchanged and in place. */
  lemma {:induction false} AddToCollectionLeavesOthers(col: Collection, drawn: seq<Card>, id: string)
    requires Keyed(col)
    requires Occurrences(drawn, id) == 0
    ensures var col' := AddToCollection(col, drawn);
      && IndexOf(col', id) == IndexOf(col, id)
      && (IndexOf(col, id).Some? ==> col'[IndexOf(col, id).value] == col[IndexOf(col, id).value])
    decreases |drawn|
  {
    if drawn != [] {
      var col1 := AddCard(col, drawn[0]);
      AddCardEffect(col, drawn[0]);
      if IndexOf(col, id).Some? {
        assert col1[IndexOf(col, id).value] == col[IndexOf(col, id).value];
      }
      AddToCollectionLeavesOthers(col1, drawn[1..], id);
    }
  }

  /** Recording keeps every stored count at least 1, so a stored entry always has count >= 1. */
  lemma {:induction false} AddToCollectionPositive(col: Collection, drawn: seq<Card>)
    requires Keyed(col) && Positive(col)
    ensures Positive(AddToCollection(col, drawn))
    decreases |drawn|
  {
    if drawn != [] {
      var col1 := AddCard(col, drawn[0]);
      AddCardEffect(col, drawn[0]);
      forall i | 0 <= i < |col1|
        ensures col1[i].count >= 1
      {
        if i < |col| && col[i].id == CardId(drawn[0]) {
          IndexOfKeyed(col, i);
          IndexOfKeyed(col1, i);
          assert CountOf(col1, col[i].id) == col1[i].count;
        }
      }
      AddToCollectionPositive(col1, drawn[1..]);
    }
  }

  /** Drawn card `j` is the first of the draw with an id the collection does not hold. */
  predicate FirstNewAt(col: Collection, drawn: seq<Card>, j: nat)
    requires j < |drawn|
  {
    && IndexOf(col, CardId(drawn[j])).None?
    && forall i :: 0 <= i < j ==> CardId(drawn[i]) != CardId(drawn[j])
  }

  /** How many of the first `k` drawn cards open a new entry. */
  function NewIdsBefore(col: Collection, drawn: seq<Card>, k: nat): nat
    requires k <= |drawn|
  {
    if k == 0 then 0
    else NewIdsBefore(col, drawn, k - 1) + (if FirstNewAt(col, drawn, k - 1) then 1 else 0)
  }

  /** Recording the first card adds an entry exactly when its id was not held. */
  lemma AddCardLength(col: Collection, c: Card)
    requires Keyed(col)
    ensures |AddCard(col, c)| == |col| + (if IndexOf(col, CardId(c)).None? then 1 else 0)
    ensures IndexOf(AddCard(col, c), CardId(c)).Some?
  {
    AddCardEffect(col, c);
    match IndexOf(col, CardId(c))
    case Some(k) =>
      assert AddCard(col, c)[k].id == CardId(c);
    case None =>
      AppendThenBump(col, c);
      assert AddCard(col, c)[|col|].id == CardId(c);
  }

  /** Whether card `j` opens a new entry does not change when the first card is recorded beforehand. */
  lemma FirstNewShift(col: Collection, drawn: seq<Card>, j: nat)
    requires Keyed(col) && 1 <= j < |drawn|
    ensures FirstNewAt(col, drawn, j) <==> FirstNewAt(AddCard(col, drawn[0]), drawn[1..], j - 1)
  {
    AddCardEffect(col, drawn[0]);
    AddCardLength(col, drawn[0]);
    assert forall i :: 0 <= i < j - 1 ==> drawn[1..][i] == drawn[i + 1];
    assert drawn[1..][j - 1] == drawn[j];
  }

  /** Counting new ids before `k` in the whole draw, or after recording its first card. */
  lemma {:induction false} NewIdsShift(col: Collection, drawn: seq<Card>, k: nat)
    requires Keyed(col) && 1 <= k <= |drawn|
    ensures NewIdsBefore(col, drawn, k)
         == (if IndexOf(col, CardId(drawn[0])).None? then 1 else 0)
            + NewIdsBefore(AddCard(col, drawn[0]), drawn[1..], k - 1)
  {
    if k > 1 {
      NewIdsShift(col, drawn, k - 1);
      FirstNewShift(col, drawn, k - 1);
    }
  }

  /**
   * An id that was not stored and that some drawn card maps to gets a new
   * entry: name, image and rarity from the first such card with the
   * defaults "Sans nom", "" and "common", and count = its occurrences.
   * New entries are appended in the order their ids first appear in the
   * draw, after the stored ones.
   */
  lemma {:induction false} AddToCollectionNewEntry(col: Collection, drawn: seq<Card>, k: nat)
    requires Keyed(col) && k < |drawn|
    requires IndexOf(col, CardId(drawn[k])).None?
    requires forall j :: 0 <= j < k ==> CardId(drawn[j]) != CardId(drawn[k])
    ensures var col' := AddToCollection(col, drawn);
      var id := CardId(drawn[k]);
      && IndexOf(col', id).Some?
      && col'[IndexOf(col', id).value] == NewEntry(drawn[k]).(count := Occurrences(drawn, id))
      && IndexOf(col', id).value == |col| + NewIdsBefore(col, drawn, k)
    decreases |drawn|
  {
    if k == 0 {
      FirstNewEntry(col, drawn);
    } else {
      var id := CardId(drawn[k]);
      var col1 := AddCard(col, drawn[0]);
      AddCardEffect(col, drawn[0]);
      assert CardId(drawn[0]) != id;
      assert IndexOf(col1, id) == IndexOf(col, id);
      assert Occurrences(drawn, id) == Occurrences(drawn[1..], id);
      assert forall j :: 0 <= j < k - 1 ==> drawn[1..][j] == drawn[j + 1];
      assert drawn[1..][k - 1] == drawn[k];
      AddToCollectionNewEntry(col1, drawn[1..], k - 1);
      AddCardLength(col, drawn[0]);
      NewIdsShift(col, drawn, k);
    }
  }

  /** The first card of a draw whose id is not stored creates the entry that ends up holding all its occurrences. */
  lemma FirstNewEntry(col: Collection, drawn: seq<Card>)
    requires Keyed(col) && drawn != []
    requires IndexOf(col, CardId(drawn[0])).None?
    ensures var col' := AddToCollection(col, drawn);
      var id := CardId(drawn[0]);
      && IndexOf(col', id).Some?
      && col'[IndexOf(col', id).value] == NewEntry(drawn[0]).(count := Occurrences(drawn, id))
      && IndexOf(col', id) == Some(|col|)
  {
    var id := CardId(drawn[0]);
    var col1 := AddCard(col, drawn[0]);
    var col' := AddToCollection(col, drawn);
    assert col' == AddToCollection(col1, drawn[1..]);
    AppendThenBump(col, drawn[0]);
    assert col1 == col + [NewEntry(drawn[0]).(count := 1)];
    assert Keyed(col1);
    IndexOfKeyed(col1, |col|);
    assert CountOf(col1, id) == 1;
    AddToCollectionCounts(col1, drawn[1..]);
    assert CountOf(col', id) == 1 + Occurrences(drawn[1..], id);
    StoredEntryFields(col1, drawn[1..], |col|);
    assert col'[|col|] == NewEntry(drawn[0]).(count := Occurrences(drawn, id));
    IndexOfKeyed(col', |col|);
  }

  /** Recording never changes an entry's id, name, image or rarity, only its count. */
  lemma {:induction false} StoredEntryFields(col: Collection, drawn: seq<Card>, i: nat)
    requires Keyed(col) && i < |col|
    ensures var col' := AddToCollection(col, drawn);
      i < |col'| && col'[i] == col[i].(count := CountOf(col', col[i].id) - CountOf(col, col[i].id) + col[i].count)
    decreases |drawn|
  {
    if drawn != [] {
      var col1 := AddCard(col, drawn[0]);
      AddCardEffect(col, drawn[0]);
      IndexOfKeyed(col, i);
      IndexOfKeyed(col1, i);
      StoredEntryFields(col1, drawn[1..], i);
    }
  }

  // ---------------------------------------------------------------------
  // computeStats
  // ---------------------------------------------------------------------

  /** One key of the `by` object and its value. */
  datatype Tally = Tally(rarity: string, amount: int)

  /** The `{ total, by }` result; `tallies` is the `by` object, in the object's key order. */
  datatype Stats = Stats(total: int, tallies: seq<Tally>)

  /** `{ common: 0, rare: 0, epic: 0, legendary: 0 }`. */
  function InitialTallies(): seq<Tally> {
    [Tally(Name(Common), 0), Tally(Name(Rare), 0), Tally(Name(Epic), 0), Tally(Name(Legendary), 0)]
  }

  /** `item.rarity ?? "common"`. */
  function RarityKey(e: Entry): string {
    e.rarity.GetOr(Name(Common))
  }

  /** Value of key `k` in `by`, 0 when absent. */
  function TallyOf(tallies: seq<Tally>, k: string): int {
    if tallies == [] then 0
    else if tallies[0].rarity == k then tallies[0].amount
    else TallyOf(tallies[1..], k)
  }

  predicate HasKey(tallies: seq<Tally>, k: string) {
    exists i :: 0 <= i < |tallies| && tallies[i].rarity == k
  }

  predicate DistinctKeys(tallies: seq<Tally>) {
    forall i, j :: 0 <= i < j < |tallies| ==> tallies[i].rarity != tallies[j].rarity
  }

  /** `if (by[r] == null) by[r] = 0; by[r] += n`. */
  function AddTally(tallies: seq<Tally>, k: string, n: int): seq<Tally> {
    if tallies == [] then [Tally(k, n)]
    else if tallies[0].rarity == k then [tallies[0].(amount := tallies[0].amount + n)] + tallies[1..]
    else [tallies[0]] + AddTally(tallies[1..], k, n)
  }

  /** `computeStats(col)`. */
  function ComputeStats(col: Collection): Stats {
    if col == [] then Stats(0, InitialTallies())
    else
      var s := ComputeStats(col[..|col| - 1]);
      var e := col[|col| - 1];
      Stats(s.total + e.count, AddTally(s.tallies, RarityKey(e), e.count))
  }

  /** Sum of the counts of the entries filed under rarity `k` (missing rarity filed as common). */
  function SumRarity(col: Collection, k: string): int {
    if col == [] then 0
    else SumRarity(col[..|col| - 1], k) + (if RarityKey(col[|col| - 1]) == k then col[|col| - 1].count else 0)
  }

  /** Sum of all values of `by`. */
  function SumTallies(tallies: seq<Tally>): int {
    if tallies == [] then 0 else tallies[0].amount + SumTallies(tallies[1..])
  }

  lemma HasKeyCons(x: Tally, rest: seq<Tally>, j: string)
    ensures HasKey([x] + rest, j) <==> x.rarity == j || HasKey(rest, j)
  {
    if x.rarity == j {
      assert ([x] + rest)[0].rarity == j;
    }
    if HasKey(rest, j) {
      var i :| 0 <= i < |rest| && rest[i].rarity == j;
      assert ([x] + rest)[i + 1] == rest[i];
    }
    if HasKey([x] + rest, j) && x.rarity != j {
      var i :| 0 <= i < |rest| + 1 && ([x] + rest)[i].rarity == j;
      assert rest[i - 1] == ([x] + rest)[i];
    }
  }

  /**
   * Adding under key `k` keeps every existing key in place, keeps keys
   * distinct, and appends `k` exactly when it was missing.
   */
  lemma {:induction false} AddTallyKeys(tallies: seq<Tally>, k: string, n: int)
    requires DistinctKeys(tallies)
    ensures var t' := AddTally(tallies, k, n);
      && DistinctKeys(t')
      && |t'| == (if HasKey(tallies, k) then |tallies| else |tallies| + 1)
      && (forall i :: 0 <= i < |tallies| ==> t'[i].rarity == tallies[i].rarity)
      && (forall j :: HasKey(t', j) <==> HasKey(tallies, j) || j == k)
    decreases |tallies|
  {
    if tallies != [] {
      var rest := AddTally(tallies[1..], k, n);
      AddTallyKeys(tallies[1..], k, n);
      assert tallies == [tallies[0]] + tallies[1..];
      HasKeyCons(tallies[0], tallies[1..], k);
      if tallies[0].rarity != k {
        forall j ensures HasKey([tallies[0]] + rest, j) <==> HasKey(tallies, j) || j == k {
          HasKeyCons(tallies[0], rest, j);
          HasKeyCons(tallies[0], tallies[1..], j);
        }
        HasKeyCons(tallies[0], tallies[1..], tallies[0].rarity);
        assert !HasKey(rest, tallies[0].rarity);
      } else {
        forall j ensures HasKey(AddTally(tallies, k, n), j) <==> HasKey(tallies, j) {
          HasKeyCons(tallies[0], tallies[1..], j);
          HasKeyCons(tallies[0].(amount := tallies[0].amount + n), tallies[1..], j);
        }
      }
    }
  }

  lemma {:induction false} TallyOfMissing(tallies: seq<Tally>, k: string)
    requires !HasKey(tallies, k)
    ensures TallyOf(tallies, k) == 0
    decreases |tallies|
  {
    if tallies != [] {
      assert tallies == [tallies[0]] + tallies[1..];
      HasKeyCons(tallies[0], tallies[1..], k);
      TallyOfMissing(tallies[1..], k);
    }
  }

  lemma {:induction false} ZeroTallies(tallies: seq<Tally>, k: string)
    requires forall i :: 0 <= i < |tallies| ==> tallies[i].amount == 0
    ensures TallyOf(tallies, k) == 0
    decreases |tallies|
  {
    if tallies != [] {
      ZeroTallies(tallies[1..], k);
    }
  }

  /** Adding `n` under key `k` raises that key's value and the sum of all values by `n` and leaves the other keys. */
  lemma {:induction false} AddTallyValues(tallies: seq<Tally>, k: string, n: int)
    requires DistinctKeys(tallies)
    ensures var t' := AddTally(tallies, k, n);
      && (forall j :: TallyOf(t', j) == TallyOf(tallies, j) + (if j == k then n else 0))
      && SumTallies(t') == SumTallies(tallies) + n
    decreases |tallies|
  {
    if tallies != [] {
      AddTallyValues(tallies[1..], k, n);
      if tallies[0].rarity == k {
        assert tallies == [tallies[0]] + tallies[1..];
        HasKeyCons(tallies[0], tallies[1..], k);
        TallyOfMissing(tallies[1..], k);
      }
    }
  }

  /** Some entry of the collection is filed under rarity `k`. */
  predicate Filed(col: Collection, k: string) {
    exists i :: 0 <= i < |col| && RarityKey(col[i]) == k
  }

  lemma FiledSnoc(col: Collection, k: string)
    requires col != []
    ensures Filed(col, k) <==> Filed(col[..|col| - 1], k) || RarityKey(col[|col| - 1]) == k
  {
    var prev := col[..|col| - 1];
    if Filed(col, k) {
      var i :| 0 <= i < |col| && RarityKey(col[i]) == k;
      if i < |col| - 1 { assert prev[i] == col[i]; }
    }
    if Filed(prev, k) {
      var i :| 0 <= i < |prev| && RarityKey(prev[i]) == k;
      assert col[i] == prev[i];
    }
  }

  /**
   * The shape of `by`: it starts with the four tiers in order, holds each
   * key once, and its keys are exactly the tier names and the rarities the
   * entries are filed under.
   */
  lemma {:induction false} ComputeStatsKeys(col: Collection)
    ensures var s := ComputeStats(col);
      && |s.tallies| >= 4
      && (forall i :: 0 <= i < 4 ==> s.tallies[i].rarity == InitialTallies()[i].rarity)
      && DistinctKeys(s.tallies)
      && (forall k :: HasKey(s.tallies, k) <==> HasKey(InitialTallies(), k) || Filed(col, k))
    decreases |col|
  {
    if col != [] {
      var prev := col[..|col| - 1];
      var e := col[|col| - 1];
      ComputeStatsKeys(prev);
      AddTallyKeys(ComputeStats(prev).tallies, RarityKey(e), e.count);
      forall k ensures Filed(col, k) <==> Filed(prev, k) || RarityKey(e) == k {
        FiledSnoc(col, k);
      }
    }
  }

  /**
   * The values of `computeStats`: `total` is the sum of all counts, every
   * key of `by` sums the counts filed under it (a missing rarity counts as
   * common), and the values of `by` add up to `total`.
   */
  lemma {:induction false} ComputeStatsTotals(col: Collection)
    ensures var s := ComputeStats(col);
      && s.total == SumCounts(col)
      && (forall k :: TallyOf(s.tallies, k) == SumRarity(col, k))
      && SumTallies(s.tallies) == s.total
    decreases |col|
  {
    if col == [] {
      forall k ensures TallyOf(InitialTallies(), k) == 0 {
        ZeroTallies(InitialTallies(), k);
      }
    } else {
      var prev := col[..|col| - 1];
      var e := col[|col| - 1];
      ComputeStatsTotals(prev);
      ComputeStatsKeys(prev);
      AddTallyValues(ComputeStats(prev).tallies, RarityKey(e), e.count);
    }
  }

  /** Recording a draw of n cards raises the statistics' total by exactly n. */
  lemma RecordRaisesTotal(col: Collection, drawn: seq<Card>)
    requires Keyed(col)
    ensures ComputeStats(AddToCollection(col, drawn)).total == ComputeStats(col).total + |drawn|
  {
    AddToCollectionCounts(col, drawn);
    ComputeStatsTotals(col);
    ComputeStatsTotals(AddToCollection(col, drawn));
  }
}
