/**
 * The rarity-weighted draw engine of src/core/booster.js.
 *
 * `Math.random()` is made explicit: every draw consumes one `Rand`, a pair
 * of reals in [0, 1) standing for the rarity roll and for the uniform pick.
 */
module Draw {
  import opened Wrappers
  import opened Seqs
  import opened Rarity
  import opened Catalog

  /** A value `Math.random()` can return. */
  predicate IsUnit(u: real) {
    0.0 <= u < 1.0
  }

  /** The two random numbers one draw consumes. */
  datatype Rand = Rand(roll: real, pick: real)

  predicate ValidRands(rs: seq<Rand>) {
    forall i :: 0 <= i < |rs| ==> IsUnit(rs[i].roll) && IsUnit(rs[i].pick)
  }

  // ---------------------------------------------------------------------
  // rollRarity
  // ---------------------------------------------------------------------

  /** The three cumulative thresholds; a missing odds field counts as 0. */
  function CommonBound(o: Odds): real { o.common.GetOr(0.0) }
  function RareBound(o: Odds): real { o.rare.GetOr(0.0) + CommonBound(o) }
  function EpicBound(o: Odds): real { o.epic.GetOr(0.0) + RareBound(o) }

  /** `rollRarity`: cumulative-threshold selection in the order common, rare, epic; the rest is legendary. */
  function RollRarity(o: Odds, r: real): Tier {
    if r < CommonBound(o) then Common
    else if r < RareBound(o) then Rare
    else if r < EpicBound(o) then Epic
    else Legendary
  }

  predicate NonNegative(o: Odds) {
    o.common.GetOr(0.0) >= 0.0 && o.rare.GetOr(0.0) >= 0.0 && o.epic.GetOr(0.0) >= 0.0
  }

  /**
   * With non-negative odds each tier owns one interval of the roll, and
   * legendary owns everything from common + rare + epic upwards: whatever
   * the odds leave short of 1 goes to legendary.
   */
  lemma RollIntervals(o: Odds, r: real)
    requires NonNegative(o)
    ensures var c, ra, e := o.common.GetOr(0.0), o.rare.GetOr(0.0), o.epic.GetOr(0.0);
      && (RollRarity(o, r) == Common <==> r < c)
      && (RollRarity(o, r) == Rare <==> c <= r < c + ra)
      && (RollRarity(o, r) == Epic <==> c + ra <= r < c + ra + e)
      && (RollRarity(o, r) == Legendary <==> c + ra + e <= r)
  {
  }

  /** The legendary odds are never read: the legendary share is whatever the other three leave. */
  lemma RollIgnoresLegendaryOdds(o: Odds, l: Option<real>, r: real)
    ensures RollRarity(o, r) == RollRarity(o.(legendary := l), r)
  {
  }

  /** A missing odds field behaves exactly like an explicit 0. */
  lemma MissingOddsCountAsZero(o: Odds, r: real)
    ensures RollRarity(o, r) == RollRarity(Odds(Some(o.common.GetOr(0.0)), Some(o.rare.GetOr(0.0)),
                                                Some(o.epic.GetOr(0.0)), o.legendary), r)
  {
  }

  /** A higher roll never yields a lower tier, whatever the odds (even negative ones). */
  lemma RollMonotone(o: Odds, r1: real, r2: real)
    requires r1 <= r2
    ensures Rank(RollRarity(o, r1)) <= Rank(RollRarity(o, r2))
  {
  }

  // ---------------------------------------------------------------------
  // pickRandom
  // ---------------------------------------------------------------------

  /** `Math.floor(u * n)`: the index `pickRandom` reads. */
  function PickIndex(u: real, n: nat): (i: nat)
    requires IsUnit(u) && n > 0
    ensures i < n
    ensures i as real <= u * n as real < (i + 1) as real
  {
    UnitScale(u, n as real);
    (u * n as real).Floor
  }

  /** A unit roll scaled by a positive length lands in [0, length). */
  lemma UnitScale(u: real, n: real)
    requires IsUnit(u) && n > 0.0
    ensures 0.0 <= u * n < n
  {
    assert (1.0 - u) * n > 0.0;
  }

  /** Dividing by a positive real moves across a comparison. */
  lemma ScaleCompare(a: real, u: real, n: real)
    requires n > 0.0
    ensures a / n <= u <==> a <= u * n
    ensures u < a / n <==> u * n < a
  {
    assert (a / n) * n == a;
    if a / n <= u {
      assert (a / n) * n <= u * n;
    }
    if a <= u * n {
      assert a / n <= (u * n) / n;
    }
    if u < a / n {
      assert u * n < (a / n) * n;
    }
    if u * n < a {
      assert (u * n) / n < a / n;
    }
  }

  /** Each index is hit by exactly the rolls in [i/n, (i+1)/n): the pick is uniform. */
  lemma PickIndexUniform(u: real, n: nat, i: nat)
    requires IsUnit(u) && n > 0 && i < n
    ensures PickIndex(u, n) == i <==> i as real / n as real <= u < (i + 1) as real / n as real
  {
    var x := u * n as real;
    FloorUnique(x, i);
    ScaleCompare(i as real, u, n as real);
    ScaleCompare((i + 1) as real, u, n as real);
  }

  /** The floor of `x` is the one integer `i` with i <= x < i + 1. */
  lemma FloorUnique(x: real, i: int)
    ensures x.Floor == i <==> i as real <= x < (i + 1) as real
  {
  }

  /** `pickRandom`: the element at the random index; always an element of the array. */
  function PickRandom(arr: seq<Card>, u: real): (c: Card)
    requires |arr| > 0 && IsUnit(u)
    ensures c in arr
  {
    arr[PickIndex(u, |arr|)]
  }

  // ---------------------------------------------------------------------
  // Pools and buckets
  // ---------------------------------------------------------------------

  /** The catalog cards of one booster. */
  function BasePool(catalog: seq<Card>, boosterId: string): (pool: seq<Card>)
    ensures forall c :: c in pool <==> c in catalog && c.booster == boosterId
  {
    Filter(catalog, (c: Card) => c.booster == boosterId)
  }

  /** `allowNames.includes(c.name)`. */
  predicate Listed(c: Card, names: seq<string>) {
    c.name.Some? && c.name.value in names
  }

  /** The allow-list narrowing of the booster pool, with its fallback to the whole pool. */
  function EffectivePool(base: seq<Card>, allow: Option<seq<string>>): (pool: seq<Card>)
    ensures forall c :: c in pool ==> c in base
    ensures |base| > 0 ==> |pool| > 0
    ensures (allow.None? || |allow.value| == 0) ==> pool == base
    ensures allow.Some? && (forall c :: c in base ==> !Listed(c, allow.value)) ==> pool == base
    ensures allow.Some? && |allow.value| > 0 && (exists c :: c in base && Listed(c, allow.value)) ==>
              forall c :: c in pool <==> c in base && Listed(c, allow.value)
  {
    if allow.Some? && |allow.value| > 0 then
      var filtered := Filter(base, (c: Card) => Listed(c, allow.value));
      if |filtered| == 0 then base
      else assert filtered[0] in filtered; filtered
    else base
  }

  /** `byRarity[tier]`: the cards of the pool whose rarity string names the tier. */
  function Bucket(pool: seq<Card>, t: Tier): (b: seq<Card>)
    ensures forall c :: c in b <==> c in pool && c.rarity == Some(Name(t))
  {
    Filter(pool, (c: Card) => c.rarity == Some(Name(t)))
  }

  // ---------------------------------------------------------------------
  // The downgrade loop
  // ---------------------------------------------------------------------

  const MaxTries: nat := 10

  /** Where the downgrade loop stops, and how many steps it took. */
  datatype Resolved = Resolved(tier: Tier, tries: nat)

  /** The `while (tries < 10 && bucket empty)` loop, entered with `tries` steps already taken. */
  function Downgrade(pool: seq<Card>, t: Tier, tries: nat): (r: Resolved)
    requires tries <= MaxTries
    ensures tries <= r.tries <= MaxTries
    ensures Rank(r.tier) <= Rank(t)
    decreases MaxTries - tries
  {
    if tries < MaxTries && |Bucket(pool, t)| == 0 then Downgrade(pool, Lower(t), tries + 1)
    else Resolved(t, tries)
  }

  /**
   * The intended resolution, defined independently of the loop: the
   * highest tier at or below `t` whose bucket is non-empty, if any.
   */
  function HighestNonEmpty(pool: seq<Card>, t: Tier): (r: Option<Tier>)
    ensures r.Some? ==> Rank(r.value) <= Rank(t) && |Bucket(pool, r.value)| > 0
    ensures r.Some? ==> forall u :: Rank(r.value) < Rank(u) <= Rank(t) ==> |Bucket(pool, u)| == 0
    ensures r.None? ==> forall u :: Rank(u) <= Rank(t) ==> |Bucket(pool, u)| == 0
    decreases Rank(t)
  {
    if |Bucket(pool, t)| > 0 then Some(t)
    else if t == Common then None
    else HighestNonEmpty(pool, Lower(t))
  }

  /**
   * The bounded loop always reaches the intended tier: ten tries are more
   * than the three steps the ladder has.
   */
  lemma {:induction false} DowngradeFindsHighest(pool: seq<Card>, t: Tier, tries: nat)
    requires tries + Rank(t) <= MaxTries + 1
    ensures var r := Downgrade(pool, t, tries);
      && (HighestNonEmpty(pool, t).Some? ==>
            var h := HighestNonEmpty(pool, t).value;
            r.tier == h && r.tries == tries + Rank(t) - Rank(h))
      && (HighestNonEmpty(pool, t).None? ==> |Bucket(pool, r.tier)| == 0 && r.tries == MaxTries)
    decreases MaxTries - tries
  {
    if tries == MaxTries || |Bucket(pool, t)| > 0 {
    } else {
      DowngradeFindsHighest(pool, Lower(t), tries + 1);
    }
  }

  // ---------------------------------------------------------------------
  // openBooster
  // ---------------------------------------------------------------------

  /** One iteration of the draw loop: roll, downgrade, then pick from the bucket or, failing that, the pool. */
  function DrawOne(pool: seq<Card>, odds: Odds, rnd: Rand): (c: Card)
    requires |pool| > 0 && IsUnit(rnd.roll) && IsUnit(rnd.pick)
    ensures c in pool
  {
    var tier := Downgrade(pool, RollRarity(odds, rnd.roll), 0).tier;
    var bucket := Bucket(pool, tier);
    if |bucket| > 0 then PickRandom(bucket, rnd.pick) else PickRandom(pool, rnd.pick)
  }

  /**
   * A draw lands in the highest non-empty bucket at or below the rolled
   * tier, at the index the pick selects in that bucket, and only when every
   * such bucket is empty does it pick from the whole pool.
   */
  lemma DrawOneFollowsLadder(pool: seq<Card>, odds: Odds, rnd: Rand)
    requires |pool| > 0 && IsUnit(rnd.roll) && IsUnit(rnd.pick)
    ensures var rolled := RollRarity(odds, rnd.roll);
      var c := DrawOne(pool, odds, rnd);
      && (HighestNonEmpty(pool, rolled).Some? ==>
            var h := HighestNonEmpty(pool, rolled).value;
            && Rank(h) <= Rank(rolled) && c in Bucket(pool, h) && c.rarity == Some(Name(h))
            && c == Bucket(pool, h)[PickIndex(rnd.pick, |Bucket(pool, h)|)])
      && (HighestNonEmpty(pool, rolled).None? ==> c == pool[PickIndex(rnd.pick, |pool|)])
  {
    DowngradeFindsHighest(pool, RollRarity(odds, rnd.roll), 0);
  }

  /** The draw loop over explicit random inputs, one draw per `Rand`, in order. */
  function DrawAll(pool: seq<Card>, odds: Odds, rands: seq<Rand>): (out: seq<Card>)
    requires |pool| > 0 && ValidRands(rands)
    ensures |out| == |rands|
    ensures forall i :: 0 <= i < |out| ==> out[i] in pool && out[i] == DrawOne(pool, odds, rands[i])
  {
    if rands == [] then []
    else DrawAll(pool, odds, rands[..|rands| - 1]) + [DrawOne(pool, odds, rands[|rands| - 1])]
  }

  /** `openBooster(count, boosterId, odds, allowNames)` with its `Math.random()` results supplied as `rands`. */
  function OpenBooster(catalog: seq<Card>, count: nat, boosterId: string, odds: Odds,
                       allow: Option<seq<string>>, rands: seq<Rand>): (out: seq<Card>)
    requires |rands| == count && ValidRands(rands)
    ensures |BasePool(catalog, boosterId)| == 0 ==> out == []
    ensures |BasePool(catalog, boosterId)| > 0 ==> |out| == count
    ensures forall i :: 0 <= i < |out| ==>
              && out[i].booster == boosterId
              && out[i] in catalog
              && out[i] in EffectivePool(BasePool(catalog, boosterId), allow)
    ensures allow.Some? && |allow.value| > 0
              && (exists c :: c in BasePool(catalog, boosterId) && Listed(c, allow.value)) ==>
            forall i :: 0 <= i < |out| ==> Listed(out[i], allow.value)
  {
    var base := BasePool(catalog, boosterId);
    if |base| == 0 then []
    else DrawAll(EffectivePool(base, allow), odds, rands)
  }

  /** Draws are independent: card `i` is exactly what one draw with the `i`-th random pair yields. */
  lemma OpenBoosterDrawsIndependently(catalog: seq<Card>, count: nat, boosterId: string, odds: Odds,
                                      allow: Option<seq<string>>, rands: seq<Rand>, i: nat)
    requires |rands| == count && ValidRands(rands)
    requires |BasePool(catalog, boosterId)| > 0 && i < count
    ensures var pool := EffectivePool(BasePool(catalog, boosterId), allow);
      OpenBooster(catalog, count, boosterId, odds, allow, rands)[i] == DrawOne(pool, odds, rands[i])
  {
  }

  /** An allow-list that names no card of the booster changes nothing: the draw uses the full booster pool. */
  lemma AllowListFallback(catalog: seq<Card>, count: nat, boosterId: string, odds: Odds,
                          names: seq<string>, rands: seq<Rand>)
    requires |rands| == count && ValidRands(rands)
    requires forall c :: c in catalog && c.booster == boosterId ==> !Listed(c, names)
    ensures OpenBooster(catalog, count, boosterId, odds, Some(names), rands)
         == OpenBooster(catalog, count, boosterId, odds, None, rands)
  {
  }
}
