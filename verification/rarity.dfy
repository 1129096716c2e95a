/**
 * The four rarity tiers and the single rank table used both by the draw
 * ladder (src/core/booster.js) and by the collection sort (public/main.js).
 */
module Rarity {
  import opened Wrappers

  datatype Tier = Common | Rare | Epic | Legendary

  /** The string a catalog card carries in its `rarity` field for this tier. */
  function Name(t: Tier): string {
    match t
    case Common => "common"
    case Rare => "rare"
    case Epic => "epic"
    case Legendary => "legendary"
  }

  /** Rank of a tier: common = 1 up to legendary = 4. */
  function Rank(t: Tier): (r: int)
    ensures 1 <= r <= 4
  {
    match t
    case Common => 1
    case Rare => 2
    case Epic => 3
    case Legendary => 4
  }

  /** One step of the downgrade loop: legendary to epic, epic to rare, anything else to common. */
  function Lower(t: Tier): (r: Tier)
    ensures t == Common ==> r == Common
    ensures t != Common ==> Rank(r) == Rank(t) - 1
  {
    match t
    case Legendary => Epic
    case Epic => Rare
    case _ => Common
  }

  /** The tier a rarity string names, if any. */
  function Parse(s: string): (r: Option<Tier>)
    ensures r.Some? ==> Name(r.value) == s
    ensures r.None? ==> forall t :: Name(t) != s
  {
    if s == "common" then Some(Common)
    else if s == "rare" then Some(Rare)
    else if s == "epic" then Some(Epic)
    else if s == "legendary" then Some(Legendary)
    else None
  }

  /** `rarityRank`: the tier's rank for a known rarity string, 1 for anything else or a missing one. */
  function RarityRank(r: Option<string>): int {
    if r.Some? && Parse(r.value).Some? then Rank(Parse(r.value).value) else 1
  }

  /** The sort table and the draw ladder agree: every tier name ranks as its tier, everything else as common. */
  lemma RarityRankAgreesWithTiers(r: Option<string>)
    ensures 1 <= RarityRank(r) <= 4
    ensures forall t :: r == Some(Name(t)) ==> RarityRank(r) == Rank(t)
    ensures (forall t :: r != Some(Name(t))) ==> RarityRank(r) == 1
  {
  }
}
