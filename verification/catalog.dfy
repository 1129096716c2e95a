/**
 * Static data: catalog cards and the booster table of public/main.js.
 * The catalog itself (cards.js) is not part of this model and is passed as a parameter.
 */
module Catalog {
  import opened Wrappers

  /** A catalog card; every field but `booster` may be missing. */
  datatype Card = Card(
    id: Option<string>,
    name: Option<string>,
    booster: string,
    rarity: Option<string>,
    image: Option<string>)

  /** Draw odds; a missing field counts as 0 when rolling. */
  datatype Odds = Odds(common: Option<real>, rare: Option<real>, epic: Option<real>, legendary: Option<real>)

  /** A booster: its id, display name, artwork, odds and optional name allow-list. */
  datatype BoosterConfig = BoosterConfig(
    id: string,
    displayName: string,
    texture: string,
    odds: Odds,
    pool: Option<seq<string>>)

  function MakeOdds(c: real, r: real, e: real, l: real): Odds {
    Odds(Some(c), Some(r), Some(e), Some(l))
  }

  const DefaultKey: string := "dragonborn"

  /** The BOOSTERS table. */
  function Boosters(): map<string, BoosterConfig> {
    map[
      "dragonborn" := BoosterConfig("dragonborn", "DRAGON BORN", "/boosters/dragonborn.png",
                                    MakeOdds(0.86, 0.12, 0.018, 0.002), None),
      "abyssescourants" := BoosterConfig("abyssescourants", "ABYSSES & COURANTS", "/boosters/abysses_courants.png",
                                         MakeOdds(0.78, 0.18, 0.035, 0.005),
                                         Some(["Trilobite", "Trilobite noir", "Murène"])),
      "skieswings" := BoosterConfig("skieswings", "SKIES & Wings", "/boosters/skies_wings.png",
                                    MakeOdds(0.65, 0.25, 0.08, 0.02), None),
      "royaume_des_morts" := BoosterConfig("royaume_des_morts", "ROYAUME DES MORTS", "/boosters/royaume_des_morts.png",
                                           MakeOdds(0.65, 0.25, 0.08, 0.02), None),
      "corruption" := BoosterConfig("corruption", "CORRUPTION", "/boosters/corruption.png",
                                    MakeOdds(0.70, 0.22, 0.07, 0.01), None),
      "elementaltitans" := BoosterConfig("elementaltitans", "ELEMENTAL TITANS", "/boosters/elementaltitans.png",
                                         MakeOdds(0.70, 0.22, 0.07, 0.01), None),
      "forestpeoples" := BoosterConfig("forestpeoples", "FOREST PEOPLES", "/boosters/forestpeoples.png",
                                       MakeOdds(0.70, 0.22, 0.07, 0.01), None),
      "wildlife" := BoosterConfig("wildlife", "WILDLIFE", "/boosters/wildlife.png",
                                  MakeOdds(0.70, 0.22, 0.07, 0.01), None)
    ]
  }

  /** `BOOSTERS[key] ?? BOOSTERS.dragonborn`. */
  function Lookup(key: string): BoosterConfig {
    if key in Boosters() then Boosters()[key] else Boosters()[DefaultKey]
  }

  /** All four odds present, none negative, summing to exactly 1. */
  predicate ExactOdds(o: Odds) {
    && o.common.Some? && o.rare.Some? && o.epic.Some? && o.legendary.Some?
    && o.common.value >= 0.0 && o.rare.value >= 0.0 && o.epic.value >= 0.0 && o.legendary.value >= 0.0
    && o.common.value + o.rare.value + o.epic.value + o.legendary.value == 1.0
  }

  /** Every configured booster is stored under its own id and has exact odds; an unknown key selects dragonborn. */
  lemma BoosterTableWellFormed(key: string)
    ensures Lookup(key).id == (if key in Boosters() then key else DefaultKey)
    ensures ExactOdds(Lookup(key).odds)
  {
  }
}
