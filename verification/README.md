# Booster opening: draw engine, collection ledger and reveal sequencer

A Dafny model of the core of a browser game that opens virtual trading-card
"booster packs". Two pieces are modelled:

- the **rarity-weighted draw engine** of `src/core/booster.js`. It filters the
  catalog to one booster, applies an optional name allow-list (falling back
  to the whole booster pool when the list matches nothing), rolls a rarity
  tier per card, downgrades the tier until it finds a non-empty bucket, and
  picks uniformly;
- the **collection ledger and the reveal sequencer** of `public/main.js`. The
  ledger is `addToCollection`, `computeStats`, `rarityRank` and the sort
  comparator. The sequencer is the `revealState` machine driven by
  `openBooster3D`, `revealNextCard`, `clearRevealedCards`, the `pointerdown`
  handler and the busy flags.

`Math.random()` becomes an explicit input. Each drawn card consumes a `Rand`:
a real roll in [0, 1) for the tier and a real in [0, 1) for the pick, whose
index is `floor(u * n)`. The tween and texture-load callbacks become events:
`FlipOutEnd`, `LoadEnd(ok)`, `FlipBackEnd` and `SettleEnd`. The reveal's
`phase` field records which of them is pending. Everything is a pure
function over immutable datatypes.

Files, one module each: `wrappers.dfy` (Option), `seqs.dfy` (filter),
`rarity.dfy` (tiers and the rank table), `catalog.dfy` (cards, odds, the
BOOSTERS table), `draw.dfy`, `ledger.dfy`, `ordering.dfy`, `reveal.dfy`,
`session.dfy`.

The reveal and the session take a `Build`. `AsWritten` follows the code's
branches and guards. One difference remains: its callbacks find their card
at `index`, where the code uses the card object captured when the click
started the reveal. The two are the same card in every state the session
reaches (see Reveal.LoadDone under "## Left out"). `Corrected` changes exactly the two places listed under
"## Findings" (`Reveal.BuildsAgree`). Each property is stated for the build
it holds in: as written wherever it holds there, under an explicit hypothesis
where the code as written needs one, and for the corrected build where only
the correction makes it true.

Facts about the code that the model keeps as they are:
- only the success callback of the texture load calls `playSfx` (public/main.js:694-699); the failure callback marked "IMAGE MANQUANTE → FALLBACK" (public/main.js:708-720) tints the face and plays nothing;
- the downgrade loop steps down the rarity ladder one tier per try, at most 10 tries (src/core/booster.js:53-59);
- `clearRevealedCards` (public/main.js:627-645) cancels no pending tween or load, so the model keeps the pending phase across a teardown;
- `isClearing` is declared false (public/main.js:71) and read, but never set;
- `openBooster3D` (public/main.js:497-498) does not check `isSwitching`. The `pointerdown` handler checks it before calling (public/main.js:783). The "again" button handler (public/main.js:561-566) does not, but that button only shows during an active reveal, and no swap runs during a reveal (`Session.NoOpenWhileSwitching`).

## Model

| member | source | states |
|---|---|---|
| Rarity.RarityRankAgreesWithTiers | public/main.js:201-203 | `rarityRank` maps common, rare, epic and legendary to 1, 2, 3, 4 and anything else, including a missing rarity, to 1. This is the same rank the draw ladder uses. |
| Rarity.Lower | src/core/booster.js:55-57 | One downgrade step lowers the rank by one. From common it stays at common. |
| Rarity.RarityRank | public/main.js:201-203 | `rarityRank`. Rarity.RarityRankAgreesWithTiers states its values: the tier's rank for a tier name, 1 for anything else or a missing rarity. |
| Catalog.BoosterTableWellFormed | public/main.js:332-391 | Each configured booster is stored under its own id. Its four odds are present, non-negative and sum to exactly 1. An unknown key selects dragonborn. |
| Catalog.Lookup | public/main.js:390-401 | `BOOSTERS[key] ?? BOOSTERS.dragonborn`. Catalog.BoosterTableWellFormed states that a configured key selects its own entry and any other key selects dragonborn. |
| Draw.RollRarity | src/core/booster.js:4-14 | `rollRarity`: the tier of a roll under the cumulative thresholds. Its meaning is stated by Draw.RollIntervals, Draw.RollIgnoresLegendaryOdds, Draw.MissingOddsCountAsZero and Draw.RollMonotone. |
| Draw.RollIntervals | src/core/booster.js:4-14 | With non-negative odds c, r, e: common iff roll < c; rare iff c <= roll < c+r; epic iff c+r <= roll < c+r+e; legendary iff roll >= c+r+e. Any shortfall below 1 goes to legendary. |
| Draw.RollIgnoresLegendaryOdds | src/core/booster.js:6-13 | The legendary odds are never read. The legendary share is whatever the other three odds leave. |
| Draw.MissingOddsCountAsZero | src/core/booster.js:6-8 | A missing odds field rolls exactly like an explicit 0. |
| Draw.RollMonotone | src/core/booster.js:10-13 | A higher roll never gives a lower tier, for any odds. |
| Draw.PickIndex | src/core/booster.js:17 | `floor(u*n)` for u in [0,1) is a valid index i with i <= u*n < i+1. |
| Draw.PickIndexUniform | src/core/booster.js:17 | Index i is chosen exactly for the rolls in [i/n, (i+1)/n), so the pick is uniform. |
| Draw.PickRandom | src/core/booster.js:16-18 | On a non-empty array the pick is always an element of the array. |
| Draw.BasePool | src/core/booster.js:24 | The pool is exactly the catalog cards whose booster is the requested id. |
| Draw.EffectivePool | src/core/booster.js:31-39 | No allow-list, an empty one, or one matching no card leaves the full booster pool. Otherwise the pool is exactly the listed cards. A non-empty booster pool never narrows to an empty one. |
| Draw.Bucket | src/core/booster.js:41-46 | A bucket is exactly the pool cards whose rarity string names the tier. |
| Draw.Downgrade | src/core/booster.js:53-59 | The downgrade loop runs at most 10 times. It never resolves to a tier above the rolled one. |
| Draw.HighestNonEmpty | src/core/booster.js:53-61 | The intended resolution: the highest tier at or below the rolled one with a non-empty bucket, or none when all of them are empty. |
| Draw.DowngradeFindsHighest | src/core/booster.js:53-59 | The bounded loop stops exactly at that tier after rolled-rank minus resolved-rank steps. When every bucket at or below the roll is empty, it runs all 10 tries and ends on an empty bucket. |
| Draw.DrawOne | src/core/booster.js:50-62 | Each draw returns a card of the pool. |
| Draw.DrawOneFollowsLadder | src/core/booster.js:50-61 | If some bucket at or below the rolled tier is non-empty, the card is the element of the highest such bucket at the pick index, so it has that rarity and Draw.PickIndexUniform makes it uniform within the bucket. Otherwise it is the whole pool's element at the pick index. |
| Draw.DrawAll | src/core/booster.js:48-63 | One card per random pair, in order. Each card is one independent draw from the pool, with replacement. |
| Draw.OpenBooster | src/core/booster.js:23-66 | A booster with no catalog card gives the empty sequence. Otherwise the result has exactly `count` cards. Every card has the booster's id and belongs to the effective pool. When the allow-list matches some card, every drawn name is on the list. |
| Draw.OpenBoosterDrawsIndependently | src/core/booster.js:49-63 | Card i is exactly the draw made with the i-th random pair. |
| Draw.AllowListFallback | src/core/booster.js:32-38 | An allow-list naming no card of the booster gives the same pack as no allow-list. |
| Ledger.CardId | public/main.js:162 | The ledger key of a card: its `id`, else `name|image` with the defaults "card" and "". Ledger.AddToCollectionNewEntry states the key a new entry is stored under. |
| Ledger.NewEntry | public/main.js:164 | The entry created for a card seen for the first time: its key and the defaults "Sans nom", "" and "common", with count 0. Ledger.AddToCollectionNewEntry states the entry this leaves after a whole draw. |
| Ledger.AddCard | public/main.js:161-167 | One iteration of the `addToCollection` loop. Ledger.AddCardEffect states its effect. |
| Ledger.AddToCollection | public/main.js:159-170 | `addToCollection` on a given collection. Its effect is stated by Ledger.AddToCollectionCounts, Ledger.AddToCollectionLeavesOthers, Ledger.AddToCollectionPositive, Ledger.AddToCollectionNewEntry and Ledger.StoredEntryFields. |
| Ledger.AddCardEffect | public/main.js:161-167 | Recording one card raises its id's count by one. Every other entry stays unchanged and in place. A new entry starts from the defaults with count 1. The total rises by one. |
| Ledger.AddToCollectionCounts | public/main.js:159-170 | After `addToCollection(d)` every id's count has risen by the number of cards in d that map to it. Ids stay unique, earlier entries keep their place, and the sum of counts rises by exactly \|d\|. |
| Ledger.AddToCollectionLeavesOthers | public/main.js:159-167 | An id that no drawn card maps to keeps its entry, unchanged and at the same position. |
| Ledger.AddToCollectionPositive | public/main.js:163-166 | Every stored count stays at least 1. |
| Ledger.AddToCollectionNewEntry | public/main.js:162-166 | A new id gets one entry. Name, image and rarity come from the first card with that id, defaulting to "Sans nom", "" and "common". Its count is the number of such cards. The id is `c.id`, else `name|image`. New entries are appended after the stored ones, in the order their ids first appear in the draw: the k-th new id lands at position |col| + k - 1. The stable rarity sort keeps this order among ties. |
| Ledger.StoredEntryFields | public/main.js:163-166 | Recording changes only the counts of existing entries, never their id, name, image or rarity. |
| Ledger.ComputeStats | public/main.js:171-182 | `computeStats`. Ledger.ComputeStatsKeys and Ledger.ComputeStatsTotals state its result. |
| Ledger.AddTally | public/main.js:178-179 | `if (by[r] == null) by[r] = 0; by[r] += n`. Ledger.AddTallyKeys and Ledger.AddTallyValues state its effect on the keys and on the values. |
| Ledger.AddTallyKeys | public/main.js:178-179 | Adding to a rarity key keeps existing keys in place and distinct. It appends the key only if it was missing. |
| Ledger.AddTallyValues | public/main.js:178-179 | Adding n to a rarity key raises that key and the sum of all values by n and leaves the other keys alone. |
| Ledger.ComputeStatsKeys | public/main.js:171-182 | `by` starts with common, rare, epic and legendary. It holds each key once. Its keys are exactly those four plus the rarities the entries are filed under. |
| Ledger.ComputeStatsTotals | public/main.js:171-182 | `total` is the sum of all counts. Each `by` value is the sum of counts filed under that rarity, with a missing rarity filed as common. The values of `by` add up to `total`. |
| Ledger.RecordRaisesTotal | public/main.js:159-182 | Recording a draw of n cards raises the statistics' total by exactly n. |
| Ordering.Compare | public/main.js:215-221 | The sort comparator. Ordering.CompareMeaning states what its sign means. |
| Ordering.Sort | public/main.js:215-221 | The collection sort. Ordering.SortCorrect states its result (ordered, a permutation, stable). |
| Ordering.CompareMeaning | public/main.js:215-221 | The comparator sorts by (rank, count) descending in "rarity" mode and by count descending in "count" mode. It returns 0 exactly on equal keys and is antisymmetric. |
| Ordering.SortCorrect | public/main.js:215-221 | The sorted list is in comparator order and is a permutation of the entries. It is stable: entries with equal keys keep their relative order. |
| Ordering.SortOrder | public/main.js:215-221 | "rarity" mode puts higher ranks first and, within a rank, higher counts first. "count" mode puts higher counts first. |
| Ordering.HighestRankFirst | public/main.js:215-221 | In "rarity" mode the first entry has the highest rank present, e.g. a legendary ahead of any number of commons. |
| Reveal.CueFor | public/main.js:680-684 | The sound cue of a tier name is that tier. Any other rarity gets the common cue. |
| Reveal.OnlyLoadsPlay | public/main.js:679-699 | In either build, no click or callback plays a sound except a successful texture load. That one plays the cue of the current card's rarity. |
| Reveal.PendingCardStaysCurrent | public/main.js:650 | In either build, while a callback is pending the reveal is active and `index` names a card. No event moves `index` except the slide callback, which ends the chain. So the card at `index` is the card `revealNextCard` captured in `current`. |
| Reveal.CreateCard | public/main.js:568 | `createCard(image, rarity = "common")`: a face-down card object with the question-mark face. Reveal.BeginWF states the card objects of a new reveal. |
| Reveal.CardsFor | public/main.js:522-527 | One card object per drawn card, in order, only the first visible. Reveal.BeginWF states it as part of the set-up. |
| Reveal.BeginAsWritten | public/main.js:515-527 | The reveal set-up of the cinematic callback as written, with the end-button flag untouched. Reveal.BeginWF states its effect, and Reveal.EmptyDrawLocksAsWritten what an empty draw leads to. |
| Reveal.BeginCorrected | public/main.js:515-527 | The set-up with an empty draw shown as finished. Reveal.BeginWF states its effect, and Reveal.EmptyDrawCompletes the empty case. |
| Reveal.BeginWF | public/main.js:506-527 | In either build, setting up a reveal on a torn-down state gives an active, consistent state at card 0. There is one unrevealed card object per drawn card, and only the first is visible. The state is well formed exactly unless the code as written drew nothing. |
| Reveal.BuildsAgree | public/main.js:100-101 | The two builds behave identically except on the first flip's end for a card with no image, and on a set-up whose end-button flag does not already say whether the draw is empty. |
| Reveal.FlipOutDoneAsWritten | public/main.js:686-693 | The end of the first flip as written: it starts the texture load, which never calls back for a missing url. Reveal.BuildsAgree and Reveal.MissingArtStallsAsWritten state its effect. |
| Reveal.FlipOutDoneCorrected | public/main.js:686-693 | The end of the first flip with a missing url sent down the load-failure path. Reveal.BuildsAgree and Reveal.MissingArtCompletes state its effect. |
| Reveal.Clear | public/main.js:627-645 | `clearRevealedCards` leaves an inactive reveal with no cards, index 0 and input unlocked. It keeps the pending phase, the end-button flag and the cues already played. |
| Reveal.StepConsistent | public/main.js:647-723 | As written and corrected alike, every click and callback keeps the reveal consistent and leaves the drawn cards unchanged. Cards before `index` are revealed and settled, later ones hidden. `isRevealing` is set exactly while a continuation is pending. The end buttons show only once every card is revealed. |
| Reveal.StepWF | public/main.js:647-723 | Every click and callback keeps the intended invariant: always in the corrected build, and as written whenever every drawn card has an image. The invariant adds to consistency that the reveal never stalls and that the end buttons show exactly when every card is revealed. |
| Reveal.RevealNextCard | public/main.js:647-653 | `revealNextCard`. Reveal.AdvanceGuard states when it acts and what it changes. |
| Reveal.PointerDown | public/main.js:766-777 | The reveal branch of `pointerdown`. Reveal.PointerGuard states when a click advances. |
| Reveal.AdvanceGuard | public/main.js:647-653 | `revealNextCard` acts exactly when the reveal is active, not revealing, and a card is left. It then only sets `isRevealing` and starts the flip. |
| Reveal.PointerGuard | public/main.js:766-777 | A click advances exactly when the reveal is active, not mid-animation, a card is left, the current card is hit and it is not yet revealed. Any other click changes nothing. |
| Reveal.NoDoubleAdvance | public/main.js:648-653 | A click during an animation is ignored, not queued: the state is unchanged, so two quick clicks start only one flip. |
| Reveal.LoadDone | public/main.js:694-720 | The texture-load callbacks. Reveal.LoadOutcomesConverge and Reveal.OnlyLoadsPlay state their effect. |
| Reveal.FlipBackDone | public/main.js:701-705 | The end of the flip back, which starts the slide. Reveal.CycleCompletes states its part in a reveal. |
| Reveal.SettleDone | public/main.js:655-675 | `finishRevealMove`'s completion. Reveal.CycleCompletes states its effect. |
| Reveal.LoadOutcomesConverge | public/main.js:692-721 | A load success and a load failure both reveal the card and go on to the same flip back. They differ only in the face (artwork versus tint) and in the cue: success plays the card's rarity cue, failure plays none. |
| Reveal.CycleCompletes | public/main.js:653-722 | One click plus the callbacks reveals and settles the current card. It shows the artwork when the load succeeded and the tint otherwise, and plays the card's rarity cue exactly on success. `index` rises by exactly 1, the next card becomes visible and input is unlocked. The end buttons show exactly at the last card, and no other card changes. As written this needs the current card to have an image; corrected it holds for every card. |
| Reveal.CyclesAdvance | public/main.js:665-675 | k complete reveals move `index` by exactly k. The end buttons show exactly when `index` reaches the number of cards. When every card has an image, exactly one cue plays per successful load. As written this needs every drawn card to have an image. |
| Reveal.CompleteIsFinal | public/main.js:648-651 | In either build, once every card is revealed no click or callback changes the reveal any more. |
| Reveal.ExactlyNReveals | public/main.js:665-675 | A reveal of n > 0 cards shows its end buttons after exactly n complete reveals, never fewer. As written this needs every drawn card to have an image. |
| Reveal.ClearThenBegin | public/main.js:506-527 | A teardown followed by a new set-up keeps the old pending phase, because `clearRevealedCards` cancels nothing. The new reveal is consistent exactly when the old one was waiting for input. A slide callback that fires after the new set-up moves the new reveal past its first card, as the `index++` of `finishRevealMove` does. What the other late callbacks do to the old card object is not stated. |
| Reveal.MissingArtStallsAsWritten | public/main.js:100-101 | As written, a card without an image leaves `isRevealing` set forever. The state stays consistent but is not well formed, and no event moves the reveal again. |
| Reveal.MissingArtCompletes | public/main.js:708-720 | Corrected, a card without an image takes the failure path (tinted face, no cue) and its reveal completes in a well-formed state. |
| Reveal.EmptyDrawLocksAsWritten | public/main.js:512-527 | As written, an empty draw starts an active reveal with no card and no end buttons. The state is consistent but not well formed, and no event can change it. |
| Reveal.EmptyDrawCompletes | public/main.js:670-673 | Corrected, an empty draw is a complete reveal: its end buttons are shown. |
| Session.Start | public/main.js:68-124 | The globals at page load, with the booster of the active button and the stored collection. Session.StartInv states that they satisfy the session invariant. |
| Session.StartInv | public/main.js:68-124 | The page starts in a state satisfying the session invariant. |
| Session.StepInv | public/main.js:393-566 | In either build, every UI event and callback keeps the session invariant. That invariant says: opening and switching exclude each other and an active reveal; an active reveal hides the booster; end buttons only show in an active reveal; ids stay unique; the reveal is consistent. |
| Session.StepLive | public/main.js:393-566 | Every UI event and callback keeps the intended invariant: the session invariant plus a well-formed reveal on a configured booster. It holds always in the corrected build. As written it holds when every catalog card has an image and every configured booster has a card. |
| Session.OpenBooster3D | public/main.js:497-504 | `openBooster3D` up to the cinematic. Session.OpenGuard states when it acts. |
| Session.CinematicDone | public/main.js:506-530 | The cinematic's completion callback. Session.OpenThenReveal states its effect. |
| Session.SelectBooster | public/main.js:393-406 | The booster buttons. Session.SwitchGuard states their effect. |
| Session.SwitchBoosterTo | public/main.js:453-456 | `switchBoosterTo`: does nothing while busy, otherwise starts a swap. Session.SwitchGuard states both cases, and Session.StepInv that the session invariant survives. |
| Session.SwitchDone | public/main.js:490-491 | The end of the swap tween clears `isSwitching`. Session.StepInv states that the session invariant survives. |
| Session.Pointer | public/main.js:759-790 | The `pointerdown` handler. Reveal.PointerGuard and Session.NoOpenWhileSwitching state its two branches. |
| Session.Ok | public/main.js:552-559 | The "OK" button. Session.TeardownOnlyWhenIdle and Session.EmptyDrawRecovers state its effect. |
| Session.Again | public/main.js:561-566 | The "again" button. Session.TeardownOnlyWhenIdle and Session.NoOpenWhileSwitching state its effect. |
| Session.OpenGuard | public/main.js:497-504 | `openBooster3D` is refused exactly while opening or while a reveal is active. Otherwise it starts the cinematic with the end buttons hidden. |
| Session.SwitchGuard | public/main.js:393-406 | A booster button does nothing while opening, switching, clearing or revealing. Otherwise it selects the booster (dragonborn for an unknown key) and starts the swap. |
| Session.NoOpenWhileSwitching | public/main.js:783 | In every session the code reaches, no event starts a cinematic while a booster swap runs. `pointerdown` checks `isSwitching`; the "again" button needs an active reveal, which excludes a swap. |
| Session.OpenThenReveal | public/main.js:506-530 | In either build, after the cinematic the pack is the current booster's draw (5 cards when its pool is non-empty) and is recorded, with the total rising by its size. The reveal is active at index 0 with one card object per drawn card and only the first visible, and `isOpening` is false again. The reveal is well formed exactly unless the code as written drew nothing. |
| Session.TeardownOnlyWhenIdle | public/main.js:552-566 | Whenever an event tears the reveal down, no reveal callback is pending. The teardown cancels nothing; the guards and the hidden end buttons keep stale callbacks from existing. |
| Session.EmptyDrawLocksSessionAsWritten | public/main.js:766-790 | As written, a cinematic on a booster with no catalog card ends in an active reveal with no card and no end buttons, and from then on every event leaves the page as it is. |
| Session.EmptyDrawRecovers | public/main.js:552-559 | Corrected, the same cinematic shows the end buttons at once, and "OK" returns to the shop with nothing busy. |

## Left out

- Three.js scene, camera, cinematic, particles, render loop, raycasting, hover cursor, card positions and rotations: rendering and floating-point animation. A click is reduced to "hits the current card" and "hits the booster". Tween completion is an abstract event.
- `rafTween`, `easeInOutCubic`, `getSlotsX`, slot positions and the slow-motion clock: floating-point animation. "Settled" stands for "moved to its slot".
- The texture cache and `texLoader`: a load is only an outcome, `LoadEnd(ok)`. A cache hit, which calls back synchronously, is the same as a success.
- Audio playback: the reveal keeps the log of rarity cues played (`cues`). The opening sound and playback itself are not modelled.
- `localStorage` and JSON (de)serialisation in `loadCollection`/`saveCollection`: the ledger is an in-memory value. Malformed stored data reads as an empty collection. The reset button empties the store. Neither is modelled beyond starting from a given collection.
- The "name" sort mode: it uses the locale-dependent `localeCompare`. Any mode value other than "name" and "count" sorts by rarity, as the code's fall-through does.
- JavaScript object quirks: integer-like keys enumerate before other keys, and prototype property names such as "constructor" used as a rarity change `rarityRank` and `by`. The model keeps plain insertion order and ordinary string keys.
- Draw.RollRarity: the floating-point rounding of the cumulative sums is not modelled; real arithmetic is used.
- Draw.PickIndex: floating-point rounding of `Math.random() * length` is not modelled; the model assumes `floor(u*n) < n`.
- Draw.OpenBooster: `count` is a natural number. The code always passes 5.
- The cards catalog (`cards.js`) is not part of this model. It is a parameter.
- `renderCollection`'s HTML, the shop show/hide styling, the secret modal, `public/core/renderer.js` and the booster texture swap inside `switchBoosterTo`: DOM output only.
- Stale callbacks: `clearRevealedCards` cancels no pending tween or load. The model does not claim otherwise. It proves that the guards, together with the end buttons being hidden until the last card settles, never let a reveal be torn down with a callback pending (Session.TeardownOnlyWhenIdle), and, for a teardown mid-animation, what a slide callback that fires after the new set-up does to the new reveal's index (Reveal.ClearThenBegin).
- Session.Ok, Session.Again: the handlers at public/main.js:552-566 check nothing themselves. Their buttons sit in `#end-actions`, which `showEndButtons` and `hideEndActions` (public/main.js:544-550) show and hide with the `hidden` class. The stylesheet that makes that class unclickable is not part of this model. The model takes it as given: both handlers act only while the end buttons are shown (`endShown`), and do nothing otherwise. Session.TeardownOnlyWhenIdle and the account of stale callbacks rest on this.
- Reveal.LoadDone: acts on the card at `index`. The code's callbacks act on the card object captured at public/main.js:650. After a teardown, a late successful load would reveal the new card 0 and play its cue, where the code reveals the old card and plays the old card's sound. While a callback is pending without a teardown, the two are the same card (Reveal.PendingCardStaysCurrent), and the session never tears down with a callback pending (Session.TeardownOnlyWhenIdle).
- Reveal.SettleDone: does nothing while no card is at `index`. `finishRevealMove` (public/main.js:665-673) runs `index++` and `showEndButtons()` unconditionally. So a slide callback that fires after `clearRevealedCards` and before a new set-up stays pending in the model, and acts at once in the code. This state is not reachable, for the same reasons as for Reveal.LoadDone.
- Reveal.FlipOutDoneAsWritten, Reveal.FlipBackDone: the same two differences as Reveal.LoadDone and Reveal.SettleDone. They find their card at `index` and wait while there is none. This is unreachable for the same reasons.
- Reveal.StepWF: as written, only when every drawn card has an image, because a card without one stalls the reveal (second finding). Reveal.StepConsistent covers that case with the weaker invariant.
- Reveal.CycleCompletes: as written, only for a current card with an image, because otherwise the reveal stalls (second finding).
- Reveal.CyclesAdvance: as written, only when every drawn card has an image, for the same reason.
- Reveal.ExactlyNReveals: as written, only when every drawn card has an image, for the same reason. An empty draw is excluded because, as written, it never ends (first finding).
- Session.StepLive: as written, only for a catalog where every card has an image and every configured booster has a card, because otherwise one of the two findings breaks the intended invariant. Session.StepInv holds without that hypothesis.

## Findings

| source | as written | input that shows it | evidently intended | confidence | as-written member | corrected member |
|---|---|---|---|---|---|---|
| public/main.js:512-529 | An empty draw starts an active reveal with no card. The end buttons are only shown when a card finishes settling, so they never appear. The active reveal then blocks the booster buttons, the booster click and `openBooster3D`. | A booster whose id matches no catalog card: `openBooster` returns `[]`. | An empty pack counts as a complete reveal: the end buttons show, so the player can return to the shop. | medium; not executed | Reveal.BeginAsWritten, shown stuck by Reveal.EmptyDrawLocksAsWritten and Session.EmptyDrawLocksSessionAsWritten | Reveal.BeginCorrected, proved by Reveal.EmptyDrawCompletes and Session.EmptyDrawRecovers |
| public/main.js:100-101 | `loadTextureCached` returns without calling either callback when the url is falsy. The reveal of a card with no image never leaves `isRevealing`, and every later click is ignored. | A drawn catalog card whose `image` is missing or `""`. | A missing image takes the failure path: tinted face, card revealed, sequence continues. | medium; not executed | Reveal.FlipOutDoneAsWritten, shown stuck by Reveal.MissingArtStallsAsWritten | Reveal.FlipOutDoneCorrected, proved by Reveal.MissingArtCompletes and Reveal.CycleCompletes |
