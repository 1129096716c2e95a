/**
 * The booster session of public/main.js: the busy flags, `openBooster3D`
 * with its cinematic, booster switching, the `pointerdown` handler and the
 * two end buttons, driving the draw engine, the ledger and the reveal.
 * Like the reveal, the session takes a `Reveal.Build`: the code as written
 * or the corrected one.
 */
module Session {
  import opened Wrappers
  import opened Catalog
  import opened Draw
  import opened Ledger
  import Reveal

  /** `openBooster(5, ...)`: the size of a pack. */
  const PackSize: nat := 5

  datatype Session = Session(
    isOpening: bool,
    isSwitching: bool,
    isClearing: bool,
    booster: BoosterConfig,
    boosterVisible: bool,
    shopShown: bool,
    revealState: Reveal.RevealState,
    collection: Collection)

  /** The page after load, with the booster of the active button and the stored collection. */
  function Start(key: string, stored: Collection): Session {
    Session(false, false, false, Lookup(key), true, true, Reveal.Initial, stored)
  }

  /** The guard of the booster buttons and of `switchBoosterTo`. */
  predicate Busy(s: Session) {
    s.isOpening || s.isSwitching || s.isClearing || s.revealState.active
  }

  /** `switchBoosterTo`: starts the swap tweens unless busy. */
  function SwitchBoosterTo(s: Session): Session {
    if Busy(s) then s else s.(isSwitching := true)
  }

  /** A click on a booster button. */
  function SelectBooster(s: Session, key: string): Session {
    if Busy(s) then s
    else SwitchBoosterTo(s.(booster := Lookup(key), boosterVisible := true))
  }

  /** The last swap tween has finished. */
  function SwitchDone(s: Session): Session {
    if !s.isSwitching then s else s.(isSwitching := false)
  }

  /** `openBooster3D`: rejected while opening or revealing; otherwise starts the cinematic. */
  function OpenBooster3D(s: Session): Session {
    if s.isOpening || s.revealState.active then s
    else s.(isOpening := true, shopShown := false, revealState := s.revealState.(endShown := false))
  }

  /** The cards the current booster yields for the given random numbers. */
  function DrawPack(catalog: seq<Card>, s: Session, rands: seq<Rand>): seq<Card>
    requires |rands| == PackSize && ValidRands(rands)
  {
    OpenBooster(catalog, PackSize, s.booster.id, s.booster.odds, s.booster.pool, rands)
  }

  /** The cinematic's completion callback: draw, record, and set up the reveal. */
  function CinematicDone(b: Reveal.Build, catalog: seq<Card>, s: Session, rands: seq<Rand>): Session
    requires |rands| == PackSize && ValidRands(rands)
  {
    if !s.isOpening then s
    else
      var cleared := Reveal.Clear(s.revealState).(endShown := false);
      var drawn := DrawPack(catalog, s, rands);
      s.(boosterVisible := false,
         collection := AddToCollection(s.collection, drawn),
         revealState := Reveal.Begin(b, cleared, drawn),
         isOpening := false)
  }

  /** The `pointerdown` handler: the reveal branch while a reveal is active, else the booster click. */
  function Pointer(s: Session, hitCard: bool, hitBooster: bool): Session {
    if s.revealState.active then s.(revealState := Reveal.PointerDown(s.revealState, hitCard))
    else if s.isOpening || s.isSwitching || s.isClearing then s
    else if !s.boosterVisible then s
    else if hitBooster then OpenBooster3D(s)
    else s
  }

  /** The "OK" button (only clickable while shown): tear down and return to the shop. */
  function Ok(s: Session): Session {
    if !s.revealState.endShown then s
    else s.(revealState := Reveal.Clear(s.revealState).(endShown := false), shopShown := true, boosterVisible := true)
  }

  /** The "again" button (only clickable while shown): tear down and open the same booster. */
  function Again(s: Session): Session {
    if !s.revealState.endShown then s
    else OpenBooster3D(s.(revealState := Reveal.Clear(s.revealState).(endShown := false)))
  }

  datatype Event =
    | SelectBoosterClick(key: string)
    | SwitchTweenDone
    | PointerDownAt(hitCard: bool, hitBooster: bool)
    | CinematicEnd(rands: seq<Rand>)
    | RevealCallback(cb: Reveal.Callback)
    | OkClick
    | AgainClick

  /** A cinematic's completion brings one pack's worth of `Math.random()` results. */
  predicate ValidEvent(e: Event) {
    e.CinematicEnd? ==> |e.rands| == PackSize && ValidRands(e.rands)
  }

  function Step(b: Reveal.Build, catalog: seq<Card>, s: Session, e: Event): Session
    requires ValidEvent(e)
  {
    match e
    case SelectBoosterClick(key) => SelectBooster(s, key)
    case SwitchTweenDone => SwitchDone(s)
    case PointerDownAt(hitCard, hitBooster) => Pointer(s, hitCard, hitBooster)
    case CinematicEnd(rands) => CinematicDone(b, catalog, s, rands)
    case RevealCallback(cb) => s.(revealState := Reveal.Step(b, s.revealState, Reveal.Fire(cb)))
    case OkClick => Ok(s)
    case AgainClick => Again(s)
  }

  function Run(b: Reveal.Build, catalog: seq<Card>, s: Session, es: seq<Event>): Session
    requires forall i :: 0 <= i < |es| ==> ValidEvent(es[i])
    decreases |es|
  {
    if es == [] then s else Run(b, catalog, Step(b, catalog, s, es[0]), es[1..])
  }


  // ---------------------------------------------------------------------
  // Invariants
  // ---------------------------------------------------------------------

  /** The invariant of every session the code as written reaches. */
  predicate Inv(s: Session) {
    && !s.isClearing
    && Reveal.Consistent(s.revealState)
    && Keyed(s.collection)
    && (s.isOpening ==> !s.revealState.active && !s.isSwitching)
    && (s.isSwitching ==> !s.revealState.active)
    && (!s.revealState.active ==> !s.revealState.endShown)
    && (s.revealState.active ==> !s.boosterVisible)
  }

  lemma StartInv(key: string, stored: Collection)
    requires Keyed(stored)
    ensures Inv(Start(key, stored))
  {
    Reveal.InitialWF();
  }

  lemma CinematicDoneInv(b: Reveal.Build, catalog: seq<Card>, s: Session, rands: seq<Rand>)
    requires Inv(s) && |rands| == PackSize && ValidRands(rands)
    ensures Inv(CinematicDone(b, catalog, s, rands))
  {
    if s.isOpening {
      var cleared := Reveal.Clear(s.revealState).(endShown := false);
      assert Reveal.Consistent(cleared);
      Reveal.BeginWF(b, cleared, DrawPack(catalog, s, rands));
      AddToCollectionCounts(s.collection, DrawPack(catalog, s, rands));
    }
  }

  /** Every event keeps the session invariant, in either build. */
  lemma StepInv(b: Reveal.Build, catalog: seq<Card>, s: Session, e: Event)
    requires Inv(s) && ValidEvent(e)
    ensures Inv(Step(b, catalog, s, e))
  {
    match e
    case SelectBoosterClick(key) =>
    case SwitchTweenDone =>
    case PointerDownAt(hitCard, hitBooster) =>
      Reveal.RevealNextCardConsistent(s.revealState);
    case CinematicEnd(rands) => CinematicDoneInv(b, catalog, s, rands);
    case RevealCallback(cb) => Reveal.StepConsistent(b, s.revealState, Reveal.Fire(cb));
    case OkClick =>
    case AgainClick =>
  }

  lemma {:induction false} RunInv(b: Reveal.Build, catalog: seq<Card>, s: Session, es: seq<Event>)
    requires Inv(s) && forall i :: 0 <= i < |es| ==> ValidEvent(es[i])
    ensures Inv(Run(b, catalog, s, es))
    decreases |es|
  {
    if es != [] {
      StepInv(b, catalog, s, es[0]);
      RunInv(b, catalog, Step(b, catalog, s, es[0]), es[1..]);
    }
  }

  /** What the code as written needs of the catalog: every card has an image and every booster has a card. */
  predicate Stocked(catalog: seq<Card>) {
    && Reveal.Illustrated(catalog)
    && forall key :: key in Boosters() ==> |BasePool(catalog, key)| > 0
  }

  /**
   * The invariant the session is built to keep: the session invariant with
   * a well-formed reveal, on a configured booster. As written the reveal
   * must also hold only cards with an image.
   */
  predicate Live(b: Reveal.Build, s: Session) {
    && Inv(s)
    && Reveal.WF(s.revealState)
    && s.booster.id in Boosters()
    && (b == Reveal.AsWritten ==> Reveal.Illustrated(s.revealState.drawn))
  }

  lemma StartLive(b: Reveal.Build, key: string, stored: Collection)
    requires Keyed(stored)
    ensures Live(b, Start(key, stored))
  {
    Reveal.InitialWF();
    BoosterTableWellFormed(key);
  }

  /**
   * Every event keeps the intended invariant: always in the corrected
   * build, and as written whenever the catalog is stocked.
   */
  lemma StepLive(b: Reveal.Build, catalog: seq<Card>, s: Session, e: Event)
    requires Live(b, s) && ValidEvent(e)
    requires b == Reveal.AsWritten ==> Stocked(catalog)
    ensures Live(b, Step(b, catalog, s, e))
  {
    match e
    case SelectBoosterClick(key) => BoosterTableWellFormed(key);
    case SwitchTweenDone =>
    case PointerDownAt(hitCard, hitBooster) =>
      Reveal.StepWF(b, s.revealState, Reveal.Pointer(hitCard));
    case CinematicEnd(rands) => CinematicDoneLive(b, catalog, s, rands);
    case RevealCallback(cb) =>
      Reveal.StepWF(b, s.revealState, Reveal.Fire(cb));
      Reveal.StepConsistent(b, s.revealState, Reveal.Fire(cb));
    case OkClick =>
    case AgainClick =>
  }

  /** The cinematic's completion keeps the intended invariant under the hypothesis of `StepLive`. */
  lemma CinematicDoneLive(b: Reveal.Build, catalog: seq<Card>, s: Session, rands: seq<Rand>)
    requires Live(b, s) && |rands| == PackSize && ValidRands(rands)
    requires b == Reveal.AsWritten ==> Stocked(catalog)
    ensures Live(b, CinematicDone(b, catalog, s, rands))
  {
    CinematicDoneInv(b, catalog, s, rands);
    if s.isOpening {
      var cleared := Reveal.Clear(s.revealState).(endShown := false);
      var drawn := DrawPack(catalog, s, rands);
      Reveal.BeginWF(b, cleared, drawn);
      if b == Reveal.AsWritten {
        assert |drawn| == PackSize;
        forall i | 0 <= i < |drawn|
          ensures !Reveal.MissingUrl(drawn[i].image)
        {
          assert drawn[i] in catalog;
        }
      }
    }
  }

  lemma {:induction false} RunLive(b: Reveal.Build, catalog: seq<Card>, s: Session, es: seq<Event>)
    requires Live(b, s) && forall i :: 0 <= i < |es| ==> ValidEvent(es[i])
    requires b == Reveal.AsWritten ==> Stocked(catalog)
    ensures Live(b, Run(b, catalog, s, es))
    decreases |es|
  {
    if es != [] {
      StepLive(b, catalog, s, es[0]);
      RunLive(b, catalog, Step(b, catalog, s, es[0]), es[1..]);
    }
  }

  // ---------------------------------------------------------------------
  // Guards
  // ---------------------------------------------------------------------

  /** Opening is refused while a cinematic runs or a reveal is active; otherwise it starts the cinematic. */
  lemma OpenGuard(s: Session)
    ensures OpenBooster3D(s) == s <==> s.isOpening || s.revealState.active
    ensures !s.isOpening && !s.revealState.active ==> OpenBooster3D(s).isOpening && !OpenBooster3D(s).revealState.endShown
  {
  }

  /**
   * A booster button does nothing while opening, switching, clearing or
   * revealing; otherwise it selects the booster and starts the swap.
   */
  lemma SwitchGuard(s: Session, key: string)
    ensures Busy(s) ==> SelectBooster(s, key) == s
    ensures !Busy(s) ==> var t := SelectBooster(s, key);
      t.isSwitching && t.booster == Lookup(key) && t.boosterVisible && t.revealState == s.revealState
  {
  }

  /**
   * `openBooster3D` does not look at `isSwitching`. Of its two callers, the
   * `pointerdown` handler refuses while a swap runs, and the "again" button
   * only shows during a reveal, which excludes a swap: in every session
   * the code reaches, no cinematic starts while the booster is swapping.
   */
  lemma NoOpenWhileSwitching(b: Reveal.Build, catalog: seq<Card>, s: Session, e: Event)
    requires Inv(s) && ValidEvent(e) && s.isSwitching
    ensures !s.isOpening ==> !Step(b, catalog, s, e).isOpening
  {
  }

  /**
   * The opening cycle: after `openBooster3D` and its cinematic, the pack
   * is the draw of the current booster, it is recorded (the ledger total
   * rises by its size), the reveal is active at card 0 with one card object
   * per drawn card and only the first visible, and opening is over. The
   * reveal is well formed exactly unless the code as written drew nothing.
   */
  lemma OpenThenReveal(b: Reveal.Build, catalog: seq<Card>, s: Session, rands: seq<Rand>)
    requires Inv(s) && !s.isOpening && !s.revealState.active && !s.isSwitching
    requires |rands| == PackSize && ValidRands(rands)
    ensures var t := CinematicDone(b, catalog, OpenBooster3D(s), rands);
      var drawn := DrawPack(catalog, s, rands);
      && Inv(t)
      && (Reveal.WF(t.revealState) <==> b == Reveal.Corrected || drawn != [])
      && !t.isOpening && t.revealState.active && t.revealState.index == 0 && !t.revealState.isRevealing
      && t.revealState.drawn == drawn
      && |t.revealState.cardObjs| == |drawn|
      && (forall i :: 0 <= i < |drawn| ==> (t.revealState.cardObjs[i].visible <==> i == 0))
      && t.collection == AddToCollection(s.collection, drawn)
      && ComputeStats(t.collection).total == ComputeStats(s.collection).total + |drawn|
      && (|BasePool(catalog, s.booster.id)| > 0 ==> |drawn| == PackSize)
  {
    var o := OpenBooster3D(s);
    assert Inv(o);
    CinematicDoneInv(b, catalog, o, rands);
    var cleared := Reveal.Clear(o.revealState).(endShown := false);
    Reveal.BeginWF(b, cleared, DrawPack(catalog, s, rands));
    RecordRaisesTotal(s.collection, DrawPack(catalog, s, rands));
  }

  /**
   * Teardown never overtakes a reveal in flight: whenever an event tears
   * the reveal down (the end buttons or the cinematic's completion), no
   * reveal callback is pending. The teardown itself cancels nothing; it is
   * the guards that keep stale callbacks from existing.
   */
  lemma TeardownOnlyWhenIdle(b: Reveal.Build, catalog: seq<Card>, s: Session, e: Event)
    requires Inv(s) && ValidEvent(e)
    requires e.OkClick? || e.AgainClick? || e.CinematicEnd?
    requires Step(b, catalog, s, e) != s
    ensures s.revealState.phase == Reveal.Ready && !s.revealState.isRevealing
  {
  }

  // ---------------------------------------------------------------------
  // Finding: an empty draw locks the session as written
  // ---------------------------------------------------------------------

  /**
   * As written, a cinematic whose booster has no catalog card leaves the
   * page locked: the reveal is active with no card and no end buttons, and
   * booster buttons, clicks, both end buttons and every callback leave the
   * session as it is.
   */
  lemma EmptyDrawLocksSessionAsWritten(catalog: seq<Card>, s: Session, rands: seq<Rand>, es: seq<Event>)
    requires Inv(s) && s.isOpening
    requires |rands| == PackSize && ValidRands(rands)
    requires |BasePool(catalog, s.booster.id)| == 0
    requires forall i :: 0 <= i < |es| ==> ValidEvent(es[i])
    ensures var t := CinematicDone(Reveal.AsWritten, catalog, s, rands);
      && t.revealState.active && !t.revealState.endShown && t.revealState.cardObjs == []
      && Run(Reveal.AsWritten, catalog, t, es) == t
  {
    var t := CinematicDone(Reveal.AsWritten, catalog, s, rands);
    EmptyRevealLocks(Reveal.AsWritten, catalog, t, es);
  }

  lemma {:induction false} EmptyRevealLocks(b: Reveal.Build, catalog: seq<Card>, t: Session, es: seq<Event>)
    requires !t.isOpening && !t.isSwitching
    requires t.revealState.active && t.revealState.cardObjs == [] && t.revealState.phase == Reveal.Ready
    requires !t.revealState.endShown
    requires forall i :: 0 <= i < |es| ==> ValidEvent(es[i])
    ensures Run(b, catalog, t, es) == t
    decreases |es|
  {
    if es != [] {
      assert Step(b, catalog, t, es[0]) == t;
      EmptyRevealLocks(b, catalog, t, es[1..]);
    }
  }

  /**
   * Corrected, the same empty draw ends the reveal at once: the end buttons
   * show, and "OK" returns to the shop with the reveal torn down.
   */
  lemma EmptyDrawRecovers(catalog: seq<Card>, s: Session, rands: seq<Rand>)
    requires Inv(s) && s.isOpening
    requires |rands| == PackSize && ValidRands(rands)
    requires |BasePool(catalog, s.booster.id)| == 0
    ensures var t := CinematicDone(Reveal.Corrected, catalog, s, rands);
      && t.revealState.active && t.revealState.endShown
      && var u := Ok(t);
         !u.revealState.active && u.shopShown && u.boosterVisible && !Busy(u)
  {
  }
}
