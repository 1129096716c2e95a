/**
 * The reveal sequencer of public/main.js: `revealState`, `revealNextCard`,
 * the reveal branch of the `pointerdown` handler and `clearRevealedCards`.
 *
 * The tween and texture-load callbacks of `revealNextCard` become explicit
 * events. `phase` records which of those continuations is pending, so a
 * callback can only fire in the phase that scheduled it.
 *
 * The transitions take a `Build`: `AsWritten` follows the code, and
 * `Corrected` applies the two corrections of the findings below. The two
 * builds differ in exactly two places (`BuildsAgree`).
 */
module Reveal {
  import opened Wrappers
  import opened Rarity
  import opened Catalog

  /** What a card's front face shows. */
  datatype Face = Question | Artwork | FallbackTint

  /** A card object built by `createCard`; `settled` is "moved into its row slot". */
  datatype CardObj = CardObj(
    url: Option<string>,
    rarity: string,
    visible: bool,
    isRevealed: bool,
    face: Face,
    settled: bool)

  /**
   * The pending continuation of the current reveal. `Stalled` is a reveal
   * that started but whose chain ended without scheduling a callback.
   */
  datatype Phase = Ready | FlippingOut | Loading | FlippingBack | Settling | Stalled

  /**
   * `revealState`, plus whether the end buttons are shown and the sound
   * cues played so far, in order.
   */
  datatype RevealState = RevealState(
    active: bool,
    index: nat,
    drawn: seq<Card>,
    cardObjs: seq<CardObj>,
    isRevealing: bool,
    phase: Phase,
    endShown: bool,
    cues: seq<Tier>)

  /**
   * Which program the transitions follow: the code as written, or the code
   * with a missing image sent down the load-failure path and an empty draw
   * shown as a finished reveal.
   */
  datatype Build = AsWritten | Corrected

  /** The state at page load. */
  const Initial: RevealState := RevealState(false, 0, [], [], false, Ready, false, [])

  /** `createCard(data.image, data.rarity)`: face down, showing the question mark. */
  function CreateCard(c: Card, visible: bool): CardObj {
    CardObj(c.image, c.rarity.GetOr("common"), visible, false, Question, false)
  }

  /** One card object per drawn card; only the first is visible. */
  function CardsFor(drawn: seq<Card>): (objs: seq<CardObj>)
    ensures |objs| == |drawn|
    ensures forall i :: 0 <= i < |objs| ==>
              objs[i] == CreateCard(drawn[i], i == 0)
  {
    seq(|drawn|, i requires 0 <= i < |drawn| => CreateCard(drawn[i], i == 0))
  }

  // ---------------------------------------------------------------------
  // Invariants
  // ---------------------------------------------------------------------

  /** A card already revealed and moved to its slot. */
  predicate Done(c: CardObj) {
    c.visible && c.isRevealed && c.settled && c.face != Question
  }

  /** A card still waiting in the hidden stack. */
  predicate Hidden(c: CardObj) {
    !c.visible && !c.isRevealed && !c.settled && c.face == Question
  }

  /** The current card: visible, not yet settled, revealed exactly once its art step has run. */
  predicate CurrentFits(c: CardObj, phase: Phase) {
    && c.visible && !c.settled
    && (c.isRevealed <==> phase == FlippingBack || phase == Settling)
    && (c.face == Question <==> !c.isRevealed)
  }

  predicate MatchesDraw(objs: seq<CardObj>, drawn: seq<Card>) {
    && |objs| == |drawn|
    && forall i :: 0 <= i < |objs| ==>
         objs[i].url == drawn[i].image && objs[i].rarity == drawn[i].rarity.GetOr("common")
  }

  /**
   * What every state of the code as written satisfies: the cards before
   * `index` are done, the ones after it hidden, the lock matches the
   * pending continuation, and the end buttons only show once every card is
   * revealed. A stalled reveal and an active reveal with no card are
   * consistent.
   */
  predicate Consistent(s: RevealState) {
    && s.index <= |s.cardObjs|
    && (s.isRevealing <==> s.phase != Ready)
    && (!s.active ==> s.index == 0 && s.cardObjs == [] && s.drawn == [] && s.phase == Ready)
    && MatchesDraw(s.cardObjs, s.drawn)
    && (s.phase != Ready ==> s.active && s.index < |s.cardObjs|)
    && (forall i :: 0 <= i < s.index ==> Done(s.cardObjs[i]))
    && (forall i :: s.index < i < |s.cardObjs| ==> Hidden(s.cardObjs[i]))
    && (s.index < |s.cardObjs| ==> CurrentFits(s.cardObjs[s.index], s.phase))
    && (s.active && s.phase == Ready && s.cardObjs != [] ==> (s.endShown <==> s.index == |s.cardObjs|))
    && (s.endShown ==> s.phase == Ready && s.index == |s.cardObjs|)
  }

  /**
   * The invariant the reveal is built to keep: consistent, never stalled,
   * and an active reveal waiting for input shows the end buttons exactly
   * when every card is revealed.
   */
  predicate WF(s: RevealState) {
    && Consistent(s)
    && s.phase != Stalled
    && (s.active && s.phase == Ready ==> (s.endShown <==> s.index == |s.cardObjs|))
  }

  /** Every drawn card has an artwork reference that `loadTextureCached` will load. */
  predicate Illustrated(drawn: seq<Card>) {
    forall i :: 0 <= i < |drawn| ==> !MissingUrl(drawn[i].image)
  }

  lemma InitialWF()
    ensures WF(Initial)
  {
  }

  // ---------------------------------------------------------------------
  // Transitions
  // ---------------------------------------------------------------------

  /** `clearRevealedCards`. Pending tweens and loads are not cancelled: `phase` is left as it is. */
  function Clear(s: RevealState): (t: RevealState)
    ensures !t.active && t.index == 0 && t.drawn == [] && t.cardObjs == [] && !t.isRevealing
    ensures t.phase == s.phase && t.endShown == s.endShown && t.cues == s.cues
  {
    s.(active := false, index := 0, drawn := [], cardObjs := [], isRevealing := false)
  }

  /** The reveal set-up at the end of the opening cinematic, as written: end buttons untouched. */
  function BeginAsWritten(s: RevealState, drawn: seq<Card>): RevealState {
    s.(active := true, index := 0, drawn := drawn, cardObjs := CardsFor(drawn))
  }

  /**
   * The reveal set-up, corrected: when nothing was drawn the reveal is
   * already complete, so the end buttons are shown at once.
   */
  function BeginCorrected(s: RevealState, drawn: seq<Card>): RevealState {
    s.(active := true, index := 0, drawn := drawn, cardObjs := CardsFor(drawn), endShown := |drawn| == 0)
  }

  function Begin(b: Build, s: RevealState, drawn: seq<Card>): RevealState {
    match b
    case AsWritten => BeginAsWritten(s, drawn)
    case Corrected => BeginCorrected(s, drawn)
  }

  /** `revealNextCard`: starts the flip of the current card unless one is in flight or none is left. */
  function RevealNextCard(s: RevealState): RevealState {
    if !s.active || s.isRevealing then s
    else if s.index >= |s.cardObjs| then s
    else s.(isRevealing := true, phase := FlippingOut)
  }

  /** The reveal branch of `pointerdown`; `hit` is "the ray hits the current card". */
  function PointerDown(s: RevealState, hit: bool): RevealState {
    if !s.active || s.isRevealing then s
    else if s.index >= |s.cardObjs| then s
    else if hit && !s.cardObjs[s.index].isRevealed then RevealNextCard(s)
    else s
  }

  /** `!url` in `loadTextureCached`: a missing or empty artwork reference. */
  predicate MissingUrl(u: Option<string>) {
    u.None? || u.value == ""
  }

  /**
   * The first flip has finished, as written: `loadTextureCached` starts the
   * load, but returns without calling either callback when the url is missing.
   */
  function FlipOutDoneAsWritten(s: RevealState): RevealState {
    if s.phase != FlippingOut || s.index >= |s.cardObjs| then s
    else if MissingUrl(s.cardObjs[s.index].url) then s.(phase := Stalled)
    else s.(phase := Loading)
  }

  /** The sound cue of a rarity string: legendary, epic, rare, anything else common. */
  function CueFor(rarity: string): (t: Tier)
    ensures forall u :: rarity == Name(u) ==> t == u
    ensures (forall u :: rarity != Name(u)) ==> t == Common
  {
    if rarity == Name(Legendary) then Legendary
    else if rarity == Name(Epic) then Epic
    else if rarity == Name(Rare) then Rare
    else Common
  }

  /**
   * The texture-load callback: success binds the art and plays the card's
   * rarity cue, failure tints the face; both reveal the card.
   */
  function LoadDone(s: RevealState, ok: bool): RevealState {
    if s.phase != Loading || s.index >= |s.cardObjs| then s
    else
      var c := s.cardObjs[s.index];
      s.(cardObjs := s.cardObjs[s.index := c.(isRevealed := true, face := if ok then Artwork else FallbackTint)],
         cues := if ok then s.cues + [CueFor(c.rarity)] else s.cues,
         phase := FlippingBack)
  }

  /** The first flip has finished, corrected: a missing url takes the load-failure path at once. */
  function FlipOutDoneCorrected(s: RevealState): RevealState {
    if s.phase != FlippingOut || s.index >= |s.cardObjs| then s
    else if MissingUrl(s.cardObjs[s.index].url) then LoadDone(s.(phase := Loading), false)
    else s.(phase := Loading)
  }

  function FlipOutDone(b: Build, s: RevealState): RevealState {
    match b
    case AsWritten => FlipOutDoneAsWritten(s)
    case Corrected => FlipOutDoneCorrected(s)
  }

  /** The flip back has finished: `finishRevealMove` starts the slide to the row. */
  function FlipBackDone(s: RevealState): RevealState {
    if s.phase != FlippingBack || s.index >= |s.cardObjs| then s
    else s.(phase := Settling)
  }

  /** The slide has finished: next index, next card shown, end buttons at the end, input unlocked. */
  function SettleDone(s: RevealState): RevealState {
    if s.phase != Settling || s.index >= |s.cardObjs| then s
    else
      var settled := s.cardObjs[s.index := s.cardObjs[s.index].(settled := true)];
      var next := s.index + 1;
      var objs := if next < |settled| then settled[next := settled[next].(visible := true)] else settled;
      s.(index := next, cardObjs := objs, endShown := s.endShown || next >= |objs|,
         isRevealing := false, phase := Ready)
  }

  // ---------------------------------------------------------------------
  // Events
  // ---------------------------------------------------------------------

  datatype Callback = FlipOutEnd | LoadEnd(ok: bool) | FlipBackEnd | SettleEnd

  datatype Event = Pointer(hit: bool) | Fire(cb: Callback)

  function Step(b: Build, s: RevealState, e: Event): RevealState {
    match e
    case Pointer(hit) => PointerDown(s, hit)
    case Fire(FlipOutEnd) => FlipOutDone(b, s)
    case Fire(LoadEnd(ok)) => LoadDone(s, ok)
    case Fire(FlipBackEnd) => FlipBackDone(s)
    case Fire(SettleEnd) => SettleDone(s)
  }

  function Run(b: Build, s: RevealState, es: seq<Event>): RevealState
    decreases |es|
  {
    if es == [] then s else Run(b, Step(b, s, es[0]), es[1..])
  }

  /** One full reveal of the current card with the given load outcome. */
  function Cycle(ok: bool): seq<Event> {
    [Pointer(true), Fire(FlipOutEnd), Fire(LoadEnd(ok)), Fire(FlipBackEnd), Fire(SettleEnd)]
  }

  function Cycles(oks: seq<bool>): seq<Event>
    decreases |oks|
  {
    if oks == [] then [] else Cycle(oks[0]) + Cycles(oks[1..])
  }

  /** How many of the load outcomes are successes. */
  function Successes(oks: seq<bool>): nat
    decreases |oks|
  {
    if oks == [] then 0 else (if oks[0] then 1 else 0) + Successes(oks[1..])
  }

  /**
   * The two builds differ exactly where the findings are: the first flip
   * ending on a card without artwork, and a set-up whose end-button flag
   * does not already say whether the draw is empty.
   */
  lemma BuildsAgree(s: RevealState, e: Event, drawn: seq<Card>)
    ensures Step(AsWritten, s, e) != Step(Corrected, s, e) <==>
              e == Fire(FlipOutEnd) && s.phase == FlippingOut && s.index < |s.cardObjs|
              && MissingUrl(s.cardObjs[s.index].url)
    ensures Begin(AsWritten, s, drawn) != Begin(Corrected, s, drawn) <==> s.endShown != (|drawn| == 0)
  {
  }

  // ---------------------------------------------------------------------
  // Invariant preservation
  // ---------------------------------------------------------------------

  /**
   * Setting up a reveal on a torn-down state yields a consistent reveal at
   * card 0, one hidden card object per drawn card with only the first
   * shown. It is well formed exactly unless the code as written is given
   * an empty draw.
   */
  lemma BeginWF(b: Build, s: RevealState, drawn: seq<Card>)
    requires Consistent(s) && !s.active && !s.endShown
    ensures var t := Begin(b, s, drawn);
      && Consistent(t)
      && (WF(t) <==> b == Corrected || drawn != [])
      && t.active && t.index == 0 && t.drawn == drawn && !t.isRevealing
      && |t.cardObjs| == |drawn|
      && (forall i :: 0 <= i < |t.cardObjs| ==> (t.cardObjs[i].visible <==> i == 0))
      && (forall i :: 0 <= i < |t.cardObjs| ==> !t.cardObjs[i].isRevealed)
  {
  }

  lemma ClearWF(s: RevealState)
    requires Consistent(s) && s.phase == Ready
    ensures WF(Clear(s))
  {
  }

  lemma RevealNextCardConsistent(s: RevealState)
    requires Consistent(s)
    ensures Consistent(RevealNextCard(s))
  {
  }

  lemma PointerDownConsistent(s: RevealState, hit: bool)
    requires Consistent(s)
    ensures Consistent(PointerDown(s, hit)) && PointerDown(s, hit).drawn == s.drawn
  {
    RevealNextCardConsistent(s);
  }

  lemma FlipBackDoneConsistent(s: RevealState)
    requires Consistent(s)
    ensures Consistent(FlipBackDone(s))
  {
  }

  lemma LoadDoneConsistent(s: RevealState, ok: bool)
    requires Consistent(s) || (Consistent(s.(phase := FlippingOut)) && s.phase == Loading)
    ensures Consistent(LoadDone(s, ok))
  {
    if s.phase == Loading && s.index < |s.cardObjs| {
      var t := LoadDone(s, ok);
      assert forall i :: 0 <= i < |t.cardObjs| && i != s.index ==> t.cardObjs[i] == s.cardObjs[i];
    }
  }

  lemma FlipOutDoneConsistent(b: Build, s: RevealState)
    requires Consistent(s)
    ensures Consistent(FlipOutDone(b, s))
  {
    if b == Corrected && s.phase == FlippingOut && MissingUrl(s.cardObjs[s.index].url) {
      LoadDoneConsistent(s.(phase := Loading), false);
    }
  }

  lemma SettleDoneConsistent(s: RevealState)
    requires Consistent(s)
    ensures Consistent(SettleDone(s))
  {
    if s.phase == Settling {
      var t := SettleDone(s);
      assert forall i :: 0 <= i < |t.cardObjs| && i != s.index && i != s.index + 1 ==> t.cardObjs[i] == s.cardObjs[i];
      assert forall i :: 0 <= i < t.index ==> Done(t.cardObjs[i]);
    }
  }

  /** Every event, in either build, keeps the reveal consistent and the draw unchanged. */
  lemma StepConsistent(b: Build, s: RevealState, e: Event)
    requires Consistent(s)
    ensures Consistent(Step(b, s, e)) && Step(b, s, e).drawn == s.drawn
  {
    var t := Step(b, s, e);
    match e
    case Pointer(hit) =>
      assert t == PointerDown(s, hit);
      PointerDownConsistent(s, hit);
    case Fire(FlipOutEnd) =>
      assert t == FlipOutDone(b, s);
      FlipOutDoneConsistent(b, s);
    case Fire(LoadEnd(ok)) =>
      assert t == LoadDone(s, ok);
      LoadDoneConsistent(s, ok);
    case Fire(FlipBackEnd) =>
      assert t == FlipBackDone(s);
      FlipBackDoneConsistent(s);
    case Fire(SettleEnd) =>
      assert t == SettleDone(s);
      SettleDoneConsistent(s);
  }

  lemma {:induction false} RunConsistent(b: Build, s: RevealState, es: seq<Event>)
    requires Consistent(s)
    ensures Consistent(Run(b, s, es)) && Run(b, s, es).drawn == s.drawn
    decreases |es|
  {
    if es != [] {
      StepConsistent(b, s, es[0]);
      RunConsistent(b, Step(b, s, es[0]), es[1..]);
    }
  }

  /**
   * Every event keeps the reveal well formed: always in the corrected
   * build, and as written whenever every drawn card has an image.
   */
  lemma StepWF(b: Build, s: RevealState, e: Event)
    requires WF(s) && (b == AsWritten ==> Illustrated(s.drawn))
    ensures WF(Step(b, s, e))
  {
    StepConsistent(b, s, e);
  }

  lemma {:induction false} RunWF(b: Build, s: RevealState, es: seq<Event>)
    requires WF(s) && (b == AsWritten ==> Illustrated(s.drawn))
    ensures WF(Run(b, s, es))
    decreases |es|
  {
    if es != [] {
      StepWF(b, s, es[0]);
      StepConsistent(b, s, es[0]);
      RunWF(b, Step(b, s, es[0]), es[1..]);
    }
  }

  // ---------------------------------------------------------------------
  // Guards
  // ---------------------------------------------------------------------

  /**
   * An advance starts exactly when the reveal is active, no animation is in
   * flight and a card is left; it then only locks input and starts the flip.
   */
  lemma AdvanceGuard(s: RevealState)
    ensures RevealNextCard(s) != s <==> s.active && !s.isRevealing && s.index < |s.cardObjs|
    ensures RevealNextCard(s) != s ==> RevealNextCard(s) == s.(isRevealing := true, phase := FlippingOut)
  {
  }

  /**
   * A click advances exactly when the reveal is active, not mid-animation,
   * a card is left, the ray hits it and it is not yet revealed; otherwise
   * it is ignored.
   */
  lemma PointerGuard(s: RevealState, hit: bool)
    ensures PointerDown(s, hit) != s <==>
              s.active && !s.isRevealing && s.index < |s.cardObjs| && hit && !s.cardObjs[s.index].isRevealed
    ensures PointerDown(s, hit) != s ==> PointerDown(s, hit) == RevealNextCard(s)
  {
  }

  /**
   * A click during an animation is dropped, not queued: the state is the
   * same as if it never happened, so two quick clicks start one flip.
   */
  lemma NoDoubleAdvance(s: RevealState, hit1: bool, hit2: bool)
    ensures s.isRevealing ==> PointerDown(s, hit2) == s
    ensures PointerDown(s, hit1) != s ==> PointerDown(PointerDown(s, hit1), hit2) == PointerDown(s, hit1)
    ensures RevealNextCard(RevealNextCard(s)) == RevealNextCard(s)
  {
  }

  /**
   * Success and failure of the load differ only in what the front face
   * shows and in the cue: success plays the card's rarity cue, failure
   * plays none.
   */
  lemma LoadOutcomesConverge(s: RevealState)
    requires s.phase == Loading && s.index < |s.cardObjs|
    ensures var good, bad := LoadDone(s, true), LoadDone(s, false);
      && good.cardObjs[s.index].face == Artwork && bad.cardObjs[s.index].face == FallbackTint
      && good.cardObjs[s.index].isRevealed && bad.cardObjs[s.index].isRevealed
      && good.cues == s.cues + [CueFor(s.cardObjs[s.index].rarity)] && bad.cues == s.cues
      && bad == good.(cardObjs := good.cardObjs[s.index := good.cardObjs[s.index].(face := FallbackTint)],
                      cues := s.cues)
  {
  }

  /**
   * No event but a successful texture load plays a sound, in either build,
   * and that one plays the cue of the current card's rarity.
   */
  lemma OnlyLoadsPlay(b: Build, s: RevealState, e: Event)
    ensures var t := Step(b, s, e);
      || t.cues == s.cues
      || (&& e == Fire(LoadEnd(true)) && s.phase == Loading && s.index < |s.cardObjs|
          && t.cues == s.cues + [CueFor(s.cardObjs[s.index].rarity)])
  {
  }

  /**
   * The code's callbacks act on the card object `revealNextCard` captured
   * when the click started the chain; the transitions act on the card at
   * `index`. In a consistent state the two are the same card: while a
   * callback is pending `index` is in range, and no event moves it except
   * the slide callback that ends the chain.
   */
  lemma PendingCardStaysCurrent(b: Build, s: RevealState, e: Event)
    requires Consistent(s)
    ensures s.phase != Ready ==> s.active && s.index < |s.cardObjs|
    ensures var t := Step(b, s, e);
      t.index != s.index ==>
        && e == Fire(SettleEnd) && s.phase == Settling
        && t.phase == Ready && t.index == s.index + 1
  {
  }

  // ---------------------------------------------------------------------
  // Completion
  // ---------------------------------------------------------------------

  lemma {:induction false} RunAppend(b: Build, s: RevealState, xs: seq<Event>, ys: seq<Event>)
    ensures Run(b, s, xs + ys) == Run(b, Run(b, s, xs), ys)
    decreases |xs|
  {
    if xs == [] {
      assert xs + ys == ys;
    } else {
      assert (xs + ys)[0] == xs[0] && (xs + ys)[1..] == xs[1..] + ys;
      RunAppend(b, Step(b, s, xs[0]), xs[1..], ys);
    }
  }

  /** A state waiting for a click on card `index`. */
  predicate Awaiting(s: RevealState) {
    Consistent(s) && s.active && s.phase == Ready && s.index < |s.cardObjs|
  }

  /**
   * One click followed by the four callbacks reveals the current card: it
   * is revealed and settled, showing its art when the load succeeded and
   * the fallback tint otherwise; the card's rarity cue plays exactly on a
   * successful load; the index moves by exactly one, the next card becomes
   * visible, input is unlocked, the end buttons appear exactly at the last
   * card, and no other card changes. As written this needs the card to have
   * an image; corrected it holds for every card.
   */
  lemma CycleCompletes(b: Build, s: RevealState, ok: bool)
    requires Awaiting(s) && (b == AsWritten ==> !MissingUrl(s.drawn[s.index].image))
    ensures var t := Run(b, s, Cycle(ok));
      var art := ok && !MissingUrl(s.drawn[s.index].image);
      && WF(t) && t.active && t.drawn == s.drawn
      && t.index == s.index + 1
      && !t.isRevealing && t.phase == Ready
      && |t.cardObjs| == |s.cardObjs|
      && Done(t.cardObjs[s.index])
      && t.cardObjs[s.index].face == (if art then Artwork else FallbackTint)
      && t.cues == s.cues + (if art then [CueFor(s.drawn[s.index].rarity.GetOr("common"))] else [])
      && (t.index < |t.cardObjs| ==> t.cardObjs[t.index].visible)
      && (t.endShown <==> t.index == |t.cardObjs|)
      && (forall i :: 0 <= i < |s.cardObjs| && i != s.index && i != s.index + 1 ==> t.cardObjs[i] == s.cardObjs[i])
  {
    assert s.cardObjs[s.index].url == s.drawn[s.index].image;
    assert s.cardObjs[s.index].rarity == s.drawn[s.index].rarity.GetOr("common");
    var s4 := Loaded(b, s, ok);
    SettleCompletes(s4);
  }

  /**
   * The click, both flips and the load bring the current card, revealed,
   * to the start of its slide; only the last callback is left.
   */
  lemma Loaded(b: Build, s: RevealState, ok: bool) returns (s4: RevealState)
    requires Awaiting(s) && (b == AsWritten ==> !MissingUrl(s.cardObjs[s.index].url))
    ensures Run(b, s, Cycle(ok)) == SettleDone(s4)
    ensures Consistent(s4) && s4.phase == Settling
    ensures s4.index == s.index && s4.active && s4.drawn == s.drawn && |s4.cardObjs| == |s.cardObjs|
    ensures var art := ok && !MissingUrl(s.cardObjs[s.index].url);
      && s4.cardObjs[s.index] == s.cardObjs[s.index].(isRevealed := true, face := if art then Artwork else FallbackTint)
      && s4.cues == s.cues + (if art then [CueFor(s.cardObjs[s.index].rarity)] else [])
    ensures forall i :: 0 <= i < |s.cardObjs| && i != s.index ==> s4.cardObjs[i] == s.cardObjs[i]
  {
    var f := FlipAndLoad(b, s, ok);
    var s3 := s.(isRevealing := true, phase := FlippingBack,
                 cardObjs := s.cardObjs[s.index := s.cardObjs[s.index].(isRevealed := true, face := f)],
                 cues := s.cues + (if f == Artwork then [CueFor(s.cardObjs[s.index].rarity)] else []));
    s4 := s3.(phase := Settling);
    assert FlipBackDone(s3) == s4;
    assert Consistent(s4) by {
      assert forall i :: 0 <= i < |s4.cardObjs| && i != s.index ==> s4.cardObjs[i] == s.cardObjs[i];
    }
    RunCycle(b, s, ok);
  }

  /**
   * The end of the slide settles the current card, unlocks input, shows the
   * next card, and shows the end buttons exactly at the last card.
   */
  lemma SettleCompletes(s: RevealState)
    requires Consistent(s) && s.phase == Settling
    ensures var t := SettleDone(s);
      && WF(t) && t.active && t.drawn == s.drawn && t.cues == s.cues
      && t.index == s.index + 1
      && !t.isRevealing && t.phase == Ready
      && |t.cardObjs| == |s.cardObjs|
      && t.cardObjs[s.index] == s.cardObjs[s.index].(settled := true)
      && (t.index < |t.cardObjs| ==> t.cardObjs[t.index].visible)
      && (t.endShown <==> t.index == |t.cardObjs|)
      && (forall i :: 0 <= i < |s.cardObjs| && i != s.index && i != s.index + 1 ==> t.cardObjs[i] == s.cardObjs[i])
  {
    SettleDoneConsistent(s);
  }

  /** Running a cycle is the click followed by the four callbacks, in order. */
  lemma RunCycle(b: Build, s: RevealState, ok: bool)
    ensures Run(b, s, Cycle(ok)) == SettleDone(FlipBackDone(LoadDone(FlipOutDone(b, PointerDown(s, true)), ok)))
  {
    var es := Cycle(ok);
    var s1 := PointerDown(s, true);
    var s2 := FlipOutDone(b, s1);
    var s3 := LoadDone(s2, ok);
    var s4 := FlipBackDone(s3);
    assert es[1..][1..][1..][1..][1..] == [];
    assert Run(b, s4, es[1..][1..][1..][1..]) == SettleDone(s4);
    assert Run(b, s3, es[1..][1..][1..]) == Run(b, s4, es[1..][1..][1..][1..]);
    assert Run(b, s2, es[1..][1..]) == Run(b, s3, es[1..][1..][1..]);
    assert Run(b, s1, es[1..]) == Run(b, s2, es[1..][1..]);
  }

  /**
   * The click, the first flip and the load together reveal the current
   * card: with its art when the load succeeded on an existing image, with
   * the fallback tint otherwise, and with the rarity cue exactly in the
   * first case.
   */
  lemma FlipAndLoad(b: Build, s: RevealState, ok: bool) returns (f: Face)
    requires Awaiting(s) && (b == AsWritten ==> !MissingUrl(s.cardObjs[s.index].url))
    ensures f == (if ok && !MissingUrl(s.cardObjs[s.index].url) then Artwork else FallbackTint)
    ensures LoadDone(FlipOutDone(b, PointerDown(s, true)), ok)
         == s.(isRevealing := true, phase := FlippingBack,
               cardObjs := s.cardObjs[s.index := s.cardObjs[s.index].(isRevealed := true, face := f)],
               cues := s.cues + (if f == Artwork then [CueFor(s.cardObjs[s.index].rarity)] else []))
  {
    var s1 := PointerDown(s, true);
    assert s1 == s.(isRevealing := true, phase := FlippingOut);
    if MissingUrl(s.cardObjs[s.index].url) {
      f := FallbackTint;
    } else {
      f := if ok then Artwork else FallbackTint;
    }
  }

  /**
   * From a state waiting on card `index`, k complete reveals move the index
   * by k, the end buttons show exactly when the last card is done, and,
   * when every card has an image, exactly one cue plays per successful
   * load. As written this needs every drawn card to have an image.
   */
  lemma {:induction false} CyclesAdvance(b: Build, s: RevealState, oks: seq<bool>)
    requires Awaiting(s) && s.index + |oks| <= |s.cardObjs|
    requires b == AsWritten ==> Illustrated(s.drawn)
    ensures var t := Run(b, s, Cycles(oks));
      && WF(t) && t.active && t.phase == Ready && t.drawn == s.drawn
      && |t.cardObjs| == |s.cardObjs|
      && t.index == s.index + |oks|
      && (t.endShown <==> t.index == |t.cardObjs|)
      && (Illustrated(s.drawn) ==> |t.cues| == |s.cues| + Successes(oks))
    decreases |oks|
  {
    if oks == [] {
      assert WF(s);
    } else {
      CycleCompletes(b, s, oks[0]);
      RunAppend(b, s, Cycle(oks[0]), Cycles(oks[1..]));
      var t := Run(b, s, Cycle(oks[0]));
      if oks[1..] != [] {
        CyclesAdvance(b, t, oks[1..]);
      }
    }
  }

  /** Once every card is revealed nothing moves any more: further clicks and stray callbacks do nothing. */
  lemma {:induction false} CompleteIsFinal(b: Build, s: RevealState, es: seq<Event>)
    requires Consistent(s) && s.phase == Ready && s.index == |s.cardObjs|
    ensures Run(b, s, es) == s
    decreases |es|
  {
    if es != [] {
      assert Step(b, s, es[0]) == s;
      CompleteIsFinal(b, s, es[1..]);
    }
  }

  /**
   * A reveal of n cards ends after exactly n complete reveals: before that
   * the end buttons are hidden, after it they are shown and stay so. As
   * written this needs every drawn card to have an image.
   */
  lemma ExactlyNReveals(b: Build, s: RevealState, drawn: seq<Card>, oks: seq<bool>)
    requires Consistent(s) && !s.active && !s.endShown && |drawn| > 0 && |oks| <= |drawn|
    requires b == AsWritten ==> Illustrated(drawn)
    ensures var t := Run(b, Begin(b, s, drawn), Cycles(oks));
      && t.index == |oks|
      && (t.endShown <==> |oks| == |drawn|)
  {
    BeginWF(b, s, drawn);
    if oks != [] {
      CyclesAdvance(b, Begin(b, s, drawn), oks);
    }
  }

  /**
   * A teardown cancels nothing: a reveal set up right after `Clear` and
   * `hideEndActions` keeps the old pending phase. Torn down while waiting
   * for input, the new reveal is consistent; torn down during an animation
   * it is not, and a slide callback that fires after the new set-up moves
   * the new reveal past its first card, as the `index++` of
   * `finishRevealMove` does. What the other late callbacks do to the old
   * card object is not stated here.
   */
  lemma ClearThenBegin(b: Build, s: RevealState, drawn: seq<Card>)
    ensures var t := Begin(b, Clear(s).(endShown := false), drawn);
      && t.phase == s.phase && t.cardObjs == CardsFor(drawn) && t.index == 0 && !t.isRevealing
      && (Consistent(t) <==> s.phase == Ready)
      && (s.phase == Settling && drawn != [] ==> Step(b, t, Fire(SettleEnd)).index == 1)
  {
  }

  // ---------------------------------------------------------------------
  // Findings: the two ways the reveal gets stuck as written
  // ---------------------------------------------------------------------

  /**
   * As written, a card without artwork stalls the reveal: after its first
   * flip no callback is ever scheduled, input stays locked, the state is
   * consistent but not well formed, and no event moves the reveal any more.
   */
  lemma {:induction false} MissingArtStallsAsWritten(s: RevealState, es: seq<Event>)
    requires Awaiting(s) && MissingUrl(s.cardObjs[s.index].url)
    ensures var stuck := Step(AsWritten, Step(AsWritten, s, Pointer(true)), Fire(FlipOutEnd));
      && stuck.isRevealing && stuck.phase == Stalled && stuck.index == s.index
      && Consistent(stuck) && !WF(stuck)
      && Run(AsWritten, stuck, es) == stuck
  {
    var stuck := Step(AsWritten, Step(AsWritten, s, Pointer(true)), Fire(FlipOutEnd));
    StepConsistent(AsWritten, s, Pointer(true));
    StepConsistent(AsWritten, Step(AsWritten, s, Pointer(true)), Fire(FlipOutEnd));
    StalledIsStuck(AsWritten, stuck, es);
  }

  lemma {:induction false} StalledIsStuck(b: Build, s: RevealState, es: seq<Event>)
    requires s.isRevealing && s.phase == Stalled
    ensures Run(b, s, es) == s
    decreases |es|
  {
    if es != [] {
      StalledIsStuck(b, Step(b, s, es[0]), es[1..]);
    }
  }

  /**
   * Corrected, a card without artwork takes the failure path: one reveal
   * still completes it, with the fallback tint and no cue.
   */
  lemma MissingArtCompletes(s: RevealState, ok: bool)
    requires Awaiting(s) && MissingUrl(s.cardObjs[s.index].url)
    ensures var t := Run(Corrected, s, Cycle(ok));
      && WF(t) && t.index == s.index + 1 && !t.isRevealing
      && s.index < |t.cardObjs| && t.cardObjs[s.index].face == FallbackTint
      && t.cues == s.cues
  {
    CycleCompletes(Corrected, s, ok);
  }

  /**
   * As written, an empty draw starts a reveal that is active, has no card
   * and never shows the end buttons: no event changes it, so the reveal
   * can never be left.
   */
  lemma {:induction false} EmptyDrawLocksAsWritten(s: RevealState, es: seq<Event>)
    requires Consistent(s) && !s.active && !s.endShown
    ensures var t := Begin(AsWritten, s, []);
      && t.active && !t.endShown && t.cardObjs == []
      && Consistent(t) && !WF(t)
      && Run(AsWritten, t, es) == t
  {
    var t := Begin(AsWritten, s, []);
    EmptyRevealIsStuck(AsWritten, t, es);
  }

  lemma {:induction false} EmptyRevealIsStuck(b: Build, t: RevealState, es: seq<Event>)
    requires t.cardObjs == [] && t.phase == Ready
    ensures Run(b, t, es) == t
    decreases |es|
  {
    if es != [] {
      EmptyRevealIsStuck(b, Step(b, t, es[0]), es[1..]);
    }
  }

  /** Corrected, an empty draw is a complete reveal: the end buttons are shown and the invariant holds. */
  lemma EmptyDrawCompletes(s: RevealState)
    requires Consistent(s) && !s.active
    ensures Begin(Corrected, s, []).endShown && WF(Begin(Corrected, s, []))
  {
  }
}
