/** The whole gesture-to-decision pipeline of one presented pattern: the card
    and its response dialog driven by a stream of events. Events the screen
    does not offer in the current state (a swipe while the card is hidden, a
    button of a closed dialog, an answer to a request never made) change
    nothing. */
module Pipeline {
  import opened Responses
  import opened Dialogs
  import opened Card
  import opened Submission
  import Navigation

  datatype Event =
    | DragEnd(offsetX: real)  // the card released after a horizontal drag
    | PressReject             // the left button under the card
    | PressFlip               // the flip button under the card
    | PressAccept             // the right button under the card
    | TimerFires              // the oldest pending exit timer
    | Back                    // the dialog's Back button or its close request
    | Choose(index: nat)      // the dialog's index-th action button
    | StoreReturns(request: nat) // the store has created the request-th record

  datatype Sys = Sys(card: CardState, dialog: DialogState)

  const Start := Sys(Card.Initial, Idle)

  /** What an event does to the card. Choosing an action closes the dialog
      through `handleDialogClose`, as Back does. */
  function CardStep(c: CardState, e: Event): (c': CardState)
    ensures !c.isVisible && (e.DragEnd? || e.PressReject? || e.PressFlip? || e.PressAccept?) ==> c' == c
    ensures !c.dialogOpen && (e.Back? || e.Choose?) ==> c' == c
    ensures e.StoreReturns? ==> c' == c
    ensures c'.dialogConfig != c.dialogConfig ==> e.TimerFires? && c.pendingExits != []
    ensures c'.isVisible && !c.isVisible ==> (e.Back? || e.Choose?) && !c'.isFlipped && c'.exitDirection == None
  {
    match e
    case DragEnd(x) => if c.isVisible then AfterDragEnd(c, x) else c
    case PressReject => if c.isVisible then AfterSwipe(c, Left) else c
    case PressFlip => if c.isVisible then AfterFlip(c) else c
    case PressAccept => if c.isVisible then AfterSwipe(c, Right) else c
    case TimerFires => if c.pendingExits != [] then AfterExit(c) else c
    case Back => if c.dialogOpen then AfterClose(c) else c
    case Choose(i) => if c.dialogOpen && i < |c.dialogConfig.actions| then AfterClose(c) else c
    case StoreReturns(_) => c
  }

  /** What an event does to the whole pipeline. */
  function Step(ctx: Context, s: Sys, e: Event): (s': Sys)
    ensures s'.card == CardStep(s.card, e)
    ensures s'.dialog.requests != s.dialog.requests ==> e.Choose? && s.card.dialogOpen
    ensures s'.dialog.returned != s.dialog.returned ==> e.StoreReturns?
    ensures s.dialog.requests <= s'.dialog.requests && s.dialog.returned <= s'.dialog.returned
    ensures s.dialog.navigations <= s'.dialog.navigations && |s'.dialog.navigations| <= |s.dialog.navigations| + 1
  {
    var dialog :=
      match e
      case Choose(i) =>
        if s.card.dialogOpen && i < |s.card.dialogConfig.actions|
        then AfterChoose(ctx, s.dialog, SelectionAt(s.card.dialogConfig, i))
        else s.dialog
      case StoreReturns(k) =>
        if k < |s.dialog.requests| then AfterStoreReturns(ctx, s.dialog, k) else s.dialog
      case _ => s.dialog;
    Sys(CardStep(s.card, e), dialog)
  }

  function Run(ctx: Context, s: Sys, events: seq<Event>): Sys
    decreases |events|
  {
    if events == [] then s else Run(ctx, Step(ctx, s, events[0]), events[1..])
  }

  ghost predicate Inv(ctx: Context, s: Sys)
  {
    Card.Inv(s.card) && Submission.Inv(ctx, s.dialog)
  }

  /** Every event keeps the card in one of its phases. */
  lemma CardStepKeepsInv(c: CardState, e: Event)
    requires Card.Inv(c)
    ensures Card.Inv(CardStep(c, e))
  {
    match e
    case DragEnd(x) => if c.isVisible { DragEndEffect(c, x); }
    case PressReject => if c.isVisible { SwipeEffect(c, Left); }
    case PressFlip => if c.isVisible { FlipInvolution(c); }
    case PressAccept => if c.isVisible { SwipeEffect(c, Right); }
    case TimerFires => if c.pendingExits != [] { ExitEffect(c); }
    case Back => if c.dialogOpen { CloseDialogResets(c); }
    case Choose(i) => if c.dialogOpen && i < |c.dialogConfig.actions| { CloseDialogResets(c); }
    case StoreReturns(_) =>
  }

  /** Every event keeps the card in one of its phases and the dialog within
      its invariant. */
  lemma StepKeepsInv(ctx: Context, s: Sys, e: Event)
    requires Inv(ctx, s)
    ensures Inv(ctx, Step(ctx, s, e))
  {
    CardStepKeepsInv(s.card, e);
    match e
    case Choose(i) =>
      if s.card.dialogOpen && i < |s.card.dialogConfig.actions| {
        ChooseKeepsInv(ctx, s.dialog, SelectionAt(s.card.dialogConfig, i));
      }
    case StoreReturns(k) =>
      if k < |s.dialog.requests| { StoreReturnsKeepsInv(ctx, s.dialog, k); }
    case _ =>
  }

  lemma {:induction false} RunKeepsInv(ctx: Context, s: Sys, events: seq<Event>)
    requires Inv(ctx, s)
    ensures Inv(ctx, Run(ctx, s, events))
    decreases |events|
  {
    if events != [] {
      StepKeepsInv(ctx, s, events[0]);
      RunKeepsInv(ctx, Step(ctx, s, events[0]), events[1..]);
    }
  }

  /** In every state reachable from a freshly mounted card: the dialog's
      buttons answer the dialog's own branch; no record is requested before a
      response is chosen; no record pairs a response with the other branch's
      type; and every navigation leads where a record that was requested and
      then returned by the store leads. */
  lemma Reachable(ctx: Context, events: seq<Event>)
    ensures var s := Run(ctx, Start, events);
      && BranchConsistent(s.card.dialogConfig)
      && (s.dialog.selection == None ==> s.dialog.requests == [] && s.dialog.navigations == [])
      && (forall r :: r in s.dialog.requests ==> SameBranch(r.responseType, r.response))
      && (forall t :: t in s.dialog.navigations ==>
            exists r :: r in s.dialog.requests && r in s.dialog.returned && t == TargetOf(ctx, r))
  {
    IdleInv(ctx);
    RunKeepsInv(ctx, Start, events);
  }

  /** Back closes the dialog and resets the card, but chooses, persists and
      navigates nothing. */
  lemma BackChoosesNothing(ctx: Context, s: Sys)
    requires Inv(ctx, s) && s.card.dialogOpen
    ensures Step(ctx, s, Back).dialog == s.dialog
    ensures Step(ctx, s, Back).card == Card.Initial.(dialogConfig := s.card.dialogConfig)
  {
    CloseDialogResets(s.card);
  }

  /** Choosing an action, first or later, closes the dialog exactly as Back
      does and selects the button's (type, value); a new selection requests
      exactly its record, a repeated one nothing; and the user is navigated
      on at once only if the store has already returned that record. */
  lemma ChooseClosesAndRequests(ctx: Context, s: Sys, i: nat)
    requires Inv(ctx, s) && s.card.dialogOpen && i < |s.card.dialogConfig.actions|
    ensures var s' := Step(ctx, s, Choose(i));
      var sel := Selection(s.card.dialogConfig.responseType, s.card.dialogConfig.actions[i].value);
      && s'.card == Step(ctx, s, Back).card
      && s'.card == Card.Initial.(dialogConfig := s.card.dialogConfig)
      && s'.dialog.selection == Some(sel)
      && s'.dialog.requests == (if s.dialog.selection == Some(sel) then s.dialog.requests
                                else s.dialog.requests + [RecordOf(ctx, sel)])
      && (s.dialog.startupPattern != Some(RecordOf(ctx, sel)) ==> s'.dialog.navigations == s.dialog.navigations)
      && Inv(ctx, s')
  {
    CloseDialogResets(s.card);
    ChooseKeepsInv(ctx, s.dialog, SelectionAt(s.card.dialogConfig, i));
  }

  /** Persist before navigate, for the current choice: an event either
      navigates nowhere, or navigates once, to where the record of the
      current selection leads, and that record has been returned by the
      store. */
  lemma StepNavigatesToCurrentChoice(ctx: Context, s: Sys, e: Event)
    requires Inv(ctx, s)
    ensures var s' := Step(ctx, s, e);
      || s'.dialog.navigations == s.dialog.navigations
      || (&& s'.dialog.selection.Some?
          && RecordOf(ctx, s'.dialog.selection.value) in s'.dialog.returned
          && s'.dialog.navigations == s.dialog.navigations + [TargetOf(ctx, RecordOf(ctx, s'.dialog.selection.value))])
  {
    StepKeepsInv(ctx, s, e);
  }

  /** Scenario: a drag of 150 to the right opens the accept dialog; choosing
      "Perform exercise" requests (accept, perform_exercise) and does not
      navigate; once the store returns that record the user is sent to the
      pattern's exercise screen, carrying `nextUrl`. */
  lemma ScenarioExercise(ctx: Context)
    ensures var s1 := Run(ctx, Start, [DragEnd(150.0), TimerFires]);
      && s1.card.dialogOpen && s1.card.dialogConfig == ConfigFor(Right)
      && s1.card.dialogConfig.actions[1].value == PerformExercise
    ensures var s2 := Run(ctx, Start, [DragEnd(150.0), TimerFires, Choose(1)]);
      && s2.dialog.requests == [Record(ctx.startupId, ctx.documentId, Accept, PerformExercise)]
      && s2.dialog.navigations == []
    ensures Run(ctx, Start, [DragEnd(150.0), TimerFires, Choose(1), StoreReturns(0)]).dialog.navigations
         == [Navigation.Target("/progress/" + ctx.documentId + "/exercise", Some(ctx.nextUrl))]
  {
  }

  /** Scenario: a drag of 120 to the left opens the reject dialog; "Maybe
      later" leads, once persisted, to `nextUrl` itself. */
  lemma ScenarioMaybeLater(ctx: Context)
    ensures Run(ctx, Start, [DragEnd(-120.0), TimerFires, Choose(1), StoreReturns(0)]).dialog
         == DialogState(Some(Selection(Reject, MaybeLater)),
                        [Record(ctx.startupId, ctx.documentId, Reject, MaybeLater)],
                        Some(Record(ctx.startupId, ctx.documentId, Reject, MaybeLater)),
                        [Record(ctx.startupId, ctx.documentId, Reject, MaybeLater)],
                        [Navigation.Target(ctx.nextUrl, None)])
  {
  }

  /** Scenario: a drag of 50 leaves everything as it was. */
  lemma ScenarioShortDrag(ctx: Context)
    ensures Run(ctx, Start, [DragEnd(50.0)]) == Start
  {
  }

  /** Scenario: "Think about it later" on the accept dialog also leads to
      `nextUrl` itself. */
  lemma ScenarioThinkLater(ctx: Context)
    ensures Run(ctx, Start, [PressAccept, TimerFires, Choose(2), StoreReturns(0)]).dialog.navigations
         == [Navigation.Target(ctx.nextUrl, None)]
  {
  }

  /** Scenario: flipping the shown card any number of times changes only the
      side that is up, which alternates. */
  lemma {:induction false} ScenarioFlips(ctx: Context, s: Sys, n: nat)
    requires Inv(ctx, s) && s.card.isVisible
    ensures var s' := Run(ctx, s, seq(n, _ => PressFlip));
      && Inv(ctx, s')
      && s' == s.(card := s.card.(isFlipped := if n % 2 == 0 then s.card.isFlipped else !s.card.isFlipped))
    decreases n
  {
    if n > 0 {
      var flips := seq(n, _ => PressFlip);
      assert flips[0] == PressFlip && flips[1..] == seq(n - 1, _ => PressFlip);
      FlipInvolution(s.card);
      ScenarioFlips(ctx, Step(ctx, s, PressFlip), n - 1);
    }
  }

  /** On the trace that makes the code as written resubmit under the other
      branch (module AsWritten), the corrected pipeline requests only the
      chosen record and, once it is returned, navigates to the survey
      screen. */
  lemma ScenarioSwipeWhilePersisting(ctx: Context)
    ensures var s := Run(ctx, Start, SwipeEvents());
      && s.dialog.requests == [Record(ctx.startupId, ctx.documentId, Accept, ShareReflection)]
      && s.dialog.navigations == [Navigation.Target("/progress/" + ctx.documentId + "/survey", Some(ctx.nextUrl))]
  {
    SwipeRun(ctx, 0);
    assert SwipeEvents()[0..] == SwipeEvents();
    SwipeOutcome(ctx);
  }

  lemma SwipeOutcome(ctx: Context)
    ensures SwipeState(ctx, 6).dialog.requests == [Record(ctx.startupId, ctx.documentId, Accept, ShareReflection)]
    ensures SwipeState(ctx, 6).dialog.navigations
         == [Navigation.Target("/progress/" + ctx.documentId + "/survey", Some(ctx.nextUrl))]
  {
  }

  /** Accept, let the exit timer fire, choose "Share reflection", swipe left
      while the record is being persisted, let the exit timer fire, and the
      store returns the record. */
  function SwipeEvents(): seq<Event>
  {
    [PressAccept, TimerFires, Choose(0), PressReject, TimerFires, StoreReturns(0)]
  }

  /** The state after the first `n` events of `SwipeEvents()`. */
  function SwipeState(ctx: Context, n: nat): Sys
    requires n <= 6
  {
    var chosen := AfterChoose(ctx, Idle, Selection(Accept, ShareReflection));
    var shown := Card.Initial.(dialogConfig := ConfigFor(Right));
    match n
    case 0 => Start
    case 1 => Sys(AfterSwipe(Card.Initial, Right), Idle)
    case 2 => Sys(AfterExit(AfterSwipe(Card.Initial, Right)), Idle)
    case 3 => Sys(shown, chosen)
    case 4 => Sys(AfterSwipe(shown, Left), chosen)
    case 5 => Sys(AfterExit(AfterSwipe(shown, Left)), chosen)
    case _ => Sys(AfterExit(AfterSwipe(shown, Left)), AfterStoreReturns(ctx, chosen, 0))
  }

  lemma SwipeStep(ctx: Context, n: nat)
    requires n < 6
    ensures Step(ctx, SwipeState(ctx, n), SwipeEvents()[n]) == SwipeState(ctx, n + 1)
  {
    if n == 2 {
      CloseDialogResets(SwipeState(ctx, 2).card);
      assert ConfigFor(Right).actions[0].value == ShareReflection;
    }
  }

  lemma {:induction false} SwipeRun(ctx: Context, n: nat)
    requires n <= 6
    ensures Run(ctx, SwipeState(ctx, n), SwipeEvents()[n..]) == SwipeState(ctx, 6)
    decreases 6 - n
  {
    if n < 6 {
      SwipeStep(ctx, n);
      assert SwipeEvents()[n..][1..] == SwipeEvents()[n + 1..];
      SwipeRun(ctx, n + 1);
    }
  }
}
