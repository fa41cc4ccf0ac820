/** The presentation state of the pattern card (`PatternCard`): whether the
    card is shown, which side is up, which way it left, and the response
    dialog it opens once it has left. */
module Card {
  import opened Responses
  import opened Dialogs
  import Gesture

  /** The card's state fields. `pendingExits` holds the directions of the
      100 ms exit timers that `handleSwipe` has scheduled and that have not
      fired yet, oldest first. */
  datatype CardState = CardState(
    isVisible: bool,
    isFlipped: bool,
    exitDirection: Option<Direction>,
    dialogOpen: bool,
    dialogConfig: DialogConfig,
    pendingExits: seq<Direction>)

  /** The state a newly mounted card starts in. */
  const Initial := CardState(true, false, None, false, InitialConfig, [])

  /** `handleSwipe(dir)` up to its timer: the card starts leaving towards
      `dir` and the dialog is scheduled to open. */
  function AfterSwipe(c: CardState, dir: Direction): CardState
  {
    c.(exitDirection := Some(dir), isVisible := false, pendingExits := c.pendingExits + [dir])
  }

  /** The exit timer of `handleSwipe` firing: the dialog opens with the
      configuration of the direction that timer captured. */
  function AfterExit(c: CardState): CardState
    requires c.pendingExits != []
  {
    c.(dialogConfig := ConfigFor(c.pendingExits[0]), dialogOpen := true, pendingExits := c.pendingExits[1..])
  }

  /** `handleDialogClose`. */
  function AfterClose(c: CardState): CardState
  {
    c.(dialogOpen := false, exitDirection := None, isVisible := true, isFlipped := false)
  }

  /** The flip button: `setIsFlipped(!isFlipped)`. */
  function AfterFlip(c: CardState): CardState
  {
    c.(isFlipped := !c.isFlipped)
  }

  /** `handleDragEnd`: swipe when the classifier says so, otherwise nothing. */
  function AfterDragEnd(c: CardState, offsetX: real): CardState
  {
    match Gesture.Classify(offsetX)
    case Some(dir) => AfterSwipe(c, dir)
    case None => c
  }

  /** The three phases a card goes through: presenting (shown, dialog
      closed, no exit pending), exiting (hidden, one exit timer pending) and
      asking (hidden, dialog open with the configuration of the exit
      direction). In every phase the dialog's buttons answer its own
      branch. */
  ghost predicate Inv(c: CardState)
  {
    && BranchConsistent(c.dialogConfig)
    && (c.isVisible ==> !c.dialogOpen && c.exitDirection == None && c.pendingExits == [])
    && (!c.isVisible ==>
          && c.exitDirection.Some?
          && (if c.dialogOpen
              then c.pendingExits == [] && c.dialogConfig == ConfigFor(c.exitDirection.value)
              else c.pendingExits == [c.exitDirection.value]))
  }

  /** A swipe leaves the card hidden with the swipe's direction as its exit
      direction, keeps the side that was up, and (from a shown card) moves
      it into the exiting phase. */
  lemma SwipeEffect(c: CardState, dir: Direction)
    requires Inv(c) && c.isVisible
    ensures var c' := AfterSwipe(c, dir);
      && Inv(c') && !c'.isVisible && !c'.dialogOpen
      && c'.exitDirection == Some(dir) && c'.isFlipped == c.isFlipped
  {
  }

  /** When the exit timer fires the dialog is open and its configuration is
      the one of the exit direction. */
  lemma ExitEffect(c: CardState)
    requires Inv(c) && c.pendingExits != []
    ensures var c' := AfterExit(c);
      && Inv(c') && c'.dialogOpen && !c'.isVisible
      && c'.dialogConfig == ConfigFor(c.exitDirection.value)
      && c'.isFlipped == c.isFlipped
  {
  }

  /** Closing the open dialog, whatever the exit direction and whichever
      side was up, returns the card to the state of a freshly mounted one;
      only the (now closed) dialog's configuration is kept. */
  lemma CloseDialogResets(c: CardState)
    requires Inv(c) && c.dialogOpen
    ensures var c' := AfterClose(c);
      && Inv(c')
      && c'.isVisible && !c'.isFlipped && c'.exitDirection == None && !c'.dialogOpen
      && c' == Initial.(dialogConfig := c.dialogConfig)
  {
  }

  /** Flipping changes the side that is up and nothing else, and flipping
      twice restores the card. */
  lemma FlipInvolution(c: CardState)
    requires Inv(c)
    ensures Inv(AfterFlip(c))
    ensures AfterFlip(c).isFlipped != c.isFlipped
    ensures AfterFlip(c).(isFlipped := c.isFlipped) == c
    ensures AfterFlip(AfterFlip(c)) == c
  {
  }

  /** A drag that is not past the threshold leaves the card exactly as it
      was; one past it swipes in the offset's direction. */
  lemma DragEndEffect(c: CardState, offsetX: real)
    requires Inv(c) && c.isVisible
    ensures Inv(AfterDragEnd(c, offsetX))
    ensures -Gesture.SwipeThreshold <= offsetX <= Gesture.SwipeThreshold ==> AfterDragEnd(c, offsetX) == c
    ensures offsetX > Gesture.SwipeThreshold ==> AfterDragEnd(c, offsetX) == AfterSwipe(c, Right)
    ensures offsetX < -Gesture.SwipeThreshold ==> AfterDragEnd(c, offsetX) == AfterSwipe(c, Left)
  {
    match Gesture.Classify(offsetX)
    case Some(dir) => SwipeEffect(c, dir);
    case None =>
  }

  /** The card as a stateful component: one field per piece of state and one
      method per event. The methods that stand for user input on the card
      require the card to be shown, because the card and its buttons are
      rendered only while `isVisible` holds. */
  class PatternCard {
    var isVisible: bool
    var isFlipped: bool
    var exitDirection: Option<Direction>
    var dialogOpen: bool
    var dialogConfig: DialogConfig
    var pendingExits: seq<Direction>

    function Snapshot(): CardState
      reads this
    {
      CardState(isVisible, isFlipped, exitDirection, dialogOpen, dialogConfig, pendingExits)
    }

    ghost predicate Valid()
      reads this
    {
      Inv(Snapshot())
    }

    constructor ()
      ensures Valid() && Snapshot() == Initial
    {
      isVisible := true;
      isFlipped := false;
      exitDirection := None;
      dialogOpen := false;
      dialogConfig := InitialConfig;
      pendingExits := [];
    }

    /** `handleSwipe`: records the direction, hides the card and schedules
        the dialog. */
    method Swipe(dir: Direction)
      modifies this
      ensures exitDirection == Some(dir) && !isVisible
      ensures pendingExits == old(pendingExits) + [dir]
      ensures isFlipped == old(isFlipped) && dialogOpen == old(dialogOpen) && dialogConfig == old(dialogConfig)
      ensures Snapshot() == AfterSwipe(old(Snapshot()), dir)
      ensures old(Valid()) && old(isVisible) ==> Valid()
    {
      exitDirection := Some(dir);
      isVisible := false;
      pendingExits := pendingExits + [dir];
      if old(Valid()) && old(isVisible) {
        SwipeEffect(old(Snapshot()), dir);
      }
    }

    /** `onDragEnd` of the shown card. */
    method DragEnd(offsetX: real)
      requires Valid() && isVisible
      modifies this
      ensures Valid()
      ensures Snapshot() == AfterDragEnd(old(Snapshot()), offsetX)
      ensures -Gesture.SwipeThreshold <= offsetX <= Gesture.SwipeThreshold ==> Snapshot() == old(Snapshot())
    {
      var d := Gesture.Classify(offsetX);
      if d.Some? {
        Swipe(d.value);
      }
    }

    /** The reject (left) and accept (right) buttons under the shown card. */
    method PressReject()
      requires Valid() && isVisible
      modifies this
      ensures Valid() && Snapshot() == AfterSwipe(old(Snapshot()), Left)
    {
      Swipe(Left);
    }

    method PressAccept()
      requires Valid() && isVisible
      modifies this
      ensures Valid() && Snapshot() == AfterSwipe(old(Snapshot()), Right)
    {
      Swipe(Right);
    }

    /** The flip button under the shown card. */
    method PressFlip()
      requires Valid() && isVisible
      modifies this
      ensures Valid()
      ensures isFlipped == !old(isFlipped)
      ensures Snapshot() == old(Snapshot()).(isFlipped := isFlipped)
    {
      isFlipped := !isFlipped;
      FlipInvolution(old(Snapshot()));
    }

    /** The oldest pending exit timer fires and opens the dialog. */
    method ExitComplete()
      requires Valid() && pendingExits != []
      modifies this
      ensures Valid() && dialogOpen
      ensures dialogConfig == ConfigFor(old(pendingExits[0]))
      ensures pendingExits == old(pendingExits[1..])
      ensures isVisible == old(isVisible) && isFlipped == old(isFlipped) && exitDirection == old(exitDirection)
      ensures Snapshot() == AfterExit(old(Snapshot()))
    {
      dialogConfig := ConfigFor(pendingExits[0]);
      pendingExits := pendingExits[1..];
      dialogOpen := true;
      ExitEffect(old(Snapshot()));
    }

    /** `handleDialogClose`, reached through Back, through the dialog's own
        close request, and after choosing an action; all of these exist only
        while the dialog is open. */
    method CloseDialog()
      requires Valid() && dialogOpen
      modifies this
      ensures Valid()
      ensures isVisible && !isFlipped && exitDirection == None && !dialogOpen
      ensures dialogConfig == old(dialogConfig) && pendingExits == []
      ensures Snapshot() == AfterClose(old(Snapshot()))
    {
      dialogOpen := false;
      exitDirection := None;
      isVisible := true;
      isFlipped := false;
      CloseDialogResets(old(Snapshot()));
    }
  }
}
