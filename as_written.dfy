/** The response dialog's effects exactly as `ActionDialog` writes them. The
    dialog keeps only the response value; its first effect creates a record
    from that value and the dialog's CURRENT response type whenever either
    changes, and its second effect navigates, from the same two, whenever
    one of them or the store's last record changes while both a response and
    a returned record exist. Because the card reappears as soon as an action
    is chosen, a new swipe can change the response type while the first
    record is still being persisted. */
module AsWritten {
  import opened Responses
  import opened Dialogs
  import opened Card
  import Navigation
  import opened Submission
  import opened Pipeline

  datatype SysW = SysW(
    card: CardState,
    response: Option<ResponseValue>,
    requests: seq<Record>,
    startupPattern: Option<Record>,
    navigations: seq<Navigation.Target>)

  const StartW := SysW(Card.Initial, None, [], None, [])

  /** The two effects after a render that went from `before` to `after`, run
      in declaration order, each only when one of its dependencies changed. */
  function Effects(ctx: Context, before: SysW, after: SysW, storeAnswered: bool): (r: SysW)
    ensures r.card == after.card && r.response == after.response && r.startupPattern == after.startupPattern
    // the create effect: a record of the current response under the CURRENT
    // response type, whenever either of them changed
    ensures r.requests ==
      if after.response.Some? && (after.response != before.response
                                  || after.card.dialogConfig.responseType != before.card.dialogConfig.responseType)
      then after.requests + [Record(ctx.startupId, ctx.documentId, after.card.dialogConfig.responseType, after.response.value)]
      else after.requests
    // the navigation effect: needs a response and any returned record, and
    // goes where the current response and type lead
    ensures || r.navigations == after.navigations
            || (&& after.response.Some? && after.startupPattern.Some?
                && r.navigations == after.navigations + [Navigation.Resolve(after.card.dialogConfig.responseType,
                                                                            after.response.value, ctx.documentId, ctx.nextUrl)])
    // and it fires whenever both are present and one of its dependencies changed
    ensures r.navigations != after.navigations
        <==> && after.response.Some? && after.startupPattern.Some?
             && (|| after.response != before.response
                 || after.card.dialogConfig.responseType != before.card.dialogConfig.responseType
                 || storeAnswered)
  {
    var rt := after.card.dialogConfig.responseType;
    var typeChanged := rt != before.card.dialogConfig.responseType;
    var responseChanged := after.response != before.response;
    var created :=
      if after.response.Some? && (responseChanged || typeChanged)
      then after.(requests := after.requests + [Record(ctx.startupId, ctx.documentId, rt, after.response.value)])
      else after;
    if created.response.Some? && created.startupPattern.Some? && (responseChanged || typeChanged || storeAnswered)
    then created.(navigations := created.navigations + [Navigation.Resolve(rt, created.response.value, ctx.documentId, ctx.nextUrl)])
    else created
  }

  function StepW(ctx: Context, s: SysW, e: Event): (s': SysW)
    ensures s'.card == CardStep(s.card, e)
    ensures s.requests <= s'.requests && |s'.requests| <= |s.requests| + 1
    ensures s.navigations <= s'.navigations && |s'.navigations| <= |s.navigations| + 1
    ensures s'.requests != s.requests ==>
      s'.response.Some? && s'.requests[|s.requests|].responseType == s'.card.dialogConfig.responseType
  {
    var card := CardStep(s.card, e);
    match e
    case Choose(i) =>
      if s.card.dialogOpen && i < |s.card.dialogConfig.actions|
      then Effects(ctx, s, s.(card := card, response := Some(s.card.dialogConfig.actions[i].value)), false)
      else s
    case StoreReturns(k) =>
      if k < |s.requests| then Effects(ctx, s, s.(startupPattern := Some(s.requests[k])), true) else s
    case _ => Effects(ctx, s, s.(card := card), false)
  }

  function RunW(ctx: Context, s: SysW, events: seq<Event>): SysW
    decreases |events|
  {
    if events == [] then s else RunW(ctx, StepW(ctx, s, events[0]), events[1..])
  }

  /** What the code as written does guarantee: nothing is requested before a
      response is chosen, the store's record is one that was requested, and
      navigation needs a chosen response and some returned record. */
  ghost predicate InvW(ctx: Context, s: SysW)
  {
    && Card.Inv(s.card)
    && (s.response == None ==> s.requests == [] && s.navigations == [])
    && (s.startupPattern.Some? ==> s.startupPattern.value in s.requests)
    && (s.navigations != [] ==> s.response.Some? && s.startupPattern.Some?)
    && (forall r :: r in s.requests ==> r.startup == ctx.startupId && r.pattern == ctx.documentId)
  }

  /** The two effects keep the guarantee: the create effect needs a
      response, and the navigation effect a response and a returned record. */
  lemma EffectsKeepInvW(ctx: Context, before: SysW, after: SysW, storeAnswered: bool)
    requires InvW(ctx, after)
    ensures InvW(ctx, Effects(ctx, before, after, storeAnswered))
    ensures Effects(ctx, before, after, storeAnswered).card == after.card
  {
  }

  lemma StepWKeepsInvW(ctx: Context, s: SysW, e: Event)
    requires InvW(ctx, s)
    ensures InvW(ctx, StepW(ctx, s, e))
  {
    CardStepKeepsInv(s.card, e);
    var card := CardStep(s.card, e);
    match e
    case Choose(i) =>
      if s.card.dialogOpen && i < |s.card.dialogConfig.actions| {
        EffectsKeepInvW(ctx, s, s.(card := card, response := Some(s.card.dialogConfig.actions[i].value)), false);
      }
    case StoreReturns(k) =>
      if k < |s.requests| {
        EffectsKeepInvW(ctx, s, s.(startupPattern := Some(s.requests[k])), true);
      }
    case _ =>
      EffectsKeepInvW(ctx, s, s.(card := card), false);
  }

  lemma {:induction false} RunWKeepsInvW(ctx: Context, s: SysW, events: seq<Event>)
    requires InvW(ctx, s)
    ensures InvW(ctx, RunW(ctx, s, events))
    decreases |events|
  {
    if events != [] {
      StepWKeepsInvW(ctx, s, events[0]);
      RunWKeepsInvW(ctx, StepW(ctx, s, events[0]), events[1..]);
    }
  }

  /** Persist before navigate, in the weak form the code keeps: in every
      reachable state a navigation implies a chosen response and a returned
      record that had been requested. */
  lemma ReachableW(ctx: Context, events: seq<Event>)
    ensures var s := RunW(ctx, StartW, events);
      && (s.requests != [] ==> s.response.Some?)
      && (s.navigations != [] ==> s.response.Some? && s.startupPattern.Some? && s.startupPattern.value in s.requests)
  {
    RunWKeepsInvW(ctx, StartW, events);
  }

  /** Card states met on the trace `TraceEvents`. */
  function Accepted(): CardState
  {
    Card.Initial.(exitDirection := Some(Right), isVisible := false, pendingExits := [Right])
  }

  function AcceptAsked(): CardState
  {
    Card.Initial.(exitDirection := Some(Right), isVisible := false, dialogOpen := true, dialogConfig := ConfigFor(Right))
  }

  function RejectedAgain(): CardState
  {
    Card.Initial.(exitDirection := Some(Left), isVisible := false, dialogConfig := ConfigFor(Right), pendingExits := [Left])
  }

  function RejectAsked(): CardState
  {
    Card.Initial.(exitDirection := Some(Left), isVisible := false, dialogOpen := true, dialogConfig := ConfigFor(Left))
  }

  function FirstRecord(ctx: Context): Record
  {
    Record(ctx.startupId, ctx.documentId, Accept, ShareReflection)
  }

  function SecondRecord(ctx: Context): Record
  {
    Record(ctx.startupId, ctx.documentId, Reject, ShareReflection)
  }

  /** The states of the trace, one event at a time. */
  function TraceState(ctx: Context, n: nat): SysW
    requires n <= 5
  {
    match n
    case 0 => StartW
    case 1 => StartW.(card := Accepted())
    case 2 => StartW.(card := AcceptAsked())
    case 3 => SysW(Card.Initial.(dialogConfig := ConfigFor(Right)), Some(ShareReflection), [FirstRecord(ctx)], None, [])
    case 4 => SysW(RejectedAgain(), Some(ShareReflection), [FirstRecord(ctx)], None, [])
    case _ => SysW(RejectAsked(), Some(ShareReflection), [FirstRecord(ctx), SecondRecord(ctx)], None, [])
  }

  /** Accept, let the exit timer fire, choose "Share reflection" (the card
      reappears at once), swipe left while the record is being persisted,
      let the exit timer fire. */
  function TraceEvents(): seq<Event>
  {
    [PressAccept, TimerFires, Choose(0), PressReject, TimerFires]
  }

  lemma TraceStep(ctx: Context, n: nat)
    requires n < 5
    ensures StepW(ctx, TraceState(ctx, n), TraceEvents()[n]) == TraceState(ctx, n + 1)
  {
    if n == 2 {
      ChooseShareStep(ctx);
    } else if n == 4 {
      ReopenRejectStep(ctx);
    } else {
      OtherTraceStep(ctx, n);
    }
  }

  lemma OtherTraceStep(ctx: Context, n: nat)
    requires n == 0 || n == 1 || n == 3
    ensures StepW(ctx, TraceState(ctx, n), TraceEvents()[n]) == TraceState(ctx, n + 1)
  {
  }

  /** Choosing "Share reflection" requests (accept, share_reflection) and
      closes the dialog. */
  lemma ChooseShareStep(ctx: Context)
    ensures StepW(ctx, TraceState(ctx, 2), Choose(0)) == TraceState(ctx, 3)
  {
    assert ConfigFor(Right).actions[0].value == ShareReflection;
  }

  /** The exit timer of the second swipe changes the response type, so the
      create effect runs again with the old response. */
  lemma ReopenRejectStep(ctx: Context)
    ensures StepW(ctx, TraceState(ctx, 4), TimerFires) == TraceState(ctx, 5)
  {
    assert ConfigFor(Left).responseType == Reject;
  }

  lemma {:induction false} TraceRun(ctx: Context, n: nat)
    requires n <= 5
    ensures RunW(ctx, TraceState(ctx, n), TraceEvents()[n..]) == TraceState(ctx, 5)
    decreases 5 - n
  {
    if n < 5 {
      TraceStep(ctx, n);
      assert TraceEvents()[n..][1..] == TraceEvents()[n + 1..];
      TraceRun(ctx, n + 1);
    }
  }

  /** Where the trace ends: the response is still share_reflection, the
      dialog now rejects, and a second record pairs share_reflection with
      reject. */
  lemma ResubmissionTrace(ctx: Context)
    ensures RunW(ctx, StartW, TraceEvents())
         == SysW(RejectAsked(), Some(ShareReflection), [FirstRecord(ctx), SecondRecord(ctx)], None, [])
  {
    TraceRun(ctx, 0);
    assert TraceEvents()[0..] == TraceEvents();
  }

  /** The store answering the first request at the end of the trace: the
      code navigates from the current response type (reject), not from the
      record that was returned. */
  lemma StaleAnswerStep(ctx: Context)
    ensures StepW(ctx, TraceState(ctx, 5), StoreReturns(0))
         == TraceState(ctx, 5).(startupPattern := Some(FirstRecord(ctx)),
                                navigations := [Navigation.Target(ctx.nextUrl, None)])
  {
  }

  /** The code as written breaks two promises on that trace: it requests a
      second record pairing share_reflection with reject, and when the store
      returns the first record it navigates to `nextUrl` itself, although the
      one persisted record leads to the survey screen. */
  lemma CrossBranchResubmission(ctx: Context)
    ensures var s := RunW(ctx, StartW, TraceEvents());
      && |s.requests| == 2
      && !SameBranch(s.requests[1].responseType, s.requests[1].response)
    ensures var s := RunW(ctx, StartW, TraceEvents() + [StoreReturns(0)]);
      && s.startupPattern == Some(FirstRecord(ctx))
      && s.navigations == [Navigation.Target(ctx.nextUrl, None)]
      && s.navigations[0] != TargetOf(ctx, s.startupPattern.value)
  {
    var s5 := TraceState(ctx, 5);
    TraceRun(ctx, 0);
    assert TraceEvents()[0..] == TraceEvents();
    assert s5.requests[1] == SecondRecord(ctx);
    RunWAppend(ctx, StartW, TraceEvents(), StoreReturns(0));
    StaleAnswerStep(ctx);
  }

  lemma {:induction false} RunWAppend(ctx: Context, s: SysW, events: seq<Event>, e: Event)
    ensures RunW(ctx, s, events + [e]) == StepW(ctx, RunW(ctx, s, events), e)
    decreases |events|
  {
    if events == [] {
      assert [] + [e] == [e];
    } else {
      assert (events + [e])[1..] == events[1..] + [e];
      RunWAppend(ctx, StepW(ctx, s, events[0]), events[1..], e);
    }
  }
}
