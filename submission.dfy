/** The response dialog's submission side (`ActionDialog`): choosing an
    action records the response, which is persisted through the store, and
    the user is navigated on only once the store has returned the persisted
    record. The store and the router are outside: a persistence request is
    appended to `requests`, the store answering is an event, and a call to
    `navigate` is appended to `navigations`.

    This is the corrected behaviour: the response type is captured together
    with the response when an action is chosen, and navigation waits for the
    record of that very choice. The behaviour as written, where later
    changes of the dialog's response type re-submit the old response, is in
    module AsWritten. */
module Submission {
  import opened Responses
  import opened Dialogs
  import Navigation

  /** What the dialog needs from its surroundings: the signed-in startup's
      identity, the presented pattern's identity and the caller's `nextUrl`. */
  datatype Context = Context(startupId: string, documentId: string, nextUrl: string)

  /** The user's choice: the dialog's response type and the chosen value. */
  datatype Selection = Selection(responseType: ResponseType, response: ResponseValue)

  /** The startup-pattern record sent to the store. */
  datatype Record = Record(startup: string, pattern: string, responseType: ResponseType, response: ResponseValue)

  /** `response` (here the whole selection), the persistence requests made,
      `startupPattern` (the record the store returned last), every record the
      store has returned, and the navigations made. */
  datatype DialogState = DialogState(
    selection: Option<Selection>,
    requests: seq<Record>,
    startupPattern: Option<Record>,
    returned: seq<Record>,
    navigations: seq<Navigation.Target>)

  const Idle := DialogState(None, [], None, [], [])

  function RecordOf(ctx: Context, sel: Selection): Record
  {
    Record(ctx.startupId, ctx.documentId, sel.responseType, sel.response)
  }

  /** Where a persisted record sends the user. */
  function TargetOf(ctx: Context, r: Record): Navigation.Target
  {
    Navigation.Resolve(r.responseType, r.response, r.pattern, ctx.nextUrl)
  }

  /** The selection the `i`-th button of a dialog makes. */
  function SelectionAt(config: DialogConfig, i: nat): Selection
    requires i < |config.actions|
  {
    Selection(config.responseType, config.actions[i].value)
  }

  /** The navigation effect: once the store has returned the record of the
      current selection, navigate to where that record leads. */
  function Navigate(ctx: Context, d: DialogState): (r: DialogState)
    ensures r.(navigations := d.navigations) == d
    ensures || r.navigations == d.navigations
            || (&& d.selection.Some?
                && d.startupPattern == Some(RecordOf(ctx, d.selection.value))
                && r.navigations == d.navigations + [TargetOf(ctx, RecordOf(ctx, d.selection.value))])
    ensures d.selection.Some? && d.startupPattern == Some(RecordOf(ctx, d.selection.value)) ==> r.navigations != d.navigations
  {
    if d.selection.Some? && d.startupPattern == Some(RecordOf(ctx, d.selection.value)) then
      d.(navigations := d.navigations + [TargetOf(ctx, d.startupPattern.value)])
    else
      d
  }

  /** An action button: set the selection and, when it changed, request the
      record to be created; then the navigation effect. Choosing the current
      selection again changes nothing. */
  function AfterChoose(ctx: Context, d: DialogState, sel: Selection): (r: DialogState)
    ensures r.selection == Some(sel)
    ensures r.requests == (if d.selection == Some(sel) then d.requests else d.requests + [RecordOf(ctx, sel)])
    ensures r.startupPattern == d.startupPattern && r.returned == d.returned
    ensures || r.navigations == d.navigations
            || (&& d.startupPattern == Some(RecordOf(ctx, sel))
                && r.navigations == d.navigations + [TargetOf(ctx, RecordOf(ctx, sel))])
    ensures r.navigations != d.navigations <==> d.selection != Some(sel) && d.startupPattern == Some(RecordOf(ctx, sel))
  {
    if d.selection == Some(sel) then d
    else Navigate(ctx, d.(selection := Some(sel), requests := d.requests + [RecordOf(ctx, sel)]))
  }

  /** The store answering request `k` with the record it created; then the
      navigation effect. */
  function AfterStoreReturns(ctx: Context, d: DialogState, k: nat): (r: DialogState)
    requires k < |d.requests|
    ensures r.startupPattern == Some(d.requests[k]) && r.returned == d.returned + [d.requests[k]]
    ensures r.selection == d.selection && r.requests == d.requests
    ensures r.navigations ==
      if d.selection.Some? && d.requests[k] == RecordOf(ctx, d.selection.value)
      then d.navigations + [TargetOf(ctx, d.requests[k])]
      else d.navigations
  {
    Navigate(ctx, d.(startupPattern := Some(d.requests[k]), returned := d.returned + [d.requests[k]]))
  }

  /** The dialog's invariant: nothing is persisted or navigated before a
      response is chosen; every record sent to the store is for this startup
      and pattern and pairs a response with its own branch's type; the store
      returns only records that were sent; and every navigation leads where
      some record the store has returned leads (persist before navigate). */
  ghost predicate Inv(ctx: Context, d: DialogState)
  {
    && (d.selection == None ==> d.requests == [] && d.navigations == [])
    && (d.selection.Some? ==> SameBranch(d.selection.value.responseType, d.selection.value.response))
    && (forall r :: r in d.requests ==>
          r.startup == ctx.startupId && r.pattern == ctx.documentId && SameBranch(r.responseType, r.response))
    && (forall r :: r in d.returned ==> r in d.requests)
    && (d.startupPattern.Some? ==> d.startupPattern.value in d.returned)
    && (forall t :: t in d.navigations ==> exists r :: r in d.returned && t == TargetOf(ctx, r))
  }

  lemma IdleInv(ctx: Context)
    ensures Inv(ctx, Idle)
  {
  }

  lemma NavigateKeepsInv(ctx: Context, d: DialogState)
    requires Inv(ctx, d)
    ensures Inv(ctx, Navigate(ctx, d))
    ensures Navigate(ctx, d).requests == d.requests && Navigate(ctx, d).returned == d.returned
  {
    var d' := Navigate(ctx, d);
    if d' != d {
      var r := d.startupPattern.value;
      forall t | t in d'.navigations
        ensures exists r :: r in d'.returned && t == TargetOf(ctx, r)
      {
        if t !in d.navigations {
          assert t == TargetOf(ctx, r);
        }
      }
    }
  }

  /** Choosing a branch-consistent selection keeps the invariant and
      requests exactly the record of a new selection. */
  lemma ChooseKeepsInv(ctx: Context, d: DialogState, sel: Selection)
    requires Inv(ctx, d) && SameBranch(sel.responseType, sel.response)
    ensures var d' := AfterChoose(ctx, d, sel);
      && Inv(ctx, d') && d'.selection == Some(sel)
      && d'.requests == (if d.selection == Some(sel) then d.requests else d.requests + [RecordOf(ctx, sel)])
  {
    if d.selection != Some(sel) {
      var e := d.(selection := Some(sel), requests := d.requests + [RecordOf(ctx, sel)]);
      assert Inv(ctx, e) by {
        forall t | t in e.navigations
          ensures exists r :: r in e.returned && t == TargetOf(ctx, r)
        {
          assert t in d.navigations;
        }
      }
      NavigateKeepsInv(ctx, e);
    }
  }

  /** The store's answer keeps the invariant. */
  lemma StoreReturnsKeepsInv(ctx: Context, d: DialogState, k: nat)
    requires Inv(ctx, d) && k < |d.requests|
    ensures Inv(ctx, AfterStoreReturns(ctx, d, k))
    ensures AfterStoreReturns(ctx, d, k).requests == d.requests
  {
    var e := d.(startupPattern := Some(d.requests[k]), returned := d.returned + [d.requests[k]]);
    assert Inv(ctx, e) by {
      forall t | t in e.navigations
        ensures exists r :: r in e.returned && t == TargetOf(ctx, r)
      {
        var r :| r in d.returned && t == TargetOf(ctx, r);
        assert r in e.returned;
      }
    }
    NavigateKeepsInv(ctx, e);
  }

  /** The dialog as a stateful component. The store's bookkeeping of what it
      has returned is ghost. */
  class ActionDialog {
    const ctx: Context
    var selection: Option<Selection>
    var requests: seq<Record>
    var startupPattern: Option<Record>
    ghost var returned: seq<Record>
    var navigations: seq<Navigation.Target>

    ghost function Snapshot(): DialogState
      reads this
    {
      DialogState(selection, requests, startupPattern, returned, navigations)
    }

    ghost predicate Valid()
      reads this
    {
      Inv(ctx, Snapshot())
    }

    constructor (ctx: Context)
      ensures this.ctx == ctx && Valid() && Snapshot() == Idle
    {
      this.ctx := ctx;
      selection := None;
      requests := [];
      startupPattern := None;
      returned := [];
      navigations := [];
    }

    /** The navigation effect. */
    method NavigateIfPersisted()
      requires Valid()
      modifies this
      ensures Valid() && Snapshot() == Navigate(ctx, old(Snapshot()))
    {
      NavigateKeepsInv(ctx, Snapshot());
      if selection.Some? && startupPattern == Some(RecordOf(ctx, selection.value)) {
        navigations := navigations + [TargetOf(ctx, startupPattern.value)];
      }
    }

    /** The `i`-th action button of a dialog showing `config`, which the card
        keeps branch-consistent. */
    method Choose(config: DialogConfig, i: nat)
      requires Valid() && BranchConsistent(config) && i < |config.actions|
      modifies this
      ensures Valid() && selection == Some(SelectionAt(config, i))
      ensures Snapshot() == AfterChoose(ctx, old(Snapshot()), SelectionAt(config, i))
    {
      var sel := SelectionAt(config, i);
      ChooseKeepsInv(ctx, Snapshot(), sel);
      if selection != Some(sel) {
        selection := Some(sel);
        requests := requests + [RecordOf(ctx, sel)];
        NavigateIfPersisted();
      }
    }

    /** The store answering request `k` with the record it created. */
    method StoreReturns(k: nat)
      requires Valid() && k < |requests|
      modifies this
      ensures Valid() && requests == old(requests)
      ensures Snapshot() == AfterStoreReturns(ctx, old(Snapshot()), k)
    {
      StoreReturnsKeepsInv(ctx, Snapshot(), k);
      var r := requests[k];
      startupPattern := Some(r);
      returned := returned + [r];
      NavigateIfPersisted();
    }
  }
}
