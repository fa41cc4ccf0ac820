/** The action tables of the response dialog: which title and which ordered
    (label, response) buttons the dialog shows after a swipe. */
module Dialogs {
  import opened Responses

  /** One dialog button: its caption (the button label) and the response it selects. */
  datatype Action = Action(caption: string, value: ResponseValue)

  /** `dialogConfig`: the response type the dialog submits with, its title and
      its buttons in display order. */
  datatype DialogConfig = DialogConfig(responseType: ResponseType, title: string, actions: seq<Action>)

  /** The configuration the card starts with, before any swipe. */
  const InitialConfig := DialogConfig(Accept, "", [])

  const AcceptTitle := "Great! What would you like to do?"
  const RejectTitle := "Why are you passing?"

  /** Every button of the dialog answers the dialog's own branch. */
  predicate BranchConsistent(c: DialogConfig)
  {
    forall i :: 0 <= i < |c.actions| ==> SameBranch(c.responseType, c.actions[i].value)
  }

  /** The response values of a button list, in order. */
  function Values(actions: seq<Action>): (vs: seq<ResponseValue>)
    ensures |vs| == |actions|
    ensures forall i :: 0 <= i < |actions| ==> vs[i] == actions[i].value
  {
    if actions == [] then [] else [actions[0].value] + Values(actions[1..])
  }

  /** The configuration the dialog opens with once the card has left towards
      `dir`: a right swipe accepts, a left swipe rejects, and every button
      answers that branch. */
  function ConfigFor(dir: Direction): (c: DialogConfig)
    ensures c.responseType == (if dir == Right then Accept else Reject)
    ensures c.title == (if dir == Right then AcceptTitle else RejectTitle)
    ensures BranchConsistent(c)
  {
    if dir == Right then
      DialogConfig(Accept, AcceptTitle, [
        Action("Share reflection", ShareReflection),
        Action("Perform exercise", PerformExercise),
        Action("Think about it later", ThinkLater)])
    else
      DialogConfig(Reject, RejectTitle, [
        Action("Already addressed", AlreadyAddressed),
        Action("Maybe later", MaybeLater),
        Action("Can't see value", NoValue),
        Action("Don't get it", DontUnderstand)])
  }

  /** The buttons of either dialog offer the values of its branch in the
      fixed display order, and every value of the branch is offered. */
  lemma ConfigForOffersBranch(dir: Direction)
    ensures Values(ConfigFor(dir).actions) ==
      if dir == Right then [ShareReflection, PerformExercise, ThinkLater]
      else [AlreadyAddressed, MaybeLater, NoValue, DontUnderstand]
    ensures var c := ConfigFor(dir);
      forall v :: v in Values(c.actions) <==> SameBranch(c.responseType, v)
  {
    var c := ConfigFor(dir);
    if dir == Right {
      assert Values(c.actions) == [ShareReflection, PerformExercise, ThinkLater];
    } else {
      assert Values(c.actions) == [AlreadyAddressed, MaybeLater, NoValue, DontUnderstand];
    }
  }

  /** No value is offered twice. */
  lemma ConfigForDistinct(dir: Direction)
    ensures var c := ConfigFor(dir);
      forall i, j :: 0 <= i < j < |c.actions| ==> c.actions[i].value != c.actions[j].value
  {
  }
}
