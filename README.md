# Pattern card: gesture to decision

A Dafny model of the card that shows one startup-practice "pattern" and turns
a gesture into a persisted decision (`src/components/PatternCard/PatternCard.tsx`).

The card works like this:

- A horizontal drag past 100 pixels, or one of the two buttons, sends the card away to the left (reject) or to the right (accept).
- After the exit timer, a dialog offers the fixed follow-up answers of that branch.
- Choosing an answer closes the dialog and asks the store to create a startup-pattern record.
- Once the store returns that record, the user is navigated on. Two accepted answers lead to `/progress/{id}/survey` or `/progress/{id}/exercise`, carrying `nextUrl`. Every other answer leads to `nextUrl`.
- Back closes the dialog and resets the card's visibility, flip side and exit direction to their mounted values. The closed dialog keeps its last configuration.

Modules:

- `Responses` (responses.dfy): directions, the response types and the seven response values, and the branch each value belongs to.
- `Gesture` (gesture.dfy): the drag-end threshold classifier.
- `Dialogs` (dialogs.dfy): the two dialog configurations (response type, title, ordered buttons).
- `Navigation` (navigation.dfy): the route decision, with its inverse, a reader of follow-up routes.
- `Card` (card.dfy): the card's state (`isVisible`, `isFlipped`, `exitDirection`, `dialogOpen`, `dialogConfig`). It is modelled as pure transition functions with their lemmas, and as the class `PatternCard` with one method per event. The 100 ms exit timer becomes the queue `pendingExits` of directions still to fire.
- `Submission` (submission.dfy): the dialog's choice, its persistence requests, the store's answers and the navigations. It is modelled as pure transitions and as the class `ActionDialog`. This module states the corrected behaviour (see Findings).
- `Pipeline` (pipeline.dfy): card and dialog driven together by any stream of events. It proves invariants over every reachable state and six concrete scenarios. Events the screen does not offer in the current state change nothing.
- `AsWritten` (as_written.dfy): the dialog's two effects exactly as the source writes them. It proves the weaker ordering guarantee they do keep, and gives the trace that breaks the stronger ones.

External collaborators are parameters or events:

- The signed-in startup's identity, the pattern's identity and `nextUrl` form a `Context`.
- A persistence request is appended to a log.
- The store answering request `k` is the event `StoreReturns(k)`.
- A call to `navigate` is appended to a log of `Target`s: a route plus optional `{nextUrl}` state.

## Model

| member | source | states |
|---|---|---|
| Gesture.Classify | src/components/PatternCard/PatternCard.tsx:177-185 | an offset above 100 swipes right, one below -100 swipes left, and one from -100 to 100 inclusive does nothing, each as an if-and-only-if |
| Dialogs.ConfigFor | src/components/PatternCard/PatternCard.tsx:150-172 | a right exit gives accept with "Great! What would you like to do?"; a left exit gives reject with "Why are you passing?"; every button's value belongs to that branch |
| Dialogs.ConfigForOffersBranch | src/components/PatternCard/PatternCard.tsx:152-171 | the accept dialog offers exactly share_reflection, perform_exercise, think_later and the reject dialog exactly already_addressed, maybe_later, no_value, dont_understand, in that order; a value is offered exactly when it belongs to the dialog's branch |
| Dialogs.ConfigForDistinct | src/components/PatternCard/PatternCard.tsx:155-170 | no value is offered by two buttons |
| Navigation.ParseProgressRouteInverts | src/components/PatternCard/PatternCard.tsx:71-74 | a follow-up route `/progress/{id}/survey` or `/progress/{id}/exercise` reads back to its screen and the exact pattern identity |
| Navigation.Resolve | src/components/PatternCard/PatternCard.tsx:68-95 | navigation carries `{nextUrl}` state exactly for accept with share_reflection or perform_exercise; those two go to the survey or exercise route of the pattern; every other combination goes to `nextUrl` with no state |
| Card.SwipeEffect | src/components/PatternCard/PatternCard.tsx:145-150 | a swipe of the shown card hides it, sets the exit direction to the swipe's direction, keeps the flip side and leaves the dialog closed with one exit pending |
| Card.ExitEffect | src/components/PatternCard/PatternCard.tsx:150-174 | when the exit timer fires the dialog is open, with the configuration of the exit direction; the card stays hidden and keeps its flip side |
| Card.CloseDialogResets | src/components/PatternCard/PatternCard.tsx:187-192 | closing the open dialog, whatever the direction and flip side, gives exactly the freshly mounted card state (visible, not flipped, no exit direction, dialog closed); only the closed dialog's configuration is kept |
| Card.FlipInvolution | src/components/PatternCard/PatternCard.tsx:462 | flipping negates `isFlipped`, changes no other field, and flipping twice restores the card |
| Card.DragEndEffect | src/components/PatternCard/PatternCard.tsx:177-185 | a drag within plus or minus 100 leaves the card unchanged; one past 100 swipes right; one past -100 swipes left |
| Card.PatternCard.constructor | src/components/PatternCard/PatternCard.tsx:135-143 | the card mounts visible, unflipped, with no exit direction, a closed dialog and the empty accept configuration |
| Card.PatternCard.Swipe | src/components/PatternCard/PatternCard.tsx:145-150 | `handleSwipe` sets the exit direction, hides the card, schedules one exit timer and changes nothing else |
| Card.PatternCard.DragEnd | src/components/PatternCard/PatternCard.tsx:177-185 | a drag of the shown card swipes as the classifier decides; within the threshold nothing changes |
| Card.PatternCard.PressReject | src/components/PatternCard/PatternCard.tsx:459 | the left button under the shown card swipes left |
| Card.PatternCard.PressAccept | src/components/PatternCard/PatternCard.tsx:465 | the right button under the shown card swipes right |
| Card.PatternCard.PressFlip | src/components/PatternCard/PatternCard.tsx:462 | the flip button negates `isFlipped` and leaves every other field as it was |
| Card.PatternCard.ExitComplete | src/components/PatternCard/PatternCard.tsx:150-174 | the oldest exit timer opens the dialog with the configuration of the direction it captured |
| Card.PatternCard.CloseDialog | src/components/PatternCard/PatternCard.tsx:187-192 | `handleDialogClose` resets visibility, exit direction, flip side and the dialog flag |
| Submission.ChooseKeepsInv | src/components/PatternCard/PatternCard.tsx:53-64 | choosing a button records the selection; a new selection requests exactly its own record, a repeated one requests nothing; the dialog invariant is kept |
| Submission.StoreReturnsKeepsInv | src/components/PatternCard/PatternCard.tsx:66-97 | the store's answer keeps the invariant: every navigation leads where a returned, requested record leads |
| Submission.Navigate | src/components/PatternCard/PatternCard.tsx:66-97 | the navigation effect changes only the navigation log; it navigates exactly when a response is chosen and the last record the store returned is that response's own, and then adds exactly the target of that record |
| Submission.AfterChoose | src/components/PatternCard/PatternCard.tsx:55-64 | a click selects that (response type, value); a new selection requests exactly its own record, a repeated one nothing; the returned records are untouched, and it navigates, once and to where the chosen record leads, exactly when the selection is new and that record is the last one the store returned |
| Submission.AfterStoreReturns | src/components/PatternCard/PatternCard.tsx:66-97 | the store's answer for request `k` becomes `startupPattern` and joins the returned records; selection and requests are unchanged; navigation follows, to that record's target, exactly when it is the current selection's record |
| Submission.NavigateKeepsInv | src/components/PatternCard/PatternCard.tsx:66-97 | the navigation effect keeps the dialog invariant and changes neither the requests nor the returned records |
| Submission.ActionDialog.constructor | src/components/PatternCard/PatternCard.tsx:50-53 | the dialog starts with no response, no request, no returned record and no navigation |
| Submission.ActionDialog.Choose | src/components/PatternCard/PatternCard.tsx:110-113 | an action button sets the selection to that button's (response type, value) and runs both effects |
| Submission.ActionDialog.StoreReturns | src/components/PatternCard/PatternCard.tsx:66-97 | the store's record becomes `startupPattern`, and navigation follows if it is the current selection's record |
| Submission.ActionDialog.NavigateIfPersisted | src/components/PatternCard/PatternCard.tsx:66-97 | navigation happens only once both a selection and its returned record exist |
| Pipeline.CardStep | src/components/PatternCard/PatternCard.tsx:145-192 | the card's controls do nothing while it is hidden and the dialog's do nothing while it is closed; the store's answers never touch the card; the dialog configuration changes only when an exit timer fires; the card reappears only through Back or a choice, unflipped and without exit direction |
| Pipeline.Step | src/components/PatternCard/PatternCard.tsx:53-192 | the card moves as `CardStep` says; records are requested only by a choice in the open dialog; records are returned only by the store; the request, returned and navigation logs only grow, navigations by at most one per event |
| Pipeline.CardStepKeepsInv | src/components/PatternCard/PatternCard.tsx:145-192 | every event leaves the card in one of its three phases (presenting, exiting, asking), with a branch-consistent dialog |
| Pipeline.StepKeepsInv | src/components/PatternCard/PatternCard.tsx:53-122 | every event keeps both the card invariant and the dialog invariant |
| Pipeline.RunKeepsInv | src/components/PatternCard/PatternCard.tsx:53-122 | any sequence of events keeps both invariants |
| Pipeline.Reachable | src/components/PatternCard/PatternCard.tsx:55-67 | from mount, the buttons always answer the dialog's branch, nothing is requested or navigated before a response is chosen, no record mixes branches, and every navigation leads where a requested and returned record leads |
| Pipeline.BackChoosesNothing | src/components/PatternCard/PatternCard.tsx:122 | Back resets the card to its mounted state and chooses, persists and navigates nothing |
| Pipeline.ChooseClosesAndRequests | src/components/PatternCard/PatternCard.tsx:110-113 | in any reachable state, choosing an action closes the dialog exactly as Back does (the mounted card with the dialog's configuration kept), selects that button's (response type, value), requests its record exactly when the selection is new, navigates only if that record is the last one the store returned, and keeps both invariants |
| Pipeline.StepNavigatesToCurrentChoice | src/components/PatternCard/PatternCard.tsx:66-97 | in any reachable state, an event either does not navigate or navigates once, to the target of the current selection's record, which the store has returned |
| Pipeline.ScenarioExercise | src/components/PatternCard/PatternCard.tsx:73-74 | a drag of 150 then "Perform exercise" requests (accept, perform_exercise), does not navigate before the store answers, then goes to `/progress/{id}/exercise` with `{nextUrl}` |
| Pipeline.ScenarioMaybeLater | src/components/PatternCard/PatternCard.tsx:81-95 | a drag of -120 then "Maybe later" persists (reject, maybe_later) and goes to `nextUrl` |
| Pipeline.ScenarioShortDrag | src/components/PatternCard/PatternCard.tsx:180 | a drag of 50 leaves everything as mounted |
| Pipeline.ScenarioThinkLater | src/components/PatternCard/PatternCard.tsx:76-77 | accept then "Think about it later" goes to `nextUrl` |
| Pipeline.ScenarioFlips | src/components/PatternCard/PatternCard.tsx:462 | any number of flips of the shown card changes only `isFlipped`, which alternates |
| Pipeline.ScenarioSwipeWhilePersisting | src/components/PatternCard/PatternCard.tsx:55-74 | in the corrected model, swiping again while a choice is being persisted requests nothing more and still leads to the chosen record's survey screen |
| AsWritten.Effects | src/components/PatternCard/PatternCard.tsx:55-97 | as written, the effects never touch the card, the response or the returned record; the create effect requests the current response under the current response type whenever either changed; the navigation effect fires exactly when a response and a returned record are both present and the response, the response type or the returned record changed, and then goes where the current response and type lead |
| AsWritten.StepW | src/components/PatternCard/PatternCard.tsx:55-192 | as written, the card moves as `CardStep` says; the request and navigation logs only grow, by at most one per event; a new request carries the dialog's response type after the event |
| AsWritten.EffectsKeepInvW | src/components/PatternCard/PatternCard.tsx:55-97 | as written, the create effect runs only with a response, and the navigation effect only with a response and a returned record |
| AsWritten.StepWKeepsInvW | src/components/PatternCard/PatternCard.tsx:55-97 | every event keeps the ordering guarantee of the code as written |
| AsWritten.RunWKeepsInvW | src/components/PatternCard/PatternCard.tsx:55-97 | any sequence of events keeps that guarantee |
| AsWritten.ReachableW | src/components/PatternCard/PatternCard.tsx:55-67 | as written, nothing is requested before a response is chosen, and navigation needs a chosen response and a returned record that had been requested |
| AsWritten.ResubmissionTrace | src/components/PatternCard/PatternCard.tsx:55-64 | as written, accept, choose share_reflection, then swipe left: the effect runs again and requests (reject, share_reflection) |
| AsWritten.StaleAnswerStep | src/components/PatternCard/PatternCard.tsx:66-95 | as written, the store's answer for the first record navigates from the current response type (to `nextUrl`) |
| AsWritten.CrossBranchResubmission | src/components/PatternCard/PatternCard.tsx:55-95 | as written, that trace produces a record with a response of the other branch, and a navigation that is not where the returned record leads |

## Findings

| source | as written | input that shows it | evidently intended | confidence | as-written member | corrected member |
|---|---|---|---|---|---|---|
| src/components/PatternCard/PatternCard.tsx:55-64 | the create effect depends on the dialog's current `responseType`. The card reappears as soon as an action is chosen, so a later swipe the other way changes that type and creates a second record: the old response under the other branch's type | accept, "Share reflection", swipe left before the store answers, exit timer fires: a record (reject, share_reflection) is requested | one record per choice, with the response type the dialog had when the choice was made | medium, not executed; depends on the store answering later than the user's second swipe, and on `createStartupPattern` being stable | AsWritten.CrossBranchResubmission | Pipeline.Reachable |
| src/components/PatternCard/PatternCard.tsx:66-95 | navigation fires when any record has been returned. It is computed from the current response and response type, not from the returned record | the same trace, then the store returns the first record: navigation to `nextUrl`, although that record (accept, share_reflection) leads to the survey screen | navigate only once the record of the current choice is returned, to where that record leads | medium, not executed; same conditions | AsWritten.StaleAnswerStep | Pipeline.StepNavigatesToCurrentChoice |

`Submission`, its class `ActionDialog` and `Pipeline` use the corrected behaviour:

- The response type is captured with the response when a button is clicked.
- The create effect runs once per new choice.
- Navigation waits until the returned record is the current choice's record.

`AsWritten` keeps the behaviour of the source.

## Left out

- Rendering: the card's front and back, chips, category colours and icons, related-pattern links, the dialog's button colours and the layout (src/components/PatternCard/PatternCard.tsx:194-370, 429-481). It is presentation only. That the controls and the draggable card exist only while `isVisible` holds is kept as the `requires` of the card's input methods, and as no-op events in `Pipeline.Step`.
- The framer-motion variants, durations and 3-D flip (src/components/PatternCard/PatternCard.tsx:372-427). They are visual, use floating-point transforms and come from a foreign library.
- The 100 ms wall-clock delay. Each swipe queues its direction, and the `TimerFires` event opens the dialog from the oldest queued direction. No timing is modelled.
- `useAuth`, `useStartupPattern`, `useNavigate` and the network store. They become the `Context` and the `StoreReturns` and navigation logs. A missing `startup` (the `as string` cast on an undefined identity) is not modelled: the identity is always a string.
- Store failures and timeouts. The source has no handling for them, so in the model a request that is never answered simply leaves the user where they are; there is no failure event.
- React scheduling details: effects re-running because `createStartupPattern`, `pattern`, `startup`, `navigate` or `nextUrl` change identity; unmounting after `navigate`; late callbacks and timers firing after unmount. The model assumes those are stable, and it keeps accepting events after a navigation.
- The vertical drag offset, velocity, and NaN or infinite offsets. Offsets are real numbers.
- The Pattern record beyond its `documentId`.
- The `ResponseEnum` and `ResponseTypeEnum` declarations (`@/types/strapi`) are not part of this model. The truthiness checks on `response` and `startupPattern` (PatternCard.tsx:56, 67) are modelled as `Some`, which assumes every enum member is a non-empty string.
- src/pages/Profile/StartupProfileStep.tsx, src/pages/Explore/Explore.tsx and src/App.tsx. They are a form page, a fetch-and-retry page and router composition, with no part in the pipeline. Explore.tsx passes `onNext` rather than `nextUrl` to the card; the model takes `nextUrl` as a given string.
