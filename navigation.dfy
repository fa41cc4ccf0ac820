/** The route decision the response dialog makes once the chosen response has
    been persisted: two accepted answers lead to a follow-up screen for the
    pattern, every other answer falls through to the caller's `nextUrl`. */
module Navigation {
  import opened Responses

  /** A call `navigate(route, { state: { nextUrl } })`; `state` is `None` for a
      plain `navigate(route)`. */
  datatype Target = Target(route: string, state: Option<string>)

  /** The two follow-up screens of an accepted pattern. */
  datatype FollowUp = Survey | Exercise

  const ProgressPrefix := "/progress/"

  function Suffix(f: FollowUp): string
  {
    match f
    case Survey => "/survey"
    case Exercise => "/exercise"
  }

  /** `/progress/{documentId}/survey` or `/progress/{documentId}/exercise`. */
  function ProgressRoute(f: FollowUp, documentId: string): string
  {
    ProgressPrefix + documentId + Suffix(f)
  }

  /** The `switch` on the response: only accept with share_reflection or
      perform_exercise has a screen of its own. */
  function FollowUpFor(rt: ResponseType, v: ResponseValue): Option<FollowUp>
  {
    if rt == Accept then
      match v
      case ShareReflection => Some(Survey)
      case PerformExercise => Some(Exercise)
      case _ => None
    else
      None
  }

  function EndsWith(s: string, suffix: string): bool
  {
    |suffix| <= |s| && s[|s| - |suffix|..] == suffix
  }

  /** Reads a follow-up route back into its screen and pattern identity: the
      inverse of `ProgressRoute`. */
  function ParseProgressRoute(route: string): Option<(FollowUp, string)>
  {
    if |ProgressPrefix| <= |route| && route[..|ProgressPrefix|] == ProgressPrefix then
      var rest := route[|ProgressPrefix|..];
      if EndsWith(rest, Suffix(Survey)) then
        Some((Survey, rest[..|rest| - |Suffix(Survey)|]))
      else if EndsWith(rest, Suffix(Exercise)) then
        Some((Exercise, rest[..|rest| - |Suffix(Exercise)|]))
      else
        None
    else
      None
  }

  /** Every follow-up route names its screen and the pattern's identity
      recoverably, whatever characters the identity holds. */
  lemma ParseProgressRouteInverts(f: FollowUp, documentId: string)
    ensures ParseProgressRoute(ProgressRoute(f, documentId)) == Some((f, documentId))
  {
    var route := ProgressRoute(f, documentId);
    assert route[..|ProgressPrefix|] == ProgressPrefix;
    var rest := route[|ProgressPrefix|..];
    assert rest == documentId + Suffix(f);
    assert rest[|rest| - |Suffix(f)|..] == Suffix(f);
    assert rest[..|rest| - |Suffix(f)|] == documentId;
    if f == Exercise {
      // "/exercise" ends in 'e', "/survey" in 'y'
      assert rest[|rest| - 1] == 'e';
      assert !EndsWith(rest, Suffix(Survey));
    }
  }

  /** The destination once the response is persisted: a follow-up screen
      carrying `nextUrl` as navigation state exactly for accept with
      share_reflection (survey) or perform_exercise (exercise), and `nextUrl`
      itself, without state, for every other combination. */
  function Resolve(rt: ResponseType, v: ResponseValue, documentId: string, nextUrl: string): (t: Target)
    ensures t.state.Some? <==> rt == Accept && (v == ShareReflection || v == PerformExercise)
    ensures t.state.Some? ==> t.state.value == nextUrl
    ensures t.state.None? ==> t.route == nextUrl
    ensures rt == Accept && v == ShareReflection ==> ParseProgressRoute(t.route) == Some((Survey, documentId))
    ensures rt == Accept && v == PerformExercise ==> ParseProgressRoute(t.route) == Some((Exercise, documentId))
  {
    match FollowUpFor(rt, v)
    case Some(f) =>
      ParseProgressRouteInverts(f, documentId);
      Target(ProgressRoute(f, documentId), Some(nextUrl))
    case None => Target(nextUrl, None)
  }
}
