/** Session descriptors, `SessionManager.LoadSession` and the main menu's
    start gate. `Resources.Load` becomes a map from resource path to what
    `JsonUtility.FromJson` makes of that resource's text. */
module Session {
  import opened Base
  import Metrics

  /** Per-exercise parameters as declared; each exercise reads its own fields. */
  datatype ExerciseParameters = ExerciseParameters(
    numTargets: int,
    gridSize: string,
    targetSymbol: string,
    durationSeconds: int,
    scenario: string,
    imageSetId: string,
    displayTimeSeconds: int,
    numDistractors: int)

  datatype ExerciseData = ExerciseData(exerciseId: string, parameters: ExerciseParameters)

  /** A session descriptor; `exercises` is null when the JSON lacked it. */
  datatype SessionData = SessionData(sessionId: string, patientId: string, exercises: Option<seq<ExerciseData>>)

  /** What parsing a configuration text yields: null, an object, or an exception. */
  datatype ParseOutcome = ParsedNull | Parsed(data: SessionData) | ParseThrew(message: string)

  /** The configuration resources that exist, by path. */
  type Resources = map<string, ParseOutcome>

  /** A rooted path, with '/' as the only root: `Path.Combine` returns
      such a second argument unchanged. */
  predicate Rooted(path: string)
  {
    |path| > 0 && path[0] == '/'
  }

  const ConfigDir: string := "SessionConfigs"

  /** `Path.Combine("SessionConfigs", patientId)`, with '/' as separator:
      a rooted id is the whole path, any other id goes under the folder. */
  function ConfigPath(patientId: string): (path: string)
    // the id is always the tail of the path
    ensures |patientId| <= |path| && path[|path| - |patientId|..] == patientId
    ensures Rooted(patientId) ==> path == patientId
    ensures !Rooted(patientId) ==>
      |path| == |ConfigDir| + 1 + |patientId| && path[..|ConfigDir| + 1] == ConfigDir + "/"
  {
    if Rooted(patientId) then patientId else ConfigDir + "/" + patientId
  }

  /** Every patient id names its own configuration resource. */
  lemma ConfigPathInjective(a: string, b: string)
    requires ConfigPath(a) == ConfigPath(b)
    ensures a == b
  {
  }

  datatype SessionManager = SessionManager(currentSession: Option<SessionData>)

  datatype LoadResult = LoadResult(manager: SessionManager, loaded: bool)

  /** A session is usable by the player scene when it and its exercise list exist. */
  predicate Usable(s: Option<SessionData>)
  {
    s.Some? && s.value.exercises.Some?
  }

  function LoadSession(sm: SessionManager, patientId: string, resources: Resources): (r: LoadResult)
    // a missing configuration resource fails and leaves the current session alone
    ensures ConfigPath(patientId) !in resources ==> !r.loaded && r.manager == sm
    // success exactly when the parse produced an object with an exercise list
    ensures r.loaded <==>
      ConfigPath(patientId) in resources && resources[ConfigPath(patientId)].Parsed?
      && resources[ConfigPath(patientId)].data.exercises.Some?
    ensures r.loaded ==> Usable(r.manager.currentSession)
    // a parsed value is kept even when it is unusable
    ensures ConfigPath(patientId) in resources && resources[ConfigPath(patientId)].Parsed? ==>
      r.manager.currentSession == Some(resources[ConfigPath(patientId)].data)
    // a null parse result, or an exception, leaves no session
    ensures ConfigPath(patientId) in resources && !resources[ConfigPath(patientId)].Parsed? ==>
      r.manager.currentSession.None? && !r.loaded
  {
    var path := ConfigPath(patientId);
    if path !in resources then LoadResult(sm, false)
    else
      match resources[path]
      case ParseThrew(_) => LoadResult(SessionManager(None), false)
      case ParsedNull => LoadResult(SessionManager(None), false)
      case Parsed(data) => LoadResult(SessionManager(Some(data)), data.exercises.Some?)
  }

  /** Only a missing resource makes the outcome depend on what was loaded
      before: any two managers agree after loading an existing resource. */
  lemma LoadForgetsPreviousSession(a: SessionManager, b: SessionManager, patientId: string, resources: Resources)
    requires ConfigPath(patientId) in resources
    ensures LoadSession(a, patientId, resources) == LoadSession(b, patientId, resources)
  {
  }

  /** The main menu's state: the two persistent managers and what the
      screen shows. */
  datatype Menu = Menu(
    sessions: SessionManager,
    metrics: Metrics.Manager,
    feedbackText: string,
    sceneRequest: Option<string>)

  datatype MenuClick = MenuClick(menu: Menu, loadCalledWith: Option<string>)

  const EnterIdMessage: string := "Please enter a Patient ID."
  const PlayerScene: string := "02_SessionPlayer"

  function FailedLoadMessage(patientId: string): string
  {
    "Failed to load session for ID: " + patientId + ". Check console for errors."
  }

  /** `OnStartSessionClicked`: `text` is the input field's content (null or
      not), `now`/`utcNow` the clock readings handed to the metrics manager. */
  function OnStartSessionClicked(w: Menu, text: Option<string>, resources: Resources,
                                 now: nat, utcNow: string): (r: MenuClick)
    // an empty id never reaches the session manager or the metrics manager
    ensures (text.None? || text.value == "") ==>
      r.loadCalledWith.None? && r.menu == w.(feedbackText := EnterIdMessage)
    // otherwise the session manager is asked with exactly the entered text
    ensures text.Some? && text.value != "" ==> r.loadCalledWith == text
    ensures text.Some? && text.value != "" ==>
      r.menu.sessions == LoadSession(w.sessions, text.value, resources).manager
    // a successful load starts metrics with the loaded ids and opens the player
    ensures text.Some? && text.value != "" && LoadSession(w.sessions, text.value, resources).loaded ==>
      var cs := r.menu.sessions.currentSession.value;
      && r.menu.metrics == Metrics.StartNewSession(w.metrics, cs.sessionId, cs.patientId, now, utcNow)
      && r.menu.sceneRequest == Some(PlayerScene)
      && r.menu.feedbackText == w.feedbackText
    // a failed load reports the id and starts nothing
    ensures text.Some? && text.value != "" && !LoadSession(w.sessions, text.value, resources).loaded ==>
      && r.menu.metrics == w.metrics
      && r.menu.sceneRequest == w.sceneRequest
      && r.menu.feedbackText == FailedLoadMessage(text.value)
  {
    if text.None? || text.value == "" then MenuClick(w.(feedbackText := EnterIdMessage), None)
    else
      var lr := LoadSession(w.sessions, text.value, resources);
      if lr.loaded then
        var cs := lr.manager.currentSession.value;
        var m := Metrics.StartNewSession(w.metrics, cs.sessionId, cs.patientId, now, utcNow);
        MenuClick(Menu(lr.manager, m, w.feedbackText, Some(PlayerScene)), text)
      else
        MenuClick(w.(sessions := lr.manager, feedbackText := FailedLoadMessage(text.value)), text)
  }

  /** The player scene is only ever requested with a usable session and an
      active, empty metrics log for that same session. */
  lemma PlayerSceneNeedsLoadedSession(w: Menu, text: Option<string>, resources: Resources,
                                      now: nat, utcNow: string)
    requires w.sceneRequest.None?
    ensures
      var r := OnStartSessionClicked(w, text, resources, now, utcNow);
      r.menu.sceneRequest.Some? ==>
        && Usable(r.menu.sessions.currentSession)
        && r.menu.metrics.Active()
        && r.menu.metrics.current.value.events == []
        && r.menu.metrics.current.value.sessionId == r.menu.sessions.currentSession.value.sessionId
        && r.menu.metrics.current.value.patientId == r.menu.sessions.currentSession.value.patientId
  {
  }
}
