/**
 * src/app_manager.c: a registry of at most MAX_APPS named applications kept in
 * registration order, and the start path that runs an application's init
 * function and creates its task. The outcome of the init function and of task
 * creation are inputs; the function pointers, stack size and task handle are
 * not modelled.
 */
module AppManager {
  import opened Machine
  import opened Wrappers

  const MAX_APPS: nat := 16

  /** `app_state_t` */
  datatype AppState = Stopped | Starting | Running | Stopping | Error

  /** The `esp_err_t` codes the manager returns. */
  datatype Status = Ok | Fail | NoMem | InvalidState | InvalidArg | NotFound

  /** `app_manager_app_t`: `hasInit` says whether `init_function` is non-NULL. */
  datatype App = App(name: string, hasInit: bool, active: bool, priority: Byte, state: AppState)

  /** `app_manager_ctx_t`: `num_apps` is the length of `apps`. */
  datatype Manager = Manager(apps: seq<App>, initialized: bool)

  /** The zero-initialised context. */
  const EMPTY: Manager := Manager([], false)

  predicate NamesDistinct(apps: seq<App>)
  {
    forall i, j :: 0 <= i < j < |apps| ==> apps[i].name != apps[j].name
  }

  /** What registration guarantees about every reachable context. */
  predicate Valid(m: Manager)
  {
    && |m.apps| <= MAX_APPS
    && NamesDistinct(m.apps)
    && (forall i :: 0 <= i < |m.apps| ==> m.apps[i].name != [])
    && (|m.apps| > 0 ==> m.initialized)
  }

  /** `app_manager_init` */
  function Init(m: Manager): (r: Manager)
    ensures r.initialized && r.apps == m.apps
    ensures Valid(m) ==> Valid(r)
  {
    if m.initialized then m else m.(initialized := true)
  }

  lemma InitIdempotent(m: Manager)
    ensures Init(Init(m)) == Init(m)
    ensures m.initialized ==> Init(m) == m
  {
  }

  /** The duplicate scan: the first index at or after `k` holding `name`. */
  function FindFrom(apps: seq<App>, name: string, k: nat): (r: Option<nat>)
    requires k <= |apps|
    ensures r.Some? ==> k <= r.value < |apps| && apps[r.value].name == name
    ensures r.Some? ==> forall j :: k <= j < r.value ==> apps[j].name != name
    ensures r.None? <==> forall j :: k <= j < |apps| ==> apps[j].name != name
    decreases |apps| - k
  {
    if k == |apps| then None
    else if apps[k].name == name then Some(k)
    else FindFrom(apps, name, k + 1)
  }

  function Find(apps: seq<App>, name: string): (r: Option<nat>)
    ensures r.Some? ==> r.value < |apps| && apps[r.value].name == name
    ensures r.None? <==> forall j :: 0 <= j < |apps| ==> apps[j].name != name
  {
    FindFrom(apps, name, 0)
  }

  /** With distinct names, looking up an app's own name finds that app. */
  lemma FindOwnName(apps: seq<App>, i: nat)
    requires NamesDistinct(apps) && i < |apps|
    ensures Find(apps, apps[i].name) == Some(i)
  {
    var r := Find(apps, apps[i].name);
    assert r.Some?;
  }

  /** `app_manager_register_app`: the context afterwards and the code returned. */
  function Register(m: Manager, app: Option<App>): (r: (Manager, Status))
    ensures (!m.initialized || app.None? || app.value.name == []) ==> r == (m, InvalidState)
    ensures m.initialized && app.Some? && app.value.name != [] && |m.apps| >= MAX_APPS ==> r == (m, NoMem)
    ensures
      (&& m.initialized && app.Some? && app.value.name != [] && |m.apps| < MAX_APPS
       && exists j :: 0 <= j < |m.apps| && m.apps[j].name == app.value.name)
      ==> r == (m, InvalidState)
    ensures r.1 == Ok <==>
      && m.initialized && app.Some? && app.value.name != [] && |m.apps| < MAX_APPS
      && forall j :: 0 <= j < |m.apps| ==> m.apps[j].name != app.value.name
    ensures r.1 == Ok ==> r.0 == m.(apps := m.apps + [app.value])
    ensures r.1 != Ok ==> r.0 == m
    ensures r.1 in {Ok, NoMem, InvalidState}
    ensures Valid(m) ==> Valid(r.0)
  {
    if !m.initialized || app.None? || app.value.name == [] then (m, InvalidState)
    else if |m.apps| >= MAX_APPS then (m, NoMem)
    else if Find(m.apps, app.value.name).Some? then (m, InvalidState)
    else (m.(apps := m.apps + [app.value]), Ok)
  }

  /** `app_manager_get_app`: the index of the named app, None for NULL. */
  function GetApp(m: Manager, name: Option<string>): (r: Option<nat>)
    ensures r.Some? ==> name.Some? && m.initialized && r.value < |m.apps| && m.apps[r.value].name == name.value
    ensures r.None? <==>
      name.None? || !m.initialized || forall j :: 0 <= j < |m.apps| ==> m.apps[j].name != name.value
  {
    if name.None? || !m.initialized then None else Find(m.apps, name.value)
  }

  /** The start sequence applied to one app record: `initOk` is what its init
      function returned (ignored when it has none) and `taskOk` whether
      `xTaskCreate` passed. */
  function Launch(app: App, initOk: bool, taskOk: bool): (r: (App, Status))
    ensures r.0.name == app.name && r.0.hasInit == app.hasInit && r.0.priority == app.priority
    ensures r.0.state in {Running, Error}
    ensures app.state == Running ==> r == (app, Ok)
    ensures app.state != Running ==>
      && (r.0.state == Running <==> (!app.hasInit || initOk) && taskOk)
      && (r.1 == Ok <==> r.0.state == Running)
      && (r.1 == Fail <==> app.hasInit && !initOk)
      && (r.1 == NoMem <==> (!app.hasInit || initOk) && !taskOk)
      && r.0.active == (app.active || r.0.state == Running)
  {
    if app.state == Running then (app, Ok)
    else
      var starting := app.(state := Starting);
      if starting.hasInit && !initOk then (starting.(state := Error), Fail)
      else if !taskOk then (starting.(state := Error), NoMem)
      else (starting.(state := Running, active := true), Ok)
  }

  /** `app_manager_start_app` */
  function StartApp(m: Manager, name: Option<string>, initOk: bool, taskOk: bool): (r: (Manager, Status))
    ensures GetApp(m, name).None? ==> r == (m, NotFound)
    ensures GetApp(m, name).Some? ==>
      var i := GetApp(m, name).value;
      var launched := Launch(m.apps[i], initOk, taskOk);
      r == (m.(apps := m.apps[i := launched.0]), launched.1)
    ensures r.0.initialized == m.initialized && |r.0.apps| == |m.apps|
    ensures forall j :: 0 <= j < |m.apps| ==> r.0.apps[j].name == m.apps[j].name
    ensures Valid(m) ==> Valid(r.0)
  {
    match GetApp(m, name)
    case None => (m, NotFound)
    case Some(i) =>
      var launched := Launch(m.apps[i], initOk, taskOk);
      (m.(apps := m.apps[i := launched.0]), launched.1)
  }

  /** `app_manager_stop_app`: only the NULL check; nothing is stopped. */
  function StopApp(m: Manager, name: Option<string>): (r: (Manager, Status))
    ensures r.0 == m
    ensures r.1 == InvalidArg <==> name.None?
    ensures r.1 == Ok <==> name.Some?
  {
    if name.None? then (m, InvalidArg) else (m, Ok)
  }

  /** An app the start loop of `app_manager_task` tries to start. */
  predicate Pending(app: App)
  {
    app.active && app.state != Running
  }

  /** The start loop of `app_manager_task`: every active, not-running app is
      started by name, in registration order; failures are only logged.
      `initOk[i]` and `taskOk[i]` are the outcomes for the i-th app. */
  method StartPending(m: Manager, initOk: seq<bool>, taskOk: seq<bool>) returns (m': Manager)
    requires Valid(m)
    requires |initOk| == |m.apps| && |taskOk| == |m.apps|
    ensures Valid(m') && m'.initialized == m.initialized && |m'.apps| == |m.apps|
    ensures forall i :: 0 <= i < |m.apps| && Pending(m.apps[i]) ==>
      m'.apps[i] == Launch(m.apps[i], initOk[i], taskOk[i]).0
    ensures forall i :: 0 <= i < |m.apps| && !Pending(m.apps[i]) ==> m'.apps[i] == m.apps[i]
  {
    m' := m;
    var i := 0;
    while i < |m.apps|
      invariant 0 <= i <= |m.apps|
      invariant Valid(m') && m'.initialized == m.initialized && |m'.apps| == |m.apps|
      invariant forall j :: 0 <= j < |m.apps| ==> m'.apps[j].name == m.apps[j].name
      invariant forall j :: i <= j < |m.apps| ==> m'.apps[j] == m.apps[j]
      invariant forall j :: 0 <= j < i && Pending(m.apps[j]) ==>
        m'.apps[j] == Launch(m.apps[j], initOk[j], taskOk[j]).0
      invariant forall j :: 0 <= j < i && !Pending(m.apps[j]) ==> m'.apps[j] == m.apps[j]
    {
      var app := m'.apps[i];
      if app.active && app.state != Running {
        FindOwnName(m'.apps, i);
        var (next, _) := StartApp(m', Some(app.name), initOk[i], taskOk[i]);
        m' := next;
      }
      i := i + 1;
    }
  }
}
