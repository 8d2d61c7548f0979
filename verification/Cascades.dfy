/** What the monitor's observer callback makes of the models (`Client/Control/Monitor.java`,
    `updateGui` and `changeMode`): the settled states of the two cascades, and what every
    sequence of user actions and mode changes keeps. */
module Cascades {
  import opened Modes

  /** One camera: its model's two flags and the monitor's mode for it. */
  datatype Camera = Camera(movie: bool, motion: bool, mode: Mode)

  datatype Cameras = Cameras(one: Camera, two: Camera)

  /** The settings model's two flags and the monitor's copies of them. */
  datatype Settings = Settings(sync: bool, auto: bool, currentState: bool, syncAuto: bool)

  /** A camera after the callback has run to its end. */
  function Settled(c: Camera): Camera {
    if c.movie then c.(mode := Movie)
    else if c.mode == Movie then Camera(false, false, Idle)
    else c
  }

  /** The settings after the callback has run to its end: a changed sync flag is taken over and
      ends automatic switching; only otherwise is a changed auto flag taken over. */
  function SettledSettings(s: Settings): Settings {
    if s.sync != s.currentState then Settings(s.sync, false, s.sync, s.syncAuto && !s.auto)
    else s.(syncAuto := s.auto)
  }

  // ---------------------------------------------------------------------------
  // Settings
  // ---------------------------------------------------------------------------

  predicate Mirrored(s: Settings) {
    s.currentState == s.sync && s.syncAuto == s.auto
  }

  /** `setSyncMode` and `setAutoMode` by the user, and the updater's own change of mode, which
      writes the monitor's copy first. */
  datatype SettingsEvent = UserSync(on: bool) | UserAuto(on: bool) | Automatic(on: bool)

  function AfterSettings(s: Settings, e: SettingsEvent): Settings {
    match e
    case UserSync(on) => SettledSettings(s.(sync := on))
    case UserAuto(on) => SettledSettings(s.(auto := on))
    case Automatic(on) => SettledSettings(s.(currentState := on, sync := on))
  }

  function RunSettings(s: Settings, evs: seq<SettingsEvent>): Settings {
    if evs == [] then s else AfterSettings(RunSettings(s, evs[..|evs| - 1]), evs[|evs| - 1])
  }

  lemma {:induction false} RunSettingsConcat(s: Settings, a: seq<SettingsEvent>, b: seq<SettingsEvent>)
    ensures RunSettings(s, a + b) == RunSettings(RunSettings(s, a), b)
  {
    hide AfterSettings;
    if b == [] {
      assert a + b == a;
    } else {
      RunSettingsConcat(s, a, b[..|b| - 1]);
      assert (a + b)[..|a + b| - 1] == a + b[..|b| - 1];
    }
  }

  /** Whenever the actions do not interfere, the monitor's copies agree with the model after
      each of them. */
  lemma {:induction false} SettingsMirror(s: Settings, evs: seq<SettingsEvent>)
    requires Mirrored(s)
    ensures Mirrored(RunSettings(s, evs))
  {
    if evs == [] {
    } else {
      SettingsMirror(s, evs[..|evs| - 1]);
    }
  }

  /** A manual change of the mode switches automatic mode off, on both sides; an automatic
      change leaves it alone; choosing the present mode again does nothing. */
  lemma WhoSwitches(s: Settings, on: bool)
    requires Mirrored(s)
    ensures AfterSettings(s, UserSync(on)) == if on == s.sync then s else Settings(on, false, on, false)
    ensures AfterSettings(s, Automatic(on)) == Settings(on, s.auto, on, s.auto)
    ensures AfterSettings(s, UserAuto(on)) == Settings(s.sync, on, s.sync, on)
  {
  }

  /** From an arbitrary state one callback restores the mirror except in one case: the sync
      flag has changed, the model's auto flag is already off and the monitor's is still on. */
  lemma CallbackRestoresIff(s: Settings)
    ensures Mirrored(SettledSettings(s)) <==> !(s.sync != s.currentState && !s.auto && s.syncAuto)
  {
  }

  // ---------------------------------------------------------------------------
  // Cameras
  // ---------------------------------------------------------------------------

  predicate CoherentCamera(c: Camera) {
    && (c.mode == Movie <==> c.movie)
    && (c.motion ==> c.movie)
  }

  predicate Coherent(c: Cameras) {
    CoherentCamera(c.one) && CoherentCamera(c.two) && !(c.one.motion && c.two.motion)
  }

  datatype CameraEvent = Change(server: int, mode: Mode) | Toggle(camera: int, on: bool)

  /** A camera when the other one, or it itself, reports motion. A motion flag set while the
      monitor still has the camera in movie mode against its model is taken back at once. */
  function MotionHere(c: Camera): Camera {
    Camera(true, c.movie || c.mode == Idle, Movie)
  }

  const MOTION_ELSEWHERE := Camera(true, false, Movie)
  const SWITCHED_OFF := Camera(false, false, Idle)

  /** The cameras after `changeMode`; a server other than 1 and 2 moves only the monitor's modes. */
  function AfterChange(c: Cameras, server: int, mode: Mode): Cameras {
    match mode
    case Movie =>
      if server == 1 then Cameras(MotionHere(c.one), MOTION_ELSEWHERE)
      else if server == 2 then Cameras(MOTION_ELSEWHERE, MotionHere(c.two))
      else Cameras(c.one.(mode := Movie), c.two.(mode := Movie))
    case Idle =>
      if server == 1 then Cameras(SWITCHED_OFF, c.two)
      else if server == 2 then Cameras(c.one, SWITCHED_OFF)
      else c
  }

  function AfterCamera(c: Cameras, e: CameraEvent): Cameras {
    match e
    case Change(server, mode) => AfterChange(c, server, mode)
    case Toggle(camera, on) =>
      if camera == 1 then Cameras(Settled(c.one.(movie := on)), c.two)
      else if camera == 2 then Cameras(c.one, Settled(c.two.(movie := on)))
      else c
  }

  function RunCameras(c: Cameras, evs: seq<CameraEvent>): Cameras {
    if evs == [] then c else AfterCamera(RunCameras(c, evs[..|evs| - 1]), evs[|evs| - 1])
  }

  lemma {:induction false} RunCamerasConcat(c: Cameras, a: seq<CameraEvent>, b: seq<CameraEvent>)
    ensures RunCameras(c, a + b) == RunCameras(RunCameras(c, a), b)
  {
    hide AfterCamera;
    if b == [] {
      assert a + b == a;
    } else {
      RunCamerasConcat(c, a, b[..|b| - 1]);
      assert (a + b)[..|a + b| - 1] == a + b[..|b| - 1];
    }
  }

  predicate KnownServers(evs: seq<CameraEvent>) {
    forall i :: 0 <= i < |evs| && evs[i].Change? ==> evs[i].server == 1 || evs[i].server == 2
  }

  /** A mode change of any server number keeps the cameras coherent exactly when it is one of the
      two known ones, asks for idle, or finds both cameras in movie mode. */
  lemma ChangeKeepsIff(c: Cameras, server: int, mode: Mode)
    requires Coherent(c)
    ensures Coherent(AfterChange(c, server, mode)) <==>
            server == 1 || server == 2 || mode == Idle || (c.one.movie && c.two.movie)
  {
  }

  /** A reported motion is the only motion flag left. */
  predicate MotionAt(c: Cameras, server: int) {
    c.one.motion == (server == 1) && c.two.motion == (server == 2)
  }

  /** What was asked for has happened: a report of motion puts both cameras into movie mode and
      shows motion on its own; an idle request switches its camera off; a toggle sets its
      camera's flag and mode and lets motion go on only in movie mode. An idle request and a
      toggle leave the other camera as it was. */
  predicate Obeyed(before: Cameras, e: CameraEvent, after: Cameras) {
    match e
    case Change(server, Movie) =>
      && after.one.movie && after.one.mode == Movie && after.two.movie && after.two.mode == Movie
      && MotionAt(after, server)
    case Change(server, Idle) =>
      && (server == 1 ==> after.one == Camera(false, false, Idle) && after.two == before.two)
      && (server == 2 ==> after.two == Camera(false, false, Idle) && after.one == before.one)
    case Toggle(camera, on) =>
      && (camera == 1 ==> ToggledTo(before.one, on, after.one))
      && (camera == 2 ==> ToggledTo(before.two, on, after.two))
      && (camera != 1 ==> after.one == before.one) && (camera != 2 ==> after.two == before.two)
  }

  predicate ToggledTo(before: Camera, on: bool, after: Camera) {
    after.movie == on && after.mode == (if on then Movie else Idle) && after.motion == (before.motion && on)
  }

  lemma CoherentStep(c: Cameras, e: CameraEvent)
    requires Coherent(c) && (e.Change? ==> e.server == 1 || e.server == 2)
    ensures Coherent(AfterCamera(c, e)) && Obeyed(c, e, AfterCamera(c, e))
    ensures e.Change? && e.mode == Movie ==> MotionAt(AfterCamera(c, e), e.server)
  {
    if e.Change? {
      ChangeKeepsIff(c, e.server, e.mode);
    }
  }

  /** After every mode change of either server and every toggle by the user, as long as they do
      not interfere, each camera's mode is its model's movie flag, motion implies movie, and at
      most one camera shows motion; and the last one has had exactly the effect asked for, a
      reported motion showing on the camera it was reported for and on no other. */
  lemma {:induction false} CamerasStayCoherent(c: Cameras, evs: seq<CameraEvent>)
    requires Coherent(c) && KnownServers(evs)
    ensures Coherent(RunCameras(c, evs))
    ensures evs != [] ==> Obeyed(RunCameras(c, evs[..|evs| - 1]), evs[|evs| - 1], RunCameras(c, evs))
  {
    hide Coherent, AfterCamera, Obeyed;
    if evs == [] {
    } else {
      CamerasStayCoherent(c, evs[..|evs| - 1]);
      CoherentStep(RunCameras(c, evs[..|evs| - 1]), evs[|evs| - 1]);
    }
  }

  /** In a coherent state a callback changes nothing, as when a frame is displayed. */
  lemma CoherentIsSettled(c: Camera)
    requires CoherentCamera(c)
    ensures Settled(c) == c
  {
  }
}
