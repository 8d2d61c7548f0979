/** The client's monitor and the two kinds of models it observes (`Client/Control/Monitor.java`,
    `Client/Model/CameraControlModel.java`, `Client/Model/SettingsModel.java`). Every setter of
    a model calls the monitor back before it returns, and the monitor may call setters again. */
module Monitors {
  import opened Words
  import opened Modes
  import opened Surroundings
  import opened Sequences
  import FB = FrameBuffer
  import A = Averages
  import P = Playout
  import C = Cascades

  /** The cast `(int)` of a long. */
  function ToInt32(x: int): int {
    Signed(Pattern(x, TWO_32), TWO_32)
  }

  /** The `int` shown for a delay: the delay itself if that is in range, else wrapped around. */
  predicate Delayed(shown: int, delay: int) {
    && (-0x8000_0000 <= delay < 0x8000_0000 ==> shown == delay)
    && -0x8000_0000 <= shown < 0x8000_0000 && (delay - shown) % 0x1_0000_0000 == 0
  }

  lemma Int32Wraps(x: int)
    ensures Delayed(ToInt32(x), x)
  {
  }

  lemma NothingYet(batch: seq<Outside>, v: C.Settings, c: C.Cameras)
    ensures Arriving(batch[..0]) == [] && Passing(batch[..0]) == 0
    ensures C.RunSettings(v, SettingsClicks(batch[..0])) == v && C.RunCameras(c, CameraCalls(batch[..0])) == c
  {
  }

  /** What the folds over a batch make of a single thing. */
  lemma Single(o: Outside, v: C.Settings, c: C.Cameras)
    ensures Arriving([o]) == (if o.Incoming? then [o.frame] else []) && Passing([o]) == (if o.Pass? then o.ms else 0)
    ensures C.RunSettings(v, SettingsClicks([o])) ==
            if o.UserSync? then C.AfterSettings(v, C.UserSync(o.on))
            else if o.UserAuto? then C.AfterSettings(v, C.UserAuto(o.on))
            else v
    ensures CameraCalls([o]) ==
            if o.UserMovie? then [C.Toggle(if o.first then 1 else 2, o.on)]
            else if o.Motion? then [C.Change(o.server, Movie)]
            else []
    ensures CameraCalls([o]) == [] ==> C.RunCameras(c, CameraCalls([o])) == c
    ensures CameraCalls([o]) != [] ==> C.RunCameras(c, CameraCalls([o])) == C.AfterCamera(c, CameraCalls([o])[0])
  {
    hide C.AfterSettings, C.AfterCamera;
    assert [o][..0] == [];
    assert forall e: C.SettingsEvent :: [e][..0] == [];
    assert forall e: C.CameraEvent :: [e][..0] == [];
  }

  lemma OneMoreHappened(batch: seq<Outside>, n: nat, v: C.Settings, c: C.Cameras)
    requires n < |batch|
    ensures Arriving(batch[..n + 1]) == Arriving(batch[..n]) + Arriving([batch[n]])
    ensures Passing(batch[..n + 1]) == Passing(batch[..n]) + Passing([batch[n]])
    ensures C.RunSettings(v, SettingsClicks(batch[..n + 1])) ==
            C.RunSettings(C.RunSettings(v, SettingsClicks(batch[..n])), SettingsClicks([batch[n]]))
    ensures C.RunCameras(c, CameraCalls(batch[..n + 1])) ==
            C.RunCameras(C.RunCameras(c, CameraCalls(batch[..n])), CameraCalls([batch[n]]))
  {
    OneMore(batch, n);
    C.RunSettingsConcat(v, SettingsClicks(batch[..n]), SettingsClicks([batch[n]]));
    C.RunCamerasConcat(c, CameraCalls(batch[..n]), CameraCalls([batch[n]]));
    assert [batch[n]][..0] == [];
    hide C.RunSettings, C.RunCameras;
  }

  lemma FlatNothing(script: seq<seq<Outside>>)
    ensures Flat(script[..0]) == []
  {
  }

  lemma BatchFollows(before: Picture, after: Picture, batch: seq<Outside>)
    requires after.added == before.added + Arriving(batch)
    requires after.settings == C.RunSettings(before.settings, SettingsClicks(batch))
    requires after.cameras == C.RunCameras(before.cameras, CameraCalls(batch))
    requires C.Coherent(before.cameras) && BatchKnown(batch) ==> C.Coherent(after.cameras)
    ensures Follows(before, after, batch)
  {
    if HandsOff(batch) {
      NoClicks(batch);
    }
    hide C.Coherent, C.Mirrored, C.RunCameras, Arriving, CameraCalls, HandsOff, BatchKnown, SettingsClicks;
  }

  // ---------------------------------------------------------------------------
  // Journals
  // ---------------------------------------------------------------------------

  /** The events `evs` of the playout model lead from `s` to `t`; between the pictures `p` and
      `q` nothing has happened but `heard`; and there is a change of the settings among the
      events only if there is one in `heard`, or the settings disagreed at the start. */
  predicate Journal(s: P.State, p: Picture, evs: seq<P.Event>, heard: seq<Outside>, t: P.State, q: Picture) {
    && t == P.Run(s, evs)
    && Follows(p, q, heard)
    && (C.Mirrored(p.settings) && HandsOff(heard) ==> P.HandsOff(evs))
  }

  lemma EmptyJournal(s: P.State, p: Picture)
    ensures Journal(s, p, [], [], s, p)
  {
    FollowsNothing(p);
  }

  /** What the updater does by itself without touching the settings. */
  lemma OwnJournal(s: P.State, p: Picture, evs: seq<P.Event>)
    requires P.HandsOff(evs)
    ensures Journal(s, p, evs, [], P.Run(s, evs), p)
  {
    hide P.Run, Follows;
    FollowsNothing(p);
  }

  lemma JournalGoesOn(s: P.State, p: Picture, evs: seq<P.Event>, heard: seq<Outside>, t: P.State, q: Picture,
                      more: seq<P.Event>, next: seq<Outside>, u: P.State, r: Picture)
    requires Journal(s, p, evs, heard, t, q) && Journal(t, q, more, next, u, r)
    ensures Journal(s, p, evs + more, heard + next, u, r)
  {
    P.RunConcat(s, evs, more);
    P.HandsOffConcat(evs, more);
    FollowsOn(p, q, r, heard, next);
    FoldsConcat(heard, next);
    hide P.Run, P.HandsOff, HandsOff, Arriving, CameraCalls, BatchKnown, C.RunCameras, C.Coherent;
  }

  /** The updater's display, with its own switch of the mode if there is one. */
  lemma SwitchJournal(s: P.State, evs: seq<P.Event>, auto: bool, p: Picture, q: Picture, on: bool)
    requires P.HandsOff(evs) && P.Run(s, evs).auto == p.settings.syncAuto && q.settings.syncAuto == auto
    requires q == p || q == p.(settings := C.AfterSettings(p.settings, C.Automatic(on)))
    ensures var u := P.Run(s, evs);
            Journal(s, p, evs + P.TakingOver(u, auto), [], u.(auto := auto), q)
  {
    P.TakesOver(s, evs, auto);
    P.HandsOffConcat(evs, P.TakingOver(P.Run(s, evs), auto));
    hide P.Run, P.HandsOff, C.Coherent;
    assert CameraCalls([]) == [] && Arriving([]) == [];
    if C.Mirrored(p.settings) {
      C.WhoSwitches(p.settings, on);
    }
  }

  lemma DisplayJournal(s: P.State, p: Picture, evs: seq<P.Event>, heard: seq<Outside>, t: P.State,
                       q: Picture, r: Picture)
    requires Journal(s, p, evs, heard, t, q)
    requires r.added == q.added && r.settings == q.settings && (C.Coherent(q.cameras) ==> r.cameras == q.cameras)
    ensures Journal(s, p, evs, heard, t, r)
  {
    hide P.Run, P.HandsOff, C.Coherent, C.RunCameras, HandsOff, BatchKnown, Arriving, CameraCalls, C.Mirrored;
  }

  class SettingsModel {
    var syncModeOn: bool
    var autoActivated: bool
    var observer: Monitor?

    constructor ()
      ensures !syncModeOn && !autoActivated && observer == null
    {
      syncModeOn, autoActivated, observer := false, false, null;
    }

    ghost predicate Attached()
      reads this`observer
    {
      observer != null && observer.settings == this
    }

    method SetSyncMode(sync: bool)
      requires Attached()
      modifies this`syncModeOn, this`autoActivated, observer`currentState, observer`syncAuto
      ensures observer.SettingsView() == C.SettledSettings(old(observer.SettingsView()).(sync := sync))
      decreases 2
    {
      syncModeOn := sync;
      Update();
    }

    method SetAutoMode(mode: bool)
      requires Attached()
      modifies this`syncModeOn, this`autoActivated, observer`currentState, observer`syncAuto
      ensures observer.SettingsView() == C.SettledSettings(old(observer.SettingsView()).(auto := mode))
      decreases if syncModeOn != observer.currentState then 1 else 0, 2
    {
      autoActivated := mode;
      Update();
    }

    /** `setChanged` and `notifyObservers`. */
    method Update()
      requires Attached()
      modifies this`syncModeOn, this`autoActivated, observer`currentState, observer`syncAuto
      ensures observer.SettingsView() == C.SettledSettings(old(observer.SettingsView()))
      decreases if syncModeOn != observer.currentState then 1 else 0, 1
    {
      observer.UpdateGuiSettings(this);
    }
  }

  class CameraModel {
    const id: int
    var image: seq<SByte>
    var delayTime: int
    var movieModeOn: bool
    var motionDetected: bool
    var observer: Monitor?

    constructor (id: int)
      ensures this.id == id && !movieModeOn && !motionDetected && observer == null
    {
      this.id := id;
      image, delayTime, movieModeOn, motionDetected, observer := [], 0, false, false, null;
    }

    ghost predicate Attached()
      reads this`observer
    {
      && observer != null && observer.camera1.id == 1 && observer.camera2.id == 2
      && (observer.camera1 == this || observer.camera2 == this)
    }

    method SetMovieMode(movie: bool)
      requires Attached()
      modifies this`movieModeOn, this`motionDetected, observer`mode1, observer`mode2
      ensures observer.View(this) == C.Settled(old(observer.View(this)).(movie := movie))
      ensures observer.OtherMode(this) == old(observer.OtherMode(this))
      decreases 2
    {
      movieModeOn := movie;
      Update();
    }

    method SetMotionDetected(mode: bool)
      requires Attached()
      modifies this`motionDetected, observer`mode1, observer`mode2
      ensures observer.View(this) == C.Settled(old(observer.View(this)).(motion := mode))
      ensures observer.OtherMode(this) == old(observer.OtherMode(this))
      decreases if mode then 1 else 0, 2
    {
      motionDetected := mode;
      Update();
    }

    method SetNewImage(image: seq<SByte>)
      requires Attached()
      modifies this`image, this`motionDetected, observer`mode1, observer`mode2
      ensures this.image == image
      ensures observer.View(this) == C.Settled(old(observer.View(this)))
      ensures observer.OtherMode(this) == old(observer.OtherMode(this))
    {
      this.image := image;
      Update();
    }

    method SetDelayTime(time: int)
      requires Attached()
      modifies this`delayTime, this`motionDetected, observer`mode1, observer`mode2
      ensures delayTime == time
      ensures observer.View(this) == C.Settled(old(observer.View(this)))
      ensures observer.OtherMode(this) == old(observer.OtherMode(this))
    {
      delayTime := time;
      Update();
    }

    /** `setChanged` and `notifyObservers`. */
    method Update()
      requires Attached()
      modifies this`motionDetected, observer`mode1, observer`mode2
      ensures observer.View(this) == C.Settled(old(observer.View(this)))
      ensures observer.OtherMode(this) == old(observer.OtherMode(this))
      decreases if motionDetected then 1 else 0, 1
    {
      observer.UpdateGuiCamera(this);
    }
  }

  class Monitor {
    const frames: FB.Buffer
    const camera1: CameraModel
    const camera2: CameraModel
    const settings: SettingsModel
    var average1: int
    var average2: int
    var currentSyncTime: int
    var mode1: Mode
    var mode2: Mode
    var currentState: bool
    var syncAuto: bool
    /** The system clock; it never goes back. */
    var clock: int
    /** The updater's position and the histories of the playout model. */
    ghost var pc: P.Pc
    ghost var added: seq<P.Arrival>
    ghost var shown: seq<P.Shown>
    ghost var switches: nat
    ghost var movement: nat

    constructor (camera1: CameraModel, camera2: CameraModel, settings: SettingsModel, clock: int)
      modifies camera1`observer, camera2`observer, settings`observer
      ensures Model() == P.Initial(clock) && fresh(frames)
      ensures camera1.id == 1 && camera2.id == 2 ==> Wired()
      ensures SettingsView() == C.Settings(settings.syncModeOn, settings.autoActivated, false, false)
      ensures this.camera1 == camera1 && this.camera2 == camera2 && this.settings == settings
      ensures average1 == average2 == 0 && currentSyncTime == 500 && frames.frames == []
      ensures !currentState && !syncAuto && mode1 == mode2 == Idle && pc == P.Ready && added == [] && shown == []
    {
      frames := new FB.Buffer();
      this.camera1, this.camera2, this.settings := camera1, camera2, settings;
      average1, average2, currentSyncTime := 0, 0, P.SYNC_TIME_MS;
      mode1, mode2, currentState, syncAuto := Idle, Idle, false, false;
      this.clock, pc, added, shown, switches, movement := clock, P.Ready, [], [], 0, 0;
      new;
      settings.observer := this;
      camera1.observer := this;
      camera2.observer := this;
    }

    ghost predicate Wired()
      reads camera1`observer, camera2`observer, settings`observer
    {
      && camera1.id == 1 && camera2.id == 2
      && camera1.observer == this && camera2.observer == this && settings.observer == this
    }

    ghost function SettingsView(): C.Settings
      reads this`currentState, this`syncAuto, settings`syncModeOn, settings`autoActivated
    {
      C.Settings(settings.syncModeOn, settings.autoActivated, currentState, syncAuto)
    }

    ghost function View(m: CameraModel): C.Camera
      reads this`mode1, this`mode2, m`movieModeOn, m`motionDetected
    {
      C.Camera(m.movieModeOn, m.motionDetected, if m.id == 1 then mode1 else mode2)
    }

    ghost function OtherMode(m: CameraModel): Mode
      reads this`mode1, this`mode2
    {
      if m.id == 1 then mode2 else mode1
    }

    ghost function CamerasView(): C.Cameras
      reads this`mode1, this`mode2
      reads camera1`movieModeOn, camera1`motionDetected, camera2`movieModeOn, camera2`motionDetected
    {
      C.Cameras(View(camera1), View(camera2))
    }

    ghost predicate Coherent()
      reads this`mode1, this`mode2
      reads camera1`movieModeOn, camera1`motionDetected, camera2`movieModeOn, camera2`motionDetected
    {
      C.Coherent(CamerasView())
    }

    /** What the surroundings act on. */
    ghost function Now(): Picture
      reads this`added, this`mode1, this`mode2, this`currentState, this`syncAuto
      reads camera1`movieModeOn, camera1`motionDetected, camera2`movieModeOn, camera2`motionDetected
      reads settings`syncModeOn, settings`autoActivated
    {
      Picture(P.FramesOfArrivals(added), CamerasView(), SettingsView())
    }

    /** The state of the playout model. */
    ghost function Model(): P.State
      reads this, frames
    {
      P.State(clock, frames.frames, average1, average2, currentSyncTime, currentState, syncAuto, pc,
              added, shown, switches, movement)
    }

    // -------------------------------------------------------------------------
    // Callbacks and mode changes
    // -------------------------------------------------------------------------

    /** `updateGui` for a settings model. */
    method UpdateGuiSettings(m: SettingsModel)
      requires m == settings && m.observer == this
      modifies m`syncModeOn, m`autoActivated, this`currentState, this`syncAuto
      ensures SettingsView() == C.SettledSettings(old(SettingsView()))
      decreases if m.syncModeOn != currentState then 1 else 0, 0
    {
      if m.syncModeOn != currentState {
        currentState := m.syncModeOn;
        if m.autoActivated {
          m.SetAutoMode(false);
        }
      } else if m.autoActivated != syncAuto {
        syncAuto := m.autoActivated;
      }
    }

    /** `updateGui` for a camera model. */
    method UpdateGuiCamera(m: CameraModel)
      requires m.Attached() && m.observer == this
      modifies m`motionDetected, this`mode1, this`mode2
      ensures View(m) == C.Settled(old(View(m)))
      ensures OtherMode(m) == old(OtherMode(m))
      decreases if m.motionDetected then 1 else 0, 0
    {
      if m.id == 1 {
        if m.movieModeOn && mode1 != Movie {
          mode1 := Movie;
        } else if !m.movieModeOn && mode1 != Idle {
          if m.motionDetected {
            m.SetMotionDetected(false);
          }
          mode1 := Idle;
        }
      } else if m.id == 2 {
        if m.movieModeOn && mode2 != Movie {
          mode2 := Movie;
        } else if !m.movieModeOn && mode2 != Idle {
          if m.motionDetected {
            m.SetMotionDetected(false);
          }
          mode2 := Idle;
        }
      }
    }

    method ChangeMode(server: int, mode: Mode)
      requires Wired()
      modifies this`mode1, this`mode2
      modifies camera1`movieModeOn, camera1`motionDetected, camera2`movieModeOn, camera2`motionDetected
      ensures CamerasView() == C.AfterChange(old(CamerasView()), server, mode)
    {
      if mode == Movie {
        if server == 1 {
          camera1.SetMotionDetected(true);
          camera2.SetMotionDetected(false);
          if !camera1.movieModeOn {
            camera1.SetMovieMode(true);
          }
          if !camera2.movieModeOn {
            camera2.SetMovieMode(true);
          }
        } else if server == 2 {
          camera1.SetMotionDetected(false);
          camera2.SetMotionDetected(true);
          if !camera1.movieModeOn {
            camera1.SetMovieMode(true);
          }
          if !camera2.movieModeOn {
            camera2.SetMovieMode(true);
          }
        }
        mode1 := mode;
        mode2 := mode;
      } else {
        if server == 1 {
          mode1 := mode;
          camera1.SetMotionDetected(false);
          if camera1.movieModeOn {
            camera1.SetMovieMode(false);
          }
        } else if server == 2 {
          mode2 := mode;
          camera2.SetMotionDetected(false);
          if camera2.movieModeOn {
            camera2.SetMovieMode(false);
          }
        }
      }
    }

    // -------------------------------------------------------------------------
    // Frames
    // -------------------------------------------------------------------------

    method AddFrame(frame: FB.Frame)
      modifies frames, this`average1, this`average2, this`added, this`movement
      ensures Model() == P.AfterArrival(old(Model()), frame)
      ensures average1 ==
              if frame.server == 1 then A.NextAverage(old(average1), frame.received - frame.sent) else old(average1)
      ensures average2 ==
              if frame.server == 2 then A.NextAverage(old(average2), frame.received - frame.sent) else old(average2)
      ensures P.FramesOfArrivals(added) == old(P.FramesOfArrivals(added)) + [frame]
    {
      frames.Add(frame);
      var delay := frame.received - frame.sent;
      ghost var before := average1 + average2;
      if frame.server == 1 {
        average1 := A.NextAverage(average1, delay);
      } else if frame.server == 2 {
        average2 := A.NextAverage(average2, delay);
      }
      added := added + [P.Arrival(frame, clock, |shown|)];
      movement := movement + A.Abs(average1 + average2 - before);
    }

    /** `System.currentTimeMillis`. */
    method GetTime() returns (now: int)
      modifies this`clock
      ensures clock >= old(clock) && now == clock
    {
      var ms: int := *;
      if ms > 0 {
        clock := clock + ms;
      }
      now := clock;
    }

    /** The lock is free, in a `wait()` or between two calls: other threads do what `batch`
        lists, all of it and nothing else. */
    method GiveUpLock(batch: seq<Outside>) returns (ghost evs: seq<P.Event>)
      requires Wired()
      modifies this, frames, settings`syncModeOn, settings`autoActivated
      modifies camera1`movieModeOn, camera1`motionDetected, camera2`movieModeOn, camera2`motionDetected
      ensures Wired() && pc == old(pc)
      ensures Journal(old(Model()), old(Now()), evs, batch, Model(), Now())
      ensures shown == old(shown) && currentSyncTime == old(currentSyncTime)
      ensures clock == old(clock) + Passing(batch) && |frames.frames| >= |old(frames.frames)|
      ensures SettingsView() == C.RunSettings(old(SettingsView()), SettingsClicks(batch))
      ensures CamerasView() == C.RunCameras(old(CamerasView()), CameraCalls(batch))
    {
      hide Known, P.Step, P.FramesOfArrivals, Arriving, Passing, SettingsClicks, CameraCalls;
      hide C.RunSettings, C.RunCameras, C.AfterSettings, C.AfterCamera, C.Coherent;
      evs := [];
      ghost var start := Model();
      NothingYet(batch, SettingsView(), CamerasView());
      for n := 0 to |batch|
        invariant Wired() && pc == old(pc)
        invariant C.Coherent(old(CamerasView())) && BatchKnown(batch) ==> C.Coherent(CamerasView())
        invariant Model() == P.Run(start, evs) && (HandsOff(batch) ==> P.HandsOff(evs))
        invariant P.FramesOfArrivals(added) == old(P.FramesOfArrivals(added)) + Arriving(batch[..n])
        invariant shown == old(shown) && currentSyncTime == old(currentSyncTime)
        invariant clock == old(clock) + Passing(batch[..n]) && |frames.frames| >= |old(frames.frames)|
        invariant SettingsView() == C.RunSettings(old(SettingsView()), SettingsClicks(batch[..n]))
        invariant CamerasView() == C.RunCameras(old(CamerasView()), CameraCalls(batch[..n]))
      {
        ghost var e := Happen(batch[n]);
        P.RunSnoc(start, evs, e);
        evs := evs + [e];
        OneMoreHappened(batch, n, old(SettingsView()), old(CamerasView()));
        Regroup(old(P.FramesOfArrivals(added)), Arriving(batch[..n]), Arriving([batch[n]]));
      }
      assert batch[..|batch|] == batch;
      BatchFollows(old(Now()), Now(), batch);
    }

    /** One thing that another thread does. */
    method Happen(o: Outside) returns (ghost e: P.Event)
      requires Wired()
      modifies this, frames, settings`syncModeOn, settings`autoActivated
      modifies camera1`movieModeOn, camera1`motionDetected, camera2`movieModeOn, camera2`motionDetected
      ensures Wired() && pc == old(pc)
      ensures Model() == P.Step(old(Model()), e)
      ensures e.Settings? ==> o.UserSync? || o.UserAuto?
      ensures P.FramesOfArrivals(added) == old(P.FramesOfArrivals(added)) + Arriving([o])
      ensures shown == old(shown) && currentSyncTime == old(currentSyncTime)
      ensures clock == old(clock) + Passing([o]) && |frames.frames| >= |old(frames.frames)|
      ensures SettingsView() == C.RunSettings(old(SettingsView()), SettingsClicks([o]))
      ensures CamerasView() == C.RunCameras(old(CamerasView()), CameraCalls([o]))
      ensures C.Coherent(old(CamerasView())) && Known(o) ==> C.Coherent(CamerasView())
    {
      hide C.Coherent, P.AfterResume, P.AfterArrival, C.AfterSettings, C.AfterCamera;
      Single(o, SettingsView(), CamerasView());
      if o.UserMovie? || o.Motion? {
        HappenToCameras(o);
        e := P.Tick(0);
      } else {
        e := HappenToPlayout(o);
      }
    }

    method HappenToPlayout(o: Outside) returns (ghost e: P.Event)
      requires Wired() && !o.UserMovie? && !o.Motion?
      modifies frames, this`average1, this`average2, this`added, this`movement, this`clock
      modifies this`currentState, this`syncAuto, settings`syncModeOn, settings`autoActivated
      ensures Wired()
      ensures Model() == P.Step(old(Model()), e)
      ensures e.Settings? ==> o.UserSync? || o.UserAuto?
      ensures P.FramesOfArrivals(added) == old(P.FramesOfArrivals(added)) + (if o.Incoming? then [o.frame] else [])
      ensures clock == old(clock) + (if o.Pass? then o.ms else 0) && |frames.frames| >= |old(frames.frames)|
      ensures o.UserSync? ==> SettingsView() == C.AfterSettings(old(SettingsView()), C.UserSync(o.on))
      ensures o.UserAuto? ==> SettingsView() == C.AfterSettings(old(SettingsView()), C.UserAuto(o.on))
      ensures !o.UserSync? && !o.UserAuto? ==> SettingsView() == old(SettingsView())
    {
      match o
      case Incoming(frame) =>
        AddFrame(frame);
        e := P.Arrive(frame);
      case Pass(ms) =>
        clock := clock + ms;
        e := P.Tick(ms);
      case UserSync(on) =>
        settings.SetSyncMode(on);
        e := P.Settings(currentState, syncAuto);
      case UserAuto(on) =>
        settings.SetAutoMode(on);
        e := P.Settings(currentState, syncAuto);
    }

    method HappenToCameras(o: Outside)
      requires Wired() && (o.UserMovie? || o.Motion?)
      modifies this`mode1, this`mode2
      modifies camera1`movieModeOn, camera1`motionDetected, camera2`movieModeOn, camera2`motionDetected
      ensures CamerasView() == C.AfterCamera(old(CamerasView()), CameraCalls([o])[0])
      ensures C.Coherent(old(CamerasView())) && Known(o) ==> C.Coherent(CamerasView())
    {
      Single(o, SettingsView(), CamerasView());
      if C.Coherent(CamerasView()) && Known(o) {
        C.CoherentStep(CamerasView(), CameraCalls([o])[0]);
      }
      match o
      case UserMovie(first, on) =>
        if first {
          camera1.SetMovieMode(on);
        } else {
          camera2.SetMovieMode(on);
        }
      case Motion(server) =>
        ChangeMode(server, Movie);
    }

    // -------------------------------------------------------------------------
    // update()
    // -------------------------------------------------------------------------

    /** The frame and its delay are on its camera's model. */
    ghost predicate OnScreen(f: FB.Frame)
      reads camera1`image, camera1`delayTime, camera2`image, camera2`delayTime
    {
      && (f.server == 1 ==> camera1.image == f.image && Delayed(camera1.delayTime, f.received - f.sent))
      && (f.server == 2 ==> camera2.image == f.image && Delayed(camera2.delayTime, f.received - f.sent))
    }

    /** Puts a frame and its delay on its camera's model. */
    method Display(frame: FB.Frame)
      requires Wired()
      modifies this`mode1, this`mode2, camera1`image, camera1`delayTime, camera1`motionDetected
      modifies camera2`image, camera2`delayTime, camera2`motionDetected
      ensures OnScreen(frame)
      ensures frame.server != 1 ==> camera1.image == old(camera1.image) && camera1.delayTime == old(camera1.delayTime)
      ensures frame.server != 2 ==> camera2.image == old(camera2.image) && camera2.delayTime == old(camera2.delayTime)
      ensures old(Coherent()) ==> CamerasView() == old(CamerasView()) && Coherent()
    {
      hide C.Settled;
      if Coherent() {
        C.CoherentIsSettled(View(camera1));
        C.CoherentIsSettled(View(camera2));
      }
      Int32Wraps(frame.received - frame.sent);
      hide ToInt32, Delayed;
      if frame.server == 1 {
        camera1.SetNewImage(frame.image);
        camera1.SetDelayTime(ToInt32(frame.received - frame.sent));
      } else if frame.server == 2 {
        camera2.SetNewImage(frame.image);
        camera2.SetDelayTime(ToInt32(frame.received - frame.sent));
      }
    }

    /** Takes the oldest frame; the buffer is known not to be empty. */
    method Take(ghost sync: bool) returns (frame: FB.Frame)
      requires frames.frames != []
      modifies frames, this`shown, this`pc
      ensures Model() == P.Show(old(Model()), sync)
      ensures var n := |old(frames.frames)| - 1;
              && frame == old(frames.frames[n]) && frames.frames == old(frames.frames[..n])
              && shown == old(shown) + [P.Shown(frame, clock, sync, currentSyncTime)]
    {
      shown := shown + [P.Shown(P.Oldest(Model()), clock, sync, currentSyncTime)];
      pc := P.Ready;
      var popped := frames.Pop();
      frame := popped.value;
    }

    /** The asynchronous branch. When it switches, the notification may also take over the
        model's auto flag. */
    method UpdateAsync() returns (frame: FB.Frame)
      requires Wired() && frames.frames != [] && !currentState
      modifies frames, this`shown, this`pc, this`switches, this`currentState, this`syncAuto
      modifies settings`syncModeOn, settings`autoActivated
      ensures Wired() && pc == P.Ready
      ensures Model() == P.ShowNow(old(Model())).(auto := syncAuto)
      ensures currentState <==> old(syncAuto) && -450 < average1 - average2 < 450
      ensures SettingsView() ==
              if currentState then C.AfterSettings(old(SettingsView()), C.Automatic(true)) else old(SettingsView())
      ensures shown == old(shown) + [P.Shown(frame, clock, false, currentSyncTime)]
    {
      frame := Take(false);
      if syncAuto && A.Abs(average1 - average2) < P.SYNC_TIME_MS - P.SYNC_TIME_HYSTERESIS_MS {
        currentState := true;
        settings.SetSyncMode(true);
        switches := switches + 1;
      }
    }

    /** The end of the synchronous branch, when the oldest frame is due. */
    method FinishSync() returns (frame: FB.Frame)
      requires Wired() && frames.frames != [] && P.Oldest(Model()).sent + currentSyncTime <= clock
      modifies frames, this`shown, this`pc, this`switches, this`currentState, this`syncAuto
      modifies settings`syncModeOn, settings`autoActivated
      ensures Wired() && pc == P.Ready
      ensures Model() == P.CheckTime(old(Model())).(auto := syncAuto)
      ensures var apart := old(syncAuto) && (average1 - average2 > 550 || average2 - average1 > 550);
              && (currentState <==> old(currentState) && !apart)
              && SettingsView() ==
                 if apart then C.AfterSettings(old(SettingsView()), C.Automatic(false)) else old(SettingsView())
      ensures shown == old(shown) + [P.Shown(frame, clock, true, currentSyncTime)]
    {
      if syncAuto && A.Abs(average1 - average2) > P.SYNC_TIME_MS + P.SYNC_TIME_HYSTERESIS_MS {
        switches := switches + (if currentState then 1 else 0);
        currentState := false;
        settings.SetSyncMode(false);
      }
      frame := Take(true);
    }

    method GrowSyncTime()
      modifies this`currentSyncTime
      ensures Model() == P.Grow(old(Model()))
      ensures currentSyncTime ==
              if average1 > 2 * old(currentSyncTime) then 4 * old(currentSyncTime) else old(currentSyncTime)
    {
      if currentSyncTime * 2 < P.Max(average1, average1) {
        currentSyncTime := 4 * currentSyncTime;
      }
    }

    /** When the oldest frame is to be shown, and the time now. */
    method LookAtTime() returns (nextDispTime: int, currentTime: int)
      requires frames.frames != []
      modifies this`clock
      ensures clock >= old(clock) && Model() == old(Model()).(clock := clock)
      ensures nextDispTime == P.Oldest(Model()).sent + currentSyncTime && currentTime == clock
      ensures nextDispTime > currentTime <==> !P.Due(Model())
    {
      var oldest := frames.Peek();
      nextDispTime := oldest.value.sent + currentSyncTime;
      currentTime := GetTime();
    }

    /** The wait loop of the synchronous branch: ends when the oldest frame is due, or stays in
        a wait when `script` has no more to say about what happens outside. `entered` and `base`
        are the states in which the lock was last obtained, before and after. */
    method AwaitDisplayTime(script: seq<seq<Outside>>, ghost entered: P.State)
      returns (due: bool, ghost used: nat, ghost evs: seq<P.Event>, ghost base: P.State)
      requires Wired() && frames.frames != [] && P.Underway(entered, Model())
      modifies this, frames, settings`syncModeOn, settings`autoActivated
      modifies camera1`movieModeOn, camera1`motionDetected, camera2`movieModeOn, camera2`motionDetected
      ensures Wired() && frames.frames != [] && shown == old(shown)
      ensures used <= |script| && (!due ==> used == |script|)
      ensures Journal(entered, old(Now()), evs, Flat(script[..used]), base, Now())
      ensures due ==> P.Underway(base, Model()) && P.Due(Model())
      ensures !due ==> Model() == base && pc == P.WaitingForTime
    {
      hide P.Run, P.CheckTime, P.Underway, P.Due, P.HandsOff, P.OwnSteps, Journal, Flat, Now;
      evs, base, used := [], entered, 0;
      FlatNothing(script);
      EmptyJournal(base, Now());
      ghost var earlier := Model();
      var nextDispTime, currentTime := LookAtTime();
      P.TimePasses(base, earlier, Model());
      var n := 0;
      while nextDispTime > currentTime
        invariant 0 <= n == used <= |script| && Wired() && frames.frames != [] && shown == old(shown)
        invariant nextDispTime > currentTime <==> !P.Due(Model())
        invariant P.Underway(base, Model())
        invariant Journal(entered, old(Now()), evs, Flat(script[..n]), base, Now())
        decreases |script| - n
      {
        evs, base := GoToSleep(entered, old(Now()), evs, Flat(script[..n]), base);
        if n == |script| {
          return false, n, evs, base;
        }
        evs, base := Sleep(script[n], entered, old(Now()), evs, Flat(script[..n]), base);
        FlatStep(script, n);
        n := n + 1;
        used := n;
        // a newer look at the buffer, in case an older frame has been added
        nextDispTime, currentTime := LookAtTime();
        P.WokenUp(base, Model());
      }
      due := true;
    }

    /** The oldest frame is not due: the updater begins its wait. */
    ghost method GoToSleep(start: P.State, p: Picture, evs: seq<P.Event>, heard: seq<Outside>, base: P.State)
      returns (evs': seq<P.Event>, base': P.State)
      requires frames.frames != [] && P.Underway(base, Model()) && !P.Due(Model())
      requires Journal(start, p, evs, heard, base, Now())
      modifies this`pc
      ensures pc == P.WaitingForTime && base' == Model() && Journal(start, p, evs', heard, base', Now())
    {
      hide P.Run, P.Underway, P.HandsOff, P.OwnSteps, Journal, Now;
      P.PausesWith(base, Model());
      ghost var own := P.OwnSteps(base, Model());
      OwnJournal(base, Now(), own);
      JournalGoesOn(start, p, evs, heard, base, Now(), own, [], P.Run(base, own), Now());
      assert heard + [] == heard;
      pc := P.WaitingForTime;
      evs', base' := evs + own, Model();
    }

    /** One wait, of either loop. */
    method Sleep(batch: seq<Outside>, ghost start: P.State, ghost p: Picture, ghost evs: seq<P.Event>,
                 ghost heard: seq<Outside>, ghost base: P.State)
      returns (ghost evs': seq<P.Event>, ghost base': P.State)
      requires Wired() && base == Model() && Journal(start, p, evs, heard, base, Now())
      modifies this, frames, settings`syncModeOn, settings`autoActivated
      modifies camera1`movieModeOn, camera1`motionDetected, camera2`movieModeOn, camera2`motionDetected
      ensures Wired() && base' == Model() && Journal(start, p, evs', heard + batch, base', Now())
      ensures pc == old(pc) && shown == old(shown) && |frames.frames| >= |old(frames.frames)|
    {
      hide Journal, Now;
      ghost var now := Now();
      ghost var outside := GiveUpLock(batch);
      JournalGoesOn(start, p, evs, heard, base, now, outside, batch, Model(), Now());
      evs', base' := evs + outside, Model();
    }

    /** The synchronous branch. `script` lists what happens during each of its waits, of which
        `used` take place; when it is used up the updater stays in its wait. The events name the
        run of the playout model that this is. */
    method UpdateSync(script: seq<seq<Outside>>)
      returns (finished: bool, frame: FB.Frame, ghost used: nat, ghost evs: seq<P.Event>)
      requires Wired() && frames.frames != [] && currentState && (pc == P.Ready || pc == P.WaitingForFrame)
      modifies this, frames, settings`syncModeOn, settings`autoActivated
      modifies camera1`movieModeOn, camera1`motionDetected, camera2`movieModeOn, camera2`motionDetected
      ensures Wired() && used <= |script| && (!finished ==> used == |script|)
      ensures Journal(old(Model()), old(Now()), evs, Flat(script[..used]), Model(), Now())
      ensures finished ==> pc == P.Ready && |shown| == |old(shown)| + 1 && shown[..|old(shown)|] == old(shown)
      ensures finished ==> shown[|old(shown)|].frame == frame
      ensures !finished ==> pc == P.WaitingForTime && shown == old(shown)
    {
      hide P.Run, P.CheckTime, P.Grow, P.Underway, P.HandsOff, Journal, Flat, Now;
      ghost var start, base := Model(), Model();
      evs, used := [], 0;
      FlatNothing(script);
      EmptyJournal(start, Now());
      var oldest := frames.Peek();
      frame := oldest.value;
      GrowSyncTime();
      var nextDispTime, currentTime := LookAtTime();
      P.GrownAndLater(base, Model());
      if nextDispTime > currentTime {
        var due;
        due, used, evs, base := AwaitDisplayTime(script, base);
        if !due {
          return false, frame, used, evs;
        }
        ghost var earlier := Model();
        currentTime := GetTime();
        P.TimePasses(base, earlier, Model());
      }
      evs, frame := FinishTurn(start, old(Now()), evs, Flat(script[..used]), base);
      finished := true;
    }

    /** The end of the synchronous branch, with its place in the journal. */
    method FinishTurn(ghost start: P.State, ghost p: Picture, ghost evs: seq<P.Event>, ghost heard: seq<Outside>,
                      ghost base: P.State)
      returns (ghost evs': seq<P.Event>, frame: FB.Frame)
      requires Wired() && frames.frames != [] && P.Due(Model()) && P.Underway(base, Model())
      requires Journal(start, p, evs, heard, base, Now())
      modifies frames, this`shown, this`pc, this`switches, this`currentState, this`syncAuto
      modifies settings`syncModeOn, settings`autoActivated
      ensures Wired() && pc == P.Ready && Journal(start, p, evs', heard, Model(), Now())
      ensures shown == old(shown) + [P.Shown(frame, clock, true, currentSyncTime)]
    {
      hide P.Run, P.CheckTime, P.Underway, P.HandsOff, P.OwnSteps, Journal, C.AfterSettings;
      P.ResumesWith(base, Model());
      P.AutoStays(Model());
      ghost var own, now := P.OwnSteps(base, Model()), Now();
      frame := FinishSync();
      ghost var more := own + P.TakingOver(P.Run(base, own), syncAuto);
      SwitchJournal(base, own, syncAuto, now, Now(), false);
      JournalGoesOn(start, p, evs, heard, base, now, more, [], Model(), Now());
      assert heard + [] == heard;
      evs' := evs + more;
    }

    /** The first wait of `update()`: ends when there is a frame, with the rest of the script. */
    method AwaitFrame(script: seq<seq<Outside>>)
      returns (arrived: bool, rest: seq<seq<Outside>>, ghost used: nat, ghost evs: seq<P.Event>)
      requires Wired() && pc == P.Ready
      modifies this, frames, settings`syncModeOn, settings`autoActivated
      modifies camera1`movieModeOn, camera1`motionDetected, camera2`movieModeOn, camera2`motionDetected
      ensures Wired() && used <= |script| && rest == script[used..] && (!arrived ==> used == |script|)
      ensures Journal(old(Model()), old(Now()), evs, Flat(script[..used]), Model(), Now()) && shown == old(shown)
      ensures arrived ==> frames.frames != [] && (pc == P.Ready || pc == P.WaitingForFrame)
      ensures !arrived ==> pc == P.WaitingForFrame
    {
      hide P.Run, P.HandsOff, Journal, Flat, Now;
      ghost var start := Model();
      evs, used := [], 0;
      FlatNothing(script);
      EmptyJournal(start, Now());
      var n := 0;
      var size := frames.Size();
      while size == 0
        invariant 0 <= n == used <= |script| && Wired() && size == |frames.frames| && shown == old(shown)
        invariant pc == P.Ready || pc == P.WaitingForFrame
        invariant Journal(start, old(Now()), evs, Flat(script[..n]), Model(), Now())
        decreases |script| - n
      {
        P.NothingToShow(Model());
        OwnJournal(Model(), Now(), [P.Resume]);
        JournalGoesOn(start, old(Now()), evs, Flat(script[..n]), Model(), Now(),
                      [P.Resume], [], P.Run(Model(), [P.Resume]), Now());
        assert Flat(script[..n]) + [] == Flat(script[..n]);
        evs := evs + [P.Resume];
        pc := P.WaitingForFrame;
        if n == |script| {
          return false, [], n, evs;
        }
        ghost var base;
        evs, base := Sleep(script[n], start, old(Now()), evs, Flat(script[..n]), Model());
        FlatStep(script, n);
        n := n + 1;
        used := n;
        size := frames.Size();
      }
      arrived, rest := true, script[n..];
    }

    /** The branch for the present mode. */
    method UpdateBranch(script: seq<seq<Outside>>)
      returns (finished: bool, frame: FB.Frame, ghost used: nat, ghost evs: seq<P.Event>)
      requires Wired() && frames.frames != [] && (pc == P.Ready || pc == P.WaitingForFrame)
      modifies this, frames, settings`syncModeOn, settings`autoActivated
      modifies camera1`movieModeOn, camera1`motionDetected, camera2`movieModeOn, camera2`motionDetected
      ensures Wired() && used <= |script| && (!finished ==> used == |script|)
      ensures Journal(old(Model()), old(Now()), evs, Flat(script[..used]), Model(), Now())
      ensures finished ==> pc == P.Ready && |shown| == |old(shown)| + 1 && shown[..|old(shown)|] == old(shown)
      ensures finished ==> shown[|old(shown)|].frame == frame
      ensures !finished ==> pc == P.WaitingForTime && shown == old(shown)
    {
      hide P.Run, P.ShowNow, P.HandsOff, Journal, Flat, C.AfterSettings;
      if !currentState {
        used := 0;
        FlatNothing(script);
        P.ShowsAtOnce(Model());
        P.AutoStays(Model());
        frame := UpdateAsync();
        SwitchJournal(old(Model()), [P.Resume], syncAuto, old(Now()), Now(), true);
        evs := [P.Resume] + P.TakingOver(P.Run(old(Model()), [P.Resume]), syncAuto);
        finished := true;
      } else {
        finished, frame, used, evs := UpdateSync(script);
      }
    }

    /** One call of `update()` by the updater thread: it shows one frame, or waits for ever when
        the script is used up, and nothing else happens but what the script lists. */
    method Update(script: seq<seq<Outside>>) returns (finished: bool, ghost used: nat, ghost evs: seq<P.Event>)
      requires Wired() && pc == P.Ready
      modifies this, frames, settings`syncModeOn, settings`autoActivated, camera1, camera2
      ensures Wired() && used <= |script| && (!finished ==> used == |script|)
      ensures Journal(old(Model()), old(Now()), evs, Flat(script[..used]), Model(), Now())
      ensures finished ==> pc == P.Ready && |shown| == |old(shown)| + 1 && shown[..|old(shown)|] == old(shown)
      ensures finished ==> OnScreen(shown[|old(shown)|].frame)
      ensures !finished ==> (pc == P.WaitingForFrame || pc == P.WaitingForTime) && shown == old(shown)
    {
      hide P.Run, P.HandsOff, Journal, Flat, Now, OnScreen;
      var rest, frame;
      finished, rest, used, evs := AwaitFrame(script);
      if !finished {
        return;
      }
      ghost var waited, now, first := Model(), Now(), used;
      ghost var branch, more;
      finished, frame, more, branch := UpdateBranch(rest);
      JournalGoesOn(old(Model()), old(Now()), evs, Flat(script[..first]), waited, now,
                    branch, Flat(rest[..more]), Model(), Now());
      FlatSplits(script, first, more);
      evs, used := evs + branch, first + more;
      if finished {
        DisplayFrame(frame, old(Model()), old(Now()), evs, Flat(script[..used]));
      }
    }

    /** The display at the end of `update()`, with its place in the journal. */
    method DisplayFrame(frame: FB.Frame, ghost start: P.State, ghost p: Picture, ghost evs: seq<P.Event>,
                        ghost heard: seq<Outside>)
      requires Wired() && Journal(start, p, evs, heard, Model(), Now())
      modifies this`mode1, this`mode2, camera1`image, camera1`delayTime, camera1`motionDetected
      modifies camera2`image, camera2`delayTime, camera2`motionDetected
      ensures OnScreen(frame) && Journal(start, p, evs, heard, Model(), Now())
    {
      hide Journal;
      ghost var taken, state := Now(), Model();
      Display(frame);
      DisplayJournal(start, p, evs, heard, state, taken, Now());
    }
  }

  /** One round of the updater: what other threads do before its call of `update()`, and during
      each wait of that call. */
  datatype Round = Round(before: seq<Outside>, script: seq<seq<Outside>>)

  /** What has happened in the rounds done so far, of each call's script as much as its waits
      have used. */
  function Heard(rounds: seq<Round>, used: seq<nat>): seq<Outside>
    requires |used| <= |rounds| && forall i :: 0 <= i < |used| ==> used[i] <= |rounds[i].script|
    decreases |used|
  {
    if used == [] then []
    else
      var n := |used| - 1;
      Heard(rounds, used[..n]) + (rounds[n].before + Flat(rounds[n].script[..used[n]]))
  }

  /** The updater thread: one `update()` after the other, until one waits for ever, with other
      threads at work between the calls and during their waits. Its whole life is a run of the
      playout model, so that what holds of every run holds of it; each call that ends shows one
      frame; and nothing is added or changed but by what other threads do. */
  method UpdaterRun(monitor: Monitor, rounds: seq<Round>)
    returns (finished: bool, ghost used: seq<nat>, ghost evs: seq<P.Event>)
    requires monitor.Wired() && monitor.Model() == P.Initial(monitor.clock)
    modifies monitor, monitor.frames, monitor.settings`syncModeOn, monitor.settings`autoActivated
    modifies monitor.camera1, monitor.camera2
    ensures |used| <= |rounds| && forall i :: 0 <= i < |used| ==> used[i] <= |rounds[i].script|
    ensures if finished then |used| == |rounds| == |monitor.shown|
            else 0 < |used| == |monitor.shown| + 1 && used[|used| - 1] == |rounds[|used| - 1].script|
    ensures monitor.Wired()
    ensures Journal(P.Initial(old(monitor.clock)), old(monitor.Now()), evs, Heard(rounds, used),
                    monitor.Model(), monitor.Now())
    ensures P.Safe(monitor.Model())
    ensures P.OnTime(monitor.added) ==> P.InOrder(monitor.shown)
    ensures P.OrderKept(monitor.Model()) <==> P.NoneLate(monitor.Model())
    ensures C.Mirrored(old(monitor.SettingsView())) && HandsOff(Heard(rounds, used)) ==>
            monitor.switches <= 1 + monitor.movement / 102
  {
    hide P.HandsOff, Journal, Flat, HandsOff, C.Mirrored;
    ghost var start := monitor.Model();
    EmptyJournal(start, monitor.Now());
    evs, used := [], [];
    var n := 0;
    finished := true;
    while n < |rounds| && finished
      invariant 0 <= n == |used| <= |rounds| && monitor.Wired()
      invariant forall i :: 0 <= i < |used| ==> used[i] <= |rounds[i].script|
      invariant if finished then n == |monitor.shown|
                else 0 < n == |monitor.shown| + 1 && used[n - 1] == |rounds[n - 1].script|
      invariant finished ==> monitor.pc == P.Ready
      invariant Journal(start, old(monitor.Now()), evs, Heard(rounds, used), monitor.Model(), monitor.Now())
    {
      ghost var now, state, heard := monitor.Now(), monitor.Model(), Heard(rounds, used);
      ghost var some, more;
      finished, some, more := OneRound(monitor, rounds[n]);
      JournalGoesOn(start, old(monitor.Now()), evs, heard, state, now,
                    more, rounds[n].before + Flat(rounds[n].script[..some]), monitor.Model(), monitor.Now());
      evs := evs + more;
      used := used + [some];
      assert used[..n] == used[..|used| - 1];
      n := n + 1;
    }
    RunLaws(start, old(monitor.Now()), evs, Heard(rounds, used), monitor.Model(), monitor.Now());
  }

  /** What holds of every run of the playout model. */
  lemma RunLaws(start: P.State, p: Picture, evs: seq<P.Event>, heard: seq<Outside>, t: P.State, q: Picture)
    requires start == P.Initial(start.clock) && Journal(start, p, evs, heard, t, q)
    ensures P.Safe(t)
    ensures P.OnTime(t.added) ==> P.InOrder(t.shown)
    ensures P.OrderKept(t) <==> P.NoneLate(t)
    ensures C.Mirrored(p.settings) && HandsOff(heard) ==> t.switches <= 1 + t.movement / 102
  {
    hide P.Run, P.Safe, P.OnTime, P.InOrder, P.OrderKept, P.NoneLate, P.HandsOff, Follows, HandsOff, C.Mirrored;
    P.DisplaySafety(start.clock, evs);
    P.PlayoutOrderIff(start.clock, evs);
    if P.OnTime(t.added) {
      P.PlayoutOrder(start.clock, evs);
    }
    if P.HandsOff(evs) {
      P.BoundedSwitching(start, evs);
    }
  }

  method OneRound(monitor: Monitor, round: Round) returns (finished: bool, ghost used: nat, ghost evs: seq<P.Event>)
    requires monitor.Wired() && monitor.pc == P.Ready
    modifies monitor, monitor.frames, monitor.settings`syncModeOn, monitor.settings`autoActivated
    modifies monitor.camera1, monitor.camera2
    ensures monitor.Wired() && used <= |round.script| && (!finished ==> used == |round.script|)
    ensures Journal(old(monitor.Model()), old(monitor.Now()), evs, round.before + Flat(round.script[..used]),
                    monitor.Model(), monitor.Now())
    ensures finished ==> monitor.pc == P.Ready && |monitor.shown| == |old(monitor.shown)| + 1
    ensures !finished ==> monitor.shown == old(monitor.shown)
  {
    hide Journal, Flat;
    evs := monitor.GiveUpLock(round.before);
    ghost var state, now := monitor.Model(), monitor.Now();
    ghost var more;
    finished, used, more := monitor.Update(round.script);
    JournalGoesOn(old(monitor.Model()), old(monitor.Now()), evs, round.before, state, now,
                  more, Flat(round.script[..used]), monitor.Model(), monitor.Now());
    evs := evs + more;
  }
}
