/** The camera cascade under interleaving (`Client/Model/CameraControlModel.java`,
    `Client/Control/Monitor.java`). The user's thread writes a model's movie flag without a lock
    and needs the monitor's lock only inside the callback; readers and the updater do everything
    with the lock held. Every access to a shared field is a step of its own. Each model is an
    `Observable` with one mark for "changed": a `notifyObservers` that finds it already taken by
    the other thread calls nobody. */
module CameraRace {
  import opened Modes
  import C = Cascades

  datatype Which = One | Two

  /** A model's two flags and its mark, and the monitor's mode for it. */
  datatype Cam = Cam(movie: bool, motion: bool, changed: bool, mode: Mode)

  /** The user's thread inside `setMovieMode`: the flag is written; it is marked; the mark was
      found and taken, and the callback waits for the lock. */
  datatype UserPc = UserIdle | UserWrote(camera: Which) | UserMarked(camera: Which) | UserCalls(camera: Which)

  /** What the thread with the lock has still to do, access by access: the setters' writes, the
      mark and then its taking, the callback's two tests, the writes of the monitor's mode, and
      the tests of the movie flag in `changeMode`. */
  datatype Op =
    | SetMotion(camera: Which, on: bool)
    | SetMovie(camera: Which, on: bool)
    | Mark(camera: Which)
    | Take(camera: Which)
    | TestOn(camera: Which)
    | TestOff(camera: Which)
    | SetMode(camera: Which, mode: Mode)
    | UnlessMovie(camera: Which)
    | IfMovie(camera: Which)

  datatype State = State(one: Cam, two: Cam, user: UserPc, locker: seq<Op>)

  /** What is done with the lock held: a `changeMode` of a reader, or the display of a frame. */
  datatype Section = Change(server: Which, mode: Mode) | Display(camera: Which)

  datatype Event = Click(camera: Which, on: bool) | UserStep | Lock(section: Section) | LockerStep

  const IDLE_CAM := Cam(false, false, false, Idle)
  const INITIAL := State(IDLE_CAM, IDLE_CAM, UserIdle, [])

  function Get(s: State, w: Which): Cam {
    if w == One then s.one else s.two
  }

  function Put(s: State, w: Which, c: Cam): State {
    if w == One then s.(one := c) else s.(two := c)
  }

  function View(c: Cam): C.Camera {
    C.Camera(c.movie, c.motion, c.mode)
  }

  function Views(s: State): C.Cameras {
    C.Cameras(View(s.one), View(s.two))
  }

  function Program(section: Section): seq<Op> {
    match section
    case Change(server, Movie) =>
      [SetMotion(One, server == One), SetMotion(Two, server == Two), UnlessMovie(One), UnlessMovie(Two),
       SetMode(One, Movie), SetMode(Two, Movie)]
    case Change(server, Idle) => [SetMode(server, Idle), SetMotion(server, false), IfMovie(server)]
    case Display(w) => [Mark(w), Mark(w)]
  }

  /** One access: the camera after it, and what it puts before the rest of the program. */
  function Effect(c: Cam, op: Op): (Cam, seq<Op>) {
    var w := op.camera;
    match op
    case SetMotion(_, on) => (c.(motion := on), [Mark(w)])
    case SetMovie(_, on) => (c.(movie := on), [Mark(w)])
    case Mark(_) => (c.(changed := true), [Take(w)])
    case Take(_) => if c.changed then (c.(changed := false), [TestOn(w)]) else (c, [])
    case TestOn(_) => (c, if c.movie && c.mode != Movie then [SetMode(w, Movie)] else [TestOff(w)])
    case TestOff(_) =>
      (c, if !c.movie && c.mode != Idle
          then (if c.motion then [SetMotion(w, false), SetMode(w, Idle)] else [SetMode(w, Idle)])
          else [])
    case SetMode(_, mode) => (c.(mode := mode), [])
    case UnlessMovie(_) => (c, if c.movie then [] else [SetMovie(w, true)])
    case IfMovie(_) => (c, if c.movie then [SetMovie(w, false)] else [])
  }

  function AfterLocker(s: State): State {
    if s.locker == [] then s
    else
      var op := s.locker[0];
      var (c, ops) := Effect(Get(s, op.camera), op);
      Put(s, op.camera, c).(locker := ops + s.locker[1..])
  }

  /** The user's callback: it holds the lock, so nothing comes between. */
  function UserCallback(c: Cam): Cam {
    var v := C.Settled(View(c));
    Cam(v.movie, v.motion, c.changed && !(!c.movie && c.mode == Movie && c.motion), v.mode)
  }

  function AfterUser(s: State): State {
    match s.user
    case UserIdle => s
    case UserWrote(w) => Put(s, w, Get(s, w).(changed := true)).(user := UserMarked(w))
    case UserMarked(w) =>
      if Get(s, w).changed then Put(s, w, Get(s, w).(changed := false)).(user := UserCalls(w))
      else s.(user := UserIdle)
    case UserCalls(w) => if s.locker == [] then Put(s, w, UserCallback(Get(s, w))).(user := UserIdle) else s
  }

  /** A step that is not possible leaves the state. */
  function Step(s: State, e: Event): State {
    match e
    case Click(w, on) => if s.user == UserIdle then Put(s, w, Get(s, w).(movie := on)).(user := UserWrote(w)) else s
    case UserStep => AfterUser(s)
    case Lock(section) => if s.locker == [] then s.(locker := Program(section)) else s
    case LockerStep => AfterLocker(s)
  }

  function Run(evs: seq<Event>): State {
    if evs == [] then INITIAL else Step(Run(evs[..|evs| - 1]), evs[|evs| - 1])
  }

  /** No notification is pending. */
  predicate Quiet(s: State) {
    s.user == UserIdle && s.locker == []
  }

  predicate Disagrees(c: Cam) {
    c.movie != (c.mode == Movie)
  }

  // ---------------------------------------------------------------------------
  // The exact condition
  // ---------------------------------------------------------------------------

  /** The step writes the monitor's mode for the camera. */
  predicate WritesMode(s: State, e: Event, w: Which) {
    || (e == LockerStep && s.locker != [] && s.locker[0].SetMode? && s.locker[0].camera == w)
    || (e == UserStep && s.user == UserCalls(w) && s.locker == [] && Disagrees(Get(s, w)))
  }

  function NextStale(s: State, e: Event, w: Which, stale: bool): bool {
    var before, after := Get(s, w), Get(Step(s, e), w);
    if WritesMode(s, e, w) then Disagrees(after) else stale && after.movie == before.movie
  }

  /** The last write of the camera's mode disagreed with the movie flag at that moment, and no
      later write has changed the flag. */
  function StaleWrite(evs: seq<Event>, w: Which): bool {
    if evs == [] then false
    else NextStale(Run(evs[..|evs| - 1]), evs[|evs| - 1], w, StaleWrite(evs[..|evs| - 1], w))
  }

  /** The user's thread will still run a callback for the camera. */
  predicate UserWillCall(s: State, w: Which) {
    || s.user == UserWrote(w)
    || s.user == UserCalls(w)
    || (s.user == UserMarked(w) && Get(s, w).changed)
  }

  /** The access leads to a test of the camera's movie flag, or writes its mode. */
  predicate Attends(op: Op, w: Which, c: Cam) {
    && op.camera == w
    && !op.UnlessMovie? && !op.IfMovie?
    && (op.TestOff? ==> !c.movie)
  }

  predicate LockerAttends(s: State, w: Which) {
    exists op :: op in s.locker && Attends(op, w, Get(s, w))
  }

  /** A mark about to be taken is there, unless the user's thread has taken it. */
  predicate TakesPaired(s: State) {
    && (forall i :: 0 < i < |s.locker| ==> !s.locker[i].Take?)
    && (s.locker != [] && s.locker[0].Take? && !Get(s, s.locker[0].camera).changed ==>
          s.user == UserCalls(s.locker[0].camera))
  }

  /** A disagreement is the work of the last mode write, or somebody is still to see to it. */
  predicate Attended(s: State, w: Which, stale: bool) {
    && TakesPaired(s)
    && (stale ==> Disagrees(Get(s, w)))
    && (Disagrees(Get(s, w)) && !stale && !UserWillCall(s, w) ==> LockerAttends(s, w))
  }

  lemma AttendedAfterUser(s: State, w: Which, stale: bool)
    requires Attended(s, w, stale)
    ensures Attended(AfterUser(s), w, NextStale(s, UserStep, w, stale))
  {
  }

  /** An access that attends hands over to another one, unless it writes the mode or the
      disagreement is gone. */
  lemma HandsOver(c: Cam, op: Op)
    requires Attends(op, op.camera, c) && (op.Take? ==> c.changed) && !op.SetMode?
    ensures var (after, ops) := Effect(c, op);
            Disagrees(after) ==> ops != [] && Attends(ops[0], op.camera, after)
  {
  }

  lemma FirstAttends(t: State, w: Which, ops: seq<Op>, rest: seq<Op>)
    requires t.locker == ops + rest && ops != [] && Attends(ops[0], w, Get(t, w))
    ensures LockerAttends(t, w)
  {
    hide Attends;
    assert ops[0] == t.locker[0];
  }

  lemma RestAttends(t: State, w: Which, ops: seq<Op>, rest: seq<Op>, o: Op)
    requires t.locker == ops + rest && o in rest && Attends(o, w, Get(t, w))
    ensures LockerAttends(t, w)
  {
    hide Attends;
  }

  /** What waits behind the access does not notice it, unless it writes the movie flag. */
  lemma AttendsByFlag(s: State, w: Which, o: Op)
    requires s.locker != [] && Attends(o, w, Get(s, w))
    requires s.locker[0].camera == w ==> !s.locker[0].SetMovie?
    ensures o.camera == w && Attends(o, w, Get(AfterLocker(s), w))
  {
  }

  lemma LockerStillAttends(s: State, w: Which)
    requires s.locker != [] && LockerAttends(s, w) && Disagrees(Get(AfterLocker(s), w))
    requires s.locker[0] == Take(w) ==> Get(s, w).changed
    requires s.locker[0].camera == w ==> !s.locker[0].SetMode? && !s.locker[0].SetMovie?
    ensures LockerAttends(AfterLocker(s), w)
  {
    hide Attends;
    var op, rest, t := s.locker[0], s.locker[1..], AfterLocker(s);
    var ops := Effect(Get(s, op.camera), op).1;
    var o :| o in s.locker && Attends(o, w, Get(s, w));
    AttendsByFlag(s, w, o);
    if o == op {
      HandsOver(Get(s, w), op);
      FirstAttends(t, w, ops, rest);
    } else {
      RestAttends(t, w, ops, rest, o);
    }
  }

  lemma TakesPairedAfter(s: State)
    requires TakesPaired(s) && s.locker != []
    ensures TakesPaired(AfterLocker(s))
    ensures s.locker[0].Take? && !Get(s, s.locker[0].camera).changed ==> s.user == UserCalls(s.locker[0].camera)
  {
  }

  lemma AttendedAfterLocker(s: State, w: Which, stale: bool)
    requires Attended(s, w, stale) && s.locker != []
    ensures Attended(AfterLocker(s), w, NextStale(s, LockerStep, w, stale))
  {
    var op, t := s.locker[0], AfterLocker(s);
    TakesPairedAfter(s);
    hide TakesPaired;
    assert op in s.locker;
    assert t.locker == Effect(Get(s, op.camera), op).1 + s.locker[1..];
    if op.camera == w && op.SetMovie? {
      FirstAttends(t, w, [Mark(w)], s.locker[1..]);
    } else if LockerAttends(s, w) && Disagrees(Get(t, w)) {
      if (op.camera == w ==> !op.SetMode?) && (op == Take(w) ==> Get(s, w).changed) {
        LockerStillAttends(s, w);
      }
    }
    hide LockerAttends;
  }

  lemma AttendedStep(s: State, e: Event, w: Which, stale: bool)
    requires Attended(s, w, stale)
    ensures Attended(Step(s, e), w, NextStale(s, e, w, stale))
  {
    if e == UserStep {
      AttendedAfterUser(s, w, stale);
    } else if e == LockerStep && s.locker != [] {
      AttendedAfterLocker(s, w, stale);
    }
  }

  lemma {:induction false} AttendedRun(evs: seq<Event>, w: Which)
    ensures Attended(Run(evs), w, StaleWrite(evs, w))
  {
    if evs == [] {
    } else {
      AttendedRun(evs[..|evs| - 1], w);
      AttendedStep(Run(evs[..|evs| - 1]), evs[|evs| - 1], w, StaleWrite(evs[..|evs| - 1], w));
    }
  }

  // ---------------------------------------------------------------------------
  // Motion
  // ---------------------------------------------------------------------------

  /** The camera's mode when the writes still to do are done. */
  function EndMode(ops: seq<Op>, w: Which, mode: Mode): Mode
    decreases ops
  {
    if ops == [] then mode
    else EndMode(ops[1..], w, if ops[0].SetMode? && ops[0].camera == w then ops[0].mode else mode)
  }

  /** Likewise its motion flag. */
  function EndMotion(ops: seq<Op>, w: Which, on: bool): bool
    decreases ops
  {
    if ops == [] then on
    else EndMotion(ops[1..], w, if ops[0].SetMotion? && ops[0].camera == w then ops[0].on else on)
  }

  lemma {:induction false} EndConcat(a: seq<Op>, b: seq<Op>, w: Which, mode: Mode, on: bool)
    ensures EndMode(a + b, w, mode) == EndMode(b, w, EndMode(a, w, mode))
    ensures EndMotion(a + b, w, on) == EndMotion(b, w, EndMotion(a, w, on))
    decreases a
  {
    if a == [] {
      assert a + b == b;
    } else {
      var mode' := if a[0].SetMode? && a[0].camera == w then a[0].mode else mode;
      var on' := if a[0].SetMotion? && a[0].camera == w then a[0].on else on;
      EndConcat(a[1..], b, w, mode', on');
      assert (a + b)[1..] == a[1..] + b;
    }
  }

  lemma {:induction false} EndMonotone(ops: seq<Op>, w: Which)
    ensures EndMode(ops, w, Idle) == Movie ==> EndMode(ops, w, Movie) == Movie
    ensures EndMotion(ops, w, false) ==> EndMotion(ops, w, true)
  {
    if ops == [] {
    } else {
      EndMonotone(ops[1..], w);
    }
  }

  /** Whoever still sets the motion flag sets movie mode after it. */
  predicate MotionThenMovie(ops: seq<Op>, w: Which) {
    ops != [] ==>
      && MotionThenMovie(ops[1..], w)
      && (ops[0] == SetMotion(w, true) ==> EndMode(ops[1..], w, Idle) == Movie)
  }

  /** A motion flag goes with movie mode, or the one or the other is about to change. */
  predicate MotionCovered(s: State, w: Which) {
    && MotionThenMovie(s.locker, w)
    && (Get(s, w).motion ==> EndMode(s.locker, w, Get(s, w).mode) == Movie || SetMotion(w, false) in s.locker)
  }

  predicate OneMotion(s: State) {
    !(EndMotion(s.locker, One, s.one.motion) && EndMotion(s.locker, Two, s.two.motion))
  }

  /** What an access puts in front sets no motion flag. */
  lemma MotionThenMovieAfter(c: Cam, op: Op, rest: seq<Op>, w: Which)
    requires MotionThenMovie(rest, w)
    ensures MotionThenMovie(Effect(c, op).1 + rest, w)
  {
    var ops := Effect(c, op).1;
    if |ops| == 2 {
      assert (ops + rest)[1..] == [ops[1]] + rest;
      assert ([ops[1]] + rest)[1..] == rest;
    } else if |ops| == 1 {
      assert (ops + rest)[1..] == rest;
    } else {
      assert ops + rest == rest;
    }
  }

  lemma EndAfter(s: State, w: Which)
    requires s.locker != []
    ensures var op, c, rest := s.locker[0], Get(s, s.locker[0].camera), s.locker[1..];
            var t, ops := AfterLocker(s), Effect(c, op).1;
            && EndMode(t.locker, w, Get(t, w).mode) == EndMode(rest, w, EndMode(ops, w, Get(t, w).mode))
            && EndMotion(t.locker, w, Get(t, w).motion) == EndMotion(rest, w, EndMotion(ops, w, Get(t, w).motion))
  {
    hide Effect, EndMode, EndMotion;
    var op, c, rest, t := s.locker[0], Get(s, s.locker[0].camera), s.locker[1..], AfterLocker(s);
    EndConcat(Effect(c, op).1, rest, w, Get(t, w).mode, Get(t, w).motion);
  }

  lemma EndOfShort(ops: seq<Op>, w: Which, mode: Mode, on: bool)
    requires |ops| <= 2
    ensures EndMode(ops, w, mode) ==
            if |ops| == 2 && ops[1].SetMode? && ops[1].camera == w then ops[1].mode
            else if |ops| > 0 && ops[0].SetMode? && ops[0].camera == w then ops[0].mode
            else mode
    ensures EndMotion(ops, w, on) ==
            if |ops| == 2 && ops[1].SetMotion? && ops[1].camera == w then ops[1].on
            else if |ops| > 0 && ops[0].SetMotion? && ops[0].camera == w then ops[0].on
            else on
  {
    if |ops| == 2 {
      EndConcat([ops[0]], [ops[1]], w, mode, on);
      assert ops == [ops[0]] + [ops[1]];
    } else if |ops| == 1 {
      EndConcat([], ops, w, mode, on);
    }
  }

  /** An access and all it puts in front leave a motion flag with movie mode, if it was there
      with it, or take it back. */
  lemma EffectOnMotion(c: Cam, op: Op)
    ensures var (d, ops) := Effect(c, op);
            && (EndMotion(ops, op.camera, d.motion) ==> if op.SetMotion? then op.on else c.motion)
            && (d.motion && SetMotion(op.camera, false) !in ops ==>
                  EndMode(ops, op.camera, d.mode) == (if op.SetMode? then op.mode else c.mode) ||
                  EndMode(ops, op.camera, d.mode) == Movie)
  {
    var (d, ops) := Effect(c, op);
    EndOfShort(ops, op.camera, d.mode, d.motion);
  }

  lemma EffectElsewhere(c: Cam, op: Op, w: Which, mode: Mode, on: bool)
    requires op.camera != w
    ensures EndMode(Effect(c, op).1, w, mode) == mode && EndMotion(Effect(c, op).1, w, on) == on
  {
    var ops := Effect(c, op).1;
    EndOfShort(ops, w, mode, on);
  }

  lemma MotionAfterLocker(s: State, w: Which)
    requires s.locker != [] && MotionCovered(s, w)
    ensures MotionCovered(AfterLocker(s), w)
    ensures EndMotion(AfterLocker(s).locker, w, Get(AfterLocker(s), w).motion) ==>
            EndMotion(s.locker, w, Get(s, w).motion)
  {
    var op, rest, t := s.locker[0], s.locker[1..], AfterLocker(s);
    var c := Get(s, op.camera);
    EndAfter(s, w);
    MotionThenMovieAfter(c, op, rest, w);
    EndMonotone(rest, w);
    if op.camera == w {
      EffectOnMotion(c, op);
    } else {
      EffectElsewhere(c, op, w, Get(t, w).mode, Get(t, w).motion);
    }
    hide Effect;
  }

  lemma {:induction false} NoMotionOn(ops: seq<Op>, w: Which)
    requires SetMotion(w, true) !in ops
    ensures MotionThenMovie(ops, w)
  {
    if ops == [] {
    } else {
      NoMotionOn(ops[1..], w);
    }
  }

  lemma MovieProgramEnds(server: Which, w: Which, mode: Mode, on: bool)
    ensures EndMode(Program(Change(server, Movie)), w, mode) == Movie
    ensures EndMotion(Program(Change(server, Movie)), w, on) == (w == server)
    ensures MotionThenMovie(Program(Change(server, Movie)), w)
  {
    var a, b := SetMotion(One, server == One), SetMotion(Two, server == Two);
    var tests, writes := [UnlessMovie(One), UnlessMovie(Two)], [SetMode(One, Movie), SetMode(Two, Movie)];
    var ops := Program(Change(server, Movie));
    assert ops == [a, b] + (tests + writes);
    forall m: Mode, o: bool
      ensures EndMode(tests + writes, w, m) == Movie && EndMotion(tests + writes, w, o) == o
    {
      EndConcat(tests, writes, w, m, o);
      EndOfShort(tests, w, m, o);
      EndOfShort(writes, w, m, o);
    }
    EndOfShort([a, b], w, mode, on);
    EndConcat([a, b], tests + writes, w, mode, on);
    NoMotionOn(tests + writes, w);
    assert ops[1..] == [b] + (tests + writes);
    assert ops[1..][1..] == tests + writes;
    EndOfShort([b], w, Idle, on);
    EndConcat([b], tests + writes, w, Idle, on);
  }

  lemma OtherProgramEnds(section: Section, w: Which, mode: Mode, on: bool)
    requires section.Change? ==> section.mode == Idle
    ensures var here := section.Change? && section.server == w;
            && EndMode(Program(section), w, mode) == (if here then Idle else mode)
            && EndMotion(Program(section), w, on) == (on && !here)
            && (here ==> SetMotion(w, false) in Program(section))
    ensures MotionThenMovie(Program(section), w)
  {
    NoMotionOn(Program(section), w);
    match section
    case Change(server, _) =>
      var first, last := [SetMode(server, Idle)], [SetMotion(server, false), IfMovie(server)];
      assert Program(section) == first + last;
      assert Program(section)[1] == SetMotion(server, false);
      EndConcat(first, last, w, mode, on);
      EndOfShort(first, w, mode, on);
      EndOfShort(last, w, EndMode(first, w, mode), EndMotion(first, w, on));
    case Display(_) =>
      EndOfShort(Program(section), w, mode, on);
  }

  lemma MotionLock(s: State, section: Section)
    requires s.locker == [] && MotionCovered(s, One) && MotionCovered(s, Two) && OneMotion(s)
    ensures var t := Step(s, Lock(section)); MotionCovered(t, One) && MotionCovered(t, Two) && OneMotion(t)
  {
    if section.Change? && section.mode == Movie {
      MovieProgramEnds(section.server, One, s.one.mode, s.one.motion);
      MovieProgramEnds(section.server, Two, s.two.mode, s.two.motion);
    } else {
      OtherProgramEnds(section, One, s.one.mode, s.one.motion);
      OtherProgramEnds(section, Two, s.two.mode, s.two.motion);
    }
    hide Program;
  }

  lemma MotionStep(s: State, e: Event)
    requires MotionCovered(s, One) && MotionCovered(s, Two) && OneMotion(s)
    ensures var t := Step(s, e); MotionCovered(t, One) && MotionCovered(t, Two) && OneMotion(t)
  {
    match e
    case Click(_, _) =>
    case UserStep =>
    case Lock(section) =>
      if s.locker == [] {
        MotionLock(s, section);
      }
    case LockerStep =>
      if s.locker != [] {
        hide AfterLocker;
        MotionAfterLocker(s, One);
        MotionAfterLocker(s, Two);
      }
  }

  lemma {:induction false} MotionRun(evs: seq<Event>)
    ensures var s := Run(evs); MotionCovered(s, One) && MotionCovered(s, Two) && OneMotion(s)
  {
    if evs == [] {
    } else {
      MotionRun(evs[..|evs| - 1]);
      MotionStep(Run(evs[..|evs| - 1]), evs[|evs| - 1]);
    }
  }

  /** In every interleaving, whenever no notification is pending, at most one camera shows
      motion and none does in idle mode; and the cameras are coherent if and only if for neither
      the last write of its mode disagreed with the model's flag at that moment, with the flag
      unchanged since. */
  lemma QuietCoherentIff(evs: seq<Event>)
    requires Quiet(Run(evs))
    ensures var s := Run(evs);
            && !(s.one.motion && s.two.motion)
            && (s.one.motion ==> s.one.mode == Movie) && (s.two.motion ==> s.two.mode == Movie)
            && (C.Coherent(Views(s)) <==> !StaleWrite(evs, One) && !StaleWrite(evs, Two))
  {
    hide Run, StaleWrite;
    AttendedRun(evs, One);
    AttendedRun(evs, Two);
    MotionRun(evs);
  }

  // ---------------------------------------------------------------------------
  // Without interference
  // ---------------------------------------------------------------------------

  /** An access with all that it leads to when nobody disturbs it. */
  function Whole(c: C.Camera, op: Op): C.Camera {
    match op
    case SetMotion(_, on) => C.Settled(c.(motion := on))
    case SetMovie(_, on) => C.Settled(c.(movie := on))
    case TestOff(_) => if !c.movie && c.mode != Idle then C.Camera(false, false, Idle) else c
    case SetMode(_, mode) => c.(mode := mode)
    case UnlessMovie(_) => if c.movie then c else C.Settled(c.(movie := true))
    case IfMovie(_) => if c.movie then C.Settled(c.(movie := false)) else c
    case _ => C.Settled(c)
  }

  /** The camera when the thread with the lock has done the rest undisturbed. */
  function Finish(c: C.Camera, ops: seq<Op>, w: Which): C.Camera
    decreases ops
  {
    if ops == [] then c else Finish(if ops[0].camera == w then Whole(c, ops[0]) else c, ops[1..], w)
  }

  /** How many accesses the callback's tests lead to, themselves included. */
  function TestOffCost(c: C.Camera): nat {
    if !c.movie && c.mode != Idle then (if c.motion then 8 else 2) else 1
  }

  function TestOnCost(c: C.Camera): nat {
    if c.movie && c.mode != Movie then 2 else 1 + TestOffCost(c)
  }

  function Cost(c: C.Camera, op: Op): nat {
    match op
    case SetMotion(_, on) => 3 + TestOnCost(c.(motion := on))
    case SetMovie(_, on) => 3 + TestOnCost(c.(movie := on))
    case Mark(_) => 2 + TestOnCost(c)
    case Take(_) => 1 + TestOnCost(c)
    case TestOn(_) => TestOnCost(c)
    case TestOff(_) => TestOffCost(c)
    case SetMode(_, _) => 1
    case UnlessMovie(_) => if c.movie then 1 else 4 + TestOnCost(c.(movie := true))
    case IfMovie(_) => if c.movie then 4 + TestOnCost(c.(movie := false)) else 1
  }

  /** The accesses to the camera's flags still to come. */
  function Left(c: C.Camera, ops: seq<Op>, w: Which): nat
    decreases ops
  {
    if ops == [] then 0
    else if ops[0].camera == w then Cost(c, ops[0]) + Left(Whole(c, ops[0]), ops[1..], w)
    else Left(c, ops[1..], w)
  }

  lemma {:induction false} FinishConcat(c: C.Camera, a: seq<Op>, b: seq<Op>, w: Which)
    ensures Finish(c, a + b, w) == Finish(Finish(c, a, w), b, w)
    ensures Left(c, a + b, w) == Left(c, a, w) + Left(Finish(c, a, w), b, w)
    decreases a
  {
    hide Whole, Cost;
    if a == [] {
      assert a + b == b;
    } else {
      FinishConcat(if a[0].camera == w then Whole(c, a[0]) else c, a[1..], b, w);
      assert (a + b)[1..] == a[1..] + b;
    }
  }

  lemma FinishOne(c: C.Camera, op: Op, w: Which)
    ensures Finish(c, [op], w) == if op.camera == w then Whole(c, op) else c
    ensures Left(c, [op], w) == if op.camera == w then Cost(c, op) else 0
  {
    hide Whole, Cost;
  }

  lemma FinishTwo(c: C.Camera, a: Op, b: Op, w: Which)
    ensures Finish(c, [a, b], w) ==
            var d := if a.camera == w then Whole(c, a) else c;
            if b.camera == w then Whole(d, b) else d
    ensures Left(c, [a, b], w) ==
            var d := if a.camera == w then Whole(c, a) else c;
            (if a.camera == w then Cost(c, a) else 0) + (if b.camera == w then Cost(d, b) else 0)
  {
    hide Whole, Cost;
    FinishOne(c, a, w);
    FinishOne(if a.camera == w then Whole(c, a) else c, b, w);
    FinishConcat(c, [a], [b], w);
    assert [a, b] == [a] + [b];
  }

  /** One access does the first part of it. */
  lemma EffectFinishes(c: Cam, op: Op)
    requires op.Take? ==> c.changed
    ensures Finish(View(Effect(c, op).0), Effect(c, op).1, op.camera) == Whole(View(c), op)
    ensures Left(View(Effect(c, op).0), Effect(c, op).1, op.camera) == Cost(View(c), op) - 1
  {
    var (d, ops) := Effect(c, op);
    if |ops| == 2 {
      FinishTwo(View(d), ops[0], ops[1], op.camera);
    } else if |ops| == 1 {
      FinishOne(View(d), ops[0], op.camera);
    }
    hide Finish, Left;
  }

  lemma EffectSkips(c: Cam, op: Op, d: C.Camera, w: Which)
    requires op.camera != w
    ensures Finish(d, Effect(c, op).1, w) == d && Left(d, Effect(c, op).1, w) == 0
  {
    var ops := Effect(c, op).1;
    if |ops| == 2 {
      FinishTwo(d, ops[0], ops[1], w);
    } else if |ops| == 1 {
      FinishOne(d, ops[0], w);
    }
    hide Finish, Left;
  }

  /** The step is a `notifyObservers` that finds the mark taken by the other thread. */
  predicate Drops(s: State, e: Event) {
    || (e == UserStep && s.user.UserMarked? && !Get(s, s.user.camera).changed)
    || (e == LockerStep && s.locker != [] && s.locker[0].Take? && !Get(s, s.locker[0].camera).changed)
  }

  lemma FinishAfterLocker(s: State, w: Which)
    requires !Drops(s, LockerStep)
    ensures var t := AfterLocker(s);
            && Finish(View(Get(t, w)), t.locker, w) == Finish(View(Get(s, w)), s.locker, w)
            && Left(View(Get(t, w)), t.locker, w) ==
               Left(View(Get(s, w)), s.locker, w) - (if s.locker != [] && s.locker[0].camera == w then 1 else 0)
  {
    hide Finish, Left, Effect, Whole, Cost;
    if s.locker != [] {
      var op, rest, t := s.locker[0], s.locker[1..], AfterLocker(s);
      var c := Get(s, op.camera);
      FinishConcat(View(Get(t, w)), Effect(c, op).1, rest, w);
      FinishConcat(View(Get(s, w)), [op], rest, w);
      FinishOne(View(Get(s, w)), op, w);
      assert s.locker == [op] + rest;
      if op.camera == w {
        EffectFinishes(c, op);
      } else {
        EffectSkips(c, op, View(Get(t, w)), w);
      }
    }
  }

  /** The cameras after the atomic section. */
  function AfterSection(c: C.Cameras, section: Section): C.Cameras {
    match section
    case Change(server, mode) => C.AfterChange(c, if server == One then 1 else 2, mode)
    case Display(One) => C.Cameras(C.Settled(c.one), c.two)
    case Display(Two) => C.Cameras(c.one, C.Settled(c.two))
  }

  function Of(c: C.Cameras, w: Which): C.Camera {
    if w == One then c.one else c.two
  }

  lemma FinishMovieProgram(c: C.Camera, server: Which, w: Which)
    ensures Finish(c, Program(Change(server, Movie)), w) ==
            Whole(Whole(C.Settled(c.(motion := w == server)), UnlessMovie(w)), SetMode(w, Movie))
    ensures Left(c, Program(Change(server, Movie)), w) <= 19
  {
    hide Finish, Left, C.Settled;
    var a, b := SetMotion(One, server == One), SetMotion(Two, server == Two);
    var tests, writes := [UnlessMovie(One), UnlessMovie(Two)], [SetMode(One, Movie), SetMode(Two, Movie)];
    assert Program(Change(server, Movie)) == [a, b] + (tests + writes);
    var d := C.Settled(c.(motion := w == server));
    FinishConcat(c, [a, b], tests + writes, w);
    FinishTwo(c, a, b, w);
    FinishConcat(d, tests, writes, w);
    FinishTwo(d, UnlessMovie(One), UnlessMovie(Two), w);
    FinishTwo(Whole(d, UnlessMovie(w)), SetMode(One, Movie), SetMode(Two, Movie), w);
  }

  lemma FinishIdleProgram(c: C.Camera, server: Which, w: Which)
    ensures Finish(c, Program(Change(server, Idle)), w) == if w == server then C.SWITCHED_OFF else c
    ensures Left(c, Program(Change(server, Idle)), w) <= 19
  {
    var first, second, third := SetMode(server, Idle), SetMotion(server, false), IfMovie(server);
    assert Program(Change(server, Idle)) == [first, second] + [third];
    FinishTwo(c, first, second, w);
    FinishConcat(c, [first, second], [third], w);
    FinishOne(Finish(c, [first, second], w), third, w);
    hide Finish, Left;
  }

  lemma FinishDisplay(c: C.Camera, camera: Which, w: Which)
    ensures Finish(c, Program(Display(camera)), w) == if w == camera then C.Settled(c) else c
    ensures Left(c, Program(Display(camera)), w) <= 19
  {
    FinishTwo(c, Mark(camera), Mark(camera), w);
    hide Finish, Left;
  }

  /** A section that nobody disturbs has the effect of the atomic one. */
  lemma FinishProgram(c: C.Cameras, section: Section, w: Which)
    ensures Finish(Of(c, w), Program(section), w) == Of(AfterSection(c, section), w)
    ensures Left(Of(c, w), Program(section), w) <= 19
  {
    hide Finish, Left, Cost, Program;
    match section
    case Change(server, Movie) => FinishMovieProgram(Of(c, w), server, w);
    case Change(server, Idle) => FinishIdleProgram(Of(c, w), server, w);
    case Display(camera) => FinishDisplay(Of(c, w), camera, w);
  }

  /** The next n accesses with the lock and nothing in between. */
  function Alone(s: State, n: nat): State
    decreases n
  {
    if n == 0 then s else Alone(AfterLocker(s), n - 1)
  }

  /** Every mark that is about to be taken is there. */
  predicate TakesReady(s: State) {
    && (forall i :: 0 < i < |s.locker| ==> !s.locker[i].Take?)
    && (s.locker != [] && s.locker[0].Take? ==> Get(s, s.locker[0].camera).changed)
  }

  lemma TakesReadyAfter(s: State)
    requires TakesReady(s)
    ensures TakesReady(AfterLocker(s))
  {
  }

  /** With enough accesses everything gets done. */
  lemma {:induction false} FinishAlone(s: State, n: nat)
    requires TakesReady(s)
    requires Left(View(s.one), s.locker, One) + Left(View(s.two), s.locker, Two) <= n
    ensures var t := Alone(s, n);
            && t.locker == [] && t.user == s.user
            && View(t.one) == Finish(View(s.one), s.locker, One)
            && View(t.two) == Finish(View(s.two), s.locker, Two)
    decreases n
  {
    if s.locker == [] {
      AloneStops(s, n);
    } else {
      TakesReadyAfter(s);
      FinishAfterLocker(s, One);
      FinishAfterLocker(s, Two);
      hide TakesReady, Finish, Left, Effect;
      FinishAlone(AfterLocker(s), n - 1);
    }
  }

  lemma {:induction false} AloneStops(s: State, n: nat)
    requires s.locker == []
    ensures Alone(s, n) == s
    decreases n
  {
    if n == 0 {
    } else {
      AloneStops(s, n - 1);
    }
  }

  /** A section that nobody disturbs has come to its end within 38 accesses, and the cameras are
      those of the atomic one. */
  lemma SectionAlone(s: State, section: Section)
    requires s.locker == []
    ensures var t := Alone(Step(s, Lock(section)), 38);
            t.locker == [] && t.user == s.user && Views(t) == AfterSection(Views(s), section)
  {
    var s0 := Step(s, Lock(section));
    assert TakesReady(s0);
    FinishProgram(Views(s), section, One);
    FinishProgram(Views(s), section, Two);
    hide Alone, Program, AfterSection, Finish, Left, TakesReady;
    FinishAlone(s0, 38);
  }

  lemma AloneOnce(s: State, n: nat, op: Op, rest: seq<Op>)
    requires n > 0 && s.locker == [op] + rest
    ensures var (c, ops) := Effect(Get(s, op.camera), op);
            Alone(s, n) == Alone(Put(s, op.camera, c).(locker := ops + rest), n - 1)
  {
    hide Effect;
    assert s.locker[1..] == rest;
  }

  lemma TestsAlone(s: State, w: Which, rest: seq<Op>, n: nat)
    requires s.locker == [TestOn(w)] + rest && n >= TestOnCost(View(Get(s, w)))
    requires !Get(s, w).motion || Get(s, w).movie || Get(s, w).mode == Idle
    ensures var c, k := Get(s, w), TestOnCost(View(Get(s, w)));
            && k <= 3
            && Alone(s, n) ==
               Alone(Put(s, w, Cam(c.movie, c.motion, c.changed, C.Settled(View(c)).mode)).(locker := rest), n - k)
  {
    hide Alone;
    var c := Get(s, w);
    AloneOnce(s, n, TestOn(w), rest);
    assert [] + rest == rest;
    if c.movie && c.mode != Movie {
      AloneOnce(s.(locker := [SetMode(w, Movie)] + rest), n - 1, SetMode(w, Movie), rest);
    } else {
      AloneOnce(s.(locker := [TestOff(w)] + rest), n - 1, TestOff(w), rest);
      if !c.movie && c.mode != Idle {
        AloneOnce(s.(locker := [SetMode(w, Idle)] + rest), n - 2, SetMode(w, Idle), rest);
      }
    }
  }

  /** An idle request writes idle mode first, and the notification of the motion flag puts movie
      mode back, because the movie flag is still on: a server may see the mode go to and fro. */
  lemma IdleRequestWavers(s: State, server: Which)
    requires s.locker == [] && Get(s, server).movie
    ensures var s0, c := Step(s, Lock(Change(server, Idle))), Get(s, server);
            && Get(Alone(s0, 1), server) == c.(mode := Idle)
            && Get(Alone(s0, 6), server) == c.(mode := Movie, motion := false, changed := false)
  {
    hide Alone;
    var s0, c := Step(s, Lock(Change(server, Idle))), Get(s, server);
    var rest, last := [SetMotion(server, false), IfMovie(server)], [IfMovie(server)];
    var s1 := Put(s, server, c.(mode := Idle)).(locker := rest);
    var s2 := Put(s, server, c.(mode := Idle, motion := false)).(locker := [Mark(server)] + last);
    var s3 := Put(s, server, c.(mode := Idle, motion := false, changed := true)).(locker := [Take(server)] + last);
    var s4 := Put(s, server, c.(mode := Idle, motion := false, changed := false)).(locker := [TestOn(server)] + last);
    assert s0.locker == [SetMode(server, Idle)] + rest && [] + rest == rest;
    assert rest == [SetMotion(server, false)] + last && [] + last == last;
    AloneOnce(s0, 1, SetMode(server, Idle), rest);
    AloneOnce(s0, 6, SetMode(server, Idle), rest);
    AloneOnce(s1, 5, SetMotion(server, false), last);
    AloneOnce(s2, 4, Mark(server), last);
    AloneOnce(s3, 3, Take(server), last);
    TestsAlone(s4, server, last, 2);
    AloneZero(s1);
    AloneZero(Put(s, server, c.(mode := Movie, motion := false, changed := false)).(locker := last));
  }

  lemma AloneZero(s: State)
    ensures Alone(s, 0) == s
  {
  }

  /** The nested setter of a callback that switches off, up to its own callback. */
  lemma NestedSetterAlone(s: State, w: Which, n: nat)
    requires s.locker == [TestOn(w)] && n >= 5
    requires var c := Get(s, w); c.motion && !c.movie && c.mode != Idle
    ensures var after := Put(s, w, Get(s, w).(motion := false, changed := false));
            Alone(s, n) == Alone(after.(locker := [TestOn(w)] + [SetMode(w, Idle)]), n - 5)
  {
    hide Alone;
    var write, c := [SetMode(w, Idle)], Get(s, w);
    var s1 := Put(s, w, c.(motion := false)).(locker := [Mark(w)] + write);
    var s2 := Put(s, w, c.(motion := false, changed := true)).(locker := [Take(w)] + write);
    assert [] + write == write && [TestOn(w)] + [] == [TestOn(w)];
    assert [SetMotion(w, false), SetMode(w, Idle)] + [] == [SetMotion(w, false)] + write;
    AloneOnce(s, n, TestOn(w), []);
    AloneOnce(s.(locker := [TestOff(w)] + []), n - 1, TestOff(w), []);
    AloneOnce(s.(locker := [SetMotion(w, false)] + write), n - 2, SetMotion(w, false), write);
    AloneOnce(s1, n - 3, Mark(w), write);
    AloneOnce(s2, n - 4, Take(w), write);
  }

  /** Switching off with the nested setter takes nine accesses. */
  lemma SwitchOffAlone(s: State, w: Which)
    requires s.locker == [TestOn(w)]
    requires var c := Get(s, w); c.motion && !c.movie && c.mode != Idle
    ensures Alone(s, 9) == Put(s, w, Cam(false, false, false, Idle)).(locker := [])
  {
    hide Alone;
    var write := [SetMode(w, Idle)];
    var nested := Put(s, w, Get(s, w).(motion := false, changed := false)).(locker := [TestOn(w)] + write);
    var end := Put(s, w, Cam(false, false, false, Idle)).(locker := write);
    NestedSetterAlone(s, w, 9);
    TestsAlone(nested, w, write, 4);
    hide Effect;
    var none: seq<Op> := [];
    assert write == write + none && none + none == none;
    AloneOnce(end, 1, SetMode(w, Idle), []);
    assert Effect(Get(end, w), SetMode(w, Idle)) == (Get(end, w), []) by { SetModeEffect(Get(end, w), w); }
    AloneZero(end.(locker := []));
  }

  lemma SetModeEffect(c: Cam, w: Which)
    requires c.mode == Idle
    ensures Effect(c, SetMode(w, Idle)) == (c, [])
  {
  }

  /** The user's callback is the one that the thread with the lock runs access by access, when
      nobody disturbs it: the camera, the mark and everything else are the same after it. */
  lemma UserCallbackAlone(s: State, w: Which)
    requires s.locker == [TestOn(w)]
    ensures Alone(s, 9) == Put(s, w, UserCallback(Get(s, w))).(locker := [])
  {
    hide Alone, Effect;
    var c := Get(s, w);
    if c.motion && !c.movie && c.mode != Idle {
      SwitchOffAlone(s, w);
    } else {
      assert [TestOn(w)] + [] == [TestOn(w)];
      TestsAlone(s, w, [], 9);
      AloneStops(Put(s, w, UserCallback(c)).(locker := []), 9 - TestOnCost(View(c)));
    }
  }

  // ---------------------------------------------------------------------------
  // Without dropped notifications
  // ---------------------------------------------------------------------------

  predicate DropFree(evs: seq<Event>) {
    forall i :: 0 <= i < |evs| ==> !Drops(Run(evs[..i]), evs[i])
  }

  predicate Agrees(c: C.Camera) {
    c.movie == (c.mode == Movie)
  }

  predicate UserAt(u: UserPc, w: Which) {
    !u.UserIdle? && u.camera == w
  }

  /** Unless the user's thread is still to call for the camera, the thread with the lock will
      leave it in agreement. */
  predicate Accounted(s: State, w: Which) {
    UserAt(s.user, w) || Agrees(Finish(View(Get(s, w)), s.locker, w))
  }

  lemma AccountedStep(s: State, e: Event, w: Which)
    requires Accounted(s, w) && !Drops(s, e)
    ensures Accounted(Step(s, e), w)
  {
    match e
    case Click(_, _) =>
    case UserStep =>
    case Lock(section) =>
      if s.locker == [] && !UserAt(s.user, w) {
        assert Views(s) == C.Cameras(View(s.one), View(s.two));
        FinishProgram(Views(s), section, w);
        AgreesAfterSection(Views(s), section, w);
        hide Finish, Program, AfterSection;
      }
    case LockerStep =>
      FinishAfterLocker(s, w);
      hide Finish, Effect;
  }

  lemma AgreesAfterSection(c: C.Cameras, section: Section, w: Which)
    requires Agrees(Of(c, w))
    ensures Agrees(Of(AfterSection(c, section), w))
  {
  }

  lemma {:induction false} AccountedRun(evs: seq<Event>, w: Which)
    requires DropFree(evs)
    ensures Accounted(Run(evs), w)
  {
    if evs == [] {
    } else {
      var n := |evs| - 1;
      assert forall i :: 0 <= i < n ==> evs[..n][..i] == evs[..i];
      hide Accounted, Drops, Step;
      AccountedRun(evs[..n], w);
      AccountedStep(Run(evs[..n]), evs[n], w);
    }
  }

  /** If no notification is dropped, the cameras are coherent whenever none is pending, however
      clicks, mode changes and displays interleave; so incoherent cameras always have a
      swallowed notification behind them. */
  lemma QuietCoherent(evs: seq<Event>)
    requires Quiet(Run(evs)) && DropFree(evs)
    ensures C.Coherent(Views(Run(evs)))
  {
    hide Run, DropFree;
    AccountedRun(evs, One);
    AccountedRun(evs, Two);
    MotionRun(evs);
  }

  // ---------------------------------------------------------------------------
  // Incoherent cameras are reachable
  // ---------------------------------------------------------------------------

  function RunFrom(s: State, evs: seq<Event>): State
    decreases evs
  {
    if evs == [] then s else RunFrom(Step(s, evs[0]), evs[1..])
  }

  lemma {:induction false} RunFromRun(a: seq<Event>, b: seq<Event>)
    ensures Run(a + b) == RunFrom(Run(a), b)
    decreases b
  {
    if b == [] {
      assert a + b == a;
    } else {
      assert (a + [b[0]])[..|a|] == a;
      RunFromRun(a + [b[0]], b[1..]);
      assert a + [b[0]] + b[1..] == a + b;
    }
  }

  lemma {:induction false} RunFromConcat(s: State, a: seq<Event>, b: seq<Event>)
    ensures RunFrom(s, a + b) == RunFrom(RunFrom(s, a), b)
    decreases a
  {
    hide Step;
    if a == [] {
      assert a + b == b;
    } else {
      assert (a + b)[1..] == a[1..] + b;
      RunFromConcat(Step(s, a[0]), a[1..], b);
    }
  }

  lemma OneStep(s: State, a: Event)
    ensures RunFrom(s, [a]) == Step(s, a)
  {
    hide Step;
    assert [a][1..] == [];
  }

  lemma TwoSteps(s: State, a: Event, b: Event)
    ensures RunFrom(s, [a, b]) == Step(Step(s, a), b)
  {
    hide Step;
    OneStep(Step(s, a), b);
    assert [a, b][1..] == [b];
  }

  lemma FourSteps(s: State, a: Event, b: Event, c: Event, d: Event)
    ensures RunFrom(s, [a, b, c, d]) == Step(Step(Step(Step(s, a), b), c), d)
  {
    hide Step;
    TwoSteps(s, a, b);
    TwoSteps(Step(Step(s, a), b), c, d);
    RunFromConcat(s, [a, b], [c, d]);
    assert [a, b, c, d] == [a, b] + [c, d];
  }

  /** The next access of the thread with the lock. */
  lemma Access(s: State, op: Op, rest: seq<Op>)
    requires s.locker == [op] + rest
    ensures var (c, ops) := Effect(Get(s, op.camera), op);
            Step(s, LockerStep) == Put(s, op.camera, c).(locker := ops + rest)
  {
    hide Effect;
  }

  const CALLBACK := [LockerStep, LockerStep, LockerStep, LockerStep]

  lemma MarkAndTake(s: State, w: Which, rest: seq<Op>)
    requires s.locker == [Mark(w)] + rest
    ensures Step(Step(s, LockerStep), LockerStep) ==
            Put(s, w, Get(s, w).(changed := false)).(locker := [TestOn(w)] + rest)
  {
    hide Step;
    Access(s, Mark(w), rest);
    Access(Put(s, w, Get(s, w).(changed := true)).(locker := [Take(w)] + rest), Take(w), rest);
  }

  lemma BothTests(s: State, w: Which, rest: seq<Op>)
    requires s.locker == [TestOn(w)] + rest
    requires var c := Get(s, w); c.movie || c.mode != Movie
    ensures var c := Get(s, w);
            Step(Step(s, LockerStep), LockerStep) ==
            Put(s, w, c.(mode := if c.movie then Movie else c.mode)).(locker := rest)
  {
    hide Step;
    var c := Get(s, w);
    var op := if c.movie && c.mode != Movie then SetMode(w, Movie) else TestOff(w);
    Access(s, TestOn(w), rest);
    Access(s.(locker := [op] + rest), op, rest);
    assert [] + rest == rest;
  }

  /** A notification with its callback, unless that has something to switch off. */
  lemma Settles(s: State, w: Which, rest: seq<Op>)
    requires s.locker == [Mark(w)] + rest
    requires var c := Get(s, w); c.movie || c.mode != Movie
    ensures var c := Get(s, w);
            RunFrom(s, CALLBACK) ==
            Put(s, w, c.(changed := false, mode := if c.movie then Movie else c.mode)).(locker := rest)
  {
    hide Step, RunFrom;
    FourSteps(s, LockerStep, LockerStep, LockerStep, LockerStep);
    MarkAndTake(s, w, rest);
    BothTests(Put(s, w, Get(s, w).(changed := false)).(locker := [TestOn(w)] + rest), w, rest);
  }

  /** Camera one's reader has reported motion, and has just written the movie flag. */
  const SWITCHING_ON: seq<Event> :=
    [Lock(Change(One, Movie)), LockerStep] + CALLBACK + [LockerStep] + CALLBACK + [LockerStep, LockerStep]

  /** The rest of that mode change behind camera one's callback. */
  const SWITCHED_ON: seq<Event> := [LockerStep, LockerStep] + CALLBACK + [LockerStep, LockerStep]

  /** The user clicks "Idle" between the write and its mark, and the two notifications become
      one, whose callback finds nothing to do: the mode is still idle. */
  const IDLE_CLICK: seq<Event> := [Click(One, false), UserStep] + CALLBACK + [UserStep]

  const BREAK_IN_CHANGE := SWITCHING_ON + IDLE_CLICK + SWITCHED_ON

  /** The mode change runs on undisturbed; a frame of camera one is displayed, and the user clicks
      "Idle" before its second notification, which swallows the user's. */
  const IDLE_WHILE_DISPLAYED: seq<Event> :=
    [Lock(Display(One))] + CALLBACK + [Click(One, false), UserStep, LockerStep, LockerStep]

  /** The callback sets out to switch off and clears the motion flag first; before the
      notification of that the user clicks "Movie", and again two notifications become one. */
  const MOVIE_CLICK: seq<Event> :=
    [UserStep, LockerStep, LockerStep, LockerStep] + ([Click(One, true), UserStep] + CALLBACK + [UserStep, LockerStep])

  const BREAK_IN_DISPLAY := SWITCHING_ON + CALLBACK + SWITCHED_ON + IDLE_WHILE_DISPLAYED + MOVIE_CLICK

  const TESTS := [UnlessMovie(Two), SetMode(One, Movie), SetMode(Two, Movie)]

  lemma SwitchedOn(one: Cam)
    ensures RunFrom(State(one, IDLE_CAM, UserIdle, TESTS), SWITCHED_ON) ==
            State(one.(mode := Movie), Cam(true, false, false, Movie), UserIdle, [])
  {
    hide RunFrom;
    var s := State(one, IDLE_CAM, UserIdle, TESTS);
    RunFromConcat(s, [LockerStep, LockerStep] + CALLBACK, [LockerStep, LockerStep]);
    RunFromConcat(s, [LockerStep, LockerStep], CALLBACK);
    TwoSteps(s, LockerStep, LockerStep);
    var writes := [SetMode(One, Movie), SetMode(Two, Movie)];
    var s1 := State(one, IDLE_CAM.(movie := true), UserIdle, [Mark(Two)] + writes);
    assert RunFrom(s, [LockerStep, LockerStep]) == s1;
    Settles(s1, Two, writes);
    TwoSteps(RunFrom(s1, CALLBACK), LockerStep, LockerStep);
  }

  lemma SwitchingOn()
    ensures RunFrom(INITIAL, SWITCHING_ON) ==
            State(Cam(true, true, false, Idle), IDLE_CAM, UserIdle, [Mark(One)] + TESTS)
  {
    hide RunFrom;
    var start := [Lock(Change(One, Movie)), LockerStep];
    var moving := IDLE_CAM.(motion := true);
    var rest := [SetMotion(Two, false), UnlessMovie(One)] + TESTS;
    var s1 := State(moving, IDLE_CAM, UserIdle, [Mark(One)] + rest);
    var s2 := State(moving, IDLE_CAM, UserIdle, [Mark(Two)] + ([UnlessMovie(One)] + TESTS));
    RunFromConcat(INITIAL, start + CALLBACK + [LockerStep] + CALLBACK, [LockerStep, LockerStep]);
    RunFromConcat(INITIAL, start + CALLBACK + [LockerStep], CALLBACK);
    RunFromConcat(INITIAL, start + CALLBACK, [LockerStep]);
    RunFromConcat(INITIAL, start, CALLBACK);
    FirstSteps(s1);
    Settles(s1, One, rest);
    OneStep(RunFrom(s1, CALLBACK), LockerStep);
    Access(RunFrom(s1, CALLBACK), SetMotion(Two, false), [UnlessMovie(One)] + TESTS);
    Settles(s2, Two, [UnlessMovie(One)] + TESTS);
    LastSteps(RunFrom(s2, CALLBACK));
  }

  lemma FirstSteps(s: State)
    requires s == State(IDLE_CAM.(motion := true), IDLE_CAM, UserIdle,
                        [Mark(One)] + ([SetMotion(Two, false), UnlessMovie(One)] + TESTS))
    ensures RunFrom(INITIAL, [Lock(Change(One, Movie)), LockerStep]) == s
  {
    TwoSteps(INITIAL, Lock(Change(One, Movie)), LockerStep);
  }

  lemma LastSteps(s: State)
    requires s.locker == [UnlessMovie(One)] + TESTS && !s.one.movie
    ensures RunFrom(s, [LockerStep, LockerStep]) == s.(one := s.one.(movie := true), locker := [Mark(One)] + TESTS)
  {
    TwoSteps(s, LockerStep, LockerStep);
    Access(s, UnlessMovie(One), TESTS);
    Access(s.(locker := [SetMovie(One, true)] + TESTS), SetMovie(One, true), TESTS);
  }

  lemma IdleClick()
    ensures RunFrom(State(Cam(true, true, false, Idle), IDLE_CAM, UserIdle, [Mark(One)] + TESTS), IDLE_CLICK) ==
            State(Cam(false, true, false, Idle), IDLE_CAM, UserIdle, TESTS)
  {
    hide RunFrom;
    var s := State(Cam(true, true, false, Idle), IDLE_CAM, UserIdle, [Mark(One)] + TESTS);
    var s1 := State(Cam(false, true, true, Idle), IDLE_CAM, UserMarked(One), [Mark(One)] + TESTS);
    RunFromConcat(s, [Click(One, false), UserStep] + CALLBACK, [UserStep]);
    RunFromConcat(s, [Click(One, false), UserStep], CALLBACK);
    TwoSteps(s, Click(One, false), UserStep);
    Settles(s1, One, TESTS);
    OneStep(RunFrom(s1, CALLBACK), UserStep);
  }

  /** One click within a mode change: camera one ends up in movie mode with motion, its model and
      with it the user's button with movie off, and nothing is pending. */
  lemma ClickInChangeBreaks()
    ensures var s := Run(BREAK_IN_CHANGE);
            Quiet(s) && !C.Coherent(Views(s)) && s.one == Cam(false, true, false, Movie)
  {
    hide RunFrom, Run;
    StartsInitial();
    assert [] + BREAK_IN_CHANGE == BREAK_IN_CHANGE;
    RunFromRun([], BREAK_IN_CHANGE);
    RunFromConcat(INITIAL, SWITCHING_ON + IDLE_CLICK, SWITCHED_ON);
    RunFromConcat(INITIAL, SWITCHING_ON, IDLE_CLICK);
    SwitchingOn();
    IdleClick();
    SwitchedOn(Cam(false, true, false, Idle));
  }

  lemma StartsInitial()
    ensures Run([]) == INITIAL
  {
  }

  lemma IdleWhileDisplayed(two: Cam)
    ensures RunFrom(State(Cam(true, true, false, Movie), two, UserIdle, []), IDLE_WHILE_DISPLAYED) ==
            State(Cam(false, true, false, Movie), two, UserMarked(One), [TestOn(One)])
  {
    hide RunFrom;
    var s := State(Cam(true, true, false, Movie), two, UserIdle, []);
    var s1 := s.(locker := [Mark(One)] + [Mark(One)]);
    var s2 := s.(locker := [Mark(One)]);
    var click := [Click(One, false), UserStep, LockerStep, LockerStep];
    RunFromConcat(s, [Lock(Display(One))] + CALLBACK, click);
    RunFromConcat(s, [Lock(Display(One))], CALLBACK);
    OneStep(s, Lock(Display(One)));
    assert s1.locker == Program(Display(One));
    Settles(s1, One, [Mark(One)]);
    FourSteps(s2, Click(One, false), UserStep, LockerStep, LockerStep);
    Access(State(Cam(false, true, true, Movie), two, UserMarked(One), [Mark(One)]), Mark(One), []);
    Access(State(Cam(false, true, true, Movie), two, UserMarked(One), [Take(One)]), Take(One), []);
  }

  lemma SwitchingOff(s: State)
    requires s.one == Cam(false, true, false, Movie) && s.user == UserMarked(One) && s.locker == [TestOn(One)]
    ensures RunFrom(s, [UserStep, LockerStep, LockerStep, LockerStep]) ==
            State(Cam(false, false, false, Movie), s.two, UserIdle, [Mark(One)] + [SetMode(One, Idle)])
  {
    var idle := s.(user := UserIdle);
    FourSteps(s, UserStep, LockerStep, LockerStep, LockerStep);
    hide RunFrom;
    Access(idle, TestOn(One), []);
    Access(idle.(locker := [TestOff(One)]), TestOff(One), []);
    Access(idle.(locker := [SetMotion(One, false), SetMode(One, Idle)]), SetMotion(One, false), [SetMode(One, Idle)]);
  }

  lemma MovieClick(two: Cam)
    ensures RunFrom(State(Cam(false, true, false, Movie), two, UserMarked(One), [TestOn(One)]), MOVIE_CLICK) ==
            State(Cam(true, false, false, Idle), two, UserIdle, [])
  {
    hide RunFrom;
    var s := State(Cam(false, true, false, Movie), two, UserMarked(One), [TestOn(One)]);
    var s1 := State(Cam(false, false, false, Movie), two, UserIdle, [Mark(One)] + [SetMode(One, Idle)]);
    var s2 := State(Cam(true, false, true, Movie), two, UserMarked(One), [Mark(One)] + [SetMode(One, Idle)]);
    RunFromConcat(s, [UserStep, LockerStep, LockerStep, LockerStep],
                  [Click(One, true), UserStep] + CALLBACK + [UserStep, LockerStep]);
    SwitchingOff(s);
    RunFromConcat(s1, [Click(One, true), UserStep] + CALLBACK, [UserStep, LockerStep]);
    RunFromConcat(s1, [Click(One, true), UserStep], CALLBACK);
    TwoSteps(s1, Click(One, true), UserStep);
    Settles(s2, One, [SetMode(One, Idle)]);
    TwoSteps(RunFrom(s2, CALLBACK), UserStep, LockerStep);
  }

  /** Two clicks within the display of a frame: camera one ends up in idle mode, its model with
      movie on, and nothing is pending. */
  lemma ClicksInDisplayBreak()
    ensures var s := Run(BREAK_IN_DISPLAY);
            Quiet(s) && !C.Coherent(Views(s)) && s.one == Cam(true, false, false, Idle)
  {
    hide RunFrom, Run;
    StartsInitial();
    RunFromRun([], BREAK_IN_DISPLAY);
    assert [] + BREAK_IN_DISPLAY == BREAK_IN_DISPLAY;
    RunFromConcat(INITIAL, SWITCHING_ON + CALLBACK + SWITCHED_ON + IDLE_WHILE_DISPLAYED, MOVIE_CLICK);
    RunFromConcat(INITIAL, SWITCHING_ON + CALLBACK + SWITCHED_ON, IDLE_WHILE_DISPLAYED);
    RunFromConcat(INITIAL, SWITCHING_ON + CALLBACK, SWITCHED_ON);
    RunFromConcat(INITIAL, SWITCHING_ON, CALLBACK);
    SwitchingOn();
    Settles(RunFrom(INITIAL, SWITCHING_ON), One, TESTS);
    SwitchedOn(Cam(true, true, false, Movie));
    IdleWhileDisplayed(Cam(true, false, false, Movie));
    MovieClick(Cam(true, false, false, Movie));
  }
}
