/** The whole client between two servers: two readers make the calls that their streams stand
    for, one at a time and in any interleaving with the clock, the user and the updater
    (`Client/GUI/Window.java` starts these threads on one monitor). A click counts as one step. */
module Pipeline {
  import opened Words
  import opened Modes
  import FB = FrameBuffer
  import P = Playout
  import C = Cascades
  import R = ServerReader
  import T = StreamTheorems
  import W = Wire
  import M = MotionPath

  /** The monitor's playout and cameras, and for each reader the calls of its session and how
      many of them it has made. */
  datatype Client = Client(playout: P.State, cameras: C.Cameras, calls1: seq<R.MonitorCall>, next1: nat,
                           calls2: seq<R.MonitorCall>, next2: nat)

  /** `Reader` is the next call of a reader's session, `received` the client's time of the frame;
      `Update` lets the updater run on until it waits again or has shown a frame. */
  datatype Event =
    | Reader(server: int, received: int)
    | UserMovie(camera: int, on: bool)
    | UserSettings(sync: bool, auto: bool)
    | Pass(ms: nat)
    | Update

  const IDLE_CAMERA := C.Camera(false, false, Idle)

  /** What a reader does with the stream of a server that has carried out the history. */
  function SessionOf(history: seq<M.ServerEvent>): seq<R.MonitorCall> {
    R.Session(W.EncodeAll(M.FramesSent(history)), false)
  }

  function Initial(clock: int, history1: seq<M.ServerEvent>, history2: seq<M.ServerEvent>): Client {
    Client(P.Initial(clock), C.Cameras(IDLE_CAMERA, IDLE_CAMERA), SessionOf(history1), 0, SessionOf(history2), 0)
  }

  function Calls(s: Client, server: int): seq<R.MonitorCall> {
    if server == 1 then s.calls1 else s.calls2
  }

  function Next(s: Client, server: int): nat {
    if server == 1 then s.next1 else s.next2
  }

  /** The reader's next call, if there is one. */
  function NextCall(s: Client, server: int): seq<R.MonitorCall> {
    if (server == 1 || server == 2) && Next(s, server) < |Calls(s, server)|
    then [Calls(s, server)[Next(s, server)]] else []
  }

  /** What the step means to the playout. */
  function PlayoutEvent(s: Client, e: Event): P.Event {
    match e
    case Reader(server, received) =>
      var call := NextCall(s, server);
      if call != [] && call[0].AddFrame?
      then P.Arrive(FB.Frame(call[0].frame.timestamp, received, server, call[0].frame.image))
      else P.Tick(0)
    case UserMovie(_, _) => P.Tick(0)
    case UserSettings(sync, auto) => P.Settings(sync, auto)
    case Pass(ms) => P.Tick(ms)
    case Update => P.Resume
  }

  /** And to the cameras; a displayed frame notifies its camera's model. */
  function CamerasAfter(s: Client, e: Event): C.Cameras {
    match e
    case Reader(server, _) =>
      var call := NextCall(s, server);
      if call != [] && call[0].ChangeMode? then C.AfterChange(s.cameras, server, call[0].mode) else s.cameras
    case UserMovie(camera, on) => C.AfterCamera(s.cameras, C.Toggle(camera, on))
    case Update =>
      var shown := P.AfterResume(s.playout).shown;
      if |shown| <= |s.playout.shown| then s.cameras
      else if shown[|shown| - 1].frame.server == 1 then C.Cameras(C.Settled(s.cameras.one), s.cameras.two)
      else if shown[|shown| - 1].frame.server == 2 then C.Cameras(s.cameras.one, C.Settled(s.cameras.two))
      else s.cameras
    case _ => s.cameras
  }

  function Step(s: Client, e: Event): Client {
    s.(playout := P.Step(s.playout, PlayoutEvent(s, e)), cameras := CamerasAfter(s, e),
       next1 := s.next1 + (if e.Reader? && e.server == 1 then |NextCall(s, 1)| else 0),
       next2 := s.next2 + (if e.Reader? && e.server == 2 then |NextCall(s, 2)| else 0))
  }

  function Run(s: Client, evs: seq<Event>): Client {
    if evs == [] then s else Step(Run(s, evs[..|evs| - 1]), evs[|evs| - 1])
  }

  /** What each step does to the playout, a reader's with the next call of its session. */
  lemma StepEffects(s: Client, e: Event)
    ensures var t := Step(s, e);
            && (e.Pass? ==> t.playout == s.playout.(clock := s.playout.clock + e.ms))
            && (e.UserSettings? ==> t.playout == s.playout.(sync := e.sync, auto := e.auto))
            && (e.UserMovie? ==> t.playout == s.playout)
            && (e.Update? ==> t.playout == P.AfterResume(s.playout))
            && (e.Reader? && (e.server == 1 || e.server == 2) && Next(s, e.server) < |Calls(s, e.server)| ==>
                  var call := Calls(s, e.server)[Next(s, e.server)];
                  && Next(t, e.server) == Next(s, e.server) + 1
                  && P.AddedFrames(t.playout) == P.AddedFrames(s.playout) +
                     (if call.AddFrame?
                      then [FB.Frame(call.frame.timestamp, e.received, e.server, call.frame.image)] else []))
  {
    hide P.AfterResume, FB.Insert, CamerasAfter;
  }

  // ---------------------------------------------------------------------------
  // Frames
  // ---------------------------------------------------------------------------

  /** What a frame shows, whoever holds it: the time and the octets. */
  datatype Picture = Picture(sent: int, image: seq<Byte>)

  function Octets(image: seq<SByte>): (r: seq<Byte>)
    ensures |r| == |image|
  {
    seq(|image|, i requires 0 <= i < |image| => image[i] as int % 0x100)
  }

  function PicturesOfFrames(fs: seq<FB.Frame>): (r: seq<Picture>)
    ensures |r| == |fs|
  {
    seq(|fs|, i requires 0 <= i < |fs| => Picture(fs[i].sent, Octets(fs[i].image)))
  }

  function PicturesOfDeliveries(ds: seq<R.Delivery>): (r: seq<Picture>)
    ensures |r| == |ds|
  {
    seq(|ds|, i requires 0 <= i < |ds| => Picture(ds[i].timestamp, Octets(ds[i].image)))
  }

  /** The pictures that a server has captured, in order. */
  function Captured(history: seq<M.ServerEvent>): seq<Picture> {
    if history == [] then []
    else
      var e := history[|history| - 1];
      Captured(history[..|history| - 1]) + (if e.Capture? then [Picture(e.time, e.image)] else [])
  }

  /** They are what its encoder has sent. */
  lemma {:induction false} CapturedIsSent(history: seq<M.ServerEvent>)
    ensures var cs := M.FramesSent(history);
            && |Captured(history)| == |cs|
            && forall i :: 0 <= i < |cs| ==> Captured(history)[i] == Picture(cs[i].time, cs[i].image)
  {
    hide M.OpsOf;
    if history == [] {
    } else {
      CapturedIsSent(history[..|history| - 1]);
    }
  }

  /** The pictures of one camera that have been shown. */
  function ShownOf(s: Client, camera: int): seq<Picture> {
    PicturesOfFrames(P.Of(P.ShownFrames(s.playout), camera))
  }

  function AddedOf(s: Client, camera: int): seq<Picture> {
    PicturesOfFrames(P.Of(P.AddedFrames(s.playout), camera))
  }

  /** The pictures that a reader has handed over. */
  function HandedOver(s: Client, server: int): seq<Picture>
    requires Next(s, server) <= |Calls(s, server)|
  {
    PicturesOfDeliveries(T.FramesOf(Calls(s, server)[..Next(s, server)]))
  }

  predicate Linked(s: Client, server: int) {
    Next(s, server) <= |Calls(s, server)| && AddedOf(s, server) == HandedOver(s, server)
  }

  lemma AddedOfStep(s: Client, e: Event, camera: int)
    ensures AddedOf(Step(s, e), camera) == AddedOf(s, camera) +
            (if PlayoutEvent(s, e).Arrive? && PlayoutEvent(s, e).frame.server == camera
             then [Picture(PlayoutEvent(s, e).frame.sent, Octets(PlayoutEvent(s, e).frame.image))] else [])
  {
    hide P.Step, P.AfterArrival, FB.Those, PlayoutEvent, CamerasAfter;
    var e', t := PlayoutEvent(s, e), P.Step(s.playout, PlayoutEvent(s, e));
    P.StepCases(s.playout, e');
    if e'.Arrive? {
      P.ArrivalHistories(s.playout, e'.frame);
      FB.ThoseConcat(P.AddedFrames(s.playout), [e'.frame], FB.FromCamera(camera));
      FB.ThoseOne(e'.frame, FB.FromCamera(camera));
    } else {
      assert P.AddedFrames(t) == P.AddedFrames(s.playout);
    }
  }

  lemma HandedOverStep(s: Client, e: Event, server: int)
    requires (server == 1 || server == 2) && Next(s, server) <= |Calls(s, server)|
    ensures Calls(Step(s, e), server) == Calls(s, server) && Next(Step(s, e), server) <= |Calls(s, server)|
    ensures HandedOver(Step(s, e), server) == HandedOver(s, server) +
            (if PlayoutEvent(s, e).Arrive? && PlayoutEvent(s, e).frame.server == server
             then [Picture(PlayoutEvent(s, e).frame.sent, Octets(PlayoutEvent(s, e).frame.image))] else [])
  {
    hide P.Step, CamerasAfter, T.FramesOf;
    var calls, n, call := Calls(s, server), Next(s, server), NextCall(s, server);
    if e.Reader? && e.server == server && call != [] {
      assert calls[..n + 1] == calls[..n] + call;
      T.FramesOfConcat(calls[..n], call);
      FramesOfOne(call[0]);
      assert call == [call[0]];
    }
  }

  lemma FramesOfOne(call: R.MonitorCall)
    ensures T.FramesOf([call]) == if call.AddFrame? then [call.frame] else []
  {
    assert [call][1..] == [];
  }

  lemma {:induction false} LinkedRun(clock: int, history1: seq<M.ServerEvent>, history2: seq<M.ServerEvent>,
                                     evs: seq<Event>, server: int)
    requires server == 1 || server == 2
    ensures var s := Run(Initial(clock, history1, history2), evs);
            && Linked(s, server)
            && Calls(s, server) == SessionOf(if server == 1 then history1 else history2)
  {
    hide Step, SessionOf, HandedOver, AddedOf;
    if evs == [] {
      LinkedInitially(clock, history1, history2, server);
    } else {
      var before, e := Run(Initial(clock, history1, history2), evs[..|evs| - 1]), evs[|evs| - 1];
      LinkedRun(clock, history1, history2, evs[..|evs| - 1], server);
      AddedOfStep(before, e, server);
      HandedOverStep(before, e, server);
    }
  }

  lemma LinkedInitially(clock: int, history1: seq<M.ServerEvent>, history2: seq<M.ServerEvent>, server: int)
    ensures Linked(Initial(clock, history1, history2), server)
  {
    var s := Initial(clock, history1, history2);
    assert P.AddedFrames(s.playout) == [];
    assert Calls(s, server)[..0] == [];
  }

  /** The playout part of a run is a run of the playout model. */
  lemma {:induction false} PlayoutRun(s: Client, evs: seq<Event>) returns (playoutEvs: seq<P.Event>)
    ensures Run(s, evs).playout == P.Run(s.playout, playoutEvs)
  {
    hide P.Step, PlayoutEvent, CamerasAfter;
    if evs == [] {
      playoutEvs := [];
    } else {
      var earlier := PlayoutRun(s, evs[..|evs| - 1]);
      var e := PlayoutEvent(Run(s, evs[..|evs| - 1]), evs[|evs| - 1]);
      P.RunSnoc(s.playout, earlier, e);
      playoutEvs := earlier + [e];
    }
  }

  /** A history whose frames can be delivered and carry increasing times. */
  predicate Regular(history: seq<M.ServerEvent>) {
    var ps := Captured(history);
    && (forall i :: 0 <= i < |ps| ==> ps[i].sent < 0x8000_0000_0000_0000 && 1 <= |ps[i].image| <= 100_000_000)
    && (forall i, j :: 0 <= i < j < |ps| ==> ps[i].sent < ps[j].sent)
  }

  lemma RegularIsDeliverable(history: seq<M.ServerEvent>)
    requires Regular(history)
    ensures T.AllDeliverable(M.FramesSent(history))
  {
    hide M.FramesSent, Captured;
    CapturedIsSent(history);
  }

  lemma DeliveredIsCaptured(ds: seq<R.Delivery>, history: seq<M.ServerEvent>)
    requires var cs := M.FramesSent(history);
             |ds| == |cs| && forall i :: 0 <= i < |cs| ==> T.Intact(ds[i], cs[i])
    ensures PicturesOfDeliveries(ds) == Captured(history)
  {
    hide M.FramesSent, Captured;
    var cs := M.FramesSent(history);
    CapturedIsSent(history);
    forall i | 0 <= i < |cs|
      ensures PicturesOfDeliveries(ds)[i] == Captured(history)[i]
    {
      assert Octets(ds[i].image) == cs[i].image;
    }
  }

  /** What a reader has handed over is the beginning of what its server captured, and all of it
      when the session is through. */
  lemma HandedOverCaptured(s: Client, history: seq<M.ServerEvent>, server: int)
    requires T.AllDeliverable(M.FramesSent(history))
    requires Next(s, server) <= |Calls(s, server)| && Calls(s, server) == SessionOf(history)
    ensures HandedOver(s, server) <= Captured(history)
    ensures Next(s, server) == |Calls(s, server)| ==> HandedOver(s, server) == Captured(history)
  {
    hide T.FramesOf, R.Session, T.AllDeliverable;
    var calls, n := Calls(s, server), Next(s, server);
    T.FramesRoundTrip(M.FramesSent(history), false);
    DeliveredIsCaptured(T.FramesOf(calls), history);
    T.FramesOfConcat(calls[..n], calls[n..]);
    assert calls == calls[..n] + calls[n..];
    if n == |calls| {
      assert calls[..n] == calls;
    }
  }

  /** The frames of one camera: with regular histories those shown are, in order and without
      gaps, the first ones that its server captured; and all of them when its session is through
      and the buffer is empty. */
  lemma ShownAreCaptured(clock: int, history1: seq<M.ServerEvent>, history2: seq<M.ServerEvent>, evs: seq<Event>,
                         server: int)
    requires server == 1 || server == 2
    requires Regular(if server == 1 then history1 else history2)
    ensures var s, history := Run(Initial(clock, history1, history2), evs), if server == 1 then history1 else history2;
            && ShownOf(s, server) <= Captured(history)
            && (Next(s, server) == |Calls(s, server)| && s.playout.frames == [] ==>
                  ShownOf(s, server) == Captured(history))
  {
    hide Run, P.Run, FB.Those, SessionOf;
    var s, history := Run(Initial(clock, history1, history2), evs), if server == 1 then history1 else history2;
    LinkedRun(clock, history1, history2, evs, server);
    RegularIsDeliverable(history);
    HandedOverCaptured(s, history, server);
    var playoutEvs := PlayoutRun(Initial(clock, history1, history2), evs);
    var added, shown := P.Of(P.AddedFrames(s.playout), server), P.Of(P.ShownFrames(s.playout), server);
    assert P.Increasing(added) by {
      var pictures := AddedOf(s, server);
      assert forall i :: 0 <= i < |added| ==> added[i].sent == pictures[i].sent == Captured(history)[i].sent;
    }
    P.CameraFifo(clock, playoutEvs, server);
    assert shown <= added;
    if s.playout.frames == [] {
      P.InLineRun(clock, playoutEvs, server);
      assert P.ShownFrames(s.playout) + FB.Drain([]) == P.ShownFrames(s.playout);
    }
  }

  // ---------------------------------------------------------------------------
  // Cameras
  // ---------------------------------------------------------------------------

  /** The reader of this server makes a mode change. */
  predicate Reports(s: Client, e: Event, server: int) {
    && e.Reader? && e.server == server
    && Next(s, server) < |Calls(s, server)| && Calls(s, server)[Next(s, server)].ChangeMode?
  }

  /** A mode change, with the number of the reader that makes it, or a toggle. */
  function CameraEvent(s: Client, e: Event): seq<C.CameraEvent> {
    if Reports(s, e, 1) then [C.Change(1, s.calls1[s.next1].mode)]
    else if Reports(s, e, 2) then [C.Change(2, s.calls2[s.next2].mode)]
    else if e.UserMovie? then [C.Toggle(e.camera, e.on)]
    else []
  }

  /** Those of a run, in order. */
  function CameraEvents(s: Client, evs: seq<Event>): seq<C.CameraEvent> {
    if evs == [] then []
    else CameraEvents(s, evs[..|evs| - 1]) + CameraEvent(Run(s, evs[..|evs| - 1]), evs[|evs| - 1])
  }

  lemma SingleCameraEvent(c: C.Cameras, e: C.CameraEvent)
    ensures C.RunCameras(c, [e]) == C.AfterCamera(c, e)
  {
    hide C.AfterCamera;
    assert [e][..0] == [];
  }

  /** Everything but mode changes and toggles leaves coherent cameras alone. */
  lemma CamerasStep(s: Client, e: Event)
    requires C.Coherent(s.cameras)
    ensures C.Coherent(Step(s, e).cameras)
    ensures Step(s, e).cameras == C.RunCameras(s.cameras, CameraEvent(s, e))
  {
    hide P.Step;
    if CameraEvent(s, e) != [] {
      C.CoherentStep(s.cameras, CameraEvent(s, e)[0]);
      SingleCameraEvent(s.cameras, CameraEvent(s, e)[0]);
      hide C.Coherent, C.AfterChange, C.RunCameras;
    } else {
      C.CoherentIsSettled(s.cameras.one);
      C.CoherentIsSettled(s.cameras.two);
      hide C.Settled, P.AfterResume, C.Coherent;
    }
  }

  /** The cameras of a run are those that its mode changes and toggles make. */
  lemma {:induction false} CamerasRun(s: Client, evs: seq<Event>)
    requires C.Coherent(s.cameras)
    ensures C.Coherent(Run(s, evs).cameras)
    ensures Run(s, evs).cameras == C.RunCameras(s.cameras, CameraEvents(s, evs))
  {
    hide C.Coherent, C.AfterCamera, Step, CameraEvent;
    if evs == [] {
    } else {
      var before, e := Run(s, evs[..|evs| - 1]), evs[|evs| - 1];
      CamerasRun(s, evs[..|evs| - 1]);
      CamerasStep(before, e);
      C.RunCamerasConcat(s.cameras, CameraEvents(s, evs[..|evs| - 1]), CameraEvent(before, e));
    }
  }

  /** No call asks for idle mode. */
  predicate MotionOnly(calls: seq<R.MonitorCall>) {
    forall i :: 0 <= i < |calls| && calls[i].ChangeMode? ==> calls[i].mode == Movie
  }

  /** A reader reports motion only. */
  lemma {:induction false} SessionsReportMotion(stream: seq<Byte>, motion: bool)
    ensures MotionOnly(R.Session(stream, motion))
    decreases |stream|
  {
    hide R.ReadOne;
    var o := R.ReadOne(stream, motion);
    if o.status != R.Returned {
    } else {
      SessionsReportMotion(stream[o.consumed..], o.motion);
    }
  }

  lemma MotionStaysShown(s: Client, e: Event, server: int)
    requires C.Coherent(s.cameras) && (server == 1 || server == 2) && MotionOnly(s.calls1) && MotionOnly(s.calls2)
    requires C.MotionAt(s.cameras, server) || Reports(s, e, server)
    requires !e.UserMovie? && !Reports(s, e, 3 - server)
    ensures C.MotionAt(Step(s, e).cameras, server)
  {
    CamerasStep(s, e);
    if Reports(s, e, server) {
      C.CoherentStep(s.cameras, CameraEvent(s, e)[0]);
      SingleCameraEvent(s.cameras, CameraEvent(s, e)[0]);
    }
    hide C.Coherent, C.MotionAt, C.AfterCamera, Step;
  }

  /** Motion stays where it was reported: after a mode change by one reader its camera shows
      motion and the other does not, until a toggle or a mode change by the other reader. */
  lemma {:induction false} MotionIsShown(s: Client, evs: seq<Event>, k: nat, server: int)
    requires C.Coherent(s.cameras) && (server == 1 || server == 2) && MotionOnly(s.calls1) && MotionOnly(s.calls2)
    requires k < |evs| && Reports(Run(s, evs[..k]), evs[k], server)
    requires forall j :: k < j < |evs| ==> !evs[j].UserMovie? && !Reports(Run(s, evs[..j]), evs[j], 3 - server)
    ensures C.MotionAt(Run(s, evs).cameras, server)
  {
    hide Step, Run, Reports, C.Coherent, C.MotionAt, MotionOnly, CameraEvents;
    var n := |evs| - 1;
    RunLast(s, evs);
    CamerasRun(s, evs[..n]);
    CallsStay(s, evs[..n]);
    OtherQuiet(s, evs, k, server);
    if k == n {
    } else {
      MotionIsShown(s, evs[..n], k, server);
    }
    MotionStaysShown(Run(s, evs[..n]), evs[n], server);
  }

  lemma RunLast(s: Client, evs: seq<Event>)
    requires evs != []
    ensures Run(s, evs) == Step(Run(s, evs[..|evs| - 1]), evs[|evs| - 1])
  {
    hide Step;
  }

  lemma OtherQuiet(s: Client, evs: seq<Event>, k: nat, server: int)
    requires k < |evs| && Reports(Run(s, evs[..k]), evs[k], server)
    requires forall j :: k < j < |evs| ==> !evs[j].UserMovie? && !Reports(Run(s, evs[..j]), evs[j], 3 - server)
    ensures var shorter := evs[..|evs| - 1];
            && (k < |shorter| ==> Reports(Run(s, shorter[..k]), shorter[k], server))
            && (forall j :: k < j < |shorter| ==>
                  !shorter[j].UserMovie? && !Reports(Run(s, shorter[..j]), shorter[j], 3 - server))
    ensures var before, e := Run(s, evs[..|evs| - 1]), evs[|evs| - 1];
            !e.UserMovie? && !Reports(before, e, 3 - server)
  {
    hide Run;
    var shorter := evs[..|evs| - 1];
    assert forall j :: 0 <= j < |shorter| ==> shorter[..j] == evs[..j];
  }

  lemma {:induction false} CallsStay(s: Client, evs: seq<Event>)
    ensures Run(s, evs).calls1 == s.calls1 && Run(s, evs).calls2 == s.calls2
  {
    hide P.Step, PlayoutEvent, CamerasAfter;
    if evs == [] {
    } else {
      CallsStay(s, evs[..|evs| - 1]);
    }
  }

  /** The mode changes that a reader has made so far are no more than the movie periods that
      motion has begun at its server. */
  lemma FewModeChanges(calls: seq<R.MonitorCall>, n: nat, history: seq<M.ServerEvent>)
    requires n <= |calls| && calls == SessionOf(history)
    requires M.Started(history) && T.AllDeliverable(M.FramesSent(history))
    ensures M.ModeChanges(calls[..n]) <= M.MotionStarts(M.OpsOf(history))
  {
    hide M.ModeChanges, M.MotionStarts, R.Session;
    M.MotionEndToEnd(history);
    M.ModeChangesConcat(calls[..n], calls[n..]);
    assert calls == calls[..n] + calls[n..];
  }

  /** The k-th event is a mode change by this server's reader, and no toggle and no mode change
      by the other reader has followed. */
  predicate MotionLast(clock: int, history1: seq<M.ServerEvent>, history2: seq<M.ServerEvent>, evs: seq<Event>,
                       k: nat, server: int)
    requires k < |evs|
  {
    var s := Initial(clock, history1, history2);
    && (server == 1 || server == 2)
    && Reports(Run(s, evs[..k]), evs[k], server)
    && forall j :: k < j < |evs| ==> !evs[j].UserMovie? && !Reports(Run(s, evs[..j]), evs[j], 3 - server)
  }

  lemma StaysCoherent(clock: int, history1: seq<M.ServerEvent>, history2: seq<M.ServerEvent>, evs: seq<Event>)
    ensures C.Coherent(Run(Initial(clock, history1, history2), evs).cameras)
  {
    hide Run;
    CamerasRun(Initial(clock, history1, history2), evs);
  }

  lemma CallsWithinMotion(clock: int, history1: seq<M.ServerEvent>, history2: seq<M.ServerEvent>, evs: seq<Event>,
                          server: int)
    requires server == 1 || server == 2
    requires var history := if server == 1 then history1 else history2; M.Started(history) && Regular(history)
    ensures var s, history := Run(Initial(clock, history1, history2), evs), if server == 1 then history1 else history2;
            && Next(s, server) <= |Calls(s, server)|
            && M.ModeChanges(Calls(s, server)[..Next(s, server)]) <= M.MotionStarts(M.OpsOf(history))
  {
    var s, history := Run(Initial(clock, history1, history2), evs), if server == 1 then history1 else history2;
    LinkedRun(clock, history1, history2, evs, server);
    RegularIsDeliverable(history);
    hide Run, SessionOf, M.ModeChanges, M.MotionStarts, T.AllDeliverable, Regular;
    FewModeChanges(Calls(s, server), Next(s, server), history);
  }

  lemma MotionLastIsShown(clock: int, history1: seq<M.ServerEvent>, history2: seq<M.ServerEvent>, evs: seq<Event>)
    ensures var s := Run(Initial(clock, history1, history2), evs);
            forall k, server: int | 0 <= k < |evs| && MotionLast(clock, history1, history2, evs, k, server) ::
              s.cameras.one.motion == (server == 1) && s.cameras.two.motion == (server == 2)
  {
    var s0 := Initial(clock, history1, history2);
    SessionsReportMotion(W.EncodeAll(M.FramesSent(history1)), false);
    SessionsReportMotion(W.EncodeAll(M.FramesSent(history2)), false);
    hide Run, Reports, MotionOnly;
    forall k, server: int | 0 <= k < |evs| && MotionLast(clock, history1, history2, evs, k, server)
      ensures C.MotionAt(Run(s0, evs).cameras, server)
    {
      MotionIsShown(s0, evs, k, server);
    }
  }

  /** The system end to end: two servers with any regular histories, two readers, the updater,
      the clock and the user in any interleaving. For either camera the pictures shown are the
      first ones captured, none lost, invented, altered or out of order, and all of them once its
      session is through and the buffer is empty; its reader has made at most as many mode
      changes as motion has begun movie periods; the cameras are coherent, and after a reported
      motion exactly the reporting server's camera shows it until a toggle or the other reader's
      report. */
  lemma EndToEnd(clock: int, history1: seq<M.ServerEvent>, history2: seq<M.ServerEvent>, evs: seq<Event>)
    requires M.Started(history1) && Regular(history1) && M.Started(history2) && Regular(history2)
    ensures var s := Run(Initial(clock, history1, history2), evs);
            && ShownOf(s, 1) <= Captured(history1) && ShownOf(s, 2) <= Captured(history2)
            && (s.next1 == |s.calls1| && s.playout.frames == [] ==> ShownOf(s, 1) == Captured(history1))
            && (s.next2 == |s.calls2| && s.playout.frames == [] ==> ShownOf(s, 2) == Captured(history2))
            && s.next1 <= |s.calls1| && M.ModeChanges(s.calls1[..s.next1]) <= M.MotionStarts(M.OpsOf(history1))
            && s.next2 <= |s.calls2| && M.ModeChanges(s.calls2[..s.next2]) <= M.MotionStarts(M.OpsOf(history2))
            && C.Coherent(s.cameras)
            && forall k, server: int | 0 <= k < |evs| && MotionLast(clock, history1, history2, evs, k, server) ::
                 s.cameras.one.motion == (server == 1) && s.cameras.two.motion == (server == 2)
  {
    hide MotionLast, Regular, C.Coherent, Run, Initial, ShownOf, Captured, M.ModeChanges, M.MotionStarts, M.OpsOf;
    StaysCoherent(clock, history1, history2, evs);
    MotionLastIsShown(clock, history1, history2, evs);
    ShownAreCaptured(clock, history1, history2, evs, 1);
    ShownAreCaptured(clock, history1, history2, evs, 2);
    CallsWithinMotion(clock, history1, history2, evs, 1);
    CallsWithinMotion(clock, history1, history2, evs, 2);
  }
}
