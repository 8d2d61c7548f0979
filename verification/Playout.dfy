/** The client's playout as a timed transition system (`Client/Control/Monitor.java`): camera
    readers add frames, the clock moves on, the user changes the settings, and one updater
    thread shows frames. Each step is one stretch of code that runs without giving up the
    monitor's lock; the updater gives it up in its two waits and between two calls of
    `update()`. */
module Playout {
  import opened FrameBuffer
  import opened Averages
  import opened Sequences

  const SYNC_TIME_MS := 500
  const SYNC_TIME_HYSTERESIS_MS := 50

  /** A frame, the client's clock when it was added, and how many frames had been shown then. */
  datatype Arrival = Arrival(frame: Frame, at: int, after: nat)

  /** A frame, the clock when it was taken, the branch that took it and the sync delay then. */
  datatype Shown = Shown(frame: Frame, at: int, sync: bool, delay: int)

  /** Where the updater is: about to start `update()`, in one of its waits, or dead from an
      exception. */
  datatype Pc = Ready | WaitingForFrame | WaitingForTime | Dead

  /** `switches` and `movement` count the updater's changes of mode and how far the two
      averages have moved. */
  datatype State = State(clock: int, frames: seq<Frame>, average1: int, average2: int, syncTime: int,
                         sync: bool, auto: bool, pc: Pc,
                         added: seq<Arrival>, shown: seq<Shown>, switches: nat, movement: nat)

  /** `Settings` stands for anything the user's clicks can do to the two flags, at any moment
      the lock is free or within the updater's own notification. */
  datatype Event = Arrive(frame: Frame) | Tick(ms: nat) | Settings(sync: bool, auto: bool) | Resume

  function Initial(clock: int): State {
    State(clock, [], 0, 0, SYNC_TIME_MS, false, false, Ready, [], [], 0, 0)
  }

  function Delay(f: Frame): int {
    f.received - f.sent
  }

  /** `addFrame`. */
  function AfterArrival(s: State, f: Frame): State {
    var a1 := if f.server == 1 then NextAverage(s.average1, Delay(f)) else s.average1;
    var a2 := if f.server == 2 then NextAverage(s.average2, Delay(f)) else s.average2;
    s.(frames := Insert(s.frames, f), average1 := a1, average2 := a2,
       added := s.added + [Arrival(f, s.clock, |s.shown|)],
       movement := s.movement + Abs(a1 - s.average1) + Abs(a2 - s.average2))
  }

  function Oldest(s: State): Frame
    requires s.frames != []
  {
    s.frames[|s.frames| - 1]
  }

  /** Takes the oldest frame off the buffer and shows it. */
  function Show(s: State, sync: bool): State
    requires s.frames != []
  {
    s.(frames := s.frames[..|s.frames| - 1], pc := Ready,
       shown := s.shown + [Shown(Oldest(s), s.clock, sync, s.syncTime)])
  }

  function Disparity(s: State): nat {
    Abs(s.average1 - s.average2)
  }

  /** The asynchronous branch. */
  function ShowNow(s: State): State
    requires s.frames != []
  {
    var t := Show(s, false);
    if s.auto && Disparity(s) < SYNC_TIME_MS - SYNC_TIME_HYSTERESIS_MS
    then t.(sync := true, switches := s.switches + (if s.sync then 0 else 1))
    else t
  }

  function Max(a: int, b: int): int {
    if a < b then b else a
  }

  /** The growth of the sync delay; the code compares camera one's average with itself. */
  function Grow(s: State): State {
    if s.syncTime * 2 < s.average1 then s.(syncTime := 4 * s.syncTime) else s
  }

  /** The synchronous branch from its first look at the clock, or on waking from its wait. */
  function CheckTime(s: State): State {
    if s.frames == [] then s.(pc := Dead)
    else if Oldest(s).sent + s.syncTime > s.clock then s.(pc := WaitingForTime)
    else
      var t := Show(s, true);
      if s.auto && Disparity(s) > SYNC_TIME_MS + SYNC_TIME_HYSTERESIS_MS
      then t.(sync := false, switches := s.switches + (if s.sync then 1 else 0))
      else t
  }

  /** The updater runs on, from wherever it is, until it waits again or has shown a frame. */
  function AfterResume(s: State): State {
    match s.pc
    case Dead => s
    case WaitingForTime => CheckTime(s)
    case _ =>
      if s.frames == [] then s.(pc := WaitingForFrame)
      else if !s.sync then ShowNow(s)
      else CheckTime(Grow(s))
  }

  function Step(s: State, e: Event): State {
    match e
    case Arrive(f) => AfterArrival(s, f)
    case Tick(ms) => s.(clock := s.clock + ms)
    case Settings(sync, auto) => s.(sync := sync, auto := auto)
    case Resume => AfterResume(s)
  }

  function Run(s: State, evs: seq<Event>): State {
    if evs == [] then s else Step(Run(s, evs[..|evs| - 1]), evs[|evs| - 1])
  }

  function FramesOfArrivals(added: seq<Arrival>): (r: seq<Frame>)
    ensures |r| == |added|
  {
    seq(|added|, i requires 0 <= i < |added| => added[i].frame)
  }

  function AddedFrames(s: State): (r: seq<Frame>)
    ensures |r| == |s.added|
  {
    FramesOfArrivals(s.added)
  }

  function ShownFrames(s: State): (r: seq<Frame>)
    ensures |r| == |s.shown|
  {
    seq(|s.shown|, i requires 0 <= i < |s.shown| => s.shown[i].frame)
  }

  lemma {:induction false} RunConcat(s: State, a: seq<Event>, b: seq<Event>)
    ensures Run(s, a + b) == Run(Run(s, a), b)
  {
    if b == [] {
      assert a + b == a;
    } else {
      RunConcat(s, a, b[..|b| - 1]);
      assert (a + b)[..|a + b| - 1] == a + b[..|b| - 1];
    }
  }

  lemma RunSnoc(s: State, evs: seq<Event>, e: Event)
    ensures Run(s, evs + [e]) == Step(Run(s, evs), e)
  {
    hide Step;
    assert (evs + [e])[..|evs|] == evs;
  }

  /** The state `now` is reached from `base` by running on under the lock, up to the look at the
      clock: the sync delay may have grown, and time has passed. */
  predicate Underway(base: State, now: State) {
    && base.frames != [] && base.clock <= now.clock
    && (base.pc == WaitingForTime || (base.sync && base.pc != Dead))
    && now == (if base.pc == WaitingForTime then base else Grow(base)).(clock := now.clock)
  }

  predicate Due(s: State)
    requires s.frames != []
  {
    Oldest(s).sent + s.syncTime <= s.clock
  }

  lemma GrownAndLater(base: State, now: State)
    requires base.frames != [] && base.sync && base.clock <= now.clock
    requires base.pc == Ready || base.pc == WaitingForFrame
    requires now == Grow(base).(clock := now.clock)
    ensures Underway(base, now)
  {
  }

  lemma WokenUp(base: State, now: State)
    requires base.frames != [] && base.pc == WaitingForTime && base.clock <= now.clock
    requires now == base.(clock := now.clock)
    ensures Underway(base, now)
  {
  }

  lemma TimePasses(base: State, earlier: State, now: State)
    requires Underway(base, earlier) && earlier.clock <= now.clock && now == earlier.(clock := now.clock)
    ensures Underway(base, now)
  {
  }

  lemma ResumeAt(base: State, now: State)
    requires Underway(base, now)
    ensures Step(Step(base, Tick(now.clock - base.clock)), Resume) == CheckTime(now)
  {
    hide CheckTime;
    var later := Step(base, Tick(now.clock - base.clock));
    assert later == base.(clock := now.clock);
  }

  /** The locked stretch that has come to `now` is a tick and a resumption. */
  function OwnSteps(base: State, now: State): seq<Event>
    requires base.clock <= now.clock
  {
    [Tick(now.clock - base.clock), Resume]
  }

  lemma RunTwo(s: State, a: Event, b: Event)
    ensures Run(s, [a]) == Step(s, a) && Run(s, [a, b]) == Step(Step(s, a), b)
  {
    hide Step, Run;
    RunNothing(s);
    RunSnoc(s, [], a);
    RunSnoc(s, [a], b);
    assert [] + [a] == [a] && [a] + [b] == [a, b];
  }

  lemma OwnStepsRun(base: State, now: State)
    requires base.clock <= now.clock
    ensures Run(base, OwnSteps(base, now)) == Step(Step(base, Tick(now.clock - base.clock)), Resume)
    ensures HandsOff(OwnSteps(base, now))
  {
    hide Step, Run;
    RunTwo(base, Tick(now.clock - base.clock), Resume);
  }

  lemma ResumesWith(base: State, now: State)
    requires Underway(base, now)
    ensures base.clock <= now.clock
    ensures Run(base, OwnSteps(base, now)) == CheckTime(now) && HandsOff(OwnSteps(base, now))
  {
    assert base.clock <= now.clock;
    hide CheckTime, Step, Run, Underway, OwnSteps, HandsOff;
    ResumeAt(base, now);
    OwnStepsRun(base, now);
  }

  /** Not due yet: the updater goes into its wait. */
  lemma PausesWith(base: State, now: State)
    requires Underway(base, now)
    requires now.frames != [] && !Due(now)
    ensures base.clock <= now.clock
    ensures Run(base, OwnSteps(base, now)) == now.(pc := WaitingForTime) && HandsOff(OwnSteps(base, now))
  {
    hide Run, Underway;
    ResumesWith(base, now);
  }

  lemma NothingToShow(s: State)
    requires s.frames == [] && (s.pc == Ready || s.pc == WaitingForFrame)
    ensures Run(s, [Resume]) == s.(pc := WaitingForFrame) && HandsOff([Resume])
  {
    RunSnoc(s, [], Resume);
  }

  lemma ShowsAtOnce(s: State)
    requires s.frames != [] && !s.sync && (s.pc == Ready || s.pc == WaitingForFrame)
    ensures Run(s, [Resume]) == ShowNow(s) && HandsOff([Resume])
  {
    hide ShowNow;
    RunSnoc(s, [], Resume);
  }

  /** No manual change of the settings. */
  predicate HandsOff(evs: seq<Event>) {
    forall i :: 0 <= i < |evs| ==> !evs[i].Settings?
  }

  lemma HandsOffConcat(a: seq<Event>, b: seq<Event>)
    ensures HandsOff(a + b) <==> HandsOff(a) && HandsOff(b)
  {
    assert forall i :: 0 <= i < |a| ==> (a + b)[i] == a[i];
    assert forall i :: 0 <= i < |b| ==> (a + b)[|a| + i] == b[i];
  }

  lemma AutoStays(s: State)
    ensures CheckTime(s).auto == s.auto && (s.frames != [] ==> ShowNow(s).auto == s.auto)
  {
    hide Disparity;
  }

  /** The updater's own notification may take over the model's auto flag, as any click may. */
  function TakingOver(s: State, auto: bool): seq<Event> {
    if auto == s.auto then [] else [Settings(s.sync, auto)]
  }

  lemma TakesOver(start: State, evs: seq<Event>, auto: bool)
    ensures var s := Run(start, evs); Run(start, evs + TakingOver(s, auto)) == s.(auto := auto)
    ensures var s := Run(start, evs); s.auto == auto ==> HandsOff(TakingOver(s, auto))
  {
    hide Run;
    var s := Run(start, evs);
    if auto == s.auto {
      assert evs + [] == evs;
    } else {
      RunSnoc(start, evs, Settings(s.sync, auto));
    }
  }

  predicate SameHistory(s: State, t: State) {
    t.frames == s.frames && t.added == s.added && t.shown == s.shown
  }

  /** The updater has taken the oldest frame, the synchronous branch only when it was due. */
  predicate TookOldest(s: State, t: State) {
    && s.frames != [] && t.added == s.added
    && t.frames == s.frames[..|s.frames| - 1]
    && |t.shown| == |s.shown| + 1
    && (var sync := t.shown[|s.shown|].sync;
        && t.shown == s.shown + [Shown(Oldest(s), s.clock, sync, t.syncTime)]
        && (sync ==> Oldest(s).sent + t.syncTime <= s.clock))
  }

  lemma CheckTimeCases(s: State)
    ensures SameHistory(s, CheckTime(s)) || TookOldest(s, CheckTime(s))
    ensures CheckTime(s).clock == s.clock
  {
    hide Disparity;
  }

  /** What a step does to the histories and the buffer: it adds one frame, or takes the oldest
      one, or leaves them. */
  lemma StepCases(s: State, e: Event)
    ensures if e.Arrive? then Step(s, e) == AfterArrival(s, e.frame)
            else SameHistory(s, Step(s, e)) || (e == Resume && TookOldest(s, Step(s, e)))
    ensures Step(s, e).clock >= s.clock && (e == Resume ==> Step(s, e).clock == s.clock)
  {
    hide Disparity, CheckTime, Insert, NextAverage;
    CheckTimeCases(s);
    CheckTimeCases(Grow(s));
  }

  // ---------------------------------------------------------------------------
  // Display safety
  // ---------------------------------------------------------------------------

  predicate Safe(s: State) {
    && NewestFirst(s.frames)
    && s.pc != Dead
    && (s.pc == WaitingForTime ==> s.frames != [])
    && (forall i :: 0 <= i < |s.shown| ==>
          && s.shown[i].at <= s.clock
          && (s.shown[i].sync ==> s.shown[i].frame.sent + s.shown[i].delay <= s.shown[i].at))
    && multiset(AddedFrames(s)) == multiset(ShownFrames(s)) + multiset(s.frames)
  }

  lemma SafeStep(s: State, e: Event)
    requires Safe(s)
    ensures Safe(Step(s, e))
  {
    hide Step, Insert;
    StepCases(s, e);
    StepWaits(s, e);
    if e.Arrive? {
      SafeArrival(s, e.frame);
    } else if SameHistory(s, Step(s, e)) {
      assert AddedFrames(Step(s, e)) == AddedFrames(s) && ShownFrames(Step(s, e)) == ShownFrames(s);
    } else {
      SafeTake(s, Step(s, e));
    }
  }

  lemma SafeArrival(s: State, f: Frame)
    requires Safe(s)
    ensures Safe(AfterArrival(s, f))
  {
    hide Insert, NextAverage;
    InsertKeepsOrder(s.frames, f);
    InsertKeepsFrames(s.frames, f);
    assert AddedFrames(AfterArrival(s, f)) == AddedFrames(s) + [f];
    assert ShownFrames(AfterArrival(s, f)) == ShownFrames(s);
  }

  lemma SafeTake(s: State, t: State)
    requires Safe(s) && TookOldest(s, t) && t.clock == s.clock
    requires t.pc != Dead && (t.pc == WaitingForTime ==> t.frames != [])
    ensures Safe(t)
  {
    assert AddedFrames(t) == AddedFrames(s) && ShownFrames(t) == ShownFrames(s) + [Oldest(s)];
    assert s.frames == t.frames + [Oldest(s)];
  }

  lemma StepWaits(s: State, e: Event)
    requires s.pc != Dead && (s.pc == WaitingForTime ==> s.frames != [])
    ensures Step(s, e).pc != Dead
    ensures Step(s, e).pc == WaitingForTime ==> Step(s, e).frames != []
  {
    hide Disparity, Insert, NextAverage;
  }

  /** In every run the updater never meets an empty buffer behind its waits, shows in the
      synchronous branch only frames that are due, and no frame is lost, invented or doubled. */
  lemma {:induction false} DisplaySafety(clock: int, evs: seq<Event>)
    ensures Safe(Run(Initial(clock), evs))
  {
    if evs == [] {
      assert AddedFrames(Initial(clock)) == [] && ShownFrames(Initial(clock)) == [];
    } else {
      DisplaySafety(clock, evs[..|evs| - 1]);
      SafeStep(Run(Initial(clock), evs[..|evs| - 1]), evs[|evs| - 1]);
    }
  }

  /** The updater shows a frame exactly when there is one that may be shown: any at all in the
      asynchronous branch, one whose time has come in the synchronous branch. */
  lemma ShowsIffDue(s: State)
    requires Safe(s)
    ensures |AfterResume(s).shown| > |s.shown| <==>
            if s.pc != WaitingForTime && !s.sync then s.frames != []
            else
              var delay := if s.pc != WaitingForTime && s.average1 > 2 * s.syncTime then 4 * s.syncTime else s.syncTime;
              exists f :: f in s.frames && f.sent + delay <= s.clock
  {
    if s.frames != [] {
      assert Oldest(s) in s.frames;
      assert forall f :: f in s.frames ==> Oldest(s).sent <= f.sent;
    }
  }

  // ---------------------------------------------------------------------------
  // Playout order
  // ---------------------------------------------------------------------------

  /** Every frame was added within the basic sync delay of being sent. */
  predicate OnTime(added: seq<Arrival>) {
    forall i :: 0 <= i < |added| ==> added[i].at <= added[i].frame.sent + 500
  }

  /** Whatever follows a frame shown synchronously was not sent before it. */
  predicate InOrder(shown: seq<Shown>) {
    forall i, j :: 0 <= i < j < |shown| && shown[i].sync ==> shown[i].frame.sent <= shown[j].frame.sent
  }

  /** Nothing shown or still held was sent before a frame that had been shown synchronously
      ahead of it. */
  predicate OrderKept(s: State) {
    && InOrder(s.shown)
    && forall i, k :: 0 <= i < |s.shown| && s.shown[i].sync && 0 <= k < |s.frames| ==>
         s.shown[i].frame.sent <= s.frames[k].sent
  }

  /** No frame was added after a newer one had been shown synchronously. */
  predicate NoneLate(s: State) {
    forall i, k :: 0 <= i < |s.shown| && s.shown[i].sync && 0 <= k < |s.added| && s.added[k].after > i ==>
      s.shown[i].frame.sent <= s.added[k].frame.sent
  }

  /** The stamps of the two histories fit together. */
  predicate Stamped(s: State) {
    && (forall i :: 0 <= i < |s.shown| ==>
          && s.shown[i].at <= s.clock
          && (s.shown[i].sync ==> s.shown[i].frame.sent + SYNC_TIME_MS <= s.shown[i].at))
    && (forall k :: 0 <= k < |s.added| ==> s.added[k].after <= |s.shown|)
    && (forall i, k :: 0 <= i < |s.shown| && 0 <= k < |s.added| && s.added[k].after > i ==>
          s.shown[i].at <= s.added[k].at)
  }

  lemma InsertElements(s: seq<Frame>, f: Frame)
    ensures f in Insert(s, f)
    ensures forall g :: g in s ==> g in Insert(s, f)
    ensures forall g :: g in Insert(s, f) ==> g == f || g in s
  {
    InsertKeepsFrames(s, f);
    hide Insert;
    assert forall g :: g in Insert(s, f) <==> g in multiset(Insert(s, f));
    assert forall g :: g in s <==> g in multiset(s);
  }

  lemma AddedGrows(s: State, e: Event)
    ensures |s.added| <= |Step(s, e).added| && Step(s, e).added[..|s.added|] == s.added
  {
    StepCases(s, e);
  }

  /** The frame is not older than anything shown synchronously. */
  predicate NotOvertaken(s: State, f: Frame) {
    forall i :: 0 <= i < |s.shown| && s.shown[i].sync ==> s.shown[i].frame.sent <= f.sent
  }

  lemma OrderArrival(s: State, f: Frame)
    requires Stamped(s)
    ensures var t := AfterArrival(s, f);
            && Stamped(t)
            && (OrderKept(t) <==> OrderKept(s) && NotOvertaken(s, f))
            && (NoneLate(t) <==> NoneLate(s) && NotOvertaken(s, f))
  {
    hide Insert, NextAverage, Abs;
    var t := AfterArrival(s, f);
    InsertElements(s.frames, f);
    assert OrderKept(t) <==> OrderKept(s) && NotOvertaken(s, f) by {
      assert forall k :: 0 <= k < |s.frames| ==> s.frames[k] in t.frames;
      assert forall k :: 0 <= k < |t.frames| ==> t.frames[k] in t.frames;
    }
    assert forall k :: 0 <= k < |s.added| ==> t.added[k] == s.added[k];
    assert t.added[|s.added|] == Arrival(f, s.clock, |s.shown|);
  }

  lemma OrderTake(s: State, t: State)
    requires TookOldest(s, t) && NewestFirst(s.frames) && Stamped(s)
    requires t.syncTime >= SYNC_TIME_MS && t.clock == s.clock
    ensures Stamped(t)
    ensures OrderKept(t) <==> OrderKept(s)
    ensures NoneLate(t) <==> NoneLate(s)
  {
    assert s.frames == t.frames + [Oldest(s)];
    assert forall k :: 0 <= k < |s.frames| ==> Oldest(s).sent <= s.frames[k].sent;
    assert forall i :: 0 <= i < |s.shown| ==> t.shown[i] == s.shown[i];
  }

  lemma OrderStep(s: State, e: Event)
    requires NewestFirst(s.frames) && Stamped(s) && Step(s, e).syncTime >= SYNC_TIME_MS
    requires OrderKept(s) <==> NoneLate(s)
    ensures Stamped(Step(s, e))
    ensures OrderKept(Step(s, e)) <==> NoneLate(Step(s, e))
  {
    hide Step, AfterArrival;
    var t := Step(s, e);
    StepCases(s, e);
    if e.Arrive? {
      OrderArrival(s, e.frame);
    } else if !SameHistory(s, t) {
      OrderTake(s, t);
    }
  }

  lemma {:induction false} OrderRun(clock: int, evs: seq<Event>)
    ensures var s := Run(Initial(clock), evs);
            Stamped(s) && (OrderKept(s) <==> NoneLate(s))
  {
    hide Stamped, OrderKept, NoneLate, Step;
    if evs == [] {
      OrderInitially(clock);
    } else {
      OrderRun(clock, evs[..|evs| - 1]);
      DisplaySafety(clock, evs[..|evs| - 1]);
      SyncDelayGrows(clock, evs);
      OrderStep(Run(Initial(clock), evs[..|evs| - 1]), evs[|evs| - 1]);
    }
  }

  lemma OrderInitially(clock: int)
    ensures var s := Initial(clock); Stamped(s) && OrderKept(s) && NoneLate(s)
  {
  }

  /** Playout order, exactly: in every run nothing shown or still held is older than a frame
      shown synchronously ahead of it, if and only if no frame was added after a newer one had
      been shown synchronously. So a frame that was in the buffer in time is never overtaken,
      whatever the waits, the modes and the user do. */
  lemma PlayoutOrderIff(clock: int, evs: seq<Event>)
    ensures OrderKept(Run(Initial(clock), evs)) <==> NoneLate(Run(Initial(clock), evs))
  {
    OrderRun(clock, evs);
  }

  /** In particular: if each frame is added within 500 ms of being sent, then once the
      synchronous branch has shown a frame, nothing older is ever shown - from either camera, in
      either mode, whatever the user does. */
  lemma PlayoutOrder(clock: int, evs: seq<Event>)
    requires OnTime(Run(Initial(clock), evs).added)
    ensures InOrder(Run(Initial(clock), evs).shown)
  {
    OrderRun(clock, evs);
  }

  /** A frame arrives, time passes, the updater runs. */
  function OneFrame(f: Frame, ms: nat): seq<Event> {
    [Arrive(f), Tick(ms), Resume]
  }

  /** A state in which a lone frame is shown as soon as its time has come. */
  predicate SteadySync(s: State) {
    s.frames == [] && s.sync && !s.auto && s.pc == Ready && s.syncTime == SYNC_TIME_MS && s.average1 == 0
  }

  lemma OneFrameShown(s: State, f: Frame, ms: nat)
    requires SteadySync(s) && f.server != 1 && f.sent + SYNC_TIME_MS <= s.clock + ms
    ensures var t := Run(s, OneFrame(f, ms));
            && SteadySync(t) && t.clock == s.clock + ms
            && t.added == s.added + [Arrival(f, s.clock, |s.shown|)]
            && t.shown == s.shown + [Shown(f, s.clock + ms, true, SYNC_TIME_MS)]
  {
    RunThree(s, Arrive(f), Tick(ms), Resume);
    hide NextAverage, Run;
    assert Insert([], f) == [f];
    assert [f][..0] == [];
  }

  lemma RunNothing(s: State)
    ensures Run(s, []) == s
  {
  }

  lemma RunThree(s: State, a: Event, b: Event, c: Event)
    ensures Run(s, [a, b, c]) == Step(Step(Step(s, a), b), c)
  {
    hide Step, Run;
    RunTwo(s, a, b);
    RunSnoc(s, [a, b], c);
    assert [a, b] + [c] == [a, b, c];
  }

  /** One millisecond more is too late: a frame added 501 ms after it was sent can be overtaken. */
  lemma PlayoutOrderIsTight(clock: int, f: Frame, g: Frame)
    requires f.sent == clock && g.sent == clock - 1
    requires f.server != 1 && g.server != 1
    ensures var s := Run(Initial(clock), [Settings(true, false)] + OneFrame(f, 500) + OneFrame(g, 0));
            && s.added == [Arrival(f, f.sent, 0), Arrival(g, g.sent + 501, 1)]
            && !InOrder(s.shown)
  {
    var s0 := Initial(clock).(sync := true);
    OneFrameShown(s0, f, 500);
    var s1 := Run(s0, OneFrame(f, 500));
    OneFrameShown(s1, g, 0);
    var s2 := Run(s1, OneFrame(g, 0));
    assert s2.shown[0].sync && s2.shown[0].frame == f && s2.shown[1].frame == g;
    RunTwo(Initial(clock), Settings(true, false), Resume);
    hide Run, OneFrame;
    RunConcat(Initial(clock), [Settings(true, false)], OneFrame(f, 500));
    RunConcat(Initial(clock), [Settings(true, false)] + OneFrame(f, 500), OneFrame(g, 0));
  }

  // ---------------------------------------------------------------------------
  // Each camera first in, first out
  // ---------------------------------------------------------------------------

  /** The frames of one camera, in order. */
  function Of(s: seq<Frame>, camera: int): seq<Frame> {
    Those(s, FromCamera(camera))
  }

  predicate Increasing(s: seq<Frame>) {
    forall i, j :: 0 <= i < j < |s| ==> s[i].sent < s[j].sent
  }

  lemma {:induction false} DrainConcat(a: seq<Frame>, b: seq<Frame>)
    ensures Drain(a + b) == Drain(b) + Drain(a)
  {
    if b == [] {
      assert a + b == a;
    } else {
      DrainConcat(a, b[..|b| - 1]);
      assert (a + b)[..|a + b| - 1] == a + b[..|b| - 1];
    }
  }

  lemma {:induction false} DrainElements(s: seq<Frame>)
    ensures forall f :: f in Drain(s) <==> f in s
  {
    if s == [] {
    } else {
      DrainElements(s[..|s| - 1]);
      assert s == s[..|s| - 1] + [s[|s| - 1]];
    }
  }

  /** A frame newer than every buffered one of its camera comes out behind them. */
  lemma InsertBehindOwn(s: seq<Frame>, f: Frame, camera: int)
    requires f.server == camera ==> forall g :: g in s && g.server == camera ==> g.sent < f.sent
    ensures Of(Drain(Insert(s, f)), camera) == Of(Drain(s) + [f], camera)
  {
    hide Those, Drain, Position, Insert;
    var newer, older := s[..Position(s, f)], s[Position(s, f)..];
    InsertSplits(s, f);
    assert s == newer + older;
    DrainConcat(newer, [f] + older);
    DrainConcat([f], older);
    DrainConcat(newer, older);
    DrainOne(f);
    ThoseConcat(Drain(older) + [f], Drain(newer), FromCamera(camera));
    ThoseConcat(Drain(older), [f], FromCamera(camera));
    ThoseConcat(Drain(older) + Drain(newer), [f], FromCamera(camera));
    ThoseConcat(Drain(older), Drain(newer), FromCamera(camera));
    ThoseOne(f, FromCamera(camera));
    if f.server == camera {
      DrainElements(newer);
      NewerAreOthers(s, f, camera);
      ThoseNone(Drain(newer), FromCamera(camera));
    }
  }

  lemma NewerAreOthers(s: seq<Frame>, f: Frame, camera: int)
    requires forall g :: g in s && g.server == camera ==> g.sent < f.sent
    ensures var d := Drain(s[..Position(s, f)]);
            forall i :: 0 <= i < |d| ==> d[i].server != camera
  {
    var newer := s[..Position(s, f)];
    DrainElements(newer);
    assert forall g :: g in newer ==> g in s && g.sent >= f.sent;
    assert forall i :: 0 <= i < |Drain(newer)| ==> Drain(newer)[i] in Drain(newer);
  }

  lemma DrainOne(f: Frame)
    ensures Drain([f]) == [f]
  {
    assert [f][..0] == [];
  }

  /** What the camera has added is what it has shown and what would come out next. */
  predicate InLine(s: State, camera: int) {
    Of(AddedFrames(s), camera) == Of(ShownFrames(s) + Drain(s.frames), camera)
  }

  lemma InLineStep(s: State, e: Event, camera: int)
    requires InLine(s, camera) && Increasing(Of(AddedFrames(Step(s, e)), camera))
    ensures InLine(Step(s, e), camera)
  {
    hide Step, Those, Drain, AfterArrival;
    var t := Step(s, e);
    StepCases(s, e);
    if e.Arrive? {
      InLineArrival(s, e.frame, camera);
    } else {
      assert AddedFrames(t) == AddedFrames(s);
      if SameHistory(s, t) {
        assert ShownFrames(t) == ShownFrames(s);
      } else {
        TakeKeepsLine(s, t);
      }
    }
  }

  lemma TakeKeepsLine(s: State, t: State)
    requires TookOldest(s, t)
    ensures ShownFrames(t) + Drain(t.frames) == ShownFrames(s) + Drain(s.frames)
  {
    assert ShownFrames(t) == ShownFrames(s) + [Oldest(s)];
  }

  lemma InLineArrival(s: State, f: Frame, camera: int)
    requires InLine(s, camera) && Increasing(Of(AddedFrames(AfterArrival(s, f)), camera))
    ensures InLine(AfterArrival(s, f), camera)
  {
    var t, before, shown := AfterArrival(s, f), AddedFrames(s), ShownFrames(s);
    ArrivalHistories(s, f);
    hide Those, Drain, Insert, AfterArrival, AddedFrames, ShownFrames, Increasing;
    ThoseConcat(before, [f], FromCamera(camera));
    ThoseConcat(shown, Drain(s.frames), FromCamera(camera));
    ThoseOne(f, FromCamera(camera));
    if f.server == camera {
      OwnAreOlder(before, shown, s.frames, f, camera);
    }
    InsertBehindOwn(s.frames, f, camera);
    ThoseConcat(shown, Drain(Insert(s.frames, f)), FromCamera(camera));
    ThoseConcat(Drain(s.frames), [f], FromCamera(camera));
    Regroup(Of(shown, camera), Of(Drain(s.frames), camera), Of([f], camera));
  }

  lemma ArrivalHistories(s: State, f: Frame)
    ensures var t := AfterArrival(s, f);
            && t.frames == Insert(s.frames, f)
            && AddedFrames(t) == AddedFrames(s) + [f] && ShownFrames(t) == ShownFrames(s)
  {
  }

  lemma OwnAreOlder(added: seq<Frame>, shown: seq<Frame>, frames: seq<Frame>, f: Frame, camera: int)
    requires Of(added, camera) == Of(shown, camera) + Of(Drain(frames), camera)
    requires Increasing(Of(added, camera) + [f])
    ensures forall g :: g in frames && g.server == camera ==> g.sent < f.sent
  {
    var own := Of(added, camera);
    forall g | g in frames && g.server == camera
      ensures g.sent < f.sent
    {
      DrainElements(frames);
      ThoseElements(Drain(frames), FromCamera(camera));
      assert g in Of(Drain(frames), camera);
      assert g in own;
      var i :| 0 <= i < |own| && own[i] == g;
      assert (own + [f])[i] == g && (own + [f])[|own|] == f;
    }
  }

  lemma {:induction false} InLineRun(clock: int, evs: seq<Event>, camera: int)
    requires Increasing(Of(AddedFrames(Run(Initial(clock), evs)), camera))
    ensures InLine(Run(Initial(clock), evs), camera)
  {
    hide Step, Those, Drain, AddedFrames, Increasing, InLine;
    if evs == [] {
      InLineInitially(clock, camera);
    } else {
      var before, e := Run(Initial(clock), evs[..|evs| - 1]), evs[|evs| - 1];
      AddedOfGrows(before, e, camera);
      InLineRun(clock, evs[..|evs| - 1], camera);
      InLineStep(before, e, camera);
    }
  }

  lemma InLineInitially(clock: int, camera: int)
    ensures InLine(Initial(clock), camera)
  {
    assert ShownFrames(Initial(clock)) + Drain([]) == AddedFrames(Initial(clock));
  }

  lemma AddedOfGrows(s: State, e: Event, camera: int)
    requires Increasing(Of(AddedFrames(Step(s, e)), camera))
    ensures Increasing(Of(AddedFrames(s), camera))
  {
    AddedGrows(s, e);
    var a, b := AddedFrames(s), AddedFrames(Step(s, e));
    hide Those, Step;
    assert b == a + b[|a|..];
    ThoseConcat(a, b[|a|..], FromCamera(camera));
    var x, y := Of(a, camera), Of(b, camera);
    assert forall i :: 0 <= i < |x| ==> x[i] == y[i];
  }

  /** First in, first out: for any interleaving of arrivals, waits and modes, a camera whose
      frames arrive with increasing sent times has them shown in that order, with none left
      out in between. */
  lemma CameraFifo(clock: int, evs: seq<Event>, camera: int)
    requires Increasing(Of(AddedFrames(Run(Initial(clock), evs)), camera))
    ensures Of(ShownFrames(Run(Initial(clock), evs)), camera) <= Of(AddedFrames(Run(Initial(clock), evs)), camera)
  {
    var s := Run(Initial(clock), evs);
    hide Run, Those;
    InLineRun(clock, evs, camera);
    ThoseConcat(ShownFrames(s), Drain(s.frames), FromCamera(camera));
  }

  // ---------------------------------------------------------------------------
  // The sync delay
  // ---------------------------------------------------------------------------

  ghost predicate FourfoldOfBase(d: int) {
    exists k: nat :: d == 500 * Pow(4, k)
  }

  /** Camera one's delays are at most `bound`. */
  predicate DelaysAtMost(evs: seq<Event>, bound: int) {
    forall i :: 0 <= i < |evs| && evs[i].Arrive? && evs[i].frame.server == 1 ==>
      evs[i].frame.received - evs[i].frame.sent <= bound
  }

  lemma FourfoldStep(d: int)
    requires FourfoldOfBase(d)
    ensures FourfoldOfBase(4 * d)
  {
    var k: nat :| d == 500 * Pow(4, k);
    assert 4 * d == 500 * Pow(4, k + 1);
  }

  lemma DelayStep(s: State, e: Event)
    requires FourfoldOfBase(s.syncTime)
    ensures var t := Step(s, e);
            || t.syncTime == s.syncTime
            || (t.syncTime == 4 * s.syncTime && s.syncTime * 2 < s.average1 && t.average1 == s.average1)
    ensures FourfoldOfBase(Step(s, e).syncTime)
  {
    hide FourfoldOfBase;
    FourfoldStep(s.syncTime);
  }

  /** The sync delay is 500 ms times a power of four and is never lowered. */
  lemma {:induction false} SyncDelayGrows(clock: int, evs: seq<Event>)
    ensures var d := Run(Initial(clock), evs).syncTime;
            && FourfoldOfBase(d) && d >= SYNC_TIME_MS
            && (evs != [] ==> Run(Initial(clock), evs[..|evs| - 1]).syncTime <= d)
  {
    hide Step, FourfoldOfBase;
    if evs == [] {
      BaseIsFourfold();
    } else {
      SyncDelayGrows(clock, evs[..|evs| - 1]);
      DelayStep(Run(Initial(clock), evs[..|evs| - 1]), evs[|evs| - 1]);
    }
  }

  lemma BaseIsFourfold()
    ensures FourfoldOfBase(SYNC_TIME_MS)
  {
    assert SYNC_TIME_MS == 500 * Pow(4, 0);
  }

  /** It stays within twice the largest delay of camera one. */
  lemma {:induction false} SyncDelayBound(clock: int, evs: seq<Event>, bound: int)
    requires 0 <= bound && DelaysAtMost(evs, bound)
    ensures var s := Run(Initial(clock), evs);
            s.average1 <= bound && s.syncTime <= (if 2 * bound < 500 then 500 else 2 * bound)
  {
    if evs == [] {
    } else {
      var before, e := Run(Initial(clock), evs[..|evs| - 1]), evs[|evs| - 1];
      SyncDelayBound(clock, evs[..|evs| - 1], bound);
      SyncDelayGrows(clock, evs[..|evs| - 1]);
      DelayStep(before, e);
      AverageStep(before, e, bound);
    }
  }

  lemma AverageStep(s: State, e: Event, bound: int)
    requires 0 <= bound && s.average1 <= bound
    requires e.Arrive? && e.frame.server == 1 ==> Delay(e.frame) <= bound
    ensures Step(s, e).average1 <= bound
  {
    if e.Arrive? && e.frame.server == 1 {
      AverageBounded(s.average1, Delay(e.frame), bound);
    }
    hide NextAverage, Insert, Disparity;
  }

  /** The updater looks at the clock for a new frame: from the start of `update()` or out of
      the first wait, in synchronous mode, with a frame held. */
  predicate LooksAnew(s: State, e: Event) {
    e == Resume && (s.pc == Ready || s.pc == WaitingForFrame) && s.sync && s.frames != []
  }

  /** The sync delay changes only then, and grows fourfold exactly when camera one's average is
      over twice the delay. */
  lemma SyncDelayStep(s: State, e: Event)
    ensures Step(s, e).syncTime ==
            if LooksAnew(s, e) && s.average1 > 2 * s.syncTime then 4 * s.syncTime else s.syncTime
  {
    hide Disparity, Insert, NextAverage;
  }

  /** How often in a run the updater looks anew while camera one's average is at least `a`. */
  function LooksWith(s: State, evs: seq<Event>, a: int): nat {
    if evs == [] then 0
    else
      var before, e := Run(s, evs[..|evs| - 1]), evs[|evs| - 1];
      LooksWith(s, evs[..|evs| - 1], a) + (if LooksAnew(before, e) && before.average1 >= a then 1 else 0)
  }

  lemma {:induction false} DelayOrPower(s: State, evs: seq<Event>, a: int)
    requires s.syncTime >= 0
    ensures var t := Run(s, evs);
            && t.syncTime >= s.syncTime
            && (2 * t.syncTime >= a || t.syncTime >= s.syncTime * Pow(4, LooksWith(s, evs, a)))
  {
    hide Step;
    if evs == [] {
      assert Pow(4, 0) == 1;
    } else {
      var before, e := Run(s, evs[..|evs| - 1]), evs[|evs| - 1];
      var n := LooksWith(s, evs[..|evs| - 1], a);
      DelayOrPower(s, evs[..|evs| - 1], a);
      SyncDelayStep(before, e);
      hide LooksAnew;
      if LooksAnew(before, e) && before.average1 >= a && 2 * before.syncTime < a {
        assert Pow(4, n + 1) == 4 * Pow(4, n);
        assert s.syncTime * Pow(4, n + 1) == 4 * (s.syncTime * Pow(4, n));
      }
    }
  }

  /** The sync delay keeps up: after n looks during which camera one's average was at least `a`,
      with 1000 * 4^n >= a, twice the delay is at least `a`. */
  lemma SyncDelayKeepsUp(clock: int, evs: seq<Event>, a: int)
    requires 1000 * Pow(4, LooksWith(Initial(clock), evs, a)) >= a
    ensures 2 * Run(Initial(clock), evs).syncTime >= a
  {
    hide Run, LooksWith;
    DelayOrPower(Initial(clock), evs, a);
  }

  // ---------------------------------------------------------------------------
  // The averages
  // ---------------------------------------------------------------------------

  /** The filter folded over the delays of one camera's frames. */
  function AverageOf(added: seq<Arrival>, camera: int): int {
    if added == [] then 0
    else
      var f := added[|added| - 1].frame;
      if f.server == camera then NextAverage(AverageOf(added[..|added| - 1], camera), f.received - f.sent)
      else AverageOf(added[..|added| - 1], camera)
  }

  lemma AverageOfSnoc(added: seq<Arrival>, a: Arrival, camera: int)
    ensures AverageOf(added + [a], camera) ==
            if a.frame.server == camera then NextAverage(AverageOf(added, camera), a.frame.received - a.frame.sent)
            else AverageOf(added, camera)
  {
    hide NextAverage;
    assert (added + [a])[..|added|] == added;
  }

  lemma AveragesStep(s: State, e: Event)
    requires s.average1 == AverageOf(s.added, 1) && s.average2 == AverageOf(s.added, 2)
    ensures var t := Step(s, e); t.average1 == AverageOf(t.added, 1) && t.average2 == AverageOf(t.added, 2)
  {
    hide AverageOf, NextAverage, Insert, AfterResume;
    if e.Arrive? {
      AverageOfSnoc(s.added, Arrival(e.frame, s.clock, |s.shown|), 1);
      AverageOfSnoc(s.added, Arrival(e.frame, s.clock, |s.shown|), 2);
    } else {
      AveragesStay(s, e);
    }
  }

  lemma AveragesStay(s: State, e: Event)
    requires !e.Arrive?
    ensures var t := Step(s, e); t.average1 == s.average1 && t.average2 == s.average2 && t.added == s.added
  {
    hide Disparity;
  }

  /** In every run each average is the filter over the delays, received less sent, of the frames
      that its camera has added. */
  lemma {:induction false} AveragesFold(clock: int, evs: seq<Event>)
    ensures var s := Run(Initial(clock), evs);
            s.average1 == AverageOf(s.added, 1) && s.average2 == AverageOf(s.added, 2)
  {
    hide Step;
    if evs == [] {
    } else {
      AveragesFold(clock, evs[..|evs| - 1]);
      AveragesStep(Run(Initial(clock), evs[..|evs| - 1]), evs[|evs| - 1]);
    }
  }

  lemma {:induction false} ConstantAverage(added: seq<Arrival>, camera: int, d: int)
    requires forall i :: 0 <= i < |added| && added[i].frame.server == camera ==>
               added[i].frame.received - added[i].frame.sent == d
    ensures AverageOf(added, camera) == Steady(0, d, |Of(FramesOfArrivals(added), camera)|)
  {
    if added == [] {
    } else {
      var rest := added[..|added| - 1];
      ConstantAverage(rest, camera, d);
      assert FramesOfArrivals(added)[..|added| - 1] == FramesOfArrivals(rest);
    }
  }

  /** The resting point of the filter from zero, for a delay of either sign. */
  function Resting(d: int): int {
    if d > 4 then d - 4 else if d < -4 then d + 4 else 0
  }

  /** A camera with constant delay d and n frames added so far: its average is that of n steady
      frames, and once (5/4)^n exceeds |d| it is within four of d, on the side of zero. */
  lemma AverageConverges(clock: int, evs: seq<Event>, camera: int, d: int)
    requires camera == 1 || camera == 2
    requires var s := Run(Initial(clock), evs);
             forall i :: 0 <= i < |s.added| && s.added[i].frame.server == camera ==>
               s.added[i].frame.received - s.added[i].frame.sent == d
    ensures var s := Run(Initial(clock), evs);
            var n := |Of(AddedFrames(s), camera)|;
            var average := if camera == 1 then s.average1 else s.average2;
            && average == Steady(0, d, n)
            && (Pow(4, n) * Abs(d) < Pow(5, n) ==> average == Resting(d))
  {
    hide Run, Those;
    var s := Run(Initial(clock), evs);
    AveragesFold(clock, evs);
    ConstantAverage(s.added, camera, d);
    hide AverageOf, Steady, FramesOfArrivals;
    var n := |Of(AddedFrames(s), camera)|;
    SteadyMirrored(0, d, n);
    if Pow(4, n) * Abs(d) < Pow(5, n) {
      MulMonotone(Pow(4, n), Excess(0, Abs(d)), Abs(d));
      Converges(0, Abs(d), n);
    }
  }

  // ---------------------------------------------------------------------------
  // Automatic switching
  // ---------------------------------------------------------------------------

  const BAND := 102

  /** What each step makes of the mode, with the two thresholds: a click sets it; an asynchronous
      display ends in synchronous mode exactly with auto on and the averages less than 450 ms
      apart; a synchronous display leaves synchronous mode exactly with auto on and more than
      550 ms between them; nothing else changes it. */
  lemma SwitchesExactly(s: State, e: Event)
    ensures var t, apart := Step(s, e), Abs(s.average1 - s.average2);
            if e.Settings? then t.sync == e.sync && t.auto == e.auto && t.switches == s.switches
            else
              && t.auto == s.auto
              && t.switches == s.switches + (if t.sync != s.sync then 1 else 0)
              && (if |t.shown| == |s.shown| then t.sync == s.sync
                  else if !t.shown[|s.shown|].sync then !s.sync && (t.sync <==> s.auto && apart < 450)
                  else t.sync <==> s.sync && !(s.auto && apart > 550))
  {
    hide NextAverage, Insert, Oldest;
  }

  /** Where the updater is after running on, and which branch has shown a frame. */
  lemma ResumesExactly(s: State)
    requires Safe(s)
    ensures var t, timed := Step(s, Resume), s.pc == WaitingForTime || s.sync;
            if |t.shown| > |s.shown| then
              t.pc == Ready && |t.shown| == |s.shown| + 1 && t.shown[|s.shown|].sync == timed
            else
              if s.frames == [] then t.pc == WaitingForFrame else timed && t.pc == WaitingForTime
  {
    hide Disparity;
  }

  /** The averages stay less than 450 ms apart, or more than 550 ms. */
  predicate KeepsClose(s: State, evs: seq<Event>) {
    forall i :: 0 <= i < |evs| ==> Abs(Run(s, evs[..i]).average1 - Run(s, evs[..i]).average2) < 450
  }

  predicate KeepsApart(s: State, evs: seq<Event>) {
    forall i :: 0 <= i < |evs| ==> Abs(Run(s, evs[..i]).average1 - Run(s, evs[..i]).average2) > 550
  }

  lemma KeepsPrefix(s: State, evs: seq<Event>)
    requires evs != []
    ensures KeepsClose(s, evs) ==> KeepsClose(s, evs[..|evs| - 1])
    ensures KeepsApart(s, evs) ==> KeepsApart(s, evs[..|evs| - 1])
  {
    hide Run, Abs;
    var shorter := evs[..|evs| - 1];
    assert forall i :: 0 <= i < |shorter| ==> shorter[..i] == evs[..i];
  }

  /** With automatic mode on and the averages close, the next display leaves synchronous mode
      on, and it stays on. A wait for a display time that a click has made pointless is the one
      place to start from where that display does not switch. */
  lemma {:induction false} SwitchesOn(s: State, evs: seq<Event>)
    requires Safe(s) && s.auto && HandsOff(evs) && KeepsClose(s, evs)
    requires s.pc == WaitingForTime ==> s.sync
    ensures var t := Run(s, evs);
            && Safe(t) && t.auto && (t.pc == WaitingForTime ==> t.sync)
            && (s.sync || |t.shown| > |s.shown| ==> t.sync)
  {
    hide Safe, Step, Abs;
    if evs == [] {
    } else {
      var before, e := Run(s, evs[..|evs| - 1]), evs[|evs| - 1];
      KeepsPrefix(s, evs);
      SwitchesOn(s, evs[..|evs| - 1]);
      SafeStep(before, e);
      SwitchesExactly(before, e);
      NothingElseShows(before, e);
      if e == Resume {
        ResumesExactly(before);
      }
    }
  }

  lemma NothingElseShows(s: State, e: Event)
    ensures |Step(s, e).shown| >= |s.shown|
    ensures e != Resume ==> Step(s, e).shown == s.shown && Step(s, e).pc == s.pc
  {
    hide Disparity, NextAverage, Insert;
  }

  /** With the averages far apart the next display leaves asynchronous mode on, and it stays on. */
  lemma {:induction false} SwitchesOff(s: State, evs: seq<Event>)
    requires s.auto && HandsOff(evs) && KeepsApart(s, evs)
    ensures var t := Run(s, evs);
            && t.auto && |t.shown| >= |s.shown|
            && (!s.sync || |t.shown| > |s.shown| ==> !t.sync)
  {
    hide Step, Abs;
    if evs == [] {
    } else {
      var before, e := Run(s, evs[..|evs| - 1]), evs[|evs| - 1];
      KeepsPrefix(s, evs);
      SwitchesOff(s, evs[..|evs| - 1]);
      SwitchesExactly(before, e);
      NothingElseShows(before, e);
    }
  }

  /** How far the disparity has come back toward the threshold of the next switch. */
  function Credit(s: State): nat {
    if s.sync then (if Disparity(s) > 449 then Disparity(s) - 449 else 0)
    else (if Disparity(s) < 551 then 551 - Disparity(s) else 0)
  }

  lemma ResumeSwitch(s: State)
    ensures var t := AfterResume(s);
            && t.average1 == s.average1 && t.average2 == s.average2 && t.movement == s.movement
            && (if t.sync == s.sync then t.switches == s.switches
                else && t.switches == s.switches + 1
                     && (if t.sync then Disparity(s) <= 449 else Disparity(s) >= 551))
  {
    hide Oldest;
  }

  /** A step without user input either switches, which takes the credit of a whole band and
      leaves none, or moves the credit by no more than the averages move. */
  lemma SwitchStep(s: State, e: Event)
    requires !e.Settings?
    ensures var t := Step(s, e);
            || (t.switches == s.switches && t.sync == s.sync && t.movement >= s.movement
                && Credit(t) <= Credit(s) + (t.movement - s.movement))
            || (t.switches == s.switches + 1 && t.movement == s.movement && Credit(s) >= BAND && Credit(t) == 0)
  {
    hide NextAverage, Insert;
    if e == Resume {
      ResumeSwitch(s);
    }
  }

  /** Every switch but the first is paid for by 102 ms of movement. */
  lemma {:induction false} SwitchAccount(s: State, evs: seq<Event>)
    requires HandsOff(evs)
    ensures var t := Run(s, evs);
            && t.switches >= s.switches && t.movement >= s.movement
            && (t.switches > s.switches ==>
                  102 * (t.switches - s.switches - 1) + Credit(t) <= t.movement - s.movement)
  {
    if evs == [] {
    } else {
      hide Step, Credit;
      SwitchAccount(s, evs[..|evs| - 1]);
      SwitchStep(Run(s, evs[..|evs| - 1]), evs[|evs| - 1]);
    }
  }

  /** Bounded switching: from any state on, as long as the user keeps off the settings, the
      updater changes mode at most once more than the averages move by 102 ms. */
  lemma BoundedSwitching(s: State, evs: seq<Event>)
    requires HandsOff(evs)
    ensures Run(s, evs).switches - s.switches <= 1 + (Run(s, evs).movement - s.movement) / 102
  {
    hide Run, Credit;
    SwitchAccount(s, evs);
  }

  /** Every frame of a camera has the camera's constant delay. */
  predicate ConstantDelays(evs: seq<Event>, d1: int, d2: int) {
    forall i :: 0 <= i < |evs| && evs[i].Arrive? ==>
      && (evs[i].frame.server == 1 ==> evs[i].frame.received - evs[i].frame.sent == d1)
      && (evs[i].frame.server == 2 ==> evs[i].frame.received - evs[i].frame.sent == d2)
  }

  lemma {:induction false} MovementUnderConstantDelays(s: State, evs: seq<Event>, d1: int, d2: int)
    requires ConstantDelays(evs, d1, d2)
    ensures var t := Run(s, evs);
            t.movement - s.movement + Abs(d1 - t.average1) + Abs(d2 - t.average2) ==
            Abs(d1 - s.average1) + Abs(d2 - s.average2)
  {
    hide Step, Abs;
    if evs == [] {
    } else {
      var before, e := Run(s, evs[..|evs| - 1]), evs[|evs| - 1];
      MovementUnderConstantDelays(s, evs[..|evs| - 1], d1, d2);
      MovementStep(before, e, d1, d2);
    }
  }

  lemma MovementStep(s: State, e: Event, d1: int, d2: int)
    requires e.Arrive? && e.frame.server == 1 ==> e.frame.received - e.frame.sent == d1
    requires e.Arrive? && e.frame.server == 2 ==> e.frame.received - e.frame.sent == d2
    ensures var t := Step(s, e);
            t.movement - s.movement + Abs(d1 - t.average1) + Abs(d2 - t.average2) ==
            Abs(d1 - s.average1) + Abs(d2 - s.average2)
  {
    if e.Arrive? {
      MovesToward(s.average1, d1);
      MovesToward(s.average2, d2);
    }
    hide NextAverage, Insert, Disparity;
  }

  /** Under constant delays the mode settles: however long the run and however frames and
      updates interleave, the switches are at most one more than the cameras' distances from
      their averages allow - from the start, 1 + (|d1| + |d2|) / 102. */
  lemma SwitchingSettles(s: State, evs: seq<Event>, d1: int, d2: int)
    requires ConstantDelays(evs, d1, d2) && HandsOff(evs)
    ensures Run(s, evs).switches - s.switches <= 1 + (Abs(d1 - s.average1) + Abs(d2 - s.average2)) / 102
    ensures s.average1 == s.average2 == 0 ==> Run(s, evs).switches - s.switches <= 1 + (Abs(d1) + Abs(d2)) / 102
  {
    hide Run;
    SwitchAccount(s, evs);
    MovementUnderConstantDelays(s, evs, d1, d2);
  }
}
