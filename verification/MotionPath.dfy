/** Motion from the server's mode calls to the client's mode changes: a server history is
    sampled into headers, sent over one FIFO connection and edge-detected by the reader. */
module MotionPath {
  import opened Words
  import opened Wire
  import opened Modes
  import opened SocketWriter
  import opened ModeHandler
  import opened ServerReader
  import opened StreamTheorems
  import opened Sequences

  /** What the server's threads do to the shared state, one at a time: a call on the mode
      handler, or one captured picture going out. */
  datatype ServerEvent = Call(op: ServerOp) | Capture(time: nat, image: seq<Byte>)

  function OpsOf(evs: seq<ServerEvent>): seq<ServerOp> {
    if evs == [] then []
    else OpsOf(evs[..|evs| - 1]) + (if evs[|evs| - 1].Call? then [evs[|evs| - 1].op] else [])
  }

  /** The frames sent, each with the mode octet of the moment. */
  function FramesSent(evs: seq<ServerEvent>): seq<Captured> {
    if evs == [] then []
    else
      var before, e := evs[..|evs| - 1], evs[|evs| - 1];
      FramesSent(before) +
      (if e.Capture? then [Captured(e.time, ModeByteOf(Run(OpsOf(before)).writer), e.image)] else [])
  }

  function ModeBytes(cs: seq<Captured>): (bs: seq<Byte>)
    ensures |bs| == |cs|
  {
    seq(|cs|, i requires 0 <= i < |cs| => cs[i].modeByte)
  }

  /** The server starts as `main` does. */
  predicate Started(evs: seq<ServerEvent>) {
    evs != [] && evs[0] == Call(Register(SocketSetMode, true))
  }

  /** The calls that begin a movie period with detected motion. */
  function MotionStarts(ops: seq<ServerOp>): nat {
    if ops == [] then 0
    else
      var before, op := ops[..|ops| - 1], ops[|ops| - 1];
      MotionStarts(before) +
      (if op.SetMode? && op.mode == Movie && op.motion && LastMode(before) == Idle then 1 else 0)
  }

  /** The reader's motion flag after the mode octets `bs`. */
  function MotionFlag(bs: seq<Byte>): bool {
    if bs == [] then false else MotionAfter(MotionFlag(bs[..|bs| - 1]), bs[|bs| - 1])
  }

  /** The mode changes that the octets cause. */
  function Edges(bs: seq<Byte>): nat {
    if bs == [] then 0
    else Edges(bs[..|bs| - 1]) + (if RaisesEvent(MotionFlag(bs[..|bs| - 1]), bs[|bs| - 1]) then 1 else 0)
  }

  // ---------------------------------------------------------------------------
  // Mode octets
  // ---------------------------------------------------------------------------

  /** Idle, movie on command, movie begun by motion. */
  predicate ServerOctet(b: Byte) {
    b == 0 || b == 1 || b == 3
  }

  lemma OctetBits(b: Byte)
    requires ServerOctet(b)
    ensures MotionBit(b) <==> b == 3
    ensures MovieBit(b) <==> b != 0
  {
    assert Pattern(JavaByte(b), TWO_32) == b;
    assert And(3, 2) == 2 * And(1, 1) && And(1, 1) == 2 * And(0, 0) + 1;
    assert And(1, 2) == 2 * And(0, 1);
  }

  lemma ComposedOctet(w: WriterState)
    requires w.motionBit == 0 || (w.motionBit == 2 && w.mode == Movie)
    ensures ModeByteOf(w) == if w.mode == Idle then 0 else if w.motionBit == 0 then 1 else 3
  {
    assert Or(1, 2) == 2 * Or(0, 1) + 1;
  }

  lemma OpsOfStarted(evs: seq<ServerEvent>)
    requires Started(evs)
    ensures OpsOf(evs) != [] && OpsOf(evs)[0] == Register(SocketSetMode, true)
  {
    if |evs| > 1 {
      OpsOfStarted(evs[..|evs| - 1]);
    } else {
      assert OpsOf(evs[..0]) == [];
    }
  }

  /** The octet of the moment tells the mode and whether motion began it. */
  lemma SampledOctet(evs: seq<ServerEvent>)
    requires Started(evs)
    ensures var ops := OpsOf(evs);
            ModeByteOf(Run(ops).writer) == if LastMode(ops) == Idle then 0 else if BeganWithMotion(ops) then 3 else 1
  {
    OpsOfStarted(evs);
    ServerHistory(OpsOf(evs));
    ComposedOctet(Run(OpsOf(evs)).writer);
  }

  // ---------------------------------------------------------------------------
  // At most one mode change per motion start
  // ---------------------------------------------------------------------------

  lemma SnocOctet(cs: seq<Captured>, c: Captured)
    ensures ModeBytes(cs + [c]) == ModeBytes(cs) + [c.modeByte]
    ensures MotionFlag(ModeBytes(cs + [c])) == MotionAfter(MotionFlag(ModeBytes(cs)), c.modeByte)
    ensures Edges(ModeBytes(cs + [c])) ==
            Edges(ModeBytes(cs)) + (if RaisesEvent(MotionFlag(ModeBytes(cs)), c.modeByte) then 1 else 0)
  {
    var all := ModeBytes(cs + [c]);
    assert all == ModeBytes(cs) + [c.modeByte];
    assert all[..|all| - 1] == ModeBytes(cs);
  }

  /** The account kept over a history: a movie period begun by motion that the client has not
      noticed leaves one start unanswered. */
  ghost predicate Account(ops: seq<ServerOp>, bs: seq<Byte>) {
    Edges(bs) + (if BeganWithMotion(ops) && !MotionFlag(bs) then 1 else 0) <= MotionStarts(ops)
  }

  lemma AccountAfterCall(ops: seq<ServerOp>, op: ServerOp, bs: seq<Byte>)
    requires Account(ops, bs)
    ensures Account(ops + [op], bs)
  {
    hide Edges, MotionFlag, BeganWithMotion, LastMode;
    BeganWithMotionStep(ops, op);
    StartsSnoc(ops, op);
  }

  lemma AccountAfterSample(ops: seq<ServerOp>, cs: seq<Captured>, c: Captured)
    requires Account(ops, ModeBytes(cs))
    requires BeganWithMotion(ops) ==> LastMode(ops) == Movie
    requires c.modeByte == if LastMode(ops) == Idle then 0 else if BeganWithMotion(ops) then 3 else 1
    ensures Account(ops, ModeBytes(cs + [c]))
  {
    hide Edges, MotionFlag, BeganWithMotion, LastMode, MotionStarts, RaisesEvent, MotionAfter;
    SnocOctet(cs, c);
    SampleAccount(MotionFlag(ModeBytes(cs)), c.modeByte);
  }

  lemma {:induction false} MotionAccount(evs: seq<ServerEvent>)
    requires Started(evs)
    ensures Account(OpsOf(evs), ModeBytes(FramesSent(evs)))
  {
    hide ModeByteOf, Run, Account, BeganWithMotion, LastMode;
    if |evs| == 1 {
      FirstEvent(evs);
    } else {
      var before, e := evs[..|evs| - 1], evs[|evs| - 1];
      MotionAccount(before);
      var ops, cs := OpsOf(before), FramesSent(before);
      if e.Call? {
        assert FramesSent(evs) == cs + [] == cs;
        AccountAfterCall(ops, e.op, ModeBytes(cs));
      } else {
        assert OpsOf(evs) == ops + [] == ops;
        SampledOctet(before);
        OpsOfStarted(before);
        ServerHistory(ops);
        AccountAfterSample(ops, cs, Captured(e.time, ModeByteOf(Run(ops).writer), e.image));
      }
    }
  }

  lemma SampleAccount(motion: bool, b: Byte)
    requires ServerOctet(b)
    ensures RaisesEvent(motion, b) <==> b == 3 && !motion
    ensures MotionAfter(motion, b) == if b == 3 then true else if b == 0 then false else motion
  {
    OctetBits(b);
  }

  lemma StartsSnoc(ops: seq<ServerOp>, op: ServerOp)
    ensures MotionStarts(ops + [op]) == MotionStarts(ops) +
            (if op.SetMode? && op.mode == Movie && op.motion && LastMode(ops) == Idle then 1 else 0)
  {
    assert (ops + [op])[..|ops|] == ops;
  }

  lemma FirstEvent(evs: seq<ServerEvent>)
    requires Started(evs) && |evs| == 1
    ensures OpsOf(evs) == [Register(SocketSetMode, true)] && FramesSent(evs) == []
    ensures Account(OpsOf(evs), ModeBytes(FramesSent(evs)))
  {
    assert OpsOf(evs[..0]) == [] && FramesSent(evs[..0]) == [];
  }

  // ---------------------------------------------------------------------------
  // Exactly one mode change per sampled episode
  // ---------------------------------------------------------------------------

  /** A motion header has been sampled and no idle header since. */
  ghost predicate InEpisode(bs: seq<Byte>) {
    exists j :: 0 <= j < |bs| && bs[j] == 3 && forall k :: j < k < |bs| ==> bs[k] != 0
  }

  /** The i-th header opens a motion episode. */
  ghost predicate OpensEpisode(bs: seq<Byte>, i: int) {
    0 <= i < |bs| && bs[i] == 3 && !InEpisode(bs[..i])
  }

  ghost function Episodes(bs: seq<Byte>): set<int> {
    set i | 0 <= i < |bs| && OpensEpisode(bs, i)
  }

  lemma InEpisodeSnoc(bs: seq<Byte>, b: Byte)
    ensures InEpisode(bs + [b]) <==> b == 3 || (b != 0 && InEpisode(bs))
  {
    var all, n := bs + [b], |bs|;
    assert all[n] == b && forall k :: 0 <= k < n ==> all[k] == bs[k];
    if b != 0 && InEpisode(bs) {
      var j :| 0 <= j < |bs| && bs[j] == 3 && forall k :: j < k < |bs| ==> bs[k] != 0;
      assert all[j] == 3 && forall k :: j < k < |all| ==> all[k] != 0;
    }
    if InEpisode(all) {
      var j :| 0 <= j < |all| && all[j] == 3 && forall k :: j < k < |all| ==> all[k] != 0;
      if j < n {
        assert all[n] != 0 && bs[j] == 3 && forall k :: j < k < |bs| ==> all[k] != 0;
      }
    }
  }

  lemma {:induction false} FlagIsEpisode(bs: seq<Byte>)
    requires forall i :: 0 <= i < |bs| ==> ServerOctet(bs[i])
    ensures MotionFlag(bs) <==> InEpisode(bs)
  {
    if bs == [] {
    } else {
      var a, b := bs[..|bs| - 1], bs[|bs| - 1];
      assert bs == a + [b];
      FlagIsEpisode(a);
      InEpisodeSnoc(a, b);
      SampleAccount(MotionFlag(a), b);
    }
  }

  /** The mode changes number exactly the sampled motion episodes. */
  lemma {:induction false} EdgesAreEpisodes(bs: seq<Byte>)
    requires forall i :: 0 <= i < |bs| ==> ServerOctet(bs[i])
    ensures Edges(bs) == |Episodes(bs)|
  {
    hide RaisesEvent, MotionAfter;
    if bs == [] {
    } else {
      var n := |bs| - 1;
      EdgesAreEpisodes(bs[..n]);
      FlagIsEpisode(bs[..n]);
      SampleAccount(MotionFlag(bs[..n]), bs[n]);
      EpisodesSnoc(bs);
    }
  }

  lemma EpisodesSnoc(bs: seq<Byte>)
    requires bs != []
    ensures var n := |bs| - 1;
            && Episodes(bs) == Episodes(bs[..n]) + (if OpensEpisode(bs, n) then {n} else {})
            && n !in Episodes(bs[..n])
  {
    hide InEpisode;
    var n := |bs| - 1;
    forall i | 0 <= i < n
      ensures OpensEpisode(bs, i) <==> OpensEpisode(bs[..n], i)
    {
      assert bs[..i] == bs[..n][..i];
    }
  }

  lemma {:induction false} SentOctets(evs: seq<ServerEvent>)
    requires Started(evs)
    ensures forall i :: 0 <= i < |FramesSent(evs)| ==> ServerOctet(FramesSent(evs)[i].modeByte)
  {
    if |evs| == 1 {
      FirstEvent(evs);
    } else {
      SentOctets(evs[..|evs| - 1]);
      SampledOctet(evs[..|evs| - 1]);
    }
  }

  /** The captures among the first n events. */
  function Captures(evs: seq<ServerEvent>, n: nat): set<int>
    requires n <= |evs|
  {
    set i | 0 <= i < n && evs[i].Capture?
  }

  lemma {:induction false} SentCount(evs: seq<ServerEvent>, n: nat)
    requires n <= |evs|
    ensures |FramesSent(evs[..n])| == |Captures(evs, n)|
  {
    hide ModeByteOf, Run;
    if n == 0 {
      assert Captures(evs, 0) == {};
    } else {
      SentCount(evs, n - 1);
      assert evs[..n][..n - 1] == evs[..n - 1];
      if evs[n - 1].Capture? {
        assert Captures(evs, n) == Captures(evs, n - 1) + {n - 1};
      } else {
        assert Captures(evs, n) == Captures(evs, n - 1);
      }
    }
  }

  lemma {:induction false} SentPrefix(evs: seq<ServerEvent>, m: nat, n: nat)
    requires m <= n <= |evs|
    ensures FramesSent(evs[..m]) <= FramesSent(evs[..n])
    decreases n
  {
    hide ModeByteOf, Run;
    if m == n {
    } else {
      SentPrefix(evs, m, n - 1);
      assert evs[..n][..n - 1] == evs[..n - 1];
    }
  }

  /** Every capture is sent, in its place: as many frames as captures, and the one at i is the
      next after those before it, with its time, its picture and the octet of the moment - 0 in
      idle mode, 3 in a movie period that motion began, 1 in any other. */
  lemma CaptureIsSent(evs: seq<ServerEvent>, i: nat)
    requires Started(evs) && i < |evs| && evs[i].Capture?
    ensures var k, cs, ops := |Captures(evs, i)|, FramesSent(evs), OpsOf(evs[..i]);
            && k < |cs| == |Captures(evs, |evs|)|
            && cs[k].time == evs[i].time && cs[k].image == evs[i].image
            && cs[k].modeByte == if LastMode(ops) == Idle then 0 else if BeganWithMotion(ops) then 3 else 1
  {
    hide ModeByteOf, Run, LastMode, BeganWithMotion, Captures;
    SentCount(evs, i);
    SentCount(evs, |evs|);
    assert evs[..|evs|] == evs && evs[..i + 1][..i] == evs[..i];
    SentPrefix(evs, i + 1, |evs|);
    SampledOctet(evs[..i]);
    hide OpsOf;
  }

  // ---------------------------------------------------------------------------
  // Through the wire
  // ---------------------------------------------------------------------------

  function ModeChanges(calls: seq<MonitorCall>): nat {
    if calls == [] then 0 else ModeChanges(calls[..|calls| - 1]) + (if calls[|calls| - 1].ChangeMode? then 1 else 0)
  }

  lemma {:induction false} ModeChangesConcat(a: seq<MonitorCall>, b: seq<MonitorCall>)
    ensures ModeChanges(a + b) == ModeChanges(a) + ModeChanges(b)
  {
    if b == [] {
      assert a + b == a;
    } else {
      ModeChangesConcat(a, b[..|b| - 1]);
      assert (a + b)[..|a + b| - 1] == a + b[..|b| - 1];
    }
  }

  lemma {:induction false} ExpectedSnoc(cs: seq<Captured>, c: Captured, motion: bool)
    ensures ExpectedCalls(cs + [c], motion) ==
            ExpectedCalls(cs, motion) + EventCall(RaisesEvent(MotionAfterAll(cs, motion), c.modeByte)) +
            [AddFrame(Received(c))]
    ensures MotionAfterAll(cs + [c], motion) == MotionAfter(MotionAfterAll(cs, motion), c.modeByte)
  {
    hide RaisesEvent, MotionAfter;
    var last := EventCall(RaisesEvent(MotionAfterAll(cs, motion), c.modeByte));
    if cs == [] {
      assert cs + [c] == [c] && [c][1..] == [];
      assert last + [AddFrame(Received(c))] + [] == [] + last + [AddFrame(Received(c))];
    } else {
      var m := MotionAfter(motion, cs[0].modeByte);
      assert (cs + [c])[1..] == cs[1..] + [c];
      ExpectedSnoc(cs[1..], c, m);
      RegroupFour(EventCall(RaisesEvent(motion, cs[0].modeByte)) + [AddFrame(Received(cs[0]))],
                  ExpectedCalls(cs[1..], m), last, [AddFrame(Received(c))]);
    }
  }

  lemma {:induction false} ExpectedModeChanges(cs: seq<Captured>)
    ensures ModeChanges(ExpectedCalls(cs, false)) == Edges(ModeBytes(cs))
    ensures MotionAfterAll(cs, false) == MotionFlag(ModeBytes(cs))
  {
    hide RaisesEvent, MotionAfter;
    if cs == [] {
    } else {
      var a, c := cs[..|cs| - 1], cs[|cs| - 1];
      assert cs == a + [c];
      ExpectedModeChanges(a);
      ExpectedSnoc(a, c, false);
      SnocOctet(a, c);
      var event := EventCall(RaisesEvent(MotionAfterAll(a, false), c.modeByte));
      ModeChangesConcat(ExpectedCalls(a, false) + event, [AddFrame(Received(c))]);
      ModeChangesConcat(ExpectedCalls(a, false), event);
      SingleCall(AddFrame(Received(c)));
      SingleCall(ChangeMode(Movie));
    }
  }

  lemma SingleCall(c: MonitorCall)
    ensures ModeChanges([c]) == if c.ChangeMode? then 1 else 0
  {
    assert [c][..0] == [];
  }

  /** Motion end to end: over any server history, the client's mode changes number exactly the
      sampled motion episodes, never more than the movie periods that motion began, and every
      frame sent arrives as it was sent. */
  lemma MotionEndToEnd(evs: seq<ServerEvent>)
    requires Started(evs) && AllDeliverable(FramesSent(evs))
    ensures var cs := FramesSent(evs);
            var calls := Session(EncodeAll(cs), false);
            && ModeChanges(calls) == |Episodes(ModeBytes(cs))| <= MotionStarts(OpsOf(evs))
            && FramesOf(calls) == seq(|cs|, i requires 0 <= i < |cs| => Received(cs[i]))
  {
    hide ExpectedCalls, Session, Edges, MotionStarts, EncodeAll;
    var cs := FramesSent(evs);
    FramesRoundTrip(cs, false);
    RoundTrip(cs, [], false);
    assert EncodeAll(cs) + [] == EncodeAll(cs);
    SessionOfNothing(MotionAfterAll(cs, false));
    assert ExpectedCalls(cs, false) + [] == ExpectedCalls(cs, false);
    ExpectedModeChanges(cs);
    SentOctets(evs);
    EdgesAreEpisodes(ModeBytes(cs));
    MotionAccount(evs);
  }

  /** Mode calls without motion, such as those a client commands, never come back as mode
      changes. */
  lemma CommandsDoNotBounce(evs: seq<ServerEvent>)
    requires Started(evs) && AllDeliverable(FramesSent(evs))
    requires forall i :: 0 <= i < |OpsOf(evs)| && OpsOf(evs)[i].SetMode? ==> !OpsOf(evs)[i].motion
    ensures ModeChanges(Session(EncodeAll(FramesSent(evs)), false)) == 0
  {
    MotionEndToEnd(evs);
    NoMotionNoStarts(OpsOf(evs));
  }

  lemma {:induction false} NoMotionNoStarts(ops: seq<ServerOp>)
    requires forall i :: 0 <= i < |ops| && ops[i].SetMode? ==> !ops[i].motion
    ensures MotionStarts(ops) == 0
  {
    if ops == [] {
    } else {
      NoMotionNoStarts(ops[..|ops| - 1]);
    }
  }

  /** The server's objects carry out a history: what the encoder has written is the encoding of
      the frames sent. */
  method Serve(evs: seq<ServerEvent>) returns (writer: Writer, handler: Handler)
    ensures fresh(writer) && fresh(handler) && handler.writer == writer
    ensures writer.output == EncodeAll(FramesSent(evs))
    ensures handler.State() == Run(OpsOf(evs))
  {
    hide ModeByteOf, Apply, Encode, Run, OpsOf, FramesSent, EncodeAll;
    writer := new Writer();
    handler := new Handler(writer);
    ServeNothing(evs);
    for i := 0 to |evs|
      invariant fresh(writer) && fresh(handler) && fresh(handler.nodes) && handler.writer == writer
      invariant handler.Valid()
      invariant writer.output == EncodeAll(FramesSent(evs[..i]))
      invariant handler.State() == Run(OpsOf(evs[..i]))
    {
      ServeStep(evs, i);
      match evs[i]
      case Call(Register(c, mallocOk)) => handler.RegisterOnChangeCallback(c, mallocOk);
      case Call(SetMode(mode, motion)) => handler.SetMode(mode, motion);
      case Capture(time, image) => writer.CaptureAndOutput(image, time);
    }
    assert evs[..|evs|] == evs;
  }

  /** The two ends together: a server that carries out a history and a reader on the other end
      of its connection. */
  method Transmit(evs: seq<ServerEvent>) returns (calls: seq<MonitorCall>)
    requires Started(evs) && AllDeliverable(FramesSent(evs))
    ensures ModeChanges(calls) == |Episodes(ModeBytes(FramesSent(evs)))| <= MotionStarts(OpsOf(evs))
    ensures FramesOf(calls) ==
            seq(|FramesSent(evs)|, i requires 0 <= i < |FramesSent(evs)| => Received(FramesSent(evs)[i]))
  {
    hide Session, FramesOf, ModeChanges, Episodes, MotionStarts;
    var writer, handler := Serve(evs);
    var reader := new Reader(writer.output);
    assert reader.Rest() == EncodeAll(FramesSent(evs));
    var _ := reader.Run();
    calls := reader.calls;
    assert calls == [] + Session(EncodeAll(FramesSent(evs)), false) == Session(EncodeAll(FramesSent(evs)), false);
    MotionEndToEnd(evs);
  }

  lemma ServeNothing(evs: seq<ServerEvent>)
    ensures EncodeAll(FramesSent(evs[..0])) == [] && Run(OpsOf(evs[..0])) == INITIAL
  {
  }

  lemma ServeStep(evs: seq<ServerEvent>, i: nat)
    requires i < |evs|
    ensures var ops := OpsOf(evs[..i]);
            Run(OpsOf(evs[..i + 1])) == if evs[i].Call? then Apply(Run(ops), evs[i].op) else Run(ops)
    ensures EncodeAll(FramesSent(evs[..i + 1])) == EncodeAll(FramesSent(evs[..i])) +
            (if evs[i].Capture?
             then Encode(Captured(evs[i].time, ModeByteOf(Run(OpsOf(evs[..i])).writer), evs[i].image))
             else [])
  {
    hide ModeByteOf, Apply, Encode;
    assert evs[..i + 1][..i] == evs[..i];
    var ops, cs := OpsOf(evs[..i]), FramesSent(evs[..i]);
    if evs[i].Call? {
      assert (ops + [evs[i].op])[..|ops|] == ops;
      assert cs + [] == cs;
    } else {
      assert ops + [] == ops;
      var c := Captured(evs[i].time, ModeByteOf(Run(ops).writer), evs[i].image);
      EncodeAllConcat(cs, [c]);
      assert EncodeAll([c]) == Encode(c) + EncodeAll([c][1..]) == Encode(c);
    }
  }
}
