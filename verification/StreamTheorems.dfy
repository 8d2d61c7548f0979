/** What the client's reader makes of the server's octets: round trip, recovery after a dropped
    frame, and the effect of cutting the stream short. */
module StreamTheorems {
  import opened Words
  import opened Wire
  import opened Scanner
  import opened ServerReader
  import opened Modes
  import opened Options
  import opened Sequences

  function Received(c: Captured): Delivery {
    Delivery(c.time, JavaBytes(c.image))
  }

  function EventCall(event: bool): seq<MonitorCall> {
    if event then [ChangeMode(Movie)] else []
  }

  /** The calls that a sequence of frames stands for: each frame delivered once, in order,
      preceded by a mode change where its mode octet is a motion edge. */
  function ExpectedCalls(cs: seq<Captured>, motion: bool): seq<MonitorCall> {
    if cs == [] then []
    else EventCall(RaisesEvent(motion, cs[0].modeByte)) + [AddFrame(Received(cs[0]))]
         + ExpectedCalls(cs[1..], MotionAfter(motion, cs[0].modeByte))
  }

  function MotionAfterAll(cs: seq<Captured>, motion: bool): bool {
    if cs == [] then motion else MotionAfterAll(cs[1..], MotionAfter(motion, cs[0].modeByte))
  }

  predicate AllDeliverable(cs: seq<Captured>) {
    forall i :: 0 <= i < |cs| ==> Deliverable(cs[i])
  }

  /** The frames among the calls on the monitor. */
  function FramesOf(calls: seq<MonitorCall>): seq<Delivery> {
    if calls == [] then []
    else (if calls[0].AddFrame? then [calls[0].frame] else []) + FramesOf(calls[1..])
  }

  // ---------------------------------------------------------------------------
  // One frame
  // ---------------------------------------------------------------------------

  lemma HeaderDecodes(time: nat, size: nat, modeByte: Byte)
    ensures var h := HeaderOf(time, size, modeByte);
            && Timestamp(h) == Signed(time % TWO_64, TWO_64)
            && ImageSize(h) == Signed(size % TWO_32, TWO_32)
            && h[12] == modeByte
  {
    var h := HeaderOf(time, size, modeByte);
    assert h[0..8] == OctetsOf(time, 8) && h[8..12] == OctetsOf(size, 4);
    OctetsRoundTrip(time, 8);
    OctetsRoundTrip(size, 4);
    Pow2Table();
  }

  /** Once the flag is found, the thirteen octets after it decide what happens. */
  lemma ReadAfterFlag(s: seq<Byte>, k: nat, h: seq<Byte>, rest: seq<Byte>, motion: bool)
    requires ScanFrom(0, s) == Found(k) && k <= |s| && |h| == HEADER_SIZE && s[k..] == h + rest
    ensures var (status, frame, n) := ReadImage(Timestamp(h), ImageSize(h), rest);
            ReadOne(s, motion) ==
            Outcome(status, frame, k + HEADER_SIZE + n, MotionAfter(motion, h[12]), RaisesEvent(motion, h[12]))
  {
    hide BigEndian, And, ScanFrom, ReadImage, MotionAfter, RaisesEvent, Signed;
    assert Padded(s[k..], HEADER_SIZE) == h;
    assert s[k + HEADER_SIZE..] == s[k..][HEADER_SIZE..] == rest;
  }

  lemma FlagAfterAligned(junk: seq<Byte>, rest: seq<Byte>)
    requires ScanFrom(0, junk) == Searching(0)
    ensures ScanFrom(0, junk + (START_FLAG + rest)) == Found(|junk| + FLAG_LENGTH)
  {
    hide Advance, ScanFrom;
    ScanConcat(0, junk, START_FLAG + rest);
    ScanConcat(0, START_FLAG, rest);
    ScanFlag(0);
  }

  /** A header behind octets that leave the scanner at index 0. */
  lemma ReadHeaderAfter(junk: seq<Byte>, h: seq<Byte>, rest: seq<Byte>, motion: bool)
    requires ScanFrom(0, junk) == Searching(0) && |h| == HEADER_SIZE
    ensures var (status, frame, n) := ReadImage(Timestamp(h), ImageSize(h), rest);
            ReadOne(junk + (START_FLAG + (h + rest)), motion) ==
            Outcome(status, frame, |junk| + FLAG_LENGTH + HEADER_SIZE + n,
                    MotionAfter(motion, h[12]), RaisesEvent(motion, h[12]))
  {
    hide ReadOne, ScanFrom, BigEndian, ReadImage, Timestamp, ImageSize, MotionAfter, RaisesEvent;
    var s := junk + (START_FLAG + (h + rest));
    FlagAfterAligned(junk, h + rest);
    assert s[|junk| + FLAG_LENGTH..] == h + rest;
    ReadAfterFlag(s, |junk| + FLAG_LENGTH, h, rest, motion);
  }

  lemma EncodeSplits(junk: seq<Byte>, c: Captured, rest: seq<Byte>)
    ensures junk + Encode(c) + rest ==
            junk + (START_FLAG + (HeaderOf(c.time, |c.image|, c.modeByte) + (c.image + rest)))
  {
  }

  lemma ImageDelivered(c: Captured, rest: seq<Byte>)
    requires Deliverable(c)
    ensures Signed(c.time % TWO_64, TWO_64) == c.time && Signed(|c.image| % TWO_32, TWO_32) == |c.image|
    ensures ReadImage(c.time, |c.image|, c.image + rest) == (Returned, Some(Received(c)), |c.image|)
  {
    assert (c.image + rest)[..|c.image|] == c.image;
  }

  /** A session goes on behind each read that returns. */
  lemma SessionGoesOn(s: seq<Byte>, motion: bool, o: Outcome)
    requires ReadOne(s, motion) == o && o.status == Returned
    ensures o.consumed <= |s| && Session(s, motion) == CallsOf(o) + Session(s[o.consumed..], o.motion)
  {
    hide ScanFrom, BigEndian, ReadImage, MotionAfter, RaisesEvent;
  }

  lemma SessionOfNothing(motion: bool)
    ensures Session([], motion) == []
  {
  }

  /** A well-formed frame is delivered intact, and exactly its octets are taken, behind any
      octets that leave the scanner at index 0. */
  lemma FrameDelivered(junk: seq<Byte>, c: Captured, rest: seq<Byte>, motion: bool)
    requires ScanFrom(0, junk) == Searching(0) && Deliverable(c)
    ensures ReadOne(junk + Encode(c) + rest, motion) ==
            Outcome(Returned, Some(Received(c)), |junk| + |Encode(c)|,
                    MotionAfter(motion, c.modeByte), RaisesEvent(motion, c.modeByte))
  {
    hide ReadOne, ReadImage, ScanFrom, HeaderOf, Timestamp, ImageSize, MotionAfter, RaisesEvent;
    var h := HeaderOf(c.time, |c.image|, c.modeByte);
    EncodeSplits(junk, c, rest);
    ReadHeaderAfter(junk, h, c.image + rest, motion);
    HeaderDecodes(c.time, |c.image|, c.modeByte);
    ImageDelivered(c, rest);
  }

  /** One delivered frame at the front of a session. */
  lemma SessionOfFrame(junk: seq<Byte>, c: Captured, rest: seq<Byte>, motion: bool)
    requires ScanFrom(0, junk) == Searching(0) && Deliverable(c)
    ensures Session(junk + Encode(c) + rest, motion) ==
            EventCall(RaisesEvent(motion, c.modeByte)) + [AddFrame(Received(c))]
            + Session(rest, MotionAfter(motion, c.modeByte))
  {
    hide ReadOne, ScanFrom, Encode, MotionAfter, RaisesEvent;
    var s := junk + Encode(c) + rest;
    FrameDelivered(junk, c, rest, motion);
    SessionGoesOn(s, motion, ReadOne(s, motion));
    assert s[|junk| + |Encode(c)|..] == rest;
  }

  // ---------------------------------------------------------------------------
  // Round trip
  // ---------------------------------------------------------------------------

  lemma SplitFirst(first: seq<Byte>, more: seq<Byte>, tail: seq<Byte>)
    ensures first + more + tail == [] + first + (more + tail)
  {
  }

  /** Whatever the pictures contain - the start flag included - the reader hands over exactly
      the frames that were encoded, in order, and is then at the octet behind the last one. */
  lemma {:induction false} RoundTrip(cs: seq<Captured>, tail: seq<Byte>, motion: bool)
    requires AllDeliverable(cs)
    ensures Session(EncodeAll(cs) + tail, motion) ==
            ExpectedCalls(cs, motion) + Session(tail, MotionAfterAll(cs, motion))
  {
    hide ReadOne, Session, Encode, MotionAfter, RaisesEvent;
    if cs == [] {
      assert EncodeAll(cs) + tail == tail;
    } else {
      var rest := EncodeAll(cs[1..]) + tail;
      var after := MotionAfter(motion, cs[0].modeByte);
      SplitFirst(Encode(cs[0]), EncodeAll(cs[1..]), tail);
      SessionOfFrame([], cs[0], rest, motion);
      RoundTrip(cs[1..], tail, after);
      Regroup(EventCall(RaisesEvent(motion, cs[0].modeByte)) + [AddFrame(Received(cs[0]))],
              ExpectedCalls(cs[1..], after), Session(tail, MotionAfterAll(cs, motion)));
    }
  }

  lemma {:induction false} FramesOfConcat(a: seq<MonitorCall>, b: seq<MonitorCall>)
    ensures FramesOf(a + b) == FramesOf(a) + FramesOf(b)
  {
    if a == [] {
      assert a + b == b;
    } else {
      assert (a + b)[0] == a[0] && (a + b)[1..] == a[1..] + b;
      FramesOfConcat(a[1..], b);
      Regroup(if a[0].AddFrame? then [a[0].frame] else [], FramesOf(a[1..]), FramesOf(b));
    }
  }

  lemma {:induction false} FramesExpected(cs: seq<Captured>, motion: bool)
    ensures FramesOf(ExpectedCalls(cs, motion)) == seq(|cs|, i requires 0 <= i < |cs| => Received(cs[i]))
  {
    if cs == [] {
    } else {
      var event := EventCall(RaisesEvent(motion, cs[0].modeByte));
      var rest := ExpectedCalls(cs[1..], MotionAfter(motion, cs[0].modeByte));
      FramesExpected(cs[1..], MotionAfter(motion, cs[0].modeByte));
      FramesOfConcat(event + [AddFrame(Received(cs[0]))], rest);
      FramesOfConcat(event, [AddFrame(Received(cs[0]))]);
      assert FramesOf([AddFrame(Received(cs[0]))]) == [Received(cs[0])];
      assert FramesOf(event) == [];
    }
  }

  /** The delivery is the frame captured: its time, and its octets as Java bytes. */
  predicate Intact(d: Delivery, c: Captured) {
    && d.timestamp == c.time && |d.image| == |c.image|
    && forall j :: 0 <= j < |c.image| ==>
         d.image[j] as int == if c.image[j] < 0x80 then c.image[j] as int else c.image[j] as int - 0x100
  }

  /** The frames delivered from an encoded stream are the frames captured. */
  lemma FramesRoundTrip(cs: seq<Captured>, motion: bool)
    requires AllDeliverable(cs)
    ensures var ds := FramesOf(Session(EncodeAll(cs), motion));
            && ds == seq(|cs|, i requires 0 <= i < |cs| => Received(cs[i]))
            && |ds| == |cs| && forall i :: 0 <= i < |cs| ==> Intact(ds[i], cs[i])
  {
    hide ExpectedCalls, Encode, ReadOne, Session;
    RoundTrip(cs, [], motion);
    assert EncodeAll(cs) + [] == EncodeAll(cs);
    SessionOfNothing(MotionAfterAll(cs, motion));
    assert ExpectedCalls(cs, motion) + [] == ExpectedCalls(cs, motion);
    FramesExpected(cs, motion);
  }

  // ---------------------------------------------------------------------------
  // Dropped frames
  // ---------------------------------------------------------------------------

  /** The time is negative as a Java `long`, or the size as a Java `int` is over the limit. */
  predicate BadHeader(time: nat, size: nat) {
    || time % 0x1_0000_0000_0000_0000 >= 0x8000_0000_0000_0000
    || 100_000_000 < size % 0x1_0000_0000 < 0x8000_0000
  }

  /** A header with a negative timestamp or an oversized image is dropped: its 23 octets are
      gone, its payload is still on the stream, and its mode octet has been acted on. */
  lemma DroppedFrame(time: nat, size: nat, modeByte: Byte, rest: seq<Byte>, motion: bool)
    requires BadHeader(time, size)
    ensures ReadOne(START_FLAG + HeaderOf(time, size, modeByte) + rest, motion) ==
            Outcome(Returned, None, 23, MotionAfter(motion, modeByte), RaisesEvent(motion, modeByte))
  {
    var h := HeaderOf(time, size, modeByte);
    assert START_FLAG + h + rest == [] + (START_FLAG + (h + rest));
    ReadHeaderAfter([], h, rest, motion);
    HeaderDecodes(time, size, modeByte);
    hide ReadOne, HeaderOf, MotionAfter, RaisesEvent;
  }

  /** A header with a time in range and a size that is zero or negative ends the session: the
      reader dies of an exception, or waits for an octet that does not come. Its mode octet has
      been acted on; nothing behind it is ever delivered. */
  lemma FatalHeader(time: nat, size: nat, modeByte: Byte, rest: seq<Byte>, motion: bool)
    requires time % 0x1_0000_0000_0000_0000 < 0x8000_0000_0000_0000
    requires size % 0x1_0000_0000 == 0 || size % 0x1_0000_0000 >= 0x8000_0000
    ensures var s := START_FLAG + HeaderOf(time, size, modeByte) + rest;
            && ReadOne(s, motion).status == (if size % 0x1_0000_0000 == 0 && rest == [] then Blocked else Threw)
            && Session(s, motion) == EventCall(RaisesEvent(motion, modeByte))
  {
    var h := HeaderOf(time, size, modeByte);
    var s := START_FLAG + h + rest;
    assert s == [] + (START_FLAG + (h + rest));
    ReadHeaderAfter([], h, rest, motion);
    HeaderDecodes(time, size, modeByte);
    hide HeaderOf, RaisesEvent, MotionAfter, ReadOne;
    SessionEnds(s, motion);
  }

  /** A frame behind unread octets is read intact, at its own place, if and only if those
      octets hold no accepted flag and leave the scanner at index 0. */
  lemma FrameSurvivesIff(payload: seq<Byte>, c: Captured, rest: seq<Byte>, motion: bool)
    requires Deliverable(c)
    ensures (var o := ReadOne(payload + Encode(c) + rest, motion);
             o.frame == Some(Received(c)) && o.consumed == |payload| + |Encode(c)|)
            <==> ScanFrom(0, payload) == Searching(0)
  {
    hide ReadOne, ScanFrom, Encode;
    if ScanFrom(0, payload) == Searching(0) {
      FrameDelivered(payload, c, rest, motion);
    } else {
      FlagMissed(payload, c, rest);
      EncodeLength(c);
      var s := payload + Encode(c) + rest;
      if ReadOne(s, motion).frame == Some(Received(c)) {
        DeliveredConsumption(s, motion);
      }
    }
  }

  lemma EncodeLength(c: Captured)
    ensures |Encode(c)| == FLAG_LENGTH + HEADER_SIZE + |c.image|
  {
  }

  lemma FlagMissed(payload: seq<Byte>, c: Captured, rest: seq<Byte>)
    requires ScanFrom(0, payload) != Searching(0)
    ensures ScanFrom(0, payload + Encode(c) + rest) != Found(|payload| + FLAG_LENGTH)
  {
    hide ScanFrom, HeaderOf;
    var s := payload + Encode(c) + rest;
    assert s[|payload|..|payload| + FLAG_LENGTH] == START_FLAG;
    assert s[..|payload|] == payload;
    AcceptedIffIndexZero(s, |payload|);
  }

  /** A delivered frame accounts for the octets taken. */
  lemma DeliveredConsumption(s: seq<Byte>, motion: bool)
    requires ReadOne(s, motion).frame.Some?
    ensures ScanFrom(0, s).Found?
    ensures var o := ReadOne(s, motion);
            o.consumed == ScanFrom(0, s).consumed + HEADER_SIZE + |o.frame.value.image|
  {
    hide BigEndian, And, ScanFrom, MotionAfter, RaisesEvent, Signed;
  }

  /** Recovery: the frame after a dropped one is delivered, and reading goes on behind it. */
  lemma Recovery(time: nat, size: nat, modeByte: Byte, payload: seq<Byte>, c: Captured, rest: seq<Byte>, motion: bool)
    requires BadHeader(time, size) && Deliverable(c) && ScanFrom(0, payload) == Searching(0)
    ensures var m1 := MotionAfter(motion, modeByte);
            Session(START_FLAG + HeaderOf(time, size, modeByte) + (payload + Encode(c) + rest), motion) ==
            EventCall(RaisesEvent(motion, modeByte)) + EventCall(RaisesEvent(m1, c.modeByte))
            + [AddFrame(Received(c))] + Session(rest, MotionAfter(m1, c.modeByte))
  {
    hide ReadOne, HeaderOf, Encode, ScanFrom, MotionAfter, RaisesEvent, Signed;
    var after, m1 := payload + Encode(c) + rest, MotionAfter(motion, modeByte);
    var s := START_FLAG + HeaderOf(time, size, modeByte) + after;
    DroppedFrame(time, size, modeByte, after, motion);
    SessionGoesOn(s, motion, ReadOne(s, motion));
    assert s[FLAG_LENGTH + HEADER_SIZE..] == after;
    SessionOfFrame(payload, c, rest, m1);
    assert EventCall(RaisesEvent(motion, modeByte)) + [] == EventCall(RaisesEvent(motion, modeByte));
    RegroupFour(EventCall(RaisesEvent(motion, modeByte)), EventCall(RaisesEvent(m1, c.modeByte)),
                [AddFrame(Received(c))], Session(rest, MotionAfter(m1, c.modeByte)));
  }

  // ---------------------------------------------------------------------------
  // Truncation
  // ---------------------------------------------------------------------------

  /** How many frames lie wholly within the first k octets of the stream. */
  function WhollyContained(cs: seq<Captured>, k: nat): (n: nat)
    ensures n <= |cs|
  {
    if cs == [] || k < |Encode(cs[0])| then 0 else 1 + WhollyContained(cs[1..], k - |Encode(cs[0])|)
  }

  /** The mode change that a frame cut after `off` octets still causes. A cut inside the
      header makes the mode octet read as 0xFF, which has the motion bit. */
  function TornEvent(c: Captured, off: nat, motion: bool): bool {
    if off < FLAG_LENGTH then false
    else if off < FLAG_LENGTH + HEADER_SIZE then !motion
    else RaisesEvent(motion, c.modeByte)
  }

  lemma EndOfStreamOctet()
    ensures MotionBit(0xFF)
  {
    var x := Pattern(JavaByte(0xFF), TWO_32);
    assert x == 0xFFFF_FFFF;
    assert And(x, 2) == 2 * And(0x7FFF_FFFF, 1);
    assert And(0x7FFF_FFFF, 1) == 2 * And(0x3FFF_FFFF, 0) + 1;
  }

  lemma FlagPrefixNotFound(off: nat)
    requires off < FLAG_LENGTH
    ensures ScanFrom(0, START_FLAG[..off]).Searching?
  {
    if ScanFrom(0, START_FLAG[..off]).Found? {
      StopsOnFlag(START_FLAG[..off]);
    }
  }

  /** A frame cut short is never delivered, not even in part. */
  lemma TornFrame(c: Captured, off: nat, motion: bool)
    requires Deliverable(c) && off < |Encode(c)|
    ensures Session(Encode(c)[..off], motion) == EventCall(TornEvent(c, off, motion))
  {
    hide ReadOne, ReadImage, HeaderOf, BigEndian, Timestamp, ImageSize, MotionAfter, RaisesEvent, Advance;
    var s, h := Encode(c)[..off], HeaderOf(c.time, |c.image|, c.modeByte);
    if off < FLAG_LENGTH {
      assert s == START_FLAG[..off];
      FlagPrefixNotFound(off);
      SessionEnds(s, motion);
    } else {
      var body := s[FLAG_LENGTH..];
      assert s == [] + (START_FLAG + body);
      FlagAfterAligned([], body);
      if off < FLAG_LENGTH + HEADER_SIZE {
        TornHeader(s, motion);
      } else {
        var part := c.image[..off - FLAG_LENGTH - HEADER_SIZE];
        assert body == h + part;
        ReadAfterFlag(s, FLAG_LENGTH, h, part, motion);
        HeaderDecodes(c.time, |c.image|, c.modeByte);
        ImageCut(c, part);
        SessionEnds(s, motion);
      }
    }
  }

  lemma ImageCut(c: Captured, part: seq<Byte>)
    requires Deliverable(c) && |part| < |c.image|
    ensures ReadImage(Signed(c.time % TWO_64, TWO_64), Signed(|c.image| % TWO_32, TWO_32), part) ==
            (Blocked, None, |part|)
  {
  }

  /** A session ends with a read that blocks. */
  lemma SessionEnds(s: seq<Byte>, motion: bool)
    requires ScanFrom(0, s).Searching? || ReadOne(s, motion).status != Returned
    ensures Session(s, motion) == EventCall(ReadOne(s, motion).event)
    ensures ScanFrom(0, s).Searching? ==> !ReadOne(s, motion).event
  {
    hide ScanFrom, BigEndian, ReadImage, MotionAfter, RaisesEvent;
  }

  lemma TornHeader(s: seq<Byte>, motion: bool)
    requires ScanFrom(0, s) == Found(FLAG_LENGTH) && FLAG_LENGTH <= |s| < FLAG_LENGTH + HEADER_SIZE
    ensures Session(s, motion) == EventCall(!motion)
  {
    hide ScanFrom, BigEndian, And, Signed, MotionAfter;
    EndOfStreamOctet();
    assert Padded(s[FLAG_LENGTH..], HEADER_SIZE)[12] == 0xFF;
    assert s[|s|..] == [];
    var o := ReadOne(s, motion);
    assert o.frame == None && o.event == !motion && o.consumed == |s|;
    SessionOfNothing(o.motion);
  }

  /** Truncation safety: cutting an encoded stream anywhere delivers exactly the frames wholly
      before the cut; the rest can at most still raise a mode change. */
  lemma {:induction false} TruncationSafe(cs: seq<Captured>, k: nat, motion: bool)
    requires AllDeliverable(cs) && k <= |EncodeAll(cs)|
    ensures var n := WhollyContained(cs, k);
            && |EncodeAll(cs[..n])| <= k
            && Session(EncodeAll(cs)[..k], motion) ==
               ExpectedCalls(cs[..n], motion)
               + (if n < |cs|
                  then EventCall(TornEvent(cs[n], k - |EncodeAll(cs[..n])|, MotionAfterAll(cs[..n], motion)))
                  else [])
  {
    hide ReadOne, Session, Encode, Deliverable, MotionAfter, RaisesEvent;
    var n := WhollyContained(cs, k);
    if cs == [] {
      SessionOfNothing(motion);
    } else if k < |Encode(cs[0])| {
      assert EncodeAll(cs)[..k] == Encode(cs[0])[..k];
      TornFrame(cs[0], k, motion);
      assert cs[..n] == [];
    } else {
      var first, rest := Encode(cs[0]), EncodeAll(cs[1..]);
      var after := MotionAfter(motion, cs[0].modeByte);
      var k1 := k - |first|;
      assert EncodeAll(cs)[..k] == [] + first + rest[..k1];
      SessionOfFrame([], cs[0], rest[..k1], motion);
      TruncationSafe(cs[1..], k1, after);
      TakeCons(cs, n);
    }
  }

  lemma TakeCons(cs: seq<Captured>, n: nat)
    requires 1 <= n <= |cs|
    ensures cs[..n][0] == cs[0] && cs[..n][1..] == cs[1..][..n - 1]
  {
  }
}
