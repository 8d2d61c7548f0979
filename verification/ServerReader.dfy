/** The client's decoder (`Client/Control/ServerReader.java`): what one `read()` does with the
    octets left on the stream, and the class whose loops do it. The stream is finite; past its
    end `InputStream.read` gives -1, which the cast turns into 0xFF, and `available` gives 0. */
module ServerReader {
  import opened Words
  import opened Wire
  import opened Scanner
  import opened Modes
  import opened Options

  /** A `ServerFrame`: the sent time and the picture as Java bytes. */
  datatype Delivery = Delivery(timestamp: nat, image: seq<SByte>)

  /** How `read()` ended: normally, never (it waits for octets that do not come), or with an
      unchecked exception that ends the thread. */
  datatype Status = Returned | Blocked | Threw

  /** `consumed` counts the octets taken from the stream. */
  datatype Outcome = Outcome(status: Status, frame: Option<Delivery>, consumed: nat, motion: bool, event: bool)

  datatype MonitorCall = ChangeMode(mode: Mode) | AddFrame(frame: Delivery)

  // ---------------------------------------------------------------------------
  // Specification of one read
  // ---------------------------------------------------------------------------

  predicate MotionBit(b: Byte) {
    And(Pattern(JavaByte(b), TWO_32), 0x02) == 0x02
  }

  predicate MovieBit(b: Byte) {
    And(Pattern(JavaByte(b), TWO_32), 0x01) != 0
  }

  /** The client's motion flag after a mode octet. */
  function MotionAfter(motion: bool, b: Byte): bool {
    if MotionBit(b) && !motion then true
    else if motion && !MovieBit(b) then false
    else motion
  }

  predicate RaisesEvent(motion: bool, b: Byte) {
    MotionBit(b) && !motion
  }

  /** The two bits of a mode octet are those of value two and one, sign extension or not. */
  lemma ModeBits(b: Byte)
    ensures MotionBit(b) <==> (b / 2) % 2 == 1
    ensures MovieBit(b) <==> b % 2 == 1
  {
    var x := Pattern(JavaByte(b), TWO_32);
    assert x % 2 == b % 2 && (x / 2) % 2 == (b / 2) % 2;
    assert x > 0 ==> And(x, 2) == 2 * And(x / 2, 1);
    assert x / 2 > 0 ==> And(x / 2, 1) == 2 * And(x / 4, 0) + (x / 2) % 2;
    assert x > 0 ==> And(x, 1) == 2 * And(x / 2, 0) + x % 2;
  }

  /** The motion flag goes up with the bit of value two and down with the bit of value one; a
      mode change is raised exactly when it goes up. */
  lemma EdgeDetection(motion: bool, b: Byte)
    ensures MotionAfter(motion, b) <==> if motion then b % 2 == 1 else (b / 2) % 2 == 1
    ensures RaisesEvent(motion, b) <==> !motion && (b / 2) % 2 == 1
  {
    ModeBits(b);
    hide MotionBit, MovieBit;
  }

  /** The next `n` octets, completed with the 0xFF of an ended stream. */
  function Padded(s: seq<Byte>, n: nat): (r: seq<Byte>)
    ensures |r| == n
  {
    seq(n, i requires 0 <= i < n => if i < |s| then s[i] else 0xFF)
  }

  function Min(a: nat, b: nat): nat {
    if a < b then a else b
  }

  /** The fields of a received header. */
  function Timestamp(h: seq<Byte>): int
    requires |h| == HEADER_SIZE
  {
    Signed(BigEndian(h[0..8]), TWO_64)
  }

  function ImageSize(h: seq<Byte>): int
    requires |h| == HEADER_SIZE
  {
    Signed(BigEndian(h[8..12]), TWO_32)
  }

  /** What follows the header: `rest` holds the octets after it. */
  function ReadImage(timestamp: int, size: int, rest: seq<Byte>): (Status, Option<Delivery>, nat) {
    if timestamp < 0 || size > MAX_IMAGE_SIZE then (Returned, None, 0)
    else if size < 0 then (Threw, None, 0)
    else if size == 0 then (if rest == [] then (Blocked, None, 0) else (Threw, None, 1))
    else if |rest| < size then (Blocked, None, |rest|)
    else (Returned, Some(Delivery(timestamp, JavaBytes(rest[..size]))), size)
  }

  function ReadOne(s: seq<Byte>, motion: bool): (r: Outcome)
    ensures r.consumed <= |s|
    ensures r.status == Returned ==> r.consumed >= FLAG_LENGTH
  {
    match ScanFrom(0, s)
    case Searching(_) => Outcome(Blocked, None, |s|, motion, false)
    case Found(k) =>
      StopsOnFlag(s);
      var h := Padded(s[k..], HEADER_SIZE);
      var taken := k + Min(HEADER_SIZE, |s| - k);
      var (status, frame, n) := ReadImage(Timestamp(h), ImageSize(h), s[taken..]);
      Outcome(status, frame, taken + n, MotionAfter(motion, h[12]), RaisesEvent(motion, h[12]))
  }

  function CallsOf(o: Outcome): seq<MonitorCall> {
    (if o.event then [ChangeMode(Movie)] else []) +
    (if o.status == Returned && o.frame.Some? then [AddFrame(o.frame.value)] else [])
  }

  /** Every call on the monitor made by the reader's loop over a stream, in order. */
  function Session(s: seq<Byte>, motion: bool): seq<MonitorCall>
    decreases |s|
  {
    var o := ReadOne(s, motion);
    if o.status == Returned then CallsOf(o) + Session(s[o.consumed..], o.motion) else CallsOf(o)
  }

  // ---------------------------------------------------------------------------
  // The class
  // ---------------------------------------------------------------------------

  class Reader {
    /** The stream up to its end, and how much of it has been read. */
    const input: seq<Byte>
    var pos: nat
    var mode: SByte
    var motion: bool
    var receivedFrame: Option<Delivery>
    /** The calls made on the monitor. */
    var calls: seq<MonitorCall>

    constructor (input: seq<Byte>)
      ensures Valid() && this.input == input && pos == 0
      ensures !motion && receivedFrame == None && calls == []
    {
      this.input := input;
      pos, mode, motion, receivedFrame, calls := 0, 0, false, None, [];
    }

    ghost predicate Valid()
      reads this
    {
      pos <= |input|
    }

    ghost function Rest(): seq<Byte>
      reads this
      requires Valid()
    {
      input[pos..]
    }

    /** `(byte) iStream.read()`. */
    method ReadByte() returns (b: SByte)
      requires Valid()
      modifies this`pos
      ensures Valid() && pos == if old(pos) < |input| then old(pos) + 1 else old(pos)
      ensures b == JavaByte(if old(pos) < |input| then input[old(pos)] else 0xFF)
    {
      if pos < |input| {
        b := JavaByte(input[pos]);
        pos := pos + 1;
      } else {
        b := -1;
      }
    }

    method AwaitStartFlag() returns (found: bool)
      requires Valid()
      modifies this`pos
      ensures Valid() && pos >= old(pos)
      ensures match ScanFrom(0, old(Rest()))
              case Found(k) => found && pos == old(pos) + k
              case Searching(_) => !found && pos == |input|
    {
      var startFlagIndex := 0;
      ghost var start := pos;
      ghost var all := input[start..];
      found := false;
      while !found
        invariant start <= pos <= |input|
        invariant startFlagIndex < FLAG_LENGTH
        invariant !found ==> ScanFrom(0, input[start..pos]) == Searching(startFlagIndex)
        invariant found ==> ScanFrom(0, all) == Found(pos - start)
        decreases !found, |input| - pos
      {
        if pos == |input| {
          // Only 0xFF from here on: EndOfStreamNeverFound says that the loop never ends.
          assert input[start..pos] == all;
          return;
        }
        ghost var seen, next := input[start..pos], input[pos];
        var received := ReadByte();
        assert input[start..pos] == seen + [next];
        assert all == input[start..pos] + input[pos..];
        ScanSnoc(seen, next);
        ScanConcat(0, input[start..pos], input[pos..]);
        assert received == JavaByte(START_FLAG[startFlagIndex]) <==> next == START_FLAG[startFlagIndex];
        if received == JavaByte(START_FLAG[startFlagIndex]) {
          if startFlagIndex + 1 == FLAG_LENGTH {
            found := true;
          } else {
            startFlagIndex := startFlagIndex + 1;
          }
        } else {
          startFlagIndex := 0;
        }
      }
    }

    method ReceiveHeader() returns (header: array<SByte>)
      requires Valid()
      modifies this`pos
      ensures fresh(header) && Valid()
      ensures header[..] == JavaBytes(Padded(old(Rest()), HEADER_SIZE))
      ensures pos == old(pos) + Min(HEADER_SIZE, |old(Rest())|)
    {
      header := new SByte[HEADER_SIZE];
      ghost var h := Padded(Rest(), HEADER_SIZE);
      var headerIndex := 0;
      while headerIndex != HEADER_SIZE
        invariant 0 <= headerIndex <= HEADER_SIZE
        invariant pos == old(pos) + Min(headerIndex, |old(Rest())|)
        invariant forall j :: 0 <= j < headerIndex ==> header[j] == JavaByte(h[j])
      {
        var b := ReadByte();
        header[headerIndex] := b;
        headerIndex := headerIndex + 1;
      }
    }

    /** Reads the picture; `false` when the octets run out first. */
    method ReceiveImage(size: nat) returns (complete: bool, image: array<SByte>)
      requires Valid() && size > 0
      modifies this`pos
      ensures Valid() && complete == (size <= |old(Rest())|)
      ensures complete ==> image[..] == JavaBytes(old(Rest())[..size])
      ensures pos == old(pos) + Min(size, |old(Rest())|)
    {
      image := new SByte[size];
      var imageIndex := 0;
      while imageIndex != size
        invariant 0 <= imageIndex <= size
        invariant pos == old(pos) + imageIndex <= |input|
        invariant forall j :: 0 <= j < imageIndex ==> image[j] == JavaByte(old(Rest())[j])
      {
        if pos == |input| {
          // available() stays 0
          return false, image;
        }
        var b := ReadByte();
        image[imageIndex] := b;
        imageIndex := imageIndex + 1;
      }
      complete := true;
    }

    /** Edge detection on the mode octet, before any frame is dropped. */
    method DetectMotion(newMode: SByte, ghost b: Byte)
      requires newMode == JavaByte(b)
      modifies this`mode, this`motion, this`calls
      ensures motion == MotionAfter(old(motion), b)
      ensures motion <==> if old(motion) then b % 2 == 1 else (b / 2) % 2 == 1
      ensures calls == old(calls) + (if !old(motion) && (b / 2) % 2 == 1 then [ChangeMode(Movie)] else [])
      ensures mode == if RaisesEvent(old(motion), b) then newMode else old(mode)
      ensures calls == old(calls) + (if RaisesEvent(old(motion), b) then [ChangeMode(Movie)] else [])
    {
      EdgeDetection(motion, b);
      var motionDetected := And(Pattern(newMode, TWO_32), 0x02) == 0x02;
      if motionDetected && motionDetected != motion {
        mode := newMode;
        motion := true;
        calls := calls + [ChangeMode(Movie)];
      } else if motion && 0 == And(Pattern(newMode, TWO_32), 0x01) {
        motion := false;
      }
    }

    /** The drop rules and the picture. */
    method ReceiveFrame(timestamp: int, imageSize: int) returns (status: Status)
      requires Valid() && receivedFrame == None
      modifies this`pos, this`receivedFrame
      ensures Valid()
      ensures (status, receivedFrame, pos - old(pos)) == ReadImage(timestamp, imageSize, old(Rest()))
    {
      if timestamp < 0 {
        return Returned;
      } else if imageSize > MAX_IMAGE_SIZE {
        return Returned;
      } else if imageSize < 0 {
        // new byte[imageSize] throws
        return Threw;
      } else if imageSize == 0 {
        if pos == |input| {
          return Blocked;
        }
        // the octet is read before image[0] is found to be out of range
        var _ := ReadByte();
        return Threw;
      }
      var complete, image := ReceiveImage(imageSize);
      if !complete {
        return Blocked;
      }
      receivedFrame := Some(Delivery(timestamp, image[..]));
      status := Returned;
    }

    /** One call of `read()`. */
    method Read() returns (status: Status)
      requires Valid() && receivedFrame == None
      modifies this
      ensures Valid()
      ensures var o := ReadOne(old(Rest()), old(motion));
              && (status, receivedFrame, pos - old(pos), motion) == (o.status, o.frame, o.consumed, o.motion)
              && calls == old(calls) + (if o.event then [ChangeMode(Movie)] else [])
    {
      ghost var s := Rest();
      var found := AwaitStartFlag();
      if !found {
        return Blocked;
      }
      ghost var k := ScanFrom(0, s).consumed;
      assert Rest() == s[k..];
      ghost var h := Padded(s[k..], HEADER_SIZE);
      var header := ReceiveHeader();
      assert Rest() == s[k + Min(HEADER_SIZE, |s| - k)..];
      HeaderIsBytes(header, h);
      var pattern := ParseTimestamp(header, h);
      var timestamp := Signed(pattern, TWO_64);
      pattern := ParseImageSize(header, h);
      var imageSize := Signed(pattern, TWO_32);
      DetectMotion(header[12], h[12]);
      status := ReceiveFrame(timestamp, imageSize);
    }

    /** One round of `run()`: a read, and the frame it produced passed on. */
    method ReadAndForward() returns (status: Status)
      requires Valid() && receivedFrame == None
      modifies this
      ensures Valid() && receivedFrame == None
      ensures var o := ReadOne(old(Rest()), old(motion));
              && status == o.status
              && Rest() == old(Rest())[o.consumed..]
              && motion == o.motion
              && calls == old(calls) + CallsOf(o)
    {
      status := Read();
      if receivedFrame.Some? {
        calls := calls + [AddFrame(receivedFrame.value)];
        receivedFrame := None;
      }
    }

    /** `run()`: reads until it blocks for good or dies, passing each frame on. */
    method Run() returns (status: Status)
      requires Valid() && receivedFrame == None
      modifies this
      ensures Valid() && status != Returned
      ensures calls == old(calls) + Session(old(Rest()), old(motion))
    {
      ghost var all := calls + Session(Rest(), motion);
      status := Returned;
      while status == Returned
        invariant Valid() && receivedFrame == None
        invariant if status == Returned then calls + Session(Rest(), motion) == all else calls == all
        decreases status == Returned, |Rest()|
      {
        SessionUnfolds(calls, Rest(), motion);
        status := ReadAndForward();
      }
    }
  }

  lemma SessionUnfolds(calls: seq<MonitorCall>, s: seq<Byte>, motion: bool)
    ensures var o := ReadOne(s, motion);
            calls + Session(s, motion) ==
            if o.status == Returned then calls + CallsOf(o) + Session(s[o.consumed..], o.motion) else calls + CallsOf(o)
  {
  }

  lemma HeaderIsBytes(header: array<SByte>, h: seq<Byte>)
    requires header[..] == JavaBytes(h)
    ensures header.Length == |h|
    ensures forall j :: 0 <= j < |h| ==> header[j] == JavaByte(h[j])
  {
    assert forall j :: 0 <= j < |h| ==> header[..][j] == header[j];
  }

  // ---------------------------------------------------------------------------
  // Header parsing
  // ---------------------------------------------------------------------------

  /** An octet moved into its place and masked there. */
  lemma FieldTerm(b: Byte, k: nat, modulus: nat)
    requires 0xFF * Pow2(k) < modulus
    ensures And(Shl(b, k, modulus), Shl(0xFF, k, modulus)) == b * Pow2(k)
  {
    OctetBelow(b, Pow2(k));
    ShlFits(b, k, modulus);
    ShlFits(0xFF, k, modulus);
    MaskedOctet(b, k);
  }

  lemma MaskedOctet(b: Byte, k: nat)
    ensures And(b * Pow2(k), 0xFF * Pow2(k)) == b * Pow2(k)
  {
    AndShift(b, 0xFF, k);
    AndOctet(b);
  }

  lemma ShlFits(x: nat, k: nat, modulus: nat)
    requires x * Pow2(k) < modulus
    ensures Shl(x, k, modulus) == x * Pow2(k)
  {
    SmallMod(x * Pow2(k), modulus);
  }

  lemma SmallMod(x: nat, m: nat)
    requires x < m
    ensures x % m == x
  {
  }

  lemma OctetBelow(b: Byte, p: nat)
    ensures b * p <= 0xFF * p
    ensures p > 0 ==> b * p < 0x100 * p
  {
  }

  lemma AppendArithmetic(x: nat, b: nat, p: nat)
    ensures x * (p * 0x100) + b * p == (0x100 * x + b) * p
  {
  }

  /** Or-ing the octet in appends it to the value read so far. */
  lemma FieldAppend(x: nat, b: Byte, k: nat)
    ensures Or(x * Pow2(k + 8), b * Pow2(k)) == (0x100 * x + b) * Pow2(k)
  {
    Pow2Add(k, 8);
    Pow2Eight();
    OctetBelow(b, Pow2(k));
    OrDisjoint(x, b * Pow2(k), k + 8);
    AppendArithmetic(x, b, Pow2(k));
  }

  /** The highest octet of a field still fits its word. */
  lemma FieldFits(i: nat, width: nat, modulus: nat)
    requires i < width
    requires (width == 8 && modulus == TWO_64) || (width == 4 && modulus == TWO_32)
    ensures 0xFF * Pow2((width - 1 - i) * 8) < modulus
  {
    Pow2Monotone((width - 1 - i) * 8, (width - 1) * 8);
    Pow2Table();
  }

  /** One round of a parsing loop over the field h[lo..hi]. */
  lemma ParseStep(h: seq<Byte>, lo: nat, hi: nat, i: nat, modulus: nat)
    requires lo <= i < hi <= |h|
    requires (hi - lo == 8 && modulus == TWO_64) || (hi - lo == 4 && modulus == TWO_32)
    ensures var k := (hi - 1 - i) * 8;
            var octet := And(Pattern(JavaByte(h[i]), modulus), 0xFF);
            Or(BigEndian(h[lo..i]) * Pow2((hi - i) * 8), And(Shl(octet, k, modulus), Shl(0xFF, k, modulus)))
            == BigEndian(h[lo..i + 1]) * Pow2(k)
  {
    hide And, Or, Shl, BigEndian, Pattern, Pow2, JavaByte;
    var k := (hi - 1 - i) * 8;
    MaskCancelsSignExtension(h[i], modulus);
    FieldFits(i - lo, hi - lo, modulus);
    FieldTerm(h[i], k, modulus);
    FieldAppend(BigEndian(h[lo..i]), h[i], k);
    BigEndianSnoc(h[lo..i], h[i]);
    assert h[lo..i + 1] == h[lo..i] + [h[i]];
  }

  /** A parsing loop starts from nothing and ends with the whole field. */
  lemma FieldEnds(h: seq<Byte>, lo: nat, hi: nat)
    requires lo <= hi <= |h|
    ensures BigEndian(h[lo..lo]) == 0 && BigEndian(h[lo..hi]) * Pow2(0) == BigEndian(h[lo..hi])
  {
  }

  method ParseTimestamp(header: array<SByte>, ghost h: seq<Byte>) returns (timestamp: nat)
    requires |h| == HEADER_SIZE == header.Length
    requires forall j :: 0 <= j < |h| ==> header[j] == JavaByte(h[j])
    ensures timestamp == BigEndian(h[0..8])
  {
    hide And, Or, Shl, BigEndian, Pow2;
    FieldEnds(h, 0, TIMESTAMP_SIZE);
    timestamp := 0;
    var i := 0;
    while i != TIMESTAMP_SIZE
      invariant 0 <= i <= TIMESTAMP_SIZE
      invariant timestamp == BigEndian(h[0..i]) * Pow2((TIMESTAMP_SIZE - i) * 8)
    {
      var distance := (TIMESTAMP_SIZE - 1 - i) * 8;
      var octet := And(Pattern(header[i], TWO_64), 0xFF);
      ParseStep(h, 0, TIMESTAMP_SIZE, i, TWO_64);
      timestamp := Or(timestamp, And(Shl(octet, distance, TWO_64), Shl(0xFF, distance, TWO_64)));
      i := i + 1;
    }
  }

  /** The distance `(IMAGE_SIZE_SIZE - 1 - i) * 8` is negative for every index of the size
      field; Java's five-bit rule makes it the intended one. */
  method ParseImageSize(header: array<SByte>, ghost h: seq<Byte>) returns (imageSize: nat)
    requires |h| == HEADER_SIZE == header.Length
    requires forall j :: 0 <= j < |h| ==> header[j] == JavaByte(h[j])
    ensures imageSize == BigEndian(h[8..12])
  {
    hide And, Or, Shl, BigEndian, Pow2;
    FieldEnds(h, TIMESTAMP_SIZE, TIMESTAMP_SIZE + IMAGE_SIZE_SIZE);
    imageSize := 0;
    var i := TIMESTAMP_SIZE;
    while i != TIMESTAMP_SIZE + IMAGE_SIZE_SIZE
      invariant TIMESTAMP_SIZE <= i <= TIMESTAMP_SIZE + IMAGE_SIZE_SIZE
      invariant imageSize == BigEndian(h[8..i]) * Pow2((TIMESTAMP_SIZE + IMAGE_SIZE_SIZE - i) * 8)
    {
      var distance := IntShiftDistance((IMAGE_SIZE_SIZE - 1 - i) * 8);
      assert distance == (TIMESTAMP_SIZE + IMAGE_SIZE_SIZE - 1 - i) * 8;
      var octet := And(Pattern(header[i], TWO_32), 0xFF);
      ParseStep(h, TIMESTAMP_SIZE, TIMESTAMP_SIZE + IMAGE_SIZE_SIZE, i, TWO_32);
      imageSize := Or(imageSize, And(Shl(octet, distance, TWO_32), Shl(0xFF, distance, TWO_32)));
      i := i + 1;
    }
  }
}
