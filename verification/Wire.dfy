/** The layout of one frame on the stream: start flag, header, payload. */
module Wire {
  import opened Words
  import opened Sequences

  /** "STARTFRAME". */
  const START_FLAG: seq<Byte> := [0x53, 0x54, 0x41, 0x52, 0x54, 0x46, 0x52, 0x41, 0x4D, 0x45]
  const FLAG_LENGTH := 10
  const TIMESTAMP_SIZE := 8
  const IMAGE_SIZE_SIZE := 4
  const HEADER_SIZE := 13
  const MAX_IMAGE_SIZE := 100000000

  /** What the server captured: a wall-clock stamp in milliseconds, the mode octet written
      after the sizes, and the image octets. */
  datatype Captured = Captured(time: nat, modeByte: Byte, image: seq<Byte>)

  /** The frames the client promises to deliver. */
  predicate Deliverable(c: Captured) {
    c.time < 0x8000_0000_0000_0000 && 1 <= |c.image| <= 100_000_000
  }

  /** The `n` low octets of a value, most significant first. */
  function OctetsOf(v: nat, n: nat): (s: seq<Byte>)
    ensures |s| == n
  {
    if n == 0 then [] else OctetsOf(v / 0x100, n - 1) + [v % 0x100]
  }

  function HeaderOf(time: nat, size: nat, modeByte: Byte): (h: seq<Byte>)
    ensures |h| == HEADER_SIZE
  {
    OctetsOf(time, TIMESTAMP_SIZE) + OctetsOf(size, IMAGE_SIZE_SIZE) + [modeByte]
  }

  function Encode(c: Captured): seq<Byte> {
    START_FLAG + HeaderOf(c.time, |c.image|, c.modeByte) + c.image
  }

  function EncodeAll(cs: seq<Captured>): seq<Byte> {
    if cs == [] then [] else Encode(cs[0]) + EncodeAll(cs[1..])
  }

  /** Reading the octets back gives the value modulo the width of the field. */
  lemma {:induction false} OctetsRoundTrip(v: nat, n: nat)
    ensures BigEndian(OctetsOf(v, n)) == v % Pow2(8 * n)
  {
    if n == 0 {
      assert Pow2(0) == 1;
    } else {
      OctetsRoundTrip(v / 0x100, n - 1);
      BigEndianSnoc(OctetsOf(v / 0x100, n - 1), v % 0x100);
      Pow2Add(8 * (n - 1), 8);
      Pow2Eight();
      ModOctet(v, Pow2(8 * (n - 1)));
    }
  }

  lemma ModOctet(v: nat, m: nat)
    requires m > 0
    ensures v % (m * 0x100) == 0x100 * ((v / 0x100) % m) + v % 0x100
  {
    var q, r := (v / 0x100) / m, (v / 0x100) % m;
    ModUnique(v, m * 0x100, q, 0x100 * r + v % 0x100);
  }

  /** Four octets of a stream as a number, most significant first. */
  function Quad(s: seq<Byte>, i: nat): int
    requires i + 4 <= |s|
  {
    s[i] as int * 0x100_0000 + s[i + 1] as int * 0x1_0000 + s[i + 2] as int * 0x100 + s[i + 3] as int
  }

  lemma BigEndianOfFour(s: seq<Byte>)
    requires |s| == 4
    ensures BigEndian(s) == Quad(s, 0)
  {
    assert s[..3][..2] == s[..2] && s[..2][..1] == s[..1] && s[..1][..0] == [];
    assert BigEndian(s[..1]) == s[0];
    assert BigEndian(s[..2]) == 0x100 * BigEndian(s[..1]) + s[1];
    assert BigEndian(s[..3]) == 0x100 * BigEndian(s[..2]) + s[2];
  }

  lemma BigEndianOfEight(s: seq<Byte>)
    requires |s| == 8
    ensures BigEndian(s) == Quad(s, 0) * 0x1_0000_0000 + Quad(s, 4)
  {
    BigEndianOfFour(s[..4]);
    assert s[..7][..6] == s[..6] && s[..6][..5] == s[..5] && s[..5][..4] == s[..4];
    assert BigEndian(s[..5]) == 0x100 * BigEndian(s[..4]) + s[4];
    assert BigEndian(s[..6]) == 0x100 * BigEndian(s[..5]) + s[5];
    assert BigEndian(s[..7]) == 0x100 * BigEndian(s[..6]) + s[6];
  }

  /** The octets of a frame on the stream, place by place: the text "STARTFRAME", eight octets
      of time and four of size, most significant first, the mode octet, and the picture. */
  lemma Layout(c: Captured)
    ensures var s := Encode(c);
            && |s| == 23 + |c.image|
            && (forall i :: 0 <= i < 10 ==> s[i] == "STARTFRAME"[i] as int)
            && Quad(s, 10) * 0x1_0000_0000 + Quad(s, 14) == c.time % 0x1_0000_0000_0000_0000
            && Quad(s, 18) == |c.image| % 0x1_0000_0000
            && s[22] == c.modeByte && s[23..] == c.image
  {
    var s, t, z := Encode(c), OctetsOf(c.time, 8), OctetsOf(|c.image|, 4);
    OctetsRoundTrip(c.time, 8);
    OctetsRoundTrip(|c.image|, 4);
    Pow2Table();
    BigEndianOfEight(t);
    BigEndianOfFour(z);
    hide OctetsOf, BigEndian, Pow2;
    assert forall i :: 0 <= i < 8 ==> s[10 + i] == t[i];
    assert forall i :: 0 <= i < 4 ==> s[18 + i] == z[i];
    assert forall i :: 0 <= i < 10 ==> s[i] == START_FLAG[i];
  }

  lemma {:induction false} EncodeAllConcat(a: seq<Captured>, b: seq<Captured>)
    ensures EncodeAll(a + b) == EncodeAll(a) + EncodeAll(b)
  {
    if a == [] {
      assert a + b == b;
    } else {
      EncodeAllConcat(a[1..], b);
      assert (a + b)[0] == a[0] && (a + b)[1..] == a[1..] + b;
      Regroup(Encode(a[0]), EncodeAll(a[1..]), EncodeAll(b));
    }
  }
}
