/** Machine words as bit patterns: the two's-complement operators that the C encoder and the
    Java decoder apply to header fields, defined bit by bit on unsigned patterns. */
module Words {

  /** An octet on the wire (C `uint8_t`). */
  type Byte = b: int | 0 <= b < 0x100

  /** A Java `byte`. */
  type SByte = b: int | -0x80 <= b < 0x80

  const TWO_32 := 0x1_0000_0000
  const TWO_64 := 0x1_0000_0000_0000_0000

  function Pow2(k: nat): (p: nat)
    ensures p > 0
  {
    if k == 0 then 1 else 2 * Pow2(k - 1)
  }

  /** Bitwise `&` on patterns. */
  function And(x: nat, y: nat): nat {
    if x == 0 || y == 0 then 0
    else 2 * And(x / 2, y / 2) + (if x % 2 == 1 && y % 2 == 1 then 1 else 0)
  }

  /** Bitwise `|` on patterns. */
  function Or(x: nat, y: nat): nat
    decreases x + y
  {
    if x == 0 then y
    else if y == 0 then x
    else 2 * Or(x / 2, y / 2) + (if x % 2 == 1 || y % 2 == 1 then 1 else 0)
  }

  /** The pattern of a signed value in a word of `modulus` values (sign extension included). */
  function Pattern(v: int, modulus: nat): nat
    requires modulus > 0
  {
    v % modulus
  }

  /** The signed reading of a pattern. */
  function Signed(x: nat, modulus: nat): int {
    if 2 * x < modulus then x else x - modulus
  }

  /** The Java cast `(byte)` of an octet. */
  function JavaByte(b: Byte): SByte {
    Signed(b, 0x100)
  }

  function JavaBytes(s: seq<Byte>): (r: seq<SByte>)
    ensures |r| == |s|
  {
    seq(|s|, i requires 0 <= i < |s| => JavaByte(s[i]))
  }

  /** Left shift in a word of `modulus` values. */
  function Shl(x: nat, k: nat, modulus: nat): nat
    requires modulus > 0
  {
    x * Pow2(k) % modulus
  }

  /** Logical right shift. */
  function Shr(x: nat, k: nat): nat {
    if k == 0 then x else Shr(x / 2, k - 1)
  }

  /** Java's `<<` on an `int` uses only the low five bits of the distance, so that a negative
      distance is a large positive one. */
  function IntShiftDistance(d: int): nat {
    d % 32
  }

  /** The big-endian value of a run of octets. */
  function BigEndian(s: seq<Byte>): nat {
    if s == [] then 0 else 0x100 * BigEndian(s[..|s| - 1]) + s[|s| - 1]
  }

  lemma BigEndianSnoc(s: seq<Byte>, b: Byte)
    ensures BigEndian(s + [b]) == 0x100 * BigEndian(s) + b
  {
    assert (s + [b])[..|s|] == s;
  }

  lemma {:induction false} BigEndianBound(s: seq<Byte>)
    ensures BigEndian(s) < Pow2(8 * |s|)
  {
    if s == [] {
    } else {
      BigEndianBound(s[..|s| - 1]);
      Pow2Add(8 * (|s| - 1), 8);
      Pow2Eight();
    }
  }

  lemma Pow2Eight()
    ensures Pow2(8) == 0x100
  {
    assert Pow2(4) == 16;
  }

  lemma {:induction false} Pow2Add(j: nat, k: nat)
    ensures Pow2(j + k) == Pow2(j) * Pow2(k)
  {
    if k == 0 {
      assert Pow2(0) == 1;
    } else {
      Pow2Add(j, k - 1);
      assert Pow2(j + k) == 2 * Pow2(j + (k - 1));
    }
  }

  lemma Pow2Monotone(j: nat, k: nat)
    requires j <= k
    ensures Pow2(j) <= Pow2(k)
    decreases k - j
  {
    if j < k {
      Pow2Monotone(j, k - 1);
    }
  }

  lemma Pow2Table()
    ensures Pow2(8) == 0x100
    ensures Pow2(16) == 0x1_0000
    ensures Pow2(24) == 0x100_0000
    ensures Pow2(32) == TWO_32
    ensures Pow2(40) == 0x100_0000_0000
    ensures Pow2(48) == 0x1_0000_0000_0000
    ensures Pow2(56) == 0x100_0000_0000_0000
    ensures Pow2(64) == TWO_64
  {
    Pow2Eight();
    Pow2Add(8, 8); Pow2Add(16, 8); Pow2Add(16, 16); Pow2Add(32, 8);
    Pow2Add(40, 8); Pow2Add(48, 8); Pow2Add(32, 32);
  }

  lemma {:induction false} ShrShr(x: nat, j: nat, k: nat)
    ensures Shr(x, j + k) == Shr(Shr(x, j), k)
  {
    if j == 0 {
    } else {
      ShrShr(x / 2, j - 1, k);
    }
  }

  lemma ShrTwo(x: nat)
    ensures Shr(x, 2) == x / 4
  {
    assert Shr(x / 2, 1) == Shr(x / 2 / 2, 0);
  }

  lemma ShrFour(x: nat)
    ensures Shr(x, 4) == x / 0x10
  {
    ShrTwo(x);
    ShrTwo(x / 4);
    ShrShr(x, 2, 2);
  }

  lemma {:induction false} ShrOctet(x: nat, k: nat)
    ensures Shr(x, k + 8) == Shr(x, k) / 0x100
  {
    if k == 0 {
      ShrFour(x);
      ShrFour(x / 0x10);
      ShrShr(x, 4, 4);
    } else {
      ShrOctet(x / 2, k - 1);
    }
  }

  /** Masking with 0xFF keeps the low octet. */
  lemma {:induction false} AndLow(x: nat, k: nat)
    ensures And(x, Pow2(k) - 1) == x % Pow2(k)
  {
    if k == 0 {
      assert Pow2(0) == 1;
    } else if x != 0 {
      AndLow(x / 2, k - 1);
      var p := Pow2(k - 1);
      assert Pow2(k) == 2 * p;
      assert (2 * p - 1) / 2 == p - 1 && (2 * p - 1) % 2 == 1;
      ModHalf(x, p);
    }
  }

  lemma AndOctet(x: nat)
    ensures And(x, 0xFF) == x % 0x100
  {
    Pow2Eight();
    AndLow(x, 8);
  }

  lemma ModHalf(x: nat, p: nat)
    requires p > 0
    ensures x % (2 * p) == 2 * ((x / 2) % p) + x % 2
  {
    var h := x / 2;
    var q := h / p;
    assert h == p * q + h % p;
    var r := 2 * (h % p) + x % 2;
    assert x == (2 * p) * q + r by {
      assert 2 * (p * q) == (2 * p) * q;
    }
    ModUnique(x, 2 * p, q, r);
  }

  lemma ModUnique(x: int, m: nat, q: int, r: nat)
    requires x == m * q + r && r < m
    ensures x % m == r && x / m == q
  {
    var q2, r2 := x / m, x % m;
    assert m * (q - q2) == r2 - r;
    MulGap(m, q - q2);
  }

  lemma MulGap(m: nat, d: int)
    ensures d >= 1 ==> m * d >= m
    ensures d <= -1 ==> m * d + m <= 0
  {
  }

  lemma AndDouble(x: nat, y: nat)
    ensures And(2 * x, 2 * y) == 2 * And(x, y)
  {
    assert 2 * x / 2 == x && 2 * y / 2 == y;
  }

  lemma {:induction false} AndShift(x: nat, y: nat, k: nat)
    ensures And(x * Pow2(k), y * Pow2(k)) == And(x, y) * Pow2(k)
  {
    if k == 0 {
      assert Pow2(0) == 1;
    } else {
      var p := Pow2(k - 1);
      ShiftStep(x, p); ShiftStep(y, p); ShiftStep(And(x, y), p);
      AndDouble(x * p, y * p);
      AndShift(x, y, k - 1);
    }
  }

  lemma ShiftStep(x: nat, p: nat)
    ensures x * (2 * p) == 2 * (x * p)
  {
  }

  /** Or-ing a value into the zero low bits of another adds it. */
  lemma {:induction false} OrDisjoint(x: nat, y: nat, k: nat)
    requires y < Pow2(k)
    ensures Or(x * Pow2(k), y) == x * Pow2(k) + y
  {
    if k == 0 {
      assert Pow2(0) == 1;
    } else {
      var p := Pow2(k - 1);
      assert x * Pow2(k) == 2 * (x * p);
      OrDisjoint(x, y / 2, k - 1);
    }
  }

  /** The round trip between an octet and its sign-extended Java form: the mask with 0xFF
      cancels the sign extension, whatever the word size. */
  lemma MaskCancelsSignExtension(b: Byte, modulus: nat)
    requires modulus == TWO_32 || modulus == TWO_64
    ensures And(Pattern(JavaByte(b), modulus), 0xFF) == b
  {
    AndOctet(Pattern(JavaByte(b), modulus));
    PatternLowOctet(b, modulus);
  }

  lemma PatternLowOctet(b: Byte, modulus: nat)
    requires modulus == TWO_32 || modulus == TWO_64
    ensures Pattern(JavaByte(b), modulus) % 0x100 == b
  {
    if b >= 0x80 {
      assert Pattern(JavaByte(b), modulus) == modulus + b - 0x100;
    }
  }
}
