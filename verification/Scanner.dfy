/** The start-flag scanner of `ServerReader.read`: a matcher that falls back to index 0 on a
    mismatch without looking at the offending octet again. */
module Scanner {
  import opened Words
  import opened Wire

  /** Where a scan stands: `consumed` octets up to and including the flag, or the flag index
      reached at the end of the octets. */
  datatype Scan = Found(consumed: nat) | Searching(index: nat)

  function Advance(index: nat, b: Byte): (r: nat)
    requires index < FLAG_LENGTH
    ensures r <= FLAG_LENGTH
  {
    if b == START_FLAG[index] then index + 1 else 0
  }

  function ScanFrom(index: nat, s: seq<Byte>): (r: Scan)
    requires index < FLAG_LENGTH
    ensures r.Searching? ==> r.index < FLAG_LENGTH
    ensures r.Found? ==> 1 <= r.consumed <= |s|
    decreases s
  {
    if s == [] then Searching(index)
    else
      var next := Advance(index, s[0]);
      if next == FLAG_LENGTH then Found(1)
      else match ScanFrom(next, s[1..])
        case Found(k) => Found(k + 1)
        case Searching(i) => Searching(i)
  }

  /** Scanning a concatenation continues the scan of its first part. */
  lemma {:induction false} ScanConcat(index: nat, a: seq<Byte>, b: seq<Byte>)
    requires index < FLAG_LENGTH
    ensures ScanFrom(index, a + b) ==
            match ScanFrom(index, a)
            case Found(k) => Found(k)
            case Searching(i) =>
              match ScanFrom(i, b)
              case Found(k) => Found(|a| + k)
              case Searching(j) => Searching(j)
    decreases a
  {
    if a == [] {
      assert a + b == b;
    } else {
      assert (a + b)[0] == a[0] && (a + b)[1..] == a[1..] + b;
      var next := Advance(index, a[0]);
      if next < FLAG_LENGTH {
        ScanConcat(next, a[1..], b);
      }
    }
  }

  lemma ScanSnoc(a: seq<Byte>, b: Byte)
    requires ScanFrom(0, a).Searching?
    ensures var next := Advance(ScanFrom(0, a).index, b);
            ScanFrom(0, a + [b]) == if next == FLAG_LENGTH then Found(|a| + 1) else Searching(next)
  {
    ScanConcat(0, a, [b]);
    ScanOne(ScanFrom(0, a).index, b);
  }

  lemma ScanOne(index: nat, b: Byte)
    requires index < FLAG_LENGTH
    ensures var next := Advance(index, b);
            ScanFrom(index, [b]) == if next == FLAG_LENGTH then Found(1) else Searching(next)
  {
    assert [b][1..] == [];
  }

  /** The index is the length of the flag prefix that the scanned octets end with. */
  lemma {:induction false} IndexIsMatchedPrefix(s: seq<Byte>)
    requires ScanFrom(0, s).Searching?
    ensures var i := ScanFrom(0, s).index;
            i <= |s| && s[|s| - i..] == START_FLAG[..i]
  {
    if s == [] {
    } else {
      var a, b := s[..|s| - 1], s[|s| - 1];
      assert s == a + [b];
      ScanConcat(0, a, [b]);
      IndexIsMatchedPrefix(a);
      ScanSnoc(a, b);
      var i := ScanFrom(0, a).index;
      if b == START_FLAG[i] {
        assert s[|s| - (i + 1)..] == a[|a| - i..] + [b];
        assert START_FLAG[..i + 1] == START_FLAG[..i] + [START_FLAG[i]];
      }
    }
  }

  /** Nothing is found before the octet that completes it. */
  lemma FoundIsFirst(s: seq<Byte>, k: nat)
    requires ScanFrom(0, s).Found? && k <= |s|
    ensures if k < ScanFrom(0, s).consumed then ScanFrom(0, s[..k]).Searching?
            else ScanFrom(0, s[..k]) == ScanFrom(0, s)
  {
    assert s == s[..k] + s[k..];
    ScanConcat(0, s[..k], s[k..]);
  }

  /** When the scan stops, the last ten octets it took are the flag. */
  lemma StopsOnFlag(s: seq<Byte>)
    requires ScanFrom(0, s).Found?
    ensures var n := ScanFrom(0, s).consumed;
            FLAG_LENGTH <= n && s[n - FLAG_LENGTH..n] == START_FLAG
  {
    hide ScanFrom;
    var n := ScanFrom(0, s).consumed;
    var a, b := s[..n - 1], s[n - 1];
    FoundIsFirst(s, n - 1);
    FoundIsFirst(s, n);
    assert s[..n] == a + [b];
    ScanSnoc(a, b);
    IndexIsMatchedPrefix(a);
    assert s[n - FLAG_LENGTH..n] == a[|a| - 9..] + [b];
    assert START_FLAG == START_FLAG[..9] + [START_FLAG[9]];
  }

  predicate FlagAt(s: seq<Byte>, p: int) {
    0 <= p && p + FLAG_LENGTH <= |s| && s[p..p + FLAG_LENGTH] == START_FLAG
  }

  /** Scanning the flag itself: it is recognised from index 0 only. Anywhere else its 'S'
      resets the index, and no later octet of the flag can start a match, because 'S' occurs
      in it only once. */
  lemma ScanFlag(index: nat)
    requires index < FLAG_LENGTH
    ensures ScanFrom(index, START_FLAG) == if index == 0 then Found(FLAG_LENGTH) else Searching(0)
  {
    if index == 0 {
      ScanFlagFrom(0, START_FLAG);
    } else {
      assert Advance(index, START_FLAG[0]) == 0;
      NoRestart(START_FLAG[1..]);
    }
  }

  lemma {:induction false} ScanFlagFrom(i: nat, s: seq<Byte>)
    requires i < FLAG_LENGTH && |s| == FLAG_LENGTH - i
    requires forall k :: 0 <= k < |s| ==> s[k] == START_FLAG[i + k]
    ensures ScanFrom(i, s) == Found(FLAG_LENGTH - i)
    decreases s
  {
    assert Advance(i, s[0]) == i + 1;
    if i + 1 == FLAG_LENGTH {
    } else {
      ScanFlagFrom(i + 1, s[1..]);
    }
  }

  lemma {:induction false} NoRestart(s: seq<Byte>)
    requires forall k :: 0 <= k < |s| ==> s[k] != START_FLAG[0]
    ensures ScanFrom(0, s) == Searching(0)
    decreases s
  {
    if s == [] {
    } else {
      NoRestart(s[1..]);
    }
  }

  /** Exact acceptance: the scan stops at the end of a given occurrence of the flag if and
      only if it is still searching, with index 0, where that occurrence begins. */
  lemma AcceptedIffIndexZero(s: seq<Byte>, p: nat)
    requires FlagAt(s, p)
    ensures ScanFrom(0, s) == Found(p + FLAG_LENGTH) <==> ScanFrom(0, s[..p]) == Searching(0)
  {
    var rest := s[p + FLAG_LENGTH..];
    assert s == s[..p] + (START_FLAG + rest);
    ScanConcat(0, s[..p], START_FLAG + rest);
    match ScanFrom(0, s[..p])
    case Found(_) =>
    case Searching(i) =>
      ScanFlag(i);
      ScanConcat(i, START_FLAG, rest);
  }

  /** The scan as a search: it stops exactly at the first occurrence that begins with the
      scanner at index 0, and at none if there is no such occurrence. */
  lemma StopsAtFirstAlignedFlag(s: seq<Byte>)
    ensures match ScanFrom(0, s)
            case Found(n) =>
              && n >= FLAG_LENGTH && FlagAt(s, n - FLAG_LENGTH)
              && ScanFrom(0, s[..n - FLAG_LENGTH]) == Searching(0)
              && forall p | p < n - FLAG_LENGTH && FlagAt(s, p) :: ScanFrom(0, s[..p]) != Searching(0)
            case Searching(_) =>
              forall p | FlagAt(s, p) :: ScanFrom(0, s[..p]) != Searching(0)
  {
    if ScanFrom(0, s).Found? {
      StopsOnFlag(s);
      AcceptedIffIndexZero(s, ScanFrom(0, s).consumed - FLAG_LENGTH);
    }
    forall p | FlagAt(s, p)
      ensures ScanFrom(0, s) == Found(p + FLAG_LENGTH) <==> ScanFrom(0, s[..p]) == Searching(0)
    {
      AcceptedIffIndexZero(s, p);
    }
  }

  /** Octets without a flag, and not ending in the beginning of one. */
  predicate CleanJunk(s: seq<Byte>) {
    && (forall p :: 0 <= p <= |s| - FLAG_LENGTH ==> !FlagAt(s, p))
    && (forall i :: 1 <= i < FLAG_LENGTH && i <= |s| ==> s[|s| - i..] != START_FLAG[..i])
  }

  /** Flag-free junk that ends with no part of a flag never hides the flag behind it. */
  lemma FlagAfterCleanJunk(junk: seq<Byte>, rest: seq<Byte>)
    requires CleanJunk(junk)
    ensures ScanFrom(0, junk) == Searching(0)
    ensures ScanFrom(0, junk + START_FLAG + rest) == Found(|junk| + FLAG_LENGTH)
  {
    if ScanFrom(0, junk).Found? {
      StopsOnFlag(junk);
      assert FlagAt(junk, ScanFrom(0, junk).consumed - FLAG_LENGTH);
    } else {
      IndexIsMatchedPrefix(junk);
    }
    var s := junk + START_FLAG + rest;
    assert s[|junk|..|junk| + FLAG_LENGTH] == START_FLAG;
    assert s[..|junk|] == junk;
    AcceptedIffIndexZero(s, |junk|);
  }

  function Repeat(b: Byte, n: nat): (s: seq<Byte>)
    ensures |s| == n
  {
    seq(n, _ => b)
  }

  lemma {:induction false} ScanOfS(n: nat)
    ensures ScanFrom(0, Repeat(START_FLAG[0], n)) == Searching(n % 2)
  {
    if n == 0 {
    } else {
      ScanOfS(n - 1);
      assert Repeat(START_FLAG[0], n) == Repeat(START_FLAG[0], n - 1) + [START_FLAG[0]];
      ScanSnoc(Repeat(START_FLAG[0], n - 1), START_FLAG[0]);
    }
  }

  /** Stray copies of 'S' hide the flag behind them exactly when their number is odd. */
  lemma FlagAfterStrayS(n: nat, rest: seq<Byte>)
    ensures ScanFrom(0, Repeat(START_FLAG[0], n) + START_FLAG + rest) == Found(n + FLAG_LENGTH) <==> n % 2 == 0
  {
    ScanOfS(n);
    var junk := Repeat(START_FLAG[0], n);
    var s := junk + START_FLAG + rest;
    assert s[n..n + FLAG_LENGTH] == START_FLAG && s[..n] == junk;
    AcceptedIffIndexZero(s, n);
  }

  /** After the end of the stream `read()` keeps giving 0xFF, and no number of those ends the scan. */
  lemma {:induction false} EndOfStreamNeverFound(index: nat, n: nat)
    requires index < FLAG_LENGTH
    ensures ScanFrom(index, Repeat(0xFF, n)) == Searching(if n == 0 then index else 0)
  {
    if n == 0 {
    } else {
      assert Repeat(0xFF, n)[1..] == Repeat(0xFF, n - 1);
      EndOfStreamNeverFound(0, n - 1);
    }
  }
}
