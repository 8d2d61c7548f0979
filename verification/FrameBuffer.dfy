/** The client's playout buffer (`Client/Control/FrameBuffer.java`): a list kept newest first,
    from whose end the oldest frame is taken. */
module FrameBuffer {
  import opened Words
  import opened Options
  import opened Sequences

  /** A `ServerFrame`: the server's clock when it was sent, the client's when it was received. */
  datatype Frame = Frame(sent: int, received: int, server: int, image: seq<SByte>)

  /** The index of the first frame that was sent before `f`, or the end of the list. */
  function Position(s: seq<Frame>, f: Frame): (p: nat)
    ensures p <= |s|
    ensures forall i :: 0 <= i < p ==> s[i].sent >= f.sent
    ensures p < |s| ==> s[p].sent < f.sent
  {
    if s == [] || f.sent > s[0].sent then 0 else 1 + Position(s[1..], f)
  }

  /** The list after `add`. */
  function Insert(s: seq<Frame>, f: Frame): (r: seq<Frame>)
    ensures |r| == |s| + 1
  {
    s[..Position(s, f)] + [f] + s[Position(s, f)..]
  }

  class Buffer {
    var frames: seq<Frame>

    constructor ()
      ensures frames == []
    {
      frames := [];
    }

    method Add(frame: Frame)
      modifies this
      ensures frames == Insert(old(frames), frame)
    {
      var insertionIndex := 0;
      var insertionPointFound := false;
      var next := 0;
      while next < |frames| && !insertionPointFound
        invariant 0 <= next <= |frames|
        invariant insertionPointFound ==> insertionIndex < |frames| && frame.sent > frames[insertionIndex].sent
        invariant forall i :: 0 <= i < (if insertionPointFound then insertionIndex else next) ==>
          frames[i].sent >= frame.sent
      {
        insertionIndex := next;
        var currentNode := frames[next];
        next := next + 1;
        if frame.sent > currentNode.sent {
          insertionPointFound := true;
        }
      }
      if insertionPointFound {
        frames := frames[..insertionIndex] + [frame] + frames[insertionIndex..];
      } else {
        frames := frames + [frame];
      }
    }

    /** `removeLast`; `None` stands for its exception on an empty list. */
    method Pop() returns (r: Option<Frame>)
      modifies this
      ensures if old(frames) == [] then r == None && frames == []
              else r == Some(old(frames)[|old(frames)| - 1]) && frames == old(frames)[..|old(frames)| - 1]
    {
      if frames == [] {
        return None;
      }
      r := Some(frames[|frames| - 1]);
      frames := frames[..|frames| - 1];
    }

    /** `peekLast`; `None` stands for null. */
    method Peek() returns (r: Option<Frame>)
      ensures r == if frames == [] then None else Some(frames[|frames| - 1])
    {
      r := if frames == [] then None else Some(frames[|frames| - 1]);
    }

    method Size() returns (n: nat)
      ensures n == |frames|
    {
      n := |frames|;
    }
  }

  // ---------------------------------------------------------------------------
  // The buffer as a priority queue
  // ---------------------------------------------------------------------------

  predicate NewestFirst(s: seq<Frame>) {
    forall i, j :: 0 <= i < j < |s| ==> s[i].sent >= s[j].sent
  }

  /** What frames can be told apart by. */
  datatype Key = SentAt(time: int) | FromCamera(server: int)

  predicate Fits(f: Frame, key: Key) {
    match key
    case SentAt(t) => f.sent == t
    case FromCamera(c) => f.server == c
  }

  /** The frames that fit a key, in list order. */
  function Those(s: seq<Frame>, key: Key): seq<Frame> {
    if s == [] then [] else Those(s[..|s| - 1], key) + (if Fits(s[|s| - 1], key) then [s[|s| - 1]] else [])
  }

  lemma InsertKeepsOrder(s: seq<Frame>, f: Frame)
    requires NewestFirst(s)
    ensures NewestFirst(Insert(s, f))
  {
    var p, r := Position(s, f), Insert(s, f);
    assert r == s[..p] + [f] + s[p..];
    hide Position, Insert;
    assert forall i :: 0 <= i < p ==> r[i] == s[i] && r[i].sent >= f.sent;
    assert r[p] == f;
    assert forall i :: p < i < |r| ==> r[i] == s[i - 1];
    assert forall i :: p <= i < |s| ==> s[i].sent <= s[p].sent < f.sent;
  }

  lemma InsertKeepsFrames(s: seq<Frame>, f: Frame)
    ensures multiset(Insert(s, f)) == multiset(s) + multiset{f}
  {
    assert s == s[..Position(s, f)] + s[Position(s, f)..];
  }

  lemma {:induction false} ThoseConcat(a: seq<Frame>, b: seq<Frame>, key: Key)
    ensures Those(a + b, key) == Those(a, key) + Those(b, key)
  {
    hide Fits;
    if b == [] {
      assert a + b == a;
    } else {
      var shorter, last := b[..|b| - 1], b[|b| - 1];
      assert (a + b)[..|a + b| - 1] == a + shorter && (a + b)[|a + b| - 1] == last;
      ThoseConcat(a, shorter, key);
      Regroup(Those(a, key), Those(shorter, key), if Fits(last, key) then [last] else []);
    }
  }

  lemma {:induction false} ThoseElements(s: seq<Frame>, key: Key)
    ensures forall f :: f in Those(s, key) <==> f in s && Fits(f, key)
  {
    if s == [] {
    } else {
      ThoseElements(s[..|s| - 1], key);
      assert s == s[..|s| - 1] + [s[|s| - 1]];
    }
  }

  lemma {:induction false} ThoseNone(s: seq<Frame>, key: Key)
    requires forall i :: 0 <= i < |s| ==> !Fits(s[i], key)
    ensures Those(s, key) == []
  {
    if s == [] {
    } else {
      ThoseNone(s[..|s| - 1], key);
    }
  }

  lemma ThoseOne(f: Frame, key: Key)
    ensures Those([f], key) == if Fits(f, key) then [f] else []
  {
    assert [f][..0] == [];
  }

  /** Adding pushes onto the frames of the same sent time and leaves every other time alone. */
  lemma InsertPushes(s: seq<Frame>, f: Frame, t: int)
    requires NewestFirst(s)
    ensures Those(Insert(s, f), SentAt(t)) == if t == f.sent then Those(s, SentAt(t)) + [f] else Those(s, SentAt(t))
  {
    hide Those, Insert, Position, NewestFirst;
    var p := Position(s, f);
    var a, b := s[..p], s[p..];
    assert s == a + b;
    InsertSplits(s, f);
    ThoseConcat(a, b, SentAt(t));
    ThoseConcat(a, [f] + b, SentAt(t));
    ThoseConcat([f], b, SentAt(t));
    ThoseOne(f, SentAt(t));
    if t == f.sent {
      OlderBehind(s, f);
      ThoseNone(b, SentAt(t));
    }
  }

  lemma OlderBehind(s: seq<Frame>, f: Frame)
    requires NewestFirst(s)
    ensures var b := s[Position(s, f)..];
            forall i :: 0 <= i < |b| ==> b[i].sent < f.sent
  {
    var b := s[Position(s, f)..];
    assert forall i :: 0 <= i < |b| ==> b[i].sent <= b[0].sent;
  }

  lemma InsertSplits(s: seq<Frame>, f: Frame)
    ensures Insert(s, f) == s[..Position(s, f)] + ([f] + s[Position(s, f)..])
  {
  }

  /** Taking gives a frame with the least sent time, the one added last among those, and leaves
      every other time alone. */
  lemma TakePops(s: seq<Frame>, t: int)
    requires NewestFirst(s) && s != []
    ensures var f, rest := s[|s| - 1], s[..|s| - 1];
            && NewestFirst(rest)
            && (forall g :: g in s ==> f.sent <= g.sent)
            && multiset(s) == multiset(rest) + multiset{f}
            && Those(s, SentAt(t)) == (if t == f.sent then Those(rest, SentAt(t)) + [f] else Those(rest, SentAt(t)))
  {
    assert s == s[..|s| - 1] + [s[|s| - 1]];
  }

  /** Everything popped from a buffer, first to last. */
  function Drain(s: seq<Frame>): seq<Frame> {
    if s == [] then [] else [s[|s| - 1]] + Drain(s[..|s| - 1])
  }

  lemma {:induction false} DrainPermutes(s: seq<Frame>)
    ensures multiset(Drain(s)) == multiset(s)
  {
    if s == [] {
    } else {
      DrainPermutes(s[..|s| - 1]);
      assert s == s[..|s| - 1] + [s[|s| - 1]];
    }
  }

  /** Draining yields the held frames, oldest first. */
  lemma {:induction false} DrainSorts(s: seq<Frame>)
    requires NewestFirst(s)
    ensures multiset(Drain(s)) == multiset(s)
    ensures forall i, j :: 0 <= i < j < |Drain(s)| ==> Drain(s)[i].sent <= Drain(s)[j].sent
  {
    DrainPermutes(s);
    if s == [] {
    } else {
      var rest := s[..|s| - 1];
      DrainSorts(rest);
      forall j | 0 <= j < |Drain(rest)|
        ensures s[|s| - 1].sent <= Drain(rest)[j].sent
      {
        DrainPermutes(rest);
        assert Drain(rest)[j] in multiset(Drain(rest));
        assert Drain(rest)[j] in rest;
      }
    }
  }
}
