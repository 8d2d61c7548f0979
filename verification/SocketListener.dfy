/** The server's command listener (`Server/socket_listener.c`). Each read takes one octet; a read
    that gets nothing leaves the cleared buffer as it is, which counts as an octet 0. After its
    finite input the stream has ended and gives nothing any more. */
module SocketListener {
  import opened Words
  import opened Modes
  import opened ModeHandler

  const JIBBERISH_TOLERANCE := 10

  /** The octet in the buffer after the i-th read. */
  function ReadAt(input: seq<Byte>, i: nat): Byte {
    if i < |input| then input[i] else 0
  }

  predicate Junk(b: Byte) {
    b != 0x30 && b != 0x31 && b != 0x32
  }

  /** How many of the first n reads are junk. */
  function JunkCount(input: seq<Byte>, n: nat): nat {
    if n == 0 then 0 else JunkCount(input, n - 1) + (if Junk(ReadAt(input, n - 1)) then 1 else 0)
  }

  /** The connection is given up with the read that exceeds the tolerance. */
  predicate ClosingRead(input: seq<Byte>, n: nat) {
    n > 0 && JunkCount(input, n) == JIBBERISH_TOLERANCE + 1 && Junk(ReadAt(input, n - 1))
  }

  /** The mode calls made by the first n reads. */
  function Commands(input: seq<Byte>, n: nat): seq<ServerOp> {
    if n == 0 then []
    else
      var b := ReadAt(input, n - 1);
      Commands(input, n - 1) +
      (if b == 0x30 then [SetMode(Idle, false)] else if b == 0x31 then [SetMode(Movie, false)] else [])
  }

  function ApplyAll(s: ServerState, ops: seq<ServerOp>): ServerState {
    if ops == [] then s else Apply(ApplyAll(s, ops[..|ops| - 1]), ops[|ops| - 1])
  }

  /** The meaning of the last '0' or '1' among the first n octets, or else the mode before. */
  function LastCommand(input: seq<Byte>, n: nat, start: Mode): Mode {
    if n == 0 then start
    else if n - 1 < |input| && input[n - 1] == 0x30 then Idle
    else if n - 1 < |input| && input[n - 1] == 0x31 then Movie
    else LastCommand(input, n - 1, start)
  }

  /** The reads among the first n that bring neither '0' nor '1' nor '2'. */
  function OtherReads(input: seq<Byte>, n: nat): set<int> {
    set i | 0 <= i < n && (i < |input| ==> input[i] != 0x30 && input[i] != 0x31 && input[i] != 0x32)
  }

  lemma {:induction false} JunkCounted(input: seq<Byte>, n: nat)
    ensures JunkCount(input, n) == |OtherReads(input, n)|
    ensures n > 0 ==> (Junk(ReadAt(input, n - 1)) <==> n - 1 in OtherReads(input, n))
  {
    if n == 0 {
      assert OtherReads(input, 0) == {};
    } else {
      JunkCounted(input, n - 1);
      if Junk(ReadAt(input, n - 1)) {
        assert OtherReads(input, n) == OtherReads(input, n - 1) + {n - 1};
      } else {
        assert OtherReads(input, n) == OtherReads(input, n - 1);
      }
    }
  }

  /** The closing read is the one that brings the eleventh of them. */
  lemma ClosingReadIff(input: seq<Byte>, n: nat)
    ensures ClosingRead(input, n) <==> |OtherReads(input, n)| == 11 && n - 1 in OtherReads(input, n)
  {
    JunkCounted(input, n);
  }

  /** The read loop: it always ends, by giving up the connection at the eleventh junk read in
      total, and has by then made exactly the mode calls commanded before that. */
  method StreamListenerCallback(input: seq<Byte>, handler: Handler) returns (readCount: nat)
    requires handler.Valid()
    modifies handler`mode, handler`log, handler.writer`mode, handler.writer`motionBit
    ensures handler.Valid()
    ensures ClosingRead(input, readCount) && readCount <= |input| + 11
    ensures |OtherReads(input, readCount)| == 11 && readCount - 1 in OtherReads(input, readCount)
    ensures handler.mode == LastCommand(input, readCount, old(handler.mode))
    ensures handler.State() == ApplyAll(old(handler.State()), Commands(input, readCount))
  {
    hide Apply, ApplyAll, Commands, OtherReads, LastCommand;
    NoCommands(handler.State(), input);
    readCount := 0;
    var nothingCount := 0;
    var socketActive := true;
    while socketActive
      invariant handler.Valid() && nothingCount == JunkCount(input, readCount)
      invariant socketActive ==> nothingCount <= JIBBERISH_TOLERANCE
      invariant !socketActive ==> ClosingRead(input, readCount)
      invariant readCount > |input| ==> readCount - |input| <= nothingCount
      invariant nothingCount <= JIBBERISH_TOLERANCE + 1
      invariant handler.State() == ApplyAll(old(handler.State()), Commands(input, readCount))
      decreases socketActive, (if readCount < |input| then |input| - readCount else 0),
                JIBBERISH_TOLERANCE - nothingCount
    {
      var buffer := ReadAt(input, readCount);
      readCount := readCount + 1;
      if buffer != 0x30 && buffer != 0x31 && buffer != 0x32 {
        nothingCount := nothingCount + 1;
      }
      if nothingCount > JIBBERISH_TOLERANCE {
        socketActive := false;
      }
      CommandStep(old(handler.State()), input, readCount - 1);
      if buffer == 0x30 {
        handler.SetMode(Idle, false);
      } else if buffer == 0x31 {
        handler.SetMode(Movie, false);
      }
    }
    ClosingReadIff(input, readCount);
    CommandedMode(input, readCount, old(handler.State()));
  }

  lemma CommandStep(s: ServerState, input: seq<Byte>, n: nat)
    ensures var before, b := ApplyAll(s, Commands(input, n)), ReadAt(input, n);
            ApplyAll(s, Commands(input, n + 1)) ==
            if b == 0x30 then Apply(before, SetMode(Idle, false))
            else if b == 0x31 then Apply(before, SetMode(Movie, false))
            else before
  {
    var ops := Commands(input, n);
    ApplySnoc(s, ops, SetMode(Idle, false));
    ApplySnoc(s, ops, SetMode(Movie, false));
    assert ops + [] == ops;
  }

  lemma ApplySnoc(s: ServerState, ops: seq<ServerOp>, op: ServerOp)
    ensures ApplyAll(s, ops + [op]) == Apply(ApplyAll(s, ops), op)
  {
    assert (ops + [op])[..|ops|] == ops;
  }

  /** The closing read is determined by the stream. */
  lemma ClosingReadUnique(input: seq<Byte>, m: nat, n: nat)
    requires ClosingRead(input, m) && ClosingRead(input, n)
    ensures m == n
  {
    if m < n {
      JunkCountMonotone(input, m, n - 1);
    } else if n < m {
      JunkCountMonotone(input, n, m - 1);
    }
  }

  lemma {:induction false} JunkCountMonotone(input: seq<Byte>, m: nat, n: nat)
    requires m <= n
    ensures JunkCount(input, m) <= JunkCount(input, n)
    decreases n
  {
    if m == n {
    } else {
      JunkCountMonotone(input, m, n - 1);
    }
  }

  /** The mode after the loop is the one commanded last. */
  lemma {:induction false} CommandedMode(input: seq<Byte>, n: nat, s: ServerState)
    ensures ApplyAll(s, Commands(input, n)).mode == LastCommand(input, n, s.mode)
  {
    hide Commands, ApplyAll, Notified, Broadcast;
    if n > 0 {
      CommandedMode(input, n - 1, s);
      CommandStep(s, input, n - 1);
    } else {
      NoCommands(s, input);
    }
  }

  lemma NoCommands(s: ServerState, input: seq<Byte>)
    ensures ApplyAll(s, Commands(input, 0)) == s
  {
  }

  /** No command raises the motion flag. */
  lemma {:induction false} CommandsCarryNoMotion(input: seq<Byte>, n: nat)
    ensures forall i :: 0 <= i < |Commands(input, n)| ==>
              Commands(input, n)[i].SetMode? && !Commands(input, n)[i].motion
  {
    if n == 0 {
    } else {
      CommandsCarryNoMotion(input, n - 1);
    }
  }
}
