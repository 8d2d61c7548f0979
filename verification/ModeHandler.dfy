/** The server's mode of operation and its list of change callbacks (`Server/mode_handler.c`),
    with `socket_set_mode` as the callback that keeps the encoder's mode in step. */
module ModeHandler {
  import opened Modes
  import opened SocketWriter

  /** The registered function pointers; only `socket_set_mode` has an effect modelled here. */
  datatype Callback = SocketSetMode | Other(id: nat)

  datatype Invocation = Invocation(callback: Callback, mode: Mode, motion: bool)

  /** `mallocOk` says whether `malloc` delivered. */
  datatype ServerOp = Register(callback: Callback, mallocOk: bool) | SetMode(mode: Mode, motion: bool)

  /** The handler's mode, its callbacks in list order, the encoder's statics, and every callback
      invocation so far. */
  datatype ServerState = ServerState(mode: Mode, callbacks: seq<Callback>, writer: WriterState, log: seq<Invocation>)

  const INITIAL := ServerState(Idle, [], INITIAL_WRITER, [])

  function CalledBack(w: WriterState, c: Callback, mode: Mode, motion: bool): WriterState {
    if c == SocketSetMode then AfterSetMode(w, mode, motion) else w
  }

  function Notified(w: WriterState, cs: seq<Callback>, mode: Mode, motion: bool): WriterState
    decreases cs
  {
    if cs == [] then w else Notified(CalledBack(w, cs[0], mode, motion), cs[1..], mode, motion)
  }

  function Broadcast(cs: seq<Callback>, mode: Mode, motion: bool): (r: seq<Invocation>)
    ensures |r| == |cs|
  {
    seq(|cs|, i requires 0 <= i < |cs| => Invocation(cs[i], mode, motion))
  }

  function Apply(s: ServerState, op: ServerOp): ServerState {
    match op
    case Register(c, mallocOk) => if mallocOk then s.(callbacks := [c] + s.callbacks) else s
    case SetMode(mode, motion) =>
      if s.mode == mode then s
      else ServerState(mode, s.callbacks, Notified(s.writer, s.callbacks, mode, motion),
                       s.log + Broadcast(s.callbacks, mode, motion))
  }

  function Run(ops: seq<ServerOp>): ServerState {
    if ops == [] then INITIAL else Apply(Run(ops[..|ops| - 1]), ops[|ops| - 1])
  }

  // ---------------------------------------------------------------------------
  // The linked list
  // ---------------------------------------------------------------------------

  class CallbackNode {
    const callback: Callback
    var next: CallbackNode?
    var freed: bool

    constructor (callback: Callback, next: CallbackNode?)
      ensures this.callback == callback && this.next == next && !freed
    {
      this.callback, this.next, freed := callback, next, false;
    }

    /** `free`: allowed once, and nothing is promised about the link afterwards. */
    method Free()
      requires !freed
      modifies this
      ensures freed
    {
      next, freed := null, true;
    }
  }

  class Handler {
    var mode: Mode
    var first: CallbackNode?
    const writer: Writer
    var log: seq<Invocation>
    /** The nodes in list order, and those freed so far in the order of freeing. */
    ghost var nodes: seq<CallbackNode>
    ghost var frees: seq<CallbackNode>

    constructor (writer: Writer)
      ensures Valid() && this.writer == writer && nodes == frees == []
      ensures State() == INITIAL.(writer := writer.State())
    {
      this.writer := writer;
      mode, first, log, nodes, frees := Idle, null, [], [], [];
    }

    ghost predicate Valid()
      reads this`first, this`nodes, nodes
    {
      && first == Link(nodes, 0)
      && (forall i :: 0 <= i < |nodes| ==> nodes[i].next == Link(nodes, i + 1) && !nodes[i].freed)
      && (forall i, j :: 0 <= i < j < |nodes| ==> nodes[i] != nodes[j])
    }

    ghost function Callbacks(): seq<Callback>
      reads this`nodes
    {
      CallbacksOf(nodes)
    }

    ghost function State(): ServerState
      reads this, writer
    {
      ServerState(mode, Callbacks(), writer.State(), log)
    }

    /** One call through a function pointer. */
    method Invoke(c: Callback, newMode: Mode, motion: bool)
      modifies this`log, writer`mode, writer`motionBit
      ensures writer.State() == CalledBack(old(writer.State()), c, newMode, motion)
      ensures log == old(log) + [Invocation(c, newMode, motion)]
    {
      log := log + [Invocation(c, newMode, motion)];
      if c == SocketSetMode {
        writer.SocketSetMode(newMode, motion);
      }
    }

    method SetMode(newMode: Mode, motionDetected: bool)
      requires Valid()
      modifies this`mode, this`log, writer`mode, writer`motionBit
      ensures Valid()
      ensures State() == Apply(old(State()), ServerOp.SetMode(newMode, motionDetected))
    {
      if mode != newMode {
        mode := newMode;
        NotifyAll(newMode, motionDetected);
      }
    }

    /** The loop of `set_mode` over the list. */
    method NotifyAll(newMode: Mode, motion: bool)
      requires Valid()
      modifies this`log, writer`mode, writer`motionBit
      ensures writer.State() == Notified(old(writer.State()), Callbacks(), newMode, motion)
      ensures log == old(log) + Broadcast(Callbacks(), newMode, motion)
    {
      hide Broadcast, Notified, CalledBack, AfterSetMode;
      ghost var cs, start := Callbacks(), writer.State();
      NotifyEnds(cs, newMode, motion);
      var current := first;
      ghost var i := 0;
      while current != null
        invariant 0 <= i <= |cs| && current == Link(nodes, i)
        invariant log == old(log) + Broadcast(cs[..i], newMode, motion)
        invariant Notified(writer.State(), cs[i..], newMode, motion) == Notified(start, cs, newMode, motion)
        decreases |cs| - i
      {
        NotifyStep(writer.State(), cs, i, newMode, motion);
        Invoke(current.callback, newMode, motion);
        current := current.next;
        i := i + 1;
      }
      NotifyDone(writer.State(), cs, newMode, motion);
    }

    method GetMode() returns (m: Mode)
      ensures m == mode
    {
      m := mode;
    }

    /** Walks to the end of the list, then puts the new node in front of it. */
    method RegisterOnChangeCallback(callback: Callback, mallocOk: bool)
      requires Valid()
      modifies this`first, this`nodes
      ensures Valid()
      ensures State() == Apply(old(State()), Register(callback, mallocOk))
      ensures mallocOk ==> |nodes| == |old(nodes)| + 1 && fresh(nodes[0]) && nodes[1..] == old(nodes)
      ensures !mallocOk ==> nodes == old(nodes)
    {
      var current := first;
      ghost var i := 0;
      while current != null
        invariant 0 <= i <= |nodes| && current == Link(nodes, i)
        decreases |nodes| - i
      {
        current := current.next;
        i := i + 1;
      }
      if mallocOk {
        var node := new CallbackNode(callback, first);
        first := node;
        nodes := [node] + nodes;
        assert Callbacks() == [callback] + old(Callbacks());
      }
    }

    /** One call of `free`. */
    method FreeNode(node: CallbackNode)
      requires !node.freed
      modifies this`frees, node
      ensures node.freed && frees == old(frees) + [node]
    {
      node.Free();
      frees := frees + [node];
    }

    /** Frees every node of the list exactly once and in list order. The link to the next node
        has to be read before: the freed node promises nothing about it. */
    method CloseModeHandler()
      requires Valid()
      modifies this`frees, nodes
      ensures nodes == old(nodes) && frees == old(frees) + nodes
      ensures forall i :: 0 <= i < |nodes| ==> nodes[i].freed
    {
      var current := first;
      ghost var i := 0;
      while current != null
        invariant 0 <= i <= |nodes| && current == Link(nodes, i)
        invariant frees == old(frees) + nodes[..i]
        invariant forall j :: 0 <= j < |nodes| ==> nodes[j].freed == (j < i)
        invariant forall j :: i <= j < |nodes| ==> nodes[j].next == Link(nodes, j + 1)
        decreases |nodes| - i
      {
        var nodeToFree := current;
        current := current.next;
        FreeNode(nodeToFree);
        i := i + 1;
      }
    }
  }

  ghost function CallbacksOf(nodes: seq<CallbackNode>): (cs: seq<Callback>)
    ensures |cs| == |nodes|
  {
    seq(|nodes|, i requires 0 <= i < |nodes| => nodes[i].callback)
  }

  lemma NotifyEnds(cs: seq<Callback>, mode: Mode, motion: bool)
    ensures Broadcast(cs[..0], mode, motion) == [] && cs[0..] == cs
  {
  }

  lemma NotifyDone(w: WriterState, cs: seq<Callback>, mode: Mode, motion: bool)
    ensures cs[..|cs|] == cs && Notified(w, cs[|cs|..], mode, motion) == w
  {
  }

  lemma NotifyStep(w: WriterState, cs: seq<Callback>, i: nat, mode: Mode, motion: bool)
    requires i < |cs|
    ensures Broadcast(cs[..i + 1], mode, motion) == Broadcast(cs[..i], mode, motion) + [Invocation(cs[i], mode, motion)]
    ensures Notified(w, cs[i..], mode, motion) ==
            Notified(CalledBack(w, cs[i], mode, motion), cs[i + 1..], mode, motion)
  {
    assert cs[i..][1..] == cs[i + 1..];
  }

  /** What a pointer to the i-th place of a list holds. */
  ghost function Link(nodes: seq<CallbackNode>, i: nat): CallbackNode? {
    if i < |nodes| then nodes[i] else null
  }

  // ---------------------------------------------------------------------------
  // Histories
  // ---------------------------------------------------------------------------

  /** The mode of the last `set_mode` call. */
  function LastMode(ops: seq<ServerOp>): Mode {
    if ops == [] then Idle
    else if ops[|ops| - 1].SetMode? then ops[|ops| - 1].mode
    else LastMode(ops[..|ops| - 1])
  }

  /** The successful registrations, latest first. */
  function LatestFirst(ops: seq<ServerOp>): seq<Callback> {
    if ops == [] then []
    else
      var op := ops[|ops| - 1];
      (if op.Register? && op.mallocOk then [op.callback] else []) + LatestFirst(ops[..|ops| - 1])
  }

  /** The call at i began the movie period that is still running. */
  predicate BeganMovie(ops: seq<ServerOp>, i: int) {
    && 0 <= i < |ops| && ops[i].SetMode? && ops[i].mode == Movie
    && LastMode(ops[..i]) == Idle
    && forall j :: i < j < |ops| && ops[j].SetMode? ==> ops[j].mode == Movie
  }

  /** The running movie period, if any, began with detected motion. */
  ghost predicate BeganWithMotion(ops: seq<ServerOp>) {
    exists i :: BeganMovie(ops, i) && ops[i].motion
  }

  /** How one more call changes the question. */
  lemma BeganWithMotionStep(ops: seq<ServerOp>, op: ServerOp)
    ensures BeganWithMotion(ops + [op]) <==>
            if op.Register? then BeganWithMotion(ops)
            else if op.mode == Idle then false
            else if LastMode(ops) == Idle then op.motion
            else BeganWithMotion(ops)
  {
    var all, n := ops + [op], |ops|;
    assert all[..n] == ops;
    forall i | 0 <= i < n
      ensures BeganMovie(all, i) <==> BeganMovie(ops, i) && (op.SetMode? ==> op.mode == Movie)
      ensures BeganMovie(ops, i) ==> LastMode(ops) == Movie
    {
      assert all[..i] == ops[..i];
      assert all[n] == op && forall j :: i < j < n ==> all[j] == ops[j];
      if BeganMovie(ops, i) {
        StaysMovie(ops, i);
      }
    }
    assert BeganMovie(all, n) <==> op.SetMode? && op.mode == Movie && LastMode(ops) == Idle;
    assert forall i :: BeganMovie(all, i) ==> i == n || 0 <= i < n;
    if op.SetMode? && op.mode == Movie && LastMode(ops) == Idle && op.motion {
      assert BeganMovie(all, n) && all[n].motion;
    }
    if BeganWithMotion(ops) && (op.SetMode? ==> op.mode == Movie) {
      var i :| BeganMovie(ops, i) && ops[i].motion;
      assert BeganMovie(all, i) && all[i].motion;
    }
  }

  lemma {:induction false} StaysMovie(ops: seq<ServerOp>, i: int)
    requires BeganMovie(ops, i)
    ensures LastMode(ops) == Movie
  {
    var shorter := ops[..|ops| - 1];
    if ops[|ops| - 1].SetMode? {
    } else {
      assert shorter[..i] == ops[..i];
      StaysMovie(shorter, i);
    }
  }

  /** The effect of the broadcast on the encoder does not depend on how often it is listed. */
  lemma {:induction false} NotifiedOnce(w: WriterState, cs: seq<Callback>, mode: Mode, motion: bool)
    ensures Notified(w, cs, mode, motion) == if SocketSetMode in cs then AfterSetMode(w, mode, motion) else w
    decreases cs
  {
    if cs == [] {
    } else {
      NotifiedOnce(CalledBack(w, cs[0], mode, motion), cs[1..], mode, motion);
    }
  }

  lemma {:induction false} HandlerFollowsCalls(ops: seq<ServerOp>)
    ensures Run(ops).mode == LastMode(ops)
    ensures Run(ops).callbacks == LatestFirst(ops)
  {
    if ops == [] {
    } else {
      HandlerFollowsCalls(ops[..|ops| - 1]);
    }
  }

  /** Server mode history: with `socket_set_mode` registered first, after any sequence of
      registrations and mode calls the encoder's mode is the handler's, which is the last one
      asked for, and the motion bit is 2 exactly while the running movie period is one that
      began with motion. */
  lemma {:induction false} ServerHistory(ops: seq<ServerOp>)
    requires ops != [] && ops[0] == Register(SocketSetMode, true)
    ensures var s := Run(ops);
            && s.writer.mode == s.mode == LastMode(ops)
            && s.writer.motionBit == (if BeganWithMotion(ops) then 2 else 0)
            && (BeganWithMotion(ops) ==> s.mode == Movie)
            && SocketSetMode in s.callbacks
  {
    var n := |ops| - 1;
    var before, op := ops[..n], ops[n];
    HandlerFollowsCalls(ops);
    assert ops == before + [op];
    BeganWithMotionStep(before, op);
    if n == 0 {
      assert before == [];
    } else {
      ServerHistory(before);
      HandlerFollowsCalls(before);
      if op.SetMode? {
        NotifiedOnce(Run(before).writer, Run(before).callbacks, op.mode, op.motion);
      }
    }
  }

  /** Callbacks run only on a real change, and then each registered one exactly once, latest
      registered first. */
  lemma NotificationHistory(ops: seq<ServerOp>, i: nat)
    requires i < |ops|
    ensures var before, after, cs := Run(ops[..i]).log, Run(ops[..i + 1]).log, LatestFirst(ops[..i]);
            if ops[i].SetMode? && ops[i].mode != LastMode(ops[..i]) then
              && |after| == |before| + |cs| && after[..|before|] == before
              && forall j :: 0 <= j < |cs| ==>
                   after[|before| + j] == Invocation(cs[j], ops[i].mode, ops[i].motion)
            else after == before
  {
    HandlerFollowsCalls(ops[..i]);
    assert ops[..i + 1][..i] == ops[..i];
  }
}
