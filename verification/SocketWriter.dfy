/** The server's encoder and its mode state (`Server/socket_writer.c`). */
module SocketWriter {
  import opened Words
  import opened Wire
  import opened Modes

  /** The two statics that a header samples. */
  datatype WriterState = WriterState(mode: Mode, motionBit: Byte)

  const INITIAL_WRITER := WriterState(Idle, 0)

  /** The octet that `output_header` composes from the two statics. */
  function ModeByteOf(w: WriterState): Byte {
    var md := if w.mode == Movie then 1 else 0;
    Or(md, w.motionBit) % 0x100
  }

  /** `socket_set_mode` on the statics. */
  function AfterSetMode(w: WriterState, newMode: Mode, motion: bool): WriterState {
    if w.mode == newMode then w
    else WriterState(newMode, if newMode == Idle then 0 else if motion then 2 else w.motionBit)
  }

  class Writer {
    var mode: Mode
    var motionBit: Byte
    /** Everything written to the connected socket. */
    var output: seq<Byte>

    constructor ()
      ensures State() == INITIAL_WRITER && output == []
    {
      mode, motionBit, output := Idle, 0, [];
    }

    function State(): WriterState
      reads this
    {
      WriterState(mode, motionBit)
    }

    method SocketSetMode(newMode: Mode, motionDetected: bool)
      modifies this`mode, this`motionBit
      ensures State() == AfterSetMode(old(State()), newMode, motionDetected)
    {
      if mode == newMode {
        return;
      }
      if motionDetected {
        motionBit := 2;
      }
      if newMode == Idle {
        motionBit := 0;
      }
      mode := newMode;
    }

    method OutputStartFlag()
      modifies this`output
      ensures output == old(output) + START_FLAG
    {
      output := output + START_FLAG;
    }

    /** The shift-and-write loop over the `n` low octets of a value. */
    method OutputOctets(v: nat, n: nat)
      modifies this`output
      ensures output == old(output) + OctetsOf(v, n)
    {
      var i: int := n - 1;
      ghost var start := output;
      while i != -1
        invariant -1 <= i < n
        invariant output == start + OctetsOf(Shr(v, 8 * (i + 1)), n - 1 - i)
      {
        OctetStep(v, i, n);
        var data: Byte := And(Shr(v, 8 * i) % 0x100, 0xFF);
        output := output + [data];
        i := i - 1;
      }
    }

    method OutputHeader(size: nat, time: nat)
      modifies this`output
      ensures output == old(output) + OctetsOf(time, TIMESTAMP_SIZE) + OctetsOf(size, IMAGE_SIZE_SIZE)
                        + [ModeByteOf(State())]
    {
      var md: nat := 0;
      if mode == Movie {
        md := 1;
      }
      OutputOctets(time, TIMESTAMP_SIZE);
      OutputOctets(size, IMAGE_SIZE_SIZE);
      md := Or(md, motionBit);
      var low: Byte := md % 0x100;
      output := output + [low];
    }

    method OutputJpeg(data: seq<Byte>)
      modifies this`output
      ensures output == old(output) + data
    {
      output := output + data;
    }

    /** One capture: flag, header and picture go out in this order, as one encoded frame. */
    method CaptureAndOutput(data: seq<Byte>, time: nat)
      modifies this`output
      ensures output == old(output) + Encode(Captured(time, ModeByteOf(State()), data))
    {
      OutputStartFlag();
      OutputHeader(|data|, time);
      OutputJpeg(data);
      AssembleFrame(old(output), START_FLAG, OctetsOf(time, TIMESTAMP_SIZE), OctetsOf(|data|, IMAGE_SIZE_SIZE),
                    [ModeByteOf(State())], data);
    }
  }

  lemma OctetStep(v: nat, i: nat, n: nat)
    requires i < n
    ensures And(Shr(v, 8 * i) % 0x100, 0xFF) == Shr(v, 8 * i) % 0x100
    ensures OctetsOf(Shr(v, 8 * (i + 1)), n - 1 - i) + [Shr(v, 8 * i) % 0x100] == OctetsOf(Shr(v, 8 * i), n - 1 - i + 1)
  {
    AndOctet(Shr(v, 8 * i) % 0x100);
    ShrOctet(v, 8 * i);
    assert 8 * (i + 1) == 8 * i + 8;
  }

  lemma AssembleFrame(o: seq<Byte>, f: seq<Byte>, t: seq<Byte>, s: seq<Byte>, m: seq<Byte>, d: seq<Byte>)
    ensures o + f + t + s + m + d == o + (f + (t + s + m) + d)
  {
  }
}
