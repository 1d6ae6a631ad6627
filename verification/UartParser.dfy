/** The UART frame parser: 0xAA, command, length, payload, checksum. */
module UartFrames {

  import opened Bytes
  import opened Wrappers

  /** 0xAA. */
  const START_BYTE: Byte := [true, false, true, false, true, false, true, false]
  const MAX_PAYLOAD := 16

  datatype Frame = Frame(cmd: Byte, payload: seq<Byte>)

  function XorAll(bytes: seq<Byte>): Byte {
    if bytes == [] then Zeros(8) else Xor(XorAll(bytes[..|bytes| - 1]), bytes[|bytes| - 1])
  }

  // ---------------------------------------------------------------- byte by byte

  /** `p` has begun like a frame and is not complete: what the parser remembers between bytes. */
  predicate Pending(p: seq<Byte>) {
    && (|p| >= 1 ==> p[0] == START_BYTE)
    && (|p| >= 3 ==> Value(p[2]) <= MAX_PAYLOAD && |p| < 4 + Value(p[2]))
  }

  /** All bytes of a frame are there; whether the checksum is right is another matter. */
  predicate Complete(q: seq<Byte>) {
    |q| >= 4 && |q| == 4 + Value(q[2])
  }

  predicate ChecksumOk(q: seq<Byte>)
    requires |q| >= 2
  {
    XorAll(q[1..|q| - 1]) == q[|q| - 1]
  }

  function FrameOf(q: seq<Byte>): Frame
    requires Complete(q)
  {
    Frame(q[1], q[3..|q| - 1])
  }

  /** What one more byte makes of the pending bytes. */
  function Next(p: seq<Byte>, b: Byte): (r: seq<Byte>)
    requires Pending(p)
    ensures Pending(r)
  {
    var q := p + [b];
    if Pending(q) then q else []
  }

  /** The frame delivered by one more byte, if any. */
  function Delivered(p: seq<Byte>, b: Byte): Option<Frame>
    requires Pending(p)
  {
    var q := p + [b];
    if Complete(q) && ChecksumOk(q) then Some(FrameOf(q)) else None
  }

  /** The specification, case by case over how far the frame has come. */
  lemma ByPosition(p: seq<Byte>, b: Byte)
    requires Pending(p)
    ensures |p| == 0 ==> Next(p, b) == (if b == START_BYTE then [b] else []) && Delivered(p, b) == None
    ensures |p| == 1 ==> Next(p, b) == p + [b] && Delivered(p, b) == None
    ensures |p| == 2 ==> Next(p, b) == (if Value(b) <= MAX_PAYLOAD then p + [b] else []) && Delivered(p, b) == None
    ensures |p| >= 3 && |p| < 3 + Value(p[2]) ==> Next(p, b) == p + [b] && Delivered(p, b) == None
    ensures |p| >= 3 && |p| == 3 + Value(p[2]) ==>
              Next(p, b) == [] && Delivered(p, b) == if b == XorAll(p[1..]) then Some(Frame(p[1], p[3..])) else None
  {
    hide Value, XorAll;
    if |p| >= 3 {
      assert (p + [b])[1..|p|] == p[1..] && (p + [b])[3..|p|] == p[3..];
    }
  }

  lemma RunningChecksum(p: seq<Byte>, b: Byte)
    requires |p| >= 1
    ensures XorAll((p + [b])[1..]) == Xor(XorAll(p[1..]), b)
  {
    var q := (p + [b])[1..];
    assert q == p[1..] + [b];
    assert q[..|q| - 1] == p[1..];
  }
}

module UartParser {
  import opened Bytes
  import opened Wrappers
  import opened UartFrames
  import opened UartStream

  datatype Phase = WaitStart | WaitCmd | WaitLen | WaitPayload | WaitChecksum

  function PhaseOf(p: seq<Byte>): Phase {
    if |p| == 0 then WaitStart
    else if |p| == 1 then WaitCmd
    else if |p| == 2 then WaitLen
    else if |p| < 3 + Value(p[2]) then WaitPayload
    else WaitChecksum
  }

  class Parser {
    var state: Phase
    var cmd: Byte
    var len: Byte
    const payload: array<Byte>
    var payloadIdx: nat
    var checksum: Byte
    ghost var pending: seq<Byte>

    ghost predicate Valid()
      reads this, payload
    {
      && payload.Length == MAX_PAYLOAD
      && Pending(pending)
      && state == PhaseOf(pending)
      && checksum == (if |pending| == 0 then Zeros(8) else XorAll(pending[1..]))
      && (|pending| >= 2 ==> cmd == pending[1])
      && (|pending| >= 3 ==>
            len == pending[2] && |pending| - 3 <= MAX_PAYLOAD && payload[..|pending| - 3] == pending[3..])
      && payloadIdx == if state == WaitPayload then |pending| - 3 else 0
    }

    /** `parser_init`; the command is left as it was. */
    constructor ()
      ensures Valid() && fresh(payload) && pending == []
      ensures state == WaitStart && len == Zeros(8) && payloadIdx == 0 && checksum == Zeros(8)
      ensures forall i :: 0 <= i < MAX_PAYLOAD ==> payload[i] == Zeros(8)
    {
      state, len, payloadIdx, checksum := WaitStart, Zeros(8), 0, Zeros(8);
      payload := new Byte[MAX_PAYLOAD](_ => Zeros(8));
      pending := [];
    }

    /** The length case of the switch. */
    method FeedLength(byte: Byte)
      requires Valid() && state == WaitLen
      modifies this
      ensures Valid()
      ensures pending == if Value(byte) <= MAX_PAYLOAD then old(pending) + [byte] else []
      ensures cmd == old(cmd) && len == if Value(byte) <= MAX_PAYLOAD then byte else old(len)
    {
      hide Value, Xor, XorAll;
      ZeroValue(byte);
      RunningChecksum(pending, byte);
      if byte == Zeros(8) {
        len := byte;
        checksum := Xor(checksum, byte);
        state := WaitChecksum;
        pending := pending + [byte];
      } else if Value(byte) <= MAX_PAYLOAD {
        len := byte;
        checksum := Xor(checksum, byte);
        state := WaitPayload;
        pending := pending + [byte];
      } else {
        checksum := Zeros(8);
        state := WaitStart;
        pending := [];
      }
    }

    /** The payload case of the switch. */
    method FeedPayload(byte: Byte)
      requires Valid() && state == WaitPayload
      modifies this, payload
      ensures Valid() && pending == old(pending) + [byte]
      ensures cmd == old(cmd) && len == old(len) && payload[..] == old(payload[..])[old(payloadIdx) := byte]
    {
      hide Value, Xor, XorAll;
      RunningChecksum(pending, byte);
      ghost var q := pending + [byte];
      assert q[3..] == pending[3..] + [byte];
      if payloadIdx < Value(len) - 1 {
        payload[payloadIdx] := byte;
        checksum := Xor(checksum, byte);
        payloadIdx := payloadIdx + 1;
      } else if payloadIdx == Value(len) - 1 {
        payload[payloadIdx] := byte;
        checksum := Xor(checksum, byte);
        payloadIdx := 0;
        state := WaitChecksum;
      }
      assert payload[..|q| - 3] == q[3..];
      pending := q;
    }

    /** `parser_feed_byte`. */
    method FeedByte(byte: Byte) returns (ok: bool)
      requires Valid()
      modifies this, payload
      ensures Valid()
      ensures pending == Next(old(pending), byte)
      ensures ok <==> Delivered(old(pending), byte).Some?
      ensures cmd == if old(state) == WaitCmd then byte else old(cmd)
      ensures len == if old(state) == WaitLen && Value(byte) <= MAX_PAYLOAD then byte else old(len)
      ensures payload[..] == if old(state) == WaitPayload then old(payload[..])[old(payloadIdx) := byte]
                             else old(payload[..])
      ensures ok ==> Value(len) <= MAX_PAYLOAD
                     && Delivered(old(pending), byte) == Some(Frame(cmd, payload[..Value(len)]))
    {
      hide Value, Next, Delivered, Xor;
      ByPosition(pending, byte);
      ok := false;
      match state {
      case WaitStart =>
        if byte == START_BYTE {
          state := WaitCmd;
          pending := [byte];
        }
      case WaitCmd =>
        RunningChecksum(pending, byte);
        cmd := byte;
        checksum := Xor(checksum, byte);
        state := WaitLen;
        pending := pending + [byte];
      case WaitLen =>
        FeedLength(byte);
      case WaitPayload =>
        FeedPayload(byte);
      case WaitChecksum =>
        assert payload[..Value(len)] == pending[3..];
        ok := byte == checksum;
        checksum := Zeros(8);
        state := WaitStart;
        pending := [];
      }
    }

    /** A stream fed byte by byte, as a receive loop does: what each call returns. */
    method FeedAll(stream: seq<Byte>) returns (results: seq<Option<Frame>>)
      requires Valid()
      modifies this, payload
      ensures Valid()
      ensures pending == After(old(pending), stream)
      ensures results == Outputs(old(pending), stream)
    {
      hide Value, Next, Delivered, XorAll, PhaseOf;
      ghost var p := pending;
      results := [];
      for j := 0 to |stream|
        invariant Valid() && pending == After(p, stream[..j]) && results == Outputs(p, stream[..j])
      {
        var ok := FeedByte(stream[j]);
        results := results + [if ok then Some(Frame(cmd, payload[..Value(len)])) else None];
        FedOneMore(p, stream, j);
      }
      assert stream[..|stream|] == stream;
    }
  }
}
