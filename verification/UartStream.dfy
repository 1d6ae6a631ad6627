/** Streams through the frame parser: batch decoding, encoding, damage and resynchronisation. */
module UartStream {
  import opened Bytes
  import opened Wrappers
  import opened UartFrames

  // ---------------------------------------------------------------- a stream, byte by byte

  /** What each byte of the stream makes `parser_feed_byte` return. */
  function Outputs(p: seq<Byte>, s: seq<Byte>): (r: seq<Option<Frame>>)
    requires Pending(p)
    ensures |r| == |s|
    decreases |s|
  {
    if s == [] then [] else [Delivered(p, s[0])] + Outputs(Next(p, s[0]), s[1..])
  }

  /** What the parser still holds after the stream. */
  function After(p: seq<Byte>, s: seq<Byte>): (r: seq<Byte>)
    requires Pending(p)
    ensures Pending(r)
    decreases |s|
  {
    if s == [] then p else After(Next(p, s[0]), s[1..])
  }

  function Nones(n: nat): seq<Option<Frame>> { seq(n, _ => None) }

  lemma {:induction false} StreamConcat(p: seq<Byte>, a: seq<Byte>, b: seq<Byte>)
    requires Pending(p)
    ensures After(p, a + b) == After(After(p, a), b)
    ensures Outputs(p, a + b) == Outputs(p, a) + Outputs(After(p, a), b)
    decreases |a|
  {
    hide Pending, Next, Delivered;
    if a == [] {
      assert a + b == b;
    } else {
      assert (a + b)[0] == a[0] && (a + b)[1..] == a[1..] + b;
      StreamConcat(Next(p, a[0]), a[1..], b);
    }
  }

  lemma PendingPrefix(p: seq<Byte>, s: seq<Byte>)
    requires Pending(p + s) && s != []
    ensures Pending(p + [s[0]])
  {
    hide Value;
    var q := p + [s[0]];
    assert q[0] == (p + s)[0];
    if |q| >= 3 { assert q[2] == (p + s)[2]; }
  }

  lemma PilesUpOnce(p: seq<Byte>, b: Byte)
    requires Pending(p) && Pending(p + [b])
    ensures Next(p, b) == p + [b] && Delivered(p, b) == None
  {
    hide Value, ChecksumOk, FrameOf;
  }

  /** While the bytes could still belong to one frame, they pile up and nothing is returned. */
  lemma {:induction false} PilesUp(p: seq<Byte>, s: seq<Byte>)
    requires Pending(p) && Pending(p + s)
    ensures Outputs(p, s) == Nones(|s|) && After(p, s) == p + s
    decreases |s|
  {
    hide Pending, Next, Delivered;
    if s == [] {
      assert p + s == p;
    } else {
      var q := p + [s[0]];
      assert q + s[1..] == p + s;
      PendingPrefix(p, s);
      PilesUpOnce(p, s[0]);
      PilesUp(q, s[1..]);
    }
  }

  /** A receive loop after one more byte. */
  lemma FedOneMore(p: seq<Byte>, s: seq<Byte>, j: nat)
    requires Pending(p) && j < |s|
    ensures After(p, s[..j + 1]) == Next(After(p, s[..j]), s[j])
    ensures Outputs(p, s[..j + 1]) == Outputs(p, s[..j]) + [Delivered(After(p, s[..j]), s[j])]
  {
    hide Pending, Next, Delivered, Outputs, After;
    assert s[..j + 1] == s[..j] + [s[j]];
    StreamConcat(p, s[..j], [s[j]]);
    JustOne(After(p, s[..j]), s[j]);
  }

  // ---------------------------------------------------------------- batch decoding

  /** The same stream taken apart frame by frame. */
  function Decode(s: seq<Byte>): (r: seq<Option<Frame>>)
    decreases |s|
  {
    if s == [] then []
    else if s[0] != START_BYTE then [None] + Decode(s[1..])
    else if |s| < 3 then Nones(|s|)
    else if Value(s[2]) > MAX_PAYLOAD then Nones(3) + Decode(s[3..])
    else
      var n := 4 + Value(s[2]);
      if |s| < n then Nones(|s|)
      else Nones(n - 1) + [if ChecksumOk(s[..n]) then Some(FrameOf(s[..n])) else None] + Decode(s[n..])
  }

  lemma LastByte(q: seq<Byte>)
    requires |q| >= 4 && q[0] == START_BYTE && Value(q[2]) <= MAX_PAYLOAD && |q| == 4 + Value(q[2])
    ensures var p, b := q[..|q| - 1], q[|q| - 1];
            && Pending(p)
            && Next(p, b) == []
            && Delivered(p, b) == if ChecksumOk(q) then Some(FrameOf(q)) else None
  {
    hide Value, XorAll;
    var p := q[..|q| - 1];
    assert Pending(p);
    assert p[1..] == q[1..|q| - 1] && p[3..] == q[3..|q| - 1];
    ByPosition(p, q[|q| - 1]);
  }

  lemma WholeFrame(q: seq<Byte>)
    requires |q| >= 4 && q[0] == START_BYTE && Value(q[2]) <= MAX_PAYLOAD && |q| == 4 + Value(q[2])
    ensures After([], q) == []
    ensures Outputs([], q) == Nones(|q| - 1) + [if ChecksumOk(q) then Some(FrameOf(q)) else None]
  {
    hide Value, Outputs, After, Pending, Next, Delivered, ChecksumOk, FrameOf, Nones;
    LastByte(q);
    Completed(q[..|q| - 1], q[|q| - 1]);
    assert q[..|q| - 1] + [q[|q| - 1]] == q;
  }

  lemma Completed(p: seq<Byte>, b: Byte)
    requires Pending(p) && Next(p, b) == []
    ensures After([], p + [b]) == [] && Outputs([], p + [b]) == Nones(|p|) + [Delivered(p, b)]
  {
    hide Pending, Next, Delivered, Outputs, After;
    assert [] + p == p;
    NothingPending();
    PilesUp([], p);
    StreamConcat([], p, [b]);
    JustOne(p, b);
  }

  lemma NothingPending()
    ensures Pending([])
  {
  }

  lemma JustOne(p: seq<Byte>, b: Byte)
    requires Pending(p)
    ensures Outputs(p, [b]) == [Delivered(p, b)] && After(p, [b]) == Next(p, b)
  {
    hide Pending, Next, Delivered;
    assert [b][1..] == [];
  }

  lemma ThirdByte(p: seq<Byte>, b: Byte)
    requires |p| == 2 && p[0] == START_BYTE && Value(b) > MAX_PAYLOAD
    ensures Pending(p) && Next(p, b) == [] && Delivered(p, b) == None
  {
    hide Value;
    ByPosition(p, b);
  }

  lemma BadLength(q: seq<Byte>)
    requires |q| == 3 && q[0] == START_BYTE && Value(q[2]) > MAX_PAYLOAD
    ensures After([], q) == [] && Outputs([], q) == Nones(3)
  {
    hide Value, Outputs, After, Pending, Next, Delivered;
    var p, b := q[..2], q[2];
    assert q == p + [b];
    ThirdByte(p, b);
    Completed(p, b);
    assert Nones(2) + [None] == Nones(3);
  }

  lemma Unfinished(s: seq<Byte>)
    requires s != [] && s[0] == START_BYTE
    requires |s| < 3 || (Value(s[2]) <= MAX_PAYLOAD && |s| < 4 + Value(s[2]))
    ensures Outputs([], s) == Nones(|s|)
  {
    assert [] + s == s;
    PilesUp([], s);
  }

  lemma NoiseByte(s: seq<Byte>)
    requires s != [] && s[0] != START_BYTE
    ensures Outputs([], s) == [None] + Outputs([], s[1..])
  {
  }

  lemma CutOff(s: seq<Byte>, n: nat)
    requires n <= |s| && After([], s[..n]) == []
    ensures Outputs([], s) == Outputs([], s[..n]) + Outputs([], s[n..])
  {
    hide Pending, Next, Delivered;
    assert s == s[..n] + s[n..];
    StreamConcat([], s[..n], s[n..]);
  }

  lemma NothingFed()
    ensures Outputs([], []) == []
  {
  }

  lemma AfterBadLength(s: seq<Byte>)
    requires |s| >= 3 && s[0] == START_BYTE && Value(s[2]) > MAX_PAYLOAD
    ensures Outputs([], s) == Nones(3) + Outputs([], s[3..])
  {
    hide Value, Pending, Next, Delivered, After, Outputs;
    BadLength(s[..3]);
    CutOff(s, 3);
  }

  lemma AfterFrame(s: seq<Byte>, n: nat)
    requires |s| >= 4 && s[0] == START_BYTE && Value(s[2]) <= MAX_PAYLOAD && n == 4 + Value(s[2]) <= |s|
    ensures Outputs([], s) == Nones(n - 1) + [if ChecksumOk(s[..n]) then Some(FrameOf(s[..n])) else None]
                              + Outputs([], s[n..])
  {
    hide Value, ChecksumOk, FrameOf, Pending, Next, Delivered, After, Outputs;
    WholeFrame(s[..n]);
    CutOff(s, n);
  }

  /** Feeding a stream byte by byte delivers exactly the frames of the batch decoder, at the same bytes. */
  lemma {:induction false} StreamIsBatch(s: seq<Byte>)
    ensures Outputs([], s) == Decode(s)
    decreases |s|
  {
    hide Value, ChecksumOk, FrameOf, Pending, Next, Delivered, After, Outputs, Nones;
    if s == [] {
      NothingFed();
    } else if s[0] != START_BYTE {
      NoiseByte(s);
      StreamIsBatch(s[1..]);
    } else if |s| < 3 || (Value(s[2]) <= MAX_PAYLOAD && |s| < 4 + Value(s[2])) {
      Unfinished(s);
    } else if Value(s[2]) > MAX_PAYLOAD {
      AfterBadLength(s);
      StreamIsBatch(s[3..]);
    } else {
      AfterFrame(s, 4 + Value(s[2]));
      StreamIsBatch(s[4 + Value(s[2])..]);
    }
  }

  // ---------------------------------------------------------------- encoding

  /** The byte that stands for `n`. */
  function ByteOf(n: nat): (b: Byte)
    requires n <= MAX_PAYLOAD
    ensures Value(b) == n
  {
    [false, false, false, n == 16, n / 8 % 2 == 1, n / 4 % 2 == 1, n / 2 % 2 == 1, n % 2 == 1]
  }

  lemma StartByteIsAA()
    ensures Value(START_BYTE) == 0xAA
  {
  }

  /** A length byte is accepted exactly when it is one of the bytes 0 to 16. */
  lemma AcceptedLengths(b: Byte)
    ensures Value(b) <= MAX_PAYLOAD <==> exists n: nat :: n <= 16 && b == ByteOf(n)
  {
    hide Value, ByteOf;
    if Value(b) <= MAX_PAYLOAD {
      ValueInjective(b, ByteOf(Value(b)));
      assert b == ByteOf(Value(b));
    }
  }

  function Body(f: Frame): seq<Byte>
    requires |f.payload| <= MAX_PAYLOAD
  {
    [f.cmd, ByteOf(|f.payload|)] + f.payload
  }

  function Encode(f: Frame): (r: seq<Byte>)
    requires |f.payload| <= MAX_PAYLOAD
    ensures |r| == 4 + |f.payload|
  {
    [START_BYTE] + Body(f) + [XorAll(Body(f))]
  }

  /** A frame sent to an idle parser arrives on its last byte, and only there. */
  lemma EncodedFrameArrives(f: Frame)
    requires |f.payload| <= MAX_PAYLOAD
    ensures After([], Encode(f)) == []
    ensures Outputs([], Encode(f)) == Nones(|f.payload| + 3) + [Some(f)]
  {
    hide Value, XorAll;
    var q := Encode(f);
    assert q[1..|q| - 1] == Body(f) && q[3..|q| - 1] == f.payload;
    WholeFrame(q);
  }

  /** The first frame of the program's own demonstration: AA 03 01 22 20. */
  const DEMONSTRATION: seq<Byte> := [
    [true, false, true, false, true, false, true, false],
    [false, false, false, false, false, false, true, true],
    [false, false, false, false, false, false, false, true],
    [false, false, true, false, false, false, true, false],
    [false, false, true, false, false, false, false, false]
  ]

  lemma DemonstrationValues()
    ensures Value(DEMONSTRATION[0]) == 0xAA && Value(DEMONSTRATION[1]) == 3 && Value(DEMONSTRATION[2]) == 1
    ensures Value(DEMONSTRATION[3]) == 34 && Value(DEMONSTRATION[4]) == 32
  {
  }

  lemma XorAllThree(a: Byte, b: Byte, c: Byte)
    ensures XorAll([a, b, c]) == Xor(Xor(a, b), c)
  {
    hide Value;
    var all := [a, b, c];
    assert all[..2] == [a, b] && [a, b][..1] == [a] && [a][..0] == [];
    assert Xor(Zeros(8), a) == a;
    assert XorAll([a]) == a;
    assert XorAll([a, b]) == Xor(a, b);
  }

  lemma EncodeOne(cmd: Byte, one: Byte, b: Byte)
    requires Value(one) == 1
    ensures Encode(Frame(cmd, [b])) == [START_BYTE, cmd, one, b, Xor(Xor(cmd, one), b)]
  {
    hide Value, XorAll, Xor;
    ValueInjective(ByteOf(1), one);
    assert Body(Frame(cmd, [b])) == [cmd, one, b];
    XorAllThree(cmd, one, b);
  }

  /** It is what encoding command 3 with the one payload byte 34 gives, so the parser delivers that. */
  lemma DemonstrationArrives()
    ensures var f := Frame(DEMONSTRATION[1], [DEMONSTRATION[3]]);
            && Encode(f) == DEMONSTRATION
            && Outputs([], DEMONSTRATION) == Nones(4) + [Some(f)]
  {
    hide Value, XorAll, Outputs, After, Encode, Nones;
    DemonstrationValues();
    DemonstrationChecksum();
    EncodeOne(DEMONSTRATION[1], DEMONSTRATION[2], DEMONSTRATION[3]);
    EncodedFrameArrives(Frame(DEMONSTRATION[1], [DEMONSTRATION[3]]));
  }

  lemma DemonstrationChecksum()
    ensures Xor(Xor(DEMONSTRATION[1], DEMONSTRATION[2]), DEMONSTRATION[3]) == DEMONSTRATION[4]
    ensures DEMONSTRATION == [START_BYTE] + DEMONSTRATION[1..]
  {
  }

  // ---------------------------------------------------------------- exclusive or

  lemma {:induction false} XorAllUpdate(s: seq<Byte>, i: nat, b: Byte)
    requires i < |s| && s[i] != b
    ensures XorAll(s[i := b]) != XorAll(s)
    decreases |s|
  {
    var n := |s| - 1;
    var t := s[i := b];
    if i == n {
      assert t[..n] == s[..n];
      XorInjective(XorAll(s[..n]), b, s[n]);
    } else {
      assert t[..n] == s[..n][i := b];
      XorAllUpdate(s[..n], i, b);
      XorInjective(s[n], XorAll(t[..n]), XorAll(s[..n]));
      XorCommutes(s[n], XorAll(t[..n]));
      XorCommutes(s[n], XorAll(s[..n]));
    }
  }

  lemma XorInjective(a: Byte, b: Byte, c: Byte)
    ensures Xor(a, b) == Xor(a, c) ==> b == c
  {
  }

  lemma XorCommutes(a: Byte, b: Byte)
    ensures Xor(a, b) == Xor(b, a)
  {
  }

  lemma {:induction false} XorAllLinear(a: seq<Byte>, b: seq<Byte>)
    requires |a| == |b|
    ensures XorAll(XorEach(a, b)) == Xor(XorAll(a), XorAll(b))
    decreases |a|
  {
    if a == [] {
      assert Xor(Zeros(8), Zeros(8)) == Zeros(8);
    } else {
      var n := |a| - 1;
      XorAllLinear(a[..n], b[..n]);
      assert XorEach(a, b)[..n] == XorEach(a[..n], b[..n]);
      var x, y := XorAll(a[..n]), XorAll(b[..n]);
      assert Xor(Xor(x, y), Xor(a[n], b[n])) == Xor(Xor(x, a[n]), Xor(y, b[n]));
    }
  }

  lemma ChecksumIsTotal(q: seq<Byte>)
    requires |q| >= 2
    ensures ChecksumOk(q) <==> XorAll(q[1..]) == Zeros(8)
  {
    var n := |q| - 1;
    assert q[1..][..n - 1] == q[1..n];
    assert XorAll(q[1..]) == Xor(XorAll(q[1..n]), q[n]);
    XorInjective(q[n], XorAll(q[1..n]), q[n]);
    XorCommutes(q[n], XorAll(q[1..n]));
    assert Xor(q[n], q[n]) == Zeros(8);
  }

  /** With start and length byte intact, any other corruption of a frame is accepted exactly when
      its differences cancel: the exclusive or of them all is zero. */
  lemma CorruptionAccepted(f: Frame, q: seq<Byte>)
    requires |f.payload| <= MAX_PAYLOAD && |q| == |Encode(f)|
    requires q[0] == START_BYTE && q[2] == Encode(f)[2]
    ensures After([], q) == []
    ensures Outputs([], q)[|q| - 1].Some? <==> XorAll(XorEach(q[1..], Encode(f)[1..])) == Zeros(8)
  {
    hide Value, XorAll;
    var e := Encode(f);
    assert e[1..|e| - 1] == Body(f) && ChecksumOk(e);
    ChecksumIsTotal(e);
    ChecksumIsTotal(q);
    XorAllLinear(q[1..], e[1..]);
    assert Xor(XorAll(q[1..]), Zeros(8)) == XorAll(q[1..]);
    WholeFrame(q);
  }

  // ---------------------------------------------------------------- noise and damage

  /** What may be on the line: bytes without a start byte, a frame, or a frame with one byte changed. */
  datatype Segment =
    | Noise(bytes: seq<Byte>)
    | Sent(frame: Frame)
    | Damaged(frame: Frame, at: nat, byte: Byte)

  /** The byte changed is the command, a payload byte or the checksum. */
  predicate Proper(g: Segment) {
    match g
    case Noise(bytes) => START_BYTE !in bytes
    case Sent(f) => |f.payload| <= MAX_PAYLOAD
    case Damaged(f, i, b) =>
      |f.payload| <= MAX_PAYLOAD && (i == 1 || 3 <= i < 4 + |f.payload|) && Encode(f)[i] != b
  }

  function OnTheLine(g: Segment): seq<Byte>
    requires Proper(g)
  {
    match g
    case Noise(bytes) => bytes
    case Sent(f) => Encode(f)
    case Damaged(f, i, b) => Encode(f)[i := b]
  }

  function Expected(g: Segment): seq<Option<Frame>>
    requires Proper(g)
  {
    if g.Sent? then Nones(|g.frame.payload| + 3) + [Some(g.frame)] else Nones(|OnTheLine(g)|)
  }

  lemma {:induction false} NoiseIsIgnored(s: seq<Byte>)
    requires START_BYTE !in s
    ensures After([], s) == [] && Outputs([], s) == Nones(|s|)
    decreases |s|
  {
    if s == [] {
    } else {
      NoiseIsIgnored(s[1..]);
      assert Nones(|s|) == [None] + Nones(|s| - 1);
    }
  }

  /** Changing one byte of command, payload or checksum gets the frame rejected, with the parser idle after it. */
  lemma DamageIsNoticed(f: Frame, i: nat, b: Byte)
    requires Proper(Damaged(f, i, b))
    ensures var q := Encode(f)[i := b];
            After([], q) == [] && Outputs([], q) == Nones(|q|)
  {
    hide Value, XorAll;
    var e := Encode(f);
    var q := e[i := b];
    var n := |e| - 1;
    assert e[1..n] == Body(f);
    if i == n {
      assert q[1..n] == Body(f);
    } else {
      assert q[1..n] == Body(f)[i - 1 := b];
      XorAllUpdate(Body(f), i - 1, b);
    }
    assert !ChecksumOk(q);
    WholeFrame(q);
    assert Nones(n) + [None] == Nones(n + 1);
  }

  lemma SegmentArrives(g: Segment)
    requires Proper(g)
    ensures After([], OnTheLine(g)) == [] && Outputs([], OnTheLine(g)) == Expected(g)
  {
    match g
    case Noise(bytes) => NoiseIsIgnored(bytes);
    case Sent(f) => EncodedFrameArrives(f);
    case Damaged(f, i, b) => DamageIsNoticed(f, i, b);
  }

  ghost predicate AllProper(gs: seq<Segment>) {
    forall i :: 0 <= i < |gs| ==> Proper(gs[i])
  }

  function Line(gs: seq<Segment>): seq<Byte>
    requires AllProper(gs)
  {
    if gs == [] then [] else OnTheLine(gs[0]) + Line(gs[1..])
  }

  function AllExpected(gs: seq<Segment>): seq<Option<Frame>>
    requires AllProper(gs)
  {
    if gs == [] then [] else Expected(gs[0]) + AllExpected(gs[1..])
  }

  /** Through any mixture of noise, frames and damaged frames, every undamaged frame is delivered
      intact on its last byte and nothing else is. */
  lemma {:induction false} EveryFrameArrives(gs: seq<Segment>)
    requires AllProper(gs)
    ensures After([], Line(gs)) == [] && Outputs([], Line(gs)) == AllExpected(gs)
    decreases |gs|
  {
    if gs == [] {
    } else {
      SegmentArrives(gs[0]);
      StreamConcat([], OnTheLine(gs[0]), Line(gs[1..]));
      EveryFrameArrives(gs[1..]);
    }
  }

  // ---------------------------------------------------------------- resynchronisation

  lemma {:induction false} ComesBack(p: seq<Byte>, s: seq<Byte>)
    requires Pending(p) && |p| + |s| >= 20
    ensures exists k :: 0 <= k <= |s| && After(p, s[..k]) == []
    decreases |s|
  {
    if p == [] {
      assert After(p, s[..0]) == [];
    } else {
      assert |p| < 20;
      var p' := Next(p, s[0]);
      if p' == [] {
        assert s[..1][1..] == [];
        assert After(p, s[..1]) == [];
      } else {
        ComesBack(p', s[1..]);
        var k :| 0 <= k <= |s| - 1 && After(p', s[1..][..k]) == [];
        assert s[..k + 1][1..] == s[1..][..k];
        assert After(p, s[..k + 1]) == [];
      }
    }
  }

  /** From whatever it was in the middle of, the parser waits for a start byte again within 19 bytes. */
  lemma IdleWithin19(p: seq<Byte>, s: seq<Byte>)
    requires Pending(p) && |s| >= 19
    ensures exists k :: 0 <= k <= 19 && After(p, s[..k]) == []
  {
    if p == [] {
      assert After(p, s[..0]) == [];
    } else {
      ComesBack(p, s[..19]);
      var k :| 0 <= k <= 19 && After(p, s[..19][..k]) == [];
      assert s[..19][..k] == s[..k];
    }
  }

  /** A quiet line: `gap` has no start byte and is long enough for whatever was pending to come to its end. */
  lemma QuietGapResynchronises(p: seq<Byte>, gap: seq<Byte>)
    requires Pending(p) && |gap| >= 19 && START_BYTE !in gap
    ensures After(p, gap) == []
  {
    hide Pending, Next, Delivered, Outputs, After;
    IdleWithin19(p, gap);
    var k :| 0 <= k <= 19 && After(p, gap[..k]) == [];
    assert gap == gap[..k] + gap[k..];
    StreamConcat(p, gap[..k], gap[k..]);
    NoiseIsIgnored(gap[k..]);
  }

  /** 18 bytes are not enough: a start byte may be pending, and the second byte of the gap may announce 16 more. */
  lemma GapOf18IsTooShort(gap: seq<Byte>)
    requires |gap| == 18 && Value(gap[1]) == MAX_PAYLOAD
    ensures After([START_BYTE], gap) == [START_BYTE] + gap
  {
    hide Value;
    var q := [START_BYTE] + gap;
    assert q[0] == START_BYTE && q[2] == gap[1];
    PilesUp([START_BYTE], gap);
  }

  /** Whatever happened before, damaged start and length bytes included: after a quiet gap of 19 bytes every
      undamaged frame is delivered, and nothing else is. */
  lemma FramesArriveAfterGap(p: seq<Byte>, gap: seq<Byte>, gs: seq<Segment>)
    requires Pending(p) && |gap| >= 19 && START_BYTE !in gap && AllProper(gs)
    ensures After(p, gap + Line(gs)) == []
    ensures Outputs(p, gap + Line(gs)) == Outputs(p, gap) + AllExpected(gs)
  {
    hide Pending, Next, Delivered, Outputs, After;
    QuietGapResynchronises(p, gap);
    StreamConcat(p, gap, Line(gs));
    EveryFrameArrives(gs);
  }
}
