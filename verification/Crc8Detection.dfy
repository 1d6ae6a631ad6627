/** Which transmission errors `crc8_verify` notices. */
module Crc8Detection {
  import opened Bytes
  import opened Crc8

  // ---------------------------------------------------------------- turning loses nothing

  lemma TurnIsInjective(a: Byte, b: Byte)
    requires Turn(a) == Turn(b)
    ensures a == b
  {
    assert Turn(a)[7] == a[0] && Turn(b)[7] == b[0];
    forall i | 0 < i < 8 ensures a[i] == b[i] {
      assert ShiftLeft(a)[i - 1] == a[i] && ShiftLeft(b)[i - 1] == b[i];
      assert Turn(a)[i - 1] == (a[i] != (a[0] && POLYNOMIAL[i - 1]));
      assert Turn(b)[i - 1] == (b[i] != (b[0] && POLYNOMIAL[i - 1]));
    }
  }

  lemma {:induction false} TurnsAreInjective(a: Byte, b: Byte, n: nat)
    requires Turns(a, n) == Turns(b, n)
    ensures a == b
    decreases n
  {
    hide Turn;
    if n == 0 {
    } else {
      TurnIsInjective(Turns(a, n - 1), Turns(b, n - 1));
      TurnsAreInjective(a, b, n - 1);
    }
  }

  lemma {:induction false} TurnsOfZero(n: nat)
    ensures Turns(Zeros(8), n) == Zeros(8)
    decreases n
  {
    if n == 0 {
    } else {
      TurnsOfZero(n - 1);
      assert Turn(Zeros(8)) == Zeros(8);
    }
  }

  lemma XorZero(a: Byte, b: Byte)
    ensures Xor(a, b) == Zeros(8) <==> a == b
  {
  }

  /** A message followed by one byte verifies exactly when that byte is its CRC. */
  lemma VerifiesExactlyTheCrc(data: seq<Byte>, b: Byte)
    ensures Crc(data + [b]) == Zeros(8) <==> b == Crc(data)
  {
    hide Turns;
    assert (data + [b])[..|data|] == data;
    var x := Xor(Crc(data), b);
    TurnsOfZero(8);
    if Turns(x, 8) == Turns(Zeros(8), 8) { TurnsAreInjective(x, Zeros(8), 8); }
    XorZero(Crc(data), b);
  }

  // ---------------------------------------------------------------- errors

  // A message received with the bits of `e` flipped on the way is XorEach(data, e).

  lemma {:induction false} CrcLinear(data: seq<Byte>, e: seq<Byte>)
    requires |data| == |e|
    ensures Crc(XorEach(data, e)) == Xor(Crc(data), Crc(e))
    decreases |data|
  {
    hide Turns;
    if data == [] {
      assert Xor(Zeros(8), Zeros(8)) == Zeros(8);
    } else {
      var k := |data| - 1;
      CrcLinear(data[..k], e[..k]);
      assert XorEach(data, e)[..k] == XorEach(data[..k], e[..k]);
      var a, b := Crc(data[..k]), Crc(e[..k]);
      assert Xor(Xor(a, b), Xor(data[k], e[k])) == Xor(Xor(a, data[k]), Xor(b, e[k]));
      TurnsLinear(Xor(a, data[k]), Xor(b, e[k]), 8);
    }
  }

  /** Of a valid message, exactly the errors that are themselves valid messages go unnoticed. */
  lemma UnnoticedErrors(data: seq<Byte>, e: seq<Byte>)
    requires |data| == |e| && Crc(data) == Zeros(8)
    ensures Crc(XorEach(data, e)) == Zeros(8) <==> Feed(Zeros(8), Bits(e)) == Zeros(8)
  {
    CrcLinear(data, e);
    CrcIsFeed(e);
    XorZero(Crc(data), Crc(e));
  }

  // ---------------------------------------------------------------- odd errors

  function Parity(bits: seq<bool>): bool {
    if bits == [] then false else Parity(bits[..|bits| - 1]) != bits[|bits| - 1]
  }

  lemma NoParity()
    ensures !Parity([])
  {
  }

  lemma ParityStep(bits: seq<bool>, k: nat)
    requires k < |bits|
    ensures Parity(bits[..k + 1]) == (Parity(bits[..k]) != bits[k])
  {
    assert bits[..k + 1][..k] == bits[..k];
  }

  lemma ParityOfByte(r: Byte)
    ensures Parity(r) == (((((((r[0] != r[1]) != r[2]) != r[3]) != r[4]) != r[5]) != r[6]) != r[7])
  {
    hide Parity;
    NoParity();
    assert r[..0] == [] && r[..8] == r;
    ParityStep(r, 0); ParityStep(r, 1); ParityStep(r, 2); ParityStep(r, 3);
    ParityStep(r, 4); ParityStep(r, 5); ParityStep(r, 6); ParityStep(r, 7);
  }

  /** x + 1 divides the generator: the register keeps the parity of what it has absorbed. */
  lemma AbsorbKeepsParity(r: Byte, b: bool)
    ensures Parity(Absorb(r, b)) == (Parity(r) != b)
  {
    ParityOfByte(r);
    ParityOfByte(Absorb(r, b));
  }

  lemma {:induction false} FeedKeepsParity(bits: seq<bool>)
    ensures Parity(Feed(Zeros(8), bits)) == Parity(bits)
    decreases |bits|
  {
    hide Absorb;
    if bits == [] {
      ParityOfByte(Zeros(8));
    } else {
      FeedKeepsParity(bits[..|bits| - 1]);
      AbsorbKeepsParity(Feed(Zeros(8), bits[..|bits| - 1]), bits[|bits| - 1]);
    }
  }

  /** Any odd number of flipped bits is noticed. */
  lemma OddErrorsAreNoticed(data: seq<Byte>, e: seq<Byte>)
    requires |data| == |e| && Crc(data) == Zeros(8) && Parity(Bits(e))
    ensures Crc(XorEach(data, e)) != Zeros(8)
  {
    UnnoticedErrors(data, e);
    FeedKeepsParity(Bits(e));
    ParityOfByte(Zeros(8));
  }

  // ---------------------------------------------------------------- bursts

  lemma {:induction false} FeedZeros(r: Byte, n: nat)
    ensures Feed(r, Zeros(n)) == Turns(r, n)
    decreases n
  {
    hide Turn;
    if n == 0 {
    } else {
      assert Zeros(n)[..n - 1] == Zeros(n - 1);
      FeedZeros(r, n - 1);
      var x := Turns(r, n - 1);
      assert x[0 := x[0] != false] == x;
    }
  }

  /** Zeros, then eight bits, then zeros. */
  lemma FeedWindow(w: Byte, k: nat, n: nat)
    ensures Feed(Zeros(8), Zeros(k) + w + Zeros(n)) == Turns(w, 8 + n)
  {
    hide Turn;
    FeedZeros(Zeros(8), k);
    TurnsOfZero(k);
    FeedConcat(Zeros(8), Zeros(k), w);
    AbsorbAtOnce(Zeros(8), w);
    assert Xor(Zeros(8), w + Zeros(0)) == w;
    FeedConcat(Zeros(8), Zeros(k) + w, Zeros(n));
    FeedZeros(Turns(w, 8), n);
    TurnsAdd(w, 8, n);
  }

  /** Every flipped bit lies within eight consecutive bits starting at `k`. */
  ghost predicate Burst(bits: seq<bool>, k: nat) {
    forall i :: 0 <= i < |bits| && bits[i] ==> k <= i < k + 8
  }

  /** A window of eight bits that contains the whole burst. */
  lemma BurstWindow(bits: seq<bool>, k: nat) returns (start: nat)
    requires |bits| >= 8 && Burst(bits, k) && true in bits
    ensures start + 8 <= |bits| && bits[start..start + 8] != Zeros(8)
    ensures bits == Zeros(start) + bits[start..start + 8] + Zeros(|bits| - start - 8)
  {
    start := if k + 8 <= |bits| then k else |bits| - 8;
    var w := bits[start..start + 8];
    var i :| 0 <= i < |bits| && bits[i];
    assert w[i - start] == bits[i] && !Zeros(8)[i - start];
    var whole := Zeros(start) + w + Zeros(|bits| - start - 8);
    forall j | 0 <= j < |bits| ensures bits[j] == whole[j] {
      if start <= j < start + 8 { assert whole[j] == w[j - start]; } else { assert !bits[j]; }
    }
    assert bits == whole;
  }

  lemma FeedBurst(bits: seq<bool>, k: nat)
    requires |bits| >= 8 && Burst(bits, k) && true in bits
    ensures Feed(Zeros(8), bits) != Zeros(8)
  {
    hide Turns, Feed, Burst;
    var start := BurstWindow(bits, k);
    var w, n := bits[start..start + 8], |bits| - start - 8;
    FeedWindow(w, start, n);
    TurnsOfZero(8 + n);
    if Turns(w, 8 + n) == Zeros(8) { TurnsAreInjective(w, Zeros(8), 8 + n); }
  }

  /** Any nonempty burst of at most eight bits is noticed, wherever it starts. */
  lemma BurstsAreNoticed(data: seq<Byte>, e: seq<Byte>, k: nat)
    requires |data| == |e| && Crc(data) == Zeros(8)
    requires Burst(Bits(e), k) && true in Bits(e)
    ensures Crc(XorEach(data, e)) != Zeros(8)
  {
    UnnoticedErrors(data, e);
    FeedBurst(Bits(e), k);
  }

  // ---------------------------------------------------------------- two flipped bits

  /** Eight turns at once: multiplication by x^8 = x^2 + x + 1. */
  function Eight(r: Byte): Byte {
    [(r[0] != r[1]) != r[2], (r[1] != r[2]) != r[3], (r[2] != r[3]) != r[4], (r[3] != r[4]) != r[5],
     ((r[0] != r[4]) != r[5]) != r[6], ((r[1] != r[5]) != r[6]) != r[7], (r[1] != r[6]) != r[7], (r[0] != r[1]) != r[7]]
  }

  lemma TurnBits(r: Byte)
    ensures Turn(r) == [r[1], r[2], r[3], r[4], r[5], r[6] != r[0], r[7] != r[0], r[0]]
  {
  }

  lemma EightTurns(r: Byte)
    ensures Turns(r, 8) == Eight(r)
  {
    hide Turn;
    var r1 := Turns(r, 1); TurnBits(Turns(r, 0));
    var r2 := Turns(r, 2); TurnBits(r1);
    var r3 := Turns(r, 3); TurnBits(r2);
    var r4 := Turns(r, 4); TurnBits(r3);
    var r5 := Turns(r, 5); TurnBits(r4);
    var r6 := Turns(r, 6); TurnBits(r5);
    var r7 := Turns(r, 7); TurnBits(r6);
    TurnBits(r7);
  }

  lemma EightMore(n: nat)
    ensures Turns(POLYNOMIAL, n + 8) == Eight(Turns(POLYNOMIAL, n))
  {
    TurnsAdd(POLYNOMIAL, n, 8);
    EightTurns(Turns(POLYNOMIAL, n));
  }

  /** The powers of x modulo the generator repeat after 127 steps. */
  lemma PeriodIs127()
    ensures Turns(POLYNOMIAL, 127) == POLYNOMIAL
  {
    hide Turns, Turn;
    NoTurn(POLYNOMIAL);
    EightMore(0); assert Turns(POLYNOMIAL, 8) == [false, false, false, true, false, true, false, true];
    EightMore(8); assert Turns(POLYNOMIAL, 16) == [false, true, true, false, true, false, true, true];
    EightMore(16); assert Turns(POLYNOMIAL, 24) == [false, false, false, true, false, true, true, false];
    EightMore(24); assert Turns(POLYNOMIAL, 32) == [false, true, true, false, false, false, true, false];
    EightMore(32); assert Turns(POLYNOMIAL, 40) == [false, false, true, false, true, false, false, true];
    EightMore(40); assert Turns(POLYNOMIAL, 48) == [true, true, false, true, true, true, true, true];
    EightMore(48); assert Turns(POLYNOMIAL, 56) == [false, false, false, true, false, false, true, true];
    EightMore(56); assert Turns(POLYNOMIAL, 64) == [false, true, true, true, true, false, false, true];
    EightMore(64); assert Turns(POLYNOMIAL, 72) == [false, true, true, false, true, false, false, false];
    EightMore(72); assert Turns(POLYNOMIAL, 80) == [false, false, false, true, true, true, true, true];
    EightMore(80); assert Turns(POLYNOMIAL, 88) == [false, true, false, true, true, true, false, true];
    EightMore(88); assert Turns(POLYNOMIAL, 96) == [true, false, false, true, false, true, false, false];
    EightMore(96); assert Turns(POLYNOMIAL, 104) == [true, true, true, false, false, true, false, true];
    EightMore(104); assert Turns(POLYNOMIAL, 112) == [true, false, true, true, false, true, false, true];
    EightMore(112); assert Turns(POLYNOMIAL, 120) == [false, false, false, false, false, false, true, false];
    TurnsAdd(POLYNOMIAL, 120, 7);
    LastSevenTurns();
  }

  lemma LastSevenTurns()
    ensures Turns([false, false, false, false, false, false, true, false], 7) == POLYNOMIAL
  {
    hide Turns, Turn;
    var x := Zeros(6) + [true] + Zeros(1);
    assert x == [false, false, false, false, false, false, true, false];
    OneRises(true, 6);
    TurnsAdd(x, 6, 1);
    OneTurn([true] + Zeros(7));
    TurnBits([true] + Zeros(7));
  }

  lemma {:induction false} PeriodsMultiply(d: nat, n: nat)
    requires Turns(POLYNOMIAL, d) == POLYNOMIAL
    ensures Turns(POLYNOMIAL, n * d) == POLYNOMIAL
    decreases n
  {
    hide Turn;
    if n == 0 {
    } else {
      PeriodsMultiply(d, n - 1);
      TurnsAdd(POLYNOMIAL, (n - 1) * d, d);
      assert (n - 1) * d + d == n * d;
    }
  }

  lemma PeriodRemainder(d: nat, n: nat)
    requires d > 0 && Turns(POLYNOMIAL, d) == POLYNOMIAL
    ensures Turns(POLYNOMIAL, n) == Turns(POLYNOMIAL, n % d)
  {
    hide Turns;
    PeriodsMultiply(d, n / d);
    TurnsAdd(POLYNOMIAL, n / d * d, n % d);
    assert n == n / d * d + n % d;
  }

  lemma Prime127(d: nat)
    requires 1 < d < 127
    ensures 127 % d != 0
  {
  }

  /** 127 is prime, so no smaller number of turns brings the register back. */
  lemma {:induction false} NoShorterPeriod(d: nat)
    requires 0 < d < 127
    ensures Turns(POLYNOMIAL, d) != POLYNOMIAL
    decreases d
  {
    if d == 1 {
      OneTurn(POLYNOMIAL);
      TurnBits(POLYNOMIAL);
    } else if Turns(POLYNOMIAL, d) == POLYNOMIAL {
      Prime127(d);
      PeriodIs127();
      PeriodRemainder(d, 127);
      NoShorterPeriod(127 % d);
    }
  }

  lemma ReturnsExactlyAtMultiples(d: nat)
    ensures Turns(POLYNOMIAL, d) == POLYNOMIAL <==> d % 127 == 0
  {
    PeriodIs127();
    PeriodRemainder(127, d);
    if d % 127 != 0 { NoShorterPeriod(d % 127); }
  }

  lemma FeedTwo(k: nat, d: nat, n: nat)
    requires d > 0
    ensures Feed(Zeros(8), Zeros(k) + [true] + Zeros(d - 1) + [true] + Zeros(n))
            == Turns(Xor(Turns(POLYNOMIAL, d), POLYNOMIAL), n)
  {
    hide Turn, Turns;
    var one := [true] + Zeros(7);
    assert Turn(one) == POLYNOMIAL by { TurnBits(one); }
    FeedZeros(Zeros(8), k);
    TurnsOfZero(k);
    FeedOne(Zeros(8), Zeros(k));
    assert Xor(Zeros(8), one) == one;
    FeedConcat(Zeros(8), Zeros(k) + [true], Zeros(d - 1));
    FeedZeros(POLYNOMIAL, d - 1);
    var x := Turns(POLYNOMIAL, d - 1);
    FeedOne(Zeros(8), Zeros(k) + [true] + Zeros(d - 1));
    TurnLinear(x, one);
    TurnsAdd(POLYNOMIAL, d - 1, 1);
    OneTurn(x);
    FeedConcat(Zeros(8), Zeros(k) + [true] + Zeros(d - 1) + [true], Zeros(n));
    FeedZeros(Xor(Turns(POLYNOMIAL, d), POLYNOMIAL), n);
  }

  lemma FeedOne(r: Byte, bits: seq<bool>)
    ensures Feed(r, bits + [true]) == Turn(Xor(Feed(r, bits), [true] + Zeros(7)))
  {
    hide Turn;
    assert (bits + [true])[..|bits|] == bits;
    var x := Feed(r, bits);
    assert x[0 := x[0] != true] == Xor(x, [true] + Zeros(7));
  }

  lemma TwoBits(bits: seq<bool>, i: nat, j: nat)
    requires i < j < |bits| && forall k :: 0 <= k < |bits| ==> (bits[k] <==> k == i || k == j)
    ensures bits == Zeros(i) + [true] + Zeros(j - i - 1) + [true] + Zeros(|bits| - j - 1)
  {
    var whole := Zeros(i) + [true] + Zeros(j - i - 1) + [true] + Zeros(|bits| - j - 1);
    forall k | 0 <= k < |bits| ensures bits[k] == whole[k] {
      if k == i || k == j { assert whole[k]; } else { assert !whole[k]; }
    }
    assert bits == whole;
  }

  /** Two flipped bits are noticed exactly when their distance is not a multiple of 127. */
  lemma TwoBitErrors(data: seq<Byte>, e: seq<Byte>, i: nat, j: nat)
    requires |data| == |e| && Crc(data) == Zeros(8) && i < j < 8 * |e|
    requires forall k :: 0 <= k < 8 * |e| ==> (Bits(e)[k] <==> k == i || k == j)
    ensures Crc(XorEach(data, e)) != Zeros(8) <==> (j - i) % 127 != 0
  {
    hide Turns, Feed, Bits, XorEach;
    var n := 8 * |e| - j - 1;
    UnnoticedErrors(data, e);
    TwoBits(Bits(e), i, j);
    FeedTwo(i, j - i, n);
    var x := Xor(Turns(POLYNOMIAL, j - i), POLYNOMIAL);
    TurnsOfZero(n);
    if Turns(x, n) == Zeros(8) { TurnsAreInjective(x, Zeros(8), n); }
    XorZero(Turns(POLYNOMIAL, j - i), POLYNOMIAL);
    ReturnsExactlyAtMultiples(j - i);
  }
}
