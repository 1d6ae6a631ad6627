/** The CRC-8 of `crc_decoder.c`: its shift register and its two functions. */
module Crc8 {
  import opened Bytes

  function ShiftLeft(b: Byte): Byte { b[1..] + [false] }

  /** 0x07. */
  const POLYNOMIAL: Byte := [false, false, false, false, false, true, true, true]

  lemma PolynomialIs07()
    ensures Value(POLYNOMIAL) == 0x07
  {
  }

  /** One turn of the register. */
  function Turn(r: Byte): Byte {
    if r[0] then Xor(ShiftLeft(r), POLYNOMIAL) else ShiftLeft(r)
  }

  function Turns(r: Byte, n: nat): Byte
    decreases n
  {
    if n == 0 then r else Turn(Turns(r, n - 1))
  }

  /** The register after a message, byte by byte. */
  function Crc(data: seq<Byte>): Byte {
    if data == [] then Zeros(8) else Turns(Xor(Crc(data[..|data| - 1]), data[|data| - 1]), 8)
  }

  /** `i++` of a `uint8_t`. */
  function Increment(i: nat): (r: nat)
    requires i < 256
    ensures r == if i == 255 then 0 else i + 1
  {
    (i + 1) % 256
  }

  /** The loop counter of `crc8` after `n` rounds. */
  function Counter(n: nat): (r: nat)
    ensures r < 256
  {
    if n == 0 then 0 else Increment(Counter(n - 1))
  }

  lemma {:induction false} CounterIs(n: nat)
    requires n < 256
    ensures Counter(n) == n
  {
    hide Increment;
    if n == 0 {
    } else {
      CounterIs(n - 1);
    }
  }

  /** The counter ever reaches the length, which ends the loop, exactly for at most 255 bytes. */
  lemma LoopEnds(len: nat)
    ensures (exists n: nat :: Counter(n) >= len) <==> len <= 255
  {
    hide Counter;
    if len <= 255 {
      CounterIs(len);
      assert Counter(len) >= len;
    }
  }

  /** `crc8`, for the lengths at which its loop ends. */
  method Compute(data: array<Byte>, len: nat) returns (crc: Byte)
    requires len <= data.Length && len <= 255
    ensures crc == Crc(data[..len])
  {
    hide Increment;
    crc := Zeros(8);
    var i := 0;
    while i < len
      invariant i <= len && crc == Crc(data[..i])
    {
      crc := Xor(crc, data[i]);
      ghost var start := crc;
      var topbit := crc[0];
      for j := 0 to 8
        invariant topbit == crc[0] && crc == Turns(start, j)
      {
        if topbit {
          crc := Xor(ShiftLeft(crc), POLYNOMIAL);
        } else {
          crc := ShiftLeft(crc);
        }
        topbit := crc[0];
      }
      assert data[..i + 1][..i] == data[..i];
      i := Increment(i);
    }
  }

  /** `crc8_verify`. */
  method Verify(data: array<Byte>, len: nat) returns (ok: bool)
    requires len <= data.Length && len <= 255
    ensures ok == (Crc(data[..len]) == Zeros(8))
  {
    var crc := Compute(data, len);
    ok := crc == Zeros(8);
  }

  // ---------------------------------------------------------------- the register bit by bit

  /** The bits of a message in the order they enter the register. */
  function Bits(data: seq<Byte>): (r: seq<bool>)
    ensures |r| == 8 * |data|
  {
    if data == [] then [] else Bits(data[..|data| - 1]) + data[|data| - 1]
  }

  /** The register after one more message bit. */
  function Absorb(r: Byte, b: bool): Byte {
    Turn(r[0 := r[0] != b])
  }

  function Feed(r: Byte, bits: seq<bool>): Byte
    decreases |bits|
  {
    if bits == [] then r else Absorb(Feed(r, bits[..|bits| - 1]), bits[|bits| - 1])
  }

  lemma {:induction false} FeedConcat(r: Byte, a: seq<bool>, b: seq<bool>)
    ensures Feed(r, a + b) == Feed(Feed(r, a), b)
    decreases |b|
  {
    hide Absorb;
    if b == [] {
      assert a + b == a;
    } else {
      assert (a + b)[..|a + b| - 1] == a + b[..|b| - 1];
      FeedConcat(r, a, b[..|b| - 1]);
    }
  }

  lemma TurnLinear(a: Byte, b: Byte)
    ensures Turn(Xor(a, b)) == Xor(Turn(a), Turn(b))
  {
  }

  lemma {:induction false} TurnsLinear(a: Byte, b: Byte, n: nat)
    ensures Turns(Xor(a, b), n) == Xor(Turns(a, n), Turns(b, n))
    decreases n
  {
    hide Turn;
    if n == 0 {
    } else {
      TurnsLinear(a, b, n - 1);
      TurnLinear(Turns(a, n - 1), Turns(b, n - 1));
    }
  }

  lemma {:induction false} TurnsAdd(r: Byte, m: nat, n: nat)
    ensures Turns(r, m + n) == Turns(Turns(r, m), n)
    decreases n
  {
    hide Turn;
    if n == 0 {
    } else {
      TurnsAdd(r, m, n - 1);
    }
  }

  lemma NoTurn(r: Byte)
    ensures Turns(r, 0) == r
  {
  }

  lemma OneTurn(r: Byte)
    ensures Turns(r, 1) == Turn(r)
  {
    hide Turn;
    assert Turns(r, 0) == r;
  }

  lemma TurnUp(b: bool, j: nat)
    requires 0 < j < 8
    ensures Turn(Zeros(j) + [b] + Zeros(7 - j)) == Zeros(j - 1) + [b] + Zeros(8 - j)
  {
  }

  /** A one at position `j` reaches the top after `j` turns. */
  lemma {:induction false} OneRises(b: bool, j: nat)
    requires j < 8
    ensures Turns(Zeros(j) + [b] + Zeros(7 - j), j) == [b] + Zeros(7)
    decreases j
  {
    hide Turn, Turns;
    var one := Zeros(j) + [b] + Zeros(7 - j);
    if j == 0 {
      NoTurn(one);
      assert one == [b] + Zeros(7);
    } else {
      OneRises(b, j - 1);
      TurnsAdd(one, 1, j - 1);
      OneTurn(one);
      TurnUp(b, j);
    }
  }

  lemma LastBit(r: Byte, w: seq<bool>)
    requires 0 < |w| <= 8
    ensures var k := |w| - 1;
            Xor(Xor(r, w[..k] + Zeros(8 - k)), Zeros(k) + [w[k]] + Zeros(7 - k)) == Xor(r, w + Zeros(7 - k))
  {
  }

  lemma AddAtTop(r: Byte, b: bool)
    ensures r[0 := r[0] != b] == Xor(r, [b] + Zeros(7))
  {
  }

  /** Up to eight bits absorbed one by one are added at the top, and then turned as often. */
  lemma {:induction false} AbsorbAtOnce(r: Byte, w: seq<bool>)
    requires |w| <= 8
    ensures Feed(r, w) == Turns(Xor(r, w + Zeros(8 - |w|)), |w|)
    decreases |w|
  {
    hide Turn;
    if w == [] {
      assert Xor(r, w + Zeros(8)) == r;
    } else {
      var k := |w| - 1;
      var b := w[k];
      var low := Xor(r, w[..k] + Zeros(8 - k));
      var one := Zeros(k) + [b] + Zeros(7 - k);
      AbsorbAtOnce(r, w[..k]);
      OneRises(b, k);
      TurnsLinear(low, one, k);
      LastBit(r, w);
      AddAtTop(Turns(low, k), b);
    }
  }

  /** The byte-wise loop of `crc8` is the bit-serial register. */
  lemma {:induction false} CrcIsFeed(data: seq<Byte>)
    ensures Crc(data) == Feed(Zeros(8), Bits(data))
  {
    hide Turn, Turns, Absorb;
    if data == [] {
    } else {
      var k := |data| - 1;
      CrcIsFeed(data[..k]);
      FeedConcat(Zeros(8), Bits(data[..k]), data[k]);
      AbsorbAtOnce(Crc(data[..k]), data[k]);
      assert data[k] + Zeros(0) == data[k];
    }
  }
}
