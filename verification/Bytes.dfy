/** Bytes by their bits, for the programs that compute with exclusive or. */
module Bytes {
  /** A `uint8_t` as its eight bits, the highest first. */
  type Byte = b: seq<bool> | |b| == 8 witness Zeros(8)

  function Zeros(n: nat): (r: seq<bool>)
    ensures |r| == n && forall i :: 0 <= i < n ==> !r[i]
  {
    seq(n, _ => false)
  }

  /** Bitwise exclusive or. */
  function Xor(a: seq<bool>, b: seq<bool>): (r: seq<bool>)
    requires |a| == |b|
    ensures |r| == |a| && forall i :: 0 <= i < |a| ==> r[i] == (a[i] != b[i])
  {
    seq(|a|, i requires 0 <= i < |a| => a[i] != b[i])
  }

  /** The same byte by byte: what arrives when `b` marks the bits flipped in `a`, and the bits in which
      two byte strings differ. */
  function XorEach(a: seq<Byte>, b: seq<Byte>): (r: seq<Byte>)
    requires |a| == |b|
    ensures |r| == |a| && forall i :: 0 <= i < |a| ==> r[i] == Xor(a[i], b[i])
  {
    seq(|a|, i requires 0 <= i < |a| => Xor(a[i], b[i]))
  }

  function Weight(bit: bool, w: nat): nat { if bit then w else 0 }

  function Nibble(a: bool, b: bool, c: bool, d: bool): (r: nat)
    ensures r < 16
  {
    Weight(a, 8) + Weight(b, 4) + Weight(c, 2) + Weight(d, 1)
  }

  /** The number a byte stands for. */
  function Value(b: Byte): (r: nat)
    ensures r < 256
  {
    16 * Nibble(b[0], b[1], b[2], b[3]) + Nibble(b[4], b[5], b[6], b[7])
  }

  /** Binary notation, the highest bit first. */
  function Number(bits: seq<bool>): nat {
    if bits == [] then 0 else 2 * Number(bits[..|bits| - 1]) + if bits[|bits| - 1] then 1 else 0
  }

  lemma NumberNext(bits: seq<bool>, k: nat)
    requires k < |bits|
    ensures Number(bits[..k + 1]) == 2 * Number(bits[..k]) + if bits[k] then 1 else 0
  {
    assert bits[..k + 1][..k] == bits[..k];
  }

  lemma NumberNibble(bits: seq<bool>, k: nat)
    requires k + 4 <= |bits|
    ensures Number(bits[..k + 4])
            == 16 * Number(bits[..k]) + Nibble(bits[k], bits[k + 1], bits[k + 2], bits[k + 3])
  {
    hide Number;
    NumberNext(bits, k);
    NumberNext(bits, k + 1);
    NumberNext(bits, k + 2);
    NumberNext(bits, k + 3);
  }

  /** A byte stands for the number its bits write. */
  lemma ValueIsBinary(b: Byte)
    ensures Value(b) == Number(b)
  {
    hide Number, Nibble;
    NoNumber();
    assert b[..0] == [] && b[..8] == b;
    NumberNibble(b, 0);
    NumberNibble(b, 4);
  }

  lemma NoNumber()
    ensures Number([]) == 0
  {
  }

  lemma {:induction false} NumberInjective(a: seq<bool>, b: seq<bool>)
    requires |a| == |b| && Number(a) == Number(b)
    ensures a == b
    decreases |a|
  {
    if a == [] {
    } else {
      var k := |a| - 1;
      NumberInjective(a[..k], b[..k]);
      assert a == a[..k] + [a[k]] && b == b[..k] + [b[k]];
    }
  }

  /** Different bytes stand for different numbers. */
  lemma ValueInjective(a: Byte, b: Byte)
    requires Value(a) == Value(b)
    ensures a == b
  {
    ValueIsBinary(a);
    ValueIsBinary(b);
    NumberInjective(a, b);
  }

  lemma ZeroValue(b: Byte)
    ensures Value(b) == 0 <==> b == Zeros(8)
  {
  }
}
