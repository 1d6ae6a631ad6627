/** The register is a remainder: polynomial division over GF(2). */
module Crc8Division {
  import opened Bytes
  import opened Crc8

  /** A polynomial by its coefficients, the highest power first; addition is exclusive or. */
  type Poly = seq<bool>

  /** Schoolbook multiplication: q·x + b times g is (q·g)·x + b·g. */
  function Times(q: Poly, g: Poly): (r: Poly)
    requires |g| > 0
    ensures |r| == |q| + |g| - 1
  {
    if q == [] then Zeros(|g| - 1)
    else
      var n := |q| - 1;
      Xor(Times(q[..n], g) + [false], Zeros(n) + if q[n] then g else Zeros(|g|))
  }

  /** x^8 + x^2 + x + 1. */
  const GENERATOR: Poly := [true, false, false, false, false, false, true, true, true]

  /** m·x^8 = q·g + r with the degree of r below 8. */
  ghost predicate DividesWith(m: Poly, q: Poly, r: Byte) {
    |q| == |m| && m + Zeros(8) == Xor(Times(q, GENERATOR), Zeros(|m|) + r)
  }

  /** The quotient, one bit for each message bit: the bit that leaves the register. */
  function Quotient(m: Poly): (q: Poly)
    ensures |q| == |m|
  {
    if m == [] then []
    else
      var k := |m| - 1;
      Quotient(m[..k]) + [Feed(Zeros(8), m[..k])[0] != m[k]]
  }

  /** One bit of long division: r·x + b·x^8 = t·g + Absorb(r, b), where t is the bit shifted out. */
  lemma DivisionStep(r: Byte, b: bool, j: nat)
    requires j < 9
    ensures var t := r[0] != b;
            (j == 0 && b) == (((j < 8 && r[j]) != (t && GENERATOR[j])) != (j > 0 && Absorb(r, b)[j - 1]))
  {
    var shifted := r[0 := r[0] != b];
    assert Absorb(r, b) == Turn(shifted);
    assert forall i :: 0 <= i < 7 ==> ShiftLeft(shifted)[i] == r[i + 1];
    assert forall i :: 0 <= i < 8 ==> POLYNOMIAL[i] == GENERATOR[i + 1];
  }

  lemma DivideNothing()
    ensures DividesWith([], [], Zeros(8))
  {
    assert [] + Zeros(8) == Xor(Times([], GENERATOR), Zeros(0) + Zeros(8));
  }

  lemma {:induction false} RegisterIsRemainder(m: Poly)
    ensures DividesWith(m, Quotient(m), Feed(Zeros(8), m))
    decreases |m|
  {
    hide DividesWith, Absorb, Times;
    if m == [] {
      DivideNothing();
    } else {
      var n := |m| - 1;
      RegisterIsRemainder(m[..n]);
      DivideNext(m[..n], Quotient(m[..n]), Feed(Zeros(8), m[..n]), m[n]);
      assert m[..n] + [m[n]] == m;
    }
  }

  lemma TimesNext(q: Poly, t: bool)
    ensures Times(q + [t], GENERATOR)
            == Xor(Times(q, GENERATOR) + [false], Zeros(|q|) + if t then GENERATOR else Zeros(9))
  {
    assert (q + [t])[..|q|] == q;
  }

  lemma DivideNextAt(m: Poly, q: Poly, r: Byte, b: bool, i: nat)
    requires DividesWith(m, q, r) && i < |m| + 9
    ensures var t := r[0] != b;
            (m + [b] + Zeros(8))[i] == (Times(q + [t], GENERATOR)[i] != (Zeros(|m| + 1) + Absorb(r, b))[i])
  {
    hide Absorb, Times;
    TimesNext(q, r[0] != b);
    var before, after := m + Zeros(8), Xor(Times(q, GENERATOR), Zeros(|m|) + r);
    if i < |m| + 8 { assert before[i] == after[i]; }
    if i >= |m| { DivisionStep(r, b, i - |m|); }
  }

  lemma DivideNext(m: Poly, q: Poly, r: Byte, b: bool)
    requires DividesWith(m, q, r)
    ensures DividesWith(m + [b], q + [r[0] != b], Absorb(r, b))
  {
    hide Absorb, Times;
    var lhs, rhs := m + [b] + Zeros(8), Xor(Times(q + [r[0] != b], GENERATOR), Zeros(|m| + 1) + Absorb(r, b));
    forall i | 0 <= i < |m| + 9 ensures lhs[i] == rhs[i] {
      DivideNextAt(m, q, r, b, i);
    }
    assert lhs == rhs;
  }

  lemma TimesTop(q: Poly, t: bool, i: nat)
    requires i <= |q|
    ensures Times(q + [t], GENERATOR)[i] == (if i < |q| then Times(q, GENERATOR)[i] else Times(q, GENERATOR)[i] != t)
  {
  }

  /** The leading |q| coefficients of q·g determine q, because g is monic. */
  lemma {:induction false} LeadingDetermines(q: Poly, q': Poly)
    requires |q| == |q'|
    requires forall i :: 0 <= i < |q| ==> Times(q, GENERATOR)[i] == Times(q', GENERATOR)[i]
    ensures q == q'
    decreases |q|
  {
    if q == [] {
    } else {
      var n := |q| - 1;
      assert q == q[..n] + [q[n]] && q' == q'[..n] + [q'[n]];
      forall i | 0 <= i < n ensures Times(q[..n], GENERATOR)[i] == Times(q'[..n], GENERATOR)[i] {
        TimesTop(q[..n], q[n], i);
        TimesTop(q'[..n], q'[n], i);
      }
      LeadingDetermines(q[..n], q'[..n]);
      TimesTop(q[..n], q[n], n);
      TimesTop(q'[..n], q'[n], n);
    }
  }

  lemma AddendDetermined(p: Poly, n: nat, r: Byte, r': Byte)
    requires |p| == n + 8 && Xor(p, Zeros(n) + r) == Xor(p, Zeros(n) + r')
    ensures r == r'
  {
    var a, b := Xor(p, Zeros(n) + r), Xor(p, Zeros(n) + r');
    forall j | 0 <= j < 8 ensures r[j] == r'[j] {
      assert a[n + j] == b[n + j];
    }
  }

  lemma DivisionIsUnique(m: Poly, q: Poly, r: Byte, q': Poly, r': Byte)
    requires DividesWith(m, q, r) && DividesWith(m, q', r')
    ensures q == q' && r == r'
  {
    var n := |m|;
    var a, b := Xor(Times(q, GENERATOR), Zeros(n) + r), Xor(Times(q', GENERATOR), Zeros(n) + r');
    assert a == b;
    forall i | 0 <= i < n ensures Times(q, GENERATOR)[i] == Times(q', GENERATOR)[i] {
      assert a[i] == b[i];
    }
    LeadingDetermines(q, q');
    AddendDetermined(Times(q, GENERATOR), n, r, r');
  }

  /** `crc8` is the remainder of data(x)·x^8 divided by x^8 + x^2 + x + 1, and nothing else is. */
  lemma CrcIsTheRemainder(data: seq<Byte>, r: Byte)
    ensures r == Crc(data) <==> exists q :: DividesWith(Bits(data), q, r)
  {
    var m := Bits(data);
    CrcIsFeed(data);
    RegisterIsRemainder(m);
    if q :| DividesWith(m, q, r) {
      DivisionIsUnique(m, q, r, Quotient(m), Crc(data));
    }
  }
}
