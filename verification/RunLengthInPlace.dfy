/** The run-length encoder writing to the buffer it reads from: exactly when it still works. */
module RunLengthInPlace {
  import opened MachineInts
  import opened RunLength

  /** Writing pair `k` in front of position `next` leaves the byte there as it is. */
  predicate Harmless(s: seq<uint8>, k: nat, next: nat, n: nat)
    requires next < |s|
  {
    Index(k) + 2 <= next || (Index(k) + 1 == next && s[next] == n)
  }

  /** From position `i` on, where pair `k` begins: no pair is written over bytes that are still to be
      read, unless what it writes there is what was there. */
  predicate Spared(s: seq<uint8>, i: nat, k: nat)
    requires i < |s|
    decreases |s| - i
  {
    var n := First(s[i..]);
    var next := i + n;
    next == |s| || (Harmless(s, k, next, n) && Spared(s, next, k + 1))
  }

  // ---------------------------------------------------------------- what is written stays

  lemma ExpandSnoc(ps: seq<Pair>, value: uint8, count: nat)
    ensures Expand(ps + [Pair(value, count)]) == Expand(ps) + Repeat(value, count)
  {
    var p := Pair(value, count);
    ExpandConcat(ps, [p]);
    assert [p][1..] == [];
  }

  lemma OneMoreEncodable(ps: seq<Pair>, value: uint8, count: uint8)
    requires Encodable(ps) && count >= 1
    ensures Encodable(ps + [Pair(value, count)])
  {
  }

  /** Unless the room runs out, the pairs `qs` the encoder ends with begin with what it has written and counted
      so far, and they account for every byte it reads, whatever it reads. */
  lemma {:induction false} WrittenStays(m: seq<uint8>, n: nat, maxLen: nat, i: nat, ps: seq<Pair>,
                                        count: uint8, last: uint8) returns (qs: seq<Pair>)
    requires i <= n <= |m| && maxLen <= |m| && count >= 1
    requires Placed(m, ps) && Encodable(ps) && Reached(|ps|, maxLen, Index(|ps|))
    ensures var (m', ret) := InPlace(m, n, maxLen, i, Index(|ps|), count, last);
            && |m'| == |m|
            && (ret > 0 ==>
                  && ret == Index(|qs|) && Placed(m', qs) && Encodable(qs)
                  && Expand(ps) + Repeat(last, count) <= Expand(qs)
                  && |Expand(qs)| == |Expand(ps)| + count + n - i)
    decreases n - i
  {
    hide Expand, Placed, Encodable, Index;
    var index := Index(|ps|);
    if i < n && last == m[i] && count < MAX_COUNT {
      qs := WrittenStays(m, n, maxLen, i + 1, ps, count + 1, last);
      assert Repeat(last, count) <= Repeat(last, count + 1);
    } else if index + 1 < maxLen {
      var ps' := ps + [Pair(last, count)];
      PairPlaced(m, maxLen, index, ps, count, last);
      OneMoreEncodable(ps, last, count);
      ExpandSnoc(ps, last, count);
      if i < n {
        var m' := Written(m, index, last, count);
        qs := WrittenStays(m', n, maxLen, i + 1, ps', 1, m'[i]);
      } else {
        qs := ps';
      }
    } else {
      qs := [];
    }
  }

  // ---------------------------------------------------------------- the input while it is unharmed

  /** Where the encoder stands in an input it has not harmed so far. */
  ghost predicate Unharmed(s: seq<uint8>, m: seq<uint8>, maxLen: nat, i: nat, ps: seq<Pair>,
                           count: uint8, last: uint8)
  {
    && |s| <= |m| && maxLen <= |m| && Placed(m, ps) && Encodable(ps) && Reached(|ps|, maxLen, Index(|ps|))
    && Progress(s, ps, i, count, last) && Expand(ps) == s[..i - count]
    && (forall j :: i <= j < |s| ==> m[j] == s[j])
    && Behind(|ps|, i - count)
  }

  /** Where pair `k` goes is at most one byte ahead of the run it stands for, which begins at `start`. */
  predicate Behind(k: nat, start: nat) {
    k <= start && (k <= 127 ==> 2 * k <= start + 1)
  }

  lemma BehindIndex(k: nat, start: nat, count: nat)
    requires Behind(k, start) && count >= 1
    ensures Index(k) < start + count || (Index(k) == start + count && count == 1)
    ensures k > 127 ==> Index(k) + 2 <= start + count
    ensures Index(k) + 1 <= start + count ==> Behind(k + 1, start + count)
  {
    hide Index;
    IndexIs(k);
    if k > 127 {
      IndexAfterWraps(k / 128, k % 128);
    }
  }

  /** The run before position `i` is complete. */
  ghost predicate AtEnd(s: seq<uint8>, i: nat, count: uint8, last: uint8) {
    i >= |s| || s[i] != last || count == MAX_COUNT
  }

  lemma UnharmedBounds(s: seq<uint8>, m: seq<uint8>, maxLen: nat, i: nat, ps: seq<Pair>, count: uint8, last: uint8)
    requires Unharmed(s, m, maxLen, i, ps, count, last)
    ensures maxLen <= |m| && 1 <= count <= i <= |s| <= |m|
    ensures i < |s| ==> m[i] == s[i]
  {
  }

  lemma StaysUnharmed(s: seq<uint8>, m: seq<uint8>, maxLen: nat, i: nat, ps: seq<Pair>, count: uint8, last: uint8)
    requires Unharmed(s, m, maxLen, i, ps, count, last) && i < |s| && last == m[i] && count < MAX_COUNT
    ensures Unharmed(s, m, maxLen, i + 1, ps, count + 1, last)
  {
    hide Pairs, Expand, Placed, Encodable, Index, Behind;
    assert i + 1 - (count + 1) == i - count;
  }

  lemma RunEnds(s: seq<uint8>, m: seq<uint8>, maxLen: nat, i: nat, ps: seq<Pair>, count: uint8, last: uint8)
    requires Unharmed(s, m, maxLen, i, ps, count, last) && AtEnd(s, i, count, last)
    ensures First(s[i - count..]) == count && Expand(ps) + Repeat(last, count) == s[..i]
    ensures Pairs(s) == ps + [Pair(last, count)] + Pairs(s[i..])
  {
    hide First, Leading, Pairs, Expand, Placed, Encodable, Index, Behind;
    FirstIs(s[i - count..], count);
    Flush(s, ps, i, count, last);
    assert s[..i] == s[..i - count] + Repeat(last, count);
  }

  /** The next byte survives the write exactly when the write is harmless, and then so do all later ones. */
  lemma NextByte(s: seq<uint8>, m: seq<uint8>, maxLen: nat, i: nat, ps: seq<Pair>, count: uint8, last: uint8)
    requires Unharmed(s, m, maxLen, i, ps, count, last) && AtEnd(s, i, count, last)
    requires i < |s| && Index(|ps|) + 1 < maxLen
    ensures var m' := Written(m, Index(|ps|), last, count);
            && (m'[i] == s[i] <==> Harmless(s, |ps|, i, count))
            && (m'[i] == s[i] ==> Unharmed(s, m', maxLen, i + 1, ps + [Pair(last, count)], 1, m'[i]))
  {
    hide First, Leading, Pairs, Expand, Placed, Encodable, Index, Behind;
    RunEnds(s, m, maxLen, i, ps, count, last);
    PairPlaced(m, maxLen, Index(|ps|), ps, count, last);
    OneMoreEncodable(ps, last, count);
    ExpandSnoc(ps, last, count);
    NewRun(s, ps + [Pair(last, count)], i);
    BehindIndex(|ps|, i - count, count);
  }

  /** Once a byte is lost, the result does not decode to the input. */
  lemma Harmed(s: seq<uint8>, m: seq<uint8>, maxLen: nat, i: nat, ps: seq<Pair>, count: uint8, last: uint8)
    requires Unharmed(s, m, maxLen, i, ps, count, last) && AtEnd(s, i, count, last)
    requires i < |s| && Index(|ps|) + 1 < maxLen && Written(m, Index(|ps|), last, count)[i] != s[i]
    ensures var (m', ret) := InPlace(m, |s|, maxLen, i, Index(|ps|), count, last);
            |m'| == |m| && ret <= |m'| && Decode(m'[..ret]) != s
  {
    hide First, Leading, Pairs, Expand, Placed, Decode, Encodable, Index, Behind;
    var m1, ps' := Written(m, Index(|ps|), last, count), ps + [Pair(last, count)];
    RunEnds(s, m, maxLen, i, ps, count, last);
    PairPlaced(m, maxLen, Index(|ps|), ps, count, last);
    OneMoreEncodable(ps, last, count);
    ExpandSnoc(ps, last, count);
    var qs := WrittenStays(m1, |s|, maxLen, i + 1, ps', 1, m1[i]);
    var (m', ret) := InPlace(m1, |s|, maxLen, i + 1, Index(|ps'|), 1, m1[i]);
    if ret == 0 {
      DecodeNothing();
      assert m'[..0] == [];
    } else {
      ResultDecodes(m', qs);
      assert (s[..i] + Repeat(m1[i], 1))[i] == m1[i];
      assert Expand(qs)[i] == m1[i];
    }
  }

  /** The run up to position `i` is written, and what happens then. */
  lemma AfterRun(s: seq<uint8>, m: seq<uint8>, maxLen: nat, i: nat, ps: seq<Pair>, count: uint8, last: uint8)
    requires Unharmed(s, m, maxLen, i, ps, count, last) && AtEnd(s, i, count, last)
    ensures Index(|ps|) + 1 >= maxLen ==> Returned(|Pairs(s)|, maxLen) == 0 && !Fits(|Pairs(s)|, maxLen)
    ensures i == |s| ==> Spared(s, i - count, |ps|)
    ensures i < |s| ==> (Spared(s, i - count, |ps|)
                         <==> Harmless(s, |ps|, i, count) && Spared(s, i, |ps| + 1))
  {
    hide First, Leading, Pairs, Expand, Placed, Decode, Harmless, Encodable, Index, Behind;
    RunEnds(s, m, maxLen, i, ps, count, last);
    assert |Pairs(s)| >= |ps| + 1;
    if Index(|ps|) + 1 >= maxLen { NoRoom(|Pairs(s)|, |ps|, maxLen, Index(|ps|)); }
  }

  lemma AtLast(s: seq<uint8>, m: seq<uint8>, maxLen: nat, ps: seq<Pair>, count: uint8, last: uint8)
    requires Unharmed(s, m, maxLen, |s|, ps, count, last) && Index(|ps|) + 1 < maxLen
    ensures var out, ret := Written(m, Index(|ps|), last, count), NextIndex(Index(|ps|));
            && ret == Returned(|Pairs(s)|, maxLen) && ret <= |out|
            && (Decode(out[..ret]) == s <==> Fits(|Pairs(s)|, maxLen))
  {
    hide First, Leading, Pairs, Expand, Placed, Decode, Encodable, Index, Behind;
    var ps' := ps + [Pair(last, count)];
    RunEnds(s, m, maxLen, |s|, ps, count, last);
    PairPlaced(m, maxLen, Index(|ps|), ps, count, last);
    AllPlaced(s, Written(m, Index(|ps|), last, count), ps', maxLen, NextIndex(Index(|ps|)));
  }

  lemma {:induction false} RightWhenSpared(s: seq<uint8>, m: seq<uint8>, maxLen: nat, i: nat, ps: seq<Pair>,
                                           count: uint8, last: uint8)
    requires Unharmed(s, m, maxLen, i, ps, count, last)
    ensures var (m', ret) := InPlace(m, |s|, maxLen, i, Index(|ps|), count, last);
            && |m'| == |m| && ret <= |m'|
            && (Decode(m'[..ret]) == s <==> Spared(s, i - count, |ps|) && Fits(|Pairs(s)|, maxLen))
            && (Spared(s, i - count, |ps|) ==> ret == Returned(|Pairs(s)|, maxLen))
    decreases |s| - i
  {
    hide First, Leading, Pairs, Expand, Decode, Harmless, Spared, Unharmed, Index, Fits, Returned;
    UnharmedBounds(s, m, maxLen, i, ps, count, last);
    if i < |s| && last == m[i] && count < MAX_COUNT {
      StaysUnharmed(s, m, maxLen, i, ps, count, last);
      RightWhenSpared(s, m, maxLen, i + 1, ps, count + 1, last);
    } else {
      AfterRun(s, m, maxLen, i, ps, count, last);
      var index := Index(|ps|);
      if index + 1 >= maxLen {
        DecodeNothing();
        assert m[..0] == [];
      } else if i == |s| {
        AtLast(s, m, maxLen, ps, count, last);
      } else {
        NextByte(s, m, maxLen, i, ps, count, last);
        var m' := Written(m, index, last, count);
        IndexNext(|ps|);
        if m'[i] == s[i] {
          RightWhenSpared(s, m', maxLen, i + 1, ps + [Pair(last, count)], 1, m'[i]);
        } else {
          Harmed(s, m, maxLen, i, ps, count, last);
        }
      }
    }
  }

  lemma IndexNext(k: nat)
    ensures Index(k + 1) == NextIndex(Index(k))
  {
  }

  /** Encoding a buffer in place: the result decodes to the input exactly when every write is harmless and at
      most 127 pairs are needed and have room. With harmless writes the length is that of a separate buffer. */
  lemma InPlaceRoundTrip(m: seq<uint8>, n: nat, maxLen: nat)
    requires 1 <= n <= |m| && maxLen <= |m|
    ensures var (m', ret) := InPlace(m, n, maxLen, 1, 0, 1, m[0]);
            && |m'| == |m| && ret <= |m'|
            && (Decode(m'[..ret]) == m[..n] <==> Spared(m[..n], 0, 0) && Fits(|Pairs(m[..n])|, maxLen))
            && (Spared(m[..n], 0, 0) ==> ret == Returned(|Pairs(m[..n])|, maxLen))
  {
    hide First, Leading, Pairs, Placed, Decode, InPlace, Spared;
    var s := m[..n];
    NothingPlaced(m);
    ExpandNothing();
    NothingReached(maxLen);
    assert s[0..] == s && [] + Pairs(s) == Pairs(s);
    NewRun(s, [], 0);
    RightWhenSpared(s, m, maxLen, 1, [], 1, m[0]);
  }

  /** Two bytes that differ: the count of the first pair is written over the second byte before it is read. */
  lemma InPlaceLosesData()
    ensures !Spared([5, 7], 0, 0)
    ensures InPlace([5, 7, 0, 0], 2, 4, 1, 0, 1, 5) == ([5, 1, 1, 1], 4)
  {
    assert [5, 7][0..] == [5, 7];
    FirstIs([5, 7], 1);
    var m := Written([5, 7, 0, 0], 0, 5, 1);
    assert m == [5, 1, 0, 0];
    assert Written(m, 2, 1, 1) == [5, 1, 1, 1];
    assert InPlace(m, 2, 4, 2, 2, 1, 1) == ([5, 1, 1, 1], 4);
  }
}
