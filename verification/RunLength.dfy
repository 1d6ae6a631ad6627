/** The run-length encoder: greedy pairs, and the bounded output it writes them to. */
module RunLength {
  import opened MachineInts

  const MAX_COUNT := 255

  datatype Pair = Pair(value: uint8, count: nat)

  // ---------------------------------------------------------------- pairs and their meaning

  function Repeat(b: uint8, n: nat): (r: seq<uint8>)
    ensures |r| == n && forall i :: 0 <= i < n ==> r[i] == b
  {
    seq(n, _ => b)
  }

  function Expand(ps: seq<Pair>): seq<uint8> {
    if ps == [] then [] else Repeat(ps[0].value, ps[0].count) + Expand(ps[1..])
  }

  /** Every count fits the byte it is stored in, and none is wasted. */
  ghost predicate Encodable(ps: seq<Pair>) {
    forall i :: 0 <= i < |ps| ==> 1 <= ps[i].count <= 255
  }

  /** How many bytes at the front equal the first one. */
  function Leading(s: seq<uint8>): (n: nat)
    requires s != []
    ensures 1 <= n <= |s|
    ensures forall i :: 0 <= i < n ==> s[i] == s[0]
    ensures n < |s| ==> s[n] != s[0]
  {
    if |s| == 1 || s[1] != s[0] then 1 else 1 + Leading(s[1..])
  }

  function First(s: seq<uint8>): (n: nat)
    requires s != []
    ensures 1 <= n <= |s| && n <= MAX_COUNT
  {
    if Leading(s) < MAX_COUNT then Leading(s) else MAX_COUNT
  }

  /** The greedy encoding: each pair takes as much of the run as a count can hold. */
  function Pairs(s: seq<uint8>): seq<Pair>
    decreases |s|
  {
    if s == [] then [] else [Pair(s[0], First(s))] + Pairs(s[First(s)..])
  }

  lemma FirstIs(s: seq<uint8>, n: nat)
    requires 1 <= n <= |s| && n <= MAX_COUNT
    requires forall i :: 0 <= i < n ==> s[i] == s[0]
    requires n == MAX_COUNT || n == |s| || s[n] != s[0]
    ensures First(s) == n
  {
  }

  lemma FirstAtLeast(s: seq<uint8>, n: nat)
    requires 1 <= n <= |s| && n <= MAX_COUNT
    requires forall i :: 0 <= i < n ==> s[i] == s[0]
    ensures n <= First(s)
  {
  }

  lemma FirstRun(s: seq<uint8>)
    requires s != []
    ensures s[..First(s)] == Repeat(s[0], First(s))
  {
  }

  lemma PairsCons(s: seq<uint8>)
    requires s != []
    ensures Pairs(s) == [Pair(s[0], First(s))] + Pairs(s[First(s)..])
  {
  }

  lemma ExpandNothing()
    ensures Expand([]) == []
  {
  }

  lemma PairsOfNothing()
    ensures Pairs([]) == []
  {
  }

  /** Decoding gives the input back, and every count fits. */
  lemma {:induction false} PairsRoundTrip(s: seq<uint8>)
    ensures Expand(Pairs(s)) == s && Encodable(Pairs(s))
    decreases |s|
  {
    if s == [] {
    } else {
      var n := First(s);
      PairsRoundTrip(s[n..]);
      OneMorePair(s, n, Pairs(s[n..]));
    }
  }

  lemma OneMorePair(s: seq<uint8>, n: nat, rest: seq<Pair>)
    requires s != [] && n == First(s) && Expand(rest) == s[n..] && Encodable(rest)
    ensures Expand([Pair(s[0], n)] + rest) == s && Encodable([Pair(s[0], n)] + rest)
  {
    hide First, Leading;
    var ps := [Pair(s[0], n)] + rest;
    assert ps[1..] == rest;
    FirstRun(s);
    assert s == s[..n] + s[n..];
  }

  // ---------------------------------------------------------------- fewest pairs

  /** Dropping a byte from the front never needs more pairs. */
  lemma {:induction false} DropOne(s: seq<uint8>)
    requires s != []
    ensures |Pairs(s[1..])| <= |Pairs(s)|
    decreases |s|
  {
    var n, t := First(s), s[1..];
    if n == 1 {
    } else if Leading(s) > MAX_COUNT {
      FirstIs(t, MAX_COUNT);
      assert t[MAX_COUNT..] == s[n..][1..];
      DropOne(s[n..]);
    } else {
      FirstIs(t, n - 1);
      assert t[n - 1..] == s[n..];
    }
  }

  lemma {:induction false} DropMany(s: seq<uint8>, k: nat)
    requires k <= |s|
    ensures |Pairs(s[k..])| <= |Pairs(s)|
    decreases k
  {
    if k == 0 {
      assert s[0..] == s;
    } else {
      DropMany(s, k - 1);
      assert s[k - 1..][1..] == s[k..];
      DropOne(s[k - 1..]);
    }
  }

  lemma ExpandCons(ps: seq<Pair>, s: seq<uint8>)
    requires ps != [] && Expand(ps) == s
    ensures ps[0].count <= |s| && s[ps[0].count..] == Expand(ps[1..])
    ensures forall i :: 0 <= i < ps[0].count ==> s[i] == ps[0].value
  {
  }

  lemma AfterPrefix(s: seq<uint8>, c: nat)
    requires s != [] && 1 <= c <= First(s)
    ensures |Pairs(s)| <= 1 + |Pairs(s[c..])|
  {
    hide Leading, First, Pairs;
    var n := First(s);
    PairsCons(s);
    assert s[c..][n - c..] == s[n..];
    DropMany(s[c..], n - c);
  }

  /** No list of pairs that expands to the input is shorter than the greedy one. */
  lemma {:induction false} GreedyIsShortest(s: seq<uint8>, ps: seq<Pair>)
    requires Encodable(ps) && Expand(ps) == s
    ensures |Pairs(s)| <= |ps|
    decreases |ps|
  {
    hide Leading, First, Pairs, Expand;
    PairsOfNothing();
    ExpandNothing();
    if ps == [] {
    } else {
      var c := ps[0].count;
      ExpandCons(ps, s);
      GreedyIsShortest(s[c..], ps[1..]);
      FirstAtLeast(s, c);
      AfterPrefix(s, c);
    }
  }

  // ---------------------------------------------------------------- the encoder

  /** `index += 2` of a `uint8_t`. */
  function NextIndex(i: uint8): (r: uint8)
    ensures i < 254 ==> r == i + 2
    ensures i == 254 ==> r == 0
  {
    (i + 2) % 256
  }

  /** The output index after `n` pairs. */
  function Index(n: nat): (r: uint8)
    ensures r <= 254 && r % 2 == 0
  {
    if n == 0 then 0 else NextIndex(Index(n - 1))
  }

  lemma {:induction false} IndexAfterWraps(q: nat, r: nat)
    requires r < 128
    ensures Index(128 * q + r) == 2 * r
    decreases q, r
  {
    hide NextIndex;
    if q == r == 0 {
    } else if r > 0 {
      IndexAfterWraps(q, r - 1);
    } else {
      IndexAfterWraps(q - 1, 127);
    }
  }

  lemma IndexIs(n: nat)
    ensures Index(n) == 2 * (n % 128)
    ensures n < 128 ==> Index(n) == 2 * n
  {
    hide Index;
    IndexAfterWraps(n / 128, n % 128);
  }

  /** The last 128 pairs have places of their own. */
  lemma DistinctIndexes(j: nat, k: nat)
    requires j < k < j + 128
    ensures Index(j) + 1 < Index(k) || Index(k) + 1 < Index(j)
  {
    hide Index;
    IndexIs(j);
    IndexIs(k);
  }

  /** `index` is right after `n` pairs, and below 256 bytes of room they fitted. */
  predicate Reached(n: nat, maxLen: nat, index: nat) {
    index == Index(n) && (maxLen <= 255 ==> 2 * n <= maxLen)
  }

  /** The pairs have room, and the index does not wrap. */
  predicate Fits(n: nat, maxLen: nat) {
    n <= 127 && 2 * n <= maxLen
  }

  /** What the returned length should be for `n` pairs. */
  function Wanted(n: nat, maxLen: nat): nat {
    if 2 * n <= maxLen then 2 * n else 0
  }

  /** What it is: the output index is a byte, so with 256 or more bytes of room it wraps instead of
      running into the bound. */
  function Returned(n: nat, maxLen: nat): nat {
    if maxLen <= 255 then Wanted(n, maxLen) else Index(n)
  }

  /** The length is right exactly when the room is below 256 bytes, or fewer than 128 pairs are
      needed, or the right answer is 0 and the index happens to wrap to it. */
  lemma LengthIsRight(n: nat, maxLen: nat)
    ensures Returned(n, maxLen) == Wanted(n, maxLen)
            <==> maxLen <= 255 || n <= 127 || (2 * n > maxLen && n % 128 == 0)
  {
    IndexIs(n);
  }

  /** Below 256 bytes of room the encoder succeeds whenever any encoding of the input fits. */
  lemma SucceedsWheneverPossible(s: seq<uint8>, ps: seq<Pair>, maxLen: nat)
    requires s != [] && maxLen <= 255 && Encodable(ps) && Expand(ps) == s
    ensures Returned(|Pairs(s)|, maxLen) == 0 <==> 2 * |Pairs(s)| > maxLen
    ensures 2 * |ps| <= maxLen ==> 0 < Returned(|Pairs(s)|, maxLen) <= 2 * |ps|
  {
    GreedyIsShortest(s, ps);
    PairsCons(s);
  }

  lemma AllWritten(n: nat, maxLen: nat, index: nat)
    requires Reached(n, maxLen, index)
    ensures index == Returned(n, maxLen)
    ensures Fits(n, maxLen) <==> n <= 127
  {
    IndexIs(n);
  }

  /** No room for pair `m` is only possible below 256 bytes of room, and then the answer is 0. */
  lemma NoRoom(n: nat, m: nat, maxLen: nat, index: nat)
    requires m < n && Reached(m, maxLen, index) && index + 1 >= maxLen
    ensures maxLen <= 255 && Returned(n, maxLen) == 0 && !Fits(n, maxLen)
  {
    IndexIs(m);
  }

  lemma RoomForPair(m: nat, maxLen: nat, index: nat)
    requires Reached(m, maxLen, index) && index + 1 < maxLen
    ensures Reached(m + 1, maxLen, NextIndex(index))
  {
    IndexIs(m);
  }

  /** 128 runs and 256 bytes of room, exactly enough: the encoder returns 0, as if nothing fitted. */
  lemma WrapsAt128Pairs()
    ensures |Pairs(Alternating(128))| == 128 && Wanted(128, 256) == 256 && Returned(128, 256) == 0
  {
    AlternatingPairs(128);
    IndexIs(128);
  }

  function Alternating(n: nat): seq<uint8> {
    if n == 0 then [] else [n % 2] + Alternating(n - 1)
  }

  lemma {:induction false} AlternatingPairs(n: nat)
    ensures |Pairs(Alternating(n))| == n
  {
    hide Leading, First, Pairs;
    if n == 0 {
      PairsOfNothing();
    } else {
      var s := Alternating(n);
      assert s[1..] == Alternating(n - 1);
      AlternatingPairs(n - 1);
      FirstIs(s, 1);
      PairsCons(s);
    }
  }

  /** The last (at most 128) pairs stand at their places in the buffer. */
  ghost predicate Placed(out: seq<uint8>, ps: seq<Pair>) {
    forall k :: 0 <= k < |ps| && |ps| - 128 <= k ==> PlacedAt(out, ps[k], k)
  }

  lemma NothingPlaced(out: seq<uint8>)
    ensures Placed(out, [])
  {
  }

  ghost predicate PlacedAt(out: seq<uint8>, p: Pair, k: nat) {
    Index(k) + 1 < |out| && out[Index(k)] == p.value && out[Index(k) + 1] == p.count
  }

  lemma PlaceNext(before: seq<uint8>, after: seq<uint8>, ps: seq<Pair>, p: Pair)
    requires Placed(before, ps) && |after| == |before| && PlacedAt(after, p, |ps|)
    requires forall i :: 0 <= i < |after| && i != Index(|ps|) && i != Index(|ps|) + 1 ==> after[i] == before[i]
    ensures Placed(after, ps + [p])
  {
    hide Index;
    var qs := ps + [p];
    forall k | 0 <= k < |qs| && |qs| - 128 <= k ensures PlacedAt(after, qs[k], k) {
      if k < |ps| {
        assert PlacedAt(before, ps[k], k);
        DistinctIndexes(k, |ps|);
      }
    }
  }

  /** A decoder for the output buffer. */
  function Decode(bytes: seq<uint8>): seq<uint8> {
    if |bytes| < 2 then [] else Repeat(bytes[0], bytes[1]) + Decode(bytes[2..])
  }

  lemma DecodeNothing()
    ensures Decode([]) == []
  {
  }

  /** Pair `k`, when `128 * q` pairs were written before the index last wrapped to 0. */
  lemma PairAt(out: seq<uint8>, ps: seq<Pair>, q: nat, k: nat)
    requires Placed(out, ps) && 128 * q <= k < |ps| <= 128 * q + 127 && 2 * (|ps| - 128 * q) <= |out|
    ensures var bytes := out[2 * (k - 128 * q)..2 * (|ps| - 128 * q)];
            && bytes[0] == ps[k].value && bytes[1] == ps[k].count
            && bytes[2..] == out[2 * (k + 1 - 128 * q)..2 * (|ps| - 128 * q)]
  {
    hide Index;
    assert PlacedAt(out, ps[k], k);
    IndexAfterWraps(q, k - 128 * q);
  }

  lemma {:induction false} PlacedDecodes(out: seq<uint8>, ps: seq<Pair>, q: nat, k: nat)
    requires Placed(out, ps) && 128 * q <= k <= |ps| <= 128 * q + 127 && 2 * (|ps| - 128 * q) <= |out|
    ensures Decode(out[2 * (k - 128 * q)..2 * (|ps| - 128 * q)]) == Expand(ps[k..])
    decreases |ps| - k
  {
    hide Index, Placed, Repeat;
    if k == |ps| {
    } else {
      PairAt(out, ps, q, k);
      PlacedDecodes(out, ps, q, k + 1);
      assert ps[k..][1..] == ps[k + 1..];
    }
  }

  lemma {:induction false} ExpandConcat(ps: seq<Pair>, qs: seq<Pair>)
    ensures Expand(ps + qs) == Expand(ps) + Expand(qs)
    decreases |ps|
  {
    if ps == [] {
      assert ps + qs == qs;
    } else {
      assert (ps + qs)[1..] == ps[1..] + qs;
      ExpandConcat(ps[1..], qs);
    }
  }

  lemma {:induction false} ExpandAtLeast(ps: seq<Pair>)
    requires Encodable(ps)
    ensures |Expand(ps)| >= |ps|
    decreases |ps|
  {
    if ps == [] {
    } else {
      ExpandAtLeast(ps[1..]);
    }
  }

  lemma LastPlaced(out: seq<uint8>, ps: seq<Pair>)
    requires Placed(out, ps)
    ensures Index(|ps|) == 2 * (|ps| % 128) <= |out|
  {
    hide Index;
    IndexIs(|ps|);
    if |ps| % 128 > 0 {
      var k := |ps| - 1;
      assert PlacedAt(out, ps[k], k);
      IndexAfterWraps(|ps| / 128, |ps| % 128 - 1);
    }
  }

  /** Up to 127 pairs decode completely; of more, only those since the index last wrapped are returned. */
  lemma ResultDecodes(out: seq<uint8>, ps: seq<Pair>)
    requires Placed(out, ps) && Encodable(ps)
    ensures Index(|ps|) <= |out|
    ensures |ps| <= 127 ==> Decode(out[..Index(|ps|)]) == Expand(ps)
    ensures |ps| > 127 ==> |Decode(out[..Index(|ps|)])| < |Expand(ps)|
  {
    hide Index, Placed, Decode, Expand;
    LastPlaced(out, ps);
    var q := |ps| / 128;
    var earlier, since := ps[..128 * q], ps[128 * q..];
    PlacedDecodes(out, ps, q, 128 * q);
    assert out[2 * (128 * q - 128 * q)..2 * (|ps| - 128 * q)] == out[..Index(|ps|)];
    assert earlier + since == ps;
    ExpandConcat(earlier, since);
    ExpandAtLeast(earlier);
    if q == 0 { assert since == ps; }
  }

  /** `ps` is written; the current run has `count` bytes before position `i`. */
  ghost predicate Progress(s: seq<uint8>, ps: seq<Pair>, i: nat, count: nat, last: uint8) {
    && 1 <= count <= i <= |s| && count <= MAX_COUNT
    && Pairs(s) == ps + Pairs(s[i - count..])
    && (forall j :: i - count <= j < i ==> s[j] == last)
  }

  lemma Flush(s: seq<uint8>, ps: seq<Pair>, i: nat, count: nat, last: uint8)
    requires Progress(s, ps, i, count, last)
    requires i == |s| || s[i] != last || count == MAX_COUNT
    ensures Pairs(s) == ps + [Pair(last, count)] + Pairs(s[i..])
  {
    hide First, Leading, Pairs;
    var t := s[i - count..];
    FirstIs(t, count);
    PairsCons(t);
    assert t[count..] == s[i..];
  }

  /** What the buffer holds when every pair is written. */
  lemma AllPlaced(s: seq<uint8>, out: seq<uint8>, ps: seq<Pair>, maxLen: nat, index: nat)
    requires Pairs(s) == ps + Pairs(s[|s|..]) && Placed(out, ps) && Reached(|ps|, maxLen, index)
    ensures Pairs(s) == ps && index == Returned(|ps|, maxLen)
    ensures index <= |out| && (Decode(out[..index]) == s <==> Fits(|ps|, maxLen))
  {
    hide First, Leading, Pairs, Expand, Decode, Returned, Placed, Index;
    assert s[|s|..] == [] && Pairs([]) == [] by { PairsOfNothing(); }
    PairsRoundTrip(s);
    AllWritten(|ps|, maxLen, index);
    ResultDecodes(out, ps);
  }

  lemma NothingReached(maxLen: nat)
    ensures Reached(0, maxLen, 0)
  {
  }

  lemma NewRun(s: seq<uint8>, ps: seq<Pair>, i: nat)
    requires i < |s| && Pairs(s) == ps + Pairs(s[i..])
    ensures Progress(s, ps, i + 1, 1, s[i])
  {
  }

  lemma SameRun(s: seq<uint8>, ps: seq<Pair>, i: nat, count: nat, last: uint8)
    requires Progress(s, ps, i, count, last) && i < |s| && s[i] == last && count < MAX_COUNT
    ensures Progress(s, ps, i + 1, count + 1, last)
  {
    hide Pairs;
    assert i + 1 - (count + 1) == i - count;
  }

  /** One more pair written where it belongs. */
  lemma PairPlaced(out: seq<uint8>, maxLen: nat, index: uint8, ps: seq<Pair>, count: uint8, last: uint8)
    requires Placed(out, ps) && Reached(|ps|, maxLen, index) && index + 1 < maxLen <= |out|
    ensures Placed(Written(out, index, last, count), ps + [Pair(last, count)])
    ensures Reached(|ps + [Pair(last, count)]|, maxLen, NextIndex(index))
  {
    hide Placed, Written;
    RoomForPair(|ps|, maxLen, index);
    PlaceNext(out, Written(out, index, last, count), ps, Pair(last, count));
  }

  /** The two stores the encoder makes for a finished pair. */
  function Written(m: seq<uint8>, index: nat, value: uint8, count: uint8): (r: seq<uint8>)
    requires index + 1 < |m|
    ensures |r| == |m| && r[index] == value && r[index + 1] == count
    ensures forall j :: 0 <= j < |m| && j != index && j != index + 1 ==> r[j] == m[j]
  {
    m[index := value][index + 1 := count]
  }

  method WritePair(output: array<uint8>, index: nat, value: uint8, count: uint8)
    requires index + 1 < output.Length
    modifies output
    ensures output[..] == Written(old(output[..]), index, value, count)
    ensures forall j :: index + 2 <= j < output.Length ==> output[j] == old(output[j])
  {
    output[index] := value;
    output[index + 1] := count;
  }

  /** The encoder from position `i` on when it writes to the buffer `m` it reads from: the buffer and
      the length it ends with. */
  function InPlace(m: seq<uint8>, n: nat, maxLen: nat, i: nat, index: uint8, count: uint8, last: uint8)
    : (seq<uint8>, nat)
    requires n <= |m| && maxLen <= |m|
    decreases n - i
  {
    if i < n && last == m[i] && count < MAX_COUNT then InPlace(m, n, maxLen, i + 1, index, count + 1, last)
    else if index + 1 >= maxLen then (m, 0)
    else
      var m' := Written(m, index, last, count);
      if i < n then InPlace(m', n, maxLen, i + 1, NextIndex(index), 1, m'[i]) else (m', NextIndex(index))
  }

  /** `rle_encode`. The first byte is read before the length is looked at, so there must be one. */
  method Encode(input: array<uint8>, inputLen: nat, output: array<uint8>, maxLen: nat) returns (ret: nat)
    requires 1 <= input.Length && inputLen <= input.Length && maxLen <= output.Length
    modifies output
    ensures inputLen == 0 ==> ret == 0 && output[..] == old(output[..])
    ensures inputLen > 0 && input != output ==>
              && ret == Returned(|Pairs(input[..inputLen])|, maxLen)
              && (maxLen > 255 || ret > 0 ==> Placed(output[..], Pairs(input[..inputLen])))
              && ret <= output.Length
              && (Decode(output[..ret]) == input[..inputLen] <==> Fits(|Pairs(input[..inputLen])|, maxLen))
    ensures inputLen > 0 && input == output ==>
              (output[..], ret) == InPlace(old(output[..]), inputLen, maxLen, 1, 0, 1, old(output[0]))
    ensures forall j :: maxLen <= j < output.Length ==> output[j] == old(output[j])
  {
    hide First, Leading, Pairs, Expand, Decode, Returned, Fits, Placed, Progress, Reached, Written, NextIndex;
    var index, count := 0, 1;
    var lastByte := input[0];
    var overflow := false;
    if inputLen == 0 { return 0; }

    ghost var s, apart := input[..inputLen], input != output;
    ghost var ps: seq<Pair> := [];
    ghost var result := if apart then ([], 0) else InPlace(output[..], inputLen, maxLen, 1, 0, 1, lastByte);
    assert s[0..] == s && [] + Pairs(s) == Pairs(s);
    NewRun(s, ps, 0);
    NothingPlaced(output[..]);
    NothingReached(maxLen);
    var i := 1;
    while i < inputLen
      invariant 1 <= i <= inputLen && !overflow && 1 <= count <= MAX_COUNT && 0 <= index < 256
      invariant apart ==> Progress(s, ps, i, count, lastByte) && Placed(output[..], ps) && Reached(|ps|, maxLen, index)
      invariant !apart ==> result == InPlace(output[..], inputLen, maxLen, i, index, count, lastByte)
      invariant forall j :: maxLen <= j < output.Length ==> output[j] == old(output[j])
    {
      if lastByte == input[i] && count < 255 {
        if apart { SameRun(s, ps, i, count, lastByte); }
        count := count + 1;
      } else {
        if apart { Flush(s, ps, i, count, lastByte); }
        if index + 1 >= maxLen {
          overflow := true;
          break;
        }
        ghost var before := output[..];
        WritePair(output, index, lastByte, count);
        if apart { PairPlaced(before, maxLen, index, ps, count, lastByte); }
        ps := ps + [Pair(lastByte, count)];
        index := NextIndex(index);
        if apart { NewRun(s, ps, i); }
        lastByte := input[i];
        count := 1;
      }
      i := i + 1;
    }
    if !overflow {
      if apart { Flush(s, ps, i, count, lastByte); }
      if index + 1 >= maxLen {
        overflow := true;
      } else {
        ghost var before := output[..];
        WritePair(output, index, lastByte, count);
        if apart { PairPlaced(before, maxLen, index, ps, count, lastByte); }
        ps := ps + [Pair(lastByte, count)];
        index := NextIndex(index);
      }
    }
    if overflow {
      if apart {
        NoRoom(|Pairs(s)|, |ps|, maxLen, index);
        DecodeNothing();
        assert output[..0] == [];
      }
      return 0;
    }
    if apart { AllPlaced(s, output[..], ps, maxLen, index); }
    return index;
  }
}
