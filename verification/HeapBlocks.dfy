/** The block list of the first-fit allocator as a value: the sequence of blocks that the
    `next` pointers visit, and what `my_malloc` and `my_free` do to it. */
module HeapBlocks {
  import opened MachineInts

  const HEAP_SIZE := 4096
  const HEADER_SIZE := 24
  const NIL := -1

  /** One block: where its header starts, how many payload bytes follow, whether it is free. */
  datatype Block = Block(off: int, size: int, free: bool)
  {
    function Payload(): int { off + HEADER_SIZE }
    function End(): int { off + HEADER_SIZE + size }
    predicate Placed() { 0 <= off && off % 8 == 0 && 0 <= size && size % 8 == 0 }
  }

  /** The blocks follow each other from 0 to the end of the arena without a gap. */
  ghost predicate Tiled(bs: seq<Block>) {
    && |bs| > 0
    && bs[0].off == 0
    && bs[|bs| - 1].End() == HEAP_SIZE
    && (forall i :: 0 <= i < |bs| ==> bs[i].Placed())
    && (forall i, j :: 0 <= i < |bs| && 0 <= j < |bs| && j == i + 1 ==> bs[j].off == bs[i].End())
  }

  /** No two neighbours are both free. */
  ghost predicate Coalesced(bs: seq<Block>) {
    forall i, j :: 0 <= i < |bs| && 0 <= j < |bs| && j == i + 1 ==> !(bs[i].free && bs[j].free)
  }

  ghost predicate Inv(bs: seq<Block>) {
    Tiled(bs) && Coalesced(bs)
  }

  ghost predicate LiveBlock(bs: seq<Block>, b: Block) {
    b in bs && !b.free
  }

  /** `p` is the payload address of a block in use. */
  ghost predicate LivePointer(bs: seq<Block>, p: int) {
    exists b :: LiveBlock(bs, b) && b.Payload() == p
  }

  // ---------------------------------------------------------------- the two operations

  const INITIAL: seq<Block> := [Block(0, HEAP_SIZE - HEADER_SIZE, true)]

  /** `(size + 7) & ~7` in 64-bit arithmetic. */
  function Aligned(size: int): int { Wrap64(size + 7) / 8 * 8 }

  predicate Fits(b: Block, size: int) { b.free && b.size >= size }

  /** Index of the first block that fits, or |bs|. */
  function FirstFit(bs: seq<Block>, size: int): (k: nat)
    ensures k <= |bs|
    ensures k < |bs| ==> Fits(bs[k], size)
    ensures forall i :: 0 <= i < k ==> !Fits(bs[i], size)
  {
    if bs == [] || Fits(bs[0], size) then 0 else 1 + FirstFit(bs[1..], size)
  }

  /** Block `k` taken with `a` payload bytes, the rest of it left as a free block behind. */
  function Split(bs: seq<Block>, k: nat, a: int): (r: seq<Block>)
    requires k < |bs|
    ensures |r| == |bs| + 1
    ensures forall i :: 0 <= i < k ==> r[i] == bs[i]
    ensures forall i :: k + 1 < i < |r| ==> r[i] == bs[i - 1]
  {
    var b := bs[k];
    bs[..k] + [Block(b.off, a, false), Block(b.Payload() + a, b.size - a - HEADER_SIZE, true)] + bs[k + 1..]
  }

  /** Block `k` taken, split when more than 16 payload bytes would remain behind a new header. */
  function Take(bs: seq<Block>, k: nat, size: int): seq<Block>
    requires k < |bs|
  {
    var leftover := Wrap64(bs[k].size - Aligned(size));
    if leftover > HEADER_SIZE + 16 then Split(bs, k, Aligned(size)) else bs[k := bs[k].(free := false)]
  }

  /** The list after `my_malloc(size)` and the pointer it returns. */
  function Malloc(bs: seq<Block>, size: int): (seq<Block>, int) {
    var k := FirstFit(bs, size);
    if k == |bs| then (bs, NIL) else (Take(bs, k, size), bs[k].Payload())
  }

  /** Index of the block whose payload starts at `p`, or |bs|. */
  function IndexOf(bs: seq<Block>, p: int): (k: nat)
    ensures k <= |bs|
    ensures k < |bs| ==> bs[k].Payload() == p
    ensures forall i :: 0 <= i < k ==> bs[i].Payload() != p
  {
    if bs == [] || bs[0].Payload() == p then 0 else 1 + IndexOf(bs[1..], p)
  }

  /** Blocks `k` and `k + 1` as one free block. */
  function Join(bs: seq<Block>, k: nat): (r: seq<Block>)
    requires k + 1 < |bs|
    ensures |r| == |bs| - 1
    ensures forall i :: 0 <= i < k ==> r[i] == bs[i]
    ensures forall i :: k < i < |r| ==> r[i] == bs[i + 1]
  {
    bs[..k] + [Block(bs[k].off, bs[k].size + HEADER_SIZE + bs[k + 1].size, true)] + bs[k + 2..]
  }

  function JoinNext(bs: seq<Block>, k: nat): (r: seq<Block>)
    requires k < |bs|
    ensures k < |r|
  {
    var bs1 := bs[k := bs[k].(free := true)];
    if k + 1 < |bs| && bs[k + 1].free then Join(bs1, k) else bs1
  }

  lemma JoinNextCases(bs: seq<Block>, k: nat)
    requires k < |bs|
    ensures var bs1 := bs[k := bs[k].(free := true)];
            JoinNext(bs, k) == if k + 1 < |bs| && bs[k + 1].free then Join(bs1, k) else bs1
  {
  }

  function JoinPrevious(bs: seq<Block>, k: nat): seq<Block>
    requires k < |bs|
  {
    if k > 0 && bs[k - 1].free then Join(bs, k - 1) else bs
  }

  /** The list after `my_free` of block `k`: joined with its successor, then with its predecessor. */
  function Release(bs: seq<Block>, k: nat): seq<Block>
    requires k < |bs|
  {
    JoinPrevious(JoinNext(bs, k), k)
  }

  /** The list after `my_free(p)` for NULL or a live pointer. */
  function Free(bs: seq<Block>, p: int): seq<Block>
    requires p == NIL || LivePointer(bs, p)
  {
    if p == NIL then bs else FoundByPointer(bs, p); Release(bs, IndexOf(bs, p))
  }

  lemma FoundByPointer(bs: seq<Block>, p: int)
    requires LivePointer(bs, p)
    ensures IndexOf(bs, p) < |bs|
  {
  }

  // ---------------------------------------------------------------- layout

  /** Blocks lie in address order, each wholly before the later ones and inside the arena. */
  lemma {:induction false} Ordered(bs: seq<Block>, i: nat, j: nat)
    requires Tiled(bs) && i <= j < |bs|
    ensures i < j ==> bs[i].End() <= bs[j].off
    ensures bs[j].End() <= HEAP_SIZE
    decreases |bs| - i
  {
    if i < j { Ordered(bs, i + 1, j); }
    else if j + 1 < |bs| { Ordered(bs, i + 1, j + 1); }
  }

  lemma OrderedAll(bs: seq<Block>)
    requires Tiled(bs)
    ensures forall i, j :: 0 <= i < j < |bs| ==> bs[i].End() <= bs[j].off
    ensures forall i :: 0 <= i < |bs| ==> bs[i].End() <= HEAP_SIZE
  {
    forall i, j | 0 <= i <= j < |bs|
      ensures i < j ==> bs[i].End() <= bs[j].off
      ensures bs[j].End() <= HEAP_SIZE
    {
      Ordered(bs, i, j);
    }
  }

  function TotalBytes(bs: seq<Block>): int {
    if bs == [] then 0 else TotalBytes(bs[..|bs| - 1]) + HEADER_SIZE + bs[|bs| - 1].size
  }

  lemma {:induction false} PrefixBytes(bs: seq<Block>, n: nat)
    requires Tiled(bs) && 0 < n <= |bs|
    ensures TotalBytes(bs[..n]) == bs[n - 1].End()
  {
    assert bs[..n][..n - 1] == bs[..n - 1];
    if n == 1 {
    } else {
      PrefixBytes(bs, n - 1);
    }
  }

  /** Headers and payloads account for every byte of the arena. */
  lemma NothingLost(bs: seq<Block>)
    requires Tiled(bs)
    ensures TotalBytes(bs) == HEAP_SIZE
  {
    PrefixBytes(bs, |bs|);
    assert bs[..|bs|] == bs;
  }

  lemma PayloadPlaced(b: Block)
    requires b.Placed()
    ensures 0 <= b.off && 0 <= b.size && b.Payload() % 8 == 0
  {
  }

  /** Two live payloads never share a byte, stay clear of every header, and start 8-aligned. */
  lemma LivePayloadsDisjoint(bs: seq<Block>, a: Block, b: Block)
    requires Tiled(bs) && LiveBlock(bs, a) && b in bs && a != b
    ensures a.Payload() % 8 == 0 && 0 <= a.Payload() && a.End() <= HEAP_SIZE
    ensures a.End() <= b.off || b.End() <= a.off
    ensures a.Payload() != b.Payload()
  {
    hide Block.Placed;
    OrderedAll(bs);
    PayloadPlaced(a);
    PayloadPlaced(b);
  }

  lemma LiveIndex(bs: seq<Block>, p: int)
    requires Tiled(bs) && LivePointer(bs, p)
    ensures var k := IndexOf(bs, p); k < |bs| && bs[k].Payload() == p && !bs[k].free
  {
    OrderedAll(bs);
  }

  // ---------------------------------------------------------------- what my_malloc grants

  /** The 64-bit roundings never wrap for a request that passed the fit test: the rounded size
      is still within the block although the test used the unrounded one. */
  lemma RoundedStillFits(b: Block, size: nat)
    requires b.Placed() && b.size < HEAP_SIZE && b.size >= size
    ensures Aligned(size) % 8 == 0 && size <= Aligned(size) <= size + 7
    ensures Wrap64(b.size - Aligned(size)) == b.size - Aligned(size) >= 0
  {
    RoundedUp(size, b.size / 8);
  }

  lemma RoundedUp(size: nat, n: nat)
    requires size <= 8 * n < HEAP_SIZE
    ensures Aligned(size) % 8 == 0 && size <= Aligned(size) <= size + 7 && Aligned(size) <= 8 * n
  {
    var q := (size + 7) / 8;
    assert Wrap64(size + 7) == size + 7;
    assert Aligned(size) == 8 * q;
  }

  /** NULL exactly when nothing fits; otherwise the lowest-addressed block that fits. */
  lemma MallocIsFirstFit(bs: seq<Block>, size: nat)
    requires Tiled(bs)
    ensures var (bs', p) := Malloc(bs, size);
            && (p == NIL <==> forall b :: b in bs ==> !(b.free && b.size >= size))
            && (p == NIL ==> bs' == bs)
            && (p != NIL ==> exists b :: b in bs && b.free && b.size >= size && b.off + 24 == p
                                         && (forall c :: c in bs && c.free && c.size >= size ==> b.off <= c.off))
  {
    var k := FirstFit(bs, size);
    if k < |bs| {
      assert bs[k] in bs && bs[k].Placed();
      forall c | c in bs && c.free && c.size >= size ensures bs[k].off <= c.off {
        var i :| 0 <= i < |bs| && bs[i] == c;
        Ordered(bs, k, i);
      }
    }
  }

  // ---------------------------------------------------------------- the invariant

  lemma SplitPlaced(b: Block, a: int)
    requires b.Placed() && 0 <= a && a % 8 == 0 && a + HEADER_SIZE <= b.size
    ensures Block(b.off, a, false).Placed() && Block(b.Payload() + a, b.size - a - HEADER_SIZE, true).Placed()
  {
    assert b.Payload() + a == 8 * (b.off / 8 + 3 + a / 8);
    assert b.size - a - HEADER_SIZE == 8 * (b.size / 8 - a / 8 - 3);
  }

  lemma SplitKeepsInv(bs: seq<Block>, k: nat, a: int)
    requires Inv(bs) && k < |bs| && bs[k].free
    requires 0 <= a && a % 8 == 0 && a + HEADER_SIZE <= bs[k].size
    ensures Inv(Split(bs, k, a))
  {
    hide Block.Placed;
    var r := Split(bs, k, a);
    SplitPlaced(bs[k], a);
    assert r[k] == Block(bs[k].off, a, false);
    assert r[k + 1] == Block(bs[k].Payload() + a, bs[k].size - a - HEADER_SIZE, true);
    forall i | 0 <= i < |r| ensures r[i].Placed() {
      if i < k { assert r[i] == bs[i]; } else if i > k + 1 { assert r[i] == bs[i - 1]; }
    }
    forall i, j | 0 <= i < |r| && 0 <= j < |r| && j == i + 1
      ensures r[j].off == r[i].End() && !(r[i].free && r[j].free)
    {
      if j < k { assert r[j] == bs[j]; }
      else if j == k { assert r[i] == bs[i]; }
      else if i == k + 1 { assert r[j] == bs[i]; }
      else if i > k + 1 { assert r[j] == bs[i]; }
    }
  }

  /** Changing the free flag moves nothing, and clearing it cannot create free neighbours. */
  lemma MarkKeeps(bs: seq<Block>, k: nat, free: bool)
    requires Tiled(bs) && k < |bs|
    ensures Tiled(bs[k := bs[k].(free := free)])
    ensures Coalesced(bs) && !free ==> Coalesced(bs[k := bs[k].(free := free)])
  {
  }

  /** Without the 64-bit wrapping: what `my_malloc` does to the block it picked. */
  lemma TakeCases(bs: seq<Block>, k: nat, size: nat)
    requires Tiled(bs) && k < |bs| && Fits(bs[k], size)
    ensures size <= Aligned(size) <= size + 7 && Aligned(size) % 8 == 0 && Aligned(size) <= bs[k].size
    ensures Take(bs, k, size) == if bs[k].size - Aligned(size) > HEADER_SIZE + 16
                                 then Split(bs, k, Aligned(size)) else bs[k := bs[k].(free := false)]
  {
    hide Aligned, Wrap64, Block.Placed;
    var b := bs[k];
    Ordered(bs, k, k);
    PayloadPlaced(b);
    RoundedStillFits(b, size);
  }

  lemma TakenBlock(bs: seq<Block>, k: nat, size: nat)
    requires Tiled(bs) && k < |bs| && Fits(bs[k], size)
    ensures var bs' := Take(bs, k, size);
            k < |bs'| && LiveBlock(bs', bs'[k]) && bs'[k].off == bs[k].off && size <= bs'[k].size <= size + 47
  {
    hide Aligned, Wrap64, Take;
    TakeCases(bs, k, size);
    assert bs[k].Placed();
    assert Take(bs, k, size)[k] in Take(bs, k, size);
  }

  lemma TakeKeepsInv(bs: seq<Block>, k: nat, size: nat)
    requires Inv(bs) && k < |bs| && Fits(bs[k], size)
    ensures Inv(Take(bs, k, size))
  {
    TakeCases(bs, k, size);
    if bs[k].size - Aligned(size) > HEADER_SIZE + 16 {
      SplitKeepsInv(bs, k, Aligned(size));
    } else {
      MarkKeeps(bs, k, false);
    }
  }

  lemma JoinPlaced(a: Block, b: Block)
    requires a.Placed() && b.Placed()
    ensures Block(a.off, a.size + HEADER_SIZE + b.size, true).Placed()
  {
    assert a.size + HEADER_SIZE + b.size == 8 * (a.size / 8 + 3 + b.size / 8);
  }

  lemma JoinKeepsTiled(bs: seq<Block>, k: nat)
    requires Tiled(bs) && k + 1 < |bs|
    ensures Tiled(Join(bs, k))
  {
    hide Block.Placed;
    var r := Join(bs, k);
    assert r[k] == Block(bs[k].off, bs[k].size + HEADER_SIZE + bs[k + 1].size, true);
    JoinPlaced(bs[k], bs[k + 1]);
    forall i | 0 <= i < |r| ensures r[i].Placed() {
      if i < k { assert r[i] == bs[i]; } else if i > k { assert r[i] == bs[i + 1]; }
    }
    forall i, j | 0 <= i < |r| && 0 <= j < |r| && j == i + 1 ensures r[j].off == r[i].End() {
      if j <= k { assert r[i] == bs[i]; } else { assert r[j] == bs[j + 1]; }
    }
  }

  /** Freeing block `k` can only make it and its neighbours a free pair. */
  lemma MarkFreesOne(bs: seq<Block>, k: nat)
    requires Coalesced(bs) && k < |bs|
    ensures var r := bs[k := bs[k].(free := true)];
            forall i, j :: 0 <= i < |r| && 0 <= j < |r| && j == i + 1 && i != k && j != k ==> !(r[i].free && r[j].free)
    ensures k + 1 < |bs| && bs[k + 1].free && k + 2 < |bs| ==> !bs[k + 2].free
  {
  }

  /** The block behind the joined pair is in use, so joining leaves at most the pair before it. */
  lemma JoinFreesOne(bs: seq<Block>, k: nat)
    requires k + 1 < |bs| && (k + 2 < |bs| ==> !bs[k + 2].free)
    requires forall i, j :: 0 <= i < |bs| && 0 <= j < |bs| && j == i + 1 && i != k && j != k ==>
               !(bs[i].free && bs[j].free)
    ensures var r := Join(bs, k);
            forall i, j :: 0 <= i < |r| && 0 <= j < |r| && j == i + 1 && j != k ==> !(r[i].free && r[j].free)
  {
    var r := Join(bs, k);
    forall i, j | 0 <= i < |r| && 0 <= j < |r| && j == i + 1 && j != k ensures !(r[i].free && r[j].free) {
      if i < k { assert r[i] == bs[i] && r[j] == bs[j]; } else { assert r[j] == bs[j + 1]; }
    }
  }

  /** After joining with the successor the only possible free neighbours are `k - 1` and `k`. */
  lemma JoinNextKeeps(bs: seq<Block>, k: nat)
    requires Inv(bs) && k < |bs| && !bs[k].free
    ensures var r := JoinNext(bs, k);
            && Tiled(r)
            && r[k].free && r[k].off == bs[k].off
            && (forall i :: 0 <= i < k ==> r[i] == bs[i])
            && (forall i, j :: 0 <= i < |r| && 0 <= j < |r| && j == i + 1 && j != k ==> !(r[i].free && r[j].free))
  {
    hide Tiled, Coalesced;
    var bs1 := bs[k := bs[k].(free := true)];
    MarkKeeps(bs, k, true);
    MarkFreesOne(bs, k);
    if k + 1 < |bs| && bs[k + 1].free {
      JoinKeepsTiled(bs1, k);
      JoinFreesOne(bs1, k);
    }
  }

  /** Joining with the predecessor removes that last pair. */
  lemma JoinPreviousKeeps(bs: seq<Block>, k: nat)
    requires Tiled(bs) && k < |bs| && bs[k].free
    requires forall i, j :: 0 <= i < |bs| && 0 <= j < |bs| && j == i + 1 && j != k ==> !(bs[i].free && bs[j].free)
    ensures Inv(JoinPrevious(bs, k))
  {
    hide Tiled;
    if k > 0 && bs[k - 1].free {
      JoinKeepsTiled(bs, k - 1);
      var r := Join(bs, k - 1);
      forall i, j | 0 <= i < |r| && 0 <= j < |r| && j == i + 1 ensures !(r[i].free && r[j].free) {
        if j < k { assert r[i] == bs[i]; } else { assert r[j] == bs[j + 1]; }
      }
    }
  }

  lemma ReleaseKeepsInv(bs: seq<Block>, k: nat)
    requires Inv(bs) && k < |bs| && !bs[k].free
    ensures Inv(Release(bs, k))
  {
    hide Inv, JoinNext, JoinPrevious, Tiled;
    JoinNextKeeps(bs, k);
    JoinPreviousKeeps(JoinNext(bs, k), k);
  }

  // ---------------------------------------------------------------- live blocks

  /** The pointer returned is a live block of at least the request and at most 47 bytes more. */
  lemma MallocGrants(bs: seq<Block>, size: nat)
    requires Tiled(bs)
    ensures var (bs', p) := Malloc(bs, size);
            p != NIL ==> exists b :: LiveBlock(bs', b) && b.Payload() == p && size <= b.size <= size + 47
  {
    hide Aligned, Wrap64, Take;
    if FirstFit(bs, size) < |bs| { TakenBlock(bs, FirstFit(bs, size), size); }
  }

  lemma SplitAddsOneLiveBlock(bs: seq<Block>, k: nat, a: int, b: Block)
    requires k < |bs| && bs[k].free
    ensures LiveBlock(Split(bs, k, a), b) <==> LiveBlock(bs, b) || b == Split(bs, k, a)[k]
  {
    var r := Split(bs, k, a);
    if LiveBlock(r, b) && b != r[k] {
      var i :| 0 <= i < |r| && r[i] == b;
      assert b == bs[if i < k then i else i - 1];
    }
    if LiveBlock(bs, b) {
      var i :| 0 <= i < |bs| && bs[i] == b;
      assert b == r[if i < k then i else i + 1];
    }
    assert r[k] in r;
  }

  lemma MarkAddsOneLiveBlock(bs: seq<Block>, k: nat, b: Block)
    requires k < |bs| && bs[k].free
    ensures LiveBlock(bs[k := bs[k].(free := false)], b) <==> LiveBlock(bs, b) || b == bs[k].(free := false)
  {
    var r := bs[k := bs[k].(free := false)];
    if LiveBlock(bs, b) {
      var i :| 0 <= i < |bs| && bs[i] == b;
      assert b == r[i];
    }
    assert r[k] in r;
  }

  /** `my_malloc` adds exactly the block it returns to the live blocks. */
  lemma TakeAddsOneLiveBlock(bs: seq<Block>, k: nat, size: nat, b: Block)
    requires Inv(bs) && k < |bs| && Fits(bs[k], size)
    ensures var bs' := Take(bs, k, size);
            LiveBlock(bs', b) <==> LiveBlock(bs, b) || b == bs'[k]
  {
    hide Aligned, Wrap64, Take, LiveBlock, Split;
    TakeCases(bs, k, size);
    SplitAddsOneLiveBlock(bs, k, Aligned(size), b);
    MarkAddsOneLiveBlock(bs, k, b);
  }

  lemma JoinKeepsLiveBlocks(bs: seq<Block>, k: nat, b: Block)
    requires k + 1 < |bs| && bs[k].free && bs[k + 1].free
    ensures LiveBlock(Join(bs, k), b) <==> LiveBlock(bs, b)
  {
  }

  lemma MarkDropsOneLiveBlock(bs: seq<Block>, k: nat, b: Block)
    requires Inv(bs) && k < |bs| && !bs[k].free
    ensures LiveBlock(bs[k := bs[k].(free := true)], b) <==> LiveBlock(bs, b) && b != bs[k]
  {
    hide Block.Placed;
    var bs1 := bs[k := bs[k].(free := true)];
    OrderedAll(bs);
    assert bs[k].Placed();
    if LiveBlock(bs1, b) {
      var i :| 0 <= i < |bs1| && bs1[i] == b;
      PayloadPlaced(bs[i]);
      PayloadPlaced(bs[k]);
    }
    if LiveBlock(bs, b) && b != bs[k] {
      var i :| 0 <= i < |bs| && bs[i] == b;
      assert b == bs1[i];
    }
  }

  /** `my_free` removes exactly the freed block from the live blocks. */
  lemma ReleaseDropsOneLiveBlock(bs: seq<Block>, k: nat, b: Block)
    requires Inv(bs) && k < |bs| && !bs[k].free
    ensures LiveBlock(Release(bs, k), b) <==> LiveBlock(bs, b) && b != bs[k]
  {
    hide Inv, Tiled, LiveBlock, Join;
    var bs1 := bs[k := bs[k].(free := true)];
    MarkDropsOneLiveBlock(bs, k, b);
    if k + 1 < |bs| && bs[k + 1].free { JoinKeepsLiveBlocks(bs1, k, b); }
    JoinNextKeeps(bs, k);
    var r := JoinNext(bs, k);
    if k > 0 && r[k - 1].free { JoinKeepsLiveBlocks(r, k - 1, b); }
  }

  /** What `my_malloc` does to the block `c` it picks, `a` being the request rounded up to a multiple of 8: with
      more than 40 bytes left over exactly `a` bytes are granted, otherwise the whole block, and nothing else
      becomes or ceases to be live. */
  lemma MallocGrantsExactly(bs: seq<Block>, size: nat, c: Block, a: nat, b: Block)
    requires Inv(bs) && Malloc(bs, size).1 != NIL && c in bs && c.off + 24 == Malloc(bs, size).1
    requires a % 8 == 0 && size <= a < size + 8
    ensures LiveBlock(Malloc(bs, size).0, b)
            <==> LiveBlock(bs, b) || b == Block(c.off, if c.size - a > 40 then a else c.size, false)
  {
    hide Aligned, Wrap64, Take, LiveBlock, Inv;
    var k := FirstFit(bs, size);
    InvIsTiled(bs);
    SamePayloadSameBlock(bs, c, bs[k]);
    TakeCases(bs, k, size);
    SameRounding(size, a, Aligned(size));
    TakeAddsOneLiveBlock(bs, k, size, b);
  }

  lemma InvIsTiled(bs: seq<Block>)
    ensures Inv(bs) ==> Tiled(bs)
  {
  }

  lemma SameRounding(size: nat, a: nat, a': nat)
    requires a % 8 == 0 && size <= a < size + 8 && a' % 8 == 0 && size <= a' < size + 8
    ensures a == a'
  {
    assert a == 8 * (a / 8) && a' == 8 * (a' / 8);
  }

  lemma SamePayloadSameBlock(bs: seq<Block>, a: Block, b: Block)
    requires Tiled(bs) && a in bs && b in bs && a.Payload() == b.Payload()
    ensures a == b
  {
    OrderedAll(bs);
  }

  lemma FreeDropsOnePointer(bs: seq<Block>, p: int, q: int)
    requires Inv(bs) && LivePointer(bs, p)
    ensures LivePointer(Free(bs, p), q) <==> LivePointer(bs, q) && q != p
  {
    LiveIndex(bs, p);
    var k := IndexOf(bs, p);
    forall b { ReleaseDropsOneLiveBlock(bs, k, b); }
    if b :| LiveBlock(bs, b) && b.Payload() == q && q != p {
      assert LiveBlock(Free(bs, p), b);
    }
    if b :| LiveBlock(Free(bs, p), b) && b.Payload() == q && q == p {
      SamePayloadSameBlock(bs, b, bs[k]);
    }
  }

  // ---------------------------------------------------------------- the list is determined

  /** A block both lists begin at the same place is the same in both when it is in use. */
  lemma SameLiveBlock(bs: seq<Block>, cs: seq<Block>, i: nat)
    requires Tiled(cs) && i < |bs| && i < |cs| && bs[i].off == cs[i].off
    requires LiveBlock(bs, bs[i]) && LiveBlock(cs, bs[i])
    ensures bs[i] == cs[i]
  {
    OrderedAll(cs);
    var j :| 0 <= j < |cs| && cs[j] == bs[i];
    assert cs[i].Placed() && cs[j].Placed();
  }

  /** A free block reaches as far as it can: to the next block in use, or to the end. */
  lemma ReachesAsFar(bs: seq<Block>, cs: seq<Block>, i: nat)
    requires Inv(bs) && Tiled(cs) && i < |bs| && i < |cs| && bs[i].off == cs[i].off && bs[i].free
    requires forall b :: LiveBlock(bs, b) ==> LiveBlock(cs, b)
    ensures bs[i].size >= cs[i].size || !cs[i].free
  {
    OrderedAll(cs);
    if i + 1 < |bs| && bs[i].size < cs[i].size {
      assert LiveBlock(bs, bs[i + 1]) && bs[i].Placed();
      var j :| 0 <= j < |cs| && cs[j] == bs[i + 1];
      assert cs[j].Placed() && cs[i].Placed();
    }
  }

  lemma {:induction false} SamePrefix(bs: seq<Block>, cs: seq<Block>, i: nat)
    requires Inv(bs) && Inv(cs) && i <= |bs| && i <= |cs|
    requires forall b :: LiveBlock(bs, b) <==> LiveBlock(cs, b)
    ensures bs[..i] == cs[..i]
    decreases i
  {
    hide Block.Placed;
    if i == 0 {
    } else {
      var k := i - 1;
      SamePrefix(bs, cs, k);
      assert bs[..i] == bs[..k] + [bs[k]] && cs[..i] == cs[..k] + [cs[k]];
      if k > 0 { assert bs[k - 1] == bs[..k][k - 1] && cs[k - 1] == cs[..k][k - 1]; }
      assert bs[k].off == cs[k].off;
      if !bs[k].free {
        assert LiveBlock(bs, bs[k]);
        SameLiveBlock(bs, cs, k);
      } else if !cs[k].free {
        assert LiveBlock(cs, cs[k]);
        SameLiveBlock(cs, bs, k);
      } else {
        ReachesAsFar(bs, cs, k);
        ReachesAsFar(cs, bs, k);
      }
    }
  }

  /** The blocks in use determine the whole list: where the free blocks are and how far they reach. */
  lemma LiveBlocksDetermineList(bs: seq<Block>, cs: seq<Block>)
    requires Inv(bs) && Inv(cs)
    requires forall b :: LiveBlock(bs, b) <==> LiveBlock(cs, b)
    ensures bs == cs
  {
    if |bs| <= |cs| { Longest(bs, cs); } else { Longest(cs, bs); }
  }

  lemma Longest(bs: seq<Block>, cs: seq<Block>)
    requires Inv(bs) && Inv(cs) && |bs| <= |cs|
    requires forall b :: LiveBlock(bs, b) <==> LiveBlock(cs, b)
    ensures bs == cs
  {
    var n := |bs|;
    SamePrefix(bs, cs, n);
    assert cs[n - 1] == cs[..n][n - 1];
    if n < |cs| {
      PayloadPlaced(cs[n]);
      Ordered(cs, n, n);
    }
  }

  // ---------------------------------------------------------------- undoing

  lemma ReleaseUndoesSplit(bs: seq<Block>, k: nat, a: int)
    requires Coalesced(bs) && k < |bs| && bs[k].free
    ensures Release(Split(bs, k, a), k) == bs
  {
    var r := Split(bs, k, a);
    assert r[k] == Block(bs[k].off, a, false);
    assert r[k + 1] == Block(bs[k].Payload() + a, bs[k].size - a - HEADER_SIZE, true);
    assert JoinNext(r, k) == bs;
  }

  lemma ReleaseUndoesMark(bs: seq<Block>, k: nat)
    requires Coalesced(bs) && k < |bs| && bs[k].free
    ensures Release(bs[k := bs[k].(free := false)], k) == bs
  {
    assert k + 1 < |bs| ==> !bs[k + 1].free;
    assert JoinNext(bs[k := bs[k].(free := false)], k) == bs;
  }

  lemma ReleaseUndoesTake(bs: seq<Block>, k: nat, size: nat)
    requires Inv(bs) && k < |bs| && Fits(bs[k], size)
    ensures Release(Take(bs, k, size), k) == bs
  {
    hide Aligned, Wrap64, Take, Split, Release, Tiled, Coalesced;
    TakeCases(bs, k, size);
    ReleaseUndoesSplit(bs, k, Aligned(size));
    ReleaseUndoesMark(bs, k);
  }

  /** Freeing what a successful `my_malloc` just returned restores the list exactly. */
  lemma FreeUndoesMalloc(bs: seq<Block>, size: nat)
    requires Inv(bs) && Malloc(bs, size).1 != NIL
    ensures LivePointer(Malloc(bs, size).0, Malloc(bs, size).1)
    ensures Free(Malloc(bs, size).0, Malloc(bs, size).1) == bs
  {
    hide Aligned, Wrap64, Take, Release;
    var k := FirstFit(bs, size);
    var (bs', p) := Malloc(bs, size);
    TakeKeepsInv(bs, k, size);
    TakenBlock(bs, k, size);
    LiveIndex(bs', p);
    var i := IndexOf(bs', p);
    Ordered(bs', if i < k then i else k, if i < k then k else i);
    ReleaseUndoesTake(bs, k, size);
  }

  /** A list with nothing live is the one `heap_init` made. */
  lemma InitialOrLive(bs: seq<Block>)
    requires Inv(bs)
    ensures bs == INITIAL || exists p :: LivePointer(bs, p)
  {
    var i := if |bs| > 1 && bs[0].free then 1 else 0;
    if !bs[i].free {
      assert LiveBlock(bs, bs[i]);
      assert LivePointer(bs, bs[i].Payload());
    }
  }

  ghost predicate FreeableInOrder(bs: seq<Block>, ps: seq<int>)
    decreases |ps|
  {
    ps == [] || (LivePointer(bs, ps[0]) && FreeableInOrder(Free(bs, ps[0]), ps[1..]))
  }

  ghost function FreeEach(bs: seq<Block>, ps: seq<int>): seq<Block>
    requires FreeableInOrder(bs, ps)
    decreases |ps|
  {
    if ps == [] then bs else FreeEach(Free(bs, ps[0]), ps[1..])
  }

  lemma FreeKeepsInv(bs: seq<Block>, p: int)
    requires Inv(bs) && (p == NIL || LivePointer(bs, p))
    ensures Inv(Free(bs, p))
  {
    if p != NIL {
      LiveIndex(bs, p);
      ReleaseKeepsInv(bs, IndexOf(bs, p));
    }
  }

  /** Freeing every live pointer once, in any order, gives back the single block of `heap_init`. */
  lemma {:induction false} FreeingAllRestoresInitial(bs: seq<Block>, ps: seq<int>)
    requires Inv(bs)
    requires forall i, j :: 0 <= i < j < |ps| ==> ps[i] != ps[j]
    requires forall p :: LivePointer(bs, p) <==> p in ps
    ensures FreeableInOrder(bs, ps) && FreeEach(bs, ps) == INITIAL
    decreases |ps|
  {
    if ps == [] {
      InitialOrLive(bs);
    } else {
      assert ps[0] in ps;
      FreeKeepsInv(bs, ps[0]);
      forall p ensures LivePointer(Free(bs, ps[0]), p) <==> p in ps[1..] {
        FreeDropsOnePointer(bs, ps[0], p);
        assert p in ps <==> p == ps[0] || p in ps[1..];
      }
      FreeingAllRestoresInitial(Free(bs, ps[0]), ps[1..]);
    }
  }

  // ---------------------------------------------------------------- whole runs

  /** One call by the program, or a store by it into memory it was given. */
  datatype Call =
    | Allocate(size: nat)
    | Deallocate(ptr: int)
    | StoreWord(at: int, word: int)

  /** `at` is an aligned word inside the payload of `b`. */
  predicate InPayload(b: Block, at: int) {
    at % 8 == 0 && b.Payload() <= at < b.End()
  }

  /** The words of a payload: all of them from behind the header to the next block. */
  lemma PayloadWords(bs: seq<Block>, i: nat, at: int)
    requires Tiled(bs) && i < |bs|
    ensures InPayload(bs[i], at)
            <==> at % 8 == 0 && bs[i].off + 24 <= at < (if i + 1 < |bs| then bs[i + 1].off else 4096)
  {
  }

  ghost predicate Legal(bs: seq<Block>, c: Call) {
    match c
    case Allocate(size) => true
    case Deallocate(p) => p == NIL || LivePointer(bs, p)
    case StoreWord(at, _) => exists b :: LiveBlock(bs, b) && InPayload(b, at)
  }

  ghost function After(bs: seq<Block>, c: Call): seq<Block>
    requires Legal(bs, c)
  {
    match c
    case Allocate(size) => Malloc(bs, size).0
    case Deallocate(p) => Free(bs, p)
    case StoreWord(_, _) => bs
  }

  ghost predicate LegalRun(bs: seq<Block>, cs: seq<Call>)
    decreases |cs|
  {
    cs == [] || (Legal(bs, cs[0]) && LegalRun(After(bs, cs[0]), cs[1..]))
  }

  ghost function Run(bs: seq<Block>, cs: seq<Call>): seq<Block>
    requires LegalRun(bs, cs)
    decreases |cs|
  {
    if cs == [] then bs else Run(After(bs, cs[0]), cs[1..])
  }

  lemma CallKeepsInv(bs: seq<Block>, c: Call)
    requires Inv(bs) && Legal(bs, c)
    ensures Inv(After(bs, c))
  {
    match c
    case Allocate(size) =>
      if FirstFit(bs, size) < |bs| { TakeKeepsInv(bs, FirstFit(bs, size), size); }
    case Deallocate(p) => FreeKeepsInv(bs, p);
    case StoreWord(_, _) =>
  }

  /** What each call does to the blocks in use; together with the invariant this determines the list. */
  lemma LiveAfter(bs: seq<Block>, c: Call, b: Block)
    requires Inv(bs) && Legal(bs, c)
    ensures c.StoreWord? || (c.Allocate? && Malloc(bs, c.size).1 == NIL) ==> After(bs, c) == bs
    ensures c.Deallocate? && c.ptr == NIL ==> After(bs, c) == bs
    ensures c.Deallocate? ==> (LiveBlock(After(bs, c), b) <==> LiveBlock(bs, b) && b.off + 24 != c.ptr)
  {
    if c.Deallocate? && c.ptr != NIL {
      LiveIndex(bs, c.ptr);
      ReleaseDropsOneLiveBlock(bs, IndexOf(bs, c.ptr), b);
      if LiveBlock(bs, b) && b.Payload() == c.ptr { SamePayloadSameBlock(bs, b, bs[IndexOf(bs, c.ptr)]); }
    } else if c.Deallocate? && LiveBlock(bs, b) {
      assert b.Placed();
    }
  }

  lemma {:induction false} RunKeepsInv(bs: seq<Block>, cs: seq<Call>)
    requires Inv(bs) && LegalRun(bs, cs)
    ensures Inv(Run(bs, cs)) && TotalBytes(Run(bs, cs)) == HEAP_SIZE
    decreases |cs|
  {
    if cs == [] {
      NothingLost(bs);
    } else {
      CallKeepsInv(bs, cs[0]);
      RunKeepsInv(After(bs, cs[0]), cs[1..]);
    }
  }

  /** After `heap_init`, every legal sequence of calls keeps the arena tiled, 8-aligned and coalesced. */
  lemma EveryRunIsSound(cs: seq<Call>)
    requires LegalRun(INITIAL, cs)
    ensures Inv(Run(INITIAL, cs)) && TotalBytes(Run(INITIAL, cs)) == 4096
    ensures INITIAL == [Block(0, 4072, true)]
  {
    RunKeepsInv(INITIAL, cs);
  }

  /** No call frees `b` or stores into it. */
  predicate LeavesAlone(c: Call, b: Block) {
    && (c.Deallocate? ==> c.ptr != b.Payload())
    && (c.StoreWord? ==> !InPayload(b, c.at))
  }

  /** A live block stays where it is, with its size, until it is freed. */
  lemma LiveBlockStays(bs: seq<Block>, c: Call, b: Block)
    requires Inv(bs) && Legal(bs, c) && LiveBlock(bs, b)
    requires c.Deallocate? ==> c.ptr != b.Payload()
    ensures LiveBlock(After(bs, c), b)
  {
    match c
    case Allocate(size) =>
      if FirstFit(bs, size) < |bs| { TakeAddsOneLiveBlock(bs, FirstFit(bs, size), size, b); }
    case Deallocate(p) =>
      if p != NIL {
        LiveIndex(bs, p);
        ReleaseDropsOneLiveBlock(bs, IndexOf(bs, p), b);
      }
    case StoreWord(_, _) =>
  }
}
