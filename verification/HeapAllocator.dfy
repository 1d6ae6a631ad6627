/** How the arena holds the block list: headers as words, and which words an operation may touch. */
module HeapMemory {
  import opened HeapBlocks

  ghost function OffsetOf(bs: seq<Block>, i: nat): int {
    if i < |bs| then bs[i].off else NIL
  }

  /** The three header words of `b`: size at its offset, then the free flag, then `next`. */
  ghost predicate Header(m: seq<int>, b: Block, next: int) {
    && 0 <= b.off && b.off + HEADER_SIZE <= |m|
    && m[b.off] == b.size
    && m[b.off + 8] == (if b.free then 1 else 0)
    && m[b.off + 16] == next
  }

  ghost predicate HeaderOf(m: seq<int>, bs: seq<Block>, i: nat)
    requires i < |bs|
  {
    Header(m, bs[i], OffsetOf(bs, i + 1))
  }

  ghost predicate Represents(m: seq<int>, bs: seq<Block>) {
    && |m| == HEAP_SIZE
    && (forall i :: 0 <= i < |bs| ==> HeaderOf(m, bs, i))
  }

  lemma HeaderAt(m: seq<int>, bs: seq<Block>, i: nat)
    requires Represents(m, bs) && i < |bs|
    ensures |m| == HEAP_SIZE && Header(m, bs[i], OffsetOf(bs, i + 1))
  {
    assert HeaderOf(m, bs, i);
  }

  /** Words outside the header at `o` are the same in both memories. */
  ghost predicate OnlyHeader(m: seq<int>, m': seq<int>, o: int) {
    && |m'| == |m|
    && (forall w :: 0 <= w < |m| && w != o && w != o + 8 && w != o + 16 ==> m'[w] == m[w])
  }

  lemma HeaderUntouched(m: seq<int>, m': seq<int>, o: int, b: Block, next: int)
    requires Header(m, b, next) && OnlyHeader(m, m', o)
    requires o + HEADER_SIZE <= b.off || b.off + HEADER_SIZE <= o
    ensures Header(m', b, next)
  {
  }

  lemma Apart(bs: seq<Block>, i: nat, j: nat)
    requires Tiled(bs) && i < |bs| && j < |bs| && i != j
    ensures bs[i].End() <= bs[j].off || bs[j].End() <= bs[i].off
    ensures bs[i].Placed() && bs[j].Placed()
  {
    if i < j { Ordered(bs, i, j); } else { Ordered(bs, j, i); }
  }

  /** Rewriting the header of block `k` only, with the same size. */
  lemma MarkRepresents(m: seq<int>, m': seq<int>, bs: seq<Block>, k: nat, free: bool)
    requires Tiled(bs) && Represents(m, bs) && k < |bs|
    requires OnlyHeader(m, m', bs[k].off)
    requires Header(m', bs[k].(free := free), OffsetOf(bs, k + 1))
    ensures Represents(m', bs[k := bs[k].(free := free)])
  {
    var r := bs[k := bs[k].(free := free)];
    forall i | 0 <= i < |r| ensures HeaderOf(m', r, i) {
      assert OffsetOf(r, i + 1) == OffsetOf(bs, i + 1);
      if i != k {
        assert HeaderOf(m, bs, i);
        Apart(bs, i, k);
        HeaderUntouched(m, m', bs[k].off, bs[i], OffsetOf(bs, i + 1));
      }
    }
  }

  /** First the new header behind `a` payload bytes (`m1`), then the header of block `k` (`m2`). */
  lemma SplitRepresents(m: seq<int>, m1: seq<int>, m2: seq<int>, bs: seq<Block>, k: nat, a: int)
    requires Tiled(bs) && Represents(m, bs) && k < |bs| && 0 <= a && a + HEADER_SIZE <= bs[k].size
    requires OnlyHeader(m, m1, bs[k].Payload() + a) && OnlyHeader(m1, m2, bs[k].off)
    requires Header(m1, Split(bs, k, a)[k + 1], OffsetOf(bs, k + 1))
    requires Header(m2, Split(bs, k, a)[k], bs[k].Payload() + a)
    ensures Represents(m2, Split(bs, k, a))
  {
    var r := Split(bs, k, a);
    var nb := bs[k].Payload() + a;
    assert r[k].off == bs[k].off && r[k + 1].off == nb;
    forall i | 0 <= i < |r| ensures HeaderOf(m2, r, i) {
      if i < k {
        assert HeaderOf(m, bs, i) && r[i] == bs[i] && OffsetOf(r, i + 1) == OffsetOf(bs, i + 1);
        Apart(bs, i, k);
        HeaderUntouched(m, m1, nb, bs[i], OffsetOf(bs, i + 1));
        HeaderUntouched(m1, m2, bs[k].off, bs[i], OffsetOf(bs, i + 1));
      } else if i == k + 1 {
        assert OffsetOf(r, i + 1) == OffsetOf(bs, k + 1);
        HeaderUntouched(m1, m2, bs[k].off, r[i], OffsetOf(bs, k + 1));
      } else if i > k + 1 {
        assert HeaderOf(m, bs, i - 1) && r[i] == bs[i - 1] && OffsetOf(r, i + 1) == OffsetOf(bs, i);
        Apart(bs, i - 1, k);
        HeaderUntouched(m, m1, nb, bs[i - 1], OffsetOf(bs, i));
        HeaderUntouched(m1, m2, bs[k].off, bs[i - 1], OffsetOf(bs, i));
      }
    }
  }

  /** Only the header of block `k` changes when it absorbs its free successor. */
  lemma JoinRepresents(m: seq<int>, m': seq<int>, bs: seq<Block>, k: nat)
    requires Tiled(bs) && Represents(m, bs) && k + 1 < |bs|
    requires OnlyHeader(m, m', bs[k].off)
    requires Header(m', Join(bs, k)[k], OffsetOf(bs, k + 2))
    ensures Represents(m', Join(bs, k))
  {
    var r := Join(bs, k);
    assert r[k].off == bs[k].off;
    forall i | 0 <= i < |r| ensures HeaderOf(m', r, i) {
      if i < k {
        assert HeaderOf(m, bs, i) && r[i] == bs[i] && OffsetOf(r, i + 1) == OffsetOf(bs, i + 1);
        Apart(bs, i, k);
        HeaderUntouched(m, m', bs[k].off, bs[i], OffsetOf(bs, i + 1));
      } else if i == k {
        assert OffsetOf(r, i + 1) == OffsetOf(bs, k + 2);
      } else {
        assert HeaderOf(m, bs, i + 1) && r[i] == bs[i + 1] && OffsetOf(r, i + 1) == OffsetOf(bs, i + 2);
        Apart(bs, i + 1, k);
        HeaderUntouched(m, m', bs[k].off, bs[i + 1], OffsetOf(bs, i + 2));
      }
    }
  }

  /** A payload word of `b` lies outside every other block, header and payload. */
  lemma PayloadClear(bs: seq<Block>, b: Block, o: int, k: nat)
    requires Tiled(bs) && b in bs && InPayload(b, o) && k < |bs| && b != bs[k]
    ensures 0 <= o < HEAP_SIZE && (o < bs[k].off || bs[k].End() <= o)
  {
    var i :| 0 <= i < |bs| && bs[i] == b;
    Ordered(bs, if i < k then i else k, if i < k then k else i);
  }

  /** A store into a live payload touches no header. */
  lemma StoreRepresents(m: seq<int>, bs: seq<Block>, b: Block, at: int, word: int)
    requires Tiled(bs) && Represents(m, bs) && b in bs && InPayload(b, at) && 0 <= at < |m|
    ensures Represents(m[at := word], bs)
  {
    var m' := m[at := word];
    forall i | 0 <= i < |bs| ensures HeaderOf(m', bs, i) {
      assert HeaderOf(m, bs, i);
      if b != bs[i] { PayloadClear(bs, b, at, i); Ordered(bs, i, i); assert bs[i].Placed(); }
    }
  }

  /** The words of every live payload other than the one at `p` are the same in both memories. */
  ghost predicate KeepsPayloads(bs: seq<Block>, m: seq<int>, m': seq<int>, p: int) {
    && |m'| == |m|
    && (forall b, o :: LiveBlock(bs, b) && b.Payload() != p && InPayload(b, o) ==> 0 <= o < |m| && m'[o] == m[o])
  }

  lemma StillKept(bs: seq<Block>, m: seq<int>, m1: seq<int>, m2: seq<int>, p: int)
    requires KeepsPayloads(bs, m, m1, p) && KeepsPayloads(bs, m1, m2, p)
    ensures KeepsPayloads(bs, m, m2, p)
  {
  }

  lemma FirstFitIs(bs: seq<Block>, size: int, k: nat)
    requires k <= |bs| && (forall i :: 0 <= i < k ==> !Fits(bs[i], size)) && (k < |bs| ==> Fits(bs[k], size))
    ensures FirstFit(bs, size) == k
  {
  }
}

/** `my_malloc` and `my_free` over the arena itself. */
module HeapAllocator {
  import opened MachineInts
  import opened HeapBlocks
  import opened HeapMemory

  /** The arena. `mem[o]` is the 8-byte word at byte offset `o`; only multiples of 8 are used as
      offsets, so words do not overlap. Pointers are offsets into the arena, NULL is NIL. */
  class Heap {
    const mem: array<int>
    var freeList: int
    ghost var blocks: seq<Block>  // the blocks the list visits, in order

    ghost predicate Valid()
      reads this, mem
    {
      freeList == 0 && Inv(blocks) && Represents(mem[..], blocks)
    }

    /** `heap_init` on the static arena. */
    constructor ()
      ensures Valid() && fresh(mem) && blocks == INITIAL
      ensures freeList == 0 && mem[0] == 4072 && mem[8] == 1 && mem[16] == NIL
    {
      mem := new int[HEAP_SIZE];
      freeList := 0;
      blocks := INITIAL;
      new;
      WriteHeader(freeList, HEAP_SIZE - HEADER_SIZE, true, NIL);
    }

    /** The search loop of `my_malloc`. */
    method Search(size: nat) returns (current: int, ghost k: nat)
      requires Represents(mem[..], blocks) && freeList == OffsetOf(blocks, 0)
      ensures current == OffsetOf(blocks, FirstFit(blocks, size)) && k == FirstFit(blocks, size)
      ensures k < |blocks| ==> current >= 0
    {
      ghost var m := mem[..];
      current, k := freeList, 0;
      while current != NIL
        invariant k <= |blocks| && current == OffsetOf(blocks, k)
        invariant forall i :: 0 <= i < k ==> !Fits(blocks[i], size)
        decreases |blocks| - k
      {
        assert HeaderOf(m, blocks, k);
        if mem[current + 8] == 1 && mem[current] >= size { break; }
        current := mem[current + 16];
        k := k + 1;
      }
      assert k < |blocks| ==> HeaderOf(m, blocks, k);
      FirstFitIs(blocks, size, k);
    }

    /** The three fields of a header. */
    method WriteHeader(block: int, size: int, free: bool, next: int)
      requires 0 <= block && block + HEADER_SIZE <= mem.Length
      modifies mem
      ensures Header(mem[..], Block(block, size, free), next) && OnlyHeader(old(mem[..]), mem[..], block)
    {
      mem[block] := size;
      mem[block + 8] := if free then 1 else 0;
      mem[block + 16] := next;
    }

    /** The split inside `my_malloc`: a new header behind `alignedSize` payload bytes. */
    method SplitBlock(current: int, alignedSize: int, leftover: int, ghost k: nat)
      requires Represents(mem[..], blocks) && Tiled(blocks) && k < |blocks| && current == blocks[k].off
      requires 0 <= alignedSize && leftover == blocks[k].size - alignedSize && HEADER_SIZE < leftover < HEAP_SIZE
      requires blocks[k].End() <= HEAP_SIZE
      modifies mem
      ensures Represents(mem[..], Split(blocks, k, alignedSize))
      ensures forall o :: 0 <= o < HEAP_SIZE && !(blocks[k].off <= o < blocks[k].End()) ==> mem[o] == old(mem[o])
    {
      hide Tiled, Block.Placed;
      ghost var m := mem[..];
      assert HeaderOf(m, blocks, k);
      var newBlock := current + HEADER_SIZE + alignedSize;
      WriteHeader(newBlock, Wrap64(leftover - HEADER_SIZE), true, mem[current + 16]);
      ghost var m1 := mem[..];
      WriteHeader(current, alignedSize, false, newBlock);
      SplitRepresents(m, m1, mem[..], blocks, k, alignedSize);
    }

    /** `my_malloc` from the rounding on: takes block `k`, split when enough remains. */
    method TakeBlock(current: int, size: nat, ghost k: nat)
      requires Represents(mem[..], blocks) && Tiled(blocks)
      requires k < |blocks| && current == blocks[k].off && Fits(blocks[k], size)
      modifies mem
      ensures Represents(mem[..], Take(blocks, k, size))
      ensures forall o :: 0 <= o < HEAP_SIZE && !(blocks[k].off <= o < blocks[k].End()) ==> mem[o] == old(mem[o])
    {
      hide Block.Placed, Aligned, Wrap64, Split;
      ghost var m := mem[..];
      assert HeaderOf(m, blocks, k);
      Ordered(blocks, k, k);
      TakeCases(blocks, k, size);
      var alignedSize := Aligned(size);
      var leftover := Wrap64(mem[current] - alignedSize);
      RoundedStillFits(blocks[k], size);
      if leftover > HEADER_SIZE + 16 {
        SplitBlock(current, alignedSize, leftover, k);
      } else {
        mem[current + 8] := 0;
        MarkRepresents(m, mem[..], blocks, k, false);
      }
    }

    /** `my_malloc`; `size_t` is 64 bits wide. */
    method Malloc(size: nat) returns (p: int)
      requires Valid() && size < TWO_TO_THE_64
      modifies this, mem
      ensures Valid()
      ensures (blocks, p) == HeapBlocks.Malloc(old(blocks), size)
      ensures KeepsPayloads(old(blocks), old(mem[..]), mem[..], NIL)
    {
      ghost var m := mem[..];
      ghost var bs := blocks;
      var current; ghost var k;
      current, k := Search(size);
      if current == NIL {
        KeptPayloads(bs, m, m, 0, NIL);
        return NIL;
      }
      TakeBlock(current, size, k);
      TakeKeepsInv(bs, k, size);
      KeptPayloads(bs, m, mem[..], k, NIL);
      blocks := Take(bs, k, size);
      return current + HEADER_SIZE;
    }

    /** Free block `k` of `bs` absorbs its free successor at `next`. */
    method Absorb(block: int, next: int, ghost k: nat, ghost bs: seq<Block>)
      requires Represents(mem[..], bs) && Tiled(bs)
      requires k + 1 < |bs| && bs[k].off == block && bs[k + 1].off == next && bs[k].free
      modifies mem
      ensures Represents(mem[..], Join(bs, k))
      ensures forall o :: 0 <= o < HEAP_SIZE && !(block <= o < bs[k].Payload()) ==> mem[o] == old(mem[o])
    {
      hide Tiled;
      ghost var m := mem[..];
      assert HeaderOf(m, bs, k) && HeaderOf(m, bs, k + 1);
      Apart(bs, k, k + 1);
      Ordered(bs, k, k + 1);
      assert Wrap64(mem[block] + HEADER_SIZE + mem[next]) == bs[k].size + HEADER_SIZE + bs[k + 1].size;
      mem[block] := Wrap64(mem[block] + HEADER_SIZE + mem[next]);
      mem[block + 16] := mem[next + 16];
      JoinRepresents(m, mem[..], bs, k);
    }

    /** `block->free = 1`. */
    method MarkFree(block: int, ghost k: nat)
      requires Represents(mem[..], blocks) && Tiled(blocks) && k < |blocks| && block == blocks[k].off
      modifies mem
      ensures Represents(mem[..], blocks[k := blocks[k].(free := true)])
      ensures forall o :: 0 <= o < HEAP_SIZE && o != block + 8 ==> mem[o] == old(mem[o])
    {
      hide Tiled, Block.Placed;
      ghost var m := mem[..];
      assert HeaderOf(m, blocks, k);
      mem[block + 8] := 1;
      MarkRepresents(m, mem[..], blocks, k, true);
    }

    /** The first half of `my_free`: block `k` is marked free and absorbs its successor if that is free. */
    method JoinWithNext(block: int, ghost k: nat)
      requires Represents(mem[..], blocks) && Tiled(blocks)
      requires k < |blocks| && block == blocks[k].off && !blocks[k].free
      modifies mem
      ensures Represents(mem[..], JoinNext(blocks, k))
      ensures forall o :: 0 <= o < HEAP_SIZE && !(block <= o < blocks[k].Payload()) ==> mem[o] == old(mem[o])
    {
      hide Tiled, Coalesced, Block.Placed, Join, JoinNext, Represents, HeaderOf;
      JoinNextCases(blocks, k);
      ghost var bs := blocks[k := blocks[k].(free := true)];
      MarkFree(block, k);
      MarkKeeps(blocks, k, true);
      HeaderAt(mem[..], bs, k);
      var next := mem[block + 16];
      if k + 1 < |bs| { HeaderAt(mem[..], bs, k + 1); }
      if next != NIL && mem[next + 8] == 1 { Absorb(block, next, k, bs); }
    }

    /** The second walk of `my_free`: the block visited just before `block`, or NIL. */
    method FindPrevious(block: int, ghost k: nat, ghost bs: seq<Block>) returns (prev: int)
      requires Represents(mem[..], bs) && Tiled(bs) && freeList == 0 && k < |bs| && bs[k].off == block
      ensures prev == if k == 0 then NIL else bs[k - 1].off
    {
      ghost var m := mem[..];
      prev := NIL;
      var current := freeList;
      ghost var i: nat := 0;
      while current != NIL && current != block
        invariant i <= k && current == bs[i].off && prev == if i == 0 then NIL else bs[i - 1].off
        decreases k - i
      {
        assert HeaderOf(m, bs, i);
        if i < k { Apart(bs, i, k); }
        prev := current;
        current := mem[current + 16];
        i := i + 1;
      }
      assert bs[i].Placed();
      if i < k { Apart(bs, i, k); }
    }

    /** The end of `my_free`: block `k` is absorbed by its predecessor if that is free. */
    method JoinWithPrevious(prev: int, block: int, ghost k: nat, ghost bs: seq<Block>)
      requires Represents(mem[..], bs) && Tiled(bs) && k < |bs| && bs[k].off == block && bs[k].free
      requires prev == if k == 0 then NIL else bs[k - 1].off
      modifies mem
      ensures Represents(mem[..], JoinPrevious(bs, k))
      ensures forall o :: 0 <= o < HEAP_SIZE && !(k > 0 && bs[k - 1].free && prev <= o < bs[k - 1].Payload()) ==>
                mem[o] == old(mem[o])
    {
      hide Tiled, Join;
      ghost var m := mem[..];
      assert HeaderOf(m, bs, k);
      assert k > 0 ==> HeaderOf(m, bs, k - 1);
      if prev != NIL && mem[prev + 8] == 1 { Absorb(prev, block, k - 1, bs); }
    }

    /** `my_free` for NULL or a live pointer. */
    method Free(p: int)
      requires Valid() && (p == NIL || LivePointer(blocks, p))
      modifies this, mem
      ensures Valid()
      ensures blocks == HeapBlocks.Free(old(blocks), p)
      ensures p == NIL ==> blocks == old(blocks) && mem[..] == old(mem[..])
      ensures KeepsPayloads(old(blocks), old(mem[..]), mem[..], p)
    {
      hide Coalesced, HeaderOf, KeepsPayloads, JoinNext, JoinPrevious;
      ghost var m, bs := mem[..], blocks;
      if p == NIL { KeptPayloads(bs, m, m, 0, p); return; }
      LiveIndex(bs, p);
      ghost var k := IndexOf(bs, p);
      var block := p - HEADER_SIZE;
      JoinWithNext(block, k);
      JoinNextKeeps(bs, k);
      ghost var m1, bs1 := mem[..], JoinNext(bs, k);
      KeptPayloads(bs, m, m1, k, p);
      var prev := FindPrevious(block, k, bs1);
      JoinWithPrevious(prev, block, k, bs1);
      KeptPayloads(bs, m1, mem[..], if k > 0 && bs[k - 1].free then k - 1 else k, p);
      StillKept(bs, m, m1, mem[..], p);
      blocks := Release(bs, k);
      ReleaseKeepsInv(bs, k);
    }

    /** The program writes a word of memory it was given. */
    method Store(at: int, word: int, ghost b: Block)
      requires Valid() && LiveBlock(blocks, b) && InPayload(b, at)
      modifies mem
      ensures Valid()
      ensures 0 <= at < |old(mem[..])| && mem[..] == old(mem[..])[at := word]
    {
      ghost var i :| 0 <= i < |blocks| && blocks[i] == b;
      Ordered(blocks, i, i);
      assert b.Placed();
      StoreRepresents(mem[..], blocks, b, at, word);
      mem[at] := word;
    }

    method Perform(c: Call)
      requires Valid() && Legal(blocks, c) && (c.Allocate? ==> c.size < TWO_TO_THE_64)
      modifies this, mem
      ensures Valid() && blocks == After(old(blocks), c)
      ensures forall b, o :: LiveBlock(old(blocks), b) && LeavesAlone(c, b) && InPayload(b, o) ==>
                0 <= o < HEAP_SIZE && mem[o] == old(mem[o])
    {
      ghost var m, bs := mem[..], blocks;
      match c
      case Allocate(size) =>
        var p := Malloc(size);
        assert forall b, o :: LiveBlock(bs, b) && LeavesAlone(c, b) && InPayload(b, o) ==> b.Payload() != NIL by {
          forall b | b in bs ensures b.Payload() != NIL { assert b.Placed(); }
        }
      case Deallocate(p) =>
        Free(p);
      case StoreWord(at, word) =>
        ghost var b :| LiveBlock(blocks, b) && InPayload(b, at);
        KeptPayloads(bs, m, m, 0, NIL);
        Store(at, word, b);
    }

    /** Any legal sequence of calls: the list ends as `Run` says, and whatever a live block held
        is still there as long as the program neither freed it nor stored into it. */
    method Replay(cs: seq<Call>)
      requires Valid() && LegalRun(blocks, cs)
      requires forall c :: c in cs && c.Allocate? ==> c.size < TWO_TO_THE_64
      modifies this, mem
      ensures Valid() && blocks == Run(old(blocks), cs)
      ensures forall b :: LiveBlock(old(blocks), b) && (forall c :: c in cs ==> LeavesAlone(c, b)) ==>
                LiveBlock(blocks, b)
                && forall o :: InPayload(b, o) ==> 0 <= o < HEAP_SIZE && mem[o] == old(mem[o])
      decreases |cs|
    {
      if cs != [] {
        ghost var bs := blocks;
        assert cs[0] in cs;
        Perform(cs[0]);
        assert forall c :: c in cs[1..] ==> c in cs;
        forall b | LiveBlock(bs, b) && LeavesAlone(cs[0], b) ensures LiveBlock(blocks, b) {
          LiveBlockStays(bs, cs[0], b);
        }
        Replay(cs[1..]);
      } else {
        KeptPayloads(blocks, mem[..], mem[..], 0, NIL);
      }
    }
  }

  lemma KeptPayloads(bs: seq<Block>, m: seq<int>, m': seq<int>, k: nat, p: int)
    requires Tiled(bs) && k < |bs| && |m| == |m'| == HEAP_SIZE
    requires forall o :: 0 <= o < |m| && !(bs[k].off <= o < bs[k].End()) ==> m'[o] == m[o]
    requires bs[k].free || m == m' || p == bs[k].Payload()
    ensures KeepsPayloads(bs, m, m', p)
  {
    forall b, o | LiveBlock(bs, b) && b.Payload() != p && InPayload(b, o) ensures 0 <= o < |m| && m'[o] == m[o] {
      if b == bs[k] { Ordered(bs, k, k); assert bs[k].Placed(); } else { PayloadClear(bs, b, o, k); }
    }
  }
}
