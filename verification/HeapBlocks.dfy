/** The heap as its clients see it: separate blocks.  A word written to a block is read back
    until it is overwritten or the block freed, whatever happens to the other blocks. */
module HeapBlocks {
  import opened Machine
  import opened Addressing
  import opened PageTags
  import opened PageTables
  import opened HeapSegments
  import opened HeapPolicy
  import opened HeapLinks
  import opened HeapBacking
  import opened Heaps

  /** A block of `size` requested bytes and the words written to it, by word index. */
  datatype Block = Block(size: int, words: map<int, int>)

  /** Segment `b` carries the block at its payload address. */
  ghost predicate Carries(m: Words, blocks: map<int, Block>, b: Seg) {
    && b.Payload() in blocks
    && blocks[b.Payload()].size <= b.size
    && forall w :: w in blocks[b.Payload()].words ==>
         0 <= 8 * w < blocks[b.Payload()].size && m(b.Payload() + 8 * w) == blocks[b.Payload()].words[w]
  }

  /** The blocks are exactly the live segments. */
  ghost predicate Coupled(m: Words, s: seq<Seg>, blocks: map<int, Block>) {
    && (forall b :: b in Live(s) ==> Carries(m, blocks, b))
    && (forall p :: p in blocks ==> exists b :: b in Live(s) && b.Payload() == p)
  }

  lemma OneSegment(s: seq<Seg>, top: int, b: Seg, c: Seg)
    requires Tiles(s, top) && b in Live(s) && c in Live(s) && b.Payload() == c.Payload()
    ensures b == c
  {
    BlocksApart(s, top, b, c);
    var i :| 0 <= i < |s| && s[i] == b;
    var j :| 0 <= j < |s| && s[j] == c;
    Separate(s, top, i, j);
  }

  class HeapClient {
    const heap: Heap
    ghost var blocks: map<int, Block>

    ghost predicate Valid()
      reads this, heap, heap.space, heap.space.pmm, heap.space.pmm.tags
    {
      heap.Valid() && Coupled(heap.mem, heap.segs, blocks)
    }

    constructor (heap: Heap)
      requires heap.Valid() && Live(heap.segs) == {}
      ensures Valid() && this.heap == heap && blocks == map[]
    {
      this.heap := heap;
      blocks := map[];
    }

    /** A fresh block, 16-byte aligned, or null for zero bytes. */
    method Malloc(n: int) returns (ok: bool, ptr: int)
      requires Valid() && 0 <= n && RoundUp(n, 16) + 2 * HEADER < U64
      requires !HasFit(heap.segs, RoundUp(n, 16)) ==> heap.heapTop + Growth(RoundUp(n, 16)) <= U64 - PAGE
      modifies this`blocks, heap, heap.space, heap.space.pmm, heap.space.pmm.tags
      ensures ok ==> Valid()
      ensures ok && n == 0 ==> ptr == 0 && blocks == old(blocks)
      ensures ok && n > 0 ==> ptr !in old(blocks) && ptr % 16 == 0 && blocks == old(blocks)[ptr := Block(n, map[])]
    {
      hide Carries, Coupled, Linkage, Tiles, Live, Kept, Coalesced, CounterLaw, Recount, HeapMemory, Tree, NormalForm, Disjoint, Take;
      ghost var m0, s0 := heap.mem, heap.segs;
      ghost var i: nat;
      ok, ptr, i := heap.KMalloc(n);
      if ok && n > 0 {
        LinkageTiles(heap.mem, heap.segs, heap.heapTop, heap.first, heap.last);
        MallocCouples(m0, s0, blocks, heap.mem, heap.segs, heap.heapTop, i, n);
        blocks := blocks[ptr := Block(n, map[])];
      }
    }

    method Free(ptr: int)
      requires Valid() && (ptr == 0 || ptr in blocks)
      modifies this`blocks, heap, heap.space`mem
      ensures Valid() && blocks == old(blocks) - {ptr}
    {
      hide Carries, Coupled, Linkage, Tiles, Live, Kept, Freed, Coalesced, CounterLaw, Recount, HeapMemory, Tree, NormalForm,
        Disjoint, Pages;
      ghost var m0, s0, t, f, l := heap.mem, heap.segs, heap.heapTop, heap.first, heap.last;
      LinkageTiles(m0, s0, t, f, l);
      if ptr == 0 {
        AddressesNotZero(m0, s0, t, blocks);
        var ok := heap.KFree(0, 0);
        assert blocks - {0} == blocks;
        return;
      }
      ghost var i := BlockSegment(m0, s0, t, blocks, ptr);
      var ok := heap.KFree(ptr, i);
      FreeCouples(m0, s0, t, blocks, heap.mem, heap.segs, s0[i]);
      blocks := blocks - {ptr};
    }

    /** A store through the page tables. */
    method Write(ptr: int, w: int, v: int)
      requires Valid() && ptr in blocks && 0 <= 8 * w < blocks[ptr].size
      modifies this`blocks, heap, heap.space`mem
      ensures Valid() && blocks == old(blocks)[ptr := Block(old(blocks)[ptr].size, old(blocks)[ptr].words[w := v])]
    {
      hide Carries, Coupled, Linkage, Tiles, Live, Coalesced, CounterLaw, Recount, HeapMemory, Tree, NormalForm, Disjoint,
        Pages;
      LinkageTiles(heap.mem, heap.segs, heap.heapTop, heap.first, heap.last);
      ghost var i := BlockSegment(heap.mem, heap.segs, heap.heapTop, blocks, ptr);
      BlockIn(heap.mem, heap.segs, heap.heapTop, heap.first, heap.last, heap.segs[i]);
      WordAligned(ptr, w);
      ghost var b := heap.segs[i];
      WriteCouples(heap.mem, heap.segs, heap.heapTop, blocks, b, w, v);
      heap.StoreInBlock(ptr + 8 * w, v, b);
      blocks := blocks[ptr := Block(blocks[ptr].size, blocks[ptr].words[w := v])];
    }

    /** A load through the page tables. */
    method Read(ptr: int, w: int) returns (v: int)
      requires Valid() && ptr in blocks && w in blocks[ptr].words
      ensures v == blocks[ptr].words[w]
    {
      hide Carries, Linkage, Tiles, Live, Coalesced, CounterLaw, Recount, HeapMemory, Tree, NormalForm, Disjoint, Pages, Walk,
        Translate, WordIndex;
      WordCarried(heap.mem, heap.segs, heap.heapTop, heap.first, heap.last, blocks, ptr, w);
      PeekFacts(heap.mem, heap.space.mem, heap.space.root, heap.space.role, heap.space.pmm.Free(), heap.pages, heap.heapTop,
                ptr + 8 * w);
      v := heap.space.Load(ptr + 8 * w);
    }
  }

  lemma WordCarried(m: Words, s: seq<Seg>, top: int, first: int, last: int, blocks: map<int, Block>, ptr: int, w: int)
    requires Linkage(m, s, top, first, last) && Coupled(m, s, blocks) && ptr in blocks && w in blocks[ptr].words
    ensures InHeap(ptr + 8 * w, top) && m(ptr + 8 * w) == blocks[ptr].words[w]
  {
    hide Linkage, Tiles, Live;
    var b :| b in Live(s) && b.Payload() == ptr;
    assert Carries(m, blocks, b);
    BlockIn(m, s, top, first, last, b);
    WordAligned(ptr, w);
  }

  lemma WordAligned(ptr: int, w: int)
    requires ptr % 16 == 0
    ensures (ptr + 8 * w) % 8 == 0
  {
    assert ptr + 8 * w == 8 * (2 * (ptr / 16) + w);
  }

  lemma MallocCouples(m0: Words, s0: seq<Seg>, blocks: map<int, Block>, m: Words, s: seq<Seg>, top: int, i: nat, n: int)
    requires Coupled(m0, s0, blocks) && Tiles(s, top) && Kept(m0, m, Live(s0))
    requires i < |s| && n <= s[i].size && Live(s) == Live(s0) + {s[i]} && s[i] !in Live(s0)
    ensures s[i].Payload() !in blocks && Coupled(m, s, blocks[s[i].Payload() := Block(n, map[])])
  {
    var p := s[i].Payload();
    if p in blocks {
      var b :| b in Live(s0) && b.Payload() == p;
      OneSegment(s, top, b, s[i]);
    }
    var after := blocks[p := Block(n, map[])];
    forall b | b in Live(s) ensures Carries(m, after, b) {
      if b != s[i] {
        assert Carries(m0, blocks, b) && b.Payload() != p;
      }
    }
    forall q | q in after ensures exists b :: b in Live(s) && b.Payload() == q {
      if q in blocks {
        var b :| b in Live(s0) && b.Payload() == q;
        assert b in Live(s);
      } else {
        assert s[i] in Live(s);
      }
    }
  }

  lemma AddressesNotZero(m: Words, s: seq<Seg>, top: int, blocks: map<int, Block>)
    requires Tiles(s, top) && Coupled(m, s, blocks)
    ensures 0 !in blocks
  {
    AllOrdered(s, top);
  }

  lemma BlockSegment(m: Words, s: seq<Seg>, top: int, blocks: map<int, Block>, p: int) returns (i: nat)
    requires Coupled(m, s, blocks) && p in blocks
    ensures i < |s| && s[i] in Live(s) && s[i].Payload() == p && blocks[p].size <= s[i].size
  {
    var b :| b in Live(s) && b.Payload() == p;
    assert Carries(m, blocks, b);
    i :| 0 <= i < |s| && s[i] == b;
  }

  lemma FreeCouples(m0: Words, s0: seq<Seg>, top: int, blocks: map<int, Block>, m: Words, s: seq<Seg>, x: Seg)
    requires Tiles(s0, top) && Coupled(m0, s0, blocks) && x in Live(s0)
    requires Live(s) == Live(s0) - {x} && Kept(m0, m, Live(s))
    ensures Coupled(m, s, blocks - {x.Payload()})
  {
    var after := blocks - {x.Payload()};
    forall b | b in Live(s) ensures Carries(m, after, b) {
      assert Carries(m0, blocks, b);
      if b.Payload() == x.Payload() { OneSegment(s0, top, b, x); }
    }
    forall q | q in after ensures exists b :: b in Live(s) && b.Payload() == q {
      var b :| b in Live(s0) && b.Payload() == q;
      assert b in Live(s);
    }
  }

  lemma WriteCouples(m0: Words, s: seq<Seg>, top: int, blocks: map<int, Block>, x: Seg, w: int, v: int)
    requires Tiles(s, top) && Coupled(m0, s, blocks) && x in Live(s) && 0 <= 8 * w < blocks[x.Payload()].size
    ensures var p := x.Payload();
            Coupled(Put(m0, p + 8 * w, v), s, blocks[p := Block(blocks[p].size, blocks[p].words[w := v])])
  {
    var p := x.Payload();
    var after := blocks[p := Block(blocks[p].size, blocks[p].words[w := v])];
    assert Carries(m0, blocks, x);
    forall b | b in Live(s) ensures Carries(Put(m0, p + 8 * w, v), after, b) {
      assert Carries(m0, blocks, b);
      BlocksApart(s, top, b, x);
      if b.Payload() == p { OneSegment(s, top, b, x); }
    }
    assert after.Keys == blocks.Keys;
  }
}
