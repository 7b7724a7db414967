/** `heap.c`: the kernel heap, a doubly linked list of headers in a region that grows page
    by page at `heapTop`. */
module Heaps {
  import opened Machine
  import opened Addressing
  import opened PageTables
  import opened PageTags
  import opened PageAllocator
  import opened AddressSpaces
  import opened HeapSegments
  import opened HeapPolicy
  import opened HeapLinks
  import opened HeapBacking

  /** The running totals, before reduction modulo 2^64. */
  datatype Counters = Counters(free: int, used: int, overhead: int)

  /** How often the list has been split, merged and grown, and the bytes freed while free. */
  datatype History = History(splits: int, merges: int, growths: int, freedTwice: int)

  /** The counters against the recount: each split leaves 48 bytes uncounted, each growth
      adds 48 to used memory but only sizeof(size) to free memory, and a merge adds to the
      overhead what it should subtract. */
  ghost predicate CounterLaw(c: Counters, h: History, recount: int, count: int) {
    && c.used == recount - HEADER * h.splits - h.freedTwice
    && c.used + c.free == INITIAL_PAGES * PAGE + (HEADER + 8) * h.growths
    && c.overhead == HEADER * (1 + h.splits + h.merges + h.growths)
    && count == 1 + h.splits + h.growths - h.merges
  }

  function AfterMerge(c: Counters): Counters { Counters(c.free + HEADER, c.used - HEADER, c.overhead + HEADER) }

  function AfterSplit(c: Counters): Counters { c.(overhead := c.overhead + HEADER) }

  function AfterGrowth(c: Counters): Counters { Counters(c.free + 8, c.used + HEADER, c.overhead + HEADER) }

  function AfterTake(c: Counters, size: int): Counters { c.(free := c.free - size, used := c.used + size) }

  lemma CounterSteps(c: Counters, h: History, recount: int, count: int, size: int)
    requires CounterLaw(c, h, recount, count)
    ensures CounterLaw(AfterMerge(c), h.(merges := h.merges + 1), recount - HEADER, count - 1)
    ensures CounterLaw(AfterSplit(c), h.(splits := h.splits + 1), recount + HEADER, count + 1)
    ensures CounterLaw(AfterGrowth(c), h.(growths := h.growths + 1), recount + HEADER, count + 1)
    ensures CounterLaw(AfterTake(c, size), h, recount + size, count)
    ensures CounterLaw(AfterTake(c, -size), h.(freedTwice := h.freedTwice + size), recount, count)
  {
  }

  /** From (c0, h0) to (c, h), `bytes` have come into use and the list has been split, merged and
      grown so often: what that does to the three counters. */
  ghost predicate Moved(c0: Counters, h0: History, c: Counters, h: History,
                        bytes: int, splits: int, merges: int, growths: int, twice: int)
  {
    && c.used == c0.used + bytes - 48 * merges + 48 * growths
    && c.free == c0.free - bytes + 48 * merges + 8 * growths
    && c.overhead == c0.overhead + 48 * splits + 48 * merges + 48 * growths
    && h == History(h0.splits + splits, h0.merges + merges, h0.growths + growths, h0.freedTwice + twice)
  }

  lemma MovedBoth(c0: Counters, h0: History, c1: Counters, h1: History, c2: Counters, h2: History,
                  b: int, s: int, m: int, g: int, t: int, b': int, s': int, m': int, g': int, t': int)
    requires Moved(c0, h0, c1, h1, b, s, m, g, t) && Moved(c1, h1, c2, h2, b', s', m', g', t')
    ensures Moved(c0, h0, c2, h2, b + b', s + s', m + m', g + g', t + t')
  {}

  /** What block `i` of the list `s`, handed out for `size` bytes, has done to the counters: the
      bytes of its segment came into use; it was split off if the list is longer than the one
      it was found in; the heap grew if nothing fitted, and the growth was merged if the last
      segment was free. */
  ghost predicate Charged(s0: seq<Seg>, size: int, s: seq<Seg>, i: nat, c0: Counters, h0: History, c: Counters, h: History) {
    && i < |s| && |s0| > 0
    && if HasFit(s0, size) then Moved(c0, h0, c, h, s[i].size, |s| - |s0|, 0, 0, 0)
       else var s1 := Expanded(s0, Growth(size)); Moved(c0, h0, c, h, s[i].size, |s| - |s1|, |s0| + 1 - |s1|, 1, 0)
  }

  lemma ChargedOnce(s0: seq<Seg>, size: int, s: seq<Seg>, i: nat, c0: Counters, h0: History, c: Counters, h: History)
    requires HasFit(s0, size) && i < |s| && Moved(c0, h0, c, h, s[i].size, |s| - |s0|, 0, 0, 0)
    ensures Charged(s0, size, s, i, c0, h0, c, h)
  {
    hide Moved;
  }

  lemma ChargedGrown(s0: seq<Seg>, size: int, s1: seq<Seg>, s: seq<Seg>, i: nat, c0: Counters, h0: History,
                     c1: Counters, h1: History, c: Counters, h: History)
    requires |s0| > 0 && !HasFit(s0, size) && s1 == Expanded(s0, Growth(size)) && HasFit(s1, size)
    requires Moved(c0, h0, c1, h1, 0, 0, |s0| + 1 - |s1|, 1, 0) && Charged(s1, size, s, i, c1, h1, c, h)
    ensures Charged(s0, size, s, i, c0, h0, c, h)
  {
    hide Moved, Expanded, HasFit;
    MovedBoth(c0, h0, c1, h1, c, h, 0, 0, |s0| + 1 - |s1|, 1, 0, s[i].size, |s| - |s1|, 0, 0, 0);
  }

  lemma StepsMove(c: Counters, h: History, bytes: int)
    ensures Moved(c, h, c, h, 0, 0, 0, 0, 0)
    ensures Moved(c, h, AfterMerge(c), h.(merges := h.merges + 1), 0, 0, 1, 0, 0)
    ensures Moved(c, h, AfterSplit(c), h.(splits := h.splits + 1), 0, 1, 0, 0, 0)
    ensures Moved(c, h, AfterGrowth(c), h.(growths := h.growths + 1), 0, 0, 0, 1, 0)
    ensures Moved(c, h, AfterTake(c, bytes), h, bytes, 0, 0, 0, 0)
  {}

  lemma MarkMoves(c: Counters, h: History, x: Seg, used: bool)
    requires used ==> !x.used
    ensures Moved(c, h, AfterTake(c, if used then x.size else -x.size), AfterMark(h, x, used),
                  if used then x.size else -x.size, 0, 0, 0, if used || x.used then 0 else x.size)
  {}

  ghost function AfterMark(h: History, x: Seg, used: bool): History {
    if !used && !x.used then h.(freedTwice := h.freedTwice + x.size) else h
  }

  lemma MarkCounts(c: Counters, h: History, recount: int, count: int, x: Seg, used: bool)
    requires CounterLaw(c, h, recount, count) && (used ==> !x.used)
    ensures CounterLaw(AfterTake(c, if used then x.size else -x.size), AfterMark(h, x, used),
                       recount - Counted(x) + (if used then x.size else 0), count)
  {
    CounterSteps(c, h, recount, count, x.size);
    CounterSteps(c, h, recount, count, -x.size);
  }

  lemma RoundUpPages(bytes: nat)
    ensures RoundUp(bytes, PAGE) == (if bytes % PAGE > 0 then bytes / PAGE + 1 else bytes / PAGE) * PAGE >= bytes
  {}

  lemma RoundUpFacts(bytes: nat)
    ensures RoundUp(bytes, PAGE) % PAGE == 0 && RoundUp(bytes, PAGE) / PAGE * PAGE == RoundUp(bytes, PAGE) >= bytes
    ensures bytes == 0 ==> RoundUp(bytes, PAGE) == 0
    ensures bytes > 0 ==> RoundUp(bytes, PAGE) >= PAGE
    ensures RoundUp(bytes, PAGE) % 16 == 0
  {
    hide RoundUp;
    RoundUpPages(bytes);
    WholePages(if bytes % PAGE > 0 then bytes / PAGE + 1 else bytes / PAGE);
  }

  lemma RoundUpIs(bytes: nat, size: int)
    requires size == if bytes % PAGE > 0 then bytes - bytes % PAGE + PAGE else bytes
    ensures size == RoundUp(bytes, PAGE)
  {}

  class Heap {
    const space: AddressSpace
    var mem: Words           // the words of the heap region, by virtual address
    var first: int
    var last: int
    var heapTop: int
    var lock: int
    var counters: Counters

    ghost var segs: seq<Seg>     // the list that the headers form
    ghost var pages: seq<int>    // the frames behind the heap pages
    ghost var history: History

    /** The list in memory is well formed. */
    ghost predicate ListOk()
      reads `mem, `segs, `heapTop, `first, `last
    {
      Linkage(mem, segs, heapTop, first, last)
    }

    /** The pages of the heap are backed, and its words are those of the machine. */
    ghost predicate BackedOk()
      reads `mem, `heapTop, `pages, space, space.pmm, space.pmm.tags
    {
      && space.Valid()
      && HeapMemory(mem, space.mem, space.root, space.role, space.pmm.Free(), pages, heapTop)
    }

    ghost predicate CountersOk()
      reads `counters, `history, `segs
    {
      CounterLaw(counters, history, Recount(segs), |segs|)
    }

    ghost predicate Valid()
      reads this, space, space.pmm, space.pmm.tags
    {
      ListOk() && Coalesced(segs) && BackedOk() && CountersOk() && lock == 0
    }

    /** The heap before `heap_init`. */
    constructor (space: AddressSpace)
      ensures this.space == space && pages == [] && lock == 0
    {
      this.space := space;
      pages, segs := [], [];
      history := History(0, 0, 0, 0);
      first, last, heapTop, lock := 0, 0, HEAP_BASE, 0;
      counters := Counters(0, 0, 0);
      mem := (a: int) => 0;
    }

    /** Store a heap word: through the page tables. */
    method Poke(a: int, v: int)
      requires BackedOk() && InHeap(a, heapTop)
      modifies this`mem, space`mem
      ensures BackedOk() && mem == Put(old(mem), a, v)
    {
      hide HeapMemory, Tree, Walk, WordIndex, NormalForm, Disjoint, Pages, Put, Store;
      PokeFacts(mem, space.mem, space.root, space.role, space.pmm.Free(), pages, heapTop, a, v);
      space.StoreWord(a, v);
      mem := Put(mem, a, v);
    }

    /** Map frame `p` as the next page of the heap.  `ok` is false where the kernel panics. */
    method MapHeapPage(p: int) returns (ok: bool)
      requires BackedOk() && Unused(p, space.role, space.pmm.Free(), pages)
      requires heapTop + PAGE <= U64 - PAGE
      modifies this`mem, this`heapTop, this`pages, space, space.pmm, space.pmm.tags
      ensures ok ==> BackedOk() && pages == old(pages) + [p] && heapTop == old(heapTop) + PAGE
      ensures ok ==> SameBelow(old(mem), mem, old(heapTop)) && NoNewLarge(old(space.mem), space.mem, space.root)
      ensures ok ==> OnlyAddedTables(old(space.mem), old(space.role), old(space.pmm.Free()),
                                     space.mem, space.role, space.pmm.Free())
      ensures !ok ==> space.pmm.count == 0 || LargeOnPath(old(space.mem), space.root, old(heapTop))
    {
      hide Index4, Tree, NormalForm, Disjoint, Pages, OnlyAddedTables, LargeOnPath, NoNewLarge, Unused, Backed, Reflects,
        Fetched, SamePage, Translate, Mapping, LeafEntry, MakeEntry, SameBelow;
      TopFacts(mem, space.mem, space.root, space.role, space.pmm.Free(), pages, heapTop, p);
      ok := space.Map(heapTop, p, TABLE_FLAGS);
      if !ok { return; }
      MapFacts(mem, old(space.mem), old(space.role), old(space.pmm.Free()), pages, heapTop,
               space.mem, space.role, space.pmm.Free(), p, space.root);
      mem := Fetched(mem, space.mem, p, heapTop);
      pages := pages + [p];
      heapTop := heapTop + PAGE;
    }

    /** `heap_init`: sixteen pages in a row, and one free segment over all of them.
        `ok` is false where the kernel panics. */
    method Init() returns (ok: bool)
      requires space.Valid() && pages == [] && lock == 0
      modifies this, space, space.pmm, space.pmm.tags
      ensures ok ==> Valid() && heapTop == 0xffff_fff8_0001_0000
      ensures ok ==> segs == [Seg(0xffff_fff8_0000_0000, 0xffd0, false)]
      ensures ok ==> counters == Counters(0xffd0, 48, 48) && history == History(0, 0, 0, 0)
    {
      hide NormalForm, Disjoint, Tree, Tiled, Recount, HeapMemory;
      ok := ClaimPages();
      if !ok { return; }
      WriteFirstHeader();
      ok := CheckCanary(first);
    }

    method ClaimPages() returns (ok: bool)
      requires space.Valid() && pages == []
      modifies this`mem, this`heapTop, this`pages, space, space.pmm, space.pmm.tags
      ensures ok ==> BackedOk() && heapTop == HEAP_BASE + INITIAL_PAGES * PAGE
    {
      hide NormalForm, Disjoint, Tree;
      var start: int;
      ok, start := space.pmm.RequestPages(INITIAL_PAGES);
      if !ok || start == 0 { return false; }
      heapTop := HEAP_BASE;
      ok := MapInitialPages(start);
    }

    /** The mapping loop of `heap_init`. */
    method MapInitialPages(start: int) returns (ok: bool)
      requires BackedOk() && pages == [] && heapTop == HEAP_BASE
      requires forall p :: p in Block(start, INITIAL_PAGES) ==> 0 <= p < FRAMES && p !in space.role && p !in space.pmm.Free()
      modifies this`mem, this`heapTop, this`pages, space, space.pmm, space.pmm.tags
      ensures ok ==> BackedOk() && heapTop == HEAP_BASE + INITIAL_PAGES * PAGE
    {
      hide HeapMemory, NormalForm, Disjoint, Tree, Pages;
      ok := true;
      ghost var free := space.pmm.Free();
      for i := 0 to INITIAL_PAGES
        invariant BackedOk() && |pages| == i && heapTop == HEAP_BASE + i * PAGE
        invariant forall k :: 0 <= k < i ==> pages[k] == start + k
        invariant forall p :: p in space.pmm.Free() ==> p in free
        invariant forall p :: p in Block(start, INITIAL_PAGES) ==> p !in space.role && p !in free
      {
        assert start + i in Block(start, INITIAL_PAGES);
        ok := MapHeapPage(start + i);
        if !ok { return; }
      }
    }

    /** The stores of `heap_init`. */
    method WriteFirstHeader()
      requires BackedOk() && heapTop == HEAP_BASE + INITIAL_PAGES * PAGE
      modifies this`mem, this`first, this`last, this`counters, this`segs, this`history, space`mem
      ensures ListOk() && Coalesced(segs) && CountersOk() && BackedOk()
      ensures segs == [FirstSegment()] && counters == Counters(0xffd0, 48, 48) && history == History(0, 0, 0, 0)
    {
      hide BackedOk, Tiled, Put, Recount, InHeap;
      ghost var m0 := mem;
      FirstHeader(m0);
      HeaderWords(HEAP_BASE, heapTop);
      counters := Counters(INITIAL_PAGES * PAGE - HEADER, HEADER, HEADER);
      first, last := HEAP_BASE, HEAP_BASE;
      Poke(first + NEXT, 0);
      Poke(first + PREV, 0);
      Poke(first + SIZE, INITIAL_PAGES * PAGE - HEADER);
      Poke(first + USED, 0);
      Poke(first, CANARY0);
      Poke(first + CANARY1_AT, CANARY1);
      assert mem == FirstStores(m0);
      history := History(0, 0, 0, 0);
      segs := [FirstSegment()];
    }

    /** `_heap_check_canary`: false where the kernel panics. */
    method CheckCanary(seg: int) returns (ok: bool)
      ensures ok <==> seg != 0 ==> HeaderAt(mem, seg).canary0 == CANARY0 && HeaderAt(mem, seg).canary1 == CANARY1
    {
      if seg == 0 { return true; }
      ok := HeaderAt(mem, seg).canary0 == CANARY0 && HeaderAt(mem, seg).canary1 == CANARY1;
    }

    /** The stores of `_heap_combine_forward` to the headers. */
    method StoreMerge(seg: int, next: int)
      requires BackedOk() && next == HeaderAt(mem, seg).next && HeaderIn(seg, heapTop)
      requires HeaderAt(mem, next).next != 0 ==> HeaderIn(HeaderAt(mem, next).next, heapTop)
      modifies this`mem, space`mem
      ensures BackedOk() && mem == MergeStores(old(mem), seg)
    {
      hide HeaderAt, Put, BackedOk, InHeap, HeaderIn;
      HeaderWords(seg, heapTop);
      if HeaderAt(mem, next).next != 0 {
        HeaderWords(HeaderAt(mem, next).next, heapTop);
        Poke(HeaderAt(mem, next).next + PREV, seg);
      }
      Poke(seg + SIZE, HeaderAt(mem, seg).size + HeaderAt(mem, next).size + HEADER);
      Poke(seg + NEXT, HeaderAt(mem, next).next);
    }

    /** The updates of `_heap_combine_forward`, once its guards are passed. */
    method Absorb(seg: int, next: int, ghost i: nat)
      requires ListOk() && CountersOk() && BackedOk()
      requires i + 1 < |segs| && seg == segs[i].addr && next == segs[i + 1].addr
      requires !segs[i].used && !segs[i + 1].used
      modifies this`mem, this`last, this`counters, this`segs, this`history, space`mem
      ensures ListOk() && CountersOk() && BackedOk() && segs == Merged(old(segs), i)
      ensures |segs| == |old(segs)| - 1 && Moved(old(counters), old(history), counters, history, 0, 0, 1, 0, 0)
      ensures Kept(old(mem), mem, Live(old(segs))) && Live(segs) == Live(old(segs))
    {
      hide Moved, Linkage, CounterLaw, Recount, Live, Kept, HeaderAt, Merged, MergeStores, HeaderIn, BackedOk;
      MergeFacts(mem, segs, heapTop, first, last, i);
      StepsMove(counters, history, 0);
      CounterSteps(counters, history, Recount(segs), |segs|, 0);
      HeadersIn(mem, segs, heapTop, first, last, i);
      HeadersIn(mem, segs, heapTop, first, last, i + 1);
      if next == last {
        last := seg;
      }
      StoreMerge(seg, next);
      counters := AfterMerge(counters);
      segs := Merged(segs, i);
      history := history.(merges := history.merges + 1);
    }

    /** `_heap_combine_forward`. */
    method CombineForward(seg: int, ghost i: nat) returns (ok: bool)
      requires ListOk() && CountersOk() && BackedOk() && i < |segs| && seg == segs[i].addr && !segs[i].used
      modifies this`mem, this`last, this`counters, this`segs, this`history, space`mem
      ensures ok && ListOk() && CountersOk() && BackedOk()
      ensures segs == MergedForward(old(segs), i)
      ensures Moved(old(counters), old(history), counters, history, 0, 0, |old(segs)| - |segs|, 0, 0)
      ensures Kept(old(mem), mem, Live(old(segs))) && Live(segs) == Live(old(segs))
    {
      hide Moved, Linkage, CounterLaw, Recount, HeaderAt, Live, Merged, BackedOk;
      LinkFacts(mem, segs, heapTop, first, last, i);
      AllLinked(mem, segs, heapTop, first, last);
      StepsMove(counters, history, 0);
      ok := CheckCanary(seg);
      if !ok { return; }
      var next := HeaderAt(mem, seg).next;
      if next == 0 { return; }
      ok := CheckCanary(next);
      if !ok { return; }
      if HeaderAt(mem, next).used != 0 { return; }
      if next != seg + HEADER + HeaderAt(mem, seg).size { return; }
      Absorb(seg, next, i);
    }

    /** `_heap_combine_backward`. */
    method CombineBackward(seg: int, ghost i: nat) returns (ok: bool)
      requires ListOk() && CountersOk() && BackedOk() && i < |segs| && seg == segs[i].addr
      modifies this`mem, this`last, this`counters, this`segs, this`history, space`mem
      ensures ok && ListOk() && CountersOk() && BackedOk()
      ensures segs == MergedBackward(old(segs), i)
      ensures Moved(old(counters), old(history), counters, history, 0, 0, |old(segs)| - |segs|, 0, 0)
      ensures Kept(old(mem), mem, Live(old(segs))) && Live(segs) == Live(old(segs))
    {
      hide Moved, Linkage, CounterLaw, Recount, HeaderAt, Live, Merged, BackedOk;
      LinkFacts(mem, segs, heapTop, first, last, i);
      PrevFacts(mem, segs, heapTop, first, last, i);
      StepsMove(counters, history, 0);
      ok := CheckCanary(seg);
      if !ok { return; }
      var prev := HeaderAt(mem, seg).prev;
      if prev == 0 { return; }
      ok := CheckCanary(prev);
      if !ok { return; }
      if HeaderAt(mem, prev).used != 0 { return; }
      ok := CombineForward(prev, i - 1);
    }

    /** `_heap_split`: cut segment `i` down to `size`; nothing happens if no segment fits behind it. */
    method HeapSplit(seg: int, size: int, ghost i: nat)
      requires ListOk() && CountersOk() && BackedOk() && i < |segs| && seg == segs[i].addr && !segs[i].used
      requires size >= 16 && size % 16 == 0 && size + HEADER <= segs[i].size
      modifies this`mem, this`last, this`counters, this`segs, this`history, space`mem
      ensures ListOk() && CountersOk() && BackedOk()
      ensures segs == if old(segs)[i].size - size - HEADER < 16 then old(segs) else Split(old(segs), i, size)
      ensures Moved(old(counters), old(history), counters, history, 0, |segs| - |old(segs)|, 0, 0, 0)
      ensures Kept(old(mem), mem, Live(old(segs))) && Live(segs) == Live(old(segs))
    {
      hide Moved, Kept;
      hide HeaderAt, Linkage, CounterLaw, Recount, Live, Split, SplitStores, BackedOk;
      LinkFacts(mem, segs, heapTop, first, last, i);
      StepsMove(counters, history, 0);
      KeptSame(mem, Live(segs));
      if size < 0x10 { return; }
      if HeaderAt(mem, seg).size - size - HEADER < 0x10 { return; }
      Cut(seg, size, i);
    }

    /** The rest of `_heap_split`. */
    method Cut(seg: int, size: int, ghost i: nat)
      requires ListOk() && CountersOk() && BackedOk() && CanSplit(segs, i, size) && seg == segs[i].addr && !segs[i].used
      modifies this`mem, this`last, this`counters, this`segs, this`history, space`mem
      ensures ListOk() && CountersOk() && BackedOk() && segs == Split(old(segs), i, size)
      ensures |segs| == |old(segs)| + 1 && Moved(old(counters), old(history), counters, history, 0, 1, 0, 0, 0)
      ensures Kept(old(mem), mem, Live(old(segs))) && Live(segs) == Live(old(segs))
    {
      hide Moved, Linkage, CounterLaw, Recount, Live, Kept, HeaderAt, Split, SplitStores, BackedOk, InHeap, HeaderIn;
      SplitFacts(mem, segs, heapTop, first, last, i, size);
      SplitIn(mem, segs, heapTop, first, last, i, size);
      StepsMove(counters, history, 0);
      CounterSteps(counters, history, Recount(segs), |segs|, 0);
      HeadersIn(mem, segs, heapTop, first, last, i);
      StoreSplit(seg, size);
      counters := AfterSplit(counters);
      if last == seg {
        last := seg + size + HEADER;
      }
      segs := Split(segs, i, size);
      history := history.(splits := history.splits + 1);
    }

    /** The stores of `_heap_split`. */
    method StoreSplit(seg: int, size: int)
      requires BackedOk() && HeaderIn(seg, heapTop) && HeaderIn(seg + size + HEADER, heapTop) && size >= 0
      requires HeaderAt(mem, seg).next != 0 ==> HeaderIn(HeaderAt(mem, seg).next, heapTop)
      modifies this`mem, space`mem
      ensures BackedOk() && mem == SplitStores(old(mem), seg, size)
    {
      hide HeaderAt, Put, BackedOk, InHeap, HeaderIn;
      NextAfterCanaries(mem, seg, seg + size + HEADER);
      HeaderWords(seg, heapTop);
      HeaderWords(seg + size + HEADER, heapTop);
      var splitSize := HeaderAt(mem, seg).size - size - HEADER;
      var n := seg + size + HEADER;
      Poke(n, CANARY0);
      Poke(n + CANARY1_AT, CANARY1);
      if HeaderAt(mem, seg).next != 0 {
        HeaderWords(HeaderAt(mem, seg).next, heapTop);
        Poke(HeaderAt(mem, seg).next + PREV, n);
      }
      Poke(n + NEXT, HeaderAt(mem, seg).next);
      Poke(seg + NEXT, n);
      Poke(n + PREV, seg);
      Poke(n + USED, HeaderAt(mem, seg).used);
      Poke(n + SIZE, splitSize);
      Poke(seg + SIZE, size);
    }

    /** `expand_heap`.  `ok` is false where the kernel panics: for want of pages, or at a
        large-page bit on the way to a new page. */
    method ExpandHeap(bytes: nat) returns (ok: bool)
      requires ListOk() && CountersOk() && BackedOk() && heapTop + RoundUp(bytes, PAGE) <= U64 - PAGE
      modifies this`mem, this`last, this`counters, this`segs, this`history
      modifies this`heapTop, this`pages, space, space.pmm, space.pmm.tags
      ensures ok ==> ListOk() && CountersOk() && BackedOk()
      ensures ok ==> segs == if bytes == 0 then old(segs) else Expanded(old(segs), RoundUp(bytes, PAGE))
      ensures ok ==> Moved(old(counters), old(history), counters, history, 0, 0,
                           if bytes == 0 then 0 else |old(segs)| + 1 - |segs|, if bytes == 0 then 0 else 1, 0)
      ensures ok ==> heapTop == old(heapTop) + RoundUp(bytes, PAGE)
      ensures ok ==> Kept(old(mem), mem, Live(old(segs))) && Live(segs) == Live(old(segs))
      ensures !ok ==> NoPages(old(space.mem), old(heapTop), RoundUp(bytes, PAGE))
    {
      hide Moved, BackedOk, Linkage, CounterLaw, Recount, Live, Expanded, Kept, SameBelow, LargeOnPath, RoundUp;
      ghost var m0, top0 := mem, heapTop;
      KeptSame(mem, Live(segs));
      StepsMove(counters, history, 0);
      RoundUpFacts(bytes);
      if bytes == 0 { return true; }
      var size := bytes;
      if size % PAGE > 0 {
        size := size - size % PAGE;
        size := size + PAGE;
      }
      RoundUpIs(bytes, size);
      ok := MapPages(size / PAGE);
      if !ok { return; }
      ListBelow(m0, mem, segs, top0, first, last);
      ghost var m1 := mem;
      ok := AppendSegment(size);
      KeptTransitive(m0, m1, mem, Live(old(segs)));
    }

    /** Why no page could be mapped at the heap's end. */
    ghost predicate NoPages(m0: Memory, top: int, bytes: int)
      reads space, space.pmm
    {
      space.pmm.count == 0 || exists v :: top <= v < top + bytes && LargeOnPath(m0, space.root, v)
    }

    /** The rest of `expand_heap`: the header of the new segment, in the pages just mapped. */
    method AppendSegment(size: int) returns (ok: bool)
      requires Linkage(mem, segs, heapTop - size, first, last) && CountersOk() && BackedOk()
      requires size >= HEADER + 16 && size % 16 == 0
      modifies this`mem, this`last, this`counters, this`segs, this`history, space`mem
      ensures ok && ListOk() && CountersOk() && BackedOk() && segs == Expanded(old(segs), size)
      ensures Moved(old(counters), old(history), counters, history, 0, 0, |old(segs)| + 1 - |segs|, 1, 0)
      ensures Kept(old(mem), mem, Live(old(segs))) && Live(segs) == Live(old(segs))
    {
      hide Moved, Linkage, CounterLaw, Recount, Live, Kept, Merged, BackedOk;
      ghost var m0, c0, h0 := mem, counters, history;
      var n := WriteLastHeader(size);
      ghost var m1, c1, h1, l := mem, counters, history, |segs|;
      ok := CombineBackward(n, |segs| - 1);
      MovedBoth(c0, h0, c1, h1, counters, history, 0, 0, 0, 1, 0, 0, 0, l - |segs|, 0, 0);
      KeptTransitive(m0, m1, mem, Live(old(segs)));
    }

    /** The new segment becomes the last one. */
    method WriteLastHeader(size: int) returns (n: int)
      requires Linkage(mem, segs, heapTop - size, first, last) && CountersOk() && BackedOk()
      requires size >= HEADER + 16 && size % 16 == 0
      modifies this`mem, this`last, this`counters, this`segs, this`history, space`mem
      ensures ListOk() && CountersOk() && BackedOk() && |old(segs)| > 0 && segs == Appended(old(segs), size)
      ensures n == segs[|segs| - 1].addr
      ensures |segs| == |old(segs)| + 1 && Moved(old(counters), old(history), counters, history, 0, 0, 0, 1, 0)
      ensures Kept(old(mem), mem, Live(old(segs))) && Live(segs) == Live(old(segs))
    {
      hide Moved, Linkage, CounterLaw, Recount, Live, Kept, HeaderAt, AppendStores, BackedOk, InHeap, HeaderIn;
      AppendFacts(mem, segs, heapTop - size, first, last, size);
      StepsMove(counters, history, 0);
      CounterSteps(counters, history, Recount(segs), |segs|, 0);
      AppendIn(mem, segs, heapTop - size, first, last, size);
      n := last + HEADER + HeaderAt(mem, last).size;
      StoreAppend(n, size);
      counters := AfterGrowth(counters);
      last := n;
      segs := Appended(segs, size);
      history := history.(growths := history.growths + 1);
    }

    /** The header stores of `expand_heap`. */
    method StoreAppend(n: int, size: int)
      requires BackedOk() && HeaderIn(n, heapTop) && HeaderIn(last, heapTop)
      modifies this`mem, space`mem
      ensures BackedOk() && mem == AppendStores(old(mem), last, n, size)
    {
      hide Put, BackedOk, InHeap, HeaderIn;
      HeaderWords(n, heapTop);
      HeaderWords(last, heapTop);
      Poke(n + USED, 0);
      Poke(n + PREV, last);
      Poke(n, CANARY0);
      Poke(n + CANARY1_AT, CANARY1);
      Poke(last + NEXT, n);
      Poke(n + NEXT, 0);
      Poke(n + SIZE, size - HEADER);
    }

    /** The loop of `expand_heap`. */
    method MapPages(count: nat) returns (ok: bool)
      requires BackedOk() && heapTop + count * PAGE <= U64 - PAGE
      modifies this`mem, this`heapTop, this`pages, space, space.pmm, space.pmm.tags
      ensures ok ==> BackedOk() && heapTop == old(heapTop) + count * PAGE && SameBelow(old(mem), mem, old(heapTop))
      ensures !ok ==> NoPages(old(space.mem), old(heapTop), count * PAGE)
    {
      hide HeapMemory, Tree, NormalForm, Disjoint, LargeOnPath;
      ok := true;
      for i := 0 to count
        invariant BackedOk() && heapTop == old(heapTop) + i * PAGE
        invariant SameBelow(old(mem), mem, old(heapTop)) && NoNewLarge(old(space.mem), space.mem, space.root)
      {
        ok := MapNewPage();
        if !ok { return; }
      }
    }

    /** One turn of it. */
    method MapNewPage() returns (ok: bool)
      requires BackedOk() && heapTop + PAGE <= U64 - PAGE
      modifies this`mem, this`heapTop, this`pages, space, space.pmm, space.pmm.tags
      ensures ok ==> BackedOk() && heapTop == old(heapTop) + PAGE && SameBelow(old(mem), mem, old(heapTop))
      ensures ok ==> NoNewLarge(old(space.mem), space.mem, space.root)
      ensures Index4(old(heapTop)) != FRACTAL_INDEX
      ensures !ok ==> space.pmm.count == 0 || LargeOnPath(old(space.mem), space.root, old(heapTop))
    {
      hide HeapMemory, Tree, NormalForm, Disjoint, Pages, Index4, LargeOnPath, SameBelow, NoNewLarge, OnlyAddedTables, Unused;
      TopIndex(mem, space.mem, space.root, space.role, space.pmm.Free(), pages, heapTop);
      ghost var role, free := space.role, space.pmm.Free();
      var page: int;
      ok, page := space.pmm.RequestPage();
      if !ok { return; }
      PageUnused(mem, space.mem, space.root, role, free, pages, heapTop, page, space.pmm.Free());
      ok := MapHeapPage(page);
    }

    method SpinLock()
      requires lock == 0
      modifies this`lock
      ensures lock == 1
    {
      lock := 1;
    }

    method SpinUnlock()
      modifies this`lock
      ensures lock == 0
    {
      lock := 0;
    }

    /** Set or clear the used flag of segment `i` and move its bytes between the counters. */
    method Mark(seg: int, used: bool, ghost i: nat)
      requires ListOk() && CountersOk() && BackedOk() && i < |segs| && seg == segs[i].addr && (used ==> !segs[i].used)
      modifies this`mem, this`counters, this`segs, this`history, space`mem
      ensures ListOk() && CountersOk() && BackedOk() && segs == Marked(old(segs), i, used)
      ensures var x := old(segs)[i];
              Moved(old(counters), old(history), counters, history, if used then x.size else -x.size, 0, 0, 0,
                    if used || x.used then 0 else x.size)
      ensures used ==> Live(segs) == Live(old(segs)) + {segs[i]} && Kept(old(mem), mem, Live(old(segs)))
      ensures !used ==> Live(segs) == Live(old(segs)) - {old(segs)[i]} && Kept(old(mem), mem, Live(segs))
    {
      hide Moved, Linkage, CounterLaw, Recount, Live, Kept, HeaderAt, BackedOk, InHeap, HeaderIn;
      HeadersIn(mem, segs, heapTop, first, last, i);
      HeaderWords(seg, heapTop);
      MarkFacts(mem, segs, heapTop, first, last, i, used);
      ghost var x := segs[i];
      MarkMoves(counters, history, x, used);
      MarkCounts(counters, history, Recount(segs), |segs|, x, used);
      Poke(seg + USED, if used then 1 else 0);
      var size := HeaderAt(mem, seg).size;
      counters := AfterTake(counters, if used then size else -size);
      history := AfterMark(history, x, used);
      segs := Marked(segs, i, used);
    }

    /** `kfree`.  `addr` is null or the payload of a current segment; freeing a segment that
        is already free only upsets the counters. */
    method KFree(addr: int, ghost i: nat) returns (ok: bool)
      requires Valid() && (addr != 0 ==> i < |segs| && addr == segs[i].Payload())
      modifies this`mem, this`last, this`counters, this`segs, this`history, this`lock, space`mem
      ensures ok && Valid()
      ensures addr == 0 ==> segs == old(segs) && mem == old(mem) && counters == old(counters)
      ensures addr != 0 ==> segs == Freed(old(segs), i) && Live(segs) == Live(old(segs)) - {old(segs)[i]}
      ensures addr != 0 ==> Kept(old(mem), mem, Live(segs))
      ensures addr != 0 ==> var x := old(segs)[i];
              Moved(old(counters), old(history), counters, history, -x.size, 0, |old(segs)| - |segs|, 0, if x.used then 0 else x.size)
      ensures addr == 0 ==> history == old(history)
    {
      hide Moved, Linkage, CounterLaw, Recount, Live, BackedOk, Coalesced;
      if addr == 0 { return true; }
      SpinLock();
      FreedCoalesced(segs, i);
      ok := Release(addr - HEADER, i);
      SpinUnlock();
    }

    /** The part of `kfree` under the lock. */
    method Release(seg: int, ghost i: nat) returns (ok: bool)
      requires ListOk() && CountersOk() && BackedOk() && i < |segs| && seg == segs[i].addr
      modifies this`mem, this`last, this`counters, this`segs, this`history, space`mem
      ensures ok && ListOk() && CountersOk() && BackedOk() && segs == Freed(old(segs), i)
      ensures var x := old(segs)[i];
              Moved(old(counters), old(history), counters, history, -x.size, 0, |old(segs)| - |segs|, 0, if x.used then 0 else x.size)
      ensures Live(segs) == Live(old(segs)) - {old(segs)[i]} && Kept(old(mem), mem, Live(segs))
    {
      hide Moved, Linkage, CounterLaw, Recount, Live, HeaderAt, Merged, BackedOk;
      LinkFacts(mem, segs, heapTop, first, last, i);
      ok := CheckCanary(seg);
      if !ok { return; }
      ghost var m0, c0, h0, x := mem, counters, history, segs[i];
      Mark(seg, false, i);
      ghost var m1, c1, h1, l1 := mem, counters, history, |segs|;
      ForwardStays(segs, i);
      ok := CombineForward(seg, i);
      ghost var m2, c2, h2, l2 := mem, counters, history, |segs|;
      ok := CombineBackward(seg, i);
      ghost var t := if x.used then 0 else x.size;
      MovedBoth(c0, h0, c1, h1, c2, h2, -x.size, 0, 0, 0, t, 0, 0, l1 - l2, 0, 0);
      MovedBoth(c0, h0, c2, h2, counters, history, -x.size, 0, l1 - l2, 0, t, 0, 0, l2 - |segs|, 0, 0);
      KeptTransitive(m0, m1, m2, Live(segs));
      KeptTransitive(m0, m2, mem, Live(segs));
    }

    /** The search loop of `kmalloc`, up to the first segment that it takes; zero if it takes none. */
    method Search(size: int) returns (ok: bool, seg: int, ghost i: nat)
      requires ListOk() && size >= 16
      ensures ok && (seg != 0 <==> HasFit(segs, size))
      ensures seg != 0 ==> FirstFitting(segs, i, size) && seg == segs[i].addr
    {
      hide Linkage, HeaderAt;
      AllLinked(mem, segs, heapTop, first, last);
      FirstFacts(mem, segs, heapTop, first, last);
      i := 0;
      ok, seg := true, first;
      while true
        invariant ok && i < |segs| && seg == segs[i].addr && seg > 0
        invariant forall k :: 0 <= k < i ==> !Fits(segs[k], size)
        decreases |segs| - i
      {
        if seg == 0 { return false, 0, i; }
        ok := CheckCanary(seg);
        if !ok { return; }
        if HeaderAt(mem, seg).used == 0 {
          if HeaderAt(mem, seg).size > size + 2 * HEADER || HeaderAt(mem, seg).size >= size { return; }
        }
        if HeaderAt(mem, seg).next == 0 { return ok, 0, i; }
        seg := HeaderAt(mem, seg).next;
        i := i + 1;
      }
    }

    /** One round of `kmalloc` under the lock, as far as it takes a segment: first fit. */
    method TryAllocate(size: int) returns (ok: bool, ptr: int, ghost i: nat)
      requires ListOk() && CountersOk() && BackedOk() && size >= 16 && size % 16 == 0
      modifies this`mem, this`last, this`counters, this`segs, this`history, space`mem
      ensures ok && ListOk() && CountersOk() && BackedOk() && (ptr != 0 <==> HasFit(old(segs), size))
      ensures ptr == 0 ==> segs == old(segs) && mem == old(mem) && counters == old(counters) && history == old(history)
      ensures ptr == 0 ==> space.mem == old(space.mem)
      ensures ptr != 0 ==> FirstFitting(old(segs), i, size) && segs == Take(old(segs), i, size)
      ensures ptr != 0 ==> i < |segs| && ptr == segs[i].Payload()
      ensures ptr != 0 ==> Moved(old(counters), old(history), counters, history, segs[i].size, |segs| - |old(segs)|, 0, 0, 0)
      ensures ptr != 0 ==> Live(segs) == Live(old(segs)) + {segs[i]}
      ensures Kept(old(mem), mem, Live(old(segs)))
    {
      hide Take, Moved, Kept, Linkage, Recount, Live, HeaderAt, CounterLaw, BackedOk, HasFit;
      KeptSame(mem, Live(segs));
      var seg: int;
      ok, seg, i := Search(size);
      if seg == 0 { return ok, 0, i; }
      AllLinked(mem, segs, heapTop, first, last);
      if HeaderAt(mem, seg).size > size + 2 * HEADER {
        CutAndMark(seg, size, i);
      } else {
        TakeWhole(seg, size, i);
      }
      ptr := seg + HEADER;
    }

    /** A segment much larger than the request: split it and take the front. */
    method CutAndMark(seg: int, size: int, ghost i: nat)
      requires ListOk() && CountersOk() && BackedOk() && i < |segs| && seg == segs[i].addr && !segs[i].used
      requires size >= 16 && size % 16 == 0 && segs[i].size > size + 2 * HEADER
      modifies this`mem, this`last, this`counters, this`segs, this`history, space`mem
      ensures ListOk() && CountersOk() && BackedOk() && segs == Take(old(segs), i, size)
      ensures i < |segs| && segs[i].addr == seg && Kept(old(mem), mem, Live(old(segs)))
      ensures Live(segs) == Live(old(segs)) + {segs[i]}
      ensures Moved(old(counters), old(history), counters, history, segs[i].size, |segs| - |old(segs)|, 0, 0, 0)
    {
      hide Moved, Linkage, Recount, Live, CounterLaw, BackedOk, Kept;
      ghost var m0, s0, c0, h0 := mem, segs, counters, history;
      HeapSplit(seg, size, i);
      ghost var m1, c1, h1 := mem, counters, history;
      Mark(seg, true, i);
      MovedBoth(c0, h0, c1, h1, counters, history, 0, 1, 0, 0, 0, segs[i].size, 0, 0, 0, 0);
      KeptTransitive(m0, m1, mem, Live(s0));
    }

    /** Any other segment that fits: take it whole. */
    method TakeWhole(seg: int, size: int, ghost i: nat)
      requires ListOk() && CountersOk() && BackedOk() && i < |segs| && seg == segs[i].addr && !segs[i].used
      requires segs[i].size <= size + 2 * HEADER
      modifies this`mem, this`last, this`counters, this`segs, this`history, space`mem
      ensures ListOk() && CountersOk() && BackedOk() && segs == Take(old(segs), i, size)
      ensures i < |segs| && segs[i].addr == seg && Kept(old(mem), mem, Live(old(segs)))
      ensures Live(segs) == Live(old(segs)) + {segs[i]}
      ensures Moved(old(counters), old(history), counters, history, segs[i].size, |segs| - |old(segs)|, 0, 0, 0)
    {
      hide Moved, Linkage, Recount, Live, CounterLaw, BackedOk, Kept;
      Mark(seg, true, i);
    }

    /** `kmalloc`.  `ok` is false only where nothing fits and the heap cannot grow: no page is
        left, or a large-page bit is in the way.  Requests that would carry `heap_top` past the
        end of the address space are excluded. */
    method KMalloc(n: int) returns (ok: bool, ptr: int, ghost i: nat)
      requires Valid() && 0 <= n && RoundUp(n, 16) + 2 * HEADER < U64
      requires !HasFit(segs, RoundUp(n, 16)) ==> heapTop + Growth(RoundUp(n, 16)) <= U64 - PAGE
      modifies this, space, space.pmm, space.pmm.tags
      ensures n == 0 ==> ok && ptr == 0 && segs == old(segs) && mem == old(mem) && counters == old(counters)
      ensures n == 0 ==> history == old(history)
      ensures !ok ==> !HasFit(old(segs), RoundUp(n, 16)) && NoPages(old(space.mem), old(heapTop), Growth(RoundUp(n, 16)))
      ensures ok ==> Valid() && Kept(old(mem), mem, Live(old(segs)))
      ensures ok && n > 0 ==> Served(old(segs), RoundUp(n, 16), segs, i) && ptr == segs[i].Payload() && ptr % 16 == 0
      ensures ok && n > 0 ==> Live(segs) == Live(old(segs)) + {segs[i]} && segs[i] !in Live(old(segs))
      ensures ok && n > 0 ==> Charged(old(segs), RoundUp(n, 16), segs, i, old(counters), old(history), counters, history)
      decreases if HasFit(segs, RoundUp(n, 16)) then 0 else 1
    {
      hide Charged, Moved, Served, HasFit, Linkage, CounterLaw, Recount, Live, Kept, BackedOk, Coalesced, Expanded, Take,
        RoundUp, Growth, LargeOnPath;
      RoundUpSixteen(n);
      RoundUpSixteen(RoundUp(n, 16));
      i := 0;
      var size := n;
      if size % 0x10 > 0 {
        size := size - size % 0x10;
        size := size + 0x10;
      }
      if size == 0 {
        KeptSame(mem, Live(segs));
        return true, 0, 0;
      }
      SpinLock();
      ok, ptr, i := Allocate(size);
      if ptr != 0 {
        ChargedOnce(old(segs), size, segs, i, old(counters), old(history), counters, history);
        SpinUnlock();
        return;
      }
      ghost var s0, m0, c0, h0 := segs, mem, counters, history;
      ok := Grow(size);
      if !ok { return; }
      SpinUnlock();
      ghost var m1, c1, h1, s1 := mem, counters, history, segs;
      ok, ptr, i := KMalloc(size);
      ServedGrown(s0, size, s1, segs, i);
      ChargedGrown(s0, size, s1, segs, i, c0, h0, c1, h1, counters, history);
      KeptTransitive(m0, m1, mem, Live(s0));
    }

    /** The search of `kmalloc`, and what it finds. */
    method Allocate(size: int) returns (ok: bool, ptr: int, ghost i: nat)
      requires ListOk() && CountersOk() && BackedOk() && Coalesced(segs) && size >= 16 && size % 16 == 0
      modifies this`mem, this`last, this`counters, this`segs, this`history, space`mem
      ensures ok && ListOk() && CountersOk() && BackedOk() && Coalesced(segs) && (ptr != 0 <==> HasFit(old(segs), size))
      ensures ptr == 0 ==> segs == old(segs) && mem == old(mem) && counters == old(counters) && history == old(history)
                            && space.mem == old(space.mem)
      ensures ptr != 0 ==> Served(old(segs), size, segs, i) && i < |segs| && ptr == segs[i].Payload() && ptr % 16 == 0
      ensures ptr != 0 ==> Moved(old(counters), old(history), counters, history, segs[i].size, |segs| - |old(segs)|, 0, 0, 0)
      ensures ptr != 0 ==> Live(segs) == Live(old(segs)) + {segs[i]} && segs[i] !in Live(old(segs))
      ensures Kept(old(mem), mem, Live(old(segs)))
    {
      hide Moved, Linkage, Tiles, CounterLaw, Recount, Live, Kept, Coalesced, Expanded, Take, BackedOk;
      LinkageTiles(mem, segs, heapTop, first, last);
      ok, ptr, i := TryAllocate(size);
      if ptr != 0 {
        TakeFacts(old(segs), heapTop, i, size);
      }
    }

    /** The failed search of `kmalloc`: afterwards the last segment, and only it, fits. */
    method Grow(size: int) returns (ok: bool)
      requires ListOk() && CountersOk() && BackedOk() && Coalesced(segs) && size >= 16 && size % 16 == 0
      requires !HasFit(segs, size) && heapTop + Growth(size) <= U64 - PAGE
      modifies this`mem, this`last, this`counters, this`segs, this`history
      modifies this`heapTop, this`pages, space, space.pmm, space.pmm.tags
      ensures ok ==> ListOk() && CountersOk() && BackedOk() && Coalesced(segs)
      ensures old(segs) != [] && (ok ==> segs == Expanded(old(segs), Growth(size)) && HasFit(segs, size))
      ensures ok ==> Moved(old(counters), old(history), counters, history, 0, 0, |old(segs)| + 1 - |segs|, 1, 0)
      ensures ok ==> Kept(old(mem), mem, Live(old(segs))) && Live(segs) == Live(old(segs))
      ensures !ok ==> NoPages(old(space.mem), old(heapTop), Growth(size))
    {
      hide Moved, Linkage, Tiles, CounterLaw, Recount, Live, Kept, HeapMemory, Coalesced, Tree, NormalForm, Disjoint, Pages, Expanded,
        LargeOnPath;
      LinkageTiles(mem, segs, heapTop, first, last);
      ExpandedFits(segs, heapTop, size);
      ok := ExpandHeap(size + HEADER);
    }

    /** `heap_get_used`, `heap_get_free` and `heap_get_overhead`, in machine arithmetic. */
    method GetCounters() returns (used: int, free: int, overhead: int)
      requires CountersOk()
      ensures used == counters.used % 0x1_0000_0000_0000_0000 && free == counters.free % 0x1_0000_0000_0000_0000
      ensures overhead == counters.overhead % 0x1_0000_0000_0000_0000
      ensures used == Wrap64(Recount(segs) - 48 * history.splits - history.freedTwice)
      ensures Wrap64(used + free) == Wrap64(0x1_0000 + 56 * history.growths)
      ensures overhead == Wrap64(48 * |segs| + 96 * history.merges)
    {
      used, free, overhead := Wrap64(counters.used), Wrap64(counters.free), Wrap64(counters.overhead);
      WrapSum(counters.used, counters.free);
      assert HEADER * (1 + history.splits + history.merges + history.growths) == HEADER * |segs| + 2 * HEADER * history.merges;
    }

    /** `heap_get_used_old`: the recount, in 32 bits. */
    method GetUsedOld() returns (ok: bool, used: int)
      requires ListOk()
      ensures ok && used == U32(Recount(segs))
    {
      hide Linkage, HeaderAt, U32;
      U32Zero();
      FirstFacts(mem, segs, heapTop, first, last);
      ok, used := true, 0;
      var c := first;
      ghost var i := 0;
      while c != 0
        invariant ok && 0 <= i <= |segs| && c == (if i < |segs| then segs[i].addr else 0)
        invariant used == U32(Recount(segs[..i])) && (i < |segs| ==> c > 0)
        decreases |segs| - i
      {
        LinkFacts(mem, segs, heapTop, first, last, i);
        ok := CheckCanary(c);
        used := U32(used + HEADER);
        if HeaderAt(mem, c).used != 0 {
          used := U32(used + HeaderAt(mem, c).size);
        }
        c := HeaderAt(mem, c).next;
        RecountNext(segs, i);
        U32Add(Recount(segs[..i]), HEADER);
        U32Add(Recount(segs[..i]) + HEADER, segs[i].size);
        i := i + 1;
      }
      assert segs[..|segs|] == segs;
    }

    /** A client stores `v` in a word of a live block. */
    method StoreInBlock(a: int, v: int, ghost b: Seg)
      requires Valid() && b in Live(segs) && b.Payload() <= a < b.End() && a % 8 == 0
      modifies this`mem, space`mem
      ensures Valid() && mem == Put(old(mem), a, v)
    {
      hide Linkage, CounterLaw, Recount, Live, HeapMemory, Coalesced, Tree, NormalForm, Disjoint, Pages;
      StoreFacts(mem, segs, heapTop, first, last, a, v, b);
      BlockIn(mem, segs, heapTop, first, last, b);
      Poke(a, v);
    }
  }

  function U32(x: int): int { x % 0x1_0000_0000 }

  /** Thirty-two bits: a number that fits is itself, and others differ from it by a multiple. */
  lemma U32Fits(x: int)
    ensures 0 <= U32(x) < 0x1_0000_0000 && (U32(x) == x <==> 0 <= x < 0x1_0000_0000)
    ensures (x - U32(x)) % 0x1_0000_0000 == 0
  {}

  lemma U32Zero()
    ensures U32(0) == 0 && Recount([]) == 0
  {}

  lemma U32Add(a: int, b: int)
    ensures U32(U32(a) + b) == U32(a + b)
  {}

  lemma WrapSum(a: int, b: int)
    ensures Wrap64(Wrap64(a) + Wrap64(b)) == Wrap64(a + b)
  {}

  lemma RecountNext(s: seq<Seg>, i: int)
    requires 0 <= i < |s|
    ensures Recount(s[..i + 1]) == Recount(s[..i]) + HEADER + Counted(s[i])
  {
    assert s[..i + 1] == s[..i] + [s[i]];
    RecountConcat(s[..i], [s[i]]);
    RecountFew(s[i], s[i]);
  }

}
