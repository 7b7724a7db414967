/** The list of headers in memory with its two ends, and what each operation of the heap does
    to it, to the recount and to the live blocks. */
module HeapLinks {
  import opened Machine
  import opened HeapSegments
  import opened HeapPolicy

  const INITIAL_PAGES := 16

  function RoundUp(n: int, unit: int): int
    requires unit > 0
  {
    if n % unit > 0 then n - n % unit + unit else n
  }

  /** The bytes by which a failed search for `size` bytes grows the heap. */
  function Growth(size: int): int { RoundUp(size + HEADER, PAGE) }

  /** Requests become multiples of sixteen, the next from `n` on. */
  lemma RoundUpSixteen(n: int)
    requires n >= 0
    ensures var r := RoundUp(n, 16);
            && r % 16 == 0 && n <= r < n + 16 && r == (if n % 16 > 0 then n - n % 16 + 16 else n) && (n % 16 == 0 ==> r == n)
  {
    assert n - n % 16 == 16 * (n / 16);
  }

  /** A growth is of whole pages, and no page more than the request and its header need. */
  lemma GrowthBounds(size: int)
    requires size >= 0
    ensures Growth(size) % 0x1000 == 0 && size + 48 <= Growth(size) < size + 48 + 0x1000 && Growth(size) % 16 == 0
  {
    var n := size + HEADER;
    var q := if n % PAGE > 0 then n / PAGE + 1 else n / PAGE;
    WholePages(q);
    assert Growth(size) == q * PAGE;
  }

  lemma WholePages(q: nat)
    ensures (q * PAGE) % PAGE == 0 && q * PAGE / PAGE == q && (q * PAGE) % 16 == 0
  {
    DivMod(q, 0, PAGE);
    DivMod(256 * q, 0, 16);
    assert q * PAGE == (256 * q) * 16;
  }

  function FirstSegment(): Seg { Seg(HEAP_BASE, INITIAL_PAGES * PAGE - HEADER, false) }

  /** The stores of `heap_init`. */
  function FirstStores(m: Words): Words {
    var m1 := Put(Put(m, HEAP_BASE + NEXT, 0), HEAP_BASE + PREV, 0);
    var m2 := Put(Put(m1, HEAP_BASE + SIZE, INITIAL_PAGES * PAGE - HEADER), HEAP_BASE + USED, 0);
    Put(Put(m2, HEAP_BASE, CANARY0), HEAP_BASE + CANARY1_AT, CANARY1)
  }

  lemma FirstHeader(m: Words)
    ensures Tiled(FirstStores(m), [FirstSegment()], HEAP_BASE + INITIAL_PAGES * PAGE) && Recount([FirstSegment()]) == HEADER
  {}

  /** The headers form the list of segments, and `first` and `last` are its ends. */
  ghost predicate Linkage(m: Words, s: seq<Seg>, top: int, first: int, last: int) {
    Tiled(m, s, top) && first == HEAP_BASE && last == s[|s| - 1].addr
  }

  /** The header of segment `i` as the code reads it. */
  lemma HeaderFacts(m: Words, s: seq<Seg>, top: int, i: int)
    requires Tiled(m, s, top) && 0 <= i < |s|
    ensures HeaderAt(m, s[i].addr) == HeaderFor(s, i) && s[i].addr > 0
    ensures (PrevAddr(s, i) != 0 <==> i > 0) && (i > 0 ==> PrevAddr(s, i) == s[i - 1].addr)
    ensures (NextAddr(s, i) != 0 <==> i + 1 < |s|) && (i + 1 < |s| ==> NextAddr(s, i) == s[i + 1].addr == s[i].End())
  {
    assert Header(m, s, i);
    Separate(s, top, i, i);
    if i + 1 < |s| { Separate(s, top, i + 1, i); }
    if i > 0 { Separate(s, top, i - 1, i); }
  }

  /** The six words of a header and where the payload begins; addresses are those of the list's
      segments, which follow one another from the bottom of the heap to its top. */
  lemma HeaderLayout(m: Words, s: seq<Seg>, top: int, first: int, last: int, i: int)
    requires Linkage(m, s, top, first, last) && 0 <= i < |s|
    ensures var a := s[i].addr;
            && m(a) == 0x6865617062697264 && m(a + 40) == 0x6269726468656170
            && m(a + 8) == s[i].size && m(a + 32) == (if s[i].used then 1 else 0)
            && m(a + 16) == (if i == 0 then 0 else s[i - 1].addr) && m(a + 24) == (if i + 1 < |s| then s[i + 1].addr else 0)
            && s[i].Payload() == a + 48 && a + 48 + s[i].size == (if i + 1 < |s| then s[i + 1].addr else top)
    ensures first == s[0].addr == 0xffff_fff8_0000_0000 && last == s[|s| - 1].addr
  {
    assert Header(m, s, i);
    assert m(s[i].addr) == HeaderAt(m, s[i].addr).canary0;
  }

  lemma MergeFacts(m: Words, s: seq<Seg>, top: int, first: int, last: int, i: int)
    requires Linkage(m, s, top, first, last) && 0 <= i < |s| - 1 && !s[i].used && !s[i + 1].used
    ensures Linkage(MergeStores(m, s[i].addr), Merged(s, i), top, first, if s[i + 1].addr == last then s[i].addr else last)
    ensures Kept(m, MergeStores(m, s[i].addr), Live(s)) && Live(Merged(s, i)) == Live(s)
    ensures Recount(Merged(s, i)) == Recount(s) - HEADER && |Merged(s, i)| == |s| - 1
    ensures HeaderAt(m, s[i].addr).next == s[i + 1].addr
  {
    hide Header, HeaderAt, MergeStores, Recount, Live, OnlyHeaders, Kept, Tiles;
    HeaderFacts(m, s, top, i);
    MergeKeeps(m, s, top, i);
    Separate(s, top, i + 1, |s| - 1);
    HeadersMissPayloads(m, MergeStores(m, s[i].addr), s, top);
    LiveMerged(s, i);
    RecountMerged(s, i);
  }

  lemma SplitFacts(m: Words, s: seq<Seg>, top: int, first: int, last: int, i: int, size: int)
    requires Linkage(m, s, top, first, last) && CanSplit(s, i, size) && !s[i].used
    ensures Linkage(SplitStores(m, s[i].addr, size), Split(s, i, size), top, first,
                    if last == s[i].addr then s[i].addr + size + HEADER else last)
    ensures Kept(m, SplitStores(m, s[i].addr, size), Live(s)) && Live(Split(s, i, size)) == Live(s)
    ensures Recount(Split(s, i, size)) == Recount(s) + HEADER && |Split(s, i, size)| == |s| + 1
  {
    hide Header, HeaderFor, HeaderAt, SplitStores, Recount, Live, OnlyHeaders, Kept;
    SplitKeeps(m, s, top, i, size);
    SplitTiles(s, top, i, size);
    Separate(s, top, i, |s| - 1);
    HeadersMissPayloads(m, SplitStores(m, s[i].addr, size), Split(s, i, size), top);
    LiveSplit(s, i, size);
    RecountSplit(s, i, size);
  }

  lemma AppendFacts(m: Words, s: seq<Seg>, top: int, first: int, last: int, size: int)
    requires Linkage(m, s, top, first, last) && size >= HEADER + 16 && size % 16 == 0
    ensures Linkage(AppendStores(m, last, top, size), Appended(s, size), top + size, first, top)
    ensures Kept(m, AppendStores(m, last, top, size), Live(s)) && Live(Appended(s, size)) == Live(s)
    ensures Recount(Appended(s, size)) == Recount(s) + HEADER && |Appended(s, size)| == |s| + 1
    ensures last + HEADER + HeaderAt(m, last).size == top && Appended(s, size)[|s|].addr == top
  {
    HeaderFacts(m, s, top, |s| - 1);
    AppendKeeps(m, s, top, size);
    AppendTiles(s, top, size);
    HeadersMissPayloads(m, AppendStores(m, last, top, size), Appended(s, size), top + size);
    LiveAppended(s, size);
    RecountAppended(s, size);
  }

  lemma MarkFacts(m: Words, s: seq<Seg>, top: int, first: int, last: int, i: int, used: bool)
    requires Linkage(m, s, top, first, last) && 0 <= i < |s|
    ensures var m1, r := Put(m, s[i].addr + USED, if used then 1 else 0), Marked(s, i, used);
            && Linkage(m1, r, top, first, last)
            && (used && !s[i].used ==> Live(r) == Live(s) + {r[i]} && Kept(m, m1, Live(s)))
            && (!used ==> Live(r) == Live(s) - {s[i]} && Kept(m, m1, Live(r)))
            && Recount(r) == Recount(s) - Counted(s[i]) + (if used then s[i].size else 0)
            && HeaderAt(m1, s[i].addr).size == s[i].size && |r| == |s|
  {
    MarkKeeps(m, s, top, i, used);
    var m1, r := Put(m, s[i].addr + USED, if used then 1 else 0), Marked(s, i, used);
    HeadersMissPayloads(m, m1, r, top);
    HeaderFacts(m1, r, top, i);
    LiveMarked(s, top, i, used);
    RecountMarked(s, i, used);
  }

  lemma FirstFacts(m: Words, s: seq<Seg>, top: int, first: int, last: int)
    requires Linkage(m, s, top, first, last)
    ensures |s| > 0 && first == s[0].addr > 0
  {
  }

  lemma LinkFacts(m: Words, s: seq<Seg>, top: int, first: int, last: int, i: int)
    requires Linkage(m, s, top, first, last) && 0 <= i < |s|
    ensures HeaderAt(m, s[i].addr) == HeaderFor(s, i) && s[i].addr > 0
    ensures (NextAddr(s, i) != 0 <==> i + 1 < |s|) && (i + 1 < |s| ==> NextAddr(s, i) == s[i + 1].addr > 0)
  {
    HeaderFacts(m, s, top, i);
    if i + 1 < |s| { HeaderFacts(m, s, top, i + 1); }
  }

  /** What a successful request of `size` bytes does: the first segment that fits, in the
      heap as it is or grown once, becomes block `i`, whole or, if more than 96 bytes larger,
      cut to size. */
  ghost predicate Served(s0: seq<Seg>, size: int, s: seq<Seg>, i: nat) {
    var s1 := if HasFit(s0, size) || s0 == [] then s0 else Expanded(s0, Growth(size));
    && FirstFitting(s1, i, size) && s == Take(s1, i, size)
    && i < |s| && s[i].used && s[i].addr == s1[i].addr
    && (if s1[i].size > size + 96 then s[i].size == size && |s| == |s1| + 1 else s[i].size == s1[i].size && |s| == |s1|)
  }

  lemma ServedGrown(s0: seq<Seg>, size: int, s1: seq<Seg>, s: seq<Seg>, i: nat)
    requires s0 != [] && !HasFit(s0, size) && s1 == Expanded(s0, Growth(size)) && HasFit(s1, size) && Served(s1, size, s, i)
    ensures Served(s0, size, s, i)
  {
    hide HasFit, Expanded, FirstFitting, Take, Growth;
  }

  /** Freeing a block just handed out gives back the list as it was, or, if the heap had to
      grow for it, the list as growing left it. */
  lemma FreeUndoesMalloc(s0: seq<Seg>, size: int, s: seq<Seg>, i: nat)
    requires s0 != [] && Coalesced(s0) && Served(s0, size, s, i)
    ensures Freed(s, i) == if HasFit(s0, size) then s0 else Expanded(s0, Growth(size))
  {
    ExpandedCoalesced(s0, Growth(size));
    FreeUndoesTake(if HasFit(s0, size) then s0 else Expanded(s0, Growth(size)), i, size);
  }

  lemma LinkageTiles(m: Words, s: seq<Seg>, top: int, first: int, last: int)
    requires Linkage(m, s, top, first, last)
    ensures Tiles(s, top) && |s| > 0
  {
  }

  lemma TakeFacts(s: seq<Seg>, top: int, i: int, size: int)
    requires Tiles(s, top) && Coalesced(s) && FirstFitting(s, i, size) && size >= 16
    ensures var r := Take(s, i, size);
            && i < |r| && r[i].used && r[i].addr == s[i].addr && r[i].Payload() % 16 == 0
            && (if s[i].size > size + 96 then r[i].size == size && |r| == |s| + 1 else r[i].size == s[i].size && |r| == |s|)
            && r[i] !in Live(s) && Coalesced(r) && HasFit(s, size)
  {
    hide Coalesced;
    TakeCoalesced(s, i, size);
    Aligned(s, top, i);
    AllOrdered(s, top);
  }

  /** After growing, exactly the last segment fits. */
  lemma ExpandedFits(s: seq<Seg>, top: int, size: int)
    requires Tiles(s, top) && Coalesced(s) && !HasFit(s, size) && size >= 16
    ensures var e := Expanded(s, Growth(size));
            Coalesced(e) && HasFit(e, size) && forall i :: FirstFitting(e, i, size) ==> i == |e| - 1
  {
    ExpandedCoalesced(s, Growth(size));
    var e := Expanded(s, Growth(size));
    assert Fits(e[|e| - 1], size);
    forall k | 0 <= k < |e| - 1 ensures !Fits(e[k], size) {
      assert e[k] == s[k];
    }
  }

  lemma KeptSame(m: Words, blocks: set<Seg>)
    ensures Kept(m, m, blocks)
  {
  }

  lemma KeptTransitive(m0: Words, m1: Words, m2: Words, blocks: set<Seg>)
    requires Kept(m0, m1, blocks) && Kept(m1, m2, blocks)
    ensures Kept(m0, m2, blocks)
  {
  }

  /** Two live blocks never overlap, and both lie inside the heap. */
  lemma BlocksApart(s: seq<Seg>, top: int, b: Seg, c: Seg)
    requires Tiles(s, top) && b in Live(s) && c in Live(s)
    ensures b != c ==> b.End() <= c.addr || c.End() <= b.addr
    ensures HEAP_BASE + HEADER <= b.Payload() && b.End() <= top
  {
    AllOrdered(s, top);
  }

  /** A store inside a live block hits no header. */
  lemma StoreFacts(m: Words, s: seq<Seg>, top: int, first: int, last: int, a: int, v: int, b: Seg)
    requires Linkage(m, s, top, first, last) && b in Live(s) && b.Payload() <= a < b.End()
    ensures Linkage(Put(m, a, v), s, top, first, last)
  {
    AllOrdered(s, top);
    var j :| 0 <= j < |s| && s[j] == b;
    forall i | 0 <= i < |s| ensures Header(Put(m, a, v), s, i) {
      assert Header(m, s, i) && (a < s[i].addr || s[i].Payload() <= a);
    }
  }

  // ----- Where the headers are

  predicate HeaderIn(a: int, top: int) { HEAP_BASE <= a && a + HEADER <= top && a % 16 == 0 }

  lemma HeadersIn(m: Words, s: seq<Seg>, top: int, first: int, last: int, i: int)
    requires Linkage(m, s, top, first, last) && 0 <= i < |s|
    ensures HeaderIn(s[i].addr, top) && s[i].End() <= top && HeaderIn(last, top)
    ensures HeaderAt(m, s[i].addr).next != 0 ==> i + 1 < |s| && HeaderIn(HeaderAt(m, s[i].addr).next, top)
  {
    LinkFacts(m, s, top, first, last, i);
    AllOrdered(s, top);
    Aligned(s, top, i);
    Aligned(s, top, |s| - 1);
    if i + 1 < |s| { Aligned(s, top, i + 1); }
  }

  lemma SplitIn(m: Words, s: seq<Seg>, top: int, first: int, last: int, i: int, size: int)
    requires Linkage(m, s, top, first, last) && CanSplit(s, i, size)
    ensures HeaderIn(s[i].addr + size + HEADER, top) && size >= 0
  {
    HeadersIn(m, s, top, first, last, i);
  }

  lemma AppendIn(m: Words, s: seq<Seg>, top: int, first: int, last: int, size: int)
    requires Linkage(m, s, top, first, last) && size >= HEADER
    ensures |s| > 0 && HeaderIn(last, top + size) && HeaderIn(top, top + size)
  {
    HeadersIn(m, s, top, first, last, |s| - 1);
  }

  /** The words of a live block are words of the heap. */
  lemma BlockIn(m: Words, s: seq<Seg>, top: int, first: int, last: int, b: Seg)
    requires Linkage(m, s, top, first, last) && b in Live(s)
    ensures HEAP_BASE < b.Payload() && b.End() <= top && b.Payload() % 16 == 0
  {
    var i :| 0 <= i < |s| && s[i] == b;
    HeadersIn(m, s, top, first, last, i);
  }

  /** The words are the same below `top`. */
  ghost predicate SameBelow(m0: Words, m: Words, top: int) {
    forall a :: a < top ==> m(a) == m0(a)
  }

  /** Words from `top` on have no part in the list. */
  lemma ListBelow(m0: Words, m: Words, s: seq<Seg>, top: int, first: int, last: int)
    requires Linkage(m0, s, top, first, last) && SameBelow(m0, m, top)
    ensures Linkage(m, s, top, first, last) && Kept(m0, m, Live(s))
  {
    AllOrdered(s, top);
    forall i | 0 <= i < |s| ensures Header(m, s, i) {
      assert Header(m0, s, i) && s[i].addr + HEADER <= top;
    }
  }

  /** The header of every segment, as the code reads it. */
  lemma AllLinked(m: Words, s: seq<Seg>, top: int, first: int, last: int)
    requires Linkage(m, s, top, first, last)
    ensures forall i :: 0 <= i < |s| ==>
      HeaderAt(m, s[i].addr) == HeaderFor(s, i) && s[i].addr > 0
      && (NextAddr(s, i) != 0 <==> i + 1 < |s|) && (i + 1 < |s| ==> NextAddr(s, i) == s[i + 1].addr == s[i].End())
  {
    forall i | 0 <= i < |s|
      ensures HeaderAt(m, s[i].addr) == HeaderFor(s, i) && s[i].addr > 0
      ensures (NextAddr(s, i) != 0 <==> i + 1 < |s|) && (i + 1 < |s| ==> NextAddr(s, i) == s[i + 1].addr == s[i].End())
    {
      HeaderFacts(m, s, top, i);
    }
  }

  lemma NextFacts(m: Words, s: seq<Seg>, top: int, first: int, last: int, i: int)
    requires Linkage(m, s, top, first, last) && 0 <= i < |s|
    ensures HeaderAt(m, s[i].addr) == HeaderFor(s, i)
    ensures NextAddr(s, i) != 0 <==> i + 1 < |s|
    ensures i + 1 < |s| ==> NextAddr(s, i) == s[i + 1].addr == s[i].End() && HeaderAt(m, s[i + 1].addr) == HeaderFor(s, i + 1)
  {
    HeaderFacts(m, s, top, i);
    if i + 1 < |s| { HeaderFacts(m, s, top, i + 1); }
  }

  lemma PrevFacts(m: Words, s: seq<Seg>, top: int, first: int, last: int, i: int)
    requires Linkage(m, s, top, first, last) && 0 <= i < |s|
    ensures (PrevAddr(s, i) != 0 <==> i > 0) && (i > 0 ==> PrevAddr(s, i) == s[i - 1].addr)
    ensures i > 0 ==> HeaderAt(m, s[i - 1].addr) == HeaderFor(s, i - 1) && s[i - 1].addr > 0
  {
    HeaderFacts(m, s, top, i);
    if i > 0 { HeaderFacts(m, s, top, i - 1); }
  }

  /** Merging forward leaves the segment where it is. */
  lemma ForwardStays(s: seq<Seg>, i: int)
    requires 0 <= i < |s|
    ensures var r := MergedForward(s, i); i < |r| && r[i].addr == s[i].addr && r[i].used == s[i].used
  {}

  /** The canaries of the new header of a split do not touch the old one. */
  lemma NextAfterCanaries(m: Words, seg: int, n: int)
    requires n >= seg + HEADER
    ensures HeaderAt(Put(Put(m, n, CANARY0), n + CANARY1_AT, CANARY1), seg).next == HeaderAt(m, seg).next
  {}
}
