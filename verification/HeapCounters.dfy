/** The heap's counters as they would be with the three updates corrected: a split moves its
    header from free to used memory, a growth adds all its bytes to free memory, and a merge
    takes the header it saves out of the overhead.  Then all three equal what the list says. */
module HeapCounters {
  import opened Machine
  import opened HeapSegments
  import opened HeapPolicy
  import opened HeapLinks
  import opened Heaps

  ghost predicate Exact(c: Counters, s: seq<Seg>) {
    && |s| > 0
    && c.used == Recount(s)
    && c.used + c.free == s[|s| - 1].End() - HEAP_BASE
    && c.overhead == HEADER * |s|
  }

  function FixedSplit(c: Counters): Counters {
    Counters(c.free - HEADER, c.used + HEADER, c.overhead + HEADER)
  }

  function FixedGrowth(c: Counters, size: int): Counters {
    Counters(c.free + size - HEADER, c.used + HEADER, c.overhead + HEADER)
  }

  function FixedMerge(c: Counters): Counters {
    AfterMerge(c).(overhead := c.overhead - HEADER)
  }

  /** The counters along `_heap_split` and the taking of the block. */
  function FixedTake(c: Counters, s: seq<Seg>, i: int, size: int): Counters
    requires 0 <= i < |s|
  {
    if s[i].size > size + 2 * HEADER then AfterTake(FixedSplit(c), size) else AfterTake(c, s[i].size)
  }

  /** The counters along the merges of `kfree`. */
  function FixedFree(c: Counters, s: seq<Seg>, i: int): Counters
    requires 0 <= i < |s|
  {
    var back := AfterTake(c, -s[i].size);
    var forward := if i + 1 < |s| && !s[i + 1].used then FixedMerge(back) else back;
    if i > 0 && !s[i - 1].used then FixedMerge(forward) else forward
  }

  function FixedExpand(c: Counters, s: seq<Seg>, size: int): Counters
    requires |s| > 0
  {
    if s[|s| - 1].used then FixedGrowth(c, size) else FixedMerge(FixedGrowth(c, size))
  }

  lemma MergeExact(c: Counters, s: seq<Seg>, i: int)
    requires Exact(c, s) && 0 <= i < |s| - 1 && !s[i].used && !s[i + 1].used && s[i + 1].addr == s[i].End()
    ensures Exact(FixedMerge(c), Merged(s, i))
  {
    RecountMerged(s, i);
  }

  lemma StartExact()
    ensures Exact(Counters(INITIAL_PAGES * PAGE - HEADER, HEADER, HEADER), [FirstSegment()])
  {}

  lemma TakeExact(c: Counters, s: seq<Seg>, i: int, size: int)
    requires Exact(c, s) && 0 <= i < |s| && Fits(s[i], size)
    ensures Exact(FixedTake(c, s, i, size), Take(s, i, size))
  {
    hide Recount;
    if s[i].size > size + 2 * HEADER {
      RecountSplit(s, i, size);
      RecountMarked(Split(s, i, size), i, true);
    } else {
      RecountMarked(s, i, true);
    }
  }

  lemma FreeExact(c: Counters, s: seq<Seg>, top: int, i: int)
    requires Tiles(s, top) && Exact(c, s) && 0 <= i < |s| && s[i].used
    ensures Exact(FixedFree(c, s, i), Freed(s, i))
  {
    hide Recount;
    var s1 := Marked(s, i, false);
    RecountMarked(s, i, false);
    if i + 1 < |s| && !s[i + 1].used { MergeExact(AfterTake(c, -s[i].size), s1, i); }
    var s2 := MergedForward(s1, i);
    if i > 0 && !s[i - 1].used {
      assert s2[i - 1] == s[i - 1] && s2[i].addr == s[i].addr && !s2[i].used;
      MergeExact(if i + 1 < |s| && !s[i + 1].used then FixedMerge(AfterTake(c, -s[i].size)) else AfterTake(c, -s[i].size),
                 s2, i - 1);
    }
  }

  lemma ExpandExact(c: Counters, s: seq<Seg>, size: int)
    requires Exact(c, s)
    ensures Exact(FixedExpand(c, s, size), Expanded(s, size))
  {
    RecountAppended(s, size);
    if !s[|s| - 1].used {
      MergeExact(FixedGrowth(c, size), Appended(s, size), |s| - 1);
    }
  }
}
