/** `kmalloc` and `kfree` between taking and releasing the heap lock, store by store.

    A state is the heap's words, `_heap_last`, `heap_top` and the registers of the CPU that
    holds the lock.  One action reads the header of one segment, or executes one store or one
    update of `_heap_last` or `heap_top`.  A section is a fixed list of actions, of which the
    registers let those on the branch that the code takes do something. */
module HeapProgram {
  import opened Machine
  import opened HeapSegments
  import opened HeapPolicy
  import opened HeapLinks
  import opened SpinLocks

  /** Where in its section the holder of the lock is. */
  datatype Mode = Off | Searching | Splitting | Taking | Growing | Freeing | Merging

  datatype Registers = Registers(mode: Mode, seg: int, size: int, rest: int, next: int, merge: bool)

  datatype HeapState = HeapState(words: Words, last: int, top: int, regs: Registers)

  datatype Action =
    | BeginMalloc(size: int)   // the loop of kmalloc, for a rounded size
    | Visit
    | SplitStep(k: nat)        // _heap_split
    | TakeIt
    | MapOnePage               // expand_heap
    | AppendStep(k: nat)
    | BeginFree(k: nat)        // kfree, of the block in the k-th segment
    | GiveBack
    | DecideForward            // _heap_combine_forward
    | MergeStep(k: nat)
    | DecideBackward           // _heap_combine_backward

  /** The header of the `k`-th segment, following `next`, or zero. */
  function Nth(m: Words, k: nat): int {
    if k == 0 then HEAP_BASE
    else var a := Nth(m, k - 1); if a == 0 then 0 else HeaderAt(m, a).next
  }

  function Stored(d: HeapState, a: int, v: int): HeapState {
    d.(words := Put(d.words, a, v))
  }

  // ----- One action

  /** One turn of the search loop, heap.c:165-189. */
  function DoVisit(d: HeapState): HeapState {
    var r, h := d.regs, HeaderAt(d.words, d.regs.seg);
    if r.mode != Searching then d
    else if h.used == 0 && h.size > r.size + 2 * HEADER then
      d.(regs := r.(mode := Splitting, rest := h.size - r.size - HEADER, next := r.seg + r.size + HEADER))
    else if h.used == 0 && h.size >= r.size then d.(regs := r.(mode := Taking))
    else if h.next == 0 then d.(regs := r.(mode := Growing))
    else d.(regs := r.(seg := h.next))
  }

  /** heap.c:120-137; register `next` is the new segment. */
  function DoSplit(d: HeapState, k: nat): HeapState {
    var r := d.regs;
    var seg, n, was := r.seg, r.next, HeaderAt(d.words, r.seg);
    if r.mode != Splitting then d
    else if k == 0 then Stored(d, n, CANARY0)
    else if k == 1 then Stored(d, n + CANARY1_AT, CANARY1)
    else if k == 2 then if was.next != 0 then Stored(d, was.next + PREV, n) else d
    else if k == 3 then Stored(d, n + NEXT, was.next)
    else if k == 4 then Stored(d, seg + NEXT, n)
    else if k == 5 then Stored(d, n + PREV, seg)
    else if k == 6 then Stored(d, n + USED, was.used)
    else if k == 7 then Stored(d, n + SIZE, r.rest)
    else if k == 8 then Stored(d, seg + SIZE, r.size)
    else if d.last == seg then d.(last := n) else d
  }

  /** heap.c:98-108, after the pages have been mapped; register `seg` becomes the new segment. */
  function DoAppend(d: HeapState, k: nat): HeapState {
    var r := d.regs;
    var n := r.seg;
    if r.mode != Growing then d
    else if k == 0 then d.(regs := r.(seg := d.last + HEADER + HeaderAt(d.words, d.last).size))
    else if k == 1 then Stored(d, n + USED, 0)
    else if k == 2 then Stored(d, n + PREV, d.last)
    else if k == 3 then Stored(d, n, CANARY0)
    else if k == 4 then Stored(d, n + CANARY1_AT, CANARY1)
    else if k == 5 then Stored(d, d.last + NEXT, n)
    else if k == 6 then d.(last := n)
    else if k == 7 then Stored(d, n + NEXT, 0)
    else Stored(d, n + SIZE, Growth(r.size) - HEADER)
  }

  /** heap.c:57-63: is there a free segment right behind? */
  function DoDecideForward(d: HeapState): HeapState {
    var r := d.regs;
    var h := HeaderAt(d.words, r.seg);
    if r.mode != Freeing && r.mode != Merging then d.(regs := r.(merge := false))
    else d.(regs := r.(next := h.next,
      merge := h.next != 0 && HeaderAt(d.words, h.next).used == 0 && h.next == r.seg + HEADER + h.size))
  }

  /** heap.c:64-69. */
  function DoMerge(d: HeapState, k: nat): HeapState {
    var r := d.regs;
    var seg, next := r.seg, r.next;
    if !r.merge then d
    else if k == 0 then if next == d.last then d.(last := seg) else d
    else if k == 1 then
      if HeaderAt(d.words, next).next != 0 then Stored(d, HeaderAt(d.words, next).next + PREV, seg) else d
    else if k == 2 then
      Stored(d, seg + SIZE, HeaderAt(d.words, seg).size + HeaderAt(d.words, next).size + HEADER)
    else Stored(d, seg + NEXT, HeaderAt(d.words, next).next)
  }

  /** heap.c:78-82: is there a free segment in front? */
  function DoDecideBackward(d: HeapState): HeapState {
    var r := d.regs;
    var prev := HeaderAt(d.words, r.seg).prev;
    if r.mode != Freeing && r.mode != Growing then d.(regs := r.(merge := false))
    else if prev != 0 && HeaderAt(d.words, prev).used == 0 then d.(regs := r.(mode := Merging, seg := prev, merge := false))
    else d.(regs := r.(mode := Off, merge := false))
  }

  function Apply(d: HeapState, a: Action): HeapState {
    match a
    case BeginMalloc(size) => d.(regs := Registers(Searching, HEAP_BASE, size, 0, 0, false))
    case Visit => DoVisit(d)
    case SplitStep(k) => DoSplit(d, k)
    case TakeIt =>
      if d.regs.mode == Splitting || d.regs.mode == Taking then
        Stored(d, d.regs.seg + USED, 1).(regs := d.regs.(mode := Off))
      else d
    case MapOnePage => if d.regs.mode == Growing then d.(top := d.top + PAGE) else d
    case AppendStep(k) => DoAppend(d, k)
    case BeginFree(k) =>
      var seg := Nth(d.words, k);
      d.(regs := Registers(if seg == 0 then Off else Freeing, seg, 0, 0, 0, false))
    case GiveBack => if d.regs.mode == Freeing then Stored(d, d.regs.seg + USED, 0) else d
    case DecideForward => DoDecideForward(d)
    case MergeStep(k) => DoMerge(d, k)
    case DecideBackward => DoDecideBackward(d)
  }

  function Do(d: HeapState, code: seq<Action>): HeapState { Perform(Apply, d, code) }

  // ----- The sections

  /** One round of `kmalloc` for a rounded size, that visits up to `visits` segments, and
      `kfree` of the block in the `k`-th segment of the list.  A round that finds nothing grows
      the heap and releases the lock; the retry is a round of its own. */
  datatype Op = Malloc(size: int, visits: nat) | Free(k: nat)

  ghost predicate Sensible(op: Op) {
    op.Malloc? ==> op.size >= 16 && op.size % 16 == 0
  }

  function Times(a: Action, n: nat): seq<Action> {
    if n == 0 then [] else [a] + Times(a, n - 1)
  }

  function Splits(n: nat): seq<Action> { if n == 0 then [] else Splits(n - 1) + [SplitStep(n - 1)] }
  function Appends(n: nat): seq<Action> { if n == 0 then [] else Appends(n - 1) + [AppendStep(n - 1)] }
  function Merges(n: nat): seq<Action> { if n == 0 then [] else Merges(n - 1) + [MergeStep(n - 1)] }

  function ForwardCode(): seq<Action> { [DecideForward] + Merges(4) }
  function BackwardCode(): seq<Action> { [DecideBackward] + ForwardCode() }
  function SearchCode(size: int, visits: nat): seq<Action> { [BeginMalloc(size)] + Times(Visit, visits) }
  function TakeCode(): seq<Action> { Splits(10) + [TakeIt] }
  function PagesFor(size: int): (n: nat)
    requires size >= 16
    ensures n * PAGE == Growth(size)
  {
    Growth(size) / PAGE
  }
  function GrowCode(size: int): seq<Action>
    requires size >= 16
  {
    Times(MapOnePage, PagesFor(size)) + Appends(9) + BackwardCode()
  }

  function Code(op: Op): seq<Action>
    requires op.Malloc? ==> op.size >= 16
  {
    match op
    case Malloc(size, visits) => SearchCode(size, visits) + (TakeCode() + GrowCode(size))
    case Free(k) => [BeginFree(k)] + ([GiveBack] + (ForwardCode() + BackwardCode()))
  }

  // ----- What a section does to the list

  /** Position of the first segment that fits, or the length of the list. */
  function FitIndex(s: seq<Seg>, size: int): (i: nat)
    ensures i <= |s|
    ensures i < |s| ==> FirstFitting(s, i, size)
    ensures i == |s| ==> !HasFit(s, size)
  {
    if s == [] then 0
    else if Fits(s[0], size) then 0
    else
      var i := FitIndex(s[1..], size);
      assert forall k :: 1 <= k < |s| ==> s[k] == s[1..][k - 1];
      1 + i
  }

  /** A round takes the first segment that fits, or grows the heap, once it has visited
      enough segments to know. */
  function Effect(s: seq<Seg>, op: Op): seq<Seg> {
    match op
    case Malloc(size, visits) =>
      var i := FitIndex(s, size);
      if i < |s| then if visits > i then Take(s, i, size) else s
      else if visits >= |s| > 0 then Expanded(s, Growth(size)) else s
    case Free(k) => if k < |s| then Freed(s, k) else s
  }

  /** The list in memory is `s`, well formed and coalesced. */
  ghost predicate Represents(d: HeapState, s: seq<Seg>) {
    Linkage(d.words, s, d.top, HEAP_BASE, d.last) && Coalesced(s)
  }

  ghost predicate WellFormed(d: HeapState) {
    exists s :: Represents(d, s)
  }

  // ----- Running code

  lemma DoBoth(d: HeapState, a: seq<Action>, b: seq<Action>)
    ensures Do(d, a + b) == Do(Do(d, a), b)
  {
    PerformConcat(Apply, d, a, b);
  }

  lemma DoOne(d: HeapState, a: Action)
    ensures Do(d, []) == d && Do(d, [a]) == Apply(d, a)
  {
    assert [a][1..] == [];
    assert Perform(Apply, Apply(d, a), []) == Apply(d, a);
  }

  lemma DoFirst(d: HeapState, a: Action, rest: seq<Action>)
    ensures Do(d, [a] + rest) == Do(Apply(d, a), rest)
  {
    hide Apply, Do;
    DoBoth(d, [a], rest);
    DoOne(d, a);
  }

  lemma DoLast(d: HeapState, front: seq<Action>, a: Action)
    ensures Do(d, front + [a]) == Apply(Do(d, front), a)
  {
    hide Apply, Do;
    DoBoth(d, front, [a]);
    DoOne(Do(d, front), a);
  }

  // ----- Code on branches not taken

  lemma {:induction false} SplitsIdle(d: HeapState, n: nat)
    requires d.regs.mode != Splitting
    ensures Do(d, Splits(n)) == d
    decreases n
  {
    hide Do;
    if n == 0 {
      DoOne(d, Visit);
    } else {
      SplitsIdle(d, n - 1);
      DoLast(d, Splits(n - 1), SplitStep(n - 1));
    }
  }

  lemma {:induction false} AppendsIdle(d: HeapState, n: nat)
    requires d.regs.mode != Growing
    ensures Do(d, Appends(n)) == d
    decreases n
  {
    hide Do;
    if n == 0 {
      DoOne(d, Visit);
    } else {
      AppendsIdle(d, n - 1);
      DoLast(d, Appends(n - 1), AppendStep(n - 1));
    }
  }

  lemma {:induction false} MergesIdle(d: HeapState, n: nat)
    requires !d.regs.merge
    ensures Do(d, Merges(n)) == d
    decreases n
  {
    hide Do;
    if n == 0 {
      DoOne(d, Visit);
    } else {
      MergesIdle(d, n - 1);
      DoLast(d, Merges(n - 1), MergeStep(n - 1));
    }
  }

  lemma {:induction false} VisitsIdle(d: HeapState, n: nat)
    requires d.regs.mode != Searching
    ensures Do(d, Times(Visit, n)) == d
    decreases n
  {
    hide Do;
    if n == 0 {
      DoOne(d, Visit);
    } else {
      DoFirst(d, Visit, Times(Visit, n - 1));
      VisitsIdle(d, n - 1);
    }
  }

  lemma {:induction false} MapRuns(d: HeapState, n: nat)
    ensures Do(d, Times(MapOnePage, n)) == if d.regs.mode == Growing then d.(top := d.top + n * PAGE) else d
    decreases n
  {
    hide Do;
    if n == 0 {
      DoOne(d, Visit);
    } else {
      DoFirst(d, MapOnePage, Times(MapOnePage, n - 1));
      MapRuns(Apply(d, MapOnePage), n - 1);
    }
  }

  // ----- The stores of one operation

  lemma SplitRuns(d: HeapState)
    requires d.regs.mode == Splitting && d.regs.next == d.regs.seg + d.regs.size + HEADER
    requires d.regs.rest == HeaderAt(d.words, d.regs.seg).size - d.regs.size - HEADER
    ensures Do(d, Splits(10)) == d.(words := SplitStores(d.words, d.regs.seg, d.regs.size),
                                    last := if d.last == d.regs.seg then d.regs.next else d.last)
  {
    hide Put, HeaderAt, Do;
    var d1 := DoSplit(d, 0);
    var d2 := DoSplit(d1, 1);
    var d3 := DoSplit(d2, 2);
    var d4 := DoSplit(d3, 3);
    var d5 := DoSplit(d4, 4);
    var d6 := DoSplit(d5, 5);
    var d7 := DoSplit(d6, 6);
    var d8 := DoSplit(d7, 7);
    var d9 := DoSplit(d8, 8);
    FourSplits(d);
    FourSplits2(d);
    assert Do(d, Splits(8)) == d8;
    DoLast(d, Splits(8), SplitStep(8));
    DoLast(d, Splits(9), SplitStep(9));
  }

  lemma FourSplits(d: HeapState)
    ensures Do(d, Splits(4)) == DoSplit(DoSplit(DoSplit(DoSplit(d, 0), 1), 2), 3)
  {
    hide DoSplit, Do;
    DoOne(d, Visit);
    DoLast(d, Splits(0), SplitStep(0));
    DoLast(d, Splits(1), SplitStep(1));
    DoLast(d, Splits(2), SplitStep(2));
    DoLast(d, Splits(3), SplitStep(3));
  }

  lemma FourSplits2(d: HeapState)
    ensures Do(d, Splits(8)) == DoSplit(DoSplit(DoSplit(DoSplit(Do(d, Splits(4)), 4), 5), 6), 7)
  {
    hide DoSplit, Do;
    DoLast(d, Splits(4), SplitStep(4));
    DoLast(d, Splits(5), SplitStep(5));
    DoLast(d, Splits(6), SplitStep(6));
    DoLast(d, Splits(7), SplitStep(7));
  }

  lemma AppendRuns(d: HeapState)
    requires d.regs.mode == Growing
    ensures var n, e := d.last + HEADER + HeaderAt(d.words, d.last).size, Do(d, Appends(9));
            && e.words == AppendStores(d.words, d.last, n, Growth(d.regs.size))
            && e.last == n && e.top == d.top && e.regs == d.regs.(seg := n)
  {
    hide Put, HeaderAt, Do, Growth;
    FourAppends(d);
    FourAppends2(d);
    DoLast(d, Appends(8), AppendStep(8));
  }

  lemma FourAppends(d: HeapState)
    ensures Do(d, Appends(4)) == DoAppend(DoAppend(DoAppend(DoAppend(d, 0), 1), 2), 3)
  {
    hide DoAppend, Do;
    DoOne(d, Visit);
    DoLast(d, Appends(0), AppendStep(0));
    DoLast(d, Appends(1), AppendStep(1));
    DoLast(d, Appends(2), AppendStep(2));
    DoLast(d, Appends(3), AppendStep(3));
  }

  lemma FourAppends2(d: HeapState)
    ensures Do(d, Appends(8)) == DoAppend(DoAppend(DoAppend(DoAppend(Do(d, Appends(4)), 4), 5), 6), 7)
  {
    hide DoAppend, Do;
    DoLast(d, Appends(4), AppendStep(4));
    DoLast(d, Appends(5), AppendStep(5));
    DoLast(d, Appends(6), AppendStep(6));
    DoLast(d, Appends(7), AppendStep(7));
  }

  lemma MergeRuns(d: HeapState)
    requires d.regs.merge && d.regs.next == HeaderAt(d.words, d.regs.seg).next
    ensures Do(d, Merges(4)) == d.(words := MergeStores(d.words, d.regs.seg),
                                   last := if d.regs.next == d.last then d.regs.seg else d.last)
  {
    hide Put, HeaderAt, Do;
    DoOne(d, Visit);
    DoLast(d, Merges(0), MergeStep(0));
    DoLast(d, Merges(1), MergeStep(1));
    DoLast(d, Merges(2), MergeStep(2));
    DoLast(d, Merges(3), MergeStep(3));
  }

  // ----- What the parts of a section do to the list

  /** The list in memory, when neighbours may be free. */
  ghost predicate Lists(d: HeapState, s: seq<Seg>) {
    Linkage(d.words, s, d.top, HEAP_BASE, d.last)
  }

  lemma {:induction false} SearchRuns(d: HeapState, s: seq<Seg>, i: nat, n: nat)
    requires Lists(d, s) && d.regs.mode == Searching && i < |s| && d.regs.seg == s[i].addr && i <= FitIndex(s, d.regs.size)
    ensures var e, f := Do(d, Times(Visit, n)), FitIndex(s, d.regs.size);
            && e.words == d.words && e.last == d.last && e.top == d.top && e.regs.size == d.regs.size
            && Found(s, e.regs, if n > f - i then f else |s|, n >= |s| - i)
    decreases n
  {
    hide Do, Linkage, HeaderAt;
    if n == 0 {
      DoOne(d, Visit);
    } else {
      DoFirst(d, Visit, Times(Visit, n - 1));
      VisitOne(d, s, i);
      var e := Apply(d, Visit);
      if e.regs.mode == Searching {
        SearchRuns(e, s, i + 1, n - 1);
      } else {
        VisitsIdle(e, n - 1);
      }
    }
  }

  /** What the search has found: segment `f`, or, with all visited, that there is none. */
  ghost predicate Found(s: seq<Seg>, r: Registers, f: nat, all: bool) {
    if f < |s| then
      && r.seg == s[f].addr
      && (if s[f].size > r.size + 2 * HEADER then
            r.mode == Splitting && r.rest == s[f].size - r.size - HEADER && r.next == r.seg + r.size + HEADER
          else r.mode == Taking)
    else r.mode == if all then Growing else Searching
  }

  lemma VisitOne(d: HeapState, s: seq<Seg>, i: nat)
    requires Lists(d, s) && d.regs.mode == Searching && i < |s| && d.regs.seg == s[i].addr && i <= FitIndex(s, d.regs.size)
    ensures var e, f := DoVisit(d), FitIndex(s, d.regs.size);
            && e == d.(regs := e.regs) && e.regs.size == d.regs.size
            && (e.regs.mode == Searching <==> i < f && i + 1 < |s|)
            && (e.regs.mode == Searching ==> e.regs.seg == s[i + 1].addr)
            && (e.regs.mode != Searching ==> Found(s, e.regs, f, true))
  {
    hide Linkage, HeaderAt;
    LinkFacts(d.words, s, d.top, HEAP_BASE, d.last, i);
    assert i < FitIndex(s, d.regs.size) ==> !Fits(s[i], d.regs.size);
  }

  lemma TakeRuns(d: HeapState, s: seq<Seg>, f: nat, all: bool)
    requires Lists(d, s) && Found(s, d.regs, f, all) && d.regs.size >= 16 && d.regs.size % 16 == 0
    requires f < |s| ==> Fits(s[f], d.regs.size)
    ensures var e := Do(d, TakeCode());
            if f >= |s| then e == d
            else var t := Take(s, f, d.regs.size); Lists(e, t) && e.regs.mode == Off && Joined(d, s, e, t, f)
  {
    hide Do, Linkage, SplitStores, Split, Splits, Take, CanSplit, HeaderAt, Live, Kept;
    DoLast(d, Splits(10), TakeIt);
    if f < |s| {
      LinkFacts(d.words, s, d.top, HEAP_BASE, d.last, f);
      if d.regs.mode == Splitting {
        SplitRuns(d);
        SplitTaken(d.words, s, d.top, HEAP_BASE, d.last, f, d.regs.size);
      } else {
        SplitsIdle(d, 10);
        MarkTaken(d.words, s, d.top, HEAP_BASE, d.last, f, d.regs.size);
      }
    } else {
      SplitsIdle(d, 10);
    }
  }

  /** From `d` to `e` segment `f` of `t` has become a block, in register `seg`, and the words
      of all other blocks are as they were. */
  ghost predicate Joined(d: HeapState, s: seq<Seg>, e: HeapState, t: seq<Seg>, f: nat) {
    && f < |t| && e.regs.seg == t[f].addr
    && Live(t) == Live(s) + {t[f]} && Kept(d.words, e.words, Live(s))
  }

  /** From `d` to `e` the blocks and their words are as they were. */
  ghost predicate SameBlocks(d: HeapState, s: seq<Seg>, e: HeapState, t: seq<Seg>) {
    Live(t) == Live(s) && Kept(d.words, e.words, Live(s))
  }

  lemma SameBlocksTwice(d: HeapState, s: seq<Seg>, e: HeapState, t: seq<Seg>, e1: HeapState, t1: seq<Seg>)
    requires SameBlocks(d, s, e, t) && SameBlocks(e, t, e1, t1)
    ensures SameBlocks(d, s, e1, t1)
  {
    hide Live;
  }

  lemma SplitTaken(m: Words, s: seq<Seg>, top: int, first: int, last: int, i: nat, size: int)
    requires Linkage(m, s, top, first, last) && i < |s| && Fits(s[i], size) && size >= 16 && size % 16 == 0
    requires s[i].size > size + 2 * HEADER
    ensures Linkage(Put(SplitStores(m, s[i].addr, size), s[i].addr + USED, 1), Take(s, i, size), top, first,
                    if last == s[i].addr then s[i].addr + size + HEADER else last)
    ensures var t := Take(s, i, size); i < |t| && t[i].addr == s[i].addr && Live(t) == Live(s) + {t[i]}
    ensures Kept(m, Put(SplitStores(m, s[i].addr, size), s[i].addr + USED, 1), Live(s))
  {
    hide Linkage, SplitStores, Put, Recount, Live, Kept, HeaderAt;
    SplitFacts(m, s, top, first, last, i, size);
    MarkFacts(SplitStores(m, s[i].addr, size), Split(s, i, size), top, first,
              if last == s[i].addr then s[i].addr + size + HEADER else last, i, true);
    KeptTransitive(m, SplitStores(m, s[i].addr, size), Put(SplitStores(m, s[i].addr, size), s[i].addr + USED, 1), Live(s));
  }

  lemma MarkTaken(m: Words, s: seq<Seg>, top: int, first: int, last: int, i: nat, size: int)
    requires Linkage(m, s, top, first, last) && i < |s| && Fits(s[i], size) && s[i].size <= size + 2 * HEADER
    ensures Linkage(Put(m, s[i].addr + USED, 1), Take(s, i, size), top, first, last)
    ensures var t := Take(s, i, size); i < |t| && t[i].addr == s[i].addr && Live(t) == Live(s) + {t[i]}
    ensures Kept(m, Put(m, s[i].addr + USED, 1), Live(s))
  {
    hide Linkage, Put, Recount, Live, Kept, HeaderAt;
    MarkFacts(m, s, top, first, last, i, true);
  }

  lemma ForwardDecided(d: HeapState, s: seq<Seg>, i: nat)
    requires Lists(d, s) && i < |s| && d.regs.seg == s[i].addr
    requires d.regs.mode == Freeing || d.regs.mode == Merging
    ensures var e := DoDecideForward(d);
            && e == d.(regs := d.regs.(next := HeaderAt(d.words, d.regs.seg).next, merge := i + 1 < |s| && !s[i + 1].used))
            && (i + 1 < |s| ==> e.regs.next == s[i + 1].addr)
  {
    hide Linkage, HeaderAt;
    NextFacts(d.words, s, d.top, HEAP_BASE, d.last, i);
  }

  lemma ForwardRuns(d: HeapState, s: seq<Seg>, i: nat)
    requires Lists(d, s) && i < |s| && d.regs.seg == s[i].addr && !s[i].used
    requires d.regs.mode == Freeing || d.regs.mode == Merging
    ensures var e := Do(d, ForwardCode());
            && Lists(e, MergedForward(s, i)) && SameBlocks(d, s, e, MergedForward(s, i))
            && e.top == d.top && e.regs.seg == d.regs.seg && e.regs.mode == d.regs.mode
  {
    hide Do, Linkage, HeaderAt, Merges, Merged, MergeStores, DoDecideForward, Live, Kept, Recount;
    DoFirst(d, DecideForward, Merges(4));
    ForwardDecided(d, s, i);
    KeptSame(d.words, Live(s));
    var e := DoDecideForward(d);
    if e.regs.merge {
      MergeRuns(e);
      MergeFacts(d.words, s, d.top, HEAP_BASE, d.last, i);
    } else {
      MergesIdle(e, 4);
    }
  }

  /** Where nothing is to be merged, the merging code only sets registers. */
  lemma ForwardIdle(d: HeapState)
    requires d.regs.mode != Freeing && d.regs.mode != Merging
    ensures var e := Do(d, ForwardCode()); e == d.(regs := d.regs.(merge := false))
  {
    hide Do, Merges;
    DoFirst(d, DecideForward, Merges(4));
    MergesIdle(DoDecideForward(d), 4);
  }

  lemma BackwardRuns(d: HeapState, s: seq<Seg>, i: nat)
    requires Lists(d, s) && i < |s| && d.regs.seg == s[i].addr
    requires d.regs.mode == Freeing || d.regs.mode == Growing
    ensures var e := Do(d, BackwardCode());
            Lists(e, MergedBackward(s, i)) && e.top == d.top && SameBlocks(d, s, e, MergedBackward(s, i))
  {
    hide Do, Linkage, HeaderAt, ForwardCode, MergedForward, Live, Kept;
    KeptSame(d.words, Live(s));
    DoFirst(d, DecideBackward, ForwardCode());
    LinkFacts(d.words, s, d.top, HEAP_BASE, d.last, i);
    PrevFacts(d.words, s, d.top, HEAP_BASE, d.last, i);
    var e := DoDecideBackward(d);
    if e.regs.mode == Merging {
      ForwardRuns(e, s, i - 1);
    } else {
      ForwardIdle(e);
    }
  }

  lemma BackwardIdle(d: HeapState)
    requires d.regs.mode != Freeing && d.regs.mode != Growing && d.regs.mode != Merging
    ensures var e := Do(d, BackwardCode()); e.words == d.words && e.last == d.last && e.top == d.top && e.regs.seg == d.regs.seg
  {
    hide Do, ForwardCode;
    DoFirst(d, DecideBackward, ForwardCode());
    ForwardIdle(DoDecideBackward(d));
  }

  lemma GrowRuns(d: HeapState, s: seq<Seg>)
    requires Lists(d, s) && d.regs.mode == Growing && d.regs.size >= 16 && d.regs.size % 16 == 0
    ensures var e := Do(d, GrowCode(d.regs.size));
            && |s| > 0
            && Lists(e, Expanded(s, Growth(d.regs.size))) && SameBlocks(d, s, e, Expanded(s, Growth(d.regs.size)))
  {
    hide Do, Linkage, HeaderAt, BackwardCode, Appends, AppendStores, Appended, MergedForward, Expanded, Growth, Live, Kept;
    var size, n := d.regs.size, PagesFor(d.regs.size);
    DoBoth(d, Times(MapOnePage, n) + Appends(9), BackwardCode());
    DoBoth(d, Times(MapOnePage, n), Appends(9));
    MapRuns(d, n);
    var d1 := Do(d, Times(MapOnePage, n));
    AppendRuns(d1);
    GrowthBounds(size);
    FirstFacts(d.words, s, d.top, HEAP_BASE, d.last);
    AppendFacts(d.words, s, d.top, HEAP_BASE, d.last, Growth(size));
    var d2 := Do(d1, Appends(9));
    ExpandedIsBackward(s, Growth(size));
    BackwardRuns(d2, Appended(s, Growth(size)), |s|);
    SameBlocksTwice(d, s, d2, Appended(s, Growth(size)), Do(d2, BackwardCode()), Expanded(s, Growth(size)));
  }

  lemma ExpandedIsBackward(s: seq<Seg>, size: int)
    requires |s| > 0
    ensures var r := Appended(s, size); |r| == |s| + 1 && Expanded(s, size) == MergedBackward(r, |s|)
  {}

  lemma GrowIdle(d: HeapState, size: int)
    requires size >= 16 && d.regs.mode != Growing && d.regs.mode != Freeing && d.regs.mode != Merging
    ensures var e := Do(d, GrowCode(size)); e.words == d.words && e.last == d.last && e.top == d.top && e.regs.seg == d.regs.seg
  {
    hide Do, BackwardCode, Appends;
    var n := PagesFor(size);
    DoBoth(d, Times(MapOnePage, n) + Appends(9), BackwardCode());
    DoBoth(d, Times(MapOnePage, n), Appends(9));
    MapRuns(d, n);
    AppendsIdle(d, 9);
    BackwardIdle(d);
  }

  lemma {:induction false} NthSegment(m: Words, s: seq<Seg>, top: int, last: int, k: nat)
    requires Linkage(m, s, top, HEAP_BASE, last)
    ensures Nth(m, k) == if k < |s| then s[k].addr else 0
  {
    hide Linkage, HeaderAt;
    FirstFacts(m, s, top, HEAP_BASE, last);
    if k > 0 {
      NthSegment(m, s, top, last, k - 1);
      if k <= |s| { LinkFacts(m, s, top, HEAP_BASE, last, k - 1); }
    }
  }

  lemma FreeRuns(d: HeapState, s: seq<Seg>, k: nat)
    requires Lists(d, s)
    ensures Lists(Do(d, Code(Free(k))), if k < |s| then Freed(s, k) else s)
    ensures k < |s| ==> Live(Freed(s, k)) == Live(s) - {s[k]} && Kept(d.words, Do(d, Code(Free(k))).words, Live(Freed(s, k)))
  {
    hide Do, Linkage, HeaderAt, ForwardCode, BackwardCode, MergedForward, MergedBackward, Nth, Put, Live, Kept, Recount;
    NthSegment(d.words, s, d.top, d.last, k);
    var d1 := Apply(d, BeginFree(k));
    var d2 := Apply(d1, GiveBack);
    DoFirst(d, BeginFree(k), [GiveBack] + (ForwardCode() + BackwardCode()));
    DoFirst(d1, GiveBack, ForwardCode() + BackwardCode());
    DoBoth(d2, ForwardCode(), BackwardCode());
    if k < |s| {
      LinkFacts(d.words, s, d.top, HEAP_BASE, d.last, k);
      MarkFacts(d.words, s, d.top, HEAP_BASE, d.last, k, false);
      var s1 := Marked(s, k, false);
      ForwardRuns(d2, s1, k);
      ForwardStays(s1, k);
      var d3, s2 := Do(d2, ForwardCode()), MergedForward(s1, k);
      BackwardRuns(d3, s2, k);
      SameBlocksTwice(d2, s1, d3, s2, Do(d3, BackwardCode()), Freed(s, k));
      KeptTransitive(d.words, d2.words, Do(d3, BackwardCode()).words, Live(s1));
    } else {
      ForwardIdle(d2);
      BackwardIdle(Do(d2, ForwardCode()));
    }
  }

  ghost predicate Turned(d: HeapState, s: seq<Seg>, e: HeapState, t: seq<Seg>, f: nat, visits: nat) {
    if f < |s| && visits > f then Joined(d, s, e, t, f) else SameBlocks(d, s, e, t)
  }

  lemma MallocRuns(d: HeapState, s: seq<Seg>, size: int, visits: nat)
    requires Lists(d, s) && size >= 16 && size % 16 == 0
    ensures Lists(Do(d, Code(Malloc(size, visits))), Effect(s, Malloc(size, visits)))
    ensures Turned(d, s, Do(d, Code(Malloc(size, visits))), Effect(s, Malloc(size, visits)), FitIndex(s, size), visits)
  {
    hide Do, Linkage, TakeCode, GrowCode, Take, Expanded, Growth, Times, Live, Kept;
    KeptSame(d.words, Live(s));
    FirstFacts(d.words, s, d.top, HEAP_BASE, d.last);
    DoBoth(d, SearchCode(size, visits), TakeCode() + GrowCode(size));
    DoFirst(d, BeginMalloc(size), Times(Visit, visits));
    var d0 := Apply(d, BeginMalloc(size));
    SearchRuns(d0, s, 0, visits);
    var d1, f := Do(d, SearchCode(size, visits)), FitIndex(s, size);
    DoBoth(d1, TakeCode(), GrowCode(size));
    TakeRuns(d1, s, if visits > f then f else |s|, visits >= |s|);
    var d2 := Do(d1, TakeCode());
    if d2.regs.mode == Growing {
      GrowRuns(d2, s);
    } else {
      GrowIdle(d2, size);
    }
  }

  /** A section, executed store by store without interruption, has its effect on the list, and
      the list is coalesced again at its end. */
  lemma SectionEffect(d: HeapState, s: seq<Seg>, op: Op)
    requires Represents(d, s) && Sensible(op)
    ensures Represents(Do(d, Code(op)), Effect(s, op))
  {
    hide Linkage, Code, Do, Take, Expanded, Freed, Coalesced;
    match op {
      case Malloc(size, visits) =>
        MallocRuns(d, s, size, visits);
        var i := FitIndex(s, size);
        if i < |s| {
          TakeCoalesced(s, i, size);
        } else if |s| > 0 {
          ExpandedCoalesced(s, Growth(size));
        }
      case Free(k) =>
        FreeRuns(d, s, k);
        if k < |s| { FreedCoalesced(s, k); }
    }
  }

  // ----- What a section is for

  /** A request: a round of `kmalloc` that visits enough segments and finds one that fits hands
      out the first of them, in register `seg`.  A round that finds none grows the heap, so
      that its retry does.  Either way the list has served the request, one more block is live
      and no other block has changed. */
  lemma RoundServes(d: HeapState, s: seq<Seg>, size: int, visits: nat) returns (t: seq<Seg>, i: nat)
    requires Represents(d, s) && size >= 16 && size % 16 == 0 && visits > |s|
    ensures var d1 := Do(d, Code(Malloc(size, visits)));
            var e := if HasFit(s, size) then d1 else Do(d1, Code(Malloc(size, visits)));
            Represents(e, t) && Served(s, size, t, i) && Joined(d, s, e, t, i)
    ensures !HasFit(s, size) ==>
      var d1, s1 := Do(d, Code(Malloc(size, visits))), Expanded(s, Growth(size));
      Represents(d1, s1) && HasFit(s1, size) && SameBlocks(d, s, d1, s1)
    ensures var op := Malloc(size, visits); t == if HasFit(s, size) then Effect(s, op) else Effect(Effect(s, op), op)
  {
    hide Linkage, Code, Do, Take, Expanded, Coalesced, Live, Kept, Growth;
    FirstFacts(d.words, s, d.top, HEAP_BASE, d.last);
    LinkageTiles(d.words, s, d.top, HEAP_BASE, d.last);
    if HasFit(s, size) {
      t, i := RoundTakes(d, s, size, visits);
    } else {
      var d1, s1 := Do(d, Code(Malloc(size, visits))), Expanded(s, Growth(size));
      SectionEffect(d, s, Malloc(size, visits));
      MallocRuns(d, s, size, visits);
      ExpandedFits(s, d.top, size);
      ExpandedLength(s, Growth(size));
      t, i := RoundTakes(d1, s1, size, visits);
      ServedGrown(s, size, s1, t, i);
      KeptTransitive(d.words, d1.words, Do(d1, Code(Malloc(size, visits))).words, Live(s));
    }
  }

  lemma ExpandedLength(s: seq<Seg>, size: int)
    requires |s| > 0
    ensures |Expanded(s, size)| <= |s| + 1
  {}

  lemma RoundTakes(d: HeapState, s: seq<Seg>, size: int, visits: nat) returns (t: seq<Seg>, i: nat)
    requires Represents(d, s) && size >= 16 && size % 16 == 0 && visits >= |s| && HasFit(s, size)
    ensures var e := Do(d, Code(Malloc(size, visits))); Represents(e, t) && Served(s, size, t, i) && Joined(d, s, e, t, i)
    ensures t == Effect(s, Malloc(size, visits))
  {
    hide Linkage, Code, Do, Take, Expanded, Coalesced, Live, Kept, Growth, HasFit;
    i := FitIndex(s, size);
    t := Take(s, i, size);
    SectionEffect(d, s, Malloc(size, visits));
    MallocRuns(d, s, size, visits);
    LinkageTiles(d.words, s, d.top, HEAP_BASE, d.last);
    TakeFacts(s, d.top, i, size);
  }

  /** Freeing: exactly that block goes, neighbours are coalesced again, and no other block has
      changed. */
  lemma FreeServes(d: HeapState, s: seq<Seg>, k: nat)
    requires Represents(d, s) && k < |s|
    ensures var e, t := Do(d, Code(Free(k))), Effect(s, Free(k));
            Represents(e, t) && Live(t) == Live(s) - {s[k]} && Kept(d.words, e.words, Live(t))
  {
    hide Linkage, Code, Do, Freed, Coalesced, Live, Kept;
    SectionEffect(d, s, Free(k));
    FreeRuns(d, s, k);
  }
}
