/** The segment list of the kernel heap: as a value, as headers in memory, and the effect
    of splitting and merging on both.

    Memory is a function from byte addresses to 64-bit words; headers and payloads sit at
    multiples of eight.  Words that no page backs yet have some value nobody may rely on. */
module HeapSegments {

  const HEAP_BASE := 0xffff_fff8_0000_0000
  const CANARY0 := 0x6865617062697264
  const CANARY1 := 0x6269726468656170
  const HEADER := 48          // sizeof(HeapSegment)

  // Field offsets of the packed header.
  const SIZE := 8
  const PREV := 16
  const NEXT := 24
  const USED := 32
  const CANARY1_AT := 40

  type Words = int -> int

  function Put(m: Words, a: int, v: int): Words {
    (x: int) => if x == a then v else m(x)
  }

  /** The packed header of a segment, `HeapSegment`. */
  datatype HeaderRec = HeaderRec(canary0: int, size: int, prev: int, next: int, used: int, canary1: int)

  function HeaderAt(m: Words, a: int): HeaderRec {
    HeaderRec(m(a), m(a + SIZE), m(a + PREV), m(a + NEXT), m(a + USED), m(a + CANARY1_AT))
  }

  datatype Seg = Seg(addr: int, size: int, used: bool) {
    function Payload(): int { addr + HEADER }
    function End(): int { addr + HEADER + size }
  }

  function PrevAddr(s: seq<Seg>, i: int): int
    requires 0 <= i < |s|
  {
    if i == 0 then 0 else s[i - 1].addr
  }

  function NextAddr(s: seq<Seg>, i: int): int
    requires 0 <= i < |s|
  {
    if i == |s| - 1 then 0 else s[i + 1].addr
  }

  /** What the header of segment `i` holds. */
  function HeaderFor(s: seq<Seg>, i: int): HeaderRec
    requires 0 <= i < |s|
  {
    HeaderRec(CANARY0, s[i].size, PrevAddr(s, i), NextAddr(s, i), if s[i].used then 1 else 0, CANARY1)
  }

  ghost predicate Header(m: Words, s: seq<Seg>, i: int)
    requires 0 <= i < |s|
  {
    HeaderAt(m, s[i].addr) == HeaderFor(s, i)
  }

  /** The segments tile [HEAP_BASE, top) without gap or overlap. */
  ghost predicate Tiles(s: seq<Seg>, top: int) {
    && |s| > 0
    && s[0].addr == HEAP_BASE
    && s[|s| - 1].End() == top
    && (forall i :: 0 <= i < |s| - 1 ==> s[i + 1].addr == s[i].End())
    && (forall i :: 0 <= i < |s| ==> s[i].size >= 16 && s[i].size % 16 == 0)
  }

  /** The list in memory is the list of segments, doubly linked. */
  ghost predicate Tiled(m: Words, s: seq<Seg>, top: int) {
    Tiles(s, top) && forall i :: 0 <= i < |s| ==> Header(m, s, i)
  }

  /** No two neighbours are free. */
  ghost predicate Coalesced(s: seq<Seg>) {
    forall i :: 0 <= i < |s| - 1 ==> s[i].used || s[i + 1].used
  }

  lemma {:induction false} Ordered(s: seq<Seg>, top: int, i: int, j: int)
    requires Tiles(s, top) && 0 <= i < j < |s|
    ensures s[i].End() <= s[j].addr
    decreases j - i
  {
    if i + 1 < j {
      Ordered(s, top, i, j - 1);
    }
  }

  lemma AllOrdered(s: seq<Seg>, top: int)
    requires Tiles(s, top)
    ensures forall i, j :: 0 <= i < j < |s| ==> s[i].End() <= s[j].addr
    ensures forall i :: 0 <= i < |s| ==> HEAP_BASE <= s[i].addr && s[i].End() <= top
  {
    forall i, j | 0 <= i < j < |s| ensures s[i].End() <= s[j].addr {
      Ordered(s, top, i, j);
    }
  }

  lemma {:induction false} Aligned(s: seq<Seg>, top: int, i: nat)
    requires Tiles(s, top) && i < |s|
    ensures s[i].addr % 16 == 0
  {
    if i > 0 {
      Aligned(s, top, i - 1);
    }
  }

  // ----- Live blocks

  ghost function Live(s: seq<Seg>): set<Seg> {
    set x | x in s && x.used
  }

  /** Every word of every block in `blocks` is the same in `m1` as in `m`. */
  ghost predicate Kept(m: Words, m1: Words, blocks: set<Seg>) {
    forall b, a :: b in blocks && b.Payload() <= a < b.End() ==> m1(a) == m(a)
  }

  /** Word addresses of the headers of `s`. */
  ghost predicate InHeader(s: seq<Seg>, a: int) {
    exists i :: 0 <= i < |s| && s[i].addr <= a < s[i].Payload()
  }

  /** `m1` differs from `m` only inside headers of `s`. */
  ghost predicate OnlyHeaders(m: Words, m1: Words, s: seq<Seg>) {
    forall a :: m1(a) != m(a) ==> InHeader(s, a)
  }

  /** Headers and payloads never overlap, so changing headers keeps the live blocks. */
  lemma HeadersMissPayloads(m: Words, m1: Words, s: seq<Seg>, top: int)
    requires Tiles(s, top) && OnlyHeaders(m, m1, s)
    ensures Kept(m, m1, Live(s))
  {
    AllOrdered(s, top);
    forall b, a | b in Live(s) && b.Payload() <= a < b.End() ensures m1(a) == m(a) {
      var j :| 0 <= j < |s| && s[j] == b;
      assert forall i :: 0 <= i < |s| ==> !(s[i].addr <= a < s[i].Payload());
    }
  }

  // ----- Merging

  function Merged(s: seq<Seg>, i: int): seq<Seg>
    requires 0 <= i < |s| - 1
  {
    s[..i] + [Seg(s[i].addr, s[i].size + s[i + 1].size + HEADER, s[i].used)] + s[i + 2..]
  }

  /** The stores of `_heap_combine_forward` on the header at `a`. */
  function MergeStores(m: Words, a: int): Words {
    var b := HeaderAt(m, a).next;
    var c := HeaderAt(m, b).next;
    var m1 := if c != 0 then Put(m, c + PREV, a) else m;
    var m2 := Put(m1, a + SIZE, HeaderAt(m1, a).size + HeaderAt(m1, b).size + HEADER);
    Put(m2, a + NEXT, HeaderAt(m2, b).next)
  }

  lemma MergeTiles(s: seq<Seg>, top: int, i: int)
    requires Tiles(s, top) && 0 <= i < |s| - 1
    ensures Tiles(Merged(s, i), top)
  {}

  /** Two headers do not overlap. */
  predicate Clear(a: int, b: int) { a + HEADER <= b || b + HEADER <= a }

  /** Headers of different segments do not overlap, and none is at address zero. */
  lemma Separate(s: seq<Seg>, top: int, i: int, j: int)
    requires Tiles(s, top) && 0 <= i < |s| && 0 <= j < |s|
    ensures (i != j ==> Clear(s[i].addr, s[j].addr) && Clear(s[j].addr, s[i].addr)) && s[i].addr > 0
  {
    if i < j { Ordered(s, top, i, j); }
    if j < i { Ordered(s, top, j, i); }
    if 0 < i { Ordered(s, top, 0, i); }
  }

  /** The headers that a merge of `a` with its successor writes, and any header `b` clear of them. */
  lemma MergeHeaders(m: Words, a: int, b: int)
    requires var n := HeaderAt(m, a).next; var c := HeaderAt(m, n).next;
             Clear(a, n) && (c != 0 ==> Clear(c, a) && Clear(c, n))
    ensures var m1, n := MergeStores(m, a), HeaderAt(m, a).next;
            var c := HeaderAt(m, n).next;
            && HeaderAt(m1, a) == HeaderAt(m, a).(size := HeaderAt(m, a).size + HeaderAt(m, n).size + HEADER, next := c)
            && (c != 0 ==> HeaderAt(m1, c) == HeaderAt(m, c).(prev := a))
            && (Clear(b, a) && (c != 0 ==> Clear(b, c)) ==> HeaderAt(m1, b) == HeaderAt(m, b))
  {
  }

  lemma MergedHeader(s: seq<Seg>, i: int, k: int)
    requires 0 <= i < |s| - 1 && 0 <= k < |s| - 1
    ensures var r, o := Merged(s, i), if k <= i then k else k + 1;
            && |r| == |s| - 1 && r[k].addr == s[o].addr
            && HeaderFor(r, k) ==
                if k == i then HeaderFor(s, i).(size := s[i].size + s[i + 1].size + HEADER, next := NextAddr(s, i + 1))
                else if k == i + 1 then HeaderFor(s, o).(prev := s[i].addr)
                else HeaderFor(s, o)
  {
  }

  /** What MergeHeaders needs to know about segment `o`. */
  lemma MergeClear(s: seq<Seg>, top: int, i: int, o: int)
    requires Tiles(s, top) && 0 <= i < |s| - 1 && 0 <= o < |s| && o != i + 1
    ensures var a, n, c := s[i].addr, NextAddr(s, i), NextAddr(s, i + 1);
            && n == s[i + 1].addr && (c != 0 <==> i + 2 < |s|) && Clear(a, n)
            && (c != 0 ==> c == s[i + 2].addr && Clear(c, a) && Clear(c, n))
            && (o != i ==> Clear(s[o].addr, a)) && (c != 0 && o != i + 2 ==> Clear(s[o].addr, c))
  {
    Separate(s, top, i, i + 1);
    Separate(s, top, i, o);
    if i + 2 < |s| {
      Separate(s, top, i, i + 2);
      Separate(s, top, i + 1, i + 2);
      Separate(s, top, i + 2, o);
    }
  }

  lemma MergeStoresAt(m: Words, s: seq<Seg>, top: int, i: int, k: int)
    requires Tiled(m, s, top) && 0 <= i < |s| - 1 && 0 <= k < |s| - 1
    ensures |Merged(s, i)| == |s| - 1 && Header(MergeStores(m, s[i].addr), Merged(s, i), k)
  {
    var o := if k <= i then k else k + 1;
    assert Header(m, s, i) && Header(m, s, i + 1) && Header(m, s, o);
    MergedHeader(s, i, k);
    MergeClear(s, top, i, o);
    assert HeaderFor(s, i).next == NextAddr(s, i) && HeaderFor(s, i + 1).next == NextAddr(s, i + 1);
    assert HeaderFor(s, i).size == s[i].size && HeaderFor(s, i + 1).size == s[i + 1].size;
    hide Tiles, HeaderAt, HeaderFor, MergeStores, Merged, Clear, NextAddr;
    MergeHeaders(m, s[i].addr, s[o].addr);
  }

  lemma MergeKeeps(m: Words, s: seq<Seg>, top: int, i: int)
    requires Tiled(m, s, top) && 0 <= i < |s| - 1
    ensures Tiled(MergeStores(m, s[i].addr), Merged(s, i), top)
    ensures OnlyHeaders(m, MergeStores(m, s[i].addr), s)
  {
    var r, m1 := Merged(s, i), MergeStores(m, s[i].addr);
    MergeTiles(s, top, i);
    forall k | 0 <= k < |r| ensures Header(m1, r, k) {
      MergeStoresAt(m, s, top, i, k);
    }
    assert Header(m, s, i) && Header(m, s, i + 1);
    forall x | m1(x) != m(x) ensures InHeader(s, x) {
      assert s[i].addr <= x < s[i].Payload() || (i + 2 < |s| && s[i + 2].addr <= x < s[i + 2].Payload());
    }
  }

  // ----- Splitting

  /** There is room in segment `i` for a block of `size` and another segment. */
  ghost predicate CanSplit(s: seq<Seg>, i: int, size: int) {
    0 <= i < |s| && size >= 16 && size % 16 == 0 && size + HEADER + 16 <= s[i].size
  }

  function Split(s: seq<Seg>, i: int, size: int): seq<Seg>
    requires 0 <= i < |s|
  {
    s[..i] + [Seg(s[i].addr, size, s[i].used), Seg(s[i].addr + HEADER + size, s[i].size - size - HEADER, s[i].used)] + s[i + 1..]
  }

  /** The stores of `_heap_split`. */
  function SplitStores(m: Words, a: int, size: int): Words {
    var splitSize := HeaderAt(m, a).size - size - HEADER;
    var n := a + size + HEADER;
    var m2 := Put(Put(m, n, CANARY0), n + CANARY1_AT, CANARY1);
    var m3 := if HeaderAt(m2, a).next != 0 then Put(m2, HeaderAt(m2, a).next + PREV, n) else m2;
    var m4 := Put(m3, n + NEXT, HeaderAt(m3, a).next);
    var m5 := Put(m4, a + NEXT, n);
    var m6 := Put(m5, n + PREV, a);
    var m7 := Put(m6, n + USED, HeaderAt(m6, a).used);
    var m8 := Put(m7, n + SIZE, splitSize);
    Put(m8, a + SIZE, size)
  }

  lemma RestAligned(size: int, rest: int)
    requires size % 16 == 0 && rest % 16 == 0
    ensures (size - rest - HEADER) % 16 == 0
  {
    assert size - rest - HEADER == 16 * (size / 16 - rest / 16 - 3);
  }

  lemma SplitTiles(s: seq<Seg>, top: int, i: int, size: int)
    requires Tiles(s, top) && CanSplit(s, i, size)
    ensures Tiles(Split(s, i, size), top)
  {
    var r := Split(s, i, size);
    RestAligned(s[i].size, size);
    forall k | 0 <= k < |r|
      ensures r[k].size >= 16 && r[k].size % 16 == 0 && (k + 1 < |r| ==> r[k + 1].addr == r[k].End())
    {
      assert k > i + 1 ==> r[k] == s[k - 1];
      assert k + 1 > i + 1 && k + 1 < |r| ==> r[k + 1] == s[k];
    }
  }

  /** The stores of a split, seen from one header: the split segment, */
  lemma SplitOwn(m: Words, a: int, size: int)
    requires size >= 16 && 0 < a && ClearNext(m, a, size)
    ensures HeaderAt(SplitStores(m, a, size), a) == HeaderAt(m, a).(size := size, next := a + size + HEADER)
  {
  }

  /** the new segment, */
  lemma SplitNew(m: Words, a: int, size: int)
    requires size >= 16 && 0 < a && ClearNext(m, a, size)
    ensures HeaderAt(SplitStores(m, a, size), a + size + HEADER)
         == HeaderAt(m, a).(canary0 := CANARY0, size := HeaderAt(m, a).size - size - HEADER, prev := a, canary1 := CANARY1)
  {
  }

  /** the old successor, */
  lemma SplitNext(m: Words, a: int, size: int)
    requires size >= 16 && 0 < a && ClearNext(m, a, size)
    ensures var next := HeaderAt(m, a).next;
            next != 0 ==> HeaderAt(SplitStores(m, a, size), next) == HeaderAt(m, next).(prev := a + size + HEADER)
  {
  }

  /** and any header `b` clear of these three. */
  lemma SplitOther(m: Words, a: int, size: int, b: int)
    requires size >= 16 && 0 < a && ClearNext(m, a, size)
    requires Clear(b, a) && Clear(b, a + size + HEADER) && (HeaderAt(m, a).next != 0 ==> Clear(b, HeaderAt(m, a).next))
    ensures HeaderAt(SplitStores(m, a, size), b) == HeaderAt(m, b)
  {
  }

  predicate ClearNext(m: Words, a: int, size: int) {
    var next := HeaderAt(m, a).next;
    next == 0 || (Clear(next, a) && Clear(next, a + size + HEADER))
  }

  lemma SplitHeader(s: seq<Seg>, i: int, size: int, k: int)
    requires 0 <= i < |s| && 0 <= k <= |s|
    ensures var r, n := Split(s, i, size), s[i].addr + HEADER + size;
            && |r| == |s| + 1
            && r[k].addr == (if k <= i then s[k].addr else if k == i + 1 then n else s[k - 1].addr)
            && HeaderFor(r, k) ==
                if k < i then HeaderFor(s, k)
                else if k == i then HeaderFor(s, i).(size := size, next := n)
                else if k == i + 1 then HeaderFor(s, i).(size := s[i].size - size - HEADER, prev := s[i].addr)
                else if k == i + 2 then HeaderFor(s, k - 1).(prev := n)
                else HeaderFor(s, k - 1)
  {
  }

  /** What SplitHeaders needs to know about header `k` of the split list. */
  lemma SplitClear(s: seq<Seg>, top: int, i: int, size: int, k: int)
    requires Tiles(s, top) && CanSplit(s, i, size) && 0 <= k <= |s|
    ensures var r, a := Split(s, i, size), s[i].addr;
            var n, next := a + size + HEADER, NextAddr(s, i);
            && a > 0 && |r| == |s| + 1 && (next != 0 <==> i + 1 < |s|)
            && (next != 0 ==> Clear(next, a) && Clear(next, n))
            && (k != i && k != i + 1 ==> Clear(r[k].addr, a) && Clear(r[k].addr, n))
            && (next != 0 && k != i + 2 ==> Clear(r[k].addr, next))
            && r[k].addr == (if k == i + 1 then n else if next != 0 && k == i + 2 then next else r[k].addr)
  {
    SplitTiles(s, top, i, size);
    var r := Split(s, i, size);
    Separate(r, top, i, k);
    Separate(r, top, i + 1, k);
    if i + 1 < |s| {
      assert r[i + 2] == s[i + 1];
      Separate(r, top, i, i + 2);
      Separate(r, top, i + 1, i + 2);
      Separate(r, top, i + 2, k);
    }
  }

  lemma SplitStoresAt(m: Words, s: seq<Seg>, top: int, i: int, size: int, k: int)
    requires Tiled(m, s, top) && CanSplit(s, i, size) && 0 <= k <= |s|
    ensures |Split(s, i, size)| == |s| + 1 && Header(SplitStores(m, s[i].addr, size), Split(s, i, size), k)
  {
    SplitClear(s, top, i, size, k);
    SplitHeader(s, i, size, k);
    assert Header(m, s, i) && Header(m, s, if k <= i then k else k - 1);
    assert HeaderFor(s, i).next == NextAddr(s, i) && HeaderFor(s, i).canary0 == CANARY0 && HeaderFor(s, i).canary1 == CANARY1;
    hide Tiles, HeaderAt, HeaderFor, SplitStores, Split, Clear, NextAddr;
    var a := s[i].addr;
    if k == i {
      SplitOwn(m, a, size);
    } else if k == i + 1 {
      SplitNew(m, a, size);
    } else if k == i + 2 {
      SplitNext(m, a, size);
    } else {
      SplitOther(m, a, size, Split(s, i, size)[k].addr);
    }
  }

  lemma SplitKeeps(m: Words, s: seq<Seg>, top: int, i: int, size: int)
    requires Tiled(m, s, top) && CanSplit(s, i, size)
    ensures Tiled(SplitStores(m, s[i].addr, size), Split(s, i, size), top)
    ensures OnlyHeaders(m, SplitStores(m, s[i].addr, size), Split(s, i, size))
  {
    var r, m1 := Split(s, i, size), SplitStores(m, s[i].addr, size);
    SplitTiles(s, top, i, size);
    forall k | 0 <= k < |r| ensures Header(m1, r, k) {
      SplitStoresAt(m, s, top, i, size, k);
    }
    SplitStoresWhere(m, s, top, i, size);
  }

  lemma SplitStoresWhere(m: Words, s: seq<Seg>, top: int, i: int, size: int)
    requires Tiled(m, s, top) && CanSplit(s, i, size)
    ensures OnlyHeaders(m, SplitStores(m, s[i].addr, size), Split(s, i, size))
  {
    var r, m1 := Split(s, i, size), SplitStores(m, s[i].addr, size);
    assert Header(m, s, i) && r[i + 1].addr == s[i].addr + size + HEADER;
    forall x | m1(x) != m(x) ensures InHeader(r, x) {
      assert r[i].addr <= x < r[i].Payload() || r[i + 1].addr <= x < r[i + 1].Payload()
          || (i + 2 < |r| && r[i + 2].addr <= x < r[i + 2].Payload());
    }
  }

  // ----- Growing

  /** The segment list with a free segment of `size` bytes, header included, at the end. */
  function Appended(s: seq<Seg>, size: int): seq<Seg>
    requires |s| > 0
  {
    s + [Seg(s[|s| - 1].End(), size - HEADER, false)]
  }

  /** The header stores of `expand_heap`: `last` is the last segment, `n` the new one. */
  function AppendStores(m: Words, last: int, n: int, size: int): Words {
    var m1 := Put(Put(m, n + USED, 0), n + PREV, last);
    var m2 := Put(Put(m1, n, CANARY0), n + CANARY1_AT, CANARY1);
    Put(Put(Put(m2, last + NEXT, n), n + NEXT, 0), n + SIZE, size - HEADER)
  }

  lemma AppendKeeps(m: Words, s: seq<Seg>, top: int, size: int)
    requires Tiled(m, s, top) && size >= HEADER + 16 && size % 16 == 0
    ensures var m1 := AppendStores(m, s[|s| - 1].addr, top, size);
            Tiled(m1, Appended(s, size), top + size) && OnlyHeaders(m, m1, Appended(s, size))
  {
    var r, l, last := Appended(s, size), |s|, s[|s| - 1].addr;
    var m1 := AppendStores(m, last, top, size);
    AppendTiles(s, top, size);
    forall k | 0 <= k < |r| ensures Header(m1, r, k) {
      AppendStoresAt(m, s, top, size, k);
    }
    forall x | m1(x) != m(x) ensures InHeader(r, x) {
      assert r[l].addr <= x < r[l].Payload() || r[l - 1].addr <= x < r[l - 1].Payload();
    }
  }

  lemma AppendTiles(s: seq<Seg>, top: int, size: int)
    requires Tiles(s, top) && size >= HEADER + 16 && size % 16 == 0
    ensures Tiles(Appended(s, size), top + size) && Appended(s, size)[|s|].addr == top
  {
  }

  lemma AppendHeaders(m: Words, last: int, n: int, size: int, b: int)
    requires Clear(last, n)
    ensures var m1 := AppendStores(m, last, n, size);
            && HeaderAt(m1, last) == HeaderAt(m, last).(next := n)
            && HeaderAt(m1, n) == HeaderRec(CANARY0, size - HEADER, last, 0, 0, CANARY1)
            && (Clear(b, last) && Clear(b, n) ==> HeaderAt(m1, b) == HeaderAt(m, b))
  {
  }

  lemma AppendedHeader(s: seq<Seg>, size: int, k: int)
    requires 0 <= k <= |s| && |s| > 0
    ensures var r, l := Appended(s, size), |s|;
            && r[k].addr == (if k == l then s[l - 1].End() else s[k].addr)
            && HeaderFor(r, k) == if k == l then HeaderRec(CANARY0, size - HEADER, s[l - 1].addr, 0, 0, CANARY1)
                                  else if k == l - 1 then HeaderFor(s, k).(next := s[l - 1].End())
                                  else HeaderFor(s, k)
  {
  }

  lemma AppendStoresAt(m: Words, s: seq<Seg>, top: int, size: int, k: int)
    requires Tiled(m, s, top) && size >= HEADER + 16 && size % 16 == 0 && 0 <= k <= |s|
    ensures Header(AppendStores(m, s[|s| - 1].addr, top, size), Appended(s, size), k)
  {
    var l := |s|;
    AppendTiles(s, top, size);
    AppendedHeader(s, size, k);
    AppendedHeader(s, size, l - 1);
    AppendedHeader(s, size, l);
    assert k < l ==> Header(m, s, k);
    Separate(Appended(s, size), top + size, l - 1, k);
    Separate(Appended(s, size), top + size, l - 1, l);
    Separate(Appended(s, size), top + size, l, k);
    hide Tiles, HeaderAt, HeaderFor, AppendStores, Appended, Clear;
    AppendHeaders(m, s[l - 1].addr, top, size, Appended(s, size)[k].addr);
  }

  // ----- Taking and giving back

  function Marked(s: seq<Seg>, i: int, used: bool): seq<Seg>
    requires 0 <= i < |s|
  {
    s[i := s[i].(used := used)]
  }

  lemma MarkKeeps(m: Words, s: seq<Seg>, top: int, i: int, used: bool)
    requires Tiled(m, s, top) && 0 <= i < |s|
    ensures var m1 := Put(m, s[i].addr + USED, if used then 1 else 0);
            Tiled(m1, Marked(s, i, used), top) && OnlyHeaders(m, m1, Marked(s, i, used))
  {
    var r, v := Marked(s, i, used), if used then 1 else 0;
    var m1 := Put(m, s[i].addr + USED, v);
    forall k | 0 <= k < |r| ensures Header(m1, r, k) {
      assert Header(m, s, k);
      Separate(s, top, i, k);
    }
    assert r[i].addr == s[i].addr;
  }
}
