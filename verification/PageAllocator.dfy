/** The physical page allocator: an unsorted array of tags changed in place. */
module PageAllocator {
  import opened Machine
  import opened PageTags
  import MemoryCopy

  const MAX_TAGS := 256

  /** u64 arithmetic: the loop bound `memory_tag_count - 1` wraps for an empty list. */
  function Wrap64(x: int): (r: nat)
    ensures 0 <= x < U64 ==> r == x
  {
    x % U64
  }

  /** Position of the first tag that `mark_pages` does not skip, or the list length. */
  function Hit(s: seq<Tag>, page: int): (h: nat)
    ensures h <= |s|
    ensures h < |s| ==> s[h].start <= page <= s[h].End()
    ensures forall i :: 0 <= i < h ==> !(s[i].start <= page <= s[i].End())
    decreases |s|
  {
    if s == [] || s[0].start <= page <= s[0].End() then 0
    else
      assert forall i :: 1 <= i < |s| ==> s[i] == s[1..][i - 1];
      1 + Hit(s[1..], page)
  }

  /** Marking a block that begins inside a tag and ends inside it (or exactly with it)
      is the case the kernel stops on. */
  ghost predicate SplitNeeded(s: seq<Tag>, page: int, count: nat) {
    var h := Hit(s, page);
    h < |s| && s[h].start < page < s[h].End() && page + count <= s[h].End()
  }

  /** The hit tag as `mark_pages` leaves it. */
  function Trimmed(t: Tag, page: int, c: nat): Tag {
    if page == t.start then Tag(t.start + c, Max(t.length - c, 0))
    else if page == t.End() then Tag(t.start, Max(t.length - c, 0))
    else Tag(t.start, page - t.start)
  }

  /** The pages that `mark_pages` takes out of the free set. */
  ghost function Taken(s: seq<Tag>, page: int, count: nat): iset<int> {
    var h := Hit(s, page);
    if h == |s| then iset{}
    else if page == s[h].start then Block(page, Min(count, s[h].length))
    else if page == s[h].End() then Block(page - Min(count, s[h].length), Min(count, s[h].length))
    else Block(page, s[h].End() - page)
  }

  /** The block a first-fit search hands out. */
  ghost predicate FirstFit(s: seq<Tag>, c: nat, page: int) {
    exists k :: 0 <= k < |s| && s[k].length >= c && s[k].start == page && forall i :: 0 <= i < k ==> s[i].length < c
  }

  /** In normal form no earlier tag can intercept the scan for the first page of a tag. */
  lemma NormalFormHits(s: seq<Tag>, k: int)
    requires NormalForm(s) && 0 <= k < |s|
    ensures Hit(s, s[k].start) == k
  {}

  /** Hence marking the head of a tag takes exactly the block asked for. */
  lemma HeadIsTaken(s: seq<Tag>, k: int, c: nat)
    requires NormalForm(s) && 0 <= k < |s| && c <= s[k].length
    ensures !SplitNeeded(s, s[k].start, c) && Taken(s, s[k].start, c) == Block(s[k].start, c) <= Pages(s)
  {
    NormalFormHits(s, k);
    assert forall p :: p in Block(s[k].start, c) ==> s[k].Has(p);
  }

  /** Changing the hit tag the way `mark_pages` does takes exactly `Taken` away. */
  lemma TrimTakes(s: seq<Tag>, page: int, c: nat, r: seq<Tag>)
    requires Disjoint(s) && NoEmpty(s) && !SplitNeeded(s, page, c)
    requires var h := Hit(s, page); h < |s| && r == s[h := Trimmed(s[h], page, c)]
    ensures Disjoint(r) && NonNegative(r) && Pages(r) == Pages(s) - Taken(s, page, c)
  {
    var h := Hit(s, page);
    forall i, j | 0 <= i < j < |r| ensures Apart(r[i], r[j]) {
      assert Apart(s[i], s[j]);
    }
    forall p ensures p in Pages(r) <==> p in Pages(s) - Taken(s, page, c) {
      TrimTakesPage(s, h, page, c, p);
    }
  }

  /** The same for one page `p`. */
  lemma TrimTakesPage(s: seq<Tag>, h: int, page: int, c: nat, p: int)
    requires Disjoint(s) && NoEmpty(s) && !SplitNeeded(s, page, c)
    requires h == Hit(s, page) < |s|
    ensures Covered(s[h := Trimmed(s[h], page, c)], p) <==> Covered(s, p) && p !in Taken(s, page, c)
  {
    var r := s[h := Trimmed(s[h], page, c)];
    assert r[h].Has(p) <==> s[h].Has(p) && p !in Taken(s, page, c);
    assert p in Taken(s, page, c) ==> s[h].Has(p);
    if i :| 0 <= i < |s| && i != h && s[i].Has(p) {
      assert r[i].Has(p);
      assert Apart(s[if i < h then i else h], s[if i < h then h else i]);
    }
  }

  lemma AppendAdds(s: seq<Tag>, t: Tag)
    requires NonNegative(s) && t.length >= 0
    ensures Pages(s + [t]) == Pages(s) + Block(t.start, t.length) && NonNegative(s + [t])
    ensures Disjoint(s) && Block(t.start, t.length) !! Pages(s) ==> Disjoint(s + [t])
  {
    var r := s + [t];
    forall p ensures p in Pages(r) <==> p in Pages(s) + Block(t.start, t.length) {
      if i :| 0 <= i < |s| && s[i].Has(p) { assert r[i].Has(p); }
      if t.Has(p) { assert r[|s|].Has(p); }
    }
    if Disjoint(s) && Block(t.start, t.length) !! Pages(s) {
      forall i | 0 <= i < |s| ensures Apart(s[i], t) {
        var p := if s[i].start < t.start then t.start else s[i].start;
        assert s[i].Has(p) ==> p in Pages(s);
        assert t.Has(p) ==> p in Block(t.start, t.length);
      }
    }
  }

  // ----- How far the slides reach

  /** One past the highest tag that the inner loop writes for tag `i`, from position `j` on:
      its slide at `j` moves one tag fewer than there are behind `i`, however few are behind `j`. */
  function SlideReach(s: seq<Tag>, i: nat, j: nat): nat
    requires i < j
    decreases |s| - j
  {
    if j >= |s| then 0
    else if Touches(s[i], s[j]) then Max(j + |s| - (i + 1), SlideReach(Absorbed(s, i, j), i, j))
    else SlideReach(s, i, j + 1)
  }

  /** The two memories agree from place `k` on. */
  ghost predicate SameFrom(a: seq<Tag>, b: seq<Tag>, k: nat) {
    |a| == |b| && forall p :: k <= p < |a| ==> a[p] == b[p]
  }

  lemma SameFromSteps(a: seq<Tag>, b: seq<Tag>, c: seq<Tag>, j: nat, k: nat)
    requires SameFrom(a, b, j) && SameFrom(b, c, k)
    ensures SameFrom(a, c, Max(j, k))
  {}

  lemma SameBehind(a: seq<Tag>, b: seq<Tag>, k: nat)
    requires SameFrom(a, b, k)
    ensures |a| == |b| && (k <= MAX_TAGS <= |a| ==> a[MAX_TAGS..] == b[MAX_TAGS..])
  {}

  lemma SameFromAbove(a: seq<Tag>, k: nat)
    ensures SameFrom(a, a, k)
  {}

  lemma AppendNoEmpty(s: seq<Tag>, t: Tag)
    requires NormalForm(s)
    ensures t.length > 0 ==> NoEmpty(s + [t])
  {}

  lemma OneChanged(a: seq<Tag>, b: seq<Tag>, k: nat)
    requires |a| == |b| && forall p :: 0 <= p < |a| && p != k ==> a[p] == b[p]
    ensures SameFrom(a, b, k + 1)
  {}

  lemma DeletedAbove(a: seq<Tag>, b: seq<Tag>, c: seq<Tag>, k: nat)
    requires SameFrom(a, b, k) && |c| == |b| && forall p :: k <= p < |b| ==> c[p] == b[p]
    ensures SameFrom(a, c, k)
  {}

  lemma SameFromStart(a: seq<Tag>)
    ensures SameFrom(a, a, 0)
  {}

  /** No tag behind tag `i` and before position `j` touches it. */
  ghost predicate Untouched(s: seq<Tag>, i: nat, j: nat) {
    forall b :: i < b < j && b < |s| ==> !Touches(s[i], s[b])
  }

  /** The inner loop for tag `i` at position `j`: `s1` is the list it started with, `s` the list now. */
  ghost predicate Merging(s0: seq<Tag>, s1: seq<Tag>, s: seq<Tag>, i: nat, j: nat, changes: nat, reach: nat) {
    && i < j && Compacts(s0, s) && NoEmpty(s) && |s1| <= |s0|
    && changes == |s1| - |s| && (j <= |s| || s == s1)
    && (changes == 0 ==> s == s1 && Untouched(s, i, j))
    && Max(reach, SlideReach(s, i, j)) == SlideReach(s1, i, i + 1)
  }

  lemma MergingMerges(s0: seq<Tag>, s1: seq<Tag>, s: seq<Tag>, i: nat, j: nat, changes: nat, reach: nat)
    requires Merging(s0, s1, s, i, j, changes, reach) && j < |s| && Touches(s[i], s[j])
    ensures var r := Absorbed(s, i, j);
            Compacts(s0, r) && NoEmpty(r) && Merging(s0, s1, r, i, j, changes + 1, Max(reach, j + |s| - (i + 1)))
  {
    MergeCompacts(s0, s, i, j);
  }

  lemma MergingSkips(s0: seq<Tag>, s1: seq<Tag>, s: seq<Tag>, i: nat, j: nat, changes: nat, reach: nat)
    requires Merging(s0, s1, s, i, j, changes, reach) && j < |s| && !Touches(s[i], s[j])
    ensures Merging(s0, s1, s, i, j + 1, changes, reach)
  {}

  lemma MergingEnds(s0: seq<Tag>, s1: seq<Tag>, s: seq<Tag>, i: nat, j: nat, changes: nat, reach: nat)
    requires Merging(s0, s1, s, i, j, changes, reach) && j >= |s|
    ensures InnerDone(s0, s1, s, i, changes, reach)
  {}

  /** What the inner loop for tag `i` does to the list `s1`. */
  ghost predicate InnerDone(s0: seq<Tag>, s1: seq<Tag>, s: seq<Tag>, i: nat, changes: nat, reach: nat) {
    && Compacts(s0, s) && NoEmpty(s)
    && changes == |s1| - |s| && (i < |s1| ==> i < |s|) && (i >= |s1| || changes == 0 ==> s == s1)
    && (|s| == |s0| && NormalUpTo(s0, i) ==> NormalUpTo(s0, i + 1))
    && reach == SlideReach(s1, i, i + 1)
  }

  function Absorbed(s: seq<Tag>, i: nat, j: nat): (r: seq<Tag>)
    requires i < j < |s|
    ensures |r| == |s| - 1
  {
    Without(s, j)[i := Union(s[i], s[j])]
  }

  /** One slide stays inside the 256 tags if and only if j + count <= 257 + i. */
  lemma SlideInsideIff(i: nat, j: nat, count: nat)
    requires i < j < count <= MAX_TAGS
    ensures (forall k :: j <= k < j + (count - (i + 1)) ==> InsideArray(k)) <==> j + count <= MAX_TAGS + 1 + i
  {
    assert InsideArray(j + (count - (i + 1)) - 1) ==> j + count <= MAX_TAGS + 1 + i;
  }

  predicate InsideArray(k: nat) { k < MAX_TAGS }

  /** With n tags no slide reaches beyond 2 * n - 2. */
  lemma {:induction false} SlideBound(s: seq<Tag>, i: nat, j: nat)
    requires i < j
    ensures SlideReach(s, i, j) <= Max(2 * |s| - 2, 0)
    decreases |s| - j
  {
    if j < |s| {
      if Touches(s[i], s[j]) {
        SlideBound(Absorbed(s, i, j), i, j);
      } else {
        SlideBound(s, i, j + 1);
      }
    }
  }

  /** 129 single pages in normal form. */
  function Scattered(): (s: seq<Tag>)
    ensures |s| == 129
  {
    seq(129, k => Tag(if k == 0 then 1000 else 2 * k, 1))
  }

  lemma {:induction false} NothingTouched(s: seq<Tag>, i: nat, j: nat, n: nat)
    requires i < j <= n <= |s| && forall k :: j <= k < n ==> !Touches(s[i], s[k])
    ensures SlideReach(s, i, j) == SlideReach(s, i, n)
    decreases n - j
  {
    if j < n { NothingTouched(s, i, j + 1, n); }
  }

  /** Freeing page 1001 then makes the slide at i = 0, j = 129 write tags 256 and 257, behind
      the page of the array. */
  lemma SlideLeavesArray()
    ensures var s, t := Scattered(), Tag(1001, 1);
            && NormalForm(s) && Disjoint(s) && Block(1001, 1) !! Pages(s)
            && Touches((s + [t])[0], (s + [t])[129]) && SlideReach(s + [t], 0, 1) == 258
  {
    var s, t := Scattered(), Tag(1001, 1);
    var r := s + [t];
    forall p | p in Pages(s) ensures p != 1001 {
      var i :| 0 <= i < |s| && s[i].Has(p);
    }
    NothingTouched(r, 0, 1, 129);
    SlideBound(Absorbed(r, 0, 129), 0, 129);
    assert SlideReach(Absorbed(r, 0, 129), 0, 129) == 0;
  }

  class Pmm {
    // The memory from the tag array on: its 256 tags, which fill a page, and as much behind
    // them as a slide may read and write.
    const tags: array<Tag>
    var count: nat

    ghost predicate Shape()
      reads this, tags
    {
      tags.Length == 2 * MAX_TAGS && count <= MAX_TAGS && NonNegative(Live())
    }

    ghost function Live(): (s: seq<Tag>)
      requires count <= tags.Length
      reads this, tags
    {
      tags[..count]
    }

    /** The object invariant between calls. */
    ghost predicate Valid()
      reads this, tags
    {
      Shape() && NormalForm(Live()) && Disjoint(Live())
    }

    ghost function Free(): iset<int>
      requires count <= tags.Length
      reads this, tags
    {
      Pages(Live())
    }

    /** The memory behind the page of the tag array. */
    ghost function Behind(): seq<Tag>
      requires tags.Length == 2 * MAX_TAGS
      reads tags
    {
      tags[MAX_TAGS..]
    }

    /** An empty allocator; the tag memory holds whatever was there. */
    constructor (memory: array<Tag>)
      requires memory.Length == 2 * MAX_TAGS
      ensures tags == memory && Valid() && Free() == iset{} && count == 0
    {
      tags := memory;
      count := 0;
    }

    /** `kmemmove` of `n` tags one place down, on records what `MemoryCopy.MoveRecords` does on
        their bytes.  It writes `tags[at]` up to `tags[at + n - 1]`. */
    method Slide(at: nat, n: nat)
      requires at + n < tags.Length
      modifies tags
      ensures tags[..] == MemoryCopy.Copied(old(tags[..]), at, old(tags[..]), at + 1, n)
      ensures forall k :: 0 <= k < tags.Length ==>
        tags[k] == if at <= k < at + n then old(tags[k + 1]) else old(tags[k])
    {
      forall k | at <= k < at + n {
        tags[k] := tags[k + 1];
      }
    }

    /** Delete tag `k` by sliding `n` tags, at least the live tail. */
    method Delete(k: nat, n: nat)
      requires k < count <= tags.Length && k + n < tags.Length && count <= k + n + 1
      modifies this`count, tags
      ensures count == old(count) - 1 && Live() == Without(old(Live()), k)
      ensures forall p :: k + n <= p < tags.Length ==> tags[p] == old(tags[p])
    {
      hide MemoryCopy.Copied;
      Slide(k, n);
      count := count - 1;
    }

    /** `_fix_memtags`: passes over the list until one changes nothing.  No tag from `reach` on
        is written; up to 129 tags, that is inside the array. */
    method FixMemtags() returns (ghost reach: nat)
      requires Shape()
      modifies this`count, tags
      ensures Shape() && NormalForm(Live()) && Compacts(old(Live()), Live())
      ensures SameFrom(old(tags[..]), tags[..], reach)
      ensures NoEmpty(old(Live())) && old(count) > 1 ==> reach >= SlideReach(old(Live()), 0, 1)
      ensures reach <= Max(old(count), 2 * old(count) - 2)
      ensures old(count) <= 129 ==> Behind() == old(Behind())
      decreases count
    {
      hide SameFrom, NonNegative, NormalForm, NoEmpty, Disjoint, Pages;
      ghost var s0, t0 := Live(), tags[..];
      var dropped := DropEmptyTags();
      ghost var s1, t1 := Live(), tags[..];
      var merged;
      merged, reach := MergePass();
      CompactsTransitive(s0, s1, Live());
      SameFromSteps(t0, t1, tags[..], |s0|, reach);
      reach := Max(|s0|, reach);
      if dropped + merged > 0 {
        ghost var s2, t2 := Live(), tags[..];
        ghost var again := FixMemtags();
        CompactsTransitive(s0, s2, Live());
        SameFromSteps(t0, t2, tags[..], reach, again);
        reach := Max(reach, again);
      }
      SameBehind(t0, tags[..], reach);
    }

    /** The second, nested, loop of `_fix_memtags`. */
    method MergePass() returns (changes: nat, ghost reach: nat)
      requires Shape() && NoEmpty(Live())
      modifies this`count, tags
      ensures Shape() && Compacts(old(Live()), Live()) && changes == old(count) - count
      ensures changes == 0 ==> NormalForm(Live())
      ensures SameFrom(old(tags[..]), tags[..], reach)
      ensures old(count) > 1 ==> reach >= SlideReach(old(Live()), 0, 1)
      ensures reach <= Max(2 * old(count) - 2, 0)
    {
      ghost var s0, t0 := Live(), tags[..];
      changes, reach := 0, 0;
      var i := 0;
      SameFromStart(t0);
      hide SameFrom, Pages, Disjoint, SlideReach;
      while i < Wrap64(count - 1)
        invariant 0 <= i && Shape() && (count == 0 || i <= count)
        invariant Compacts(s0, Live()) && NoEmpty(Live()) && changes == |s0| - count
        invariant changes == 0 ==> NormalUpTo(Live(), i)
        invariant SameFrom(t0, tags[..], reach)
        invariant reach <= Max(2 * |s0| - 2, 0) && (i == 0 ==> Live() == s0) && (i > 0 ==> reach >= SlideReach(s0, 0, 1))
        decreases Wrap64(count - 1) - i
      {
        SlideBound(Live(), i, i + 1);
        var merged;
        ghost var r, t1 := 0, tags[..];
        merged, r := MergeInto(i, s0);
        SameFromSteps(t0, t1, tags[..], reach, r);
        reach := Max(reach, r);
        changes := changes + merged;
        i := i + 1;
      }
    }

    /** The first loop of `_fix_memtags`. */
    method DropEmptyTags() returns (changes: nat)
      requires Shape()
      modifies this`count, tags
      ensures Shape() && NoEmpty(Live()) && Compacts(old(Live()), Live()) && changes == old(count) - count
      ensures NoEmpty(old(Live())) ==> Live() == old(Live())
      ensures SameFrom(old(tags[..]), tags[..], old(count))
    {
      hide Pages, Disjoint, SameFrom, NormalForm;
      SameFromAbove(tags[..], count);
      ghost var s0, t0 := Live(), tags[..];
      changes := 0;
      var i := 0;
      while i < count
        invariant 0 <= i <= count && Shape() && Compacts(s0, Live()) && changes == |s0| - count
        invariant NoEmpty(s0) ==> Live() == s0
        invariant forall k :: 0 <= k < i ==> tags[k].length > 0
        invariant SameFrom(t0, tags[..], |s0|)
        decreases count - i
      {
        if tags[i].length != 0 {
          i := i + 1;
        } else {
          DeleteCompacts(s0, Live(), i);
          ghost var t1 := tags[..];
          Delete(i, count - i);
          DeletedAbove(t0, t1, tags[..], |s0|);
          changes := changes + 1;
        }
      }
    }

    /** Merge tag `j`, which touches tag `i`, into it. */
    method Merge(i: nat, j: nat)
      requires Shape() && i < j < count && Touches(tags[i], tags[j])
      modifies this`count, tags
      ensures count == old(count) - 1 && Live() == Absorbed(old(Live()), i, j)
      ensures SameFrom(old(tags[..]), tags[..], j + old(count) - (i + 1))
    {
      ghost var after := Absorbed(Live(), i, j);
      var merged := Union(tags[i], tags[j]);
      hide Union, NonNegative;
      Delete(j, count - (i + 1));
      tags[i] := merged;
      assert Live() == after;
    }

    /** The inner loop: merge every later tag that touches tag `i` as it grows. */
    method MergeInto(i: nat, ghost s0: seq<Tag>) returns (changes: nat, ghost reach: nat)
      requires Shape() && Compacts(s0, Live()) && NoEmpty(Live())
      modifies this`count, tags
      ensures Shape() && InnerDone(s0, old(Live()), Live(), i, changes, reach)
      ensures SameFrom(old(tags[..]), tags[..], reach)
    {
      ghost var s1, t0 := Live(), tags[..];
      changes, reach := 0, 0;
      var j := i + 1;
      assert Merging(s0, s1, Live(), i, j, changes, reach);
      SameFromStart(t0);
      hide Merging, InnerDone, NoEmpty, Absorbed, SameFrom;
      while j < count
        invariant i < j && Shape()
        invariant Merging(s0, s1, Live(), i, j, changes, reach)
        invariant SameFrom(t0, tags[..], reach)
        decreases count - j
      {
        if Touches(tags[i], tags[j]) {
          ghost var r, t1 := j + count - (i + 1), tags[..];
          MergingMerges(s0, s1, Live(), i, j, changes, reach);
          Merge(i, j);
          SameFromSteps(t0, t1, tags[..], reach, r);
          changes, reach := changes + 1, Max(reach, r);
        } else {
          MergingSkips(s0, s1, Live(), i, j, changes, reach);
          j := j + 1;
        }
      }
      MergingEnds(s0, s1, Live(), i, j, changes, reach);
    }

    /** Store the trimmed tag and normalise. */
    method Retag(i: nat, t: Tag, ghost page: int, ghost c: nat)
      requires Valid() && !SplitNeeded(Live(), page, c)
      requires i < count && i == Hit(Live(), page) && t == Trimmed(tags[i], page, c)
      modifies this`count, tags
      ensures Valid() && count <= old(count) && Free() == old(Free() - Taken(Live(), page, c))
      ensures old(count) <= 129 ==> Behind() == old(Behind())
    {
      ghost var s0 := Live();
      tags[i] := t;
      assert Live() == s0[i := t];
      TrimTakes(s0, page, c, Live());
      ghost var _ := FixMemtags();
    }

    /** `mark_pages`.  `ok` is false where the kernel panics. */
    method MarkPages(page: int, c: nat) returns (ok: bool)
      requires Valid()
      modifies this`count, tags
      ensures ok <==> !old(SplitNeeded(Live(), page, c))
      ensures ok ==> Valid() && Free() == old(Free() - Taken(Live(), page, c))
      ensures Shape() && (!ok ==> Live() == old(Live()))
      ensures count <= old(count)
      ensures old(count) <= 129 ==> Behind() == old(Behind())
    {
      ghost var s0 := Live();
      var i := 0;
      while i < count
        invariant 0 <= i <= count && Live() == s0
        invariant i <= Hit(s0, page)
      {
        var t := tags[i];
        if !(t.start > page || t.End() < page) {
          assert i == Hit(s0, page);
          if page == t.start {
            Retag(i, Tag(t.start + c, Max(t.length - c, 0)), page, c);
            return true;
          }
          if page == t.End() {
            Retag(i, Tag(t.start, Max(t.length - c, 0)), page, c);
            return true;
          }
          if page - t.start + c > t.length {
            Retag(i, Tag(t.start, page - t.start), page, c);
            return true;
          }
          return false;
        }
        i := i + 1;
      }
      return true;
    }

    /** `free_pages`.  Freeing a page that is already free is excluded; `ok` is false
        when the tag array is full and the kernel panics. */
    method FreePages(page: int, c: nat) returns (ok: bool)
      requires Valid() && Block(page, c) !! Free()
      modifies this`count, tags
      ensures (ok <==> old(count) < MAX_TAGS) && count <= old(count) + 1
      ensures ok ==> Valid() && Free() == old(Free()) + Block(page, c)
      ensures Shape() && (!ok ==> Live() == old(Live()))
      ensures old(count) <= 128 ==> Behind() == old(Behind())
    {
      if count >= MAX_TAGS {
        return false;
      }
      ghost var reach := AddTag(Tag(page, c));
      return true;
    }

    /** The rest of `free_pages`; `reach` as for `FixMemtags`. */
    method AddTag(t: Tag) returns (ghost reach: nat)
      requires Valid() && count < MAX_TAGS && t.length >= 0 && Block(t.start, t.length) !! Free()
      modifies this`count, tags
      ensures Valid() && count <= old(count) + 1 && Free() == old(Free()) + Block(t.start, t.length)
      ensures SameFrom(old(tags[..]), tags[..], reach)
      ensures t.length > 0 && old(count) > 0 ==> reach >= SlideReach(old(Live()) + [t], 0, 1)
      ensures old(count) <= 128 ==> Behind() == old(Behind())
    {
      hide SameFrom, Disjoint, Pages, NormalForm, NonNegative, SlideReach;
      ghost var s0, t0 := Live(), tags[..];
      count := count + 1;
      tags[count - 1] := t;
      AppendAdds(s0, t);
      assert Live() == s0 + [t];
      ghost var t1 := tags[..];
      OneChanged(t0, t1, |s0|);
      AppendNoEmpty(s0, t);
      reach := FixMemtags();
      SameFromSteps(t0, t1, tags[..], |s0| + 1, reach);
      reach := Max(|s0| + 1, reach);
      SameBehind(t0, tags[..], reach);
    }

    /** `request_pages`: first fit.  `ok` is false where the kernel runs out of memory. */
    method RequestPages(c: nat) returns (ok: bool, page: int)
      requires Valid()
      modifies this`count, tags
      ensures ok <==> exists t :: t in old(Live()) && t.length >= c
      ensures ok ==> Valid() && FirstFit(old(Live()), c, page)
      ensures ok ==> Block(page, c) <= old(Free()) && Free() == old(Free()) - Block(page, c)
      ensures Shape() && (!ok ==> Live() == old(Live()))
      ensures count <= old(count)
      ensures old(count) <= 129 ==> Behind() == old(Behind())
    {
      hide Hit, Taken, SplitNeeded, Disjoint, NonNegative, Pages;
      page := 0;
      var i := 0;
      while i < count
        invariant 0 <= i <= count && Live() == old(Live())
        invariant forall k :: 0 <= k < i ==> tags[k].length < c
      {
        if tags[i].length >= c {
          page := tags[i].start;
          HeadIsTaken(Live(), i, c);
          ok := MarkPages(page, c);
          return;
        }
        i := i + 1;
      }
      return false, 0;
    }

    /** `request_page`: the first page of the first tag. */
    method RequestPage() returns (ok: bool, page: int)
      requires Valid()
      modifies this`count, tags
      ensures ok <==> old(count) > 0
      ensures ok ==> Valid() && page == old(tags[0].start)
      ensures ok ==> page in old(Free()) && Free() == old(Free()) - Block(page, 1)
      ensures Shape() && (!ok ==> Live() == old(Live()))
      ensures count <= old(count)
      ensures old(count) <= 129 ==> Behind() == old(Behind())
    {
      if count > 0 {
        page := tags[0].start;
        HeadIsTaken(Live(), 0, 1);
        ok := MarkPages(page, 1);
        assert page in Block(page, 1);
        return;
      }
      return false, 0;
    }
  }
}
