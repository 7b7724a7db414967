/** What the heap operations do to the list of segments, and the laws of that policy:
    first fit, eager coalescing, freeing as the inverse of allocating, and the recount of
    memory in use. */
module HeapPolicy {
  import opened HeapSegments

  predicate Fits(x: Seg, size: int) { !x.used && x.size >= size }

  ghost predicate FirstFitting(s: seq<Seg>, i: int, size: int) {
    0 <= i < |s| && Fits(s[i], size) && forall k :: 0 <= k < i ==> !Fits(s[k], size)
  }

  ghost predicate HasFit(s: seq<Seg>, size: int) {
    exists i :: 0 <= i < |s| && Fits(s[i], size)
  }

  /** Allocate `size` bytes from segment `i`, splitting it if it is much larger. */
  function Take(s: seq<Seg>, i: int, size: int): seq<Seg>
    requires 0 <= i < |s|
  {
    if s[i].size > size + 2 * HEADER then Marked(Split(s, i, size), i, true) else Marked(s, i, true)
  }

  /** Grow the heap by `size` bytes; a free last segment absorbs them. */
  function Expanded(s: seq<Seg>, size: int): seq<Seg>
    requires |s| > 0
  {
    if s[|s| - 1].used then Appended(s, size) else Merged(Appended(s, size), |s| - 1)
  }

  function MergedForward(s: seq<Seg>, i: int): seq<Seg>
    requires 0 <= i < |s|
  {
    if i + 1 < |s| && !s[i + 1].used then Merged(s, i) else s
  }

  function MergedBackward(s: seq<Seg>, i: int): seq<Seg>
    requires 0 <= i < |s|
  {
    if i > 0 && !s[i - 1].used then MergedForward(s, i - 1) else s
  }

  /** Free segment `i` and merge it with its free neighbours. */
  function Freed(s: seq<Seg>, i: int): (r: seq<Seg>)
    requires 0 <= i < |s|
  {
    MergedBackward(MergedForward(Marked(s, i, false), i), i)
  }

  // ----- Coalescing is eager

  lemma TakeCoalesced(s: seq<Seg>, i: int, size: int)
    requires Coalesced(s) && 0 <= i < |s| && !s[i].used
    ensures Coalesced(Take(s, i, size))
  {}

  lemma FreedCoalesced(s: seq<Seg>, i: int)
    requires Coalesced(s) && 0 <= i < |s|
    ensures Coalesced(Freed(s, i))
  {
    var s1 := Marked(s, i, false);
    var s2 := MergedForward(s1, i);
    assert CoalescedBut(s2, i) by {
      forall k | 0 <= k < |s2| - 1 && k != i - 1 ensures s2[k].used || s2[k + 1].used {
        var o := if |s2| < |s| && k > i then k + 1 else k;
        assert s[o].used || s[o + 1].used;
        assert k == i && |s2| < |s| ==> s[i + 1].used || s[i + 2].used;
      }
    }
    MergeCoalesces(s2, i);
  }

  /** Coalesced except perhaps for the pair that ends in segment `i`, which is free. */
  ghost predicate CoalescedBut(s: seq<Seg>, i: int) {
    0 <= i < |s| && !s[i].used && forall k :: 0 <= k < |s| - 1 && k != i - 1 ==> s[k].used || s[k + 1].used
  }

  lemma MergeCoalesces(s: seq<Seg>, i: int)
    requires CoalescedBut(s, i)
    ensures Coalesced(MergedBackward(s, i))
  {}

  lemma ExpandedCoalesced(s: seq<Seg>, size: int)
    requires Coalesced(s) && |s| > 0
    ensures var r := Expanded(s, size);
            && Coalesced(r) && |r| > 0 && !r[|r| - 1].used
            && r[|r| - 1].size == (if s[|s| - 1].used then size - HEADER else s[|s| - 1].size + size)
  {}

  /** Freeing what was just allocated gives back the very same list. */
  lemma FreeUndoesTake(s: seq<Seg>, i: int, size: int)
    requires Coalesced(s) && 0 <= i < |s| && Fits(s[i], size)
    ensures Freed(Take(s, i, size), i) == s
  {
    var r := Take(s, i, size);
    var s1 := Marked(r, i, false);
    var s2 := MergedForward(s1, i);
    assert i + 1 < |s| ==> s[i].used || s[i + 1].used;
    assert forall k :: 0 <= k < |s| - 1 ==> s[k].used || s[k + 1].used;
    if s[i].size > size + 2 * HEADER {
      assert s1 == Split(s, i, size);
      assert s2 == s;
    } else {
      assert s1 == s;
      assert s2 == s;
    }
  }

  // ----- The recount

  /** The bytes of a segment that are in use. */
  function Counted(x: Seg): int { if x.used then x.size else 0 }

  /** What `heap_get_used_old` adds up: all headers, and the payloads in use. */
  ghost function Recount(s: seq<Seg>): int {
    if s == [] then 0 else HEADER + Counted(s[0]) + Recount(s[1..])
  }

  lemma {:induction false} RecountConcat(a: seq<Seg>, b: seq<Seg>)
    ensures Recount(a + b) == Recount(a) + Recount(b)
  {
    if a == [] {
      assert a + b == b;
    } else {
      assert (a + b)[1..] == a[1..] + b;
      RecountConcat(a[1..], b);
    }
  }

  lemma RecountFew(x: Seg, y: Seg)
    ensures Recount([x]) == HEADER + Counted(x)
    ensures Recount([x, y]) == 2 * HEADER + Counted(x) + Counted(y)
  {
    assert [x, y][1..] == [y];
    assert [y][1..] == [];
  }

  /** Replacing the middle of a list changes the recount by the difference of the middles. */
  lemma RecountSplice(s: seq<Seg>, i: int, j: int, y: seq<Seg>)
    requires 0 <= i <= j <= |s|
    ensures Recount(s[..i] + y + s[j..]) == Recount(s) - Recount(s[i..j]) + Recount(y)
  {
    hide Recount;
    assert s == s[..i] + s[i..j] + s[j..];
    RecountConcat(s[..i] + y, s[j..]);
    RecountConcat(s[..i], y);
    RecountConcat(s[..i] + s[i..j], s[j..]);
    RecountConcat(s[..i], s[i..j]);
  }

  lemma RecountMarked(s: seq<Seg>, i: int, used: bool)
    requires 0 <= i < |s|
    ensures Recount(Marked(s, i, used)) == Recount(s) - Counted(s[i]) + (if used then s[i].size else 0)
  {
    hide Recount;
    var y := s[i].(used := used);
    RecountSplice(s, i, i + 1, [y]);
    assert s[i..i + 1] == [s[i]];
    assert Marked(s, i, used) == s[..i] + [y] + s[i + 1..];
    RecountFew(s[i], y);
    RecountFew(y, y);
  }

  lemma RecountMerged(s: seq<Seg>, i: int)
    requires 0 <= i < |s| - 1 && !s[i].used && !s[i + 1].used
    ensures Recount(Merged(s, i)) == Recount(s) - HEADER
  {
    hide Recount;
    var y := Seg(s[i].addr, s[i].size + s[i + 1].size + HEADER, s[i].used);
    RecountSplice(s, i, i + 2, [y]);
    assert s[i..i + 2] == [s[i], s[i + 1]];
    RecountFew(s[i], s[i + 1]);
    RecountFew(y, y);
  }

  lemma RecountSplit(s: seq<Seg>, i: int, size: int)
    requires 0 <= i < |s| && !s[i].used
    ensures Recount(Split(s, i, size)) == Recount(s) + HEADER
  {
    hide Recount;
    var y := Seg(s[i].addr, size, s[i].used);
    var z := Seg(s[i].addr + HEADER + size, s[i].size - size - HEADER, s[i].used);
    RecountSplice(s, i, i + 1, [y, z]);
    assert s[i..i + 1] == [s[i]];
    RecountFew(s[i], s[i]);
    RecountFew(y, z);
  }

  lemma RecountAppended(s: seq<Seg>, size: int)
    requires |s| > 0
    ensures Recount(Appended(s, size)) == Recount(s) + HEADER
  {
    var x := Seg(s[|s| - 1].End(), size - HEADER, false);
    RecountConcat(s, [x]);
    RecountFew(x, x);
  }

  // ----- Live blocks

  lemma LiveMarked(s: seq<Seg>, top: int, i: int, used: bool)
    requires Tiles(s, top) && 0 <= i < |s|
    ensures Live(Marked(s, i, used)) == Live(s) - {s[i]} + (if used then {s[i].(used := true)} else {})
  {
    AllOrdered(s, top);
    var r := Marked(s, i, used);
    forall x ensures x in Live(r) <==> x in Live(s) - {s[i]} + (if used then {s[i].(used := true)} else {}) {
      if x in Live(r) { var k :| 0 <= k < |r| && r[k] == x; assert k != i ==> s[k] == x; }
      if x in Live(s) { var k :| 0 <= k < |s| && s[k] == x; assert k != i ==> r[k] == x; }
      assert r[i] in r;
    }
  }

  lemma LiveMerged(s: seq<Seg>, i: int)
    requires 0 <= i < |s| - 1 && !s[i].used && !s[i + 1].used
    ensures Live(Merged(s, i)) == Live(s)
  {}

  lemma LiveSplit(s: seq<Seg>, i: int, size: int)
    requires 0 <= i < |s| && !s[i].used
    ensures Live(Split(s, i, size)) == Live(s)
  {}

  lemma LiveAppended(s: seq<Seg>, size: int)
    requires |s| > 0
    ensures Live(Appended(s, size)) == Live(s)
  {
  }
}
