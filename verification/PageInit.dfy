/** `pmm_init`: turning the boot loader's memory map into the free list. */
module PageInit {
  import opened Machine
  import opened PageTags
  import opened PageAllocator
  import opened PageOwnership

  /** MAX_TAGS tags of sixteen bytes each. */
  const TAG_LIST_SIZE := MAX_TAGS * 16

  datatype Entry = Entry(base: nat, length: nat, usable: bool) {
    function Page(): nat { base / PAGE }
    function Count(): nat { length / PAGE }
    function End(): nat { base + length }
  }

  /** What the boot protocol gives: entries in order, none overlapping, usable ones
      made of whole pages. */
  ghost predicate WellFormed(m: seq<Entry>) {
    && (forall i, j :: 0 <= i < j < |m| ==> m[i].End() <= m[j].base)
    && (forall i :: 0 <= i < |m| && m[i].usable ==> m[i].base % PAGE == 0 && m[i].length % PAGE == 0)
  }

  ghost predicate UsablePage(m: seq<Entry>, p: int) {
    exists i :: 0 <= i < |m| && m[i].usable && Tag(m[i].Page(), m[i].Count()).Has(p)
  }

  ghost function UsablePages(m: seq<Entry>): iset<int> {
    iset p | UsablePage(m, p)
  }

  function EndBefore(m: seq<Entry>, i: nat): nat
    requires i <= |m|
  {
    if i == 0 then 0 else m[i - 1].End()
  }

  /** Nothing of a page or more that is marked for `e`, the gap before it or itself,
      starts right behind a usable page. */
  ghost predicate HarmlessEntry(e: Entry, endLast: nat, usable: iset<int>)
    requires endLast <= e.base
  {
    && ((e.base - endLast) / PAGE > 0 ==> endLast / PAGE - 1 !in usable)
    && (!e.usable && e.Count() > 0 ==> e.Page() - 1 !in usable)
  }

  ghost predicate Harmless(m: seq<Entry>, n: nat)
    requires WellFormed(m) && n <= |m|
  {
    forall i :: 0 <= i < n ==> HarmlessEntry(m[i], EndBefore(m, i), UsablePages(m[..i]))
  }

  /** Marking above every free page: no split, and a free page is lost exactly when the
      block is not empty and starts right behind one. */
  lemma MarkAbove(s: seq<Tag>, page: int, c: nat)
    requires NormalForm(s) && Disjoint(s) && forall p :: p in Pages(s) ==> p < page
    ensures !SplitNeeded(s, page, c)
    ensures c > 0 && page - 1 in Pages(s) ==> page - 1 in Taken(s, page, c)
    ensures !(c > 0 && page - 1 in Pages(s)) ==> Taken(s, page, c) == iset{}
  {
    var h := Hit(s, page);
    HitBehindTag(s, page);
    if h < |s| {
      assert s[h].Has(s[h].End() - 1) && s[h].End() - 1 in Pages(s);
      assert page == s[h].End();
    }
  }

  /** One marking step of the map loop keeps "free is exactly what is usable so far"
      if and only if it is harmless. */
  lemma MarkStep(s: seq<Tag>, usable: iset<int>, page: int, c: nat)
    requires NormalForm(s) && Disjoint(s) && Pages(s) <= usable && forall p :: p in usable ==> p < page
    ensures !SplitNeeded(s, page, c)
    ensures Pages(s) - Taken(s, page, c) == usable <==> Pages(s) == usable && !(c > 0 && page - 1 in usable)
  {
    MarkAbove(s, page, c);
    if Pages(s) - Taken(s, page, c) == usable {
      assert forall p :: p in usable ==> p in Pages(s);
    }
  }

  /** One turn of the map loop. */
  method MapEntry(pmm: Pmm, e: Entry, endLast: nat, ghost usable: iset<int>) returns (ok: bool)
    requires pmm.Valid() && endLast <= e.base && pmm.Free() <= usable
    requires forall p :: p in usable ==> p < endLast / PAGE
    modifies pmm, pmm.tags
    ensures pmm.count <= old(pmm.count) + 1 && (old(pmm.count) < MAX_TAGS ==> ok)
    ensures ok ==> pmm.Valid() && pmm.Free() <= usable + Added(e)
    ensures ok ==> (pmm.Free() == usable + Added(e) <==> old(pmm.Free()) == usable && HarmlessEntry(e, endLast, usable))
  {
    hide NormalForm, Disjoint, NonNegative, Covered;
    ok := true;
    if e.base != endLast {
      ok := MarkGap(pmm, endLast / PAGE, (e.base - endLast) / PAGE, usable);
    }
    if e.usable {
      AddStep(pmm.Free(), usable, e.Page(), e.Count());
      ok := pmm.FreePages(e.Page(), e.Count());
    } else {
      ok := MarkGap(pmm, e.Page(), e.Count(), usable);
    }
  }

  /** `mark_pages` on a block above every usable page so far. */
  method MarkGap(pmm: Pmm, page: int, c: nat, ghost usable: iset<int>) returns (ok: bool)
    requires pmm.Valid() && pmm.Free() <= usable && forall p :: p in usable ==> p < page
    modifies pmm, pmm.tags
    ensures ok && pmm.Valid() && pmm.Free() <= usable && pmm.count <= old(pmm.count)
    ensures pmm.Free() == usable <==> old(pmm.Free()) == usable && !(c > 0 && page - 1 in usable)
  {
    MarkStep(pmm.Live(), usable, page, c);
    ok := pmm.MarkPages(page, c);
  }

  ghost function Added(e: Entry): iset<int> {
    if e.usable then Block(e.Page(), e.Count()) else iset{}
  }

  lemma AddStep(free: iset<int>, usable: iset<int>, page: int, c: nat)
    requires free <= usable && forall p :: p in usable ==> p < page
    ensures Block(page, c) !! free
    ensures free + Block(page, c) == usable + Block(page, c) <==> free == usable
  {}

  lemma NoTags(s: seq<Tag>)
    requires s == []
    ensures Pages(s) == iset{}
  {}

  /** What the map loop relies on before its first turn, and in turn `n`. */
  lemma MapStart(m: seq<Entry>)
    requires WellFormed(m)
    ensures UsablePages(m[..0]) == iset{} && Harmless(m, 0) && EndBefore(m, 0) == 0 && m[..|m|] == m
  {
  }

  lemma UsableBelow(m: seq<Entry>, n: nat)
    requires WellFormed(m) && n <= |m|
    ensures forall p :: p in UsablePages(m[..n]) ==> p < EndBefore(m, n) / PAGE
  {
    forall p | p in UsablePages(m[..n]) ensures p < EndBefore(m, n) / PAGE {
      var i :| 0 <= i < n && m[..n][i].usable && Tag(m[i].Page(), m[i].Count()).Has(p);
      assert m[i].End() <= EndBefore(m, n);
      PageBelow(m[i], p, EndBefore(m, n));
    }
  }

  lemma PageBelow(e: Entry, p: int, end: nat)
    requires e.base % PAGE == 0 && e.length % PAGE == 0 && e.End() <= end && Tag(e.Page(), e.Count()).Has(p)
    ensures p < end / PAGE
  {}

  lemma UsableGrows(m: seq<Entry>, n: nat)
    requires n < |m|
    ensures UsablePages(m[..n + 1]) == UsablePages(m[..n]) + Added(m[n])
  {
    var r := m[..n + 1];
    assert r[n] == m[n] && forall i :: 0 <= i < n ==> m[..n][i] == r[i];
    forall p ensures UsablePage(r, p) <==> UsablePage(m[..n], p) || (m[n].usable && Tag(m[n].Page(), m[n].Count()).Has(p)) {
    }
  }

  lemma MapTurn(m: seq<Entry>, n: nat)
    requires WellFormed(m) && n < |m|
    ensures EndBefore(m, n) <= m[n].base && EndBefore(m, n + 1) == m[n].base + m[n].length
    ensures forall p :: p in UsablePages(m[..n]) ==> p < EndBefore(m, n) / PAGE
    ensures UsablePages(m[..n + 1]) == UsablePages(m[..n]) + Added(m[n])
    ensures Harmless(m, n + 1) <==> Harmless(m, n) && HarmlessEntry(m[n], EndBefore(m, n), UsablePages(m[..n]))
  {
    UsableBelow(m, n);
    UsableGrows(m, n);
    hide UsablePages;
  }

  /** The loop of `pmm_init` over an adjusted map. */
  method BuildFreeList(pmm: Pmm, m: seq<Entry>) returns (ok: bool)
    requires WellFormed(m) && pmm.Valid() && pmm.count == 0
    modifies pmm, pmm.tags
    ensures |m| <= MAX_TAGS ==> ok
    ensures ok ==> pmm.Valid() && pmm.Free() <= UsablePages(m)
    ensures ok ==> (pmm.Free() == UsablePages(m) <==> Harmless(m, |m|))
  {
    hide NormalForm, Disjoint, NonNegative, Pages, UsablePages, HarmlessEntry, Harmless, WellFormed, EndBefore;
    NoTags(pmm.Live());
    MapStart(m);
    var endLast := 0;
    ghost var usable, harmless := UsablePages(m[..0]), true;
    for i := 0 to |m|
      invariant pmm.Valid() && endLast == EndBefore(m, i) && pmm.count <= i
      invariant usable == UsablePages(m[..i]) && harmless == Harmless(m, i)
      invariant pmm.Free() <= usable && (pmm.Free() == usable <==> harmless)
    {
      MapTurn(m, i);
      ok := MapEntry(pmm, m[i], endLast, usable);
      if !ok { return; }
      harmless := harmless && HarmlessEntry(m[i], endLast, usable);
      usable := usable + Added(m[i]);
      endLast := m[i].base + m[i].length;
    }
    ok := true;
  }

  /** Entry `f` after the tag array has been cut off its end. */
  function Shrunk(e: Entry): Entry
    requires e.length >= TAG_LIST_SIZE
  {
    Entry(e.base, (e.length - TAG_LIST_SIZE) / PAGE * PAGE, e.usable)
  }

  ghost predicate IsFit(m: seq<Entry>, f: nat) {
    && f < |m| && m[f].usable && m[f].length >= TAG_LIST_SIZE
    && forall i :: 0 <= i < f ==> !(m[i].usable && m[i].length >= TAG_LIST_SIZE)
  }

  /** Cutting the tag array off removes just its page from the usable ones. */
  lemma ShrinkTakesTagPage(m: seq<Entry>, f: nat)
    requires WellFormed(m) && IsFit(m, f)
    ensures var r := m[f := Shrunk(m[f])];
            WellFormed(r) && UsablePages(r) == UsablePages(m) - Block(r[f].End() / PAGE, 1)
  {
    var e, r := m[f], m[f := Shrunk(m[f])];
    assert e.length % PAGE == 0 && e.base % PAGE == 0 && r[f].length == e.length - PAGE;
    assert r[f].Count() == e.Count() - 1 && r[f].End() / PAGE == e.Page() + e.Count() - 1;
    forall p ensures UsablePage(r, p) <==> UsablePage(m, p) && p != r[f].End() / PAGE {
      if i :| 0 <= i < |m| && m[i].usable && Tag(m[i].Page(), m[i].Count()).Has(p) {
        assert i != f ==> r[i] == m[i];
        if i != f { PagesApart(m, i, f, p); }
      }
      if i :| 0 <= i < |r| && r[i].usable && Tag(r[i].Page(), r[i].Count()).Has(p) {
        assert i != f ==> r[i] == m[i];
        if i != f { PagesApart(m, i, f, p); }
      }
    }
  }

  lemma PagesApart(m: seq<Entry>, i: nat, j: nat, p: int)
    requires WellFormed(m) && i < |m| && j < |m| && i != j && m[i].usable && m[j].usable
    requires Tag(m[i].Page(), m[i].Count()).Has(p)
    ensures !Tag(m[j].Page(), m[j].Count()).Has(p)
  {}

  /** The page of the tag array is itself a gap right behind the entry it was cut from:
      unless that entry is the last or has no page left, building the list loses pages. */
  lemma TagPageCostsMore(m: seq<Entry>, f: nat)
    requires WellFormed(m) && IsFit(m, f) && f + 1 < |m| && m[f].length > TAG_LIST_SIZE
    ensures var r := m[f := Shrunk(m[f])]; WellFormed(r) && !Harmless(r, |r|)
  {
    ShrinkTakesTagPage(m, f);
    var r := m[f := Shrunk(m[f])];
    assert m[f].End() <= m[f + 1].base && m[f].length % PAGE == 0 && m[f].base % PAGE == 0;
    var page := r[f].End() / PAGE - 1;
    assert r[..f + 1][f] == r[f] && Tag(r[f].Page(), r[f].Count()).Has(page);
    assert page in UsablePages(r[..f + 1]);
    assert !HarmlessEntry(r[f + 1], EndBefore(r, f + 1), UsablePages(r[..f + 1]));
  }

  /** `pmm_init`: choose the first usable entry that holds the tag array, cut the array
      off its end, build the list.  Only usable pages outside the tag array become free;
      all of them do exactly when every marking step is harmless. */
  method PmmInit(pmm: Pmm, m: array<Entry>) returns (ok: bool, tagBase: nat)
    requires WellFormed(m[..]) && pmm.Valid() && pmm.count == 0
    modifies m, pmm, pmm.tags
    ensures m.Length <= MAX_TAGS && (exists f: nat :: IsFit(old(m[..]), f)) ==> ok
    ensures ok ==> exists f: nat :: IsFit(old(m[..]), f) && m[..] == old(m[..])[f := Shrunk(old(m[f]))] && tagBase == m[f].End()
    ensures ok ==> WellFormed(m[..]) && pmm.Valid()
    ensures ok ==> pmm.Free() <= UsablePages(old(m[..])) - Block(tagBase / PAGE, 1)
    ensures ok ==> (pmm.Free() == UsablePages(old(m[..])) - Block(tagBase / PAGE, 1) <==> Harmless(m[..], m.Length))
  {
    ghost var m0 := m[..];
    tagBase := 0;
    var f := 0;
    while f < m.Length && !(m[f].usable && m[f].length >= TAG_LIST_SIZE)
      invariant 0 <= f <= m.Length && forall i :: 0 <= i < f ==> !(m[i].usable && m[i].length >= TAG_LIST_SIZE)
    {
      f := f + 1;
    }
    if f == m.Length {
      return false, 0;
    }
    assert IsFit(m0, f);
    ShrinkTakesTagPage(m0, f);
    m[f] := Shrunk(m[f]);
    assert m[..] == m0[f := Shrunk(m0[f])];
    tagBase := m[f].base + m[f].length;
    ok := BuildFreeList(pmm, m[..]);
  }
}
