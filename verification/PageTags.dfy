/** The free list of the physical page allocator, seen as a value: a sequence of
    tags, each naming a run of free pages, together with the set of pages it stands
    for.  Page numbers are physical addresses shifted right by twelve. */
module PageTags {

  /** One entry of the tag array. */
  datatype Tag = Tag(start: int, length: int) {
    function End(): int { start + length }

    ghost predicate Has(p: int) { start <= p < End() }
  }

  /** The pages of a block of `count` pages that starts at page `start`. */
  ghost function Block(start: int, count: int): iset<int> {
    iset p | Tag(start, count).Has(p)
  }

  ghost predicate Covered(s: seq<Tag>, p: int) {
    exists i :: 0 <= i < |s| && s[i].Has(p)
  }

  /** The set of free pages a tag list stands for. */
  ghost function Pages(s: seq<Tag>): iset<int> {
    iset p | Covered(s, p)
  }

  ghost predicate NonNegative(s: seq<Tag>) {
    forall i :: 0 <= i < |s| ==> s[i].length >= 0
  }

  ghost predicate NoEmpty(s: seq<Tag>) {
    forall i :: 0 <= i < |s| ==> s[i].length > 0
  }

  /** No page belongs to both tags. */
  ghost predicate Apart(t: Tag, u: Tag) {
    t.length <= 0 || u.length <= 0 || t.End() <= u.start || u.End() <= t.start
  }

  ghost predicate Disjoint(s: seq<Tag>) {
    forall i, j :: 0 <= i < j < |s| ==> Apart(s[i], s[j])
  }

  /** `u` starts inside `t` or right behind it: the pairs a pass merges. */
  predicate Touches(t: Tag, u: Tag) {
    t.start <= u.start <= t.End()
  }

  /** What a pass without changes establishes.  It is one-sided: a later tag may
      still end where an earlier one begins. */
  ghost predicate NormalForm(s: seq<Tag>) {
    && NoEmpty(s)
    && forall i, j :: 0 <= i < j < |s| ==> !Touches(s[i], s[j])
  }

  /** No later tag touches one of the first `n`. */
  ghost predicate NormalUpTo(s: seq<Tag>, n: int) {
    forall i, j :: 0 <= i < n && i < j < |s| ==> !Touches(s[i], s[j])
  }

  function Without(s: seq<Tag>, k: int): (r: seq<Tag>)
    requires 0 <= k < |s|
  {
    s[..k] + s[k + 1..]
  }

  /** The tag that absorbs `u` into `t`. */
  function Union(t: Tag, u: Tag): Tag {
    Tag(t.start, (if t.End() < u.End() then u.End() else t.End()) - t.start)
  }

  lemma WithoutEmptyKeepsPages(s: seq<Tag>, k: int)
    requires 0 <= k < |s| && s[k].length == 0
    ensures Pages(Without(s, k)) == Pages(s)
    ensures Disjoint(s) ==> Disjoint(Without(s, k))
    ensures NonNegative(s) ==> NonNegative(Without(s, k))
  {
    var r := Without(s, k);
    forall p ensures p in Pages(r) <==> p in Pages(s) {
      if i :| 0 <= i < |s| && s[i].Has(p) {
        assert r[if i < k then i else i - 1] == s[i];
      }
      if i :| 0 <= i < |r| && r[i].Has(p) {
        assert r[i] == s[if i < k then i else i + 1];
      }
    }
  }

  /** `s` is what is left of `s0` after deleting empty tags and merging touching ones:
      the same pages, still disjoint if they were, and untouched if nothing was due. */
  ghost predicate Compacts(s0: seq<Tag>, s: seq<Tag>) {
    && NonNegative(s)
    && Pages(s) == Pages(s0)
    && (Disjoint(s0) ==> Disjoint(s))
    && |s| <= |s0|
    && (|s| == |s0| ==> s == s0)
    && (|s| < |s0| ==> !NormalForm(s0))
  }

  lemma CompactsTransitive(s0: seq<Tag>, s1: seq<Tag>, s2: seq<Tag>)
    requires Compacts(s0, s1) && Compacts(s1, s2)
    ensures Compacts(s0, s2)
  {
  }

  lemma DeleteCompacts(s0: seq<Tag>, s: seq<Tag>, k: int)
    requires Compacts(s0, s) && 0 <= k < |s| && s[k].length == 0
    ensures Compacts(s0, Without(s, k))
  {
    WithoutEmptyKeepsPages(s, k);
  }

  lemma MergeCompacts(s0: seq<Tag>, s: seq<Tag>, i: int, j: int)
    requires Compacts(s0, s) && NoEmpty(s) && 0 <= i < j < |s| && Touches(s[i], s[j])
    ensures var r := Without(s, j)[i := Union(s[i], s[j])]; Compacts(s0, r) && NoEmpty(r)
  {
    MergeKeepsPages(s, i, j);
  }

  /** Merging a touching pair keeps the set of pages, and keeps tags disjoint. */
  lemma MergeKeepsPages(s: seq<Tag>, i: int, j: int)
    requires 0 <= i < j < |s| && Touches(s[i], s[j]) && NonNegative(s)
    ensures var r := Without(s, j)[i := Union(s[i], s[j])];
            Pages(r) == Pages(s) && NonNegative(r) && (NoEmpty(s) ==> NoEmpty(r))
            && (NoEmpty(s) && Disjoint(s) ==> Disjoint(r))
  {
    var r := Without(s, j)[i := Union(s[i], s[j])];
    forall k | 0 <= k < |r| && k != i ensures r[k] == s[if k < j then k else k + 1] {}
    forall p ensures p in Pages(r) <==> p in Pages(s) {
      if k :| 0 <= k < |s| && s[k].Has(p) {
        assert r[if k == j then i else if k < j then k else k - 1].Has(p);
      }
      if k :| 0 <= k < |r| && r[k].Has(p) {
        assert if k == i then s[i].Has(p) || s[j].Has(p) else s[if k < j then k else k + 1].Has(p);
      }
    }
  }
}
