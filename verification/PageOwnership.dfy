/** What `mark_pages` and a whole run of requests and releases do to the free set. */
module PageOwnership {
  import opened PageTags
  import opened PageAllocator

  /** In normal form the scan stops at the end of a tag exactly when the page is taken
      and the page before it is free. */
  lemma HitBehindTag(s: seq<Tag>, page: int)
    requires NormalForm(s) && Disjoint(s)
    ensures var h := Hit(s, page);
            (h < |s| && page == s[h].End()) <==> (page !in Pages(s) && page - 1 in Pages(s))
    ensures page in Pages(s) ==> Hit(s, page) < |s| && s[Hit(s, page)].Has(page)
  {}

  /** What marking `c` pages from `page` on takes away, for each way `page` can meet tag `k`:
      from a tag's first page on, as many pages as the tag has; right behind a tag, pages from
      its end backwards; from inside a tag, all up to its end.  Away from all tags, nothing. */
  lemma MarkOutcome(s: seq<Tag>, k: int, page: int, c: nat)
    requires NormalForm(s) && Disjoint(s) && !SplitNeeded(s, page, c) && 0 <= k < |s|
    ensures var n := if c < s[k].length then c else s[k].length;
            && (page == s[k].start ==> Taken(s, page, c) == Block(page, n))
            && (page == s[k].End() && page !in Pages(s) ==> Taken(s, page, c) == Block(page - n, n))
    ensures s[k].start < page < s[k].End() ==> Taken(s, page, c) == Block(page, s[k].End() - page) && s[k].End() < page + c
    ensures page !in Pages(s) && page - 1 !in Pages(s) ==> Taken(s, page, c) == iset{}
  {
    hide Pages, NormalForm, Disjoint;
    MeetsOneTag(s, k, page);
  }

  lemma MeetsOneTag(s: seq<Tag>, k: int, page: int)
    requires NormalForm(s) && Disjoint(s) && 0 <= k < |s|
    ensures s[k].length > 0 && (s[k].start <= page < s[k].End() || (page == s[k].End() && page !in Pages(s)) ==> Hit(s, page) == k)
    ensures page !in Pages(s) && page - 1 !in Pages(s) ==> Hit(s, page) == |s|
  {
    HitBehindTag(s, page);
    var h := Hit(s, page);
    if s[k].start <= page < s[k].End() {
      assert s[k].Has(page) && s[h].Has(page);
    } else if page == s[k].End() && page !in Pages(s) {
      assert s[k].Has(page - 1) && s[h].End() == page;
    }
    if h < |s| { assert page < s[h].End() ==> s[h].Has(page); }
  }

  /** No free page of the marked block lies outside the tag the scan stops at. */
  ghost predicate InsideHit(s: seq<Tag>, page: int, c: nat) {
    forall p :: p in Block(page, c) * Pages(s) ==> Hit(s, page) < |s| && s[Hit(s, page)].Has(p)
  }

  /** `mark_pages` promises to take `c` pages from `page` on.  It does so exactly when
      the block does not begin right behind a free one and reaches no second tag. */
  lemma MarkIsExactIff(s: seq<Tag>, page: int, c: nat)
    requires NormalForm(s) && Disjoint(s) && !SplitNeeded(s, page, c)
    ensures Pages(s) - Taken(s, page, c) == Pages(s) - Block(page, c)
            <==> c == 0 || (!(page !in Pages(s) && page - 1 in Pages(s)) && InsideHit(s, page, c))
  {
    HitBehindTag(s, page);
    var h := Hit(s, page);
    var taken, wanted := Pages(s) - Taken(s, page, c), Pages(s) - Block(page, c);
    if c > 0 && h < |s| && page == s[h].End() {
      assert page - 1 in wanted && page - 1 !in taken;
    } else if c > 0 && !InsideHit(s, page, c) {
      var p :| p in Block(page, c) * Pages(s) && !(h < |s| && s[h].Has(p));
      assert p in taken && p !in wanted;
    } else {
      forall p | p in Pages(s) ensures p in Taken(s, page, c) <==> p in Block(page, c) {
        assert c > 0 && p in Block(page, c) ==> p in Block(page, c) * Pages(s);
      }
      assert taken == wanted;
    }
  }

  /** A block marked right behind a free one is left alone; free pages before it go. */
  lemma MarkTakesWrongPages()
    ensures var s := [Tag(0, 10)];
            NormalForm(s) && Disjoint(s) && !SplitNeeded(s, 10, 3) && Pages(s) - Taken(s, 10, 3) == Block(0, 7)
  {}

  datatype Op = GetPage | GetPages(count: nat) | Release(k: nat)

  lemma WithoutReleases(s: seq<Tag>, k: int)
    requires Disjoint(s) && 0 <= k < |s|
    ensures Disjoint(Without(s, k)) && Pages(Without(s, k)) == Pages(s) - Block(s[k].start, s[k].length)
  {
    var r := Without(s, k);
    forall i | 0 <= i < |r| ensures r[i] == s[if i < k then i else i + 1] {}
    forall p ensures p in Pages(r) <==> p in Pages(s) && !s[k].Has(p) {
      if i :| 0 <= i < |s| && i != k && s[i].Has(p) {
        assert r[if i < k then i else i - 1].Has(p);
        assert Apart(s[if i < k then i else k], s[if i < k then k else i]);
      }
      if i :| 0 <= i < |r| && r[i].Has(p) {
        var j := if i < k then i else i + 1;
        assert s[j].Has(p) && Apart(s[if j < k then j else k], s[if j < k then k else j]);
      }
    }
  }

  /** What a client holds, and the allocator's tags. */
  datatype Moment = Moment(held: seq<Tag>, tags: seq<Tag>)

  /** Every page is free or in exactly one held block. */
  ghost predicate Owned(m: Moment) {
    Disjoint(m.held) && NonNegative(m.held) && Pages(m.held) !! Pages(m.tags)
  }

  /** Where the kernel stops instead of serving `op`: no page left, no block long
      enough, or no room for another tag. */
  ghost predicate Stops(op: Op, m: Moment) {
    match op
    case GetPage => m.tags == []
    case GetPages(c) => forall t :: t in m.tags ==> t.length < c
    case Release(k) => k < |m.held| && |m.tags| >= 256
  }

  /** What a request or a release does: a page is the first of the first tag, a block begins
      the first tag that is long enough, and exactly what is granted or released changes hands. */
  ghost predicate Serves(op: Op, m: Moment, n: Moment) {
    match op
    case GetPage => m.tags != [] && Granted(m, m.tags[0].start, 1, n)
    case GetPages(c) => exists page :: FirstFit(m.tags, c, page) && Granted(m, page, c, n)
    case Release(k) => if k < |m.held| then Released(m, k, n) else n == m
  }

  ghost predicate Granted(m: Moment, page: int, c: nat, n: Moment) {
    n.held == m.held + [Tag(page, c)] && Block(page, c) <= Pages(m.tags) && Pages(n.tags) == Pages(m.tags) - Block(page, c)
  }

  ghost predicate Released(m: Moment, k: nat, n: Moment)
    requires k < |m.held|
  {
    && n.held == m.held[..k] + m.held[k + 1..]
    && Pages(n.tags) == Pages(m.tags) + Block(m.held[k].start, m.held[k].length)
  }

  /** Any client that releases only blocks it holds: every page is free or in exactly one
      held block, and none appears or disappears, however long the run.  `trace` is the run:
      each operation in turn is served.  The run ends early, after `done` operations, only
      where the kernel stops. */
  method Run(pmm: Pmm, held0: seq<Tag>, script: seq<Op>) returns (done: nat, held: seq<Tag>, ghost trace: seq<Moment>)
    requires pmm.Valid() && Owned(Moment(held0, pmm.Live()))
    modifies pmm, pmm.tags
    ensures pmm.Valid() && Owned(Moment(held, pmm.Live()))
    ensures Pages(held) + pmm.Free() == Pages(held0) + old(pmm.Free())
    ensures done <= |script| && (done < |script| ==> Stops(script[done], Moment(held, pmm.Live())))
    ensures |trace| == done + 1 && trace[0] == Moment(held0, old(pmm.Live())) && trace[done] == Moment(held, pmm.Live())
    ensures forall i :: 0 <= i < done ==> Serves(script[i], trace[i], trace[i + 1])
  {
    hide Owned, Serves, Pages;
    held := held0;
    done := 0;
    trace := [Moment(held0, pmm.Live())];
    while done < |script|
      invariant pmm.Valid() && Owned(Moment(held, pmm.Live()))
      invariant Pages(held) + pmm.Free() == Pages(held0) + old(pmm.Free())
      invariant done <= |script|
      invariant |trace| == done + 1 && trace[0] == Moment(held0, old(pmm.Live())) && trace[done] == Moment(held, pmm.Live())
      invariant forall i :: 0 <= i < done ==> Serves(script[i], trace[i], trace[i + 1])
    {
      var ok: bool;
      ok, held := Serve(pmm, held, script[done]);
      if !ok { return; }
      done := done + 1;
      trace := trace + [Moment(held, pmm.Live())];
    }
  }

  /** One operation of the client. */
  method Serve(pmm: Pmm, held: seq<Tag>, op: Op) returns (ok: bool, now: seq<Tag>)
    requires pmm.Valid() && Owned(Moment(held, pmm.Live()))
    modifies pmm, pmm.tags
    ensures pmm.Valid() && Owned(Moment(now, pmm.Live()))
    ensures Pages(now) + pmm.Free() == Pages(held) + old(pmm.Free())
    ensures ok ==> Serves(op, Moment(held, old(pmm.Live())), Moment(now, pmm.Live()))
    ensures !ok ==> now == held && pmm.Live() == old(pmm.Live()) && Stops(op, Moment(held, pmm.Live()))
  {
    ok, now := true, held;
    match op {
      case GetPage =>
        var page: int;
        ok, page := pmm.RequestPage();
        if ok { now := Grant(pmm, held, page, 1, old(pmm.Free())); }
      case GetPages(c) =>
        var page: int;
        ok, page := pmm.RequestPages(c);
        if ok { now := Grant(pmm, held, page, c, old(pmm.Free())); }
      case Release(k) =>
        if k < |held| {
          WithoutReleases(held, k);
          assert Block(held[k].start, held[k].length) <= Pages(held) by {
            assert forall p :: p in Block(held[k].start, held[k].length) ==> held[k].Has(p);
          }
          ok := pmm.FreePages(held[k].start, held[k].length);
          if ok { now := Without(held, k); }
        }
    }
  }

  /** Record a block just taken out of the free set `before`. */
  method Grant(pmm: Pmm, held: seq<Tag>, page: int, c: nat, ghost before: iset<int>) returns (now: seq<Tag>)
    requires pmm.Valid() && Disjoint(held) && NonNegative(held) && Pages(held) !! before
    requires Block(page, c) <= before && pmm.Free() == before - Block(page, c)
    ensures Disjoint(now) && NonNegative(now) && Pages(now) !! pmm.Free() && now == held + [Tag(page, c)]
    ensures Pages(now) + pmm.Free() == Pages(held) + before
  {
    AppendAdds(held, Tag(page, c));
    now := held + [Tag(page, c)];
  }
}
