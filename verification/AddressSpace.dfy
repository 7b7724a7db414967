/** `vmm.c`: editing page tables through the self-referencing slot. */
module AddressSpaces {
  import opened Machine
  import opened Addressing
  import opened PageTables
  import opened PageTags
  import opened PageAllocator

  const TABLE_FLAGS := PRESENT + WRITEABLE

  /** A change that only added tables, taken out of the free pages, and left all memory
      outside the tables alone. */
  ghost predicate OnlyAddedTables(m0: Memory, role0: map<int, Node>, free0: iset<int>,
                                  m: Memory, role: map<int, Node>, free: iset<int>)
  {
    && role0.Keys <= role.Keys
    && (forall f :: f in role && f !in role0 ==> f in free0)
    && (forall p :: p in free <==> p in free0 && p !in role)
    && (forall w: Word :: w.frame !in role ==> m(w) == m0(w))
  }

  /** Such a change that also kept every translation. */
  ghost predicate Extends(m0: Memory, role0: map<int, Node>, free0: iset<int>,
                          m: Memory, role: map<int, Node>, free: iset<int>, root: int)
  {
    OnlyAddedTables(m0, role0, free0, m, role, free) && SameTranslations(m0, m, root) && NoNewLarge(m0, m, root)
  }

  lemma ExtendsTransitive(m0: Memory, role0: map<int, Node>, free0: iset<int>,
                          m1: Memory, role1: map<int, Node>, free1: iset<int>,
                          m2: Memory, role2: map<int, Node>, free2: iset<int>, root: int)
    requires Extends(m0, role0, free0, m1, role1, free1, root)
    requires Extends(m1, role1, free1, m2, role2, free2, root)
    ensures Extends(m0, role0, free0, m2, role2, free2, root)
  {
    hide Index4, Translate, LargeOnPath;
  }

  ghost predicate ClearTable(m: Memory, f: int) {
    forall k: Index :: m(Word(f, k)) == 0
  }

  class AddressSpace {
    const root: int                 // the frame in CR3
    const pmm: Pmm
    var mem: Memory                 // physical memory
    ghost var role: map<int, Node>  // the frames in use as tables, and where they hang

    /** The tables are a tree, and no table frame is free. */
    ghost predicate Valid()
      reads this, pmm, pmm.tags
    {
      && pmm.Valid()
      && Tree(mem, root, role)
      && forall p :: p in pmm.Free() ==> 0 <= p < FRAMES && p !in role
    }

    /** `vmm_init`: the boot loader's tables get the self-referencing slot, and their root
        is marked as taken. */
    constructor (pmm: Pmm, root: int, mem: Memory, ghost role: map<int, Node>)
      requires pmm.Valid() && Linked(mem, root, role)
      requires forall p :: p in pmm.Free() ==> 0 <= p < FRAMES && p !in role
      modifies pmm, pmm.tags
      ensures Valid() && this.pmm == pmm && this.root == root && this.role == role
      ensures SameTranslations(mem, this.mem, root)
      ensures pmm.Free() == old(pmm.Free()) - Block(root - 1, 1)  // the page in front is lost
    {
      this.pmm := pmm;
      this.root := root;
      this.mem := Store(mem, Word(root, FRACTAL_INDEX), MakeEntry(root, TABLE_FLAGS));
      this.role := role;
      new;
      TableEntry(root);
      SetSelfSlot(mem, root, role, MakeEntry(root, TABLE_FLAGS));
      MarkBehindFree(pmm.Live(), root);
      var ok := pmm.MarkPages(root, 1);
    }

    /** A load through the page tables; there is no page fault. */
    method Load(va: int) returns (e: int)
      requires Walk(mem, root, va).Some?
      ensures e == mem(Word(Walk(mem, root, va).value.frame, WordIndex(va)))
    {
      e := mem(Word(Walk(mem, root, va).value.frame, WordIndex(va)));
    }

    /** A store through the page tables: the page must be writeable. */
    method StoreWord(va: int, e: int)
      requires Walk(mem, root, va).Some? && Walk(mem, root, va).value.writeable
      modifies this`mem
      ensures mem == Store(old(mem), Word(Walk(old(mem), root, va).value.frame, WordIndex(va)), e)
    {
      mem := Store(mem, Word(Walk(mem, root, va).value.frame, WordIndex(va)), e);
    }

    /** `kmemset(HHDM(page), 0, 0x1000)`: the direct map reaches every frame. */
    method ClearFrame(page: int)
      modifies this`mem
      ensures mem == Cleared(old(mem), page)
    {
      mem := Cleared(mem, page);
    }

    /** Hang a cleared fresh table below entry `i`, which is not present. */
    method HangTable(table: int, i: Index, ghost n: Node) returns (ok: bool)
      requires Valid() && !n.L1? && Child(n, i).Proper() && Reach(mem, root, n).Some? && table == FractalAddress(n)
      requires !Present(mem(Word(Reach(mem, root, n).value, i)))
      modifies this, pmm, pmm.tags
      ensures ok ==> Valid() && Reach(mem, root, Child(n, i)).Some?
      ensures ok ==> Extends(old(mem), old(role), old(pmm.Free()), mem, role, pmm.Free(), root)
      ensures ok ==> ClearTable(mem, Reach(mem, root, Child(n, i)).value)
      ensures ok ==> mem(Word(Reach(old(mem), root, n).value, i)) == Reach(mem, root, Child(n, i)).value * 0x1000 + 3
      ensures (ok <==> old(pmm.count) > 0) && (!ok ==> pmm.count == 0)
    {
      hide Walk, Translate, Present, Large, Frame, Address, MakeEntry, FractalAddress, Tree, SelfSlot, Extends, ClearTable,
        Reach, NormalForm, Disjoint, Pages;
      ghost var m0, role0, free0 := mem, role, pmm.Free();
      var page: int;
      ok, page := pmm.RequestPage();
      if !ok { return; }
      var e := MakeEntry(page, TABLE_FLAGS);
      TableEntry(page);
      HungFacts(m0, root, role0, free0, n, i, page, pmm.Free());
      TreePath(m0, root, role0, n);
      RecursiveSlot(mem, root, n, i);
      StoreWord(EntryAddress(table, i), e);
      RecursiveSlot(mem, root, n, i);
      var e1 := Load(EntryAddress(table, i));
      ClearFrame(Address(e1));
      role := role[page := Child(n, i)];
    }

    /** One of the three equal stanzas of `vmm_map`: entry `i` of the table at the virtual
        address `table` must lead to a table.  `ok` is false where the kernel panics. */
    method EnsureTable(table: int, i: Index, ghost n: Node) returns (ok: bool)
      requires Valid() && !n.L1? && Child(n, i).Proper() && Reach(mem, root, n).Some? && table == FractalAddress(n)
      modifies this, pmm, pmm.tags
      ensures ok ==> Valid() && Reach(mem, root, Child(n, i)).Some?
      ensures ok ==> Extends(old(mem), old(role), old(pmm.Free()), mem, role, pmm.Free(), root)
      ensures var e := old(mem)(Word(Reach(old(mem), root, n).value, i));
              && (Large(e) ==> !ok) && (!ok ==> Large(e) || pmm.count == 0)
              && (Present(e) ==> mem == old(mem))
              && (ok && !Present(e) ==> ClearTable(mem, Reach(mem, root, Child(n, i)).value))
    {
      hide Walk, Translate, Present, Large, Frame, FractalAddress, Linked;
      RecursiveSlot(mem, root, n, i);
      var e := Load(EntryAddress(table, i));
      if !Present(e) {
        ok := HangTable(table, i, n);
        if !ok { return; }
      }
      ok := !Large(e);
    }

    /** `vmm_map`: make page `v` translate to page `p`.  Exactly one translation outside
        the self-referencing slot changes. */
    method Map(v: int, p: int, flags: int) returns (ok: bool)
      requires Valid() && Index4(v) != FRACTAL_INDEX && 0 <= p < FRAMES && 0 <= flags < PAGE
      modifies this, pmm, pmm.tags
      ensures LargeOnPath(old(mem), root, v) ==> !ok
      ensures !ok ==> LargeOnPath(old(mem), root, v) || pmm.count == 0
      ensures ok ==> Valid()
      ensures ok ==> OnlyAddedTables(old(mem), old(role), old(pmm.Free()), mem, role, pmm.Free())
      ensures ok ==> Translate(mem, root, v) == Some(Access(p, Writeable(flags))) && Mapping(mem, root, v) == Some(p)
      ensures ok ==> NoNewLarge(old(mem), mem, root)
      ensures ok ==> LeafEntry(mem, root, v) == Some(p * 0x1000 + flags / 2 * 2 + 1) && p * 0x1000 + 0xfff < PAGE * FRAMES
      ensures ok ==> forall w :: Index4(w) != FRACTAL_INDEX && !SamePage(v, w) ==>
        Translate(mem, root, w) == Translate(old(mem), root, w)
    {
      hide Index1, Index2, Index3, Index4, Tree, Reach, Translate, LargeOnPath, NormalForm, Disjoint, LeafEntry, NoNewLarge;
      ok := EnsurePath(v);
      if !ok { return; }
      ghost var m1 := mem;
      SetEntry(v, MakeEntry(p, flags));
      EntryFields(p, flags);
      NoNewLargeTransitive(old(mem), m1, mem, root);
    }

    /** The first part of `vmm_map`: tables all the way down to page `v`. */
    method EnsurePath(v: int) returns (ok: bool)
      requires Valid() && Index4(v) != FRACTAL_INDEX
      modifies this, pmm, pmm.tags
      ensures ok ==> Valid() && Reach(mem, root, LeafTable(v)).Some?
      ensures ok ==> Extends(old(mem), old(role), old(pmm.Free()), mem, role, pmm.Free(), root)
      ensures LargeOnPath(old(mem), root, v) ==> !ok
      ensures !ok ==> LargeOnPath(old(mem), root, v) || pmm.count == 0
    {
      hide Walk, Translate, Index1, Index2, Index3, Index4, Frame, Tree, Extends, NormalForm, Disjoint;
      var i4, i3, i2 := Index4(v), Index3(v), Index2(v);
      ghost var m0, r0, f0 := mem, role, pmm.Free();
      ok := EnsureTable(FractalPml4(), i4, Root);
      if !ok { return; }
      ghost var m1, r1, f1 := mem, role, pmm.Free();
      ok := EnsureTable(FractalPdp(i4), i3, L3(i4));
      if !ok { return; }
      ghost var m2, r2, f2 := mem, role, pmm.Free();
      ExtendsTransitive(m0, r0, f0, m1, r1, f1, m2, r2, f2, root);
      ok := EnsureTable(FractalPd(i4, i3), i2, L2(i4, i3));
      if !ok { return; }
      ExtendsTransitive(m0, r0, f0, m2, r2, f2, mem, role, pmm.Free(), root);
    }

    /** The last store of `vmm_map`. */
    method SetEntry(v: int, e: int)
      requires Valid() && Index4(v) != FRACTAL_INDEX && Reach(mem, root, LeafTable(v)).Some? && Present(e)
      modifies this`mem
      ensures LeafEntry(mem, root, v) == Some(e) && NoNewLarge(old(mem), mem, root)
      ensures Valid() && Translate(mem, root, v) == Some(Access(Frame(e), Writeable(e)))
      ensures forall w: Word :: w.frame !in role ==> mem(w) == old(mem)(w)
      ensures forall w :: Index4(w) != FRACTAL_INDEX && !SamePage(v, w) ==>
        Translate(mem, root, w) == Translate(old(mem), root, w)
    {
      hide Walk, Present, Large, Frame, Index1, Index2, Index3, Index4, Translate, LeafEntry, NoNewLarge;
      RecursiveSlot(mem, root, LeafTable(v), Index1(v));
      SetLeaf(mem, root, role, v, e);
      ReachIsRole(mem, root, role, LeafTable(v));
      StoreWord(EntryAddress(FractalPt(Index4(v), Index3(v), Index2(v)), Index1(v)), e);
    }

    /** `vmm_new`: a second root that shares the upper half.  `ok` is false when no page is left. */
    method NewSpace() returns (ok: bool, page: int)
      requires Valid()
      modifies this`mem, pmm, pmm.tags
      ensures (ok <==> old(pmm.count) > 0) && (ok ==> page in old(pmm.Free()) && page !in role && SelfSlot(mem, page))
      ensures ok ==> Valid() && pmm.Free() == old(pmm.Free()) - Block(page, 1)
      ensures ok ==> SameTranslations(old(mem), mem, root) && forall w: Word :: w.frame != page ==> mem(w) == old(mem)(w)
      ensures ok ==> forall v :: Index4(v) < 256 ==> Translate(mem, page, v) == None
      ensures ok ==> forall v :: Index4(v) >= 256 && Index4(v) != FRACTAL_INDEX ==>
        Translate(mem, page, v) == Translate(old(mem), root, v)
    {
      hide Index4, Index3, Index2, Index1, Translate, Linked, NormalForm, Disjoint, Present, Large, Frame, MakeEntry;
      ok, page := pmm.RequestPage();
      if !ok { return; }
      TableEntry(page);
      NewRootShares(mem, root, role, page, MakeEntry(page, TABLE_FLAGS));
      mem := Copied(mem, page, root);
      mem := LowerCleared(mem, page);
      mem := Store(mem, Word(page, FRACTAL_INDEX), MakeEntry(page, TABLE_FLAGS));
    }

    /** `vmm_mapping`. */
    method FindMapping(v: int) returns (ok: bool, p: Option<int>)
      requires Valid()
      ensures ok <==> !LargePage(mem, root, v)
      ensures ok ==> p == Mapping(mem, root, v)
    {
      hide Walk, Present, Large, Frame, Index1, Index2, Index3, Index4, Translate, Address, Linked;
      var i4, i3, i2, i1 := Index4(v), Index3(v), Index2(v), Index1(v);
      RecursiveSlot(mem, root, Root, i4);
      var e4 := Load(EntryAddress(FractalPml4(), i4));
      if !Present(e4) { return true, None; }
      if Large(e4) { return false, None; }
      RecursiveSlot(mem, root, L3(i4), i3);
      var e3 := Load(EntryAddress(FractalPdp(i4), i3));
      if !Present(e3) { return true, None; }
      if Large(e3) { return false, None; }
      RecursiveSlot(mem, root, L2(i4, i3), i2);
      var e2 := Load(EntryAddress(FractalPd(i4, i3), i2));
      if !Present(e2) { return true, None; }
      if Large(e2) { return false, None; }
      RecursiveSlot(mem, root, LeafTable(v), i1);
      var e1 := Load(EntryAddress(FractalPt(i4, i3, i2), i1));
      return true, if Present(e1) then Some(Address(e1)) else None;
    }
  }

  /** Marking one page that is not free takes the page in front of it. */
  lemma MarkBehindFree(s: seq<Tag>, page: int)
    requires NormalForm(s) && Disjoint(s) && page !in Pages(s)
    ensures !SplitNeeded(s, page, 1) && Pages(s) - Taken(s, page, 1) == Pages(s) - Block(page - 1, 1)
  {}

  lemma TreePath(m: Memory, root: int, role: map<int, Node>, n: Node)
    requires Tree(m, root, role) && n.Proper() && Reach(m, root, n).Some?
    ensures SelfSlot(m, root) && PathWriteable(m, root, n)
  {
    ReachIsRole(m, root, role, n);
  }

  /** Hanging in page `g`, just taken from the free ones, as a table. */
  lemma HungFacts(m0: Memory, root: int, role: map<int, Node>, free0: iset<int>, n: Node, i: Index, g: int, free: iset<int>)
    requires Tree(m0, root, role) && !n.L1? && Child(n, i).Proper() && Reach(m0, root, n).Some?
    requires !Present(m0(Word(Reach(m0, root, n).value, i))) && 0 <= g < FRAMES
    requires forall p :: p in free0 ==> 0 <= p < FRAMES && p !in role
    requires g in free0 && free == free0 - Block(g, 1)
    ensures var w, e := Word(Reach(m0, root, n).value, i), MakeEntry(g, TABLE_FLAGS);
            var m1, role1 := Store(m0, w, e), role[g := Child(n, i)];
            var m := Cleared(m1, g);
            && SelfSlot(m1, root) && Reach(m1, root, n) == Reach(m0, root, n) && m1(w) == m(w) == e
            && Tree(m, root, role1) && Reach(m, root, Child(n, i)) == Some(g) && ClearTable(m, g)
            && Extends(m0, role, free0, m, role1, free, root)
            && forall p :: p in free ==> 0 <= p < FRAMES && p !in role1
  {
    hide Walk, Translate, Tree, Reach, SelfSlot, SameTranslations, NoNewLarge, Present, Large, Frame, MakeEntry;
    var e := MakeEntry(g, TABLE_FLAGS);
    TableEntry(g);
    HungTableFits(m0, root, role, n, i, e, g);
    assert forall p :: p in Block(g, 1) <==> p == g;
  }

  lemma TableEntry(page: int)
    requires 0 <= page < FRAMES
    ensures var e := MakeEntry(page, TABLE_FLAGS); e == page * 0x1000 + 3 && Present(e) && !Large(e) && Writeable(e) && Frame(e) == Address(e) == page
  {
    EntryFields(page, TABLE_FLAGS);
  }

  lemma NoNewLargeTransitive(m0: Memory, m1: Memory, m2: Memory, root: int)
    requires NoNewLarge(m0, m1, root) && NoNewLarge(m1, m2, root)
    ensures NoNewLarge(m0, m2, root)
  {
    hide Index4, LargeOnPath;
  }
}
