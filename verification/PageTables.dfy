/** Four-level page tables in physical memory: the hardware walk of section 4.5 of the
    Intel SDM, Volume 3A, the tree that the tables form, and what a change of one entry
    does to every translation. */
module PageTables {
  import opened Machine
  import opened Addressing

  datatype Option<T> = None | Some(value: T)

  /** A 64-bit word of physical memory: one of the 512 of a page frame. */
  datatype Word = Word(frame: int, index: Index)

  type Memory = Word -> int

  function Store(m: Memory, w: Word, e: int): Memory {
    (x: Word) => if x == w then e else m(x)
  }

  function Cleared(m: Memory, frame: int): Memory {
    (x: Word) => if x.frame == frame then 0 else m(x)
  }

  // ----- The hardware walk

  /** A page frame, in 4 KiB units, and whether stores to it are allowed. */
  datatype Access = Access(frame: int, writeable: bool)

  /** What the processor reaches for the indices of `v`.  It may store if all entries on the
      way are writeable. */
  function Translate(m: Memory, root: int, v: int): Option<Access> {
    var e4 := m(Word(root, Index4(v)));
    if !Present(e4) || Large(e4) then None else
    var e3 := m(Word(Frame(e4), Index3(v)));
    var w3 := Writeable(e4) && Writeable(e3);
    if !Present(e3) then None else
    if Large(e3) then Some(Access(Frame(e3) - Frame(e3) % 0x4_0000 + 512 * Index2(v) + Index1(v), w3)) else
    var e2 := m(Word(Frame(e3), Index2(v)));
    var w2 := w3 && Writeable(e2);
    if !Present(e2) then None else
    if Large(e2) then Some(Access(Frame(e2) - Frame(e2) % 512 + Index1(v), w2)) else
    var e1 := m(Word(Frame(e2), Index1(v)));
    if Present(e1) then Some(Access(Frame(e1), w2 && Writeable(e1))) else None
  }

  /** The walk faults on addresses that are not canonical. */
  function Walk(m: Memory, root: int, v: int): Option<Access> {
    if Canonical(v) then Translate(m, root, v) else None
  }

  // ----- The tree of tables

  /** A table, named by the indices that lead to it. */
  datatype Node = Root | L3(a: Index) | L2(a: Index, b: Index) | L1(a: Index, b: Index, c: Index) {
    /** Not under the self-referencing slot. */
    predicate Proper() { Root? || a != FRACTAL_INDEX }
  }

  function Child(n: Node, i: Index): Node
    requires !n.L1?
  {
    match n
    case Root => L3(i)
    case L3(a) => L2(a, i)
    case L2(a, b) => L1(a, b, i)
  }

  /** The table below entry `i` of table `f`. */
  function Below(m: Memory, f: Option<int>, i: Index): Option<int> {
    if f == None then None else
    var e := m(Word(f.value, i));
    if Present(e) && !Large(e) then Some(Frame(e)) else None
  }

  function Reach(m: Memory, root: int, n: Node): Option<int> {
    match n
    case Root => Some(root)
    case L3(a) => Below(m, Some(root), a)
    case L2(a, b) => Below(m, Below(m, Some(root), a), b)
    case L1(a, b, c) => Below(m, Below(m, Below(m, Some(root), a), b), c)
  }

  /** Where the kernel finds a table through the self-referencing slot. */
  function FractalAddress(n: Node): int {
    match n
    case Root => FractalPml4()
    case L3(a) => FractalPdp(a)
    case L2(a, b) => FractalPd(a, b)
    case L1(a, b, c) => FractalPt(a, b, c)
  }

  ghost predicate SelfSlot(m: Memory, root: int) {
    var e := m(Word(root, FRACTAL_INDEX));
    Present(e) && !Large(e) && Writeable(e) && Frame(e) == root
  }

  /** The recursive-slot theorem: the walk of word `k` behind the address the kernel uses
      for a table ends in word `k` of exactly that table. */
  lemma RecursiveSlot(m: Memory, root: int, n: Node, k: Index)
    requires SelfSlot(m, root) && Reach(m, root, n).Some?
    ensures var v := EntryAddress(FractalAddress(n), k);
            && WordIndex(v) == k && Index4(v) == 260
            && Walk(m, root, v) == Some(Access(Reach(m, root, n).value, PathWriteable(m, root, n)))
  {
    match n
    case Root => IndicesOfAddress(FRACTAL_INDEX, FRACTAL_INDEX, FRACTAL_INDEX, FRACTAL_INDEX, k);
    case L3(a) => IndicesOfAddress(FRACTAL_INDEX, FRACTAL_INDEX, FRACTAL_INDEX, a, k);
    case L2(a, b) => IndicesOfAddress(FRACTAL_INDEX, FRACTAL_INDEX, a, b, k);
    case L1(a, b, c) => IndicesOfAddress(FRACTAL_INDEX, a, b, c, k);
  }

  /** The entries that lead to a table are writeable. */
  predicate PathWriteable(m: Memory, root: int, n: Node)
    requires Reach(m, root, n).Some?
  {
    match n
    case Root => true
    case L3(a) => Writeable(m(Word(root, a)))
    case L2(a, b) =>
      var e4 := m(Word(root, a));
      Writeable(e4) && Writeable(m(Word(Frame(e4), b)))
    case L1(a, b, c) =>
      var e4 := m(Word(root, a));
      var e3 := m(Word(Frame(e4), b));
      Writeable(e4) && Writeable(e3) && Writeable(m(Word(Frame(e3), c)))
  }

  /** The entries of table `f` point only to tables registered as its children, and may be
      written through. */
  ghost predicate Link(m: Memory, role: map<int, Node>, f: int, i: Index)
    requires f in role && !role[f].L1?
  {
    var e := m(Word(f, i));
    Present(e) && !Large(e) ==> Writeable(e) && Frame(e) in role && role[Frame(e)] == Child(role[f], i)
  }

  /** The tables outside the self-referencing slot form a tree: each table frame has one
      place, is reached there, and points to its own children or to large pages. */
  ghost predicate Linked(m: Memory, root: int, role: map<int, Node>) {
    && root in role && role[root] == Root
    && (forall f :: f in role ==> 0 <= f < FRAMES && role[f].Proper() && Reach(m, root, role[f]) == Some(f))
    && (forall f, i: Index :: f in role && !role[f].L1? && !(f == root && i == FRACTAL_INDEX) ==> Link(m, role, f, i))
  }

  ghost predicate Tree(m: Memory, root: int, role: map<int, Node>) {
    SelfSlot(m, root) && Linked(m, root, role)
  }

  lemma ReachIsRole(m: Memory, root: int, role: map<int, Node>, n: Node)
    requires Linked(m, root, role) && n.Proper() && Reach(m, root, n).Some?
    ensures Reach(m, root, n).value in role && role[Reach(m, root, n).value] == n
    ensures PathWriteable(m, root, n)
  {
    if !n.Root? {
      assert Link(m, role, root, n.a);
      if !n.L3? {
        var f3 := Reach(m, root, L3(n.a)).value;
        assert Link(m, role, f3, n.b);
        if n.L1? {
          assert Link(m, role, Reach(m, root, L2(n.a, n.b)).value, n.c);
        }
      }
    }
  }

  /** `m1` differs from `m`, inside the tables, at most in the word `w`. */
  ghost predicate AgreeBut(m: Memory, m1: Memory, role: map<int, Node>, w: Word) {
    forall x: Word :: x.frame in role && x != w ==> m1(x) == m(x)
  }

  /** Changing the self-referencing slot, a leaf entry, or an entry that led nowhere leaves
      every reachable table where it was. */
  lemma ReachStable(m: Memory, m1: Memory, root: int, role: map<int, Node>, w: Word, n: Node)
    requires Linked(m, root, role) && AgreeBut(m, m1, role, w) && n.Proper() && Reach(m, root, n).Some?
    requires w.frame in role ==> role[w.frame].L1? || !Present(m(w)) || w == Word(root, FRACTAL_INDEX)
    ensures Reach(m1, root, n) == Reach(m, root, n)
  {
    ReachIsRole(m, root, role, n);
    if !n.Root? {
      ReachIsRole(m, root, role, L3(n.a));
      if !n.L3? {
        ReachIsRole(m, root, role, L2(n.a, n.b));
      }
    }
  }

  /** The node of the last table on the way to `v`. */
  function LeafTable(v: int): Node { L1(Index4(v), Index3(v), Index2(v)) }

  ghost predicate SamePage(v: int, w: int) {
    Index4(v) == Index4(w) && Index3(v) == Index3(w) && Index2(v) == Index2(w) && Index1(v) == Index1(w)
  }

  /** Changing the self-referencing slot, or a leaf entry that `v` does not use, leaves the
      translation of `v` alone. */
  lemma WalkStable(m: Memory, m1: Memory, root: int, role: map<int, Node>, w: Word, v: int)
    requires Linked(m, root, role) && AgreeBut(m, m1, role, w) && Index4(v) != FRACTAL_INDEX
    requires w.frame in role ==>
      (w == Word(root, FRACTAL_INDEX) || (role[w.frame].L1? && !(role[w.frame] == LeafTable(v) && w.index == Index1(v))))
    ensures Translate(m1, root, v) == Translate(m, root, v)
  {
    hide Index4, Index3, Index2, Index1;
    var e4 := m(Word(root, Index4(v)));
    assert Link(m, role, root, Index4(v));
    if Present(e4) && !Large(e4) {
      assert Link(m, role, Frame(e4), Index3(v));
      var e3 := m(Word(Frame(e4), Index3(v)));
      if Present(e3) && !Large(e3) {
        assert Link(m, role, Frame(e3), Index2(v));
      }
    }
  }

  /** The entries on the way to `v` that the kernel reads; it stops at one with the
      large-page bit, whether or not that entry is present. */
  ghost predicate LargeOnPath(m: Memory, root: int, v: int) {
    var e4 := m(Word(root, Index4(v)));
    Large(e4) || (Present(e4) &&
      var e3 := m(Word(Frame(e4), Index3(v)));
      Large(e3) || (Present(e3) && Large(m(Word(Frame(e3), Index2(v))))))
  }

  /** No address outside the self-referencing slot has come to have a large-page bit on its path. */
  ghost predicate NoNewLarge(m: Memory, m1: Memory, root: int) {
    forall v :: Index4(v) != FRACTAL_INDEX && LargeOnPath(m1, root, v) ==> LargeOnPath(m, root, v)
  }

  /** Hanging a fresh, cleared table below an entry that was not present keeps the tree
      and every translation outside the self-referencing slot. */
  lemma AddTable(m: Memory, root: int, role: map<int, Node>, f: int, i: Index, e: int, g: int)
    requires Tree(m, root, role) && f in role && !role[f].L1? && Child(role[f], i).Proper()
    requires !Present(m(Word(f, i))) && g !in role && 0 <= g < FRAMES
    requires Present(e) && !Large(e) && Writeable(e) && Frame(e) == g
    ensures var m1 := Cleared(Store(m, Word(f, i), e), g);
            Tree(m1, root, role[g := Child(role[f], i)]) && SameTranslations(m, m1, root) && NoNewLarge(m, m1, root)
  {
    var w := Word(f, i);
    var m1, role1 := Cleared(Store(m, w, e), g), role[g := Child(role[f], i)];
    assert AgreeBut(m, m1, role, w);
    assert m1(w) == e;
    assert SelfSlot(m1, root);
    forall h | h in role ensures Reach(m1, root, role[h]) == Some(h) {
      ReachStable(m, m1, root, role, w, role[h]);
    }
    assert Reach(m1, root, role1[g]) == Below(m1, Reach(m1, root, role[f]), i) == Some(g);
    forall h, j: Index | h in role1 && !role1[h].L1? && !(h == root && j == FRACTAL_INDEX)
      ensures Link(m1, role1, h, j)
    {
      if h != g {
        assert Link(m, role, h, j);
      }
    }
    forall v | Index4(v) != FRACTAL_INDEX
      ensures Translate(m1, root, v) == Translate(m, root, v)
      ensures LargeOnPath(m1, root, v) ==> LargeOnPath(m, root, v)
    {
      AddTableKeeps(m, root, role, f, i, e, g, v);
      AddTableNotLarge(m, root, role, f, i, e, g, v);
    }
  }

  /** What the kernel relies on between the store of the new entry and the clearing of
      the new table, and after it. */
  lemma HungTableFits(m: Memory, root: int, role: map<int, Node>, n: Node, i: Index, e: int, g: int)
    requires Tree(m, root, role) && !n.L1? && Child(n, i).Proper() && Reach(m, root, n).Some?
    requires !Present(m(Word(Reach(m, root, n).value, i))) && g !in role && 0 <= g < FRAMES
    requires Present(e) && !Large(e) && Writeable(e) && Frame(e) == g
    ensures var m1 := Store(m, Word(Reach(m, root, n).value, i), e);
            && SelfSlot(m1, root) && Reach(m1, root, n) == Reach(m, root, n)
            && Tree(Cleared(m1, g), root, role[g := Child(n, i)])
            && Reach(Cleared(m1, g), root, Child(n, i)) == Some(g)
            && SameTranslations(m, Cleared(m1, g), root) && NoNewLarge(m, Cleared(m1, g), root)
            && Reach(m, root, n).value in role
  {
    var f := Reach(m, root, n).value;
    ReachIsRole(m, root, role, n);
    AddTable(m, root, role, f, i, e, g);
    ReachStable(m, Store(m, Word(f, i), e), root, role, Word(f, i), n);
  }

  ghost predicate SameTranslations(m: Memory, m1: Memory, root: int) {
    forall v :: Index4(v) != FRACTAL_INDEX ==> Translate(m1, root, v) == Translate(m, root, v)
  }

  lemma AddTableKeeps(m: Memory, root: int, role: map<int, Node>, f: int, i: Index, e: int, g: int, v: int)
    requires Linked(m, root, role) && f in role && !role[f].L1?
    requires !Present(m(Word(f, i))) && g !in role && Present(e) && !Large(e) && Writeable(e) && Frame(e) == g
    requires Index4(v) != FRACTAL_INDEX
    ensures Translate(Cleared(Store(m, Word(f, i), e), g), root, v) == Translate(m, root, v)
  {
    hide Index4, Index3, Index2, Index1;
    var e4 := m(Word(root, Index4(v)));
    assert Link(m, role, root, Index4(v));
    if Present(e4) && !Large(e4) {
      assert Link(m, role, Frame(e4), Index3(v));
      var e3 := m(Word(Frame(e4), Index3(v)));
      if Present(e3) && !Large(e3) {
        assert Link(m, role, Frame(e3), Index2(v));
      }
    }
  }

  lemma AddTableNotLarge(m: Memory, root: int, role: map<int, Node>, f: int, i: Index, e: int, g: int, v: int)
    requires Linked(m, root, role) && f in role && !role[f].L1?
    requires !Present(m(Word(f, i))) && g !in role && Present(e) && !Large(e) && Writeable(e) && Frame(e) == g
    requires Index4(v) != FRACTAL_INDEX
    ensures LargeOnPath(Cleared(Store(m, Word(f, i), e), g), root, v) ==> LargeOnPath(m, root, v)
  {
    hide Index4, Index3, Index2, Index1;
    var e4 := m(Word(root, Index4(v)));
    assert Link(m, role, root, Index4(v));
    if Present(e4) && !Large(e4) {
      assert Link(m, role, Frame(e4), Index3(v));
    }
  }

  /** Pointing the self-referencing slot at the root completes the tree. */
  lemma SetSelfSlot(m: Memory, root: int, role: map<int, Node>, e: int)
    requires Linked(m, root, role) && Present(e) && !Large(e) && Writeable(e) && Frame(e) == root
    ensures var m1 := Store(m, Word(root, FRACTAL_INDEX), e);
            Tree(m1, root, role) && SameTranslations(m, m1, root)
  {
    var m1 := Store(m, Word(root, FRACTAL_INDEX), e);
    forall h | h in role ensures Reach(m1, root, role[h]) == Some(h) {
      ReachStable(m, m1, root, role, Word(root, FRACTAL_INDEX), role[h]);
    }
    forall h, j: Index | h in role && !role[h].L1? && !(h == root && j == FRACTAL_INDEX)
      ensures Link(m1, role, h, j)
    {
      assert Link(m, role, h, j);
    }
    forall v | Index4(v) != FRACTAL_INDEX ensures Translate(m1, root, v) == Translate(m, root, v) {
      WalkStable(m, m1, root, role, Word(root, FRACTAL_INDEX), v);
    }
  }

  /** Frame `dst` as a copy of frame `src`. */
  function Copied(m: Memory, dst: int, src: int): Memory {
    (x: Word) => if x.frame == dst then m(Word(src, x.index)) else m(x)
  }

  /** The first 256 entries of a frame cleared. */
  function LowerCleared(m: Memory, frame: int): Memory {
    (x: Word) => if x.frame == frame && x.index < 256 then 0 else m(x)
  }

  /** A copy of the root whose lower half is cleared and whose slot points to itself maps
      what the old root maps in the upper half, and nothing in the lower half. */
  lemma NewRootShares(m: Memory, root: int, role: map<int, Node>, g: int, e: int)
    requires Tree(m, root, role) && g !in role && Present(e) && !Large(e) && Writeable(e) && Frame(e) == g
    ensures var m1 := Store(LowerCleared(Copied(m, g, root), g), Word(g, FRACTAL_INDEX), e);
            && Tree(m1, root, role) && SameTranslations(m, m1, root) && SelfSlot(m1, g)
            && (forall v :: Index4(v) < 256 ==> Translate(m1, g, v) == None)
            && (forall v :: Index4(v) >= 256 && Index4(v) != FRACTAL_INDEX ==> Translate(m1, g, v) == Translate(m, root, v))
  {
    var m1 := Store(LowerCleared(Copied(m, g, root), g), Word(g, FRACTAL_INDEX), e);
    assert m1(Word(g, FRACTAL_INDEX)) == e;
    forall h | h in role ensures Reach(m1, root, role[h]) == Some(h) {
      ReachStable(m, m1, root, role, Word(g, 0), role[h]);
    }
    forall h, j: Index | h in role && !role[h].L1? && !(h == root && j == FRACTAL_INDEX)
      ensures Link(m1, role, h, j)
    {
      assert Link(m, role, h, j);
    }
    forall v | Index4(v) != FRACTAL_INDEX
      ensures Translate(m1, root, v) == Translate(m, root, v)
      ensures Translate(m1, g, v) == if Index4(v) < 256 then None else Translate(m, root, v)
    {
      WalkStable(m, m1, root, role, Word(g, 0), v);
      assert Index4(v) >= 256 ==> Translate(m1, g, v) == Translate(m1, root, v);
    }
  }

  // ----- Leaves

  /** The page-table entry of `v`, if there is a table for it. */
  function LeafEntry(m: Memory, root: int, v: int): Option<int> {
    var t := Reach(m, root, LeafTable(v));
    if t == None then None else Some(m(Word(t.value, Index1(v))))
  }

  /** What `vmm_mapping` reports: the address part of the leaf entry, as a page number. */
  function Mapping(m: Memory, root: int, v: int): Option<int> {
    var e := LeafEntry(m, root, v);
    if e.Some? && Present(e.value) then Some(Address(e.value)) else None
  }

  /** Leaf entries are not on the path. */
  lemma LargeStable(m: Memory, m1: Memory, root: int, role: map<int, Node>, w: Word, v: int)
    requires Linked(m, root, role) && AgreeBut(m, m1, role, w) && Index4(v) != FRACTAL_INDEX
    requires w.frame in role ==> role[w.frame].L1?
    ensures LargeOnPath(m1, root, v) <==> LargeOnPath(m, root, v)
  {
    hide Index4, Index3, Index2, Index1;
    var e4 := m(Word(root, Index4(v)));
    assert Link(m, role, root, Index4(v));
    if Present(e4) && !Large(e4) {
      assert Link(m, role, Frame(e4), Index3(v));
    }
  }

  /** The access that a present leaf entry behind writeable tables allows. */
  lemma LeafAccess(m: Memory, root: int, v: int)
    requires Reach(m, root, LeafTable(v)).Some? && PathWriteable(m, root, LeafTable(v))
    ensures LeafEntry(m, root, v).Some?
    ensures var e := LeafEntry(m, root, v).value;
            Present(e) ==> Translate(m, root, v) == Some(Access(Frame(e), Writeable(e)))
  {
    hide Index4, Index3, Index2, Index1, Frame;
  }

  /** Writing a leaf entry keeps the tree, */
  lemma LeafKeepsTree(m: Memory, root: int, role: map<int, Node>, n: Node, i: Index, e: int)
    requires Tree(m, root, role) && n.L1? && n.Proper() && Reach(m, root, n).Some?
    ensures var x := Word(Reach(m, root, n).value, i);
            var m1 := Store(m, x, e);
            && x.frame in role && role[x.frame] == n && AgreeBut(m, m1, role, x)
            && Tree(m1, root, role) && Reach(m1, root, n) == Reach(m, root, n) && PathWriteable(m1, root, n)
  {
    var x := Word(Reach(m, root, n).value, i);
    var m1 := Store(m, x, e);
    ReachIsRole(m, root, role, n);
    forall h | h in role ensures Reach(m1, root, role[h]) == Some(h) {
      ReachStable(m, m1, root, role, x, role[h]);
    }
    forall h, j: Index | h in role && !role[h].L1? && !(h == root && j == FRACTAL_INDEX)
      ensures Link(m1, role, h, j)
    {
      assert Link(m, role, h, j);
    }
    ReachIsRole(m1, root, role, n);
  }

  /** and changes the translation of one page only. */
  lemma SetLeaf(m: Memory, root: int, role: map<int, Node>, v: int, e: int)
    requires Tree(m, root, role) && Index4(v) != FRACTAL_INDEX && Reach(m, root, LeafTable(v)).Some? && Present(e)
    ensures var m1 := Store(m, Word(Reach(m, root, LeafTable(v)).value, Index1(v)), e);
            && Tree(m1, root, role)
            && Translate(m1, root, v) == Some(Access(Frame(e), Writeable(e))) && LeafEntry(m1, root, v) == Some(e)
            && NoNewLarge(m, m1, root)
            && forall w :: Index4(w) != FRACTAL_INDEX && !SamePage(v, w) ==> Translate(m1, root, w) == Translate(m, root, w)
  {
    hide Index4, Index3, Index2, Index1, Translate, Reach, PathWriteable, Linked, SelfSlot, AgreeBut, LargeOnPath;
    LeafKeepsTree(m, root, role, LeafTable(v), Index1(v), e);
    var x := Word(Reach(m, root, LeafTable(v)).value, Index1(v));
    var m1 := Store(m, x, e);
    LeafAccess(m1, root, v);
    forall w | Index4(w) != FRACTAL_INDEX ensures LargeOnPath(m1, root, w) ==> LargeOnPath(m, root, w) {
      LargeStable(m, m1, root, role, x, w);
    }
    forall w | Index4(w) != FRACTAL_INDEX && !SamePage(v, w) ensures Translate(m1, root, w) == Translate(m, root, w) {
      WalkStable(m, m1, root, role, x, w);
    }
  }

  /** Where `vmm_mapping` reports a page, the processor uses the low forty bits of it; the two
      agree exactly if the leaf entry, a 64-bit word, has none of its twelve top bits set. */
  lemma MappingIsTranslationIff(m: Memory, root: int, v: int)
    requires Mapping(m, root, v).Some?
    ensures LeafEntry(m, root, v).Some?
    ensures Translate(m, root, v).Some? && Translate(m, root, v).value.frame == Mapping(m, root, v).value % FRAMES
    ensures Mapping(m, root, v).value == Translate(m, root, v).value.frame <==> 0 <= LeafEntry(m, root, v).value < PAGE * FRAMES
  {
  }

  const NO_EXECUTE := 0x8000_0000_0000_0000  // bit 63

  /** With the no-execute bit set, as a boot loader may leave it, `vmm_mapping` reports a page
      that does not exist. */
  lemma MappingOfNoExecute(m: Memory, root: int, v: int, p: int)
    requires 0 <= p < FRAMES && LeafEntry(m, root, v) == Some(MakeEntry(p, WRITEABLE) + NO_EXECUTE)
    ensures Translate(m, root, v).Some? && Translate(m, root, v).value.frame == p
    ensures Mapping(m, root, v) == Some(p + NO_EXECUTE / PAGE) != Some(p)
  {
    EntryFields(p, WRITEABLE);
    var f := MakeEntry(p, WRITEABLE);
    assert f + NO_EXECUTE == (p + NO_EXECUTE / PAGE) * PAGE + 3;
    EntryBits(p + NO_EXECUTE / PAGE, 3);
    DivMod(p + NO_EXECUTE / PAGE, 3, PAGE);
    assert NO_EXECUTE / PAGE == 2048 * FRAMES;
    DivMod(2048, p, FRAMES);
  }

  /** `vmm_mapping` looks at the large-page bit of present entries only. */
  ghost predicate LargePage(m: Memory, root: int, v: int) {
    var e4 := m(Word(root, Index4(v)));
    Present(e4) && (Large(e4) || (
      var e3 := m(Word(Frame(e4), Index3(v)));
      Present(e3) && (Large(e3) || (
        var e2 := m(Word(Frame(e3), Index2(v)));
        Present(e2) && Large(e2)))))
  }
}
