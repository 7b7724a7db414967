/** Why the heap may treat its region as flat memory: through the page tables, a store to
    one heap word changes that word, no other heap word and no table, and growing the heap
    or adding tables changes no heap word. */
module HeapBacking {
  import opened Machine
  import opened Addressing
  import opened PageTables
  import opened AddressSpaces
  import opened HeapSegments
  import opened HeapLinks

  /** The virtual address of heap page `k`. */
  function HeapPage(k: int): int { HEAP_BASE + k * PAGE }

  /** Every page of the heap is mapped, to a frame of its own that is neither a table nor free. */
  ghost predicate Backed(m: Memory, root: int, role: map<int, Node>, free: iset<int>, pages: seq<int>) {
    && (forall k :: 0 <= k < |pages| ==>
          Translate(m, root, HeapPage(k)) == Some(Access(pages[k], true)) && pages[k] !in role && pages[k] !in free)
    && (forall k, l :: 0 <= k < l < |pages| ==> pages[k] != pages[l])
  }

  ghost predicate TopOk(top: int, pages: nat) {
    top == HeapPage(pages) <= U64 - PAGE
  }

  lemma HeapPageIndices(k: nat, l: nat)
    requires HeapPage(k) < U64 && HeapPage(l) < U64
    ensures Index4(HeapPage(k)) == 511 != FRACTAL_INDEX
    ensures k != l ==> !SamePage(HeapPage(k), HeapPage(l))
  {
    var v, w := HeapPage(k), HeapPage(l);
    assert v / PDP_SPAN == 0x1ff_ffff;
    assert v == (HEAP_BASE / PAGE + k) * PAGE && w == (HEAP_BASE / PAGE + l) * PAGE;
    if SamePage(v, w) {
      IndicesDeterminePage(v, w);
    }
  }

  /** Mapping one more page at the top keeps all heap pages apart and backed. */
  lemma BackedGrows(m0: Memory, role0: map<int, Node>, free0: iset<int>, pages: seq<int>,
                    m: Memory, role: map<int, Node>, free: iset<int>, root: int, p: int)
    requires Backed(m0, root, role0, free0, pages) && HeapPage(|pages|) < U64
    requires p !in pages && p !in free0 && p !in role0
    requires OnlyAddedTables(m0, role0, free0, m, role, free)
    requires Translate(m, root, HeapPage(|pages|)) == Some(Access(p, true))
    requires forall w :: Index4(w) != FRACTAL_INDEX && !SamePage(HeapPage(|pages|), w) ==>
      Translate(m, root, w) == Translate(m0, root, w)
    ensures Backed(m, root, role, free, pages + [p])
  {
    var r := pages + [p];
    forall k | 0 <= k < |r|
      ensures Translate(m, root, HeapPage(k)) == Some(Access(r[k], true)) && r[k] !in role && r[k] !in free
    {
      HeapPageIndices(k, |pages|);
      HeapPageIndices(|pages|, k);
      assert k < |pages| ==> r[k] == pages[k] && r[k] !in free0 && r[k] !in role0;
    }
  }

  /** A word of a heap of `pages` pages. */
  ghost predicate HeapWord(a: int, pages: nat) {
    HEAP_BASE <= a < HeapPage(pages) && a % 8 == 0
  }

  function PageIndex(a: int): int { (a - HEAP_BASE) / PAGE }

  /** The word of physical memory that the processor accesses at virtual address `a`. */
  function PhysicalWord(m: Memory, root: int, a: int): Option<Word> {
    match Walk(m, root, a)
    case None => None
    case Some(access) => Some(Word(access.frame, WordIndex(a)))
  }

  lemma IndicesOfPage(a: int, v: int)
    requires a / PAGE == v / PAGE
    ensures Index4(a) == Index4(v) && Index3(a) == Index3(v) && Index2(a) == Index2(v) && Index1(a) == Index1(v)
  {
    PageDigits(a);
    PageDigits(v);
  }

  /** Each heap word has a physical word of its own, in the frame of its page. */
  lemma HeapWordLocation(m: Memory, root: int, role: map<int, Node>, free: iset<int>, pages: seq<int>, a: int)
    requires Backed(m, root, role, free, pages) && HeapPage(|pages|) <= U64 && HeapWord(a, |pages|)
    ensures 0 <= PageIndex(a) < |pages|
    ensures Walk(m, root, a) == Some(Access(pages[PageIndex(a)], true))
    ensures PhysicalWord(m, root, a) == Some(Word(pages[PageIndex(a)], WordIndex(a)))
  {
    var k := PageIndex(a);
    var r := (a - HEAP_BASE) % PAGE;
    assert a == (HEAP_BASE / PAGE + k) * PAGE + r;
    DivMod(HEAP_BASE / PAGE + k, r, PAGE);
    DivMod(HEAP_BASE / PAGE + k, 0, PAGE);
    assert HeapPage(k) / PAGE == a / PAGE;
    IndicesOfPage(a, HeapPage(k));
  }

  lemma WordOfPage(a: int)
    requires a % 8 == 0
    ensures a == HEAP_BASE + PageIndex(a) * PAGE + 8 * WordIndex(a)
  {
    var d := a - HEAP_BASE;
    var k, r := d / PAGE, d % PAGE;
    assert d == k * PAGE + r;
    DivMod(HEAP_BASE / PAGE + k, r, PAGE);
    assert a == (HEAP_BASE / PAGE + k) * PAGE + r;
    assert a == 8 * ((HEAP_BASE / PAGE + k) * 512 + r / 8) + r % 8;
    DivMod((HEAP_BASE / PAGE + k) * 512 + r / 8, r % 8, 8);
  }

  /** A store through the page tables behaves as a store to flat memory, and leaves the
      tables, every translation and the backing of the heap as they were. */
  lemma FlatStore(m: Memory, root: int, role: map<int, Node>, free: iset<int>, pages: seq<int>, a: int, v: int)
    requires Tree(m, root, role) && Backed(m, root, role, free, pages)
    requires HeapPage(|pages|) <= U64 && HeapWord(a, |pages|)
    ensures PhysicalWord(m, root, a).Some?
    ensures var m1 := Store(m, PhysicalWord(m, root, a).value, v);
            && Tree(m1, root, role) && SameTranslations(m, m1, root) && Backed(m1, root, role, free, pages)
            && forall b :: HeapWord(b, |pages|) ==>
                 PhysicalWord(m1, root, b) == PhysicalWord(m, root, b) != None
                 && m1(PhysicalWord(m1, root, b).value) == if b == a then v else m(PhysicalWord(m, root, b).value)
  {
    HeapWordLocation(m, root, role, free, pages, a);
    var w := PhysicalWord(m, root, a).value;
    var m1 := Store(m, w, v);
    OutsideTables(m, m1, root, role);
    assert Backed(m1, root, role, free, pages) by {
      forall k | 0 <= k < |pages| ensures Translate(m1, root, HeapPage(k)) == Some(Access(pages[k], true)) {
        HeapPageIndices(k, k);
      }
    }
    forall b | HeapWord(b, |pages|)
      ensures PhysicalWord(m1, root, b) == PhysicalWord(m, root, b) != None
      ensures m1(PhysicalWord(m1, root, b).value) == if b == a then v else m(PhysicalWord(m, root, b).value)
    {
      HeapWordLocation(m, root, role, free, pages, b);
      HeapWordLocation(m1, root, role, free, pages, b);
      if PhysicalWord(m, root, b).value == w {
        WordOfPage(a);
        WordOfPage(b);
      }
    }
  }

  /** Memory outside the tables has no part in any translation. */
  lemma OutsideTables(m: Memory, m1: Memory, root: int, role: map<int, Node>)
    requires Tree(m, root, role) && forall x: Word :: x.frame in role ==> m1(x) == m(x)
    ensures Tree(m1, root, role) && SameTranslations(m, m1, root)
  {
    var w := Word(root, FRACTAL_INDEX);
    forall h | h in role ensures Reach(m1, root, role[h]) == Some(h) {
      ReachStable(m, m1, root, role, w, role[h]);
    }
    forall h, j: Index | h in role && !role[h].L1? && !(h == root && j == FRACTAL_INDEX)
      ensures Link(m1, role, h, j)
    {
      assert Link(m, role, h, j);
    }
    forall v | Index4(v) != FRACTAL_INDEX ensures Translate(m1, root, v) == Translate(m, root, v) {
      WalkStable(m, m1, root, role, w, v);
    }
  }

  /** Mapping further pages and hanging in further tables changes no word of the heap. */
  lemma GrowthKeepsWords(m0: Memory, role0: map<int, Node>, free0: iset<int>, pages0: seq<int>,
                         m: Memory, role: map<int, Node>, free: iset<int>, pages: seq<int>, root: int, a: int)
    requires Backed(m0, root, role0, free0, pages0) && Backed(m, root, role, free, pages) && pages0 <= pages
    requires OnlyAddedTables(m0, role0, free0, m, role, free)
    requires HeapPage(|pages|) <= U64 && HeapWord(a, |pages0|)
    ensures PhysicalWord(m, root, a) == PhysicalWord(m0, root, a) != None
    ensures m(PhysicalWord(m, root, a).value) == m0(PhysicalWord(m0, root, a).value)
  {
    HeapWordLocation(m0, root, role0, free0, pages0, a);
    HeapWordLocation(m, root, role, free, pages, a);
    assert pages[PageIndex(a)] == pages0[PageIndex(a)];
  }

  // ----- Heap words and physical words

  /** Every heap word is what the processor reads at its address. */
  ghost predicate Reflects(words: Words, m: Memory, root: int, pages: nat) {
    forall a :: HeapWord(a, pages) ==>
      PhysicalWord(m, root, a).Some? && words(a) == m(PhysicalWord(m, root, a).value)
  }

  /** A store through the page tables is a store to the heap word. */
  lemma StoreReflects(words: Words, m: Memory, root: int, role: map<int, Node>, free: iset<int>, pages: seq<int>,
                      a: int, v: int)
    requires Tree(m, root, role) && Backed(m, root, role, free, pages) && Reflects(words, m, root, |pages|)
    requires HeapPage(|pages|) <= U64 && HeapWord(a, |pages|)
    ensures Walk(m, root, a).Some? && Walk(m, root, a).value.writeable
    ensures var m1 := Store(m, Word(Walk(m, root, a).value.frame, WordIndex(a)), v);
            Tree(m1, root, role) && Backed(m1, root, role, free, pages) && Reflects(Put(words, a, v), m1, root, |pages|)
  {
    hide Walk, Translate, Tree, Backed, WordIndex, HeapWord;
    HeapWordLocation(m, root, role, free, pages, a);
    FlatStore(m, root, role, free, pages, a, v);
  }

  /** The heap words after frame `p` has been mapped at `top`: what the frame held. */
  function Fetched(words: Words, m: Memory, p: int, top: int): Words {
    (a: int) => if top <= a < top + PAGE then m(Word(p, WordIndex(a))) else words(a)
  }

  lemma FetchReflects(words: Words, m0: Memory, role0: map<int, Node>, free0: iset<int>, pages0: seq<int>,
                      m: Memory, role: map<int, Node>, free: iset<int>, p: int, root: int)
    requires Backed(m0, root, role0, free0, pages0) && Backed(m, root, role, free, pages0 + [p])
    requires OnlyAddedTables(m0, role0, free0, m, role, free) && HeapPage(|pages0| + 1) <= U64
    requires Reflects(words, m0, root, |pages0|)
    ensures Reflects(Fetched(words, m, p, HeapPage(|pages0|)), m, root, |pages0| + 1)
  {
    var k, pages := |pages0|, pages0 + [p];
    forall a | HeapWord(a, k + 1)
      ensures PhysicalWord(m, root, a).Some?
      ensures Fetched(words, m, p, HeapPage(k))(a) == m(PhysicalWord(m, root, a).value)
    {
      HeapWordLocation(m, root, role, free, pages, a);
      if a < HeapPage(k) {
        GrowthKeepsWords(m0, role0, free0, pages0, m, role, free, pages, root, a);
      }
    }
  }

  /** All that ties the heap words to the machine: the pages are backed, up to `top`, and the
      words are what their frames hold. */
  ghost predicate HeapMemory(words: Words, m: Memory, root: int, role: map<int, Node>, free: iset<int>,
                             pages: seq<int>, top: int)
  {
    TopOk(top, |pages|) && Backed(m, root, role, free, pages) && Reflects(words, m, root, |pages|)
  }

  /** A word of the heap, and a whole header. */
  predicate InHeap(a: int, top: int) { HEAP_BASE <= a < top && a % 8 == 0 }

  lemma HeaderWords(a: int, top: int)
    requires HeaderIn(a, top)
    ensures InHeap(a, top) && InHeap(a + SIZE, top) && InHeap(a + PREV, top) && InHeap(a + NEXT, top)
    ensures InHeap(a + USED, top) && InHeap(a + CANARY1_AT, top)
  {
    AlignedWord(a, 0);
    AlignedWord(a, SIZE);
    AlignedWord(a, PREV);
    AlignedWord(a, NEXT);
    AlignedWord(a, USED);
    AlignedWord(a, CANARY1_AT);
  }

  lemma AlignedWord(a: int, o: int)
    requires a % 16 == 0 && o % 8 == 0
    ensures (a + o) % 8 == 0
  {
    assert a + o == 8 * (2 * (a / 16) + o / 8);
  }

  lemma PokeFacts(words: Words, m: Memory, root: int, role: map<int, Node>, free: iset<int>,
                  pages: seq<int>, top: int, a: int, v: int)
    requires Tree(m, root, role) && HeapMemory(words, m, root, role, free, pages, top) && InHeap(a, top)
    ensures Walk(m, root, a).Some? && Walk(m, root, a).value.writeable
    ensures var m1 := Store(m, Word(Walk(m, root, a).value.frame, WordIndex(a)), v);
            Tree(m1, root, role) && HeapMemory(Put(words, a, v), m1, root, role, free, pages, top)
  {
    hide Walk, Tree, Backed, Reflects, WordIndex;
    StoreReflects(words, m, root, role, free, pages, a, v);
  }

  /** What the next page to be mapped must be like. */
  ghost predicate Unused(p: int, role: map<int, Node>, free: iset<int>, pages: seq<int>) {
    0 <= p < FRAMES && p !in pages && p !in role && p !in free
  }

  lemma MapFacts(words: Words, m0: Memory, role0: map<int, Node>, free0: iset<int>, pages: seq<int>, top: int,
                 m: Memory, role: map<int, Node>, free: iset<int>, p: int, root: int)
    requires HeapMemory(words, m0, root, role0, free0, pages, top) && Unused(p, role0, free0, pages)
    requires top + PAGE <= U64 - PAGE && OnlyAddedTables(m0, role0, free0, m, role, free)
    requires Translate(m, root, top) == Some(Access(p, true))
    requires forall w :: Index4(w) != FRACTAL_INDEX && !SamePage(top, w) ==> Translate(m, root, w) == Translate(m0, root, w)
    ensures HeapMemory(Fetched(words, m, p, top), m, root, role, free, pages + [p], top + PAGE)
    ensures SameBelow(words, Fetched(words, m, p, top), top)
  {
    hide Index4, Index3, Index2, Index1, Translate;
    BackedGrows(m0, role0, free0, pages, m, role, free, root, p);
    FetchReflects(words, m0, role0, free0, pages, m, role, free, p, root);
  }

  /** A page just taken from the free ones is fit to be mapped. */
  lemma PageUnused(words: Words, m: Memory, root: int, role: map<int, Node>, free0: iset<int>, pages: seq<int>, top: int,
                   p: int, free: iset<int>)
    requires HeapMemory(words, m, root, role, free0, pages, top) && 0 <= p < FRAMES && p in free0 && p !in role
    requires free <= free0 && p !in free
    ensures HeapMemory(words, m, root, role, free, pages, top) && Unused(p, role, free, pages)
  {
    hide Translate, Reflects;
  }

  lemma TopIndex(words: Words, m: Memory, root: int, role: map<int, Node>, free: iset<int>, pages: seq<int>, top: int)
    requires HeapMemory(words, m, root, role, free, pages, top)
    ensures Index4(top) != FRACTAL_INDEX
  {
    hide Backed, Reflects;
    HeapPageIndices(|pages|, |pages|);
  }

  lemma TopFacts(words: Words, m: Memory, root: int, role: map<int, Node>, free: iset<int>, pages: seq<int>, top: int, p: int)
    requires HeapMemory(words, m, root, role, free, pages, top) && Unused(p, role, free, pages)
    ensures Index4(top) != FRACTAL_INDEX && 0 <= p < FRAMES
  {
    TopIndex(words, m, root, role, free, pages, top);
  }

  /** What the processor reads at the address of a heap word. */
  lemma PeekFacts(words: Words, m: Memory, root: int, role: map<int, Node>, free: iset<int>,
                  pages: seq<int>, top: int, a: int)
    requires HeapMemory(words, m, root, role, free, pages, top) && InHeap(a, top)
    ensures Walk(m, root, a).Some? && m(Word(Walk(m, root, a).value.frame, WordIndex(a))) == words(a)
  {
    hide Walk, Backed, WordIndex;
    assert HeapWord(a, |pages|) && PhysicalWord(m, root, a).Some?;
  }
}
