/** The heap under its lock, store by store: on any number of CPUs and in any interleaving, the
    list in memory is well formed and coalesced whenever `_heap_lock` is clear, and is what the
    operations give when executed one after the other.  While the lock is held, it need not be. */
module HeapLock {
  import opened Machine
  import opened HeapSegments
  import opened HeapPolicy
  import opened HeapLinks
  import opened HeapProgram
  import opened SpinLocks

  /** The list after some operations, one after the other. */
  function Effects(s: seq<Seg>, ops: seq<Op>): seq<Seg> {
    if ops == [] then s else Effect(Effects(s, ops[..|ops| - 1]), ops[|ops| - 1])
  }

  ghost predicate IsSection(code: seq<Action>) {
    exists op :: Sensible(op) && Code(op) == code
  }

  /** The CPUs have nothing to do but operations of the heap. */
  ghost predicate HeapClients(cpus: seq<Cpu<Action>>) {
    forall c, code :: 0 <= c < |cpus| && code in cpus[c].todo ==> IsSection(code)
  }

  lemma {:induction false} SerialEffects(d: HeapState, s: seq<Seg>, log: seq<(nat, seq<Action>)>) returns (ops: seq<Op>)
    requires Represents(d, s) && forall i :: 0 <= i < |log| ==> IsSection(log[i].1)
    ensures |ops| == |log| && forall i :: 0 <= i < |log| ==> Sensible(ops[i]) && Code(ops[i]) == log[i].1
    ensures Represents(Serial(Apply, d, log), Effects(s, ops))
    decreases |log|
  {
    hide Represents, Code, Apply, Effect;
    ops := [];
    if log != [] {
      var n := |log| - 1;
      var front := SerialEffects(d, s, log[..n]);
      var op :| Sensible(op) && Code(op) == log[n].1;
      SectionEffect(Serial(Apply, d, log[..n]), Effects(s, front), op);
      ops := front + [op];
      assert ops[..n] == front;
    }
  }

  /** Every section in the log is one that some CPU had to run. */
  lemma LoggedSections(s0: State<HeapState, Action>, schedule: seq<nat>)
    requires Initial(s0) && HeapClients(s0.cpus) && forall i :: 0 <= i < |schedule| ==> schedule[i] < |s0.cpus|
    ensures var r := Run(Apply, s0, schedule); forall i :: 0 <= i < |r.log| ==> IsSection(r.log[i].1)
  {
    hide Apply, IsSection, Pending;
    var r := Run(Apply, s0, schedule);
    Serializable(Apply, s0, schedule);
    LogInRange(Apply, s0, schedule);
    assert InRange(r.log, |s0.cpus|);
    forall i | 0 <= i < |r.log| ensures IsSection(r.log[i].1) {
      LoggedIsAcquired(r.log, i);
      var c := r.log[i].0;
      assert r.log[i].1 in Acquired(r.log, c) + Pending(r.cpus[c]);
      assert r.log[i].1 in s0.cpus[c].todo;
    }
  }

  /** In every interleaving of the stores of all CPUs, whenever the lock is clear the list in
      memory is what the operations that have held the lock give one after the other, in the
      order in which they took it, which keeps the order of each CPU. */
  lemma HeapIsSerializable(s0: State<HeapState, Action>, segs: seq<Seg>, schedule: seq<nat>) returns (ops: seq<Op>)
    requires Initial(s0) && Represents(s0.data, segs) && HeapClients(s0.cpus)
    requires forall i :: 0 <= i < |schedule| ==> schedule[i] < |s0.cpus|
    ensures var r := Run(Apply, s0, schedule);
            && |ops| == |r.log| && (forall i :: 0 <= i < |ops| ==> Sensible(ops[i]) && Code(ops[i]) == r.log[i].1)
            && (forall c :: 0 <= c < |r.cpus| ==> Acquired(r.log, c) + Pending(r.cpus[c]) == s0.cpus[c].todo)
            && (r.word == 0 ==> Represents(r.data, Effects(segs, ops)))
  {
    hide Apply, Represents, Effect, Code, Sensible, IsSection, HeapClients;
    LoggedSections(s0, schedule);
    Serializable(Apply, s0, schedule);
    ops := SerialEffects(s0.data, segs, Run(Apply, s0, schedule).log);
  }

  /** So the list is well formed and coalesced whenever the lock is clear. */
  lemma HeapWellFormedWhenClear(s0: State<HeapState, Action>, schedule: seq<nat>)
    requires Initial(s0) && WellFormed(s0.data) && HeapClients(s0.cpus)
    requires forall i :: 0 <= i < |schedule| ==> schedule[i] < |s0.cpus|
    ensures var r := Run(Apply, s0, schedule); r.word == 0 ==> WellFormed(r.data)
  {
    hide Apply, Represents, Effect, Code, Sensible, HeapClients;
    var segs :| Represents(s0.data, segs);
    var ops := HeapIsSerializable(s0, segs, schedule);
  }

  // ----- The lock is needed

  /** The heap as `heap_init` leaves it. */
  function FirstState(m: Words, regs: Registers): HeapState {
    HeapState(FirstStores(m), HEAP_BASE, HEAP_BASE + INITIAL_PAGES * PAGE, regs)
  }

  lemma FirstWellFormed(m: Words, regs: Registers)
    ensures Represents(FirstState(m, regs), [FirstSegment()])
  {
    FirstHeader(m);
  }

  lemma {:induction false} SplitsPrefix(k: nat, n: nat)
    requires k <= n
    ensures Splits(k) <= Splits(n)
    decreases n
  {
    if k < n { SplitsPrefix(k, n - 1); }
  }

  /** A round of `kmalloc` up to the store to `next` in `_heap_split`. */
  function HalfCode(): seq<Action> { SearchCode(16, 1) + Splits(5) }

  lemma HalfIsPrefix()
    ensures HalfCode() <= Code(Malloc(16, 1))
  {
    hide Splits, SearchCode, GrowCode;
    SplitsPrefix(5, 10);
    PrefixInside(SearchCode(16, 1), Splits(5), Splits(10), [TakeIt], GrowCode(16));
  }

  lemma PrefixInside<T>(a: seq<T>, b: seq<T>, c: seq<T>, x: seq<T>, y: seq<T>)
    requires b <= c
    ensures a + b <= a + (c + x + y)
  {}

  /** In a well-formed list the first header's `next` is null or where the segment ends. */
  lemma FirstNext(d: HeapState, s: seq<Seg>)
    requires Represents(d, s)
    ensures var h := HeaderAt(d.words, HEAP_BASE); h.next == 0 || h.next == HEAP_BASE + HEADER + h.size
  {
    hide HeaderAt, Linkage, Coalesced;
    FirstFacts(d.words, s, d.top, HEAP_BASE, d.last);
    NextFacts(d.words, s, d.top, HEAP_BASE, d.last, 0);
  }

  /** After these stores it is neither. */
  lemma HalfSplitBreaks(m: Words, regs: Registers)
    ensures !WellFormed(Do(FirstState(m, regs), HalfCode()))
  {
    hide HeaderAt, Represents, HalfCode, Do, FirstState;
    var d := Do(FirstState(m, regs), HalfCode());
    HalfSplitWords(m, regs);
    forall s | Represents(d, s) ensures false {
      FirstNext(d, s);
    }
  }

  lemma HalfSplitWords(m: Words, regs: Registers)
    ensures var d := Do(FirstState(m, regs), HalfCode());
            HeaderAt(d.words, HEAP_BASE).next == HEAP_BASE + HEADER + 16 && HeaderAt(d.words, HEAP_BASE).size > 16
  {
    hide Do, Splits, HeaderAt, FirstStores, DoSplit, DoVisit, Growth;
    var d0 := FirstState(m, regs);
    var d1 := Apply(d0, BeginMalloc(16));
    var d2 := DoVisit(d1);
    DoBoth(d0, SearchCode(16, 1), Splits(5));
    DoFirst(d0, BeginMalloc(16), Times(Visit, 1));
    assert Times(Visit, 1) == [Visit];
    DoOne(d1, Visit);
    FourSplits(d2);
    DoLast(d2, Splits(4), SplitStep(4));
    assert Splits(5) == Splits(4) + [SplitStep(4)] by { SplitsAfter(4); }
    FirstVisit(m, regs);
    HalfSplitStores(d2, m);
  }

  lemma FirstVisit(m: Words, regs: Registers)
    ensures var d := DoVisit(Apply(FirstState(m, regs), BeginMalloc(16)));
            && d.words == FirstStores(m) && d.regs.mode == Splitting
            && d.regs.seg == HEAP_BASE && d.regs.next == HEAP_BASE + HEADER + 16
  {
    FirstHeaderFields(m);
    hide FirstStores, HeaderAt;
  }

  lemma FirstHeaderFields(m: Words)
    ensures var h := HeaderAt(FirstStores(m), HEAP_BASE); h.used == 0 && h.next == 0 && h.size == INITIAL_PAGES * PAGE - HEADER
  {}

  lemma HalfSplitStores(d: HeapState, m: Words)
    requires d.words == FirstStores(m) && d.regs.mode == Splitting
    requires d.regs.seg == HEAP_BASE && d.regs.next == HEAP_BASE + HEADER + 16
    ensures var e := DoSplit(DoSplit(DoSplit(DoSplit(DoSplit(d, 0), 1), 2), 3), 4);
            HeaderAt(e.words, HEAP_BASE).next == HEAP_BASE + HEADER + 16 && HeaderAt(e.words, HEAP_BASE).size > 16
  {
    FirstHeaderFields(m);
    hide FirstStores;
  }

  lemma SplitsAfter(n: nat)
    ensures Splits(n + 1) == Splits(n) + [SplitStep(n)]
  {}

  /** A CPU that runs alone inside its section executes it. */
  lemma {:induction false} InsideRuns(s: State<HeapState, Action>, c: nat, front: seq<Action>, rest: seq<Action>)
    requires c < |s.cpus| && s.cpus[c].pc == Inside && s.cpus[c].section == front + rest
    ensures var r := Run(Apply, s, seq(|front|, i => c)); r.word == s.word && r.data == Do(s.data, front)
    decreases |front|
  {
    hide Apply;
    var schedule := seq(|front|, i => c);
    if front != [] {
      assert (front + rest)[1..] == front[1..] + rest;
      assert schedule[1..] == seq(|front[1..]|, i => c);
      InsideRuns(Step(Apply, s, c), c, front[1..], rest);
    }
  }

  /** A CPU that takes the clear lock for its next section. */
  lemma TakesLock(s: State<HeapState, Action>, c: nat)
    requires c < |s.cpus| && s.word == 0 && s.cpus[c].pc == Idle && s.cpus[c].todo != []
    ensures var r := Run(Apply, s, [c, c]);
            && r.word == 1 && r.data == s.data && |r.cpus| == |s.cpus|
            && r.cpus[c].pc == Inside && r.cpus[c].section == s.cpus[c].todo[0]
  {
    hide Apply;
    var s1 := Step(Apply, s, c);
    assert [c, c][1..] == [c] && [c][1..] == [];
    assert Run(Apply, s, [c, c]) == Run(Apply, s1, [c]);
  }

  /** One CPU that allocates 16 bytes from a fresh heap, whatever the others have to do, comes
      through a state in which the lock is set and the list is broken. */
  lemma BrokenWhileHeld(s0: State<HeapState, Action>, c: nat, m: Words, regs: Registers) returns (schedule: seq<nat>)
    requires Initial(s0) && s0.data == FirstState(m, regs) && HeapClients(s0.cpus)
    requires c < |s0.cpus| && s0.cpus[c].todo != [] && s0.cpus[c].todo[0] == Code(Malloc(16, 1))
    ensures WellFormed(s0.data) && forall i :: 0 <= i < |schedule| ==> schedule[i] < |s0.cpus|
    ensures var r := Run(Apply, s0, schedule); r.word == 1 && !WellFormed(r.data)
  {
    hide Apply, Code, HalfCode, Do, Represents, FirstState, HeapClients;
    FirstWellFormed(m, regs);
    HalfIsPrefix();
    HalfSplitBreaks(m, regs);
    TakesLock(s0, c);
    var half := HalfCode();
    var s1 := Run(Apply, s0, [c, c]);
    InsideRuns(s1, c, half, Code(Malloc(16, 1))[|half|..]);
    var rest := seq(|half|, i => c);
    schedule := [c, c] + rest;
    RunConcat(Apply, s0, [c, c], rest);
  }
}
