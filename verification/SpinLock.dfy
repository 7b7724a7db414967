/** The spinlock as a step-level protocol of any number of CPUs, and what it buys the data
    it guards: every interleaving is equivalent to running the critical sections one after
    the other, in the order in which the lock was taken. */
module SpinLocks {

  /** Where a CPU is: outside, about to execute the locked bit test-and-set, in the loop that
      pauses and tests, or between the return of `spinlock` and its `spinunlock`. */
  datatype Pc = Idle | Try | Pause | Inside

  /** A CPU with the rest of its current critical section, step by step, and the sections it
      has still to run. */
  datatype Cpu<A> = Cpu(pc: Pc, section: seq<A>, todo: seq<seq<A>>)

  /** The lock word, the guarded data, the CPUs, and the history of acquisitions. */
  datatype State<D, A> = State(word: int, data: D, cpus: seq<Cpu<A>>, log: seq<(nat, seq<A>)>)

  /** Run the steps of one section without interruption. */
  function Perform<D, A>(apply: (D, A) -> D, d: D, section: seq<A>): D {
    if section == [] then d else Perform(apply, apply(d, section[0]), section[1..])
  }

  /** Run whole sections, one after the other. */
  function Serial<D, A>(apply: (D, A) -> D, d: D, log: seq<(nat, seq<A>)>): D {
    if log == [] then d
    else Perform(apply, Serial(apply, d, log[..|log| - 1]), log[|log| - 1].1)
  }

  /** One instruction of CPU `c`. */
  function Step<D, A>(apply: (D, A) -> D, s: State<D, A>, c: nat): State<D, A>
    requires c < |s.cpus|
  {
    var p := s.cpus[c];
    match p.pc
    case Idle =>
      if p.todo == [] then s
      else s.(cpus := s.cpus[c := Cpu(Try, p.todo[0], p.todo[1..])])
    case Try =>  // lock bts [rdi], 0: the carry is the old bit
      if s.word % 2 == 1 then s.(cpus := s.cpus[c := p.(pc := Pause)])
      else State(s.word + 1, s.data, s.cpus[c := p.(pc := Inside)], s.log + [(c, p.section)])
    case Pause =>  // test [rdi], 1
      if s.word % 2 == 1 then s else s.(cpus := s.cpus[c := p.(pc := Try)])
    case Inside =>
      if p.section == [] then s.(word := 0, cpus := s.cpus[c := p.(pc := Idle)])  // mov [rdi], 0
      else s.(data := apply(s.data, p.section[0]), cpus := s.cpus[c := p.(section := p.section[1..])])
  }

  /** Let the CPUs of `schedule` execute one instruction each, in that order. */
  function Run<D, A>(apply: (D, A) -> D, s: State<D, A>, schedule: seq<nat>): (r: State<D, A>)
    requires forall i :: 0 <= i < |schedule| ==> schedule[i] < |s.cpus|
    ensures |r.cpus| == |s.cpus|
    decreases |schedule|
  {
    if schedule == [] then s
    else Run(apply, Step(apply, s, schedule[0]), schedule[1..])
  }

  ghost predicate Initial<D, A>(s: State<D, A>) {
    s.word == 0 && s.log == [] && forall c :: 0 <= c < |s.cpus| ==> s.cpus[c].pc == Idle
  }

  /** The sections CPU `c` has acquired the lock for, in order. */
  function Acquired<A>(log: seq<(nat, seq<A>)>, c: nat): seq<seq<A>> {
    if log == [] then []
    else Acquired(log[..|log| - 1], c) + (if log[|log| - 1].0 == c then [log[|log| - 1].1] else [])
  }

  /** What CPU `c` has not acquired the lock for yet. */
  function Pending<A>(p: Cpu<A>): seq<seq<A>> {
    (if p.pc == Try || p.pc == Pause then [p.section] else []) + p.todo
  }

  /** The holder `h` has done the part of its section that its program counter has passed. */
  ghost predicate Midway<D, A>(apply: (D, A) -> D, s0: State<D, A>, s: State<D, A>, h: nat, done: seq<A>) {
    && h < |s.cpus| && s.log != []
    && s.log[|s.log| - 1] == (h, done + s.cpus[h].section)
    && s.data == Perform(apply, Serial(apply, s0.data, s.log[..|s.log| - 1]), done)
  }

  /** What holds in every state reached from `s0`. */
  ghost predicate Good<D(!new), A(!new)>(apply: (D, A) -> D, s0: State<D, A>, s: State<D, A>) {
    && |s.cpus| == |s0.cpus|
    && (s.word == 0 || s.word == 1)
    && (forall b, c :: 0 <= b < c < |s.cpus| ==> !(s.cpus[b].pc == Inside && s.cpus[c].pc == Inside))
    && (forall c :: 0 <= c < |s.cpus| && s.cpus[c].pc == Inside ==> s.word == 1 && exists done :: Midway(apply, s0, s, c, done))
    && (s.word == 1 ==> exists c :: 0 <= c < |s.cpus| && s.cpus[c].pc == Inside)
    && (s.word == 0 ==> s.data == Serial(apply, s0.data, s.log))
    && (forall c :: 0 <= c < |s.cpus| ==> Acquired(s.log, c) + Pending(s.cpus[c]) == s0.cpus[c].todo)
  }

  lemma {:induction false} PerformConcat<D, A>(apply: (D, A) -> D, d: D, a: seq<A>, b: seq<A>)
    ensures Perform(apply, d, a + b) == Perform(apply, Perform(apply, d, a), b)
  {
    if a == [] {
      assert a + b == b;
    } else {
      assert (a + b)[1..] == a[1..] + b;
      PerformConcat(apply, apply(d, a[0]), a[1..], b);
    }
  }

  lemma AcquiredExtends<A>(log: seq<(nat, seq<A>)>, c: nat, section: seq<A>, b: nat)
    ensures Acquired(log + [(c, section)], b) == Acquired(log, b) + (if b == c then [section] else [])
  {}

  lemma StepKeepsGood<D(!new), A(!new)>(apply: (D, A) -> D, s0: State<D, A>, s: State<D, A>, c: nat)
    requires Good(apply, s0, s) && c < |s.cpus|
    ensures Good(apply, s0, Step(apply, s, c))
  {
    var p, t := s.cpus[c], Step(apply, s, c);
    match p.pc {
      case Idle =>
        IdleStep(apply, s0, s, c);
      case Try =>
        if s.word == 0 { AcquireStep(apply, s0, s, c); } else { WaitStep(apply, s0, s, t, c, Pause); }
      case Pause =>
        if s.word == 0 { WaitStep(apply, s0, s, t, c, Try); }
      case Inside =>
        if p.section == [] { ReleaseStep(apply, s0, s, c); } else { WorkStep(apply, s0, s, c); }
    }
  }

  /** A step of `c` that touches neither lock, data nor log leaves the others' facts alone. */
  lemma OthersKeep<D(!new), A(!new)>(apply: (D, A) -> D, s0: State<D, A>, s: State<D, A>, t: State<D, A>, c: nat)
    requires Good(apply, s0, s) && c < |s.cpus| && s.cpus[c].pc != Inside
    requires |t.cpus| == |s.cpus| && t == s.(cpus := s.cpus[c := t.cpus[c]]) && t.cpus[c].pc != Inside
    requires Pending(t.cpus[c]) == Pending(s.cpus[c])
    ensures Good(apply, s0, t)
  {
    forall b | 0 <= b < |t.cpus| && t.cpus[b].pc == Inside ensures exists done :: Midway(apply, s0, t, b, done) {
      var done :| Midway(apply, s0, s, b, done);
      assert Midway(apply, s0, t, b, done);
    }
    if s.word == 1 {
      var h :| 0 <= h < |s.cpus| && s.cpus[h].pc == Inside;
      assert t.cpus[h].pc == Inside;
    }
  }

  lemma IdleStep<D(!new), A(!new)>(apply: (D, A) -> D, s0: State<D, A>, s: State<D, A>, c: nat)
    requires Good(apply, s0, s) && c < |s.cpus| && s.cpus[c].pc == Idle
    ensures Good(apply, s0, Step(apply, s, c))
  {
    var p := s.cpus[c];
    if p.todo != [] {
      assert [p.todo[0]] + p.todo[1..] == p.todo;
      OthersKeep(apply, s0, s, Step(apply, s, c), c);
    }
  }

  lemma WaitStep<D(!new), A(!new)>(apply: (D, A) -> D, s0: State<D, A>, s: State<D, A>, t: State<D, A>, c: nat, pc: Pc)
    requires Good(apply, s0, s) && c < |s.cpus| && s.cpus[c].pc in {Try, Pause} && pc in {Try, Pause}
    requires t == s.(cpus := s.cpus[c := s.cpus[c].(pc := pc)])
    ensures Good(apply, s0, t)
  {
    OthersKeep(apply, s0, s, t, c);
  }

  lemma AcquireStep<D(!new), A(!new)>(apply: (D, A) -> D, s0: State<D, A>, s: State<D, A>, c: nat)
    requires Good(apply, s0, s) && c < |s.cpus| && s.cpus[c].pc == Try && s.word == 0
    ensures Good(apply, s0, Step(apply, s, c))
  {
    var p, t := s.cpus[c], Step(apply, s, c);
    assert t.log[..|t.log| - 1] == s.log && [] + p.section == p.section;
    assert Midway(apply, s0, t, c, []);
    forall b | 0 <= b < |t.cpus| ensures Acquired(t.log, b) + Pending(t.cpus[b]) == s0.cpus[b].todo {
      AcquiredExtends(s.log, c, p.section, b);
      assert Acquired(s.log, b) + Pending(s.cpus[b]) == s0.cpus[b].todo;
    }
    assert t.cpus[c].pc == Inside;
  }

  lemma WorkStep<D(!new), A(!new)>(apply: (D, A) -> D, s0: State<D, A>, s: State<D, A>, c: nat)
    requires Good(apply, s0, s) && c < |s.cpus| && s.cpus[c].pc == Inside && s.cpus[c].section != []
    ensures Good(apply, s0, Step(apply, s, c))
  {
    var p, t := s.cpus[c], Step(apply, s, c);
    var done :| Midway(apply, s0, s, c, done);
    var a := p.section[0];
    assert done + p.section == (done + [a]) + p.section[1..];
    PerformConcat(apply, Serial(apply, s0.data, s.log[..|s.log| - 1]), done, [a]);
    assert [a][1..] == [];
    assert Midway(apply, s0, t, c, done + [a]);
    forall b | 0 <= b < |t.cpus| ensures Acquired(t.log, b) + Pending(t.cpus[b]) == s0.cpus[b].todo {
      assert Acquired(s.log, b) + Pending(s.cpus[b]) == s0.cpus[b].todo;
    }
    forall b | 0 <= b < |t.cpus| && b != c ensures t.cpus[b].pc != Inside {
      assert s.cpus[if b < c then b else c].pc != Inside || s.cpus[if b < c then c else b].pc != Inside;
    }
  }

  lemma ReleaseStep<D(!new), A(!new)>(apply: (D, A) -> D, s0: State<D, A>, s: State<D, A>, c: nat)
    requires Good(apply, s0, s) && c < |s.cpus| && s.cpus[c].pc == Inside && s.cpus[c].section == []
    ensures Good(apply, s0, Step(apply, s, c))
  {
    var t := Step(apply, s, c);
    var done :| Midway(apply, s0, s, c, done);
    assert done + s.cpus[c].section == done;
    forall b | 0 <= b < |t.cpus| ensures Acquired(t.log, b) + Pending(t.cpus[b]) == s0.cpus[b].todo {
      assert Acquired(s.log, b) + Pending(s.cpus[b]) == s0.cpus[b].todo;
    }
    forall b | 0 <= b < |t.cpus| ensures t.cpus[b].pc != Inside {
      assert b != c ==> s.cpus[if b < c then b else c].pc != Inside || s.cpus[if b < c then c else b].pc != Inside;
    }
  }

  lemma {:induction false} RunKeepsGood<D(!new), A(!new)>(apply: (D, A) -> D, s0: State<D, A>, s: State<D, A>, schedule: seq<nat>)
    requires Good(apply, s0, s) && forall i :: 0 <= i < |schedule| ==> schedule[i] < |s.cpus|
    ensures Good(apply, s0, Run(apply, s, schedule))
    decreases |schedule|
  {
    if schedule != [] {
      StepKeepsGood(apply, s0, s, schedule[0]);
      RunKeepsGood(apply, s0, Step(apply, s, schedule[0]), schedule[1..]);
    }
  }

  lemma InitialIsGood<D(!new), A(!new)>(apply: (D, A) -> D, s0: State<D, A>)
    requires Initial(s0)
    ensures Good(apply, s0, s0)
  {
  }

  /** In every reachable state at most one CPU holds the lock, and its word is set exactly
      while one does. */
  lemma MutualExclusion<D(!new), A(!new)>(apply: (D, A) -> D, s0: State<D, A>, schedule: seq<nat>)
    requires Initial(s0) && forall i :: 0 <= i < |schedule| ==> schedule[i] < |s0.cpus|
    ensures var s := Run(apply, s0, schedule);
            && (forall b, c :: 0 <= b < c < |s.cpus| ==> !(s.cpus[b].pc == Inside && s.cpus[c].pc == Inside))
            && (s.word == 0 || s.word == 1)
            && (s.word == 1 <==> exists c :: 0 <= c < |s.cpus| && s.cpus[c].pc == Inside)
  {
    InitialIsGood(apply, s0);
    RunKeepsGood(apply, s0, s0, schedule);
  }

  /** Whenever the lock is clear, the data is what the sections give when run one by one in
      the order of the log, which takes each CPU's sections in its own order. */
  lemma Serializable<D(!new), A(!new)>(apply: (D, A) -> D, s0: State<D, A>, schedule: seq<nat>)
    requires Initial(s0) && forall i :: 0 <= i < |schedule| ==> schedule[i] < |s0.cpus|
    ensures var s := Run(apply, s0, schedule);
            && (s.word == 0 ==> s.data == Serial(apply, s0.data, s.log))
            && forall c :: 0 <= c < |s.cpus| ==> Acquired(s.log, c) + Pending(s.cpus[c]) == s0.cpus[c].todo
  {
    InitialIsGood(apply, s0);
    RunKeepsGood(apply, s0, s0, schedule);
  }

  /** Every section of `s0` preserves `inv` when it runs alone. */
  ghost predicate SectionsPreserve<D(!new), A(!new)>(apply: (D, A) -> D, s0: State<D, A>, inv: D -> bool) {
    forall c, k, d :: 0 <= c < |s0.cpus| && 0 <= k < |s0.cpus[c].todo| && inv(d) ==>
      inv(Perform(apply, d, s0.cpus[c].todo[k]))
  }

  lemma {:induction false} SerialPreserves<D(!new), A(!new)>(apply: (D, A) -> D, s0: State<D, A>, inv: D -> bool, log: seq<(nat, seq<A>)>)
    requires inv(s0.data) && SectionsPreserve(apply, s0, inv)
    requires forall i :: 0 <= i < |log| ==> log[i].0 < |s0.cpus| && log[i].1 in s0.cpus[log[i].0].todo
    ensures inv(Serial(apply, s0.data, log))
  {
    if log != [] {
      var rest, e := log[..|log| - 1], log[|log| - 1];
      SerialPreserves(apply, s0, inv, rest);
      var k :| 0 <= k < |s0.cpus[e.0].todo| && s0.cpus[e.0].todo[k] == e.1;
      assert inv(Perform(apply, Serial(apply, s0.data, rest), s0.cpus[e.0].todo[k]));
    }
  }

  lemma {:induction false} LoggedIsAcquired<A>(log: seq<(nat, seq<A>)>, i: nat)
    requires i < |log|
    ensures log[i].1 in Acquired(log, log[i].0)
  {
    if i < |log| - 1 {
      assert log[..|log| - 1][i] == log[i];
      LoggedIsAcquired(log[..|log| - 1], i);
    }
  }

  ghost predicate InRange<A>(log: seq<(nat, seq<A>)>, n: nat) {
    forall i :: 0 <= i < |log| ==> log[i].0 < n
  }

  lemma StepLogInRange<D, A>(apply: (D, A) -> D, s: State<D, A>, c: nat)
    requires c < |s.cpus| && InRange(s.log, |s.cpus|)
    ensures InRange(Step(apply, s, c).log, |s.cpus|)
  {}

  /** The log names existing CPUs only. */
  lemma {:induction false} LogInRange<D, A>(apply: (D, A) -> D, s: State<D, A>, schedule: seq<nat>)
    requires forall i :: 0 <= i < |schedule| ==> schedule[i] < |s.cpus|
    requires InRange(s.log, |s.cpus|)
    ensures InRange(Run(apply, s, schedule).log, |s.cpus|)
    decreases |schedule|
  {
    if schedule != [] {
      StepLogInRange(apply, s, schedule[0]);
      LogInRange(apply, Step(apply, s, schedule[0]), schedule[1..]);
    }
  }

  /** So an invariant that every critical section preserves when it runs alone holds whenever
      the lock is clear, for any number of CPUs and any interleaving. */
  lemma InvariantWhenClear<D(!new), A(!new)>(apply: (D, A) -> D, s0: State<D, A>, inv: D -> bool, schedule: seq<nat>)
    requires Initial(s0) && forall i :: 0 <= i < |schedule| ==> schedule[i] < |s0.cpus|
    requires inv(s0.data) && SectionsPreserve(apply, s0, inv)
    ensures var s := Run(apply, s0, schedule); s.word == 0 ==> inv(s.data)
  {
    var s := Run(apply, s0, schedule);
    Serializable(apply, s0, schedule);
    LogInRange(apply, s0, schedule);
    assert InRange(s.log, |s0.cpus|);
    forall i | 0 <= i < |s.log| ensures s.log[i].1 in s0.cpus[s.log[i].0].todo {
      LoggedIsAcquired(s.log, i);
      var c := s.log[i].0;
      var k :| 0 <= k < |Acquired(s.log, c)| && Acquired(s.log, c)[k] == s.log[i].1;
      assert s0.cpus[c].todo[k] == s.log[i].1;
    }
    SerialPreserves(apply, s0, inv, s.log);
  }

  // ----- No deadlock

  /** A bound on the instructions CPU `p` needs when nobody holds the lock against it. */
  function Work<A>(p: Cpu<A>): nat {
    Weight(p.todo) + (match p.pc case Idle => 0 case Try => |p.section| + 2 case Pause => |p.section| + 3 case Inside => |p.section| + 1)
  }

  function Weight<A>(todo: seq<seq<A>>): nat {
    if todo == [] then 0 else |todo[0]| + 3 + Weight(todo[1..])
  }

  ghost predicate Finished<A>(p: Cpu<A>) { p.pc == Idle && p.todo == [] }

  /** The lock is clear, or `c` holds it. */
  ghost predicate Free<D, A>(s: State<D, A>, c: nat) {
    && c < |s.cpus|
    && (s.word == 0 || s.word == 1)
    && (s.word == 1 <==> s.cpus[c].pc == Inside)
    && forall b :: 0 <= b < |s.cpus| && b != c ==> s.cpus[b].pc != Inside
  }

  /** Left alone, `c` runs all its sections to the end. */
  lemma {:induction false} FinishAlone<D(!new), A(!new)>(apply: (D, A) -> D, s: State<D, A>, c: nat) returns (schedule: seq<nat>)
    requires Free(s, c)
    ensures forall i :: 0 <= i < |schedule| ==> schedule[i] < |s.cpus|
    ensures var r := Run(apply, s, schedule);
            r.word == 0 && Finished(r.cpus[c]) && forall b :: 0 <= b < |s.cpus| && b != c ==> r.cpus[b] == s.cpus[b]
    decreases Work(s.cpus[c])
  {
    if Finished(s.cpus[c]) {
      schedule := [];
    } else {
      var t := Step(apply, s, c);
      var rest := FinishAlone(apply, t, c);
      schedule := [c] + rest;
      assert schedule[1..] == rest;
    }
  }

  lemma {:induction false} RunConcat<D, A>(apply: (D, A) -> D, s: State<D, A>, a: seq<nat>, b: seq<nat>)
    requires forall i :: 0 <= i < |a| ==> a[i] < |s.cpus|
    requires forall i :: 0 <= i < |b| ==> b[i] < |s.cpus|
    ensures forall i :: 0 <= i < |a + b| ==> (a + b)[i] < |s.cpus|
    ensures Run(apply, s, a + b) == Run(apply, Run(apply, s, a), b)
    decreases |a|
  {
    if a == [] {
      assert a + b == b;
    } else {
      assert (a + b)[1..] == a[1..] + b;
      RunConcat(apply, Step(apply, s, a[0]), a[1..], b);
    }
  }

  lemma {:induction false} FinishFrom<D(!new), A(!new)>(apply: (D, A) -> D, s: State<D, A>, c: nat) returns (schedule: seq<nat>)
    requires c <= |s.cpus| && s.word == 0
    requires forall b :: 0 <= b < |s.cpus| ==> s.cpus[b].pc != Inside
    requires forall b :: 0 <= b < c ==> Finished(s.cpus[b])
    ensures forall i :: 0 <= i < |schedule| ==> schedule[i] < |s.cpus|
    ensures forall b :: 0 <= b < |s.cpus| ==> Finished(Run(apply, s, schedule).cpus[b])
    decreases |s.cpus| - c
  {
    if c == |s.cpus| {
      schedule := [];
    } else {
      var first := FinishAlone(apply, s, c);
      var rest := FinishFrom(apply, Run(apply, s, first), c + 1);
      RunConcat(apply, s, first, rest);
      schedule := first + rest;
    }
  }

  /** From every reachable state all CPUs can still run to the end: the lock never gets stuck. */
  lemma NoDeadlock<D(!new), A(!new)>(apply: (D, A) -> D, s0: State<D, A>, schedule: seq<nat>) returns (more: seq<nat>)
    requires Initial(s0) && forall i :: 0 <= i < |schedule| ==> schedule[i] < |s0.cpus|
    ensures forall i :: 0 <= i < |more| ==> more[i] < |s0.cpus|
    ensures var s := Run(apply, Run(apply, s0, schedule), more); forall c :: 0 <= c < |s.cpus| ==> Finished(s.cpus[c])
  {
    MutualExclusion(apply, s0, schedule);
    var s := Run(apply, s0, schedule);
    if s.word == 0 {
      more := FinishFrom(apply, s, 0);
    } else {
      var h :| 0 <= h < |s.cpus| && s.cpus[h].pc == Inside;
      forall b | 0 <= b < |s.cpus| && b != h ensures s.cpus[b].pc != Inside {
        assert s.cpus[if b < h then b else h].pc != Inside || s.cpus[if b < h then h else b].pc != Inside;
      }
      var first := FinishAlone(apply, s, h);
      var rest := FinishFrom(apply, Run(apply, s, first), 0);
      RunConcat(apply, s, first, rest);
      more := first + rest;
    }
  }
}
