/** Threads that lock and unlock one mutex, in any interleaving. */
module VcosLock {
  import opened VcosMutex

  /** mutex_trylock calls mutex_lock, so both go through the same loop. */
  datatype Op = Lock | TryLock

  datatype Phase = Outside | Locking(op: Op) | Inside

  datatype State = State(m: Mutex, phase: map<Thread, Phase>)

  ghost function InsideSet(s: State): set<Thread> {
    set t | t in s.phase && s.phase[t] == Inside
  }

  /** Thread t runs to its next scheduling point; a thread outside calls op. */
  function Step(s: State, t: Thread, op: Op): State {
    if t !in s.phase then s
    else match s.phase[t]
      case Outside => s.(phase := s.phase[t := Locking(op)])
      case Locking(_) =>
        if MayEnter(s.m, t) then State(Claimed(t), s.phase[t := Inside]) else s
      case Inside => State(Released(s.m), s.phase[t := Outside])
  }

  function Run(s: State, schedule: seq<(Thread, Op)>): State
    decreases |schedule|
  {
    if schedule == [] then s else Run(Step(s, schedule[0].0, schedule[0].1), schedule[1..])
  }

  ghost predicate Initial(s: State) {
    && s.m == InitMutex(s.m)
    && forall t :: t in s.phase ==> s.phase[t] == Outside
  }

  lemma StepGuards(s: State, t: Thread, op: Op)
    requires Guards(s.m, InsideSet(s))
    ensures Guards(Step(s, t, op).m, InsideSet(Step(s, t, op)))
  {
    var s' := Step(s, t, op);
    if t in s.phase {
      match s.phase[t]
      case Outside => assert InsideSet(s') == InsideSet(s);
      case Locking(_) =>
        Entering(s.m, InsideSet(s), t);
        if MayEnter(s.m, t) { assert InsideSet(s') == {t}; }
      case Inside =>
        Leaving(s.m, InsideSet(s), t);
        assert InsideSet(s') == InsideSet(s) - {t};
    }
  }

  lemma {:induction false} RunGuards(s: State, schedule: seq<(Thread, Op)>)
    requires Guards(s.m, InsideSet(s))
    ensures Guards(Run(s, schedule).m, InsideSet(Run(s, schedule)))
    decreases |schedule|
  {
    if schedule != [] {
      StepGuards(s, schedule[0].0, schedule[0].1);
      RunGuards(Step(s, schedule[0].0, schedule[0].1), schedule[1..]);
    }
  }

  /** In every interleaving at most one thread is inside, a claimed mutex names
      its holder, and a thread is kept waiting only while another is inside. */
  lemma MutualExclusion(s: State, schedule: seq<(Thread, Op)>, a: Thread, b: Thread)
    requires Initial(s)
    ensures
      var r := Run(s, schedule);
      && (a in InsideSet(r) && b in InsideSet(r) ==> a == b)
      && (r.m.pollword == 0 <==> r.m.rtHandle in InsideSet(r))
      && (a in r.phase && r.phase[a].Locking? ==> (MayEnter(r.m, a) <==> InsideSet(r) == {}))
  {
    assert InsideSet(s) == {};
    RunGuards(s, schedule);
    var r := Run(s, schedule);
    if r.m.pollword == 0 {
      var h :| h in InsideSet(r);
    }
    if a in r.phase && r.phase[a].Locking? {
      Entering(r.m, InsideSet(r), a);
    }
  }

  /** In every interleaving the first step of a try, like that of a lock, returns
      with the mutex if and only if nobody is inside; otherwise it goes on waiting. */
  lemma TryReturns(s: State, schedule: seq<(Thread, Op)>, t: Thread, op: Op)
    requires Initial(s)
    ensures
      var r := Run(s, schedule);
      t in r.phase && r.phase[t].Locking? ==>
        && (Step(r, t, op).phase[t] == Inside <==> InsideSet(r) == {})
        && (InsideSet(r) == {} ==> InsideSet(Step(r, t, op)) == {t})
        && (InsideSet(r) != {} ==> Step(r, t, op) == r)
  {
    MutualExclusion(s, schedule, t, t);
  }

  /** The step of a thread inside lets it out and leaves nobody inside, and a
      thread outside that runs alone comes in at its second step. */
  lemma InAndOut(s: State, schedule: seq<(Thread, Op)>, t: Thread, op: Op)
    requires Initial(s)
    ensures
      var r := Run(s, schedule);
      && (t in InsideSet(r) ==> InsideSet(Step(r, t, op)) == {} && Step(r, t, op).phase[t] == Outside)
      && (t in r.phase && r.phase[t] == Outside && InsideSet(r) == {} ==>
            InsideSet(Step(Step(r, t, op), t, op)) == {t})
  {
    assert InsideSet(s) == {};
    RunGuards(s, schedule);
    var r := Run(s, schedule);
    if t in InsideSet(r) {
      Leaving(r.m, InsideSet(r), t);
      assert InsideSet(Step(r, t, op)) == InsideSet(r) - {t};
    }
    if t in r.phase && r.phase[t] == Outside && InsideSet(r) == {} {
      Entering(r.m, InsideSet(r), t);
    }
  }

  /** A try made while another thread is inside does not return, whatever runs,
      until that thread has run. */
  lemma {:induction false} TryBlocks(s: State, schedule: seq<(Thread, Op)>, holder: Thread, t: Thread)
    requires Guards(s.m, InsideSet(s)) && holder in InsideSet(s)
    requires t in s.phase && s.phase[t] == Locking(TryLock)
    requires forall k :: 0 <= k < |schedule| ==> schedule[k].0 != holder
    ensures var r := Run(s, schedule); t in r.phase && r.phase[t] == Locking(TryLock) && holder in InsideSet(r)
    decreases |schedule|
  {
    if schedule != [] {
      var u, s' := schedule[0].0, Step(s, schedule[0].0, schedule[0].1);
      StepGuards(s, u, schedule[0].1);
      if u in s.phase && s.phase[u].Locking? {
        Entering(s.m, InsideSet(s), u);
      }
      assert u !in InsideSet(s) by {
        if u in InsideSet(s) { AtMostOne(s.m, InsideSet(s), u, holder); }
      }
      assert holder in InsideSet(s');
      TryBlocks(s', schedule[1..], holder, t);
    }
  }

  /** Such a try exists: thread 0 locks, then thread 1 tries. */
  lemma TryWaitsExample()
    ensures
      var s := State(Mutex(1, 0), map[0 := Outside, 1 := Outside]);
      var r := Run(s, [(0, Lock), (0, Lock), (1, TryLock)]);
      Initial(s) && InsideSet(r) == {0} && r.phase[1] == Locking(TryLock)
  {
    var s := State(Mutex(1, 0), map[0 := Outside, 1 := Outside]);
    var schedule := [(0, Lock), (0, Lock), (1, TryLock)];
    var s1 := Step(s, 0, Lock);
    var s2 := Step(s1, 0, Lock);
    var s3 := Step(s2, 1, TryLock);
    assert schedule[1..] == [(0, Lock), (1, TryLock)] && schedule[1..][1..] == [(1, TryLock)];
    assert Run(s2, [(1, TryLock)]) == s3;
  }
}
