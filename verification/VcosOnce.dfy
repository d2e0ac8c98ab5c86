/** kthread_once: any number of once controls behind one mutex. */
module VcosOnce {
  import opened VcosMutex

  type Control = nat

  /** Where a thread stands in kthread_once(c, ctor). */
  datatype Phase =
    | Idle
    | Locking(c: Control)
    | Testing(c: Control)
    | Constructing(c: Control)
    | Marking(c: Control)
    | Unlocking(c: Control)

  /** The mutex, the once words, and for the record: constructor starts,
      finished constructors and the controls some call has returned 0 for. */
  datatype State = State(
    m: Mutex, once: map<Control, nat>, phase: map<Thread, Phase>,
    starts: map<Control, nat>, finished: set<Control>, returned: set<Control>)

  predicate Holding(p: Phase) {
    !p.Idle? && !p.Locking?
  }

  ghost function InsideSet(s: State): set<Thread> {
    set t | t in s.phase && Holding(s.phase[t])
  }

  function Word(s: State, c: Control): nat { if c in s.once then s.once[c] else 0 }

  function Starts(s: State, c: Control): nat { if c in s.starts then s.starts[c] else 0 }

  function Goto(s: State, t: Thread, p: Phase): State { s.(phase := s.phase[t := p]) }

  /** Thread t runs to its next scheduling point; an idle thread calls for c. */
  function Step(s: State, t: Thread, c: Control): State {
    if t !in s.phase then s
    else match s.phase[t]
      case Idle => Goto(s, t, Locking(c))
      case Locking(c) =>
        if MayEnter(s.m, t) then Goto(s.(m := Claimed(t)), t, Testing(c)) else s
      case Testing(c) =>
        if Word(s, c) == 0 then Goto(s.(starts := s.starts[c := Starts(s, c) + 1]), t, Constructing(c))
        else Goto(s, t, Unlocking(c))
      case Constructing(c) => Goto(s.(finished := s.finished + {c}), t, Marking(c))
      case Marking(c) => Goto(s.(once := s.once[c := 1]), t, Unlocking(c))
      case Unlocking(c) => Goto(s.(m := Released(s.m), returned := s.returned + {c}), t, Idle)
  }

  function Run(s: State, schedule: seq<(Thread, Control)>): State
    decreases |schedule|
  {
    if schedule == [] then s else Run(Step(s, schedule[0].0, schedule[0].1), schedule[1..])
  }

  ghost predicate Initial(s: State) {
    && s.m.pollword == 1
    && s.once == map[] && s.starts == map[] && s.finished == {} && s.returned == {}
    && forall t :: t in s.phase ==> s.phase[t] == Idle
  }

  ghost predicate Busy(s: State, c: Control) {
    exists t :: t in s.phase && (s.phase[t] == Constructing(c) || s.phase[t] == Marking(c))
  }

  ghost predicate Inv(s: State) {
    && Guards(s.m, InsideSet(s))
    && (forall c :: Counted(s, c))
    && (forall t :: t in s.phase && s.phase[t].Marking? ==> s.phase[t].c in s.finished)
    && (forall t :: t in s.phase && s.phase[t].Unlocking? ==> Word(s, s.phase[t].c) != 0)
    && (forall c :: c in s.returned ==> Word(s, c) != 0)
  }

  lemma StepKeepsMutex(s: State, t: Thread, c: Control)
    requires Guards(s.m, InsideSet(s))
    ensures Guards(Step(s, t, c).m, InsideSet(Step(s, t, c)))
  {
    var s' := Step(s, t, c);
    if t in s.phase {
      var p := s.phase[t];
      if p.Locking? {
        Entering(s.m, InsideSet(s), t);
        if MayEnter(s.m, t) { assert InsideSet(s') == {t}; }
      } else if p.Unlocking? {
        Leaving(s.m, InsideSet(s), t);
        assert InsideSet(s') == InsideSet(s) - {t};
      } else {
        assert InsideSet(s') == InsideSet(s);
      }
    }
  }

  /** Only the thread inside the mutex can be busy with a constructor. */
  lemma BusyIsInside(s: State, t: Thread, c: Control)
    requires Guards(s.m, InsideSet(s)) && t in InsideSet(s)
    ensures Busy(s, c) <==> s.phase[t] == Constructing(c) || s.phase[t] == Marking(c)
  {
    if Busy(s, c) {
      var u :| u in s.phase && (s.phase[u] == Constructing(c) || s.phase[u] == Marking(c));
      assert u in InsideSet(s);
      AtMostOne(s.m, InsideSet(s), t, u);
    }
  }

  /** The counting part of the invariant. */
  ghost predicate Counted(s: State, c: Control) {
    && Starts(s, c) == (if Word(s, c) != 0 || Busy(s, c) then 1 else 0)
    && (Word(s, c) != 0 ==> c in s.finished && !Busy(s, c))
  }

  lemma StepKeepsCount(s: State, t: Thread, c: Control, d: Control)
    requires Inv(s) && t in s.phase
    ensures Counted(Step(s, t, c), d)
  {
    assert Counted(s, d);
    BusyAfter(s, t, c, d);
    if t in InsideSet(s) {
      BusyIsInside(s, t, d);
    }
    hide Busy, Guards, MayEnter;
  }

  lemma StepKeepsInv(s: State, t: Thread, c: Control)
    requires Inv(s)
    ensures Inv(Step(s, t, c))
  {
    StepKeepsMutex(s, t, c);
    if t in s.phase {
      forall d ensures Counted(Step(s, t, c), d) {
        StepKeepsCount(s, t, c, d);
      }
      StepKeepsMarks(s, t, c);
    }
  }

  lemma StepKeepsMarks(s: State, t: Thread, c: Control)
    requires Inv(s) && t in s.phase
    ensures
      var s' := Step(s, t, c);
      && (forall u :: u in s'.phase && s'.phase[u].Marking? ==> s'.phase[u].c in s'.finished)
      && (forall u :: u in s'.phase && s'.phase[u].Unlocking? ==> Word(s', s'.phase[u].c) != 0)
      && (forall d :: d in s'.returned ==> Word(s', d) != 0)
  {
    hide Busy, Guards, MayEnter, Starts;
    var s' := Step(s, t, c);
    forall d ensures Word(s, d) != 0 ==> Word(s', d) != 0 {}
  }

  lemma BusyAfter(s: State, t: Thread, c: Control, d: Control)
    requires Guards(s.m, InsideSet(s)) && t in s.phase
    ensures
      var s' := Step(s, t, c);
      Busy(s', d) <==>
        (if s'.phase[t].Constructing? || s'.phase[t].Marking? then s'.phase[t].c == d
         else Busy(s, d) && s.phase[t] != Marking(d))
  {
    var s' := Step(s, t, c);
    StepKeepsMutex(s, t, c);
    if t in InsideSet(s') {
      BusyIsInside(s', t, d);
    }
    if t in InsideSet(s) {
      BusyIsInside(s, t, d);
    }
    if Busy(s, d) {
      var u :| u in s.phase && (s.phase[u] == Constructing(d) || s.phase[u] == Marking(d));
      assert u != t ==> s'.phase[u] == s.phase[u];
    }
    if Busy(s', d) {
      var u :| u in s'.phase && (s'.phase[u] == Constructing(d) || s'.phase[u] == Marking(d));
      assert u != t ==> s'.phase[u] == s.phase[u];
    }
  }

  lemma {:induction false} RunKeepsInv(s: State, schedule: seq<(Thread, Control)>)
    requires Inv(s)
    ensures Inv(Run(s, schedule))
    decreases |schedule|
  {
    if schedule != [] {
      StepKeepsInv(s, schedule[0].0, schedule[0].1);
      RunKeepsInv(Step(s, schedule[0].0, schedule[0].1), schedule[1..]);
    }
  }

  /** In every interleaving a constructor is started at most once, and no call
      has returned success for a control whose constructor has not finished. */
  lemma ConstructedOnce(s: State, schedule: seq<(Thread, Control)>, c: Control)
    requires Initial(s)
    ensures
      var r := Run(s, schedule);
      && Starts(r, c) <= 1
      && (c in r.returned ==> c in r.finished && Starts(r, c) == 1)
  {
    assert InsideSet(s) == {};
    assert Inv(s);
    RunKeepsInv(s, schedule);
    assert Counted(Run(s, schedule), c);
  }

  // ---------------------------------------------------------- what calls do

  lemma RunCons(s: State, x: (Thread, Control), rest: seq<(Thread, Control)>)
    ensures Run(s, [x] + rest) == Run(Step(s, x.0, x.1), rest)
  {
    assert ([x] + rest)[1..] == rest;
  }

  /** A first call that runs alone runs the constructor, sets the control and
      returns; a later one returns without running it. */
  lemma CallAlone(s: State, t: Thread, c: Control)
    requires Inv(s) && t in s.phase && s.phase[t] == Idle && InsideSet(s) == {}
    ensures
      var x := (t, c);
      var first := Run(s, [x] + ([x] + ([x] + ([x] + ([x] + ([x] + []))))));
      Word(s, c) == 0 ==>
        && c in first.finished && c in first.returned && Word(first, c) == 1
        && Starts(first, c) == Starts(s, c) + 1 && first.phase == s.phase
    ensures
      var x := (t, c);
      var later := Run(s, [x] + ([x] + ([x] + ([x] + []))));
      Word(s, c) != 0 ==>
        later.once == s.once && later.starts == s.starts && c in later.returned && later.phase == s.phase
  {
    hide Inv, Run;
    var x := (t, c);
    var s1 := Step(s, t, c);
    NobodyInside(s, t);
    var s2 := Step(s1, t, c);
    var s3 := Step(s2, t, c);
    var s4 := Step(s3, t, c);
    RunCons(s, x, [x] + ([x] + ([x] + [])));
    RunCons(s1, x, [x] + ([x] + []));
    RunCons(s2, x, [x] + []);
    RunCons(s3, x, []);
    RunNothing(s4);
    if Word(s, c) != 0 {
      assert s4.phase == s.phase;
    } else {
      var s5 := Step(s4, t, c);
      var s6 := Step(s5, t, c);
      RunCons(s, x, [x] + ([x] + ([x] + ([x] + ([x] + [])))));
      RunCons(s1, x, [x] + ([x] + ([x] + ([x] + []))));
      RunCons(s2, x, [x] + ([x] + ([x] + [])));
      RunCons(s3, x, [x] + ([x] + []));
      RunCons(s4, x, [x] + []);
      RunCons(s5, x, []);
      RunNothing(s6);
      assert s6.phase == s.phase;
    }
  }

  lemma RunNothing(s: State)
    ensures Run(s, []) == s
  {
  }

  lemma NobodyInside(s: State, t: Thread)
    requires Inv(s) && t in s.phase && InsideSet(s) == {}
    ensures MayEnter(s.m, t)
  {
  }
}
