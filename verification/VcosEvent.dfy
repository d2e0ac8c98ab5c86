/** Binary events: a semaphore that signals post only when they read it as zero
    under the event's mutex, while waits and tries take it without the mutex. */
module VcosEvent {
  import opened VcosMutex

  datatype Op = Signal | Wait | Try

  /** Where a thread stands: between calls, in vcos_event_signal before the
      lock, before sem_getvalue, before the test of the value read, before the
      unlock, or in the yield loop of sem_wait. */
  datatype Phase = Idle | Locking | Reading | Deciding(value: nat) | Unlocking | Waiting

  /** For the record: the posts, the successful waits and tries, and how many of
      these there had been when a thread last called signal. */
  datatype State = State(
    m: Mutex, sem: nat, phase: map<Thread, Phase>, posts: nat, takes: nat, since: map<Thread, nat>)

  predicate Holding(p: Phase) {
    p.Reading? || p.Deciding? || p.Unlocking?
  }

  ghost function InsideSet(s: State): set<Thread> {
    set t | t in s.phase && Holding(s.phase[t])
  }

  /** Thread t runs to its next scheduling point; an idle thread calls op. */
  function Step(s: State, t: Thread, op: Op): State {
    if t !in s.phase then s
    else match s.phase[t]
      case Idle =>
        (match op
         case Signal => s.(phase := s.phase[t := Locking], since := s.since[t := s.takes])
         case Wait =>
           if s.sem > 0 then s.(sem := s.sem - 1, takes := s.takes + 1) else s.(phase := s.phase[t := Waiting])
         case Try =>
           if s.sem > 0 then s.(sem := s.sem - 1, takes := s.takes + 1) else s)
      case Locking =>
        if MayEnter(s.m, t) then s.(m := Claimed(t), phase := s.phase[t := Reading]) else s
      case Reading => s.(phase := s.phase[t := Deciding(s.sem)])
      case Deciding(value) =>
        if value == 0 then s.(sem := s.sem + 1, posts := s.posts + 1, phase := s.phase[t := Unlocking])
        else s.(phase := s.phase[t := Unlocking])
      case Unlocking => s.(m := Released(s.m), phase := s.phase[t := Idle])
      case Waiting =>
        if s.sem != 0 then s.(sem := s.sem - 1, takes := s.takes + 1, phase := s.phase[t := Idle]) else s
  }

  function Run(s: State, schedule: seq<(Thread, Op)>): State
    decreases |schedule|
  {
    if schedule == [] then s else Run(Step(s, schedule[0].0, schedule[0].1), schedule[1..])
  }

  /** vcos_event_create, with every thread between calls. */
  ghost predicate Initial(s: State) {
    && s.m == InitMutex(s.m) && s.sem == 0 && s.posts == 0 && s.takes == 0 && s.since == map[]
    && forall t :: t in s.phase ==> s.phase[t] == Idle
  }

  ghost predicate Inv(s: State) {
    && Guards(s.m, InsideSet(s))
    && s.sem <= 1
    && s.posts == s.sem + s.takes
    && (forall t :: t in s.phase && s.phase[t] == Deciding(0) ==> s.sem == 0)
    && (forall t :: t in s.phase ==> Signalled(s, t))
  }

  /** Since the call of the signal that t is in there has been a take, or the
      event is set; so once the signal has seen or made it so. */
  ghost predicate Signalled(s: State, t: Thread)
    requires t in s.phase
  {
    var p := s.phase[t];
    && (!p.Idle? && !p.Waiting? ==> t in s.since && s.since[t] <= s.takes)
    && (p.Unlocking? || (p.Deciding? && p.value != 0) ==> s.sem == 1 || s.takes > s.since[t])
  }

  lemma StepKeepsMutex(s: State, t: Thread, op: Op)
    requires Guards(s.m, InsideSet(s))
    ensures Guards(Step(s, t, op).m, InsideSet(Step(s, t, op)))
  {
    var s' := Step(s, t, op);
    if t in s.phase {
      var p := s.phase[t];
      if p == Locking {
        Entering(s.m, InsideSet(s), t);
        if MayEnter(s.m, t) { assert InsideSet(s') == {t}; }
      } else if p == Unlocking {
        Leaving(s.m, InsideSet(s), t);
        assert InsideSet(s') == InsideSet(s) - {t};
      } else {
        assert InsideSet(s') == InsideSet(s);
      }
    }
  }

  lemma StepKeepsSignals(s: State, t: Thread, op: Op)
    requires Inv(s)
    ensures forall u :: u in Step(s, t, op).phase ==> Signalled(Step(s, t, op), u)
  {
    hide Guards, MayEnter;
    var s' := Step(s, t, op);
    forall u | u in s'.phase ensures Signalled(s', u) {
      assert u in s.phase && Signalled(s, u);
      if t in s.phase {
        assert Signalled(s, t);
      }
    }
  }

  lemma StepKeepsInv(s: State, t: Thread, op: Op)
    requires Inv(s)
    ensures Inv(Step(s, t, op))
  {
    StepKeepsMutex(s, t, op);
    StepKeepsSignals(s, t, op);
    hide Signalled;
    var s' := Step(s, t, op);
    forall u | u in s'.phase && s'.phase[u] == Deciding(0) ensures s'.sem == 0 {
      if u in s.phase && s.phase[u] == Deciding(0) && t in s.phase && s.phase[t].Deciding? {
        AtMostOne(s.m, InsideSet(s), t, u);
      }
    }
  }

  lemma {:induction false} RunKeepsInv(s: State, schedule: seq<(Thread, Op)>)
    requires Inv(s)
    ensures Inv(Run(s, schedule))
    decreases |schedule|
  {
    if schedule != [] {
      StepKeepsInv(s, schedule[0].0, schedule[0].1);
      RunKeepsInv(Step(s, schedule[0].0, schedule[0].1), schedule[1..]);
    }
  }

  /** In every interleaving of signals, waits and tries the event is binary,
      every post is matched by the value or by one successful wait or try, and
      at most one signaller is past the lock. */
  lemma EventIsBinary(s: State, schedule: seq<(Thread, Op)>, a: Thread, b: Thread)
    requires Initial(s)
    ensures
      var r := Run(s, schedule);
      && (r.sem == 0 || r.sem == 1)
      && r.posts == r.sem + r.takes
      && (a in InsideSet(r) && b in InsideSet(r) ==> a == b && r.m == Claimed(a))
  {
    assert InsideSet(s) == {};
    RunKeepsInv(s, schedule);
    var r := Run(s, schedule);
    if a in InsideSet(r) && b in InsideSet(r) {
      AtMostOne(r.m, InsideSet(r), a, b);
    }
  }

  /** No signal is lost: in every interleaving, when a signal returns, the event
      is set or some wait or try has taken it since the signal was called. */
  lemma NoSignalLost(s: State, schedule: seq<(Thread, Op)>, t: Thread, op: Op)
    requires Initial(s)
    ensures
      var r := Run(s, schedule);
      t in r.phase && r.phase[t] == Unlocking ==>
        var r' := Step(r, t, op);
        r'.phase[t] == Idle && t in r'.since && (r'.sem == 1 || r'.takes > r'.since[t])
  {
    assert InsideSet(s) == {};
    RunKeepsInv(s, schedule);
    var r := Run(s, schedule);
    if t in r.phase {
      assert Signalled(r, t);
    }
  }

  // ---------------------------------------------------------- what calls do

  /** A wait or a try that finds the event set takes it and returns; otherwise a
      try returns at once and a wait goes on waiting. */
  lemma WaitMeaning(s: State, t: Thread, op: Op)
    requires t in s.phase && (s.phase[t] == Waiting || (s.phase[t] == Idle && op != Signal))
    ensures var r := Step(s, t, op);
      && (s.sem > 0 ==> r.sem == s.sem - 1 && r.takes == s.takes + 1 && r.phase == s.phase[t := Idle])
      && (s.sem == 0 ==>
            r.sem == 0 && r.takes == s.takes && r.phase == s.phase[t := if s.phase[t] == Idle && op == Try then Idle else Waiting])
  {
    assert s.phase == s.phase[t := s.phase[t]];
  }

  lemma RunCons(s: State, c: (Thread, Op), rest: seq<(Thread, Op)>)
    ensures Run(s, [c] + rest) == Run(Step(s, c.0, c.1), rest)
  {
    assert ([c] + rest)[1..] == rest;
  }

  /** A signal that runs alone returns and leaves the event set, whatever it was. */
  lemma SignalAlone(s: State, t: Thread)
    requires Inv(s) && t in s.phase && s.phase[t] == Idle && InsideSet(s) == {}
    ensures
      var c := (t, Signal);
      var r := Run(s, [c] + ([c] + ([c] + ([c] + ([c] + [])))));
      r.sem == 1 && r.phase == s.phase && r.takes == s.takes && r.posts == s.posts + (1 - s.sem)
  {
    var c := (t, Signal);
    var s1 := Step(s, t, Signal);
    Entering(s.m, InsideSet(s), t);
    var s2 := Step(s1, t, Signal);
    var s3 := Step(s2, t, Signal);
    var s4 := Step(s3, t, Signal);
    var s5 := Step(s4, t, Signal);
    RunCons(s, c, [c] + ([c] + ([c] + ([c] + []))));
    RunCons(s1, c, [c] + ([c] + ([c] + [])));
    RunCons(s2, c, [c] + ([c] + []));
    RunCons(s3, c, [c] + []);
    RunCons(s4, c, []);
    assert s5.phase == s.phase;
  }
}
