/** Atomic flags: a word that is ORed into and read-and-cleared under a mutex.
    The OR is a load and a separate store, as the compiled code has it. */
module VcosFlags {
  import opened VcosMutex

  /** A 32-bit mask as the set of its bits. */
  type Mask = set<nat>

  datatype Op = Or(bits: Mask) | GetAndClear

  /** What a call returns. */
  datatype Answer = Nothing | Got(bits: Mask)

  datatype Phase =
    | Idle
    | OrLocking(bits: Mask) | OrLoading(bits: Mask) | OrStoring(bits: Mask, loaded: Mask)
    | GetLocking | GetLoading | GetClearing(loaded: Mask)
    | Unlocking(answer: Answer)

  /** The completed effects, in the order in which they reached the flags word. */
  datatype Effect = Ored(bits: Mask) | Taken(got: Mask)

  datatype State = State(
    m: Mutex, flags: Mask, phase: map<Thread, Phase>, log: seq<Effect>, answers: map<Thread, Answer>)

  predicate Holding(p: Phase) {
    p.OrLoading? || p.OrStoring? || p.GetLoading? || p.GetClearing? || p.Unlocking?
  }

  ghost function InsideSet(s: State): set<Thread> {
    set t | t in s.phase && Holding(s.phase[t])
  }

  function Goto(s: State, t: Thread, p: Phase): State { s.(phase := s.phase[t := p]) }

  /** Thread t runs to its next scheduling point; an idle thread calls op. */
  function Step(s: State, t: Thread, op: Op): State {
    if t !in s.phase then s
    else match s.phase[t]
      case Idle => Goto(s, t, match op case Or(bits) => OrLocking(bits) case GetAndClear => GetLocking)
      case OrLocking(bits) =>
        if MayEnter(s.m, t) then Goto(s.(m := Claimed(t)), t, OrLoading(bits)) else s
      case OrLoading(bits) => Goto(s, t, OrStoring(bits, s.flags))
      case OrStoring(bits, loaded) =>
        Goto(s.(flags := loaded + bits, log := s.log + [Ored(bits)]), t, Unlocking(Nothing))
      case GetLocking =>
        if MayEnter(s.m, t) then Goto(s.(m := Claimed(t)), t, GetLoading) else s
      case GetLoading => Goto(s, t, GetClearing(s.flags))
      case GetClearing(loaded) => Goto(s.(flags := {}, log := s.log + [Taken(loaded)]), t, Unlocking(Got(loaded)))
      case Unlocking(answer) => Goto(s.(m := Released(s.m), answers := s.answers[t := answer]), t, Idle)
  }

  function Run(s: State, schedule: seq<(Thread, Op)>): State
    decreases |schedule|
  {
    if schedule == [] then s else Run(Step(s, schedule[0].0, schedule[0].1), schedule[1..])
  }

  /** vcos_atomic_flags_create, with every thread between calls. */
  ghost predicate Initial(s: State) {
    && s.m == InitMutex(s.m) && s.flags == {} && s.log == []
    && forall t :: t in s.phase ==> s.phase[t] == Idle
  }

  /** The flags word after the effects, one at a time. */
  function Replay(log: seq<Effect>): Mask {
    if log == [] then {}
    else match log[|log| - 1]
      case Ored(bits) => Replay(log[..|log| - 1]) + bits
      case Taken(_) => {}
  }

  /** Every get-and-clear got exactly what one-at-a-time execution gives it. */
  predicate Serial(log: seq<Effect>) {
    log == [] ||
    (Serial(log[..|log| - 1])
     && (log[|log| - 1].Taken? ==> log[|log| - 1].got == Replay(log[..|log| - 1])))
  }

  ghost predicate Inv(s: State) {
    && Guards(s.m, InsideSet(s))
    && Serial(s.log) && s.flags == Replay(s.log)
    && (forall t :: t in s.phase && (s.phase[t].OrStoring? || s.phase[t].GetClearing?) ==> s.phase[t].loaded == s.flags)
  }

  lemma StepKeepsMutex(s: State, t: Thread, op: Op)
    requires Guards(s.m, InsideSet(s))
    ensures Guards(Step(s, t, op).m, InsideSet(Step(s, t, op)))
  {
    var s' := Step(s, t, op);
    if t in s.phase {
      var p := s.phase[t];
      if p.OrLocking? || p.GetLocking? {
        Entering(s.m, InsideSet(s), t);
        if MayEnter(s.m, t) { assert InsideSet(s') == {t}; }
      } else if p.Unlocking? {
        Leaving(s.m, InsideSet(s), t);
        assert InsideSet(s') == InsideSet(s) - {t};
      } else {
        assert InsideSet(s') == InsideSet(s);
      }
    }
  }

  lemma LogGrows(log: seq<Effect>, e: Effect)
    requires Serial(log) && (e.Taken? ==> e.got == Replay(log))
    ensures Serial(log + [e])
    ensures Replay(log + [e]) == if e.Ored? then Replay(log) + e.bits else {}
  {
    assert (log + [e])[..|log|] == log;
  }

  lemma StepKeepsLog(s: State, t: Thread, op: Op)
    requires Inv(s)
    ensures var s' := Step(s, t, op); Serial(s'.log) && s'.flags == Replay(s'.log)
  {
    if t in s.phase {
      var p := s.phase[t];
      if p.OrStoring? {
        LogGrows(s.log, Ored(p.bits));
      } else if p.GetClearing? {
        LogGrows(s.log, Taken(p.loaded));
      }
    }
  }

  lemma StepKeepsInv(s: State, t: Thread, op: Op)
    requires Inv(s)
    ensures Inv(Step(s, t, op))
  {
    StepKeepsMutex(s, t, op);
    var s' := Step(s, t, op);
    StepKeepsLog(s, t, op);
    hide Serial, Replay, MayEnter;
    forall u | u in s'.phase && (s'.phase[u].OrStoring? || s'.phase[u].GetClearing?)
      ensures s'.phase[u].loaded == s'.flags
    {
      if u != t && s'.log != s.log {
        AtMostOne(s.m, InsideSet(s), t, u);
      }
    }
  }

  lemma {:induction false} RunKeepsInv(s: State, schedule: seq<(Thread, Op)>)
    requires Inv(s)
    ensures Inv(Run(s, schedule))
    decreases |schedule|
  {
    if schedule != [] {
      StepKeepsInv(s, schedule[0].0, schedule[0].1);
      RunKeepsInv(Step(s, schedule[0].0, schedule[0].1), schedule[1..]);
    }
  }

  ghost predicate TakenAfter(log: seq<Effect>, i: nat, bit: nat) {
    exists j :: i < j < |log| && log[j].Taken? && bit in log[j].got
  }

  lemma {:induction false} BitsAccountedFor(log: seq<Effect>, i: nat, bit: nat)
    requires Serial(log) && i < |log| && log[i].Ored? && bit in log[i].bits
    ensures bit in Replay(log) || TakenAfter(log, i, bit)
    decreases |log|
  {
    var n := |log| - 1;
    if i < n {
      BitsAccountedFor(log[..n], i, bit);
      if TakenAfter(log[..n], i, bit) {
        var j :| i < j < n && log[..n][j].Taken? && bit in log[..n][j].got;
        assert log[j] == log[..n][j];
      } else if log[n].Taken? {
        assert bit in log[n].got;
      }
    }
  }

  /** In every interleaving the flags are what the completed calls give when
      executed one at a time, and a bit once ORed is still set or was returned
      by a later get-and-clear. */
  lemma NoBitDropped(s: State, schedule: seq<(Thread, Op)>, i: nat, bit: nat)
    requires Initial(s)
    ensures
      var r := Run(s, schedule);
      && r.flags == Replay(r.log) && Serial(r.log)
      && (i < |r.log| && r.log[i].Ored? && bit in r.log[i].bits ==> bit in r.flags || TakenAfter(r.log, i, bit))
  {
    assert InsideSet(s) == {};
    RunKeepsInv(s, schedule);
    var r := Run(s, schedule);
    if i < |r.log| && r.log[i].Ored? && bit in r.log[i].bits {
      BitsAccountedFor(r.log, i, bit);
    }
  }

  // ------------------------------------------- from the calls to the record

  /** The thread is in this call and its effect is still to come. */
  predicate InCall(p: Phase, op: Op) {
    match op
    case Or(bits) => (p.OrLocking? || p.OrLoading? || p.OrStoring?) && p.bits == bits
    case GetAndClear => p.GetLocking? || p.GetLoading? || p.GetClearing?
  }

  /** The effect and the answer of a call: an OR reaches the flags with all of its
      argument, a get-and-clear returns what it took. */
  predicate Fulfils(op: Op, e: Effect, answer: Answer) {
    match op
    case Or(bits) => e == Ored(bits)
    case GetAndClear => answer.Got? && e == Taken(answer.bits)
  }

  ghost predicate Fulfilled(log: seq<Effect>, from: nat, op: Op, answer: Answer) {
    exists p :: from <= p < |log| && Fulfils(op, log[p], answer)
  }

  /** Thread t is in call op, which began when the log had `from` entries. */
  ghost predicate Under(s: State, t: Thread, op: Op, from: nat) {
    && t in s.phase && from <= |s.log|
    && (InCall(s.phase[t], op) || (s.phase[t].Unlocking? && Fulfilled(s.log, from, op, s.phase[t].answer)))
  }

  lemma LaterFulfilled(log: seq<Effect>, more: seq<Effect>, from: nat, op: Op, answer: Answer)
    requires Fulfilled(log, from, op, answer)
    ensures Fulfilled(log + more, from, op, answer)
  {
    var p :| from <= p < |log| && Fulfils(op, log[p], answer);
    assert (log + more)[p] == log[p];
  }

  /** A step of any thread leaves t under way, or returns with the effect done. */
  lemma StepUnder(s: State, u: Thread, other: Op, t: Thread, op: Op, from: nat)
    requires Under(s, t, op, from)
    ensures var r := Step(s, u, other);
      && t in r.phase && s.log <= r.log
      && (Under(r, t, op, from) || (r.phase[t] == Idle && t in r.answers && Fulfilled(r.log, from, op, r.answers[t])))
  {
    var r := Step(s, u, other);
    LogOnlyGrows(s, u, other);
    if t == u {
      if r.log != s.log {
        assert Fulfils(op, r.log[|s.log|], r.phase[t].answer);
      }
    } else if s.phase[t].Unlocking? && Fulfilled(s.log, from, op, s.phase[t].answer) {
      LaterFulfilled(s.log, r.log[|s.log|..], from, op, s.phase[t].answer);
      assert s.log + r.log[|s.log|..] == r.log;
    }
  }

  lemma LogOnlyGrows(s: State, u: Thread, op: Op)
    ensures s.log <= Step(s, u, op).log && |Step(s, u, op).log| <= |s.log| + 1
    ensures Step(s, u, op).phase.Keys == s.phase.Keys
  {
  }

  /** Thread t is between calls at no point of the schedule before its end. */
  ghost predicate Busy(s: State, schedule: seq<(Thread, Op)>, t: Thread)
    decreases |schedule|
  {
    schedule == [] || (t in s.phase && s.phase[t] != Idle && Busy(Step(s, schedule[0].0, schedule[0].1), schedule[1..], t))
  }

  lemma {:induction false} RunUnder(s: State, schedule: seq<(Thread, Op)>, t: Thread, op: Op, from: nat)
    requires Under(s, t, op, from) && Busy(s, schedule, t)
    ensures var r := Run(s, schedule);
      && t in r.phase && s.log <= r.log
      && (r.phase[t] == Idle ==> t in r.answers && Fulfilled(r.log, from, op, r.answers[t]))
    decreases |schedule|
  {
    if schedule != [] {
      var u, other := schedule[0].0, schedule[0].1;
      StepUnder(s, u, other, t, op, from);
      var s' := Step(s, u, other);
      hide Step;
      if Under(s', t, op, from) {
        RunUnder(s', schedule[1..], t, op, from);
      }
    }
  }

  /** In every interleaving, when a call returns, its effect is in the record since
      the call: an OR has put in exactly its argument, and a get-and-clear returns
      exactly the bits that it took. */
  lemma CallReturns(s: State, t: Thread, op: Op, schedule: seq<(Thread, Op)>)
    requires t in s.phase && s.phase[t] == Idle && Busy(Step(s, t, op), schedule, t)
    ensures var r := Run(Step(s, t, op), schedule);
      && t in r.phase && s.log <= r.log
      && (r.phase[t] == Idle ==> t in r.answers && Fulfilled(r.log, |s.log|, op, r.answers[t]))
  {
    RunUnder(Step(s, t, op), schedule, t, op, |s.log|);
  }

  lemma {:induction false} RunJoins(s: State, a: seq<(Thread, Op)>, b: seq<(Thread, Op)>)
    ensures Run(s, a + b) == Run(Run(s, a), b)
    decreases |a|
  {
    hide Step;
    if a == [] {
      assert a + b == b;
    } else {
      assert (a + b)[1..] == a[1..] + b;
      RunJoins(Step(s, a[0].0, a[0].1), a[1..], b);
    }
  }

  lemma {:induction false} RunLogs(s: State, schedule: seq<(Thread, Op)>)
    ensures s.log <= Run(s, schedule).log
    decreases |schedule|
  {
    if schedule != [] {
      LogOnlyGrows(s, schedule[0].0, schedule[0].1);
      hide Step;
      RunLogs(Step(s, schedule[0].0, schedule[0].1), schedule[1..]);
    }
  }

  ghost predicate GotSince(log: seq<Effect>, from: nat, bit: nat) {
    exists j :: from <= j < |log| && log[j].Taken? && bit in log[j].got
  }

  /** From the calls alone: once an OR of some bits has returned, at any later
      time each of them is set or was got by a get-and-clear since the OR was called. */
  lemma ArgumentKept(s: State, before: seq<(Thread, Op)>, t: Thread, bits: Mask,
                     during: seq<(Thread, Op)>, after: seq<(Thread, Op)>, bit: nat)
    requires Initial(s) && bit in bits
    requires var called := Run(s, before);
      && t in called.phase && called.phase[t] == Idle
      && Busy(Step(called, t, Or(bits)), during, t)
      && var back := Run(Step(called, t, Or(bits)), during); t in back.phase && back.phase[t] == Idle
    ensures
      var called := Run(s, before);
      var r := Run(Run(Step(called, t, Or(bits)), during), after);
      bit in r.flags || GotSince(r.log, |called.log|, bit)
  {
    var called := Run(s, before);
    var s1 := Step(called, t, Or(bits));
    var back := Run(s1, during);
    var r := Run(back, after);
    CallReturns(called, t, Or(bits), during);
    var p :| |called.log| <= p < |back.log| && Fulfils(Or(bits), back.log[p], back.answers[t]);
    RunLogs(back, after);
    var whole := before + ([(t, Or(bits))] + (during + after));
    OneStep(called, t, Or(bits), during + after);
    RunJoins(s1, during, after);
    RunJoins(s, before, [(t, Or(bits))] + (during + after));
    assert Run(s, whole) == r;
    hide Run, Step, Busy, Initial;
    assert r.log[p] == Ored(bits);
    NoBitDropped(s, whole, p, bit);
    if TakenAfter(r.log, p, bit) {
      var j :| p < j < |r.log| && r.log[j].Taken? && bit in r.log[j].got;
      assert |called.log| <= j;
    }
  }

  lemma OneStep(s: State, t: Thread, op: Op, rest: seq<(Thread, Op)>)
    ensures Run(s, [(t, op)] + rest) == Run(Step(s, t, op), rest)
  {
    assert ([(t, op)] + rest)[1..] == rest;
  }

  /** A call that runs alone returns in five steps: an OR sets its bits, a
      get-and-clear returns all flags and clears them. */
  lemma CallAlone(s: State, t: Thread, op: Op)
    requires Inv(s) && t in s.phase && s.phase[t] == Idle && InsideSet(s) == {}
    ensures
      var c := (t, op);
      var r := Run(s, [c] + ([c] + ([c] + ([c] + ([c] + [])))));
      && r.phase == s.phase
      && (op.Or? ==> r.flags == s.flags + op.bits)
      && (op.GetAndClear? ==> r.flags == {} && r.answers == s.answers[t := Got(s.flags)])
  {
    hide Inv, Run;
    var c := (t, op);
    var s1 := Step(s, t, op);
    NobodyInside(s, t);
    var s2 := Step(s1, t, op);
    var s3 := Step(s2, t, op);
    var s4 := Step(s3, t, op);
    var s5 := Step(s4, t, op);
    OneStep(s, t, op, [c] + ([c] + ([c] + ([c] + []))));
    OneStep(s1, t, op, [c] + ([c] + ([c] + [])));
    OneStep(s2, t, op, [c] + ([c] + []));
    OneStep(s3, t, op, [c] + []);
    OneStep(s4, t, op, []);
    RunNothing(s5);
    assert s5.phase == s.phase;
  }

  lemma RunNothing(s: State)
    ensures Run(s, []) == s
  {
  }

  lemma NobodyInside(s: State, t: Thread)
    requires Inv(s) && t in s.phase && InsideSet(s) == {}
    ensures MayEnter(s.m, t)
  {
  }
}
