/** The counting semaphore of vcos_threads.c under any interleaving. */
module VcosSemaphore {
  import opened VcosMutex

  const WORDS: nat := 0x1_0000_0000

  datatype Op = Post | Wait | TryWait

  /** What a call ends with, for the calls that end in this step. */
  datatype Phase = Idle | Waiting

  /** The poll word with, for the record, completed posts, successful waits and
      how often the 32-bit counter has wrapped. */
  datatype State = State(value: nat, phase: map<Thread, Phase>, posts: nat, takes: nat, wraps: nat)

  function Posted(s: State): State {
    s.(value := (s.value + 1) % WORDS, posts := s.posts + 1,
       wraps := s.wraps + (if s.value + 1 == WORDS then 1 else 0))
  }

  function Taken(s: State): State
    requires s.value > 0
  {
    s.(value := s.value - 1, takes := s.takes + 1)
  }

  /** Thread t runs to its next scheduling point; an idle thread calls op. */
  function Step(s: State, t: Thread, op: Op): State {
    if t !in s.phase then s
    else match s.phase[t]
      case Idle =>
        (match op
         case Post => Posted(s)
         case Wait => if s.value > 0 then Taken(s) else s.(phase := s.phase[t := Waiting])
         case TryWait => if s.value > 0 then Taken(s) else s)
      case Waiting =>
        if s.value != 0 then Taken(s).(phase := s.phase[t := Idle]) else s
  }

  function Run(s: State, schedule: seq<(Thread, Op)>): State
    decreases |schedule|
  {
    if schedule == [] then s else Run(Step(s, schedule[0].0, schedule[0].1), schedule[1..])
  }

  predicate Initial(s: State, count: nat) {
    s.value == count < WORDS && s.posts == s.takes == s.wraps == 0
  }

  ghost predicate Conserved(s: State, count: nat) {
    && s.value < WORDS
    && count + s.posts == s.value + s.takes + s.wraps * WORDS
  }

  lemma {:induction false} RunConserves(s: State, schedule: seq<(Thread, Op)>, count: nat)
    requires Conserved(s, count)
    ensures Conserved(Run(s, schedule), count)
    decreases |schedule|
  {
    if schedule != [] {
      var s' := Step(s, schedule[0].0, schedule[0].1);
      assert Conserved(s', count) by {
        if s'.wraps != s.wraps { assert s'.wraps * WORDS == s.wraps * WORDS + WORDS; }
      }
      RunConserves(s', schedule[1..], count);
    }
  }

  /** In every interleaving, initial count plus posts equals the current value
      plus the successful waits exactly as long as the counter has not wrapped,
      which needs at least 2^32 units posted; a waiter that finds a unit takes it. */
  lemma Conservation(s: State, schedule: seq<(Thread, Op)>, count: nat)
    requires Initial(s, count)
    ensures
      var r := Run(s, schedule);
      && 0 <= r.value < WORDS
      && (count + r.posts == r.value + r.takes <==> r.wraps == 0)
      && (count + r.posts < WORDS ==> r.wraps == 0)
      && r.value == (count + r.posts - r.takes) % WORDS
  {
    RunConserves(s, schedule, count);
    var r := Run(s, schedule);
    if r.wraps > 0 {
      assert r.wraps * WORDS >= WORDS;
    }
    ModuloOf(r.value, r.wraps, count + r.posts - r.takes);
  }

  lemma ModuloOf(v: nat, k: nat, n: int)
    requires v < WORDS && n == v + k * WORDS
    ensures n % WORDS == v
  {
  }

  // ---------------------------------------------------------- what calls do

  /** A thread that looks for a unit in this step. */
  predicate Looks(s: State, t: Thread, op: Op) {
    t in s.phase && (s.phase[t] == Waiting || op != Post)
  }

  predicate Posts(s: State, t: Thread, op: Op) {
    t in s.phase && s.phase[t] == Idle && op == Post
  }

  /** A wait or a try that finds a unit takes it and returns; without one a try
      returns at once, a wait goes on waiting, and nothing else changes. A post
      adds a unit, up to the width of the counter. */
  lemma CallMeaning(s: State, t: Thread, op: Op)
    requires s.value < WORDS
    ensures var r := Step(s, t, op);
      && (Looks(s, t, op) && s.value > 0 ==> r.value == s.value - 1 && r.phase == s.phase[t := Idle])
      && (Looks(s, t, op) && s.value == 0 ==>
            r.value == 0 && r.phase == s.phase[t := if s.phase[t] == Idle && op == TryWait then Idle else Waiting])
      && (Posts(s, t, op) ==> r.phase == s.phase && r.value == if s.value + 1 < WORDS then s.value + 1 else 0)
  {
    if t in s.phase {
      assert s.phase == s.phase[t := s.phase[t]];
    }
  }

  /** How many posts a schedule makes, and how many waits and tries find a unit. */
  function PostCalls(s: State, schedule: seq<(Thread, Op)>): nat
    decreases |schedule|
  {
    if schedule == [] then 0
    else (if Posts(s, schedule[0].0, schedule[0].1) then 1 else 0)
         + PostCalls(Step(s, schedule[0].0, schedule[0].1), schedule[1..])
  }

  function Successes(s: State, schedule: seq<(Thread, Op)>): nat
    decreases |schedule|
  {
    if schedule == [] then 0
    else (if Looks(s, schedule[0].0, schedule[0].1) && s.value > 0 then 1 else 0)
         + Successes(Step(s, schedule[0].0, schedule[0].1), schedule[1..])
  }

  /** The record agrees with the calls that the schedule makes. */
  lemma {:induction false} RecordIsTrue(s: State, schedule: seq<(Thread, Op)>)
    ensures Run(s, schedule).posts == s.posts + PostCalls(s, schedule)
    ensures Run(s, schedule).takes == s.takes + Successes(s, schedule)
    decreases |schedule|
  {
    if schedule != [] {
      RecordIsTrue(Step(s, schedule[0].0, schedule[0].1), schedule[1..]);
    }
  }
}
