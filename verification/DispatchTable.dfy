/** One jump table with its entry stubs, and what running it does. */
module DispatchTable {
  import opened ArmDispatch

  // ------------------------------------------------------------ the layout

  /** An entry: an optional list of accepted values of r0, the instructions
      between that and the index, and the index. */
  datatype Stub = Stub(filter: seq<word>, prologue: seq<Instr>, value: word)

  /** Where a slot of the table goes: a handler, or the code for "no handler". */
  datatype Dest = Handler(name: string) | NoHandler

  /** MOV r14,pc then ADD r14,r14,#ret - label, or ADD r14,pc,#ret - label - 4. */
  datatype Link = TwoStep | OneStep

  /** A bound on the index and where to go beyond it. */
  datatype Guard = Unguarded | Guarded(cond: Cond, count: word, otherwise: Dest)

  datatype Table = Table(
    indexReg: Reg, stubs: seq<Stub>, common: seq<Instr>, dispatchReg: Reg,
    link: Link, guard: Guard, lsl: nat, slots: seq<Dest>, tail: seq<Instr>)

  /** The comparisons of an event stub; all but the first are conditional. */
  function Teqs(filter: seq<word>, k: nat): seq<Instr>
    requires k <= |filter|
  {
    seq(k, i requires 0 <= i < k => TeqImm(i > 0, 0, filter[i]))
  }

  function FilterCode(filter: seq<word>): seq<Instr> {
    if filter == [] then [] else Teqs(filter, |filter|) + [ReturnNe]
  }

  function StubBody(t: Table, k: nat): (r: seq<Instr>)
    requires k < |t.stubs|
    ensures |r| >= 1
  {
    FilterCode(t.stubs[k].filter) + t.stubs[k].prologue + [MovImm(t.indexReg, t.stubs[k].value)]
  }

  /** Length of the first k stubs; all but the first begin with a branch to the common code. */
  function StubsLength(t: Table, k: nat): nat
    requires k <= |t.stubs|
  {
    if k == 0 then 0 else StubsLength(t, k - 1) + (if k > 1 then 1 else 0) + |StubBody(t, k - 1)|
  }

  function StubsCode(t: Table, k: nat, common: nat): (r: seq<Instr>)
    requires k <= |t.stubs|
    ensures |r| == StubsLength(t, k)
  {
    if k == 0 then []
    else StubsCode(t, k - 1, common) + (if k > 1 then [Branch(Local(common))] else []) + StubBody(t, k - 1)
  }

  /** Positions of the labels. */
  function CommonAt(t: Table): nat { StubsLength(t, |t.stubs|) }

  function LinkAt(t: Table): nat { CommonAt(t) + |t.common| }

  function LabelAt(t: Table): nat { LinkAt(t) + (if t.link.TwoStep? then 2 else 1) }

  function JumpAt(t: Table): nat { LabelAt(t) + (if t.guard.Guarded? then 1 else 0) }

  function SlotsAt(t: Table): nat { JumpAt(t) + 2 }

  function TailAt(t: Table): nat { SlotsAt(t) + |t.slots| }

  function ReturnAt(t: Table): nat { TailAt(t) + |t.tail| }

  function LinkCode(t: Table): seq<Instr>
    requires 4 * (ReturnAt(t) - LabelAt(t)) < WORDS
  {
    var offset := 4 * (ReturnAt(t) - LabelAt(t));
    if t.link.TwoStep? then [MovLrPc, AddLr(offset)] else [AddLrPc(offset - 4)]
  }

  function GuardCode(t: Table): seq<Instr> {
    match t.guard case Unguarded => [] case Guarded(_, count, _) => [CmpImm(t.dispatchReg, count)]
  }

  function Goto(t: Table, d: Dest): Instr {
    match d case Handler(name) => Branch(External(name)) case NoHandler => Branch(Local(TailAt(t)))
  }

  function JumpCode(t: Table): seq<Instr> {
    match t.guard
    case Unguarded => [AddPc(Always, t.dispatchReg, t.lsl), Other({})]
    case Guarded(cond, _, otherwise) => [AddPc(cond, t.dispatchReg, t.lsl), Goto(t, otherwise)]
  }

  function SlotsCode(t: Table): seq<Instr> {
    seq(|t.slots|, i requires 0 <= i < |t.slots| => Goto(t, t.slots[i]))
  }

  /** The emitted code, up to the return label. */
  function Code(t: Table): seq<Instr>
    requires 4 * (ReturnAt(t) - LabelAt(t)) < WORDS
  {
    StubsCode(t, |t.stubs|, CommonAt(t)) + t.common + LinkCode(t) + GuardCode(t) + JumpCode(t) + SlotsCode(t) + t.tail
  }

  /** A machine whose program starts with the table's code. */
  ghost predicate Loaded(m: Machine, t: Table) {
    && Placed(m)
    && 4 * (ReturnAt(t) - LabelAt(t)) < WORDS
    && Code(t) <= m.code
  }

  // ---------------------------------------------------- finding instructions

  /** Part b of a + b + c sits at |a|. */
  lemma PartAt(a: seq<Instr>, b: seq<Instr>, c: seq<Instr>, code: seq<Instr>, i: nat)
    requires a + b + c <= code && i < |b|
    ensures |a| + i < |code| && code[|a| + i] == b[i]
  {
    assert code[|a| + i] == (a + b + c)[|a| + i];
  }

  lemma Regroup(a: seq<Instr>, b: seq<Instr>, c: seq<Instr>, d: seq<Instr>, e: seq<Instr>, f: seq<Instr>)
    ensures a + b + c + d + e + f == a + (b + c + d + e + f)
  {
  }

  lemma CommonFound(m: Machine, t: Table, i: nat)
    requires Loaded(m, t) && i < |t.common|
    ensures CommonAt(t) + i < |m.code| && m.code[CommonAt(t) + i] == t.common[i]
  {
    hide LinkCode, GuardCode, JumpCode, SlotsCode, StubsLength, StubBody;
    var stubs := StubsCode(t, |t.stubs|, CommonAt(t));
    var rest := LinkCode(t) + GuardCode(t) + JumpCode(t) + SlotsCode(t) + t.tail;
    Regroup(stubs + t.common, LinkCode(t), GuardCode(t), JumpCode(t), SlotsCode(t), t.tail);
    PartAt(stubs, t.common, rest, m.code, i);
  }

  lemma Regroup3(a: seq<Instr>, b: seq<Instr>, c: seq<Instr>)
    ensures a + b + c == a + (b + c)
  {
  }

  lemma Regroup4(a: seq<Instr>, b: seq<Instr>, c: seq<Instr>, d: seq<Instr>)
    ensures a + b + c + d == a + (b + c + d)
  {
  }

  lemma LinkFound(m: Machine, t: Table)
    requires Loaded(m, t)
    ensures LinkAt(t) + |LinkCode(t)| == LabelAt(t) <= |m.code|
    ensures forall i :: 0 <= i < |LinkCode(t)| ==> m.code[LinkAt(t) + i] == LinkCode(t)[i]
  {
    var front := StubsCode(t, |t.stubs|, CommonAt(t)) + t.common;
    var rest := GuardCode(t) + JumpCode(t) + SlotsCode(t) + t.tail;
    assert |LinkCode(t)| == LabelAt(t) - LinkAt(t) && |front| == LinkAt(t);
    hide LinkCode, GuardCode, JumpCode, SlotsCode, StubsCode, StubsLength;
    Regroup5(front + LinkCode(t), GuardCode(t), JumpCode(t), SlotsCode(t), t.tail);
    forall i | 0 <= i < |LinkCode(t)| ensures m.code[LinkAt(t) + i] == LinkCode(t)[i] {
      PartAt(front, LinkCode(t), rest, m.code, i);
    }
  }

  lemma Regroup5(a: seq<Instr>, b: seq<Instr>, c: seq<Instr>, d: seq<Instr>, e: seq<Instr>)
    ensures a + b + c + d + e == a + (b + c + d + e)
  {
  }

  lemma GuardFound(m: Machine, t: Table)
    requires Loaded(m, t) && t.guard.Guarded?
    ensures LabelAt(t) < |m.code| && m.code[LabelAt(t)] == CmpImm(t.dispatchReg, t.guard.count)
  {
    var front := StubsCode(t, |t.stubs|, CommonAt(t)) + t.common + LinkCode(t);
    var rest := JumpCode(t) + SlotsCode(t) + t.tail;
    assert |front| == LabelAt(t);
    hide LinkCode, JumpCode, SlotsCode, StubsCode, StubsLength;
    Regroup4(front + GuardCode(t), JumpCode(t), SlotsCode(t), t.tail);
    PartAt(front, GuardCode(t), rest, m.code, 0);
  }

  lemma JumpFound(m: Machine, t: Table)
    requires Loaded(m, t)
    ensures SlotsAt(t) <= |m.code|
    ensures m.code[JumpAt(t)] == JumpCode(t)[0] && m.code[JumpAt(t) + 1] == JumpCode(t)[1]
  {
    var front := StubsCode(t, |t.stubs|, CommonAt(t)) + t.common + LinkCode(t) + GuardCode(t);
    var rest := SlotsCode(t) + t.tail;
    assert |front| == JumpAt(t) && |JumpCode(t)| == 2;
    hide LinkCode, GuardCode, JumpCode, SlotsCode, StubsCode, StubsLength;
    Regroup3(front + JumpCode(t), SlotsCode(t), t.tail);
    PartAt(front, JumpCode(t), rest, m.code, 0);
    PartAt(front, JumpCode(t), rest, m.code, 1);
  }

  lemma SlotFound(m: Machine, t: Table, j: nat)
    requires Loaded(m, t) && j < |t.slots|
    ensures SlotsAt(t) + j < |m.code| && m.code[SlotsAt(t) + j] == Goto(t, t.slots[j])
  {
    FrontLength(m, t);
    assert |SlotsCode(t)| == |t.slots| && SlotsCode(t)[j] == Goto(t, t.slots[j]);
    hide *;
    PartAt(Front(t), SlotsCode(t), t.tail, m.code, j);
  }

  /** The code before the slots. */
  function Front(t: Table): seq<Instr>
    requires 4 * (ReturnAt(t) - LabelAt(t)) < WORDS
  {
    StubsCode(t, |t.stubs|, CommonAt(t)) + t.common + LinkCode(t) + GuardCode(t) + JumpCode(t)
  }

  lemma FrontLength(m: Machine, t: Table)
    requires Loaded(m, t)
    ensures 4 * (ReturnAt(t) - LabelAt(t)) < WORDS
    ensures |Front(t)| == SlotsAt(t) && Front(t) + SlotsCode(t) + t.tail <= m.code
  {
    hide StubsCode, StubsLength, SlotsCode;
  }

  /** Index of the first instruction of stub k. */
  function EntryAt(t: Table, k: nat): nat
    requires k < |t.stubs|
  {
    StubsLength(t, k) + (if k > 0 then 1 else 0)
  }

  lemma {:induction false} StubsPrefix(t: Table, k: nat, n: nat, common: nat)
    requires k <= n <= |t.stubs|
    ensures StubsCode(t, k, common) <= StubsCode(t, n, common)
    decreases n
  {
    hide StubBody;
    if k < n {
      StubsPrefix(t, k, n - 1, common);
    }
  }

  lemma StubFound(m: Machine, t: Table, k: nat, i: nat)
    requires Loaded(m, t) && k < |t.stubs| && i < |StubBody(t, k)|
    ensures EntryAt(t, k) + i < |m.code| && m.code[EntryAt(t, k) + i] == StubBody(t, k)[i]
  {
    hide StubBody, Loaded, CommonAt, StubsLength, StubsCode;
    var front := StubsCode(t, k, CommonAt(t)) + (if k > 0 then [Branch(Local(CommonAt(t)))] else []);
    assert |front| == EntryAt(t, k);
    StubPrefix(m, t, k);
    hide *;
    assert front + StubBody(t, k) + [] == front + StubBody(t, k);
    PartAt(front, StubBody(t, k), [], m.code, i);
  }

  lemma StubPrefix(m: Machine, t: Table, k: nat)
    requires Loaded(m, t) && k < |t.stubs|
    ensures StubsCode(t, k, CommonAt(t)) + (if k > 0 then [Branch(Local(CommonAt(t)))] else []) + StubBody(t, k) <= m.code
  {
    AllPrefix(m, t);
    StubsPrefix(t, k + 1, |t.stubs|, CommonAt(t));
    hide StubBody, Code, Loaded;
    assert StubsCode(t, k + 1, CommonAt(t))
        == StubsCode(t, k, CommonAt(t)) + (if k > 0 then [Branch(Local(CommonAt(t)))] else []) + StubBody(t, k);
  }

  lemma AllPrefix(m: Machine, t: Table)
    requires Loaded(m, t)
    ensures StubsCode(t, |t.stubs|, CommonAt(t)) <= m.code
  {
    assert StubsCode(t, |t.stubs|, CommonAt(t)) <= Code(t);
  }

  lemma BranchFound(m: Machine, t: Table, k: nat)
    requires Loaded(m, t) && 0 < k < |t.stubs|
    ensures StubsLength(t, k) < |m.code| && m.code[StubsLength(t, k)] == Branch(Local(CommonAt(t)))
  {
    var ve := CommonAt(t);
    StubsPrefix(t, k + 1, |t.stubs|, ve);
    AllPrefix(m, t);
    assert StubsCode(t, k + 1, ve) == StubsCode(t, k, ve) + [Branch(Local(ve))] + StubBody(t, k);
    PartAt(StubsCode(t, k, ve), [Branch(Local(ve))], StubBody(t, k), m.code, 0);
  }

  // ------------------------------------------------------ straight-line code

  /** The instructions sit at index i of the program. */
  ghost predicate Found(m: Machine, i: nat, instrs: seq<Instr>) {
    && i + |instrs| <= |m.code|
    && forall k :: 0 <= k < |instrs| ==> m.code[i + k] == instrs[k]
  }

  lemma FoundSplit(m: Machine, i: nat, a: seq<Instr>, b: seq<Instr>)
    requires Found(m, i, a + b)
    ensures Found(m, i, a) && Found(m, i + |a|, b)
  {
    forall k | 0 <= k < |a| ensures m.code[i + k] == a[k] { assert m.code[i + k] == (a + b)[k]; }
    forall k | 0 <= k < |b| ensures m.code[i + |a| + k] == b[k] {
      assert m.code[i + (|a| + k)] == (a + b)[|a| + k];
    }
  }

  lemma FoundFirst(m: Machine, i: nat, instrs: seq<Instr>)
    requires Found(m, i, instrs) && instrs != []
    ensures i < |m.code| && m.code[i] == instrs[0] && Found(m, i + 1, instrs[1..])
  {
    assert m.code[i + 0] == instrs[0];
    assert instrs == [instrs[0]] + instrs[1..];
    FoundSplit(m, i, [instrs[0]], instrs[1..]);
  }

  predicate Straight(instrs: seq<Instr>) {
    forall k :: 0 <= k < |instrs| ==> instrs[k].Other? || instrs[k].MovReg?
  }

  /** What is in src beforehand is in dst afterwards. */
  predicate Carries(instrs: seq<Instr>, src: Reg, dst: Reg)
    decreases |instrs|
  {
    if instrs == [] then src == dst
    else match instrs[0]
      case Other(writes) => src !in writes && Carries(instrs[1..], src, dst)
      case MovReg(rd, rm) => if rm == src then Carries(instrs[1..], rd, dst) else rd != src && Carries(instrs[1..], src, dst)
      case _ => false
  }

  lemma {:induction false} RunStraight(m: Machine, s: State, i: nat, instrs: seq<Instr>, src: Reg, dst: Reg) returns (t: State)
    requires At(m, s, i) && Found(m, i, instrs) && Carries(instrs, src, dst)
    ensures Reaches(m, s, t) && At(m, t, i + |instrs|) && t.regs(dst) == s.regs(src)
    decreases |instrs|
  {
    if instrs == [] {
      t := s;
      ReachesStep(m, s);
    } else {
      FoundFirst(m, i, instrs);
      StepIs(m, s, i);
      var s1 := Step(m, s);
      var src1 := if instrs[0].MovReg? && instrs[0].rm == src then instrs[0].rd else src;
      assert At(m, s1, i + 1) && s1.regs(src1) == s.regs(src);
      t := RunStraight(m, s1, i + 1, instrs[1..], src1, dst);
      ReachesTrans(m, s, s1, t);
    }
  }

  // --------------------------------------------------------- running a stub

  lemma {:induction false} RunTeqs(m: Machine, s: State, i: nat, filter: seq<word>, k: nat) returns (t: State)
    requires At(m, s, i) && 1 <= k <= |filter| && Found(m, i, Teqs(filter, k))
    ensures Reaches(m, s, t) && At(m, t, i + k) && t.regs == s.regs
    ensures t.flags.z <==> s.regs(0) in filter[..k]
    decreases k
  {
    var s1 := s;
    ReachesStep(m, s);
    var fewer, one := Teqs(filter, k - 1), [TeqImm(k > 1, 0, filter[k - 1])];
    assert Teqs(filter, k) == fewer + one;
    FoundSplit(m, i, fewer, one);
    FoundFirst(m, i + (k - 1), one);
    if k > 1 {
      s1 := RunTeqs(m, s, i, filter, k - 1);
    }
    StepIs(m, s1, i + k - 1);
    t := Step(m, s1);
    ReachesTrans(m, s, s1, t);
    assert filter[..k] == filter[..k - 1] + [filter[k - 1]];
  }

  /** An event stub lets exactly the listed events through. */
  lemma RunFilter(m: Machine, s: State, i: nat, filter: seq<word>) returns (t: State)
    requires At(m, s, i) && Found(m, i, FilterCode(filter))
    ensures Reaches(m, s, t)
    ensures filter == [] || s.regs(0) in filter ==> At(m, t, i + |FilterCode(filter)|) && t.regs == s.regs
    ensures filter != [] && s.regs(0) !in filter ==> t == Returned(s.regs(14), s.regs)
  {
    var n := |filter|;
    if filter == [] {
      t := s;
      ReachesStep(m, s);
    } else {
      FoundSplit(m, i, Teqs(filter, n), [ReturnNe]);
      FoundFirst(m, i + n, [ReturnNe]);
      var s1 := RunTeqs(m, s, i, filter, n);
      assert filter[..n] == filter;
      StepIs(m, s1, i + n);
      t := Step(m, s1);
      ReachesTrans(m, s, s1, t);
    }
  }

  /** The prologue of a stub touches neither the program counter nor anything needed later. */
  ghost predicate GoodStub(b: Stub) {
    Straight(b.prologue)
  }

  lemma {:induction false} RunPrologue(m: Machine, s: State, i: nat, instrs: seq<Instr>) returns (t: State)
    requires At(m, s, i) && Found(m, i, instrs) && Straight(instrs)
    ensures Reaches(m, s, t) && At(m, t, i + |instrs|)
    decreases |instrs|
  {
    if instrs == [] {
      t := s;
      ReachesStep(m, s);
    } else {
      FoundFirst(m, i, instrs);
      StepIs(m, s, i);
      var s1 := Step(m, s);
      t := RunPrologue(m, s1, i + 1, instrs[1..]);
      ReachesTrans(m, s, s1, t);
    }
  }

  /** From its entry, stub k reaches the common code with its own index loaded,
      or returns to the caller for an event that is not listed. */
  lemma RunStub(m: Machine, t: Table, k: nat, s: State) returns (u: State)
    requires Loaded(m, t) && k < |t.stubs| && GoodStub(t.stubs[k]) && At(m, s, EntryAt(t, k))
    ensures Reaches(m, s, u)
    ensures var f := t.stubs[k].filter;
      if f == [] || s.regs(0) in f then At(m, u, CommonAt(t)) && u.regs(t.indexReg) == t.stubs[k].value
      else u == Returned(s.regs(14), s.regs)
  {
    var b, i := t.stubs[k], EntryAt(t, k);
    hide *;
    StubParts(m, t, k);
    Accepts(m, s, i);
    u := RunFilter(m, s, i, b.filter);
    if b.filter == [] || s.regs(0) in b.filter {
      var s1 := u;
      u := RunAccepted(m, t, k, s1);
      ReachesTrans(m, s, s1, u);
    }
  }

  lemma Accepts(m: Machine, s: State, i: nat)
    requires At(m, s, i)
    ensures s.Running?
  {
  }

  lemma RunAccepted(m: Machine, t: Table, k: nat, s: State) returns (u: State)
    requires Loaded(m, t) && k < |t.stubs| && GoodStub(t.stubs[k])
    requires At(m, s, EntryAt(t, k) + |FilterCode(t.stubs[k].filter)|)
    ensures Reaches(m, s, u) && At(m, u, CommonAt(t)) && u.regs(t.indexReg) == t.stubs[k].value
  {
    hide *;
    StubParts(m, t, k);
    BodyIs(t, k);
    StraightPrologue(t.stubs[k]);
    var s1 := RunLoad(m, s, EntryAt(t, k) + |FilterCode(t.stubs[k].filter)|, t.stubs[k].prologue, t.indexReg, t.stubs[k].value);
    u := RunExit(m, t, k, s1);
    ReachesTrans(m, s, s1, u);
  }

  lemma StraightPrologue(b: Stub)
    requires GoodStub(b)
    ensures Straight(b.prologue)
  {
  }

  /** A prologue and the instruction that loads the index. */
  lemma RunLoad(m: Machine, s: State, i: nat, prologue: seq<Instr>, r: Reg, v: word) returns (u: State)
    requires At(m, s, i) && Found(m, i, prologue) && Straight(prologue)
    requires i + |prologue| < |m.code| && m.code[i + |prologue|] == MovImm(r, v)
    ensures Reaches(m, s, u) && At(m, u, i + |prologue| + 1) && u.regs(r) == v
  {
    hide Reaches, Found, Straight, Address;
    var s1 := RunPrologue(m, s, i, prologue);
    u := RunIndex(m, s1, i + |prologue|, r, v);
    ReachesTrans(m, s, s1, u);
  }

  lemma RunIndex(m: Machine, s: State, i: nat, r: Reg, v: word) returns (u: State)
    requires At(m, s, i) && i < |m.code| && m.code[i] == MovImm(r, v)
    ensures Reaches(m, s, u) && At(m, u, i + 1) && u.regs(r) == v
  {
    hide Reaches;
    StepIs(m, s, i);
    u := Step(m, s);
  }

  /** Index of the instruction that loads the index of stub k. */
  function IndexAt(t: Table, k: nat): nat
    requires k < |t.stubs|
  {
    EntryAt(t, k) + |FilterCode(t.stubs[k].filter)| + |t.stubs[k].prologue|
  }

  lemma StubParts(m: Machine, t: Table, k: nat)
    requires Loaded(m, t) && k < |t.stubs|
    ensures Found(m, EntryAt(t, k), FilterCode(t.stubs[k].filter))
    ensures Found(m, EntryAt(t, k) + |FilterCode(t.stubs[k].filter)|, t.stubs[k].prologue)
    ensures IndexAt(t, k) < |m.code| && m.code[IndexAt(t, k)] == MovImm(t.indexReg, t.stubs[k].value)
  {
    hide *;
    BodyIs(t, k);
    BodyFound(m, t, k);
    ThreeParts(m, EntryAt(t, k), FilterCode(t.stubs[k].filter), t.stubs[k].prologue, MovImm(t.indexReg, t.stubs[k].value));
  }

  lemma ThreeParts(m: Machine, i: nat, f: seq<Instr>, p: seq<Instr>, last: Instr)
    requires Found(m, i, f + p + [last])
    ensures Found(m, i, f) && Found(m, i + |f|, p)
    ensures i + |f| + |p| < |m.code| && m.code[i + |f| + |p|] == last
  {
    FoundSplit(m, i, f + p, [last]);
    FoundSplit(m, i, f, p);
    FoundFirst(m, i + |f + p|, [last]);
    hide Found;
  }

  lemma BodyIs(t: Table, k: nat)
    requires k < |t.stubs|
    ensures StubBody(t, k) == FilterCode(t.stubs[k].filter) + t.stubs[k].prologue + [MovImm(t.indexReg, t.stubs[k].value)]
    ensures StubsLength(t, k + 1) == EntryAt(t, k) + |StubBody(t, k)| == IndexAt(t, k) + 1
    ensures IndexAt(t, k) == EntryAt(t, k) + |FilterCode(t.stubs[k].filter)| + |t.stubs[k].prologue|
  {
    hide FilterCode;
  }

  lemma BodyFound(m: Machine, t: Table, k: nat)
    requires Loaded(m, t) && k < |t.stubs|
    ensures Found(m, EntryAt(t, k), StubBody(t, k))
  {
    var body := StubBody(t, k);
    hide StubBody, Loaded, StubsLength;
    StubFound(m, t, k, |body| - 1);
    forall j | 0 <= j < |body| ensures m.code[EntryAt(t, k) + j] == body[j] { StubFound(m, t, k, j); }
  }

  /** Behind the index: a branch to the common code, or the common code itself. */
  lemma RunExit(m: Machine, t: Table, k: nat, s: State) returns (u: State)
    requires Loaded(m, t) && k < |t.stubs| && At(m, s, StubsLength(t, k + 1))
    ensures Reaches(m, s, u) && At(m, u, CommonAt(t)) && u.regs == s.regs
  {
    hide *;
    if k + 1 == |t.stubs| {
      u := s;
      ReachesStep(m, s);
      CommonIs(t);
    } else {
      BranchFound(m, t, k + 1);
      u := RunBranch(m, s, StubsLength(t, k + 1), CommonAt(t));
    }
  }

  lemma CommonIs(t: Table)
    ensures CommonAt(t) == StubsLength(t, |t.stubs|)
  {
  }

  lemma RunBranch(m: Machine, s: State, i: nat, to: nat) returns (u: State)
    requires At(m, s, i) && i < |m.code| && m.code[i] == Branch(Local(to))
    ensures s.Running? && Reaches(m, s, u) && At(m, u, to) && u.regs == s.regs
  {
    hide Reaches;
    StepIs(m, s, i);
    u := Step(m, s);
  }

  // ----------------------------------------------------- running the table

  /** From the link code on: r14 holds the return label, the index is untouched. */
  lemma RunLink(m: Machine, t: Table, s: State) returns (u: State)
    requires Loaded(m, t) && At(m, s, LinkAt(t)) && t.dispatchReg != 14
    ensures Reaches(m, s, u) && At(m, u, LabelAt(t))
    ensures u.regs(14) == Address(m, ReturnAt(t)) && u.regs(t.dispatchReg) == s.regs(t.dispatchReg)
  {
    LinkFound(m, t);
    EndsInside(m, t);
    var i, lab, ret := LinkAt(t), LabelAt(t), ReturnAt(t);
    assert lab <= ret && Placed(m);
    if t.link.TwoStep? {
      assert m.code[i + 0] == MovLrPc && m.code[i + 1] == AddLr(4 * (ret - lab));
      hide Loaded, Code, LinkCode, LinkAt, LabelAt, ReturnAt;
      u := RunTwoStep(m, s, i, ret, t.dispatchReg);
    } else {
      assert m.code[i + 0] == AddLrPc(4 * (ret - lab) - 4);
      hide Loaded, Code, LinkCode, LinkAt, LabelAt, ReturnAt;
      u := RunOneStep(m, s, i, ret, t.dispatchReg);
    }
  }

  lemma RunTwoStep(m: Machine, s: State, i: nat, ret: nat, r: Reg) returns (u: State)
    requires Placed(m) && At(m, s, i) && i + 2 <= ret <= |m.code| && r != 14
    requires 4 * (ret - (i + 2)) < WORDS
    requires m.code[i] == MovLrPc && m.code[i + 1] == AddLr(4 * (ret - (i + 2)))
    ensures Reaches(m, s, u) && At(m, u, i + 2)
    ensures u.regs(14) == Address(m, ret) && u.regs(r) == s.regs(r)
  {
    hide Reaches;
    StepIs(m, s, i);
    var s1 := Step(m, s);
    assert At(m, s1, i + 1) && s1.regs(14) == Address(m, i + 2) && s1.regs(r) == s.regs(r);
    StepIs(m, s1, i + 1);
    u := Step(m, s1);
    ReachesTrans(m, s, s1, u);
  }

  lemma RunOneStep(m: Machine, s: State, i: nat, ret: nat, r: Reg) returns (u: State)
    requires Placed(m) && At(m, s, i) && i + 2 <= ret <= |m.code| && r != 14
    requires 4 * (ret - (i + 1)) < WORDS
    requires m.code[i] == AddLrPc(4 * (ret - (i + 1)) - 4)
    ensures Reaches(m, s, u) && At(m, u, i + 1)
    ensures u.regs(14) == Address(m, ret) && u.regs(r) == s.regs(r)
  {
    hide Reaches;
    StepIs(m, s, i);
    u := Step(m, s);
  }

  lemma EndsInside(m: Machine, t: Table)
    requires Loaded(m, t)
    ensures ReturnAt(t) <= |m.code|
  {
    assert |Code(t)| == ReturnAt(t);
  }

  /** What the guard lets through. */
  predicate Passes(t: Table, v: word) {
    match t.guard
    case Unguarded => true
    case Guarded(cond, count, _) =>
      match cond
      case Always => true
      case LessSigned => Signed(v) < Signed(count)
      case LowerUnsigned => v < count
  }

  lemma RunGuard(m: Machine, t: Table, s: State) returns (u: State)
    requires Loaded(m, t) && At(m, s, LabelAt(t))
    ensures Reaches(m, s, u) && At(m, u, JumpAt(t)) && u.regs == s.regs
    ensures t.guard.Guarded? ==> (Holds(t.guard.cond, u.flags) <==> Passes(t, s.regs(t.dispatchReg)))
  {
    if t.guard.Guarded? {
      GuardFound(m, t);
      hide Loaded;
      StepIs(m, s, LabelAt(t));
      u := Step(m, s);
    } else {
      u := s;
      ReachesStep(m, s);
    }
  }

  /** Arriving at a destination: in the handler, or at the code for "no handler". */
  ghost predicate Arrived(m: Machine, t: Table, d: Dest, u: State) {
    match d
    case Handler(name) => u.Entered? && u.name == name && u.regs(14) == Address(m, ReturnAt(t))
    case NoHandler => At(m, u, TailAt(t)) && u.regs(14) == Address(m, ReturnAt(t))
  }

  lemma RunGoto(m: Machine, t: Table, s: State, i: nat, d: Dest) returns (u: State)
    requires At(m, s, i) && i < |m.code| && m.code[i] == Goto(t, d)
    requires s.regs(14) == Address(m, ReturnAt(t))
    ensures Reaches(m, s, u) && Arrived(m, t, d, u) && (u.Running? || u.Entered?) && u.regs == s.regs
  {
    StepIs(m, s, i);
    u := Step(m, s);
  }

  /** An index that passes the guard and is j words long lands in slot j. */
  lemma RunJump(m: Machine, t: Table, s: State, j: nat) returns (u: State)
    requires Loaded(m, t) && At(m, s, JumpAt(t)) && j < |t.slots|
    requires t.guard.Guarded? ==> Holds(t.guard.cond, s.flags)
    requires Shifted(s.regs(t.dispatchReg), t.lsl) == 4 * j
    ensures Reaches(m, s, u) && At(m, u, SlotsAt(t) + j) && u.regs == s.regs
  {
    JumpFound(m, t);
    EndsInside(m, t);
    var i, cond := JumpAt(t), if t.guard.Guarded? then t.guard.cond else Always;
    assert m.code[i] == AddPc(cond, t.dispatchReg, t.lsl) && Placed(m) && i + 2 + j < |m.code|;
    assert Holds(cond, s.flags) && SlotsAt(t) == i + 2;
    hide *;
    u := RunAddPc(m, s, i, cond, t.dispatchReg, t.lsl, j);
  }

  lemma RunAddPc(m: Machine, s: State, i: nat, cond: Cond, r: Reg, lsl: nat, j: nat) returns (u: State)
    requires Placed(m) && At(m, s, i) && i + 2 + j < |m.code| && m.code[i] == AddPc(cond, r, lsl)
    requires Holds(cond, s.flags) && Shifted(s.regs(r), lsl) == 4 * j
    ensures Reaches(m, s, u) && At(m, u, i + 2 + j) && u.regs == s.regs
  {
    hide Reaches, Shifted;
    StepIs(m, s, i);
    u := Step(m, s);
    JumpSum(Address(m, i), 4 * j);
  }

  lemma JumpSum(at: int, offset: int)
    requires 0 <= at && 0 <= offset && at + 8 + offset < WORDS
    ensures ((at + 8) % WORDS + offset) % WORDS == at + 8 + offset
  {
  }

  lemma RunPast(m: Machine, t: Table, s: State) returns (u: State)
    requires Loaded(m, t) && At(m, s, JumpAt(t)) && t.guard.Guarded? && !Holds(t.guard.cond, s.flags)
    ensures Reaches(m, s, u) && At(m, u, JumpAt(t) + 1) && u.regs == s.regs
  {
    hide *;
    JumpFound(m, t);
    JumpIs(t);
    u := RunNotTaken(m, s, JumpAt(t), t.guard.cond, t.dispatchReg, t.lsl);
  }

  lemma JumpIs(t: Table)
    requires t.guard.Guarded?
    ensures JumpAt(t) + 2 == SlotsAt(t) && |JumpCode(t)| == 2 && JumpCode(t)[0] == AddPc(t.guard.cond, t.dispatchReg, t.lsl)
  {
  }

  lemma RunNotTaken(m: Machine, s: State, i: nat, cond: Cond, r: Reg, lsl: nat) returns (u: State)
    requires At(m, s, i) && i < |m.code| && m.code[i] == AddPc(cond, r, lsl) && !Holds(cond, s.flags)
    ensures Reaches(m, s, u) && At(m, u, i + 1) && u.regs == s.regs
  {
    hide Reaches, Shifted;
    StepIs(m, s, i);
    u := Step(m, s);
  }

  /** From the common code with index v: slot j when v stands for j and passes the
      guard, the guard's other destination when it does not pass. */
  lemma RunTable(m: Machine, t: Table, s: State, j: nat) returns (u: State)
    requires Loaded(m, t) && At(m, s, CommonAt(t)) && t.dispatchReg != 14
    requires Carries(t.common, t.indexReg, t.dispatchReg)
    requires Passes(t, s.regs(t.indexReg)) ==> j < |t.slots| && Shifted(s.regs(t.indexReg), t.lsl) == 4 * j
    ensures Reaches(m, s, u)
    ensures Passes(t, s.regs(t.indexReg)) ==> Arrived(m, t, t.slots[j], u)
    ensures !Passes(t, s.regs(t.indexReg)) ==> t.guard.Guarded? && Arrived(m, t, t.guard.otherwise, u)
    ensures (u.Running? || u.Entered?) && u.regs(t.dispatchReg) == s.regs(t.indexReg)
  {
    CommonAll(m, t);
    hide *;
    var s1 := RunStraight(m, s, CommonAt(t), t.common, t.indexReg, t.dispatchReg);
    LinkIs(t);
    var s2 := RunLink(m, t, s1);
    ReachesTrans(m, s, s1, s2);
    var s3 := RunGuard(m, t, s2);
    ReachesTrans(m, s, s2, s3);
    PassesIs(t, s.regs(t.indexReg));
    if Passes(t, s.regs(t.indexReg)) {
      var s4 := RunJump(m, t, s3, j);
      ReachesTrans(m, s, s3, s4);
      SlotFound(m, t, j);
      u := RunGoto(m, t, s4, SlotsAt(t) + j, t.slots[j]);
      ReachesTrans(m, s, s4, u);
    } else {
      var s4 := RunPast(m, t, s3);
      ReachesTrans(m, s, s3, s4);
      OtherwiseFound(m, t);
      u := RunGoto(m, t, s4, JumpAt(t) + 1, t.guard.otherwise);
      ReachesTrans(m, s, s4, u);
    }
  }

  lemma LinkIs(t: Table)
    ensures LinkAt(t) == CommonAt(t) + |t.common|
  {
  }

  lemma PassesIs(t: Table, v: word)
    ensures !Passes(t, v) ==> t.guard.Guarded?
  {
  }

  lemma OtherwiseFound(m: Machine, t: Table)
    requires Loaded(m, t) && t.guard.Guarded?
    ensures JumpAt(t) + 1 < |m.code| && m.code[JumpAt(t) + 1] == Goto(t, t.guard.otherwise)
  {
    JumpFound(m, t);
  }

  lemma CommonAll(m: Machine, t: Table)
    requires Loaded(m, t)
    ensures Found(m, CommonAt(t), t.common)
  {
    EndsInside(m, t);
    hide Loaded, Code, StubsLength;
    forall k | 0 <= k < |t.common| ensures m.code[CommonAt(t) + k] == t.common[k] { CommonFound(m, t, k); }
  }

  /** A whole call through stub k: the handler of slot j, with r14 at the return
      label and the index in its register; or straight back to the caller for an
      event that is not listed. */
  lemma RunEntry(m: Machine, t: Table, k: nat, j: nat, s: State) returns (u: State)
    requires Loaded(m, t) && k < |t.stubs| && GoodStub(t.stubs[k]) && At(m, s, EntryAt(t, k))
    requires t.dispatchReg != 14 && Carries(t.common, t.indexReg, t.dispatchReg)
    requires Passes(t, t.stubs[k].value) && j < |t.slots| && Shifted(t.stubs[k].value, t.lsl) == 4 * j
    ensures Reaches(m, s, u)
    ensures var f := t.stubs[k].filter;
      if f == [] || s.regs(0) in f
      then Arrived(m, t, t.slots[j], u) && (u.Running? || u.Entered?) && u.regs(t.dispatchReg) == t.stubs[k].value
      else u == Returned(s.regs(14), s.regs)
  {
    hide Loaded, Reaches, Arrived, Passes, Carries, EntryAt, CommonAt, GoodStub, Shifted, Address;
    u := RunStub(m, t, k, s);
    var f := t.stubs[k].filter;
    if f == [] || s.regs(0) in f {
      var s1 := u;
      u := RunTable(m, t, s1, j);
      ReachesTrans(m, s, s1, u);
    }
  }
}
