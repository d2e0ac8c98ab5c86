/** Jump tables as cmunge lays them out: entry stubs that load an index, common
    code, a return address computed from the program counter, and an addition
    to the program counter that lands in a list of branches. The machine reads
    pc as the address of the current instruction plus 8 (section A2.4.3 of the
    ARM Architecture Reference Manual, ARM DDI 0100I). */
module ArmDispatch {

  const WORDS: int := 0x1_0000_0000

  type word = x: int | 0 <= x < WORDS

  type Reg = nat

  // ---------------------------------------------------------- the machine

  /** Branch targets: an instruction of this program, or an imported routine. */
  datatype Target = Local(index: nat) | External(name: string)

  datatype Cond = Always | LessSigned | LowerUnsigned

  datatype Instr =
    | MovImm(rd: Reg, imm: word)                // MOV rd,#imm
    | MovReg(rd: Reg, rm: Reg)                  // MOV rd,rm
    | TeqImm(ne: bool, rn: Reg, imm: word)      // TEQ{NE} rn,#imm
    | ReturnNe                                  // MOVNE pc,r14
    | CmpImm(rn: Reg, imm: word)                // CMP rn,#imm
    | MovLrPc                                   // MOV r14,pc
    | AddLr(imm: word)                          // ADD r14,r14,#imm
    | AddLrPc(imm: word)                        // ADD r14,pc,#imm
    | AddPc(cond: Cond, rm: Reg, lsl: nat)      // ADD{cond} pc,pc,rm{,LSL #lsl}
    | Branch(to: Target)                        // B target
    | Other(writes: set<Reg>)                   // anything else that falls through

  datatype Flags = Flags(z: bool, lower: bool, less: bool)

  /** Running at an address, gone to an imported routine, returned to an
      address, or outside the program. */
  datatype State =
    | Running(at: int, regs: Reg -> word, flags: Flags)
    | Entered(name: string, regs: Reg -> word)
    | Returned(to: word, regs: Reg -> word)
    | Lost

  /** A program at an address. What the other instructions write is arbitrary. */
  datatype Machine = Machine(base: int, code: seq<Instr>, noise: (int, Reg) -> word, noiseFlags: int -> Flags)

  function Set(regs: Reg -> word, r: Reg, v: word): Reg -> word {
    x => if x == r then v else regs(x)
  }

  function Scramble(m: Machine, at: int, regs: Reg -> word, writes: set<Reg>): Reg -> word {
    x => if x in writes then m.noise(at, x) else regs(x)
  }

  function Signed(v: word): int { if v < 0x8000_0000 then v else v - WORDS }

  function Shifted(v: word, lsl: nat): word { if lsl == 2 then v * 4 % WORDS else v }

  predicate Holds(cond: Cond, f: Flags) {
    match cond case Always => true case LessSigned => f.less case LowerUnsigned => f.lower
  }

  function Address(m: Machine, i: int): int { m.base + 4 * i }

  /** Fetching and executing one instruction. */
  function Step(m: Machine, s: State): State {
    if !s.Running? then s
    else if (s.at - m.base) % 4 != 0 || !(0 <= (s.at - m.base) / 4 < |m.code|) then Lost
    else Exec(m, m.code[(s.at - m.base) / 4], s)
  }

  function Exec(m: Machine, i: Instr, s: State): State
    requires s.Running?
  {
      var at, regs, f := s.at, s.regs, s.flags;
      var next := at + 4;
      var pc := (at + 8) % WORDS;
      match i
      case MovImm(rd, imm) => Running(next, Set(regs, rd, imm), f)
      case MovReg(rd, rm) => Running(next, Set(regs, rd, regs(rm)), f)
      case TeqImm(ne, rn, imm) => Running(next, regs, if ne && f.z then f else f.(z := regs(rn) == imm))
      case ReturnNe => if f.z then Running(next, regs, f) else Returned(regs(14), regs)
      case CmpImm(rn, imm) =>
        Running(next, regs, Flags(regs(rn) == imm, regs(rn) < imm, Signed(regs(rn)) < Signed(imm)))
      case MovLrPc => Running(next, Set(regs, 14, pc), f)
      case AddLr(imm) => Running(next, Set(regs, 14, (regs(14) + imm) % WORDS), f)
      case AddLrPc(imm) => Running(next, Set(regs, 14, (pc + imm) % WORDS), f)
      case AddPc(cond, rm, lsl) =>
        if Holds(cond, f) then Running((pc + Shifted(regs(rm), lsl)) % WORDS, regs, f) else Running(next, regs, f)
      case Branch(to) =>
        (match to case Local(i) => Running(Address(m, i), regs, f) case External(name) => Entered(name, regs))
      case Other(writes) => Running(next, Scramble(m, at, regs, writes), m.noiseFlags(at))
  }

  function Steps(m: Machine, s: State, n: nat): State
    decreases n
  {
    if n == 0 then s else Steps(m, Step(m, s), n - 1)
  }

  lemma {:induction false} StepsAdd(m: Machine, s: State, a: nat, b: nat)
    ensures Steps(m, Steps(m, s, a), b) == Steps(m, s, a + b)
    decreases a
  {
    hide Step;
    if a > 0 {
      StepsAdd(m, Step(m, s), a - 1, b);
    }
  }

  /** t is reached from s in some number of steps. */
  ghost predicate Reaches(m: Machine, s: State, t: State) {
    exists n: nat :: Steps(m, s, n) == t
  }

  lemma ReachesStep(m: Machine, s: State)
    ensures Reaches(m, s, Step(m, s)) && Reaches(m, s, s)
  {
    assert Steps(m, s, 1) == Steps(m, Step(m, s), 0);
    assert Steps(m, s, 0) == s;
  }

  lemma ReachesTrans(m: Machine, s: State, t: State, u: State)
    requires Reaches(m, s, t) && Reaches(m, t, u)
    ensures Reaches(m, s, u)
  {
    var a: nat :| Steps(m, s, a) == t;
    var b: nat :| Steps(m, t, b) == u;
    StepsAdd(m, s, a, b);
  }

  /** The program lies in memory without wrapping. */
  predicate Placed(m: Machine) {
    0 <= m.base && m.base + 4 * |m.code| + 8 < WORDS
  }

  predicate At(m: Machine, s: State, i: nat) {
    s.Running? && s.at == Address(m, i)
  }

  /** Fetching by index. */
  lemma StepIs(m: Machine, s: State, i: nat)
    requires At(m, s, i) && i < |m.code|
    ensures Step(m, s) == Exec(m, m.code[i], s)
    ensures Reaches(m, s, Step(m, s))
  {
    hide Exec;
    ReachesStep(m, s);
  }
}
