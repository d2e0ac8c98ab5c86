/** The jump tables of cmunge (writefile.c, 32-bit path): the loops that number
    the entries, the separate loops that lay out the branches, and the theorem
    that every entry ends up in its own handler. */
module CmungeTables {
  import opened ArmDispatch
  import opened DispatchTable

  datatype Option<+T> = None | Some(value: T)

  /** A handler_list element: a name, an optional handler, the accepted events,
      and the flags of vectors and generics. */
  datatype Entry = Entry(
    name: string, handler: Option<string>, events: seq<word>,
    errorCapable: bool, carryCapable: bool, privateWord: Option<Reg>)

  /** The routine an entry is meant for. */
  function HandlerOf(e: Entry): string {
    if e.handler.Some? then e.handler.value else e.name + "_handler"
  }

  /** n instructions that fall through and may write these registers. */
  function Scratch(n: nat, writes: set<Reg>): seq<Instr> {
    seq(n, _ => Other(writes))
  }

  lemma {:induction false} ScratchCarries(n: nat, writes: set<Reg>, r: Reg, rest: seq<Instr>, dst: Reg)
    requires r !in writes && Carries(rest, r, dst)
    ensures Carries(Scratch(n, writes) + rest, r, dst)
    decreases n
  {
    if n == 0 {
      assert Scratch(0, writes) + rest == rest;
    } else {
      ScratchCarries(n - 1, writes, r, rest, dst);
      assert (Scratch(n, writes) + rest)[1..] == Scratch(n - 1, writes) + rest;
    }
  }

  lemma MoveCarries(rd: Reg, rm: Reg, rest: seq<Instr>, dst: Reg)
    requires Carries(rest, rd, dst)
    ensures Carries([MovReg(rd, rm)] + rest, rm, dst)
  {
    assert ([MovReg(rd, rm)] + rest)[1..] == rest;
  }

  lemma NothingCarries(r: Reg)
    ensures Carries([], r, r)
  {
  }

  /** STMDB r13!,{...}. */
  const SaveRegisters: seq<Instr> := [Other({13})]

  function Slots(list: seq<Entry>): seq<Dest> {
    seq(|list|, k requires 0 <= k < |list| => Handler(HandlerOf(list[k])))
  }

  /** A loop that writes one branch per element. */
  method EmitSlots(list: seq<Entry>) returns (slots: seq<Dest>)
    ensures slots == Slots(list)
  {
    slots := [];
    for i := 0 to |list|
      invariant slots == Slots(list)[..i]
    {
      if list[i].handler.Some? {
        slots := slots + [Handler(list[i].handler.value)];
      } else {
        slots := slots + [Handler(list[i].name + "_handler")];
      }
    }
  }

  // -------------------------------------------- events, vectors and interrupts

  /** The registers that the mode change and the library set-up may write. */
  const VeneerScratch: set<Reg> := {0, 1, 3, 4, 5, 6, 7, 8, 10, 11, 12, 13, 14}

  function VeneerStub(e: Entry, n: nat): Stub
    requires n < 0x4000_0000
  {
    Stub(e.events, SaveRegisters, if e.errorCapable then n + 0x8000_0000 else n)
  }

  function VeneerStubs(list: seq<Entry>): seq<Stub>
    requires |list| <= 0x4000_0000
  {
    seq(|list|, k requires 0 <= k < |list| => VeneerStub(list[k], k))
  }

  function VeneerTable(stubs: seq<Stub>, slots: seq<Dest>): Table {
    Table(9, stubs, Scratch(18, VeneerScratch), 9, OneStep, Unguarded, 2, slots, [])
  }

  /** Only events have a filter and only vectors can return errors. */
  predicate WellTyped(events: seq<Entry>, vectors: seq<Entry>, irqs: seq<Entry>) {
    && (forall k :: 0 <= k < |events| ==> !events[k].errorCapable)
    && (forall k :: 0 <= k < |vectors| ==> vectors[k].events == [])
    && (forall k :: 0 <= k < |irqs| ==> !irqs[k].errorCapable && irqs[k].events == [])
  }

  /** veneers(): three numbering loops that share a counter, then three loops
      that write the branches. */
  method EmitVeneers(events: seq<Entry>, vectors: seq<Entry>, irqs: seq<Entry>) returns (t: Table)
    requires WellTyped(events, vectors, irqs) && |events| + |vectors| + |irqs| <= 0x4000_0000
    ensures t == VeneerTable(VeneerStubs(events + vectors + irqs), Slots(events + vectors + irqs))
  {
    hide VeneerStubs, WellTyped;
    var stubs := NumberVeneers(events, vectors, irqs);
    var a := EmitSlots(events);
    var b := EmitSlots(vectors);
    var c := EmitSlots(irqs);
    SlotsJoin(events, vectors);
    SlotsJoin(events + vectors, irqs);
    t := VeneerTable(stubs, a + b + c);
  }

  lemma SlotsJoin(a: seq<Entry>, b: seq<Entry>)
    ensures Slots(a + b) == Slots(a) + Slots(b)
  {
  }

  method NumberVeneers(events: seq<Entry>, vectors: seq<Entry>, irqs: seq<Entry>) returns (stubs: seq<Stub>)
    requires WellTyped(events, vectors, irqs) && |events| + |vectors| + |irqs| <= 0x4000_0000
    ensures stubs == VeneerStubs(events + vectors + irqs)
  {
    hide VeneerStubs;
    var n := 0;
    stubs := [];
    NoVeneers();
    for i := 0 to |events|
      invariant n == i && stubs == VeneerStubs(events[..i])
    {
      OneVeneer(events[..i], events[i]);
      assert events[..i + 1] == events[..i] + [events[i]];
      stubs := stubs + [Stub(events[i].events, SaveRegisters, n)];
      n := n + 1;
    }
    ghost var front := events;
    assert events[..|events|] == front == front + vectors[..0];
    for i := 0 to |vectors|
      invariant n == |front| + i && stubs == VeneerStubs(front + vectors[..i])
    {
      OneVeneer(front + vectors[..i], vectors[i]);
      assert front + vectors[..i + 1] == front + vectors[..i] + [vectors[i]];
      if vectors[i].errorCapable {
        stubs := stubs + [Stub([], SaveRegisters, n + 0x8000_0000)];
      } else {
        stubs := stubs + [Stub([], SaveRegisters, n)];
      }
      n := n + 1;
    }
    front := events + vectors;
    assert events + vectors[..|vectors|] == front == front + irqs[..0];
    for i := 0 to |irqs|
      invariant n == |front| + i && stubs == VeneerStubs(front + irqs[..i])
    {
      OneVeneer(front + irqs[..i], irqs[i]);
      assert front + irqs[..i + 1] == front + irqs[..i] + [irqs[i]];
      stubs := stubs + [Stub([], SaveRegisters, n)];
      n := n + 1;
    }
    assert irqs[..|irqs|] == irqs;
  }

  lemma NoVeneers()
    ensures VeneerStubs([]) == []
  {
  }

  lemma OneVeneer(list: seq<Entry>, e: Entry)
    requires |list| < 0x4000_0000
    ensures VeneerStubs(list + [e]) == VeneerStubs(list) + [VeneerStub(e, |list|)]
  {
  }

  /** Calling the veneer of element k of the joined list enters the handler of
      that element with r14 at the return label and, in the top bit of r9, whether
      it can return an error; an event that the element does not list goes
      straight back to the caller. */
  lemma VeneerReachesHandler(m: Machine, list: seq<Entry>, k: nat, s: State) returns (u: State)
    requires |list| <= 0x4000_0000 && k < |list|
    requires Loaded(m, VeneerTable(VeneerStubs(list), Slots(list)))
    requires At(m, s, EntryAt(VeneerTable(VeneerStubs(list), Slots(list)), k))
    ensures Reaches(m, s, u)
    ensures
      var t := VeneerTable(VeneerStubs(list), Slots(list));
      if list[k].events == [] || s.regs(0) in list[k].events
      then
        && u.Entered? && u.regs(14) == Address(m, ReturnAt(t))
        && (list[k].handler.Some? ==> u.name == list[k].handler.value)
        && (list[k].handler.None? ==> u.name == list[k].name + "_handler")
        && u.regs(9) == k + (if list[k].errorCapable then 0x8000_0000 else 0)
      else u == Returned(s.regs(14), s.regs)
  {
    var t := VeneerTable(VeneerStubs(list), Slots(list));
    VeneerFacts(list, k);
    hide *;
    u := RunEntry(m, t, k, k, s);
    ArrivedIs(m, t, list[k], u);
  }

  lemma ArrivedIs(m: Machine, t: Table, e: Entry, u: State)
    ensures Arrived(m, t, Handler(HandlerOf(e)), u) ==>
      && u.Entered? && u.regs(14) == Address(m, ReturnAt(t))
      && (e.handler.Some? ==> u.name == e.handler.value) && (e.handler.None? ==> u.name == e.name + "_handler")
  {
  }

  /** The shift loses the bit that marks error-capable vectors. */
  lemma TopBitLost(n: nat)
    requires n < 0x4000_0000
    ensures Shifted(n, 2) == 4 * n && Shifted(n + 0x8000_0000, 2) == 4 * n
  {
  }

  lemma VeneerFacts(list: seq<Entry>, k: nat)
    requires |list| <= 0x4000_0000 && k < |list|
    ensures var t := VeneerTable(VeneerStubs(list), Slots(list));
      && |t.stubs| == |t.slots| == |list| && t.slots[k] == Handler(HandlerOf(list[k]))
      && t.stubs[k].filter == list[k].events && GoodStub(t.stubs[k]) && t.dispatchReg == 9
      && t.stubs[k].value == k + (if list[k].errorCapable then 0x8000_0000 else 0)
      && Carries(t.common, t.indexReg, t.dispatchReg) && t.dispatchReg != 14
      && Passes(t, t.stubs[k].value) && Shifted(t.stubs[k].value, t.lsl) == 4 * k
  {
    hide Carries, Shifted;
    NothingCarries(9);
    ScratchCarries(18, VeneerScratch, 9, [], 9);
    assert Scratch(18, VeneerScratch) + [] == Scratch(18, VeneerScratch);
    TopBitLost(k);
  }

  // ------------------------------------------------------------ vector traps

  const TrapScratch: set<Reg> := {0, 1, 3, 4, 5, 6, 7, 8, 10, 11, 12, 13, 14}

  function ByteStubs(list: seq<Entry>): seq<Stub>
    requires |list| <= 0x4000_0000
  {
    seq(|list|, k requires 0 <= k < |list| => Stub([], GenericPrologue(list[k]), 4 * k))
  }

  /** A private word in another register than r12 is moved there first. */
  function GenericPrologue(e: Entry): seq<Instr> {
    if e.privateWord.Some? && e.privateWord.value != 12 then SaveRegisters + [Other({12})] else SaveRegisters
  }

  function TrapCommon(): seq<Instr> {
    Scratch(18, TrapScratch) + ([MovReg(12, 2)] + (Scratch(2, {2, 3}) + []))
  }

  function TrapTable(stubs: seq<Stub>, slots: seq<Dest>): Table {
    Table(2, stubs, TrapCommon(), 12, TwoStep, Unguarded, 0, slots, [])
  }

  /** vector_traps(): indices in steps of four. */
  method EmitTraps(list: seq<Entry>) returns (t: Table)
    requires |list| <= 0x4000_0000 && forall k :: 0 <= k < |list| ==> list[k].privateWord.None?
    ensures t == TrapTable(ByteStubs(list), Slots(list))
  {
    var stubs, n := [], 0;
    for i := 0 to |list|
      invariant n == 4 * i && stubs == ByteStubs(list)[..i]
    {
      stubs := stubs + [Stub([], SaveRegisters, n)];
      n := n + 4;
    }
    var slots := EmitSlots(list);
    t := TrapTable(stubs, slots);
  }

  lemma TrapReachesHandler(m: Machine, list: seq<Entry>, k: nat, s: State) returns (u: State)
    requires |list| <= 0x4000_0000 && k < |list|
    requires Loaded(m, TrapTable(ByteStubs(list), Slots(list)))
    requires At(m, s, EntryAt(TrapTable(ByteStubs(list), Slots(list)), k))
    ensures Reaches(m, s, u)
    ensures u.Entered?
    ensures list[k].handler.Some? ==> u.name == list[k].handler.value
    ensures list[k].handler.None? ==> u.name == list[k].name + "_handler"
    ensures u.regs(14) == Address(m, ReturnAt(TrapTable(ByteStubs(list), Slots(list))))
  {
    var t := TrapTable(ByteStubs(list), Slots(list));
    TrapFacts(list, k);
    hide *;
    u := RunEntry(m, t, k, k, s);
    ArrivedIs(m, t, list[k], u);
  }

  lemma TrapFacts(list: seq<Entry>, k: nat)
    requires |list| <= 0x4000_0000 && k < |list|
    ensures var t := TrapTable(ByteStubs(list), Slots(list));
      && |t.stubs| == |t.slots| == |list| && t.slots[k] == Handler(HandlerOf(list[k]))
      && t.stubs[k].filter == [] && GoodStub(t.stubs[k])
      && Carries(t.common, t.indexReg, t.dispatchReg) && t.dispatchReg != 14
      && Passes(t, t.stubs[k].value) && Shifted(t.stubs[k].value, t.lsl) == 4 * k
  {
    hide Carries, TrapCommon;
    TrapCarries();
  }

  lemma TrapCarries()
    ensures Carries(TrapCommon(), 2, 12)
  {
    NothingCarries(12);
    ScratchCarries(2, {2, 3}, 12, [], 12);
    MoveCarries(12, 2, Scratch(2, {2, 3}) + [], 12);
    ScratchCarries(18, TrapScratch, 2, [MovReg(12, 2)] + (Scratch(2, {2, 3}) + []), 12);
  }

  // ---------------------------------------------------------------- generics

  /** The handlers of one carry group, in list order. */
  function Group(list: seq<Entry>, carry: bool): seq<Entry> {
    if list == [] then []
    else
      var n := |list| - 1;
      Group(list[..n], carry) + (if list[n].carryCapable == carry then [list[n]] else [])
  }

  lemma {:induction false} GroupLength(list: seq<Entry>, carry: bool)
    ensures |Group(list, carry)| <= |list|
  {
    if list != [] {
      GroupLength(list[..|list| - 1], carry);
    }
  }

  /** Every element has its place in the group of its own kind: behind the
      elements of that kind that come before it in the list. */
  lemma {:induction false} GroupPosition(list: seq<Entry>, i: nat)
    requires i < |list|
    ensures var carry := list[i].carryCapable; var k := |Group(list[..i], carry)|;
      k < |Group(list, carry)| && Group(list, carry)[k] == list[i]
    decreases |list|
  {
    var n := |list| - 1;
    if i < n {
      GroupPosition(list[..n], i);
      assert list[..n][..i] == list[..i];
    }
  }

  function GenericTable(stubs: seq<Stub>, slots: seq<Dest>): Table {
    Table(2, stubs, Scratch(18, TrapScratch), 2, OneStep, Unguarded, 0, slots, [])
  }

  /** generics() for one value of carry_now: both loops skip the other group. */
  method EmitGenerics(list: seq<Entry>, carry: bool) returns (t: Table)
    requires |list| <= 0x4000_0000
    ensures |Group(list, carry)| <= 0x4000_0000
    ensures t == GenericTable(ByteStubs(Group(list, carry)), Slots(Group(list, carry)))
  {
    GroupLength(list, carry);
    var stubs := NumberGroup(list, carry);
    var slots := BranchGroup(list, carry);
    t := GenericTable(stubs, slots);
  }

  method NumberGroup(list: seq<Entry>, carry: bool) returns (stubs: seq<Stub>)
    requires |list| <= 0x4000_0000 && |Group(list, carry)| <= |list|
    ensures stubs == ByteStubs(Group(list, carry))
  {
    hide Group;
    stubs := [];
    var n := 0;
    NoGroup(list, carry);
    for i := 0 to |list|
      invariant |Group(list[..i], carry)| <= i
      invariant n == 4 * |Group(list[..i], carry)|
      invariant stubs == ByteStubs(Group(list[..i], carry))
    {
      GroupStep(list, i, carry);
      if list[i].carryCapable == carry {
        var prologue := SaveRegisters;
        if list[i].privateWord.Some? && list[i].privateWord.value != 12 {
          prologue := prologue + [Other({12})];
        }
        assert prologue == GenericPrologue(list[i]);
        MoreStubs(Group(list[..i], carry), list[i]);
        stubs := stubs + [Stub([], prologue, n)];
        n := n + 4;
      }
    }
    assert list[..|list|] == list;
  }

  lemma MoreStubs(list: seq<Entry>, e: Entry)
    requires |list| < 0x4000_0000
    ensures ByteStubs(list + [e]) == ByteStubs(list) + [Stub([], GenericPrologue(e), 4 * |list|)]
  {
  }

  method BranchGroup(list: seq<Entry>, carry: bool) returns (slots: seq<Dest>)
    ensures slots == Slots(Group(list, carry))
  {
    hide Group;
    slots := [];
    NoGroup(list, carry);
    for i := 0 to |list|
      invariant slots == Slots(Group(list[..i], carry))
    {
      GroupStep(list, i, carry);
      if list[i].carryCapable == carry {
        MoreSlots(Group(list[..i], carry), list[i]);
        if list[i].handler.Some? {
          slots := slots + [Handler(list[i].handler.value)];
        } else {
          slots := slots + [Handler(list[i].name + "_handler")];
        }
      }
    }
    assert list[..|list|] == list;
  }

  lemma MoreSlots(list: seq<Entry>, e: Entry)
    ensures Slots(list + [e]) == Slots(list) + [Handler(HandlerOf(e))]
  {
  }

  lemma NoGroup(list: seq<Entry>, carry: bool)
    ensures Group(list[..0], carry) == []
  {
  }

  lemma GroupStep(list: seq<Entry>, i: nat, carry: bool)
    requires i < |list|
    ensures Group(list[..i + 1], carry) == Group(list[..i], carry) + (if list[i].carryCapable == carry then [list[i]] else [])
  {
    assert list[..i + 1][..i] == list[..i];
  }

  lemma GenericReachesHandler(m: Machine, group: seq<Entry>, k: nat, s: State) returns (u: State)
    requires |group| <= 0x4000_0000 && k < |group|
    requires Loaded(m, GenericTable(ByteStubs(group), Slots(group)))
    requires At(m, s, EntryAt(GenericTable(ByteStubs(group), Slots(group)), k))
    ensures Reaches(m, s, u)
    ensures u.Entered?
    ensures group[k].handler.Some? ==> u.name == group[k].handler.value
    ensures group[k].handler.None? ==> u.name == group[k].name + "_handler"
    ensures u.regs(14) == Address(m, ReturnAt(GenericTable(ByteStubs(group), Slots(group))))
  {
    var t := GenericTable(ByteStubs(group), Slots(group));
    NothingCarries(2);
    ScratchCarries(18, TrapScratch, 2, [], 2);
    assert t.common + [] == t.common;
    assert Straight(t.stubs[k].prologue);
    hide Loaded, Reaches, EntryAt, ReturnAt, Carries, At;
    u := RunEntry(m, t, k, k, s);
  }

  // ---------------------------------------------------------------- commands

  /** A help_list element. */
  datatype Command = Command(name: string, noHandler: bool, handler: Option<string>)

  /** The commands that have an entry, in list order. */
  function Handled(list: seq<Command>): (r: seq<Command>)
    ensures |r| <= |list|
  {
    if list == [] then []
    else
      var n := |list| - 1;
      Handled(list[..n]) + (if list[n].noHandler then [] else [list[n]])
  }

  lemma HandledStep(list: seq<Command>, i: nat)
    requires i < |list|
    ensures Handled(list[..i + 1]) == Handled(list[..i]) + (if list[i].noHandler then [] else [list[i]])
  {
    assert list[..i + 1][..i] == list[..i];
  }

  /** Every command with an entry is numbered by the entries before it. */
  lemma {:induction false} HandledPosition(list: seq<Command>, i: nat)
    requires i < |list| && !list[i].noHandler
    ensures var k := |Handled(list[..i])|; k < |Handled(list)| && Handled(list)[k] == list[i]
    decreases |list|
  {
    var n := |list| - 1;
    if i < n {
      HandledPosition(list[..n], i);
      assert list[..n][..i] == list[..i];
    }
  }

  lemma NoneHandled(list: seq<Command>)
    ensures Handled(list[..0]) == [] && list[..|list|] == list
  {
  }

  /** A command that has an entry also has somewhere to go: to its own handler
      or to the help function. */
  predicate Answered(c: Command, helpfn: Option<string>) {
    c.noHandler || c.handler.Some? || helpfn.Some?
  }

  predicate AllAnswered(list: seq<Command>, helpfn: Option<string>) {
    forall k :: 0 <= k < |list| ==> Answered(list[k], helpfn)
  }

  /** What the reader makes of a command as the file declares it: without a
      handler and a help function it is silently made one without an entry. */
  function Promote(c: Command, helpfn: Option<string>): (r: Command)
    ensures Answered(r, helpfn)
    ensures !r.noHandler <==> !c.noHandler && (c.handler.Some? || helpfn.Some?)
    ensures r.name == c.name && r.handler == c.handler
  {
    if Answered(c, helpfn) then c else c.(noHandler := true)
  }

  function Promoted(list: seq<Command>, helpfn: Option<string>): (r: seq<Command>)
    ensures |r| == |list| && AllAnswered(r, helpfn)
    ensures forall k :: 0 <= k < |list| ==> r[k] == Promote(list[k], helpfn)
  {
    seq(|list|, k requires 0 <= k < |list| => Promote(list[k], helpfn))
  }

  /** The end of the loop of read_commands; the help function is read first. */
  method ReadCommands(list: seq<Command>, helpfn: Option<string>) returns (r: seq<Command>)
    ensures r == Promoted(list, helpfn) && AllAnswered(r, helpfn)
    ensures forall k :: 0 <= k < |list| ==> (!r[k].noHandler <==> HasEntry(list[k], helpfn))
  {
    r := [];
    for i := 0 to |list|
      invariant r == Promoted(list, helpfn)[..i]
    {
      var c := list[i];
      if helpfn.None? && c.handler.None? && !c.noHandler {
        c := c.(noHandler := true);
      }
      r := r + [c];
    }
  }

  /** Where a command goes: to its own handler, else to the help function. */
  function CommandTarget(c: Command, helpfn: Option<string>): string
    requires c.handler.Some? || helpfn.Some?
  {
    if c.handler.Some? then c.handler.value else helpfn.value
  }

  lemma {:induction false} HandledAnswered(list: seq<Command>, helpfn: Option<string>)
    requires AllAnswered(list, helpfn)
    ensures forall k :: 0 <= k < |Handled(list)| ==> Handled(list)[k].handler.Some? || helpfn.Some?
    decreases |list|
  {
    if list != [] {
      HandledAnswered(list[..|list| - 1], helpfn);
      assert Answered(list[|list| - 1], helpfn);
    }
  }

  function Default(helpfn: Option<string>): Dest {
    if helpfn.Some? then Handler(helpfn.value) else NoHandler
  }

  function CommandStubs(n: nat): seq<Stub>
    requires n <= 0x4000_0000
  {
    seq(n, k requires 0 <= k < n => Stub([], [], k))
  }

  function CommandSlots(handled: seq<Command>, helpfn: Option<string>): seq<Dest>
    requires forall k :: 0 <= k < |handled| ==> handled[k].handler.Some? || helpfn.Some?
  {
    seq(|handled|, k requires 0 <= k < |handled| => Handler(CommandTarget(handled[k], helpfn)))
  }

  const CommandScratch: set<Reg> := {3, 4, 5, 10, 11, 12, 13}

  function CommandTable(stubs: seq<Stub>, count: word, slots: seq<Dest>, helpfn: Option<string>): Table {
    Table(2, stubs, Scratch(10, CommandScratch), 2, TwoStep, Guarded(LowerUnsigned, count, Default(helpfn)), 2, slots,
          if helpfn.Some? then [] else [Other({0})])
  }

  function CommandsOf(list: seq<Command>, helpfn: Option<string>): Table
    requires |list| <= 0x4000_0000 && AllAnswered(list, helpfn)
  {
    var h := Handled(list);
    HandledAnswered(list, helpfn);
    CommandTable(CommandStubs(|h|), |h|, CommandSlots(h, helpfn), helpfn)
  }

  /** commands(): a numbering loop, a counting loop and a loop for the branches,
      each skipping the commands without an entry. */
  method EmitCommands(list: seq<Command>, helpfn: Option<string>) returns (t: Table)
    requires |list| <= 0x4000_0000 && AllAnswered(list, helpfn)
    ensures t == CommandsOf(list, helpfn)
  {
    hide Handled;
    NoneHandled(list);
    var stubs, nentry := [], 0;
    for i := 0 to |list|
      invariant nentry == |Handled(list[..i])| <= i && stubs == CommandStubs(nentry)
    {
      HandledStep(list, i);
      if !list[i].noHandler {
        stubs := stubs + [Stub([], [], nentry)];
        nentry := nentry + 1;
      }
    }
    var numentries := 0;
    for i := 0 to |list|
      invariant numentries == |Handled(list[..i])| <= i
    {
      HandledStep(list, i);
      if !list[i].noHandler {
        numentries := numentries + 1;
      }
    }
    var slots := EmitCommandSlots(list, helpfn);
    t := CommandTable(stubs, numentries, slots, helpfn);
  }

  /** The loop for the branches; every command it meets has a destination. */
  method EmitCommandSlots(list: seq<Command>, helpfn: Option<string>) returns (slots: seq<Dest>)
    requires AllAnswered(list, helpfn)
    ensures forall k :: 0 <= k < |Handled(list)| ==> Handled(list)[k].handler.Some? || helpfn.Some?
    ensures slots == CommandSlots(Handled(list), helpfn)
  {
    hide Handled;
    HandledAnswered(list, helpfn);
    NoneHandled(list);
    slots := [];
    for i := 0 to |list|
      invariant forall k :: 0 <= k < |Handled(list[..i])| ==> Handled(list[..i])[k].handler.Some? || helpfn.Some?
      invariant slots == CommandSlots(Handled(list[..i]), helpfn)
    {
      HandledStep(list, i);
      if !list[i].noHandler {
        assert Answered(list[i], helpfn);
        if list[i].handler.Some? {
          slots := slots + [Handler(list[i].handler.value)];
        } else {
          slots := slots + [Handler(helpfn.value)];
        }
      }
    }
  }

  /** The CMD_ numbers of the generated header (writeheader.c). */
  method EmitCommandNumbers(list: seq<Command>) returns (numbers: seq<(string, nat)>)
    ensures |numbers| == |Handled(list)|
    ensures forall k :: 0 <= k < |numbers| ==> numbers[k] == (Handled(list)[k].name, k)
  {
    hide Handled;
    NoneHandled(list);
    numbers := [];
    var n := 0;
    for i := 0 to |list|
      invariant n == |numbers| == |Handled(list[..i])|
      invariant forall k :: 0 <= k < |numbers| ==> numbers[k] == (Handled(list[..i])[k].name, k)
    {
      HandledStep(list, i);
      if !list[i].noHandler {
        numbers := numbers + [(list[i].name, n)];
        n := n + 1;
      }
    }
  }

  lemma CommandFacts(list: seq<Command>, helpfn: Option<string>, k: nat)
    requires |list| <= 0x4000_0000 && AllAnswered(list, helpfn) && k < |Handled(list)|
    ensures Handled(list)[k].handler.Some? || helpfn.Some?
    ensures var t := CommandsOf(list, helpfn); var h := Handled(list);
      && |t.stubs| == |t.slots| == |h|
      && t.slots[k] == Handler(CommandTarget(h[k], helpfn)) && t.stubs[k] == Stub([], [], k)
      && Carries(t.common, t.indexReg, t.dispatchReg) && t.dispatchReg == t.indexReg == 2 && t.lsl == 2
      && t.guard == Guarded(LowerUnsigned, |h|, Default(helpfn))
  {
    hide Carries, Handled;
    HandledAnswered(list, helpfn);
    NothingCarries(2);
    ScratchCarries(10, CommandScratch, 2, [], 2);
    assert Scratch(10, CommandScratch) + [] == Scratch(10, CommandScratch);
  }

  lemma CommandRuns(m: Machine, list: seq<Command>, helpfn: Option<string>, k: nat, s: State) returns (u: State)
    requires |list| <= 0x4000_0000 && AllAnswered(list, helpfn) && k < |Handled(list)|
    requires Loaded(m, CommandsOf(list, helpfn))
    requires k < |CommandsOf(list, helpfn).stubs| && At(m, s, EntryAt(CommandsOf(list, helpfn), k))
    ensures Handled(list)[k].handler.Some? || helpfn.Some?
    ensures Reaches(m, s, u) && Arrived(m, CommandsOf(list, helpfn), Handler(CommandTarget(Handled(list)[k], helpfn)), u)
    ensures u.Entered? && u.regs(2) == k
    ensures CommandsOf(list, helpfn).stubs[k].value == k
  {
    var t := CommandsOf(list, helpfn);
    CommandFacts(list, helpfn, k);
    TopBitLost(k);
    assert GoodStub(t.stubs[k]) && Passes(t, k);
    hide *;
    u := RunEntry(m, t, k, k, s);
    EnteredIs(m, t, CommandTarget(Handled(list)[k], helpfn), u);
  }

  lemma EnteredIs(m: Machine, t: Table, name: string, u: State)
    requires Arrived(m, t, Handler(name), u)
    ensures u.Entered? && u.name == name && u.regs(14) == Address(m, ReturnAt(t))
  {
  }

  /** The number that a command of the file gets: how many before it have an entry. */
  function CommandNumber(list: seq<Command>, helpfn: Option<string>, i: nat): nat
    requires i < |list|
  {
    |Handled(Promoted(list, helpfn)[..i])|
  }

  /** A command of the file has an entry exactly when it may have one and there
      is a handler or a help function. */
  predicate HasEntry(c: Command, helpfn: Option<string>) {
    !c.noHandler && (c.handler.Some? || helpfn.Some?)
  }

  /** The command table of a file. */
  function FileTable(list: seq<Command>, helpfn: Option<string>): Table
    requires |list| <= 0x4000_0000
  {
    CommandsOf(Promoted(list, helpfn), helpfn)
  }

  /** Every command with an entry has its place among the stubs. */
  lemma NumberIsEntry(list: seq<Command>, helpfn: Option<string>, i: nat)
    requires |list| <= 0x4000_0000 && i < |list| && HasEntry(list[i], helpfn)
    ensures CommandNumber(list, helpfn, i) < |FileTable(list, helpfn).stubs|
  {
    HandledPosition(Promoted(list, helpfn), i);
  }

  /** The label that the module's command table holds for command i. */
  function CommandEntry(list: seq<Command>, helpfn: Option<string>, i: nat): nat
    requires |list| <= 0x4000_0000 && i < |list| && HasEntry(list[i], helpfn)
  {
    NumberIsEntry(list, helpfn, i);
    EntryAt(FileTable(list, helpfn), CommandNumber(list, helpfn, i))
  }

  /** Every command of the file that has an entry is entered with its own number,
      which it finds in r2, and reaches its own handler, or the help function if it has none, with r14
      at the return label. */
  lemma CommandReachesHandler(m: Machine, list: seq<Command>, helpfn: Option<string>, i: nat, s: State) returns (u: State)
    requires |list| <= 0x4000_0000 && i < |list| && HasEntry(list[i], helpfn)
    requires Loaded(m, FileTable(list, helpfn)) && At(m, s, CommandEntry(list, helpfn, i))
    ensures var t, k := FileTable(list, helpfn), CommandNumber(list, helpfn, i); k < |t.stubs| && t.stubs[k].value == k
    ensures Reaches(m, s, u)
    ensures u.Entered? && u.regs(2) == CommandNumber(list, helpfn, i)
    ensures list[i].handler.Some? ==> u.name == list[i].handler.value
    ensures list[i].handler.None? ==> u.name == helpfn.value
    ensures u.regs(14) == Address(m, ReturnAt(FileTable(list, helpfn)))
  {
    var p, k := Promoted(list, helpfn), CommandNumber(list, helpfn, i);
    NumberIsEntry(list, helpfn, i);
    HandledPosition(p, i);
    hide Handled, Loaded, Reaches, EntryAt, CommandsOf, At, Promoted;
    u := CommandRuns(m, p, helpfn, k, s);
    assert Handled(p)[k] == Promote(list[i], helpfn);
  }

  // -------------------------------------------------------------------- SWIs

  /** The SWI table: one slot per name behind the first, indexed by r11. */
  function SwiDest(handler: Option<string>, swiHandler: Option<string>): Dest {
    if handler.Some? then Handler(handler.value) else Default(swiHandler)
  }

  function SwiSlots(list: seq<Option<string>>, swiHandler: Option<string>): seq<Dest> {
    seq(|list|, k requires 0 <= k < |list| => SwiDest(list[k], swiHandler))
  }

  function SwiCommon(): seq<Instr> {
    Scratch(4, {8, 10, 13}) + ([MovReg(0, 11)] + (Scratch(8, {1, 2, 4, 5, 10, 11, 12}) + []))
  }

  function SwiTable(count: word, slots: seq<Dest>, swiHandler: Option<string>): Table {
    Table(11, [], SwiCommon(), 0, TwoStep, Guarded(LessSigned, count, Default(swiHandler)), 2, slots,
          if swiHandler.Some? then [] else [Other({0})])
  }

  /** swi_handler() with supplied handlers: a counting loop and a loop for the branches. */
  method EmitSwis(list: seq<Option<string>>, swiHandler: Option<string>) returns (t: Table)
    requires |list| <= 0x4000_0000
    ensures t == SwiTable(|list|, SwiSlots(list, swiHandler), swiHandler)
  {
    var numswis := 0;
    for i := 0 to |list|
      invariant numswis == i
    {
      numswis := numswis + 1;
    }
    var slots := [];
    for i := 0 to |list|
      invariant slots == SwiSlots(list, swiHandler)[..i]
    {
      if list[i].Some? {
        slots := slots + [Handler(list[i].value)];
      } else if swiHandler.Some? {
        slots := slots + [Handler(swiHandler.value)];
      } else {
        slots := slots + [NoHandler];
      }
    }
    t := SwiTable(numswis, slots, swiHandler);
  }

  lemma SwiCarries()
    ensures Carries(SwiCommon(), 11, 0)
  {
    NothingCarries(0);
    ScratchCarries(8, {1, 2, 4, 5, 10, 11, 12}, 0, [], 0);
    MoveCarries(0, 11, Scratch(8, {1, 2, 4, 5, 10, 11, 12}) + [], 0);
    ScratchCarries(4, {8, 10, 13}, 11, [MovReg(0, 11)] + (Scratch(8, {1, 2, 4, 5, 10, 11, 12}) + []), 0);
  }

  /** Where the dispatcher goes for offset v, by name: the handler of name v if it
      has one, else the general handler, else the code for unknown SWIs; always
      with the offset in r0 and r14 at the return label. */
  ghost predicate SwiServed(m: Machine, t: Table, list: seq<Option<string>>, swiHandler: Option<string>, v: word, u: State) {
    && (u.Entered? || u.Running?) && u.regs(0) == v && u.regs(14) == Address(m, ReturnAt(t))
    && (v < |list| && list[v].Some? ==> u.Entered? && u.name == list[v].value)
    && (!(v < |list| && list[v].Some?) && swiHandler.Some? ==> u.Entered? && u.name == swiHandler.value)
    && (!(v < |list| && list[v].Some?) && swiHandler.None? ==> At(m, u, TailAt(t)) && ReturnAt(t) == TailAt(t) + 1)
  }

  /** The operating system passes offsets from 0 to 63; the signed comparison is
      right for all offsets below 2^31. */
  lemma SwiReachesHandler(m: Machine, list: seq<Option<string>>, swiHandler: Option<string>, s: State) returns (u: State)
    requires |list| <= 0x4000_0000
    requires Loaded(m, SwiTable(|list|, SwiSlots(list, swiHandler), swiHandler))
    requires At(m, s, 0) && s.regs(11) < 0x8000_0000
    ensures Reaches(m, s, u)
    ensures SwiServed(m, SwiTable(|list|, SwiSlots(list, swiHandler), swiHandler), list, swiHandler, s.regs(11), u)
  {
    var t := SwiTable(|list|, SwiSlots(list, swiHandler), swiHandler);
    var v := s.regs(11);
    SwiCarries();
    assert Passes(t, v) <==> v < |list|;
    assert CommonAt(t) == 0;
    if v < |list| {
      TopBitLost(v);
      assert t.slots[v] == SwiDest(list[v], swiHandler);
    }
    hide Loaded, Reaches, Carries, Arrived, Shifted, Passes, SwiCommon, CommonAt;
    u := RunTable(m, t, s, v);
    SwiArrived(m, list, swiHandler, v, u);
  }

  lemma SwiArrived(m: Machine, list: seq<Option<string>>, swiHandler: Option<string>, v: word, u: State)
    requires |list| <= 0x4000_0000
    ensures
      var t := SwiTable(|list|, SwiSlots(list, swiHandler), swiHandler);
      && (u.Entered? || u.Running?) && u.regs(0) == v
      && Arrived(m, t, if v < |list| then SwiDest(list[v], swiHandler) else Default(swiHandler), u) ==>
      SwiServed(m, t, list, swiHandler, v, u)
  {
    hide CommonAt, SwiCommon;
  }
}
