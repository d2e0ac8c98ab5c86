/** The service-call rejection code that cmunge emits (writefile.c, service, the
    32-bit path), run on a small ARM machine, and the fast service table. */
module ServiceFilter {
  import opened ArmImmediate

  // ------------------------------------------------------------ the machine

  /** The instructions of the rejection code. `ne` marks the NE-conditional form. */
  datatype Instr =
    | PushLr                          // STR r14,[r13,#-4]!
    | TeqImm(ne: bool, imm: bv32)     // TEQ{NE} r1,#imm
    | MovLr(imm: bv32)                // MOV r14,#imm
    | OrrLr(imm: bv32)                // ORR r14,r14,#imm
    | TeqLr(ne: bool)                 // TEQ{NE} r1,r14
    | PopPcNe                         // LDMNEIA r13!,{pc}
    | PopLr                           // LDR r14,[r13],#4
    | MovPcLrNe                       // MOVNE pc,r14

  /** Falling through to the next instruction, or gone to an address. */
  datatype Flow = Next | Gone(to: bv32)

  datatype Machine = Machine(r1: bv32, r13: bv32, r14: bv32, z: bool, mem: bv32 -> bv32, flow: Flow)

  function Below(a: bv32): bv32 { a - 4 }

  function Above(a: bv32): bv32 { a + 4 }

  function Store(mem: bv32 -> bv32, at: bv32, v: bv32): bv32 -> bv32 {
    a => if a == at then v else mem(a)
  }

  function Exec(i: Instr, s: Machine): Machine {
    match i
    case PushLr => s.(r13 := Below(s.r13), mem := Store(s.mem, Below(s.r13), s.r14))
    case TeqImm(ne, imm) => if ne && s.z then s else s.(z := s.r1 == imm)
    case MovLr(imm) => s.(r14 := imm)
    case OrrLr(imm) => s.(r14 := Or(s.r14, imm))
    case TeqLr(ne) => if ne && s.z then s else s.(z := s.r1 == s.r14)
    case PopPcNe => if s.z then s else s.(flow := Gone(s.mem(s.r13)), r13 := Above(s.r13))
    case PopLr => s.(r14 := s.mem(s.r13), r13 := Above(s.r13))
    case MovPcLrNe => if s.z then s else s.(flow := Gone(s.r14))
  }

  function ExecAll(code: seq<Instr>, s: Machine): Machine
    decreases |code|
  {
    if code == [] || s.flow.Gone? then s else ExecAll(code[1..], Exec(code[0], s))
  }

  lemma {:induction false} ExecAppend(a: seq<Instr>, b: seq<Instr>, s: Machine)
    ensures ExecAll(a + b, s) == ExecAll(b, ExecAll(a, s))
    decreases |a|
  {
    hide Exec;
    if a == [] {
      assert a + b == b;
    } else if s.flow.Next? {
      assert (a + b)[1..] == a[1..] + b;
      ExecAppend(a[1..], b, Exec(a[0], s));
    }
  }

  // -------------------------------------------------------- the emitted code

  /** A number that does not fit one immediate. */
  predicate Big(n: bv32) { Chunk(n) != n }

  predicate AnyBig(services: seq<bv32>) {
    exists i :: 0 <= i < |services| && Big(services[i])
  }

  /** A number is 'big' exactly when no eight neighbouring places from an even
      one on hold all its bits. */
  lemma BigMeaning(n: bv32)
    requires n != 0
    ensures Big(n) <==> forall k: nat :: k <= 12 ==> !Under(n, k)
  {
    OneChunk(n);
    hide Chunk, Under;
  }

  function Orrs(chunks: seq<bv32>): seq<Instr> {
    seq(|chunks|, i requires 0 <= i < |chunks| => OrrLr(chunks[i]))
  }

  /** The comparison with one service number; all but the first are conditional. */
  function TestCode(n: bv32, ne: bool): seq<Instr>
    requires n != 0
  {
    if !Big(n) then [TeqImm(ne, n)]
    else [MovLr(Chunks(n)[0])] + Orrs(Chunks(n)[1..]) + [TeqLr(ne)]
  }

  ghost predicate NonZero(services: seq<bv32>) {
    forall i :: 0 <= i < |services| ==> services[i] != 0
  }

  /** The comparisons of the first k services, in list order. */
  function TestsCode(services: seq<bv32>, k: nat): seq<Instr>
    requires NonZero(services) && k <= |services|
  {
    if k == 0 then [] else TestsCode(services, k - 1) + TestCode(services[k - 1], k > 1)
  }

  function RejectionCode(services: seq<bv32>): seq<Instr>
    requires NonZero(services)
  {
    if services == [] then []
    else if AnyBig(services) then [PushLr] + TestsCode(services, |services|) + [PopPcNe, PopLr]
    else TestsCode(services, |services|) + [MovPcLrNe]
  }

  /** The loop that looks for 'big' numbers. */
  method FindBig(services: seq<bv32>) returns (big: bool)
    requires NonZero(services)
    ensures big <==> AnyBig(services)
  {
    hide Chunk;
    for i := 0 to |services|
      invariant forall k :: 0 <= k < i ==> !Big(services[k])
    {
      var m := Representable(services[i]);
      if m != services[i] {
        return true;
      }
    }
    return false;
  }

  /** The part of service() that writes the rejection code. */
  method EmitRejection(services: seq<bv32>) returns (code: seq<Instr>)
    requires NonZero(services)
    ensures code == RejectionCode(services)
    ensures services == [] <==> code == []
  {
    hide AnyBig, TestCode;
    code := [];
    if services == [] {
      return;
    }
    var big := FindBig(services);
    if big {
      code := [PushLr];
    }
    ghost var head := code;
    for i := 0 to |services|
      invariant code == head + TestsCode(services, i)
    {
      var test := EmitTest(services[i], i > 0);
      code := code + test;
    }
    if big {
      code := code + [PopPcNe];
      code := code + [PopLr];
    } else {
      code := code + [MovPcLrNe];
    }
  }

  method EmitTest(n: bv32, ne: bool) returns (code: seq<Instr>)
    requires n != 0
    ensures code == TestCode(n, ne)
  {
    hide Chunk, Without, LowestPair, Chunks;
    var m := Representable(n);
    if n == m {
      return [TeqImm(ne, n)];
    }
    ChunksUnfold(n);
    code := [MovLr(m)];
    var rest := Without(n, m);
    ghost var all := Chunks(n);
    ghost var done := 1;
    while rest != 0
      invariant 1 <= done <= |all|
      invariant if rest == 0 then done == |all| else Chunks(rest) == all[done..]
      invariant code == [MovLr(m)] + Orrs(all[1..done])
      decreases |all| - done
    {
      ChunksUnfold(rest);
      ghost var rest0 := rest;
      var c := Representable(rest);
      code := code + [OrrLr(c)];
      rest := Without(rest, c);
      assert all[done] == all[done..][0] == c;
      assert all[done..][1..] == all[done + 1..];
      assert all[1..done + 1] == all[1..done] + [all[done]];
      assert Orrs(all[1..done + 1]) == Orrs(all[1..done]) + [OrrLr(c)];
      done := done + 1;
    }
    assert all[1..done] == all[1..];
    code := code + [TeqLr(ne)];
  }

  lemma ChunksUnfold(n: bv32)
    requires n != 0
    ensures |Chunks(n)| >= 1 && Chunks(n)[0] == Chunk(n)
    ensures Without(n, Chunk(n)) == 0 ==> Chunks(n) == [Chunk(n)] && n == Chunk(n)
    ensures Without(n, Chunk(n)) != 0 ==> Chunks(n)[1..] == Chunks(Without(n, Chunk(n)))
  {
    ChunkParts(n);
    hide Chunk, LowestPair, Under;
    if Without(n, Chunk(n)) == 0 {
      NothingOut(n, Chunk(n));
    }
  }

  // ------------------------------------------------------ what the code does

  /** Running the ORRs collects the chunks in r14 and touches nothing else. */
  lemma {:induction false} OrrsRun(chunks: seq<bv32>, s: Machine)
    requires s.flow.Next?
    ensures ExecAll(Orrs(chunks), s) == s.(r14 := Or(s.r14, OrAll(chunks)))
    decreases |chunks|
  {
    hide Or, OrAll;
    if chunks == [] {
      OrZero(s.r14);
      OrNone();
    } else {
      assert Orrs(chunks)[1..] == Orrs(chunks[1..]);
      OrHead(chunks);
      OrrsRun(chunks[1..], s.(r14 := Or(s.r14, chunks[0])));
      OrAssociates(s.r14, chunks[0], OrAll(chunks[1..]));
    }
  }

  lemma OrAssociates(a: bv32, b: bv32, c: bv32)
    ensures Or(Or(a, b), c) == Or(a, Or(b, c))
  {
  }

  /** One comparison: Z becomes "r1 is n" unless a conditional one finds it set. */
  lemma TestRuns(n: bv32, ne: bool, s: Machine)
    requires n != 0 && s.flow.Next?
    ensures ExecAll(TestCode(n, ne), s)
         == s.(z := (ne && s.z) || s.r1 == n, r14 := if Big(n) then n else s.r14)
  {
    if !Big(n) {
      ExecOne(TeqImm(ne, n), s);
    } else {
      ChunksMeaning(n);
      ChunksUnfold(n);
      hide Chunks, Chunk, IsImmediate, OrAll, ExecAll, Or;
      var c := Chunks(n);
      var s1 := s.(r14 := c[0]);
      ExecOne(MovLr(c[0]), s);
      OrrsRun(c[1..], s1);
      OrHead(c);
      var s2 := s.(r14 := n);
      ExecOne(TeqLr(ne), s2);
      ExecAppend([MovLr(c[0])], Orrs(c[1..]), s);
      ExecAppend([MovLr(c[0])] + Orrs(c[1..]), [TeqLr(ne)], s);
    }
  }

  lemma OrHead(c: seq<bv32>)
    requires c != []
    ensures Or(c[0], OrAll(c[1..])) == OrAll(c)
  {
  }

  lemma OrNone()
    ensures OrAll([]) == 0
  {
  }

  lemma ExecOne(i: Instr, s: Machine)
    requires s.flow.Next?
    ensures ExecAll([i], s) == Exec(i, s)
  {
    assert [i][1..] == [];
  }

  /** The last 'big' number among the first k services, or the given value. */
  function LastBig(services: seq<bv32>, k: nat, r14: bv32): bv32
    requires k <= |services|
  {
    if k == 0 then r14 else if Big(services[k - 1]) then services[k - 1] else LastBig(services, k - 1, r14)
  }

  lemma {:induction false} TestsRun(services: seq<bv32>, k: nat, s: Machine)
    requires NonZero(services) && 1 <= k <= |services| && s.flow.Next?
    ensures ExecAll(TestsCode(services, k), s)
         == s.(z := s.r1 in services[..k], r14 := LastBig(services, k, s.r14))
    decreases k
  {
    TestsUnfold(services, k);
    hide *;
    Extends(services, k, s.r1);
    LastBigUnfold(services, k, s.r14);
    if k == 1 {
      TestRuns(services[0], false, s);
    } else {
      TestsRun(services, k - 1, s);
      var s1 := s.(z := s.r1 in services[..k - 1], r14 := LastBig(services, k - 1, s.r14));
      TestRuns(services[k - 1], true, s1);
      ExecAppend(TestsCode(services, k - 1), TestCode(services[k - 1], true), s);
    }
  }

  lemma TestsUnfold(services: seq<bv32>, k: nat)
    requires NonZero(services) && 1 <= k <= |services|
    ensures services[k - 1] != 0
    ensures TestsCode(services, k) == TestsCode(services, k - 1) + TestCode(services[k - 1], k > 1)
    ensures TestsCode(services, 1) == TestCode(services[0], false)
  {
    hide TestCode;
  }

  lemma Extends(services: seq<bv32>, k: nat, x: bv32)
    requires 1 <= k <= |services|
    ensures x in services[..k] <==> x in services[..k - 1] || x == services[k - 1]
    ensures services[..0] == []
  {
    assert services[..k] == services[..k - 1] + [services[k - 1]];
  }

  lemma LastBigUnfold(services: seq<bv32>, k: nat, r14: bv32)
    requires 1 <= k <= |services|
    ensures LastBig(services, k, r14) == if Big(services[k - 1]) then services[k - 1] else LastBig(services, k - 1, r14)
    ensures LastBig(services, 0, r14) == r14
  {
    hide Big;
  }

  lemma StackCell(a: bv32)
    ensures Above(Below(a)) == a
  {
  }

  lemma Pushed(s: Machine)
    ensures var s1 := Exec(PushLr, s);
      && s1.r13 == Below(s.r13) && s1.r14 == s.r14 && s1.r1 == s.r1
      && s1.mem(s1.r13) == s.r14
      && forall a :: a != Below(s.r13) ==> s1.mem(a) == s.mem(a)
  {
    hide Below;
  }

  /** The whole run when r14 is saved on the stack. */
  lemma BigRuns(services: seq<bv32>, s: Machine)
    requires services != [] && NonZero(services) && s.flow.Next? && AnyBig(services)
    ensures ExecAll(RejectionCode(services), s)
         == if s.r1 in services then Exec(PushLr, s).(r13 := s.r13, z := true)
            else Exec(PushLr, s).(r13 := s.r13, z := false, r14 := LastBig(services, |services|, s.r14), flow := Gone(s.r14))
  {
    var n := |services|;
    assert services[..n] == services;
    var tests := TestsCode(services, n);
    var s1 := Exec(PushLr, s);
    Pushed(s);
    var s2 := s1.(z := s.r1 in services, r14 := LastBig(services, n, s.r14));
    assert RejectionCode(services) == [PushLr] + tests + [PopPcNe, PopLr];
    hide TestsCode, Big, ExecAll, Above, Below, LastBig, RejectionCode, Store, AnyBig, NonZero;
    ExecOne(PushLr, s);
    TestsRun(services, n, s1);
    StackCell(s.r13);
    ExecAppend([PushLr], tests, s);
    ExecAppend([PushLr] + tests, [PopPcNe, PopLr], s);
    TwoPops(s2);
  }

  lemma SmallRuns(services: seq<bv32>, s: Machine)
    requires services != [] && NonZero(services) && s.flow.Next? && !AnyBig(services)
    ensures ExecAll(RejectionCode(services), s)
         == if s.r1 in services then s.(z := true) else s.(z := false, flow := Gone(s.r14))
  {
    var n := |services|;
    assert services[..n] == services;
    NoBigLeft(services, n, s.r14);
    hide TestsCode, Big, ExecAll, LastBig;
    TestsRun(services, n, s);
    ExecAppend(TestsCode(services, n), [MovPcLrNe], s);
    ExecOne(MovPcLrNe, s.(z := s.r1 in services));
  }

  /** The rejection code falls through exactly for the listed services, with r1,
      r13 and r14 as on entry; otherwise it returns to the caller with r13 as on
      entry. On that path r14 is only left alone when no number is 'big' (or the
      last big number happens to be the caller's r14). */
  lemma RejectionMeaning(services: seq<bv32>, s: Machine)
    requires services != [] && NonZero(services) && s.flow.Next?
    ensures
      var r := ExecAll(RejectionCode(services), s);
      && (s.r1 in services <==> r.flow == Next)
      && (s.r1 !in services <==> r.flow == Gone(s.r14))
      && r.r1 == s.r1 && r.r13 == s.r13
      && (r.flow == Next ==> r.r14 == s.r14)
      && (r.flow != Next ==> (r.r14 == s.r14 <==> !AnyBig(services) || LastBig(services, |services|, s.r14) == s.r14))
      && (forall a :: a != Below(s.r13) ==> r.mem(a) == s.mem(a))
  {
    hide ExecAll, RejectionCode, AnyBig, LastBig, Below, Above;
    if AnyBig(services) {
      BigRuns(services, s);
      Pushed(s);
    } else {
      SmallRuns(services, s);
    }
  }

  /** A concrete case of the r14 that does not come back: service 0x10001 listed,
      service 1 called, r14 == 0x8000 on entry. */
  lemma RejectedR14Changes(s: Machine)
    requires s.flow.Next? && s.r1 == 1 && s.r14 == 0x8000
    ensures ExecAll(RejectionCode([0x10001]), s).r14 == 0x10001
  {
    var services: seq<bv32> := [0x10001];
    assert Big(0x10001) by {
      assert Clear(0x10001, 1) == false;
      assert LowestPair(0x10001) == 0;
    }
    assert AnyBig(services) by { assert Big(services[0]); }
    BigRuns(services, s);
    assert LastBig(services, 1, s.r14) == 0x10001;
  }

  lemma TwoPops(s: Machine)
    requires s.flow.Next?
    ensures ExecAll([PopPcNe, PopLr], s) == if s.z then Exec(PopLr, s) else Exec(PopPcNe, s)
  {
    assert [PopPcNe, PopLr] == [PopPcNe] + [PopLr];
    ExecAppend([PopPcNe], [PopLr], s);
    ExecOne(PopPcNe, s);
    if s.z {
      ExecOne(PopLr, s);
    }
  }

  lemma {:induction false} NoBigLeft(services: seq<bv32>, k: nat, r14: bv32)
    requires k <= |services| && !AnyBig(services)
    ensures LastBig(services, k, r14) == r14
    decreases k
  {
    hide Big;
    if k > 0 {
      NoBigLeft(services, k - 1, r14);
    }
  }

  /** Every constant in the code fits its instruction. */
  lemma ImmediatesFit(services: seq<bv32>, i: nat)
    requires NonZero(services) && i < |RejectionCode(services)|
    ensures FitsImmediate(RejectionCode(services)[i])
  {
    hide Chunk, Chunks;
    if services != [] {
      TestsFit(services, |services|);
      var tests := TestsCode(services, |services|);
      if AnyBig(services) && 1 <= i < 1 + |tests| {
        assert RejectionCode(services)[i] == tests[i - 1];
      } else if !AnyBig(services) && i < |tests| {
        assert RejectionCode(services)[i] == tests[i];
      }
    }
  }

  ghost predicate FitsImmediate(i: Instr) {
    i.TeqImm? || i.MovLr? || i.OrrLr? ==> IsImmediate(i.imm)
  }

  lemma {:induction false} TestsFit(services: seq<bv32>, k: nat)
    requires NonZero(services) && k <= |services|
    ensures forall i :: 0 <= i < |TestsCode(services, k)| ==> FitsImmediate(TestsCode(services, k)[i])
    decreases k
  {
    if k > 0 {
      TestsUnfold(services, k);
      TestFits(services[k - 1], k > 1);
      hide TestCode, FitsImmediate;
      TestsFit(services, k - 1);
    }
  }

  lemma TestFits(n: bv32, ne: bool)
    requires n != 0
    ensures forall i :: 0 <= i < |TestCode(n, ne)| ==> FitsImmediate(TestCode(n, ne)[i])
  {
    ChunksMeaning(n);
    ChunksUnfold(n);
    ChunkParts(n);
    WindowIsImmediate(Chunk(n), LowestPair(n));
    hide Chunk, Chunks, IsImmediate, OrAll, Under, Inside, Apart;
    var c := Chunks(n);
    var code := TestCode(n, ne);
    if Big(n) {
      forall i | 0 <= i < |code| ensures FitsImmediate(code[i]) {
        if 1 <= i < |code| - 1 {
          assert code[i] == OrrLr(c[i]);
        }
      }
    }
  }

  // --------------------------------------------------------- the fast table

  /** The number as the unsigned comparisons see it. */
  function Value(x: bv32): int { x as int }

  lemma ValueInjective(a: bv32, b: bv32)
    requires Value(a) == Value(b)
    ensures a == b
  {
    assert (a as int) as bv32 == a;
    assert (b as int) as bv32 == b;
  }

  /** What the loops need to know about the unsigned order. */
  lemma Values()
    ensures Value(0) == 0
    ensures forall a, b :: Value(a) == Value(b) ==> a == b
    ensures forall a :: 0 <= Value(a)
  {
    assert Value(0) == 0 && forall a :: 0 <= Value(a);
    hide Value;
    forall a, b | Value(a) == Value(b) ensures a == b { ValueInjective(a, b); }
  }

  /** One pass over the list: the least number above min, or 0. */
  method NextService(services: seq<bv32>, min: bv32) returns (found: bv32)
    ensures found == 0 ==> forall x :: x in services ==> Value(x) <= Value(min)
    ensures found != 0 ==> found in services && Value(found) > Value(min)
    ensures found != 0 ==> forall x :: x in services && Value(x) > Value(min) ==> Value(found) <= Value(x)
  {
    Values();
    hide Value;
    found := 0;
    for i := 0 to |services|
      invariant found == 0 ==> forall k :: 0 <= k < i ==> Value(services[k]) <= Value(min)
      invariant found != 0 ==> found in services && Value(found) > Value(min)
      invariant found != 0 ==> forall k :: 0 <= k < i && Value(services[k]) > Value(min) ==> Value(found) <= Value(services[k])
    {
      if Value(services[i]) > Value(min) && (Value(services[i]) < Value(found) || found == 0) {
        found := services[i];
      }
    }
  }

  ghost function Greater(services: seq<bv32>, min: bv32): set<bv32> {
    set x | x in services && Value(x) > Value(min)
  }

  /** The fast service table: the listed numbers, strictly ascending, each once,
      and a final zero. */
  method EmitFastTable(services: seq<bv32>) returns (table: seq<bv32>)
    ensures |table| > 0 && table[|table| - 1] == 0
    ensures forall i, j :: 0 <= i < j < |table| - 1 ==> Value(table[i]) < Value(table[j])
    ensures forall x :: x in table[..|table| - 1] <==> x in services && x != 0
  {
    Values();
    hide Value;
    table := [];
    var min: bv32 := 0;
    while true
      invariant forall i :: 0 <= i < |table| ==> Value(table[i]) <= Value(min)
      invariant forall i, j :: 0 <= i < j < |table| ==> Value(table[i]) < Value(table[j])
      invariant forall x :: x in table <==> x in services && x != 0 && Value(x) <= Value(min)
      decreases Greater(services, min)
    {
      var found := NextService(services, min);
      if found == 0 {
        table := table + [0];
        assert table[..|table| - 1] + [0] == table;
        break;
      }
      assert found in Greater(services, min) && found !in Greater(services, found);
      assert Greater(services, found) <= Greater(services, min);
      table := table + [found];
      min := found;
    }
  }
}
