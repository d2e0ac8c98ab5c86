/** Compiled trees evaluate to their meaning, deferred code can be spliced in later. */
module ExprProofs {
  import opened ExprSpec

  /** A tree's code, anywhere in a program, leaves exactly its value on the stack. */
  lemma {:induction false} TreeRuns<D>(e: Expr<D>, pre: seq<Instr<D>>, post: seq<Instr<D>>, stack: seq<Value<D>>, sem: Sem<D>)
    requires WellFormed(e) && |stack| + Leaves(e) <= CODE_SIZESTACK
    ensures
      var code := pre + Postfix(e) + post;
      Run(code, |pre|, stack, sem)
      == match Meaning(e, sem, post != [] && post[0] == Operator(OP_SIZE))
         case None => Failed
         case Some(v) => Run(code, |pre| + |Postfix(e)|, stack + [v], sem)
    decreases e, 2
  {
    match e
    case Leaf(v) => LeafRuns(v, pre, post, stack, sem);
    case Un(op, arg) => UnRuns(op, arg, pre, post, stack, sem);
    case Bin(op, left, right) => BinRuns(op, left, right, pre, post, stack, sem);
  }

  lemma LeafRuns<D>(v: Value<D>, pre: seq<Instr<D>>, post: seq<Instr<D>>, stack: seq<Value<D>>, sem: Sem<D>)
    requires |stack| < CODE_SIZESTACK
    ensures
      var code := pre + [Push(v)] + post;
      Run(code, |pre|, stack, sem)
      == match Meaning(Leaf(v), sem, post != [] && post[0] == Operator(OP_SIZE))
         case None => Failed
         case Some(v) => Run(code, |pre| + 1, stack + [v], sem)
  {
    var code := pre + [Push(v)] + post;
    assert code[|pre|] == Push(v);
    assert post != [] ==> code[|pre| + 1] == post[0];
  }

  lemma OperatorRuns<D>(code: seq<Instr<D>>, i: nat, op: nat, stack: seq<Value<D>>, args: seq<Value<D>>, sem: Sem<D>)
    requires i < |code| && code[i] == Operator(op) && |args| == (if IsUnop(op) then 1 else 2)
    ensures
      Run(code, i, stack + args, sem)
      == match if IsUnop(op) then sem.unop(op, args[0]) else sem.binop(op, args[0], args[1])
         case None => Failed
         case Some(v) => Run(code, i + 1, stack + [v], sem)
  {
    var s := stack + args;
    assert s[..|stack|] == stack;
  }

  lemma {:induction false} UnRuns<D>(op: nat, arg: Expr<D>, pre: seq<Instr<D>>, post: seq<Instr<D>>, stack: seq<Value<D>>, sem: Sem<D>)
    requires IsUnop(op) && WellFormed(arg) && |stack| + Leaves(arg) <= CODE_SIZESTACK
    ensures
      var e := Un(op, arg); var code := pre + Postfix(e) + post;
      Run(code, |pre|, stack, sem)
      == match Meaning(e, sem, post != [] && post[0] == Operator(OP_SIZE))
         case None => Failed
         case Some(v) => Run(code, |pre| + |Postfix(e)|, stack + [v], sem)
    decreases Un(op, arg), 0
  {
    hide Run;
    var e := Un(op, arg);
    var code := pre + Postfix(e) + post;
    var post' := [Operator(op)] + post;
    assert code == pre + Postfix(arg) + post';
    TreeRuns(arg, pre, post', stack, sem);
    var i := |pre| + |Postfix(arg)|;
    assert code[i] == Operator(op);
    match Meaning(arg, sem, op == OP_SIZE)
    case None =>
    case Some(v) => OperatorRuns(code, i, op, stack, [v], sem);
  }

  lemma {:induction false} BinRuns<D>(op: nat, left: Expr<D>, right: Expr<D>, pre: seq<Instr<D>>, post: seq<Instr<D>>, stack: seq<Value<D>>, sem: Sem<D>)
    requires !IsUnop(op) && WellFormed(left) && WellFormed(right)
    requires |stack| + Leaves(left) + Leaves(right) <= CODE_SIZESTACK
    ensures
      var e := Bin(op, left, right); var code := pre + Postfix(e) + post;
      Run(code, |pre|, stack, sem)
      == match Meaning(e, sem, post != [] && post[0] == Operator(OP_SIZE))
         case None => Failed
         case Some(v) => Run(code, |pre| + |Postfix(e)|, stack + [v], sem)
    decreases Bin(op, left, right), 1
  {
    var l, r, o := Postfix(left), Postfix(right), [Operator(op)];
    BinIs(op, left, right);
    BinMeans(op, left, right, sem, post != [] && post[0] == Operator(OP_SIZE));
    Regroup(pre, l, r, o, post);
    hide *;
    BinRunsIn(pre + (l + r + o) + post, op, left, right, pre, post, stack, sem);
  }

  lemma {:induction false} BinRunsIn<D>(code: seq<Instr<D>>, op: nat, left: Expr<D>, right: Expr<D>,
                                        pre: seq<Instr<D>>, post: seq<Instr<D>>, stack: seq<Value<D>>, sem: Sem<D>)
    requires !IsUnop(op) && WellFormed(left) && WellFormed(right)
    requires |stack| + Leaves(left) + Leaves(right) <= CODE_SIZESTACK
    requires code == pre + Postfix(left) + (Postfix(right) + [Operator(op)] + post)
    requires code == (pre + Postfix(left)) + Postfix(right) + ([Operator(op)] + post)
    ensures
      Run(code, |pre|, stack, sem)
      == match Meaning(left, sem, false)
         case None => Failed
         case Some(a) =>
           match Meaning(right, sem, false)
           case None => Failed
           case Some(b) =>
             match sem.binop(op, a, b)
             case None => Failed
             case Some(v) => Run(code, |pre| + |Postfix(left)| + |Postfix(right)| + 1, stack + [v], sem)
    decreases Bin(op, left, right), 0
  {
    var l, r := Postfix(left), Postfix(right);
    LeavesPositive(left);
    LeavesPositive(right);
    assert (r + [Operator(op)] + post)[0] == r[0] && |pre + l| == |pre| + |l|;
    hide Run, Postfix, WellFormed, Leaves, Meaning;
    TreeRuns(left, pre, r + [Operator(op)] + post, stack, sem);
    match Meaning(left, sem, false)
    case None =>
    case Some(a) => RightRuns(op, right, pre + l, post, stack, a, sem);
  }

  lemma BinIs<D>(op: nat, left: Expr<D>, right: Expr<D>)
    ensures Postfix(Bin(op, left, right)) == Postfix(left) + Postfix(right) + [Operator(op)]
    ensures |Postfix(Bin(op, left, right))| == |Postfix(left)| + |Postfix(right)| + 1
  {
  }

  lemma BinMeans<D>(op: nat, left: Expr<D>, right: Expr<D>, sem: Sem<D>, underSize: bool)
    ensures Meaning(Bin(op, left, right), sem, underSize)
         == match Meaning(left, sem, false)
            case None => None
            case Some(a) =>
              match Meaning(right, sem, false)
              case None => None
              case Some(b) => sem.binop(op, a, b)
  {
  }

  /** The second half of a binary operator, with the left value on the stack. */
  lemma {:induction false} RightRuns<D>(op: nat, right: Expr<D>, pre: seq<Instr<D>>, post: seq<Instr<D>>, stack: seq<Value<D>>, a: Value<D>, sem: Sem<D>)
    requires !IsUnop(op) && WellFormed(right) && |stack| + 1 + Leaves(right) <= CODE_SIZESTACK
    ensures
      var code := pre + Postfix(right) + ([Operator(op)] + post);
      Run(code, |pre|, stack + [a], sem)
      == match Meaning(right, sem, false)
         case None => Failed
         case Some(b) =>
           match sem.binop(op, a, b)
           case None => Failed
           case Some(v) => Run(code, |pre| + |Postfix(right)| + 1, stack + [v], sem)
    decreases right, 3
  {
    var r, o := Postfix(right), [Operator(op)];
    var code := pre + r + (o + post);
    hide Run, Postfix, Meaning;
    TreeRuns(right, pre, o + post, stack + [a], sem);
    match Meaning(right, sem, false)
    case None =>
    case Some(b) =>
      var i := |pre| + |r|;
      assert code[i] == Operator(op);
      assert stack + [a] + [b] == stack + [a, b];
      OperatorRuns(code, i, op, stack, [a, b], sem);
  }

  lemma Regroup<T>(a: seq<T>, b: seq<T>, c: seq<T>, d: seq<T>, e: seq<T>)
    ensures a + (b + c + d) + e == a + b + (c + d + e)
    ensures a + (b + c + d) + e == (a + b) + c + (d + e)
  {
  }

  lemma LeavesPositive<D>(e: Expr<D>)
    ensures Leaves(e) >= 1
  {
  }

  /** Evaluating a tree's code leaves the tree's value and one stack entry, never
      an underflow or overflow; the result is the value if it is wanted, and the
      code itself if there is no value and code is legal. */
  lemma TreeResult<D>(e: Expr<D>, lang: Language<D>, legal: set<Tag>)
    requires WellFormed(e) && |Postfix(e)| <= CODE_SIZECODE
    ensures Run(Postfix(e), 0, [], For(lang, legal))
         == match Meaning(e, For(lang, legal), false) case None => Failed case Some(v) => Done([v])
    ensures Result(Postfix(e), lang, legal) == TreeValue(e, lang, legal)
  {
    var sem := For(lang, legal);
    assert [] + Postfix(e) + [] == Postfix(e);
    TreeRuns(e, [], [], [], sem);
    if Meaning(e, sem, false).Some? {
      var v := Meaning(e, sem, false).value;
      assert [] + [v] == [v];
    }
  }

  /** A result has a legal tag; a value with a legal tag is its own result; a
      lone integer or character is converted exactly when only that helps. */
  lemma WantedMeaning<D>(v: Value<D>, lang: Language<D>, legal: set<Tag>)
    requires forall d :: lang.tag(lang.asFloat(d)) == FloatTag && lang.tag(lang.charCode(d)) == IntTag
    ensures Wanted(v, lang, legal).Some? ==> TagOf(Wanted(v, lang, legal).value, lang) in legal
    ensures Wanted(v, lang, legal) == Some(v) <==> TagOf(v, lang) in legal
    ensures Wanted(v, lang, legal).None? <==>
      && TagOf(v, lang) !in legal
      && !(v.Plain? && TagOf(v, lang) == IntTag && FloatTag in legal)
      && !(v.Plain? && TagOf(v, lang) == StringTag && lang.isChar(v.datum) && IntTag in legal)
    ensures v.Plain? && lang.tag(v.datum) == IntTag && IntTag !in legal && FloatTag in legal ==>
      Wanted(v, lang, legal) == Some(Plain(lang.asFloat(v.datum)))
    ensures v.Plain? && lang.tag(v.datum) == StringTag && lang.isChar(v.datum) && StringTag !in legal && IntTag in legal ==>
      Wanted(v, lang, legal) == Some(Plain(lang.charCode(v.datum)))
  {
  }

  /** Symbols of absolute areas are resolved exactly when integers are legal and
      symbols are not. */
  lemma AbsoluteAreas<D>(v: Value<D>, lang: Language<D>, legal: set<Tag>)
    ensures For(lang, legal).resolve(v) == lang.resolve(v, legal * {IntTag, SymbolTag} == {IntTag})
  {
    assert IntTag in legal * {IntTag, SymbolTag} <==> IntTag in legal;
    assert SymbolTag in legal * {IntTag, SymbolTag} <==> SymbolTag in legal;
    if IntTag in legal && SymbolTag !in legal {
      assert legal * {IntTag, SymbolTag} == {IntTag};
    }
  }

  /** Small programs, by hand: a value is resolved unless the size operator comes
      next, the operand pushed first is the left one, and too few operands fault. */
  lemma SmallPrograms<D>(a: Value<D>, b: Value<D>, op: nat, sem: Sem<D>)
    requires op != OP_SIZE
    ensures IsUnop(op) ==>
      Run([Push(a), Operator(op)], 0, [], sem)
      == match sem.resolve(a)
         case None => Failed
         case Some(x) => match sem.unop(op, x) case None => Failed case Some(v) => Done([v])
    ensures Run([Push(a), Operator(OP_SIZE)], 0, [], sem)
         == match sem.unop(OP_SIZE, a) case None => Failed case Some(v) => Done([v])
    ensures !IsUnop(op) ==>
      Run([Push(a), Push(b), Operator(op)], 0, [], sem)
      == match sem.resolve(a)
         case None => Failed
         case Some(x) =>
           match sem.resolve(b)
           case None => Failed
           case Some(y) => match sem.binop(op, x, y) case None => Failed case Some(v) => Done([v])
    ensures Run([Operator(op)], 0, [], sem) == Fault
    ensures sem.resolve(a).Some? && !IsUnop(op) ==> Run([Push(a), Operator(op)], 0, [], sem) == Fault
  {
    hide Run;
    UnaryProgram(a, op, sem);
    UnaryProgram(a, OP_SIZE, sem);
    if !IsUnop(op) {
      BinaryProgram(a, b, op, sem);
    }
  }

  lemma RunEnds<D>(code: seq<Instr<D>>, s: seq<Value<D>>, sem: Sem<D>)
    ensures Run(code, |code|, s, sem) == Done(s)
  {
  }

  lemma RunFaults<D>(code: seq<Instr<D>>, i: nat, op: nat, s: seq<Value<D>>, sem: Sem<D>)
    requires i < |code| && code[i] == Operator(op) && |s| < (if IsUnop(op) then 1 else 2)
    ensures Run(code, i, s, sem) == Fault
  {
  }

  lemma UnaryProgram<D>(a: Value<D>, op: nat, sem: Sem<D>)
    ensures var x := if op == OP_SIZE then Some(a) else sem.resolve(a);
      Run([Push(a), Operator(op)], 0, [], sem)
      == match x
         case None => Failed
         case Some(x) =>
           if !IsUnop(op) then Fault else match sem.unop(op, x) case None => Failed case Some(v) => Done([v])
    ensures Run([Operator(op)], 0, [], sem) == Fault
  {
    hide Run;
    var code := [Push(a), Operator(op)];
    RunFaults([Operator(op)], 0, op, [], sem);
    assert [] + [Push(a)] + [Operator(op)] == code;
    LeafRuns(a, [], [Operator(op)], [], sem);
    var x := if op == OP_SIZE then Some(a) else sem.resolve(a);
    if x.Some? {
      assert [] + [x.value] == [x.value];
      if IsUnop(op) {
        OperatorRuns(code, 1, op, [], [x.value], sem);
        if sem.unop(op, x.value).Some? {
          var v := sem.unop(op, x.value).value;
          assert [] + [v] == [v];
          RunEnds(code, [v], sem);
        }
      } else {
        RunFaults(code, 1, op, [x.value], sem);
      }
    }
  }

  lemma BinaryProgram<D>(a: Value<D>, b: Value<D>, op: nat, sem: Sem<D>)
    requires !IsUnop(op)
    ensures
      Run([Push(a), Push(b), Operator(op)], 0, [], sem)
      == match sem.resolve(a)
         case None => Failed
         case Some(x) =>
           match sem.resolve(b)
           case None => Failed
           case Some(y) => match sem.binop(op, x, y) case None => Failed case Some(v) => Done([v])
  {
    hide Run;
    var code := [Push(a), Push(b), Operator(op)];
    assert [] + [Push(a)] + [Push(b), Operator(op)] == code && [Push(a)] + [Push(b)] + [Operator(op)] == code;
    LeafRuns(a, [], [Push(b), Operator(op)], [], sem);
    if sem.resolve(a).Some? {
      var x := sem.resolve(a).value;
      assert [] + [x] == [x];
      LeafRuns(b, [Push(a)], [Operator(op)], [x], sem);
      if sem.resolve(b).Some? {
        var y := sem.resolve(b).value;
        assert [x] + [y] == [x, y] && [] + [x, y] == [x, y];
        OperatorRuns(code, 2, op, [], [x, y], sem);
        if sem.binop(op, x, y).Some? {
          var v := sem.binop(op, x, y).value;
          assert [] + [v] == [v];
          RunEnds(code, [v], sem);
        }
      }
    }
  }

  /** Code without instructions has no value and is kept if code is legal. */
  lemma EmptyProgram<D>(lang: Language<D>, legal: set<Tag>)
    ensures Result([], lang, legal) == if CodeTag in legal then Some(Deferred([])) else None
  {
  }

  // --------------------------------------------------------------- splicing

  /** What Code_Value emits: deferred code is copied in, anything else pushed. */
  function Spliced<D>(v: Value<D>): seq<Instr<D>> {
    match v
    case Deferred(code) => code
    case Plain(_) => [Push(v)]
  }

  /** The code emitted for a tree whose leaves go through Code_Value. */
  function SplicedPostfix<D>(e: Expr<D>): seq<Instr<D>> {
    match e
    case Leaf(v) => Spliced(v)
    case Un(op, arg) => SplicedPostfix(arg) + [Operator(op)]
    case Bin(op, left, right) => SplicedPostfix(left) + SplicedPostfix(right) + [Operator(op)]
  }

  /** g is e with every deferred leaf replaced by the tree it was deferred from. */
  ghost predicate Grafted<D>(e: Expr<D>, g: Expr<D>) {
    match e
    case Leaf(v) => if v.Deferred? then v.code == Postfix(g) else g == e
    case Un(op, arg) => g.Un? && g.op == op && Grafted(arg, g.arg)
    case Bin(op, left, right) => g.Bin? && g.op == op && Grafted(left, g.left) && Grafted(right, g.right)
  }

  lemma {:induction false} SplicingGrafts<D>(e: Expr<D>, g: Expr<D>)
    requires Grafted(e, g)
    ensures SplicedPostfix(e) == Postfix(g)
  {
    match e
    case Leaf(_) =>
    case Un(_, arg) => SplicingGrafts(arg, g.arg);
    case Bin(_, left, right) =>
      SplicingGrafts(left, g.left);
      SplicingGrafts(right, g.right);
  }

  /** Code that has no value now and is kept for later stands for its own tree. */
  lemma DeferredStandsForTree<D>(t: Expr<D>, lang: Language<D>, legal: set<Tag>)
    requires WellFormed(t) && |Postfix(t)| <= CODE_SIZECODE
    requires Meaning(t, For(lang, legal), false).None? && CodeTag in legal
    ensures Result(Postfix(t), lang, legal).Some?
    ensures Grafted(Leaf(Result(Postfix(t), lang, legal).value), t)
  {
    TreeResult(t, lang, legal);
  }

  /** Evaluating an expression with deferred code spliced in equals evaluating
      the expression with the deferred trees grafted in. */
  lemma SplicedResult<D>(e: Expr<D>, g: Expr<D>, lang: Language<D>, legal: set<Tag>)
    requires Grafted(e, g) && WellFormed(g) && |SplicedPostfix(e)| <= CODE_SIZECODE
    ensures Result(SplicedPostfix(e), lang, legal) == TreeValue(g, lang, legal)
  {
    SplicingGrafts(e, g);
    TreeResult(g, lang, legal);
  }
}
