/** code.c as it runs: the static program array that the emitters fill and the
    static stack that evaluation works on. */
module ExprMachine {
  import opened ExprSpec
  import opened ExprProofs

  class Machine<D(==)> {
    const program: array<Instr<D>>
    const stack: array<Value<D>>
    var firstFree: nat

    ghost predicate Valid()
      reads this
    {
      && program.Length == CODE_SIZECODE && stack.Length == CODE_SIZESTACK
      && firstFree <= CODE_SIZECODE
    }

    /** The code emitted so far. */
    ghost function Code(): seq<Instr<D>>
      requires Valid()
      reads this, program
    {
      program[..firstFree]
    }

    constructor (blank: D)
      ensures Valid() && Code() == [] && fresh(program) && fresh(stack)
    {
      program := new Instr<D>[CODE_SIZECODE](_ => Operator(0));
      stack := new Value<D>[CODE_SIZESTACK](_ => Plain(blank));
      firstFree := 0;
    }

    /** Code_Init. */
    method Init()
      requires Valid()
      modifies `firstFree
      ensures Valid() && Code() == []
    {
      firstFree := 0;
    }

    /** Code_Operator, Code_Symbol, Code_Int, ...: one more instruction, or an
        overflow error (false) when the array is full. */
    method Emit(i: Instr<D>) returns (ok: bool)
      requires Valid()
      modifies `firstFree, program
      ensures Valid() && ok == (old(firstFree) < CODE_SIZECODE)
      ensures Code() == if ok then old(Code()) + [i] else old(Code())
    {
      if firstFree < CODE_SIZECODE {
        program[firstFree] := i;
        firstFree := firstFree + 1;
        return true;
      }
      return false;
    }

    /** Code_Value: deferred code is copied in when asked for; that needs one
        slot more than it uses. */
    method EmitValue(v: Value<D>, expand: bool) returns (ok: bool)
      requires Valid()
      modifies `firstFree, program
      ensures Valid()
      ensures ok == if expand && v.Deferred? then |v.code| + old(firstFree) < CODE_SIZECODE else old(firstFree) < CODE_SIZECODE
      ensures Code() == old(Code()) + if !ok then [] else if expand then Spliced(v) else [Push(v)]
    {
      if expand && v.Deferred? {
        var n := |v.code|;
        if n + firstFree < CODE_SIZECODE {
          for i := 0 to n
            invariant firstFree == old(firstFree)
            invariant program[..firstFree + i] == old(Code()) + v.code[..i]
          {
            program[firstFree + i] := v.code[i];
          }
          firstFree := firstFree + n;
          return true;
        }
        return false;
      }
      ok := Emit(Push(v));
    }

    /** The operator case of Code_EvalLowest, in place on the top of the stack. */
    method Apply(op: nat, sem: Sem<D>, sp: nat) returns (sp': nat, next: Outcome<D>)
      requires Valid() && sp <= CODE_SIZESTACK
      modifies stack
      ensures next == Step([Operator(op)], 0, old(stack[..sp]), sem)
      ensures next.Done? ==> sp' <= CODE_SIZESTACK && next.stack == stack[..sp']
    {
      sp' := sp;
      ghost var was := stack[..sp];
      if IsUnop(op) {
        if sp < 1 {
          return sp, Fault;
        }
        var result := sem.unop(op, stack[sp - 1]);
        if result.None? {
          return sp, Failed;
        }
        stack[sp - 1] := result.value;
        assert stack[..sp] == was[..sp - 1] + [result.value];
      } else {
        if sp < 2 {
          return sp, Fault;
        }
        var result := sem.binop(op, stack[sp - 2], stack[sp - 1]);
        if result.None? {
          return sp, Failed;
        }
        stack[sp - 2] := result.value;
        sp' := sp - 1;
        assert stack[..sp'] == was[..sp - 2] + [result.value];
      }
      next := Done(stack[..sp']);
    }

    /** Code_EvalLowest on the whole program. */
    method EvalLowest(sem: Sem<D>) returns (sp: nat, outcome: Outcome<D>)
      requires Valid()
      modifies stack
      ensures Valid() && Code() == old(Code())
      ensures outcome == Run(Code(), 0, [], sem)
      ensures outcome.Done? ==> sp <= CODE_SIZESTACK && outcome.stack == stack[..sp]
    {
      ghost var code := Code();
      sp := 0;
      var i := 0;
      while i != firstFree
        invariant 0 <= i <= firstFree <= CODE_SIZECODE && sp <= CODE_SIZESTACK
        invariant Code() == code
        invariant Run(code, 0, [], sem) == Run(code, i, stack[..sp], sem)
        decreases firstFree - i
      {
        hide Run, Step;
        ghost var was := stack[..sp];
        RunUnfolds(code, i, was, sem);
        match program[i] {
        case Operator(op) =>
          OperatorIsLocal(code, i, op, was, sem);
          var next;
          sp, next := Apply(op, sem, sp);
          if !next.Done? {
            return sp, next;
          }
        case Push(value) =>
          PushSteps(code, i, value, was, sem);
          var nextIsOpSize := i + 1 != firstFree && program[i + 1] == Operator(OP_SIZE);
          assert nextIsOpSize == NextIsSize(code, i);
          var v := if nextIsOpSize then Some(value) else sem.resolve(value);
          if v.None? {
            return sp, Failed;
          }
          if sp == CODE_SIZESTACK {
            return sp, Fault;
          }
          stack[sp] := v.value;
          sp := sp + 1;
          assert stack[..sp] == was + [v.value];
        }
        i := i + 1;
      }
      outcome := Done(stack[..sp]);
    }

    /** An operator looks at nothing but the stack. */
    lemma OperatorIsLocal(code: seq<Instr<D>>, i: nat, op: nat, s: seq<Value<D>>, sem: Sem<D>)
      requires i < |code| && code[i] == Operator(op)
      ensures Step(code, i, s, sem) == Step([Operator(op)], 0, s, sem)
    {
    }

    lemma PushSteps(code: seq<Instr<D>>, i: nat, v: Value<D>, s: seq<Value<D>>, sem: Sem<D>)
      requires i < |code| && code[i] == Push(v)
      ensures Step(code, i, s, sem)
           == match if NextIsSize(code, i) then Some(v) else sem.resolve(v)
              case None => Failed
              case Some(v') => if |s| < CODE_SIZESTACK then Done(s + [v']) else Fault
    {
    }

    lemma RunUnfolds(code: seq<Instr<D>>, i: nat, s: seq<Value<D>>, sem: Sem<D>)
      requires i < |code|
      ensures Run(code, i, s, sem)
           == match Step(code, i, s, sem) case Done(s') => Run(code, i + 1, s', sem) case other => other
    {
    }

    /** Code_Eval. */
    method Eval(lang: Language<D>, legal: set<Tag>) returns (r: Option<Value<D>>)
      requires Valid()
      requires Code() == [] || exists e :: WellFormed(e) && Postfix(e) == Code()
      modifies stack
      ensures Valid() && Code() == old(Code())
      ensures r == Result(Code(), lang, legal)
    {
      hide Run, For;
      var outcome: Outcome<D> := Failed;
      if firstFree != 0 {
        assert Code() != [];
        ghost var e :| WellFormed(e) && Postfix(e) == Code();
        TreeResult(e, lang, legal);
        var sp;
        sp, outcome := EvalLowest(For(lang, legal));
        assert outcome.Done? ==> sp == 1 && stack[..sp] == [stack[0]];
      }
      var value;
      if outcome.Failed? {
        if CodeTag !in legal {
          return None;
        }
        value := Deferred(program[..firstFree]);
      } else {
        value := stack[0];
      }
      if value.Plain? {
        var tag := lang.tag(value.datum);
        if tag == IntTag {
          if FloatTag in legal && IntTag !in legal {
            value := Plain(lang.asFloat(value.datum));
          }
        } else if tag == StringTag {
          if IntTag in legal && StringTag !in legal && lang.isChar(value.datum) {
            value := Plain(lang.charCode(value.datum));
          }
        }
      }
      return if TagOf(value, lang) in legal then Some(value) else None;
    }

    /** What the parser (expr.c) emits for a tree: the operands, then the operator;
        values that hold deferred code are spliced in. */
    method EmitTree(e: Expr<D>) returns (ok: bool)
      requires Valid()
      modifies `firstFree, program
      ensures Valid()
      ensures ok ==> Code() == old(Code()) + SplicedPostfix(e)
      ensures old(firstFree) + |SplicedPostfix(e)| < CODE_SIZECODE ==> ok
      decreases e
    {
      ghost var was := Code();
      match e
      case Leaf(v) =>
        ok := EmitValue(v, true);
      case Un(op, arg) =>
        ok := EmitTree(arg);
        if ok {
          ok := Emit(Operator(op));
          assert (was + SplicedPostfix(arg)) + [Operator(op)] == was + (SplicedPostfix(arg) + [Operator(op)]);
        }
      case Bin(op, left, right) =>
        ok := EmitTree(left);
        if ok {
          ok := EmitTree(right);
          if ok {
            ok := Emit(Operator(op));
            Joined(was, SplicedPostfix(left), SplicedPostfix(right), [Operator(op)]);
          }
        }
    }

    static lemma Joined<T>(a: seq<T>, b: seq<T>, c: seq<T>, d: seq<T>)
      ensures a + b + c + d == a + (b + c + d)
    {
    }

    /** Expr_BuildAndEval on a tree: None for an overflow, else the result of the
        tree with the deferred trees grafted in. */
    method BuildAndEval(e: Expr<D>, lang: Language<D>, legal: set<Tag>, ghost grafted: Expr<D>) returns (r: Option<Option<Value<D>>>)
      requires Valid() && Grafted(e, grafted) && WellFormed(grafted)
      modifies this, program, stack
      ensures Valid()
      ensures r.Some? ==> r.value == TreeValue(grafted, lang, legal)
      ensures |Postfix(grafted)| < CODE_SIZECODE ==> r.Some?
    {
      hide Run, For, TreeValue, Result;
      SplicingGrafts(e, grafted);
      Init();
      var ok := EmitTree(e);
      if !ok {
        return None;
      }
      assert Code() == Postfix(grafted);
      TreeResult(grafted, lang, legal);
      var v := Eval(lang, legal);
      return Some(v);
    }
  }
}
