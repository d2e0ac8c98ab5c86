/** Postfix expression code of the assembler (code.c): what a tree compiles to,
    what it means, and a stack machine with the original's failure modes. */
module ExprSpec {

  /** Indices of Operator_e in lex.h that matter here. */
  const OP_SIZE: nat := 13
  const OP_RCONST: nat := 18

  const CODE_SIZECODE: nat := 1024
  const CODE_SIZESTACK: nat := 1024

  predicate IsUnop(op: nat) { op <= OP_RCONST }

  datatype Option<+T> = None | Some(value: T)

  /** A value is deferred code or anything else. */
  datatype Value<D> = Deferred(code: seq<Instr<D>>) | Plain(datum: D)

  datatype Instr<D> = Operator(op: nat) | Push(value: Value<D>)

  /** Eval_Unop, Eval_Binop and Value_ResolveSymbol; None is ValueIllegal or failure. */
  datatype Sem<!D> = Sem(
    unop: (nat, Value<D>) -> Option<Value<D>>,
    binop: (nat, Value<D>, Value<D>) -> Option<Value<D>>,
    resolve: Value<D> -> Option<Value<D>>)

  // ------------------------------------------------------------------ trees

  datatype Expr<D> = Leaf(value: Value<D>) | Un(op: nat, arg: Expr<D>) | Bin(op: nat, left: Expr<D>, right: Expr<D>)

  predicate WellFormed<D>(e: Expr<D>) {
    match e
    case Leaf(_) => true
    case Un(op, arg) => IsUnop(op) && WellFormed(arg)
    case Bin(op, left, right) => !IsUnop(op) && WellFormed(left) && WellFormed(right)
  }

  /** The code the parser emits for a tree. */
  function Postfix<D>(e: Expr<D>): (r: seq<Instr<D>>)
    ensures |r| >= 1 && r[0].Push?
    ensures Leaves(e) <= |r|
  {
    match e
    case Leaf(v) => [Push(v)]
    case Un(op, arg) => Postfix(arg) + [Operator(op)]
    case Bin(op, left, right) => Postfix(left) + Postfix(right) + [Operator(op)]
  }

  function Leaves<D>(e: Expr<D>): nat {
    match e
    case Leaf(_) => 1
    case Un(_, arg) => Leaves(arg)
    case Bin(_, left, right) => Leaves(left) + Leaves(right)
  }

  /** The value of a tree. A leaf is resolved unless it stands directly under
      the size operator. */
  function Meaning<D>(e: Expr<D>, sem: Sem<D>, underSize: bool): Option<Value<D>> {
    match e
    case Leaf(v) => if underSize then Some(v) else sem.resolve(v)
    case Un(op, arg) =>
      (match Meaning(arg, sem, op == OP_SIZE)
       case None => None
       case Some(v) => sem.unop(op, v))
    case Bin(op, left, right) =>
      match Meaning(left, sem, false)
      case None => None
      case Some(l) =>
        match Meaning(right, sem, false)
        case None => None
        case Some(r) => sem.binop(op, l, r)
  }

  // ---------------------------------------------------------------- machine

  /** A finished run with its stack, a failed evaluation, or a tripped
      assertion or an index outside the stack. */
  datatype Outcome<D> = Done(stack: seq<Value<D>>) | Failed | Fault

  predicate NextIsSize<D>(code: seq<Instr<D>>, i: nat) {
    i + 1 < |code| && code[i + 1] == Operator(OP_SIZE)
  }

  /** One instruction at position i. */
  function Step<D>(code: seq<Instr<D>>, i: nat, stack: seq<Value<D>>, sem: Sem<D>): Outcome<D>
    requires i < |code|
  {
    match code[i]
    case Push(v) =>
      (match if NextIsSize(code, i) then Some(v) else sem.resolve(v)
       case None => Failed
       case Some(v') => if |stack| < CODE_SIZESTACK then Done(stack + [v']) else Fault)
    case Operator(op) =>
      var n := |stack|;
      if IsUnop(op) then
        if n < 1 then Fault
        else match sem.unop(op, stack[n - 1])
          case None => Failed
          case Some(v) => Done(stack[..n - 1] + [v])
      else
        if n < 2 then Fault
        else match sem.binop(op, stack[n - 2], stack[n - 1])
          case None => Failed
          case Some(v) => Done(stack[..n - 2] + [v])
  }

  /** Code_EvalLowest from position i on. */
  function Run<D>(code: seq<Instr<D>>, i: nat, stack: seq<Value<D>>, sem: Sem<D>): Outcome<D>
    requires i <= |code|
    decreases |code| - i
  {
    if i == |code| then Done(stack)
    else match Step(code, i, stack, sem)
      case Done(stack') => Run(code, i + 1, stack', sem)
      case other => other
  }

  // -------------------------------------------------------- wanted results

  /** ValueTag. */
  datatype Tag = IntTag | Int64Tag | FloatTag | StringTag | BoolTag | CodeTag | AddrTag | SymbolTag

  /** Everything that value.c and eval.c decide: the operators, the resolution
      of symbols (with or without those of absolute areas), the tag of a datum,
      an integer as a float, whether a string has one character, and its code. */
  datatype Language<!D> = Language(
    unop: (nat, Value<D>) -> Option<Value<D>>,
    binop: (nat, Value<D>, Value<D>) -> Option<Value<D>>,
    resolve: (Value<D>, bool) -> Option<Value<D>>,
    tag: D -> Tag, asFloat: D -> D, isChar: D -> bool, charCode: D -> D)

  /** What evaluation sees of the language when these tags are legal. */
  function For<D>(lang: Language<D>, legal: set<Tag>): Sem<D> {
    var absolute := IntTag in legal && SymbolTag !in legal;
    Sem(lang.unop, lang.binop, v => lang.resolve(v, absolute))
  }

  function TagOf<D>(v: Value<D>, lang: Language<D>): Tag {
    match v case Deferred(_) => CodeTag case Plain(d) => lang.tag(d)
  }

  /** An integer becomes a float, or a character its code, when only that is legal. */
  function Converted<D>(v: Value<D>, lang: Language<D>, legal: set<Tag>): Value<D> {
    if v.Plain? && lang.tag(v.datum) == IntTag && FloatTag in legal && IntTag !in legal then Plain(lang.asFloat(v.datum))
    else if v.Plain? && lang.tag(v.datum) == StringTag && IntTag in legal && StringTag !in legal && lang.isChar(v.datum)
    then Plain(lang.charCode(v.datum))
    else v
  }

  /** The end of Code_Eval: None is ValueIllegal. */
  function Wanted<D>(v: Value<D>, lang: Language<D>, legal: set<Tag>): Option<Value<D>> {
    var c := Converted(v, lang, legal);
    if TagOf(c, lang) in legal then Some(c) else None
  }

  /** Code_Eval: the single value if it is wanted, or the code itself when there
      is no value and code is legal. */
  function Result<D>(code: seq<Instr<D>>, lang: Language<D>, legal: set<Tag>): Option<Value<D>> {
    match (if code == [] then Failed else Run(code, 0, [], For(lang, legal)))
    case Done(stack) => if |stack| == 1 then Wanted(stack[0], lang, legal) else None
    case _ => if CodeTag in legal then Some(Deferred(code)) else None
  }

  /** The result that a tree deserves. */
  function TreeValue<D>(e: Expr<D>, lang: Language<D>, legal: set<Tag>): Option<Value<D>> {
    match Meaning(e, For(lang, legal), false)
    case None => if CodeTag in legal then Some(Deferred(Postfix(e))) else None
    case Some(v) => Wanted(v, lang, legal)
  }
}
