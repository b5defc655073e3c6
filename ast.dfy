/** The syntax tree the parser builds, the desugarings it performs while building
    it, and the shape a tree must have to respect the precedence and associativity
    of the binary operators. */
module Ast {
  import opened Wrappers
  import opened Tokens
  import opened Types

  /** A variable: `id` tells apart variables of the same name; `data` holds the
      bytes of a string literal's anonymous global. */
  datatype Var = Var(id: nat, name: string, ty: Type, isLocal: bool, data: Option<string>)

  /** The binary operators of the tree. There is no greater-than: `a > b` is built as `b < a`. */
  datatype BinOp =
    | Mul | Div | Mod | Add | Sub | Shl | Shr | Lt | Le | Eq | Ne
    | BitAnd | BitXor | BitOr | LogAnd | LogOr | Assign | Comma

  /** A node. Loops and switches carry the `id` that `break`, `continue` and
      `case` refer to. */
  datatype Node =
    | Num(val: int)
    | VarRef(v: Var)
    | Deref(operand: Node)
    | Addr(operand: Node)
    | Not(operand: Node)
    | BitNot(operand: Node)
    | Dot(aggregate: Node, field: string)
    | Binop(op: BinOp, lhs: Node, rhs: Node)
    | Cond(test: Node, yes: Node, no: Node)
    | Call(callee: string, ty: Type, args: seq<Node>)
    | StmtExpr(stmts: seq<Node>, result: Node)
    | ExprStmt(e: Node)
    | NullStmt
    | If(cond: Node, thenS: Node, elseS: Option<Node>)
    | For(id: nat, init: Option<Node>, loopCond: Option<Node>, inc: Option<Node>, body: Node)
    | DoWhile(id: nat, doBody: Node, doCond: Node)
    | Switch(id: nat, scrutinee: Node, switchBody: Node, cases: seq<Node>)
    | Case(val: int, caseBody: Node)
    | Break(target: nat)
    | Continue(target: nat)
    | Return(retval: Node)
    | CompStmt(block: seq<Node>)

  /** A `case` statement, as collected by the switch that encloses it. */
  type CaseNode = n: Node | n.Case? witness Case(0, NullStmt)

  datatype Function = Function(name: string, params: seq<Var>, ty: Type, body: Node, lvars: seq<Var>)

  datatype Program = Program(gvars: seq<Var>, funcs: seq<Function>)

  /** The type the parser attaches to a node itself; every other node's type is
      computed by the semantic pass, which is not part of this model. */
  function NodeType(n: Node): Type
  {
    match n
    case Num(_) => Int
    case VarRef(v) => v.ty
    case Call(_, t, _) => t
    case _ => NoType
  }

  function Deref1(v: Var): Node { Deref(VarRef(v)) }

  /** `({ e1; ...; en-1; en })`: every expression but the last becomes an
      expression statement, the last one is the value. */
  function StmtExprOf(exprs: seq<Node>): (r: Node)
    requires |exprs| > 0
    ensures r.StmtExpr? && |r.stmts| + 1 == |exprs| && r.result == exprs[|exprs| - 1]
    ensures forall i | 0 <= i < |r.stmts| :: r.stmts[i] == ExprStmt(exprs[i])
  {
    StmtExpr(seq(|exprs| - 1, i requires 0 <= i < |exprs| - 1 => ExprStmt(exprs[i])), exprs[|exprs| - 1])
  }

  /** `e++` (`imm` = 1) or `e--` (`imm` = -1) with temporaries `ptr` and `saved`:
      `({ ptr = &e; saved = *ptr; *ptr = *ptr + imm; saved })`. */
  function PostIncNode(e: Node, ptr: Var, saved: Var, imm: int): (r: Node)
    ensures r.StmtExpr? && |r.stmts| == 3 && r.result == VarRef(saved)
    ensures forall i | 0 <= i < 3 :: r.stmts[i].ExprStmt? && r.stmts[i].e.Binop? && r.stmts[i].e.op == Assign
  {
    StmtExprOf([
      Binop(Assign, VarRef(ptr), Addr(e)),
      Binop(Assign, VarRef(saved), Deref1(ptr)),
      Binop(Assign, Deref1(ptr), Binop(Add, Deref1(ptr), Num(imm))),
      VarRef(saved)])
  }

  /** `lhs op= rhs` with temporary `ptr`: `({ ptr = &lhs; *ptr = *ptr op rhs })`. */
  function AssignEqNode(op: BinOp, lhs: Node, ptr: Var, rhs: Node): (r: Node)
    ensures r.StmtExpr? && |r.stmts| == 1 && r.result == Binop(Assign, Deref1(ptr), Binop(op, Deref1(ptr), rhs))
  {
    StmtExprOf([
      Binop(Assign, VarRef(ptr), Addr(lhs)),
      Binop(Assign, Deref1(ptr), Binop(op, Deref1(ptr), rhs))])
  }

  predicate IsRelational(k: Kind)
  {
    k == Punct('<') || k == Punct('>') || k == LessEq || k == GreaterEq
  }

  /** One step of a relational chain: `<` and `<=` keep their operands, `>` and
      `>=` swap them and use `<` and `<=`. */
  function RelStep(k: Kind, lhs: Node, rhs: Node): Node
    requires IsRelational(k)
  {
    match k
    case Punct('<') => Binop(Lt, lhs, rhs)
    case Punct(_) => Binop(Lt, rhs, lhs)
    case LessEq => Binop(Le, lhs, rhs)
    case _ => Binop(Le, rhs, lhs)
  }

  /** The operator each compound assignment token lowers to. `&=` lowers to the
      logical and, as the source does. */
  function AssignOp(k: Kind): Option<BinOp>
  {
    match k
    case MulEq => Some(Mul)
    case DivEq => Some(Div)
    case ModEq => Some(Mod)
    case AddEq => Some(Add)
    case SubEq => Some(Sub)
    case ShlEq => Some(Shl)
    case ShrEq => Some(Shr)
    case AndEq => Some(LogAnd)
    case XorEq => Some(BitXor)
    case OrEq => Some(BitOr)
    case _ => None
  }

  /* Precedence levels, from the tightest binding to the loosest. */
  const POSTFIX := 2
  const UNARY := 3
  const MUL := 4
  const ADD := 5
  const SHIFT := 6
  const REL := 7
  const EQUALITY := 8
  const BITAND := 9
  const BITXOR := 10
  const BITOR := 11
  const LOGAND := 12
  const LOGOR := 13
  const COND := 14
  const ASSIGN := 15
  const EXPR := 16

  function OpLevel(op: BinOp): nat
  {
    match op
    case Mul | Div | Mod => MUL
    case Add | Sub => ADD
    case Shl | Shr => SHIFT
    case Lt | Le => REL
    case Eq | Ne => EQUALITY
    case BitAnd => BITAND
    case BitXor => BITXOR
    case BitOr => BITOR
    case LogAnd => LOGAND
    case LogOr => LOGOR
    case Assign => ASSIGN
    case Comma => EXPR
  }

  /** The loosest level at which `n` was produced: a unary minus (`0 - x`) is unary,
      other operators sit at their own level, atoms at level 0. */
  function Lvl(n: Node): nat
  {
    match n
    case Binop(op, l, r) =>
      if op == Sub && l == Num(0) && Lvl(r) <= UNARY then UNARY else OpLevel(op)
    case Deref(_) => UNARY
    case Addr(_) => UNARY
    case Not(_) => UNARY
    case BitNot(_) => UNARY
    case Cond(_, _, _) => COND
    case _ => 0
  }

  /** `n` is a tree built at level `level` or tighter, with well-placed operands. */
  predicate Shaped(n: Node, level: nat)
    decreases n, 1
  {
    Lvl(n) <= level && WellShaped(n)
  }

  /** Every binary operator's operands sit at the levels its grammar rule parses
      them at: left-associative operators take a left operand of their own level
      and a right operand one level tighter; assignment and `?:` associate to the
      right; the swapped operands of `>` and `>=` are accepted in either order. */
  predicate WellShaped(n: Node)
    decreases n, 0
  {
    match n
    case Binop(op, l, r) =>
      if op == Sub && l == Num(0) && Lvl(r) <= UNARY then Shaped(r, UNARY)
      else if op == Assign then Shaped(l, COND) && Shaped(r, ASSIGN)
      else if op == Comma then Shaped(l, ASSIGN) && Shaped(r, EXPR)
      else if op == Lt || op == Le then
        (Shaped(l, REL) && Shaped(r, SHIFT)) || (Shaped(l, SHIFT) && Shaped(r, REL))
      else Shaped(l, OpLevel(op)) && Shaped(r, OpLevel(op) - 1)
    case Deref(x) => Shaped(x, UNARY)
    case Addr(x) => Shaped(x, UNARY)
    case Not(x) => Shaped(x, UNARY)
    case BitNot(x) => Shaped(x, UNARY)
    case Cond(c, y, z) => Shaped(c, LOGOR) && WellShaped(y) && Shaped(z, COND)
    case _ => true
  }

  /** One step of a left-associative chain keeps it shaped at the operator's level. */
  lemma LeftStep(op: BinOp, l: Node, r: Node)
    requires op !in {Assign, Comma, Lt, Le}
    requires Shaped(l, OpLevel(op)) && Shaped(r, OpLevel(op) - 1)
    ensures Shaped(Binop(op, l, r), OpLevel(op))
  {
  }

  /** One step of a relational chain keeps it shaped at the relational level. */
  lemma RelStepShaped(k: Kind, l: Node, r: Node)
    requires IsRelational(k)
    requires Shaped(l, REL) && Shaped(r, SHIFT)
    ensures Shaped(RelStep(k, l, r), REL)
  {
    var op := if k == Punct('<') || k == Punct('>') then Lt else Le;
    var n := RelStep(k, l, r);
    if k == Punct('<') || k == LessEq {
      assert n == Binop(op, l, r);
    } else {
      assert n == Binop(op, r, l);
    }
    assert Lvl(n) == REL;
  }

  predicate IsPrefixOp(k: Kind)
  {
    k == Punct('-') || k == Punct('*') || k == Punct('&') || k == Punct('!') || k == Punct('~')
  }

  /** The node of a prefix operator: `-x` is `0 - x`, the others have a node of their own. */
  function PrefixNode(k: Kind, x: Node): Node
    requires IsPrefixOp(k)
  {
    match k
    case Punct('-') => Binop(Sub, Num(0), x)
    case Punct('*') => Deref(x)
    case Punct('&') => Addr(x)
    case Punct('!') => Not(x)
    case _ => BitNot(x)
  }

  /** A prefix operator applied to a unary operand is shaped at the unary level. */
  lemma PrefixShaped(k: Kind, x: Node)
    requires IsPrefixOp(k) && Shaped(x, UNARY)
    ensures Shaped(PrefixNode(k, x), UNARY)
  {
  }

  /** A tree shaped for a level is shaped for every looser level. */
  lemma ShapedWeaken(n: Node, level: nat, looser: nat)
    requires Shaped(n, level) && level <= looser
    ensures Shaped(n, looser)
  {
  }

  /** Every `break` and `continue` statement in `n` targets the innermost loop or
      switch around it: the last of `enclosing` (the ids of the loops and switches
      that enclose `n`, innermost last), or one inside `n`. Only statements are
      visited, not the statements inside a statement expression. The case list of
      a switch repeats nodes of its body and is not visited. */
  predicate JumpsTo(n: Node, enclosing: seq<nat>)
    decreases n
  {
    match n
    case Break(t) => |enclosing| > 0 && t == enclosing[|enclosing| - 1]
    case Continue(t) => |enclosing| > 0 && t == enclosing[|enclosing| - 1]
    case For(id, _, _, _, b) => JumpsTo(b, enclosing + [id])
    case DoWhile(id, b, _) => JumpsTo(b, enclosing + [id])
    case Switch(id, _, b, _) => JumpsTo(b, enclosing + [id])
    case Case(_, b) => JumpsTo(b, enclosing)
    case If(_, t, e) => JumpsTo(t, enclosing) && (e.Some? ==> JumpsTo(e.value, enclosing))
    case CompStmt(ss) => forall i | 0 <= i < |ss| :: JumpsTo(ss[i], enclosing)
    case _ => true
  }
  /** Every statement of `ss` jumps only to enclosing targets, stated one
      statement at a time from the end. */
  predicate AllJumpTo(ss: seq<Node>, enclosing: seq<nat>)
    decreases |ss|
  {
    ss == [] || (AllJumpTo(ss[..|ss| - 1], enclosing) && JumpsTo(ss[|ss| - 1], enclosing))
  }

  /** A block of such statements jumps only to enclosing targets. */
  lemma {:induction false} AllJumpToBlock(ss: seq<Node>, enclosing: seq<nat>)
    requires AllJumpTo(ss, enclosing)
    ensures JumpsTo(CompStmt(ss), enclosing)
    decreases |ss|
  {
    if ss != [] {
      AllJumpToBlock(ss[..|ss| - 1], enclosing);
    }
  }


}
