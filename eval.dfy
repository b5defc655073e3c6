/** A small reference semantics for the integer and pointer expressions the parser
    builds, used to state what its desugarings compute. Storage is a map from a
    variable's id to its value; a pointer is the id of the variable it points to.
    Left operands are evaluated before right operands. An expression the
    semantics does not cover evaluates to None. */
module Eval {
  import opened Wrappers
  import opened Tokens
  import opened Ast

  datatype Value = IntV(i: int) | PtrV(loc: nat)

  type Store = map<nat, Value>

  function Truth(b: bool): int { if b then 1 else 0 }

  function Abs(x: int): nat { if x < 0 then -x else x }

  /** C's integer division truncates toward zero. */
  function CDiv(x: int, y: int): int
    requires y != 0
  {
    var q := Abs(x) / Abs(y);
    if (x < 0) == (y < 0) then q else -q
  }

  function CMod(x: int, y: int): int
    requires y != 0
  {
    x - y * CDiv(x, y)
  }

  function Pow2(n: nat): (p: nat)
    ensures p >= 1
  {
    if n == 0 then 1 else 2 * Pow2(n - 1)
  }

  /** Bitwise and, or and exclusive or of two's-complement integers of unbounded
      width: bit by bit from the lowest, a negative number having infinitely many
      leading ones. */
  function AndBits(x: int, y: int): int
    decreases Abs(x) + Abs(y)
  {
    if x == 0 || y == 0 then 0
    else if x == -1 then y
    else if y == -1 then x
    else 2 * AndBits(x / 2, y / 2) + (x % 2) * (y % 2)
  }

  function OrBits(x: int, y: int): int
    decreases Abs(x) + Abs(y)
  {
    if x == 0 then y
    else if y == 0 then x
    else if x == -1 || y == -1 then -1
    else 2 * OrBits(x / 2, y / 2) + (if x % 2 == 1 || y % 2 == 1 then 1 else 0)
  }

  function XorBits(x: int, y: int): int
    decreases Abs(x) + Abs(y)
  {
    if x == 0 then y
    else if y == 0 then x
    else if x == -1 then -y - 1
    else if y == -1 then -x - 1
    else 2 * XorBits(x / 2, y / 2) + (x % 2 + y % 2) % 2
  }

  /** The value of a binary operator on two integers (no short circuit). A shift
      by a negative count has no value; `>>` is the arithmetic shift. */
  function Arith(op: BinOp, x: int, y: int): Option<int>
  {
    match op
    case Mul => Some(x * y)
    case Div => if y == 0 then None else Some(CDiv(x, y))
    case Mod => if y == 0 then None else Some(CMod(x, y))
    case Add => Some(x + y)
    case Sub => Some(x - y)
    case Shl => if y < 0 then None else Some(x * Pow2(y))
    case Shr => if y < 0 then None else Some(x / Pow2(y))
    case BitAnd => Some(AndBits(x, y))
    case BitXor => Some(XorBits(x, y))
    case BitOr => Some(OrBits(x, y))
    case Lt => Some(Truth(x < y))
    case Le => Some(Truth(x <= y))
    case Eq => Some(Truth(x == y))
    case Ne => Some(Truth(x != y))
    case LogAnd => Some(Truth(x != 0 && y != 0))
    case LogOr => Some(Truth(x != 0 || y != 0))
    case _ => None
  }

  /** The location an lvalue designates, and the store after evaluating it. */
  function EvalLoc(n: Node, st: Store): Option<(nat, Store)>
    decreases n, 1
  {
    match n
    case VarRef(v) => Some((v.id, st))
    case Deref(p) =>
      var r :- Eval(p, st);
      if r.0.PtrV? then Some((r.0.loc, r.1)) else None
    case _ => None
  }

  function Eval(n: Node, st: Store): Option<(Value, Store)>
    decreases n, 1
  {
    match n
    case Num(k) => Some((IntV(k), st))
    case VarRef(v) => if v.id in st then Some((st[v.id], st)) else None
    case Deref(p) =>
      var r :- Eval(p, st);
      if r.0.PtrV? && r.0.loc in r.1 then Some((r.1[r.0.loc], r.1)) else None
    case Addr(x) =>
      var r :- EvalLoc(x, st);
      Some((PtrV(r.0), r.1))
    case Not(x) =>
      var r :- Eval(x, st);
      if r.0.IntV? then Some((IntV(Truth(r.0.i == 0)), r.1)) else None
    case Binop(op, l, r) =>
      if op == Assign then
        var a :- EvalLoc(l, st);
        var b :- Eval(r, a.1);
        Some((b.0, b.1[a.0 := b.0]))
      else if op == Comma then
        var a :- Eval(l, st);
        Eval(r, a.1)
      else if op == LogAnd || op == LogOr then
        var a :- Eval(l, st);
        if !a.0.IntV? then None
        else if (op == LogAnd) == (a.0.i == 0) then Some((IntV(Truth(op == LogOr)), a.1))
        else
          var b :- Eval(r, a.1);
          if b.0.IntV? then Some((IntV(Truth(b.0.i != 0)), b.1)) else None
      else
        var a :- Eval(l, st);
        var b :- Eval(r, a.1);
        if a.0.IntV? && b.0.IntV? then
          var k :- Arith(op, a.0.i, b.0.i);
          Some((IntV(k), b.1))
        else None
    case Cond(c, y, z) =>
      var a :- Eval(c, st);
      if !a.0.IntV? then None
      else if a.0.i != 0 then Eval(y, a.1) else Eval(z, a.1)
    case StmtExpr(ss, e) =>
      var st1 :- EvalStmts(ss, st);
      Eval(e, st1)
    case ExprStmt(e) => Eval(e, st)
    case _ => None
  }

  /** The expression statements of a statement expression, in order. */
  function EvalStmts(ss: seq<Node>, st: Store): Option<Store>
    decreases ss, 0
  {
    if ss == [] then Some(st)
    else if !ss[0].ExprStmt? then None
    else
      var r :- Eval(ss[0], st);
      EvalStmts(ss[1..], r.1)
  }

  /* One evaluation step per lemma, so that each proof below unfolds Eval once. */

  lemma AssignStep(l: Node, r: Node, st: Store, loc: nat, s1: Store, v: Value, s2: Store)
    requires EvalLoc(l, st) == Some((loc, s1)) && Eval(r, s1) == Some((v, s2))
    ensures Eval(Binop(Assign, l, r), st) == Some((v, s2[loc := v]))
  {
  }

  lemma ArithStep(op: BinOp, l: Node, r: Node, st: Store, x: int, s1: Store, y: int, s2: Store, w: int)
    requires op != Assign && op != Comma && op != LogAnd && op != LogOr
    requires Eval(l, st) == Some((IntV(x), s1)) && Eval(r, s1) == Some((IntV(y), s2))
    requires Arith(op, x, y) == Some(w)
    ensures Eval(Binop(op, l, r), st) == Some((IntV(w), s2))
  {
  }

  lemma DerefStep(p: Var, s: Store, a: nat)
    requires p.id in s && s[p.id] == PtrV(a) && a in s
    ensures EvalLoc(Deref1(p), s) == Some((a, s))
    ensures Eval(Deref1(p), s) == Some((s[a], s))
  {
    assert Eval(VarRef(p), s) == Some((PtrV(a), s));
  }

  lemma AddrStep(e: Node, st: Store, a: nat, st1: Store)
    requires EvalLoc(e, st) == Some((a, st1))
    ensures Eval(Addr(e), st) == Some((PtrV(a), st1))
  {
  }

  lemma StmtsStep(ss: seq<Node>, st: Store, v: Value, s1: Store)
    requires ss != [] && ss[0].ExprStmt? && Eval(ss[0].e, st) == Some((v, s1))
    ensures EvalStmts(ss, st) == EvalStmts(ss[1..], s1)
  {
  }

  lemma StmtExprStep(ss: seq<Node>, e: Node, st: Store, s1: Store)
    requires EvalStmts(ss, st) == Some(s1)
    ensures Eval(StmtExpr(ss, e), st) == Eval(e, s1)
  {
  }

  /** The last two statements of `e++`: save the value `ptr` points to, then store
      it plus `imm` there. */
  lemma SaveAndStep(ss: seq<Node>, ptr: Var, saved: Var, imm: int, s1: Store, a: nat, n: int)
    requires ss == [ExprStmt(Binop(Assign, VarRef(saved), Deref1(ptr))),
                    ExprStmt(Binop(Assign, Deref1(ptr), Binop(Add, Deref1(ptr), Num(imm))))]
    requires ptr.id in s1 && s1[ptr.id] == PtrV(a) && a in s1 && s1[a] == IntV(n)
    requires ptr.id != saved.id && saved.id != a
    ensures EvalStmts(ss, s1) == Some(s1[saved.id := IntV(n)][a := IntV(n + imm)])
  {
    var s2: Store := s1[saved.id := IntV(n)];
    DerefStep(ptr, s1, a);
    AssignStep(VarRef(saved), Deref1(ptr), s1, saved.id, s1, IntV(n), s1);
    StmtsStep(ss, s1, IntV(n), s2);
    DerefStep(ptr, s2, a);
    ArithStep(Add, Deref1(ptr), Num(imm), s2, n, s2, imm, s2, n + imm);
    AssignStep(Deref1(ptr), Binop(Add, Deref1(ptr), Num(imm)), s2, a, s2, IntV(n + imm), s2);
    StmtsStep(ss[1..], s2, IntV(n + imm), s2[a := IntV(n + imm)]);
    assert ss[1..][1..] == [];
  }

  /** `e++` and `e--` evaluate `e`'s location once, yield the old value and store
      the old value plus `imm` there. */
  lemma PostIncMeaning(e: Node, ptr: Var, saved: Var, imm: int, st: Store, a: nat, st1: Store, n: int)
    requires EvalLoc(e, st) == Some((a, st1))
    requires a in st1 && st1[a] == IntV(n)
    requires ptr.id != saved.id && ptr.id != a && saved.id != a
    ensures Eval(PostIncNode(e, ptr, saved, imm), st)
         == Some((IntV(n), st1[ptr.id := PtrV(a)][saved.id := IntV(n)][a := IntV(n + imm)]))
  {
    var ss := PostIncNode(e, ptr, saved, imm).stmts;
    var s1 := st1[ptr.id := PtrV(a)];
    var s3: Store := s1[saved.id := IntV(n)][a := IntV(n + imm)];
    AddrStep(e, st, a, st1);
    AssignStep(VarRef(ptr), Addr(e), st, ptr.id, st, PtrV(a), st1);
    StmtsStep(ss, st, PtrV(a), s1);
    SaveAndStep(ss[1..], ptr, saved, imm, s1, a, n);
    StmtExprStep(ss, VarRef(saved), st, s3);
  }

  /** `e op= rhs` evaluates `e`'s location once, reads the value stored there,
      evaluates `rhs` (whose side effects are kept), combines the two, stores the
      result at that location and yields it. */
  lemma AssignEqMeaning(op: BinOp, e: Node, ptr: Var, rhs: Node, st: Store, a: nat, st1: Store, n: int, y: int, st2: Store, w: int)
    requires op != Assign && op != Comma && op != LogAnd && op != LogOr
    requires EvalLoc(e, st) == Some((a, st1))
    requires a in st1 && st1[a] == IntV(n) && ptr.id != a
    requires Eval(rhs, st1[ptr.id := PtrV(a)]) == Some((IntV(y), st2))
    requires Arith(op, n, y) == Some(w)
    ensures Eval(AssignEqNode(op, e, ptr, rhs), st) == Some((IntV(w), st2[a := IntV(w)]))
  {
    var ss := AssignEqNode(op, e, ptr, rhs).stmts;
    var s1 := st1[ptr.id := PtrV(a)];
    AddrStep(e, st, a, st1);
    AssignStep(VarRef(ptr), Addr(e), st, ptr.id, st, PtrV(a), st1);
    StmtsStep(ss, st, PtrV(a), s1);
    assert ss[1..] == [];
    StmtExprStep(ss, Binop(Assign, Deref1(ptr), Binop(op, Deref1(ptr), rhs)), st, s1);
    DerefStep(ptr, s1, a);
    ArithStep(op, Deref1(ptr), rhs, s1, n, s1, y, st2, w);
    AssignStep(Deref1(ptr), Binop(op, Deref1(ptr), rhs), s1, a, s1, IntV(w), st2);
  }

  lemma AndStep(l: Node, r: Node, st: Store, x: int, s1: Store, y: int)
    requires Eval(l, st) == Some((IntV(x), s1))
    requires x != 0 ==> Eval(r, s1) == Some((IntV(y), s1))
    ensures Eval(Binop(LogAnd, l, r), st) == Some((IntV(Truth(x != 0 && y != 0)), s1))
  {
  }

  /** `e &= rhs` stores and yields the LOGICAL and of the two values, 0 or 1, since
      the source lowers `&=` to `&&`; `rhs` is not evaluated when the stored value is 0. */
  lemma AndEqIsLogical(e: Node, ptr: Var, rhs: Node, st: Store, a: nat, st1: Store, n: int, y: int)
    requires EvalLoc(e, st) == Some((a, st1))
    requires a in st1 && st1[a] == IntV(n) && ptr.id != a
    requires n != 0 ==> Eval(rhs, st1[ptr.id := PtrV(a)]) == Some((IntV(y), st1[ptr.id := PtrV(a)]))
    ensures var w := Truth(n != 0 && y != 0);
      Eval(AssignEqNode(LogAnd, e, ptr, rhs), st) == Some((IntV(w), st1[ptr.id := PtrV(a)][a := IntV(w)]))
  {
    var w := Truth(n != 0 && y != 0);
    var ss := AssignEqNode(LogAnd, e, ptr, rhs).stmts;
    var s1 := st1[ptr.id := PtrV(a)];
    AddrStep(e, st, a, st1);
    AssignStep(VarRef(ptr), Addr(e), st, ptr.id, st, PtrV(a), st1);
    StmtsStep(ss, st, PtrV(a), s1);
    assert ss[1..] == [];
    StmtExprStep(ss, Binop(Assign, Deref1(ptr), Binop(LogAnd, Deref1(ptr), rhs)), st, s1);
    DerefStep(ptr, s1, a);
    AndStep(Deref1(ptr), rhs, s1, n, s1, y);
    AssignStep(Deref1(ptr), Binop(LogAnd, Deref1(ptr), rhs), s1, a, s1, IntV(w), s1);
  }

  /** With `x` holding 6, `x &= 3` leaves 1 in `x`, where a bitwise and would leave 2. */
  lemma AndEqSixThree(x: Var, ptr: Var)
    requires x.id != ptr.id
    ensures Eval(AssignEqNode(LogAnd, VarRef(x), ptr, Num(3)), map[x.id := IntV(6)])
         == Some((IntV(1), map[x.id := IntV(6)][ptr.id := PtrV(x.id)][x.id := IntV(1)]))
  {
    AndEqIsLogical(VarRef(x), ptr, Num(3), map[x.id := IntV(6)], x.id, map[x.id := IntV(6)], 6, 3);
  }

  /** What each relational token means on two integers. */
  function Compare(k: Kind, x: int, y: int): bool
    requires IsRelational(k)
  {
    if k == Punct('<') then x < y
    else if k == Punct('>') then x > y
    else if k == LessEq then x <= y
    else x >= y
  }

  /** Building `a > b` as `b < a` and `a >= b` as `b <= a` keeps the meaning of
      every relational operator (for operands without side effects, whose
      evaluation order the swap reverses). */
  lemma RelStepMeaning(k: Kind, l: Node, r: Node, st: Store, x: int, y: int)
    requires IsRelational(k)
    requires Eval(l, st) == Some((IntV(x), st)) && Eval(r, st) == Some((IntV(y), st))
    ensures Eval(RelStep(k, l, r), st) == Some((IntV(Truth(Compare(k, x, y))), st))
  {
    if k == Punct('<') {
      ArithStep(Lt, l, r, st, x, st, y, st, Truth(x < y));
    } else if k == Punct('>') {
      ArithStep(Lt, r, l, st, y, st, x, st, Truth(y < x));
    } else if k == LessEq {
      ArithStep(Le, l, r, st, x, st, y, st, Truth(x <= y));
    } else {
      ArithStep(Le, r, l, st, y, st, x, st, Truth(y <= x));
    }
  }

  /** A unary minus, built as `0 - x`, negates. */
  lemma NegMeaning(x: Node, st: Store, st1: Store, n: int)
    requires Eval(x, st) == Some((IntV(n), st1))
    ensures Eval(Binop(Sub, Num(0), x), st) == Some((IntV(-n), st1))
  {
  }
}
