/** What a span of tokens means when the parser reads it without side effects:
    a reference reading of expressions built from numbers, bound names, prefix
    operators, the binary operators, `?:`, `=` and `,`, and of declarators built
    from type keywords, typedef names, stars, names, parentheses and constant
    array lengths. Each function reads from index `i` and yields the tree and the
    index just past the span, or None when the span holds something outside this
    reading (a call, a string literal, `sizeof`, a postfix or compound assignment
    operator, a parenthesised expression, a struct) or is malformed. The parser's
    rules are proved to agree with these functions wherever they yield a tree. */
module Syntax {
  import opened Wrappers
  import opened Tokens
  import opened Types
  import opened Scope
  import opened Ast

  /** A tree and the index of the first token after it. */
  type Parsed = Option<(Node, nat)>

  /** The tokens an expression of the reference reading can start with. */
  predicate StartsExpr(k: Kind)
  {
    k == Number || k == Ident || IsPrefixOp(k)
  }

  predicate IsPostfixOp(k: Kind)
  {
    k == Inc || k == Dec || k == Punct('.') || k == Arrow || k == Punct('[')
  }

  /** The operator that token kind `k` stands for at binary level `level`. */
  function LevelOp(level: nat, k: Kind): Option<BinOp>
  {
    if level == MUL then
      if k == Punct('*') then Some(Mul) else if k == Punct('/') then Some(Div)
      else if k == Punct('%') then Some(Mod) else None
    else if level == ADD then
      if k == Punct('+') then Some(Add) else if k == Punct('-') then Some(Sub) else None
    else if level == SHIFT then
      if k == LShift then Some(Shl) else if k == RShift then Some(Shr) else None
    else if level == REL then
      if k == Punct('<') || k == Punct('>') then Some(Lt)
      else if k == LessEq || k == GreaterEq then Some(Le) else None
    else if level == EQUALITY then
      if k == EqualEq then Some(Eq) else if k == NotEq then Some(Ne) else None
    else if level == BITAND then (if k == Punct('&') then Some(BitAnd) else None)
    else if level == BITXOR then (if k == Punct('^') then Some(BitXor) else None)
    else if level == BITOR then (if k == Punct('|') then Some(BitOr) else None)
    else if level == LOGAND then (if k == AndAnd then Some(LogAnd) else None)
    else if level == LOGOR then (if k == OrOr then Some(LogOr) else None)
    else None
  }

  /** One step of the chain at `level` on the operator token `k`; the relational
      level swaps the operands of `>` and `>=`. */
  function Fold(level: nat, k: Kind, lhs: Node, rhs: Node): Node
    requires LevelOp(level, k).Some?
  {
    if level == REL then RelStep(k, lhs, rhs) else Binop(LevelOp(level, k).value, lhs, rhs)
  }

  /** A number, or a name bound to a variable and not followed by `(`. */
  function PrimaryAt(toks: TokenStream, env: Env, i: nat): (r: Parsed)
    requires i < |toks|
    ensures r.Some? ==> r.value.1 == i + 1 < |toks|
  {
    var t := toks[i];
    if t.kind == Number then Some((Num(t.val), i + 1))
    else if t.kind == Ident && toks[i + 1].kind != OpenParen && FindVar(env, t.name).Some? then
      Some((VarRef(FindVar(env, t.name).value), i + 1))
    else None
  }

  /** A primary with no postfix operator after it. */
  function PostfixAt(toks: TokenStream, env: Env, i: nat): (r: Parsed)
    requires i < |toks|
    ensures r.Some? ==> i < r.value.1 < |toks|
    ensures r.Some? ==> StartsExpr(toks[i].kind)
    decreases |toks| - i, POSTFIX, 0
  {
    match PrimaryAt(toks, env, i)
    case None => None
    case Some((n, e)) => if IsPostfixOp(toks[e].kind) then None else Some((n, e))
  }

  /** Prefix operators, each applied to a unary operand. */
  function UnaryAt(toks: TokenStream, env: Env, i: nat): (r: Parsed)
    requires i < |toks|
    ensures r.Some? ==> i < r.value.1 < |toks|
    ensures r.Some? ==> StartsExpr(toks[i].kind)
    decreases |toks| - i, UNARY, 0
  {
    var k := toks[i].kind;
    if IsPrefixOp(k) then
      match UnaryAt(toks, env, i + 1)
      case None => None
      case Some((x, e)) => Some((PrefixNode(k, x), e))
    else PostfixAt(toks, env, i)
  }

  /** The operand of a binary level: the next tighter level. */
  function OperandAt(toks: TokenStream, env: Env, level: nat, i: nat): (r: Parsed)
    requires i < |toks| && MUL <= level <= LOGOR
    ensures r.Some? ==> i < r.value.1 < |toks|
    ensures r.Some? ==> StartsExpr(toks[i].kind)
    decreases |toks| - i, level, 0
  {
    if level == MUL then UnaryAt(toks, env, i) else BinaryAt(toks, env, level - 1, i)
  }

  /** A left-associative chain of the operators of one binary level. */
  function BinaryAt(toks: TokenStream, env: Env, level: nat, i: nat): (r: Parsed)
    requires i < |toks| && MUL <= level <= LOGOR
    ensures r.Some? ==> i < r.value.1 < |toks|
    ensures r.Some? ==> StartsExpr(toks[i].kind)
    decreases |toks| - i, level, 1
  {
    match OperandAt(toks, env, level, i)
    case None => None
    case Some((l, j)) => ChainAt(toks, env, level, l, j)
  }

  /** The rest of a chain whose operands so far make `lhs`, from index `j`. */
  function ChainAt(toks: TokenStream, env: Env, level: nat, lhs: Node, j: nat): (r: Parsed)
    requires j < |toks| && MUL <= level <= LOGOR
    ensures r.Some? ==> j <= r.value.1 < |toks|
    decreases |toks| - j, level, 2
  {
    var k := toks[j].kind;
    if LevelOp(level, k).None? then Some((lhs, j))
    else
      match OperandAt(toks, env, level, j + 1)
      case None => None
      case Some((rhs, e)) => ChainAt(toks, env, level, Fold(level, k, lhs, rhs), e)
  }

  /** `c ? then : else`, right-associative, or just `c`. */
  function ConditionalAt(toks: TokenStream, env: Env, i: nat): (r: Parsed)
    requires i < |toks|
    ensures r.Some? ==> i < r.value.1 < |toks|
    ensures r.Some? ==> StartsExpr(toks[i].kind)
    decreases |toks| - i, COND, 1
  {
    match BinaryAt(toks, env, LOGOR, i)
    case None => None
    case Some((c, j)) => CondTail(toks, env, c, j)
  }

  /** What follows the condition `c` of a conditional expression, from index `j`. */
  function CondTail(toks: TokenStream, env: Env, c: Node, j: nat): (r: Parsed)
    requires j < |toks|
    ensures r.Some? ==> j <= r.value.1 < |toks|
    decreases |toks| - j, COND, 2
  {
    if toks[j].kind != Punct('?') then Some((c, j))
    else
      match CommaAt(toks, env, j + 1)
      case None => None
      case Some((y, k)) =>
        if toks[k].kind != Punct(':') then None
        else
          match ConditionalAt(toks, env, k + 1)
          case None => None
          case Some((z, e)) => Some((Cond(c, y, z), e))
  }

  /** `lhs = rhs`, right-associative, or a conditional expression. */
  function AssignAt(toks: TokenStream, env: Env, i: nat): (r: Parsed)
    requires i < |toks|
    ensures r.Some? ==> i < r.value.1 < |toks|
    ensures r.Some? ==> StartsExpr(toks[i].kind)
    decreases |toks| - i, ASSIGN, 1
  {
    match ConditionalAt(toks, env, i)
    case None => None
    case Some((l, j)) => AssignTail(toks, env, l, j)
  }

  /** What follows the left operand `lhs` of an assignment, from index `j`. */
  function AssignTail(toks: TokenStream, env: Env, lhs: Node, j: nat): (r: Parsed)
    requires j < |toks|
    ensures r.Some? ==> j <= r.value.1 < |toks|
    decreases |toks| - j, ASSIGN, 2
  {
    var k := toks[j].kind;
    if k == Punct('=') then
      match AssignAt(toks, env, j + 1)
      case None => None
      case Some((rhs, e)) => Some((Binop(Assign, lhs, rhs), e))
    else if AssignOp(k).Some? then None
    else Some((lhs, j))
  }

  /** Assignments separated by `,`, right-associative. */
  function CommaAt(toks: TokenStream, env: Env, i: nat): (r: Parsed)
    requires i < |toks|
    ensures r.Some? ==> i < r.value.1 < |toks|
    ensures r.Some? ==> StartsExpr(toks[i].kind)
    decreases |toks| - i, EXPR, 1
  {
    match AssignAt(toks, env, i)
    case None => None
    case Some((l, j)) =>
      if toks[j].kind != Punct(',') then Some((l, j))
      else
        match CommaAt(toks, env, j + 1)
        case None => None
        case Some((r, e)) => Some((Binop(Comma, l, r), e))
  }

  /** The arguments of a call after its `(`: assignments separated by `,`, up to
      and including the `)`; `first` tells whether no argument has been read. */
  function ArgsAt(toks: TokenStream, env: Env, i: nat, first: bool): (r: Option<(seq<Node>, nat)>)
    requires i < |toks|
    ensures r.Some? ==> i < r.value.1 < |toks|
    decreases |toks| - i
  {
    if toks[i].kind == CloseParen then Some(([], i + 1))
    else if !first && toks[i].kind != Punct(',') then None
    else
      var a := if first then i else i + 1;
      match AssignAt(toks, env, a)
      case None => None
      case Some((x, e)) =>
        match ArgsAt(toks, env, e, false)
        case None => None
        case Some((xs, e2)) => Some(([x] + xs, e2))
  }

  /** `( expr )`: the condition of `if`, `while`, `do` and `switch`. */
  function ParenAt(toks: TokenStream, env: Env, i: nat): (r: Parsed)
    requires i < |toks|
    ensures r.Some? ==> i + 2 < r.value.1 < |toks|
  {
    if toks[i].kind != OpenParen then None
    else
      match CommaAt(toks, env, i + 1)
      case None => None
      case Some((e, j)) => if toks[j].kind == CloseParen then Some((e, j + 1)) else None
  }

  /** Whether an expression statement starts at `i`: its first token starts an
      expression and is not a typedef name. */
  predicate PlainStmtStart(toks: TokenStream, env: Env, i: nat)
    requires i < |toks|
  {
    StartsExpr(toks[i].kind) && (toks[i].kind == Ident ==> FindTypedef(env, toks[i].name).None?)
  }

  /** Expression statements `e;` up to and including a `}`: the body of a
      statement expression when every statement in it is an expression. */
  function ExprStmtsAt(toks: TokenStream, env: Env, i: nat): (r: Option<(seq<Node>, nat)>)
    requires i < |toks|
    ensures r.Some? ==> i < r.value.1 < |toks|
    ensures r.Some? ==> forall k | 0 <= k < |r.value.0| :: r.value.0[k].ExprStmt?
    decreases |toks| - i
  {
    if toks[i].kind == Punct('}') then Some(([], i + 1))
    else if !PlainStmtStart(toks, env, i) then None
    else
      match CommaAt(toks, env, i)
      case None => None
      case Some((e, j)) =>
        if toks[j].kind != Punct(';') then None
        else
          match ExprStmtsAt(toks, env, j + 1)
          case None => None
          case Some((ss, k)) => Some(([ExprStmt(e)] + ss, k))
  }

  /** One step of `ExprStmtsAt` before a token other than `}`: the first
      statement `x;`, ending at `k`, then the rest, which is empty exactly when
      `}` follows. */
  lemma ExprStmtsStep(toks: TokenStream, env: Env, i: nat) returns (x: Node, k: nat, rest: (seq<Node>, nat))
    requires i < |toks| && toks[i].kind != Punct('}') && ExprStmtsAt(toks, env, i).Some?
    ensures PlainStmtStart(toks, env, i)
    ensures CommaAt(toks, env, i) == Some((x, k)) && k + 1 < |toks| && toks[k].kind == Punct(';')
    ensures ExprStmtsAt(toks, env, k + 1) == Some(rest)
    ensures ExprStmtsAt(toks, env, i).value == ([ExprStmt(x)] + rest.0, rest.1)
    ensures rest.0 == [] <==> toks[k + 1].kind == Punct('}')
    ensures rest.0 == [] ==> rest.1 == k + 2
  {
    var e := CommaAt(toks, env, i);
    x, k := e.value.0, e.value.1;
    rest := ExprStmtsAt(toks, env, k + 1).value;
    if toks[k + 1].kind != Punct('}') {
      assert rest.0 != [];
    }
  }

  /** The statements read so far, `done`, and those `ExprStmtsAt` reads from
      `i`, which are not none, make up the reading `whole`. */
  predicate StmtsPending(toks: TokenStream, env: Env, i: nat, whole: (seq<Node>, nat), done: seq<Node>)
    requires i < |toks|
  {
    var rest := ExprStmtsAt(toks, env, i);
    rest.Some? && rest.value.0 != [] && whole.0 == done + rest.value.0 && whole.1 == rest.value.1
  }

  /** Reading one more expression statement and, if it follows, the `}`, up
      to `j`, keeps `StmtsPending` with the statements `item.0` read so far, or
      completes `whole` when `item.1` says the `}` was read. */
  lemma PendingStep(toks: TokenStream, env: Env, i: nat, whole: (seq<Node>, nat), done: seq<Node>,
                    item: (seq<Node>, bool), j: nat)
    requires i < |toks| && StmtsPending(toks, env, i, whole, done)
    requires PlainStmtStart(toks, env, i) ==>
      var e := CommaAt(toks, env, i); e.Some? && toks[e.value.1].kind == Punct(';') ==>
        && item.0 == done + [ExprStmt(e.value.0)]
        && (item.1 <==> toks[e.value.1 + 1].kind == Punct('}'))
        && j == if item.1 then e.value.1 + 2 else e.value.1 + 1
    ensures j < |toks|
    ensures item.1 ==> whole == (item.0, j)
    ensures !item.1 ==> StmtsPending(toks, env, j, whole, item.0)
  {
    assert toks[i].kind != Punct('}');
    var x, k, rest := ExprStmtsStep(toks, env, i);
    AppendOne(done, ExprStmt(x), rest.0, whole.0);
    if item.1 {
      assert item.0 + [] == item.0;
    }
  }

  /** The statements read so far, `done`, and those `ExprStmtsAt` reads from `i`,
      possibly none, make up the reading `whole`. */
  predicate StmtsRemain(toks: TokenStream, env: Env, i: nat, whole: (seq<Node>, nat), done: seq<Node>)
    requires i < |toks|
  {
    var rest := ExprStmtsAt(toks, env, i);
    rest.Some? && whole.0 == done + rest.value.0 && whole.1 == rest.value.1
  }

  /** Before a token other than `}`, the next statement of the reading is the
      expression statement `e;` read at `i`, and the rest of the reading follows it. */
  lemma RemainStep(toks: TokenStream, env: Env, i: nat, whole: (seq<Node>, nat), done: seq<Node>)
      returns (x: Node, k: nat)
    requires i < |toks| && toks[i].kind != Punct('}') && StmtsRemain(toks, env, i, whole, done)
    ensures PlainStmtStart(toks, env, i)
    ensures CommaAt(toks, env, i) == Some((x, k)) && k + 1 < |toks| && toks[k].kind == Punct(';')
    ensures StmtsRemain(toks, env, k + 1, whole, done + [ExprStmt(x)])
  {
    var rest;
    x, k, rest := ExprStmtsStep(toks, env, i);
    assert whole.0 == done + ([ExprStmt(x)] + rest.0) && whole.1 == rest.1;
    AppendOne(done, ExprStmt(x), rest.0, whole.0);
  }

  /** At a `}`, the statements read so far are the whole reading, which ends after it. */
  lemma RemainClose(toks: TokenStream, env: Env, i: nat, whole: (seq<Node>, nat), done: seq<Node>)
    requires i < |toks| && toks[i].kind == Punct('}') && StmtsRemain(toks, env, i, whole, done)
    ensures whole == (done, i + 1)
  {
    assert done + [] == done;
  }

  /** Moving the first of the statements still to read to those read. */
  lemma AppendOne(done: seq<Node>, s: Node, rest: seq<Node>, whole: seq<Node>)
    requires whole == done + ([s] + rest)
    ensures whole == (done + [s]) + rest
  {
  }

  /** The node a statement starting with a token of kind `k` builds. */
  predicate BuiltBy(k: Kind, n: Node)
  {
    && (k == KwIf ==> n.If?)
    && (k == KwFor || k == KwWhile ==> n.For?)
    && (k == KwDo ==> n.DoWhile?)
    && (k == KwSwitch ==> n.Switch?)
    && (k == KwCase ==> n.Case?)
    && (k == KwReturn ==> n.Return?)
    && (k == Punct('{') ==> n.CompStmt?)
    && (k == KwTypedef || k == Punct(';') ==> n == NullStmt)
    && (k == KwBreak ==> n.Break?)
    && (k == KwContinue ==> n.Continue?)
  }

  /** The null statement at `;`, one token long, and at a token that starts an
      expression and names no type the expression statement of what `CommaAt`
      reads, ended by `;`: the statements whose reading the grammar fixes
      outright. */
  function SimpleStmtAt(toks: TokenStream, env: Env, i: nat): (r: Option<(Node, nat)>)
    requires i < |toks|
    ensures r.Some? ==> i < r.value.1
    ensures r.Some? <==> toks[i].kind == Punct(';') || (PlainStmtStart(toks, env, i) && CommaAt(toks, env, i).Some?)
  {
    if toks[i].kind == Punct(';') then Some((NullStmt, i + 1))
    else if !PlainStmtStart(toks, env, i) then None
    else match CommaAt(toks, env, i)
      case None => None
      case Some((e, k)) => Some((ExprStmt(e), k + 1))
  }

  /** What the statement `s` read from `i` in the scope `env`, ending just before
      `j`, is known to be: a node of the kind its first token builds, and the
      reading `SimpleStmtAt` fixes wherever it fixes one. */
  predicate StmtRead(toks: TokenStream, env: Env, i: nat, s: Node, j: nat)
  {
    && i < |toks|
    && BuiltBy(toks[i].kind, s)
    && (var q := SimpleStmtAt(toks, env, i); q.Some? ==> (s, j) == q.value)
  }

  /** A statement that starts with no keyword, read as the `;` and expression
      statement rules say, is read as `StmtRead` says. */
  lemma SimpleStmtRead(toks: TokenStream, env: Env, i: nat, s: Node, j: nat)
    requires i < |toks|
    requires toks[i].kind !in {KwIf, KwFor, KwWhile, KwDo, KwSwitch, KwTypedef, KwCase, KwReturn, Punct('{'), KwBreak, KwContinue}
    requires toks[i].kind == Punct(';') ==> s == NullStmt && j == i + 1
    requires PlainStmtStart(toks, env, i) ==> var e := CommaAt(toks, env, i); e.Some? ==> s == ExprStmt(e.value.0) && j == e.value.1 + 1
    ensures StmtRead(toks, env, i, s, j)
  {
  }

  // ---------------------------------------------------------- declarations

  /** What a declarator declares: a name, a type and an optional initializer. */
  datatype Decl = Decl(name: string, ty: Type, init: Option<Node>)

  /** A copy of a placeholder taken while it is still empty is an empty type. */
  function Settled(t: Type): Type
  {
    if t == Hole then NoType else t
  }

  /** A pointer to `ty`; a missing type (None) points to NoType. */
  function PointerTo(ty: Option<Type>): Type
  {
    Ptr(if ty.Some? then ty.value else NoType)
  }

  /** `ty` behind `n` pointer levels. */
  function Pointers(ty: Option<Type>, n: nat): Option<Type>
  {
    if n == 0 then ty else Some(PointerTo(Pointers(ty, n - 1)))
  }

  /** One array length after its `[`, with the `]`: -1 for `[]`, else an
      expression that reads as a number. */
  function DimAt(toks: TokenStream, env: Env, i: nat): (r: Option<(int, nat)>)
    requires i < |toks|
    ensures r.Some? ==> i < r.value.1 < |toks|
  {
    if toks[i].kind == Punct(']') then Some((-1, i + 1))
    else
      match CommaAt(toks, env, i)
      case Some((Num(n), e)) => if toks[e].kind == Punct(']') then Some((n, e + 1)) else None
      case _ => None
  }

  /** The brackets after a declarator's name: their lengths, the first bracket first. */
  function DimsAt(toks: TokenStream, env: Env, i: nat): (r: Option<(seq<int>, nat)>)
    requires i < |toks|
    ensures r.Some? ==> i <= r.value.1 < |toks|
    decreases |toks| - i
  {
    if toks[i].kind != Punct('[') then Some(([], i))
    else
      match DimAt(toks, env, i + 1)
      case None => None
      case Some((n, e)) =>
        match DimsAt(toks, env, e)
        case None => None
        case Some((ns, e2)) => Some(([n] + ns, e2))
  }

  /** The lengths read so far, `done`, and those `DimsAt` reads from `i` make up
      the reading `whole`, wherever there is one. */
  predicate DimsRemain(toks: TokenStream, env: Env, i: nat, whole: Option<(seq<int>, nat)>, done: seq<int>)
    requires i < |toks|
  {
    whole.Some? ==>
      var rest := DimsAt(toks, env, i);
      rest.Some? && whole.value == (done + rest.value.0, rest.value.1)
  }

  /** Reading one more length `n`, from `i` up to `j`, as `DimsAt` would, keeps
      `DimsRemain`. */
  lemma DimsNext(toks: TokenStream, env: Env, i: nat, j: nat, whole: Option<(seq<int>, nat)>, done: seq<int>, n: int)
    requires i < |toks| && j < |toks| && DimsRemain(toks, env, i, whole, done)
    requires var a := DimsAt(toks, env, i);
      a.Some? ==> var rest := DimsAt(toks, env, j); rest.Some? && a.value == ([n] + rest.value.0, rest.value.1)
    ensures DimsRemain(toks, env, j, whole, done + [n])
  {
    if whole.Some? {
      var rest := DimsAt(toks, env, j).value;
      assert done + ([n] + rest.0) == (done + [n]) + rest.0;
    }
  }

  /** Where the brackets end, the lengths read so far are the whole reading. */
  lemma DimsEnd(toks: TokenStream, env: Env, i: nat, whole: Option<(seq<int>, nat)>, done: seq<int>)
    requires i < |toks| && toks[i].kind != Punct('[') && DimsRemain(toks, env, i, whole, done)
    ensures whole.Some? ==> whole.value == (done, i)
  {
    assert done + [] == done;
  }

  /** A type keyword or a typedef name. An identifier that names no typedef gives
      no type (None) and reads nothing. */
  function SpecifierAt(toks: TokenStream, env: Env, i: nat): (r: Option<(Option<Type>, nat)>)
    requires i < |toks|
    ensures r.Some? ==> i <= r.value.1 < |toks|
  {
    var k := toks[i].kind;
    if k == Ident then
      if FindTypedef(env, toks[i].name).None? then Some((None, i))
      else Some((FindTypedef(env, toks[i].name), i + 1))
    else if k == KwInt then Some((Some(Int), i + 1))
    else if k == KwChar then Some((Some(Char), i + 1))
    else if k == KwBool then Some((Some(Bool), i + 1))
    else if k == KwVoid then Some((Some(Void), i + 1))
    else None
  }

  /** The number of `*` tokens from index `i` on. */
  function StarsAt(toks: TokenStream, i: nat): (n: nat)
    requires i < |toks|
    ensures i + n < |toks| && toks[i + n].kind != Punct('*')
    ensures forall j | i <= j < i + n :: toks[j].kind == Punct('*')
    decreases |toks| - i
  {
    if toks[i].kind == Punct('*') then 1 + StarsAt(toks, i + 1) else 0
  }

  /** A declarator on the type `base`: stars, then a direct declarator. */
  function DeclaratorAt(toks: TokenStream, env: Env, base: Option<Type>, i: nat): (r: Option<(Decl, nat)>)
    requires i < |toks|
    ensures r.Some? ==> i < r.value.1 < |toks|
    decreases |toks| - i, 2
  {
    var n := StarsAt(toks, i);
    DirectDeclAt(toks, env, Pointers(base, n), i + n)
  }

  /** A direct declarator: its head, then the suffix on `base`. */
  function DirectDeclAt(toks: TokenStream, env: Env, base: Option<Type>, i: nat): (r: Option<(Decl, nat)>)
    requires i < |toks|
    ensures r.Some? ==> i < r.value.1 < |toks|
    decreases |toks| - i, 1
  {
    match HeadAt(toks, env, i)
    case None => None
    case Some((d, j)) => SuffixAt(toks, env, d, base, j)
  }

  /** The head of a direct declarator: a name, whose type is the placeholder, or
      a declarator in parentheses built on the placeholder. */
  function HeadAt(toks: TokenStream, env: Env, i: nat): (r: Option<(Decl, nat)>)
    requires i < |toks|
    ensures r.Some? ==> i < r.value.1 < |toks|
    decreases |toks| - i, 0
  {
    if toks[i].kind == Ident then Some((Decl(toks[i].name, Hole, None), i + 1))
    else if toks[i].kind == OpenParen then
      match DeclaratorAt(toks, env, Some(Hole), i + 1)
      case None => None
      case Some((d, e)) => if toks[e].kind == CloseParen then Some((d, e + 1)) else None
    else None
  }

  /** The brackets after a direct declarator `d`, whose array type on `base`
      fills the placeholder in `d`'s type, then an optional initializer. */
  function SuffixAt(toks: TokenStream, env: Env, d: Decl, base: Option<Type>, j: nat): (r: Option<(Decl, nat)>)
    requires j < |toks|
    ensures r.Some? ==> j <= r.value.1 < |toks|
  {
    if base.None? then None
    else
      match DimsAt(toks, env, j)
      case None => None
      case Some((dims, e)) => InitAt(toks, env, d.(ty := Fill(d.ty, Settled(ArrayOf(base.value, dims)))), e)
  }

  /** An optional `= initializer` after the declarator `d`. */
  function InitAt(toks: TokenStream, env: Env, d: Decl, j: nat): (r: Option<(Decl, nat)>)
    requires j < |toks|
    ensures r.Some? ==> j <= r.value.1 < |toks|
  {
    if toks[j].kind != Punct('=') then Some((d, j))
    else
      match AssignAt(toks, env, j + 1)
      case None => None
      case Some((x, e)) => Some((d.(init := Some(x)), e))
  }

  /** A specifier and a declarator, then `;`. */
  function DeclarationAt(toks: TokenStream, env: Env, i: nat): (r: Option<(Decl, nat)>)
    requires i < |toks|
    ensures r.Some? ==> i < r.value.1 < |toks|
  {
    match SpecifierAt(toks, env, i)
    case None => None
    case Some((t, j)) =>
      match DeclaratorAt(toks, env, t, j)
      case None => None
      case Some((d, e)) => if toks[e].kind == Punct(';') then Some((d, e + 1)) else None
  }

  /** The member declarations of a struct body after its `{`, with the `}`. */
  function MembersAt(toks: TokenStream, env: Env, i: nat): (r: Option<(seq<Decl>, nat)>)
    requires i < |toks|
    ensures r.Some? ==> i < r.value.1 < |toks|
    decreases |toks| - i
  {
    if toks[i].kind == Punct('}') then Some(([], i + 1))
    else
      match DeclarationAt(toks, env, i)
      case None => None
      case Some((d, e)) =>
        match MembersAt(toks, env, e)
        case None => None
        case Some((ds, e2)) => Some(([d] + ds, e2))
  }

  /** A member list that does not end at index `i` starts with a declaration. */
  lemma MembersStep(toks: TokenStream, env: Env, i: nat)
    requires i < |toks| && toks[i].kind != Punct('}') && MembersAt(toks, env, i).Some?
    ensures DeclarationAt(toks, env, i).Some?
    ensures var (d, e) := DeclarationAt(toks, env, i).value;
      MembersAt(toks, env, e).Some? &&
      MembersAt(toks, env, i).value == ([d] + MembersAt(toks, env, e).value.0, MembersAt(toks, env, e).value.1)
  {
  }

  /** The members read so far, `done`, and those `MembersAt` reads from `i` make
      up the reading `whole`, wherever there is one. */
  predicate MembersRemain(toks: TokenStream, env: Env, i: nat, whole: Option<(seq<Decl>, nat)>, done: seq<Decl>)
    requires i < |toks|
  {
    whole.Some? ==>
      var rest := MembersAt(toks, env, i);
      rest.Some? && whole.value == (done + rest.value.0, rest.value.1)
  }

  /** Reading one more member `d`, from `i` up to `j`, as `MembersAt` would,
      keeps `MembersRemain`. */
  lemma MembersNext(toks: TokenStream, env: Env, i: nat, j: nat, whole: Option<(seq<Decl>, nat)>, done: seq<Decl>, d: Decl)
    requires i < |toks| && j < |toks| && MembersRemain(toks, env, i, whole, done)
    requires var a := MembersAt(toks, env, i);
      a.Some? ==> var rest := MembersAt(toks, env, j); rest.Some? && a.value == ([d] + rest.value.0, rest.value.1)
    ensures MembersRemain(toks, env, j, whole, done + [d])
  {
    if whole.Some? {
      var rest := MembersAt(toks, env, j).value;
      assert done + ([d] + rest.0) == (done + [d]) + rest.0;
    }
  }

  /** At the `}`, the members read so far are the whole reading. */
  lemma MembersEnd(toks: TokenStream, env: Env, i: nat, j: nat, whole: Option<(seq<Decl>, nat)>, done: seq<Decl>)
    requires i < |toks| && MembersRemain(toks, env, i, whole, done)
    requires whole.Some? ==> MembersAt(toks, env, i) == Some(([], j))
    ensures whole.Some? ==> whole.value == (done, j)
  {
    assert done + [] == done;
  }

  /** One parameter of a function, after a `,` unless it is the first: a
      specifier and a declarator. */
  function ParamAt(toks: TokenStream, env: Env, i: nat, first: bool): (r: Option<(Decl, nat)>)
    requires i < |toks|
    ensures r.Some? ==> i < r.value.1 < |toks|
  {
    if !first && toks[i].kind != Punct(',') then None
    else
      var j := if first then i else i + 1;
      match SpecifierAt(toks, env, j)
      case None => None
      case Some((t, k)) => DeclaratorAt(toks, env, t, k)
  }

  /** The parameters of a function after its `(`, up to and including the `)`;
      only those after the first are preceded by a `,`. */
  function ParamsAt(toks: TokenStream, env: Env, i: nat, first: bool): (r: Option<(seq<Decl>, nat)>)
    requires i < |toks|
    ensures r.Some? ==> i < r.value.1 < |toks|
    decreases |toks| - i
  {
    if toks[i].kind == CloseParen then
      assert toks[|toks| - 1].kind == Eof;
      Some(([], i + 1))
    else
      var p := ParamAt(toks, env, i, first);
      if p.None? then None
      else
        var rest := ParamsAt(toks, env, p.value.1, false);
        if rest.None? then None else Some(([p.value.0] + rest.value.0, rest.value.1))
  }

  /** A parameter list `ParamsAt` reads ends with its `)`. */
  lemma {:induction false} ParamsEndWithParen(toks: TokenStream, env: Env, i: nat, first: bool)
    requires i < |toks| && ParamsAt(toks, env, i, first).Some?
    ensures toks[ParamsAt(toks, env, i, first).value.1 - 1].kind == CloseParen
    decreases |toks| - i
  {
    if toks[i].kind != CloseParen {
      ParamsEndWithParen(toks, env, ParamAt(toks, env, i, first).value.1, false);
    }
  }

  /** The parameter list of a function, after its `(`: the reading `ParamsAt`
      gives from its first parameter. */
  function ParamListAt(toks: TokenStream, env: Env, i: nat): (r: Option<(seq<Decl>, nat)>)
    requires i < |toks|
    ensures r.Some? ==> i < r.value.1 < |toks|
  {
    ParamsAt(toks, env, i, true)
  }

  /** The parameters read so far, `done`, and those `ParamsAt` reads from `i`
      make up the reading `whole`, wherever there is one. */
  predicate ParamsRemain(toks: TokenStream, env: Env, i: nat, first: bool, whole: Option<(seq<Decl>, nat)>, done: seq<Decl>)
    requires i < |toks|
  {
    whole.Some? ==>
      var rest := ParamsAt(toks, env, i, first);
      rest.Some? && whole.value == (done + rest.value.0, rest.value.1)
  }

  /** Once the first parameter `d` of the reading from `i` has been read, up to
      `j` where the rest of that reading starts, `ParamsRemain` holds with `d`
      read. */
  lemma ParamsStep(toks: TokenStream, env: Env, i: nat, j: nat, first: bool, whole: Option<(seq<Decl>, nat)>, done: seq<Decl>)
    returns (d: Decl)
    requires i < |toks| && j < |toks| && whole.Some? && ParamsRemain(toks, env, i, first, whole, done)
    requires var m := ParamsAt(toks, env, i, first).value;
      |m.0| > 0 && ParamsAt(toks, env, j, false) == Some((m.0[1..], m.1))
    ensures d == ParamsAt(toks, env, i, first).value.0[0]
    ensures ParamsRemain(toks, env, j, false, whole, done + [d])
  {
    var m := ParamsAt(toks, env, i, first).value;
    d := m.0[0];
    assert done + m.0 == (done + [d]) + m.0[1..];
  }

  /** At the `)`, the parameters read so far are the whole reading. */
  lemma ParamsEnd(toks: TokenStream, env: Env, i: nat, first: bool, whole: Option<(seq<Decl>, nat)>, done: seq<Decl>)
    requires i < |toks| && toks[i].kind == CloseParen && ParamsRemain(toks, env, i, first, whole, done)
    ensures whole.Some? ==> whole.value == (done, i + 1)
  {
    assert done + [] == done;
  }

  /** `typedef` and `extern`, each optional and in that order, then a specifier,
      stars and a name: the head of a top-level declaration, read as whether it
      is a typedef, whether it is extern, its type and its name. */
  function DeclHeadAt(toks: TokenStream, env: Env, i: nat): (r: Option<((bool, bool, Option<Type>, string), nat)>)
    requires i < |toks|
    ensures r.Some? ==> i < r.value.1 < |toks|
  {
    var isTypedef := toks[i].kind == KwTypedef;
    var j := if isTypedef then i + 1 else i;
    var isExtern := toks[j].kind == KwExtern;
    match TypedNameAt(toks, env, if isExtern then j + 1 else j)
    case None => None
    case Some(((t, name), k)) => Some(((isTypedef, isExtern, t, name), k))
  }

  /** A specifier, stars and a name: the start of a top-level declaration. */
  function TypedNameAt(toks: TokenStream, env: Env, i: nat): (r: Option<((Option<Type>, string), nat)>)
    requires i < |toks|
    ensures r.Some? ==> i < r.value.1 < |toks|
  {
    match SpecifierAt(toks, env, i)
    case None => None
    case Some((t, j)) => StarredAt(toks, t, j)
  }

  /** Stars on `base`, then a name. */
  function StarredAt(toks: TokenStream, base: Option<Type>, i: nat): (r: Option<((Option<Type>, string), nat)>)
    requires i < |toks|
    ensures r.Some? ==> i < r.value.1 < |toks|
  {
    var n := StarsAt(toks, i);
    if toks[i + n].kind != Ident then None
    else Some(((Pointers(base, n), toks[i + n].name), i + n + 1))
  }

  // ------------------------------------------------ precedence and associativity

  /** A unary reading is shaped at the unary level. */
  lemma {:induction false} UnaryShaped(toks: TokenStream, env: Env, i: nat)
    requires i < |toks|
    ensures UnaryAt(toks, env, i).Some? ==> Shaped(UnaryAt(toks, env, i).value.0, UNARY)
    decreases |toks| - i, UNARY, 0
  {
    var k := toks[i].kind;
    if IsPrefixOp(k) {
      UnaryShaped(toks, env, i + 1);
      if UnaryAt(toks, env, i + 1).Some? {
        PrefixShaped(k, UnaryAt(toks, env, i + 1).value.0);
      }
    }
  }

  /** The operand of a binary level is shaped one level tighter. */
  lemma {:induction false} OperandShaped(toks: TokenStream, env: Env, level: nat, i: nat)
    requires i < |toks| && MUL <= level <= LOGOR
    ensures OperandAt(toks, env, level, i).Some? ==> Shaped(OperandAt(toks, env, level, i).value.0, level - 1)
    decreases |toks| - i, level, 0
  {
    if level == MUL {
      UnaryShaped(toks, env, i);
    } else {
      BinaryShaped(toks, env, level - 1, i);
    }
  }

  /** A chain of one binary level is shaped at that level: its operators associate
      to the left, and its operands bind tighter. */
  lemma {:induction false} BinaryShaped(toks: TokenStream, env: Env, level: nat, i: nat)
    requires i < |toks| && MUL <= level <= LOGOR
    ensures BinaryAt(toks, env, level, i).Some? ==> Shaped(BinaryAt(toks, env, level, i).value.0, level)
    decreases |toks| - i, level, 1
  {
    OperandShaped(toks, env, level, i);
    var o := OperandAt(toks, env, level, i);
    if o.Some? {
      ShapedWeaken(o.value.0, level - 1, level);
      ChainShaped(toks, env, level, o.value.0, o.value.1);
    }
  }

  lemma {:induction false} ChainShaped(toks: TokenStream, env: Env, level: nat, lhs: Node, j: nat)
    requires j < |toks| && MUL <= level <= LOGOR && Shaped(lhs, level)
    ensures ChainAt(toks, env, level, lhs, j).Some? ==> Shaped(ChainAt(toks, env, level, lhs, j).value.0, level)
    decreases |toks| - j, level, 2
  {
    var k := toks[j].kind;
    if LevelOp(level, k).Some? {
      OperandShaped(toks, env, level, j + 1);
      var o := OperandAt(toks, env, level, j + 1);
      if o.Some? {
        var rhs := o.value.0;
        if level == REL {
          RelStepShaped(k, lhs, rhs);
        } else {
          LeftStep(LevelOp(level, k).value, lhs, rhs);
        }
        ChainShaped(toks, env, level, Fold(level, k, lhs, rhs), o.value.1);
      }
    }
  }

  lemma {:induction false} ConditionalShaped(toks: TokenStream, env: Env, i: nat)
    requires i < |toks|
    ensures ConditionalAt(toks, env, i).Some? ==> Shaped(ConditionalAt(toks, env, i).value.0, COND)
    decreases |toks| - i, COND, 1
  {
    BinaryShaped(toks, env, LOGOR, i);
    var c := BinaryAt(toks, env, LOGOR, i);
    if c.Some? {
      CondTailShaped(toks, env, c.value.0, c.value.1);
    }
  }

  lemma {:induction false} CondTailShaped(toks: TokenStream, env: Env, c: Node, j: nat)
    requires j < |toks| && Shaped(c, LOGOR)
    ensures CondTail(toks, env, c, j).Some? ==> Shaped(CondTail(toks, env, c, j).value.0, COND)
    decreases |toks| - j, COND, 2
  {
    if toks[j].kind != Punct('?') {
      ShapedWeaken(c, LOGOR, COND);
    } else {
      CommaShaped(toks, env, j + 1);
      var y := CommaAt(toks, env, j + 1);
      if y.Some? && toks[y.value.1].kind == Punct(':') {
        ConditionalShaped(toks, env, y.value.1 + 1);
      }
    }
  }

  lemma {:induction false} AssignShaped(toks: TokenStream, env: Env, i: nat)
    requires i < |toks|
    ensures AssignAt(toks, env, i).Some? ==> Shaped(AssignAt(toks, env, i).value.0, ASSIGN)
    decreases |toks| - i, ASSIGN, 1
  {
    ConditionalShaped(toks, env, i);
    var l := ConditionalAt(toks, env, i);
    if l.Some? {
      AssignTailShaped(toks, env, l.value.0, l.value.1);
    }
  }

  lemma {:induction false} AssignTailShaped(toks: TokenStream, env: Env, lhs: Node, j: nat)
    requires j < |toks| && Shaped(lhs, COND)
    ensures AssignTail(toks, env, lhs, j).Some? ==> Shaped(AssignTail(toks, env, lhs, j).value.0, ASSIGN)
    decreases |toks| - j, ASSIGN, 2
  {
    if toks[j].kind == Punct('=') {
      AssignShaped(toks, env, j + 1);
    } else {
      ShapedWeaken(lhs, COND, ASSIGN);
    }
  }

  /** Every expression of the reference reading is shaped: each operator's
      operands sit at the levels its grammar rule parses them at. */
  lemma {:induction false} CommaShaped(toks: TokenStream, env: Env, i: nat)
    requires i < |toks|
    ensures CommaAt(toks, env, i).Some? ==> Shaped(CommaAt(toks, env, i).value.0, EXPR)
    decreases |toks| - i, EXPR, 1
  {
    AssignShaped(toks, env, i);
    var l := AssignAt(toks, env, i);
    if l.Some? {
      if toks[l.value.1].kind == Punct(',') {
        CommaShaped(toks, env, l.value.1 + 1);
      } else {
        ShapedWeaken(l.value.0, ASSIGN, EXPR);
      }
    }
  }

  /** A chain stops at a token that is not an operator of its level. */
  lemma ChainStops(toks: TokenStream, env: Env, level: nat, lhs: Node, j: nat)
    requires j < |toks| && MUL <= level <= LOGOR && LevelOp(level, toks[j].kind).None?
    ensures ChainAt(toks, env, level, lhs, j) == Some((lhs, j))
  {
  }

  /** A chain folds the operand after an operator of its level into `lhs`. */
  lemma ChainSteps(toks: TokenStream, env: Env, level: nat, lhs: Node, j: nat, rhs: Node, e: nat)
    requires j < |toks| && MUL <= level <= LOGOR && LevelOp(level, toks[j].kind).Some?
    requires j + 1 < |toks| && OperandAt(toks, env, level, j + 1) == Some((rhs, e))
    ensures ChainAt(toks, env, level, lhs, j) == ChainAt(toks, env, level, Fold(level, toks[j].kind, lhs, rhs), e)
  {
  }

  /** `a - b - c` reads as `(a - b) - c`. */
  lemma SubIsLeftAssociative(toks: TokenStream, env: Env, i: nat, a: Node, b: Node, c: Node, j1: nat, j2: nat, j3: nat)
    requires i < |toks|
    requires BinaryAt(toks, env, MUL, i) == Some((a, j1)) && toks[j1].kind == Punct('-')
    requires BinaryAt(toks, env, MUL, j1 + 1) == Some((b, j2)) && toks[j2].kind == Punct('-')
    requires BinaryAt(toks, env, MUL, j2 + 1) == Some((c, j3)) && LevelOp(ADD, toks[j3].kind).None?
    ensures BinaryAt(toks, env, ADD, i) == Some((Binop(Sub, Binop(Sub, a, b), c), j3))
  {
    ChainStops(toks, env, ADD, Binop(Sub, Binop(Sub, a, b), c), j3);
    ChainSteps(toks, env, ADD, Binop(Sub, a, b), j2, c, j3);
    ChainSteps(toks, env, ADD, a, j1, b, j2);
  }

  /** A chain starts from the operand at its first index. */
  lemma BinaryStarts(toks: TokenStream, env: Env, level: nat, i: nat, lhs: Node, j: nat)
    requires i < |toks| && MUL <= level <= LOGOR && OperandAt(toks, env, level, i) == Some((lhs, j))
    ensures BinaryAt(toks, env, level, i) == ChainAt(toks, env, level, lhs, j)
  {
  }

  /** A single unary operand is a whole product. */
  lemma SingleFactor(toks: TokenStream, env: Env, i: nat, a: Node, j: nat)
    requires i < |toks| && UnaryAt(toks, env, i) == Some((a, j)) && LevelOp(MUL, toks[j].kind).None?
    ensures BinaryAt(toks, env, MUL, i) == Some((a, j))
  {
    BinaryStarts(toks, env, MUL, i, a, j);
    ChainStops(toks, env, MUL, a, j);
  }

  /** Two unary operands joined by `*` make a product. */
  lemma TwoFactors(toks: TokenStream, env: Env, i: nat, b: Node, c: Node, j2: nat, j3: nat)
    requires i < |toks| && UnaryAt(toks, env, i) == Some((b, j2)) && toks[j2].kind == Punct('*')
    requires j2 + 1 < |toks| && UnaryAt(toks, env, j2 + 1) == Some((c, j3)) && LevelOp(MUL, toks[j3].kind).None?
    ensures BinaryAt(toks, env, MUL, i) == Some((Binop(Mul, b, c), j3))
  {
    BinaryStarts(toks, env, MUL, i, b, j2);
    ChainSteps(toks, env, MUL, b, j2, c, j3);
    ChainStops(toks, env, MUL, Binop(Mul, b, c), j3);
  }

  /** `a + b * c` reads as `a + (b * c)`. */
  lemma MulBindsTighter(toks: TokenStream, env: Env, i: nat, a: Node, b: Node, c: Node, j1: nat, j2: nat, j3: nat)
    requires i < |toks|
    requires UnaryAt(toks, env, i) == Some((a, j1)) && toks[j1].kind == Punct('+')
    requires UnaryAt(toks, env, j1 + 1) == Some((b, j2)) && toks[j2].kind == Punct('*')
    requires UnaryAt(toks, env, j2 + 1) == Some((c, j3))
    requires LevelOp(MUL, toks[j3].kind).None? && LevelOp(ADD, toks[j3].kind).None?
    ensures BinaryAt(toks, env, ADD, i) == Some((Binop(Add, a, Binop(Mul, b, c)), j3))
  {
    var bc := Binop(Mul, b, c);
    SingleFactor(toks, env, i, a, j1);
    TwoFactors(toks, env, j1 + 1, b, c, j2, j3);
    assert OperandAt(toks, env, ADD, i) == Some((a, j1));
    assert OperandAt(toks, env, ADD, j1 + 1) == Some((bc, j3));
    BinaryStarts(toks, env, ADD, i, a, j1);
    ChainSteps(toks, env, ADD, a, j1, bc, j3);
    ChainStops(toks, env, ADD, Binop(Add, a, bc), j3);
  }

  /** `a > b` reads as `b < a`. */
  lemma GreaterSwaps(toks: TokenStream, env: Env, i: nat, a: Node, b: Node, j1: nat, j2: nat)
    requires i < |toks|
    requires BinaryAt(toks, env, SHIFT, i) == Some((a, j1)) && toks[j1].kind == Punct('>')
    requires BinaryAt(toks, env, SHIFT, j1 + 1) == Some((b, j2)) && LevelOp(REL, toks[j2].kind).None?
    ensures BinaryAt(toks, env, REL, i) == Some((Binop(Lt, b, a), j2))
  {
    assert Fold(REL, Punct('>'), a, b) == Binop(Lt, b, a);
    ChainStops(toks, env, REL, Binop(Lt, b, a), j2);
    ChainSteps(toks, env, REL, a, j1, b, j2);
  }

  /** `a = b = c` reads as `a = (b = c)`. */
  lemma AssignIsRightAssociative(toks: TokenStream, env: Env, i: nat, a: Node, b: Node, c: Node, j1: nat, j2: nat, j3: nat)
    requires i < |toks|
    requires ConditionalAt(toks, env, i) == Some((a, j1)) && toks[j1].kind == Punct('=')
    requires ConditionalAt(toks, env, j1 + 1) == Some((b, j2)) && toks[j2].kind == Punct('=')
    requires AssignAt(toks, env, j2 + 1) == Some((c, j3))
    ensures AssignAt(toks, env, i) == Some((Binop(Assign, a, Binop(Assign, b, c)), j3))
  {
    assert AssignAt(toks, env, j1 + 1) == Some((Binop(Assign, b, c), j3));
  }

  /** A conditional expression starts from its condition. */
  lemma ConditionalStarts(toks: TokenStream, env: Env, i: nat, c: Node, j: nat)
    requires i < |toks| && BinaryAt(toks, env, LOGOR, i) == Some((c, j))
    ensures ConditionalAt(toks, env, i) == CondTail(toks, env, c, j)
  {
  }

  /** A result that is `c` itself, ending at `j`, where no `?` follows, and
      `c ? y : z`, ending after `z`, where `? y : z` follows, is what `CondTail` reads. */
  lemma CondTailFromParts(toks: TokenStream, env: Env, c: Node, j: nat, r: Result<Node>, e: nat)
    requires j < |toks|
    requires toks[j].kind != Punct('?') ==> r == Success(c) && e == j
    requires toks[j].kind == Punct('?') ==>
      var y := CommaAt(toks, env, j + 1);
      y.Some? && toks[y.value.1].kind == Punct(':') ==>
        var z := ConditionalAt(toks, env, y.value.1 + 1);
        z.Some? ==> r == Success(Cond(c, y.value.0, z.value.0)) && e == z.value.1
    ensures var t := CondTail(toks, env, c, j);
      t.Some? ==> r == Success(t.value.0) && e == t.value.1
  {
  }

  /** `? y : z` after the condition `c` makes `c ? y : z`. */
  lemma CondTailTakes(toks: TokenStream, env: Env, c: Node, j: nat, y: Node, k: nat, z: Node, e: nat)
    requires j < |toks| && toks[j].kind == Punct('?')
    requires j + 1 < |toks| && CommaAt(toks, env, j + 1) == Some((y, k)) && toks[k].kind == Punct(':')
    requires k + 1 < |toks| && ConditionalAt(toks, env, k + 1) == Some((z, e))
    ensures CondTail(toks, env, c, j) == Some((Cond(c, y, z), e))
  {
  }

  /** `a ? b : c ? d : e` reads as `a ? b : (c ? d : e)`. */
  lemma ConditionalIsRightAssociative(toks: TokenStream, env: Env, i: nat, a: Node, b: Node, c: Node, d: Node, e: Node, j1: nat, j2: nat, j3: nat, j4: nat, j5: nat)
    requires i < |toks|
    requires BinaryAt(toks, env, LOGOR, i) == Some((a, j1)) && toks[j1].kind == Punct('?')
    requires CommaAt(toks, env, j1 + 1) == Some((b, j2)) && toks[j2].kind == Punct(':')
    requires BinaryAt(toks, env, LOGOR, j2 + 1) == Some((c, j3)) && toks[j3].kind == Punct('?')
    requires CommaAt(toks, env, j3 + 1) == Some((d, j4)) && toks[j4].kind == Punct(':')
    requires ConditionalAt(toks, env, j4 + 1) == Some((e, j5))
    ensures ConditionalAt(toks, env, i) == Some((Cond(a, b, Cond(c, d, e)), j5))
  {
    CondTailTakes(toks, env, c, j3, d, j4, e, j5);
    ConditionalStarts(toks, env, j2 + 1, c, j3);
    CondTailTakes(toks, env, a, j1, b, j2, Cond(c, d, e), j5);
    ConditionalStarts(toks, env, i, a, j1);
  }
}
