/** The recursive-descent parser: a cursor over the token sequence, the chain of
    block scopes, the stacks of enclosing loops and switches, the variables and
    functions collected so far and the struct arena, all updated in place by one
    method per grammar rule. A fatal diagnostic becomes a `Failure` that every
    rule propagates; on success each rule states how far it moved the cursor and
    which parts of the state it may have changed. */
module Parser {
  import opened Wrappers
  import opened Tokens
  import opened Types
  import opened StructLayout
  import opened Scope
  import opened Ast
  import opened Syntax

  function Last<T>(s: seq<T>): T
    requires |s| > 0
  {
    s[|s| - 1]
  }

  function DigitChar(d: nat): char
    requires d < 10
  {
    "0123456789"[d]
  }

  function Decimal(n: nat): string
    decreases n
  {
    if n < 10 then [DigitChar(n)] else Decimal(n / 10) + [DigitChar(n % 10)]
  }

  /** The name of the global that holds the string literal numbered `n`. */
  function LabelName(n: nat): string
  {
    ".L.str" + Decimal(n)
  }

  /** How a file-scope declaration of `name` with type `t` takes `env0` and the
      globals `gvars0` to `env` and `gvars`: a typedef binds the name (a null type
      unbinds it), and a variable becomes the global `GlobalOf(id, name, t)`,
      bound under its name and added to the globals unless it is `extern`. */
  predicate GlobalBound(env0: Env, gvars0: seq<Var>, env: Env, gvars: seq<Var>, name: string,
                        t: Option<Type>, isTypedef: bool, isExtern: bool, id: nat)
    requires |env0| > 0
  {
    if isTypedef then env == DeclareTypedef(env0, name, t) && gvars == gvars0
    else
      && env == DeclareVar(env0, GlobalOf(id, name, t))
      && gvars == if isExtern then gvars0 else gvars0 + [GlobalOf(id, name, t)]
  }

  /** The global variable numbered `id` named `name`; a global declared without
      a type has the empty type. */
  function GlobalOf(id: nat, name: string, t: Option<Type>): Var
  {
    Var(id, name, if t.Some? then t.value else NoType, false, None)
  }

  /** What a file-scope declaration of `name` leaves behind: a typedef name that
      finds a type exactly when the declaration had one, or a global variable of
      that name that the name finds and that, unless it is `extern`, is the last
      of the program's globals. */
  predicate GlobalDeclared(env: Env, gvars: seq<Var>, name: string, hasType: bool, isTypedef: bool, isExtern: bool)
  {
    if isTypedef then FindTypedef(env, name).Some? == hasType
    else
      var v := FindVar(env, name);
      && v.Some? && v.value.name == name && !v.value.isLocal
      && (!hasType ==> v.value.ty == NoType)
      && (!isExtern ==> |gvars| > 0 && Last(gvars) == v.value)
  }

  /** A binding at file scope leaves the declaration behind. */
  lemma BoundIsDeclared(env0: Env, gvars0: seq<Var>, env: Env, gvars: seq<Var>, name: string,
                        t: Option<Type>, isTypedef: bool, isExtern: bool, id: nat)
    requires |env0| == 1 && GlobalBound(env0, gvars0, env, gvars, name, t, isTypedef, isExtern, id)
    ensures GlobalDeclared(env, gvars, name, t.Some?, isTypedef, isExtern)
  {
    if isTypedef {
      FindDeclaredTypedef(env0, name, t);
    } else {
      FindDeclaredVar(env0, GlobalOf(id, name, t));
    }
  }

  /** A function definition with the head `(isTypedef, isExtern, ret, name)` took
      `funcs0` to `funcs`: it is not a typedef, the new function is the last one,
      well formed, with that name and a function type returning `ret`, and the
      name finds a variable of that type. */
  predicate FunctionAdded(funcs0: seq<Function>, funcs: seq<Function>, env: Env,
                          head: (bool, bool, Option<Type>, string))
  {
    && !head.0 && |funcs| == |funcs0| + 1 && funcs[..|funcs0|] == funcs0
    && var f := Last(funcs);
       && WellFormed(f) && f.name == head.3
       && f.ty == Func(if head.2.Some? then head.2.value else NoType)
       && FindVar(env, head.3).Some? && FindVar(env, head.3).value.ty == f.ty
  }

  /** A function definition whose parameter list was read as `a` (the
      declarations, and the position after the `)`), with its body in braces
      from there up to `end`: the parameters of `f` have the names and decayed
      types of those declarations, and where the body is expression statements
      only, it holds exactly those `ExprStmtsAt` reads in the file scope `env`
      (which binds the function's own name) with a new scope binding the
      parameters. */
  predicate BodyRead(toks: TokenStream, env: Env, a: (seq<Decl>, nat), f: Function, end: nat)
  {
    && Signature(f.params) == ParamSignature(a.0)
    && a.1 < |toks| && toks[a.1].kind == Punct('{') && BodyIn(toks, env, a.1 + 1, f, end)
  }

  /** The body of a function with parameters `params`, read from `i` (after
      its `{`) in the file scope `env` with a new scope binding the parameters,
      where it is expression statements only: the block of exactly those
      `ExprStmtsAt` reads, and where it ends. */
  function BodyOf(toks: TokenStream, env: Env, i: nat, params: seq<Var>): (r: Option<(Node, nat)>)
    requires i < |toks| && |env| > 0
    ensures r.Some? ==> r.value.0.CompStmt? && i < r.value.1
  {
    match ExprStmtsAt(toks, BindAll(Push(env), params), i)
    case None => None
    case Some((ss, k)) => Some((CompStmt(ss), k))
  }

  /** The body of `f` read from `i` up to `end`, as far as `BodyOf` fixes it. */
  predicate BodyIn(toks: TokenStream, env: Env, i: nat, f: Function, end: nat)
  {
    && i < |toks| && |env| > 0
    && var b := BodyOf(toks, env, i, f.params); b.Some? ==> (f.body, end) == b.value
  }

  /** A function prototype or definition whose parameter list was read as `a`
      (as `ParamsAt` reads one), read up to `end`: a `;` after the list makes a
      prototype, which leaves the functions `funcs0` as they were, and anything
      else a definition, which adds one function whose reading `BodyRead`
      states. */
  predicate FunctionRead(toks: TokenStream, a: Option<(seq<Decl>, nat)>, funcs0: seq<Function>, funcs: seq<Function>,
                         env: Env, end: nat)
  {
    a.Some? ==>
      && a.value.1 < |toks|
      && (toks[a.value.1].kind == Punct(';') ==> funcs == funcs0 && end == a.value.1 + 1)
      && (toks[a.value.1].kind != Punct(';') ==> |funcs| == |funcs0| + 1 && BodyRead(toks, env, a.value, Last(funcs), end))
  }

  /** Where `DeclHeadAt` reads a head from `start` in the scope `e`, `head` is
      that head and `at` is just past the token after it. */
  predicate HeadRead(toks: TokenStream, e: Env, start: nat, head: (bool, bool, Option<Type>, string), at: nat)
    requires start < |toks|
  {
    match DeclHeadAt(toks, e, start)
    case None => true
    case Some((h, k)) => head == h && at == k + 1
  }

  /** What a top-level declaration with head `head` did, `ok` saying whether it
      succeeded: without a `(` after the head (`call` false) it declared a global
      or typedef and left the functions `funcs0` as they were; with one, its
      parameter list has the reference reading `a` from `at` in the scope `e`,
      it kept the functions or added one, `FunctionRead` states which, and a
      prototype that `ParamListAt` reads always succeeds. `funcs`, `env`,
      `gvars` and `end` are the functions, scope, globals and position it left. */
  predicate DeclRead(toks: TokenStream, head: (bool, bool, Option<Type>, string), call: bool, at: nat, e: Env,
                     a: Option<(seq<Decl>, nat)>, funcs0: seq<Function>, funcs: seq<Function>, env: Env,
                     gvars: seq<Var>, end: nat, ok: bool)
  {
    match call
    case false => ok ==> funcs == funcs0 && GlobalDeclared(env, gvars, head.3, head.2.Some?, head.0, head.1)
    case true =>
      && at < |toks| && a == ParamListAt(toks, e, at)
      && (a.Some? && toks[a.value.1].kind == Punct(';') ==> ok)
      && (ok ==> (funcs == funcs0 || FunctionAdded(funcs0, funcs, env, head)) && FunctionRead(toks, a, funcs0, funcs, env, end))
  }

  /** The size and alignment of each member, read from the arena as it stands. */
  function MemberSlots(ds: seq<Decl>, structs: Arena): (r: seq<Slot>)
    ensures |r| == |ds|
  {
    seq(|ds|, i requires 0 <= i < |ds| => Slot(SizeOf(ds[i].ty, structs), AlignOf(ds[i].ty, structs)))
  }

  function PlacedMembers(ds: seq<Decl>, offsets: seq<int>): (r: seq<Member>)
    requires |offsets| == |ds|
    ensures |r| == |ds|
  {
    seq(|ds|, i requires 0 <= i < |ds| => Member(ds[i].name, ds[i].ty, offsets[i]))
  }

  /** The completed struct whose members are `ds`, in declaration order, laid out
      from the alignment `align0` the struct had before its body. */
  function Layout(ds: seq<Decl>, structs: Arena, align0: int): StructDef
    requires PositiveAligns(MemberSlots(ds, structs))
    requires align0 > 0 || |ds| > 0
  {
    var slots := MemberSlots(ds, structs);
    StructDef(Some(PlacedMembers(ds, Place(slots, align0).offsets)),
              StructSize(slots, align0), Place(slots, align0).align)
  }

  /** A function as the parser leaves it: its parameters are its first locals and
      every `break` and `continue` in its body targets a loop or switch of the body. */
  predicate WellFormed(f: Function)
  {
    |f.params| <= |f.lvars| && f.lvars[..|f.params|] == f.params && JumpsTo(f.body, [])
  }

  /** An array parameter is a pointer to its element type. */
  function Decay(t: Type): Type
  {
    if t.Ary? then Ptr(t.elem) else t
  }

  /** The name and type of each variable, in order. */
  function Signature(vs: seq<Var>): (r: seq<(string, Type)>)
    ensures |r| == |vs|
  {
    if vs == [] then [] else Signature(vs[..|vs| - 1]) + [(Last(vs).name, Last(vs).ty)]
  }

  /** The name and type of each parameter declaration, in order, with an array
      type decayed to a pointer: the signature the parameters get. */
  function ParamSignature(ds: seq<Decl>): (r: seq<(string, Type)>)
    ensures |r| == |ds|
  {
    if ds == [] then [] else ParamSignature(ds[..|ds| - 1]) + [(Last(ds).name, Decay(Last(ds).ty))]
  }

  /** Reading one more parameter `d` as the variable `v` extends both signatures
      alike. */
  lemma SignatureAppend(vs: seq<Var>, ds: seq<Decl>, v: Var, d: Decl)
    requires Signature(vs) == ParamSignature(ds) && v.name == d.name && v.ty == Decay(d.ty)
    ensures Signature(vs + [v]) == ParamSignature(ds + [d])
  {
    assert (vs + [v])[..|vs|] == vs;
    assert (ds + [d])[..|ds|] == ds;
  }

  /** The signatures agree position by position. */
  lemma SignatureAt(vs: seq<Var>, ds: seq<Decl>, k: nat)
    requires Signature(vs) == ParamSignature(ds) && k < |vs|
    ensures vs[k].name == ds[k].name && vs[k].ty == Decay(ds[k].ty)
    decreases |vs|
  {
    var n := |vs| - 1;
    var sv, sd := Signature(vs), ParamSignature(ds);
    assert sv[n] == (vs[n].name, vs[n].ty) && sd[n] == (ds[n].name, Decay(ds[n].ty));
    if k < n {
      assert Signature(vs[..n]) == sv[..n] == sd[..n] == ParamSignature(ds[..n]);
      SignatureAt(vs[..n], ds[..n], k);
    }
  }

  /** A temporary the parser introduces for a desugaring. */
  function Temp(id: nat, ty: Type): Var
  {
    Var(id, ".tmp", ty, true, None)
  }

  /** `h` is what the header of a `for` loop reads from `start` in the scope `e`:
      the init is absent at `;` and otherwise, unless it is a declaration, the
      expression statement `CommaAt` reads; the condition at `condAt` is absent iff
      `;` comes first and otherwise the `CommaAt` reading; the step at `incAt` is
      absent iff `)` comes first and otherwise the `CommaAt` reading. Condition and
      step are read in the scope `hEnv` the init leaves, and the header ends at
      `bodyAt`, after its `)`. */
  predicate ForHeaderRead(toks: TokenStream, start: nat, e: Env, h: (Option<Node>, Option<Node>, Option<Node>),
                          condAt: nat, incAt: nat, hEnv: Env, bodyAt: nat)
  {
    && start < condAt < incAt < bodyAt < |toks|
    && (toks[start].kind == Punct(';') ==> h.0.None? && condAt == start + 1)
    && (PlainStmtStart(toks, e, start) ==> var c := CommaAt(toks, e, start);
          c.Some? ==> h.0 == Some(ExprStmt(c.value.0)) && condAt == c.value.1 + 1 && hEnv == e)
    && (h.1.None? <==> toks[condAt].kind == Punct(';'))
    && (h.2.None? <==> toks[incAt].kind == CloseParen)
    && (h.2.None? ==> bodyAt == incAt + 1)
    && (h.1.Some? ==> var c := CommaAt(toks, hEnv, condAt);
          c.Some? ==> h.1.value == c.value.0 && incAt == c.value.1 + 1)
    && (h.2.Some? ==> var c := CommaAt(toks, hEnv, incAt);
          c.Some? ==> h.2.value == c.value.0 && bodyAt == c.value.1 + 1)
  }

  /** The branches of the `if` statement `n` as read from `start`: the
      then-statement up to `elseAt`, and an else-statement exactly when `else`
      follows it, read from after the `else` in the scope `elseEnv` up to `end`. */
  predicate IfRead(toks: TokenStream, env: Env, start: nat, n: Node, elseAt: nat, elseEnv: Env, end: nat)
    requires n.If?
  {
    && start < elseAt <= end < |toks|
    && (n.elseS.Some? <==> toks[elseAt].kind == KwElse)
    && (n.elseS.None? ==> end == elseAt)
    && StmtRead(toks, env, start, n.thenS, elseAt)
    && (n.elseS.Some? ==> StmtRead(toks, elseEnv, elseAt + 1, n.elseS.value, end))
  }

  class Parser {
    const toks: TokenStream
    /** The typing of an expression by the semantic pass, which `sizeof`,
        `_Alignof` and `typeof` consult. */
    const typeOf: Node -> Type
    var pos: nat
    var env: Env
    var structs: Arena
    var nextStruct: nat
    var lvars: seq<Var>
    /** The parameters of the function being parsed, which are its first locals. */
    ghost var firstLocals: seq<Var>
    var gvars: seq<Var>
    var funcs: seq<Function>
    /** Ids of the enclosing loops and switches, innermost last. */
    var breaks: seq<nat>
    /** Ids of the enclosing loops. */
    var continues: seq<nat>
    /** The `case`s found so far in each enclosing switch, innermost last. */
    var switches: seq<seq<CaseNode>>
    /** The string-literal counter, which persists across parses. */
    var nlabel: nat
    var nextVar: nat
    var nextNode: nat

    ghost predicate Valid()
      reads this
    {
      && pos <= |toks|
      && firstLocals <= lvars
      && |env| >= 1
      && |continues| <= |breaks|
    }

    ghost predicate Ready()
      reads this
    {
      Valid() && pos < |toks|
    }

    /** Wherever the reference reading `p` of the tokens yields a result, the rule
        yields that result and stops just past the tokens it reads. */
    predicate Agrees<T(==)>(p: Option<(T, nat)>, r: Result<T>)
      reads this
    {
      p.Some? ==> r == Success(p.value.0) && pos == p.value.1
    }

    /** What every rule keeps: the loop and switch stacks are back as they were,
        the functions are untouched and the locals of the current function only
        grow. */
    twostate predicate Nested()
      reads this
    {
      && breaks == old(breaks) && continues == old(continues)
      && CasesAdded(old(switches), switches) && funcs == old(funcs)
      && firstLocals == old(firstLocals)
    }

    /** The switch stack keeps its frames; only the innermost one may gain cases,
        at its end. */
    static ghost predicate CasesAdded(before: seq<seq<CaseNode>>, after: seq<seq<CaseNode>>)
    {
      && |after| == |before|
      && (|before| > 0 ==>
            && after[..|before| - 1] == before[..|before| - 1]
            && Last(before) <= Last(after))
    }

    static lemma CasesAddedTrans(a: seq<seq<CaseNode>>, b: seq<seq<CaseNode>>, c: seq<seq<CaseNode>>)
      requires CasesAdded(a, b) && CasesAdded(b, c)
      ensures CasesAdded(a, c)
    {
    }

    /** An expression rule consumed at least one token and left the scopes as they were. */
    twostate predicate ExprStep()
      reads this
    {
      Ready() && old(pos) < pos && env == old(env) && Nested()
    }

    /** A rule kept the number of scopes and wrote at most the innermost one. */
    twostate predicate ScopeKept()
      reads this
    {
      |old(env)| >= 1 && |env| == |old(env)| && Pop(env) == Pop(old(env))
    }

    /** A statement or declaration rule consumed at least one token and wrote at
        most the innermost scope. */
    twostate predicate StmtStep()
      reads this
    {
      Ready() && old(pos) < pos && ScopeKept() && Nested()
    }

    constructor (toks: seq<Token>, typeOf: Node -> Type, nlabel: nat)
      requires |toks| > 0 && toks[|toks| - 1].kind == Eof
      ensures Ready() && env == [EmptyFrame] && this.toks == toks && this.typeOf == typeOf
      ensures this.nlabel == nlabel && pos == 0
      ensures structs == map[] && lvars == [] && gvars == [] && funcs == []
      ensures breaks == [] && continues == [] && switches == []
    {
      this.toks := toks;
      this.typeOf := typeOf;
      this.nlabel := nlabel;
      pos := 0;
      env := [EmptyFrame];
      structs := map[];
      nextStruct := 0;
      lvars := [];
      firstLocals := [];
      gvars := [];
      funcs := [];
      breaks := [];
      continues := [];
      switches := [];
      nextVar := 0;
      nextNode := 0;
    }

    // ---------------------------------------------------------------- cursor

    /** Step over the current token if it has kind `k`. */
    method Consume(k: Kind) returns (b: bool)
      requires Ready() && k != Eof
      modifies this`pos
      ensures Ready()
      ensures b == (toks[old(pos)].kind == k)
      ensures pos == if b then old(pos) + 1 else old(pos)
    {
      if toks[pos].kind != k {
        return false;
      }
      pos := pos + 1;
      return true;
    }

    /** Step over a token of kind `k`, which must be there. */
    method Expect(k: Kind) returns (o: Outcome)
      requires Ready() && (k.Punct? || k == KwWhile)
      modifies this`pos
      ensures Ready()
      ensures o.Pass? == (toks[old(pos)].kind == k)
      ensures pos == if o.Pass? then old(pos) + 1 else old(pos)
    {
      if toks[pos].kind == k {
        pos := pos + 1;
        return Pass;
      }
      if k.Punct? {
        return Fail([k.c] + " expected");
      }
      return Fail("'while' expected");
    }

    method Get() returns (t: Token)
      requires Ready()
      modifies this`pos
      ensures Valid() && pos == old(pos) + 1 && t == toks[old(pos)]
      ensures t.kind != Eof ==> Ready()
    {
      t := toks[pos];
      pos := pos + 1;
    }

    /** Step back over the token just read. */
    method Unget(t: Token)
      requires Valid() && pos > 0 && toks[pos - 1] == t
      modifies this`pos
      ensures Ready() && pos == old(pos) - 1 && toks[pos] == t
    {
      pos := pos - 1;
    }

    method Identifier() returns (r: Result<string>)
      requires Ready()
      modifies this`pos
      ensures Valid()
      ensures r.Success? <==> toks[old(pos)].kind == Ident
      ensures r.Success? ==> Ready() && pos == old(pos) + 1 && r.value == toks[old(pos)].name
    {
      var t := Get();
      if t.kind != Ident {
        return Failure("identifier expected");
      }
      return Success(t.name);
    }

    // ---------------------------------------------------------------- scopes

    method PushEnv()
      requires Valid()
      modifies this`env
      ensures Valid() && env == Push(old(env))
    {
      env := Push(env);
    }

    method PopEnv()
      requires Valid() && |env| >= 2
      modifies this`env
      ensures Valid() && env == Pop(old(env))
    {
      env := Pop(env);
    }

    method AddVar(v: Var)
      requires Valid()
      modifies this`env
      ensures Valid() && env == DeclareVar(old(env), v)
      ensures FindVar(env, v.name) == Some(v)
    {
      env := DeclareVar(env, v);
      FindDeclaredVar(old(env), v);
    }

    method NewVar(ty: Type, name: string, isLocal: bool, data: Option<string>) returns (v: Var)
      modifies this`nextVar
      ensures v == Var(old(nextVar), name, ty, isLocal, data) && nextVar == old(nextVar) + 1
    {
      v := Var(nextVar, name, ty, isLocal, data);
      nextVar := nextVar + 1;
    }

    /** Give a local its storage in the current function; only possible inside a
        block, so that a local-making expression at file scope is fatal. */
    method AllocLocalStorage(v: Var) returns (o: Outcome)
      requires Valid() && v.isLocal
      modifies this`lvars
      ensures o.Pass? <==> |env| >= 2
      ensures lvars == if o.Pass? then old(lvars) + [v] else old(lvars)
    {
      if |env| < 2 {
        return Fail("local variable outside a function");
      }
      lvars := lvars + [v];
      return Pass;
    }

    method AllocGlobalStorage(v: Var)
      requires !v.isLocal
      modifies this`gvars
      ensures gvars == old(gvars) + [v]
    {
      gvars := gvars + [v];
    }

    method NewNodeId() returns (id: nat)
      modifies this`nextNode
      ensures id == old(nextNode) && nextNode == old(nextNode) + 1
    {
      id := nextNode;
      nextNode := nextNode + 1;
    }

    /** Whether the current token starts a type: a type keyword or a typedef name. */
    predicate IsTypename()
      reads this
      requires pos < |toks|
      ensures IsTypename() ==> !PlainStmtStart(toks, env, pos)
      ensures StartsExpr(toks[pos].kind) ==> (IsTypename() <==> !PlainStmtStart(toks, env, pos))
    {
      var t := toks[pos];
      if t.kind == Ident then FindTypedef(env, t.name).Some?
      else t.kind in {KwInt, KwChar, KwVoid, KwStruct, KwTypeof, KwBool}
    }

    // ---------------------------------------------------------- desugarings

    /** `lhs op= rhs` becomes `({ tmp = &lhs; *tmp = *tmp op rhs })` with a fresh
        pointer temporary. */
    method NewAssignEq(op: BinOp, lhs: Node, rhs: Node) returns (r: Result<Node>)
      requires Valid()
      modifies this`lvars, this`nextVar
      ensures Valid() && old(lvars) <= lvars && nextVar == old(nextVar) + 1
      ensures r.Success? <==> |env| >= 2
      ensures r.Success? ==>
        var tmp := Temp(old(nextVar), Ptr(NodeType(lhs)));
        && lvars == old(lvars) + [tmp]
        && r.value == AssignEqNode(op, lhs, tmp, rhs)
    {
      var tmp := NewVar(Ptr(NodeType(lhs)), ".tmp", true, None);
      :- AllocLocalStorage(tmp);
      return Success(AssignEqNode(op, lhs, tmp, rhs));
    }

    /** `e++` (imm 1) and `e--` (imm -1) become
        `({ p = &e; s = *p; *p = *p + imm; s })` with two fresh temporaries: a
        pointer to e's type, then one of e's type. */
    method NewPostInc(e: Node, imm: int) returns (r: Result<Node>)
      requires Valid()
      modifies this`lvars, this`nextVar
      ensures Valid() && old(lvars) <= lvars && old(nextVar) <= nextVar
      ensures r.Success? <==> |env| >= 2
      ensures r.Success? ==>
        var p := Temp(old(nextVar), Ptr(NodeType(e)));
        var s := Temp(old(nextVar) + 1, NodeType(e));
        && lvars == old(lvars) + [p, s]
        && r.value == PostIncNode(e, p, s, imm)
    {
      var p := NewVar(Ptr(NodeType(e)), ".tmp", true, None);
      var s := NewVar(NodeType(e), ".tmp", true, None);
      :- AllocLocalStorage(p);
      var _ := AllocLocalStorage(s);
      return Success(PostIncNode(e, p, s, imm));
    }

    // ----------------------------------------------------------- expressions

    method StringLiteral(t: Token) returns (r: Node)
      requires Valid()
      modifies this`gvars, this`nlabel, this`nextVar
      ensures Valid() && nlabel == old(nlabel) + 1 && old(nextVar) < nextVar
      ensures r.VarRef? && r.v.name == LabelName(old(nlabel)) && r.v.data == Some(t.str) && r.v.ty == Ary(Char, t.len)
      ensures !r.v.isLocal && gvars == old(gvars) + [r.v]
    {
      var v := NewVar(Ary(Char, t.len), LabelName(nlabel), false, Some(t.str));
      nlabel := nlabel + 1;
      AllocGlobalStorage(v);
      return VarRef(v);
    }

    /** A call `name(args)`, after its `(`. A callee that is not a visible function
        gets the type of a function returning int. */
    method FunctionCall(name: string) returns (r: Result<Node>)
      requires Ready()
      modifies this
      ensures Valid()
      ensures r.Success? ==> ExprStep() && r.value.Call? && r.value.callee == name
      ensures r.Success? ==> var f := FindVar(old(env), name);
        r.value.ty == if f.Some? && f.value.ty.Func? then f.value.ty else Func(Int)
      ensures var a := ArgsAt(toks, old(env), old(pos), true);
        a.Some? ==> r.Success? && r.value.args == a.value.0 && pos == a.value.1
      decreases |toks| - pos, 18
    {
      var f := FindVar(env, name);
      var ty: Type;
      if f.Some? && f.value.ty.Func? {
        ty := f.value.ty;
      } else {
        ty := Func(Int);
      }
      var args :- Arguments();
      return Success(Call(name, ty, args));
    }

    /** The arguments of a call, separated by `,`, up to and including the `)`. */
    method Arguments() returns (r: Result<seq<Node>>)
      requires Ready()
      modifies this
      ensures Valid()
      ensures r.Success? ==> ExprStep() && toks[pos - 1].kind == CloseParen
      ensures Agrees(ArgsAt(toks, old(env), old(pos), true), r)
      decreases |toks| - pos, 17
    {
      var args: seq<Node> := [];
      ghost var all := ArgsAt(toks, env, pos, true);
      assert all.Some? ==> [] + all.value.0 == all.value.0;
      while true
        invariant Ready() && old(pos) <= pos && env == old(env) && Nested()
        invariant var a := ArgsAt(toks, old(env), old(pos), true);
          a.Some? ==> var rest := ArgsAt(toks, old(env), pos, |args| == 0);
            rest.Some? && a.value == (args + rest.value.0, rest.value.1)
        decreases |toks| - pos
      {
        ghost var before := ArgsAt(toks, old(env), pos, |args| == 0);
        var a :- Argument(|args| == 0);
        if a.None? {
          assert args + [] == args;
          break;
        }
        ghost var after := ArgsAt(toks, old(env), pos, false);
        if before.Some? {
          assert args + before.value.0 == (args + [a.value]) + after.value.0;
        }
        args := args + [a.value];
      }
      return Success(args);
    }

    /** One argument of a call, after a `,` unless it is the first, or None, once
        the closing `)` has been read. */
    method Argument(first: bool) returns (r: Result<Option<Node>>)
      requires Ready()
      modifies this
      ensures Valid()
      ensures r.Success? ==> ExprStep()
      ensures r == Success(None) <==> toks[old(pos)].kind == CloseParen
      ensures r == Success(None) ==> pos == old(pos) + 1 && ArgsAt(toks, old(env), old(pos), first) == Some(([], pos))
      ensures var b := ArgsAt(toks, old(env), old(pos), first);
        b.Some? && toks[old(pos)].kind != CloseParen ==>
          && r.Success? && r.value.Some?
          && var rest := ArgsAt(toks, old(env), pos, false);
             rest.Some? && b.value == ([r.value.value] + rest.value.0, rest.value.1)
      decreases |toks| - pos, 16
    {
      var close := Consume(CloseParen);
      if close {
        return Success(None);
      }
      var e: Node;
      if !first {
        :- Expect(Punct(','));
      }
      e :- AssignExpr();
      return Success(Some(e));
    }

    /** A name in an expression, after the name itself: a call when `(` follows,
        else the variable it is bound to in the scopes. */
    method NameRef(name: string) returns (r: Result<Node>)
      requires Ready()
      modifies this
      ensures Valid()
      ensures r.Success? ==> Ready() && old(pos) <= pos && env == old(env) && Nested()
      ensures toks[old(pos)].kind != OpenParen ==>
        && (r.Success? <==> FindVar(old(env), name).Some?)
        && (r.Success? ==> r.value == VarRef(FindVar(old(env), name).value) && pos == old(pos))
      decreases |toks| - pos, 1
    {
      var call := Consume(OpenParen);
      if call {
        r := FunctionCall(name);
        return;
      }
      var v := FindVar(env, name);
      if v.None? {
        return Failure("undefined variable");
      }
      return Success(VarRef(v.value));
    }

    method Primary() returns (r: Result<Node>)
      requires Ready()
      modifies this
      ensures Valid()
      ensures r.Success? ==> ExprStep()
      ensures Agrees(PrimaryAt(toks, old(env), old(pos)), r)
      decreases |toks| - pos, 1
    {
      var t := Get();
      if t.kind == OpenParen {
        r := Parenthesized();
        return;
      }
      if t.kind == Number {
        return Success(Num(t.val));
      }
      if t.kind == StrLit {
        var s := StringLiteral(t);
        return Success(s);
      }
      if t.kind == Ident {
        r := NameRef(t.name);
        return;
      }
      return Failure("primary expression expected");
    }

    /** After a `(`: a statement expression `{ ... })` or an expression and `)`. */
    method Parenthesized() returns (r: Result<Node>)
      requires Ready()
      modifies this
      ensures Valid()
      ensures r.Success? ==> ExprStep()
      ensures toks[old(pos)].kind == Punct('{') ==> r.Success? ==> r.value.StmtExpr?
      ensures var e := CommaAt(toks, old(env), old(pos)); e.Some? ==>
        && (r.Success? <==> toks[e.value.1].kind == CloseParen)
        && (r.Success? ==> r.value == e.value.0 && pos == e.value.1 + 1)
      decreases |toks| - pos, 25
    {
      var brace := Consume(Punct('{'));
      if brace {
        ghost var stmts;
        r, stmts := StatementExpr();
        return;
      }
      r := ExprThen(CloseParen);
    }

    method Postfix() returns (r: Result<Node>)
      requires Ready()
      modifies this
      ensures Valid()
      ensures r.Success? ==> ExprStep()
      ensures Agrees(PostfixAt(toks, old(env), old(pos)), r)
      decreases |toks| - pos, 2
    {
      var lhs :- Primary();
      while true
        invariant ExprStep()
        invariant Agrees(PostfixAt(toks, old(env), old(pos)), Success(lhs))
        decreases |toks| - pos
      {
        if !IsPostfixOp(toks[pos].kind) {
          return Success(lhs);
        }
        ghost var index;
        lhs, index :- PostfixOp(lhs);
      }
    }

    /** One postfix operator applied to `lhs`: `++` and `--` (with two fresh
        temporaries), `.name`, `->name` (which is `(*lhs).name`) or `[index]`
        (which is `*(lhs + index)`). */
    method PostfixOp(lhs: Node) returns (r: Result<Node>, ghost index: Node)
      requires Ready() && IsPostfixOp(toks[pos].kind)
      modifies this
      ensures Valid()
      ensures r.Success? ==> ExprStep()
      ensures toks[old(pos)].kind in {Inc, Dec} ==>
        && (r.Success? <==> |old(env)| >= 2)
        && (r.Success? ==>
              var p := Temp(old(nextVar), Ptr(NodeType(lhs)));
              var s := Temp(old(nextVar) + 1, NodeType(lhs));
              && pos == old(pos) + 1 && lvars == old(lvars) + [p, s]
              && r.value == PostIncNode(lhs, p, s, if toks[old(pos)].kind == Inc then 1 else -1))
      ensures toks[old(pos)].kind == Punct('[') ==>
        && (r.Success? ==> r.value == Deref(Binop(Add, lhs, index)) && toks[pos - 1].kind == Punct(']'))
        && var a := AssignAt(toks, old(env), old(pos) + 1); a.Some? ==>
             && (r.Success? <==> toks[a.value.1].kind == Punct(']'))
             && (r.Success? ==> index == a.value.0 && pos == a.value.1 + 1)
      ensures toks[old(pos)].kind in {Punct('.'), Arrow} ==>
        && (r.Success? <==> toks[old(pos) + 1].kind == Ident)
        && (r.Success? ==>
              var name := toks[old(pos) + 1].name;
              && pos == old(pos) + 2
              && r.value == if toks[old(pos)].kind == Arrow then Dot(Deref(lhs), name) else Dot(lhs, name))
      decreases |toks| - pos, 1
    {
      index := lhs;
      var k := toks[pos].kind;
      pos := pos + 1;
      if k == Inc || k == Dec {
        r := NewPostInc(lhs, if k == Inc then 1 else -1);
      } else if k == Punct('[') {
        var i :- AssignExpr();
        index := i;
        :- Expect(Punct(']'));
        r := Success(Deref(Binop(Add, lhs, i)));
      } else {
        var name :- Identifier();
        r := Success(if k == Arrow then Dot(Deref(lhs), name) else Dot(lhs, name));
      }
    }

    /** Prefix operators. `-x` is `0 - x`; `sizeof` and `_Alignof` fold to a number;
        `++x` and `--x` are `x += 1` and `x -= 1`. */
    method Unary() returns (r: Result<Node>)
      requires Ready()
      modifies this
      ensures Valid()
      ensures r.Success? ==> ExprStep()
      ensures Agrees(UnaryAt(toks, old(env), old(pos)), r)
      decreases |toks| - pos, 3
    {
      var k := toks[pos].kind;
      ghost var x;
      if IsPrefixOp(k) {
        r, x := PrefixOp();
      } else if k == Inc || k == Dec {
        r, x := PrefixIncDec();
      } else if k == KwSizeof || k == KwAlignof {
        r, x := SizeofOp();
      } else {
        r := Postfix();
      }
    }

    /** `-`, `*`, `&`, `!` or `~` and its operand. */
    method PrefixOp() returns (r: Result<Node>, ghost operand: Node)
      requires Ready() && IsPrefixOp(toks[pos].kind)
      modifies this
      ensures Valid()
      ensures r.Success? ==> ExprStep() && r.value == PrefixNode(toks[old(pos)].kind, operand)
      ensures Agrees(UnaryAt(toks, old(env), old(pos)), r)
      decreases |toks| - pos, 2
    {
      operand := Num(0);
      var k := toks[pos].kind;
      pos := pos + 1;
      var x :- Unary();
      operand := x;
      r := Success(PrefixNode(k, x));
    }

    /** `++x` and `--x` become the compound assignments `x += 1` and `x -= 1`, with
        a fresh pointer temporary that becomes the last local. */
    method PrefixIncDec() returns (r: Result<Node>, ghost operand: Node)
      requires Ready() && toks[pos].kind in {Inc, Dec}
      modifies this
      ensures Valid()
      ensures r.Success? ==> ExprStep() && |lvars| > 0 && nextVar > 0
      ensures r.Success? ==>
        && Last(lvars) == Temp(nextVar - 1, Ptr(NodeType(operand)))
        && r.value == AssignEqNode(if toks[old(pos)].kind == Inc then Add else Sub, operand, Last(lvars), Num(1))
      ensures var u := UnaryAt(toks, old(env), old(pos) + 1); u.Some? ==>
        && (r.Success? <==> |old(env)| >= 2)
        && (r.Success? ==> operand == u.value.0 && pos == u.value.1)
      decreases |toks| - pos, 2
    {
      operand := Num(0);
      var k := toks[pos].kind;
      pos := pos + 1;
      var x :- Unary();
      operand := x;
      r := NewAssignEq(if k == Inc then Add else Sub, x, Num(1));
    }

    /** `sizeof x` and `_Alignof x`: the size or alignment of the operand's type,
        as a number. */
    method SizeofOp() returns (r: Result<Node>, ghost operand: Node)
      requires Ready() && toks[pos].kind in {KwSizeof, KwAlignof}
      modifies this
      ensures Valid()
      ensures r.Success? ==> ExprStep()
      ensures r.Success? ==> var t := typeOf(operand);
        r.value == Num(if toks[old(pos)].kind == KwSizeof then SizeOf(t, structs) else AlignOf(t, structs))
      ensures var u := UnaryAt(toks, old(env), old(pos) + 1); u.Some? ==>
        r.Success? && operand == u.value.0 && pos == u.value.1
      decreases |toks| - pos, 2
    {
      operand := Num(0);
      var k := toks[pos].kind;
      pos := pos + 1;
      var x :- Unary();
      operand := x;
      var t := typeOf(x);
      r := Success(Num(if k == KwSizeof then SizeOf(t, structs) else AlignOf(t, structs)));
    }

    /** The binary levels, loosest last; each is a left-associative chain of its
        operators over operands of the next tighter level. */
    method MulExpr() returns (r: Result<Node>)
      requires Ready()
      modifies this
      ensures Valid()
      ensures r.Success? ==> ExprStep()
      ensures Agrees(BinaryAt(toks, old(env), MUL, old(pos)), r)
      decreases |toks| - pos, 4
    {
      var lhs :- Unary();
      while true
        invariant ExprStep()
        invariant var b := BinaryAt(toks, old(env), MUL, old(pos));
          b.Some? ==> b == ChainAt(toks, old(env), MUL, lhs, pos)
        decreases |toks| - pos
      {
        var k := toks[pos].kind;
        var op := LevelOp(MUL, k);
        if op.None? {
          return Success(lhs);
        }
        pos := pos + 1;
        var rhs :- Unary();
        lhs := Binop(op.value, lhs, rhs);
      }
    }

    method AddExpr() returns (r: Result<Node>)
      requires Ready()
      modifies this
      ensures Valid()
      ensures r.Success? ==> ExprStep()
      ensures Agrees(BinaryAt(toks, old(env), ADD, old(pos)), r)
      decreases |toks| - pos, 5
    {
      var lhs :- MulExpr();
      while true
        invariant ExprStep()
        invariant var b := BinaryAt(toks, old(env), ADD, old(pos));
          b.Some? ==> b == ChainAt(toks, old(env), ADD, lhs, pos)
        decreases |toks| - pos
      {
        var k := toks[pos].kind;
        var op := LevelOp(ADD, k);
        if op.None? {
          return Success(lhs);
        }
        pos := pos + 1;
        var rhs :- MulExpr();
        lhs := Binop(op.value, lhs, rhs);
      }
    }

    method ShiftExpr() returns (r: Result<Node>)
      requires Ready()
      modifies this
      ensures Valid()
      ensures r.Success? ==> ExprStep()
      ensures Agrees(BinaryAt(toks, old(env), SHIFT, old(pos)), r)
      decreases |toks| - pos, 6
    {
      var lhs :- AddExpr();
      while true
        invariant ExprStep()
        invariant var b := BinaryAt(toks, old(env), SHIFT, old(pos));
          b.Some? ==> b == ChainAt(toks, old(env), SHIFT, lhs, pos)
        decreases |toks| - pos
      {
        var k := toks[pos].kind;
        var op := LevelOp(SHIFT, k);
        if op.None? {
          return Success(lhs);
        }
        pos := pos + 1;
        var rhs :- AddExpr();
        lhs := Binop(op.value, lhs, rhs);
      }
    }

    /** `<`, `<=`, `>` and `>=`; the last two swap their operands, so that no
        greater-than node is ever built. */
    method RelationalExpr() returns (r: Result<Node>)
      requires Ready()
      modifies this
      ensures Valid()
      ensures r.Success? ==> ExprStep()
      ensures Agrees(BinaryAt(toks, old(env), REL, old(pos)), r)
      decreases |toks| - pos, 7
    {
      var lhs :- ShiftExpr();
      while true
        invariant ExprStep()
        invariant var b := BinaryAt(toks, old(env), REL, old(pos));
          b.Some? ==> b == ChainAt(toks, old(env), REL, lhs, pos)
        decreases |toks| - pos
      {
        var k := toks[pos].kind;
        var op := LevelOp(REL, k);
        if op.None? {
          return Success(lhs);
        }
        pos := pos + 1;
        var rhs :- ShiftExpr();
        lhs := RelStep(k, lhs, rhs);
      }
    }

    method EqualityExpr() returns (r: Result<Node>)
      requires Ready()
      modifies this
      ensures Valid()
      ensures r.Success? ==> ExprStep()
      ensures Agrees(BinaryAt(toks, old(env), EQUALITY, old(pos)), r)
      decreases |toks| - pos, 8
    {
      var lhs :- RelationalExpr();
      while true
        invariant ExprStep()
        invariant var b := BinaryAt(toks, old(env), EQUALITY, old(pos));
          b.Some? ==> b == ChainAt(toks, old(env), EQUALITY, lhs, pos)
        decreases |toks| - pos
      {
        var k := toks[pos].kind;
        var op := LevelOp(EQUALITY, k);
        if op.None? {
          return Success(lhs);
        }
        pos := pos + 1;
        var rhs :- RelationalExpr();
        lhs := Binop(op.value, lhs, rhs);
      }
    }

    method BitAndExpr() returns (r: Result<Node>)
      requires Ready()
      modifies this
      ensures Valid()
      ensures r.Success? ==> ExprStep()
      ensures Agrees(BinaryAt(toks, old(env), BITAND, old(pos)), r)
      decreases |toks| - pos, 9
    {
      var lhs :- EqualityExpr();
      while true
        invariant ExprStep()
        invariant var b := BinaryAt(toks, old(env), BITAND, old(pos));
          b.Some? ==> b == ChainAt(toks, old(env), BITAND, lhs, pos)
        decreases |toks| - pos
      {
        var k := toks[pos].kind;
        var op := LevelOp(BITAND, k);
        if op.None? {
          return Success(lhs);
        }
        pos := pos + 1;
        var rhs :- EqualityExpr();
        lhs := Binop(op.value, lhs, rhs);
      }
    }

    method BitXorExpr() returns (r: Result<Node>)
      requires Ready()
      modifies this
      ensures Valid()
      ensures r.Success? ==> ExprStep()
      ensures Agrees(BinaryAt(toks, old(env), BITXOR, old(pos)), r)
      decreases |toks| - pos, 10
    {
      var lhs :- BitAndExpr();
      while true
        invariant ExprStep()
        invariant var b := BinaryAt(toks, old(env), BITXOR, old(pos));
          b.Some? ==> b == ChainAt(toks, old(env), BITXOR, lhs, pos)
        decreases |toks| - pos
      {
        var k := toks[pos].kind;
        var op := LevelOp(BITXOR, k);
        if op.None? {
          return Success(lhs);
        }
        pos := pos + 1;
        var rhs :- BitAndExpr();
        lhs := Binop(op.value, lhs, rhs);
      }
    }

    method BitOrExpr() returns (r: Result<Node>)
      requires Ready()
      modifies this
      ensures Valid()
      ensures r.Success? ==> ExprStep()
      ensures Agrees(BinaryAt(toks, old(env), BITOR, old(pos)), r)
      decreases |toks| - pos, 11
    {
      var lhs :- BitXorExpr();
      while true
        invariant ExprStep()
        invariant var b := BinaryAt(toks, old(env), BITOR, old(pos));
          b.Some? ==> b == ChainAt(toks, old(env), BITOR, lhs, pos)
        decreases |toks| - pos
      {
        var k := toks[pos].kind;
        var op := LevelOp(BITOR, k);
        if op.None? {
          return Success(lhs);
        }
        pos := pos + 1;
        var rhs :- BitXorExpr();
        lhs := Binop(op.value, lhs, rhs);
      }
    }

    method LogAndExpr() returns (r: Result<Node>)
      requires Ready()
      modifies this
      ensures Valid()
      ensures r.Success? ==> ExprStep()
      ensures Agrees(BinaryAt(toks, old(env), LOGAND, old(pos)), r)
      decreases |toks| - pos, 12
    {
      var lhs :- BitOrExpr();
      while true
        invariant ExprStep()
        invariant var b := BinaryAt(toks, old(env), LOGAND, old(pos));
          b.Some? ==> b == ChainAt(toks, old(env), LOGAND, lhs, pos)
        decreases |toks| - pos
      {
        var k := toks[pos].kind;
        var op := LevelOp(LOGAND, k);
        if op.None? {
          return Success(lhs);
        }
        pos := pos + 1;
        var rhs :- BitOrExpr();
        lhs := Binop(op.value, lhs, rhs);
      }
    }

    method LogOrExpr() returns (r: Result<Node>)
      requires Ready()
      modifies this
      ensures Valid()
      ensures r.Success? ==> ExprStep()
      ensures Agrees(BinaryAt(toks, old(env), LOGOR, old(pos)), r)
      decreases |toks| - pos, 13
    {
      var lhs :- LogAndExpr();
      while true
        invariant ExprStep()
        invariant var b := BinaryAt(toks, old(env), LOGOR, old(pos));
          b.Some? ==> b == ChainAt(toks, old(env), LOGOR, lhs, pos)
        decreases |toks| - pos
      {
        var k := toks[pos].kind;
        var op := LevelOp(LOGOR, k);
        if op.None? {
          return Success(lhs);
        }
        pos := pos + 1;
        var rhs :- LogAndExpr();
        lhs := Binop(op.value, lhs, rhs);
      }
    }

    method ConditionalExpr() returns (r: Result<Node>)
      requires Ready()
      modifies this
      ensures Valid()
      ensures r.Success? ==> ExprStep()
      ensures Agrees(ConditionalAt(toks, old(env), old(pos)), r)
      decreases |toks| - pos, 14
    {
      var c :- LogOrExpr();
      ghost var j, before := pos, env;
      r := CondRest(c);
      CondTailFromParts(toks, before, c, j, r, pos);
      if BinaryAt(toks, before, LOGOR, old(pos)).Some? {
        ConditionalStarts(toks, before, old(pos), c, j);
      }
    }

    /** What follows the condition: nothing, or `? then : else`. */
    method CondRest(c: Node) returns (r: Result<Node>)
      requires Ready()
      modifies this
      ensures Valid()
      ensures r.Success? ==> Ready() && old(pos) <= pos && env == old(env) && Nested()
      ensures toks[old(pos)].kind != Punct('?') ==> r == Success(c) && pos == old(pos)
      ensures toks[old(pos)].kind == Punct('?') ==>
        var y := CommaAt(toks, old(env), old(pos) + 1);
        y.Some? && toks[y.value.1].kind == Punct(':') ==>
          var z := ConditionalAt(toks, old(env), y.value.1 + 1);
          z.Some? ==> r == Success(Cond(c, y.value.0, z.value.0)) && pos == z.value.1
      decreases |toks| - pos, 14
    {
      if toks[pos].kind != Punct('?') {
        return Success(c);
      }
      pos := pos + 1;
      var yes :- ExprThen(Punct(':'));
      var no :- ConditionalExpr();
      return Success(Cond(c, yes, no));
    }

    /** `=` and the compound assignments, right-associative. */
    method AssignExpr() returns (r: Result<Node>)
      requires Ready()
      modifies this
      ensures Valid()
      ensures r.Success? ==> ExprStep()
      ensures Agrees(AssignAt(toks, old(env), old(pos)), r)
      decreases |toks| - pos, 15
    {
      var lhs :- ConditionalExpr();
      r := AssignRhs(lhs);
    }

    /** What follows the left operand of an assignment: nothing, `= rhs`, or a
        compound assignment `op= rhs`, which becomes a statement expression. */
    method AssignRhs(lhs: Node) returns (r: Result<Node>)
      requires Ready()
      modifies this
      ensures Valid()
      ensures r.Success? ==> Ready() && old(pos) <= pos && env == old(env) && Nested()
      ensures toks[old(pos)].kind == Punct('=') ==> r.Success? ==>
        r.value.Binop? && r.value.op == Assign && r.value.lhs == lhs
      ensures Agrees(AssignTail(toks, old(env), lhs, old(pos)), r)
      decreases |toks| - pos, 15
    {
      if toks[pos].kind == Punct('=') {
        pos := pos + 1;
        var rhs :- AssignExpr();
        return Success(Binop(Assign, lhs, rhs));
      }
      ghost var rhs;
      r, rhs := CompoundAssign(lhs);
    }

    /** A compound assignment `op= rhs` after its left operand, or nothing. The
        assignment gets a fresh pointer temporary, which becomes the last local. */
    method CompoundAssign(lhs: Node) returns (r: Result<Node>, ghost rhs: Node)
      requires Ready()
      modifies this
      ensures Valid()
      ensures r.Success? ==> Ready() && old(pos) <= pos && env == old(env) && Nested()
      ensures AssignOp(toks[old(pos)].kind).None? ==> r == Success(lhs) && pos == old(pos)
      ensures AssignOp(toks[old(pos)].kind).Some? && r.Success? ==>
        && |lvars| > 0 && nextVar > 0
        && Last(lvars) == Temp(nextVar - 1, Ptr(NodeType(lhs)))
        && r.value == AssignEqNode(AssignOp(toks[old(pos)].kind).value, lhs, Last(lvars), rhs)
      ensures AssignOp(toks[old(pos)].kind).Some? ==>
        var a := AssignAt(toks, old(env), old(pos) + 1); a.Some? ==>
          && (r.Success? <==> |old(env)| >= 2)
          && (r.Success? ==> rhs == a.value.0 && pos == a.value.1)
      decreases |toks| - pos, 14
    {
      rhs := lhs;
      var op := AssignOp(toks[pos].kind);
      if op.None? {
        r := Success(lhs);
        return;
      }
      pos := pos + 1;
      var x :- AssignExpr();
      rhs := x;
      r := NewAssignEq(op.value, lhs, x);
    }

    method Expr() returns (r: Result<Node>)
      requires Ready()
      modifies this
      ensures Valid()
      ensures r.Success? ==> ExprStep()
      ensures Agrees(CommaAt(toks, old(env), old(pos)), r)
      decreases |toks| - pos, 16
    {
      var lhs :- AssignExpr();
      if toks[pos].kind != Punct(',') {
        return Success(lhs);
      }
      pos := pos + 1;
      var rhs :- Expr();
      return Success(Binop(Comma, lhs, rhs));
    }

    /** An expression followed by the punctuator `k`, which is consumed. */
    method ExprThen(k: Kind) returns (r: Result<Node>)
      requires Ready() && k.Punct?
      modifies this
      ensures Valid()
      ensures r.Success? ==> ExprStep() && toks[pos - 1].kind == k
      ensures var e := CommaAt(toks, old(env), old(pos)); e.Some? ==>
        && (r.Success? <==> toks[e.value.1].kind == k)
        && (r.Success? ==> r.value == e.value.0 && pos == e.value.1 + 1)
      decreases |toks| - pos, 17
    {
      var e :- Expr();
      :- Expect(k);
      return Success(e);
    }

    /** An expression that must be a number literal. */
    method ConstExpr() returns (r: Result<int>)
      requires Ready()
      modifies this
      ensures Valid()
      ensures r.Success? ==> ExprStep()
      ensures var e := CommaAt(toks, old(env), old(pos)); e.Some? ==>
        && (r.Success? <==> e.value.0.Num?)
        && (r.Success? ==> r.value == e.value.0.val && pos == e.value.1)
      decreases |toks| - pos, 17
    {
      var e :- Expr();
      if !e.Num? {
        return Failure("constant expression expected");
      }
      return Success(e.val);
    }

    /** `({ stmt... })`, after its opening `({`: a block whose last statement is an
        expression statement, which gives the value. `stmts` are the statements of
        the block, once it and the `)` after it have been read (empty before). */
    method StatementExpr() returns (r: Result<Node>, ghost stmts: seq<Node>)
      requires Ready()
      modifies this
      ensures Valid()
      ensures r.Success? ==> ExprStep()
      ensures |stmts| > 0 ==> pos > 0 && toks[pos - 1].kind == CloseParen && (r.Success? <==> Last(stmts).ExprStmt?)
      ensures r.Success? ==> |stmts| > 0 && r.value == StmtExpr(stmts[..|stmts| - 1], Last(stmts).e)
      ensures var b := ExprStmtsAt(toks, Push(old(env)), old(pos)); b.Some? && |b.value.0| > 0 ==>
        && (r.Success? <==> toks[b.value.1].kind == CloseParen)
        && (r.Success? ==> stmts == b.value.0 && r.value == StmtExpr(stmts[..|stmts| - 1], Last(stmts).e) && pos == b.value.1 + 1)
      decreases |toks| - pos, 25
    {
      stmts := [];
      PushEnv();
      var block :- StmtsToBrace();
      :- Expect(CloseParen);
      PopEnv();
      stmts := block;
      var last := Last(block);
      if !last.ExprStmt? {
        r := Failure("statement expression returning void");
        return;
      }
      r := Success(StmtExpr(block[..|block| - 1], last.e));
    }

    /** The statements of a statement expression, up to and including its `}`. */
    method StmtsToBrace() returns (r: Result<seq<Node>>)
      requires Ready()
      modifies this
      ensures Valid()
      ensures r.Success? ==> StmtStep() && |r.value| > 0 && toks[pos - 1].kind == Punct('}')
      ensures var b := ExprStmtsAt(toks, old(env), old(pos)); b.Some? && b.value.0 != [] ==>
        r == Success(b.value.0) && pos == b.value.1 && env == old(env)
      decreases |toks| - pos, 24
    {
      ghost var b := ExprStmtsAt(toks, env, pos);
      var stmts: seq<Node> := [];
      while true
        invariant Ready() && old(pos) <= pos && ScopeKept() && Nested()
        invariant pos == old(pos) <==> stmts == []
        invariant b.Some? && b.value.0 != [] ==> env == old(env) && StmtsPending(toks, env, pos, b.value, stmts)
        decreases |toks| - pos
      {
        ghost var (i, before) := (pos, env);
        var item :- BraceItem(stmts);
        if b.Some? && b.value.0 != [] {
          PendingStep(toks, before, i, b.value, stmts, item, pos);
        }
        stmts := item.0;
        if item.1 {
          return Success(stmts);
        }
      }
    }

    /** One statement of a statement expression appended to those read before it,
        `done`, then the `}` that ends them if it follows; `r.value.1` tells
        whether it did. */
    method BraceItem(done: seq<Node>) returns (r: Result<(seq<Node>, bool)>)
      requires Ready()
      modifies this
      ensures Valid()
      ensures r.Success? ==> StmtStep() && |r.value.0| == |done| + 1 && r.value.0[..|done|] == done
      ensures r.Success? && r.value.1 ==> toks[pos - 1].kind == Punct('}')
      ensures PlainStmtStart(toks, old(env), old(pos)) ==>
        var e := CommaAt(toks, old(env), old(pos)); e.Some? && toks[e.value.1].kind == Punct(';') ==>
          && r.Success? && env == old(env) && r.value.0 == done + [ExprStmt(e.value.0)]
          && (r.value.1 <==> toks[e.value.1 + 1].kind == Punct('}'))
          && pos == if r.value.1 then e.value.1 + 2 else e.value.1 + 1
      decreases |toks| - pos, 23, 1
    {
      var s :- Stmt();
      var close := Consume(Punct('}'));
      return Success((done + [s], close));
    }

    // ---------------------------------------------------------- declarations

    /** One array length after its `[`, up to and including the `]`: a constant
        expression, or -1 for `[]`. */
    method ArrayDim() returns (r: Result<int>)
      requires Ready()
      modifies this
      ensures Valid()
      ensures r.Success? ==> ExprStep()
      ensures Agrees(DimAt(toks, old(env), old(pos)), r)
      decreases |toks| - pos, 18, 0
    {
      var close := Consume(Punct(']'));
      if close {
        return Success(-1);
      }
      var n :- ConstExpr();
      :- Expect(Punct(']'));
      return Success(n);
    }

    /** `[n]...` after a declarator's name: an array type per bracket, the first
        bracket outermost; `[]` gives length -1. */
    method ReadArray(base: Type) returns (r: Result<Type>, ghost dims: seq<int>)
      requires Ready()
      modifies this
      ensures Valid()
      ensures r.Success? ==> Ready() && old(pos) <= pos && env == old(env) && Nested()
      ensures r.Success? ==> r.value == ArrayOf(base, dims)
      ensures var a := DimsAt(toks, old(env), old(pos));
        a.Some? ==> r.Success? && dims == a.value.0 && pos == a.value.1
      decreases |toks| - pos, 18, 2
    {
      dims := [];
      var v: seq<int> := [];
      ghost var all := DimsAt(toks, env, pos);
      assert all.Some? ==> [] + all.value.0 == all.value.0;
      while true
        invariant Ready() && old(pos) <= pos && env == old(env) && Nested()
        invariant DimsRemain(toks, env, pos, all, v)
        decreases |toks| - pos
      {
        ghost var i := pos;
        var d :- NextDim();
        if d.None? {
          DimsEnd(toks, env, i, all, v);
          break;
        }
        DimsNext(toks, env, i, pos, all, v, d.value);
        v := v + [d.value];
      }
      var ty := NestArrays(base, v);
      dims := v;
      r := Success(ty);
    }

    /** One bracket of `[n]...`, or None, reading nothing, where the brackets end. */
    method NextDim() returns (r: Result<Option<int>>)
      requires Ready()
      modifies this
      ensures Valid()
      ensures r.Success? ==> Ready() && old(pos) <= pos && env == old(env) && Nested()
      ensures r == Success(None) <==> toks[old(pos)].kind != Punct('[')
      ensures r == Success(None) ==> pos == old(pos)
      ensures r.Success? && r.value.Some? ==> old(pos) < pos
      ensures var a := DimsAt(toks, old(env), old(pos));
        a.Some? && toks[old(pos)].kind == Punct('[') ==>
          && r.Success? && r.value.Some?
          && var rest := DimsAt(toks, old(env), pos);
             rest.Some? && a.value == ([r.value.value] + rest.value.0, rest.value.1)
      decreases |toks| - pos, 18, 1
    {
      var open := Consume(Punct('['));
      if !open {
        return Success(None);
      }
      var n :- ArrayDim();
      return Success(Some(n));
    }

    /** The name, its brackets and its initializer, or a parenthesised declarator
        built on a placeholder that the brackets after the `)` then fill. A missing
        base type (None) cannot be given brackets or be declared directly. */
    method DirectDecl(base: Option<Type>) returns (r: Result<Decl>)
      requires Ready()
      modifies this
      ensures Valid()
      ensures r.Success? ==> ExprStep() && base.Some?
      ensures r.Success? && toks[old(pos)].kind == Ident ==> r.value.name == toks[old(pos)].name
      ensures Agrees(DirectDeclAt(toks, old(env), base, old(pos)), r)
      decreases |toks| - pos, 19
    {
      var d :- DirectHead();
      r := DeclSuffix(d, base);
    }

    /** A name, declared with the placeholder as its type, or `( declarator )`
        with the declarator built on the placeholder. */
    method DirectHead() returns (r: Result<Decl>)
      requires Ready()
      modifies this
      ensures Valid()
      ensures r.Success? ==> ExprStep()
      ensures r.Success? && toks[old(pos)].kind == Ident ==> r.value == Decl(toks[old(pos)].name, Hole, None)
      ensures Agrees(HeadAt(toks, old(env), old(pos)), r)
      decreases |toks| - pos, 18
    {
      if toks[pos].kind == Ident {
        var t := Get();
        return Success(Decl(t.name, Hole, None));
      }
      var open := Consume(OpenParen);
      if !open {
        return Failure("bad direct-declarator");
      }
      var d :- Declarator(Some(Hole));
      :- Expect(CloseParen);
      return Success(d);
    }

    /** The brackets after a direct declarator, which give the type that fills its
        placeholder, then an optional `= initializer`. */
    method DeclSuffix(d: Decl, base: Option<Type>) returns (r: Result<Decl>)
      requires Ready()
      modifies this
      ensures Valid()
      ensures r.Success? ==> Ready() && old(pos) <= pos && env == old(env) && Nested()
      ensures r.Success? ==> base.Some? && r.value.name == d.name
      ensures Agrees(SuffixAt(toks, old(env), d, base, old(pos)), r)
      decreases |toks| - pos, 19
    {
      if base.None? {
        return Failure("unknown type name");
      }
      var res, dims := ReadArray(base.value);
      if res.Failure? {
        return Failure(res.error);
      }
      var filled := d.(ty := Fill(d.ty, Settled(res.value)));
      r := DeclInit(filled);
    }

    /** An optional `= initializer` after a declarator. */
    method DeclInit(d: Decl) returns (r: Result<Decl>)
      requires Ready()
      modifies this
      ensures Valid()
      ensures r.Success? ==> Ready() && old(pos) <= pos && env == old(env) && Nested()
      ensures r.Success? ==> r.value.name == d.name && r.value.ty == d.ty
      ensures Agrees(InitAt(toks, old(env), d, old(pos)), r)
      decreases |toks| - pos, 18
    {
      var eq := Consume(Punct('='));
      if !eq {
        return Success(d);
      }
      var init :- AssignExpr();
      return Success(d.(init := Some(init)));
    }

    /** A run of `*`, each making a pointer to the type so far. */
    method Stars(base: Option<Type>) returns (ty: Option<Type>)
      requires Ready()
      modifies this`pos
      ensures Ready() && old(pos) <= pos && toks[pos].kind != Punct('*')
      ensures forall i | old(pos) <= i < pos :: toks[i].kind == Punct('*')
      ensures ty == Pointers(base, pos - old(pos))
      ensures pos == old(pos) + StarsAt(toks, old(pos))
    {
      ty := base;
      while true
        invariant Ready() && old(pos) <= pos
        invariant forall i | old(pos) <= i < pos :: toks[i].kind == Punct('*')
        invariant ty == Pointers(base, pos - old(pos))
        invariant StarsAt(toks, old(pos)) == pos - old(pos) + StarsAt(toks, pos)
        decreases |toks| - pos
      {
        var star := Consume(Punct('*'));
        if !star {
          break;
        }
        ty := Some(PointerTo(ty));
      }
    }

    /** Pointer stars, then a direct declarator. */
    method Declarator(base: Option<Type>) returns (r: Result<Decl>)
      requires Ready()
      modifies this
      ensures Valid()
      ensures r.Success? ==> ExprStep()
      ensures Agrees(DeclaratorAt(toks, old(env), base, old(pos)), r)
      decreases |toks| - pos, 20
    {
      var ty := Stars(base);
      r := DirectDecl(ty);
    }

    /** A type and a declarator, ending in `;`: a struct member or a typedef. */
    method DeclarationType() returns (r: Result<Decl>)
      requires Ready()
      modifies this
      ensures Valid()
      ensures r.Success? ==> StmtStep()
      ensures Agrees(DeclarationAt(toks, old(env), old(pos)), r)
      ensures DeclarationAt(toks, old(env), old(pos)).Some? ==> env == old(env)
      decreases |toks| - pos, 21
    {
      var spec :- DeclSpecifiers();
      var d :- Declarator(spec);
      :- Expect(Punct(';'));
      return Success(d);
    }

    /** A local declaration: the variable is bound in the innermost scope and added
        to the function's locals, and `T x = e;` becomes the statement `x = e;`. */
    method Declaration() returns (r: Result<Node>)
      requires Ready()
      modifies this
      ensures Valid()
      ensures r.Success? ==> StmtStep()
      ensures r.Success? ==> |lvars| > 0 && var v := Last(lvars);
        && v.isLocal && FindVar(env, v.name) == Some(v)
        && (r.value.NullStmt? || (r.value.ExprStmt? && r.value.e.Binop? && r.value.e.op == Assign && r.value.e.lhs == VarRef(v)))
      ensures var p := DeclarationAt(toks, old(env), old(pos)); p.Some? ==>
        && (r.Success? <==> |old(env)| >= 2)
        && (r.Success? ==> var (d, v) := (p.value.0, Last(lvars));
              && pos == p.value.1 && v.name == d.name && v.ty == d.ty
              && r.value == if d.init.None? then NullStmt else ExprStmt(Binop(Assign, VarRef(v), d.init.value)))
      decreases |toks| - pos, 22, 0
    {
      var d :- DeclarationType();
      r := DeclareLocal(d);
    }

    /** Declare a local variable in the innermost scope, give it storage, and turn
        its initializer into an assignment to it. */
    method DeclareLocal(d: Decl) returns (r: Result<Node>)
      requires Valid()
      modifies this`nextVar, this`env, this`lvars
      ensures Valid() && |env| == |old(env)| && Pop(env) == Pop(old(env))
      ensures r.Success? <==> |env| >= 2
      ensures r.Success? ==> |lvars| > 0 && var v := Last(lvars);
        && v == Var(old(nextVar), d.name, d.ty, true, None)
        && lvars == old(lvars) + [v] && FindVar(env, v.name) == Some(v)
        && r.value == if d.init.None? then NullStmt else ExprStmt(Binop(Assign, VarRef(v), d.init.value))
    {
      var v := NewVar(d.ty, d.name, true, None);
      AddVar(v);
      :- AllocLocalStorage(v);
      if d.init.None? {
        return Success(NullStmt);
      }
      return Success(ExprStmt(Binop(Assign, VarRef(v), d.init.value)));
    }

    /** A parameter: a local whose array type decays to a pointer. */
    method ParamDeclaration() returns (r: Result<Var>)
      requires Ready()
      modifies this
      ensures Valid()
      ensures r.Success? ==> StmtStep()
      ensures r.Success? ==> r.value.isLocal && !r.value.ty.Ary? && r.value.id == nextVar - 1
      ensures var s := SpecifierAt(toks, old(env), old(pos)); s.Some? ==>
        var d := DeclaratorAt(toks, old(env), s.value.0, s.value.1); d.Some? ==>
          && r.Success? && pos == d.value.1 && env == old(env)
          && r.value.name == d.value.0.name && r.value.ty == Decay(d.value.0.ty)
      decreases |toks| - pos, 21
    {
      var spec :- DeclSpecifiers();
      var d :- Declarator(spec);
      var v := NewVar(Decay(d.ty), d.name, true, None);
      return Success(v);
    }

    /** A type: a typedef name, a type keyword, `typeof(expr)` or a struct. When the
        current token is an identifier that names no typedef, nothing is read and
        the type is None. */
    method DeclSpecifiers() returns (r: Result<Option<Type>>)
      requires Ready()
      modifies this
      ensures Valid()
      ensures r.Success? ==> Ready() && old(pos) <= pos && ScopeKept() && Nested()
      ensures r.Success? ==> (r.value.None? <==> pos == old(pos))
      ensures r.Success? && r.value.None? ==>
        toks[old(pos)].kind == Ident && FindTypedef(old(env), toks[old(pos)].name).None?
      ensures Agrees(SpecifierAt(toks, old(env), old(pos)), r)
      ensures SpecifierAt(toks, old(env), old(pos)).Some? ==> env == old(env)
      ensures toks[old(pos)].kind == KwStruct && r.Success? ==>
        && r.value.Some? && r.value.value.Struct?
        && (toks[old(pos) + 1].kind == Ident ==> FindTag(env, toks[old(pos) + 1].name) == Some(r.value.value.id))
      ensures toks[old(pos)].kind == KwTypeof && toks[old(pos) + 1].kind == OpenParen ==>
        var e := CommaAt(toks, old(env), old(pos) + 2);
        e.Some? ==>
          && (r.Success? <==> toks[e.value.1].kind == CloseParen)
          && (r.Success? ==> r.value == Some(typeOf(e.value.0)) && pos == e.value.1 + 1)
      ensures toks[old(pos)].kind !in {Ident, KwInt, KwChar, KwBool, KwVoid, KwStruct, KwTypeof} ==> r.Failure?
      decreases |toks| - pos, 18, 2
    {
      if toks[pos].kind == KwTypeof {
        r := TypeofSpecifier();
      } else if toks[pos].kind == KwStruct {
        r := StructType();
      } else {
        r := NamedSpecifier();
      }
    }

    /** `struct`, then the struct's tag and body: a struct type, which the tag then
        names. */
    method StructType() returns (r: Result<Option<Type>>)
      requires Ready() && toks[pos].kind == KwStruct
      modifies this
      ensures Valid()
      ensures r.Success? ==> Ready() && old(pos) < pos && ScopeKept() && Nested()
      ensures r.Success? ==> r.value.Some? && r.value.value.Struct?
      ensures r.Success? && toks[old(pos) + 1].kind == Ident ==>
        FindTag(env, toks[old(pos) + 1].name) == Some(r.value.value.id)
      decreases |toks| - pos, 18, 1
    {
      pos := pos + 1;
      var id :- StructSpecifier();
      return Success(Some(Struct(id)));
    }

    /** A typedef name or a type keyword; an identifier that names no typedef gives
        no type and is put back. */
    method NamedSpecifier() returns (r: Result<Option<Type>>)
      requires Ready()
      modifies this`pos
      ensures Valid()
      ensures r.Success? ==> Ready() && old(pos) <= pos
      ensures r.Success? ==> (r.value.None? <==> pos == old(pos))
      ensures r.Success? && r.value.None? ==>
        toks[old(pos)].kind == Ident && FindTypedef(env, toks[old(pos)].name).None?
      ensures Agrees(SpecifierAt(toks, env, old(pos)), r)
      ensures toks[old(pos)].kind !in {Ident, KwInt, KwChar, KwBool, KwVoid} ==> r.Failure?
    {
      var t := Get();
      if t.kind == Ident {
        var ty := FindTypedef(env, t.name);
        if ty.None? {
          Unget(t);
        }
        return Success(ty);
      }
      if t.kind == KwVoid {
        return Success(Some(Void));
      }
      if t.kind == KwBool {
        return Success(Some(Bool));
      }
      if t.kind == KwChar {
        return Success(Some(Char));
      }
      if t.kind == KwInt {
        return Success(Some(Int));
      }
      return Failure("typename expected");
    }

    /** `typeof ( expr )`: the type of the expression. */
    method TypeofSpecifier() returns (r: Result<Option<Type>>)
      requires Ready() && toks[pos].kind == KwTypeof
      modifies this
      ensures Valid()
      ensures r.Success? ==> ExprStep() && r.value.Some?
      ensures toks[old(pos) + 1].kind != OpenParen ==> r.Failure?
      ensures toks[old(pos) + 1].kind == OpenParen ==>
        var e := CommaAt(toks, old(env), old(pos) + 2);
        e.Some? ==>
          && (r.Success? <==> toks[e.value.1].kind == CloseParen)
          && (r.Success? ==> r.value == Some(typeOf(e.value.0)) && pos == e.value.1 + 1)
      decreases |toks| - pos, 18, 1
    {
      pos := pos + 1;
      var e: Node;
      :- Expect(OpenParen);
      e :- ExprThen(CloseParen);
      return Success(Some(typeOf(e)));
    }
  
    /** `struct [tag] [{ member; ... }]`, after `struct`. A tag already visible names
        the same struct, which a body then completes (or redefines) in place; any
        other struct is new. */
    method StructSpecifier() returns (r: Result<nat>)
      requires Ready()
      modifies this
      ensures Valid()
      ensures r.Success? ==> Ready() && old(pos) <= pos && ScopeKept() && Nested()
      ensures r.Success? && toks[old(pos)].kind == Ident ==>
        var tag := toks[old(pos)].name;
        && FindTag(env, tag) == Some(r.value)
        && r.value == (if FindTag(old(env), tag).Some? then FindTag(old(env), tag).value else old(nextStruct))
      ensures r.Success? && toks[old(pos)].kind != Ident ==>
        r.value == old(nextStruct) && StructAt(structs, r.value).members.Some?
      decreases |toks| - pos, 18
    {
      var t := toks[pos];
      var named := Consume(Ident);
      var tag := if named then Some(t.name) else None;
      var id := StructEntry(tag);
      :- OptStructBody(id);
      r := DeclareStruct(tag, id);
    }

    /** The body of struct `id`, if a `{` follows. */
    method OptStructBody(id: nat) returns (o: Outcome)
      requires Ready()
      modifies this
      ensures Valid()
      ensures o.Pass? ==> Ready() && old(pos) <= pos && ScopeKept() && Nested()
      ensures toks[old(pos)].kind != Punct('{') ==>
        o.Pass? && pos == old(pos) && env == old(env) && structs == old(structs)
      ensures toks[old(pos)].kind == Punct('{') && o.Pass? ==> StructAt(structs, id).members.Some?
      decreases |toks| - pos, 17
    {
      var body := Consume(Punct('{'));
      if body {
        var ds := StructBody(id);
        if ds.Failure? {
          return Fail(ds.error);
        }
      }
      return Pass;
    }

    /** The end of a struct specifier: a struct with neither tag nor body is an
        error; a tag is bound to the struct in the innermost scope. */
    method DeclareStruct(tag: Option<string>, id: nat) returns (r: Result<nat>)
      requires Valid()
      modifies this`env
      ensures Valid() && |env| == |old(env)| && Pop(env) == Pop(old(env))
      ensures r.Success? <==> tag.Some? || StructAt(structs, id).members.Some?
      ensures r.Success? ==> r.value == id
      ensures tag.Some? ==> FindTag(env, tag.value) == Some(id)
    {
      if tag.None? && StructAt(structs, id).members.None? {
        return Failure("bad struct definition");
      }
      if tag.Some? {
        FindDeclaredTag(env, tag.value, id);
        env := DeclareTag(env, tag.value, id);
      }
      return Success(id);
    }

    /** The arena entry of a struct: the one its tag already names, or a new,
        incomplete one. */
    method StructEntry(tag: Option<string>) returns (id: nat)
      modifies this`structs, this`nextStruct
      ensures tag.Some? && FindTag(env, tag.value).Some? ==>
        id == FindTag(env, tag.value).value && structs == old(structs) && nextStruct == old(nextStruct)
      ensures !(tag.Some? && FindTag(env, tag.value).Some?) ==>
        && id == old(nextStruct) && nextStruct == id + 1
        && structs == old(structs)[id := NewStruct]
    {
      if tag.Some? {
        var found := FindTag(env, tag.value);
        if found.Some? {
          return found.value;
        }
      }
      id := nextStruct;
      nextStruct := nextStruct + 1;
      structs := structs[id := NewStruct];
    }

    /** The members of struct `id`, after its `{`: the struct counts as defined
        (with no members yet) while they are parsed, and is laid out at the `}`. */
    method StructBody(id: nat) returns (r: Result<seq<Decl>>)
      requires Ready()
      modifies this
      ensures Valid()
      ensures r.Success? ==> Ready() && old(pos) < pos && ScopeKept() && Nested()
      ensures r.Success? ==> StructAt(structs, id).members.Some? && |StructAt(structs, id).members.value| == |r.value|
      ensures r.Success? ==> var m := StructAt(structs, id).members.value;
        forall k | 0 <= k < |r.value| :: m[k].name == r.value[k].name && m[k].ty == r.value[k].ty
      ensures var a := MembersAt(toks, old(env), old(pos));
        a.Some? && r.Success? ==> r.value == a.value.0 && pos == a.value.1
      decreases |toks| - pos, 24
    {
      structs := structs[id := StructAt(structs, id).(members := Some([]))];
      var ds :- MemberDecls();
      :- FixLayout(id, ds);
      return Success(ds);
    }

    /** The member declarations of a struct body, up to and including its `}`. */
    method MemberDecls() returns (r: Result<seq<Decl>>)
      requires Ready()
      modifies this
      ensures Valid()
      ensures r.Success? ==> StmtStep()
      ensures Agrees(MembersAt(toks, old(env), old(pos)), r)
      decreases |toks| - pos, 23
    {
      var ds: seq<Decl> := [];
      ghost var all := MembersAt(toks, env, pos);
      assert all.Some? ==> [] + all.value.0 == all.value.0;
      while true
        invariant Ready() && old(pos) <= pos && ScopeKept() && Nested()
        invariant all.Some? ==> env == old(env)
        invariant MembersRemain(toks, old(env), pos, all, ds)
        decreases |toks| - pos
      {
        ghost var i := pos;
        var d :- Member();
        if d.None? {
          MembersEnd(toks, old(env), i, pos, all, ds);
          return Success(ds);
        }
        if all.Some? {
          MembersNext(toks, old(env), i, pos, all, ds, d.value);
        }
        ds := ds + [d.value];
      }
    }

    /** One member declaration of a struct body, or None, once the closing `}` has
        been read. */
    method Member() returns (r: Result<Option<Decl>>)
      requires Ready()
      modifies this
      ensures Valid()
      ensures r.Success? ==> StmtStep()
      ensures r == Success(None) <==> toks[old(pos)].kind == Punct('}')
      ensures r == Success(None) ==> env == old(env) && MembersAt(toks, old(env), old(pos)) == Some(([], pos))
      ensures var m := MembersAt(toks, old(env), old(pos));
        m.Some? && toks[old(pos)].kind != Punct('}') ==>
          && r.Success? && r.value.Some? && env == old(env)
          && var rest := MembersAt(toks, old(env), pos);
             rest.Some? && m.value == ([r.value.value] + rest.value.0, rest.value.1)
      decreases |toks| - pos, 22
    {
      var close := Consume(Punct('}'));
      if close {
        return Success(None);
      }
      if MembersAt(toks, env, pos).Some? {
        MembersStep(toks, env, pos);
      }
      var d: Decl;
      d :- DeclarationType();
      return Success(Some(d));
    }

    /** The layout step of a struct body: the members in declaration order, placed
        one after the other from the struct's alignment so far. */
    method FixLayout(id: nat, ds: seq<Decl>) returns (o: Outcome)
      modifies this`structs
      ensures o.Pass? <==> PositiveAligns(MemberSlots(ds, old(structs))) && (StructAt(old(structs), id).align > 0 || |ds| > 0)
      ensures o.Pass? ==> structs == old(structs)[id := Layout(ds, old(structs), StructAt(old(structs), id).align)]
      ensures o.Fail? ==> structs == old(structs)
    {
      var slots := MemberSlots(ds, structs);
      var align0 := StructAt(structs, id).align;
      if !PositiveAligns(slots) || (align0 <= 0 && |slots| == 0) {
        return Fail("struct member with no alignment");
      }
      var offsets, size, align := FixStructOffsets(slots, align0);
      structs := structs[id := StructDef(Some(PlacedMembers(ds, offsets)), size, align)];
      return Pass;
    }

    // ------------------------------------------------------------ statements

    method ExpressionStmt() returns (r: Result<Node>)
      requires Ready()
      modifies this
      ensures Valid()
      ensures r.Success? ==> ExprStep() && r.value.ExprStmt?
      ensures var e := CommaAt(toks, old(env), old(pos)); e.Some? ==>
        && (r.Success? <==> toks[e.value.1].kind == Punct(';'))
        && (r.Success? ==> r.value == ExprStmt(e.value.0) && pos == e.value.1 + 1)
      decreases |toks| - pos, 18
    {
      var e :- ExprThen(Punct(';'));
      return Success(ExprStmt(e));
    }

    /** `{ stmt... }`, after its `{`. Where the block is expression statements
        only, it holds exactly those `ExprStmtsAt` reads. */
    method CompoundStmt() returns (r: Result<Node>)
      requires Ready()
      modifies this
      ensures Valid()
      ensures r.Success? ==> StmtStep() && r.value.CompStmt? && AllJumpTo(r.value.block, breaks)
      ensures var b := ExprStmtsAt(toks, old(env), old(pos)); b.Some? ==>
        r == Success(CompStmt(b.value.0)) && pos == b.value.1 && env == old(env)
      decreases |toks| - pos, 24
    {
      ghost var b := ExprStmtsAt(toks, env, pos);
      var stmts: seq<Node> := [];
      while true
        invariant Ready() && old(pos) <= pos && ScopeKept() && Nested()
        invariant AllJumpTo(stmts, breaks)
        invariant b.Some? ==> env == old(env) && StmtsRemain(toks, env, pos, b.value, stmts)
        decreases |toks| - pos
      {
        ghost var i := pos;
        var close := Consume(Punct('}'));
        if close {
          if b.Some? {
            RemainClose(toks, env, i, b.value, stmts);
          }
          return Success(CompStmt(stmts));
        }
        stmts :- BlockItem(stmts, b);
      }
    }

    /** One statement of a block appended to those read before it, `done`; where
        `done` and the statements still to read make up the reading `whole`, the
        statement read is the next one of it. */
    method BlockItem(done: seq<Node>, ghost whole: Option<(seq<Node>, nat)>) returns (r: Result<seq<Node>>)
      requires Ready() && toks[pos].kind != Punct('}')
      modifies this
      ensures Valid()
      ensures r.Success? ==> StmtStep() && |r.value| == |done| + 1 && r.value[..|done|] == done
      ensures r.Success? && AllJumpTo(done, breaks) ==> AllJumpTo(r.value, breaks)
      ensures whole.Some? && StmtsRemain(toks, old(env), old(pos), whole.value, done) ==>
        r.Success? && env == old(env) && StmtsRemain(toks, env, pos, whole.value, r.value)
      decreases |toks| - pos, 23, 1
    {
      ghost var remain := whole.Some? && StmtsRemain(toks, env, pos, whole.value, done);
      ghost var x: Node, k: nat;
      if remain {
        x, k := RemainStep(toks, env, pos, whole.value, done);
      }
      var s :- Stmt();
      if remain {
        assert s == ExprStmt(x) && pos == k + 1 && env == old(env);
      }
      assert (done + [s])[..|done|] == done;
      return Success(done + [s]);
    }

    /** One statement. `break` targets the innermost loop or switch and is fatal
        outside them; `continue` is fatal outside a loop and also targets the
        innermost loop or switch; `case` is fatal outside a switch. */
    method Stmt() returns (r: Result<Node>)
      requires Ready()
      modifies this
      ensures Valid()
      ensures r.Success? ==> StmtStep() && JumpsTo(r.value, breaks)
      ensures toks[old(pos)].kind == KwBreak ==> (r.Success? <==> |old(breaks)| > 0)
      ensures toks[old(pos)].kind == KwContinue ==> (r.Success? <==> |old(continues)| > 0)
      ensures toks[old(pos)].kind == KwCase && |old(switches)| == 0 ==> r.Failure?
      ensures r.Success? ==> BuiltBy(toks[old(pos)].kind, r.value)
      ensures toks[old(pos)].kind == Punct(';') ==> r == Success(NullStmt) && pos == old(pos) + 1
      ensures PlainStmtStart(toks, old(env), old(pos)) ==> var e := CommaAt(toks, old(env), old(pos)); e.Some? ==>
        && (r.Success? <==> toks[e.value.1].kind == Punct(';'))
        && (r.Success? ==> r.value == ExprStmt(e.value.0) && pos == e.value.1 + 1 && env == old(env))
      ensures r.Success? ==> StmtRead(toks, old(env), old(pos), r.value, pos)
      decreases |toks| - pos, 23, 0
    {
      var k := toks[pos].kind;
      if k in {KwIf, KwFor, KwWhile, KwDo, KwSwitch} {
        r := ControlStmt();
      } else if k in {KwTypedef, KwCase, KwReturn, Punct('{')} {
        r := KeywordStmt();
      } else if k in {KwBreak, KwContinue} {
        r := JumpStmt();
      } else {
        ghost var (e0, p0) := (env, pos);
        r := SimpleStmt();
        if r.Success? {
          SimpleStmtRead(toks, e0, p0, r.value, pos);
        }
      }
    }

    /** `break;` or `continue;`, which target the innermost loop or switch. */
    method JumpStmt() returns (r: Result<Node>)
      requires Ready() && toks[pos].kind in {KwBreak, KwContinue}
      modifies this`pos
      ensures Valid()
      ensures r.Success? ==> StmtStep() && JumpsTo(r.value, breaks)
      ensures toks[old(pos)].kind == KwBreak ==> (r.Success? <==> |breaks| > 0)
      ensures toks[old(pos)].kind == KwContinue ==> (r.Success? <==> |continues| > 0)
      ensures r.Success? ==> BuiltBy(toks[old(pos)].kind, r.value) && pos == old(pos) + 1
      ensures r.Success? ==> StmtRead(toks, old(env), old(pos), r.value, pos)
    {
      assert SimpleStmtAt(toks, env, pos).None?;
      if toks[pos].kind == KwBreak {
        if |breaks| == 0 {
          return Failure("stray break");
        }
        pos := pos + 1;
        return Success(Break(Last(breaks)));
      }
      if |continues| == 0 {
        return Failure("stray continue");
      }
      pos := pos + 1;
      return Success(Continue(Last(breaks)));
    }

    /** The statements that start with no keyword: `;`, a declaration, or an
        expression followed by `;`. */
    method SimpleStmt() returns (r: Result<Node>)
      requires Ready() && toks[pos].kind !in {KwIf, KwFor, KwWhile, KwDo, KwSwitch, KwTypedef, KwCase, KwReturn, Punct('{'), KwBreak, KwContinue}
      modifies this
      ensures Valid()
      ensures r.Success? ==> StmtStep() && JumpsTo(r.value, breaks)
      ensures toks[old(pos)].kind == Punct(';') ==> r == Success(NullStmt) && pos == old(pos) + 1
      ensures PlainStmtStart(toks, old(env), old(pos)) ==> var e := CommaAt(toks, old(env), old(pos)); e.Some? ==>
        && (r.Success? <==> toks[e.value.1].kind == Punct(';'))
        && (r.Success? ==> r.value == ExprStmt(e.value.0) && pos == e.value.1 + 1 && env == old(env))
      ensures old(IsTypename()) ==> var p := DeclarationAt(toks, old(env), old(pos)); p.Some? ==>
        && (r.Success? <==> |old(env)| >= 2)
        && (r.Success? ==>
              && |lvars| > 0 && pos == p.value.1
              && r.value == if p.value.0.init.None? then NullStmt else ExprStmt(Binop(Assign, VarRef(Last(lvars)), p.value.0.init.value)))
      decreases |toks| - pos, 22, 1
    {
      if toks[pos].kind == Punct(';') {
        pos := pos + 1;
        return Success(NullStmt);
      } else if IsTypename() {
        r := Declaration();
      } else {
        r := ExpressionStmt();
      }
    }

    /** The statements that branch or loop. */
    method ControlStmt() returns (r: Result<Node>)
      requires Ready() && toks[pos].kind in {KwIf, KwFor, KwWhile, KwDo, KwSwitch}
      modifies this
      ensures Valid()
      ensures r.Success? ==> StmtStep() && JumpsTo(r.value, breaks)
      ensures r.Success? ==> BuiltBy(toks[old(pos)].kind, r.value)
      ensures r.Success? ==> StmtRead(toks, old(env), old(pos), r.value, pos)
      decreases |toks| - pos, 21
    {
      assert SimpleStmtAt(toks, env, pos).None?;
      var k := toks[pos].kind;
      if k == KwIf {
        ghost var thenAt, elseAt, elseEnv;
        r, thenAt, elseAt, elseEnv := IfStmt();
      } else if k == KwFor {
        ghost var condAt, incAt, hEnv, bodyAt;
        r, condAt, incAt, hEnv, bodyAt := ForStmt();
      } else if k == KwWhile {
        ghost var bodyAt;
        r, bodyAt := WhileStmt();
      } else if k == KwDo {
        ghost var bodyAt, condAt;
        r, bodyAt, condAt := DoStmt();
      } else {
        ghost var bodyAt;
        r, bodyAt := SwitchStmt();
      }
    }

    /** The other statements that start with a keyword or a brace. */
    method KeywordStmt() returns (r: Result<Node>)
      requires Ready() && toks[pos].kind in {KwTypedef, KwCase, KwReturn, Punct('{')}
      modifies this
      ensures Valid()
      ensures r.Success? ==> StmtStep() && JumpsTo(r.value, breaks)
      ensures toks[old(pos)].kind == KwCase && |old(switches)| == 0 ==> r.Failure?
      ensures r.Success? ==> BuiltBy(toks[old(pos)].kind, r.value)
      ensures r.Success? ==> StmtRead(toks, old(env), old(pos), r.value, pos)
      decreases |toks| - pos, 21
    {
      assert SimpleStmtAt(toks, env, pos).None?;
      var k := toks[pos].kind;
      if k == KwTypedef {
        r := TypedefStmt();
      } else if k == KwCase {
        ghost var bodyAt;
        r, bodyAt := CaseStmt();
      } else if k == KwReturn {
        r := ReturnStmt();
      } else {
        r := BlockStmt();
      }
    }

    /** `return expr;`, after `return`. */
    method ReturnStmt() returns (r: Result<Node>)
      requires Ready() && toks[pos].kind == KwReturn
      modifies this
      ensures Valid()
      ensures r.Success? ==> StmtStep() && env == old(env) && r.value.Return?
      ensures var e := CommaAt(toks, old(env), old(pos) + 1); e.Some? ==>
        && (r.Success? <==> toks[e.value.1].kind == Punct(';'))
        && (r.Success? ==> r.value == Return(e.value.0) && pos == e.value.1 + 1)
      decreases |toks| - pos, 20
    {
      pos := pos + 1;
      var e :- ExprThen(Punct(';'));
      return Success(Return(e));
    }

    /** A block, after its `{`: its declarations go in a scope of its own. */
    method BlockStmt() returns (r: Result<Node>)
      requires Ready() && toks[pos].kind == Punct('{')
      modifies this
      ensures Valid()
      ensures r.Success? ==> StmtStep() && env == old(env) && r.value.CompStmt? && JumpsTo(r.value, breaks)
      ensures var b := ExprStmtsAt(toks, Push(old(env)), old(pos) + 1); b.Some? ==>
        r == Success(CompStmt(b.value.0)) && pos == b.value.1
      decreases |toks| - pos, 20
    {
      pos := pos + 1;
      PushEnv();
      assert Pop(env) == old(env);
      var block :- CompoundStmt();
      AllJumpToBlock(block.block, breaks);
      PopEnv();
      assert env == old(env);
      return Success(block);
    }

    /** `typedef T declarator;`, after `typedef`: binds the name in the innermost scope. */
    method TypedefStmt() returns (r: Result<Node>)
      requires Ready() && toks[pos].kind == KwTypedef
      modifies this
      ensures Valid()
      ensures r.Success? ==> StmtStep() && r.value == NullStmt
      ensures var p := DeclarationAt(toks, old(env), old(pos) + 1); p.Some? ==>
        && r.Success? && pos == p.value.1
        && env == DeclareTypedef(old(env), p.value.0.name, Some(p.value.0.ty))
        && FindTypedef(env, p.value.0.name) == Some(p.value.0.ty)
      decreases |toks| - pos, 20
    {
      pos := pos + 1;
      var d :- DeclarationType();
      BindTypedef(d);
      return Success(NullStmt);
    }

    /** Bind the name of `d` to its type as a typedef in the innermost scope. */
    method BindTypedef(d: Decl)
      requires Valid()
      modifies this`env
      ensures Valid() && env == DeclareTypedef(old(env), d.name, Some(d.ty))
      ensures FindTypedef(env, d.name) == Some(d.ty)
    {
      FindDeclaredTypedef(env, d.name, Some(d.ty));
      env := DeclareTypedef(env, d.name, Some(d.ty));
    }

    /** `( expr )`: the condition of `if`, `while`, `do` and `switch`. */
    method ParenExpr() returns (r: Result<Node>)
      requires Ready()
      modifies this
      ensures Valid()
      ensures r.Success? ==> ExprStep()
      ensures toks[old(pos)].kind != OpenParen ==> r.Failure?
      ensures toks[old(pos)].kind == OpenParen ==>
        var e := CommaAt(toks, old(env), old(pos) + 1); e.Some? ==>
          && (r.Success? <==> toks[e.value.1].kind == CloseParen)
          && (r.Success? ==> r.value == e.value.0 && pos == e.value.1 + 1)
      ensures var p := ParenAt(toks, old(env), old(pos)); p.Some? ==> r == Success(p.value.0) && pos == p.value.1
      decreases |toks| - pos, 18
    {
      var e: Node;
      :- Expect(OpenParen);
      e :- ExprThen(CloseParen);
      return Success(e);
    }

    /** The keyword of `if`, `while` or `switch`, then its parenthesised
        condition. */
    method KeywordParen() returns (r: Result<Node>)
      requires Ready() && toks[pos].kind != Eof
      modifies this
      ensures Valid()
      ensures r.Success? ==> ExprStep()
      ensures toks[old(pos) + 1].kind != OpenParen ==> r.Failure?
      ensures toks[old(pos) + 1].kind == OpenParen ==>
        var e := CommaAt(toks, old(env), old(pos) + 2); e.Some? ==>
          && (r.Success? <==> toks[e.value.1].kind == CloseParen)
          && (r.Success? ==> r.value == e.value.0 && pos == e.value.1 + 1)
      ensures var p := ParenAt(toks, old(env), old(pos) + 1); p.Some? ==> r == Success(p.value.0) && pos == p.value.1
      decreases |toks| - pos, 19, 0
    {
      pos := pos + 1;
      r := ParenExpr();
    }

    /** `if (cond) then-stmt [else else-stmt]`; the then-statement starts at
        `thenAt`, `elseAt` is where it ends, which is where an `else` would
        start, and `elseEnv` the scope it leaves, in which the else-statement is
        read. */
    method IfStmt() returns (r: Result<Node>, ghost thenAt: nat, ghost elseAt: nat, ghost elseEnv: Env)
      requires Ready() && toks[pos].kind == KwIf
      modifies this
      ensures Valid()
      ensures r.Success? ==> StmtStep() && r.value.If? && JumpsTo(r.value, breaks)
      ensures toks[old(pos) + 1].kind != OpenParen ==> r.Failure?
      ensures var p := ParenAt(toks, old(env), old(pos) + 1); p.Some? && r.Success? ==> r.value.cond == p.value.0 && thenAt == p.value.1
      ensures r.Success? ==> r.value.If? && IfRead(toks, old(env), thenAt, r.value, elseAt, elseEnv, pos)
      decreases |toks| - pos, 20
    {
      thenAt, elseAt, elseEnv := pos, pos, env;
      var c :- KeywordParen();
      thenAt := pos;
      r, elseAt, elseEnv := IfBranches(c);
    }

    /** The branches of an `if` whose condition `c` has been read; `elseAt` is
        where the then-statement ends and `elseEnv` the scope it leaves. */
    method IfBranches(c: Node) returns (r: Result<Node>, ghost elseAt: nat, ghost elseEnv: Env)
      requires Ready()
      modifies this
      ensures Valid()
      ensures r.Success? ==> StmtStep() && r.value.If? && r.value.cond == c && JumpsTo(r.value, breaks)
      ensures r.Success? ==> r.value.If? && IfRead(toks, old(env), old(pos), r.value, elseAt, elseEnv, pos)
      decreases |toks| - pos, 24
    {
      elseAt, elseEnv := pos, env;
      var thenS :- Stmt();
      elseAt, elseEnv := pos, env;
      var elseS :- ElseClause();
      return Success(If(c, thenS, elseS)), elseAt, elseEnv;
    }

    /** The optional `else stmt` of an `if`. */
    method ElseClause() returns (r: Result<Option<Node>>)
      requires Ready()
      modifies this
      ensures Valid()
      ensures r.Success? ==> Ready() && old(pos) <= pos && ScopeKept() && Nested()
      ensures r.Success? && r.value.Some? ==> JumpsTo(r.value.value, breaks)
      ensures toks[old(pos)].kind != KwElse ==> r == Success(None) && pos == old(pos) && env == old(env)
      ensures toks[old(pos)].kind == KwElse && r.Success? ==> r.value.Some? && StmtRead(toks, old(env), old(pos) + 1, r.value.value, pos)
      decreases |toks| - pos, 19
    {
      var hasElse := Consume(KwElse);
      if !hasElse {
        return Success(None);
      }
      var elseS :- Stmt();
      return Success(Some(elseS));
    }

    /** The first clause of a `for` header: a declaration, an expression statement
        or just `;`. */
    method ForInit() returns (r: Result<Option<Node>>)
      requires Ready()
      modifies this
      ensures Valid()
      ensures r.Success? ==> StmtStep()
      ensures old(IsTypename()) ==> var p := DeclarationAt(toks, old(env), old(pos)); p.Some? ==>
        && (r.Success? <==> |old(env)| >= 2)
        && (r.Success? ==> r.value.Some? && pos == p.value.1)
      ensures !old(IsTypename()) && toks[old(pos)].kind == Punct(';') ==> r == Success(None) && pos == old(pos) + 1
      ensures !old(IsTypename()) ==> var e := CommaAt(toks, old(env), old(pos)); e.Some? ==>
        && (r.Success? <==> toks[e.value.1].kind == Punct(';'))
        && (r.Success? ==> r.value == Some(ExprStmt(e.value.0)) && pos == e.value.1 + 1 && env == old(env))
      decreases |toks| - pos, 23
    {
      if IsTypename() {
        var d :- Declaration();
        return Success(Some(d));
      }
      var semi := Consume(Punct(';'));
      if semi {
        return Success(None);
      }
      var e :- ExpressionStmt();
      return Success(Some(e));
    }

    /** An optional expression, then `close`: the condition and the step of a
        `for` header. */
    method ForClause(close: char) returns (r: Result<Option<Node>>)
      requires Ready()
      modifies this
      ensures Valid()
      ensures r.Success? ==> ExprStep()
      ensures toks[old(pos)].kind == Punct(close) ==> r == Success(None) && pos == old(pos) + 1
      ensures r.Success? ==> (r.value.None? <==> toks[old(pos)].kind == Punct(close))
      ensures toks[old(pos)].kind != Punct(close) ==> var e := CommaAt(toks, old(env), old(pos)); e.Some? ==>
        && (r.Success? <==> toks[e.value.1].kind == Punct(close))
        && (r.Success? ==> r.value == Some(e.value.0) && pos == e.value.1 + 1)
      decreases |toks| - pos, 18
    {
      var empty := Consume(Punct(close));
      if empty {
        return Success(None);
      }
      var e :- ExprThen(Punct(close));
      return Success(Some(e));
    }

    /** `init; cond; inc)`, the rest of a `for` header after its `(`. Once the
        header has been read, `condAt` and `incAt` are where its condition and its
        step start; both are read in the scope the initializer leaves. */
    method ForHeader() returns (r: Result<(Option<Node>, Option<Node>, Option<Node>)>, ghost condAt: nat, ghost incAt: nat)
      requires Ready()
      modifies this
      ensures Valid()
      ensures r.Success? ==> StmtStep()
      ensures r.Success? ==> ForHeaderRead(toks, old(pos), old(env), r.value, condAt, incAt, env, pos)
      decreases |toks| - pos, 24
    {
      condAt, incAt := pos, pos;
      ghost var plain := PlainStmtStart(toks, env, pos);
      assert plain ==> !IsTypename();
      var init :- ForInit();
      condAt := pos;
      var steps;
      steps, incAt :- ForSteps();
      return Success((init, steps.0, steps.1)), condAt, incAt;
    }

    /** `cond; inc)`, the condition and the step of a `for` header, each of them
        optional; the step starts at `incAt`. */
    method ForSteps() returns (r: Result<(Option<Node>, Option<Node>)>, ghost incAt: nat)
      requires Ready()
      modifies this
      ensures Valid()
      ensures r.Success? ==> ExprStep()
      ensures r.Success? ==> old(pos) < incAt < pos
      ensures r.Success? ==> (r.value.0.None? <==> toks[old(pos)].kind == Punct(';'))
      ensures r.Success? ==> (r.value.1.None? <==> toks[incAt].kind == CloseParen)
      ensures r.Success? && r.value.1.None? ==> pos == incAt + 1
      ensures r.Success? && r.value.0.Some? ==> var e := CommaAt(toks, env, old(pos));
        e.Some? ==> r.value.0.value == e.value.0 && incAt == e.value.1 + 1
      ensures r.Success? && r.value.1.Some? ==> var e := CommaAt(toks, env, incAt);
        e.Some? ==> r.value.1.value == e.value.0 && pos == e.value.1 + 1
      decreases |toks| - pos, 19
    {
      incAt := pos;
      var cond :- ForClause(';');
      incAt := pos;
      var inc :- ForClause(')');
      return Success((cond, inc)), incAt;
    }

    /** `for (init; cond; inc) body`: the header opens a scope, and the loop is the
        target of the `break`s and `continue`s inside it. The condition and the
        step start at `condAt` and `incAt` and are read in the scope `hEnv` that
        the initializer leaves, and so is the body, which starts at `bodyAt`. */
    method ForStmt() returns (r: Result<Node>, ghost condAt: nat, ghost incAt: nat, ghost hEnv: Env, ghost bodyAt: nat)
      requires Ready() && toks[pos].kind == KwFor
      modifies this
      ensures Valid()
      ensures r.Success? ==> StmtStep() && env == old(env) && r.value.For? && JumpsTo(r.value, breaks)
      ensures toks[old(pos) + 1].kind != OpenParen ==> r.Failure?
      ensures r.Success? ==> ForHeaderRead(toks, old(pos) + 2, Push(old(env)), (r.value.init, r.value.loopCond, r.value.inc), condAt, incAt, hEnv, bodyAt)
      ensures r.Success? ==> StmtRead(toks, hEnv, bodyAt, r.value.body, pos)
      decreases |toks| - pos, 20
    {
      condAt, incAt, hEnv, bodyAt := pos, pos, env, pos;
      var id := NewNodeId();
      if toks[pos + 1].kind != OpenParen {
        return Failure("( expected"), condAt, incAt, hEnv, bodyAt;
      }
      pos := pos + 2;
      env := Push(env);
      var loop;
      loop, condAt, incAt, hEnv, bodyAt :- ForLoop(id);
      PopEnv();
      return Success(loop), condAt, incAt, hEnv, bodyAt;
    }

    /** The header after `for (` and the body, with the loop `id` as the target of
        the `break`s and `continue`s in both. */
    method ForLoop(id: nat) returns (r: Result<Node>, ghost condAt: nat, ghost incAt: nat, ghost hEnv: Env, ghost bodyAt: nat)
      requires Ready()
      modifies this
      ensures Valid()
      ensures r.Success? ==> StmtStep() && r.value.For? && r.value.id == id && JumpsTo(r.value, breaks)
      ensures r.Success? ==> ForHeaderRead(toks, old(pos), old(env), (r.value.init, r.value.loopCond, r.value.inc), condAt, incAt, hEnv, bodyAt)
      ensures r.Success? ==> StmtRead(toks, hEnv, bodyAt, r.value.body, pos)
      decreases |toks| - pos, 25
    {
      breaks := breaks + [id];
      continues := continues + [id];
      var header;
      hEnv, bodyAt := env, pos;
      header, condAt, incAt :- ForHeader();
      hEnv, bodyAt := env, pos;
      r := ForBody(id, header);
    }

    /** The body of a `for` loop with header `h`, after which the loop is closed. */
    method ForBody(id: nat, h: (Option<Node>, Option<Node>, Option<Node>)) returns (r: Result<Node>)
      requires Ready() && |breaks| > 0 && |continues| > 0
      modifies this
      ensures Valid()
      ensures r.Success? ==> Ready() && old(pos) < pos && ScopeKept()
      ensures r.Success? ==> breaks == old(breaks)[..|old(breaks)| - 1] && continues == old(continues)[..|old(continues)| - 1]
      ensures r.Success? ==> funcs == old(funcs) && firstLocals == old(firstLocals) && CasesAdded(old(switches), switches)
      ensures r.Success? ==> r.value.For? && r.value == For(id, h.0, h.1, h.2, r.value.body) && JumpsTo(r.value.body, old(breaks))
      ensures r.Success? ==> StmtRead(toks, old(env), old(pos), r.value.body, pos)
      decreases |toks| - pos, 24
    {
      var body :- Stmt();
      breaks := breaks[..|breaks| - 1];
      continues := continues[..|continues| - 1];
      return Success(For(id, h.0, h.1, h.2, body));
    }

    /** `while (cond) body` is a `for` loop with only a condition; it opens no
        scope. The body starts at `bodyAt`. */
    method WhileStmt() returns (r: Result<Node>, ghost bodyAt: nat)
      requires Ready() && toks[pos].kind == KwWhile
      modifies this
      ensures Valid()
      ensures r.Success? ==> StmtStep() && JumpsTo(r.value, breaks)
      ensures r.Success? ==> r.value.For? && r.value.init.None? && r.value.inc.None? && r.value.loopCond.Some?
      ensures toks[old(pos) + 1].kind != OpenParen ==> r.Failure?
      ensures var p := ParenAt(toks, old(env), old(pos) + 1); p.Some? && r.Success? ==>
        r.value.loopCond == Some(p.value.0) && bodyAt == p.value.1
      ensures r.Success? ==> StmtRead(toks, old(env), bodyAt, r.value.body, pos)
      decreases |toks| - pos, 20
    {
      bodyAt := pos;
      ghost var (b0, sw0) := (breaks, switches);
      var id := NewNodeId();
      var c :- LoopCond(id);
      bodyAt := pos;
      ghost var sw1 := switches;
      r := ForBody(id, (None, Some(c), None));
      if r.Success? {
        assert (b0 + [id])[..|b0|] == b0;
        CasesAddedTrans(sw0, sw1, switches);
      }
    }

    /** The condition of the `while` loop `id`, read once the loop is the
        innermost target of `break` and `continue`. */
    method LoopCond(id: nat) returns (r: Result<Node>)
      requires Ready() && toks[pos].kind != Eof
      modifies this
      ensures Valid()
      ensures r.Success? ==> Ready() && old(pos) < pos && env == old(env)
      ensures r.Success? ==> funcs == old(funcs) && firstLocals == old(firstLocals) && CasesAdded(old(switches), switches)
      ensures r.Success? ==> breaks == old(breaks) + [id] && continues == old(continues) + [id]
      ensures toks[old(pos) + 1].kind != OpenParen ==> r.Failure?
      ensures var p := ParenAt(toks, old(env), old(pos) + 1); p.Some? ==> r == Success(p.value.0) && pos == p.value.1
      decreases |toks| - pos, 19, 1
    {
      breaks := breaks + [id];
      continues := continues + [id];
      r := KeywordParen();
    }

    /** `do body while (cond);`; `condAt` is where the body ends and the
        `while` starts. */
    method DoStmt() returns (r: Result<Node>, ghost bodyAt: nat, ghost condAt: nat)
      requires Ready() && toks[pos].kind == KwDo
      modifies this
      ensures Valid()
      ensures r.Success? ==> StmtStep() && r.value.DoWhile? && JumpsTo(r.value, breaks)
      ensures r.Success? ==> old(pos) < condAt < pos && toks[condAt].kind == KwWhile
      ensures r.Success? ==> var p := ParenAt(toks, env, condAt + 1); p.Some? ==> r.value.doCond == p.value.0 && pos == p.value.1 + 1
      ensures bodyAt == old(pos) + 1
      ensures r.Success? ==> StmtRead(toks, old(env), bodyAt, r.value.doBody, condAt)
      decreases |toks| - pos, 20
    {
      condAt := pos;
      pos := pos + 1;
      bodyAt := pos;
      var id := NewNodeId();
      var body :- DoBody(id);
      condAt := pos;
      r := DoTail(id, body);
    }

    /** The body of a `do` loop, with the loop `id` pushed as the target of the
        `break`s and `continue`s in it. */
    method DoBody(id: nat) returns (r: Result<Node>)
      requires Ready()
      modifies this
      ensures Valid()
      ensures r.Success? ==> Ready() && old(pos) < pos && ScopeKept() && JumpsTo(r.value, breaks)
      ensures r.Success? ==> breaks == old(breaks) + [id] && continues == old(continues) + [id]
      ensures r.Success? ==> funcs == old(funcs) && firstLocals == old(firstLocals) && CasesAdded(old(switches), switches)
      ensures r.Success? ==> StmtRead(toks, old(env), old(pos), r.value, pos)
      decreases |toks| - pos, 24
    {
      breaks := breaks + [id];
      continues := continues + [id];
      r := Stmt();
    }

    /** The condition of a `do` loop after its body, with the loop still the
        target of `break` and `continue`; then the loop is closed. */
    method DoTail(id: nat, body: Node) returns (r: Result<Node>)
      requires Ready() && |breaks| > 0 && |continues| > 0
      modifies this
      ensures Valid()
      ensures r.Success? ==> Ready() && old(pos) < pos && env == old(env)
      ensures r.Success? ==> breaks == old(breaks)[..|old(breaks)| - 1] && continues == old(continues)[..|old(continues)| - 1]
      ensures r.Success? ==> funcs == old(funcs) && firstLocals == old(firstLocals) && CasesAdded(old(switches), switches)
      ensures r.Success? ==> r.value.DoWhile? && r.value == DoWhile(id, body, r.value.doCond)
      ensures toks[old(pos)].kind != KwWhile ==> r.Failure?
      ensures r.Success? ==> var p := ParenAt(toks, old(env), old(pos) + 1); p.Some? ==> r.value.doCond == p.value.0 && pos == p.value.1 + 1
      decreases |toks| - pos, 20
    {
      var c :- DoCondition();
      breaks := breaks[..|breaks| - 1];
      continues := continues[..|continues| - 1];
      return Success(DoWhile(id, body, c));
    }

    /** `while (cond);` after the body of a `do` loop, which is still the target
        of the `break`s and `continue`s inside the condition. */
    method DoCondition() returns (r: Result<Node>)
      requires Ready()
      modifies this
      ensures Valid()
      ensures r.Success? ==> ExprStep()
      ensures toks[old(pos)].kind != KwWhile || toks[old(pos) + 1].kind != OpenParen ==> r.Failure?
      ensures toks[old(pos)].kind == KwWhile ==> var p := ParenAt(toks, old(env), old(pos) + 1);
        p.Some? ==> (r.Success? <==> toks[p.value.1].kind == Punct(';')) && (r.Success? ==> r.value == p.value.0 && pos == p.value.1 + 1)
      decreases |toks| - pos, 19
    {
      var c: Node;
      :- Expect(KwWhile);
      assert env == old(env) && pos == old(pos) + 1;
      c :- ParenThenSemicolon();
      return Success(c);
    }

    /** `(cond);`: a parenthesised expression that ends a statement. */
    method ParenThenSemicolon() returns (r: Result<Node>)
      requires Ready()
      modifies this
      ensures Valid()
      ensures r.Success? ==> ExprStep()
      ensures toks[old(pos)].kind != OpenParen ==> r.Failure?
      ensures var p := ParenAt(toks, old(env), old(pos));
        p.Some? ==> (r.Success? <==> toks[p.value.1].kind == Punct(';')) && (r.Success? ==> r.value == p.value.0 && pos == p.value.1 + 1)
      decreases |toks| - pos, 19
    {
      var c: Node;
      c :- ParenExpr();
      :- Expect(Punct(';'));
      return Success(c);
    }

    /** `switch (cond) body`: the switch is the target of the `break`s in its body
        (not of `continue`s) and collects the `case`s found there. */
    method SwitchStmt() returns (r: Result<Node>, ghost bodyAt: nat)
      requires Ready() && toks[pos].kind == KwSwitch
      modifies this
      ensures Valid()
      ensures r.Success? ==> StmtStep() && r.value.Switch? && JumpsTo(r.value, breaks)
      ensures r.Success? ==> forall k | 0 <= k < |r.value.cases| :: r.value.cases[k].Case?
      ensures toks[old(pos) + 1].kind != OpenParen ==> r.Failure?
      ensures var p := ParenAt(toks, old(env), old(pos) + 1); p.Some? && r.Success? ==>
        r.value.scrutinee == p.value.0 && bodyAt == p.value.1
      ensures r.Success? ==> StmtRead(toks, old(env), bodyAt, r.value.switchBody, pos)
      decreases |toks| - pos, 20
    {
      bodyAt := pos;
      var id := NewNodeId();
      var c :- KeywordParen();
      bodyAt := pos;
      r := SwitchBody(id, c);
    }

    /** The body of a switch on `c`, which is the target of the `break`s in it
        and collects the `case`s found there. */
    method SwitchBody(id: nat, c: Node) returns (r: Result<Node>)
      requires Ready()
      modifies this
      ensures Valid()
      ensures r.Success? ==> StmtStep() && JumpsTo(r.value, breaks)
      ensures r.Success? ==> r.value.Switch? && r.value == Switch(id, c, r.value.switchBody, r.value.cases)
      ensures r.Success? ==> forall k | 0 <= k < |r.value.cases| :: r.value.cases[k].Case?
      ensures r.Success? ==> StmtRead(toks, old(env), old(pos), r.value.switchBody, pos)
      decreases |toks| - pos, 24
    {
      breaks := breaks + [id];
      switches := switches + [[]];
      ghost var pushed := switches;
      var body :- Stmt();
      assert switches[..|switches| - 1] == pushed[..|pushed| - 1] == old(switches);
      var cases := Last(switches);
      breaks := breaks[..|breaks| - 1];
      switches := switches[..|switches| - 1];
      return Success(Switch(id, c, body, cases));
    }

    /** `case n: body`, after `case`: the case is added to the innermost switch. */
    method CaseStmt() returns (r: Result<Node>, ghost bodyAt: nat)
      requires Ready() && toks[pos].kind == KwCase
      modifies this
      ensures Valid()
      ensures r.Success? ==> StmtStep() && JumpsTo(r.value, breaks)
      ensures |old(switches)| == 0 ==> r.Failure?
      ensures r.Success? ==> r.value.Case? && |switches| > 0 && |Last(switches)| > 0 && Last(Last(switches)) == r.value
      ensures var e := CommaAt(toks, old(env), old(pos) + 1); e.Some? ==>
        && (!e.value.0.Num? || toks[e.value.1].kind != Punct(':') ==> r.Failure?)
        && (r.Success? ==> e.value.0 == Num(r.value.val) && bodyAt == e.value.1 + 1)
      ensures r.Success? ==> StmtRead(toks, old(env), bodyAt, r.value.caseBody, pos)
      decreases |toks| - pos, 20
    {
      bodyAt := pos;
      pos := pos + 1;
      if |switches| == 0 {
        return Failure("stray case"), bodyAt;
      }
      var val :- ConstExpr();
      :- Expect(Punct(':'));
      bodyAt := pos;
      r := CaseBody(val);
    }

    /** The body of `case val:`, after which the case is the last one of the
        innermost switch. */
    method CaseBody(val: int) returns (r: Result<Node>)
      requires Ready() && |switches| > 0
      modifies this
      ensures Valid()
      ensures r.Success? ==> StmtStep() && JumpsTo(r.value, breaks)
      ensures r.Success? ==> r.value.Case? && r.value.val == val && |switches| > 0 && |Last(switches)| > 0 && Last(Last(switches)) == r.value
      ensures r.Success? ==> StmtRead(toks, old(env), old(pos), r.value.caseBody, pos)
      decreases |toks| - pos, 24
    {
      var body :- Stmt();
      var node: CaseNode := Case(val, body);
      switches := switches[|switches| - 1 := Last(switches) + [node]];
      return Success(node);
    }

    // -------------------------------------------------------------- toplevel

    /** Whether the parser stands between top-level declarations: at file scope,
        outside every loop and switch, with every function so far well formed. */
    ghost predicate AtFileScope()
      reads this
    {
      && Ready() && |env| == 1 && breaks == [] && continues == [] && switches == []
      && forall i | 0 <= i < |funcs| :: WellFormed(funcs[i])
    }

    /** The parameters after the `(` of a function, up to and including the `)`.
        Where `ParamListAt` reads them, this succeeds with exactly those parameters. */
    method ParamList() returns (r: Result<seq<Var>>)
      requires Ready()
      modifies this
      ensures Valid()
      ensures r.Success? ==> StmtStep()
      ensures r.Success? ==> forall i | 0 <= i < |r.value| :: r.value[i].isLocal && !r.value[i].ty.Ary?
      ensures var a := ParamListAt(toks, old(env), old(pos)); a.Some? ==>
        r.Success? && pos == a.value.1 && env == old(env) && Signature(r.value) == ParamSignature(a.value.0)
    {
      ghost var all := ParamListAt(toks, env, pos);
      ghost var decls: seq<Decl> := [];
      assert all.Some? ==> [] + all.value.0 == all.value.0;
      var params: seq<Var> := [];
      while true
        invariant Ready() && old(pos) <= pos && ScopeKept() && Nested()
        invariant forall i | 0 <= i < |params| :: params[i].isLocal && !params[i].ty.Ary?
        invariant all.Some? ==> env == old(env) && ParamsRemain(toks, env, pos, params == [], all, decls)
        invariant all.Some? ==> Signature(params) == ParamSignature(decls)
        decreases |toks| - pos
      {
        ghost var i := pos;
        var close := Consume(CloseParen);
        if close {
          ParamsEnd(toks, old(env), i, params == [], all, decls);
          return Success(params);
        }
        ghost var sw := switches;
        params, decls :- NextParam(params, all, decls);
        CasesAddedTrans(old(switches), sw, switches);
      }
    }

    /** The parameter after `params`, which is the first one iff `params` is
        empty. Where the parameters read so far, as the declarations `done`, and
        those `ParamsAt` reads from here make up the reading `whole`, the new one
        is the next declaration of that reading. */
    method NextParam(params: seq<Var>, ghost whole: Option<(seq<Decl>, nat)>, ghost done: seq<Decl>)
      returns (r: Result<seq<Var>>, ghost ds: seq<Decl>)
      requires Ready() && toks[pos].kind != CloseParen
      requires forall i | 0 <= i < |params| :: params[i].isLocal && !params[i].ty.Ary?
      requires whole.Some? ==> ParamsRemain(toks, env, pos, params == [], whole, done) && Signature(params) == ParamSignature(done)
      modifies this
      ensures Valid()
      ensures r.Success? ==> StmtStep() && |r.value| == |params| + 1 && r.value[..|params|] == params
      ensures r.Success? ==> forall i | 0 <= i < |r.value| :: r.value[i].isLocal && !r.value[i].ty.Ary?
      ensures whole.Some? ==> r.Success? && env == old(env)
      ensures r.Success? && whole.Some? ==> ParamsRemain(toks, env, pos, false, whole, ds) && Signature(r.value) == ParamSignature(ds)
    {
      ds := done;
      ghost var i := pos;
      var p :- Param(params == []);
      if whole.Some? {
        var d := ParamsStep(toks, old(env), i, pos, params == [], whole, done);
        SignatureAppend(params, done, p, d);
        ds := done + [d];
      }
      assert (params + [p])[..|params|] == params;
      return Success(params + [p]), ds;
    }

    /** One parameter, after a `,` unless it is the first. Where `ParamsAt` reads
        the parameters from here, this succeeds with the first of them, its type
        decayed, and stops where the reading of the rest starts. */
    method Param(first: bool) returns (r: Result<Var>)
      requires Ready()
      modifies this
      ensures Valid()
      ensures r.Success? ==> StmtStep() && r.value.isLocal && !r.value.ty.Ary?
      ensures !first && toks[old(pos)].kind != Punct(',') ==> r.Failure? && pos == old(pos)
      ensures var m := ParamsAt(toks, old(env), old(pos), first);
        m.Some? && toks[old(pos)].kind != CloseParen ==>
          && r.Success? && env == old(env) && |m.value.0| > 0
          && r.value.name == m.value.0[0].name && r.value.ty == Decay(m.value.0[0].ty)
          && ParamsAt(toks, old(env), pos, false) == Some((m.value.0[1..], m.value.1))
    {
      if !first {
        :- Expect(Punct(','));
      }
      r := ParamDeclaration();
    }

    /** The function's own name, declared at file scope before its body is read so
        that the body can call it; the loop, switch and local lists start empty. */
    method DeclareFunction(name: string, ret: Option<Type>) returns (fv: Var)
      requires Ready() && |env| == 1
      modifies this
      ensures Ready() && pos == old(pos) && |env| == 1 && funcs == old(funcs)
      ensures lvars == [] && firstLocals == [] && breaks == [] && continues == [] && switches == []
      ensures fv == Var(old(nextVar), name, Func(if ret.Some? then ret.value else NoType), false, None)
      ensures env == DeclareVar(old(env), fv) && FindVar(env, name) == Some(fv)
    {
      lvars := [];
      firstLocals := [];
      breaks := [];
      continues := [];
      switches := [];
      fv := NewVar(Func(if ret.Some? then ret.value else NoType), name, false, None);
      AddVar(fv);
      FindDeclaredVar(old(env), fv);
    }

    /** A function definition, after the parameter list: the name is declared, the
        body is read, and the function joins the program, well formed. */
    method FunctionDefinition(name: string, ret: Option<Type>, params: seq<Var>, isTypedef: bool)
      returns (r: Result<()>)
      requires Ready() && |env| == 1
      requires forall i | 0 <= i < |params| :: params[i].isLocal
      modifies this
      ensures Valid()
      ensures r.Success? ==> Ready() && old(pos) < pos && |env| == 1
      ensures r.Success? ==> breaks == [] && continues == [] && switches == []
      ensures r.Success? ==> |funcs| > 0 && funcs == old(funcs) + [Last(funcs)]
      ensures r.Success? ==>
        var f := Last(funcs);
        && WellFormed(f) && f.name == name && f.params == params
        && f.ty == Func(if ret.Some? then ret.value else NoType)
        && FindVar(env, name) == Some(Var(old(nextVar), name, f.ty, false, None))
      ensures isTypedef || toks[old(pos)].kind != Punct('{') ==> r.Failure?
      ensures r.Success? ==> BodyIn(toks, env, old(pos) + 1, Last(funcs), pos)
      ensures toks[old(pos)].kind == Punct('{') && !isTypedef && old(pos) + 1 < |toks| ==>
        var fv := Var(old(nextVar), name, Func(if ret.Some? then ret.value else NoType), false, None);
        ExprStmtsAt(toks, BindAll(Push(DeclareVar(old(env), fv)), params), old(pos) + 1).Some? ==> r.Success?
    {
      var fv := DeclareFunction(name, ret);
      :- Expect(Punct('{'));
      if isTypedef {
        return Failure("typedef has function definition");
      }
      var body :- FunctionBody(params);
      var f := Function(name, params, fv.ty, body, lvars);
      funcs := funcs + [f];
      return Success(());
    }

    /** A function body, after its `{`, in a new scope where the parameters are
        bound and have become the first locals. */
    method FunctionBody(params: seq<Var>) returns (r: Result<Node>)
      requires Ready() && lvars == []
      requires forall i | 0 <= i < |params| :: params[i].isLocal
      modifies this
      ensures Valid()
      ensures r.Success? ==> Ready() && old(pos) < pos && env == old(env) && JumpsTo(r.value, breaks)
      ensures r.Success? ==> breaks == old(breaks) && continues == old(continues) && CasesAdded(old(switches), switches)
      ensures r.Success? ==> funcs == old(funcs) && firstLocals == params && params <= lvars
      ensures var b := ExprStmtsAt(toks, BindAll(Push(old(env)), params), old(pos)); b.Some? ==>
        r == Success(CompStmt(b.value.0)) && pos == b.value.1
    {
      PushEnv();
      BindParams(params);
      var body :- CompoundStmt();
      AllJumpToBlock(body.block, breaks);
      PopEnv();
      return Success(body);
    }

    /** Bind each parameter in the innermost scope and make it a local, in order. */
    method BindParams(params: seq<Var>)
      requires Valid() && |env| >= 2 && lvars == []
      requires forall i | 0 <= i < |params| :: params[i].isLocal
      modifies this`env, this`lvars, this`firstLocals
      ensures Valid() && |env| == |old(env)| && Pop(env) == Pop(old(env))
      ensures lvars == params && firstLocals == params && env == BindAll(old(env), params)
    {
      var i := 0;
      while i < |params|
        invariant 0 <= i <= |params| && Valid()
        invariant |env| == |old(env)| && Pop(env) == Pop(old(env)) && env == BindAll(old(env), params[..i])
        invariant lvars == params[..i] && firstLocals == []
      {
        AddVar(params[i]);
        var _ := AllocLocalStorage(params[i]);
        assert params[..i + 1] == params[..i] + [params[i]];
        i := i + 1;
      }
      assert params[..i] == params;
      firstLocals := lvars;
    }

    /** A global variable or typedef, after its name: array brackets, then `;`; the
        name is bound at file scope with the type `t`, and a variable that is not
        `extern` is added to the program's globals. The variable gets the fresh
        number `id`, and `before` are the globals once the brackets have been read
        (the ones there at the start when the type is unknown, which allows no
        brackets). */
    method GlobalDecl(name: string, ty: Option<Type>, isTypedef: bool, isExtern: bool)
      returns (r: Result<()>, t: Option<Type>, ghost id: nat, ghost before: seq<Var>)
      requires Ready() && |env| == 1
      modifies this
      ensures Valid()
      ensures r.Success? ==> Ready() && old(pos) < pos && |env| == 1 && Nested()
      ensures r.Success? ==> t.Some? == ty.Some? && GlobalBound(old(env), before, env, gvars, name, t, isTypedef, isExtern, id)
      ensures ty.Some? ==> var a := DimsAt(toks, old(env), old(pos)); a.Some? ==>
        && (r.Success? <==> toks[a.value.1].kind == Punct(';'))
        && (r.Success? ==> pos == a.value.1 + 1 && t == Some(ArrayOf(ty.value, a.value.0)))
      ensures ty.None? ==>
        && (r.Success? <==> toks[old(pos)].kind == Punct(';'))
        && (r.Success? ==> pos == old(pos) + 1 && t == None && id == old(nextVar) && before == old(gvars))
    {
      t, id, before := None, nextVar, gvars;
      t :- GlobalType(ty);
      :- Expect(Punct(';'));
      id, before := nextVar, gvars;
      BindGlobal(name, t, isTypedef, isExtern);
      return Success(()), t, id, before;
    }

    /** Bind a global's name at file scope: as a typedef, which the name then
        finds, or as a variable, which the name then finds. */
    method BindGlobal(name: string, t: Option<Type>, isTypedef: bool, isExtern: bool)
      requires Valid() && |env| == 1
      modifies this`env, this`nextVar, this`gvars
      ensures Valid() && |env| == 1
      ensures GlobalBound(old(env), old(gvars), env, gvars, name, t, isTypedef, isExtern, old(nextVar))
      ensures isTypedef ==> FindTypedef(env, name) == t
      ensures !isTypedef ==> FindVar(env, name) == Some(GlobalOf(old(nextVar), name, t))
    {
      if isTypedef {
        FindDeclaredTypedef(env, name, t);
        env := DeclareTypedef(env, name, t);
      } else {
        GlobalVar(name, t, isExtern);
      }
    }

    /** The brackets after a global's name, which make its type an array type; a
        global without a type cannot have brackets. */
    method GlobalType(ty: Option<Type>) returns (r: Result<Option<Type>>)
      requires Ready()
      modifies this
      ensures Valid()
      ensures r.Success? ==> Ready() && old(pos) <= pos && env == old(env) && Nested()
      ensures r.Success? ==> r.value.Some? == ty.Some?
      ensures ty.Some? ==> var a := DimsAt(toks, old(env), old(pos));
        a.Some? ==> r == Success(Some(ArrayOf(ty.value, a.value.0))) && pos == a.value.1
      ensures ty.None? ==>
        && (r.Success? <==> toks[old(pos)].kind != Punct('['))
        && (r.Success? ==> pos == old(pos) && gvars == old(gvars) && nextVar == old(nextVar))
    {
      if ty.Some? {
        var res, dims := ReadArray(ty.value);
        if res.Failure? {
          return Failure(res.error);
        }
        return Success(Some(res.value));
      }
      if toks[pos].kind == Punct('[') {
        return Failure("unknown type name");
      }
      return Success(None);
    }

    /** Bind a global variable at file scope and, unless it is `extern`, add it to
        the program's globals. */
    method GlobalVar(name: string, t: Option<Type>, isExtern: bool)
      requires Valid()
      modifies this`env, this`nextVar, this`gvars
      ensures Valid() && nextVar == old(nextVar) + 1
      ensures env == DeclareVar(old(env), GlobalOf(old(nextVar), name, t))
      ensures FindVar(env, name) == Some(GlobalOf(old(nextVar), name, t))
      ensures gvars == if isExtern then old(gvars) else old(gvars) + [GlobalOf(old(nextVar), name, t)]
    {
      var v := NewVar(if t.Some? then t.value else NoType, name, false, None);
      AddVar(v);
      if !isExtern {
        AllocGlobalStorage(v);
      }
    }

    /** The start of a top-level declaration: `typedef`, `extern`, the type
        specifiers, the stars of a pointer type and the declared name. */
    method DeclHead() returns (r: Result<(bool, bool, Option<Type>, string)>)
      requires Ready()
      modifies this
      ensures Valid()
      ensures r.Success? ==> Ready() && old(pos) < pos && ScopeKept() && Nested()
      ensures Agrees(DeclHeadAt(toks, old(env), old(pos)), r)
    {
      var isTypedef := toks[pos].kind == KwTypedef;
      var j := if isTypedef then pos + 1 else pos;
      var isExtern := toks[j].kind == KwExtern;
      var k := if isExtern then j + 1 else j;
      ghost var p := TypedNameAt(toks, env, k);
      assert p.Some? ==> DeclHeadAt(toks, env, pos) == Some(((isTypedef, isExtern, p.value.0.0, p.value.0.1), p.value.1));
      pos := k;
      var tn :- TypedName();
      return Success((isTypedef, isExtern, tn.0, tn.1));
    }

    /** The type specifiers, the stars of a pointer type and the declared name. */
    method TypedName() returns (r: Result<(Option<Type>, string)>)
      requires Ready()
      modifies this
      ensures Valid()
      ensures r.Success? ==> Ready() && old(pos) < pos && ScopeKept() && Nested()
      ensures Agrees(TypedNameAt(toks, old(env), old(pos)), r)
    {
      var spec :- DeclSpecifiers();
      r := StarredName(spec);
    }

    /** The stars of a pointer type on `base`, then the declared name. */
    method StarredName(base: Option<Type>) returns (r: Result<(Option<Type>, string)>)
      requires Ready()
      modifies this`pos
      ensures Valid()
      ensures r.Success? ==> Ready() && old(pos) < pos
      ensures r.Success? <==> StarredAt(toks, base, old(pos)).Some?
      ensures Agrees(StarredAt(toks, base, old(pos)), r)
    {
      var ty := Stars(base);
      var name :- Identifier();
      return Success((ty, name));
    }

    /** One top-level declaration: a function prototype (which is read and
        dropped), a function definition, a global variable or a typedef. `head` is
        what it starts with, `headEnv` the scope reading it leaves (a struct
        specifier can declare a tag), `call` whether a `(` follows it, and `a`
        the reference reading of the parameter list after that `(`, at
        `paramsAt`. */
    method Toplevel() returns (r: Result<()>, ghost head: (bool, bool, Option<Type>, string), ghost headEnv: Env,
                               ghost call: bool, ghost paramsAt: nat, ghost a: Option<(seq<Decl>, nat)>)
      requires AtFileScope() && toks[pos].kind != Eof
      modifies this
      ensures Valid()
      ensures r.Success? ==> AtFileScope() && old(pos) < pos && old(funcs) <= funcs
      ensures HeadRead(toks, old(env), old(pos), head, paramsAt)
      ensures call <==> 0 < paramsAt < |toks| && toks[paramsAt - 1].kind == OpenParen
      ensures DeclRead(toks, head, call, paramsAt, headEnv, a, old(funcs), funcs, env, gvars, pos, r.Success?)
    {
      head, headEnv, call, paramsAt, a := (false, false, None, ""), env, false, 0, None;
      ghost var hr := DeclHeadAt(toks, env, pos);
      var h :- DeclHead();
      assert AtFileScope() && (hr.Some? ==> h == hr.value.0 && pos == hr.value.1);
      head, headEnv, paramsAt := h, env, pos + 1;
      r, call, a := TopDecl(h, old(funcs));
    }

    /** A top-level declaration after its head: a global or typedef, or, after a
        `(`, a function, whose parameter list has the reference reading `a`. */
    method TopDecl(head: (bool, bool, Option<Type>, string), ghost funcs0: seq<Function>)
      returns (r: Result<()>, call: bool, ghost a: Option<(seq<Decl>, nat)>)
      requires AtFileScope() && funcs0 == funcs
      modifies this
      ensures Valid()
      ensures call == (toks[old(pos)].kind == OpenParen)
      ensures r.Success? ==> AtFileScope() && old(pos) < pos && old(funcs) <= funcs
      ensures DeclRead(toks, head, call, old(pos) + 1, old(env), a, funcs0, funcs, env, gvars, pos, r.Success?)
    {
      var (isTypedef, isExtern, ty, name) := head;
      a := None;
      call := Consume(OpenParen);
      if !call {
        ghost var e0 := env;
        var t;
        ghost var id, before;
        r, t, id, before := GlobalDecl(name, ty, isTypedef, isExtern);
        if r.Success? {
          BoundIsDeclared(e0, before, env, gvars, name, t, isTypedef, isExtern, id);
        }
        return;
      }
      r, a := FunctionDecl(head);
    }

    /** A function prototype or definition, after the `(` that follows its head;
        `a` is the reference reading of its parameter list. */
    method FunctionDecl(head: (bool, bool, Option<Type>, string)) returns (r: Result<()>, ghost a: Option<(seq<Decl>, nat)>)
      requires Ready() && |env| == 1 && breaks == [] && continues == [] && switches == []
      requires forall i | 0 <= i < |funcs| :: WellFormed(funcs[i])
      modifies this
      ensures Valid()
      ensures r.Success? ==> AtFileScope() && old(pos) < pos
      ensures r.Success? ==> funcs == old(funcs) || FunctionAdded(old(funcs), funcs, env, head)
      ensures a == ParamListAt(toks, old(env), old(pos))
      ensures r.Success? ==> FunctionRead(toks, a, old(funcs), funcs, env, pos)
      ensures a.Some? && toks[a.value.1].kind == Punct(';') ==> r.Success?
    {
      a := ParamListAt(toks, env, pos);
      var params;
      params :- ParamList();
      r := FunctionTail(head, params, a);
    }

    /** What follows the parameter list `params` of a function, read as `a`
        where the reference reading finds one: `;`, which makes it a prototype
        that is read and dropped, or the body of a definition. */
    method FunctionTail(head: (bool, bool, Option<Type>, string), params: seq<Var>, ghost a: Option<(seq<Decl>, nat)>)
      returns (r: Result<()>)
      requires Ready() && |env| == 1 && breaks == [] && continues == [] && switches == []
      requires forall i | 0 <= i < |funcs| :: WellFormed(funcs[i])
      requires forall i | 0 <= i < |params| :: params[i].isLocal
      requires a.Some? ==> a.value.1 == pos && Signature(params) == ParamSignature(a.value.0)
      modifies this
      ensures Valid()
      ensures r.Success? ==> AtFileScope() && old(pos) < pos
      ensures r.Success? ==> funcs == old(funcs) || FunctionAdded(old(funcs), funcs, env, head)
      ensures toks[old(pos)].kind == Punct(';') ==> r.Success? && funcs == old(funcs) && pos == old(pos) + 1
      ensures r.Success? && toks[old(pos)].kind != Punct(';') ==>
        && |funcs| == |old(funcs)| + 1 && Last(funcs).params == params
        && toks[old(pos)].kind == Punct('{') && BodyIn(toks, env, old(pos) + 1, Last(funcs), pos)
      ensures r.Success? ==> FunctionRead(toks, a, old(funcs), funcs, env, pos)
    {
      var prototype := Consume(Punct(';'));
      if prototype {
        return Success(());
      }
      r := FunctionDefinition(head.3, head.2, params, head.0);
    }

    /** The top-level declarations up to the end of the tokens. */
    method Parse() returns (r: Result<Program>)
      requires AtFileScope()
      modifies this
      ensures Valid()
      ensures r.Success? ==> AtFileScope() && toks[pos].kind == Eof && r.value == Program(gvars, funcs)
      ensures r.Success? ==> forall i | 0 <= i < |r.value.funcs| :: WellFormed(r.value.funcs[i])
      ensures r.Success? ==> old(funcs) <= r.value.funcs
      ensures toks[old(pos)].kind == Eof ==> r == Success(Program(old(gvars), old(funcs)))
    {
      while toks[pos].kind != Eof
        invariant AtFileScope() && old(funcs) <= funcs
        invariant toks[old(pos)].kind == Eof ==> pos == old(pos) && gvars == old(gvars) && funcs == old(funcs)
        decreases |toks| - pos
      {
        var res;
        ghost var head, headEnv, call, paramsAt, a;
        res, head, headEnv, call, paramsAt, a := Toplevel();
        if res.Failure? {
          return Failure(res.error);
        }
      }
      return Success(Program(gvars, funcs));
    }
  }

  /** Parse a token sequence that ends with the end-of-input token. The string
      literal counter `nlabel` carries over from one parse to the next. */
  method ParseProgram(toks: seq<Token>, typeOf: Node -> Type, nlabel: nat) returns (r: Result<Program>, nlabelOut: nat)
    requires |toks| > 0 && toks[|toks| - 1].kind == Eof
    ensures r.Success? ==> forall i | 0 <= i < |r.value.funcs| :: WellFormed(r.value.funcs[i])
    ensures toks[0].kind == Eof ==> r == Success(Program([], []))
    ensures r.Success? && |r.value.funcs| > 0 ==> toks[0].kind != Eof
  {
    var p := new Parser(toks, typeOf, nlabel);
    r := p.Parse();
    nlabelOut := p.nlabel;
  }
}
