/** Block scopes. The environment is a stack of frames, innermost last; each frame
    binds variables, typedef names and struct tags in three separate name spaces.
    A lookup walks the frames from the innermost outwards and returns the first
    binding it finds; a declaration only ever writes the innermost frame. */
module Scope {
  import opened Wrappers
  import opened Types
  import opened Ast

  datatype Frame = Frame(vars: map<string, Var>, typedefs: map<string, Type>, tags: map<string, nat>)

  type Env = seq<Frame>

  const EmptyFrame := Frame(map[], map[], map[])

  function Push(env: Env): Env { env + [EmptyFrame] }

  function Pop(env: Env): Env
    requires |env| > 0
  {
    env[..|env| - 1]
  }

  function Innermost(env: Env): Frame
    requires |env| > 0
  {
    env[|env| - 1]
  }

  /** The binding of `name` in the innermost frame that has one. */
  function FindVar(env: Env, name: string): (r: Option<Var>)
    decreases |env|
  {
    if env == [] then None
    else if name in Innermost(env).vars then Some(Innermost(env).vars[name])
    else FindVar(Pop(env), name)
  }

  /** The type bound to the typedef name in the innermost frame that has one. */
  function FindTypedef(env: Env, name: string): (r: Option<Type>)
    decreases |env|
  {
    if env == [] then None
    else if name in Innermost(env).typedefs then Some(Innermost(env).typedefs[name])
    else FindTypedef(Pop(env), name)
  }

  /** The struct bound to the tag in the innermost frame that has one. */
  function FindTag(env: Env, name: string): (r: Option<nat>)
    decreases |env|
  {
    if env == [] then None
    else if name in Innermost(env).tags then Some(Innermost(env).tags[name])
    else FindTag(Pop(env), name)
  }

  /** `FindVar` finds a binding exactly when some frame binds the variable, and
      then it is the binding of the innermost such frame. */
  lemma {:induction false} FindVarInnermost(env: Env, name: string)
    ensures FindVar(env, name).None? <==> forall i | 0 <= i < |env| :: name !in env[i].vars
    ensures FindVar(env, name).Some? ==> exists i | 0 <= i < |env| ::
              && name in env[i].vars && FindVar(env, name).value == env[i].vars[name]
              && forall j | i < j < |env| :: name !in env[j].vars
    decreases |env|
  {
    if env != [] && name !in Innermost(env).vars {
      FindVarInnermost(Pop(env), name);
    }
  }

  /** `FindTypedef` finds a binding exactly when some frame binds the typedef name, and
      then it is the binding of the innermost such frame. */
  lemma {:induction false} FindTypedefInnermost(env: Env, name: string)
    ensures FindTypedef(env, name).None? <==> forall i | 0 <= i < |env| :: name !in env[i].typedefs
    ensures FindTypedef(env, name).Some? ==> exists i | 0 <= i < |env| ::
              && name in env[i].typedefs && FindTypedef(env, name).value == env[i].typedefs[name]
              && forall j | i < j < |env| :: name !in env[j].typedefs
    decreases |env|
  {
    if env != [] && name !in Innermost(env).typedefs {
      FindTypedefInnermost(Pop(env), name);
    }
  }

  /** `FindTag` finds a binding exactly when some frame binds the struct tag, and
      then it is the binding of the innermost such frame. */
  lemma {:induction false} FindTagInnermost(env: Env, name: string)
    ensures FindTag(env, name).None? <==> forall i | 0 <= i < |env| :: name !in env[i].tags
    ensures FindTag(env, name).Some? ==> exists i | 0 <= i < |env| ::
              && name in env[i].tags && FindTag(env, name).value == env[i].tags[name]
              && forall j | i < j < |env| :: name !in env[j].tags
    decreases |env|
  {
    if env != [] && name !in Innermost(env).tags {
      FindTagInnermost(Pop(env), name);
    }
  }

  /** Bind `v` under its name in the innermost frame. */
  function DeclareVar(env: Env, v: Var): (r: Env)
    requires |env| > 0
    ensures |r| == |env| && Pop(r) == Pop(env)
  {
    var f := Innermost(env);
    Pop(env) + [f.(vars := f.vars[v.name := v])]
  }

  /** Bind each of `vs` in turn in the innermost frame, as `DeclareVar` does,
      so that a later one shadows an earlier one of the same name. */
  function BindAll(env: Env, vs: seq<Var>): (r: Env)
    requires |env| > 0
    ensures |r| == |env| && Pop(r) == Pop(env)
    decreases |vs|
  {
    if vs == [] then env else DeclareVar(BindAll(env, vs[..|vs| - 1]), vs[|vs| - 1])
  }

  /** Bind the typedef name in the innermost frame; a null type (None) leaves the
      name unbound there, as a stored null pointer reads back as not found. */
  function DeclareTypedef(env: Env, name: string, t: Option<Type>): (r: Env)
    requires |env| > 0
    ensures |r| == |env| && Pop(r) == Pop(env)
  {
    var f := Innermost(env);
    Pop(env) + [f.(typedefs := if t.Some? then f.typedefs[name := t.value] else f.typedefs - {name})]
  }

  function DeclareTag(env: Env, name: string, id: nat): (r: Env)
    requires |env| > 0
    ensures |r| == |env| && Pop(r) == Pop(env)
  {
    var f := Innermost(env);
    Pop(env) + [f.(tags := f.tags[name := id])]
  }

  /** A lookup in `outer + inner` finds the innermost binding of `inner` first and
      falls back to `outer` when `inner` has none. */
  lemma {:induction false} FindVarAppend(outer: Env, inner: Env, name: string)
    ensures FindVar(outer + inner, name)
         == if FindVar(inner, name).Some? then FindVar(inner, name) else FindVar(outer, name)
    decreases |inner|
  {
    if inner == [] {
      assert outer + inner == outer;
    } else {
      assert Pop(outer + inner) == outer + Pop(inner);
      assert Innermost(outer + inner) == Innermost(inner);
      FindVarAppend(outer, Pop(inner), name);
    }
  }

  /** After a declaration, the name finds the new variable. */
  lemma FindDeclaredVar(env: Env, v: Var)
    requires |env| > 0
    ensures FindVar(DeclareVar(env, v), v.name) == Some(v)
  {
    assert Innermost(DeclareVar(env, v)).vars[v.name] == v;
  }

  /** A declaration changes the lookup of no other name. */
  lemma DeclareVarKeepsOthers(env: Env, v: Var, name: string)
    requires |env| > 0 && name != v.name
    ensures FindVar(DeclareVar(env, v), name) == FindVar(env, name)
  {
    var r := DeclareVar(env, v);
    assert Pop(r) == Pop(env);
    assert (name in Innermost(r).vars) == (name in Innermost(env).vars);
  }

  /** Frames that do not bind the name give no binding for it. */
  lemma {:induction false} FindVarUnbound(inner: Env, name: string)
    requires forall i | 0 <= i < |inner| :: name !in inner[i].vars
    ensures FindVar(inner, name) == None
    decreases |inner|
  {
    if inner != [] {
      assert name !in Innermost(inner).vars;
      FindVarUnbound(Pop(inner), name);
    }
  }

  /** A declared variable stays visible inside nested scopes that do not redeclare
      its name, until its own frame is popped. */
  lemma DeclaredVisibleInside(env: Env, v: Var, inner: Env)
    requires |env| > 0
    requires forall i | 0 <= i < |inner| :: v.name !in inner[i].vars
    ensures FindVar(DeclareVar(env, v) + inner, v.name) == Some(v)
  {
    FindVarUnbound(inner, v.name);
    FindVarAppend(DeclareVar(env, v), inner, v.name);
    FindDeclaredVar(env, v);
  }

  /** Shadowing: a variable declared in a new block hides an outer one of the same
      name, and popping the block makes the outer one visible again. */
  lemma Shadowing(env: Env, v: Var)
    ensures FindVar(DeclareVar(Push(env), v), v.name) == Some(v)
    ensures FindVar(Pop(DeclareVar(Push(env), v)), v.name) == FindVar(env, v.name)
  {
    FindDeclaredVar(Push(env), v);
    assert Pop(DeclareVar(Push(env), v)) == env;
  }

  /** After a typedef, the name finds the type; a null type unbinds it in the
      innermost frame so the lookup falls through to the enclosing frames. */
  lemma FindDeclaredTypedef(env: Env, name: string, t: Option<Type>)
    requires |env| > 0
    ensures t.Some? ==> FindTypedef(DeclareTypedef(env, name, t), name) == t
    ensures t.None? ==> FindTypedef(DeclareTypedef(env, name, t), name) == FindTypedef(Pop(env), name)
  {
    var r := DeclareTypedef(env, name, t);
    assert Pop(r) == Pop(env);
  }

  /** After a tag declaration, the tag finds the struct. */
  lemma FindDeclaredTag(env: Env, name: string, id: nat)
    requires |env| > 0
    ensures FindTag(DeclareTag(env, name, id), name) == Some(id)
  {
    assert Innermost(DeclareTag(env, name, id)).tags[name] == id;
  }
}
