/** Type descriptors of the compiled language, with the size and alignment the
    target gives them, and the array types that a declarator's brackets build. */
module Types {
  import opened Wrappers

  /** A type. Struct types are kept in an arena (a map from struct ids owned by the
      parser) and named by their id there, so that a struct found again by its tag
      is the same struct and a later body completes it in place. */
  datatype Type =
    | Void | Bool | Char | Int
    | Ptr(base: Type)
    | Ary(elem: Type, len: int)
    | Struct(id: nat)
    | Func(returning: Type)
      /** The placeholder a parenthesised declarator builds on; filled in afterwards. */
    | Hole
      /** A type the source leaves unset: the null result of a declaration specifier
          that names no type, or a copy of a placeholder taken before it was filled. */
    | NoType

  datatype Member = Member(name: string, ty: Type, offset: int)

  /** A struct: its members in declaration order (None while incomplete), its
      size and its alignment. */
  datatype StructDef = StructDef(members: Option<seq<Member>>, size: int, align: int)

  /** A struct as it is first created: incomplete, of size 0 and alignment 0. */
  const NewStruct := StructDef(None, 0, 0)

  type Arena = map<nat, StructDef>

  /** The struct with id `id`; an id the arena does not hold reads as a new struct. */
  function StructAt(structs: Arena, id: nat): StructDef
  {
    if id in structs then structs[id] else NewStruct
  }

  /** Sizes and alignments of the scalar types on the x86-64 target. */
  const IntSize := 4
  const PtrSize := 8

  function SizeOf(t: Type, structs: Arena): int
  {
    match t
    case Void => 0
    case Bool => 1
    case Char => 1
    case Int => IntSize
    case Ptr(_) => PtrSize
    case Ary(e, n) => n * SizeOf(e, structs)
    case Struct(id) => StructAt(structs, id).size
    case Func(_) => 0
    case Hole => 0
    case NoType => 0
  }

  function AlignOf(t: Type, structs: Arena): int
  {
    match t
    case Void => 0
    case Bool => 1
    case Char => 1
    case Int => IntSize
    case Ptr(_) => PtrSize
    case Ary(e, _) => AlignOf(e, structs)
    case Struct(id) => StructAt(structs, id).align
    case Func(_) => 0
    case Hole => 0
    case NoType => 0
  }

  /** The least multiple of `a` that is at least `x`. */
  function RoundUp(x: int, a: int): (r: int)
    requires a > 0
    ensures r % a == 0
    ensures x <= r < x + a
  {
    var q := (x + a - 1) / a;
    assert q * a <= x + a - 1 < q * a + a;
    assert (q * a) % a == 0 by { MultipleMod(q, a); }
    q * a
  }

  lemma MultipleMod(q: int, a: int)
    requires a > 0
    ensures (q * a) % a == 0
  {
    var m := (q * a) % a;
    var d := (q * a) / a;
    assert q * a == d * a + m;
    var k := q - d;
    assert k * a == q * a - d * a;
    assert k * a == m;
    if k > 0 {
      MulAtLeast(k, a);
    }
  }

  lemma {:induction false} MulAtLeast(k: int, a: int)
    requires k >= 1 && a > 0
    ensures k * a >= a
    decreases k
  {
    if k > 1 {
      MulAtLeast(k - 1, a);
      assert k * a == (k - 1) * a + a;
    }
  }

  /** The type `base x[n1]...[nk]` declares: the first bracket is the outermost
      array, the last one the innermost. */
  function ArrayOf(base: Type, dims: seq<int>): Type
    decreases |dims|
  {
    if dims == [] then base else Ary(ArrayOf(base, dims[1..]), dims[0])
  }

  function Product(dims: seq<int>): int
    decreases |dims|
  {
    if dims == [] then 1 else dims[0] * Product(dims[1..])
  }

  /** Wrapping the innermost element type first gives the same type: the last
      bracket is the one applied to the base directly. */
  lemma {:induction false} ArrayOfLast(base: Type, dims: seq<int>, n: int)
    ensures ArrayOf(base, dims + [n]) == ArrayOf(Ary(base, n), dims)
    decreases |dims|
  {
    if dims != [] {
      assert (dims + [n])[1..] == dims[1..] + [n];
      ArrayOfLast(base, dims[1..], n);
    }
  }

  /** `T x[n1]...[nk]` occupies n1 * ... * nk elements of T (section 6.5.3.4 of
      ISO/IEC 9899:2011: an array's size is its length times its element's size). */
  lemma {:induction false} ArrayOfSize(base: Type, dims: seq<int>, structs: Arena)
    ensures SizeOf(ArrayOf(base, dims), structs) == Product(dims) * SizeOf(base, structs)
    decreases |dims|
  {
    if dims != [] {
      ArrayOfSize(base, dims[1..], structs);
      var s := SizeOf(base, structs);
      calc {
        SizeOf(ArrayOf(base, dims), structs);
        dims[0] * SizeOf(ArrayOf(base, dims[1..]), structs);
        dims[0] * (Product(dims[1..]) * s);
        { MulAssoc(dims[0], Product(dims[1..]), s); }
        (dims[0] * Product(dims[1..])) * s;
      }
    }
  }

  lemma MulAssoc(a: int, b: int, c: int)
    ensures a * (b * c) == (a * b) * c
  {
  }

  /** An array is aligned like its innermost element type. */
  lemma {:induction false} ArrayOfAlign(base: Type, dims: seq<int>, structs: Arena)
    ensures AlignOf(ArrayOf(base, dims), structs) == AlignOf(base, structs)
    decreases |dims|
  {
    if dims != [] {
      ArrayOfAlign(base, dims[1..], structs);
    }
  }

  /** The second loop of `read_array`: wrap the base type in one array type per
      dimension, from the last dimension to the first. */
  method NestArrays(base: Type, dims: seq<int>) returns (ty: Type)
    ensures ty == ArrayOf(base, dims)
  {
    ty := base;
    var i := |dims|;
    while i > 0
      invariant 0 <= i <= |dims|
      invariant ty == ArrayOf(base, dims[i..])
    {
      i := i - 1;
      assert dims[i..][1..] == dims[i + 1..];
      ty := Ary(ty, dims[i]);
    }
  }

  /** Replace the placeholder by `with`, through the pointer and array types a
      declarator wrapped around it. */
  function Fill(t: Type, with: Type): (r: Type)
    ensures !HasHole(t) ==> r == t
    ensures !HasHole(with) ==> !HasHole(r)
  {
    match t
    case Hole => with
    case Ptr(b) => Ptr(Fill(b, with))
    case Ary(e, n) => Ary(Fill(e, with), n)
    case _ => t
  }

  /** Whether the placeholder occurs among the pointer and array types wrapped around it. */
  predicate HasHole(t: Type)
  {
    match t
    case Hole => true
    case Ptr(b) => HasHole(b)
    case Ary(e, _) => HasHole(e)
    case _ => false
  }
}
