/**
 * Type layouts measured in primitive units (bits), and the offset range of an
 * indexed access (a GEP) computed from them.
 *
 * LLVM types are uniqued, so comparing Type* pointers is comparing types;
 * here a type is a value and the memo tables compare values.
 */
module Primitives {
  import opened Opt
  import opened Ranges

  /**
   * The type shapes the layout code distinguishes.  Scalar stands for every
   * other type and carries its primitive size in bits (0 for types that have
   * none, such as functions or labels).
   */
  datatype Type =
    | Array(num: nat, elem: Type)
    | Vector(num: nat, elem: Type)
    | Struct(fields: seq<Type>)
    | Pointer(pointee: Type)
    | Scalar(bits: nat)

  /** getNumPrimitives: the number of primitive units a value of type t occupies. */
  function NumPrimitives(t: Type): (n: int)
    ensures n >= 0
    decreases t, 1, 0
  {
    match t
    case Array(num, e) => num * NumPrimitives(e)
    case Vector(num, e) => num * NumPrimitives(e)
    case Struct(fs) => FieldSum(t, |fs|)
    case Pointer(_) => 1
    case Scalar(bits) => if bits == 0 then 1 else bits
  }

  /** The units of the first k fields of a struct. */
  function FieldSum(t: Type, k: nat): (n: int)
    requires t.Struct? && k <= |t.fields|
    ensures n >= 0
    decreases t, 0, k
  {
    if k == 0 then 0
    else
      assert t.fields[k - 1] in t.fields;
      FieldSum(t, k - 1) + NumPrimitives(t.fields[k - 1])
  }

  /** getPrimitiveLayout: the units of each element or field, in order; [1] for anything else. */
  function Layout(t: Type): seq<int> {
    match t
    case Array(num, e) => seq(num, _ => NumPrimitives(e))
    case Vector(num, e) => seq(num, _ => NumPrimitives(e))
    case Struct(fs) => seq(|fs|, i requires 0 <= i < |fs| => NumPrimitives(fs[i]))
    case _ => [1]
  }

  /** getTypeInside: the type one level down, selecting field i of a struct; None for NULL. */
  function TypeInside(t: Type, i: int): Option<Type> {
    match t
    case Pointer(p) => Some(p)
    case Array(_, e) => Some(e)
    case Struct(fs) => if 0 <= i < |fs| then Some(fs[i]) else None
    case Vector(_, e) => Some(e)
    case Scalar(_) => None
  }

  /** The sum of the first k entries of v. */
  function Prefix(v: seq<int>, k: nat): int
    requires k <= |v|
  {
    if k == 0 then 0 else Prefix(v, k - 1) + v[k - 1]
  }

  /** getSumBehind: the sum of the first i entries, or of all of them when i is past the end. */
  function SumBehind(v: seq<int>, i: nat): int {
    Prefix(v, if i > |v| then |v| else i)
  }

  predicate NonNegative(v: seq<int>) {
    forall k :: 0 <= k < |v| ==> v[k] >= 0
  }

  const U32: nat := 0x1_0000_0000

  /** The conversion of a signed value to the unsigned int parameter of getSumBehind. */
  function Unsigned(k: int): (u: nat)
    ensures u < U32
  {
    k % U32
  }

  /** An index into the GEP's index list: a constant, or a value whose range the oracle gave. */
  datatype Index = Const(c: int) | Dyn(range: Range)

  /** Scaling of the first index by the units of the pointee; sentinels stay sentinels. */
  function FirstOffset(n: int, i: Index, w: nat): Range
    requires w >= 1
  {
    match i
    case Const(c) => Range(n * c, n * c)
    case Dyn(a) =>
      Range(if a.lower == Min(w) then Min(w) else n * a.lower,
            if a.upper == Max(w) then Max(w) else n * a.upper)
  }

  /** An index bound brought into [0, 2^32): negative bounds become 0. */
  function ClampIndex(k: int): (u: nat)
    ensures u < U32
    ensures 0 <= k < U32 ==> u == k
  {
    if k < 0 then 0 else if k >= U32 then U32 - 1 else k
  }

  /**
   * The range a later index adds, as the code computes it: every bound goes
   * through the unsigned conversion, so a negative lower bound of a variable
   * index turns into the sum of the whole layout.
   */
  function StepAsWritten(layout: seq<int>, i: Index): Range {
    match i
    case Const(c) => Range(SumBehind(layout, Unsigned(c)), SumBehind(layout, Unsigned(c)))
    case Dyn(a) => Range(SumBehind(layout, Unsigned(a.lower)), SumBehind(layout, Unsigned(a.upper)))
  }

  /** The range a later index adds, with the bounds of a variable index clamped instead. */
  function Step(layout: seq<int>, i: Index): Range {
    match i
    case Const(c) => Range(SumBehind(layout, Unsigned(c)), SumBehind(layout, Unsigned(c)))
    case Dyn(a) => Range(SumBehind(layout, ClampIndex(a.lower)), SumBehind(layout, ClampIndex(a.upper)))
  }

  /** The constant that selects the next struct field: the last index if constant, else 0. */
  function NextIndex(i: Index): int {
    if i.Const? then i.c else 0
  }

  /** The loop over the indexes after the first; None when the type walk reaches NULL. */
  function Walk(r: Range, ty: Type, index: int, idx: seq<Index>, w: nat): Option<Range>
    requires w >= 1
    decreases |idx|
  {
    if idx == [] then Some(r)
    else
      match TypeInside(ty, index)
      case None => None
      case Some(t) => Walk(Add(r, Step(Layout(t), idx[0]), w), t, NextIndex(idx[0]), idx[1..], w)
  }

  /** processGEP on a base pointer to pointee; None for a GEP without indexes. */
  function GepOffset(pointee: Type, idx: seq<Index>, w: nat): Option<Range>
    requires w >= 1
  {
    if idx == [] then None
    else Walk(FirstOffset(NumPrimitives(pointee), idx[0], w), Pointer(pointee), 0, idx[1..], w)
  }

  /** The exact offset of a GEP whose indexes are all constant. */
  function ConstWalk(p: int, ty: Type, index: int, cs: seq<int>): Option<int>
    decreases |cs|
  {
    if cs == [] then Some(p)
    else
      match TypeInside(ty, index)
      case None => None
      case Some(t) => ConstWalk(p + SumBehind(Layout(t), Unsigned(cs[0])), t, cs[0], cs[1..])
  }

  function ConstOffset(pointee: Type, cs: seq<int>): Option<int>
    requires cs != []
  {
    ConstWalk(NumPrimitives(pointee) * cs[0], Pointer(pointee), 0, cs[1..])
  }

  function Consts(cs: seq<int>): (idx: seq<Index>)
    ensures |idx| == |cs| && forall k :: 0 <= k < |cs| ==> idx[k] == Const(cs[k])
  {
    seq(|cs|, k requires 0 <= k < |cs| => Const(cs[k]))
  }

  // ---------------------------------------------------------------------
  // Layout arithmetic

  /** Every entry of a layout is a non-negative unit count. */
  lemma LayoutNonNegative(t: Type)
    ensures NonNegative(Layout(t))
  {
  }

  /** The offset of element c of an array or vector is c element sizes. */
  lemma {:induction false} ArrayOffset(t: Type, c: nat)
    requires (t.Array? || t.Vector?) && c <= t.num
    ensures SumBehind(Layout(t), c) == c * NumPrimitives(t.elem)
    decreases c
  {
    if c > 0 {
      ArrayOffset(t, c - 1);
    }
  }

  /** The offset of field c of a struct is the size of the fields before it. */
  lemma {:induction false} StructOffset(t: Type, c: nat)
    requires t.Struct? && c <= |t.fields|
    ensures SumBehind(Layout(t), c) == FieldSum(t, c)
    decreases c
  {
    if c > 0 {
      StructOffset(t, c - 1);
    }
  }

  /** For an aggregate, the layout adds up to the type's own unit count. */
  lemma LayoutSum(t: Type)
    requires t.Array? || t.Vector? || t.Struct?
    ensures Prefix(Layout(t), |Layout(t)|) == NumPrimitives(t)
  {
    if t.Struct? {
      StructOffset(t, |t.fields|);
    } else {
      ArrayOffset(t, t.num);
    }
  }

  /** With non-negative entries, summing more entries never gives less. */
  lemma {:induction false} PrefixMonotone(v: seq<int>, i: nat, j: nat)
    requires NonNegative(v) && i <= j <= |v|
    ensures 0 <= Prefix(v, i) <= Prefix(v, j)
    decreases j
  {
    if i < j {
      PrefixMonotone(v, i, j - 1);
    } else if i > 0 {
      PrefixMonotone(v, i - 1, i - 1);
    }
  }

  lemma SumBehindMonotone(v: seq<int>, i: nat, j: nat)
    requires NonNegative(v) && i <= j
    ensures 0 <= SumBehind(v, i) <= SumBehind(v, j)
  {
    PrefixMonotone(v, if i > |v| then |v| else i, if j > |v| then |v| else j);
  }

  // ---------------------------------------------------------------------
  // Offsets of indexed accesses

  /**
   * With the bounds of a variable index clamped, the added range holds the
   * offset of every in-range index the oracle allows.
   */
  lemma StepContains(layout: seq<int>, a: Range, k: int)
    requires NonNegative(layout) && a.lower <= k <= a.upper && 0 <= k < U32
    ensures Contains(Step(layout, Dyn(a)), SumBehind(layout, k))
  {
    SumBehindMonotone(layout, ClampIndex(a.lower), k);
    SumBehindMonotone(layout, k, ClampIndex(a.upper));
  }

  /**
   * As written, an index whose range is [-1, 1] into a two-element array of
   * one-unit elements yields [2, 1], which excludes the offset 0 of index 0.
   */
  lemma StepAsWrittenMisses()
    ensures Layout(Array(2, Scalar(1))) == [1, 1]
    ensures StepAsWritten([1, 1], Dyn(Range(-1, 1))) == Range(2, 1)
    ensures !Contains(StepAsWritten([1, 1], Dyn(Range(-1, 1))), SumBehind([1, 1], 0))
    ensures Contains(Step([1, 1], Dyn(Range(-1, 1))), SumBehind([1, 1], 0))
  {
    assert Unsigned(-1) == U32 - 1;
  }

  /** Walking constant indexes adds non-negative field and element offsets. */
  lemma {:induction false} ConstWalkGrows(p: int, ty: Type, index: int, cs: seq<int>)
    requires ConstWalk(p, ty, index, cs).Some?
    ensures p <= ConstWalk(p, ty, index, cs).value
    decreases |cs|
  {
    if cs != [] {
      var t := TypeInside(ty, index).value;
      LayoutNonNegative(t);
      SumBehindMonotone(Layout(t), 0, Unsigned(cs[0]));
      ConstWalkGrows(p + SumBehind(Layout(t), Unsigned(cs[0])), t, cs[0], cs[1..]);
    }
  }

  /**
   * Away from the sentinels, a walk over constant indexes keeps a singleton
   * range, whose value is the exact offset.
   */
  lemma {:induction false} ConstWalkSingleton(lo: int, p: int, ty: Type, index: int, cs: seq<int>, w: nat)
    requires w >= 1 && ConstWalk(p, ty, index, cs).Some?
    requires Min(w) < lo <= p
    requires ConstWalk(p, ty, index, cs).value < Max(w)
    requires ConstWalk(p, ty, index, cs).value - lo < Max(w)
    ensures Walk(Range(p, p), ty, index, Consts(cs), w) == Some(Range(ConstWalk(p, ty, index, cs).value, ConstWalk(p, ty, index, cs).value))
    decreases |cs|
  {
    var q := ConstWalk(p, ty, index, cs).value;
    if cs == [] {
      assert Consts(cs) == [];
    } else {
      var t := TypeInside(ty, index).value;
      var s := SumBehind(Layout(t), Unsigned(cs[0]));
      LayoutNonNegative(t);
      SumBehindMonotone(Layout(t), 0, Unsigned(cs[0]));
      ConstWalkGrows(p + s, t, cs[0], cs[1..]);
      var idx := Consts(cs);
      assert idx[0] == Const(cs[0]) && idx[1..] == Consts(cs[1..]);
      assert Step(Layout(t), idx[0]) == Range(s, s);
      assert Min(w) < 0 <= s && p + s <= q;
      AddPoints(p, s, w);
      assert Walk(Range(p, p), ty, index, idx, w) == Walk(Range(p + s, p + s), t, cs[0], Consts(cs[1..]), w);
      ConstWalkSingleton(lo, p + s, t, cs[0], cs[1..], w);
    }
  }

  /** Away from the sentinels the sum of two one-point ranges is the one-point range of the sum. */
  lemma AddPoints(p: int, s: int, w: nat)
    requires w >= 1 && Min(w) < p < Max(w) && Min(w) < s < Max(w)
    ensures Add(Range(p, p), Range(s, s), w) == Range(p + s, p + s)
  {
  }

  /** A GEP with constant indexes only has the singleton offset n*c plus the sums behind. */
  lemma ConstGepSingleton(pointee: Type, cs: seq<int>, w: nat)
    requires w >= 1 && cs != [] && ConstOffset(pointee, cs).Some?
    requires Min(w) < NumPrimitives(pointee) * cs[0]
    requires ConstOffset(pointee, cs).value < Max(w)
    requires ConstOffset(pointee, cs).value - NumPrimitives(pointee) * cs[0] < Max(w)
    ensures GepOffset(pointee, Consts(cs), w) == Some(Range(ConstOffset(pointee, cs).value, ConstOffset(pointee, cs).value))
  {
    var b := NumPrimitives(pointee) * cs[0];
    assert Consts(cs)[1..] == Consts(cs[1..]);
    ConstWalkSingleton(b, b, Pointer(pointee), 0, cs[1..], w);
  }

  /** The run-time value c is one the index i allows: the constant itself, or a value of the range. */
  predicate Picks(i: Index, c: int) {
    match i
    case Const(k) => c == k
    case Dyn(a) => Contains(a, c)
  }

  /**
   * cs lists run-time values for the later indexes idx of a walk from type
   * ty: each is one its index allows, and a variable index holds a value in
   * [0, 2^32) and never selects a struct field (struct indexes are
   * constants in LLVM).
   */
  predicate Allows(ty: Type, index: int, idx: seq<Index>, cs: seq<int>)
    decreases |idx|
  {
    |idx| == |cs| &&
    (idx != [] ==>
       match TypeInside(ty, index)
       case None => true
       case Some(t) =>
         Picks(idx[0], cs[0]) && (idx[0].Dyn? ==> 0 <= cs[0] < U32 && !t.Struct?) &&
         Allows(t, NextIndex(idx[0]), idx[1..], cs[1..]))
  }

  /** Once a bound of the walk is a sentinel it stays one. */
  lemma {:induction false} WalkKeepsSentinels(r: Range, ty: Type, index: int, idx: seq<Index>, w: nat)
    requires w >= 1 && Walk(r, ty, index, idx, w).Some?
    ensures r.lower == Min(w) ==> Walk(r, ty, index, idx, w).value.lower == Min(w)
    ensures r.upper == Max(w) ==> Walk(r, ty, index, idx, w).value.upper == Max(w)
    decreases |idx|
  {
    if idx != [] {
      var t := TypeInside(ty, index).value;
      WalkKeepsSentinels(Add(r, Step(Layout(t), idx[0]), w), t, NextIndex(idx[0]), idx[1..], w);
    }
  }

  /**
   * The walk over the later indexes: when the range it ends with has no
   * sentinel bound, it holds the offset of every choice of run-time index
   * values the ranges allow.  iw is the walk's struct selector and ic the
   * one of the constant walk; they select the same type.
   */
  lemma {:induction false} WalkContains(r: Range, p: int, ty: Type, iw: int, ic: int, idx: seq<Index>, cs: seq<int>, w: nat)
    requires w >= 1 && Contains(r, p) && Allows(ty, iw, idx, cs) && TypeInside(ty, iw) == TypeInside(ty, ic)
    requires Walk(r, ty, iw, idx, w).Some?
    requires Walk(r, ty, iw, idx, w).value.lower != Min(w) && Walk(r, ty, iw, idx, w).value.upper != Max(w)
    ensures ConstWalk(p, ty, ic, cs).Some?
    ensures Contains(Walk(r, ty, iw, idx, w).value, ConstWalk(p, ty, ic, cs).value)
    decreases |idx|
  {
    if idx != [] {
      var t := TypeInside(ty, iw).value;
      var layout := Layout(t);
      var r' := Add(r, Step(layout, idx[0]), w);
      var k := SumBehind(layout, Unsigned(cs[0]));
      WalkUnfold(r, p, ty, iw, ic, idx, cs, w);
      WalkKeepsSentinels(r', t, NextIndex(idx[0]), idx[1..], w);
      StepAdvances(r, p, layout, idx[0], cs[0], w);
      WalkContains(r', p + k, t, NextIndex(idx[0]), cs[0], idx[1..], cs[1..], w);
    }
  }

  /** One step of the walk, of the constant walk and of Allows, side by side. */
  lemma WalkUnfold(r: Range, p: int, ty: Type, iw: int, ic: int, idx: seq<Index>, cs: seq<int>, w: nat)
    requires w >= 1 && idx != [] && Allows(ty, iw, idx, cs) && TypeInside(ty, iw) == TypeInside(ty, ic)
    requires TypeInside(ty, iw).Some?
    ensures var t := TypeInside(ty, iw).value;
      Walk(r, ty, iw, idx, w) == Walk(Add(r, Step(Layout(t), idx[0]), w), t, NextIndex(idx[0]), idx[1..], w) &&
      ConstWalk(p, ty, ic, cs) == ConstWalk(p + SumBehind(Layout(t), Unsigned(cs[0])), t, cs[0], cs[1..]) &&
      Picks(idx[0], cs[0]) && (idx[0].Dyn? ==> 0 <= cs[0] < U32) &&
      Allows(t, NextIndex(idx[0]), idx[1..], cs[1..]) &&
      TypeInside(t, NextIndex(idx[0])) == TypeInside(t, cs[0])
  {
    var t := TypeInside(ty, iw).value;
    assert TypeInside(ty, ic) == Some(t);
    assert Picks(idx[0], cs[0]) && (idx[0].Dyn? ==> 0 <= cs[0] < U32 && !t.Struct?);
    if idx[0].Const? {
      assert NextIndex(idx[0]) == cs[0];
    } else {
      assert !t.Struct?;
    }
  }

  /**
   * One later index: the offset selected by an allowed value c lies in the
   * range after the step, when that range has no sentinel bound.
   */
  lemma StepAdvances(r: Range, p: int, layout: seq<int>, i: Index, c: int, w: nat)
    requires w >= 1 && NonNegative(layout) && Contains(r, p) && Picks(i, c) && (i.Dyn? ==> 0 <= c < U32)
    requires Add(r, Step(layout, i), w).lower != Min(w) && Add(r, Step(layout, i), w).upper != Max(w)
    ensures Contains(Add(r, Step(layout, i), w), p + SumBehind(layout, Unsigned(c)))
  {
    var s := Step(layout, i);
    var k := SumBehind(layout, Unsigned(c));
    StepNonNegative(layout, i);
    if i.Dyn? {
      assert Unsigned(c) == c;
      StepContains(layout, i.range, c);
    }
    assert Contains(s, k);
    assert Min(w) < 0 <= s.lower;
    assert r.lower != Min(w) && r.upper != Max(w) && s.upper != Max(w);
  }

  /**
   * processGEP's promise, with the corrected conversion of variable bounds:
   * when neither bound of the result is a sentinel, the range holds the
   * offset of every choice of index values the index ranges allow.
   */
  lemma GepContains(pointee: Type, idx: seq<Index>, cs: seq<int>, w: nat)
    requires w >= 1 && idx != [] && |cs| == |idx| && Picks(idx[0], cs[0])
    requires Allows(Pointer(pointee), 0, idx[1..], cs[1..])
    requires GepOffset(pointee, idx, w).Some?
    requires GepOffset(pointee, idx, w).value.lower != Min(w) && GepOffset(pointee, idx, w).value.upper != Max(w)
    ensures ConstOffset(pointee, cs).Some?
    ensures Contains(GepOffset(pointee, idx, w).value, ConstOffset(pointee, cs).value)
  {
    var n := NumPrimitives(pointee);
    var r := FirstOffset(n, idx[0], w);
    WalkKeepsSentinels(r, Pointer(pointee), 0, idx[1..], w);
    if idx[0].Dyn? {
      var a := idx[0].range;
      assert r == Range(n * a.lower, n * a.upper);
      MulMonotone(n, a.lower, cs[0]);
      MulMonotone(n, cs[0], a.upper);
    }
    WalkContains(r, n * cs[0], Pointer(pointee), 0, 0, idx[1..], cs[1..], w);
  }

  lemma StepNonNegative(layout: seq<int>, i: Index)
    requires NonNegative(layout)
    ensures Step(layout, i).lower >= 0
  {
    match i
    case Const(c) => SumBehindMonotone(layout, Unsigned(c), Unsigned(c));
    case Dyn(a) => SumBehindMonotone(layout, ClampIndex(a.lower), ClampIndex(a.lower));
  }

  lemma MulMonotone(n: int, x: int, y: int)
    requires n >= 0 && x <= y
    ensures n * x <= n * y
  {
    assert n * y - n * x == n * (y - x);
  }

  /**
   * Element 3 of an array of four-unit structs {i1, i3}, then field 1: the
   * offset is 3*4 + 1.
   */
  lemma GepExample()
    ensures GepOffset(Struct([Scalar(1), Scalar(3)]), [Const(3), Const(1)], 8) == Some(Range(13, 13))
  {
    var t := Struct([Scalar(1), Scalar(3)]);
    assert FieldSum(t, 1) == 1;
    assert NumPrimitives(t) == 4;
    assert Min(8) == -128 && Max(8) == 127;
  }

  // ---------------------------------------------------------------------
  // The memoising implementation

  /** getSumBehind: a down-counting loop over the first i entries. */
  method GetSumBehind(v: seq<int>, i: nat) returns (s: int)
    requires i < U32
    ensures s == SumBehind(v, i)
  {
    var k := i;
    if k > |v| {
      k := |v|;
    }
    s := 0;
    var j: int := k - 1;
    while j >= 0
      invariant -1 <= j < k <= |v|
      invariant s == Prefix(v, k) - Prefix(v, j + 1)
    {
      s := s + v[j];
      j := j - 1;
    }
  }

  /** The Primitives object: memo tables of unit counts and layouts, searched linearly. */
  class PrimitivesCache {
    var numPrimitives: seq<(Type, int)>
    var primitiveLayouts: seq<(Type, seq<int>)>

    /** Every memoised entry is the value of its type. */
    ghost predicate Valid()
      reads this
    {
      (forall k :: 0 <= k < |numPrimitives| ==> numPrimitives[k].1 == NumPrimitives(numPrimitives[k].0)) &&
      (forall k :: 0 <= k < |primitiveLayouts| ==> primitiveLayouts[k].1 == Layout(primitiveLayouts[k].0))
    }

    constructor()
      ensures Valid() && numPrimitives == [] && primitiveLayouts == []
    {
      numPrimitives, primitiveLayouts := [], [];
    }

    /**
     * getNumPrimitives: a memoised type answers from the table; otherwise the
     * count is computed, recursing into element and field types, and appended.
     */
    method GetNumPrimitives(t: Type) returns (np: int)
      requires Valid()
      modifies this`numPrimitives
      ensures Valid() && np == NumPrimitives(t)
      ensures old(numPrimitives) <= numPrimitives && (t, np) in numPrimitives
      ensures (exists k :: 0 <= k < |old(numPrimitives)| && old(numPrimitives)[k].0 == t) ==>
                numPrimitives == old(numPrimitives)
      decreases t
    {
      var i := 0;
      while i < |numPrimitives|
        invariant 0 <= i <= |numPrimitives|
        invariant forall k :: 0 <= k < i ==> numPrimitives[k].0 != t
      {
        if numPrimitives[i].0 == t {
          return numPrimitives[i].1;
        }
        i := i + 1;
      }
      match t {
        case Array(num, e) =>
          var n := GetNumPrimitives(e);
          np := num * n;
        case Struct(fs) =>
          np := 0;
          var k := 0;
          while k < |fs|
            invariant 0 <= k <= |fs| && Valid() && old(numPrimitives) <= numPrimitives
            invariant np == FieldSum(t, k)
          {
            assert fs[k] in fs;
            var n := GetNumPrimitives(fs[k]);
            np := np + n;
            k := k + 1;
          }
        case Vector(num, e) =>
          var n := GetNumPrimitives(e);
          np := num * n;
        case Pointer(_) =>
          np := 1;
        case Scalar(bits) =>
          np := bits;
          if np == 0 {
            np := 1;
          }
      }
      numPrimitives := numPrimitives + [(t, np)];
      assert numPrimitives[|numPrimitives| - 1] == (t, np);
    }

    /**
     * getPrimitiveLayout: a memoised type answers from the table; otherwise a
     * vector of the element or field sizes is filled in and appended.
     */
    method GetPrimitiveLayout(t: Type) returns (pm: seq<int>)
      requires Valid()
      modifies this
      ensures Valid() && pm == Layout(t)
      ensures old(numPrimitives) <= numPrimitives && old(primitiveLayouts) <= primitiveLayouts
      ensures (t, pm) in primitiveLayouts
      ensures (exists k :: 0 <= k < |old(primitiveLayouts)| && old(primitiveLayouts)[k].0 == t) ==>
                numPrimitives == old(numPrimitives) && primitiveLayouts == old(primitiveLayouts)
    {
      var i := 0;
      while i < |primitiveLayouts|
        invariant 0 <= i <= |primitiveLayouts|
        invariant forall k :: 0 <= k < i ==> primitiveLayouts[k].0 != t
      {
        if primitiveLayouts[i].0 == t {
          return primitiveLayouts[i].1;
        }
        i := i + 1;
      }
      if t.Array? || t.Vector? {
        var a := new int[t.num];
        var n := GetNumPrimitives(t.elem);
        ghost var nps := numPrimitives;
        for k := 0 to t.num
          invariant numPrimitives == nps && primitiveLayouts == old(primitiveLayouts)
          invariant forall j :: 0 <= j < k ==> a[j] == n
        {
          a[k] := n;
        }
        pm := a[..];
      } else if t.Struct? {
        var a := new int[|t.fields|];
        for k := 0 to |t.fields|
          invariant Valid() && old(numPrimitives) <= numPrimitives && primitiveLayouts == old(primitiveLayouts)
          invariant forall j :: 0 <= j < k ==> a[j] == NumPrimitives(t.fields[j])
        {
          var n := GetNumPrimitives(t.fields[k]);
          a[k] := n;
        }
        pm := a[..];
      } else {
        pm := [1];
      }
      primitiveLayouts := primitiveLayouts + [(t, pm)];
      assert primitiveLayouts[|primitiveLayouts| - 1] == (t, pm);
    }
  }

  /**
   * processGEP: scale the first index by the pointee's units, then for each
   * later index descend one type level and add the range its index selects
   * in that level's layout.  Variable-index bounds are clamped (Step), the
   * corrected form of the source's unsigned conversion.
   */
  method ProcessGEP(p: PrimitivesCache, pointee: Type, idx: seq<Index>, w: nat) returns (res: Option<Range>)
    requires w >= 1 && p.Valid()
    modifies p
    ensures p.Valid() && res == GepOffset(pointee, idx, w)
  {
    if idx == [] {
      return None;
    }
    var n := p.GetNumPrimitives(pointee);
    var r: Range;
    match idx[0] {
      case Const(c) =>
        r := Range(n * c, n * c);
      case Dyn(a) =>
        var lo := if a.lower == Min(w) then Min(w) else n * a.lower;
        var hi := if a.upper == Max(w) then Max(w) else n * a.upper;
        r := Range(lo, hi);
    }
    var ty := Pointer(pointee);
    var index := 0;
    var i := 1;
    while i < |idx|
      invariant 1 <= i <= |idx| && p.Valid()
      invariant Walk(r, ty, index, idx[i..], w) == GepOffset(pointee, idx, w)
    {
      var inside := TypeInside(ty, index);
      if inside.None? {
        return None;
      }
      ty := inside.value;
      var layout := p.GetPrimitiveLayout(ty);
      match idx[i] {
        case Const(c) =>
          var s := GetSumBehind(layout, Unsigned(c));
          r := Add(r, Range(s, s), w);
          index := c;
        case Dyn(a) =>
          var lo := GetSumBehind(layout, ClampIndex(a.lower));
          var hi := GetSumBehind(layout, ClampIndex(a.upper));
          r := Add(r, Range(lo, hi), w);
          index := 0;
      }
      assert idx[i..][1..] == idx[i + 1..];
      i := i + 1;
    }
    assert idx[i..] == [];
    res := Some(r);
  }
}
