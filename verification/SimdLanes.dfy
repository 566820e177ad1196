/** Integer vectors: the plain array form and the two packed forms of the same operations. */
module SimdLanes {
  import Placement

  // ---- lanes -------------------------------------------------------------------------------------

  type Lane = x: int | -0x8000_0000 <= x < 0x8000_0000

  /** Two's complement wrap-around. */
  function Wrap(x: int): Lane {
    (x + 0x8000_0000) % 0x1_0000_0000 - 0x8000_0000
  }

  datatype Op = Plus | Minus | Times

  function Apply(op: Op, a: Lane, b: Lane): Lane {
    match op
    case Plus => Wrap(a + b)
    case Minus => Wrap(a - b)
    case Times => Wrap(a * b)
  }

  datatype V2 = V2(x: Lane, y: Lane)

  /** Four lanes, lowest first: an array of four, or a 128-bit register. */
  datatype V4 = V4(x: Lane, y: Lane, z: Lane, w: Lane)

  function Low(v: V4): V2 { V2(v.x, v.y) }

  function High(v: V4): V2 { V2(v.z, v.w) }

  function Join(lo: V2, hi: V2): V4 { V4(lo.x, lo.y, hi.x, hi.y) }

  function Lanewise2(op: Op, a: V2, b: V2): V2 {
    V2(Apply(op, a.x, b.x), Apply(op, a.y, b.y))
  }

  function Lanewise4(op: Op, a: V4, b: V4): V4 {
    Join(Lanewise2(op, Low(a), Low(b)), Lanewise2(op, High(a), High(b)))
  }

  const ZERO2 := V2(0, 0)
  const ZERO4 := V4(0, 0, 0, 0)

  // ---- expressions -------------------------------------------------------------------------------

  /** Expressions of four lanes. A setter is the vector after the call. */
  datatype E4 =
    | Leaf(value: V4)
    | Concat(xy: E2, zw: E2)
    | SetXY(base: E4, part: E2)
    | SetZW(base: E4, part: E2)
    | Bin4(op: Op, left: E4, right: E4)
    | Neg4(arg: E4)

  /** Expressions of two lanes. Two scalars are also what a constant-folded half is. */
  datatype E2 =
    | Make2(x: Lane, y: Lane)
    | Splat2(x: Lane)
    | XY(whole: E4)
    | ZW(whole: E4)
    | Bin2(op: Op, left: E2, right: E2)
    | Neg2(arg: E2)

  /** The array form. */
  function Eval4(e: E4): V4 {
    match e
    case Leaf(v) => v
    case Concat(a, b) => Join(Eval2(a), Eval2(b))
    case SetXY(a, b) => Join(Eval2(b), High(Eval4(a)))
    case SetZW(a, b) => Join(Low(Eval4(a)), Eval2(b))
    case Bin4(op, a, b) => Lanewise4(op, Eval4(a), Eval4(b))
    case Neg4(a) => Lanewise4(Minus, ZERO4, Eval4(a))
  }

  function Eval2(e: E2): V2 {
    match e
    case Make2(x, y) => V2(x, y)
    case Splat2(x) => V2(x, x)
    case XY(a) => Low(Eval4(a))
    case ZW(a) => High(Eval4(a))
    case Bin2(op, a, b) => Lanewise2(op, Eval2(a), Eval2(b))
    case Neg2(a) => Lanewise2(Minus, ZERO2, Eval2(a))
  }

  // ---- the instructions ------------------------------------------------------------------------------

  datatype Path = Sse2 | Sse41

  function UnpackLo64(a: V4, b: V4): V4 { V4(a.x, a.y, b.x, b.y) }

  function UnpackHi64(a: V4, b: V4): V4 { V4(a.z, a.w, b.z, b.w) }

  /** Bit `k` of the mask takes the 16-bit word `k` from the second operand; only masks that
      treat the two words of a lane alike are used. */
  function BlendEpi16(a: V4, b: V4, mask: bv8): V4 {
    V4(if mask & 0x03 == 0x03 then b.x else a.x, if mask & 0x0c == 0x0c then b.y else a.y,
       if mask & 0x30 == 0x30 then b.z else a.z, if mask & 0xc0 == 0xc0 then b.w else a.w)
  }

  function Pack4(p: Path, e: E4): V4 {
    match e
    case Leaf(v) => v
    case Concat(a, b) => UnpackLo64(Pack2(p, a), Pack2(p, b))
    case SetXY(a, b) =>
      if p == Sse41 then BlendEpi16(Pack4(p, a), Pack2(p, b), 0x0f)
      else UnpackLo64(Pack2(p, b), UnpackHi64(Pack4(p, a), Pack4(p, a)))
    case SetZW(a, b) =>
      if p == Sse41 then BlendEpi16(Pack4(p, a), Pack2(p, b), 0xf0)
      else UnpackLo64(Pack4(p, a), Pack2(p, b))
    case Bin4(op, a, b) => Lanewise4(op, Pack4(p, a), Pack4(p, b))
    case Neg4(a) => Lanewise4(Minus, ZERO4, Pack4(p, a))
  }

  /** A two-lane value is a register of which only the lower lanes are live. */
  function Pack2(p: Path, e: E2): V4 {
    match e
    case Make2(x, y) => V4(x, y, 0, 0)
    case Splat2(x) => V4(x, x, 0, 0)
    case XY(a) => UnpackLo64(Pack4(p, a), Pack4(p, a))
    case ZW(a) => UnpackHi64(Pack4(p, a), Pack4(p, a))
    case Bin2(op, a, b) => Lanewise4(op, Pack2(p, a), Pack2(p, b))
    case Neg2(a) => Lanewise4(Minus, ZERO4, Pack2(p, a))
  }

  // ---- agreement -------------------------------------------------------------------------------------

  /** The upper lanes that a two-lane value carries along: zero for scalars, a copy of the
      lower ones for halves, computed with them otherwise. */
  function Upper(e: E2): V2 {
    match e
    case Make2(x, y) => ZERO2
    case Splat2(x) => ZERO2
    case XY(a) => Low(Eval4(a))
    case ZW(a) => High(Eval4(a))
    case Bin2(op, a, b) => Lanewise2(op, Upper(a), Upper(b))
    case Neg2(a) => Lanewise2(Minus, ZERO2, Upper(a))
  }

  /** Whether every upper half that is set carries a copy of itself. */
  predicate Copied4(e: E4) {
    match e
    case Leaf(v) => true
    case Concat(a, b) => Copied2(a) && Copied2(b)
    case SetXY(a, b) => Copied4(a) && Copied2(b)
    case SetZW(a, b) => Copied4(a) && Copied2(b) && Upper(b) == Eval2(b)
    case Bin4(op, a, b) => Copied4(a) && Copied4(b)
    case Neg4(a) => Copied4(a)
  }

  predicate Copied2(e: E2) {
    match e
    case Make2(x, y) => true
    case Splat2(x) => true
    case XY(a) => Copied4(a)
    case ZW(a) => Copied4(a)
    case Bin2(op, a, b) => Copied2(a) && Copied2(b)
    case Neg2(a) => Copied2(a)
  }

  lemma BlendsMeaning(a: V4, b: V4)
    ensures BlendEpi16(a, b, 0x0f) == Join(Low(b), High(a))
    ensures BlendEpi16(a, b, 0xf0) == Join(Low(a), High(b))
  {
  }

  lemma {:induction false} PackedAgrees4(p: Path, e: E4)
    requires p == Sse2 || Copied4(e)
    ensures Pack4(p, e) == Eval4(e)
    decreases e
  {
    match e {
      case Leaf(v) =>
      case Concat(a, b) => PackedAgrees2(p, a); PackedAgrees2(p, b);
      case SetXY(a, b) => PackedAgrees4(p, a); PackedAgrees2(p, b); BlendsMeaning(Pack4(p, a), Pack2(p, b));
      case SetZW(a, b) => PackedAgrees4(p, a); PackedAgrees2(p, b); BlendsMeaning(Pack4(p, a), Pack2(p, b));
      case Bin4(op, a, b) => PackedAgrees4(p, a); PackedAgrees4(p, b);
      case Neg4(a) => PackedAgrees4(p, a);
    }
  }

  lemma {:induction false} PackedAgrees2(p: Path, e: E2)
    requires p == Sse2 || Copied2(e)
    ensures Pack2(p, e) == Join(Eval2(e), Upper(e))
    decreases e
  {
    match e {
      case Make2(x, y) =>
      case Splat2(x) =>
      case XY(a) => PackedAgrees4(p, a);
      case ZW(a) => PackedAgrees4(p, a);
      case Bin2(op, a, b) => PackedAgrees2(p, a); PackedAgrees2(p, b);
      case Neg2(a) => PackedAgrees2(p, a);
    }
  }

  /** Built from four-lane vectors only: two-lane values are halves and what is computed from them. */
  predicate FromHalves4(e: E4) {
    match e
    case Leaf(v) => true
    case Concat(a, b) => FromHalves2(a) && FromHalves2(b)
    case SetXY(a, b) => FromHalves4(a) && FromHalves2(b)
    case SetZW(a, b) => FromHalves4(a) && FromHalves2(b)
    case Bin4(op, a, b) => FromHalves4(a) && FromHalves4(b)
    case Neg4(a) => FromHalves4(a)
  }

  predicate FromHalves2(e: E2) {
    match e
    case Make2(x, y) => false
    case Splat2(x) => false
    case XY(a) => FromHalves4(a)
    case ZW(a) => FromHalves4(a)
    case Bin2(op, a, b) => FromHalves2(a) && FromHalves2(b)
    case Neg2(a) => FromHalves2(a)
  }

  lemma {:induction false} HalvesAreCopied4(e: E4)
    requires FromHalves4(e)
    ensures Copied4(e)
    decreases e
  {
    match e {
      case Leaf(v) =>
      case Concat(a, b) => HalvesAreCopied2(a); HalvesAreCopied2(b);
      case SetXY(a, b) => HalvesAreCopied4(a); HalvesAreCopied2(b);
      case SetZW(a, b) => HalvesAreCopied4(a); HalvesAreCopied2(b);
      case Bin4(op, a, b) => HalvesAreCopied4(a); HalvesAreCopied4(b);
      case Neg4(a) => HalvesAreCopied4(a);
    }
  }

  lemma {:induction false} HalvesAreCopied2(e: E2)
    requires FromHalves2(e)
    ensures Copied2(e) && Upper(e) == Eval2(e)
    decreases e
  {
    match e {
      case XY(a) => HalvesAreCopied4(a);
      case ZW(a) => HalvesAreCopied4(a);
      case Bin2(op, a, b) => HalvesAreCopied2(a); HalvesAreCopied2(b);
      case Neg2(a) => HalvesAreCopied2(a);
    }
  }

  /** Every expression over four-lane vectors has the same lanes in all three forms, and its
      two-lane values carry a copy of themselves. */
  lemma PackedFormsRefineArrays(p: Path, e: E4, half: E2)
    requires FromHalves4(e) && FromHalves2(half)
    ensures Pack4(p, e) == Eval4(e)
    ensures Pack2(p, half) == Join(Eval2(half), Eval2(half))
  {
    HalvesAreCopied4(e);
    HalvesAreCopied2(half);
    PackedAgrees4(p, e);
    PackedAgrees2(p, half);
  }

  /** Setting the upper half by blending is right exactly when the two-lane value carries a copy
      of itself; unpacking is always right. A value made of two scalars is such a copy only
      when both are zero. */
  lemma SettingUpperHalfExactly(base: E4, part: E2)
    requires Copied4(base) && Copied2(part)
    ensures Pack4(Sse41, SetZW(base, part)) == Eval4(SetZW(base, part)) <==> Upper(part) == Eval2(part)
    ensures Pack4(Sse2, SetZW(base, part)) == Eval4(SetZW(base, part))
    ensures part.Make2? ==> (Upper(part) == Eval2(part) <==> part.x == 0 && part.y == 0)
    ensures part.Splat2? ==> (Upper(part) == Eval2(part) <==> part.x == 0)
  {
    PackedAgrees4(Sse41, base);
    PackedAgrees2(Sse41, part);
    PackedAgrees4(Sse2, SetZW(base, part));
    BlendsMeaning(Pack4(Sse41, base), Pack2(Sse41, part));
  }

  // ---- the objects ---------------------------------------------------------------------------------------

  function LanewiseSeq(op: Op, a: seq<Lane>, b: seq<Lane>): (r: seq<Lane>)
    requires |a| == |b|
    ensures |r| == |a|
  {
    seq(|a|, i requires 0 <= i < |a| => Apply(op, a[i], b[i]))
  }

  /** The plain array form, of two or four lanes. */
  class ArrayVec {
    const val: array<Lane>

    constructor (lanes: seq<Lane>)
      ensures fresh(val) && val[..] == lanes
    {
      val := new Lane[|lanes|](i requires 0 <= i < |lanes| => lanes[i]);
    }

    method XY() returns (v: ArrayVec)
      requires val.Length == 4
      ensures fresh(v) && fresh(v.val) && v.val[..] == val[..2]
    {
      v := new ArrayVec([val[0], val[1]]);
    }

    method ZW() returns (v: ArrayVec)
      requires val.Length == 4
      ensures fresh(v) && fresh(v.val) && v.val[..] == val[2..]
    {
      v := new ArrayVec([val[2], val[3]]);
    }

    method SetXY(rhs: ArrayVec)
      requires val.Length == 4 && rhs.val.Length == 2
      modifies val
      ensures val[..] == old(rhs.val[..] + val[2..])
    {
      val[0] := rhs.val[0];
      val[1] := rhs.val[1];
    }

    method SetZW(rhs: ArrayVec)
      requires val.Length == 4 && rhs.val.Length == 2
      modifies val
      ensures val[..] == old(val[..2] + rhs.val[..])
    {
      val[2] := rhs.val[0];
      val[3] := rhs.val[1];
    }

    /** Compound assignment, lane by lane in place; the operand may be this vector. */
    method Assign(op: Op, rhs: ArrayVec)
      requires val.Length == rhs.val.Length
      modifies val
      ensures val[..] == old(LanewiseSeq(op, val[..], rhs.val[..]))
    {
      for i := 0 to val.Length
        invariant forall j :: 0 <= j < i ==> val[j] == Apply(op, old(val[j]), old(rhs.val[j]))
        invariant forall j :: i <= j < val.Length ==> val[j] == old(val[j]) && rhs.val[j] == old(rhs.val[j])
      {
        val[i] := Apply(op, val[i], rhs.val[i]);
      }
    }
  }

  /** The packed form: a register, of which a two-lane value uses the lower half. */
  class PackedVec {
    const path: Path
    var val: V4

    constructor (path: Path, val: V4)
      ensures this.path == path && this.val == val
    {
      this.path, this.val := path, val;
    }

    method XY() returns (v: PackedVec)
      ensures fresh(v) && v.path == path && v.val == Join(Low(val), Low(val))
    {
      v := new PackedVec(path, UnpackLo64(val, val));
    }

    method ZW() returns (v: PackedVec)
      ensures fresh(v) && v.path == path && v.val == Join(High(val), High(val))
    {
      v := new PackedVec(path, UnpackHi64(val, val));
    }

    /** The other lanes stay whatever the operand carries along. */
    method SetXY(rhs: PackedVec)
      modifies this
      ensures val == old(Join(Low(rhs.val), High(val)))
    {
      BlendsMeaning(val, rhs.val);
      if path == Sse41 {
        val := BlendEpi16(val, rhs.val, 0x0f);
      } else {
        val := UnpackLo64(rhs.val, UnpackHi64(val, val));
      }
    }

    method SetZW(rhs: PackedVec)
      modifies this
      ensures val == old(Join(Low(val), if path == Sse41 then High(rhs.val) else Low(rhs.val)))
    {
      BlendsMeaning(val, rhs.val);
      if path == Sse41 {
        val := BlendEpi16(val, rhs.val, 0xf0);
      } else {
        val := UnpackLo64(val, rhs.val);
      }
    }

    method Assign(op: Op, rhs: PackedVec)
      modifies this
      ensures val == old(Lanewise4(op, val, rhs.val))
    {
      val := Lanewise4(op, val, rhs.val);
    }
  }

  // ---- a client: the shadow margin -------------------------------------------------------------------------

  /** The two setters of the margin, over whatever the result held before. */
  function MarginExpression(garbage: V4, outer: V4, inner: V4): E4 {
    var first := SetXY(Leaf(garbage), Bin2(Minus, XY(Leaf(inner)), XY(Leaf(outer))));
    SetZW(first, Bin2(Minus, Bin2(Plus, XY(first), ZW(Leaf(outer))), ZW(Leaf(inner))))
  }

  function EdgesOf(v: V4): Placement.Edges {
    Placement.Edges(v.x, v.y, v.z, v.w)
  }

  lemma MarginEvaluates(garbage: V4, outer: V4, inner: V4)
    ensures var e := MarginExpression(garbage, outer, inner);
      var low := Lanewise2(Minus, Low(inner), Low(outer));
      && FromHalves4(e)
      && Eval4(e) == Join(low, Lanewise2(Minus, Lanewise2(Plus, low, High(outer)), High(inner)))
  {
    hide Lanewise2;
    var shift := Bin2(Minus, XY(Leaf(inner)), XY(Leaf(outer)));
    HalfMeaning(inner);
    HalfMeaning(outer);
    assert FromHalves2(shift) && Eval2(shift) == Lanewise2(Minus, Low(inner), Low(outer));
    var first := SetXY(Leaf(garbage), shift);
    assert FromHalves4(first) && Low(Eval4(first)) == Eval2(shift);
    var sum := Bin2(Plus, XY(first), ZW(Leaf(outer)));
    assert FromHalves2(XY(first)) && Eval2(XY(first)) == Eval2(shift);
    assert FromHalves2(sum) && Eval2(sum) == Lanewise2(Plus, Eval2(shift), High(outer));
    var size := Bin2(Minus, sum, ZW(Leaf(inner)));
    assert FromHalves2(size) && Eval2(size) == Lanewise2(Minus, Eval2(sum), High(inner));
    assert FromHalves4(SetZW(first, size)) && Eval4(SetZW(first, size)) == Join(Eval2(shift), Eval2(size));
  }

  /** In every form, and whatever the result held, the margin is the wrapped one of the plain
      formula, which is the formula itself when the latter needs no more than 32 bits. */
  lemma MarginInEveryForm(p: Path, garbage: V4, outer: V4, inner: V4)
    ensures var m := Placement.ShadowMargin(EdgesOf(outer), EdgesOf(inner));
      var v := Pack4(p, MarginExpression(garbage, outer, inner));
      && v == Eval4(MarginExpression(garbage, outer, inner))
      && v == V4(Wrap(m.x), Wrap(m.y), Wrap(m.w), Wrap(m.h))
      && (m.x == Wrap(m.x) && m.y == Wrap(m.y) && m.w == Wrap(m.w) && m.h == Wrap(m.h) ==>
            m == Placement.Rect(v.x, v.y, v.z, v.w))
  {
    MarginEvaluates(garbage, outer, inner);
    hide Wrap, Eval4, Pack4, FromHalves4, MarginExpression;
    HalfMeaning(inner);
    PackedFormsRefineArrays(p, MarginExpression(garbage, outer, inner), XY(Leaf(inner)));
    WrapChain(inner.x, outer.x, outer.z, inner.z);
    WrapChain(inner.y, outer.y, outer.w, inner.w);
  }

  lemma HalfMeaning(v: V4)
    ensures FromHalves2(XY(Leaf(v))) && Eval2(XY(Leaf(v))) == Low(v)
    ensures FromHalves2(ZW(Leaf(v))) && Eval2(ZW(Leaf(v))) == High(v)
  {
    assert FromHalves4(Leaf(v)) && Eval4(Leaf(v)) == v;
  }

  lemma WrapAgain(x: int, y: int)
    ensures Wrap(Wrap(x) + y) == Wrap(x + y)
  {
    var q := (x + 0x8000_0000) / 0x1_0000_0000;
    assert Wrap(x) == x - q * 0x1_0000_0000;
  }

  /** Wrapping at each step is wrapping once. */
  lemma WrapChain(a: Lane, b: Lane, c: Lane, d: Lane)
    ensures Wrap(Wrap(Wrap(a - b) + c) - d) == Wrap((c - b) - (d - a))
  {
    hide Wrap;
    WrapAgain(a - b, c);
    WrapAgain(a - b + c, 0 - d);
    assert a - b + c - d == (c - b) - (d - a);
  }

  function ArrayOf(v: V4): seq<Lane> { [v.x, v.y, v.z, v.w] }

  function VecOf(s: seq<Lane>): (v: V4)
    requires |s| == 4
    ensures ArrayOf(v) == s
  {
    V4(s[0], s[1], s[2], s[3])
  }

  function PairOf(v: V2): seq<Lane> { [v.x, v.y] }

  lemma LanewisePairs(op: Op, a: V2, b: V2)
    ensures LanewiseSeq(op, PairOf(a), PairOf(b)) == PairOf(Lanewise2(op, a, b))
  {
  }

  lemma Halves(v: V4)
    ensures ArrayOf(v)[..2] == PairOf(Low(v)) && ArrayOf(v)[2..] == PairOf(High(v))
    ensures ArrayOf(v) == PairOf(Low(v)) + PairOf(High(v))
  {
  }

  /** The two statements on plain arrays leave the array value of the expression. */
  method ArrayShadowMargin(margin: ArrayVec, outer: ArrayVec, inner: ArrayVec)
    requires margin.val.Length == 4 && outer.val.Length == 4 && inner.val.Length == 4
    requires margin.val != outer.val && margin.val != inner.val
    modifies margin.val
    ensures margin.val[..] ==
      old(ArrayOf(Eval4(MarginExpression(VecOf(margin.val[..]), VecOf(outer.val[..]), VecOf(inner.val[..])))))
  {
    ghost var g, o, n := VecOf(margin.val[..]), VecOf(outer.val[..]), VecOf(inner.val[..]);
    MarginEvaluates(g, o, n);
    ghost var low := Lanewise2(Minus, Low(n), Low(o));
    ghost var sum := Lanewise2(Plus, low, High(o));
    LanewisePairs(Minus, Low(n), Low(o));
    LanewisePairs(Plus, low, High(o));
    LanewisePairs(Minus, sum, High(n));
    Halves(g);
    Halves(o);
    Halves(n);
    Halves(Join(low, High(g)));
    Halves(Join(low, Lanewise2(Minus, sum, High(n))));
    hide ArrayOf, PairOf, LanewiseSeq, Lanewise2, MarginExpression, Eval4, VecOf;
    var shift := inner.XY();
    var outerXY := outer.XY();
    shift.Assign(Minus, outerXY);
    margin.SetXY(shift);
    assert margin.val[..] == ArrayOf(Join(low, High(g)));
    var size := margin.XY();
    var outerZW := outer.ZW();
    size.Assign(Plus, outerZW);
    var innerZW := inner.ZW();
    size.Assign(Minus, innerZW);
    margin.SetZW(size);
  }

  /** The same statements on packed vectors leave the packed value, in both paths. */
  method PackedShadowMargin(margin: PackedVec, outer: PackedVec, inner: PackedVec)
    requires margin != outer && margin != inner && outer.path == inner.path == margin.path
    modifies margin
    ensures margin.val == old(Pack4(margin.path, MarginExpression(margin.val, outer.val, inner.val)))
  {
    ghost var g := margin.val;
    MarginEvaluates(g, outer.val, inner.val);
    HalfMeaning(inner.val);
    PackedFormsRefineArrays(margin.path, MarginExpression(g, outer.val, inner.val), XY(Leaf(inner.val)));
    hide Pack4, Eval4, MarginExpression, FromHalves4, Apply;
    var shift := inner.XY();
    var outerXY := outer.XY();
    shift.Assign(Minus, outerXY);
    margin.SetXY(shift);
    var size := margin.XY();
    var outerZW := outer.ZW();
    size.Assign(Plus, outerZW);
    var innerZW := inner.ZW();
    size.Assign(Minus, innerZW);
    margin.SetZW(size);
  }
}
