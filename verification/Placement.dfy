/** Relative window placement: the float formula, the shadow margin and the cached operation. */
module Placement {
  import opened Wrappers
  import opened Win32
  import Binary32

  // ---- rounding the formula is evaluated with -------------------------------------

  const LIMIT := 0x100_0000

  ghost predicate IsSmallInt(x: real) {
    x == x.Floor as real && -16777216.0 < x < 16777216.0
  }

  /** What the placement needs of float rounding: it is monotone and keeps integers below 2^24. */
  ghost predicate Rounding(fl: real -> real) {
    && (forall x: real, y: real :: x <= y ==> fl(x) <= fl(y))
    && (forall x: real :: IsSmallInt(x) ==> fl(x) == x)
  }

  /** binary32 rounding, extended by the identity beyond the finite range. */
  ghost function Binary32Rounding(x: real): real {
    if Binary32.InRange(x) then Binary32.Round(x).Val() else x
  }

  lemma RoundIsMonotone(x: real, y: real)
    requires Binary32.InRange(x) && Binary32.InRange(y) && x <= y
    ensures Binary32.Round(x).Val() <= Binary32.Round(y).Val()
  {
    hide Binary32.Rint, Binary32.Ldexp, Binary32.Quantum, Binary32.Round;
    Binary32.RoundIsNearest(x, Binary32.Round(y));
    Binary32.RoundIsNearest(y, Binary32.Round(x));
  }

  lemma RoundStaysInRange(x: real)
    requires Binary32.InRange(x)
    ensures Binary32.InRange(Binary32.Round(x).Val())
  {
    Binary32.RoundKeeps(Binary32.Round(x));
  }

  /** The processor's rounding is such a rounding. */
  lemma Binary32RoundingQualifies()
    ensures Rounding(Binary32Rounding)
  {
    forall x: real, y: real | x <= y
      ensures Binary32Rounding(x) <= Binary32Rounding(y)
    {
      if Binary32.InRange(x) { RoundStaysInRange(x); }
      if Binary32.InRange(y) { RoundStaysInRange(y); }
      if Binary32.InRange(x) && Binary32.InRange(y) {
        RoundIsMonotone(x, y);
      }
    }
    forall x: real | IsSmallInt(x)
      ensures Binary32Rounding(x) == x
    {
      Binary32.RoundKeepsInt(x.Floor);
    }
  }

  // ---- the formula -------------------------------------------------------------------

  /** One axis of the rectangle. */
  datatype Span = Span(pos: int, size: int)

  /** The exact product of a fraction and a length. */
  function Fraction(r: real, n: int): real {
    r * n as real
  }

  /** The size is a ceiling and the offset a floor of rounded products. All other
      operands are integers, so the remaining float operations are exact. */
  function PlaceSize(fl: real -> real, extent: int, relSize: real): int {
    Binary32.Ceil(fl(Fraction(relSize, extent)))
  }

  function PlaceOffset(fl: real -> real, space: int, relPos: real): int {
    fl(Fraction(relPos, space)).Floor
  }

  function Place(fl: real -> real, origin: int, extent: int, relPos: real, relSize: real): Span {
    var size := PlaceSize(fl, extent, relSize);
    var space := fl((extent - size) as real).Floor;
    Span(fl(origin as real + PlaceOffset(fl, space, relPos) as real).Floor, size)
  }

  /** A work area whose edges binary32 represents exactly. */
  predicate Moderate(origin: int, extent: int) {
    0 <= extent && -LIMIT < origin && origin + extent < LIMIT && extent < LIMIT
  }

  lemma FractionBetween(r: real, n: int)
    requires 0.0 <= r <= 1.0 && n >= 0
    ensures 0.0 <= Fraction(r, n) <= n as real
    ensures r == 0.0 ==> Fraction(r, n) == 0.0
    ensures r == 1.0 ==> Fraction(r, n) == n as real
  {
    ProductNonnegative(r, n as real);
    ProductNonnegative(1.0 - r, n as real);
    assert (1.0 - r) * n as real == n as real - Fraction(r, n);
  }

  lemma ProductNonnegative(a: real, b: real)
    requires a >= 0.0 && b >= 0.0
    ensures a * b >= 0.0
  {
  }

  lemma RoundedBetween(fl: real -> real, p: real, n: int)
    requires Rounding(fl) && 0 <= n < LIMIT && 0.0 <= p <= n as real
    ensures 0.0 <= fl(p) <= n as real
    ensures p == 0.0 ==> fl(p) == 0.0
    ensures p == n as real ==> fl(p) == n as real
  {
    assert IsSmallInt(0.0) && IsSmallInt(n as real);
    assert fl(0.0) <= fl(p) <= fl(n as real);
  }

  lemma RoundedMonotone(fl: real -> real, x: real, y: real)
    requires Rounding(fl) && x <= y
    ensures fl(x) <= fl(y)
  {
  }

  lemma RoundedInt(fl: real -> real, n: int)
    requires Rounding(fl) && -LIMIT < n < LIMIT
    ensures fl(n as real) == n as real
  {
    assert IsSmallInt(n as real);
  }

  lemma PlaceSizeBounds(fl: real -> real, extent: int, relSize: real)
    requires Rounding(fl) && 0 <= extent < LIMIT && 0.0 <= relSize <= 1.0
    ensures 0 <= PlaceSize(fl, extent, relSize) <= extent
    ensures relSize == 0.0 ==> PlaceSize(fl, extent, relSize) == 0
    ensures relSize == 1.0 ==> PlaceSize(fl, extent, relSize) == extent
  {
    hide Rounding, Fraction;
    FractionBetween(relSize, extent);
    RoundedBetween(fl, Fraction(relSize, extent), extent);
  }

  lemma PlaceOffsetBounds(fl: real -> real, space: int, relPos: real)
    requires Rounding(fl) && 0 <= space < LIMIT && 0.0 <= relPos <= 1.0
    ensures 0 <= PlaceOffset(fl, space, relPos) <= space
    ensures relPos == 0.0 ==> PlaceOffset(fl, space, relPos) == 0
    ensures relPos == 1.0 ==> PlaceOffset(fl, space, relPos) == space
  {
    hide Rounding, Fraction;
    FractionBetween(relPos, space);
    RoundedBetween(fl, Fraction(relPos, space), space);
  }

  /** The integer operations are exact: the span is the origin plus the offset in the free space. */
  lemma PlaceIsExact(fl: real -> real, origin: int, extent: int, relPos: real, relSize: real)
    requires Rounding(fl) && Moderate(origin, extent)
    requires 0.0 <= relPos <= 1.0 && 0.0 <= relSize <= 1.0
    ensures var size := PlaceSize(fl, extent, relSize);
      && 0 <= size <= extent
      && 0 <= PlaceOffset(fl, extent - size, relPos) <= extent - size
      && Place(fl, origin, extent, relPos, relSize) == Span(origin + PlaceOffset(fl, extent - size, relPos), size)
  {
    hide Rounding, PlaceSize, PlaceOffset;
    PlaceSizeBounds(fl, extent, relSize);
    var size := PlaceSize(fl, extent, relSize);
    PlaceOffsetBounds(fl, extent - size, relPos);
    var offset := PlaceOffset(fl, extent - size, relPos);
    RoundedInt(fl, extent - size);
    RoundedInt(fl, origin + offset);
    assert origin as real + offset as real == (origin + offset) as real;
  }

  /** The computed span lies inside the work area; 0 and 1 align it exactly to the two edges. */
  lemma PlacedInsideWorkArea(fl: real -> real, origin: int, extent: int, relPos: real, relSize: real)
    requires Rounding(fl) && Moderate(origin, extent)
    requires 0.0 <= relPos <= 1.0 && 0.0 <= relSize <= 1.0
    ensures var s := Place(fl, origin, extent, relPos, relSize);
      && origin <= s.pos && 0 <= s.size && s.pos + s.size <= origin + extent
      && (relPos == 0.0 ==> s.pos == origin)
      && (relPos == 1.0 ==> s.pos + s.size == origin + extent)
      && (relSize == 1.0 ==> s == Span(origin, extent))
  {
    PlaceIsExact(fl, origin, extent, relPos, relSize);
    PlaceSizeBounds(fl, extent, relSize);
    PlaceOffsetBounds(fl, extent - PlaceSize(fl, extent, relSize), relPos);
  }

  /** A rounded product stays between the integers around the exact one. */
  lemma RoundedBetweenIntegers(fl: real -> real, p: real, n: int)
    requires Rounding(fl) && 0 <= n < LIMIT && 0.0 <= p <= n as real
    ensures p.Floor as real <= fl(p) && fl(p) <= Binary32.Ceil(p) as real
  {
    assert IsSmallInt(p.Floor as real) && IsSmallInt(Binary32.Ceil(p) as real) by {
      assert 0 <= p.Floor <= n && 0 <= Binary32.Ceil(p) <= n;
    }
    assert fl(p.Floor as real) <= fl(p) <= fl(Binary32.Ceil(p) as real);
  }

  /** For all fractions in between, size and position are less than one pixel away from the exact
      size and from the exact position in the space that is left. */
  lemma PlacedWithinOnePixel(fl: real -> real, origin: int, extent: int, relPos: real, relSize: real)
    requires Rounding(fl) && Moderate(origin, extent)
    requires 0.0 <= relPos <= 1.0 && 0.0 <= relSize <= 1.0
    ensures var s := Place(fl, origin, extent, relPos, relSize);
      && -1.0 < s.size as real - Fraction(relSize, extent) < 1.0
      && -1.0 < (s.pos - origin) as real - Fraction(relPos, extent - s.size) < 1.0
  {
    hide Rounding, Fraction, Place, Binary32.Ceil;
    PlaceIsExact(fl, origin, extent, relPos, relSize);
    var s := Place(fl, origin, extent, relPos, relSize);
    FractionBetween(relSize, extent);
    RoundedBetweenIntegers(fl, Fraction(relSize, extent), extent);
    NearInteger(Fraction(relSize, extent), fl(Fraction(relSize, extent)));
    FractionBetween(relPos, extent - s.size);
    RoundedBetweenIntegers(fl, Fraction(relPos, extent - s.size), extent - s.size);
    NearInteger(Fraction(relPos, extent - s.size), fl(Fraction(relPos, extent - s.size)));
  }

  lemma NearInteger(p: real, q: real)
    requires p.Floor as real <= q <= Binary32.Ceil(p) as real
    ensures -1.0 < Binary32.Ceil(q) as real - p < 1.0
    ensures -1.0 < q.Floor as real - p < 1.0
  {
    assert p.Floor <= q.Floor && Binary32.Ceil(q) <= Binary32.Ceil(p);
  }

  /** Position is monotone in the relative position. */
  lemma PositionIsMonotone(fl: real -> real, origin: int, extent: int, p: real, p': real, s: real)
    requires Rounding(fl) && Moderate(origin, extent)
    requires 0.0 <= p <= p' <= 1.0 && 0.0 <= s <= 1.0
    ensures Place(fl, origin, extent, p, s).pos <= Place(fl, origin, extent, p', s).pos
  {
    hide Rounding, Fraction, Place, PlaceSize;
    PlaceIsExact(fl, origin, extent, p, s);
    PlaceIsExact(fl, origin, extent, p', s);
    var space := extent - PlaceSize(fl, extent, s);
    FractionMonotone(p, p', space);
    RoundedMonotone(fl, Fraction(p, space), Fraction(p', space));
  }

  /** Size is monotone in the relative size. */
  lemma SizeIsMonotone(fl: real -> real, origin: int, extent: int, p: real, s: real, s': real)
    requires Rounding(fl) && Moderate(origin, extent)
    requires 0.0 <= s <= s' <= 1.0
    ensures Place(fl, origin, extent, p, s).size <= Place(fl, origin, extent, p, s').size
  {
    hide Rounding, Fraction, PlaceOffset, Binary32.Ceil;
    FractionMonotone(s, s', extent);
    RoundedMonotone(fl, Fraction(s, extent), Fraction(s', extent));
    CeilMonotone(fl(Fraction(s, extent)), fl(Fraction(s', extent)));
  }

  lemma CeilMonotone(x: real, y: real)
    requires x <= y
    ensures Binary32.Ceil(x) <= Binary32.Ceil(y)
  {
  }

  lemma FractionMonotone(a: real, b: real, n: int)
    requires a <= b && n >= 0
    ensures Fraction(a, n) <= Fraction(b, n)
  {
  }

  // ---- the shadow margin ---------------------------------------------------------------

  /** Edges, as the system reports rectangles. */
  datatype Edges = Edges(left: int, top: int, right: int, bottom: int)

  /** Position and size, as window bounds are kept. */
  datatype Rect = Rect(x: int, y: int, w: int, h: int)

  /** Filled in two steps; the second reads what the first stored. */
  method GetWindowShadowMargin(outer: Edges, inner: Edges) returns (margin: Rect)
    ensures margin == ShadowMargin(outer, inner)
  {
    margin := Rect(inner.left - outer.left, inner.top - outer.top, 0, 0);
    margin := margin.(w := margin.x + outer.right - inner.right, h := margin.y + outer.bottom - inner.bottom);
  }

  /** The widths of the left and top shadows, and the total shadow width and height. */
  function ShadowMargin(outer: Edges, inner: Edges): Rect {
    Rect(inner.left - outer.left, inner.top - outer.top,
         (outer.right - outer.left) - (inner.right - inner.left),
         (outer.bottom - outer.top) - (inner.bottom - inner.top))
  }

  /** The margin is converted to floats, added in floats, and the sum is truncated. */
  function AddMargin(fl: real -> real, r: Rect, margin: Rect): Rect {
    Rect(AddRounded(fl, r.x, margin.x), AddRounded(fl, r.y, margin.y),
         AddRounded(fl, r.w, margin.w), AddRounded(fl, r.h, margin.h))
  }

  function AddRounded(fl: real -> real, n: int, margin: int): int {
    Binary32.Trunc(fl(n as real + fl(margin as real)))
  }

  /** A margin that is representable, like its sum with a number. */
  predicate Addable(n: int, margin: int) {
    -LIMIT < margin < LIMIT && -LIMIT < n + margin < LIMIT
  }

  predicate SmallMargin(r: Rect, margin: Rect) {
    Addable(r.x, margin.x) && Addable(r.y, margin.y) && Addable(r.w, margin.w) && Addable(r.h, margin.h)
  }

  lemma AddRoundedIsExact(fl: real -> real, n: int, margin: int)
    requires Rounding(fl) && Addable(n, margin)
    ensures AddRounded(fl, n, margin) == n + margin
  {
    RoundedInt(fl, margin);
    RoundedInt(fl, n + margin);
    assert n as real + margin as real == (n + margin) as real;
    Binary32.RoundingsOfInt(n + margin);
  }

  /** Whatever the margin, adding it in floats is monotone in the number it is added to. */
  lemma AddRoundedIsMonotone(fl: real -> real, n: int, n': int, margin: int)
    requires Rounding(fl) && n <= n'
    ensures AddRounded(fl, n, margin) <= AddRounded(fl, n', margin)
  {
    RoundedMonotone(fl, n as real + fl(margin as real), n' as real + fl(margin as real));
  }

  /** A rectangle moved and grown by a margin, without rounding. */
  function Extended(r: Rect, margin: Rect): Rect {
    Rect(r.x + margin.x, r.y + margin.y, r.w + margin.w, r.h + margin.h)
  }

  /** Small margins are added exactly. */
  lemma AddMarginIsExact(fl: real -> real, r: Rect, margin: Rect)
    requires Rounding(fl) && SmallMargin(r, margin)
    ensures AddMargin(fl, r, margin) == Extended(r, margin)
  {
    hide Rounding;
    AddRoundedIsExact(fl, r.x, margin.x);
    AddRoundedIsExact(fl, r.y, margin.y);
    AddRoundedIsExact(fl, r.w, margin.w);
    AddRoundedIsExact(fl, r.h, margin.h);
  }

  /** The part of a window that is seen when its outer rectangle is `bounds`. */
  function Visible(bounds: Rect, outer: Edges, inner: Edges): Rect {
    Rect(bounds.x + (inner.left - outer.left), bounds.y + (inner.top - outer.top),
         bounds.w - (inner.left - outer.left) - (outer.right - inner.right),
         bounds.h - (inner.top - outer.top) - (outer.bottom - inner.bottom))
  }

  /** The margin makes the visible size exactly the computed size. Because it is added to the
      position too, the visible part is moved by twice the left and top shadows; it is
      the computed rectangle exactly when both are zero. */
  lemma VisiblePlacement(fl: real -> real, r: Rect, outer: Edges, inner: Edges)
    requires Rounding(fl) && SmallMargin(r, ShadowMargin(outer, inner))
    ensures var v := Visible(AddMargin(fl, r, ShadowMargin(outer, inner)), outer, inner);
      && v.w == r.w && v.h == r.h
      && v.x == r.x + 2 * (inner.left - outer.left)
      && v.y == r.y + 2 * (inner.top - outer.top)
      && (v == r <==> inner.left == outer.left && inner.top == outer.top)
  {
    AddMarginIsExact(fl, r, ShadowMargin(outer, inner));
  }

  // ---- the cached operation ----------------------------------------------------------------

  datatype RelativeBounds = RelativeBounds(x: real, y: real, w: real, h: real) {
    predicate Valid() {
      0.0 <= x <= 1.0 && 0.0 <= y <= 1.0 && 0.0 <= w <= 1.0 && 0.0 <= h <= 1.0
    }
  }

  function Target(fl: real -> real, area: Rect, rel: RelativeBounds): Rect {
    var h := Place(fl, area.x, area.w, rel.x, rel.w);
    var v := Place(fl, area.y, area.h, rel.y, rel.h);
    Rect(h.pos, v.pos, h.size, v.size)
  }

  /** What a fresh computation for a window gives. */
  function FreshBounds(fl: real -> real, area: Rect, rel: RelativeBounds, margin: Rect): Rect {
    AddMargin(fl, Target(fl, area, rel), margin)
  }

  /** Runs for the executions of one operation: each names the monitor's work area, if the
      monitor is known, and the margin of the window at hand. */
  datatype Execution = Execution(area: Option<Rect>, margin: Rect)

  /** Nothing cached yet, or the bounds of the first successful execution. */
  ghost function CacheAfter(fl: real -> real, rel: RelativeBounds, runs: seq<Execution>): Option<Rect> {
    if runs == [] then None
    else
      var before := CacheAfter(fl, rel, runs[..|runs| - 1]);
      var e := runs[|runs| - 1];
      if before.Some? || e.area.None? then before
      else Some(FreshBounds(fl, e.area.value, rel, e.margin))
  }

  class RelativeMoveAndResizeOperation {
    const fl: real -> real
    const relative: RelativeBounds
    var bounds: Rect
    var dirty: bool
    ghost var runs: seq<Execution>

    ghost predicate Valid()
      reads this
    {
      CacheAfter(fl, relative, runs) == if dirty then None else Some(bounds)
    }

    constructor (fl: real -> real, relative: RelativeBounds)
      ensures Valid() && this.fl == fl && this.relative == relative && runs == []
    {
      this.fl, this.relative := fl, relative;
      bounds, dirty, runs := Rect(0, 0, 0, 0), true, [];
    }

    /** `applied` is the rectangle handed to the window, if the call got that far;
        `answer` is what positioning the window returns. */
    method Execute(e: Execution, answer: HResult) returns (hr: HResult, applied: Option<Rect>)
      requires Valid()
      modifies this
      ensures Valid() && runs == old(runs) + [e]
      ensures applied == CacheAfter(fl, relative, runs)
      ensures applied.Some? ==> hr == answer
      ensures applied.None? ==> hr == HResultFromWin32(ERROR_INVALID_OPERATION) && dirty
    {
      runs := runs + [e];
      assert runs[..|runs| - 1] == old(runs);
      if dirty {
        if e.area.None? {
          return HResultFromWin32(ERROR_INVALID_OPERATION), None;
        }
        bounds := FreshBounds(fl, e.area.value, relative, e.margin);
        dirty := false;
      }
      return answer, Some(bounds);
    }
  }

  /** Executions on unknown monitors. */
  predicate AllUnknown(runs: seq<Execution>) {
    forall i :: 0 <= i < |runs| ==> runs[i].area.None?
  }

  /** Executions on unknown monitors leave nothing behind. */
  lemma {:induction false} UnknownMonitorsAreForgotten(fl: real -> real, rel: RelativeBounds, runs: seq<Execution>)
    requires AllUnknown(runs)
    ensures CacheAfter(fl, rel, runs).None?
  {
    if runs != [] {
      UnknownMonitorsAreForgotten(fl, rel, runs[..|runs| - 1]);
    }
  }

  /** The first execution on a known monitor, whatever failed before it, fixes the bounds for all
      windows that follow. */
  lemma {:induction false} FirstExecutionFixesBounds(
    fl: real -> real, rel: RelativeBounds, failed: seq<Execution>, first: Execution, later: seq<Execution>)
    requires AllUnknown(failed) && first.area.Some?
    ensures CacheAfter(fl, rel, failed + [first] + later) == Some(FreshBounds(fl, first.area.value, rel, first.margin))
  {
    hide AddMargin, Target;
    var runs := failed + [first] + later;
    if later == [] {
      UnknownMonitorsAreForgotten(fl, rel, failed);
      assert runs[..|runs| - 1] == failed;
    } else {
      FirstExecutionFixesBounds(fl, rel, failed, first, later[..|later| - 1]);
      assert runs[..|runs| - 1] == failed + [first] + later[..|later| - 1];
    }
  }

  /** A margin that can be added exactly, if the monitor is known. */
  ghost predicate SmallExecution(fl: real -> real, rel: RelativeBounds, e: Execution) {
    e.area.Some? ==> SmallMargin(Target(fl, e.area.value, rel), e.margin)
  }

  /** A later window gets what an operation of its own would have given it exactly when its monitor
      is known and its extended target is that of the first known window; on the same work area,
      when their shadow margins are equal. If its monitor is unknown, it is moved all the same. */
  lemma CachedBoundsFitExactly(fl: real -> real, rel: RelativeBounds, failed: seq<Execution>, first: Execution,
                               later: seq<Execution>, window: Execution)
    requires Rounding(fl) && AllUnknown(failed) && first.area.Some?
    requires SmallExecution(fl, rel, first) && SmallExecution(fl, rel, window)
    ensures var applied, own := CacheAfter(fl, rel, failed + [first] + later + [window]), CacheAfter(fl, rel, [window]);
      && applied.Some?
      && (own.None? <==> window.area.None?)
      && (applied == own <==>
            && window.area.Some?
            && Extended(Target(fl, window.area.value, rel), window.margin)
               == Extended(Target(fl, first.area.value, rel), first.margin))
      && (window.area == first.area ==> (applied == own <==> window.margin == first.margin))
  {
    hide Target, AddMargin, SmallMargin, Rounding, CacheAfter, AllUnknown;
    assert failed + [first] + later + [window] == failed + [first] + (later + [window]);
    FirstExecutionFixesBounds(fl, rel, failed, first, later + [window]);
    AloneIsFresh(fl, rel, window);
    AddMarginIsExact(fl, Target(fl, first.area.value, rel), first.margin);
    if window.area.Some? {
      AddMarginIsExact(fl, Target(fl, window.area.value, rel), window.margin);
    }
  }

  lemma AloneIsFresh(fl: real -> real, rel: RelativeBounds, e: Execution)
    ensures CacheAfter(fl, rel, [e])
         == if e.area.None? then None else Some(FreshBounds(fl, e.area.value, rel, e.margin))
  {
    hide FreshBounds;
    assert [e][..0] == [];
  }

  /** Before the margin the target lies inside the work area; for small margins the final size is
      the visible size plus both shadow widths. */
  lemma FreshBoundsMeaning(fl: real -> real, area: Rect, rel: RelativeBounds, outer: Edges, inner: Edges)
    requires Rounding(fl) && rel.Valid() && Moderate(area.x, area.w) && Moderate(area.y, area.h)
    ensures var target := Target(fl, area, rel);
      var b := FreshBounds(fl, area, rel, ShadowMargin(outer, inner));
      && area.x <= target.x && target.x + target.w <= area.x + area.w && 0 <= target.w
      && area.y <= target.y && target.y + target.h <= area.y + area.h && 0 <= target.h
      && (SmallMargin(target, ShadowMargin(outer, inner)) ==>
            && b.x == target.x + (inner.left - outer.left)
            && b.y == target.y + (inner.top - outer.top)
            && b.w == target.w + (inner.left - outer.left) + (outer.right - inner.right)
            && b.h == target.h + (inner.top - outer.top) + (outer.bottom - inner.bottom)
            && Visible(b, outer, inner).w == target.w && Visible(b, outer, inner).h == target.h)
  {
    hide Place, Rounding, AddMargin;
    PlacedInsideWorkArea(fl, area.x, area.w, rel.x, rel.w);
    PlacedInsideWorkArea(fl, area.y, area.h, rel.y, rel.h);
    var target := Target(fl, area, rel);
    if SmallMargin(target, ShadowMargin(outer, inner)) {
      AddMarginIsExact(fl, target, ShadowMargin(outer, inner));
    }
  }

  /** Each axis is placed by its own two fractions: 0 and 1 align the target to the left and right,
      or top and bottom, edges of the work area, a size of 1 fills it and a size of 0 is empty; in
      between, sizes and positions are less than one pixel away from the exact ones. */
  lemma TargetAligns(fl: real -> real, area: Rect, rel: RelativeBounds)
    requires Rounding(fl) && rel.Valid() && Moderate(area.x, area.w) && Moderate(area.y, area.h)
    ensures var t := Target(fl, area, rel);
      && (rel.x == 0.0 ==> t.x == area.x)
      && (rel.x == 1.0 ==> t.x + t.w == area.x + area.w)
      && (rel.w == 0.0 ==> t.w == 0)
      && (rel.w == 1.0 ==> t.x == area.x && t.w == area.w)
      && (rel.y == 0.0 ==> t.y == area.y)
      && (rel.y == 1.0 ==> t.y + t.h == area.y + area.h)
      && (rel.h == 0.0 ==> t.h == 0)
      && (rel.h == 1.0 ==> t.y == area.y && t.h == area.h)
      && -1.0 < t.w as real - Fraction(rel.w, area.w) < 1.0
      && -1.0 < (t.x - area.x) as real - Fraction(rel.x, area.w - t.w) < 1.0
      && -1.0 < t.h as real - Fraction(rel.h, area.h) < 1.0
      && -1.0 < (t.y - area.y) as real - Fraction(rel.y, area.h - t.h) < 1.0
  {
    hide Rounding, PlaceSize, PlaceOffset, Fraction;
    PlacedWithinOnePixel(fl, area.x, area.w, rel.x, rel.w);
    PlacedWithinOnePixel(fl, area.y, area.h, rel.y, rel.h);
    PlacedInsideWorkArea(fl, area.x, area.w, rel.x, rel.w);
    PlacedInsideWorkArea(fl, area.y, area.h, rel.y, rel.h);
    PlaceSizeBounds(fl, area.w, rel.w);
    PlaceSizeBounds(fl, area.h, rel.h);
  }

  /** What happens on one axis does not depend on the other: the vertical fractions, edges and
      shadows never move or resize a window horizontally, nor the other way round. */
  lemma AxesAreIndependent(fl: real -> real, a: Rect, b: Rect, p: RelativeBounds, q: RelativeBounds, m: Rect, n: Rect)
    ensures a.x == b.x && a.w == b.w && p.x == q.x && p.w == q.w && m.x == n.x && m.w == n.w ==>
      FreshBounds(fl, a, p, m).x == FreshBounds(fl, b, q, n).x && FreshBounds(fl, a, p, m).w == FreshBounds(fl, b, q, n).w
    ensures a.y == b.y && a.h == b.h && p.y == q.y && p.h == q.h && m.y == n.y && m.h == n.h ==>
      FreshBounds(fl, a, p, m).y == FreshBounds(fl, b, q, n).y && FreshBounds(fl, a, p, m).h == FreshBounds(fl, b, q, n).h
  {
    hide Place, AddRounded;
  }

  /** The final position is monotone in the relative position, whatever the margin. */
  lemma FinalPositionIsMonotone(fl: real -> real, area: Rect, rel: RelativeBounds, x: real, margin: Rect)
    requires Rounding(fl) && rel.Valid() && rel.x <= x <= 1.0 && Moderate(area.x, area.w)
    ensures FreshBounds(fl, area, rel, margin).x <= FreshBounds(fl, area, rel.(x := x), margin).x
  {
    hide Rounding, Place, AddRounded;
    PositionIsMonotone(fl, area.x, area.w, rel.x, x, rel.w);
    AddRoundedIsMonotone(fl, Place(fl, area.x, area.w, rel.x, rel.w).pos, Place(fl, area.x, area.w, x, rel.w).pos, margin.x);
  }

  // ---- the formula on processor numbers --------------------------------------------------------------

  type Float = Binary32.Float

  /** The result of an operation whose exact result is `x`; the lemmas show that none overflows. */
  ghost function Near(x: real): (r: Float)
    ensures r.Finite()
  {
    if Binary32.InRange(x) then Binary32.Round(x) else Binary32.ZERO
  }

  ghost function Product(a: real, b: real): real {
    a * b
  }

  /** The product and the ceiling kernel. */
  ghost function FloatSize(extent: Float, relSize: Float): Float {
    Binary32.CeilPs(Near(Product(relSize.Val(), extent.Val())))
  }

  /** The difference, the product and the floor kernel. */
  ghost function FloatOffset(extent: Float, size: Float, relPos: Float): Float {
    Binary32.FloorPs(Near(Product(relPos.Val(), Near(extent.Val() - size.Val()).Val())))
  }

  ghost function FloatPos(origin: Float, offset: Float): Float {
    Near(origin.Val() + offset.Val())
  }

  /** The converted margin is added and the sum truncated. */
  ghost function FloatBound(v: Float, margin: int): int {
    Binary32.Trunc(Near(v.Val() + Near(margin as real).Val()).Val())
  }

  lemma NearInt(x: real, n: int)
    requires x == n as real && -LIMIT < n < LIMIT
    ensures Binary32.InRange(x) && Near(x).Val() == x
  {
    hide Binary32.Round;
    Binary32.RoundKeepsInt(n);
  }

  lemma NearFraction(r: real, x: real, n: int)
    requires x == n as real && 0 <= n < LIMIT && 0.0 <= r <= 1.0
    ensures Binary32.InRange(Product(r, x)) && Near(Product(r, x)).Val() == Binary32Rounding(Fraction(r, n))
  {
    hide Binary32.Round;
    FractionBetween(r, n);
    Binary32.SmallInRange(Fraction(r, n));
    assert Product(r, x) == Fraction(r, n);
  }

  lemma FloatSizeMeaning(extent: Float, relSize: Float, n: int)
    requires extent.Val() == n as real && 0 <= n < LIMIT && 0.0 <= relSize.Val() <= 1.0
    ensures FloatSize(extent, relSize).Val() == PlaceSize(Binary32Rounding, n, relSize.Val()) as real
  {
    hide Near, Binary32Rounding, Fraction, Product, Binary32.InRange, Binary32.Float.Val, Binary32.CeilPs, Binary32.Ceil;
    NearFraction(relSize.Val(), extent.Val(), n);
    Binary32.CeilAndFloorAreExact(Near(Product(relSize.Val(), extent.Val())));
  }

  lemma FloatOffsetMeaning(extent: Float, size: Float, relPos: Float, n: int, s: int)
    requires extent.Val() == n as real && size.Val() == s as real && 0 <= s <= n < LIMIT && 0.0 <= relPos.Val() <= 1.0
    ensures FloatOffset(extent, size, relPos).Val() == PlaceOffset(Binary32Rounding, n - s, relPos.Val()) as real
  {
    hide Near, Binary32Rounding, Fraction, Product, Binary32.InRange, Binary32.Float.Val, Binary32.FloorPs,
      Binary32.CeilPs, Binary32.Ceil, Binary32.Float.Finite;
    NearInt(extent.Val() - size.Val(), n - s);
    var space := Near(extent.Val() - size.Val()).Val();
    NearFraction(relPos.Val(), space, n - s);
    Binary32.CeilAndFloorAreExact(Near(Product(relPos.Val(), space)));
  }

  /** Evaluated wholly in binary32 with the fallback kernels, the formula gives the span that all
      the results above are about. */
  lemma FloatsComputePlacement(origin: Float, extent: Float, relPos: Float, relSize: Float, o: int, n: int)
    requires origin.Val() == o as real && extent.Val() == n as real && Moderate(o, n)
    requires 0.0 <= relPos.Val() <= 1.0 && 0.0 <= relSize.Val() <= 1.0
    ensures var span, size := Place(Binary32Rounding, o, n, relPos.Val(), relSize.Val()), FloatSize(extent, relSize);
      && size.Val() == span.size as real
      && FloatPos(origin, FloatOffset(extent, size, relPos)).Val() == span.pos as real
  {
    hide Near, Rounding, PlaceSize, PlaceOffset, FloatSize, FloatOffset, Binary32Rounding, Binary32.Float.Val, Place;
    Binary32RoundingQualifies();
    PlaceIsExact(Binary32Rounding, o, n, relPos.Val(), relSize.Val());
    FloatSizeMeaning(extent, relSize, n);
    var s := PlaceSize(Binary32Rounding, n, relSize.Val());
    FloatOffsetMeaning(extent, FloatSize(extent, relSize), relPos, n, s);
    var d := PlaceOffset(Binary32Rounding, n - s, relPos.Val());
    NearInt(origin.Val() + FloatOffset(extent, FloatSize(extent, relSize), relPos).Val(), o + d);
  }

  /** So does the sum with the margin, for margins that are added exactly. */
  lemma FloatsAddMargin(v: Float, n: int, margin: int)
    requires v.Val() == n as real && Addable(n, margin)
    ensures FloatBound(v, margin) == n + margin == AddRounded(Binary32Rounding, n, margin)
  {
    hide Near, Rounding, Binary32.Float.Val, Binary32Rounding;
    Binary32RoundingQualifies();
    AddRoundedIsExact(Binary32Rounding, n, margin);
    NearInt(margin as real, margin);
    NearInt(v.Val() + margin as real, n + margin);
    Binary32.RoundingsOfInt(n + margin);
  }

  /** A rectangle of floats, lane by lane. */
  datatype FloatRect = FloatRect(x: Float, y: Float, w: Float, h: Float)

  /** The four lanes are the integers of a rectangle. */
  ghost predicate Holds(f: FloatRect, r: Rect) {
    f.x.Val() == r.x as real && f.y.Val() == r.y as real && f.w.Val() == r.w as real && f.h.Val() == r.h as real
  }

  ghost function Fractions(f: FloatRect): RelativeBounds {
    RelativeBounds(f.x.Val(), f.y.Val(), f.w.Val(), f.h.Val())
  }

  /** The formula on whole vectors: sizes, free space and positions of both axes. */
  ghost function FloatTarget(area: FloatRect, rel: FloatRect): FloatRect {
    var w, h := FloatSize(area.w, rel.w), FloatSize(area.h, rel.h);
    FloatRect(FloatPos(area.x, FloatOffset(area.w, w, rel.x)), FloatPos(area.y, FloatOffset(area.h, h, rel.y)), w, h)
  }

  /** Evaluated in binary32, the bounds handed to the window are those that all the results above
      are about, each lane computed from the fractions, the edges and the shadows of its own axis. */
  lemma FloatsComputeBounds(area: FloatRect, rel: FloatRect, a: Rect, margin: Rect)
    requires Holds(area, a) && Moderate(a.x, a.w) && Moderate(a.y, a.h) && Fractions(rel).Valid()
    ensures var t, target := FloatTarget(area, rel), Target(Binary32Rounding, a, Fractions(rel));
      && Holds(t, target)
      && (SmallMargin(target, margin) ==>
            FreshBounds(Binary32Rounding, a, Fractions(rel), margin) ==
              Rect(FloatBound(t.x, margin.x), FloatBound(t.y, margin.y), FloatBound(t.w, margin.w), FloatBound(t.h, margin.h)))
  {
    hide Place, FloatSize, FloatOffset, FloatPos, FloatBound, AddRounded, Addable, Binary32Rounding, Binary32.Float.Val;
    FloatsComputePlacement(area.x, area.w, rel.x, rel.w, a.x, a.w);
    FloatsComputePlacement(area.y, area.h, rel.y, rel.h, a.y, a.h);
    var t, target := FloatTarget(area, rel), Target(Binary32Rounding, a, Fractions(rel));
    if SmallMargin(target, margin) {
      FloatsAddMargin(t.x, target.x, margin.x);
      FloatsAddMargin(t.y, target.y, margin.y);
      FloatsAddMargin(t.w, target.w, margin.w);
      FloatsAddMargin(t.h, target.h, margin.h);
    }
  }
}
