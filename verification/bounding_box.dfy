/** The reduction at the end of `SingleMotionDetector.detect`: every contour's
    bounding rectangle is folded into one enclosing box with running minima
    and maxima that start at plus and minus infinity. */
module BoundingBox {
  import opened Wrappers

  /** `cv2.boundingRect`: top-left corner and extent; `x + w` is one past
      the last column and `y + h` one past the last row. */
  datatype Rect = Rect(x: int, y: int, w: int, h: int)

  /** The merged region `(minX, minY, maxX, maxY)`. */
  datatype Box = Box(minX: int, minY: int, maxX: int, maxY: int)

  /** The box reaches at least as far as the rectangle on all four sides. */
  predicate Covers(b: Box, r: Rect) {
    b.minX <= r.x && r.x + r.w <= b.maxX && b.minY <= r.y && r.y + r.h <= b.maxY
  }

  predicate CoversAll(b: Box, rects: seq<Rect>) {
    forall i :: 0 <= i < |rects| ==> Covers(b, rects[i])
  }

  /** Each of the four sides of the box is the matching side of some rectangle. */
  predicate Attained(b: Box, rects: seq<Rect>) {
    && (exists i :: 0 <= i < |rects| && b.minX == rects[i].x)
    && (exists i :: 0 <= i < |rects| && b.minY == rects[i].y)
    && (exists i :: 0 <= i < |rects| && b.maxX == rects[i].x + rects[i].w)
    && (exists i :: 0 <= i < |rects| && b.maxY == rects[i].y + rects[i].h)
  }

  /** `b` lies inside `outer`. */
  predicate Within(b: Box, outer: Box) {
    outer.minX <= b.minX && b.maxX <= outer.maxX && outer.minY <= b.minY && b.maxY <= outer.maxY
  }

  /** The integers extended with `-np.inf` and `np.inf`, the fold's start values. */
  datatype Ext = NegInf | Fin(n: int) | PosInf

  /** Python's `<` on the extended integers. */
  predicate Lt(a: Ext, b: Ext) {
    match a
    case NegInf => !b.NegInf?
    case Fin(x) => b.PosInf? || (b.Fin? && x < b.n)
    case PosInf => false
  }

  /** Python's `min(a, b)`: `a` unless `b` is strictly smaller. */
  function ExtMin(a: Ext, b: Ext): Ext {
    if Lt(b, a) then b else a
  }

  /** Python's `max(a, b)`: `a` unless `b` is strictly larger. */
  function ExtMax(a: Ext, b: Ext): Ext {
    if Lt(a, b) then b else a
  }

  /** The four running values of the fold. */
  datatype Bounds = Bounds(minX: Ext, minY: Ext, maxX: Ext, maxY: Ext)

  /** `(np.inf, np.inf, -np.inf, -np.inf)`. */
  const Unbounded: Bounds := Bounds(PosInf, PosInf, NegInf, NegInf)

  predicate Finite(b: Bounds) {
    b.minX.Fin? && b.minY.Fin? && b.maxX.Fin? && b.maxY.Fin?
  }

  function ToBox(b: Bounds): Box
    requires Finite(b)
  {
    Box(b.minX.n, b.minY.n, b.maxX.n, b.maxY.n)
  }

  /** One iteration of the loop body: widen the running bounds by one rectangle. */
  function Absorb(acc: Bounds, r: Rect): Bounds {
    Bounds(ExtMin(acc.minX, Fin(r.x)), ExtMin(acc.minY, Fin(r.y)),
           ExtMax(acc.maxX, Fin(r.x + r.w)), ExtMax(acc.maxY, Fin(r.y + r.h)))
  }

  /** The loop over the rectangles, in list order, from the infinite start
      values. The infinities survive only when there is nothing to fold. */
  function Fold(rects: seq<Rect>): (acc: Bounds)
    ensures |rects| == 0 <==> acc == Unbounded
    ensures |rects| > 0 ==> Finite(acc)
    ensures |rects| > 0 ==> CoversAll(ToBox(acc), rects) && Attained(ToBox(acc), rects)
    decreases |rects|
  {
    if |rects| == 0 then Unbounded
    else
      var prefix := rects[..|rects| - 1];
      var last := rects[|rects| - 1];
      assert forall i :: 0 <= i < |prefix| ==> prefix[i] == rects[i];
      Absorb(Fold(prefix), last)
  }

  /** The bounding region of `detect`: none for an empty contour list,
      otherwise the box the fold produces. */
  function MergeRects(rects: seq<Rect>): (r: Option<Box>)
    ensures r.None? <==> |rects| == 0
    ensures r.Some? ==> CoversAll(r.value, rects) && Attained(r.value, rects)
  {
    if |rects| == 0 then None else Some(ToBox(Fold(rects)))
  }

  /** A box that covers a list of rectangles and whose sides are all
      attained is determined by the list. */
  lemma TightBoxUnique(a: Box, b: Box, rects: seq<Rect>)
    requires CoversAll(a, rects) && Attained(a, rects)
    requires CoversAll(b, rects) && Attained(b, rects)
    ensures a == b
  {
    var i1 :| 0 <= i1 < |rects| && a.minX == rects[i1].x;
    var j1 :| 0 <= j1 < |rects| && b.minX == rects[j1].x;
    assert Covers(a, rects[j1]) && Covers(b, rects[i1]);
    var i2 :| 0 <= i2 < |rects| && a.minY == rects[i2].y;
    var j2 :| 0 <= j2 < |rects| && b.minY == rects[j2].y;
    assert Covers(a, rects[j2]) && Covers(b, rects[i2]);
    var i3 :| 0 <= i3 < |rects| && a.maxX == rects[i3].x + rects[i3].w;
    var j3 :| 0 <= j3 < |rects| && b.maxX == rects[j3].x + rects[j3].w;
    assert Covers(a, rects[j3]) && Covers(b, rects[i3]);
    var i4 :| 0 <= i4 < |rects| && a.maxY == rects[i4].y + rects[i4].h;
    var j4 :| 0 <= j4 < |rects| && b.maxY == rects[j4].y + rects[j4].h;
    assert Covers(a, rects[j4]) && Covers(b, rects[i4]);
  }

  /** The merged box does not depend on the order in which contours are
      reported: any reordering of the same rectangles gives the same result. */
  lemma MergeOrderIndependent(xs: seq<Rect>, ys: seq<Rect>)
    requires multiset(xs) == multiset(ys)
    ensures MergeRects(xs) == MergeRects(ys)
  {
    if |xs| == 0 {
      assert |multiset(ys)| == 0;
    } else {
      assert |ys| == |multiset(ys)| == |multiset(xs)| == |xs|;
      var a := MergeRects(xs).value;
      var b := MergeRects(ys).value;
      forall j | 0 <= j < |ys|
        ensures Covers(a, ys[j])
      {
        assert ys[j] in multiset(xs);
        var i :| 0 <= i < |xs| && xs[i] == ys[j];
      }
      SameMembersAttained(a, xs, ys);
      TightBoxUnique(a, b, ys);
    }
  }

  /** Attainment only depends on which rectangles occur. */
  lemma SameMembersAttained(a: Box, xs: seq<Rect>, ys: seq<Rect>)
    requires multiset(xs) == multiset(ys)
    requires Attained(a, xs)
    ensures Attained(a, ys)
  {
    var i1 :| 0 <= i1 < |xs| && a.minX == xs[i1].x;
    var i2 :| 0 <= i2 < |xs| && a.minY == xs[i2].y;
    var i3 :| 0 <= i3 < |xs| && a.maxX == xs[i3].x + xs[i3].w;
    var i4 :| 0 <= i4 < |xs| && a.maxY == xs[i4].y + xs[i4].h;
    assert xs[i1] in multiset(ys) && xs[i2] in multiset(ys);
    assert xs[i3] in multiset(ys) && xs[i4] in multiset(ys);
  }

  /** The merged box is the smallest box covering every rectangle. */
  lemma MergedBoxIsSmallest(rects: seq<Rect>, outer: Box)
    requires |rects| > 0
    requires CoversAll(outer, rects)
    ensures Within(MergeRects(rects).value, outer)
  {
    var m := MergeRects(rects).value;
    var i1 :| 0 <= i1 < |rects| && m.minX == rects[i1].x;
    var i2 :| 0 <= i2 < |rects| && m.minY == rects[i2].y;
    var i3 :| 0 <= i3 < |rects| && m.maxX == rects[i3].x + rects[i3].w;
    var i4 :| 0 <= i4 < |rects| && m.maxY == rects[i4].y + rects[i4].h;
    assert Covers(outer, rects[i1]) && Covers(outer, rects[i2]);
    assert Covers(outer, rects[i3]) && Covers(outer, rects[i4]);
  }
}
