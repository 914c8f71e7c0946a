/** The truck floor: rectangles, overlap with the geometry tolerance, and what it
    means for a package to slide out of the rear door.

    Lengths are whole millimetres. The tolerance of 0.01 cm is a tenth of a
    millimetre; it is kept in `AtMost`, which shows that on whole millimetres it
    absorbs rounding and nothing else. */
module Geometry {
  datatype Point = Point(x: int, y: int)

  /** A footprint on the floor: the corner nearest the cab and the left wall, with
      its extent along the truck and across it. The rear door is at `x == length`. */
  datatype Rect = Rect(x: int, y: int, length: int, width: int) {
    predicate Solid() {
      length > 0 && width > 0
    }

    function Area(): int {
      length * width
    }
  }

  datatype Floor = Floor(length: int, width: int, height: int, payload: int)

  /** `a <= b + tolerance`, in tenths of a millimetre. */
  predicate AtMost(a: int, b: int)
    ensures AtMost(a, b) <==> a <= b
  {
    10 * a <= 10 * b + 1
  }

  function Normalize(value: int): (r: int)
    ensures r == value
  {
    if -1 <= 10 * value <= 1 then 0 else value
  }

  /** Two footprints overlap; touching edges do not count. */
  predicate IsOverlap(a: Rect, b: Rect) {
    !(AtMost(a.x + a.length, b.x)
      || AtMost(b.x + b.length, a.x)
      || AtMost(a.y + a.width, b.y)
      || AtMost(b.y + b.width, a.y))
  }

  function At(r: Rect, p: Point): Rect {
    r.(x := p.x, y := p.y)
  }

  predicate InBounds(f: Floor, r: Rect) {
    0 <= r.x <= f.length - r.length && 0 <= r.y <= f.width - r.width
  }

  predicate Clear(r: Rect, obstacles: set<Rect>) {
    forall o | o in obstacles :: !IsOverlap(r, o)
  }

  predicate AllSolid(rects: set<Rect>) {
    forall r | r in rects :: r.Solid()
  }

  /** The package can stand at `p`: on the floor and clear of every obstacle. */
  predicate Free(f: Floor, r: Rect, obstacles: set<Rect>, p: Point) {
    InBounds(f, At(r, p)) && Clear(At(r, p), obstacles)
  }

  predicate UnitStep(a: Point, b: Point) {
    || (a.y == b.y && (b.x == a.x + 1 || a.x == b.x + 1))
    || (a.x == b.x && (b.y == a.y + 1 || a.y == b.y + 1))
  }

  /** A slide moves one millimetre at a time, along one axis, through free positions. */
  ghost predicate IsSlide(f: Floor, r: Rect, obstacles: set<Rect>, path: seq<Point>) {
    && |path| > 0
    && (forall k | 0 <= k < |path| :: Free(f, r, obstacles, path[k]))
    && (forall k | 0 <= k < |path| - 1 :: UnitStep(path[k], path[k + 1]))
  }

  ghost predicate SlidesTo(f: Floor, r: Rect, obstacles: set<Rect>, a: Point, b: Point) {
    exists path ::
      IsSlide(f, r, obstacles, path) && path[0] == a && path[|path| - 1] == b
  }

  ghost predicate EscapesBy(f: Floor, r: Rect, obstacles: set<Rect>, path: seq<Point>) {
    && IsSlide(f, r, obstacles, path)
    && path[0] == Point(r.x, r.y)
    && path[|path| - 1].x == f.length - r.length
  }

  /** The specification of a clear path: some slide takes the package to the rear
      door while everything else stands still. */
  ghost predicate CanEscape(f: Floor, r: Rect, obstacles: set<Rect>) {
    exists path: seq<Point> :: EscapesBy(f, r, obstacles, path)
  }

  /** Loading: some slide brings the package from the rear door to its place. */
  ghost predicate CanEnter(f: Floor, r: Rect, obstacles: set<Rect>) {
    exists path: seq<Point> ::
      && IsSlide(f, r, obstacles, path)
      && path[0].x == f.length - r.length
      && path[|path| - 1] == Point(r.x, r.y)
  }

  function Reverse(path: seq<Point>): (r: seq<Point>)
    ensures |r| == |path|
    ensures forall k | 0 <= k < |path| :: r[k] == path[|path| - 1 - k]
  {
    seq(|path|, k requires 0 <= k < |path| => path[|path| - 1 - k])
  }

  lemma ReverseIsSlide(f: Floor, r: Rect, obstacles: set<Rect>, path: seq<Point>)
    requires IsSlide(f, r, obstacles, path)
    ensures IsSlide(f, r, obstacles, Reverse(path))
  {
    var back := Reverse(path);
    forall k | 0 <= k < |back| - 1
      ensures UnitStep(back[k], back[k + 1])
    {
      var j := |path| - 2 - k;
      assert UnitStep(path[j], path[j + 1]);
    }
  }

  /** A slide can be run backwards, so the check made for unloading also decides
      whether the package can be brought in. */
  lemma EnterIffEscape(f: Floor, r: Rect, obstacles: set<Rect>)
    ensures CanEnter(f, r, obstacles) <==> CanEscape(f, r, obstacles)
  {
    if CanEscape(f, r, obstacles) {
      var path: seq<Point> :| EscapesBy(f, r, obstacles, path);
      ReverseIsSlide(f, r, obstacles, path);
      assert Reverse(path)[|path| - 1] == Point(r.x, r.y);
    }
    if CanEnter(f, r, obstacles) {
      var path: seq<Point> :|
        && IsSlide(f, r, obstacles, path)
        && path[0].x == f.length - r.length
        && path[|path| - 1] == Point(r.x, r.y);
      ReverseIsSlide(f, r, obstacles, path);
      assert EscapesBy(f, r, obstacles, Reverse(path));
    }
  }

  /** Taking obstacles away never closes a way out. */
  lemma EscapeMonotone(f: Floor, r: Rect, fewer: set<Rect>, more: set<Rect>)
    requires fewer <= more
    requires CanEscape(f, r, more)
    ensures CanEscape(f, r, fewer)
  {
    var path: seq<Point> :| EscapesBy(f, r, more, path);
    assert EscapesBy(f, r, fewer, path);
  }

  lemma EscapeStartsFree(f: Floor, r: Rect, obstacles: set<Rect>)
    requires CanEscape(f, r, obstacles)
    ensures InBounds(f, r) && Clear(r, obstacles)
  {
    var path: seq<Point> :| EscapesBy(f, r, obstacles, path);
    assert Free(f, r, obstacles, path[0]);
    assert At(r, path[0]) == r;
  }

  lemma SlidesToTransitive(f: Floor, r: Rect, obstacles: set<Rect>, a: Point, b: Point, c: Point)
    requires SlidesTo(f, r, obstacles, a, b) && SlidesTo(f, r, obstacles, b, c)
    ensures SlidesTo(f, r, obstacles, a, c)
  {
    var p :| IsSlide(f, r, obstacles, p) && p[0] == a && p[|p| - 1] == b;
    var q :| IsSlide(f, r, obstacles, q) && q[0] == b && q[|q| - 1] == c;
    var path := p + q[1..];
    forall k | 0 <= k < |path| - 1
      ensures UnitStep(path[k], path[k + 1])
    {
      if k >= |p| - 1 {
        assert path[k] == q[k - |p| + 1] && path[k + 1] == q[k - |p| + 2];
      }
    }
    assert IsSlide(f, r, obstacles, path);
  }
}
