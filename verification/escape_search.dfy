/** The search for a translation path to the rear door over the grid of critical
    coordinates, and the proof that it decides `CanEscape` exactly. */
module EscapeSearch {
  import opened Prelude
  import opened Geometry

  /** Grid indices: column `i` and row `j`. */
  datatype Node = Node(i: nat, j: nat)

  // ---------- axis values ----------

  predicate StrictlySorted(s: seq<int>) {
    forall i, j | 0 <= i < j < |s| :: s[i] < s[j]
  }

  function InsertValue(values: seq<int>, v: int): (r: seq<int>)
    requires StrictlySorted(values)
    ensures StrictlySorted(r)
    ensures forall u :: u in r <==> u == v || u in values
  {
    if values == [] || v < values[0] then [v] + values
    else if v == values[0] then values
    else
      var rest := InsertValue(values[1..], v);
      assert forall u :: u in values <==> u == values[0] || u in values[1..];
      PrependSorted(values[0], rest);
      [values[0]] + rest
  }

  lemma PrependSorted(head: int, rest: seq<int>)
    requires StrictlySorted(rest) && forall u | u in rest :: head < u
    ensures StrictlySorted([head] + rest)
  {
    var all := [head] + rest;
    forall i, j | 0 <= i < j < |all|
      ensures all[i] < all[j]
    {
      assert all[j] == rest[j - 1] && rest[j - 1] in rest;
    }
  }

  method MovementAxisValues(start: int, maximum: int, critical: set<int>) returns (values: seq<int>)
    requires 0 <= start <= maximum
    ensures StrictlySorted(values)
    ensures forall v :: v in values <==>
                        v in {0, start, maximum} || (v in critical && 0 <= v <= maximum)
  {
    values := InsertValue(InsertValue(InsertValue([], 0), start), maximum);
    var remaining := critical;
    while remaining != {}
      invariant remaining <= critical
      invariant StrictlySorted(values)
      invariant forall v :: v in values <==>
                            v in {0, start, maximum} || (v in critical - remaining && 0 <= v <= maximum)
    {
      var value :| value in remaining;
      if AtMost(0, value) && AtMost(value, maximum) {
        var clamped := Min(Max(value, 0), maximum);
        values := InsertValue(values, Normalize(clamped));
      }
      remaining := remaining - {value};
    }
  }

  /** The axis values hold both walls and every edge at which an obstacle's blocking
      range for this package starts or ends. */
  ghost predicate AxisFor(values: seq<int>, maximum: int, ranges: set<(int, int)>) {
    && StrictlySorted(values)
    && 0 in values && maximum in values
    && (forall v | v in values :: 0 <= v <= maximum)
    && (forall c | c in ranges && 0 <= c.0 <= maximum :: c.0 in values)
    && (forall c | c in ranges && 0 <= c.1 <= maximum :: c.1 in values)
  }

  lemma AxisEnds(values: seq<int>, maximum: int, ranges: set<(int, int)>)
    requires AxisFor(values, maximum, ranges)
    ensures |values| > 0 && values[0] == 0 && values[|values| - 1] == maximum
  {
    var k :| 0 <= k < |values| && values[k] == 0;
    var m :| 0 <= m < |values| && values[m] == maximum;
    assert values[0] in values && values[|values| - 1] in values;
  }

  /** The last axis value not beyond `v`. */
  function Snap(values: seq<int>, v: int): (k: nat)
    requires |values| > 0 && values[0] <= v
    ensures k < |values| && values[k] <= v
    ensures k + 1 < |values| ==> v < values[k + 1]
  {
    var last := |values| - 1;
    if values[last] <= v then last else Snap(values[..last], v)
  }

  lemma SnapUnique(values: seq<int>, v: int, k: nat)
    requires StrictlySorted(values) && k < |values| && values[k] <= v
    requires k + 1 < |values| ==> v < values[k + 1]
    ensures values[0] <= v && Snap(values, v) == k
  {
    assert k == 0 || values[0] < values[k];
  }

  /** Moving back to the last axis value never enters a blocking range. */
  lemma SnapLeavesRangesOut(values: seq<int>, maximum: int, ranges: set<(int, int)>, c: (int, int), v: int)
    requires AxisFor(values, maximum, ranges) && c in ranges
    requires 0 <= v <= maximum
    requires |values| > 0 && values[0] <= v
    requires c.0 < values[Snap(values, v)] < c.1
    ensures c.0 < v < c.1
  {
    var k := Snap(values, v);
    assert values[k] in values;
    if c.1 <= v {
      var m :| 0 <= m < |values| && values[m] == c.1;
      assert false;
    }
  }

  /** Strictly between two axis values, a blocking range holds everywhere or nowhere. */
  lemma RangesConstantInsideCell(values: seq<int>, maximum: int, ranges: set<(int, int)>, c: (int, int), k: nat,
      u: int, v: int)
    requires AxisFor(values, maximum, ranges) && c in ranges
    requires k + 1 < |values|
    requires values[k] < u < values[k + 1] && values[k] < v < values[k + 1]
    ensures c.0 < u < c.1 <==> c.0 < v < c.1
  {
    assert values[k] in values && values[k + 1] in values;
    forall e | e in values
      ensures e <= values[k] || values[k + 1] <= e
    {
      var m :| 0 <= m < |values| && values[m] == e;
      if m < k { assert values[m] < values[k]; }
      if k + 1 < m { assert values[k + 1] < values[m]; }
    }
  }

  // ---------- straight segments ----------

  function Abs(v: int): nat { if v < 0 then -v else v }

  predicate Level(a: int, b: int)
    ensures Level(a, b) <==> a == b
  {
    10 * Abs(a - b) <= 1
  }

  /** The rectangle swept by an axis-parallel move meets no obstacle. */
  predicate SegmentClear(r: Rect, a: Point, b: Point, obstacles: set<Rect>) {
    if Level(a.y, b.y) then
      Clear(Rect(Min(a.x, b.x), a.y, Abs(b.x - a.x) + r.length, r.width), obstacles)
    else if Level(a.x, b.x) then
      Clear(Rect(a.x, Min(a.y, b.y), r.length, Abs(b.y - a.y) + r.width), obstacles)
    else
      false
  }

  predicate OnSegment(a: Point, b: Point, p: Point) {
    || (a.y == b.y == p.y && Min(a.x, b.x) <= p.x <= Max(a.x, b.x))
    || (a.x == b.x == p.x && Min(a.y, b.y) <= p.y <= Max(a.y, b.y))
  }

  /** Where a package passing over `low .. high` first meets the obstacle `from .. to`. */
  function Contact(low: int, high: int, extent: int, from: int): int {
    Max(low, Min(high, from - extent + 1))
  }

  /** A swept rectangle is clear exactly when the package is clear at every point of the move. */
  lemma SegmentClearIff(r: Rect, a: Point, b: Point, obstacles: set<Rect>)
    requires r.Solid() && AllSolid(obstacles)
    ensures SegmentClear(r, a, b, obstacles) <==>
            && (a.x == b.x || a.y == b.y)
            && forall p | OnSegment(a, b, p) :: Clear(At(r, p), obstacles)
  {
    if a.y == b.y || a.x == b.x {
      forall o | o in obstacles
        ensures !IsOverlap(Swept(r, a, b), o) <==> forall p | OnSegment(a, b, p) :: !IsOverlap(At(r, p), o)
      {
        if a.y == b.y {
          AlongClearIff(r, a, b, o);
        } else {
          AcrossClearIff(r, a, b, o);
        }
      }
    }
    hide IsOverlap;
  }

  function Swept(r: Rect, a: Point, b: Point): Rect {
    if a.y == b.y then Rect(Min(a.x, b.x), a.y, Abs(b.x - a.x) + r.length, r.width)
    else Rect(a.x, Min(a.y, b.y), r.length, Abs(b.y - a.y) + r.width)
  }

  lemma AlongClearIff(r: Rect, a: Point, b: Point, o: Rect)
    requires r.Solid() && o.Solid() && a.y == b.y
    ensures !IsOverlap(Swept(r, a, b), o) <==> forall p | OnSegment(a, b, p) :: !IsOverlap(At(r, p), o)
  {
    var p := Point(Contact(Min(a.x, b.x), Max(a.x, b.x), r.length, o.x), a.y);
    assert OnSegment(a, b, p);
    assert IsOverlap(Swept(r, a, b), o) ==> IsOverlap(At(r, p), o);
  }

  lemma AcrossClearIff(r: Rect, a: Point, b: Point, o: Rect)
    requires r.Solid() && o.Solid() && a.x == b.x && a.y != b.y
    ensures !IsOverlap(Swept(r, a, b), o) <==> forall p | OnSegment(a, b, p) :: !IsOverlap(At(r, p), o)
  {
    var p := Point(a.x, Contact(Min(a.y, b.y), Max(a.y, b.y), r.width, o.y));
    assert OnSegment(a, b, p);
    assert IsOverlap(Swept(r, a, b), o) ==> IsOverlap(At(r, p), o);
  }

  lemma SegmentsJoin(r: Rect, a: Point, b: Point, c: Point, obstacles: set<Rect>)
    requires r.Solid() && AllSolid(obstacles)
    requires SegmentClear(r, a, b, obstacles) && SegmentClear(r, b, c, obstacles)
    requires a.x == b.x == c.x || a.y == b.y == c.y
    ensures SegmentClear(r, a, c, obstacles)
  {
    SegmentClearIff(r, a, b, obstacles);
    SegmentClearIff(r, b, c, obstacles);
    SegmentClearIff(r, a, c, obstacles);
    forall p | OnSegment(a, c, p)
      ensures Clear(At(r, p), obstacles)
    {
      assert OnSegment(a, b, p) || OnSegment(b, c, p);
    }
  }

  // ---------- the path returned ----------

  ghost predicate ClearLegs(r: Rect, obstacles: set<Rect>, path: seq<Point>) {
    forall k | 0 <= k < |path| - 1 :: SegmentClear(r, path[k], path[k + 1], obstacles)
  }

  /** From the package's place to the rear door by axis-parallel legs whose swept
      rectangles meet no obstacle. */
  ghost predicate IsEscapeRoute(f: Floor, r: Rect, obstacles: set<Rect>, path: seq<Point>) {
    && |path| > 1
    && path[0] == Point(r.x, r.y)
    && path[|path| - 1].x == f.length - r.length
    && ClearLegs(r, obstacles, path)
    && forall k | 0 <= k < |path| :: InBounds(f, At(r, path[k]))
  }

  lemma SegmentSlides(f: Floor, r: Rect, obstacles: set<Rect>, a: Point, b: Point)
    requires r.Solid() && AllSolid(obstacles)
    requires SegmentClear(r, a, b, obstacles)
    requires InBounds(f, At(r, a)) && InBounds(f, At(r, b))
    ensures SlidesTo(f, r, obstacles, a, b)
    decreases Abs(a.x - b.x) + Abs(a.y - b.y)
  {
    SegmentClearIff(r, a, b, obstacles);
    assert OnSegment(a, b, a) && OnSegment(a, b, b);
    if a == b {
      assert IsSlide(f, r, obstacles, [a]);
    } else {
      var c :=
        if a.x < b.x then Point(a.x + 1, a.y)
        else if b.x < a.x then Point(a.x - 1, a.y)
        else if a.y < b.y then Point(a.x, a.y + 1)
        else Point(a.x, a.y - 1);
      assert OnSegment(a, b, c);
      assert IsSlide(f, r, obstacles, [a, c]);
      assert SlidesTo(f, r, obstacles, a, c) by { assert [a, c][0] == a && [a, c][1] == c; }
      SegmentClearIff(r, c, b, obstacles);
      assert forall p | OnSegment(c, b, p) :: OnSegment(a, b, p);
      SegmentSlides(f, r, obstacles, c, b);
      SlidesToTransitive(f, r, obstacles, a, c, b);
    }
  }

  /** Soundness: a route of clear legs gives a slide. */
  lemma {:induction false} RouteEscapes(f: Floor, r: Rect, obstacles: set<Rect>, path: seq<Point>)
    requires r.Solid() && AllSolid(obstacles)
    requires IsEscapeRoute(f, r, obstacles, path)
    ensures CanEscape(f, r, obstacles)
  {
    LegsSlide(f, r, obstacles, path, |path| - 1);
    var slide: seq<Point> :| IsSlide(f, r, obstacles, slide) && slide[0] == path[0]
        && slide[|slide| - 1] == path[|path| - 1];
    assert EscapesBy(f, r, obstacles, slide);
  }

  lemma {:induction false} LegsSlide(f: Floor, r: Rect, obstacles: set<Rect>, path: seq<Point>, k: nat)
    requires r.Solid() && AllSolid(obstacles)
    requires IsEscapeRoute(f, r, obstacles, path) && k < |path|
    ensures SlidesTo(f, r, obstacles, path[0], path[k])
  {
    if k == 0 {
      SegmentClearIff(r, path[0], path[1], obstacles);
      assert OnSegment(path[0], path[1], path[0]);
      assert IsSlide(f, r, obstacles, [path[0]]);
    } else {
      LegsSlide(f, r, obstacles, path, k - 1);
      SegmentSlides(f, r, obstacles, path[k - 1], path[k]);
      SlidesToTransitive(f, r, obstacles, path[0], path[k - 1], path[k]);
    }
  }

  predicate IsTurn(a: Point, b: Point, c: Point) {
    (a.y == b.y && b.x == c.x) || (a.x == b.x && b.y == c.y)
  }

  ghost predicate TurnsOnly(points: seq<Point>) {
    forall k | 0 <= k < |points| - 2 :: IsTurn(points[k], points[k + 1], points[k + 2])
  }

  /** Compression has reached `path[index]`: the kept points followed by that point
      are clear legs with a turn at every kept interior point. */
  ghost predicate Compressing(r: Rect, obstacles: set<Rect>, path: seq<Point>, kept: seq<Point>, index: int) {
    && 0 < |kept| <= index < |path|
    && kept[0] == path[0]
    && (forall p | p in kept :: p in path[..index])
    && ClearLegs(r, obstacles, kept + [path[index]])
    && TurnsOnly(kept + [path[index]])
    && var last, previous, current := kept[|kept| - 1], path[index - 1], path[index];
       && (previous.x == current.x ==> last.x == current.x)
       && (previous.y == current.y ==> last.y == current.y)
  }

  ghost predicate IsPath(r: Rect, obstacles: set<Rect>, path: seq<Point>) {
    && r.Solid() && AllSolid(obstacles)
    && ClearLegs(r, obstacles, path)
    && forall j, k | 0 <= j < k < |path| :: path[j] != path[k]
  }

  lemma KeepTurn(r: Rect, obstacles: set<Rect>, path: seq<Point>, kept: seq<Point>, index: int)
    requires IsPath(r, obstacles, path)
    requires Compressing(r, obstacles, path, kept, index) && index + 1 < |path|
    requires IsTurn(path[index - 1], path[index], path[index + 1])
    ensures Compressing(r, obstacles, path, kept + [path[index]], index + 1)
  {
    var shown, longer := kept + [path[index]], kept + [path[index]] + [path[index + 1]];
    assert SegmentClear(r, path[index], path[index + 1], obstacles);
    forall k | 0 <= k < |longer| - 1
      ensures SegmentClear(r, longer[k], longer[k + 1], obstacles)
    {
      if k < |shown| - 1 { assert SegmentClear(r, shown[k], shown[k + 1], obstacles); }
    }
    forall k | 0 <= k < |longer| - 2
      ensures IsTurn(longer[k], longer[k + 1], longer[k + 2])
    {
      if k < |shown| - 2 { assert IsTurn(shown[k], shown[k + 1], shown[k + 2]); }
    }
  }

  lemma DropMiddle(r: Rect, obstacles: set<Rect>, path: seq<Point>, kept: seq<Point>, index: int)
    requires IsPath(r, obstacles, path)
    requires Compressing(r, obstacles, path, kept, index) && index + 1 < |path|
    requires path[index - 1].x == path[index].x == path[index + 1].x
             || path[index - 1].y == path[index].y == path[index + 1].y
    ensures Compressing(r, obstacles, path, kept, index + 1)
  {
    var shown, longer := kept + [path[index]], kept + [path[index + 1]];
    var n := |kept|;
    assert SegmentClear(r, shown[n - 1], shown[n], obstacles);
    assert SegmentClear(r, path[index], path[index + 1], obstacles);
    SegmentsJoin(r, kept[n - 1], path[index], path[index + 1], obstacles);
    assert path[index] != path[index - 1] && path[index] != path[index + 1];
    assert kept[n - 1] in path[..index] && kept[n - 1] != path[index];
    forall k | 0 <= k < |longer| - 1
      ensures SegmentClear(r, longer[k], longer[k + 1], obstacles)
    {
      if k < n - 1 { assert SegmentClear(r, shown[k], shown[k + 1], obstacles); }
    }
    forall k | 0 <= k < |longer| - 2
      ensures IsTurn(longer[k], longer[k + 1], longer[k + 2])
    {
      assert IsTurn(shown[k], shown[k + 1], shown[k + 2]);
    }
  }

  /** Keep only the endpoints and the turns. */
  method CompressTranslationPath(r: Rect, ghost obstacles: set<Rect>, path: seq<Point>) returns (compressed: seq<Point>)
    requires |path| > 0 && IsPath(r, obstacles, path)
    ensures 0 < |compressed| <= |path| && (|path| > 1 ==> |compressed| > 1)
    ensures compressed[0] == path[0] && compressed[|compressed| - 1] == path[|path| - 1]
    ensures forall p | p in compressed :: p in path
    ensures ClearLegs(r, obstacles, compressed)
    ensures TurnsOnly(compressed)
  {
    if |path| <= 2 {
      return path;
    }
    compressed := [path[0]];
    for index := 1 to |path| - 1
      invariant Compressing(r, obstacles, path, compressed, index)
    {
      var previous, current, following := path[index - 1], path[index], path[index + 1];
      var sameHorizontal := Level(previous.y, current.y) && Level(current.y, following.y);
      var sameVertical := Level(previous.x, current.x) && Level(current.x, following.x);
      if !sameHorizontal && !sameVertical {
        LegsAreStraight(r, obstacles, path, index);
        KeepTurn(r, obstacles, path, compressed, index);
        compressed := compressed + [current];
      } else {
        DropMiddle(r, obstacles, path, compressed, index);
      }
    }
    compressed := compressed + [path[|path| - 1]];
  }

  lemma LegsAreStraight(r: Rect, obstacles: set<Rect>, path: seq<Point>, index: nat)
    requires ClearLegs(r, obstacles, path) && 0 < index < |path| - 1
    ensures path[index - 1].x == path[index].x || path[index - 1].y == path[index].y
    ensures path[index].x == path[index + 1].x || path[index].y == path[index + 1].y
  {
    assert SegmentClear(r, path[index - 1], path[index - 1 + 1], obstacles);
    assert SegmentClear(r, path[index], path[index + 1], obstacles);
  }

  // ---------- the grid ----------

  /** The configuration grid of one package among fixed obstacles. */
  datatype Grid = Grid(f: Floor, r: Rect, obstacles: set<Rect>, xs: seq<int>, ys: seq<int>) {
    predicate Has(n: Node) {
      n.i < |xs| && n.j < |ys|
    }

    function PointOf(n: Node): Point
      requires Has(n)
    {
      Point(xs[n.i], ys[n.j])
    }

    predicate IsValidNode(n: Node)
      requires Has(n)
    {
      Clear(At(r, PointOf(n)), obstacles)
    }

    function MovementNeighbors(n: Node): (ns: seq<Node>)
      requires Has(n)
      ensures forall m :: m in ns <==> Has(m) && Adjacent(n, m)
    {
      (if n.i > 0 then [Node(n.i - 1, n.j)] else [])
      + (if n.i + 1 < |xs| then [Node(n.i + 1, n.j)] else [])
      + (if n.j > 0 then [Node(n.i, n.j - 1)] else [])
      + (if n.j + 1 < |ys| then [Node(n.i, n.j + 1)] else [])
    }

    predicate Adjacent(n: Node, m: Node) {
      || (n.j == m.j && (n.i == m.i + 1 || m.i == n.i + 1))
      || (n.i == m.i && (n.j == m.j + 1 || m.j == n.j + 1))
    }

    /** The search may step from `n` to `m`. */
    predicate Edge(n: Node, m: Node)
      requires Has(n)
    {
      && Has(m) && Adjacent(n, m)
      && IsValidNode(m)
      && SegmentClear(r, PointOf(n), PointOf(m), obstacles)
    }

    ghost function Nodes(): set<Node> {
      set i: nat, j: nat | i < |xs| && j < |ys| :: Node(i, j)
    }

    ghost function XRanges(): set<(int, int)> {
      set o | o in obstacles :: (o.x - r.length, o.x + o.length)
    }

    ghost function YRanges(): set<(int, int)> {
      set o | o in obstacles :: (o.y - r.width, o.y + o.width)
    }

    ghost predicate Valid() {
      && r.Solid() && AllSolid(obstacles)
      && InBounds(f, r)
      && AxisFor(xs, f.length - r.length, XRanges())
      && AxisFor(ys, f.width - r.width, YRanges())
    }
  }

  /** The grid cell corner of a position. */
  ghost function SnapNode(g: Grid, p: Point): (n: Node)
    requires g.Valid() && InBounds(g.f, At(g.r, p))
    ensures g.Has(n)
  {
    AxisEnds(g.xs, g.f.length - g.r.length, g.XRanges());
    AxisEnds(g.ys, g.f.width - g.r.width, g.YRanges());
    Node(Snap(g.xs, p.x), Snap(g.ys, p.y))
  }

  lemma SnapColumnFree(g: Grid, p: Point)
    requires g.Valid() && Free(g.f, g.r, g.obstacles, p)
    ensures Clear(At(g.r, Point(g.xs[SnapNode(g, p).i], p.y)), g.obstacles)
  {
    var n := SnapNode(g, p);
    forall o | o in g.obstacles
      ensures !IsOverlap(At(g.r, Point(g.xs[n.i], p.y)), o)
    {
      var c := (o.x - g.r.length, o.x + o.length);
      assert c in g.XRanges();
      if c.0 < g.xs[n.i] < c.1 {
        SnapLeavesRangesOut(g.xs, g.f.length - g.r.length, g.XRanges(), c, p.x);
      }
      assert !IsOverlap(At(g.r, p), o);
    }
  }

  lemma SnapRowFree(g: Grid, p: Point)
    requires g.Valid() && Free(g.f, g.r, g.obstacles, p)
    ensures Clear(At(g.r, Point(p.x, g.ys[SnapNode(g, p).j])), g.obstacles)
  {
    var n := SnapNode(g, p);
    forall o | o in g.obstacles
      ensures !IsOverlap(At(g.r, Point(p.x, g.ys[n.j])), o)
    {
      var c := (o.y - g.r.width, o.y + o.width);
      assert c in g.YRanges();
      if c.0 < g.ys[n.j] < c.1 {
        SnapLeavesRangesOut(g.ys, g.f.width - g.r.width, g.YRanges(), c, p.y);
      }
      assert !IsOverlap(At(g.r, p), o);
    }
  }

  /** Snapping a free position to the grid leaves it free. */
  lemma SnapFree(g: Grid, p: Point)
    requires g.Valid() && Free(g.f, g.r, g.obstacles, p)
    ensures g.IsValidNode(SnapNode(g, p))
  {
    var n := SnapNode(g, p);
    var q := Point(g.xs[n.i], p.y);
    SnapColumnFree(g, p);
    assert g.xs[n.i] in g.xs;
    assert Free(g.f, g.r, g.obstacles, q);
    SnapUnique(g.ys, p.y, n.j);
    SnapRowFree(g, q);
    assert SnapNode(g, q).j == n.j;
  }

  /** One millimetre to the right, seen on the grid: the same node or a permitted step. */
  lemma StepRightSnaps(g: Grid, p: Point)
    requires g.Valid()
    requires Free(g.f, g.r, g.obstacles, p) && Free(g.f, g.r, g.obstacles, Point(p.x + 1, p.y))
    ensures var n, m := SnapNode(g, p), SnapNode(g, Point(p.x + 1, p.y));
            n == m || (g.Edge(n, m) && g.Edge(m, n))
  {
    var q := Point(p.x + 1, p.y);
    var n, m := SnapNode(g, p), SnapNode(g, q);
    SnapFree(g, p);
    SnapFree(g, q);
    if n.i + 1 < |g.xs| && q.x == g.xs[n.i + 1] {
      SnapUnique(g.xs, q.x, n.i + 1);
      var a, b := g.PointOf(n), g.PointOf(m);
      forall s | OnSegment(a, b, s)
        ensures Clear(At(g.r, s), g.obstacles)
      {
        CellColumnFree(g, p, s.x, n);
      }
      SegmentClearIff(g.r, a, b, g.obstacles);
      SegmentClearIff(g.r, b, a, g.obstacles);
    } else {
      SnapUnique(g.xs, q.x, n.i);
    }
  }

  /** While crossing from one column to the next, the package is clear throughout. */
  lemma CellColumnFree(g: Grid, p: Point, x: int, n: Node)
    requires g.Valid()
    requires Free(g.f, g.r, g.obstacles, p) && Free(g.f, g.r, g.obstacles, Point(p.x + 1, p.y))
    requires n == SnapNode(g, p) && n.i + 1 < |g.xs| && p.x + 1 == g.xs[n.i + 1]
    requires g.xs[n.i] <= x <= p.x + 1
    ensures Clear(At(g.r, Point(x, g.ys[n.j])), g.obstacles)
  {
    var s := Point(x, p.y);
    assert 0 <= x by { assert g.xs[n.i] in g.xs; }
    assert Clear(At(g.r, s), g.obstacles) by {
      if x == g.xs[n.i] {
        SnapColumnFree(g, p);
      } else if x <= p.x {
        InsideColumnFree(g, p, x, n.i);
      }
    }
    SnapRowFree(g, s);
  }

  lemma InsideColumnFree(g: Grid, p: Point, x: int, i: nat)
    requires AxisFor(g.xs, g.f.length - g.r.length, g.XRanges())
    requires Clear(At(g.r, p), g.obstacles)
    requires i + 1 < |g.xs| && g.xs[i] < x <= p.x < g.xs[i + 1]
    ensures Clear(At(g.r, Point(x, p.y)), g.obstacles)
  {
    forall o | o in g.obstacles
      ensures !IsOverlap(At(g.r, Point(x, p.y)), o)
    {
      var c := (o.x - g.r.length, o.x + o.length);
      assert c in g.XRanges();
      RangesConstantInsideCell(g.xs, g.f.length - g.r.length, g.XRanges(), c, i, x, p.x);
      assert !IsOverlap(At(g.r, p), o);
    }
  }

  lemma StepUpSnaps(g: Grid, p: Point)
    requires g.Valid()
    requires Free(g.f, g.r, g.obstacles, p) && Free(g.f, g.r, g.obstacles, Point(p.x, p.y + 1))
    ensures var n, m := SnapNode(g, p), SnapNode(g, Point(p.x, p.y + 1));
            n == m || (g.Edge(n, m) && g.Edge(m, n))
  {
    var q := Point(p.x, p.y + 1);
    var n, m := SnapNode(g, p), SnapNode(g, q);
    SnapFree(g, p);
    SnapFree(g, q);
    if n.j + 1 < |g.ys| && q.y == g.ys[n.j + 1] {
      SnapUnique(g.ys, q.y, n.j + 1);
      var a, b := g.PointOf(n), g.PointOf(m);
      forall s | OnSegment(a, b, s)
        ensures Clear(At(g.r, s), g.obstacles)
      {
        CellRowFree(g, p, s.y, n);
      }
      SegmentClearIff(g.r, a, b, g.obstacles);
      SegmentClearIff(g.r, b, a, g.obstacles);
    } else {
      SnapUnique(g.ys, q.y, n.j);
    }
  }

  lemma CellRowFree(g: Grid, p: Point, y: int, n: Node)
    requires g.Valid()
    requires Free(g.f, g.r, g.obstacles, p) && Free(g.f, g.r, g.obstacles, Point(p.x, p.y + 1))
    requires n == SnapNode(g, p) && n.j + 1 < |g.ys| && p.y + 1 == g.ys[n.j + 1]
    requires g.ys[n.j] <= y <= p.y + 1
    ensures Clear(At(g.r, Point(g.xs[n.i], y)), g.obstacles)
  {
    var s := Point(p.x, y);
    assert 0 <= y by { assert g.ys[n.j] in g.ys; }
    assert Clear(At(g.r, s), g.obstacles) by {
      if y == g.ys[n.j] {
        SnapRowFree(g, p);
      } else if y <= p.y {
        InsideRowFree(g, p, y, n.j);
      }
    }
    SnapColumnFree(g, s);
  }

  lemma InsideRowFree(g: Grid, p: Point, y: int, j: nat)
    requires AxisFor(g.ys, g.f.width - g.r.width, g.YRanges())
    requires Clear(At(g.r, p), g.obstacles)
    requires j + 1 < |g.ys| && g.ys[j] < y <= p.y < g.ys[j + 1]
    ensures Clear(At(g.r, Point(p.x, y)), g.obstacles)
  {
    forall o | o in g.obstacles
      ensures !IsOverlap(At(g.r, Point(p.x, y)), o)
    {
      var c := (o.y - g.r.width, o.y + o.width);
      assert c in g.YRanges();
      RangesConstantInsideCell(g.ys, g.f.width - g.r.width, g.YRanges(), c, j, y, p.y);
      assert !IsOverlap(At(g.r, p), o);
    }
  }

  /** Completeness: a set of nodes that holds the start and every step out of itself
      follows any slide, so it holds a node of the last column. */
  lemma SlideStaysInClosure(g: Grid, path: seq<Point>, reached: set<Node>, k: nat)
    requires g.Valid() && IsSlide(g.f, g.r, g.obstacles, path) && k < |path|
    requires forall n | n in reached :: g.Has(n)
    requires SnapNode(g, path[0]) in reached
    requires forall n, m | n in reached && g.Edge(n, m) :: m in reached
    ensures SnapNode(g, path[k]) in reached
  {
    if k > 0 {
      SlideStaysInClosure(g, path, reached, k - 1);
      var p, q := path[k - 1], path[k];
      assert UnitStep(path[k - 1], path[k - 1 + 1]);
      if q == Point(p.x + 1, p.y) { StepRightSnaps(g, p); }
      else if p == Point(q.x + 1, q.y) { StepRightSnaps(g, q); }
      else if q == Point(p.x, p.y + 1) { StepUpSnaps(g, p); }
      else { assert p == Point(q.x, q.y + 1); StepUpSnaps(g, q); }
    }
  }

  lemma EscapeReachesLastColumn(g: Grid, reached: set<Node>)
    requires g.Valid() && CanEscape(g.f, g.r, g.obstacles)
    requires forall n | n in reached :: g.Has(n)
    requires SnapNode(g, Point(g.r.x, g.r.y)) in reached
    requires forall n, m | n in reached && g.Edge(n, m) :: m in reached
    ensures exists n :: n in reached && n.i == |g.xs| - 1
  {
    var path: seq<Point> :| EscapesBy(g.f, g.r, g.obstacles, path);
    var last := |path| - 1;
    SlideStaysInClosure(g, path, reached, last);
    AxisEnds(g.xs, g.f.length - g.r.length, g.XRanges());
    SnapUnique(g.xs, path[last].x, |g.xs| - 1);
    assert SnapNode(g, path[last]).i == |g.xs| - 1;
  }

  // ---------- breadth-first search ----------

  ghost predicate Linked(g: Grid, start: Node, previous: map<Node, Option<Node>>, depth: map<Node, nat>, n: Node)
    requires n in previous && depth.Keys == previous.Keys
  {
    && g.Has(n) && g.IsValidNode(n)
    && match previous[n]
       case None => n == start
       case Some(p) => p in previous && g.Has(p) && g.Edge(p, n) && depth[p] < depth[n]
  }

  /** The `previous` links form a tree of permitted steps rooted at the start. */
  ghost predicate IsTree(g: Grid, start: Node, previous: map<Node, Option<Node>>, depth: map<Node, nat>) {
    && depth.Keys == previous.Keys
    && start in previous
    && forall n {:trigger Linked(g, start, previous, depth, n)} | n in previous ::
         Linked(g, start, previous, depth, n)
  }

  lemma TreeGrows(g: Grid, start: Node, previous: map<Node, Option<Node>>, depth: map<Node, nat>, node: Node,
      neighbor: Node)
    requires IsTree(g, start, previous, depth)
    requires node in previous && neighbor !in previous
    requires g.Has(node) && g.Edge(node, neighbor)
    ensures IsTree(g, start, previous[neighbor := Some(node)], depth[neighbor := depth[node] + 1])
  {
    var previous', depth' := previous[neighbor := Some(node)], depth[neighbor := depth[node] + 1];
    forall n | n in previous'
      ensures Linked(g, start, previous', depth', n)
    {
      if n != neighbor {
        assert Linked(g, start, previous, depth, n);
      }
    }
  }

  lemma LinkedIsNode(g: Grid, start: Node, previous: map<Node, Option<Node>>, depth: map<Node, nat>, node: Node)
    requires IsTree(g, start, previous, depth) && node in previous
    ensures g.Has(node)
  {
    assert Linked(g, start, previous, depth, node);
  }

  /** Not a goal, and every step out of it has been recorded. */
  ghost predicate Expanded(g: Grid, n: Node, previous: map<Node, Option<Node>>) {
    && g.Has(n) && n.i != |g.xs| - 1
    && forall m | g.Edge(n, m) :: m in previous
  }

  /** Handle one node taken from the frontier: record and queue what it reaches. */
  method ExpandNode(g: Grid, ghost start: Node, node: Node, previous: map<Node, Option<Node>>,
      ghost depth: map<Node, nat>)
    returns (added: seq<Node>, previous': map<Node, Option<Node>>, ghost depth': map<Node, nat>)
    requires IsTree(g, start, previous, depth) && node in previous && node.i != |g.xs| - 1
    ensures IsTree(g, start, previous', depth') && Expanded(g, node, previous')
    ensures forall n :: n in previous' <==> n in previous || n in added
    ensures forall n | n in added :: n !in previous
  {
    hide SegmentClear, Linked, Grid.IsValidNode;
    added, previous', depth' := [], previous, depth;
    assert g.Has(node) by { LinkedIsNode(g, start, previous, depth, node); }
    var neighbors := g.MovementNeighbors(node);
    for k := 0 to |neighbors|
      invariant IsTree(g, start, previous', depth')
      invariant forall n :: n in previous' <==> n in previous || n in added
      invariant forall n | n in added :: n !in previous
      invariant forall i | 0 <= i < k :: g.Edge(node, neighbors[i]) ==> neighbors[i] in previous'
    {
      var neighbor := neighbors[k];
      assert neighbor in neighbors;
      if neighbor in previous' || !g.IsValidNode(neighbor) {
        continue;
      }
      if !SegmentClear(g.r, g.PointOf(node), g.PointOf(neighbor), g.obstacles) {
        continue;
      }
      TreeGrows(g, start, previous', depth', node, neighbor);
      previous' := previous'[neighbor := Some(node)];
      depth' := depth'[neighbor := depth'[node] + 1];
      added := added + [neighbor];
    }
    forall m | g.Edge(node, m)
      ensures m in previous'
    {
      assert m in neighbors;
    }
  }

  method BreadthFirst(g: Grid, start: Node)
    returns (goal: Option<Node>, previous: map<Node, Option<Node>>, ghost depth: map<Node, nat>)
    requires g.Has(start) && g.IsValidNode(start)
    ensures IsTree(g, start, previous, depth)
    ensures goal.Some? ==> goal.value in previous && goal.value.i == |g.xs| - 1
    ensures goal.None? ==> forall n | n in previous :: Expanded(g, n, previous)
  {
    var frontier := [start];
    previous, depth, goal := map[start := None], map[start := 0], None;
    while frontier != []
      invariant IsTree(g, start, previous, depth)
      invariant forall n | n in frontier :: n in previous
      invariant forall n | n in previous :: n in frontier || Expanded(g, n, previous)
      decreases g.Nodes() - previous.Keys, |frontier|
    {
      var node := frontier[0];
      if node.i == |g.xs| - 1 {
        return Some(node), previous, depth;
      }
      assert Linked(g, start, previous, depth, node);
      ghost var before, queued := previous, frontier;
      var added;
      added, previous, depth := ExpandNode(g, start, node, previous, depth);
      frontier := frontier[1..] + added;
      forall n | n in previous
        ensures n in frontier || Expanded(g, n, previous)
      {
        if n in before && n != node && n !in queued {
          ExpandedStays(g, n, before, previous);
        }
      }
      assert added != [] ==> added[0] in previous.Keys - before.Keys;
      NodesShrink(g, start, previous, depth, before.Keys);
    }
  }

  lemma ExpandedStays(g: Grid, n: Node, before: map<Node, Option<Node>>, after: map<Node, Option<Node>>)
    requires Expanded(g, n, before) && before.Keys <= after.Keys
    ensures Expanded(g, n, after)
  {
  }

  method SearchGrid(g: Grid, start: Node) returns (path: Option<seq<Point>>)
    requires g.Valid() && g.Has(start) && g.PointOf(start) == Point(g.r.x, g.r.y)
    ensures path.Some? <==> CanEscape(g.f, g.r, g.obstacles)
    ensures path.Some? && |path.value| > 1 ==> IsEscapeRoute(g.f, g.r, g.obstacles, path.value)
    ensures path.Some? ==> |path.value| > 1 || g.r.x == g.f.length - g.r.length
  {
    AxisEnds(g.xs, g.f.length - g.r.length, g.XRanges());
    if !g.IsValidNode(start) {
      BlockedStartCannotEscape(g, start);
      return None;
    }
    var goal, previous;
    ghost var depth;
    goal, previous, depth := BreadthFirst(g, start);
    if goal.None? {
      ClosedSearchCannotEscape(g, start, previous, depth);
      return None;
    }
    ghost var trail;
    var points;
    points, trail := WalkBack(g, start, previous, depth, goal.value);
    TrailIsRoute(g, trail);
    TrailLegsClear(g, trail);
    TrailPointsDistinct(g, trail);
    var compressed := CompressTranslationPath(g.r, g.obstacles, points);
    forall k | 0 <= k < |compressed| && |points| > 1
      ensures InBounds(g.f, At(g.r, compressed[k]))
    {
      assert compressed[k] in points;
    }
    if |points| > 1 {
      RouteEscapes(g.f, g.r, g.obstacles, points);
    }
    path := Some(compressed);
  }

  lemma BlockedStartCannotEscape(g: Grid, start: Node)
    requires g.Valid() && g.Has(start) && g.PointOf(start) == Point(g.r.x, g.r.y)
    requires !g.IsValidNode(start)
    ensures !CanEscape(g.f, g.r, g.obstacles)
  {
    if CanEscape(g.f, g.r, g.obstacles) {
      EscapeStartsFree(g.f, g.r, g.obstacles);
    }
    assert At(g.r, g.PointOf(start)) == g.r;
  }

  lemma ClosedSearchCannotEscape(g: Grid, start: Node, previous: map<Node, Option<Node>>, depth: map<Node, nat>)
    requires g.Valid() && g.Has(start) && g.PointOf(start) == Point(g.r.x, g.r.y)
    requires IsTree(g, start, previous, depth)
    requires forall n | n in previous :: Expanded(g, n, previous)
    ensures !CanEscape(g.f, g.r, g.obstacles)
  {
    AxisStep(g.xs, start.i);
    AxisStep(g.ys, start.j);
    SnapUnique(g.xs, g.r.x, start.i);
    SnapUnique(g.ys, g.r.y, start.j);
    if CanEscape(g.f, g.r, g.obstacles) {
      EscapeReachesLastColumn(g, previous.Keys);
    }
  }

  lemma AxisStep(values: seq<int>, k: nat)
    requires StrictlySorted(values) && k < |values|
    ensures k + 1 < |values| ==> values[k] < values[k + 1]
  {
  }

  lemma NodesShrink(g: Grid, start: Node, previous: map<Node, Option<Node>>, depth: map<Node, nat>, before: set<Node>)
    requires before <= previous.Keys && IsTree(g, start, previous, depth)
    ensures before == previous.Keys || g.Nodes() - previous.Keys < g.Nodes() - before
  {
    if before != previous.Keys {
      assert !(previous.Keys <= before);
      var n :| n in previous.Keys && n !in before;
      assert Linked(g, start, previous, depth, n);
      assert n in g.Nodes() - before && n !in g.Nodes() - previous.Keys;
    }
  }

  /** Nodes listed from the goal back towards the start. */
  ghost predicate IsTrail(g: Grid, nodes: seq<Node>) {
    && (forall k | 0 <= k < |nodes| :: g.Has(nodes[k]) && g.IsValidNode(nodes[k]))
    && (forall k | 0 <= k < |nodes| - 1 :: g.Edge(nodes[k + 1], nodes[k]))
    && (forall j, k | 0 <= j < k < |nodes| :: nodes[j] != nodes[k])
  }

  ghost function PointsOf(g: Grid, nodes: seq<Node>): (points: seq<Point>)
    requires forall k | 0 <= k < |nodes| :: g.Has(nodes[k])
    ensures |points| == |nodes|
    ensures forall k | 0 <= k < |nodes| :: points[k] == g.PointOf(nodes[k])
  {
    seq(|nodes|, k requires 0 <= k < |nodes| => g.PointOf(nodes[k]))
  }

  /** Follow the `previous` links from the goal to the start, then reverse. */
  method WalkBack(g: Grid, ghost start: Node, previous: map<Node, Option<Node>>, ghost depth: map<Node, nat>,
      goal: Node)
    returns (points: seq<Point>, ghost trail: seq<Node>)
    requires g.Valid() && g.Has(start) && IsTree(g, start, previous, depth) && goal in previous
    ensures |trail| > 0 && trail[0] == goal && trail[|trail| - 1] == start
    ensures IsTrail(g, trail)
    ensures points == Reverse(PointsOf(g, trail))
  {
    assert Linked(g, start, previous, depth, goal);
    trail := [goal];
    var reversed := [g.PointOf(goal)];
    var cursor := goal;
    while previous[cursor].Some?
      invariant cursor in previous
      invariant |trail| > 0 && trail[0] == goal && trail[|trail| - 1] == cursor
      invariant IsTrail(g, trail)
      invariant reversed == PointsOf(g, trail)
      invariant forall k | 0 <= k < |trail| :: trail[k] in previous && depth[cursor] <= depth[trail[k]]
      decreases depth[cursor]
    {
      assert Linked(g, start, previous, depth, cursor);
      assert Linked(g, start, previous, depth, previous[cursor].value);
      cursor := previous[cursor].value;
      reversed := reversed + [g.PointOf(cursor)];
      trail := trail + [cursor];
    }
    assert Linked(g, start, previous, depth, cursor);
    points := Reverse(reversed);
  }

  lemma TrailPointsDistinct(g: Grid, trail: seq<Node>)
    requires g.Valid() && IsTrail(g, trail)
    ensures var points := Reverse(PointsOf(g, trail));
            forall j, k | 0 <= j < k < |points| :: points[j] != points[k]
  {
    var points := Reverse(PointsOf(g, trail));
    var last := |trail| - 1;
    forall j, k | 0 <= j < k < |points|
      ensures points[j] != points[k]
    {
      var m, n := trail[last - j], trail[last - k];
      assert m != n;
      assert g.xs[m.i] == g.xs[n.i] ==> m.i == n.i;
      assert g.ys[m.j] == g.ys[n.j] ==> m.j == n.j;
    }
  }

  lemma TrailLegsClear(g: Grid, trail: seq<Node>)
    requires g.Valid() && IsTrail(g, trail)
    ensures ClearLegs(g.r, g.obstacles, Reverse(PointsOf(g, trail)))
  {
    var points := Reverse(PointsOf(g, trail));
    var last := |trail| - 1;
    forall k | 0 <= k < |points| - 1
      ensures SegmentClear(g.r, points[k], points[k + 1], g.obstacles)
    {
      var j := last - k - 1;
      assert g.Edge(trail[j + 1], trail[j]);
    }
  }

  lemma NodeInBounds(g: Grid, n: Node)
    requires g.Valid() && g.Has(n)
    ensures InBounds(g.f, At(g.r, g.PointOf(n)))
  {
    assert g.xs[n.i] in g.xs && g.ys[n.j] in g.ys;
  }

  lemma TrailIsRoute(g: Grid, trail: seq<Node>)
    requires g.Valid() && |trail| > 0 && IsTrail(g, trail)
    requires trail[0].i == |g.xs| - 1 && g.PointOf(trail[|trail| - 1]) == Point(g.r.x, g.r.y)
    ensures var points := Reverse(PointsOf(g, trail));
            && (|points| > 1 ==> IsEscapeRoute(g.f, g.r, g.obstacles, points))
            && (|points| == 1 ==> EscapesBy(g.f, g.r, g.obstacles, points))
  {
    AxisEnds(g.xs, g.f.length - g.r.length, g.XRanges());
    TrailLegsClear(g, trail);
    var points := Reverse(PointsOf(g, trail));
    forall k | 0 <= k < |points|
      ensures Free(g.f, g.r, g.obstacles, points[k])
    {
      NodeInBounds(g, trail[|trail| - 1 - k]);
    }
  }

  // ---------- the whole search ----------

  /** The strip between the package and the door meets the obstacle. */
  predicate BlocksStraightPath(f: Floor, r: Rect, obstacle: Rect) {
    var pathStart := r.x + r.length;
    var pathLength := f.length - pathStart;
    !AtMost(pathLength, 0) && IsOverlap(Rect(pathStart, r.y, pathLength, r.width), obstacle)
  }

  predicate StraightPathClear(f: Floor, r: Rect, obstacles: set<Rect>) {
    forall o | o in obstacles :: !BlocksStraightPath(f, r, o)
  }

  /** The straight path together with the package's own place is the swept rectangle
      of the straight move. */
  lemma StraightPathIsSegment(f: Floor, r: Rect, obstacles: set<Rect>)
    requires r.Solid() && AllSolid(obstacles) && InBounds(f, r)
    requires Clear(r, obstacles)
    ensures StraightPathClear(f, r, obstacles) <==>
            SegmentClear(r, Point(r.x, r.y), Point(f.length - r.length, r.y), obstacles)
  {
    var swept := Rect(r.x, r.y, f.length - r.x, r.width);
    assert forall o | o in obstacles :: !IsOverlap(r, o);
  }

  /** The verdict of the search: the strip ahead is clear, or a slide exists. */
  ghost predicate Accepted(f: Floor, r: Rect, obstacles: set<Rect>) {
    InBounds(f, r) && (StraightPathClear(f, r, obstacles) || CanEscape(f, r, obstacles))
  }

  /** The verdict is right exactly when the package overlaps nothing, is off the floor, or
      has something in the strip ahead, so that the shortcut is not taken. */
  lemma VerdictIsRightIff(f: Floor, r: Rect, obstacles: set<Rect>)
    requires r.Solid() && AllSolid(obstacles)
    ensures (Accepted(f, r, obstacles) <==> CanEscape(f, r, obstacles)) <==>
            (Clear(r, obstacles) || !InBounds(f, r) || !StraightPathClear(f, r, obstacles))
  {
    if CanEscape(f, r, obstacles) {
      EscapeStartsFree(f, r, obstacles);
    }
    if Clear(r, obstacles) && InBounds(f, r) && StraightPathClear(f, r, obstacles) {
      StraightPathIsSegment(f, r, obstacles);
      var path := [Point(r.x, r.y), Point(f.length - r.length, r.y)];
      assert IsEscapeRoute(f, r, obstacles, path);
      RouteEscapes(f, r, obstacles, path);
    }
  }

  /** A route found starts where the package overlaps nothing. */
  lemma RoutesStartClear(f: Floor, r: Rect, obstacles: set<Rect>, path: seq<Point>)
    requires r.Solid() && AllSolid(obstacles) && IsEscapeRoute(f, r, obstacles, path)
    ensures Clear(r, obstacles)
  {
    RouteEscapes(f, r, obstacles, path);
    EscapeStartsFree(f, r, obstacles);
  }

  method FindTranslationPathToDoor(f: Floor, r: Rect, obstacles: set<Rect>) returns (path: Option<seq<Point>>)
    requires r.Solid() && AllSolid(obstacles)
    ensures path.Some? <==> InBounds(f, r) && (StraightPathClear(f, r, obstacles) || CanEscape(f, r, obstacles))
    ensures (path.Some? <==> CanEscape(f, r, obstacles)) <==>
            (Clear(r, obstacles) || !InBounds(f, r) || !StraightPathClear(f, r, obstacles))
    ensures path.Some? ==> (IsEscapeRoute(f, r, obstacles, path.value) <==> Clear(r, obstacles))
  {
    VerdictIsRightIff(f, r, obstacles);
    if CanEscape(f, r, obstacles) {
      EscapeStartsFree(f, r, obstacles);
    }
    var maxX, maxY := f.length - r.length, f.width - r.width;
    var start := Point(Normalize(r.x), Normalize(r.y));
    if !AtMost(0, maxX) || !AtMost(0, maxY) || !AtMost(0, start.x) || !AtMost(0, start.y)
       || !AtMost(start.x, maxX) || !AtMost(start.y, maxY)
    {
      return None;
    }
    maxX, maxY := Normalize(maxX), Normalize(maxY);
    if StraightPathClear(f, r, obstacles) {
      path := Some([start, Point(maxX, start.y)]);
      if Clear(r, obstacles) {
        StraightPathIsSegment(f, r, obstacles);
      } else if IsEscapeRoute(f, r, obstacles, path.value) {
        RoutesStartClear(f, r, obstacles, path.value);
      }
      return;
    }
    var xCritical := (set o | o in obstacles :: o.x - r.length) + (set o | o in obstacles :: o.x + o.length);
    var yCritical := (set o | o in obstacles :: o.y - r.width) + (set o | o in obstacles :: o.y + o.width);
    var xs := MovementAxisValues(start.x, maxX, xCritical);
    var ys := MovementAxisValues(start.y, maxY, yCritical);
    var g := Grid(f, r, obstacles, xs, ys);
    assert AxisFor(xs, maxX, g.XRanges());
    assert AxisFor(ys, maxY, g.YRanges());
    var i, j := IndexOf(xs, start.x), IndexOf(ys, start.y);
    path := SearchGrid(g, Node(i, j));
  }

  function IndexOf(values: seq<int>, v: int): (k: nat)
    requires v in values
    ensures k < |values| && values[k] == v
  {
    if values[0] == v then 0 else 1 + IndexOf(values[1..], v)
  }

  method IsPathToDoorClear(f: Floor, r: Rect, obstacles: set<Rect>) returns (clear: bool)
    requires r.Solid() && AllSolid(obstacles)
    ensures clear <==> InBounds(f, r) && (StraightPathClear(f, r, obstacles) || CanEscape(f, r, obstacles))
    ensures (clear <==> CanEscape(f, r, obstacles)) <==>
            (Clear(r, obstacles) || !InBounds(f, r) || !StraightPathClear(f, r, obstacles))
  {
    var path := FindTranslationPathToDoor(f, r, obstacles);
    clear := path.Some?;
  }

  /** The straight shortcut looks only ahead of the package, so for a package that
      already overlaps an obstacle it can report a path where no slide exists. */
  lemma OverlappingStartFoolsShortcut()
    ensures var f, r, o := Floor(10, 10, 10, 10), Rect(2, 0, 3, 3), Rect(1, 0, 2, 2);
            && IsOverlap(r, o) && InBounds(f, r)
            && StraightPathClear(f, r, {o}) && !CanEscape(f, r, {o})
  {
    var f, r, o := Floor(10, 10, 10, 10), Rect(2, 0, 3, 3), Rect(1, 0, 2, 2);
    if CanEscape(f, r, {o}) {
      EscapeStartsFree(f, r, {o});
    }
  }
}
