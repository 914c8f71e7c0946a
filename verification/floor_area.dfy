/** Cargo that is not stacked covers no more floor than there is. */
module FloorArea {
  import opened Prelude
  import opened Geometry
  import opened MapSums
  import opened Replay

  /** The unit cells under a footprint. */
  ghost function Cells(r: Rect): set<Point> {
    set x, y | r.x <= x < r.x + r.length && r.y <= y < r.y + r.width :: Point(x, y)
  }

  lemma {:induction false} ColumnCount(r: Rect)
    requires r.length == 1 && r.width >= 0
    ensures |Cells(r)| == r.width
    decreases r.width
  {
    if r.width == 0 {
      assert Cells(r) == {};
    } else {
      var shorter := r.(width := r.width - 1);
      var last := Point(r.x, r.y + r.width - 1);
      ColumnCount(shorter);
      assert Cells(r) == Cells(shorter) + {last} && last !in Cells(shorter);
    }
  }

  lemma ShorterArea(r: Rect)
    ensures r.Area() == r.(length := r.length - 1).Area() + r.width
  {
  }

  lemma ShorterCells(r: Rect)
    requires r.length > 0 && r.width >= 0
    ensures var shorter, column := r.(length := r.length - 1), Rect(r.x + r.length - 1, r.y, 1, r.width);
            |Cells(r)| == |Cells(shorter)| + |Cells(column)|
  {
    var shorter, column := r.(length := r.length - 1), Rect(r.x + r.length - 1, r.y, 1, r.width);
    assert Cells(r) == Cells(shorter) + Cells(column);
    assert Cells(shorter) !! Cells(column);
  }

  lemma {:induction false} CellCount(r: Rect)
    requires r.length >= 0 && r.width >= 0
    ensures |Cells(r)| == r.Area()
    decreases r.length
  {
    if r.length == 0 {
      assert Cells(r) == {};
    } else {
      CellCount(r.(length := r.length - 1));
      ColumnCount(Rect(r.x + r.length - 1, r.y, 1, r.width));
      ShorterCells(r);
      ShorterArea(r);
    }
  }

  ghost function Covered(layout: Layout): set<Point>
    decreases |layout|
  {
    if layout == map[] then {}
    else
      var i :| i in layout;
      Cells(layout[i].rect) + Covered(layout - {i})
  }

  lemma {:induction false} CoveredCells(layout: Layout)
    ensures forall p :: p in Covered(layout) <==> exists i :: i in layout && p in Cells(layout[i].rect)
    decreases |layout|
  {
    if layout == map[] {
    } else {
      var i :| i in layout && Covered(layout) == Cells(layout[i].rect) + Covered(layout - {i});
      CoveredCells(layout - {i});
      forall p
        ensures p in Covered(layout) <==> exists j :: j in layout && p in Cells(layout[j].rect)
      {
        if j :| j in layout && p in Cells(layout[j].rect) {
          if j != i {
            assert j in layout - {i} && p in Cells((layout - {i})[j].rect);
          }
        }
      }
    }
  }

  lemma SharedCellOverlaps(a: Rect, b: Rect, p: Point)
    requires p in Cells(a) && p in Cells(b)
    ensures IsOverlap(a, b)
  {
  }

  /** Footprints overlap exactly when some cell is under both; edges that touch do not count. */
  lemma OverlapIffSharedCell(a: Rect, b: Rect)
    requires a.Solid() && b.Solid()
    ensures IsOverlap(a, b) <==> exists p :: p in Cells(a) && p in Cells(b)
  {
    if IsOverlap(a, b) {
      var p := Point(Max(a.x, b.x), Max(a.y, b.y));
      assert p in Cells(a) && p in Cells(b);
    }
    if p :| p in Cells(a) && p in Cells(b) {
      SharedCellOverlaps(a, b, p);
    }
  }

  /** A footprint is in bounds exactly when all its cells are cells of the floor. */
  lemma InBoundsIffCells(f: Floor, r: Rect)
    requires r.Solid()
    ensures InBounds(f, r) <==> Cells(r) <= Cells(Rect(0, 0, f.length, f.width))
  {
    var first, last := Point(r.x, r.y), Point(r.x + r.length - 1, r.y + r.width - 1);
    assert first in Cells(r) && last in Cells(r);
  }

  lemma CoversSeparately(layout: Layout, i: ItemId)
    requires NoOverlap(layout) && i in layout
    ensures Cells(layout[i].rect) !! Covered(layout - {i})
  {
    var rest := layout - {i};
    CoveredCells(rest);
    forall p | p in Cells(layout[i].rect) && p in Covered(rest)
      ensures false
    {
      var j :| j in rest && p in Cells(rest[j].rect);
      SharedCellOverlaps(layout[i].rect, layout[j].rect, p);
    }
  }

  lemma AreaWithout(layout: Layout, i: ItemId)
    requires i in layout
    ensures TotalArea(layout) == layout[i].rect.Area() + TotalArea(layout - {i})
  {
    SumRemove(Areas(layout), i);
    assert Areas(layout - {i}) == Areas(layout) - {i};
  }

  lemma {:induction false} CoveredCount(layout: Layout)
    requires NoOverlap(layout) && forall i | i in layout :: layout[i].rect.Solid()
    ensures |Covered(layout)| == TotalArea(layout)
    decreases |layout|
  {
    if layout == map[] {
      assert Areas(layout) == map[];
    } else {
      var i :| i in layout && Covered(layout) == Cells(layout[i].rect) + Covered(layout - {i});
      CoversSeparately(layout, i);
      AreaWithout(layout, i);
      CellCount(layout[i].rect);
      CoveredCount(layout - {i});
    }
  }

  /** Rejecting a stop because its cargo area exceeds the floor rejects nothing that
      could have been laid out. */
  lemma AreaFitsFloor(f: Floor, layout: Layout)
    requires f.length >= 0 && f.width >= 0
    requires NoOverlap(layout)
    requires forall i | i in layout :: layout[i].rect.Solid() && InBounds(f, layout[i].rect)
    ensures TotalArea(layout) <= f.length * f.width
  {
    var floor := Rect(0, 0, f.length, f.width);
    CoveredCount(layout);
    CoveredCells(layout);
    CellCount(floor);
    assert Covered(layout) <= Cells(floor);
    SubsetSize(Covered(layout), Cells(floor));
  }
}
