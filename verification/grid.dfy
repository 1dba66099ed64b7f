/**
 * The broad phase (src/core/grid.rs): a map from (cell, group) keys to the
 * ids of the hitboxes whose bounding boxes touch that cell.  A hitbox moves
 * from one rectangle of cells to another by touching only the cells in the
 * difference, and its neighbours are the other ids found in the cells of its
 * rectangle under the groups it can interact with.
 */
module Grids {
  import opened Prelude
  import opened Core
  import opened IndexRects

  datatype GridKey = GridKey(coord: Coord, group: Group)

  datatype GridArea = GridArea(rect: IndexRect, group: Group)
  {
    /** `GridArea::contains`: the same group and a cell of the rectangle. */
    predicate Contains(key: GridKey)
    {
      group == key.group && IndexRects.Contains(rect, key.coord)
    }
  }

  type CellMap = map<GridKey, set<HitboxId>>

  /** Cell `k` holds id `o`. */
  predicate Has(m: CellMap, k: GridKey, o: HitboxId)
  {
    k in m && o in m[k]
  }

  /** The ids in a cell; a missing entry holds none. */
  function Ids(m: CellMap, k: GridKey): set<HitboxId>
  {
    if k in m then m[k] else {}
  }

  /** The map keeps no empty sets: `update_area` deletes an entry once it empties. */
  predicate NoEmptyCells(m: CellMap)
  {
    forall k :: k in m ==> m[k] != {}
  }

  predicate InArea(area: Option<GridArea>, k: GridKey)
  {
    area.Some? && area.value.Contains(k)
  }

  /** Id `id` is stored in exactly the cells of `area`. */
  ghost predicate StoredExactlyIn(m: CellMap, id: HitboxId, area: Option<GridArea>)
  {
    forall k :: Has(m, k, id) <==> InArea(area, k)
  }

  /** An area contains a key exactly when iterating its rectangle under its group reaches that key. */
  lemma AreaContainsIffVisited(area: GridArea, key: GridKey)
    ensures area.Contains(key) <==>
      key.group == area.group && exists n :: 1 <= n <= Count(area.rect) && Iterate(area.rect, n) == Some(key.coord)
  {
    ContainsIffYielded(area.rect, key.coord);
  }

  /**
   * The cells a bounding box touches: `floor(left / cell_width)`,
   * `floor(bottom / cell_width)`, `ceil(right / cell_width)` and
   * `ceil(top / cell_width)`.  The float-to-cell conversion itself is not
   * part of this model; these four integers are its result.
   */
  datatype CellSpan = CellSpan(floorLeft: int, floorBottom: int, ceilRight: int, ceilTop: int)

  function IntMax(a: int, b: int): int
  {
    if a < b then b else a
  }

  /**
   * `index_bounds`: no area without a group; otherwise a rectangle from the
   * floors to the ceilings, widened to at least one cell on each axis so that
   * `IndexRect::new` never panics.
   */
  function IndexBounds(group: Option<Group>, span: CellSpan): (r: Option<GridArea>)
    ensures r.Some? <==> group.Some?
    ensures r.Some? ==> r.value.group == group.value && r.value.rect.start == (span.floorLeft, span.floorBottom)
    ensures r.Some? ==> IndexRects.Contains(r.value.rect, (span.floorLeft, span.floorBottom))
    ensures r.Some? ==> var e := r.value.rect.end;
      && span.ceilRight <= e.0 && span.floorLeft < e.0 && (e.0 == span.ceilRight || e.0 == span.floorLeft + 1)
      && span.ceilTop <= e.1 && span.floorBottom < e.1 && (e.1 == span.ceilTop || e.1 == span.floorBottom + 1)
    ensures r.Some? ==> forall x, y :: span.floorLeft <= x < span.ceilRight && span.floorBottom <= y < span.ceilTop
                                    ==> IndexRects.Contains(r.value.rect, (x, y))
  {
    match group
    case None => None
    case Some(g) =>
      var start := (span.floorLeft, span.floorBottom);
      var end := (IntMax(span.ceilRight, span.floorLeft + 1), IntMax(span.ceilTop, span.floorBottom + 1));
      Some(GridArea(IndexRectData(start, end), g))
  }

  /** The ids in column `x` of group `g`, rows `y0` up to but not including `y1`. */
  function RowIds(m: CellMap, g: Group, x: int, y0: int, y1: int): set<HitboxId>
    decreases y1 - y0
  {
    if y1 <= y0 then {} else RowIds(m, g, x, y0, y1 - 1) + Ids(m, GridKey((x, y1 - 1), g))
  }

  /** The ids in the columns of `rect` left of `x1`, in group `g`. */
  function RectIds(m: CellMap, g: Group, rect: IndexRect, x1: int): set<HitboxId>
    decreases x1 - rect.start.0
  {
    if x1 <= rect.start.0 then {}
    else RectIds(m, g, rect, x1 - 1) + RowIds(m, g, x1 - 1, rect.start.1, rect.end.1)
  }

  /** The ids in the cells of `rect`, in any of `groups`. */
  function GroupsIds(m: CellMap, groups: seq<Group>, rect: IndexRect): set<HitboxId>
  {
    if groups == [] then {}
    else GroupsIds(m, groups[..|groups| - 1], rect) + RectIds(m, groups[|groups| - 1], rect, rect.end.0)
  }

  lemma {:induction false} RowIdsMeaning(m: CellMap, g: Group, x: int, y0: int, y1: int, o: HitboxId)
    ensures o in RowIds(m, g, x, y0, y1) <==> exists y :: y0 <= y < y1 && Has(m, GridKey((x, y), g), o)
    decreases y1 - y0
  {
    if y1 > y0 {
      RowIdsMeaning(m, g, x, y0, y1 - 1, o);
      if o in Ids(m, GridKey((x, y1 - 1), g)) {
        assert Has(m, GridKey((x, y1 - 1), g), o);
      }
    }
  }

  lemma {:induction false} RectIdsMeaning(m: CellMap, g: Group, rect: IndexRect, x1: int, o: HitboxId)
    ensures o in RectIds(m, g, rect, x1) <==>
      exists x, y :: rect.start.0 <= x < x1 && rect.start.1 <= y < rect.end.1 && Has(m, GridKey((x, y), g), o)
    decreases x1 - rect.start.0
  {
    if x1 > rect.start.0 {
      RectIdsMeaning(m, g, rect, x1 - 1, o);
      RowIdsMeaning(m, g, x1 - 1, rect.start.1, rect.end.1, o);
    }
  }

  /**
   * The neighbour set means what it says: an id is in it exactly when some
   * cell of the rectangle holds it under one of the groups.
   */
  lemma {:induction false} GroupsIdsMeaning(m: CellMap, groups: seq<Group>, rect: IndexRect, o: HitboxId)
    ensures o in GroupsIds(m, groups, rect) <==>
      exists j, c :: 0 <= j < |groups| && IndexRects.Contains(rect, c) && Has(m, GridKey(c, groups[j]), o)
  {
    if groups != [] {
      var last := |groups| - 1;
      GroupsIdsMeaning(m, groups[..last], rect, o);
      RectIdsMeaning(m, groups[last], rect, rect.end.0, o);
      if o in GroupsIds(m, groups[..last], rect) {
        var j, c :| 0 <= j < last && IndexRects.Contains(rect, c) && Has(m, GridKey(c, groups[..last][j]), o);
        assert groups[..last][j] == groups[j];
      }
      if o in RectIds(m, groups[last], rect, rect.end.0) {
        var x, y :| rect.start.0 <= x < rect.end.0 && rect.start.1 <= y < rect.end.1 && Has(m, GridKey((x, y), groups[last]), o);
        assert IndexRects.Contains(rect, (x, y));
      }
      if exists j, c :: 0 <= j < |groups| && IndexRects.Contains(rect, c) && Has(m, GridKey(c, groups[j]), o) {
        var j, c :| 0 <= j < |groups| && IndexRects.Contains(rect, c) && Has(m, GridKey(c, groups[j]), o);
        if j < last {
          assert groups[..last][j] == groups[j];
        }
      }
    }
  }

  /** Cell `c` comes before cell `(x, y)` in the column-by-column walk. */
  predicate Before(c: Coord, x: int, y: int)
  {
    c.0 < x || (c.0 == x && c.1 < y)
  }

  /**
   * Two maps without empty cells that agree on which ids each cell holds
   * agree on each cell.
   */
  lemma SameCell(m1: CellMap, m2: CellMap, k: GridKey)
    requires NoEmptyCells(m1) && NoEmptyCells(m2)
    requires forall o :: Has(m1, k, o) <==> Has(m2, k, o)
    ensures (k in m1 <==> k in m2) && (k in m1 ==> m1[k] == m2[k])
  {
    if k in m1 {
      var o :| o in m1[k];
      assert Has(m1, k, o);
    }
    if k in m2 {
      var o :| o in m2[k];
      assert Has(m2, k, o);
    }
    if k in m1 && k in m2 {
      assert forall o :: o in m1[k] <==> Has(m1, k, o);
      assert forall o :: o in m2[k] <==> Has(m2, k, o);
    }
  }

  /** `Grid`: the cell map and the cell width. */
  class Grid {
    var cells: CellMap
    const cellWidth: real

    ghost predicate Valid()
      reads this
    {
      NoEmptyCells(cells)
    }

    /** `Grid::new`: no cells. */
    constructor (cellWidth: real)
      ensures Valid() && cells == map[] && this.cellWidth == cellWidth
    {
      cells := map[];
      this.cellWidth := cellWidth;
    }

    /**
     * `cell_period`: how long the hitbox needs to cross one cell, from the
     * speed of its fastest edge (`max_edge`, which is not part of this model,
     * so the speed is a parameter).  Infinite without a group or when no edge
     * moves.
     */
    function CellPeriod(speed: real, hasGroup: bool): (r: XReal)
      ensures r.PosInf? <==> !hasGroup || speed <= 0.0
      ensures r.Fin? ==> r.val * speed == cellWidth
      ensures r.Fin? && cellWidth > 0.0 ==> r.val > 0.0
    {
      if hasGroup then
        if speed <= 0.0 then PosInf else Fin(cellWidth / speed)
      else
        PosInf
    }

    /**
     * `overlapping_ids`: every id other than `hitbox_id` found in a cell of
     * `rect` under one of `groups`.  The cells are walked as `rect.iter()`
     * walks them, column by column.
     */
    method OverlappingIds(hitboxId: HitboxId, rect: IndexRect, groups: seq<Group>) returns (result: set<HitboxId>)
      ensures hitboxId !in result
      ensures forall o :: o in result <==> o != hitboxId && o in GroupsIds(cells, groups, rect)
    {
      result := {};
      var i := 0;
      while i < |groups|
        invariant 0 <= i <= |groups|
        invariant result == GroupsIds(cells, groups[..i], rect) - {hitboxId}
      {
        var group := groups[i];
        assert groups[..i + 1][..i] == groups[..i];
        var x := rect.start.0;
        while x < rect.end.0
          invariant rect.start.0 <= x <= rect.end.0
          invariant result == (GroupsIds(cells, groups[..i], rect) + RectIds(cells, group, rect, x)) - {hitboxId}
        {
          var y := rect.start.1;
          while y < rect.end.1
            invariant rect.start.1 <= y <= rect.end.1
            invariant result == (GroupsIds(cells, groups[..i], rect) + RectIds(cells, group, rect, x)
                                 + RowIds(cells, group, x, rect.start.1, y)) - {hitboxId}
          {
            var key := GridKey((x, y), group);
            if key in cells {
              result := result + (cells[key] - {hitboxId});
            }
            y := y + 1;
          }
          x := x + 1;
        }
        i := i + 1;
      }
      assert groups[..|groups|] == groups;
    }

    /** Take `id` out of one cell, deleting the entry if it empties. */
    method RemoveFromCell(id: HitboxId, key: GridKey)
      requires Valid() && Has(cells, key, id)
      modifies this
      ensures Valid()
      ensures forall k, o :: Has(cells, k, o) <==> Has(old(cells), k, o) && !(k == key && o == id)
    {
      var ids := cells[key] - {id};
      assert forall o :: o in cells[key] && o != id ==> o in ids;
      if ids == {} {
        cells := cells - {key};
      } else {
        cells := cells[key := ids];
      }
    }

    /** Put `id` into one cell, creating the entry if needed. */
    method InsertIntoCell(id: HitboxId, key: GridKey)
      requires Valid() && !Has(cells, key, id)
      modifies this
      ensures Valid()
      ensures forall k, o :: Has(cells, k, o) <==> Has(old(cells), k, o) || (k == key && o == id)
    {
      cells := cells[key := Ids(cells, key) + {id}];
    }

    /**
     * `update_area`: remove `hitbox_id` from the cells of the old area that
     * are not in the new one, then add it to the cells of the new area that
     * were not in the old one.  The library asserts ("illegal state", and
     * `unreachable!`) that each removal finds the id and each insertion does
     * not; that is guaranteed when the id was stored in exactly the old area.
     */
    method UpdateArea(hitboxId: HitboxId, oldArea: Option<GridArea>, newArea: Option<GridArea>)
      requires Valid() && StoredExactlyIn(cells, hitboxId, oldArea)
      modifies this
      ensures Valid() && StoredExactlyIn(cells, hitboxId, newArea)
      ensures forall k, o :: o != hitboxId ==> (Has(cells, k, o) <==> Has(old(cells), k, o))
      ensures forall k :: (InArea(oldArea, k) <==> InArea(newArea, k)) ==>
        (k in cells <==> k in old(cells)) && (k in cells ==> cells[k] == old(cells)[k])
    {
      if oldArea.Some? {
        var area := oldArea.value;
        var rect := area.rect;
        var x := rect.start.0;
        while x < rect.end.0
          invariant rect.start.0 <= x <= rect.end.0
          invariant Valid()
          invariant forall k :: Has(cells, k, hitboxId) <==>
            InArea(oldArea, k) && !(Before(k.coord, x, rect.start.1) && !InArea(newArea, k))
          invariant forall k, o :: o != hitboxId ==> (Has(cells, k, o) <==> Has(old(cells), k, o))
        {
          var y := rect.start.1;
          while y < rect.end.1
            invariant rect.start.1 <= y <= rect.end.1
            invariant Valid()
            invariant forall k :: Has(cells, k, hitboxId) <==>
              InArea(oldArea, k) && !(Before(k.coord, x, y) && !InArea(newArea, k))
            invariant forall k, o :: o != hitboxId ==> (Has(cells, k, o) <==> Has(old(cells), k, o))
          {
            var key := GridKey((x, y), area.group);
            if !InArea(newArea, key) {
              RemoveFromCell(hitboxId, key);
            }
            y := y + 1;
          }
          x := x + 1;
        }
      }
      assert forall k :: Has(cells, k, hitboxId) <==> InArea(oldArea, k) && InArea(newArea, k);
      if newArea.Some? {
        var area := newArea.value;
        var rect := area.rect;
        var x := rect.start.0;
        while x < rect.end.0
          invariant rect.start.0 <= x <= rect.end.0
          invariant Valid()
          invariant forall k :: Has(cells, k, hitboxId) <==>
            InArea(newArea, k) && (InArea(oldArea, k) || Before(k.coord, x, rect.start.1))
          invariant forall k, o :: o != hitboxId ==> (Has(cells, k, o) <==> Has(old(cells), k, o))
        {
          var y := rect.start.1;
          while y < rect.end.1
            invariant rect.start.1 <= y <= rect.end.1
            invariant Valid()
            invariant forall k :: Has(cells, k, hitboxId) <==>
              InArea(newArea, k) && (InArea(oldArea, k) || Before(k.coord, x, y))
            invariant forall k, o :: o != hitboxId ==> (Has(cells, k, o) <==> Has(old(cells), k, o))
          {
            var key := GridKey((x, y), area.group);
            if !InArea(oldArea, key) {
              InsertIntoCell(hitboxId, key);
            }
            y := y + 1;
          }
          x := x + 1;
        }
      }
      forall k | InArea(oldArea, k) <==> InArea(newArea, k)
        ensures (k in cells <==> k in old(cells)) && (k in cells ==> cells[k] == old(cells)[k])
      {
        SameCell(cells, old(cells), k);
      }
    }

    /**
     * `update_hitbox`: move the hitbox between the areas of its old and new
     * bounding boxes and, when it has a group, return its neighbours in the
     * groups it can interact with.  A hitbox without a group must have no
     * groups to interact with ("illegal state").
     */
    method UpdateHitbox(hitboxId: HitboxId, oldGroup: Option<Group>, oldSpan: CellSpan,
                        newGroup: Option<Group>, newSpan: CellSpan, groups: seq<Group>)
      returns (r: Option<set<HitboxId>>)
      requires newGroup.Some? || groups == []
      requires Valid() && StoredExactlyIn(cells, hitboxId, IndexBounds(oldGroup, oldSpan))
      modifies this
      ensures Valid() && StoredExactlyIn(cells, hitboxId, IndexBounds(newGroup, newSpan))
      ensures forall k, o :: o != hitboxId ==> (Has(cells, k, o) <==> Has(old(cells), k, o))
      ensures r.None? <==> newGroup.None?
      ensures r.Some? ==> forall o :: o in r.value <==>
        o != hitboxId && o in GroupsIds(cells, groups, IndexBounds(newGroup, newSpan).value.rect)
    {
      var oldArea := IndexBounds(oldGroup, oldSpan);
      var newArea := IndexBounds(newGroup, newSpan);
      UpdateArea(hitboxId, oldArea, newArea);
      if newArea.Some? {
        var ids := OverlappingIds(hitboxId, newArea.value.rect, groups);
        r := Some(ids);
      } else {
        r := None;
      }
    }
  }
}
