/**
 * Non-empty rectangles of grid cells (src/index_rect.rs): `start` is
 * inclusive, `end` exclusive, on both axes.  The iterator walks the cells
 * column by column, `y` fastest.  Coordinates are `i32` in the library;
 * every value the iterator computes lies between `start` and `end`, so no
 * arithmetic here can leave that range and plain integers model it exactly.
 */
module IndexRects {
  import opened Prelude

  type Coord = (int, int)

  datatype IndexRectData = IndexRectData(start: Coord, end: Coord)

  /** The assertion of `IndexRect::new`. */
  predicate NonEmpty(start: Coord, end: Coord)
  {
    start.0 < end.0 && start.1 < end.1
  }

  type IndexRect = r: IndexRectData | NonEmpty(r.start, r.end) witness IndexRectData((0, 0), (1, 1))

  /** `IndexRect::new`: `None` stands for the "IndexRect contains no elements" panic. */
  function New(start: Coord, end: Coord): (r: Option<IndexRect>)
    ensures r.Some? <==> start.0 < end.0 && start.1 < end.1
    ensures r.Some? ==> r.value.start == start && r.value.end == end
  {
    if NonEmpty(start, end) then Some(IndexRectData(start, end)) else None
  }

  /** `contains`: half-open on both axes. */
  predicate Contains(rect: IndexRect, val: Coord)
  {
    val.0 >= rect.start.0 && val.0 < rect.end.0 && val.1 >= rect.start.1 && val.1 < rect.end.1
  }

  function Width(rect: IndexRect): (r: nat)
    ensures r > 0
  {
    rect.end.0 - rect.start.0
  }

  function Height(rect: IndexRect): (r: nat)
    ensures r > 0
  {
    rect.end.1 - rect.start.1
  }

  /** The number of cells in the rectangle. */
  function Count(rect: IndexRect): (r: nat)
    ensures r >= Width(rect) && r >= Height(rect)
  {
    MulAtLeast(Width(rect), Height(rect));
    Width(rect) * Height(rect)
  }

  lemma MulAtLeast(a: nat, b: nat)
    requires a > 0 && b > 0
    ensures a * b >= a && a * b >= b
  {
    assert a * b == a * (b - 1) + a;
    assert a * b == (a - 1) * b + b;
  }

  /**
   * The step of `Iter::next`: from no value to `start`; otherwise one up in
   * `y`, or, at the top row, to the bottom of the next column; after the last
   * cell, to no value.
   */
  function NextVal(rect: IndexRect, val: Option<Coord>): (r: Option<Coord>)
    ensures val.None? ==> r == Some(rect.start)
    ensures val.Some? && Contains(rect, val.value) && r.Some? ==> Contains(rect, r.value)
    ensures r.None? <==> val == Some((rect.end.0 - 1, rect.end.1 - 1))
  {
    match val
    case Some((x, y)) =>
      if y == rect.end.1 - 1 then
        if x == rect.end.0 - 1 then None else Some((x + 1, rect.start.1))
      else
        Some((x, y + 1))
    case None => Some(rect.start)
  }

  /** The value held after `n` calls of `next` on a fresh iterator. */
  function Iterate(rect: IndexRect, n: nat): Option<Coord>
  {
    if n == 0 then None else NextVal(rect, Iterate(rect, n - 1))
  }

  /** `Iter`: the rectangle and the last value handed out. */
  class Iter {
    const rect: IndexRect
    var val: Option<Coord>
    /** How many times `Next` has been called. */
    ghost var calls: nat

    ghost predicate Valid()
      reads this
    {
      val == Iterate(rect, calls)
    }

    /** `Iter::new` (reached through `IndexRect::iter`): nothing handed out yet. */
    constructor (rect: IndexRect)
      ensures Valid() && this.rect == rect && val == None && calls == 0
    {
      this.rect := rect;
      val := None;
      calls := 0;
    }

    /** `Iter::next`: step the held value and return it. */
    method Next() returns (r: Option<Coord>)
      requires Valid()
      modifies this
      ensures Valid() && calls == old(calls) + 1
      ensures val == NextVal(rect, old(val)) && r == val
    {
      val := match val
        case Some((x, y)) =>
          if y == rect.end.1 - 1 then
            if x == rect.end.0 - 1 then None else Some((x + 1, rect.start.1))
          else
            Some((x, y + 1))
        case None => Some(rect.start);
      calls := calls + 1;
      r := val;
    }
  }

  /**
   * Closed form of the walk: call number `q * Height + r + 1` hands out the
   * cell `r` rows up in column `q`.
   */
  lemma {:induction false} IterateClosedForm(rect: IndexRect, q: nat, r: nat)
    requires q < Width(rect) && r < Height(rect)
    ensures Iterate(rect, q * Height(rect) + r + 1) == Some((rect.start.0 + q, rect.start.1 + r))
    decreases q, r
  {
    var h := Height(rect);
    if r > 0 {
      IterateClosedForm(rect, q, r - 1);
    } else if q > 0 {
      IterateClosedForm(rect, q - 1, h - 1);
      assert (q - 1) * h + (h - 1) + 1 + 1 == q * h + 1;
    }
  }

  /** Every call from the first to the `Count`-th hands out a cell of the rectangle. */
  lemma YieldsCells(rect: IndexRect, n: nat)
    requires 1 <= n <= Count(rect)
    ensures Iterate(rect, n).Some? && Contains(rect, Iterate(rect, n).value)
    ensures Iterate(rect, n) == Some((rect.start.0 + (n - 1) / Height(rect), rect.start.1 + (n - 1) % Height(rect)))
  {
    var h := Height(rect);
    var q, r := (n - 1) / h, (n - 1) % h;
    QuotientBelow(n - 1, Width(rect), h);
    IterateClosedForm(rect, q, r);
  }

  lemma QuotientBelow(k: nat, w: nat, h: nat)
    requires h > 0 && k < w * h
    ensures k == (k / h) * h + k % h && k / h < w
  {
  }

  /** No cell is handed out twice within the first `Count` calls. */
  lemma YieldsDistinct(rect: IndexRect, n: nat, m: nat)
    requires 1 <= n < m <= Count(rect)
    ensures Iterate(rect, n) != Iterate(rect, m)
  {
    var h := Height(rect);
    YieldsCells(rect, n);
    YieldsCells(rect, m);
    QuotientBelow(n - 1, Width(rect), h);
    QuotientBelow(m - 1, Width(rect), h);
  }

  /** Every cell of the rectangle is handed out by some call. */
  lemma EveryCellYielded(rect: IndexRect, c: Coord)
    requires Contains(rect, c)
    ensures var n := (c.0 - rect.start.0) * Height(rect) + (c.1 - rect.start.1) + 1;
      1 <= n <= Count(rect) && Iterate(rect, n) == Some(c)
  {
    var q, r := c.0 - rect.start.0, c.1 - rect.start.1;
    IterateClosedForm(rect, q, r);
    CellNumberBelow(q, r, Width(rect), Height(rect));
  }

  lemma CellNumberBelow(q: nat, r: nat, w: nat, h: nat)
    requires q < w && r < h
    ensures q * h + r + 1 <= w * h
  {
    var k: nat := w - 1 - q;
    assert w * h == q * h + k * h + h;
  }

  /** `contains` holds exactly for the cells the iterator hands out. */
  lemma ContainsIffYielded(rect: IndexRect, c: Coord)
    ensures Contains(rect, c) <==> exists n :: 1 <= n <= Count(rect) && Iterate(rect, n) == Some(c)
  {
    if Contains(rect, c) {
      EveryCellYielded(rect, c);
    }
    if exists n :: 1 <= n <= Count(rect) && Iterate(rect, n) == Some(c) {
      var n :| 1 <= n <= Count(rect) && Iterate(rect, n) == Some(c);
      YieldsCells(rect, n);
    }
  }

  /**
   * The walk ends after `Count` cells; one more call starts it over from
   * `start`, because `next` treats no value as the beginning.
   */
  lemma {:induction false} IterationEnds(rect: IndexRect)
    ensures Iterate(rect, Count(rect)) == Some((rect.end.0 - 1, rect.end.1 - 1))
    ensures Iterate(rect, Count(rect) + 1) == None
    ensures Iterate(rect, Count(rect) + 2) == Some(rect.start)
  {
    var w, h := Width(rect), Height(rect);
    IterateClosedForm(rect, w - 1, h - 1);
    assert (w - 1) * h + (h - 1) + 1 == w * h;
  }

  /** The library's own example: the rectangle (2, 3)..(5, 7) has 12 distinct cells. */
  lemma ExampleCount()
    ensures New((2, 3), (5, 7)).Some? && Count(New((2, 3), (5, 7)).value) == 12
    ensures New((4, -5), (4, -4)).None? && New((4, -5), (5, -5)).None? && New((4, -5), (5, -4)).Some?
  {
  }
}
