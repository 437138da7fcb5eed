/** The slot scanner (`getFirstEmptySlot`, main.cpp:143-164): a row-major scan
    for the first empty cell, answering the out-of-grid position
    (column 0, row `height`) when there is none. */
module Scanning {
  import opened Grids

  /** `q` comes strictly before `p` in row-major order. */
  predicate Before(q: Pos, p: Pos)
  {
    q.y < p.y || (q.y == p.y && q.x < p.x)
  }

  /** The position after `p` in row-major order, wrapping to the next row. */
  function Next(s: Grid, p: Pos): Pos
    requires IsGrid(s)
  {
    if p.x + 1 == Width(s) then Pos(0, p.y + 1) else Pos(p.x + 1, p.y)
  }

  /** `Next` is the immediate successor in row-major order: it comes after `p`,
      and no position with a column in range lies strictly between them. */
  lemma NextIsSuccessor(s: Grid, p: Pos, q: Pos)
    requires IsGrid(s) && 0 <= p.x < Width(s) && 0 <= q.x < Width(s)
    ensures 0 <= Next(s, p).x < Width(s) && Before(p, Next(s, p))
    ensures Before(p, q) ==> !Before(q, Next(s, p))
  {
  }

  /** `p` is a position the scan can stand on: a cell of the grid, or the
      sentinel (column 0, row `height`). */
  predicate ScanPos(s: Grid, p: Pos)
    requires IsGrid(s)
  {
    0 <= p.y <= |s| && 0 <= p.x < Width(s) && (p.y == |s| ==> p.x == 0)
  }

  /** `r` is the scan's answer for `s`: either an empty cell or the sentinel,
      and every cell before it in row-major order is filled. */
  ghost predicate IsFirstEmpty(s: Grid, r: Pos)
    requires IsGrid(s)
  {
    ScanPos(s, r) &&
    (r.y < |s| ==> At(s, r) == Empty) &&
    forall q :: InGrid(s, q) && Before(q, r) ==> At(s, q) != Empty
  }

  /** The scan started at `p`: the first empty cell at or after `p` in
      row-major order, or the sentinel. */
  function FirstEmptyFrom(s: Grid, p: Pos): (r: Pos)
    requires IsGrid(s) && ScanPos(s, p)
    ensures ScanPos(s, r) && !Before(r, p)
    ensures r.y < |s| ==> At(s, r) == Empty
    ensures forall q :: InGrid(s, q) && !Before(q, p) && Before(q, r) ==> At(s, q) != Empty
    decreases |s| - p.y, Width(s) - p.x
  {
    if p.y == |s| || At(s, p) == Empty then p
    else FirstEmptyFrom(s, Next(s, p))
  }

  /** The scan of the whole grid. */
  function FirstEmpty(s: Grid): (r: Pos)
    requires IsGrid(s)
    ensures IsFirstEmpty(s, r)
  {
    FirstEmptyFrom(s, Pos(0, 0))
  }

  /** The scan's answer is determined by the grid: two positions that both
      satisfy `IsFirstEmpty` are the same. */
  lemma FirstEmptyUnique(s: Grid, r1: Pos, r2: Pos)
    requires IsGrid(s) && IsFirstEmpty(s, r1) && IsFirstEmpty(s, r2)
    ensures r1 == r2
  {
  }

  /** The scan answers the sentinel exactly when the grid is full. */
  lemma FirstEmptySentinel(s: Grid)
    requires IsGrid(s)
    ensures FirstEmpty(s).y == |s| <==> Full(s)
  {
    var r := FirstEmpty(s);
    if r.y == |s| {
      forall q | InGrid(s, q) ensures At(s, q) != Empty {
        assert Before(q, r);
      }
    } else {
      assert InGrid(s, r) && At(s, r) == Empty;
    }
  }

  /** The scan on the array grid; it reads the grid and changes nothing. */
  method GetFirstEmptySlot(g: array2<char>) returns (r: Pos)
    requires g.Length0 >= 1 && g.Length1 >= 1
    ensures IsFirstEmpty(Cells(g), r)
    ensures r.y < g.Length0 ==> 0 <= r.x < g.Length1 && g[r.y, r.x] == Empty
    ensures r.y == g.Length0 <==> Full(Cells(g))
    ensures r == FirstEmpty(Cells(g))
  {
    var x, y := 0, 0;
    while y < g.Length0 && g[y, x] != Empty
      invariant 0 <= y <= g.Length0 && 0 <= x < g.Length1 && (y == g.Length0 ==> x == 0)
      invariant forall j, i :: 0 <= j < g.Length0 && 0 <= i < g.Length1 && Before(Pos(i, j), Pos(x, y)) ==>
                  g[j, i] != Empty
      decreases g.Length0 - y, g.Length1 - x
    {
      if x + 1 == g.Length1 {
        x, y := 0, y + 1;
      } else {
        x := x + 1;
      }
    }
    r := Pos(x, y);
    var s := Cells(g);
    forall q | InGrid(s, q) && Before(q, r) ensures At(s, q) != Empty {
      assert g[q.y, q.x] != Empty;
    }
    FirstEmptyUnique(s, r, FirstEmpty(s));
    FirstEmptySentinel(s);
  }
}
