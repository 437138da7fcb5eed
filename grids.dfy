/** Shared vocabulary of the puzzle generator: cells, positions, the eight
    directions, the value view of a grid, and how the mutable grid (an
    `array2<char>` indexed `[row, column]`) corresponds to that view. */
module Grids {

  /** The value of a cell that has not been filled yet. */
  const Empty: char := ' '

  /** A cell address: column `x`, row `y`. The coordinates are signed so that a
      step off the edge of the grid is an ordinary value that a range test
      rejects, where the original relies on unsigned wrap-around. */
  datatype Pos = Pos(x: int, y: int)

  /** The eight unit offsets, in the order in which the flood fill tries them. */
  const Directions: seq<Pos> :=
    [Pos(1, -1), Pos(1, 0), Pos(1, 1), Pos(0, -1), Pos(0, 1), Pos(-1, -1), Pos(-1, 0), Pos(-1, 1)]

  /** The table holds eight distinct unit steps: each coordinate is -1, 0 or 1,
      and no step is (0, 0). */
  lemma DirectionsAreUnitSteps()
    ensures |Directions| == 8
    ensures forall k :: 0 <= k < 8 ==>
      -1 <= Directions[k].x <= 1 && -1 <= Directions[k].y <= 1 && Directions[k] != Pos(0, 0)
    ensures forall j, k :: 0 <= j < k < 8 ==> Directions[j] != Directions[k]
  {
  }

  function Add(p: Pos, d: Pos): Pos
  {
    Pos(p.x + d.x, p.y + d.y)
  }

  /** The value view of a grid: a sequence of rows, each a sequence of cells. */
  type Grid = seq<seq<char>>

  /** A non-degenerate rectangle: at least one row, at least one column, all
      rows equally long. */
  predicate IsGrid(s: Grid)
  {
    |s| >= 1 && |s[0]| >= 1 && forall y :: 0 <= y < |s| ==> |s[y]| == |s[0]|
  }

  function Width(s: Grid): nat
    requires |s| >= 1
  {
    |s[0]|
  }

  predicate InGrid(s: Grid, p: Pos)
  {
    0 <= p.y < |s| && 0 <= p.x < |s[p.y]|
  }

  function At(s: Grid, p: Pos): char
    requires InGrid(s, p)
  {
    s[p.y][p.x]
  }

  predicate SameShape(s: Grid, r: Grid)
  {
    |r| == |s| && forall y :: 0 <= y < |s| ==> |r[y]| == |s[y]|
  }

  /** `s` with the cell at `p` overwritten by `c`. */
  function Put(s: Grid, p: Pos, c: char): (r: Grid)
    requires InGrid(s, p)
    ensures SameShape(s, r) && (IsGrid(s) ==> IsGrid(r))
    ensures At(r, p) == c
    ensures forall q :: InGrid(s, q) && q != p ==> At(r, q) == At(s, q)
  {
    s[p.y := s[p.y][p.x := c]]
  }

  /** No cell of `s` is empty. */
  ghost predicate Full(s: Grid)
  {
    forall p :: InGrid(s, p) ==> At(s, p) != Empty
  }

  /** The positions of the empty cells of `s`. */
  function EmptySet(s: Grid): set<Pos>
  {
    set y, x | 0 <= y < |s| && 0 <= x < |s[y]| && s[y][x] == Empty :: Pos(x, y)
  }

  function EmptyCount(s: Grid): nat
  {
    |EmptySet(s)|
  }

  lemma EmptySetMembers(s: Grid, p: Pos)
    ensures p in EmptySet(s) <==> InGrid(s, p) && At(s, p) == Empty
  {
    if InGrid(s, p) && At(s, p) == Empty {
      assert p == Pos(p.x, p.y);
    }
  }

  /** A grid is full exactly when it has no empty cell left to count. */
  lemma FullIffNoneEmpty(s: Grid)
    ensures Full(s) <==> EmptyCount(s) == 0
  {
    if !Full(s) {
      var p :| InGrid(s, p) && At(s, p) == Empty;
      EmptySetMembers(s, p);
    } else {
      forall p | p in EmptySet(s) ensures false {
        EmptySetMembers(s, p);
      }
    }
  }

  /** A set of positions in one row with columns in [0, w) has at most `w`
      members. */
  lemma {:induction false} RowBound(S: set<Pos>, y: int, w: nat)
    requires forall p :: p in S ==> p.y == y && 0 <= p.x < w
    ensures |S| <= w
    decreases w
  {
    if w > 0 {
      var left := set p | p in S && p.x < w - 1;
      var last := S - left;
      RowBound(left, y, w - 1);
      assert S == left + last;
      assert last <= {Pos(w - 1, y)};
      if Pos(w - 1, y) in last {
        assert last == {Pos(w - 1, y)};
      } else {
        assert last == {};
      }
    } else {
      assert S == {} by {
        forall p | p in S ensures false { }
      }
    }
  }

  /** A set of positions inside an h-by-w rectangle has at most h*w members. */
  lemma {:induction false} RectangleBound(S: set<Pos>, h: nat, w: nat)
    requires forall p :: p in S ==> 0 <= p.y < h && 0 <= p.x < w
    ensures |S| <= h * w
    decreases h
  {
    if h > 0 {
      var lower := set p | p in S && p.y < h - 1;
      var top := set p | p in S && p.y == h - 1;
      RectangleBound(lower, h - 1, w);
      RowBound(top, h - 1, w);
      assert S == lower + top;
      assert h * w == (h - 1) * w + w;
    } else {
      assert S == {} by {
        forall p | p in S ensures false { }
      }
    }
  }

  /** A grid has no more empty cells than cells. */
  lemma EmptyCountBound(s: Grid)
    requires IsGrid(s)
    ensures EmptyCount(s) <= |s| * Width(s)
  {
    forall p | p in EmptySet(s) ensures 0 <= p.y < |s| && 0 <= p.x < Width(s) {
      EmptySetMembers(s, p);
    }
    RectangleBound(EmptySet(s), |s|, Width(s));
  }

  /** `r` grew from `s` by filling some empty cells with `c`, and nothing else:
      filled cells keep their character, empty ones stay empty or become `c`. */
  ghost predicate Grows(s: Grid, r: Grid, c: char)
  {
    SameShape(s, r) &&
    forall p :: InGrid(s, p) ==>
      (At(s, p) != Empty ==> At(r, p) == At(s, p)) &&
      (At(s, p) == Empty ==> At(r, p) == Empty || At(r, p) == c)
  }

  lemma GrowsTransitive(s: Grid, t: Grid, r: Grid, c: char)
    requires Grows(s, t, c) && Grows(t, r, c)
    ensures Grows(s, r, c)
  {
    forall p | InGrid(s, p)
      ensures (At(s, p) != Empty ==> At(r, p) == At(s, p)) &&
              (At(s, p) == Empty ==> At(r, p) == Empty || At(r, p) == c)
    {
      assert InGrid(t, p);
    }
  }

  /** Filling one empty cell with a non-empty character removes exactly that
      cell from the empty ones. */
  lemma FillShrinks(s: Grid, p: Pos, c: char)
    requires InGrid(s, p) && At(s, p) == Empty && c != Empty
    ensures Grows(s, Put(s, p, c), c)
    ensures EmptySet(Put(s, p, c)) == EmptySet(s) - {p}
    ensures EmptyCount(Put(s, p, c)) == EmptyCount(s) - 1
  {
    var r := Put(s, p, c);
    forall q ensures q in EmptySet(r) <==> q in EmptySet(s) - {p} {
      EmptySetMembers(r, q);
      EmptySetMembers(s, q);
    }
    EmptySetMembers(s, p);
  }

  /** Growth never adds empty cells. */
  lemma GrowsCount(s: Grid, r: Grid, c: char)
    requires Grows(s, r, c) && c != Empty
    ensures EmptySet(r) <= EmptySet(s)
    ensures EmptyCount(r) <= EmptyCount(s)
  {
    forall q | q in EmptySet(r) ensures q in EmptySet(s) {
      EmptySetMembers(r, q);
      EmptySetMembers(s, q);
    }
    assert EmptySet(s) == EmptySet(r) + (EmptySet(s) - EmptySet(r));
  }

  /** `s` is the content of the array grid `g`, cell by cell. */
  predicate Models(g: array2<char>, s: Grid)
    reads g
  {
    |s| == g.Length0 &&
    forall y :: 0 <= y < |s| ==>
      |s[y]| == g.Length1 && forall x :: 0 <= x < g.Length1 ==> s[y][x] == g[y, x]
  }

  /** The current content of the array grid `g`. */
  function Cells(g: array2<char>): (s: Grid)
    reads g
    ensures Models(g, s)
    ensures g.Length0 >= 1 && g.Length1 >= 1 ==> IsGrid(s) && Width(s) == g.Length1
  {
    seq(g.Length0, y requires 0 <= y < g.Length0 reads g =>
      seq(g.Length1, x requires 0 <= x < g.Length1 reads g => g[y, x]))
  }

  /** The array determines its value view. */
  lemma ModelsUnique(g: array2<char>, s: Grid)
    requires Models(g, s)
    ensures s == Cells(g)
  {
    var t := Cells(g);
    forall y | 0 <= y < |s| ensures s[y] == t[y] { }
  }
}
