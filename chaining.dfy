/** The letter chainer (`chainCharacters`, main.cpp:96-141): a work-stack flood
    fill that, from each position it pops, looks one step along each of the
    eight directions and, when that neighbour holds some other character,
    jumps over it into the cell beyond and fills that cell if it is empty. */
module Chaining {
  import opened Grids

  /** The cell one step from `p` along direction `k`. */
  function Neighbour(p: Pos, k: nat): Pos
    requires k < 8
  {
    Add(p, Directions[k])
  }

  /** The cell two steps from `p` along direction `k`. */
  function Beyond(p: Pos, k: nat): Pos
    requires k < 8
  {
    Add(Neighbour(p, k), Directions[k])
  }

  /** Expanding `p` along direction `k` fills a cell: the neighbour is in the
      grid, holds a character other than `c`, and the cell beyond it is in the
      grid and empty (the three range and content tests of main.cpp:116-134). */
  predicate Jumps(s: Grid, p: Pos, k: nat, c: char)
    requires k < 8
  {
    var m := Neighbour(p, k);
    var t := Beyond(p, k);
    InGrid(s, m) && At(s, m) != Empty && At(s, m) != c && InGrid(s, t) && At(s, t) == Empty
  }

  /** The grid the flood fill leaves when `stack` holds the positions still to
      be expanded: the last position is popped and its eight directions are
      tried in order. */
  function Chain(s: Grid, stack: seq<Pos>, c: char): Grid
    requires c != Empty
    decreases EmptyCount(s), |stack|, 0
  {
    if stack == [] then s
    else Expand(s, stack[..|stack| - 1], stack[|stack| - 1], 0, c)
  }

  /** The rest of the flood fill while the popped position `p` has had its
      directions before `k` tried: a jump fills the cell beyond with `c` and
      pushes it. */
  function Expand(s: Grid, stack: seq<Pos>, p: Pos, k: nat, c: char): Grid
    requires c != Empty && k <= 8
    decreases EmptyCount(s), |stack|, 9 - k
  {
    if k == 8 then Chain(s, stack, c)
    else if Jumps(s, p, k, c) then
      var t := Beyond(p, k);
      FillShrinks(s, t, c);
      Expand(Put(s, t, c), stack + [t], p, k + 1, c)
    else Expand(s, stack, p, k + 1, c)
  }

  /** `p` was empty in `s` and has been filled in `r`. */
  ghost predicate Filled(s: Grid, r: Grid, p: Pos)
  {
    InGrid(s, p) && InGrid(r, p) && At(s, p) == Empty && At(r, p) != Empty
  }

  /** `q` was reached along direction `k`: the cell one step back from `q`
      held, before the fill, a character other than `c`, and the cell two steps
      back is one of the `origins` or was itself filled. */
  ghost predicate Reached(s: Grid, r: Grid, q: Pos, k: nat, c: char, origins: seq<Pos>)
    requires k < 8
  {
    var d := Directions[k];
    var m := Pos(q.x - d.x, q.y - d.y);
    var src := Pos(q.x - 2 * d.x, q.y - 2 * d.y);
    InGrid(s, m) && At(s, m) != Empty && At(s, m) != c &&
    (src in origins || Filled(s, r, src))
  }

  /** Monotonic fill: the flood fill only turns empty cells into `c`, never
      touches a filled cell, and keeps the grid's dimensions. */
  lemma {:induction false} ChainGrows(s: Grid, stack: seq<Pos>, c: char)
    requires c != Empty
    ensures Grows(s, Chain(s, stack, c), c)
    decreases EmptyCount(s), |stack|, 0
  {
    if stack != [] {
      ExpandGrows(s, stack[..|stack| - 1], stack[|stack| - 1], 0, c);
    }
  }

  lemma {:induction false} ExpandGrows(s: Grid, stack: seq<Pos>, p: Pos, k: nat, c: char)
    requires c != Empty && k <= 8
    ensures Grows(s, Expand(s, stack, p, k, c), c)
    decreases EmptyCount(s), |stack|, 9 - k
  {
    if k == 8 {
      ChainGrows(s, stack, c);
    } else if Jumps(s, p, k, c) {
      var t := Beyond(p, k);
      FillShrinks(s, t, c);
      ExpandGrows(Put(s, t, c), stack + [t], p, k + 1, c);
      GrowsTransitive(s, Put(s, t, c), Expand(s, stack, p, k, c), c);
    } else {
      ExpandGrows(s, stack, p, k + 1, c);
    }
  }

  /** Every cell the flood fill fills lies exactly two steps along one of the
      eight directions from a position it expanded (one of the initial `stack`
      or a cell it filled itself), over a cell that held some other character. */
  lemma {:induction false} ChainProvenance(s: Grid, stack: seq<Pos>, c: char)
    requires c != Empty
    ensures forall q :: Filled(s, Chain(s, stack, c), q) ==>
              exists k :: 0 <= k < 8 && Reached(s, Chain(s, stack, c), q, k, c, stack)
    decreases EmptyCount(s), |stack|, 0
  {
    if stack != [] {
      var rest, p := stack[..|stack| - 1], stack[|stack| - 1];
      ExpandProvenance(s, rest, p, 0, c);
      assert rest + [p] == stack;
    }
  }

  lemma {:induction false} ExpandProvenance(s: Grid, stack: seq<Pos>, p: Pos, k: nat, c: char)
    requires c != Empty && k <= 8
    ensures forall q :: Filled(s, Expand(s, stack, p, k, c), q) ==>
              exists j :: 0 <= j < 8 && Reached(s, Expand(s, stack, p, k, c), q, j, c, stack + [p])
    decreases EmptyCount(s), |stack|, 9 - k
  {
    var r := Expand(s, stack, p, k, c);
    if k == 8 {
      assert r == Chain(s, stack, c);
      ChainProvenance(s, stack, c);
      forall q | Filled(s, r, q)
        ensures exists j :: 0 <= j < 8 && Reached(s, r, q, j, c, stack + [p])
      {
        var j :| 0 <= j < 8 && Reached(s, r, q, j, c, stack);
        assert Reached(s, r, q, j, c, stack + [p]);
      }
    } else if Jumps(s, p, k, c) {
      var t := Beyond(p, k);
      FillShrinks(s, t, c);
      var s1 := Put(s, t, c);
      ExpandProvenance(s1, stack + [t], p, k + 1, c);
      ExpandGrows(s1, stack + [t], p, k + 1, c);
      ProvenanceOfJump(s, stack, p, k, c, r);
    } else {
      ExpandProvenance(s, stack, p, k + 1, c);
    }
  }

  /** The jump case of `ExpandProvenance`: the cell `t` the jump fills is
      reached from `p`, and every other cell reached after the jump was reached
      before it. */
  lemma ProvenanceOfJump(s: Grid, stack: seq<Pos>, p: Pos, k: nat, c: char, r: Grid)
    requires c != Empty && k < 8 && Jumps(s, p, k, c)
    requires Grows(Put(s, Beyond(p, k), c), r, c)
    requires forall q :: Filled(Put(s, Beyond(p, k), c), r, q) ==>
               exists j :: 0 <= j < 8 && Reached(Put(s, Beyond(p, k), c), r, q, j, c, stack + [Beyond(p, k)] + [p])
    ensures forall q :: Filled(s, r, q) ==> exists j :: 0 <= j < 8 && Reached(s, r, q, j, c, stack + [p])
  {
    var t := Beyond(p, k);
    var s1 := Put(s, t, c);
    assert At(r, t) == c;
    forall q | Filled(s, r, q)
      ensures exists j :: 0 <= j < 8 && Reached(s, r, q, j, c, stack + [p])
    {
      if q == t {
        assert Reached(s, r, q, k, c, stack + [p]);
      } else {
        assert Filled(s1, r, q);
        var j :| 0 <= j < 8 && Reached(s1, r, q, j, c, stack + [t] + [p]);
        ReachedBeforeFill(s, r, t, q, j, c, stack + [p], stack + [t] + [p]);
      }
    }
  }

  /** A reach recorded after `t` was filled with `c` is a reach before it, with
      `t` counted among the filled cells. */
  lemma ReachedBeforeFill(s: Grid, r: Grid, t: Pos, q: Pos, j: nat, c: char, origins: seq<Pos>, later: seq<Pos>)
    requires j < 8 && c != Empty && InGrid(s, t) && At(s, t) == Empty
    requires Grows(Put(s, t, c), r, c)
    requires forall o :: o in later ==> o in origins || o == t
    requires Reached(Put(s, t, c), r, q, j, c, later)
    ensures Reached(s, r, q, j, c, origins)
  {
    var s1 := Put(s, t, c);
    var d := Directions[j];
    var m := Pos(q.x - d.x, q.y - d.y);
    var src := Pos(q.x - 2 * d.x, q.y - 2 * d.y);
    assert m != t;
    if src == t {
      assert At(r, t) == c;
      assert Filled(s, r, src);
    } else if Filled(s1, r, src) {
      assert Filled(s, r, src);
    } else {
      assert src in later;
    }
  }

  /** A direction that cannot jump keeps that property while the grid grows
      with `c`: a neighbour that changes becomes `c`, a cell beyond that
      changes stops being empty. */
  lemma StaysClosed(s: Grid, r: Grid, p: Pos, k: nat, c: char)
    requires k < 8 && Grows(s, r, c) && !Jumps(s, p, k, c)
    ensures !Jumps(r, p, k, c)
  {
    var m, t := Neighbour(p, k), Beyond(p, k);
    if Jumps(r, p, k, c) {
      assert InGrid(s, m) && InGrid(s, t);
      assert false;
    }
  }

  /** When the flood fill stops, nothing more can jump: from each initial
      position and from each cell it filled, no direction
      has a foreign neighbour followed by an empty cell. */
  lemma {:induction false} ChainClosed(s: Grid, stack: seq<Pos>, c: char)
    requires c != Empty
    ensures forall p, k :: (p in stack || Filled(s, Chain(s, stack, c), p)) && 0 <= k < 8 ==>
              !Jumps(Chain(s, stack, c), p, k, c)
    decreases EmptyCount(s), |stack|, 0
  {
    if stack != [] {
      var rest, last := stack[..|stack| - 1], stack[|stack| - 1];
      ExpandClosed(s, rest, last, 0, c);
      forall p | p in stack ensures p in rest || p == last {
        assert stack == rest + [last];
      }
    }
  }

  lemma {:induction false} ExpandClosed(s: Grid, stack: seq<Pos>, p: Pos, k: nat, c: char)
    requires c != Empty && k <= 8
    requires forall j :: 0 <= j < k ==> !Jumps(s, p, j, c)
    ensures forall q, j :: (q in stack || q == p || Filled(s, Expand(s, stack, p, k, c), q)) && 0 <= j < 8 ==>
              !Jumps(Expand(s, stack, p, k, c), q, j, c)
    decreases EmptyCount(s), |stack|, 9 - k
  {
    var r := Expand(s, stack, p, k, c);
    if k == 8 {
      ChainClosed(s, stack, c);
      ChainGrows(s, stack, c);
      forall j | 0 <= j < 8 ensures !Jumps(r, p, j, c) {
        StaysClosed(s, r, p, j, c);
      }
    } else if Jumps(s, p, k, c) {
      var t := Beyond(p, k);
      FillShrinks(s, t, c);
      var s1 := Put(s, t, c);
      ClosedBeforeJump(s, p, k, c);
      ExpandClosed(s1, stack + [t], p, k + 1, c);
      assert r == Expand(s1, stack + [t], p, k + 1, c);
      ClosedOfJump(s, stack, p, k, c, r);
    } else {
      ExpandClosed(s, stack, p, k + 1, c);
    }
  }

  /** The directions of `p` tried so far, including the jump along `k`, cannot
      jump once the jump has filled its cell. */
  lemma ClosedBeforeJump(s: Grid, p: Pos, k: nat, c: char)
    requires c != Empty && k < 8 && Jumps(s, p, k, c)
    requires forall j :: 0 <= j < k ==> !Jumps(s, p, j, c)
    ensures forall j :: 0 <= j < k + 1 ==> !Jumps(Put(s, Beyond(p, k), c), p, j, c)
  {
    var s1 := Put(s, Beyond(p, k), c);
    FillShrinks(s, Beyond(p, k), c);
    forall j | 0 <= j < k + 1 ensures !Jumps(s1, p, j, c) {
      if j < k {
        StaysClosed(s, s1, p, j, c);
      }
    }
  }

  /** The jump case of `ExpandClosed`: the cell `t` the jump fills was pushed,
      and every other cell filled afterwards was filled after the jump. */
  lemma ClosedOfJump(s: Grid, stack: seq<Pos>, p: Pos, k: nat, c: char, r: Grid)
    requires c != Empty && k < 8 && Jumps(s, p, k, c)
    requires forall q, j :: (q in stack + [Beyond(p, k)] || q == p || Filled(Put(s, Beyond(p, k), c), r, q)) && 0 <= j < 8 ==>
               !Jumps(r, q, j, c)
    ensures forall q, j :: (q in stack || q == p || Filled(s, r, q)) && 0 <= j < 8 ==> !Jumps(r, q, j, c)
  {
    var t := Beyond(p, k);
    var s1 := Put(s, t, c);
    forall q, j | (q in stack || q == p || Filled(s, r, q)) && 0 <= j < 8 ensures !Jumps(r, q, j, c) {
      if q in stack || q == t {
        assert q in stack + [t];
      } else if q != p {
        assert At(s1, q) == Empty;
        assert Filled(s1, r, q);
      }
    }
  }

  /** The tests the method makes on the array are `Jumps` on its value view. */
  lemma JumpsInArray(g: array2<char>, s: Grid, p: Pos, k: nat, c: char)
    requires k < 8 && Models(g, s)
    ensures var m, t := Neighbour(p, k), Beyond(p, k);
      Jumps(s, p, k, c) <==>
        0 <= m.x < g.Length1 && 0 <= m.y < g.Length0 && g[m.y, m.x] != Empty && g[m.y, m.x] != c &&
        0 <= t.x < g.Length1 && 0 <= t.y < g.Length0 && g[t.y, t.x] == Empty
  {
  }

  /** One step of `Expand`, for direction `k`. */
  lemma ExpandUnfold(s: Grid, stack: seq<Pos>, p: Pos, k: nat, c: char)
    requires c != Empty && k < 8
    ensures Expand(s, stack, p, k, c) ==
      if Jumps(s, p, k, c) then Expand(Put(s, Beyond(p, k), c), stack + [Beyond(p, k)], p, k + 1, c)
      else Expand(s, stack, p, k + 1, c)
  {
  }

  /** The flood fill on the array grid, in place: its result is `Chain` of the
      grid it started from, with `start` as the only position on the stack.
      Every access is range-checked first; the starting cell itself is not
      written. */
  method ChainCharacters(g: array2<char>, start: Pos, c: char)
    requires g.Length0 >= 1 && g.Length1 >= 1
    requires c != Empty
    modifies g
    ensures Cells(g) == Chain(old(Cells(g)), [start], c)
  {
    ghost var s := Cells(g);
    ghost var target := Chain(s, [start], c);
    var stack := [start];
    while stack != []
      invariant Models(g, s)
      invariant Chain(s, stack, c) == target
      decreases EmptyCount(s), |stack|
    {
      var p := stack[|stack| - 1];
      stack := stack[..|stack| - 1];
      ghost var e0, n0 := EmptyCount(s), |stack|;
      var k := 0;
      while k < 8
        invariant 0 <= k <= 8
        invariant Models(g, s)
        invariant Expand(s, stack, p, k, c) == target
        invariant EmptyCount(s) < e0 || (EmptyCount(s) == e0 && |stack| == n0)
      {
        var d := Directions[k];
        var m := Add(p, d);
        JumpsInArray(g, s, p, k, c);
        ExpandUnfold(s, stack, p, k, c);
        if 0 <= m.x < g.Length1 && 0 <= m.y < g.Length0 && g[m.y, m.x] != Empty && g[m.y, m.x] != c {
          var t := Add(m, d);
          if 0 <= t.x < g.Length1 && 0 <= t.y < g.Length0 && g[t.y, t.x] == Empty {
            FillShrinks(s, t, c);
            g[t.y, t.x] := c;
            s := Put(s, t, c);
            stack := stack + [t];
          }
        }
        k := k + 1;
      }
    }
    ModelsUnique(g, s);
  }
}
