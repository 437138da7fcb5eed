/** The filler seeding at the start of `sakusAlgorithm` (main.cpp:171-192):
    cells chosen by random draws receive the filler character until the target
    count has been placed; a draw that lands on a cell already holding the
    filler is discarded and another is drawn.

    The random source is a parameter: `draws` is the sequence of values the
    generator would produce, each in [0, width*height). */
module Seeding {
  import opened Grids

  /** The cell a draw denotes: column `d % width`, row `d / width`
      (main.cpp:177-178). */
  function Decode(w: nat, d: nat): (r: Pos)
    requires w > 0
    ensures 0 <= r.x < w && 0 <= r.y && w * r.y + r.x == d
  {
    Pos(d % w, d / w)
  }

  /** Every draw lies in [0, width*height), the range of the distribution. */
  predicate ValidDraws(s: Grid, draws: seq<nat>)
    requires IsGrid(s)
  {
    forall i :: 0 <= i < |draws| ==> draws[i] < |s| * Width(s)
  }

  lemma DecodeInGrid(s: Grid, d: nat)
    requires IsGrid(s) && d < |s| * Width(s)
    ensures InGrid(s, Decode(Width(s), d))
  {
  }

  /** Distinct draws denote distinct cells. */
  lemma DecodeInjective(w: nat, d1: nat, d2: nat)
    requires w > 0 && Decode(w, d1) == Decode(w, d2)
    ensures d1 == d2
  {
    assert d1 == w * (d1 / w) + d1 % w;
    assert d2 == w * (d2 / w) + d2 % w;
  }

  /** What seeding leaves: the grid and the number of fillers still to place,
      which is non-zero only when the draws ran out. */
  function Seed(s: Grid, fill: char, n: nat, draws: seq<nat>): (r: (Grid, nat))
    requires IsGrid(s) && ValidDraws(s, draws)
    ensures SameShape(s, r.0) && IsGrid(r.0) && r.1 <= n
    decreases |draws|
  {
    if n == 0 || draws == [] then (s, n)
    else
      DecodeInGrid(s, draws[0]);
      var p := Decode(Width(s), draws[0]);
      if At(s, p) == fill then Seed(s, fill, n, draws[1..])
      else Seed(Put(s, p, fill), fill, n - 1, draws[1..])
  }

  /** The positions where `s` and `r` differ. */
  function Changed(s: Grid, r: Grid): set<Pos>
  {
    set y, x | 0 <= y < |s| && 0 <= x < |s[y]| && y < |r| && x < |r[y]| && s[y][x] != r[y][x] :: Pos(x, y)
  }

  lemma ChangedMembers(s: Grid, r: Grid, p: Pos)
    requires SameShape(s, r)
    ensures p in Changed(s, r) <==> InGrid(s, p) && At(s, p) != At(r, p)
  {
    if InGrid(s, p) && At(s, p) != At(r, p) {
      assert p == Pos(p.x, p.y);
    }
  }

  /** The draw values that denote a cell of `s` not holding `fill`: the cells
      seeding can place a filler in, counted once however often they are drawn. */
  function Candidates(s: Grid, fill: char, draws: seq<nat>): set<nat>
    requires IsGrid(s)
  {
    set d | d in draws && InGrid(s, Decode(Width(s), d)) && At(s, Decode(Width(s), d)) != fill
  }

  /** Exactly `n - left` distinct cells change, each from a character other than
      `fill` to `fill`; no other cell changes. A draw that hits a cell already
      holding `fill` is not counted again. */
  lemma {:induction false} SeedChanges(s: Grid, fill: char, n: nat, draws: seq<nat>)
    requires IsGrid(s) && ValidDraws(s, draws)
    ensures var (r, left) := Seed(s, fill, n, draws);
      |Changed(s, r)| == n - left &&
      forall p :: InGrid(s, p) && At(r, p) != At(s, p) ==> At(s, p) != fill && At(r, p) == fill
    decreases |draws|
  {
    var (r, left) := Seed(s, fill, n, draws);
    if n == 0 || draws == [] {
      assert Changed(s, r) == {} by {
        forall p | p in Changed(s, r) ensures false {
          ChangedMembers(s, r, p);
        }
      }
    } else {
      DecodeInGrid(s, draws[0]);
      var p := Decode(Width(s), draws[0]);
      if At(s, p) == fill {
        SeedChanges(s, fill, n, draws[1..]);
      } else {
        var s1 := Put(s, p, fill);
        SeedChanges(s1, fill, n - 1, draws[1..]);
        ChangedAfterPut(s, p, fill, r);
      }
    }
  }

  /** Writing `fill` over a different character at `p` adds exactly `p` to the
      cells that differ from a final grid `r` holding `fill` there. */
  lemma ChangedAfterPut(s: Grid, p: Pos, fill: char, r: Grid)
    requires InGrid(s, p) && At(s, p) != fill && SameShape(s, r)
    requires forall q :: InGrid(Put(s, p, fill), q) && At(r, q) != At(Put(s, p, fill), q) ==>
               At(Put(s, p, fill), q) != fill && At(r, q) == fill
    ensures |Changed(s, r)| == |Changed(Put(s, p, fill), r)| + 1
    ensures forall q :: InGrid(s, q) && At(r, q) != At(s, q) ==> At(s, q) != fill && At(r, q) == fill
  {
    var s1 := Put(s, p, fill);
    assert At(r, p) == fill;
    forall q ensures q in Changed(s, r) <==> q in Changed(s1, r) + {p} {
      ChangedMembers(s, r, q);
      ChangedMembers(s1, r, q);
    }
    ChangedMembers(s1, r, p);
    assert Changed(s, r) == Changed(s1, r) + {p};
    forall q | InGrid(s, q) && At(r, q) != At(s, q) ensures At(s, q) != fill && At(r, q) == fill {
      if q != p {
        assert At(s1, q) == At(s, q);
      }
    }
  }

  /** Seeding falls short by exactly the number of fillers it could not place:
      it succeeds (`left == 0`) exactly when the draws denote at least `n`
      distinct cells not already holding `fill`. */
  lemma {:induction false} SeedShortfall(s: Grid, fill: char, n: nat, draws: seq<nat>)
    requires IsGrid(s) && ValidDraws(s, draws)
    ensures Shortfall(s, fill, n, draws)
    decreases |draws|
  {
    if draws == [] {
      assert Candidates(s, fill, draws) == {};
    } else if n > 0 {
      DecodeInGrid(s, draws[0]);
      var p := Decode(Width(s), draws[0]);
      if At(s, p) == fill {
        SeedShortfall(s, fill, n, draws[1..]);
      } else {
        SeedShortfall(Put(s, p, fill), fill, n - 1, draws[1..]);
      }
      ShortfallStep(s, fill, n, draws);
    }
  }

  /** What seeding leaves to place is `n` less the number of distinct
      candidate draws, and never below zero. */
  ghost predicate Shortfall(s: Grid, fill: char, n: nat, draws: seq<nat>)
    requires IsGrid(s) && ValidDraws(s, draws)
  {
    var left := Seed(s, fill, n, draws).1;
    var found := |Candidates(s, fill, draws)|;
    left == if found >= n then 0 else n - found
  }

  /** The inductive step of `SeedShortfall`, for the first draw. */
  lemma ShortfallStep(s: Grid, fill: char, n: nat, draws: seq<nat>)
    requires IsGrid(s) && ValidDraws(s, draws) && n > 0 && draws != []
    requires InGrid(s, Decode(Width(s), draws[0]))
    requires var p := Decode(Width(s), draws[0]);
      if At(s, p) == fill then Shortfall(s, fill, n, draws[1..])
      else Shortfall(Put(s, p, fill), fill, n - 1, draws[1..])
    ensures Shortfall(s, fill, n, draws)
  {
    var d0, rest := draws[0], draws[1..];
    var p := Decode(Width(s), d0);
    assert draws == [d0] + rest;
    if At(s, p) == fill {
      assert Candidates(s, fill, draws) == Candidates(s, fill, rest);
    } else {
      var s1 := Put(s, p, fill);
      CandidatesAfterPut(s, fill, d0, rest);
      assert |Candidates(s, fill, draws)| == |Candidates(s1, fill, rest)| + 1;
    }
  }

  /** Placing `fill` at the cell of the draw `d0` takes `d0` out of the
      candidates of the remaining draws and nothing else. */
  lemma CandidatesAfterPut(s: Grid, fill: char, d0: nat, rest: seq<nat>)
    requires IsGrid(s) && InGrid(s, Decode(Width(s), d0)) && At(s, Decode(Width(s), d0)) != fill
    ensures Candidates(s, fill, [d0] + rest) == Candidates(Put(s, Decode(Width(s), d0), fill), fill, rest) + {d0}
    ensures d0 !in Candidates(Put(s, Decode(Width(s), d0), fill), fill, rest)
  {
    var w := Width(s);
    var p := Decode(w, d0);
    var s1 := Put(s, p, fill);
    forall d ensures d in Candidates(s1, fill, rest) <==> d in Candidates(s, fill, rest) - {d0} {
      if d in rest && d != d0 && InGrid(s, Decode(w, d)) {
        if Decode(w, d) == p {
          DecodeInjective(w, d, d0);
        }
      }
    }
    assert Candidates(s, fill, [d0] + rest) == Candidates(s, fill, rest) + {d0};
  }

  /** Seeding an all-empty grid with a non-empty filler: when it succeeds,
      exactly `n` distinct cells hold the filler and every other cell is still
      empty. */
  lemma SeedBlank(s: Grid, fill: char, n: nat, draws: seq<nat>)
    requires IsGrid(s) && ValidDraws(s, draws) && fill != Empty
    requires forall p :: InGrid(s, p) ==> At(s, p) == Empty
    requires Seed(s, fill, n, draws).1 == 0
    ensures var r := Seed(s, fill, n, draws).0;
      |Changed(s, r)| == n &&
      forall p :: InGrid(r, p) ==> (At(r, p) == fill <==> p in Changed(s, r)) && (At(r, p) == fill || At(r, p) == Empty)
  {
    var r := Seed(s, fill, n, draws).0;
    SeedChanges(s, fill, n, draws);
    forall p | InGrid(r, p)
      ensures (At(r, p) == fill <==> p in Changed(s, r)) && (At(r, p) == fill || At(r, p) == Empty)
    {
      ChangedMembers(s, r, p);
    }
  }

  /** Seeding on the array grid, in place. It returns the number of fillers it
      could not place for want of draws (zero when the target was met). */
  method SeedFiller(g: array2<char>, fill: char, n: nat, draws: seq<nat>) returns (left: nat)
    requires g.Length0 >= 1 && g.Length1 >= 1
    requires forall i :: 0 <= i < |draws| ==> draws[i] < g.Length0 * g.Length1
    modifies g
    ensures (Cells(g), left) == Seed(old(Cells(g)), fill, n, draws)
  {
    ghost var s := Cells(g);
    left := n;
    var i := 0;
    while left > 0 && i < |draws|
      invariant 0 <= i <= |draws| && Models(g, s) && IsGrid(s) && Width(s) == g.Length1
      invariant Seed(s, fill, left, draws[i..]) == Seed(old(Cells(g)), fill, n, draws)
      decreases |draws| - i
    {
      var p := Decode(g.Length1, draws[i]);
      DecodeInGrid(s, draws[i]);
      assert draws[i..][1..] == draws[i + 1..];
      if g[p.y, p.x] != fill {
        g[p.y, p.x] := fill;
        s := Put(s, p, fill);
        left := left - 1;
      }
      i := i + 1;
    }
    ModelsUnique(g, s);
  }
}
