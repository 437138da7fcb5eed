/** The puzzle generator (`sakusAlgorithm`, main.cpp:166-209): seed the filler
    character `word[1]`, erase index 1 from the word, then repeatedly
    stamp the next character of the word (cyclically) into the first empty
    slot and chain it outward, until the scan finds no empty slot. */
module Generator {
  import opened Grids
  import opened Chaining
  import opened Scanning
  import opened Seeding

  /** The terminating character of a `std::string`, which its index operator
      returns at index `size()`. */
  const Terminator: char := '\0'

  /** The filler character, the word's character at index 1 (main.cpp:173); for
      a one-character word that index is the string's terminator. */
  function Filler(word: seq<char>): (r: char)
    requires |word| >= 1
    ensures |word| == 1 ==> r == Terminator
    ensures |word| >= 2 ==> r == word[1]
    ensures Empty !in word ==> r != Empty
  {
    if |word| == 1 then Terminator else word[1]
  }

  /** The word with the character at index 1 removed (main.cpp:194); from a
      one-character word, `erase(1, 1)` removes nothing. */
  function EraseSecond(word: seq<char>): (r: seq<char>)
    requires |word| >= 1
    ensures |word| == 1 ==> r == word
    ensures |word| >= 2 ==>
              |r| == |word| - 1 && r[0] == word[0] &&
              (forall i :: 1 <= i < |r| ==> r[i] == word[i + 1]) &&
              multiset(r) + multiset{word[1]} == multiset(word)
    ensures |r| >= 1 && forall ch :: ch in r ==> ch in word
  {
    if |word| == 1 then word
    else
      assert word == word[..1] + [word[1]] + word[2..];
      word[..1] + word[2..]
  }

  /** One pass of the fill loop with the character `w[i]`: stamp it into the
      first empty slot and chain it from there; on a full grid, nothing. */
  function Step(s: Grid, w: seq<char>, i: nat): (r: Grid)
    requires IsGrid(s) && i < |w| && Empty !in w
    ensures IsGrid(r) && SameShape(s, r)
    ensures forall p :: InGrid(s, p) && At(s, p) != Empty ==> At(r, p) == At(s, p)
    ensures FirstEmpty(s).y == |s| ==> r == s
    ensures FirstEmpty(s).y < |s| ==> At(r, FirstEmpty(s)) == w[i] && EmptyCount(r) < EmptyCount(s)
  {
    var slot := FirstEmpty(s);
    if slot.y == |s| then s
    else
      var c := w[i];
      var stamped := Put(s, slot, c);
      FillShrinks(s, slot, c);
      ChainGrows(stamped, [slot], c);
      GrowsCount(stamped, Chain(stamped, [slot], c), c);
      assert InGrid(stamped, slot);
      Chain(stamped, [slot], c)
  }

  /** The grid after `k` passes of the fill loop; pass number `j` (from 0) uses
      the character `w[j % |w|]`. */
  function Iterate(s: Grid, w: seq<char>, k: nat): (r: Grid)
    requires IsGrid(s) && |w| >= 1 && Empty !in w
    ensures IsGrid(r) && SameShape(s, r)
  {
    if k == 0 then s else Step(Iterate(s, w, k - 1), w, (k - 1) % |w|)
  }

  /** What the fill loop leaves: as many passes as the grid has empty cells. */
  function Fill(s: Grid, w: seq<char>): Grid
    requires IsGrid(s) && |w| >= 1 && Empty !in w
  {
    Iterate(s, w, EmptyCount(s))
  }

  /** The fill loop never changes a cell that was already filled when it began. */
  lemma {:induction false} IterateKeeps(s: Grid, w: seq<char>, k: nat)
    requires IsGrid(s) && |w| >= 1 && Empty !in w
    ensures forall p :: InGrid(s, p) && At(s, p) != Empty ==> At(Iterate(s, w, k), p) == At(s, p)
  {
    if k > 0 {
      IterateKeeps(s, w, k - 1);
      var t := Iterate(s, w, k - 1);
      forall p | InGrid(s, p) && At(s, p) != Empty ensures At(Iterate(s, w, k), p) == At(s, p) {
        assert InGrid(t, p);
      }
    }
  }

  /** Each pass on a grid that is not yet full removes at least one empty cell,
      so after `k` passes the grid is full or has at most `EmptyCount(s) - k`
      empty cells left. */
  lemma {:induction false} IterateProgress(s: Grid, w: seq<char>, k: nat)
    requires IsGrid(s) && |w| >= 1 && Empty !in w
    ensures Full(Iterate(s, w, k)) || EmptyCount(Iterate(s, w, k)) + k <= EmptyCount(s)
  {
    if k > 0 {
      IterateProgress(s, w, k - 1);
      var t := Iterate(s, w, k - 1);
      FirstEmptySentinel(t);
      if Full(t) {
        assert Iterate(s, w, k) == t;
      }
    }
  }

  /** Once the grid is full, further passes change nothing. */
  lemma {:induction false} IterateStable(s: Grid, w: seq<char>, k: nat, j: nat)
    requires IsGrid(s) && |w| >= 1 && Empty !in w && Full(Iterate(s, w, k))
    ensures Iterate(s, w, k + j) == Iterate(s, w, k)
  {
    if j > 0 {
      IterateStable(s, w, k, j - 1);
      FirstEmptySentinel(Iterate(s, w, k));
    }
  }

  /** Full coverage: the fill loop leaves no empty cell. */
  lemma FillIsFull(s: Grid, w: seq<char>)
    requires IsGrid(s) && |w| >= 1 && Empty !in w
    ensures Full(Fill(s, w)) && SameShape(s, Fill(s, w))
  {
    IterateProgress(s, w, EmptyCount(s));
    FullIffNoneEmpty(Fill(s, w));
  }

  /** How generation ends: with the finished grid, or, when the draws ran out
      before seeding was complete, with the partly seeded grid and the number
      of fillers still missing. */
  datatype Outcome = Done(grid: Grid) | OutOfDraws(grid: Grid, missing: nat)

  /** The number of fillers seeding places: width*height / |word| (main.cpp:171). */
  function FillerCount(s: Grid, word: seq<char>): (r: nat)
    requires IsGrid(s) && |word| >= 1
    ensures r * |word| <= Width(s) * |s| < (r + 1) * |word|
  {
    Width(s) * |s| / |word|
  }

  /** The whole generation: seeding with the filler, then the fill loop over
      the word with index 1 erased. */
  function Generate(s: Grid, word: seq<char>, draws: seq<nat>): Outcome
    requires IsGrid(s) && |word| >= 1 && Empty !in word && ValidDraws(s, draws)
  {
    var (seeded, left) := Seed(s, Filler(word), FillerCount(s, word), draws);
    if left > 0 then OutOfDraws(seeded, left)
    else
      var w := EraseSecond(word);
      Done(Fill(seeded, w))
  }

  /** What generation promises for any starting grid: it completes exactly when
      the draws denote enough distinct cells not holding the filler, and then
      every cell is filled, the dimensions are unchanged, and every cell that
      held a character after seeding still holds it. */
  lemma GenerateCovers(s: Grid, word: seq<char>, draws: seq<nat>)
    requires IsGrid(s) && |word| >= 1 && Empty !in word && ValidDraws(s, draws)
    ensures Generate(s, word, draws).Done? <==> |Candidates(s, Filler(word), draws)| >= FillerCount(s, word)
    ensures var seeded := Seed(s, Filler(word), FillerCount(s, word), draws).0;
      Generate(s, word, draws).Done? ==>
        var r := Generate(s, word, draws).grid;
        Full(r) && SameShape(s, r) &&
        forall p :: InGrid(seeded, p) && At(seeded, p) != Empty ==> At(r, p) == At(seeded, p)
  {
    var n := FillerCount(s, word);
    SeedShortfall(s, Filler(word), n, draws);
    var (seeded, left) := Seed(s, Filler(word), n, draws);
    if left == 0 {
      var w := EraseSecond(word);
      FillIsFull(seeded, w);
      IterateKeeps(seeded, w, EmptyCount(seeded));
    }
  }

  /** Generation from an all-empty grid, as the program runs it: seeding puts
      the filler into exactly `width*height / |word|` distinct cells
      and leaves every other cell empty; when it completes, those cells still
      hold the filler in the finished grid. */
  lemma GenerateFromBlank(s: Grid, word: seq<char>, draws: seq<nat>)
    requires IsGrid(s) && |word| >= 1 && Empty !in word && ValidDraws(s, draws)
    requires forall p :: InGrid(s, p) ==> At(s, p) == Empty
    ensures var seeded := Seed(s, Filler(word), FillerCount(s, word), draws).0;
      Generate(s, word, draws).Done? ==>
        |Changed(s, seeded)| == FillerCount(s, word) &&
        (forall p :: InGrid(seeded, p) ==>
          (At(seeded, p) == Filler(word) <==> p in Changed(s, seeded)) &&
          (At(seeded, p) == Filler(word) || At(seeded, p) == Empty)) &&
        forall p :: p in Changed(s, seeded) ==>
          InGrid(Generate(s, word, draws).grid, p) && At(Generate(s, word, draws).grid, p) == Filler(word)
  {
    var n := FillerCount(s, word);
    var seeded := Seed(s, Filler(word), n, draws).0;
    if Generate(s, word, draws).Done? {
      SeedBlank(s, Filler(word), n, draws);
      GenerateCovers(s, word, draws);
      forall p | p in Changed(s, seeded) ensures InGrid(seeded, p) {
        ChangedMembers(s, seeded, p);
      }
    }
  }

  lemma MulAtLeast(n: int, m: int)
    requires n > 0 && m >= 1
    ensures n * m >= n
    decreases m
  {
    if m > 1 {
      MulAtLeast(n, m - 1);
      assert n * m == n * (m - 1) + n;
    }
  }
  lemma ModShift(x: int, n: int)
    requires n > 0 && x >= 0
    ensures (x + n) % n == x % n
  {
    var q, r := x / n, x % n;
    var q2, r2 := (x + n) / n, (x + n) % n;
    assert x == n * q + r;
    assert x + n == n * q2 + r2;
    var m := q2 - q - 1;
    assert n * m == r - r2 by {
      assert n * q2 == n * (q + 1 + m);
      assert n * (q + 1 + m) == n * q + n + n * m;
    }
    if m >= 1 {
      MulAtLeast(n, m);
    } else if m <= -1 {
      MulAtLeast(n, -m);
    }
  }
  lemma ModSmall(x: int, n: int)
    requires n > 0 && 0 <= x < n
    ensures x % n == x
  {
  }
  /** The character index advances cyclically: `(k % n + 1) % n` is `(k + 1) % n`. */
  lemma ModSucc(k: nat, n: nat)
    requires n > 0
    ensures (k % n + 1) % n == (k + 1) % n
    decreases k
  {
    if k >= n {
      ModSucc(k - n, n);
      ModShift(k - n, n);
      ModShift(k + 1 - n, n);
    } else if k + 1 == n {
      ModSmall(k, n);
    } else {
      ModSmall(k, n);
      ModSmall(k + 1, n);
    }
  }

  /** The generator on the array grid, in place. `ok` is false only when the
      draws ran out during seeding; the grid is then left partly seeded. */
  method SakusAlgorithm(g: array2<char>, word: seq<char>, draws: seq<nat>) returns (ok: bool)
    requires g.Length0 >= 1 && g.Length1 >= 1
    requires |word| >= 1 && Empty !in word
    requires forall i :: 0 <= i < |draws| ==> draws[i] < g.Length0 * g.Length1
    modifies g
    ensures ok == Generate(old(Cells(g)), word, draws).Done?
    ensures Cells(g) == Generate(old(Cells(g)), word, draws).grid
    ensures ok ==> Full(Cells(g))
  {
    var gridHeight, gridWidth := g.Length0, g.Length1;
    var randomLetterAmount := gridWidth * gridHeight / |word|;
    var randomFillChar := Filler(word);
    var left := SeedFiller(g, randomFillChar, randomLetterAmount, draws);
    if left > 0 {
      return false;
    }
    var rest := EraseSecond(word);
    FillLoop(g, rest);
    ok := true;
  }

  /** The fill loop of the generator (main.cpp:196-208) on the array grid, in
      place, with the word already shortened. */
  method FillLoop(g: array2<char>, word: seq<char>)
    requires g.Length0 >= 1 && g.Length1 >= 1
    requires |word| >= 1 && Empty !in word
    modifies g
    ensures Cells(g) == Fill(old(Cells(g)), word)
    ensures Full(Cells(g))
  {
    ghost var seeded := Cells(g);
    ghost var k := 0;
    var startingPosition := GetFirstEmptySlot(g);
    var charIndex := 0;
    while startingPosition.y < g.Length0
      invariant IsGrid(seeded) && |seeded| == g.Length0
      invariant Cells(g) == Iterate(seeded, word, k)
      invariant charIndex == k % |word| && k <= EmptyCount(seeded)
      invariant startingPosition == FirstEmpty(Iterate(seeded, word, k))
      decreases EmptyCount(seeded) - k
    {
      PassStep(seeded, word, k);
      StampAndChain(g, startingPosition, word[charIndex]);
      charIndex := (charIndex + 1) % |word|;
      k := k + 1;
      startingPosition := GetFirstEmptySlot(g);
    }
    FillDone(seeded, word, k);
  }

  /** Pass number `k` on a grid with an empty slot: it stamps `w[k % |w|]`
      there and chains it, it is one of at most `EmptyCount(s)` passes, and the
      next pass uses the next character of the word, cyclically. */
  lemma PassStep(s: Grid, w: seq<char>, k: nat)
    requires IsGrid(s) && |w| >= 1 && Empty !in w
    requires FirstEmpty(Iterate(s, w, k)).y < |s|
    ensures var t := Iterate(s, w, k);
      var slot := FirstEmpty(t);
      InGrid(t, slot) && w[k % |w|] != Empty &&
      Iterate(s, w, k + 1) == Chain(Put(t, slot, w[k % |w|]), [slot], w[k % |w|])
    ensures k + 1 <= EmptyCount(s) <= |s| * Width(s)
    ensures (k % |w| + 1) % |w| == (k + 1) % |w|
  {
    EmptyCountBound(s);
    var t := Iterate(s, w, k);
    IterateProgress(s, w, k);
    FirstEmptySentinel(t);
    FullIffNoneEmpty(t);
    ModSucc(k, |w|);
  }

  /** When the scan finds no empty slot after `k` passes, the grid is full and
      is what the fill loop leaves. */
  lemma FillDone(s: Grid, w: seq<char>, k: nat)
    requires IsGrid(s) && |w| >= 1 && Empty !in w && k <= EmptyCount(s)
    requires FirstEmpty(Iterate(s, w, k)).y == |s|
    ensures Full(Iterate(s, w, k)) && Iterate(s, w, k) == Fill(s, w)
  {
    var t := Iterate(s, w, k);
    var e := EmptyCount(s);
    assert Full(t) by {
      FirstEmptySentinel(t);
    }
    assert Iterate(s, w, k + (e - k)) == t by {
      IterateStable(s, w, k, e - k);
    }
    assert k + (e - k) == e;
  }

  /** One pass of the fill loop on the array grid: write `c` into the slot the
      scan found (main.cpp:203), then chain it from there (main.cpp:204). */
  method StampAndChain(g: array2<char>, slot: Pos, c: char)
    requires g.Length0 >= 1 && g.Length1 >= 1 && c != Empty
    requires 0 <= slot.y < g.Length0 && 0 <= slot.x < g.Length1
    modifies g
    ensures Cells(g) == Chain(Put(old(Cells(g)), slot, c), [slot], c)
  {
    ghost var before := Cells(g);
    g[slot.y, slot.x] := c;
    assert Models(g, Put(before, slot, c));
    ModelsUnique(g, Put(before, slot, c));
    ChainCharacters(g, slot, c);
  }
}
