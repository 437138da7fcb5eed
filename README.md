# Word-grid puzzle generator: a verified model

This project models the generator core of a small command-line program that
fills a rectangular character grid from a word. The grid starts blank (every
cell holds a space). Generation then runs in two phases.

1. **Seeding.** A number of randomly chosen cells receive the *filler*
   character, `word[1]`. The number is width*height / |word|.
2. **Fill loop.** The character at index 1 is erased from the word; only
   that copy goes, so "ABB" becomes "AB". Then, repeatedly,
   the first empty cell in row-major order receives the next character of the
   shortened word (taken cyclically), and the *chainer* floods outward from that
   cell. The chainer is a work-stack flood fill. From each position it pops, it
   looks one step along each of the eight directions. When that neighbour holds
   some character other than the one being chained, it jumps over the
   neighbour into the cell beyond. If that cell is empty, the chainer fills it
   and pushes it onto the stack.

The model is imperative, like the program. The grid is an `array2<char>`
indexed `[row, column]`. The methods `ChainCharacters`, `SeedFiller`,
`FillLoop` and `SakusAlgorithm` update it in place with the same loops as the
original; `GetFirstEmptySlot` scans it with the original's loop and only reads
it. Each method is proved against a
specification function on a value view of the grid (`Grid = seq<seq<char>>`,
related to the array by `Grids.Models` / `Grids.Cells`). The properties the
program promises are proved as lemmas about those functions.

Files and modules:

- `grids.dfy` (`Grids`): the empty character, positions, the direction table,
  the grid value view, `Put`, the empty-cell count, and the growth relation.
- `chaining.dfy` (`Chaining`): the chainer.
- `scanning.dfy` (`Scanning`): the first-empty-slot scan.
- `seeding.dfy` (`Seeding`): the random seeding, driven by a sequence of draws.
- `generator.dfy` (`Generator`): the whole algorithm.

Positions are signed `Pos(x, y)` values. The original stores them as unsigned
`size_t` pairs, so a step off the top or left edge wraps to a huge value, and
the test `tempX > maxX` rejects it. In the model, the same step is a negative
coordinate, and an explicit range test rejects it. Either way, exactly the
in-grid cells are accepted.

The random engine is a parameter: `draws` is the sequence of values the uniform
distribution over [0, width*height) would produce. Since only finitely many
draws are given, seeding can run out of them. In that case the model stops
with `OutOfDraws`, where the program would keep drawing.

The filler is `word[1]` (main.cpp:173); index 1 is then erased
(main.cpp:194). A one-character word is handled as `std::string` handles it:
`word[1]` is then the string's terminating `'\0'`, `erase(1, 1)` removes
nothing, and the seeding target is width*height, so seeding turns every cell
into `'\0'` and the fill loop finds nothing left to do (`Generator.Filler`,
`Generator.EraseSecond`).

Preconditions the model states, because the program misbehaves without them:

- The word is not empty. An empty word divides by zero at main.cpp:171, and
  `word[1]` then lies past the terminator.
- The word contains no space, because a space makes the program hang in
  three ways:
  - Seeding with a space as the filler and a positive target redraws forever
    on a blank grid, since every cell already holds the filler.
  - Chaining a space never terminates once any direction can jump: the cell
    it "fills" stays empty, so from it the opposite direction jumps back over
    the same neighbour into the start cell, which is still empty, again and
    again. This is the case `c != Empty` excludes on `Chaining.Chain`,
    `Chaining.Expand` and `Chaining.ChainCharacters`, and the termination
    measure, the number of empty cells, relies on excluding it.
  - With a shortened word made only of spaces, stamping leaves the slot empty
    and the scan returns the same slot forever.

  The one caller reads the word with `std::cin >>` (main.cpp:84, via
  main.cpp:220), which never yields a string that holds whitespace, so the
  precondition holds where the generator is called.
- Width and height are at least 1.

## Model

| member | source | states |
|---|---|---|
| Grids.Empty | main.cpp:16 | the empty cell value, a space |
| Grids.Directions | main.cpp:18-26 | the eight (dx, dy) offsets in the table's order, as signed integers; the chainer tries them, and so pushes onto its stack, in this order |
| Grids.DirectionsAreUnitSteps | main.cpp:18-26 | the table holds eight pairwise distinct steps, each coordinate -1, 0 or 1, none of them (0, 0) |
| Grids.Put | main.cpp:136 | writing one cell changes that cell to the written character and no other cell, and keeps the dimensions |
| Grids.FillShrinks | main.cpp:136 | filling an empty cell with a non-empty character removes exactly that cell from the empty ones; the count drops by one |
| Grids.GrowsCount | main.cpp:134-137 | a grid that only grows by filling empty cells never gains an empty cell |
| Grids.RectangleBound | main.cpp:170 | a set of positions inside an h-by-w rectangle has at most h*w members |
| Grids.EmptyCountBound | main.cpp:170 | a grid has at most width*height empty cells |
| Grids.FullIffNoneEmpty | main.cpp:201 | the grid has no empty cell exactly when the empty-cell count is zero |
| Chaining.Jumps | main.cpp:113-134 | the jump condition: the neighbour is in the grid and holds a character that is neither empty nor the chained one, and the cell beyond is in the grid and empty; its array form is `Chaining.JumpsInArray` |
| Chaining.Chain | main.cpp:105-140 | the flood fill on the value view: pop the last position, try the eight directions in table order, fill and push on each jump; its properties are `ChainGrows`, `ChainProvenance` and `ChainClosed`, and `ChainCharacters` is proved to compute it |
| Chaining.Expand | main.cpp:111-139 | the inner loop over the directions of one popped position; its properties are `ExpandGrows`, `ExpandProvenance` and `ExpandClosed`, the inductive steps of the `Chain` lemmas |
| Chaining.ChainGrows | main.cpp:121-137 | monotonic fill: the chainer writes only into empty cells, writes only the chained character, never changes a filled cell, and keeps the dimensions |
| Chaining.ChainProvenance | main.cpp:111-137 | every cell the chainer fills lies exactly two steps along one of the eight directions from a position on the stack (the start or a filled cell), over a cell holding a character other than the chained one |
| Chaining.ChainClosed | main.cpp:107-140 | when the chainer stops, no direction from the start or from any filled cell has a foreign neighbour followed by an in-grid empty cell |
| Chaining.StaysClosed | main.cpp:121-134 | a direction that cannot jump still cannot jump after the grid grows with the chained character |
| Chaining.JumpsInArray | main.cpp:113-134 | the method's range and content tests on the array hold exactly when the jump condition `Jumps` holds on the value view |
| Chaining.ChainCharacters | main.cpp:96-141 | the in-place flood fill leaves the grid equal to `Chain` of the grid it began with, starting from `[start]`; every array access is range-checked |
| Scanning.Next | main.cpp:151-160 | the scan's step: the next column, or column 0 of the next row; `NextIsSuccessor` proves it is the immediate successor in row-major order |
| Scanning.NextIsSuccessor | main.cpp:151-160 | for a column in range, `Next` stays in the column range, comes after `p`, and no in-range position lies strictly between them |
| Scanning.FirstEmptyFrom | main.cpp:149-161 | the scan from a position stops at an empty cell or the sentinel, not before where it started, with every cell in between filled |
| Scanning.FirstEmpty | main.cpp:143-164 | the answer is the first empty cell in row-major order, or the sentinel (0, height) with every cell filled |
| Scanning.FirstEmptyUnique | main.cpp:143-164 | at most one position is the first empty cell, so the scan's answer is determined by the grid |
| Scanning.FirstEmptySentinel | main.cpp:149-163 | the scan answers row `height` exactly when the grid is full |
| Scanning.GetFirstEmptySlot | main.cpp:143-164 | the in-place scan returns the first empty cell in row-major order, or (0, height) exactly when the grid is full, reading the grid only |
| Seeding.Decode | main.cpp:177-178 | a draw `d` denotes column `d % width`, row `d / width`: the column is in range and `width * row + column == d` |
| Seeding.DecodeInjective | main.cpp:177-178 | distinct draws denote distinct cells (column `d % width`, row `d / width`) |
| Seeding.Seed | main.cpp:175-192 | seeding keeps the dimensions, and the number of fillers still to place never exceeds the target |
| Seeding.SeedChanges | main.cpp:180-192 | seeding changes exactly target - left distinct cells, each from a character other than the filler to the filler; a draw that hits a filler cell is redrawn, not counted |
| Seeding.SeedShortfall | main.cpp:180-192 | `Shortfall`: seeding completes exactly when the draws denote at least `target` distinct cells not holding the filler; otherwise it falls short by exactly the difference |
| Seeding.SeedBlank | main.cpp:171-192 | from an all-empty grid, a complete seeding leaves exactly `target` distinct filler cells, and every other cell empty |
| Seeding.SeedFiller | main.cpp:171-192 | the in-place seeding loop leaves the grid and the count still to place that `Seed` describes |
| Generator.Filler | main.cpp:173 | the filler is `word[1]` for a word of two or more characters, and the terminator for a one-character word; it is never the empty character when the word holds none |
| Generator.EraseSecond | main.cpp:194 | erasing index 1 shortens a word of two or more characters by one, keeps `word[0]`, shifts the tail down by one, and removes exactly one copy of `word[1]`; a one-character word is kept; the result is never empty and holds only characters of the word |
| Generator.Step | main.cpp:201-207 | one pass stamps `w[i]` into the first empty slot and strictly decreases the empty-cell count; it changes no filled cell, keeps the dimensions, and on a full grid does nothing |
| Generator.Iterate | main.cpp:196-208 | the grid after k passes of the fill loop, pass j using `w[j mod n]`; it keeps the dimensions, and its properties are `IterateKeeps`, `IterateProgress`, `IterateStable` and `PassStep` |
| Generator.Fill | main.cpp:196-208 | the fill loop's final grid, E passes from the seeded grid; `FillIsFull` and `FillDone` prove it full and equal to where the loop stops |
| Generator.FillerCount | main.cpp:170-171 | the seeding target width*height / (word length), rounded down: the largest count whose product with the word length does not exceed width*height |
| Generator.Generate | main.cpp:166-209 | the whole generation: seeding, erasing index 1, the fill loop; `GenerateCovers` and `GenerateFromBlank` carry its properties, and `SakusAlgorithm` is proved to compute it |
| Generator.IterateKeeps | main.cpp:201-208 | no pass of the fill loop changes a cell that was filled when the loop began |
| Generator.IterateProgress | main.cpp:201-208 | after k passes, the grid is full or has at most E - k empty cells, where E is the empty-cell count before the loop; so there are at most E passes, and E is at most width*height by `Grids.EmptyCountBound` |
| Generator.IterateStable | main.cpp:201 | once the grid is full, further passes change nothing |
| Generator.FillIsFull | main.cpp:201-208 | full coverage: the fill loop leaves no empty cell and keeps the dimensions |
| Generator.PassStep | main.cpp:203-206 | pass number k stamps `w[k mod n]` (n the length of the shortened word) into the first empty slot and chains it, is one of at most E passes, where E, the seeded grid's empty count, is at most width*height (`EmptyCountBound`), and the next pass uses the index (k + 1) mod n |
| Generator.FillDone | main.cpp:201-207 | when the scan finds no empty slot, the grid is full and is the fill loop's final grid |
| Generator.GenerateCovers | main.cpp:166-209 | generation completes exactly when the draws denote at least width*height / (word length) distinct non-filler cells; then the grid is full, has the same dimensions, and keeps every seeded cell |
| Generator.GenerateFromBlank | main.cpp:171-209 | from a blank grid, a completed generation seeded exactly width*height / (word length) distinct cells with the filler (`Filler`), left every other cell empty after seeding, and those cells still hold the filler at the end |
| Generator.ModSucc | main.cpp:206 | advancing the index cyclically, `(k mod n + 1) mod n`, equals `(k + 1) mod n` |
| Generator.FillLoop | main.cpp:196-208 | the in-place fill loop leaves `Fill` of the seeded grid, which is full |
| Generator.StampAndChain | main.cpp:203-204 | writing the character into the slot and then chaining from it leaves `Chain` of the stamped grid |
| Generator.SakusAlgorithm | main.cpp:166-209 | the in-place generator leaves `Generate`'s grid; it reports success exactly when seeding completed, and the grid is then full |

## Left out

- `readTypedInput`, the help and grid-printing functions and `main` (user input,
  console output and argument handling) are not part of this model.
- The Mersenne-Twister engine and its clock seed are not modelled. Random draws
  are given as a finite sequence of values in [0, width*height), and their
  distribution is not modelled.
- Seeding.Seed: when the draws run out, seeding stops with fillers still to
  place, where the program would keep drawing; `SeedShortfall` states exactly
  when this happens.
- Seeding.Seed: when the target is zero, no draw is consumed. The program draws
  one value at main.cpp:175 and never uses it.
- Seeding.Seed: after placing a filler, the program re-examines the same cell,
  finds the filler there, and only then draws again (main.cpp:182-189). The
  model moves to the next draw at once. The resulting grid and the sequence of
  draws consumed are the same.
- The `size_t` product width*height (main.cpp:170) is taken as an unbounded
  integer; its wrap-around for grids larger than 2^64 cells is not modelled.
- Positions are signed integers, not wrapping `size_t` values (see above).
- The counter `i` (main.cpp:199, 205) is never read, and the model omits it.
