# java-chess: the row container and the position calculator in Dafny

This project models two components of the java-chess repository:

- **`File`**, the fixed-capacity container that holds one row of the board.
  It is a growable list of pieces capped at `SIZE = 8`. It supports
  chainable append with a capacity check, indexed get and set, size,
  `isAddable`, counting by colour and kind, and three fill operations: pawns,
  blanks, and the royal back rank R N B Q K B N R. Despite its name, a `File`
  is one *row*: slot `i` is the square on file letter `'a' + i`. The model
  therefore treats the index as a file-letter index 0..7.
- **`PositionCalculator`**, a stateless helper over a source and a target
  position. It gives the signed file distance and rank distance (source minus
  target), a gradient, and the diagonal test built on that gradient.

Modules:

- `Pieces` (`pieces.dfy`): the piece value with colour, kind and the blank
  value, the colour/kind filter, and the factory's back-rank order.
- `Results` (`results.dfy`): the failure conditions and the `Result` type.
  The program's exceptions become error results.
- `BoardFile` (`board_file.dfy`): the row as `File(pieces: seq<Piece>)`
  with the invariant `|pieces| <= 8`. Each mutating operation is a pure
  function from the row before to the row after.
- `FileProperties` (`file_properties.dfy`): lemmas that relate the row
  operations to each other.
- `PositionCalculator` (`position_calculator.dfy`): positions, the 32-bit
  distances, the gradient, the diagonal test and their properties.

Modelling decisions:

- **Chained appends.** A chain of appends on one mutable row is modelled by
  `AddChain`. It returns `Completed(row)` or `Aborted(row, error)`. When a
  call in the chain throws, the appends that ran before it stay in the row,
  and `Aborted` keeps that partial row. So `fillWithRoyal` on a row that
  already holds `k > 0` pieces appends `8 - k` royal pieces and then fails;
  it is not atomic.
- **The blank piece.** The piece classes are not part of this model. It is
  assumed that the blank value never matches a query for a real colour and
  kind (`Pieces.Matches`).
- **32-bit arithmetic.** Position indices are Java `int`s, so `distanceOf`
  (`a - b`) wraps modulo 2^32. `DistanceOf` models this wrap-around
  explicitly. For squares on the board (indices 0..7) it is plain
  subtraction.
- **The gradient.** The program's `double` quotient is modelled by the exact
  rational quotient `rank distance / file distance`. The two agree on
  whether the value is zero: `QuotientBounds` proves that a quotient of
  non-zero 32-bit operands lies between 2^-31 and 2^31 in magnitude, a range
  in which a `double` neither underflows to zero nor overflows, so the
  diagonal test is the same.
- **Indexed access.** `get` and `set` delegate to `List.get` and
  `List.set`, so they fail outside the populated range `[0, size)`, not
  outside `[0, 8)`.

## Model

| member | source | states |
|---|---|---|
| BoardFile.Empty | src/main/java/kr/codesquad/freddie/chess/board/File.java:14 | the definition of a fresh row (`new File()` with an empty list): it is valid, has size 0, is addable, and every read of it fails |
| BoardFile.File.Size | src/main/java/kr/codesquad/freddie/chess/board/File.java:34-36 | the definition of `size()`, the number of populated slots; on a valid row it never exceeds 8 (characterised further by `AppendsFromEmpty` and `Add`) |
| BoardFile.File.IsAddable | src/main/java/kr/codesquad/freddie/chess/board/File.java:45-47 | the definition of `isAddable()`: it holds only on a valid row, and there exactly when the row is not full (characterised further by `IsAddableAfterAppends`) |
| FileProperties.CapacityInvariant | src/main/java/kr/codesquad/freddie/chess/board/File.java:13-24 | the capacity invariant `File.Valid` (at most `SIZE = 8` pieces) is kept by every operation that yields a row: add, set, the pawn, blank and royal fills, and any chain of appends |
| BoardFile.Add | src/main/java/kr/codesquad/freddie/chess/board/File.java:16-24 | append succeeds exactly when the row holds fewer than 8 pieces; on success the row stays within capacity, grows by one, keeps every earlier slot and ends with the new piece; on a full row it fails with the capacity error |
| BoardFile.Get | src/main/java/kr/codesquad/freddie/chess/board/File.java:26-28 | succeeds exactly for 0 <= i < size and then yields the i-th appended piece; any other index is an out-of-bounds error carrying the index and size |
| BoardFile.Set | src/main/java/kr/codesquad/freddie/chess/board/File.java:30-32 | succeeds exactly for 0 <= i < size; it puts the new piece in slot i, returns the piece that was there, and keeps the size and every other slot; other indices are out-of-bounds errors |
| BoardFile.CountMatching | src/main/java/kr/codesquad/freddie/chess/board/File.java:38-43 | the slot-by-slot count of pieces with the queried colour and kind never exceeds the number of slots |
| BoardFile.CountAllOrNone | src/main/java/kr/codesquad/freddie/chess/board/File.java:38-43 | the count equals the length exactly when every slot matches, and is zero exactly when no slot matches |
| BoardFile.CountIsMatchingSlots | src/main/java/kr/codesquad/freddie/chess/board/File.java:38-43 | the count equals the number of indices whose piece matches the colour and kind, an independent set-based definition |
| BoardFile.GetNumberOf | src/main/java/kr/codesquad/freddie/chess/board/File.java:38-43 | the number of matching slots is at most the size, equals the size of the set of matching indices, equals the size iff all slots match and is 0 iff none does |
| BoardFile.FillWith | src/main/java/kr/codesquad/freddie/chess/board/File.java:57-61 | appending while addable leaves a full row of 8 whose first slots are the original pieces, followed by 8 - size copies of the fill piece |
| BoardFile.FillWithPawn | src/main/java/kr/codesquad/freddie/chess/board/File.java:49-51 | the row ends with size 8, the existing slots are kept, and every slot from the old size to 7 is a pawn of the given colour |
| BoardFile.FillWithBlank | src/main/java/kr/codesquad/freddie/chess/board/File.java:53-55 | the row ends with size 8, the existing slots are kept, and every slot from the old size to 7 is blank |
| BoardFile.AddChain | src/main/java/kr/codesquad/freddie/chess/board/File.java:66-73 | a chain of appends completes iff size plus count fits in 8, giving the old row followed by all pieces; otherwise it aborts with the capacity error, after the row was filled with the pieces that fitted |
| BoardFile.FillWithRoyal | src/main/java/kr/codesquad/freddie/chess/board/File.java:63-75 | always leaves a full row whose old slots are kept and whose remaining slots hold the back rank R N B Q K B N R in order; it completes only on an empty row and otherwise fails after the partial fill |
| FileProperties.GetAfterAdd | src/main/java/kr/codesquad/freddie/chess/board/File.java:16-28 | after an append the new piece is read back at the old size, the earlier slots read as before, and reading one past the new end fails |
| FileProperties.GetAfterSet | src/main/java/kr/codesquad/freddie/chess/board/File.java:26-32 | after a write, reading its own index gives the new piece and every other index reads exactly as before |
| FileProperties.SetRestores | src/main/java/kr/codesquad/freddie/chess/board/File.java:30-32 | writing back the previous piece that a write returned restores the original row and returns the piece that was written |
| FileProperties.CountAfterAdd | src/main/java/kr/codesquad/freddie/chess/board/File.java:38-43 | an append raises the count by one exactly when the appended piece matches the query |
| FileProperties.CountConcat | src/main/java/kr/codesquad/freddie/chess/board/File.java:38-43 | the count over a concatenation is the sum of the counts over the parts |
| FileProperties.CountAfterSet | src/main/java/kr/codesquad/freddie/chess/board/File.java:30-43 | a write changes the count by minus one if the replaced piece matched and plus one if the new piece matches |
| FileProperties.CountRepeat | src/main/java/kr/codesquad/freddie/chess/board/File.java:38-43 | a run of n copies of one piece counts n when the piece matches and 0 otherwise |
| FileProperties.CountAfterFill | src/main/java/kr/codesquad/freddie/chess/board/File.java:49-61 | filling raises the count by the number of appended slots when the fill piece matches, and leaves it unchanged otherwise |
| FileProperties.FillFullIsNoop | src/main/java/kr/codesquad/freddie/chess/board/File.java:57-61 | filling a row that is already full leaves it unchanged |
| FileProperties.FillWithPawnIdempotent | src/main/java/kr/codesquad/freddie/chess/board/File.java:49-61 | a second pawn fill, of either colour, leaves the row as the first fill left it |
| FileProperties.FillWithBlankIdempotent | src/main/java/kr/codesquad/freddie/chess/board/File.java:53-61 | a second blank fill leaves the row as the first fill left it |
| FileProperties.PawnFilledRow | src/test/java/kr/codesquad/freddie/chess/board/FileTest.java:89-105 | every slot of a pawn-filled empty row has the fill colour; the row counts 8 pawns of that colour and 0 of the other |
| FileProperties.AppendsFromEmpty | src/test/java/kr/codesquad/freddie/chess/board/FileTest.java:21-32 | up to 8 appends to an empty row all succeed; the row then holds exactly those pieces in order, and its size is their number |
| FileProperties.NinthAppendFails | src/test/java/kr/codesquad/freddie/chess/board/FileTest.java:34-44 | the ninth append to an empty row fails with the capacity error, after the first eight pieces went in |
| FileProperties.IsAddableAfterAppends | src/test/java/kr/codesquad/freddie/chess/board/FileTest.java:78-87 | after 1 to 7 appends the row is still addable, and after the 8th it is not |
| FileProperties.RoyalIsBackRank | src/main/java/kr/codesquad/freddie/chess/board/File.java:66-73 | checks the back-rank constant's order against the chain of appends: rook, knight, bishop, queen, king, bishop, knight, rook, all of the given colour |
| FileProperties.RoyalOnEmpty | src/main/java/kr/codesquad/freddie/chess/board/File.java:63-75 | on an empty row the royal fill completes with exactly R N B Q K B N R of the given colour |
| PositionCalculator.Wrap | src/main/java/kr/codesquad/freddie/chess/utils/PositionCalculator.java:37-39 | Java `int` arithmetic: the wrapped value is congruent to the exact result modulo 2^32 and equals it when it fits in 32 bits |
| PositionCalculator.DistanceOf | src/main/java/kr/codesquad/freddie/chess/utils/PositionCalculator.java:37-39 | the 32-bit difference is zero exactly when the operands are equal; it is the exact difference when that fits in an int, and is otherwise shifted by 2^32 |
| PositionCalculator.FileDistance | src/main/java/kr/codesquad/freddie/chess/utils/PositionCalculator.java:14-16 | the definition of `getFileDistance`: zero exactly when the two file indices are equal, and source minus target on the board (antisymmetry in `FileDistanceAntisymmetric`) |
| PositionCalculator.RankDistance | src/main/java/kr/codesquad/freddie/chess/utils/PositionCalculator.java:18-20 | the definition of `getRankDistance`: zero exactly when the two rank indices are equal, and source minus target on the board (antisymmetry in `RankDistanceAntisymmetric`) |
| PositionCalculator.Gradient | src/main/java/kr/codesquad/freddie/chess/utils/PositionCalculator.java:22-31 | the definition of `getGradient`, as an exact quotient: zero exactly when the file or the rank distance is zero, and otherwise of magnitude between 2^-31 and 2^31 (see `QuotientBounds`) |
| PositionCalculator.IsDiagonal | src/main/java/kr/codesquad/freddie/chess/utils/PositionCalculator.java:33-35 | the definition of `isDiagonal` as a non-zero gradient magnitude: it holds exactly when the positions differ both in file index and in rank index (see `IsDiagonalIff`) |
| PositionCalculator.DistanceAntisymmetric | src/main/java/kr/codesquad/freddie/chess/utils/PositionCalculator.java:37-39 | swapping the operands gives the 32-bit negation of the difference, which is the exact negation except at -2^31 |
| PositionCalculator.FileDistanceAntisymmetric | src/main/java/kr/codesquad/freddie/chess/utils/PositionCalculator.java:14-16 | swapping source and target negates the file distance (with 32-bit wrap); on the board it is source index minus target index |
| PositionCalculator.RankDistanceAntisymmetric | src/main/java/kr/codesquad/freddie/chess/utils/PositionCalculator.java:18-20 | swapping source and target negates the rank distance (with 32-bit wrap); on the board it is source index minus target index |
| PositionCalculator.GradientZeroWhenFileDistanceZero | src/main/java/kr/codesquad/freddie/chess/utils/PositionCalculator.java:22-25 | with zero file distance the gradient is 0 and the positions are not diagonal |
| PositionCalculator.GradientZeroWhenRankDistanceZero | src/main/java/kr/codesquad/freddie/chess/utils/PositionCalculator.java:27-35 | with zero rank distance the gradient is 0 and the positions are not diagonal |
| PositionCalculator.QuotientBounds | src/main/java/kr/codesquad/freddie/chess/utils/PositionCalculator.java:27-30 | the quotient of two non-zero 32-bit distances has magnitude between 2^-31 and 2^31, so the `double` division neither underflows to zero nor overflows, and the exact quotient used for the gradient has the same zero / non-zero behaviour |
| PositionCalculator.IsDiagonalIff | src/main/java/kr/codesquad/freddie/chess/utils/PositionCalculator.java:22-35 | the diagonal test holds iff both the file distance and the rank distance are non-zero; equal magnitudes are not required |
| PositionCalculator.IsDiagonalIffIndicesDiffer | src/main/java/kr/codesquad/freddie/chess/utils/PositionCalculator.java:14-39 | the diagonal test holds iff the positions differ both in file index and in rank index |
| PositionCalculator.IsDiagonalSymmetric | src/main/java/kr/codesquad/freddie/chess/utils/PositionCalculator.java:14-39 | swapping source and target does not change the diagonal test |
| PositionCalculator.NotDiagonalToItself | src/main/java/kr/codesquad/freddie/chess/utils/PositionCalculator.java:33-35 | a position is never diagonal to itself |
| PositionCalculator.EqualOffsetsAreDiagonal | src/main/java/kr/codesquad/freddie/chess/utils/PositionCalculator.java:33-35 | non-zero file and rank distances of equal magnitude pass the diagonal test |
| PositionCalculator.KnightOffsetIsDiagonal | src/main/java/kr/codesquad/freddie/chess/utils/PositionCalculator.java:33-35 | a (1, 2) offset has file distance 1 and rank distance 2, yet passes the diagonal test |

## Left out

- The `Board` class is not modelled: add with wrap into new rows, the 64-piece cap, `findPiece`, board `set`, `initialize`, `getRepresentation` and `getScoreOf`. `Board.java` is not part of this model.
- `File.getRepresentation()` and `File.get(char)`. The row tests call them, but `File.java` does not define them.
- `getCalculablePieces`. It builds `CalculablePiece` values, which are not part of this model. Only its labelling of slot `i` with file letter `'a' + i` is reflected, in the index convention.
- `getPieces` (an unmodifiable view) and `toString`. These are Java plumbing with no behaviour to state.
- Exception classes and message texts. They are modelled as the error values `CapacityExceeded(8)` and `IndexOutOfBounds(index, size)`.
- Mutation and aliasing. The row is mutable in the program; here each operation returns the new row. "Returns `this`" becomes "returns the updated row", and a failed `add` leaves its input untouched because that input is a value.
- The internals of `Piece`, `Color`, `Kind`, `PieceFactory` and `Position`. They are plain datatypes here. The factory contributes only the back-rank order.
- The `long` to `int` narrowing in `getNumberOf`. The count never exceeds 8, so the narrowing cannot change it.
- The numeric value of `getGradient`. It is a floating-point division, modelled by the exact rational quotient; rounding is not modelled. Only whether it is zero is used, and that is the same for both.
- PositionCalculator.GradientZeroWhenRankDistanceZero: states the gradient is 0, not which signed zero (0.0 or -0.0) the program's `double` division yields; the diagonal test takes the absolute value, so the sign does not matter.
