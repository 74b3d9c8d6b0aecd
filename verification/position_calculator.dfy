/**
 Pairwise geometry of two board positions: signed file and rank distances
 (source minus target) and the diagonal test built on their gradient.
 Position indices are Java `int`s, so the subtraction wraps modulo 2^32; the
 floating-point gradient is modelled by the exact rational quotient, which has
 the same zero / non-zero behaviour for 32-bit operands.
 */
module PositionCalculator {

  /** A Java `int`. */
  newtype Int32 = x: int | -0x8000_0000 <= x < 0x8000_0000

  const Modulus: int := 0x1_0000_0000

  /** Two's-complement wrap-around of an exact integer into 32 bits. */
  function Wrap(x: int): (r: Int32)
    ensures (r as int - x) % Modulus == 0
    ensures -0x8000_0000 <= x < 0x8000_0000 ==> r as int == x
  {
    var m := x % Modulus;
    if m < 0x8000_0000 then m as Int32 else (m - Modulus) as Int32
  }

  /** A board coordinate as a file index and a rank index. */
  datatype Position = Position(fileIndex: Int32, rankIndex: Int32)

  /** Squares of the board: both indices in 0..7. */
  predicate OnBoard(p: Position) {
    0 <= p.fileIndex < 8 && 0 <= p.rankIndex < 8
  }

  /** `a - b` in 32-bit arithmetic. */
  function DistanceOf(a: Int32, b: Int32): (d: Int32)
    ensures d == 0 <==> a == b
    ensures -0x8000_0000 <= a as int - b as int < 0x8000_0000 ==> d as int == a as int - b as int
    ensures a as int - b as int >= 0x8000_0000 ==> d as int == a as int - b as int - Modulus
    ensures a as int - b as int < -0x8000_0000 ==> d as int == a as int - b as int + Modulus
  {
    var x := a as int - b as int;
    Wrap(x)
  }

  /** Signed file distance, source minus target. */
  function FileDistance(source: Position, target: Position): (d: Int32)
    ensures d == 0 <==> source.fileIndex == target.fileIndex
    ensures OnBoard(source) && OnBoard(target) ==>
              d as int == source.fileIndex as int - target.fileIndex as int
  {
    DistanceOf(source.fileIndex, target.fileIndex)
  }

  /** Signed rank distance, source minus target. */
  function RankDistance(source: Position, target: Position): (d: Int32)
    ensures d == 0 <==> source.rankIndex == target.rankIndex
    ensures OnBoard(source) && OnBoard(target) ==>
              d as int == source.rankIndex as int - target.rankIndex as int
  {
    DistanceOf(source.rankIndex, target.rankIndex)
  }

  function Abs(x: real): real {
    if x < 0.0 then -x else x
  }

  /**
   Rank distance over file distance, and zero when the file distance is zero.
   The result is zero exactly when one of the two distances is zero, and a
   non-zero result lies between 2^-31 and 2^31 in magnitude.
   */
  function Gradient(source: Position, target: Position): (g: real)
    ensures g == 0.0 <==> FileDistance(source, target) == 0 || RankDistance(source, target) == 0
    ensures g != 0.0 ==> 1.0 / 0x8000_0000 as real <= Abs(g) <= 0x8000_0000 as real
  {
    var fd := FileDistance(source, target);
    var rd := RankDistance(source, target);
    if fd == 0 then 0.0
    else if rd == 0 then 0.0 / (fd as int as real)
    else
      QuotientBounds(rd, fd);
      (rd as int as real) / (fd as int as real)
  }

  /**
   The program's diagonal test: the gradient has a non-zero magnitude. This
   holds exactly when the two positions differ both in file and in rank.
   */
  predicate IsDiagonal(source: Position, target: Position)
    ensures IsDiagonal(source, target) <==>
              source.fileIndex != target.fileIndex && source.rankIndex != target.rankIndex
  {
    0.0 < Abs(Gradient(source, target))
  }

  /** Swapping the operands negates the 32-bit difference (with wrap-around). */
  lemma DistanceAntisymmetric(a: Int32, b: Int32)
    ensures DistanceOf(b, a) == Wrap(-(DistanceOf(a, b) as int))
    ensures DistanceOf(a, b) != -0x8000_0000 ==> DistanceOf(b, a) as int == -(DistanceOf(a, b) as int)
  {
  }

  /** File distance is source minus target, and swapping the two positions negates it. */
  lemma FileDistanceAntisymmetric(source: Position, target: Position)
    ensures FileDistance(target, source) == Wrap(-(FileDistance(source, target) as int))
    ensures OnBoard(source) && OnBoard(target) ==>
              FileDistance(source, target) as int == source.fileIndex as int - target.fileIndex as int
              && FileDistance(target, source) as int == -(FileDistance(source, target) as int)
  {
    DistanceAntisymmetric(source.fileIndex, target.fileIndex);
  }

  /** Rank distance is source minus target, and swapping the two positions negates it. */
  lemma RankDistanceAntisymmetric(source: Position, target: Position)
    ensures RankDistance(target, source) == Wrap(-(RankDistance(source, target) as int))
    ensures OnBoard(source) && OnBoard(target) ==>
              RankDistance(source, target) as int == source.rankIndex as int - target.rankIndex as int
              && RankDistance(target, source) as int == -(RankDistance(source, target) as int)
  {
    DistanceAntisymmetric(source.rankIndex, target.rankIndex);
  }

  /** With no file distance the gradient is zero, so the positions are not diagonal. */
  lemma GradientZeroWhenFileDistanceZero(source: Position, target: Position)
    requires FileDistance(source, target) == 0
    ensures Gradient(source, target) == 0.0
    ensures !IsDiagonal(source, target)
  {
  }

  /** With no rank distance the gradient is zero (0.0 or -0.0 in the program), so not diagonal. */
  lemma GradientZeroWhenRankDistanceZero(source: Position, target: Position)
    requires RankDistance(source, target) == 0
    ensures Gradient(source, target) == 0.0
    ensures !IsDiagonal(source, target)
  {
  }

  /** Multiplying by a non-negative factor preserves order. */
  lemma MulMonotone(a: real, b: real, c: real)
    requires 0.0 <= a && b <= c
    ensures a * b <= a * c
  {
  }

  /** The magnitude of a product is the product of the magnitudes. */
  lemma AbsMul(a: real, b: real)
    ensures Abs(a) * Abs(b) == Abs(a * b)
  {
    if a < 0.0 && b < 0.0 {
      assert Abs(a) * Abs(b) == (-a) * (-b) == a * b;
    } else if a < 0.0 {
      assert Abs(a) * Abs(b) == (-a) * b == -(a * b);
    } else if b < 0.0 {
      assert Abs(a) * Abs(b) == a * (-b) == -(a * b);
    }
  }

  /** A quotient of two reals in [1, m] lies in [1/m, m]. */
  lemma RealQuotientBounds(n: real, d: real, m: real)
    requires 1.0 <= n <= m && 1.0 <= d <= m
    ensures 1.0 / m <= n / d <= m
  {
    var q := n / d;
    assert q * d == n;
    assert 0.0 < q;
    MulMonotone(q, 1.0, d);
    MulMonotone(q, d, m);
    var r := 1.0 / m;
    assert r * m == 1.0;
    if q < r {
      MulMonotone(m, q, r);
    }
  }

  /**
   The quotient of two non-zero 32-bit distances has magnitude between 2^-31
   and 2^31: a `double` holds every such value without underflowing to zero
   or overflowing, so the exact quotient and the program's floating-point one
   agree on being non-zero.
   */
  lemma QuotientBounds(rd: Int32, fd: Int32)
    requires rd != 0 && fd != 0
    ensures 1.0 / 0x8000_0000 as real <= Abs((rd as int as real) / (fd as int as real)) <= 0x8000_0000 as real
  {
    var n := rd as int as real;
    var d := fd as int as real;
    var q := n / d;
    assert q * d == n;
    AbsMul(q, d);
    assert Abs(q) == Abs(n) / Abs(d);
    RealQuotientBounds(Abs(n), Abs(d), 0x8000_0000 as real);
  }

  /**
   The diagonal test holds exactly when both distances are non-zero. Equal
   magnitudes are not required.
   */
  lemma IsDiagonalIff(source: Position, target: Position)
    ensures IsDiagonal(source, target) <==> FileDistance(source, target) != 0 && RankDistance(source, target) != 0
  {
    var fd := FileDistance(source, target);
    var rd := RankDistance(source, target);
    if fd != 0 && rd != 0 {
      QuotientBounds(rd, fd);
    }
  }

  /** The same characterisation in terms of the two positions' indices. */
  lemma IsDiagonalIffIndicesDiffer(source: Position, target: Position)
    ensures IsDiagonal(source, target) <==>
              source.fileIndex != target.fileIndex && source.rankIndex != target.rankIndex
  {
    IsDiagonalIff(source, target);
  }

  /** The diagonal test does not depend on which position is the source. */
  lemma IsDiagonalSymmetric(source: Position, target: Position)
    ensures IsDiagonal(source, target) <==> IsDiagonal(target, source)
  {
    IsDiagonalIffIndicesDiffer(source, target);
    IsDiagonalIffIndicesDiffer(target, source);
  }

  /** A position is never diagonal to itself. */
  lemma NotDiagonalToItself(p: Position)
    ensures !IsDiagonal(p, p)
  {
    GradientZeroWhenFileDistanceZero(p, p);
  }

  /** Equal non-zero magnitudes of the two distances are diagonal. */
  lemma EqualOffsetsAreDiagonal(source: Position, target: Position)
    requires FileDistance(source, target) != 0
    requires FileDistance(source, target) == RankDistance(source, target)
          || FileDistance(source, target) as int == -(RankDistance(source, target) as int)
    ensures IsDiagonal(source, target)
  {
    IsDiagonalIff(source, target);
  }

  /** A knight's offset of one file and two ranks also passes the diagonal test. */
  lemma KnightOffsetIsDiagonal()
    ensures FileDistance(Position(1, 2), Position(0, 0)) == 1
    ensures RankDistance(Position(1, 2), Position(0, 0)) == 2
    ensures IsDiagonal(Position(1, 2), Position(0, 0))
  {
    IsDiagonalIff(Position(1, 2), Position(0, 0));
  }
}
