/**
 The piece value the row container stores. The piece classes of the program
 are not part of this model; a piece is treated as an immutable value made of
 a colour and a kind, plus the distinguished blank value that fills an empty
 square.
 */
module Pieces {

  datatype Color = White | Black

  datatype Kind = Pawn | Knight | Bishop | Rook | Queen | King

  /** A real piece, or the blank value of an empty square. */
  datatype Piece = Piece(color: Color, kind: Kind) | Blank

  /**
   The filter used when counting pieces: same colour and same kind.
   Assumption: the blank value never answers a query for a real colour and
   kind, since its colour and kind are outside the two enumerations above.
   */
  predicate Matches(p: Piece, c: Color, k: Kind) {
    p.Piece? && p.color == c && p.kind == k
  }

  /** Back-rank order produced by the piece factory, from file a to file h. */
  const RoyalKinds: seq<Kind> := [Rook, Knight, Bishop, Queen, King, Bishop, Knight, Rook]

  /** The eight royal pieces of one colour, in back-rank order. */
  function Royal(c: Color): (r: seq<Piece>)
    ensures |r| == |RoyalKinds|
    ensures forall i :: 0 <= i < |r| ==> r[i] == Piece(c, RoyalKinds[i])
  {
    seq(|RoyalKinds|, i requires 0 <= i < |RoyalKinds| => Piece(c, RoyalKinds[i]))
  }

  /** `n` copies of one piece. */
  function Repeat(p: Piece, n: nat): (r: seq<Piece>)
    ensures |r| == n
    ensures forall i :: 0 <= i < n ==> r[i] == p
  {
    seq(n, _ => p)
  }
}
