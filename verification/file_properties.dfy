/** Properties relating the operations of the row container to each other. */
module FileProperties {
  import opened Pieces
  import opened Results
  import opened BoardFile

  /** Every operation that yields a row keeps it within the capacity of eight. */
  lemma CapacityInvariant(f: File, p: Piece, i: int, c: Color, ps: seq<Piece>)
    requires f.Valid()
    ensures Add(f, p).Ok? ==> Add(f, p).value.Valid()
    ensures Set(f, i, p).Ok? ==> Set(f, i, p).value.0.Valid()
    ensures FillWithPawn(f, c).Valid() && FillWithBlank(f).Valid()
    ensures AddChain(f, ps).row.Valid() && FillWithRoyal(f, c).row.Valid()
  {
  }

  /** After an append, the new piece is read back at the old size and the earlier slots read as before. */
  lemma GetAfterAdd(f: File, p: Piece)
    requires f.Valid() && f.IsAddable()
    ensures Add(f, p).Ok?
    ensures Get(Add(f, p).value, f.Size()) == Ok(p)
    ensures forall j :: 0 <= j < f.Size() ==> Get(Add(f, p).value, j) == Get(f, j)
    ensures Get(Add(f, p).value, f.Size() + 1).Err?
  {
  }

  /** A write changes what is read at its own index and nothing else. */
  lemma GetAfterSet(f: File, i: int, p: Piece, j: int)
    requires f.Valid() && Set(f, i, p).Ok?
    ensures Get(Set(f, i, p).value.0, j) == if j == i then Ok(p) else Get(f, j)
  {
  }

  /** Writing back the piece a write returned restores the original row. */
  lemma SetRestores(f: File, i: int, p: Piece)
    requires f.Valid() && Set(f, i, p).Ok?
    ensures Set(Set(f, i, p).value.0, i, Set(f, i, p).value.1) == Ok((f, p))
  {
    var (g, prev) := Set(f, i, p).value;
    var h := Set(g, i, prev).value.0;
    assert h.pieces == f.pieces;
  }

  /** An append adds one to the count exactly when the appended piece matches. */
  lemma CountAfterAdd(f: File, p: Piece, c: Color, k: Kind)
    requires f.Valid() && f.IsAddable()
    ensures GetNumberOf(Add(f, p).value, c, k) == GetNumberOf(f, c, k) + (if Matches(p, c, k) then 1 else 0)
  {
    var g := Add(f, p).value;
    assert g.pieces[..|g.pieces| - 1] == f.pieces;
  }

  /** Counting over a concatenation adds the counts of the two parts. */
  lemma {:induction false} CountConcat(s: seq<Piece>, t: seq<Piece>, c: Color, k: Kind)
    ensures CountMatching(s + t, c, k) == CountMatching(s, c, k) + CountMatching(t, c, k)
    decreases |t|
  {
    if t == [] {
      assert s + t == s;
    } else {
      var t' := t[..|t| - 1];
      CountConcat(s, t', c, k);
      assert (s + t)[..|s + t| - 1] == s + t';
      assert (s + t)[|s + t| - 1] == t[|t| - 1];
    }
  }

  /** A write changes the count by the difference between the new and the replaced piece. */
  lemma {:induction false} CountAfterSet(f: File, i: int, p: Piece, c: Color, k: Kind)
    requires f.Valid() && 0 <= i < f.Size()
    ensures GetNumberOf(Set(f, i, p).value.0, c, k)
         == GetNumberOf(f, c, k)
            - (if Matches(f.pieces[i], c, k) then 1 else 0)
            + (if Matches(p, c, k) then 1 else 0)
  {
    var s := f.pieces;
    var s' := Set(f, i, p).value.0.pieces;
    assert s == s[..i] + [s[i]] + s[i + 1..];
    assert s' == s[..i] + [p] + s[i + 1..];
    CountConcat(s[..i] + [s[i]], s[i + 1..], c, k);
    CountConcat(s[..i], [s[i]], c, k);
    CountConcat(s[..i] + [p], s[i + 1..], c, k);
    CountConcat(s[..i], [p], c, k);
    assert [s[i]][..0] == [] && [p][..0] == [];
  }

  /** Filling a row that is already full changes nothing. */
  lemma FillFullIsNoop(f: File, p: Piece)
    requires f.Valid() && f.Size() == Capacity
    ensures FillWith(f, p) == f
  {
    assert FillWith(f, p).pieces == f.pieces + [];
  }

  /** Pawn filling is idempotent: a second fill, of any colour, leaves the row as the first left it. */
  lemma FillWithPawnIdempotent(f: File, c: Color, c': Color)
    requires f.Valid()
    ensures FillWithPawn(FillWithPawn(f, c), c') == FillWithPawn(f, c)
  {
    FillFullIsNoop(FillWithPawn(f, c), Piece(c', Pawn));
  }

  /** Blank filling is idempotent. */
  lemma FillWithBlankIdempotent(f: File)
    requires f.Valid()
    ensures FillWithBlank(FillWithBlank(f)) == FillWithBlank(f)
  {
    FillFullIsNoop(FillWithBlank(f), Blank);
  }

  /** A run of one piece counts in full when the piece matches, and not at all otherwise. */
  lemma {:induction false} CountRepeat(p: Piece, n: nat, c: Color, k: Kind)
    ensures CountMatching(Repeat(p, n), c, k) == if Matches(p, c, k) then n else 0
  {
    if n > 0 {
      CountRepeat(p, n - 1, c, k);
      assert Repeat(p, n)[..n - 1] == Repeat(p, n - 1);
    }
  }

  /** Filling adds one count per appended slot when the fill piece matches, and nothing otherwise. */
  lemma CountAfterFill(f: File, p: Piece, c: Color, k: Kind)
    requires f.Valid()
    ensures CountMatching(FillWith(f, p).pieces, c, k)
         == CountMatching(f.pieces, c, k) + (if Matches(p, c, k) then Capacity - f.Size() else 0)
  {
    assert FillWith(f, p).pieces == f.pieces + Repeat(p, Capacity - f.Size());
    CountConcat(f.pieces, Repeat(p, Capacity - f.Size()), c, k);
    CountRepeat(p, Capacity - f.Size(), c, k);
  }

  /** A pawn-filled empty row holds eight pawns of colour `c` and no pawn of the other colour. */
  lemma PawnFilledRow(f: File, c: Color, other: Color)
    requires f.Valid() && f.Size() == 0 && other != c
    ensures forall i :: 0 <= i < Capacity ==> FillWithPawn(f, c).pieces[i].color == c
    ensures GetNumberOf(FillWithPawn(f, c), c, Pawn) == Capacity
    ensures GetNumberOf(FillWithPawn(f, c), other, Pawn) == 0
  {
    CountAfterFill(f, Piece(c, Pawn), c, Pawn);
    CountAfterFill(f, Piece(c, Pawn), other, Pawn);
  }

  /** Up to eight appends to an empty row all succeed and the row holds them in order. */
  lemma AppendsFromEmpty(ps: seq<Piece>)
    requires |ps| <= Capacity
    ensures AddChain(Empty(), ps) == Completed(File(ps))
    ensures AddChain(Empty(), ps).row.Size() == |ps|
  {
    assert Empty().pieces + ps == ps;
  }

  /** The ninth append to an empty row is refused, after the first eight went in. */
  lemma NinthAppendFails(p: Piece)
    ensures AddChain(Empty(), Repeat(p, Capacity + 1)) == Aborted(File(Repeat(p, Capacity)), CapacityExceeded(Capacity))
  {
    var r := AddChain(Empty(), Repeat(p, Capacity + 1));
    assert r.row.pieces == Repeat(p, Capacity);
  }

  /** A row stays addable after one to seven appends and stops being addable at the eighth. */
  lemma IsAddableAfterAppends(p: Piece, n: nat)
    requires 1 <= n <= Capacity
    ensures AddChain(Empty(), Repeat(p, n)).Completed?
    ensures AddChain(Empty(), Repeat(p, n)).row.IsAddable() <==> n < Capacity
  {
  }

  /** The piece factory's back rank of colour `c`, written out. */
  lemma RoyalIsBackRank(c: Color)
    ensures Royal(c) == [Piece(c, Rook), Piece(c, Knight), Piece(c, Bishop), Piece(c, Queen),
                         Piece(c, King), Piece(c, Bishop), Piece(c, Knight), Piece(c, Rook)]
  {
  }

  /** On an empty row the royal fill yields the back rank R N B Q K B N R of colour `c`. */
  lemma RoyalOnEmpty(c: Color)
    ensures FillWithRoyal(Empty(), c).Completed?
    ensures FillWithRoyal(Empty(), c).row.pieces
         == [Piece(c, Rook), Piece(c, Knight), Piece(c, Bishop), Piece(c, Queen),
             Piece(c, King), Piece(c, Bishop), Piece(c, Knight), Piece(c, Rook)]
  {
    assert FillWithRoyal(Empty(), c) == AddChain(Empty(), Royal(c));
    assert Empty().pieces + Royal(c) == Royal(c);
    RoyalIsBackRank(c);
  }
}
