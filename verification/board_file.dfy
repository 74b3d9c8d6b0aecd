/**
 One row of the board: a growable list of pieces capped at eight entries.
 Slot `i` is the square on file letter 'a' + i, so the index is a file-letter
 index in 0..7. The container is mutable in the program; here every operation
 is a pure function from the row before to the row after.
 */
module BoardFile {
  import opened Pieces
  import opened Results

  /** Number of squares in one row. */
  const Capacity: nat := 8

  datatype File = File(pieces: seq<Piece>) {

    /** The capacity invariant every reachable row keeps. */
    predicate Valid() {
      |pieces| <= Capacity
    }

    /** Number of populated slots; never more than the capacity on a valid row. */
    function Size(): (n: nat)
      ensures Valid() ==> n <= Capacity
    {
      |pieces|
    }

    /** Whether one more piece may be appended: only on a valid row, and there exactly when it is not full. */
    function IsAddable(): (b: bool)
      ensures b ==> Valid()
      ensures Valid() ==> (b <==> Size() != Capacity)
    {
      Size() < Capacity
    }
  }

  /** A freshly constructed row: valid, addable, and with no slot that can be read. */
  function Empty(): (r: File)
    ensures r.Valid() && r.Size() == 0 && r.IsAddable()
    ensures forall i :: Get(r, i).Err?
  {
    File([])
  }

  /**
   The outcome of a chain of appends on one mutable row: either every append
   went through, or one failed and the row keeps the appends done before it.
   */
  datatype Chained = Completed(row: File) | Aborted(row: File, error: Error)

  /** Appends one piece at the end of the row, refusing when the row is full. */
  function Add(f: File, p: Piece): (r: Result<File>)
    requires f.Valid()
    ensures r.Ok? <==> f.Size() < Capacity
    ensures r.Ok? ==> r.value.Valid() && r.value.Size() == f.Size() + 1
    ensures r.Ok? ==> r.value.pieces[..f.Size()] == f.pieces && r.value.pieces[f.Size()] == p
    ensures r.Err? ==> r.error == CapacityExceeded(Capacity)
  {
    if !f.IsAddable() then Err(CapacityExceeded(Capacity))
    else Ok(File(f.pieces + [p]))
  }

  /** Reads slot `i`; any index outside the populated slots is an error. */
  function Get(f: File, i: int): (r: Result<Piece>)
    ensures r.Ok? <==> 0 <= i < f.Size()
    ensures r.Ok? ==> r.value == f.pieces[i]
    ensures r.Err? ==> r.error == IndexOutOfBounds(i, f.Size())
  {
    if 0 <= i < |f.pieces| then Ok(f.pieces[i]) else Err(IndexOutOfBounds(i, |f.pieces|))
  }

  /**
   Replaces slot `i` and returns the row after the write together with the
   piece that was there; any index outside the populated slots is an error.
   */
  function Set(f: File, i: int, p: Piece): (r: Result<(File, Piece)>)
    requires f.Valid()
    ensures r.Ok? <==> 0 <= i < f.Size()
    ensures r.Ok? ==> r.value.0.Valid() && r.value.0.Size() == f.Size()
    ensures r.Ok? ==> r.value.0.pieces[i] == p && r.value.1 == f.pieces[i]
    ensures r.Ok? ==> forall j :: 0 <= j < f.Size() && j != i ==> r.value.0.pieces[j] == f.pieces[j]
    ensures r.Err? ==> r.error == IndexOutOfBounds(i, f.Size())
  {
    if 0 <= i < |f.pieces| then Ok((File(f.pieces[i := p]), f.pieces[i]))
    else Err(IndexOutOfBounds(i, |f.pieces|))
  }

  /** Number of slots of `s` holding a piece of colour `c` and kind `k`. */
  function CountMatching(s: seq<Piece>, c: Color, k: Kind): (n: nat)
    ensures n <= |s|
    decreases |s|
  {
    if s == [] then 0
    else CountMatching(s[..|s| - 1], c, k) + (if Matches(s[|s| - 1], c, k) then 1 else 0)
  }

  /** The count is the full length exactly when every slot matches, and zero exactly when none does. */
  lemma {:induction false} CountAllOrNone(s: seq<Piece>, c: Color, k: Kind)
    ensures CountMatching(s, c, k) == |s| <==> forall i :: 0 <= i < |s| ==> Matches(s[i], c, k)
    ensures CountMatching(s, c, k) == 0 <==> forall i :: 0 <= i < |s| ==> !Matches(s[i], c, k)
    decreases |s|
  {
    if s != [] {
      var init := s[..|s| - 1];
      CountAllOrNone(init, c, k);
      assert forall i :: 0 <= i < |init| ==> init[i] == s[i];
    }
  }

  /** The indices of the slots of `s` that answer a colour and kind query. */
  ghost function MatchingSlots(s: seq<Piece>, c: Color, k: Kind): set<int> {
    set i | 0 <= i < |s| && Matches(s[i], c, k)
  }

  /** The matching slots of `s` are those of its prefix, plus its last index if that slot matches. */
  lemma MatchingSlotsOfPrefix(s: seq<Piece>, c: Color, k: Kind)
    requires s != []
    ensures MatchingSlots(s, c, k)
         == MatchingSlots(s[..|s| - 1], c, k) + (if Matches(s[|s| - 1], c, k) then {|s| - 1} else {})
  {
    var init := s[..|s| - 1];
    var extra: set<int> := if Matches(s[|s| - 1], c, k) then {|s| - 1} else {};
    forall i | i in MatchingSlots(s, c, k)
      ensures i in MatchingSlots(init, c, k) + extra
    {
      if i < |init| {
        assert init[i] == s[i];
      }
    }
  }

  /** Counting slot by slot gives the size of the set of matching slots. */
  lemma {:induction false} CountIsMatchingSlots(s: seq<Piece>, c: Color, k: Kind)
    ensures CountMatching(s, c, k) == |MatchingSlots(s, c, k)|
    decreases |s|
  {
    if s != [] {
      var init := s[..|s| - 1];
      CountIsMatchingSlots(init, c, k);
      MatchingSlotsOfPrefix(s, c, k);
      assert |s| - 1 !in MatchingSlots(init, c, k);
    }
  }

  /** Counts the pieces of the row that have colour `c` and kind `k`. */
  function GetNumberOf(f: File, c: Color, k: Kind): (n: nat)
    ensures n <= f.Size()
    ensures n == |MatchingSlots(f.pieces, c, k)|
    ensures n == f.Size() <==> forall i :: 0 <= i < f.Size() ==> Matches(f.pieces[i], c, k)
    ensures n == 0 <==> forall i :: 0 <= i < f.Size() ==> !Matches(f.pieces[i], c, k)
  {
    CountIsMatchingSlots(f.pieces, c, k);
    CountAllOrNone(f.pieces, c, k);
    CountMatching(f.pieces, c, k)
  }

  /** Appends `p` while the row has room (the shared loop of the fill operations). */
  function FillWith(f: File, p: Piece): (r: File)
    requires f.Valid()
    ensures r.Valid() && r.Size() == Capacity
    ensures r.pieces == f.pieces + Repeat(p, Capacity - f.Size())
    decreases Capacity - f.Size()
  {
    if !f.IsAddable() then f
    else
      var g := Add(f, p).value;
      assert g.pieces == f.pieces + [p];
      assert [p] + Repeat(p, Capacity - g.Size()) == Repeat(p, Capacity - f.Size());
      FillWith(g, p)
  }

  /** Completes the row with pawns of colour `c`. */
  function FillWithPawn(f: File, c: Color): (r: File)
    requires f.Valid()
    ensures r.Valid() && r.Size() == Capacity
    ensures r.pieces[..f.Size()] == f.pieces
    ensures forall i :: f.Size() <= i < Capacity ==> r.pieces[i] == Piece(c, Pawn)
  {
    FillWith(f, Piece(c, Pawn))
  }

  /** Completes the row with blank squares. */
  function FillWithBlank(f: File): (r: File)
    requires f.Valid()
    ensures r.Valid() && r.Size() == Capacity
    ensures r.pieces[..f.Size()] == f.pieces
    ensures forall i :: f.Size() <= i < Capacity ==> r.pieces[i] == Blank
  {
    FillWith(f, Blank)
  }

  /**
   Appends the pieces of `ps` one at a time, as a chain of `Add` calls on the
   same row. The chain stops at the first refused append, and the appends done
   before it stay in the row.
   */
  function AddChain(f: File, ps: seq<Piece>): (r: Chained)
    requires f.Valid()
    ensures r.row.Valid()
    ensures r.Completed? <==> f.Size() + |ps| <= Capacity
    ensures r.Completed? ==> r.row.pieces == f.pieces + ps
    ensures r.Aborted? ==> r.row.pieces == f.pieces + ps[..Capacity - f.Size()]
    ensures r.Aborted? ==> r.error == CapacityExceeded(Capacity)
    decreases |ps|
  {
    if ps == [] then Completed(f)
    else
      match Add(f, ps[0])
      case Ok(g) =>
        var rest := ps[1..];
        assert g.pieces == f.pieces + [ps[0]];
        assert ps == [ps[0]] + rest;
        if f.Size() + |ps| <= Capacity then AddChain(g, rest)
        else
          assert ps[..Capacity - f.Size()] == [ps[0]] + rest[..Capacity - g.Size()];
          AddChain(g, rest)
      case Err(e) =>
        assert ps[..Capacity - f.Size()] == [];
        Aborted(f, e)
  }

  /**
   Appends the eight back-rank pieces of colour `c`, rook to rook. On an empty
   row this completes the row; on a row that already holds pieces the chain
   fills the row and then fails, and the pieces appended before the failure
   remain (the operation is not atomic).
   */
  function FillWithRoyal(f: File, c: Color): (r: Chained)
    requires f.Valid()
    ensures r.row.Valid() && r.row.Size() == Capacity
    ensures r.Completed? <==> f.Size() == 0
    ensures r.row.pieces[..f.Size()] == f.pieces
    ensures forall i :: f.Size() <= i < Capacity ==> r.row.pieces[i] == Piece(c, RoyalKinds[i - f.Size()])
    ensures r.Aborted? ==> r.error == CapacityExceeded(Capacity)
  {
    var royal := Royal(c);
    var r := AddChain(f, royal);
    ChainFillsRow(f, royal);
    forall i | f.Size() <= i < Capacity
      ensures r.row.pieces[i] == Piece(c, RoyalKinds[i - f.Size()])
    {
      assert r.row.pieces[i] == royal[i - f.Size()];
    }
    r
  }

  /** A chain of at least enough appends leaves a full row: the old slots, then the chain's pieces. */
  lemma ChainFillsRow(f: File, ps: seq<Piece>)
    requires f.Valid() && f.Size() + |ps| >= Capacity
    ensures AddChain(f, ps).row.Size() == Capacity
    ensures AddChain(f, ps).row.pieces[..f.Size()] == f.pieces
    ensures forall i :: f.Size() <= i < Capacity ==> AddChain(f, ps).row.pieces[i] == ps[i - f.Size()]
  {
    var r := AddChain(f, ps);
    var appended := ps[..Capacity - |f.pieces|];
    if r.Completed? {
      assert |ps| == Capacity - |f.pieces|;
      assert appended == ps;
    }
    assert r.row.pieces == f.pieces + appended;
    ConcatSlots(f.pieces, appended, r.row.pieces);
    forall i | f.Size() <= i < Capacity
      ensures r.row.pieces[i] == ps[i - f.Size()]
    {
      assert r.row.pieces[i] == appended[i - f.Size()];
    }
  }

  /** The slots of a concatenation: the first part, then the second part shifted by its length. */
  lemma ConcatSlots(a: seq<Piece>, b: seq<Piece>, s: seq<Piece>)
    requires s == a + b
    ensures |s| == |a| + |b| && s[..|a|] == a
    ensures forall i :: |a| <= i < |s| ==> s[i] == b[i - |a|]
  {
  }
}
