/** The board snapshot of src/lib/board.rs: 64 cells, each empty or holding a piece
    of one colour, indexed by the square's byte (A1 = 0, H8 = 63). */
module Boards {
  import opened Wrappers
  import opened Pieces
  import Squares

  datatype Color = White | Black

  type Cell = Option<(Piece, Color)>

  /** One entry of the list given to `with_pieces`. */
  type Placement = (Squares.Square, Piece, Color)

  /** What writing `pieces` in order into an empty board leaves at index `i`:
      the piece of the last entry naming `i`, or nothing. */
  function LastAt(pieces: seq<Placement>, i: nat): Cell
  {
    if pieces == [] then None
    else
      var p := pieces[|pieces| - 1];
      if Squares.ToIndex(p.0) == i then Some((p.1, p.2)) else LastAt(pieces[..|pieces| - 1], i)
  }

  /** One more entry decides the cell it names and leaves the others alone. */
  lemma LastAtStep(pieces: seq<Placement>, k: nat, i: nat)
    requires k < |pieces|
    ensures LastAt(pieces[..k + 1], i) ==
      if Squares.ToIndex(pieces[k].0) == i then Some((pieces[k].1, pieces[k].2)) else LastAt(pieces[..k], i)
  {
    assert pieces[..k + 1][..k] == pieces[..k];
  }

  /** The 64 cells `with_pieces` builds from `pieces`. */
  function Layout(pieces: seq<Placement>): (cells: seq<Cell>)
    ensures |cells| == 64
  {
    seq(64, i requires 0 <= i < 64 => LastAt(pieces, i))
  }

  /** `Board { squares: [Option<(Piece, Color)>; 64] }` */
  class Board {
    var squares: array<Cell>

    ghost predicate Valid()
      reads this
    {
      squares.Length == 64
    }

    /** `Board::new`: every cell empty. */
    constructor ()
      ensures Valid() && fresh(squares)
      ensures forall i :: 0 <= i < 64 ==> squares[i] == None
    {
      squares := new Cell[64](_ => None);
    }
  }

  /** The outcome of `with_pieces`: the board, or the out-of-range index at which
      the first failing array write panics. */
  datatype Built = Built(board: Board) | IndexOutOfBounds(index: nat)

  /** Entry `k` is the first whose square lies outside the 64 cells. */
  predicate FirstOutOfRange(pieces: seq<Placement>, k: int)
  {
    0 <= k < |pieces| && Squares.ToIndex(pieces[k].0) >= 64
    && forall j :: 0 <= j < k ==> Squares.ToIndex(pieces[j].0) < 64
  }

  /** `Board::with_pieces`: start from `Board::new` and write each entry's piece at
      its square's index, in list order. */
  method WithPieces(pieces: seq<Placement>) returns (r: Built)
    ensures r.Built? <==> forall k :: 0 <= k < |pieces| ==> Squares.ToIndex(pieces[k].0) < 64
    ensures r.IndexOutOfBounds? ==> exists k :: FirstOutOfRange(pieces, k) && Squares.ToIndex(pieces[k].0) == r.index
    ensures r.Built? ==> r.board.Valid() && fresh(r.board) && fresh(r.board.squares)
    ensures r.Built? ==> r.board.squares[..] == Layout(pieces)
  {
    var board := new Board();
    var k := 0;
    while k < |pieces|
      invariant 0 <= k <= |pieces|
      invariant board.Valid() && fresh(board.squares)
      invariant forall j :: 0 <= j < k ==> Squares.ToIndex(pieces[j].0) < 64
      invariant forall i :: 0 <= i < 64 ==> board.squares[i] == LastAt(pieces[..k], i)
      modifies board.squares
    {
      var index := Squares.ToIndex(pieces[k].0);
      if index >= 64 {
        assert FirstOutOfRange(pieces, k);
        return IndexOutOfBounds(index);
      }
      board.squares[index] := Some((pieces[k].1, pieces[k].2));
      forall i | 0 <= i < 64
        ensures board.squares[i] == LastAt(pieces[..k + 1], i)
      {
        LastAtStep(pieces, k, i);
      }
      k := k + 1;
    }
    assert pieces[..k] == pieces;
    return Built(board);
  }

  /** The entry list of `Board::default`, written as its four rows of eight. */
  const StartingPieces: seq<Placement> := WhiteBackRow + WhitePawnRow + BlackPawnRow + BlackBackRow

  const WhiteBackRow: seq<Placement> := [
    (Squares.A1, Rook, White), (Squares.B1, Knight, White), (Squares.C1, Bishop, White), (Squares.D1, Queen, White), (Squares.E1, King, White), (Squares.F1, Bishop, White), (Squares.G1, Knight, White), (Squares.H1, Rook, White)
  ]
  const WhitePawnRow: seq<Placement> := [
    (Squares.A2, Pawn, White), (Squares.B2, Pawn, White), (Squares.C2, Pawn, White), (Squares.D2, Pawn, White), (Squares.E2, Pawn, White), (Squares.F2, Pawn, White), (Squares.G2, Pawn, White), (Squares.H2, Pawn, White)
  ]
  const BlackPawnRow: seq<Placement> := [
    (Squares.A7, Pawn, Black), (Squares.B7, Pawn, Black), (Squares.C7, Pawn, Black), (Squares.D7, Pawn, Black), (Squares.E7, Pawn, Black), (Squares.F7, Pawn, Black), (Squares.G7, Pawn, Black), (Squares.H7, Pawn, Black)
  ]
  const BlackBackRow: seq<Placement> := [
    (Squares.A8, Rook, Black), (Squares.B8, Knight, Black), (Squares.C8, Bishop, Black), (Squares.D8, Queen, Black), (Squares.E8, King, Black), (Squares.F8, Bishop, Black), (Squares.G8, Knight, Black), (Squares.H8, Rook, Black)
  ]

  const BackRank: seq<Piece> := [Rook, Knight, Bishop, Queen, King, Bishop, Knight, Rook]

  /** The opening position, cell by cell: White's back rank and pawns on 0 to 15,
      Black's pawns and back rank on 48 to 63, nothing in between. */
  function StartingCell(i: nat): Cell
    requires i < 64
  {
    if i < 8 then Some((BackRank[i], White))
    else if i < 16 then Some((Pawn, White))
    else if i < 48 then None
    else if i < 56 then Some((Pawn, Black))
    else Some((BackRank[i - 56], Black))
  }

  /** `Board::default`: `with_pieces` over the opening list. */
  method Default() returns (b: Board)
    ensures b.Valid() && fresh(b) && fresh(b.squares)
    ensures b.squares[..] == Layout(StartingPieces)
    ensures forall i :: 0 <= i < 64 ==> b.squares[i] == StartingCell(i)
  {
    StartingLayout();
    var r := WithPieces(StartingPieces);
    b := r.board;
  }

  /** The number of occupied cells. */
  function Occupied(cells: seq<Cell>): (n: nat)
    ensures n <= |cells|
  {
    if cells == [] then 0
    else Occupied(cells[..|cells| - 1]) + (if cells[|cells| - 1].Some? then 1 else 0)
  }

  /** The last entry naming a square decides its cell. */
  lemma {:induction false} LastAtLatest(pieces: seq<Placement>, k: nat, i: nat)
    requires k < |pieces| && Squares.ToIndex(pieces[k].0) == i
    requires forall j :: k < j < |pieces| ==> Squares.ToIndex(pieces[j].0) != i
    ensures LastAt(pieces, i) == Some((pieces[k].1, pieces[k].2))
  {
    if k < |pieces| - 1 {
      LastAtLatest(pieces[..|pieces| - 1], k, i);
    }
  }

  /** A square that no entry names stays empty. */
  lemma {:induction false} LastAtUnnamed(pieces: seq<Placement>, i: nat)
    requires forall j :: 0 <= j < |pieces| ==> Squares.ToIndex(pieces[j].0) != i
    ensures LastAt(pieces, i) == None
  {
    if pieces != [] {
      LastAtUnnamed(pieces[..|pieces| - 1], i);
    }
  }

  /** `with_pieces` leaves exactly the named squares occupied, each with the piece of
      the last entry naming it. */
  lemma WithPiecesCells(pieces: seq<Placement>, i: nat)
    requires i < 64
    ensures Layout(pieces)[i].Some? <==> exists k :: 0 <= k < |pieces| && Squares.ToIndex(pieces[k].0) == i
    ensures Layout(pieces)[i].Some? ==>
      exists k :: 0 <= k < |pieces| && Squares.ToIndex(pieces[k].0) == i && Layout(pieces)[i] == Some((pieces[k].1, pieces[k].2))
  {
    if k :| 0 <= k < |pieces| && Squares.ToIndex(pieces[k].0) == i {
      var last := LastNaming(pieces, k, i);
      LastAtLatest(pieces, last, i);
    } else {
      LastAtUnnamed(pieces, i);
    }
  }

  /** The index of the last entry naming `i`, given one at `k`. */
  lemma {:induction false} LastNaming(pieces: seq<Placement>, k: nat, i: nat) returns (last: nat)
    requires k < |pieces| && Squares.ToIndex(pieces[k].0) == i
    ensures k <= last < |pieces| && Squares.ToIndex(pieces[last].0) == i
    ensures forall j :: last < j < |pieces| ==> Squares.ToIndex(pieces[j].0) != i
    decreases |pieces| - k
  {
    if exists j :: k < j < |pieces| && Squares.ToIndex(pieces[j].0) == i {
      var j :| k < j < |pieces| && Squares.ToIndex(pieces[j].0) == i;
      last := LastNaming(pieces, j, i);
    } else {
      last := k;
    }
  }

  /** Entry `k` of the opening list: its square's index (A1 to H2, then A7 to H8) and
      the piece the reference position has there. */
  function StartingPlacement(k: nat): (p: (nat, Cell))
    requires k < 32
  {
    var i := if k < 16 then k else k + 32;
    (i, StartingCell(i))
  }

  lemma StartingRows()
    ensures |StartingPieces| == 32
    ensures forall k :: 0 <= k < 32 ==>
      (Squares.ToIndex(StartingPieces[k].0), Some((StartingPieces[k].1, StartingPieces[k].2))) == StartingPlacement(k)
  {
    WhiteBackRowEntries();
    WhitePawnRowEntries();
    BlackPawnRowEntries();
    BlackBackRowEntries();
    var ps := StartingPieces;
    assert forall k :: 0 <= k < 8 ==> ps[k] == WhiteBackRow[k];
    assert forall k :: 8 <= k < 16 ==> ps[k] == WhitePawnRow[k - 8];
    assert forall k :: 16 <= k < 24 ==> ps[k] == BlackPawnRow[k - 16];
    assert forall k :: 24 <= k < 32 ==> ps[k] == BlackBackRow[k - 24];
  }

  lemma WhiteBackRowEntries()
    ensures |WhiteBackRow| == 8
    ensures forall k :: 0 <= k < 8 ==> WhiteBackRow[k] == (Squares.Square(k), BackRank[k], White)
  {
  }

  lemma WhitePawnRowEntries()
    ensures |WhitePawnRow| == 8
    ensures forall k :: 0 <= k < 8 ==> WhitePawnRow[k] == (Squares.Square(8 + k), Pawn, White)
  {
  }

  lemma BlackPawnRowEntries()
    ensures |BlackPawnRow| == 8
    ensures forall k :: 0 <= k < 8 ==> BlackPawnRow[k] == (Squares.Square(48 + k), Pawn, Black)
  {
  }

  lemma BlackBackRowEntries()
    ensures |BlackBackRow| == 8
    ensures forall k :: 0 <= k < 8 ==> BlackBackRow[k] == (Squares.Square(56 + k), BackRank[k], Black)
  {
  }

  /** The opening list puts the reference position on the board. */
  lemma StartingLayout()
    ensures forall i :: 0 <= i < 64 ==> Layout(StartingPieces)[i] == StartingCell(i)
    ensures forall k :: 0 <= k < |StartingPieces| ==> Squares.ToIndex(StartingPieces[k].0) < 64
  {
    StartingRows();
    forall i | 0 <= i < 64
      ensures Layout(StartingPieces)[i] == StartingCell(i)
    {
      if i < 16 {
        LastAtLatest(StartingPieces, i, i);
      } else if i < 48 {
        LastAtUnnamed(StartingPieces, i);
      } else {
        LastAtLatest(StartingPieces, i - 32, i);
      }
    }
  }

  /** The opening position as the unit of `Board::default` promises it. */
  lemma StartingPosition()
    ensures forall i :: 0 <= i < 16 ==> Layout(StartingPieces)[i].Some? && Layout(StartingPieces)[i].value.1 == White
    ensures forall i :: 48 <= i < 64 ==> Layout(StartingPieces)[i].Some? && Layout(StartingPieces)[i].value.1 == Black
    ensures forall i :: 16 <= i < 48 ==> Layout(StartingPieces)[i] == None
    ensures forall i :: 8 <= i < 16 || 48 <= i < 56 ==> Layout(StartingPieces)[i].Some? && Layout(StartingPieces)[i].value.0 == Pawn
    ensures forall i :: 0 <= i < 8 ==> Layout(StartingPieces)[i].Some? && Layout(StartingPieces)[i].value.0 == BackRank[i]
    ensures forall i :: 56 <= i < 64 ==> Layout(StartingPieces)[i].Some? && Layout(StartingPieces)[i].value.0 == BackRank[i - 56]
    ensures Occupied(Layout(StartingPieces)) == 32
  {
    StartingLayout();
    var cells := Layout(StartingPieces);
    OccupiedRange(cells, 0, 16, true);
    OccupiedRange(cells, 16, 48, false);
    OccupiedRange(cells, 48, 64, true);
    OccupiedSplit(cells[..48], 16);
    OccupiedSplit(cells, 48);
    assert cells[..48][..16] == cells[..16] && cells[..48][16..] == cells[16..48];
    assert cells[..64] == cells;
  }

  lemma {:induction false} OccupiedSplit(cells: seq<Cell>, n: nat)
    requires n <= |cells|
    ensures Occupied(cells) == Occupied(cells[..n]) + Occupied(cells[n..])
    decreases |cells|
  {
    if |cells| > n {
      var init := cells[..|cells| - 1];
      OccupiedSplit(init, n);
      assert init[..n] == cells[..n];
      assert init[n..] == cells[n..][..|cells[n..]| - 1];
    } else {
      assert cells[..n] == cells;
    }
  }

  lemma {:induction false} OccupiedRange(cells: seq<Cell>, lo: nat, hi: nat, full: bool)
    requires lo <= hi <= |cells|
    requires forall i :: lo <= i < hi ==> cells[i].Some? == full
    ensures Occupied(cells[lo..hi]) == if full then hi - lo else 0
    decreases hi - lo
  {
    if lo < hi {
      OccupiedRange(cells, lo, hi - 1, full);
      assert cells[lo..hi][..hi - 1 - lo] == cells[lo..hi - 1];
    }
  }
}
