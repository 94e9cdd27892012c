/** Piece letters of a move token (crates/ci-png-parser/src/piece.rs). */
module PngPiece {
  import opened Wrappers
  import opened Pieces

  /** `struct PNGPiece(Piece)` */
  datatype PngPiece = PngPiece(piece: Piece)

  /** `PNGPiece::get`: the wrapped piece. */
  function Get(p: PngPiece): (r: Piece)
    ensures PngPiece(r) == p
  {
    p.piece
  }

  /** `PNGPiece::from_str`: P, N, B, R, Q and K name their piece; any other text,
      the empty text included, is read as a pawn, since SAN omits the pawn's
      letter. The error type exists but is never produced. */
  function FromStr(s: string): (r: Result<PngPiece, string>)
    ensures r.Ok?
    ensures r.value.piece == King <==> s == "K"
    ensures r.value.piece == Queen <==> s == "Q"
    ensures r.value.piece == Rook <==> s == "R"
    ensures r.value.piece == Bishop <==> s == "B"
    ensures r.value.piece == Knight <==> s == "N"
    ensures r.value.piece == Pawn <==> s !in {"K", "Q", "R", "B", "N"}
  {
    match s
    case "P" => Ok(PngPiece(Pawn))
    case "N" => Ok(PngPiece(Knight))
    case "B" => Ok(PngPiece(Bishop))
    case "R" => Ok(PngPiece(Rook))
    case "Q" => Ok(PngPiece(Queen))
    case "K" => Ok(PngPiece(King))
    case _ => Ok(PngPiece(Pawn))
  }

  /** The SAN letter of a piece. */
  function Letter(p: Piece): (s: string)
    ensures |s| == 1
  {
    match p
    case King => "K"
    case Queen => "Q"
    case Rook => "R"
    case Bishop => "B"
    case Knight => "N"
    case Pawn => "P"
  }

  /** Every piece is read back from its letter. */
  lemma LetterRoundTrip(p: Piece)
    ensures Get(FromStr(Letter(p)).value) == p
  {
  }
}
