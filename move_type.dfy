/** Move-kind fragments of a move token (crates/ci-png-parser/src/move_type.rs). */
module PngMoveType {
  import opened Wrappers
  import opened Pieces
  import opened Games

  datatype UnknownMoveTypeError = UnknownMoveTypeError

  /** The fragments `PNGMoveType::from_str` knows, exactly as written. */
  const Fragments: set<string> := {"O-O-O", "O-O", "x", "=Q", "=N", "=B", "=R"}

  /** `PNGMoveType::from_str`: exact match against the castling, capture and
      promotion fragments. */
  function FromStr(s: string): (r: Result<MoveType, UnknownMoveTypeError>)
    ensures r.Ok? <==> s in Fragments
    ensures r.Ok? ==> !r.value.Move? && !r.value.EnPassantCapture?
    ensures r.Ok? && r.value.Promotion? ==> r.value.to in {Queen, Knight, Bishop, Rook}
  {
    match s
    case "O-O-O" => Ok(Castle(Queenside))
    case "O-O" => Ok(Castle(Kingside))
    case "x" => Ok(Capture)
    case "=Q" => Ok(Promotion(Queen))
    case "=N" => Ok(Promotion(Knight))
    case "=B" => Ok(Promotion(Bishop))
    case "=R" => Ok(Promotion(Rook))
    case _ => Err(UnknownMoveTypeError)
  }

  /** The fragment that denotes a move kind, when there is one. */
  function Fragment(t: MoveType): (r: Option<string>)
  {
    match t
    case Castle(Queenside) => Some("O-O-O")
    case Castle(Kingside) => Some("O-O")
    case Capture => Some("x")
    case Promotion(Queen) => Some("=Q")
    case Promotion(Knight) => Some("=N")
    case Promotion(Bishop) => Some("=B")
    case Promotion(Rook) => Some("=R")
    case _ => None
  }

  /** `from_str` and `Fragment` are inverse: each fragment is decoded to the one
      kind it denotes, and each kind with a fragment is decoded from it. */
  lemma FragmentRoundTrip(s: string, t: MoveType)
    ensures FromStr(s).Ok? ==> Fragment(FromStr(s).value) == Some(s)
    ensures Fragment(t).Some? ==> FromStr(Fragment(t).value) == Ok(t)
  {
  }

  /** The two castling fragments are told apart; king and pawn promotions and the
      en passant suffix are refused. */
  lemma Examples()
    ensures FromStr("O-O-O") == Ok(Castle(Queenside)) && FromStr("O-O") == Ok(Castle(Kingside))
    ensures FromStr("=K").Err? && FromStr("=P").Err? && FromStr("e.p.").Err? && FromStr("").Err?
  {
  }
}
