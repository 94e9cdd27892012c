/** The game record types of crates/ci-core/src/game.rs. The older
    src/lib/game.rs declares the same `GameResult`. */
module Games {
  import opened Wrappers
  import opened Pieces
  import Files
  import Ranks

  datatype GameResult = WhiteWins | BlackWins | Draw | Unknown

  datatype Player = White | Black

  datatype CastleType = Kingside | Queenside

  datatype MoveType = Castle(side: CastleType) | Capture | EnPassantCapture | Promotion(to: Piece) | Move

  datatype MoveResult = Check | Checkmate

  /** One decoded half-move; `origin` is the disambiguation hint. */
  datatype Move = Move(
    piece: Piece,
    turn: Player,
    origin: Option<(Option<Files.File>, Option<Ranks.Rank>)>,
    destination: Option<(Files.File, Ranks.Rank)>,
    moveType: MoveType,
    result: Option<MoveResult>)

  datatype Game = Game(moves: seq<Move>, tags: map<string, string>, result: GameResult)
}
