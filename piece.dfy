/** The six kinds of chess piece (src/lib/piece.rs). */
module Pieces {

  datatype Piece = King | Queen | Rook | Bishop | Knight | Pawn
}
