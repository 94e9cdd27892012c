/** Decoding one move token (crates/ci-png-parser/src/png_move.rs). Only a bare
    destination with an optional piece letter is decoded; every other token,
    captures, checks, castling and promotions included, gives `None`. */
module PngMove {
  import opened Wrappers
  import opened Pieces
  import opened Games
  import Files
  import Ranks
  import PngPiece

  predicate IsPieceLetter(c: char)
  {
    c in "KQRBNP"
  }

  predicate IsFileLetter(c: char)
  {
    'a' <= c <= 'h'
  }

  predicate IsRankDigit(c: char)
  {
    '1' <= c <= '8'
  }

  /** The whole token matches `^([KQRBNP])?([a-h])([1-8])$`. */
  predicate IsSimpleToken(s: string)
  {
    || (|s| == 2 && IsFileLetter(s[0]) && IsRankDigit(s[1]))
    || (|s| == 3 && IsPieceLetter(s[0]) && IsFileLetter(s[1]) && IsRankDigit(s[2]))
  }

  /** The three capture groups of that pattern, an absent piece group read as "". */
  function Captures(s: string): (r: Option<(string, string, string)>)
    ensures r.Some? <==> IsSimpleToken(s)
    ensures r.Some? ==> r.value.0 + r.value.1 + r.value.2 == s && |r.value.1| == 1 && |r.value.2| == 1
  {
    if |s| == 2 && IsFileLetter(s[0]) && IsRankDigit(s[1]) then Some(("", s[0..1], s[1..2]))
    else if |s| == 3 && IsPieceLetter(s[0]) && IsFileLetter(s[1]) && IsRankDigit(s[2]) then Some((s[0..1], s[1..2], s[2..3]))
    else None
  }

  /** `PNGMove::from_notation`. */
  function FromNotation(notation: string, turn: Player): (r: Option<Games.Move>)
    ensures r.Some? <==> IsSimpleToken(notation)
    ensures r.Some? ==> r.value.turn == turn && r.value.origin == None && r.value.moveType == MoveType.Move && r.value.result == None
    ensures r.Some? ==>
      && r.value.destination.Some?
      && Files.ToIndex(r.value.destination.value.0) == notation[|notation| - 2] as int - 'a' as int
      && Ranks.ToIndex(r.value.destination.value.1) == notation[|notation| - 1] as int - '1' as int
    ensures r.Some? && |notation| == 2 ==> r.value.piece == Pawn
    ensures r.Some? && |notation| == 3 ==> PngPiece.Letter(r.value.piece) == notation[..1]
  {
    match Captures(notation)
    case None => None
    case Some((piece, file, rank)) =>
      Files.FromLetter(file);
      Ranks.FromDigit(rank);
      Some(Move.Move(
        PngPiece.Get(PngPiece.FromStr(piece).value),
        turn,
        None,
        Some((Files.FromStr(file).value, Ranks.FromStr(rank).value)),
        MoveType.Move,
        None))
  }

  /** Only tokens of two or three characters are decoded, so any token carrying a
      capture, check, mate, promotion, castling or en passant mark is refused. */
  lemma MarkedTokensRefused(notation: string, turn: Player, k: nat)
    requires k < |notation| && notation[k] in "x+#=O.- "
    ensures FromNotation(notation, turn) == None
  {
    assert !IsSimpleToken(notation) by {
      var c := notation[k];
      assert c == 'x' || c == '+' || c == '#' || c == '=' || c == 'O' || c == '.' || c == '-' || c == ' ';
      assert !IsPieceLetter(c) && !IsFileLetter(c) && !IsRankDigit(c);
    }
  }

  /** The pawn example of the unit test: "e4" is a pawn move to e4. */
  lemma PawnExample(s: string)
    requires s == "e4"
    ensures FromNotation(s, White)
      == Some(Move.Move(Pawn, White, None, Some((Files.E, Ranks.Four)), MoveType.Move, None))
  {
    assert s[0..1] == "e" && s[1..2] == "4";
    assert Files.FromStr("e") == Some(Files.E) by { assert Files.Lowercase("e") == "e"; }
  }

  /** The piece example of the unit test: "Re6" is a rook move to e6. */
  lemma PieceExample(s: string)
    requires s == "Re6"
    ensures FromNotation(s, White)
      == Some(Move.Move(Rook, White, None, Some((Files.E, Ranks.Six)), MoveType.Move, None))
  {
    assert s[0..1] == "R" && s[1..2] == "e" && s[2..3] == "6";
    assert Files.FromStr("e") == Some(Files.E) by { assert Files.Lowercase("e") == "e"; }
  }

  /** The examples of the same unit test that the code refuses. */
  lemma RefusedExamples()
    ensures FromNotation("exd5", White) == None && FromNotation("Rdf8", White) == None
    ensures FromNotation("exd6 e.p", White) == None && FromNotation("O-O", White) == None
    ensures FromNotation("O-O-O", White) == None && FromNotation("Rxe1+", White) == None
    ensures FromNotation("e8=Q", White) == None && FromNotation("Kxe4#", White) == None
  {
    MarkedTokensRefused("exd5", White, 1);
    MarkedTokensRefused("exd6 e.p", White, 1);
    MarkedTokensRefused("O-O", White, 0);
    MarkedTokensRefused("O-O-O", White, 0);
    MarkedTokensRefused("Rxe1+", White, 1);
    MarkedTokensRefused("e8=Q", White, 2);
    MarkedTokensRefused("Kxe4#", White, 1);
  }
}
