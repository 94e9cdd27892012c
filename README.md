# chess-interpreter: the notation layer in Dafny

This project models the part of chess-interpreter that reads chess game records
(PGN) and proves properties of that model. The model covers:

- **The coordinate types** of `ci-core`:
  - files a–h and ranks 1–8, with their conversions to and from indices 0–7 and
    one-character strings;
  - squares packed into one byte as `rank << 3 ^ file`, and the named squares
    A1 … H8.
  - The older copies of the file and rank types in `src/lib` are modelled too,
    and proved to agree with the newer ones.
- **The board snapshot** of `src/lib/board.rs`: a class over a 64-cell array.
  - `with_pieces` writes the listed squares in order.
  - `Board::default` builds the opening position.
- **The token layer** of `ci-png-parser`:
  - the piece-letter decoder, which falls back to a pawn;
  - the move-kind fragment decoder;
  - `PNGMove::from_notation`, which decodes only a bare destination with an
    optional piece letter.
- **The two record parsers.**
  - `src/lib/parser/pgn.rs`: `format` separates tag lines from move text;
    `parse_moves` reads the numbered move pairs; `parse_result` finds the result
    marker in the move text.
  - `PNGParser::parse` of `crates/ci-png-parser/src/lib.rs` reads the tags,
    decodes the move pairs of every game line and takes the result from the whole
    record.

The three regular expressions of the parsers are written out as scanners, and
their specifications are proved:

- `\[(.*?)\]`: a line that has a `[` with a `]` after it.
- `\d+.\s+\S+\s+\S+`: leftmost, non-overlapping matches, as `captures_iter` finds
  them, with the backtracking of `\d+` into the `.` written out.
- `1/2|1-0|0-1`: the leftmost marker.

Other library functions are modelled on `string` (a sequence of characters):

- `str::lines`, `split`, `split_whitespace`, `trim_start_matches`,
  `trim_end_matches` and `u16::from_str`;
- `HashMap::insert` becomes a Dafny `map`, where the last insert of a key wins.

Where the Rust code panics, the model returns an error value naming the cause:

- a tag line without a value;
- a move group with a missing field or a bad move number;
- a record without a result marker;
- a board square outside the array.

Modules follow the source files:

| module | source |
|---|---|
| `Files`, `Ranks`, `Squares`, `Bits` | `crates/ci-core/src/file.rs`, `rank.rs`, `square.rs` |
| `LegacyFiles`, `LegacyRanks` | `src/lib/file.rs`, `src/lib/rank.rs` |
| `Pieces`, `Games` | `src/lib/piece.rs`, `crates/ci-core/src/game.rs` |
| `Boards` | `src/lib/board.rs` |
| `PngPiece`, `PngMoveType`, `PngMove` | `crates/ci-png-parser/src/piece.rs`, `move_type.rs`, `png_move.rs` |
| `PgnText` | the text scanners both parsers share |
| `Pgn` | `src/lib/parser/pgn.rs` |
| `PngParser` | `crates/ci-png-parser/src/lib.rs` |

`Wrappers` holds `Option`, `Result` and `Position` (`iter().position`).

## Model

| member | source | states |
|---|---|---|
| Files.Lowercase | crates/ci-core/src/file.rs:28 | `to_lowercase` keeps the length and lowers each ASCII capital, leaving every other character alone |
| Files.FromStr | crates/ci-core/src/file.rs:27-39 | a file is returned only for a one-character text whose lower-cased form is that file's letter |
| Files.FromStrAccepts | crates/ci-core/src/file.rs:27-39 | `from_str` gives `Some` exactly for "a".."h" and "A".."H", `None` for every other text |
| Files.FromLetter | crates/ci-core/src/file.rs:27-39 | a lower-case letter a–h names the file whose index is its distance from 'a' |
| Files.FromIndex | crates/ci-core/src/file.rs:41-43 | `from_index(i)` (u8 cast, `& 7`, transmute) has index `i mod 8` |
| Files.ToIndex | crates/ci-core/src/file.rs:45-47 | the index is below 8 and is the file's position in `ALL_FILES`, A=0 … H=7 |
| Files.ToInt | crates/ci-core/src/file.rs:49-51 | `to_int` is a position in 0..7 at which `ALL_FILES` holds the file (the `unwrap` never fails) |
| Files.FromIndexKeepsLowBits | crates/ci-core/src/file.rs:41-43 | `from_index(i) == from_index(i % 8)` |
| Files.IndexRoundTrip | crates/ci-core/src/file.rs:41-47 | `from_index(to_index(f)) == f` and `to_index(from_index(i)) == i % 8` |
| Files.ToIntIsToIndex | crates/ci-core/src/file.rs:49-51 | `to_int(f) == to_index(f)` |
| Files.StrRoundTrip | crates/ci-core/src/file.rs:53-64 | `to_str` is one lower-case letter a–h and `from_str(to_str(f)) == Some(f)` |
| Files.ToStr | crates/ci-core/src/file.rs:53-64 | `to_str` is one character, the letter `'a' + to_index(f)` |
| Ranks.FromStr | crates/ci-core/src/rank.rs:27-39 | a rank is returned only for the text that is its digit |
| Ranks.FromStrAccepts | crates/ci-core/src/rank.rs:27-39 | `from_str` gives `Some` exactly for "1".."8" |
| Ranks.FromDigit | crates/ci-core/src/rank.rs:27-39 | a digit 1–8 names the rank whose index is its distance from '1' |
| Ranks.FromIndex | crates/ci-core/src/rank.rs:41-43 | `from_index(i)` has index `i mod 8` |
| Ranks.ToIndex | crates/ci-core/src/rank.rs:45-47 | the index is below 8 and is the rank's position in `ALL_RANKS`, One=0 … Eight=7 |
| Ranks.ToInt | crates/ci-core/src/rank.rs:49-51 | `to_int` is a position in 0..7 at which `ALL_RANKS` holds the rank |
| Ranks.FromIndexKeepsLowBits | crates/ci-core/src/rank.rs:41-43 | `from_index(i) == from_index(i % 8)` |
| Ranks.IndexRoundTrip | crates/ci-core/src/rank.rs:41-47 | `from_index(to_index(r)) == r` and `to_index(from_index(i)) == i % 8` |
| Ranks.ToIntIsToIndex | crates/ci-core/src/rank.rs:49-51 | `to_int(r) == to_index(r)` |
| Ranks.StrRoundTrip | crates/ci-core/src/rank.rs:53-64 | `to_str` is one digit 1–8 and `from_str(to_str(r)) == Some(r)` |
| Ranks.ToStr | crates/ci-core/src/rank.rs:53-64 | `to_str` is one character, the digit `'1' + to_index(r)` |
| LegacyFiles.FromStr | src/lib/file.rs:27-39 | the older `from_str` accepts only one-character texts |
| LegacyFiles.FromIndex | src/lib/file.rs:41-43 | the older `from_index(i)` has index `i mod 8` |
| LegacyFiles.ToIndex | src/lib/file.rs:45-47 | the older `to_index` runs A=0 … H=7 |
| LegacyFiles.AgreesWithCore | src/lib/file.rs:27-47 | the older `from_str`, `from_index` and `to_index` give the same answers as the newer ones on every input |
| LegacyFiles.FromStrAccepts | src/lib/file.rs:27-39 | case-insensitive over a–h and `None` for anything else |
| LegacyFiles.FromIndexKeepsLowBits | src/lib/file.rs:41-43 | `from_index(i) == from_index(i % 8)` |
| LegacyFiles.IndexRoundTrip | src/lib/file.rs:41-47 | `from_index(to_index(f)) == f` |
| LegacyRanks.FromStr | src/lib/rank.rs:27-39 | the older `from_str` accepts only one-character texts |
| LegacyRanks.FromIndex | src/lib/rank.rs:41-43 | the older `from_index(i)` has index `i mod 8` |
| LegacyRanks.ToIndex | src/lib/rank.rs:45-47 | the older `to_index` runs One=0 … Eight=7 |
| LegacyRanks.AgreesWithCore | src/lib/rank.rs:27-47 | the older conversions agree with the newer ones on every input |
| LegacyRanks.FromStrAccepts | src/lib/rank.rs:27-39 | exactly "1".."8" are accepted |
| LegacyRanks.FromIndexKeepsLowBits | src/lib/rank.rs:41-43 | `from_index(i) == from_index(i % 8)` |
| LegacyRanks.IndexRoundTrip | src/lib/rank.rs:41-47 | `from_index(to_index(r)) == r` |
| Bits.ShiftLeftByte | crates/ci-core/src/square.rs:8 | `(x as u8) << n` stays below 256 and is `x * 2^n` when that fits in a byte |
| Bits.LowBitsOfByte | crates/ci-core/src/file.rs:42 | truncating to a byte before `& 7` keeps the low three bits: `(x mod 256) mod 8 == x mod 8` |
| Bits.XorDisjointLow | crates/ci-core/src/square.rs:8 | when the low operand fits below bit n, `(high << n) ^ low` equals `high * 2^n + low` |
| Bits.Xor | crates/ci-core/src/square.rs:8 | the low bit of `a ^ b` is the exclusive or of their low bits, and `a ^ b <= a + b` |
| Squares.New | crates/ci-core/src/square.rs:7-9 | `Square::new(r, f)` holds `8 * to_index(r) + to_index(f)`, which is below 64 |
| Squares.RankOf | crates/ci-core/src/square.rs:11-13 | `rank()` is the rank whose index is `(byte >> 3) mod 8` |
| Squares.FileOf | crates/ci-core/src/square.rs:15-17 | `file()` is the file whose index is `byte & 7` |
| Squares.ToIndex | crates/ci-core/src/square.rs:19-25 | `to_index`/`to_int` return the stored byte, which is below 256 |
| Squares.Unpack | crates/ci-core/src/square.rs:11-17 | a square below 64 is `Square::new(s.rank(), s.file())` |
| Squares.Coordinate | crates/ci-core/src/square.rs:27-29 | `coordinate()` is (byte mod 8, (byte / 8) mod 8), both in 0..7 |
| Squares.NewRoundTrip | crates/ci-core/src/square.rs:7-17 | `Square::new(r, f).rank() == r`, `.file() == f`, index `8r + f` |
| Squares.ByIndex | crates/ci-core/src/square.rs:11-17 | any byte reads as rank `(i / 8) mod 8` and file `i mod 8` |
| Squares.Examples | crates/ci-core/src/square.rs:101-124 | the unit tests: new(One, A) is 0, the rank and file read back, Square(32) is A5 |
| Squares.NamedSquares | crates/ci-core/src/square.rs:31-94 | each constant XN is `Square::new(N, X)` |
| Boards.Layout | src/lib/board.rs:10 | the board has 64 cells |
| Boards.Board.constructor | src/lib/board.rs:14-18 | `Board::new` allocates 64 cells, all empty |
| Boards.WithPieces | src/lib/board.rs:20-28 | writes succeed iff every listed square is below 64; otherwise the result is the index of the FIRST entry out of range, where the write panics; on success the fresh board's cells are `Layout(pieces)` |
| Boards.LastAtLatest | src/lib/board.rs:23-25 | the last entry naming a square decides its cell |
| Boards.LastAtUnnamed | src/lib/board.rs:21-25 | a square no entry names stays empty |
| Boards.LastNaming | src/lib/board.rs:23-25 | among the entries naming a square there is a last one |
| Boards.LastAtStep | src/lib/board.rs:23-25 | one more write decides the cell it names and leaves every other cell as it was |
| Boards.WithPiecesCells | src/lib/board.rs:20-28 | a cell is occupied iff some entry names it, and then it holds that entry's piece and colour |
| Boards.Default | src/lib/board.rs:31-67 | `default` yields a fresh 64-cell board whose cells are the opening position, cell by cell |
| Boards.StartingRows | src/lib/board.rs:33-66 | the 32 entries of the opening list name A1–H2 and A7–H8 with the reference pieces |
| Boards.WhiteBackRowEntries | src/lib/board.rs:34-41 | White's back-rank entries are squares 0–7 with R N B Q K B N R |
| Boards.WhitePawnRowEntries | src/lib/board.rs:42-49 | White's pawn entries are squares 8–15 |
| Boards.BlackPawnRowEntries | src/lib/board.rs:50-57 | Black's pawn entries are squares 48–55 |
| Boards.BlackBackRowEntries | src/lib/board.rs:58-65 | Black's back-rank entries are squares 56–63 with R N B Q K B N R |
| Boards.StartingLayout | src/lib/board.rs:31-67 | the opening list puts the reference position on every cell, and every entry is in range |
| Boards.StartingPosition | src/lib/board.rs:31-67 | 0–15 White, 48–63 Black, 16–47 empty, pawns on 8–15 and 48–55, back ranks R N B Q K B N R, 32 pieces |
| Boards.OccupiedSplit | src/lib/board.rs:31-67 | the piece count of the board splits over consecutive ranges of cells |
| Boards.OccupiedRange | src/lib/board.rs:31-67 | a range of all-occupied (all-empty) cells counts its length (zero) |
| PngPiece.Get | crates/ci-png-parser/src/piece.rs:9-11 | `get` returns the wrapped piece unchanged |
| PngPiece.FromStr | crates/ci-png-parser/src/piece.rs:17-28 | never an error; King iff "K", Queen iff "Q", Rook iff "R", Bishop iff "B", Knight iff "N", Pawn for everything else, "" and "P" included |
| PngPiece.LetterRoundTrip | crates/ci-png-parser/src/piece.rs:18-27 | every piece is read back from its SAN letter |
| PngMoveType.FromStr | crates/ci-png-parser/src/move_type.rs:19-30 | `Ok` exactly for the seven fragments; never a plain move or en passant; promotions only to Q, N, B, R |
| PngMoveType.FragmentRoundTrip | crates/ci-png-parser/src/move_type.rs:20-29 | the decoder and the fragment of a move kind are inverse |
| PngMoveType.Examples | crates/ci-png-parser/src/move_type.rs:21-28 | "O-O-O" and "O-O" are told apart; "=K", "=P", "e.p." and "" are refused |
| PngMove.Captures | crates/ci-png-parser/src/png_move.rs:34-41 | the pattern `^([KQRBNP])?([a-h])([1-8])$` matches iff the token is simple, and its groups concatenate to the token |
| PngMove.FromNotation | crates/ci-png-parser/src/png_move.rs:33-60 | `Some` iff the token matches; the move has the given turn, no origin, kind Move, no result, the destination of its last two characters, and a pawn or the lettered piece |
| PngMove.MarkedTokensRefused | crates/ci-png-parser/src/png_move.rs:33-60 | a token containing x, +, #, =, O, ., - or a space decodes to `None` |
| PngMove.PawnExample | crates/ci-png-parser/src/png_move.rs:78-89 | "e4" is a white pawn move to e4 |
| PngMove.PieceExample | crates/ci-png-parser/src/png_move.rs:90-100 | "Re6" is a white rook move to e6 |
| PngMove.RefusedExamples | crates/ci-png-parser/src/png_move.rs:101-188 | the code refuses every other token of the unit test table |
| PgnText.StripCr | src/lib/parser/pgn.rs:26 | a line ending in a carriage return loses exactly that one character; any other line is kept as it is |
| PgnText.Lines | src/lib/parser/pgn.rs:26 | `lines()` yields lines without line feeds |
| PgnText.LinesCrLf | src/lib/parser/pgn.rs:26 | a line ended by `\r\n` is produced without either character, and the lines after it are those of the rest of the text |
| PgnText.LinesRoundTrip | src/lib/parser/pgn.rs:26 | without carriage returns, joining the lines with line feeds gives the text back, terminated |
| PgnText.LinesLast | src/lib/parser/pgn.rs:26 | a text without line feed is one line |
| PgnText.TerminatedStep | src/lib/parser/pgn.rs:26 | terminating a text splits at its first line feed |
| PgnText.LinesStep | src/lib/parser/pgn.rs:26 | the first line of a text is the text before its first line feed |
| PgnText.IsMetadata | src/lib/parser/pgn.rs:81-86 | `is_metadata` (and `PNGParser::is_metadata`, crates/ci-png-parser/src/lib.rs:97-99) holds iff the line has a `[` with a `]` somewhere after it |
| PgnText.FirstOpenClosesMeaning | src/lib/parser/pgn.rs:81-86 | the scanner (first `[`, then any later `]`) accepts exactly the lines with a `[` followed later by a `]` |
| PgnText.Split | src/lib/parser/pgn.rs:33 | `split` yields at least one piece, none containing the separator |
| PgnText.SplitJoin | src/lib/parser/pgn.rs:33 | joining the pieces with the separator gives the text back |
| PgnText.SplitAt | src/lib/parser/pgn.rs:33 | the first piece ends at the first separator |
| PgnText.SplitNone | src/lib/parser/pgn.rs:33 | a text without the separator is one piece |
| PgnText.SplitCons | src/lib/parser/pgn.rs:54-55 | a separator-free prefix is the first piece |
| PgnText.ThreeFields | src/lib/parser/pgn.rs:54-55 | three separator-free fields joined by the separator split back into those three |
| PgnText.TrimStartBrackets | src/lib/parser/pgn.rs:37 | `trim_start_matches('[')` drops exactly the leading `[`s |
| PgnText.TrimEndBrackets | src/lib/parser/pgn.rs:38 | `trim_end_matches(']')` drops exactly the trailing `]`s |
| PgnText.TagKey | src/lib/parser/pgn.rs:34-39 | the key never contains `"` |
| PgnText.QuoteOrEnd | src/lib/parser/pgn.rs:35-36 | the first piece of the `"` split ends at the first `"`, or at the end of the line |
| PgnText.TagKeyMeaning | src/lib/parser/pgn.rs:33-39 | the key is the text before the first `"` less its leading `[`s and trailing `]`s, and nothing else is trimmed |
| PgnText.TrimmedBrackets | src/lib/parser/pgn.rs:37-38 | the two trims leave a slice with only `[`s before it and only `]`s after it |
| PgnText.TrimmedSlice | src/lib/parser/pgn.rs:37-38 | the same, from the contracts of the two trims |
| PgnText.KeyInPrefix | src/lib/parser/pgn.rs:33-39 | that slice of the line's prefix is the same slice of the line |
| PgnText.TagValue | src/lib/parser/pgn.rs:40 | the value (the second `next()` of the `"` split) exists iff the line has a `"`, and contains no `"` |
| PgnText.TagValueMeaning | src/lib/parser/pgn.rs:40 | the value is the text after the first `"` up to the next `"` or the end of the line |
| PgnText.ValueAfterQuote | src/lib/parser/pgn.rs:40 | after the first `"`, the value runs to the next `"` or to the end of the line |
| PgnText.TagMapStep | src/lib/parser/pgn.rs:32-45 | a tag line with a value inserts or overwrites its key, and any other line leaves the map as it is |
| PgnText.WellFormedStep | src/lib/parser/pgn.rs:40 | one more line keeps the tags well formed unless it is a tag line without `"` |
| PgnText.TagMapKeys | src/lib/parser/pgn.rs:32-42 | the keys of the map are exactly the keys of the tag lines with a value |
| PgnText.TagMapLastWins | src/lib/parser/pgn.rs:42 | a key maps to the value of its last tag line: a later duplicate overwrites an earlier one |
| PgnText.TagMapKeeps | src/lib/parser/pgn.rs:42 | lines without a tag for a key leave its value alone |
| PgnText.TagMapOtherKey | src/lib/parser/pgn.rs:42 | one such line leaves the value alone |
| PgnText.TagMapKeyStep | src/lib/parser/pgn.rs:42 | one more line adds its key when it is a tag line and keeps every other key |
| PgnText.FirstMarkerFrom | src/lib/parser/pgn.rs:66-72 | the result is a marker with none to its left, or there is no marker at all |
| PgnText.FirstMarker | src/lib/parser/pgn.rs:66-72 | there is no captured marker iff no marker occurs; a captured marker is one of `1/2`, `1-0`, `0-1` |
| PgnText.Classify | src/lib/parser/pgn.rs:73-78 | each of the three markers gives a known result |
| PgnText.MarkerSeparator | src/lib/parser/pgn.rs:66 | a marker needs `/` or `-` as its second character |
| PgnText.FirstMarkerAt | src/lib/parser/pgn.rs:66-72 | a marker with no marker to its left is the one found |
| PgnText.FirstMarkerMeaning | src/lib/parser/pgn.rs:66-72 | nothing is found iff there is no marker; otherwise the found text is the leftmost marker |
| PgnText.RunEnd | src/lib/parser/pgn.rs:51 | a greedy run of one character class ends within the text |
| PgnText.RunEndFacts | src/lib/parser/pgn.rs:51 | the run holds only that class and stops at the first other character |
| PgnText.RunEndUnique | src/lib/parser/pgn.rs:51 | a maximal run ends where the greedy run ends |
| PgnText.TailAt | src/lib/parser/pgn.rs:51 | the part `\s+\S+\s+\S+` of a match lies in order inside the text |
| PgnText.TailAtFacts | src/lib/parser/pgn.rs:51 | that part is spaces, a word, spaces, a word, and the last word is maximal |
| PgnText.TailAtComplete | src/lib/parser/pgn.rs:51 | the tail of every match is the one found |
| PgnText.MatchAt | src/lib/parser/pgn.rs:51 | a match at p lies in the text with its parts in order |
| PgnText.MatchAtIsGroup | src/lib/parser/pgn.rs:51 | what the scanner finds at p matches `\d+.\s+\S+\s+\S+` |
| PgnText.WholeRunIsGroup | src/lib/parser/pgn.rs:51 | the full digit run followed by any non-line-feed character and a tail is a match |
| PgnText.GivenBackIsGroup | src/lib/parser/pgn.rs:51 | when the run's last digit serves as the `.`, the shorter run is a match |
| PgnText.MatchAtComplete | src/lib/parser/pgn.rs:51 | whenever a match starts at p, the scanner finds one there: that match, or the same one with the `.` one later |
| PgnText.MatchAtWholeRun | src/lib/parser/pgn.rs:51 | a match whose `.` is not a digit is found as it is |
| PgnText.MatchAtLongerRun | src/lib/parser/pgn.rs:51 | greedy `\d+` prefers the longer run when the tail still matches |
| PgnText.MatchAtGivesBack | src/lib/parser/pgn.rs:51 | `\d+` gives back its last digit only when the longer run fails |
| PgnText.FindGroup | src/lib/parser/pgn.rs:52 | the next match starts at or after the search position |
| PgnText.FindGroupIsMatch | src/lib/parser/pgn.rs:52 | the next match found is a match |
| PgnText.FindGroupLeftmost | src/lib/parser/pgn.rs:52 | no match starts before it, and nothing found means no match at all |
| PgnText.Groups | src/lib/parser/pgn.rs:52 | `captures_iter` yields matches in order, without overlap |
| PgnText.GroupsAreLeftmostMatches | src/lib/parser/pgn.rs:52 | each yielded match is a match, and none starts between it and the previous one |
| PgnText.NoGroups | src/lib/parser/pgn.rs:52 | no yielded match means no match anywhere |
| PgnText.FindGroupComplete | src/lib/parser/pgn.rs:51-52 | when the text holds any match, the search from its start finds one |
| PgnText.HasGroup | crates/ci-png-parser/src/lib.rs:101-103 | `is_game_line` holds iff the line holds a match of `\d+.\s+\S+\s+\S+` |
| PgnText.MatchTexts | src/lib/parser/pgn.rs:52-53 | `capture[1]` of the k-th match is the text of the k-th match |
| PgnText.Words | crates/ci-png-parser/src/lib.rs:52 | `split_whitespace` yields nonempty words without white space |
| PgnText.WordsSkip | crates/ci-png-parser/src/lib.rs:52 | leading white space yields no word |
| PgnText.WordsTake | crates/ci-png-parser/src/lib.rs:52 | a maximal word is the next word |
| PgnText.GroupWords | crates/ci-png-parser/src/lib.rs:52 | a match splits into exactly three words: the number part, the white move and the black move |
| PgnText.GroupShape | crates/ci-png-parser/src/lib.rs:52 | a match text is word, spaces, word, spaces, word |
| PgnText.SliceOfSlice | crates/ci-png-parser/src/lib.rs:52 | a slice of a match text is a slice of the line |
| PgnText.ThreeWords | crates/ci-png-parser/src/lib.rs:52 | word, spaces, word, spaces, word splits into those three words |
| PgnText.LastWord | crates/ci-png-parser/src/lib.rs:52 | a final run of non-space characters is one word |
| PgnText.WordThenSpace | crates/ci-png-parser/src/lib.rs:52 | a word followed by spaces is the next word |
| PgnText.ParseU16 | src/lib/parser/pgn.rs:59 | a parsed number fits in a `u16`, and is accepted only when the text after an optional `+` is a nonempty run of digits, whose value it is |
| PgnText.Unsigned | src/lib/parser/pgn.rs:59 | the text is kept, or loses a leading `+` that something follows |
| PgnText.ParseU16Refuses | src/lib/parser/pgn.rs:59 | a text holding a non-digit after the optional sign is refused |
| PgnText.ParseU16Digits | src/lib/parser/pgn.rs:56-60 | a nonempty run of digits parses to its value iff that value is below 65536 |
| PgnText.Decimal | src/lib/parser/pgn.rs:59 | the decimal form of a number is a nonempty run of digits |
| PgnText.DecimalValue | src/lib/parser/pgn.rs:59 | reading the decimal form back gives the number |
| PgnText.ParseU16Decimal | src/lib/parser/pgn.rs:59 | `parse::<u16>` of a number's decimal form gives the number iff it is below 65536 |
| Pgn.Format | src/lib/parser/pgn.rs:22-48 | `Ok` iff every tag line has a `"`; the move text is `MoveText` of the lines and the tags `TagMap`; otherwise the error names the first tag line without a value |
| Pgn.FormatStep | src/lib/parser/pgn.rs:26-46 | what one line does to the move text, the tag map and well-formedness |
| Pgn.MoveTextStep | src/lib/parser/pgn.rs:43-45 | a line that is neither empty nor a tag line is appended with one space |
| Pgn.MoveTextAppend | src/lib/parser/pgn.rs:26-46 | the move text of two runs of lines is the concatenation of theirs |
| Pgn.MoveTextLine | src/lib/parser/pgn.rs:28-45 | empty and tag lines add nothing, any other line adds itself and a space |
| Pgn.MoveTextOneLine | src/lib/parser/pgn.rs:26-46 | the move text has no line feed |
| Pgn.ReadMoves | src/lib/parser/pgn.rs:52-62 | `Ok` iff every match reads; then one move per match, in order; otherwise the error of the first match that fails |
| Pgn.GroupMove | src/lib/parser/pgn.rs:53-61 | a capture reads iff it has three `' '` fields and the text before its first `.` parses as a `u16`; then white and black are fields 1 and 2 (no spaces) and the number is below 65536; otherwise `MissingMoveField` for too few fields (the `nth(..).unwrap()` panic), else `BadMoveNumber` (the `expect` panic) |
| Pgn.ParseMoves | src/lib/parser/pgn.rs:50-63 | `Ok` iff every capture reads; then one move per match, in match order; otherwise the error of the first capture that fails; a text without a match gives no moves |
| Pgn.DotlessGroupRefused | src/lib/parser/pgn.rs:53-61 | the match in "12 e4 e5" has no `.`, so its whole text is the number text and it is a `BadMoveNumber` (the `expect` panic) |
| Pgn.WellSpacedGroup | src/lib/parser/pgn.rs:53-61 | a match written "N. white black" reads as (white, black, N), or a bad number when N does not fit a `u16` |
| Pgn.ReadFields | src/lib/parser/pgn.rs:53-61 | the second and third space-separated fields are the moves and the digits before `.` the number |
| Pgn.GroupFields | src/lib/parser/pgn.rs:54-55 | such a match splits on spaces into number, white and black |
| Pgn.GroupNumber | src/lib/parser/pgn.rs:56-58 | the text before the first `.` of a match is its digit run |
| Pgn.NoMovesInEmptyText | src/lib/parser/pgn.rs:96-98 | `parse_moves("")` is empty |
| Pgn.OneMovePair | src/lib/parser/pgn.rs:100-103 | `parse_moves("1. e4 e5")` is exactly one move: e4, e5, number 1 |
| Pgn.ExampleGroups | src/lib/parser/pgn.rs:100-103 | "1. e4 e5" has exactly one match, the whole text |
| Pgn.ExampleMove | src/lib/parser/pgn.rs:100-103 | that match reads as (e4, e5, 1) |
| Pgn.ReadOneMove | src/lib/parser/pgn.rs:52-62 | one readable match gives one move |
| Pgn.ParseGameResult | src/lib/parser/pgn.rs:65-79 | `Ok` iff the text has a marker; its value is the meaning of the leftmost marker and never Unknown; otherwise a no-marker error |
| Pgn.ResultExamples | src/lib/parser/pgn.rs:111-132 | the five unit-test texts read as Draw, WhiteWins, BlackWins, WhiteWins, BlackWins |
| Pgn.MarkerExample | src/lib/parser/pgn.rs:111-132 | after text without `/` or `-`, "1/2-1/2", "1-0" and "0-1" read as draw, white win and black win |
| Pgn.MarkerAfter | src/lib/parser/pgn.rs:65-79 | after text without `/` or `-`, the following marker decides |
| Pgn.Parse | src/lib/parser/pgn.rs:13-20 | `Ok` iff the tags are well formed, the moves read and a marker is present; then the moves, tags and result of the move text; otherwise the first failure in format, moves, result order |
| Pgn.TagsOnlyRecord | src/lib/parser/pgn.rs:13-19 | a record of tag lines has empty move text, no moves and no result, even with a `[Result "1-0"]` tag |
| PngParser.GetResult | crates/ci-png-parser/src/lib.rs:78-95 | Unknown iff the record has no marker; otherwise the meaning of the leftmost marker anywhere, tag lines included |
| PngParser.DrawExample | crates/ci-png-parser/src/lib.rs:78-92 | a record ending in "1/2-1/2" after text without `/` or `-` is a draw |
| PngParser.TagMarkerCounts | crates/ci-png-parser/src/lib.rs:78-95 | `[Result "1-0"]` alone is a white win for `get_result` but has no result for `parse_result` |
| PngParser.Triples | crates/ci-png-parser/src/lib.rs:53-56 | the words taken three at a time: one pair per complete three, the second and third words |
| PngParser.DecodeAll | crates/ci-png-parser/src/lib.rs:57-58 | each pair is decoded as a white and a black move, in order |
| PngParser.DecodeMatch | crates/ci-png-parser/src/lib.rs:52-62 | the `while let` loop over the words of one match decodes exactly `MatchPairs` of it |
| PngParser.DecodeLine | crates/ci-png-parser/src/lib.rs:51-63 | the loop over the matches of a game line decodes `LinePairs` of its match texts |
| PngParser.MatchPairsOfGroup | crates/ci-png-parser/src/lib.rs:52-58 | each match gives exactly one pair: its second and third words decoded for white and black |
| PngParser.LinePairsOfSingles | crates/ci-png-parser/src/lib.rs:51-63 | matches giving one pair each give their pairs in order |
| PngParser.LinePairsOfLine | crates/ci-png-parser/src/lib.rs:50-64 | a game line gives one decoded pair per match, in match order |
| PngParser.Parse | crates/ci-png-parser/src/lib.rs:28-76 | `Ok` iff every tag line has a `"`; then no moves, the tags of the tag lines and `get_result`; otherwise the first tag line without a value |

## Left out

- The viewer binaries, the scripts, the `parse` example program and the integration test:
  they are rendering, file-system access and glob calls.
- `GameState` of `src/lib/game.rs`: it writes into an empty vector, which always
  panics. `Game::from_string` and `src/game.rs` only forward to `pgn::parse`.
- `dbg!` and `println!` output is not modelled. This includes the "No idea"
  branch of `PNGParser::parse`, the "multiple results" message of `get_result`,
  and the debug print of the decoded tokens in `from_notation`.
- PngParser.Parse: the decoded moves are computed, by `DecodeLine`, and then
  dropped, as in the code. The returned game has no moves. Which pairs a line
  decodes to is proved separately, in `LinePairsOfLine`.
- PngParser.GetResult: the `"*"` arm cannot be reached, because the pattern only
  matches the three markers. `result.len()` is always 1, so its message is never
  printed.
- PgnText.IsDigit, PgnText.IsSpace, PgnText.Words: `\d`, `\s`, `\S` and
  `split_whitespace` are taken over ASCII only. The Rust versions are
  Unicode-aware, so non-ASCII digits and spaces are not modelled.
- Files.Lowercase: only ASCII capitals are lowered. No non-ASCII character lowers
  to a–h, so `File::from_str` accepts the same texts.
- PgnText.Lines: this follows the documented `str::lines`. A line that a line
  feed ends loses one trailing carriage return. A final line without a line feed
  keeps its carriage return.
- PgnText.ParseU16: it takes an optional `+` and then ASCII digits, as
  `u16::from_str` does. Other failure kinds are folded into `None`.
- The integer widths are written out where they matter:
  - `usize` indices are `nat`, cast to `u8` by `mod 256`;
  - a square is a byte (`Squares.Byte`);
  - `to_int`'s `i8` only ever holds 0–7.
- Boards.WithPieces: the index panic of `board.squares[...]` for a square of 64
  or more becomes the `IndexOutOfBounds` result. The board written up to that
  point is not returned.
- PngMove.FromNotation: the `expect` calls on the piece, file and rank cannot
  fail once the pattern matched. This is proved, not assumed.
- `PNGParser::from_str` is the datatype constructor `PngParser.Parser`. The
  `'static` lifetime has no counterpart.
- The board-aware SAN cases that the `png_move.rs` unit test expects are not
  modelled: captures, disambiguation, castling, checks, promotion and en
  passant. The code refuses all of them (`PngMove.RefusedExamples`). The test's
  comment reads `Kxe4#` as a knight move, but the code gives `None`.
- HashMap iteration order and hashing do not affect any result and are not
  modelled.
