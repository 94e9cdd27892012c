/** The game-record parser of src/lib/parser/pgn.rs. `format` separates the tag
    lines from the move text, `parse_moves` reads the numbered move pairs out of
    the move text and `parse_result` its result marker. Where the source panics
    (an `unwrap` or `expect` on `None` or on a failed parse), the model returns
    an `Err` naming the cause. */
module Pgn {
  import opened Wrappers
  import Games
  import opened PgnText

  /** A numbered pair of moves, kept as text (src/lib/game.rs `Move`; the number
      is a `u16`). */
  datatype Move = Move(white: string, black: string, number: nat)

  datatype ParseResult = ParseResult(moves: seq<Move>, tags: map<string, string>, result: Games.GameResult)

  /** The panics of the parser. */
  datatype ParseError =
    | MissingTagValue(line: string)      // a tag line without `"`: the second `next()` is `None`
    | MissingMoveField(capture: string)  // a match with fewer than three space-separated fields
    | BadMoveNumber(capture: string)     // the text before the first `.` is not a `u16`
    | NoResultMarker                     // no `1/2`, `1-0` or `0-1` in the move text

  // ---------------------------------------------------------------------------
  // format

  /** The move text that `format` builds: every line that is neither empty nor a
      tag line, in order, each followed by one space. */
  function MoveText(lines: seq<string>): string
  {
    if lines == [] then ""
    else
      var line := lines[|lines| - 1];
      MoveText(lines[..|lines| - 1]) + (if line == [] || IsMetadata(line) then "" else line + " ")
  }

  /** `format`: one pass over the lines, sending tag lines to the tag map and the
      others to the move text. It fails at the first tag line without a value. */
  method Format(data: string) returns (r: Result<(string, map<string, string>), ParseError>)
    ensures r.Ok? <==> TagsWellFormed(Lines(data))
    ensures r.Ok? ==> r.value == (MoveText(Lines(data)), TagMap(Lines(data)))
    ensures r.Err? ==> r.error.MissingTagValue? && exists k :: (0 <= k < |Lines(data)|
      && Lines(data)[k] == r.error.line && IsMetadata(r.error.line) && '"' !in r.error.line
      && TagsWellFormed(Lines(data)[..k]))
  {
    var lines := Lines(data);
    var moves := "";
    var metadata: map<string, string> := map[];
    for k := 0 to |lines|
      invariant TagsWellFormed(lines[..k])
      invariant moves == MoveText(lines[..k])
      invariant metadata == TagMap(lines[..k])
    {
      var line := lines[k];
      FormatStep(lines, k);
      if line == [] {
        // an empty line is skipped
      } else if IsMetadata(line) {
        var parts := Split(line, '"');
        var key := TrimEndBrackets(TrimStartBrackets(parts[0]));
        if |parts| < 2 {
          return Err(MissingTagValue(line));
        }
        metadata := metadata[key := parts[1]];
      } else {
        moves := moves + line + " ";
      }
    }
    assert lines[..|lines|] == lines;
    return Ok((moves, metadata));
  }

  /** What one more line does to the three things `format` tracks. */
  lemma FormatStep(lines: seq<string>, k: nat)
    requires k < |lines|
    ensures TagValue(lines[k]).Some? <==> '"' in lines[k]
    ensures TagsWellFormed(lines[..k + 1]) <==>
      TagsWellFormed(lines[..k]) && (IsMetadata(lines[k]) ==> '"' in lines[k])
    ensures MoveText(lines[..k + 1]) ==
      MoveText(lines[..k]) + if lines[k] == [] || IsMetadata(lines[k]) then "" else lines[k] + " "
    ensures TagMap(lines[..k + 1]) ==
      if IsTagEntry(lines[k]) then TagMap(lines[..k])[TagKey(lines[k]) := TagValue(lines[k]).value]
      else TagMap(lines[..k])
  {
    WellFormedStep(lines, k);
    MoveTextStep(lines, k);
    assert lines[..k + 1] == lines[..k] + [lines[k]];
    TagMapStep(lines[..k], lines[k]);
  }

  lemma MoveTextStep(lines: seq<string>, k: nat)
    requires k < |lines|
    ensures MoveText(lines[..k + 1]) ==
      MoveText(lines[..k]) + if lines[k] == [] || IsMetadata(lines[k]) then "" else lines[k] + " "
  {
    var next := lines[..k + 1];
    assert next[..k] == lines[..k] && next[k] == lines[k];
  }

  /** The move text of consecutive runs of lines is the concatenation of theirs. */
  lemma {:induction false} MoveTextAppend(a: seq<string>, b: seq<string>)
    ensures MoveText(a + b) == MoveText(a) + MoveText(b)
    decreases |b|
  {
    if b == [] {
      assert a + b == a;
    } else {
      var init := b[..|b| - 1];
      assert (a + b)[..|a + b| - 1] == a + init;
      MoveTextAppend(a, init);
    }
  }

  /** Empty lines and tag lines add nothing to the move text; any other line adds
      itself and a space. */
  lemma MoveTextLine(line: string)
    ensures MoveText([line]) == if line == [] || IsMetadata(line) then "" else line + " "
  {
    assert [line][..0] == [];
  }

  /** The move text has no line feed, so every match the move-group pattern finds
      in it lies within one line of the record. */
  lemma {:induction false} MoveTextOneLine(lines: seq<string>)
    requires forall k :: 0 <= k < |lines| ==> '\n' !in lines[k]
    ensures '\n' !in MoveText(lines)
    decreases |lines|
  {
    if lines != [] {
      MoveTextOneLine(lines[..|lines| - 1]);
    }
  }

  // ---------------------------------------------------------------------------
  // parse_moves

  /** One match read as a move pair: the second and third of its `' '`-separated
      fields are the moves, and the text before its first `.` is the number. */
  function GroupMove(capture: string): (r: Result<Move, ParseError>)
    ensures r.Ok? <==> |Split(capture, ' ')| >= 3 && ParseU16(Split(capture, '.')[0]).Some?
    ensures r.Ok? ==> r.value.white == Split(capture, ' ')[1] && r.value.black == Split(capture, ' ')[2]
    ensures r.Ok? ==> ' ' !in r.value.white && ' ' !in r.value.black && r.value.number < 65536
    ensures r.Ok? ==> Some(r.value.number) == ParseU16(Split(capture, '.')[0])
    ensures r.Err? ==> r.error == if |Split(capture, ' ')| < 3 then MissingMoveField(capture) else BadMoveNumber(capture)
  {
    var fields := Split(capture, ' ');
    if |fields| < 3 then Err(MissingMoveField(capture))
    else match ParseU16(Split(capture, '.')[0])
      case None => Err(BadMoveNumber(capture))
      case Some(n) => Ok(Move(fields[1], fields[2], n))
  }

  /** A match without a `.`, such as the one `\d+.\s+\S+\s+\S+` finds in
      "12 e4 e5" (`\d+` takes "1", `.` takes "2"), has its whole text as the
      number text, which `u16::from_str` refuses. */
  lemma DotlessGroupRefused()
    ensures GroupMove("12 e4 e5") == Err(BadMoveNumber("12 e4 e5"))
  {
    var c := "12 e4 e5";
    SplitNone(c, '.');
    ParseU16Refuses(c, 2);
    ThreeFields("12", "e4", "e5", ' ');
    assert "12" + [' '] + ("e4" + [' '] + "e5") == c;
  }

  /** `map(...).collect()` over the matches: every match read in order, the first
      that fails stopping the parse. */
  function ReadMoves(captures: seq<string>): (r: Result<seq<Move>, ParseError>)
    ensures r.Ok? <==> forall k :: 0 <= k < |captures| ==> GroupMove(captures[k]).Ok?
    ensures r.Ok? ==> |r.value| == |captures| && forall k :: 0 <= k < |captures| ==> GroupMove(captures[k]) == Ok(r.value[k])
    ensures r.Err? ==> exists k :: (0 <= k < |captures| && GroupMove(captures[k]) == Err(r.error)
      && forall j :: 0 <= j < k ==> GroupMove(captures[j]).Ok?)
  {
    if captures == [] then Ok([])
    else match GroupMove(captures[0])
      case Err(e) => Err(e)
      case Ok(m) =>
        match ReadMoves(captures[1..])
        case Err(e) =>
          assert forall k :: 1 <= k < |captures| ==> captures[k] == captures[1..][k - 1];
          Err(e)
        case Ok(ms) => Ok([m] + ms)
  }

  /** `parse_moves`: every match of the move-group pattern read as a move pair, in
      order; a text without a match reads as no moves. */
  function ParseMoves(text: string): (r: Result<seq<Move>, ParseError>)
    ensures var cs := MatchTexts(text);
      r.Ok? <==> forall k :: 0 <= k < |cs| ==> GroupMove(cs[k]).Ok?
    ensures var cs := MatchTexts(text);
      r.Ok? ==> |r.value| == |Groups(text, 0)| && forall k :: 0 <= k < |cs| ==> GroupMove(cs[k]) == Ok(r.value[k])
    ensures var cs := MatchTexts(text);
      r.Err? ==> exists k :: (0 <= k < |cs| && GroupMove(cs[k]) == Err(r.error)
        && forall j :: 0 <= j < k ==> GroupMove(cs[j]).Ok?)
    ensures !HasGroup(text) ==> r == Ok([])
  {
    ReadMoves(MatchTexts(text))
  }

  /** A match written the usual way, the number, `.`, one space, the white move,
      one space and the black move, reads as that pair with that number, unless
      the number does not fit in a `u16`. */
  lemma WellSpacedGroup(s: string, g: Group)
    requires IsGroup(s, g)
    requires s[g.dot] == '.' && g.white == g.dot + 2 && s[g.dot + 1] == ' '
    requires g.black == g.whiteEnd + 1 && s[g.whiteEnd] == ' '
    ensures AllDigits(s, g.start, g.dot)
    ensures GroupMove(GroupText(s, g)) ==
      if DigitsValue(s[g.start..g.dot]) < 65536
      then Ok(Move(s[g.white..g.whiteEnd], s[g.black..g.end], DigitsValue(s[g.start..g.dot])))
      else Err(BadMoveNumber(GroupText(s, g)))
  {
    var number := s[g.start..g.dot];
    assert forall k :: 0 <= k < |number| ==> IsDigit(number[k]) by {
      forall k | 0 <= k < |number| ensures IsDigit(number[k]) {
        assert number[k] == s[g.start + k];
      }
    }
    GroupFields(s, g);
    GroupNumber(s, g);
    ReadFields(GroupText(s, g), s[g.start..g.dot + 1], s[g.white..g.whiteEnd], s[g.black..g.end], number);
  }

  /** A capture with three `' '`-separated fields and a run of digits before its
      first `.` reads as the pair of its second and third fields. */
  lemma ReadFields(c: string, first: string, white: string, black: string, number: string)
    requires Split(c, ' ') == [first, white, black]
    requires Split(c, '.')[0] == number
    requires number != [] && forall k :: 0 <= k < |number| ==> IsDigit(number[k])
    ensures GroupMove(c) ==
      if DigitsValue(number) < 65536 then Ok(Move(white, black, DigitsValue(number)))
      else Err(BadMoveNumber(c))
  {
    ParseU16Digits(number);
  }

  /** The three `' '`-separated fields of a well-spaced match. */
  lemma GroupFields(s: string, g: Group)
    requires IsGroup(s, g)
    requires s[g.dot] == '.' && g.white == g.dot + 2 && s[g.dot + 1] == ' '
    requires g.black == g.whiteEnd + 1 && s[g.whiteEnd] == ' '
    ensures Split(GroupText(s, g), ' ') == [s[g.start..g.dot + 1], s[g.white..g.whiteEnd], s[g.black..g.end]]
  {
    var number, white, black := s[g.start..g.dot + 1], s[g.white..g.whiteEnd], s[g.black..g.end];
    assert ' ' !in number by {
      forall k | 0 <= k < |number| ensures number[k] != ' ' {
        if k < |number| - 1 {
          assert IsDigit(s[g.start + k]);
        }
      }
    }
    assert ' ' !in white by {
      forall k | 0 <= k < |white| ensures white[k] != ' ' {
        assert IsWordChar(s[g.white + k]);
      }
    }
    assert ' ' !in black by {
      forall k | 0 <= k < |black| ensures black[k] != ' ' {
        assert IsWordChar(s[g.black + k]);
      }
    }
    assert GroupText(s, g) == number + [' '] + (white + [' '] + black) by {
      var tail := s[g.whiteEnd..g.end];
      assert tail == [' '] + black;
      var second := s[g.white..g.end];
      assert second == white + tail;
      var afterDot := s[g.dot + 1..g.end];
      assert afterDot == [' '] + second;
      assert s[g.start..g.end] == number + afterDot;
    }
    ThreeFields(number, white, black, ' ');
  }

  /** The text before the first `.` of a match whose `.` is a full stop is its
      digit run. */
  lemma GroupNumber(s: string, g: Group)
    requires IsGroup(s, g) && s[g.dot] == '.'
    ensures Split(GroupText(s, g), '.')[0] == s[g.start..g.dot]
  {
    var t := GroupText(s, g);
    var d := g.dot - g.start;
    forall k | 0 <= k < d ensures t[k] != '.' {
      assert t[k] == s[g.start + k];
      assert IsDigit(s[g.start + k]);
    }
    SplitAt(t, '.', d);
    assert t[..d] == s[g.start..g.dot];
  }

  /** `parse_moves` on the empty text, as in the unit test: no moves. */
  lemma NoMovesInEmptyText()
    ensures ParseMoves("") == Ok([])
  {
    assert Groups("", 0) == [];
  }

  /** `parse_moves` on "1. e4 e5", as in the unit test: exactly one pair. */
  lemma OneMovePair(s: string)
    requires s == "1. e4 e5"
    ensures ParseMoves(s) == Ok([Move("e4", "e5", 1)])
  {
    var g := Group(0, 1, 3, 5, 6, 8);
    ExampleGroups(s);
    assert GroupText(s, g) == s;
    assert MatchTexts(s) == [s];
    ExampleMove(s);
    ReadOneMove(s, Move("e4", "e5", 1));
  }

  /** The one match of "1. e4 e5" spans the whole text. */
  lemma ExampleGroups(s: string)
    requires s == "1. e4 e5"
    ensures IsGroup(s, Group(0, 1, 3, 5, 6, 8))
    ensures Groups(s, 0) == [Group(0, 1, 3, 5, 6, 8)]
  {
    var g := Group(0, 1, 3, 5, 6, 8);
    assert IsGroup(s, g) by {
      assert AllWord(s, 3, 5) by { assert IsWordChar(s[3]) && IsWordChar(s[4]); }
      assert AllWord(s, 6, 8) by { assert IsWordChar(s[6]) && IsWordChar(s[7]); }
    }
    MatchAtComplete(s, g);
    assert FindGroup(s, 0) == Some(g);
    assert FindGroup(s, 8) == None;
  }

  /** "1. e4 e5" read as a match is the first move pair. */
  lemma ExampleMove(s: string)
    requires s == "1. e4 e5" && IsGroup(s, Group(0, 1, 3, 5, 6, 8))
    ensures GroupMove(s) == Ok(Move("e4", "e5", 1))
  {
    var g := Group(0, 1, 3, 5, 6, 8);
    assert s[3..5] == "e4" && s[6..8] == "e5" && s[0..8] == s;
    assert DigitsValue(s[0..1]) == 1 by {
      var number := s[0..1];
      assert number[..0] == [];
    }
    WellSpacedGroup(s, g);
  }

  /** A single match that reads as a pair gives exactly that pair. */
  lemma ReadOneMove(c: string, m: Move)
    requires GroupMove(c) == Ok(m)
    ensures ReadMoves([c]) == Ok([m])
  {
    assert [c][0] == c && [c][1..] == [];
    assert ReadMoves([]) == Ok([]);
    assert [m] + [] == [m];
  }

  // ---------------------------------------------------------------------------
  // parse_result

  /** `parse_result`: the leftmost marker of the move text decides; without one
      the parser panics. */
  function ParseGameResult(text: string): (r: Result<Games.GameResult, ParseError>)
    ensures r.Ok? <==> exists i :: MarkerAt(text, i)
    ensures r.Err? ==> r.error == NoResultMarker
    ensures r.Ok? ==> r.value != Games.Unknown
    ensures r.Ok? ==> exists i: nat :: (MarkerAt(text, i) && r.value == Classify(text[i..i + 3])
      && forall j :: 0 <= j < i ==> !MarkerAt(text, j))
  {
    FirstMarkerMeaning(text);
    match FirstMarker(text)
    case None => Err(NoResultMarker)
    case Some(m) => Ok(Classify(m))
  }

  /** The examples of the unit test: a text whose move part has no `/` or `-`
      ends in "1/2-1/2", "1-0" or "0-1", which read as a draw, a white win and a
      black win. */
  lemma ResultExamples(moves: string)
    requires moves == "1. e4 e5 2. Nf3 Nc6 3. Bb5 a6 4. a7 "
    ensures ParseGameResult(moves + "1/2-1/2") == Ok(Games.Draw)
    ensures ParseGameResult(moves + "1-0") == Ok(Games.WhiteWins)
    ensures ParseGameResult(moves + "0-1") == Ok(Games.BlackWins)
    ensures ParseGameResult("1-0") == Ok(Games.WhiteWins)
    ensures ParseGameResult("0-1") == Ok(Games.BlackWins)
  {
    assert '/' !in moves && '-' !in moves;
    MarkerExample(moves, "1/2-1/2", Games.Draw);
    MarkerExample(moves, "1-0", Games.WhiteWins);
    MarkerExample(moves, "0-1", Games.BlackWins);
    MarkerExample("", "1-0", Games.WhiteWins);
    MarkerExample("", "0-1", Games.BlackWins);
    assert "" + "1-0" == "1-0" && "" + "0-1" == "0-1";
  }

  /** A marker after a text free of `/` and `-` decides the result. */
  lemma MarkerExample(prefix: string, rest: string, result: Games.GameResult)
    requires '/' !in prefix && '-' !in prefix
    requires || (rest == "1/2-1/2" && result == Games.Draw)
             || (rest == "1-0" && result == Games.WhiteWins)
             || (rest == "0-1" && result == Games.BlackWins)
    ensures ParseGameResult(prefix + rest) == Ok(result)
  {
    if rest == "1/2-1/2" {
      assert rest[..3] == "1/2";
    } else if rest == "1-0" {
      assert rest[..3] == "1-0";
    } else {
      assert rest[..3] == "0-1";
    }
    MarkerAfter(prefix, rest);
  }

  /** After a text free of `/` and `-`, the first marker is the one that follows. */
  lemma MarkerAfter(prefix: string, rest: string)
    requires '/' !in prefix && '-' !in prefix
    requires |rest| >= 3 && rest[..3] in {"1/2", "1-0", "0-1"}
    ensures ParseGameResult(prefix + rest) == Ok(Classify(rest[..3]))
  {
    var s := prefix + rest;
    var p := |prefix|;
    assert s[p..p + 3] == rest[..3];
    forall j | 0 <= j < p ensures !MarkerAt(s, j) {
      if j + 1 < p {
        assert s[j + 1] == prefix[j + 1];
      } else {
        assert s[j + 1] == rest[0];
      }
      MarkerSeparator(s, j);
    }
    FirstMarkerAt(s, p);
  }

  // ---------------------------------------------------------------------------
  // parse

  /** `parse`: `format`, then `parse_moves` and `parse_result` on the move text,
      in that order, so the first failure among them is the one reported. */
  method Parse(data: string) returns (r: Result<ParseResult, ParseError>)
    ensures var lines := Lines(data); var text := MoveText(lines);
      r.Ok? <==> TagsWellFormed(lines) && ParseMoves(text).Ok? && ParseGameResult(text).Ok?
    ensures var lines := Lines(data); var text := MoveText(lines);
      r.Ok? ==> r.value == ParseResult(ParseMoves(text).value, TagMap(lines), ParseGameResult(text).value)
    ensures var lines := Lines(data); var text := MoveText(lines);
      r.Err? && TagsWellFormed(lines) ==> r.error == (if ParseMoves(text).Err? then ParseMoves(text).error else NoResultMarker)
    ensures r.Err? && !TagsWellFormed(Lines(data)) ==> r.error.MissingTagValue?
  {
    var formatted := Format(data);
    if formatted.Err? {
      return Err(formatted.error);
    }
    var (moves, tags) := formatted.value;
    var parsedMoves := ParseMoves(moves);
    if parsedMoves.Err? {
      return Err(parsedMoves.error);
    }
    var result := ParseGameResult(moves);
    if result.Err? {
      return Err(result.error);
    }
    return Ok(ParseResult(parsedMoves.value, tags, result.value));
  }

  /** A record made of tag lines only has no move text: it has no moves, and its
      result is not found even when a `[Result "1-0"]` tag is present. */
  lemma {:induction false} TagsOnlyRecord(lines: seq<string>)
    requires forall k :: 0 <= k < |lines| ==> lines[k] == [] || IsMetadata(lines[k])
    ensures MoveText(lines) == ""
    ensures ParseMoves(MoveText(lines)) == Ok([])
    ensures ParseGameResult(MoveText(lines)) == Err(NoResultMarker)
    decreases |lines|
  {
    if lines != [] {
      TagsOnlyRecord(lines[..|lines| - 1]);
    }
    NoMovesInEmptyText();
  }
}
