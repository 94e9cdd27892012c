/** The record parser of crates/ci-png-parser/src/lib.rs. `parse` walks the lines
    once: tag lines go to the tag map, and every match of the move-group pattern
    on a game line is split into words whose move pairs are decoded. The decoded
    moves are only printed for debugging, so the game it returns has no moves;
    its result is the leftmost result marker anywhere in the record. */
module PngParser {
  import opened Wrappers
  import opened Games
  import opened PgnText
  import PngMove
  import Pgn

  /** `PNGParser`: the record text it was created with (`from_str`). */
  datatype Parser = Parser(data: string)

  /** The one panic of `parse`: a tag line without a `"`. */
  datatype ParseError = MissingTagValue(line: string)

  /** A white move and a black move as `from_notation` decodes them. */
  type DecodedPair = (Option<Games.Move>, Option<Games.Move>)

  // ---------------------------------------------------------------------------
  // get_result

  /** `get_result`: the leftmost of "1/2", "1-0" and "0-1" in the whole record,
      tag lines included, decides; without one the result is unknown. */
  function GetResult(p: Parser): (r: GameResult)
    ensures r == Unknown <==> forall i :: !MarkerAt(p.data, i)
    ensures r != Unknown ==> exists i: nat :: (MarkerAt(p.data, i) && r == Classify(p.data[i..i + 3])
      && forall j :: 0 <= j < i ==> !MarkerAt(p.data, j))
  {
    FirstMarkerMeaning(p.data);
    match FirstMarker(p.data)
    case None => Unknown
    case Some(marker) => Classify(marker)
  }

  /** A record that ends in "1/2-1/2" after text without `/` or `-` is a draw. */
  lemma DrawExample(prefix: string)
    requires '/' !in prefix && '-' !in prefix
    ensures GetResult(Parser(prefix + "1/2-1/2")) == Draw
  {
    var s := prefix + "1/2-1/2";
    var p := |prefix|;
    assert s[p..p + 3] == "1/2";
    forall j | 0 <= j < p ensures !MarkerAt(s, j) {
      if j + 1 < p {
        assert s[j + 1] == prefix[j + 1];
        MarkerSeparator(s, j);
      } else {
        assert s[j + 1] == '1';
        MarkerSeparator(s, j);
      }
    }
    FirstMarkerAt(s, p);
  }

  /** Unlike `parse_result` of the other parser, which reads only the move text,
      `get_result` also sees a marker inside a tag line: a record made of the
      single tag line `[Result "1-0"]` is a white win here and has no result
      marker there. */
  lemma TagMarkerCounts(data: string)
    requires data == "[Result \"1-0\"]"
    ensures GetResult(Parser(data)) == WhiteWins
    ensures Pgn.ParseGameResult(Pgn.MoveText(Lines(data))) == Err(Pgn.NoResultMarker)
  {
    var p := 9;
    assert data[p..p + 3] == "1-0";
    forall j | 0 <= j < p ensures !MarkerAt(data, j) {
      MarkerSeparator(data, j);
    }
    FirstMarkerAt(data, p);
    assert '\n' !in data;
    assert Lines(data) == [data];
    assert BracketPair(data, 0, |data| - 1);
    Pgn.TagsOnlyRecord([data]);
  }

  // ---------------------------------------------------------------------------
  // the move pairs of a game line

  /** The `while let` loop over `split_whitespace`: the words taken three at a
      time, the first of each three (the move number) skipped; a final group of
      one or two words gives no pair. */
  function Triples(ws: seq<string>): (ps: seq<(string, string)>)
    ensures |ps| == |ws| / 3
    ensures forall k :: 0 <= k < |ps| ==> ps[k] == (ws[3 * k + 1], ws[3 * k + 2])
    decreases |ws|
  {
    if |ws| < 3 then []
    else
      var rest := Triples(ws[3..]);
      assert forall k :: 0 < k < |rest| + 1 ==> ws[3..][3 * (k - 1) + 1] == ws[3 * k + 1];
      [(ws[1], ws[2])] + rest
  }

  function Decode(pair: (string, string)): (d: DecodedPair)
  {
    (PngMove.FromNotation(pair.0, White), PngMove.FromNotation(pair.1, Black))
  }

  function DecodeAll(ps: seq<(string, string)>): (ds: seq<DecodedPair>)
    ensures |ds| == |ps| && forall k :: 0 <= k < |ps| ==> ds[k] == Decode(ps[k])
  {
    seq(|ps|, k requires 0 <= k < |ps| => Decode(ps[k]))
  }

  /** Every pair decoded from the text of one match. */
  function MatchPairs(capture: string): seq<DecodedPair>
  {
    DecodeAll(Triples(Words(capture)))
  }

  /** Every pair decoded from the texts of the matches of a line, in order. */
  function LinePairs(captures: seq<string>): seq<DecodedPair>
  {
    if captures == [] then []
    else LinePairs(captures[..|captures| - 1]) + MatchPairs(captures[|captures| - 1])
  }

  /** The loop of `parse` over the words of one match. */
  method DecodeMatch(capture: string) returns (decoded: seq<DecodedPair>)
    ensures decoded == MatchPairs(capture)
  {
    var ws := Words(capture);
    ghost var ps := Triples(ws);
    decoded := [];
    var i := 0;
    while i < |ws|
      invariant i <= |ws| && (i % 3 == 0 || i == |ws|)
      invariant decoded == DecodeAll(ps[..i / 3])
    {
      ghost var start := i;
      i := i + 1;  // the move number
      var white := if i < |ws| then Some(ws[i]) else None;
      if i < |ws| { i := i + 1; }
      var black := if i < |ws| then Some(ws[i]) else None;
      if i < |ws| { i := i + 1; }
      if white.Some? && black.Some? {
        assert ps[start / 3] == (white.value, black.value);
        assert ps[..i / 3] == ps[..start / 3] + [ps[start / 3]];
        decoded := decoded + [Decode((white.value, black.value))];
      }
    }
    assert ps[..i / 3] == ps;
  }

  /** The loop of `parse` over the matches of one game line. */
  method DecodeLine(line: string) returns (decoded: seq<DecodedPair>)
    ensures decoded == LinePairs(MatchTexts(line))
  {
    var captures := MatchTexts(line);
    decoded := [];
    for k := 0 to |captures|
      invariant decoded == LinePairs(captures[..k])
    {
      var pairs := DecodeMatch(captures[k]);
      assert captures[..k + 1][..k] == captures[..k];
      decoded := decoded + pairs;
    }
    assert captures[..|captures|] == captures;
  }

  /** Each match gives exactly one pair: the two words after the move number,
      decoded as a white and a black move. */
  lemma MatchPairsOfGroup(s: string, g: Group)
    requires IsGroup(s, g)
    ensures MatchPairs(GroupText(s, g)) == [Decode((s[g.white..g.whiteEnd], s[g.black..g.end]))]
  {
    GroupWords(s, g);
  }

  /** Captures that give one pair each give their pairs in order. */
  lemma {:induction false} LinePairsOfSingles(captures: seq<string>)
    requires forall k :: 0 <= k < |captures| ==> |MatchPairs(captures[k])| == 1
    ensures |LinePairs(captures)| == |captures|
    ensures forall k :: 0 <= k < |captures| ==> LinePairs(captures)[k] == MatchPairs(captures[k])[0]
    decreases |captures|
  {
    if captures != [] {
      var init, last := captures[..|captures| - 1], captures[|captures| - 1];
      assert LinePairs(captures) == LinePairs(init) + MatchPairs(last);
      assert forall k :: 0 <= k < |init| ==> |MatchPairs(init[k])| == 1 by {
        assert forall k :: 0 <= k < |init| ==> init[k] == captures[k];
      }
      LinePairsOfSingles(init);
      assert |MatchPairs(last)| == 1;
      forall k | 0 <= k < |captures|
        ensures LinePairs(captures)[k] == MatchPairs(captures[k])[0]
      {
        if k < |init| {
          assert init[k] == captures[k];
        }
      }
    }
  }

  /** A game line gives one decoded pair per match, in the order of the matches:
      the two words after each move number, decoded for white and for black. */
  lemma LinePairsOfLine(s: string)
    ensures |LinePairs(MatchTexts(s))| == |Groups(s, 0)|
    ensures forall k :: 0 <= k < |Groups(s, 0)| ==> var g := Groups(s, 0)[k];
      IsGroup(s, g) && LinePairs(MatchTexts(s))[k] == Decode((s[g.white..g.whiteEnd], s[g.black..g.end]))
  {
    var gs, cs := Groups(s, 0), MatchTexts(s);
    forall k | 0 <= k < |gs|
      ensures IsGroup(s, gs[k]) && MatchPairs(cs[k]) == [Decode((s[gs[k].white..gs[k].whiteEnd], s[gs[k].black..gs[k].end]))]
    {
      GroupsAreLeftmostMatches(s, 0, k);
      MatchPairsOfGroup(s, gs[k]);
    }
    LinePairsOfSingles(cs);
  }

  // ---------------------------------------------------------------------------
  // parse

  /** `parse`: the tags of the record, no moves, and `get_result`. It fails at the
      first tag line without a value. */
  method Parse(p: Parser) returns (r: Result<Game, ParseError>)
    ensures r.Ok? <==> TagsWellFormed(Lines(p.data))
    ensures r.Ok? ==> r.value == Game([], TagMap(Lines(p.data)), GetResult(p))
    ensures r.Err? ==> exists k :: (0 <= k < |Lines(p.data)|
      && Lines(p.data)[k] == r.error.line && IsMetadata(r.error.line) && '"' !in r.error.line
      && TagsWellFormed(Lines(p.data)[..k]))
  {
    var lines := Lines(p.data);
    var tags: map<string, string> := map[];
    for k := 0 to |lines|
      invariant TagsWellFormed(lines[..k])
      invariant tags == TagMap(lines[..k])
    {
      var line := lines[k];
      WellFormedStep(lines, k);
      assert lines[..k + 1] == lines[..k] + [line];
      TagMapStep(lines[..k], line);
      if line == [] {
        // an empty line is skipped
      } else if IsMetadata(line) {
        var parts := Split(line, '"');
        var key := TrimEndBrackets(TrimStartBrackets(parts[0]));
        if |parts| < 2 {
          return Err(MissingTagValue(line));
        }
        tags := tags[key := parts[1]];
      } else if HasGroup(line) {
        var decoded := DecodeLine(line);
      }
    }
    assert lines[..|lines|] == lines;
    return Ok(Game([], tags, GetResult(p)));
  }
}
