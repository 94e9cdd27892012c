/** The text scanning shared by the two game-record parsers (src/lib/parser/pgn.rs
    and crates/ci-png-parser/src/lib.rs): Rust's `str::lines`, the patterns
    `\[(.*?)\]`, `\d+.\s+\S+\s+\S+` and `1/2|1-0|0-1` written as scanners,
    `str::split`, `u16::from_str`, and the extraction of `[Key "Value"]` tags. */
module PgnText {
  import opened Wrappers
  import opened Games

  // ---------------------------------------------------------------------------
  // str::lines

  /** Removes one trailing carriage return. */
  function StripCr(line: string): (r: string)
    ensures |line| > 0 && line[|line| - 1] == '\r' ==> line == r + "\r"
    ensures (line == [] || line[|line| - 1] != '\r') ==> r == line
  {
    if |line| > 0 && line[|line| - 1] == '\r' then line[..|line| - 1] else line
  }

  /** `str::lines`: the text cut at each line feed; a line ended by a line feed
      loses one trailing carriage return; a final empty line is not produced. */
  function Lines(data: string): (ls: seq<string>)
    ensures forall k :: 0 <= k < |ls| ==> '\n' !in ls[k]
    decreases |data|
  {
    if data == [] then []
    else match Position(data, '\n')
      case None => [data]
      case Some(i) =>
        assert '\n' !in data[..i];
        [StripCr(data[..i])] + Lines(data[i + 1..])
  }

  /** The lines put back together, each followed by a line feed. */
  function Unlines(ls: seq<string>): string
  {
    if ls == [] then "" else ls[0] + "\n" + Unlines(ls[1..])
  }

  /** The text with a line feed added unless it already ends in one. */
  function Terminated(data: string): string
  {
    if data != [] && data[|data| - 1] == '\n' then data else data + "\n"
  }

  /** Without carriage returns, `Lines` loses nothing but the line feeds: joining
      the lines gives the text back, with a line feed added at the end when the
      text did not end in one. */
  lemma {:induction false} LinesRoundTrip(data: string)
    requires '\r' !in data
    ensures Unlines(Lines(data)) == if data == [] then [] else Terminated(data)
    decreases |data|
  {
    if data != [] {
      var pos := Position(data, '\n');
      if pos.None? {
        LinesLast(data);
      } else {
        var i := pos.value;
        var rest := data[i + 1..];
        LinesStep(data, i);
        LinesRoundTrip(rest);
        TerminatedStep(data, i);
      }
    }
  }

  /** A line ended by a carriage return and a line feed is produced without
      either of them. */
  lemma LinesCrLf(a: string, b: string)
    requires '\n' !in a
    ensures Lines(a + "\r\n" + b) == [a] + Lines(b)
  {
    var data := a + "\r\n" + b;
    var i := |a| + 1;
    assert data[i] == '\n';
    assert forall j :: 0 <= j < i ==> data[j] != '\n' by {
      forall j | 0 <= j < i ensures data[j] != '\n' {
        if j < |a| { assert data[j] == a[j]; }
      }
    }
    assert Position(data, '\n') == Some(i);
    assert data[..i] == a + "\r";
    assert data[i + 1..] == b;
  }

  lemma LinesLast(data: string)
    requires data != [] && Position(data, '\n').None?
    ensures Unlines(Lines(data)) == Terminated(data)
  {
    assert Lines(data) == [data];
    assert [data][1..] == [];
  }

  lemma TerminatedStep(data: string, i: nat)
    requires i < |data| && data[i] == '\n'
    ensures '\r' !in data ==> '\r' !in data[i + 1..]
    ensures Terminated(data) == data[..i] + "\n" + (if data[i + 1..] == [] then [] else Terminated(data[i + 1..]))
  {
    var rest := data[i + 1..];
    assert data == data[..i] + "\n" + rest;
    if rest != [] {
      assert rest[|rest| - 1] == data[|data| - 1];
    }
    assert forall c :: c in rest ==> c in data;
  }

  lemma LinesStep(data: string, i: nat)
    requires '\r' !in data
    requires Position(data, '\n') == Some(i)
    ensures Unlines(Lines(data)) == data[..i] + "\n" + Unlines(Lines(data[i + 1..]))
  {
    var line := data[..i];
    assert '\r' !in line;
    assert StripCr(line) == line;
    var ls := Lines(data);
    assert ls == [line] + Lines(data[i + 1..]);
    assert ls[0] == line && ls[1..] == Lines(data[i + 1..]);
  }

  // ---------------------------------------------------------------------------
  // `\[(.*?)\]`: a tag line

  /** `Regex::is_match` for `\[(.*?)\]`: some `[` has a `]` after it. On a line,
      which has no line feed for `.` to refuse, the lazy group can stretch to any
      later `]`. */
  predicate IsMetadata(line: string)
    ensures IsMetadata(line) <==> exists i, j :: BracketPair(line, i, j)
  {
    FirstOpenClosesMeaning(line);
    FirstOpenCloses(line)
  }

  /** A `[` at `i` with a `]` later at `j`. */
  predicate BracketPair(line: string, i: int, j: int)
  {
    0 <= i < j < |line| && line[i] == '[' && line[j] == ']'
  }

  /** The search as a scanner: find the first `[`, then any `]` after it. */
  predicate FirstOpenCloses(line: string)
  {
    match Position(line, '[')
    case None => false
    case Some(i) => ']' in line[i + 1..]
  }

  lemma FirstOpenClosesMeaning(line: string)
    ensures FirstOpenCloses(line) <==> exists i, j :: BracketPair(line, i, j)
  {
    if i, j :| BracketPair(line, i, j) {
      var first := Position(line, '[').value;
      assert first <= i;
      assert line[i + 1..][j - i - 1] == ']';
      assert line[first + 1..][j - first - 1] == ']';
    }
    if FirstOpenCloses(line) {
      var i := Position(line, '[').value;
      var k :| 0 <= k < |line[i + 1..]| && line[i + 1..][k] == ']';
      assert BracketPair(line, i, i + 1 + k);
    }
  }

  // ---------------------------------------------------------------------------
  // str::split and tag extraction

  /** `str::split` on one character: the pieces between the separators, the empty
      ones included; there is always at least one. */
  function Split(s: string, sep: char): (parts: seq<string>)
    ensures |parts| >= 1
    ensures forall k :: 0 <= k < |parts| ==> sep !in parts[k]
    decreases |s|
  {
    match Position(s, sep)
    case None => [s]
    case Some(i) =>
      assert sep !in s[..i];
      [s[..i]] + Split(s[i + 1..], sep)
  }

  /** The pieces joined back with the separator. */
  function Join(parts: seq<string>, sep: char): string
    requires |parts| >= 1
  {
    if |parts| == 1 then parts[0] else parts[0] + [sep] + Join(parts[1..], sep)
  }

  lemma {:induction false} SplitJoin(s: string, sep: char)
    ensures Join(Split(s, sep), sep) == s
    decreases |s|
  {
    match Position(s, sep)
    case None =>
    case Some(i) =>
      var rest := Split(s[i + 1..], sep);
      assert Split(s, sep) == [s[..i]] + rest;
      assert Join(Split(s, sep), sep) == s[..i] + [sep] + Join(rest, sep);
      SplitJoin(s[i + 1..], sep);
      assert s == s[..i] + [sep] + s[i + 1..];
  }

  /** Splitting at the first separator. */
  lemma SplitAt(s: string, sep: char, i: nat)
    requires i < |s| && s[i] == sep && sep !in s[..i]
    ensures Split(s, sep) == [s[..i]] + Split(s[i + 1..], sep)
  {
  }

  /** A text without the separator is one piece. */
  lemma SplitNone(s: string, sep: char)
    requires sep !in s
    ensures Split(s, sep) == [s]
  {
  }

  /** A piece without the separator, the separator, and the rest: that piece
      first, then the pieces of the rest. */
  lemma SplitCons(a: string, rest: string, sep: char)
    requires sep !in a
    ensures Split(a + [sep] + rest, sep) == [a] + Split(rest, sep)
  {
    var t := a + [sep] + rest;
    assert t[..|a|] == a && t[|a|] == sep && t[|a| + 1..] == rest;
    SplitAt(t, sep, |a|);
  }

  /** Three pieces joined by two separators split back into those pieces. */
  lemma ThreeFields(a: string, b: string, c: string, sep: char)
    requires sep !in a && sep !in b && sep !in c
    ensures Split(a + [sep] + (b + [sep] + c), sep) == [a, b, c]
  {
    assert Split(b + [sep] + c, sep) == [b, c] by {
      SplitNone(c, sep);
      SplitCons(b, c, sep);
    }
    SplitCons(a, b + [sep] + c, sep);
  }

  /** `trim_start_matches('[')`: every leading `[` removed. */
  function TrimStartBrackets(s: string): (r: string)
    ensures |r| <= |s| && r == s[|s| - |r|..]
    ensures forall k :: 0 <= k < |s| - |r| ==> s[k] == '['
    ensures r != [] ==> r[0] != '['
    decreases |s|
  {
    if s != [] && s[0] == '[' then TrimStartBrackets(s[1..]) else s
  }

  /** `trim_end_matches(']')`: every trailing `]` removed. */
  function TrimEndBrackets(s: string): (r: string)
    ensures |r| <= |s| && r == s[..|r|]
    ensures forall k :: |r| <= k < |s| ==> s[k] == ']'
    ensures r != [] ==> r[|r| - 1] != ']'
    decreases |s|
  {
    if s != [] && s[|s| - 1] == ']' then TrimEndBrackets(s[..|s| - 1]) else s
  }

  /** The key of a tag line: the first `"`-separated piece, brackets trimmed. */
  function TagKey(line: string): (key: string)
    ensures '"' !in key
  {
    var head := Split(line, '"')[0];
    var key := TrimEndBrackets(TrimStartBrackets(head));
    assert forall c :: c in key ==> c in head;
    key
  }

  /** The value of a tag line: the second `"`-separated piece, which exists only
      when the line has a `"` (otherwise `next()` gives `None` and the parsers
      panic). */
  function TagValue(line: string): (value: Option<string>)
    ensures value.Some? <==> '"' in line
    ensures value.Some? ==> '"' !in value.value
  {
    var parts := Split(line, '"');
    if |parts| >= 2 then Some(parts[1]) else None
  }

  /** The value is the text after the first `"` up to the second `"`, or to the
      end of the line when there is no second one. */
  lemma TagValueMeaning(line: string)
    ensures TagValue(line).Some? <==> '"' in line
    ensures TagValue(line).Some? ==>
      var q := Position(line, '"').value;
      var v := TagValue(line).value;
      && q + 1 + |v| <= |line|
      && v == line[q + 1..q + 1 + |v|]
      && '"' !in v
      && (q + 1 + |v| == |line| || line[q + 1 + |v|] == '"')
  {
    var pos := Position(line, '"');
    if pos.Some? {
      ValueAfterQuote(line, pos.value);
    }
  }

  /** The value runs from just after the first `"` to the next `"` or the end. */
  lemma ValueAfterQuote(line: string, q: nat)
    requires Position(line, '"') == Some(q)
    ensures TagValue(line).Some?
    ensures var v := TagValue(line).value;
      && q + 1 + |v| <= |line|
      && v == line[q + 1..q + 1 + |v|]
      && (q + 1 + |v| == |line| || line[q + 1 + |v|] == '"')
  {
    var rest := line[q + 1..];
    var parts := Split(line, '"');
    assert parts == [line[..q]] + Split(rest, '"');
    assert parts[1] == Split(rest, '"')[0];
    var pos2 := Position(rest, '"');
    if pos2.None? {
      assert Split(rest, '"') == [rest];
    } else {
      var q2 := pos2.value;
      assert Split(rest, '"') == [rest[..q2]] + Split(rest[q2 + 1..], '"');
      assert rest[q2] == line[q + 1 + q2];
    }
  }

  /** The end of the text before the first `"`: its position, or the whole line. */
  function QuoteOrEnd(line: string): (q: nat)
    ensures q <= |line|
    ensures '"' !in line[..q]
    ensures q < |line| ==> line[q] == '"'
  {
    match Position(line, '"')
    case Some(q) => q
    case None => |line|
  }

  /** The key is what lies before the first `"` (the whole line without one),
      less its leading `[`s and then its trailing `]`s; nothing else, no
      whitespace, is trimmed. */
  lemma TagKeyMeaning(line: string)
    ensures exists i, j :: KeySlice(line, QuoteOrEnd(line), TagKey(line), i, j)
  {
    var q := QuoteOrEnd(line);
    var head := Split(line, '"')[0];
    assert head == line[..q] && |head| == q by {
      if q < |line| {
        SplitAt(line, '"', q);
      } else {
        assert line[..q] == line;
        SplitNone(line, '"');
      }
    }
    var i, j := TrimmedBrackets(head);
    assert TagKey(line) == head[i..j];
    KeyInPrefix(line, head, q, TagKey(line), i, j);
  }

  /** `key` is `line[i..j]`, only `[`s lie before it, only `]`s between it and
      `q`, and it neither starts with `[` nor ends with `]`. */
  predicate KeySlice(line: string, q: nat, key: string, i: nat, j: nat)
  {
    && i <= j <= q <= |line| && key == line[i..j]
    && (forall k :: 0 <= k < i ==> line[k] == '[')
    && (forall k :: j <= k < q ==> line[k] == ']')
    && (i < j ==> line[i] != '[' && line[j - 1] != ']')
  }

  /** The slice found in the prefix `head` of `line`, read in `line`. */
  lemma KeyInPrefix(line: string, head: string, q: nat, key: string, i: nat, j: nat)
    requires q <= |line| && head == line[..q] && i <= j <= q && key == head[i..j]
    requires forall k :: 0 <= k < i ==> head[k] == '['
    requires forall k :: j <= k < q ==> head[k] == ']'
    requires i < j ==> head[i] != '[' && head[j - 1] != ']'
    ensures KeySlice(line, q, key, i, j)
  {
    assert forall k :: 0 <= k < q ==> line[k] == head[k];
  }

  /** Where the trimmed text lies in the text it was trimmed from. */
  lemma TrimmedBrackets(head: string) returns (i: nat, j: nat)
    ensures i <= j <= |head| && TrimEndBrackets(TrimStartBrackets(head)) == head[i..j]
    ensures forall k :: 0 <= k < i ==> head[k] == '['
    ensures forall k :: j <= k < |head| ==> head[k] == ']'
    ensures i < j ==> head[i] != '[' && head[j - 1] != ']'
  {
    var trimmed := TrimStartBrackets(head);
    i, j := TrimmedSlice(head, trimmed, TrimEndBrackets(trimmed));
  }

  /** The two trims of `TrimmedBrackets` composed, stated through their contracts. */
  lemma TrimmedSlice(head: string, trimmed: string, key: string) returns (i: nat, j: nat)
    requires |trimmed| <= |head| && trimmed == head[|head| - |trimmed|..]
    requires forall k :: 0 <= k < |head| - |trimmed| ==> head[k] == '['
    requires trimmed != [] ==> trimmed[0] != '['
    requires |key| <= |trimmed| && key == trimmed[..|key|]
    requires forall k :: |key| <= k < |trimmed| ==> trimmed[k] == ']'
    requires key != [] ==> key[|key| - 1] != ']'
    ensures i <= j <= |head| && key == head[i..j]
    ensures forall k :: 0 <= k < i ==> head[k] == '['
    ensures forall k :: j <= k < |head| ==> head[k] == ']'
    ensures i < j ==> head[i] != '[' && head[j - 1] != ']'
  {
    i := |head| - |trimmed|;
    j := i + |key|;
    assert forall k :: j <= k < |head| ==> head[k] == trimmed[k - i];
  }

  /** A line that `format` and `parse` store in the tag map. */
  predicate IsTagEntry(line: string)
  {
    IsMetadata(line) && '"' in line
  }

  /** Every tag line has a value, so neither parser panics on the tags. */
  predicate TagsWellFormed(lines: seq<string>)
  {
    forall k :: 0 <= k < |lines| ==> IsMetadata(lines[k]) ==> '"' in lines[k]
  }

  /** The tag map after inserting the tag lines in order. */
  function TagMap(lines: seq<string>): map<string, string>
  {
    if lines == [] then map[]
    else
      var line := lines[|lines| - 1];
      var m := TagMap(lines[..|lines| - 1]);
      if IsTagEntry(line) then
        m[TagKey(line) := TagValue(line).value]
      else m
  }

  /** One more line in the tag map: a tag line with a value inserts it, replacing
      an earlier value of the same key; any other line leaves the map as it is. */
  lemma TagMapStep(pre: seq<string>, line: string)
    ensures IsTagEntry(line) ==> TagValue(line).Some?
    ensures IsTagEntry(line) ==> TagMap(pre + [line]) == TagMap(pre)[TagKey(line) := TagValue(line).value]
    ensures !IsTagEntry(line) ==> TagMap(pre + [line]) == TagMap(pre)
  {
    var lines := pre + [line];
    assert lines[..|lines| - 1] == pre && lines[|lines| - 1] == line;
    assert TagMap(lines) == if IsTagEntry(line) then TagMap(pre)[TagKey(line) := TagValue(line).value] else TagMap(pre);
  }

  /** One more line keeps the tags well formed unless it is a tag line without
      a value. */
  lemma WellFormedStep(lines: seq<string>, k: nat)
    requires k < |lines|
    ensures TagsWellFormed(lines[..k + 1]) <==>
      TagsWellFormed(lines[..k]) && (IsMetadata(lines[k]) ==> '"' in lines[k])
  {
    var next := lines[..k + 1];
    assert forall j :: 0 <= j < k ==> next[j] == lines[..k][j];
    assert next[k] == lines[k];
  }

  /** The line at `k` is a tag line with a value and with key `key`. */
  predicate KeyedAt(lines: seq<string>, k: int, key: string)
  {
    0 <= k < |lines| && IsTagEntry(lines[k]) && TagKey(lines[k]) == key
  }

  /** The keys of the tag map are the keys of the tag lines. */
  lemma {:induction false} TagMapKeys(lines: seq<string>, key: string)
    ensures key in TagMap(lines) <==> exists k :: KeyedAt(lines, k, key)
  {
    if lines != [] {
      var init, last := lines[..|lines| - 1], lines[|lines| - 1];
      TagMapKeys(init, key);
      TagMapKeyStep(init, last, key);
      assert lines == init + [last];
      if key in TagMap(lines) {
        if !(IsTagEntry(last) && TagKey(last) == key) {
          var k :| KeyedAt(init, k, key);
          assert KeyedAt(lines, k, key);
        } else {
          assert KeyedAt(lines, |lines| - 1, key);
        }
      }
      if k :| KeyedAt(lines, k, key) {
        if k < |init| {
          assert KeyedAt(init, k, key);
        }
      }
    }
  }

  /** One more line adds its key when it is a tag line and keeps every other key. */
  lemma TagMapKeyStep(pre: seq<string>, line: string, key: string)
    ensures key in TagMap(pre + [line]) <==> (IsTagEntry(line) && TagKey(line) == key) || key in TagMap(pre)
  {
    TagMapStep(pre, line);
  }

  /** A key maps to the value of the last tag line with that key: a later
      duplicate overwrites an earlier one. */
  lemma TagMapLastWins(pre: seq<string>, line: string, post: seq<string>)
    requires IsTagEntry(line)
    requires forall j :: 0 <= j < |post| ==> !(IsTagEntry(post[j]) && TagKey(post[j]) == TagKey(line))
    ensures TagKey(line) in TagMap(pre + [line] + post)
    ensures TagValue(line).Some? && TagMap(pre + [line] + post)[TagKey(line)] == TagValue(line).value
  {
    TagMapStep(pre, line);
    TagMapKeeps(pre + [line], post, TagKey(line));
  }

  /** Lines none of which is a tag line for `key` leave its value alone. */
  lemma {:induction false} TagMapKeeps(pre: seq<string>, post: seq<string>, key: string)
    requires key in TagMap(pre)
    requires forall j :: 0 <= j < |post| ==> !(IsTagEntry(post[j]) && TagKey(post[j]) == key)
    ensures key in TagMap(pre + post) && TagMap(pre + post)[key] == TagMap(pre)[key]
    decreases |post|
  {
    if post != [] {
      var init, last := post[..|post| - 1], post[|post| - 1];
      assert forall j :: 0 <= j < |init| ==> init[j] == post[j];
      TagMapKeeps(pre, init, key);
      TagMapOtherKey(pre + init, last, key);
      assert pre + post == (pre + init) + [last];
    } else {
      assert pre + post == pre;
    }
  }

  /** A line that is not a tag line for `key` leaves the value of `key` alone. */
  lemma TagMapOtherKey(pre: seq<string>, line: string, key: string)
    requires key in TagMap(pre)
    requires !(IsTagEntry(line) && TagKey(line) == key)
    ensures key in TagMap(pre + [line]) && TagMap(pre + [line])[key] == TagMap(pre)[key]
  {
    TagMapStep(pre, line);
  }

  // ---------------------------------------------------------------------------
  // `1/2|1-0|0-1`: the result marker

  /** One of the three markers starts at `i`. */
  predicate MarkerAt(s: string, i: nat)
  {
    i + 3 <= |s| && s[i..i + 3] in {"1/2", "1-0", "0-1"}
  }

  /** The leftmost marker at or after `from`: its text and position. */
  function FirstMarkerFrom(s: string, from: nat): (r: Option<(string, nat)>)
    ensures r.None? ==> forall i :: from <= i ==> !MarkerAt(s, i)
    ensures r.Some? ==> var (text, i) := r.value;
      from <= i && MarkerAt(s, i) && text == s[i..i + 3] && forall j :: from <= j < i ==> !MarkerAt(s, j)
    decreases |s| - from
  {
    if from + 3 > |s| then None
    else if MarkerAt(s, from) then Some((s[from..from + 3], from))
    else FirstMarkerFrom(s, from + 1)
  }

  /** The text of the leftmost match of `1/2|1-0|0-1`, as `Regex::captures` gives it. */
  function FirstMarker(s: string): (r: Option<string>)
    ensures r.None? <==> forall i: nat :: !MarkerAt(s, i)
    ensures r.Some? ==> r.value in {"1/2", "1-0", "0-1"}
  {
    match FirstMarkerFrom(s, 0)
    case None => None
    case Some((text, _)) => Some(text)
  }

  /** The match arms of both parsers: "1/2" is a draw, "1-0" a white win, "0-1" a
      black win. */
  function Classify(marker: string): (r: GameResult)
    ensures marker in {"1/2", "1-0", "0-1"} ==> r != Unknown
  {
    match marker
    case "1/2" => Draw
    case "1-0" => WhiteWins
    case "0-1" => BlackWins
    case _ => Unknown
  }

  /** Every marker has a `/` or `-` as its second character. */
  lemma MarkerSeparator(s: string, i: nat)
    requires i + 1 < |s| && s[i + 1] != '/' && s[i + 1] != '-'
    ensures !MarkerAt(s, i)
  {
    if i + 3 <= |s| {
      assert s[i..i + 3][1] == s[i + 1];
    }
  }

  /** A marker with none before it is the first marker. */
  lemma FirstMarkerAt(s: string, i: nat)
    requires MarkerAt(s, i)
    requires forall j :: 0 <= j < i ==> !MarkerAt(s, j)
    ensures FirstMarker(s) == Some(s[i..i + 3])
  {
    var r := FirstMarkerFrom(s, 0);
    assert r.Some?;
    assert r.value.1 == i;
  }

  /** The leftmost marker decides: there is a first marker exactly when some marker
      occurs, it is the text at the smallest such position, and it classifies as
      a decided result. */
  lemma FirstMarkerMeaning(s: string)
    ensures FirstMarker(s).None? <==> forall i :: !MarkerAt(s, i)
    ensures FirstMarker(s).Some? ==>
      exists i: nat :: MarkerAt(s, i) && FirstMarker(s).value == s[i..i + 3] && forall j :: 0 <= j < i ==> !MarkerAt(s, j)
    ensures FirstMarker(s).Some? ==> Classify(FirstMarker(s).value) != Unknown
  {
    match FirstMarkerFrom(s, 0)
    case None =>
    case Some((text, i)) =>
      assert MarkerAt(s, i);
  }

  // ---------------------------------------------------------------------------
  // `\d+.\s+\S+\s+\S+`: a move group

  /** `\d` on ASCII digits. */
  predicate IsDigit(c: char)
  {
    '0' <= c <= '9'
  }

  /** `\s` on the ASCII white space: tab, line feed, vertical tab, form feed,
      carriage return and space. */
  predicate IsSpace(c: char)
  {
    9 <= c as int <= 13 || c == ' '
  }

  predicate IsWordChar(c: char)
  {
    !IsSpace(c)
  }

  /** The three character classes of the pattern: `\d`, `\s` and `\S`. */
  datatype Class = Digit | Space | Word

  predicate InClass(c: char, cls: Class)
  {
    match cls
    case Digit => IsDigit(c)
    case Space => IsSpace(c)
    case Word => IsWordChar(c)
  }

  /** The end of the longest run from `p` of characters in the class `cls`. */
  function RunEnd(s: string, p: nat, cls: Class): (q: nat)
    requires p <= |s|
    ensures p <= q <= |s|
    decreases |s| - p
  {
    if p < |s| && InClass(s[p], cls) then RunEnd(s, p + 1, cls) else p
  }

  /** The run `RunEnd` finds is in the class throughout and is stopped by a
      character outside it, if by anything. */
  lemma {:induction false} RunEndFacts(s: string, p: nat, cls: Class)
    requires p <= |s|
    ensures forall k :: p <= k < RunEnd(s, p, cls) ==> InClass(s[k], cls)
    ensures RunEnd(s, p, cls) < |s| ==> !InClass(s[RunEnd(s, p, cls)], cls)
    decreases |s| - p
  {
    if p < |s| && InClass(s[p], cls) {
      RunEndFacts(s, p + 1, cls);
    }
  }

  /** Where the parts of one match lie: digits in [start, dot), the character
      matched by `.` at `dot`, white space up to `white`, the white move in
      [white, whiteEnd), white space up to `black`, the black move in [black, end). */
  datatype Group = Group(start: nat, dot: nat, white: nat, whiteEnd: nat, black: nat, end: nat)

  /** The part of a match after `.`: `white`, `whiteEnd`, `black` and `end` as in
      `Group`. */
  datatype Tail = Tail(white: nat, whiteEnd: nat, black: nat, end: nat)

  predicate AllDigits(s: string, lo: nat, hi: nat)
    requires lo <= hi <= |s|
  {
    forall k :: lo <= k < hi ==> IsDigit(s[k])
  }

  predicate AllSpace(s: string, lo: nat, hi: nat)
    requires lo <= hi <= |s|
  {
    forall k :: lo <= k < hi ==> IsSpace(s[k])
  }

  predicate AllWord(s: string, lo: nat, hi: nat)
    requires lo <= hi <= |s|
  {
    forall k :: lo <= k < hi ==> IsWordChar(s[k])
  }

  /** `g` is a match of `\d+.\s+\S+\s+\S+` in `s`; the final `\S+` is greedy, so the
      match ends at white space or at the end of the text. */
  predicate IsGroup(s: string, g: Group)
  {
    && g.start < g.dot && g.dot + 1 < g.white < g.whiteEnd < g.black < g.end <= |s|
    && AllDigits(s, g.start, g.dot)
    && s[g.dot] != '\n'
    && AllSpace(s, g.dot + 1, g.white)
    && AllWord(s, g.white, g.whiteEnd)
    && AllSpace(s, g.whiteEnd, g.black)
    && AllWord(s, g.black, g.end)
    && (g.end == |s| || IsSpace(s[g.end]))
  }

  /** A run that ends where the class stops is the one `RunEnd` finds. */
  lemma {:induction false} RunEndUnique(s: string, p: nat, q: nat, cls: Class)
    requires p <= q <= |s|
    requires forall k :: p <= k < q ==> InClass(s[k], cls)
    requires q == |s| || !InClass(s[q], cls)
    ensures RunEnd(s, p, cls) == q
    decreases q - p
  {
    if p < q {
      RunEndUnique(s, p + 1, q, cls);
    }
  }

  /** `\s+\S+\s+\S+` from exactly `t`: each run is taken whole, since a shorter
      run would leave a character of its own class where the next class starts. */
  function TailAt(s: string, t: nat): (r: Option<Tail>)
    requires t <= |s|
    ensures r.Some? ==> t < r.value.white < r.value.whiteEnd < r.value.black < r.value.end <= |s|
  {
    var w := RunEnd(s, t, Space);
    var we := RunEnd(s, w, Word);
    var b := RunEnd(s, we, Space);
    var e := RunEnd(s, b, Word);
    if t < w < we < b < e then Some(Tail(w, we, b, e)) else None
  }

  /** What `TailAt` reports is white space, a word, white space and a word that
      ends the text or is followed by white space. */
  lemma TailAtFacts(s: string, t: nat)
    requires t <= |s|
    ensures TailAt(s, t).Some? ==> var r := TailAt(s, t).value;
      && AllSpace(s, t, r.white) && AllWord(s, r.white, r.whiteEnd)
      && AllSpace(s, r.whiteEnd, r.black) && AllWord(s, r.black, r.end)
      && (r.end == |s| || IsSpace(s[r.end]))
  {
    var w := RunEnd(s, t, Space);
    var we := RunEnd(s, w, Word);
    var b := RunEnd(s, we, Space);
    RunEndFacts(s, t, Space);
    RunEndFacts(s, w, Word);
    RunEndFacts(s, we, Space);
    RunEndFacts(s, b, Word);
  }

  /** The match the regex engine reports at `p`, if any: greedy `\d+` takes the
      whole digit run and `.` the character after it; failing that, `\d+` gives
      back one digit for `.` to take. Giving back more cannot help, as `\s+` would
      then face a digit. */
  function MatchAt(s: string, p: nat): (r: Option<Group>)
    ensures r.Some? ==> var g := r.value;
      g.start == p < g.dot && g.dot + 1 < g.white < g.whiteEnd < g.black < g.end <= |s|
  {
    if p >= |s| || !IsDigit(s[p]) then None
    else
      var k := RunEnd(s, p, Digit);
      var greedy := if k < |s| && s[k] != '\n' then TailAt(s, k + 1) else None;
      if greedy.Some? then
        var r := greedy.value;
        Some(Group(p, k, r.white, r.whiteEnd, r.black, r.end))
      else if k - p >= 2 && TailAt(s, k).Some? then
        var r := TailAt(s, k).value;
        Some(Group(p, k - 1, r.white, r.whiteEnd, r.black, r.end))
      else None
  }

  /** What `MatchAt` reports is a match. */
  lemma MatchAtIsGroup(s: string, p: nat)
    ensures MatchAt(s, p).Some? ==> IsGroup(s, MatchAt(s, p).value)
  {
    if p < |s| && IsDigit(s[p]) {
      var k := RunEnd(s, p, Digit);
      if k < |s| && s[k] != '\n' && TailAt(s, k + 1).Some? {
        WholeRunIsGroup(s, p, k);
      } else if k - p >= 2 && TailAt(s, k).Some? {
        GivenBackIsGroup(s, p, k);
      }
    }
  }

  lemma WholeRunIsGroup(s: string, p: nat, k: nat)
    requires p < |s| && IsDigit(s[p]) && k == RunEnd(s, p, Digit)
    requires k < |s| && s[k] != '\n' && TailAt(s, k + 1).Some?
    ensures var r := TailAt(s, k + 1).value; IsGroup(s, Group(p, k, r.white, r.whiteEnd, r.black, r.end))
  {
    assert InClass(s[p], Digit);
    RunEndFacts(s, p, Digit);
    TailAtFacts(s, k + 1);
  }

  lemma GivenBackIsGroup(s: string, p: nat, k: nat)
    requires p < |s| && k == RunEnd(s, p, Digit) && k - p >= 2 && TailAt(s, k).Some?
    ensures var r := TailAt(s, k).value; IsGroup(s, Group(p, k - 1, r.white, r.whiteEnd, r.black, r.end))
  {
    RunEndFacts(s, p, Digit);
    TailAtFacts(s, k);
    assert InClass(s[k - 1], Digit);
  }

  /** Whenever some match starts at `p`, the engine reports one there: that match,
      or, when it gave its last digit to `.`, the one that keeps that digit. */
  lemma MatchAtComplete(s: string, g: Group)
    requires IsGroup(s, g)
    ensures MatchAt(s, g.start) == Some(g) || MatchAt(s, g.start) == Some(g.(dot := g.dot + 1))
    ensures !IsDigit(s[g.dot]) ==> MatchAt(s, g.start) == Some(g)
  {
    if !IsDigit(s[g.dot]) {
      MatchAtWholeRun(s, g);
    } else if s[g.dot + 1] != '\n' && g.dot + 2 < g.white {
      MatchAtLongerRun(s, g);
    } else {
      MatchAtGivesBack(s, g);
    }
  }

  /** `\d+` takes the whole digit run and `.` the character after it. */
  lemma MatchAtWholeRun(s: string, g: Group)
    requires IsGroup(s, g) && !IsDigit(s[g.dot])
    ensures MatchAt(s, g.start) == Some(g)
  {
    assert IsDigit(s[g.start]);
    assert forall k :: g.start <= k < g.dot ==> InClass(s[k], Digit);
    RunEndUnique(s, g.start, g.dot, Digit);
    TailAtComplete(s, g.dot + 1, g);
  }

  /** The digit at `dot` belongs to the run and the white space after it is long
      enough for `.` to take its first character. */
  lemma MatchAtLongerRun(s: string, g: Group)
    requires IsGroup(s, g) && IsDigit(s[g.dot]) && s[g.dot + 1] != '\n' && g.dot + 2 < g.white
    ensures MatchAt(s, g.start) == Some(g.(dot := g.dot + 1))
  {
    var k := g.dot + 1;
    assert IsDigit(s[g.start]) && IsSpace(s[k]);
    assert forall j :: g.start <= j < k ==> InClass(s[j], Digit);
    RunEndUnique(s, g.start, k, Digit);
    TailAtComplete(s, k + 1, g);
  }

  /** The digit at `dot` belongs to the run, but `.` cannot take the white space
      after it, so `\d+` gives the digit back. */
  lemma MatchAtGivesBack(s: string, g: Group)
    requires IsGroup(s, g) && IsDigit(s[g.dot]) && (s[g.dot + 1] == '\n' || g.dot + 2 == g.white)
    ensures MatchAt(s, g.start) == Some(g)
  {
    var k := g.dot + 1;
    assert IsDigit(s[g.start]) && IsSpace(s[k]);
    assert forall j :: g.start <= j < k ==> InClass(s[j], Digit);
    RunEndUnique(s, g.start, k, Digit);
    TailAtComplete(s, k, g);
    if s[k] != '\n' {
      RunEndUnique(s, g.white, g.white, Space);
      assert TailAt(s, k + 1) == None;
    }
  }

  /** From anywhere in the white space after `.`, `TailAt` finds the rest of the
      match. */
  lemma TailAtComplete(s: string, t: nat, g: Group)
    requires IsGroup(s, g) && g.dot + 1 <= t < g.white
    ensures TailAt(s, t) == Some(Tail(g.white, g.whiteEnd, g.black, g.end))
  {
    RunEndUnique(s, t, g.white, Space);
    RunEndUnique(s, g.white, g.whiteEnd, Word);
    RunEndUnique(s, g.whiteEnd, g.black, Space);
    RunEndUnique(s, g.black, g.end, Word);
  }

  /** The leftmost match starting at or after `from`. */
  function FindGroup(s: string, from: nat): (r: Option<Group>)
    ensures r.Some? ==> from <= r.value.start < r.value.end <= |s|
    decreases |s| - from
  {
    if from >= |s| then None
    else match MatchAt(s, from)
      case Some(g) => Some(g)
      case None => FindGroup(s, from + 1)
  }

  /** What `FindGroup` reports is a match. */
  lemma {:induction false} FindGroupIsMatch(s: string, from: nat)
    ensures FindGroup(s, from).Some? ==> IsGroup(s, FindGroup(s, from).value)
    decreases |s| - from
  {
    if from < |s| {
      if MatchAt(s, from).None? {
        FindGroupIsMatch(s, from + 1);
        assert FindGroup(s, from) == FindGroup(s, from + 1);
      } else {
        assert FindGroup(s, from) == MatchAt(s, from);
        MatchAtIsGroup(s, from);
      }
    }
  }

  /** No match starts before the one `FindGroup` reports; when it reports none, no
      match starts at or after `from`. */
  lemma {:induction false} FindGroupLeftmost(s: string, from: nat)
    ensures FindGroup(s, from).Some? ==> forall p :: from <= p < FindGroup(s, from).value.start ==> MatchAt(s, p).None?
    ensures FindGroup(s, from).None? ==> forall p :: from <= p ==> MatchAt(s, p).None?
    decreases |s| - from
  {
    if from >= |s| {
      forall p | from <= p
        ensures MatchAt(s, p).None?
      {
        assert p >= |s|;
      }
    } else if MatchAt(s, from).None? {
      FindGroupLeftmost(s, from + 1);
      assert FindGroup(s, from) == FindGroup(s, from + 1);
    }
  }

  /** `captures_iter`: the leftmost match, then the leftmost match after its end,
      and so on. */
  function Groups(s: string, from: nat): (gs: seq<Group>)
    ensures forall k :: 0 <= k < |gs| ==> from <= gs[k].start < gs[k].end <= |s|
    ensures forall k :: 0 < k < |gs| ==> gs[k - 1].end <= gs[k].start
    decreases |s| - from
  {
    match FindGroup(s, from)
    case None => []
    case Some(g) => [g] + Groups(s, g.end)
  }

  /** Every group found is a match, the first is the leftmost one, and between two
      consecutive groups no match starts. */
  lemma {:induction false} GroupsAreLeftmostMatches(s: string, from: nat, k: nat)
    requires k < |Groups(s, from)|
    ensures IsGroup(s, Groups(s, from)[k])
    ensures forall p ::
      (if k == 0 then from else Groups(s, from)[k - 1].end) <= p < Groups(s, from)[k].start ==> MatchAt(s, p).None?
    decreases |s| - from
  {
    var g := FindGroup(s, from).value;
    FindGroupIsMatch(s, from);
    FindGroupLeftmost(s, from);
    if k > 0 {
      GroupsAreLeftmostMatches(s, g.end, k - 1);
    }
  }

  /** When no group is found, no match starts at or after `from`. */
  lemma NoGroups(s: string, from: nat)
    requires Groups(s, from) == []
    ensures forall p :: from <= p ==> MatchAt(s, p).None?
  {
    FindGroupLeftmost(s, from);
  }

  /** Some match of the move-group pattern makes the search from 0 succeed. */
  lemma FindGroupComplete(s: string)
    ensures (exists g :: IsGroup(s, g)) ==> FindGroup(s, 0).Some?
  {
    if g :| IsGroup(s, g) {
      MatchAtComplete(s, g);
      FindGroupLeftmost(s, 0);
    }
  }

  /** `Regex::is_match` for the move-group pattern: the line holds a match. */
  predicate HasGroup(s: string)
    ensures HasGroup(s) <==> exists g :: IsGroup(s, g)
  {
    FindGroupIsMatch(s, 0);
    FindGroupComplete(s);
    FindGroup(s, 0).Some?
  }

  /** The matched text of a group. */
  function GroupText(s: string, g: Group): string
    requires g.start <= g.end <= |s|
  {
    s[g.start..g.end]
  }

  /** The texts of the matches of `\d+.\s+\S+\s+\S+`, leftmost first. */
  function MatchTexts(text: string): (cs: seq<string>)
    ensures |cs| == |Groups(text, 0)|
    ensures forall k :: 0 <= k < |cs| ==> cs[k] == GroupText(text, Groups(text, 0)[k])
  {
    var gs := Groups(text, 0);
    seq(|gs|, k requires 0 <= k < |gs| => GroupText(text, gs[k]))
  }

  // ---------------------------------------------------------------------------
  // str::split_whitespace

  /** `str::split_whitespace`: the maximal runs of non-space characters. */
  function Words(s: string): (ws: seq<string>)
    ensures forall k :: 0 <= k < |ws| ==> ws[k] != [] && forall c :: c in ws[k] ==> !IsSpace(c)
    decreases |s|
  {
    if s == [] then []
    else if IsSpace(s[0]) then Words(s[1..])
    else
      var e := RunEnd(s, 0, Word);
      assert forall c :: c in s[..e] ==> !IsSpace(c) by {
        RunEndFacts(s, 0, Word);
        assert forall k :: 0 <= k < e ==> InClass(s[k], Word);
      }
      [s[..e]] + Words(s[e..])
  }

  /** White space before a word is skipped. */
  lemma {:induction false} WordsSkip(s: string, i: nat, j: nat)
    requires i <= j <= |s| && AllSpace(s, i, j)
    ensures Words(s[i..]) == Words(s[j..])
    decreases j - i
  {
    if i < j {
      assert s[i..][1..] == s[i + 1..];
      WordsSkip(s, i + 1, j);
    }
  }

  /** A run of non-space characters ended by white space or the end of the text is
      one word. */
  lemma WordsTake(s: string, i: nat, j: nat)
    requires i < j <= |s| && AllWord(s, i, j) && (j == |s| || IsSpace(s[j]))
    ensures Words(s[i..]) == [s[i..j]] + Words(s[j..])
  {
    var t := s[i..];
    RunEndUnique(t, 0, j - i, Word);
    assert t[..j - i] == s[i..j];
    assert t[j - i..] == s[j..];
  }

  /** The text of a match splits into three words: the move number (with the
      character matched by `.`, unless that is white space), the white move and the
      black move. */
  lemma GroupWords(s: string, g: Group)
    requires IsGroup(s, g)
    ensures Words(GroupText(s, g)) ==
      [if IsSpace(s[g.dot]) then s[g.start..g.dot] else s[g.start..g.dot + 1],
       s[g.white..g.whiteEnd], s[g.black..g.end]]
  {
    var t := GroupText(s, g);
    var o := g.start;
    var a := if IsSpace(s[g.dot]) then g.dot - o else g.dot + 1 - o;
    GroupShape(s, g, a);
    ThreeWords(t, a, g.white - o, g.whiteEnd - o, g.black - o);
    SliceOfSlice(s, o, g.end, a, g.white - o, g.whiteEnd - o, g.black - o);
  }

  /** The runs of a match, relative to its own text. */
  lemma GroupShape(s: string, g: Group, a: nat)
    requires IsGroup(s, g)
    requires a == if IsSpace(s[g.dot]) then g.dot - g.start else g.dot + 1 - g.start
    ensures var t, o := GroupText(s, g), g.start;
      && 0 < a < g.white - o < g.whiteEnd - o < g.black - o < |t|
      && AllWord(t, 0, a) && AllSpace(t, a, g.white - o) && AllWord(t, g.white - o, g.whiteEnd - o)
      && AllSpace(t, g.whiteEnd - o, g.black - o) && AllWord(t, g.black - o, |t|)
  {
    var t := GroupText(s, g);
    var o := g.start;
    forall k | 0 <= k < |t| ensures t[k] == s[o + k] && (k < g.dot - o ==> IsWordChar(t[k])) {
      if k < g.dot - o {
        assert IsDigit(s[o + k]);
      }
    }
  }

  /** The three pieces of `s[lo..hi]` that `ThreeWords` names, as slices of `s`. */
  lemma SliceOfSlice(s: string, lo: nat, hi: nat, a: nat, i: nat, j: nat, b: nat)
    requires lo <= hi <= |s| && a <= hi - lo && i <= j <= hi - lo && b <= hi - lo
    ensures s[lo..hi][..a] == s[lo..lo + a]
    ensures s[lo..hi][i..j] == s[lo + i..lo + j]
    ensures s[lo..hi][b..] == s[lo + b..hi]
  {
    var t := s[lo..hi];
    assert forall k :: 0 <= k < a ==> t[..a][k] == s[lo..lo + a][k];
    assert forall k :: 0 <= k < j - i ==> t[i..j][k] == s[lo + i..lo + j][k];
    assert forall k :: 0 <= k < |t| - b ==> t[b..][k] == s[lo + b..hi][k];
  }

  /** A word, white space, a word, white space and a final word: three words. */
  lemma ThreeWords(t: string, a: nat, w: nat, we: nat, b: nat)
    requires 0 < a < w < we < b < |t|
    requires AllWord(t, 0, a) && AllSpace(t, a, w) && AllWord(t, w, we)
    requires AllSpace(t, we, b) && AllWord(t, b, |t|)
    ensures Words(t) == [t[..a], t[w..we], t[b..]]
  {
    LastWord(t, b);
    WordThenSpace(t, w, we, b);
    WordThenSpace(t, 0, a, w);
    assert t[0..] == t && t[0..a] == t[..a];
  }

  /** A word that runs to the end of the text. */
  lemma LastWord(t: string, b: nat)
    requires b < |t| && AllWord(t, b, |t|)
    ensures Words(t[b..]) == [t[b..]]
  {
    WordsTake(t, b, |t|);
    assert t[|t|..] == [] && t[b..|t|] == t[b..];
  }

  /** A word followed by white space: the word, then the words after the space. */
  lemma WordThenSpace(t: string, i: nat, j: nat, k: nat)
    requires i < j < k <= |t| && AllWord(t, i, j) && AllSpace(t, j, k)
    ensures Words(t[i..]) == [t[i..j]] + Words(t[k..])
  {
    WordsTake(t, i, j);
    WordsSkip(t, j, k);
  }

  // ---------------------------------------------------------------------------
  // u16::from_str

  function DigitsValue(s: string): (v: nat)
    requires forall k :: 0 <= k < |s| ==> IsDigit(s[k])
  {
    if s == [] then 0
    else
      assert IsDigit(s[|s| - 1]);
      10 * DigitsValue(s[..|s| - 1]) + (s[|s| - 1] as int - '0' as int)
  }

  /** `str::parse::<u16>`: an optional `+` and then at least one digit, with a
      value below 65536. */
  function ParseU16(s: string): (r: Option<nat>)
    ensures r.Some? ==> r.value < 65536
    ensures r.Some? ==> var d := Unsigned(s);
      d != [] && (forall k :: 0 <= k < |d| ==> IsDigit(d[k])) && r.value == DigitsValue(d)
  {
    var digits := Unsigned(s);
    if digits != [] && forall k :: 0 <= k < |digits| ==> IsDigit(digits[k]) then
      var v := DigitsValue(digits);
      if v < 65536 then Some(v) else None
    else None
  }

  /** The text without one leading `+`, when something follows the sign. */
  function Unsigned(s: string): (d: string)
    ensures d == s || (s == "+" + d && d != [])
  {
    if |s| >= 2 && s[0] == '+' then s[1..] else s
  }

  /** `u16::from_str` refuses a text holding a non-digit after the optional sign. */
  lemma ParseU16Refuses(s: string, k: nat)
    requires k < |Unsigned(s)| && !IsDigit(Unsigned(s)[k])
    ensures ParseU16(s) == None
  {
  }

  /** A nonempty run of digits parses to its value when that fits in a `u16`. */
  lemma ParseU16Digits(s: string)
    requires s != [] && forall k :: 0 <= k < |s| ==> IsDigit(s[k])
    ensures ParseU16(s) == if DigitsValue(s) < 65536 then Some(DigitsValue(s)) else None
  {
    assert IsDigit(s[0]);
  }

  /** The decimal digits of `n`, most significant first, without leading zeros. */
  function Decimal(n: nat): (s: string)
    ensures s != [] && forall k :: 0 <= k < |s| ==> IsDigit(s[k])
  {
    if n < 10 then [('0' as int + n) as char]
    else Decimal(n / 10) + [('0' as int + n % 10) as char]
  }

  /** Reading back the decimal digits gives the number. */
  lemma {:induction false} DecimalValue(n: nat)
    ensures DigitsValue(Decimal(n)) == n
  {
    var s := Decimal(n);
    if n < 10 {
      assert s[..0] == [];
    } else {
      assert s[..|s| - 1] == Decimal(n / 10);
      DecimalValue(n / 10);
    }
  }

  /** `u16::from_str` reads back every decimal numeral, and refuses those of 65536
      and more. */
  lemma ParseU16Decimal(n: nat)
    ensures ParseU16(Decimal(n)) == if n < 65536 then Some(n) else None
  {
    DecimalValue(n);
  }
}
