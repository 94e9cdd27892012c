/** Ranks 1 to 8 of the board (crates/ci-core/src/rank.rs). */
module Ranks {
  import opened Wrappers
  import Bits

  /** The enum, in declaration order: the discriminant of One is 0, of Eight is 7. */
  datatype Rank = One | Two | Three | Four | Five | Six | Seven | Eight

  const AllRanks: seq<Rank> := [One, Two, Three, Four, Five, Six, Seven, Eight]

  /** `Rank::from_str`: exactly one of "1" to "8", with no case folding. */
  function FromStr(s: string): (r: Option<Rank>)
    ensures r.Some? ==> ToStr(r.value) == s
  {
    match s
    case "1" => Some(One)
    case "2" => Some(Two)
    case "3" => Some(Three)
    case "4" => Some(Four)
    case "5" => Some(Five)
    case "6" => Some(Six)
    case "7" => Some(Seven)
    case "8" => Some(Eight)
    case _ => None
  }

  /** The enum value with discriminant `d`, which is what `transmute` yields. */
  function FromDiscriminant(d: nat): Rank
    requires d < 8
  {
    match d
    case 0 => One
    case 1 => Two
    case 2 => Three
    case 3 => Four
    case 4 => Five
    case 5 => Six
    case 6 => Seven
    case _ => Eight
  }

  /** `Rank::from_index`: cast to `u8` (keep the value modulo 256), then keep the
      low three bits (`& 7`), then reinterpret as the discriminant. */
  function FromIndex(i: nat): (r: Rank)
    ensures ToIndex(r) == i % 8
  {
    var byte := i % 256;
    Bits.LowBitsOfByte(i);
    FromDiscriminant(byte % 8)
  }

  /** `Rank::to_index`: the discriminant. */
  function ToIndex(r: Rank): (i: nat)
    ensures i < 8
    ensures AllRanks[i] == r
  {
    match r
    case One => 0
    case Two => 1
    case Three => 2
    case Four => 3
    case Five => 4
    case Six => 5
    case Seven => 6
    case Eight => 7
  }

  /** `Rank::to_int`: the position of `r` in `ALL_RANKS` (the `unwrap` never fails). */
  function ToInt(r: Rank): (i: int)
    ensures 0 <= i < 8
    ensures AllRanks[i] == r
  {
    var p := Position(AllRanks, r);
    assert r in AllRanks by { assert AllRanks[ToIndex(r)] == r; }
    p.value
  }

  /** `Rank::to_str`: the digit. */
  function ToStr(r: Rank): (s: string)
    ensures |s| == 1 && s[0] as int == '1' as int + ToIndex(r)
  {
    match r
    case One => "1"
    case Two => "2"
    case Three => "3"
    case Four => "4"
    case Five => "5"
    case Six => "6"
    case Seven => "7"
    case Eight => "8"
  }

  /** Exactly the one-digit strings "1" to "8" are ranks. */
  lemma FromStrAccepts(s: string)
    ensures FromStr(s).Some? <==> |s| == 1 && '1' <= s[0] <= '8'
  {
    if |s| == 1 && '1' <= s[0] <= '8' {
      assert s == [s[0]];
    }
  }

  /** A digit names the rank at its distance from '1'. */
  lemma FromDigit(s: string)
    requires |s| == 1 && '1' <= s[0] <= '8'
    ensures FromStr(s).Some? && ToIndex(FromStr(s).value) == s[0] as int - '1' as int
  {
    assert s == [s[0]];
  }

  lemma FromIndexKeepsLowBits(i: nat)
    ensures FromIndex(i) == FromIndex(i % 8)
  {
  }

  lemma IndexRoundTrip(r: Rank, i: nat)
    ensures FromIndex(ToIndex(r)) == r
    ensures ToIndex(FromIndex(i)) == i % 8
  {
  }

  lemma ToIntIsToIndex(r: Rank)
    ensures ToInt(r) == ToIndex(r)
  {
  }

  lemma StrRoundTrip(r: Rank)
    ensures |ToStr(r)| == 1 && '1' <= ToStr(r)[0] <= '8'
    ensures FromStr(ToStr(r)) == Some(r)
  {
  }
}
