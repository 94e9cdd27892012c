/** The older copy of the rank type (src/lib/rank.rs): the same enum and conversions,
    without `to_int` and `to_str`. */
module LegacyRanks {
  import opened Wrappers
  import Ranks
  import Bits

  datatype Rank = One | Two | Three | Four | Five | Six | Seven | Eight

  const AllRanks: seq<Rank> := [One, Two, Three, Four, Five, Six, Seven, Eight]

  /** `Rank::from_str`: exactly one of "1" to "8". */
  function FromStr(s: string): (r: Option<Rank>)
    ensures r.Some? ==> |s| == 1
  {
    match s
    case "1" => Some(One)
    case "2" => Some(Two)
    case "3" => Some(Three)
    case "4" => Some(Four)
    case "5" => Some(Five)
    case "6" => Some(Six)
    case "7" => Some(Seven)
    case "8" => Some(Eight)
    case _ => None
  }

  /** `Rank::from_index`: the discriminant `(i as u8) & 7`. */
  function FromIndex(i: nat): (r: Rank)
    ensures ToIndex(r) == i % 8
  {
    Bits.LowBitsOfByte(i);
    AllRanks[(i % 256) % 8]
  }

  /** `Rank::to_index`: the discriminant, One = 0 to Eight = 7. */
  function ToIndex(r: Rank): (i: nat)
    ensures i < 8 && AllRanks[i] == r
  {
    match r
    case One => 0
    case Two => 1
    case Three => 2
    case Four => 3
    case Five => 4
    case Six => 5
    case Seven => 6
    case Eight => 7
  }

  /** The rank of the newer crate with the same discriminant. */
  function ToCore(r: Rank): (q: Ranks.Rank)
    ensures Ranks.ToIndex(q) == ToIndex(r)
  {
    Ranks.FromIndex(ToIndex(r))
  }

  /** The older copy behaves as the newer one on every input. */
  lemma AgreesWithCore(s: string, i: nat, r: Rank)
    ensures FromStr(s).Some? == Ranks.FromStr(s).Some?
    ensures FromStr(s).Some? ==> ToCore(FromStr(s).value) == Ranks.FromStr(s).value
    ensures ToCore(FromIndex(i)) == Ranks.FromIndex(i)
    ensures Ranks.ToIndex(ToCore(r)) == ToIndex(r)
  {
    Ranks.IndexRoundTrip(Ranks.FromIndex(i), i);
  }

  /** Exactly "1" to "8". */
  lemma FromStrAccepts(s: string)
    ensures FromStr(s).Some? <==> |s| == 1 && '1' <= s[0] <= '8'
  {
    AgreesWithCore(s, 0, One);
    Ranks.FromStrAccepts(s);
  }

  lemma FromIndexKeepsLowBits(i: nat)
    ensures FromIndex(i) == FromIndex(i % 8)
  {
  }

  lemma IndexRoundTrip(r: Rank)
    ensures FromIndex(ToIndex(r)) == r
  {
  }
}
