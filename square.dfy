/** Squares packed into one byte, rank in the high bits and file in the low three
    (crates/ci-core/src/square.rs). */
module Squares {
  import Ranks
  import Files
  import Bits

  type Byte = x: nat | x < 256

  /** `struct Square(pub u8)`: any byte, not only 0 to 63, can be wrapped. */
  datatype Square = Square(value: Byte)

  /** `Square::new`: `(rank as u8) << 3 ^ (file as u8)`. */
  function New(r: Ranks.Rank, f: Files.File): (s: Square)
    ensures s.value == 8 * Ranks.ToIndex(r) + Files.ToIndex(f)
    ensures s.value < 64
  {
    var high := Bits.ShiftLeftByte(Ranks.ToIndex(r), 3);
    Bits.XorDisjointLow(Ranks.ToIndex(r), 3, Files.ToIndex(f));
    Square(Bits.Xor(high, Files.ToIndex(f)))
  }

  /** `Square::rank`: the value shifted right by three, through `Rank::from_index`. */
  function RankOf(s: Square): (r: Ranks.Rank)
    ensures Ranks.ToIndex(r) == (s.value / 8) % 8
  {
    Ranks.FromIndex(s.value / 8)
  }

  /** `Square::file`: the value masked with 7, through `File::from_index`. */
  function FileOf(s: Square): (f: Files.File)
    ensures Files.ToIndex(f) == s.value % 8
  {
    Files.FromIndex(s.value % 8)
  }

  /** `Square::to_index` and `Square::to_int`: the stored byte. */
  function ToIndex(s: Square): (i: nat)
    ensures i == s.value && i < 256
  {
    s.value
  }

  /** A square below 64 is the packing of its own rank and file. */
  lemma Unpack(s: Square)
    requires s.value < 64
    ensures New(RankOf(s), FileOf(s)) == s
  {
    var v := s.value;
    assert Ranks.ToIndex(RankOf(s)) == v / 8 by {
      assert (v / 8) % 8 == v / 8;
    }
    assert Files.ToIndex(FileOf(s)) == v % 8;
    assert New(RankOf(s), FileOf(s)).value == v;
  }

  /** `Square::coordinate`: (file position, rank position), for a renderer. */
  function Coordinate(s: Square): (c: (int, int))
    ensures 0 <= c.0 < 8 && 0 <= c.1 < 8
    ensures c.0 == s.value % 8 && c.1 == (s.value / 8) % 8
  {
    assert (s.value % 8) % 8 == s.value % 8;
    Files.ToIntIsToIndex(FileOf(s));
    Ranks.ToIntIsToIndex(RankOf(s));
    (Files.ToInt(FileOf(s)), Ranks.ToInt(RankOf(s)))
  }

  /** Packing and unpacking agree: a square built from a rank and a file gives them back. */
  lemma NewRoundTrip(r: Ranks.Rank, f: Files.File)
    ensures RankOf(New(r, f)) == r
    ensures FileOf(New(r, f)) == f
    ensures ToIndex(New(r, f)) == 8 * Ranks.ToIndex(r) + Files.ToIndex(f)
  {
    var v := New(r, f).value;
    assert v / 8 == Ranks.ToIndex(r) && v % 8 == Files.ToIndex(f);
    Ranks.IndexRoundTrip(r, v / 8);
    Files.IndexRoundTrip(f, v % 8);
  }

  /** Any byte, also one of 64 or more, reads as rank (i / 8) modulo 8 and file i modulo 8. */
  lemma ByIndex(i: Byte)
    ensures Ranks.ToIndex(RankOf(Square(i))) == (i / 8) % 8
    ensures Files.ToIndex(FileOf(Square(i))) == i % 8
    ensures i < 64 ==> Ranks.ToIndex(RankOf(Square(i))) == i / 8
  {
  }

  /** The unit tests of square.rs. */
  lemma Examples()
    ensures New(Ranks.One, Files.A).value == 0
    ensures RankOf(New(Ranks.Six, Files.A)) == Ranks.Six
    ensures FileOf(New(Ranks.Six, Files.H)) == Files.H
    ensures RankOf(Square(32)) == Ranks.Five && FileOf(Square(32)) == Files.A
  {
    NewRoundTrip(Ranks.Six, Files.A);
    NewRoundTrip(Ranks.Six, Files.H);
  }

  const A1: Square := Square(0)
  const B1: Square := Square(1)
  const C1: Square := Square(2)
  const D1: Square := Square(3)
  const E1: Square := Square(4)
  const F1: Square := Square(5)
  const G1: Square := Square(6)
  const H1: Square := Square(7)
  const A2: Square := Square(8)
  const B2: Square := Square(9)
  const C2: Square := Square(10)
  const D2: Square := Square(11)
  const E2: Square := Square(12)
  const F2: Square := Square(13)
  const G2: Square := Square(14)
  const H2: Square := Square(15)
  const A3: Square := Square(16)
  const B3: Square := Square(17)
  const C3: Square := Square(18)
  const D3: Square := Square(19)
  const E3: Square := Square(20)
  const F3: Square := Square(21)
  const G3: Square := Square(22)
  const H3: Square := Square(23)
  const A4: Square := Square(24)
  const B4: Square := Square(25)
  const C4: Square := Square(26)
  const D4: Square := Square(27)
  const E4: Square := Square(28)
  const F4: Square := Square(29)
  const G4: Square := Square(30)
  const H4: Square := Square(31)
  const A5: Square := Square(32)
  const B5: Square := Square(33)
  const C5: Square := Square(34)
  const D5: Square := Square(35)
  const E5: Square := Square(36)
  const F5: Square := Square(37)
  const G5: Square := Square(38)
  const H5: Square := Square(39)
  const A6: Square := Square(40)
  const B6: Square := Square(41)
  const C6: Square := Square(42)
  const D6: Square := Square(43)
  const E6: Square := Square(44)
  const F6: Square := Square(45)
  const G6: Square := Square(46)
  const H6: Square := Square(47)
  const A7: Square := Square(48)
  const B7: Square := Square(49)
  const C7: Square := Square(50)
  const D7: Square := Square(51)
  const E7: Square := Square(52)
  const F7: Square := Square(53)
  const G7: Square := Square(54)
  const H7: Square := Square(55)
  const A8: Square := Square(56)
  const B8: Square := Square(57)
  const C8: Square := Square(58)
  const D8: Square := Square(59)
  const E8: Square := Square(60)
  const F8: Square := Square(61)
  const G8: Square := Square(62)
  const H8: Square := Square(63)

  /** Each named constant XN is the square of file X and rank N. */
  lemma NamedSquares()
    ensures A1 == New(Ranks.One, Files.A) && B1 == New(Ranks.One, Files.B) && C1 == New(Ranks.One, Files.C) && D1 == New(Ranks.One, Files.D) && E1 == New(Ranks.One, Files.E) && F1 == New(Ranks.One, Files.F) && G1 == New(Ranks.One, Files.G) && H1 == New(Ranks.One, Files.H)
    ensures A2 == New(Ranks.Two, Files.A) && B2 == New(Ranks.Two, Files.B) && C2 == New(Ranks.Two, Files.C) && D2 == New(Ranks.Two, Files.D) && E2 == New(Ranks.Two, Files.E) && F2 == New(Ranks.Two, Files.F) && G2 == New(Ranks.Two, Files.G) && H2 == New(Ranks.Two, Files.H)
    ensures A3 == New(Ranks.Three, Files.A) && B3 == New(Ranks.Three, Files.B) && C3 == New(Ranks.Three, Files.C) && D3 == New(Ranks.Three, Files.D) && E3 == New(Ranks.Three, Files.E) && F3 == New(Ranks.Three, Files.F) && G3 == New(Ranks.Three, Files.G) && H3 == New(Ranks.Three, Files.H)
    ensures A4 == New(Ranks.Four, Files.A) && B4 == New(Ranks.Four, Files.B) && C4 == New(Ranks.Four, Files.C) && D4 == New(Ranks.Four, Files.D) && E4 == New(Ranks.Four, Files.E) && F4 == New(Ranks.Four, Files.F) && G4 == New(Ranks.Four, Files.G) && H4 == New(Ranks.Four, Files.H)
    ensures A5 == New(Ranks.Five, Files.A) && B5 == New(Ranks.Five, Files.B) && C5 == New(Ranks.Five, Files.C) && D5 == New(Ranks.Five, Files.D) && E5 == New(Ranks.Five, Files.E) && F5 == New(Ranks.Five, Files.F) && G5 == New(Ranks.Five, Files.G) && H5 == New(Ranks.Five, Files.H)
    ensures A6 == New(Ranks.Six, Files.A) && B6 == New(Ranks.Six, Files.B) && C6 == New(Ranks.Six, Files.C) && D6 == New(Ranks.Six, Files.D) && E6 == New(Ranks.Six, Files.E) && F6 == New(Ranks.Six, Files.F) && G6 == New(Ranks.Six, Files.G) && H6 == New(Ranks.Six, Files.H)
    ensures A7 == New(Ranks.Seven, Files.A) && B7 == New(Ranks.Seven, Files.B) && C7 == New(Ranks.Seven, Files.C) && D7 == New(Ranks.Seven, Files.D) && E7 == New(Ranks.Seven, Files.E) && F7 == New(Ranks.Seven, Files.F) && G7 == New(Ranks.Seven, Files.G) && H7 == New(Ranks.Seven, Files.H)
    ensures A8 == New(Ranks.Eight, Files.A) && B8 == New(Ranks.Eight, Files.B) && C8 == New(Ranks.Eight, Files.C) && D8 == New(Ranks.Eight, Files.D) && E8 == New(Ranks.Eight, Files.E) && F8 == New(Ranks.Eight, Files.F) && G8 == New(Ranks.Eight, Files.G) && H8 == New(Ranks.Eight, Files.H)
  {
  }
}
