/** The older copy of the file type (src/lib/file.rs): the same enum and conversions,
    without `to_int` and `to_str`. */
module LegacyFiles {
  import opened Wrappers
  import Files
  import Bits

  datatype File = A | B | C | D | E | F | G | H

  const AllFiles: seq<File> := [A, B, C, D, E, F, G, H]

  /** `File::from_str`: lower-case the text, then read one of "a" to "h". */
  function FromStr(s: string): (r: Option<File>)
    ensures r.Some? ==> |s| == 1
  {
    match Files.Lowercase(s)
    case "a" => Some(A)
    case "b" => Some(B)
    case "c" => Some(C)
    case "d" => Some(D)
    case "e" => Some(E)
    case "f" => Some(F)
    case "g" => Some(G)
    case "h" => Some(H)
    case _ => None
  }

  /** `File::from_index`: the discriminant `(i as u8) & 7`. */
  function FromIndex(i: nat): (f: File)
    ensures ToIndex(f) == i % 8
  {
    Bits.LowBitsOfByte(i);
    AllFiles[(i % 256) % 8]
  }

  /** `File::to_index`: the discriminant, A = 0 to H = 7. */
  function ToIndex(f: File): (i: nat)
    ensures i < 8 && AllFiles[i] == f
  {
    match f
    case A => 0
    case B => 1
    case C => 2
    case D => 3
    case E => 4
    case F => 5
    case G => 6
    case H => 7
  }

  /** The file of the newer crate with the same discriminant. */
  function ToCore(f: File): (g: Files.File)
    ensures Files.ToIndex(g) == ToIndex(f)
  {
    Files.FromIndex(ToIndex(f))
  }

  /** The older copy behaves as the newer one on every input. */
  lemma AgreesWithCore(s: string, i: nat, f: File)
    ensures FromStr(s).Some? == Files.FromStr(s).Some?
    ensures FromStr(s).Some? ==> ToCore(FromStr(s).value) == Files.FromStr(s).value
    ensures ToCore(FromIndex(i)) == Files.FromIndex(i)
    ensures Files.ToIndex(ToCore(f)) == ToIndex(f)
  {
    Files.IndexRoundTrip(Files.FromIndex(i), i);
  }

  /** Case-insensitive over a to h, nothing else. */
  lemma FromStrAccepts(s: string)
    ensures FromStr(s).Some? <==> |s| == 1 && ('a' <= s[0] <= 'h' || 'A' <= s[0] <= 'H')
  {
    AgreesWithCore(s, 0, A);
    Files.FromStrAccepts(s);
  }

  lemma FromIndexKeepsLowBits(i: nat)
    ensures FromIndex(i) == FromIndex(i % 8)
  {
  }

  lemma IndexRoundTrip(f: File)
    ensures FromIndex(ToIndex(f)) == f
  {
  }
}
