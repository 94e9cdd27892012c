/** Files a to h of the board (crates/ci-core/src/file.rs). */
module Files {
  import opened Wrappers
  import Bits

  /** The enum, in declaration order: the discriminant of A is 0, of H is 7. */
  datatype File = A | B | C | D | E | F | G | H

  const AllFiles: seq<File> := [A, B, C, D, E, F, G, H]

  /** ASCII lower-casing of one character. */
  function LowerChar(c: char): (r: char)
    ensures 'A' <= c <= 'Z' ==> r as int == c as int + 32
    ensures !('A' <= c <= 'Z') ==> r == c
  {
    if 'A' <= c <= 'Z' then (c as int + 32) as char else c
  }

  /** `str::to_lowercase`, on the ASCII letters. */
  function Lowercase(s: string): (r: string)
    ensures |r| == |s|
    ensures forall k :: 0 <= k < |s| ==> r[k] == LowerChar(s[k])
  {
    seq(|s|, k requires 0 <= k < |s| => LowerChar(s[k]))
  }

  /** `File::from_str`: lower-case the text, then read one of "a" to "h". */
  function FromStr(s: string): (r: Option<File>)
    ensures r.Some? ==> |s| == 1 && ToStr(r.value) == Lowercase(s)
  {
    match Lowercase(s)
    case "a" => Some(A)
    case "b" => Some(B)
    case "c" => Some(C)
    case "d" => Some(D)
    case "e" => Some(E)
    case "f" => Some(F)
    case "g" => Some(G)
    case "h" => Some(H)
    case _ => None
  }

  /** The enum value with discriminant `d`, which is what `transmute` yields. */
  function FromDiscriminant(d: nat): File
    requires d < 8
  {
    match d
    case 0 => A
    case 1 => B
    case 2 => C
    case 3 => D
    case 4 => E
    case 5 => F
    case 6 => G
    case _ => H
  }

  /** `File::from_index`: cast to `u8` (keep the value modulo 256), then keep the
      low three bits (`& 7`), then reinterpret as the discriminant. */
  function FromIndex(i: nat): (f: File)
    ensures ToIndex(f) == i % 8
  {
    var byte := i % 256;
    Bits.LowBitsOfByte(i);
    FromDiscriminant(byte % 8)
  }

  /** `File::to_index`: the discriminant. */
  function ToIndex(f: File): (i: nat)
    ensures i < 8
    ensures AllFiles[i] == f
  {
    match f
    case A => 0
    case B => 1
    case C => 2
    case D => 3
    case E => 4
    case F => 5
    case G => 6
    case H => 7
  }

  /** `File::to_int`: the position of `f` in `ALL_FILES` (the `unwrap` never fails). */
  function ToInt(f: File): (i: int)
    ensures 0 <= i < 8
    ensures AllFiles[i] == f
  {
    var p := Position(AllFiles, f);
    assert f in AllFiles by { assert AllFiles[ToIndex(f)] == f; }
    p.value
  }

  /** `File::to_str`: the lower-case letter. */
  function ToStr(f: File): (s: string)
    ensures |s| == 1 && s[0] as int == 'a' as int + ToIndex(f)
  {
    match f
    case A => "a"
    case B => "b"
    case C => "c"
    case D => "d"
    case E => "e"
    case F => "f"
    case G => "g"
    case H => "h"
  }

  /** Exactly the one-letter strings "a" to "h" and "A" to "H" are files. */
  lemma FromStrAccepts(s: string)
    ensures FromStr(s).Some? <==> |s| == 1 && ('a' <= s[0] <= 'h' || 'A' <= s[0] <= 'H')
  {
    if |s| == 1 && ('a' <= s[0] <= 'h' || 'A' <= s[0] <= 'H') {
      var c := LowerChar(s[0]);
      assert Lowercase(s) == [c];
      assert 'a' <= c <= 'h';
    }
  }

  /** A lower-case letter names the file at its distance from 'a'. */
  lemma FromLetter(s: string)
    requires |s| == 1 && 'a' <= s[0] <= 'h'
    ensures FromStr(s).Some? && ToIndex(FromStr(s).value) == s[0] as int - 'a' as int
  {
    assert Lowercase(s) == s;
    assert s == [s[0]];
  }

  lemma FromIndexKeepsLowBits(i: nat)
    ensures FromIndex(i) == FromIndex(i % 8)
  {
  }

  lemma IndexRoundTrip(f: File, i: nat)
    ensures FromIndex(ToIndex(f)) == f
    ensures ToIndex(FromIndex(i)) == i % 8
  {
  }

  lemma ToIntIsToIndex(f: File)
    ensures ToInt(f) == ToIndex(f)
  {
  }

  lemma StrRoundTrip(f: File)
    ensures |ToStr(f)| == 1 && 'a' <= ToStr(f)[0] <= 'h'
    ensures FromStr(ToStr(f)) == Some(f)
  {
    assert Lowercase(ToStr(f)) == ToStr(f);
  }
}
