/** Bytes, 16-bit words and their big-endian layout on the wire. */
module Words {

  type byte = x: int | 0 <= x < 0x100
  type u16 = x: int | 0 <= x < 0x1_0000

  datatype Option<+T> = None | Some(value: T)

  /** The two bytes of a word, most significant first. */
  function Be(x: u16): (s: seq<byte>)
    ensures |s| == 2
  {
    [x / 0x100, x % 0x100]
  }

  function U16(hi: byte, lo: byte): u16 {
    0x100 * hi + lo
  }

  /** The word whose big-endian bytes stand at position i. */
  function WordAt(s: seq<byte>, i: nat): u16
    requires i + 2 <= |s|
  {
    U16(s[i], s[i + 1])
  }

  /** Words laid out one after another, each most significant byte first. */
  function BeAll(ws: seq<u16>): (s: seq<byte>)
    ensures |s| == 2 * |ws|
  {
    if ws == [] then [] else BeAll(ws[..|ws| - 1]) + Be(ws[|ws| - 1])
  }

  /** The words of a byte sequence; an odd last byte is dropped. */
  function WordsOf(s: seq<byte>): (ws: seq<u16>)
    ensures |ws| == |s| / 2
    ensures forall i {:trigger ws[i]} :: 0 <= i < |ws| ==> ws[i] == U16(s[2 * i], s[2 * i + 1])
  {
    seq(|s| / 2, i requires 0 <= i < |s| / 2 => U16(s[2 * i], s[2 * i + 1]))
  }

  lemma {:induction false} BeAllAt(ws: seq<u16>, i: nat)
    requires i < |ws|
    ensures BeAll(ws)[2 * i] == ws[i] / 0x100
    ensures BeAll(ws)[2 * i + 1] == ws[i] % 0x100
  {
    if i < |ws| - 1 {
      BeAllAt(ws[..|ws| - 1], i);
    }
  }

  /** Decoding undoes encoding. */
  lemma WordsOfBeAll(ws: seq<u16>)
    ensures WordsOf(BeAll(ws)) == ws
  {
    forall i | 0 <= i < |ws|
      ensures WordsOf(BeAll(ws))[i] == ws[i]
    {
      BeAllAt(ws, i);
    }
  }

  lemma SliceOfSlice(m: seq<byte>, i: nat, end: nat, a: nat, b: nat)
    requires i <= end <= |m| && a <= b <= end - i
    ensures m[i..end][a..b] == m[i + a..i + b]
  {
    var s := m[i..end];
    forall k | 0 <= k < b - a
      ensures s[a..b][k] == m[i + a..i + b][k]
    {
      assert s[a..b][k] == s[a + k];
    }
  }
}
