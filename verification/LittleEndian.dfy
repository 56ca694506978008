/** Bytes, little-endian words and in-place overwriting of byte ranges. */
module LittleEndian {

  type Byte = b: int | 0 <= b < 0x100
  type U16 = x: int | 0 <= x < 0x1_0000
  type U32 = x: int | 0 <= x < 0x1_0000_0000

  /** Two bytes, the low one first. */
  function EncodeU16(x: U16): (r: seq<Byte>)
    ensures |r| == 2 && x == r[0] as int + 0x100 * r[1] as int
  {
    [x % 0x100, x / 0x100]
  }

  function DecodeU16(s: seq<Byte>, at: nat): U16
    requires at + 2 <= |s|
  {
    s[at] as int + 0x100 * s[at + 1] as int
  }

  /** Four bytes, the lowest first. */
  function EncodeU32(x: U32): (r: seq<Byte>)
    ensures |r| == 4
    ensures x == r[0] as int + 0x100 * r[1] as int + 0x1_0000 * r[2] as int + 0x100_0000 * r[3] as int
  {
    var (a, b, c) := (x / 0x100, x / 0x100 / 0x100, x / 0x100 / 0x100 / 0x100);
    [x % 0x100, a % 0x100, b % 0x100, c]
  }

  function DecodeU32(s: seq<Byte>, at: nat): U32
    requires at + 4 <= |s|
  {
    s[at] as int + 0x100 * s[at + 1] as int + 0x1_0000 * s[at + 2] as int + 0x100_0000 * s[at + 3] as int
  }

  /** A word survives being written at `at` and read back. */
  lemma U32RoundTrip(x: U32, s: seq<Byte>, at: nat)
    requires at + 4 <= |s| && s[at..at + 4] == EncodeU32(x)
    ensures DecodeU32(s, at) == x
  {
    var e := s[at..at + 4];
    assert s[at] == e[0] && s[at + 1] == e[1] && s[at + 2] == e[2] && s[at + 3] == e[3];
  }

  function EncodeWords(ws: seq<U32>): (r: seq<Byte>)
    ensures |r| == 4 * |ws|
  {
    if ws == [] then [] else EncodeU32(ws[0]) + EncodeWords(ws[1..])
  }

  lemma {:induction false} EncodeWordsAt(ws: seq<U32>, k: nat)
    requires k < |ws|
    ensures EncodeWords(ws)[4 * k..4 * k + 4] == EncodeU32(ws[k])
  {
    var head, tail := EncodeU32(ws[0]), EncodeWords(ws[1..]);
    if k == 0 {
    } else {
      EncodeWordsAt(ws[1..], k - 1);
      assert (head + tail)[4 * k..4 * k + 4] == tail[4 * (k - 1)..4 * (k - 1) + 4];
    }
  }

  lemma U16RoundTrip(x: U16, s: seq<Byte>, at: nat)
    requires at + 2 <= |s| && s[at..at + 2] == EncodeU16(x)
    ensures DecodeU16(s, at) == x
  {
    var e := s[at..at + 2];
    assert s[at] == e[0] && s[at + 1] == e[1];
  }

  lemma SliceOfSlice(s: seq<Byte>, a: nat, b: nat, i: nat, j: nat)
    requires a <= b <= |s| && i <= j <= b - a
    ensures s[a..b][i..j] == s[a + i..a + j]
  {
    var x, y := s[a..b][i..j], s[a + i..a + j];
    forall k | 0 <= k < j - i ensures x[k] == y[k] {
      assert x[k] == s[a..b][i + k] == s[a + (i + k)];
    }
  }

  /** Word k of the words encoded from `at` on. */
  lemma WordRoundTrip(ws: seq<U32>, s: seq<Byte>, at: nat, k: nat)
    requires k < |ws| && at + 4 * |ws| <= |s| && s[at..at + 4 * |ws|] == EncodeWords(ws)
    ensures DecodeU32(s, at + 4 * k) == ws[k]
  {
    hide EncodeWords, EncodeU32, DecodeU32;
    EncodeWordsAt(ws, k);
    SliceOfSlice(s, at, at + 4 * |ws|, 4 * k, 4 * k + 4);
    U32RoundTrip(ws[k], s, at + 4 * k);
  }

  /** s with the bytes from `at` on overwritten by x. */
  function Patch(s: seq<Byte>, at: nat, x: seq<Byte>): (r: seq<Byte>)
    requires at + |x| <= |s|
    ensures |r| == |s|
    ensures forall i | 0 <= i < |s| :: r[i] == if at <= i < at + |x| then x[i - at] else s[i]
  {
    s[..at] + x + s[at + |x|..]
  }

  lemma PatchTwice(s: seq<Byte>, at: nat, x: seq<Byte>, y: seq<Byte>)
    requires at + |x| <= |s| && |x| == |y|
    ensures Patch(Patch(s, at, x), at, y) == Patch(s, at, y)
  {
  }

  lemma PatchAdjacent(s: seq<Byte>, at: nat, x: seq<Byte>, y: seq<Byte>)
    requires at + |x| + |y| <= |s|
    ensures Patch(Patch(s, at, x), at + |x|, y) == Patch(s, at, x + y)
  {
  }
}
