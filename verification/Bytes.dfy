/** Bytes and little-endian 32-bit words in a run of bytes. */
module Bytes {
  const UINT16 := 0x1_0000
  const UINT32 := 0x1_0000_0000

  type Byte = b: int | 0 <= b < 256

  ghost function Word(bytes: seq<Byte>, p: int): (w: int)
    requires 0 <= p && p + 4 <= |bytes|
    ensures 0 <= w < UINT32
  {
    bytes[p] as int + 0x100 * bytes[p + 1] as int + 0x1_0000 * bytes[p + 2] as int + 0x100_0000 * bytes[p + 3] as int
  }

  function PutWord(bytes: seq<Byte>, p: int, w: int): (r: seq<Byte>)
    requires 0 <= p && p + 4 <= |bytes| && 0 <= w < UINT32
    ensures |r| == |bytes|
  {
    bytes[p := w % 0x100][p + 1 := w / 0x100 % 0x100][p + 2 := w / 0x1_0000 % 0x100][p + 3 := w / 0x100_0000]
  }

  /** A word put is the word got; words that do not overlap it stay. */
  lemma WordOfPut(bytes: seq<Byte>, p: int, w: int, q: int)
    requires 0 <= p && p + 4 <= |bytes| && 0 <= w < UINT32
    requires 0 <= q && q + 4 <= |bytes|
    ensures q == p ==> Word(PutWord(bytes, p, w), q) == w
    ensures q + 4 <= p || p + 4 <= q ==> Word(PutWord(bytes, p, w), q) == Word(bytes, q)
  {
    if q == p {
      SplitBytes(w);
    }
  }

  /** The low byte comes first. */
  lemma LittleEndian()
    ensures Word([0x78, 0x56, 0x34, 0x12], 0) == 0x12345678
    ensures PutWord([0, 0, 0, 0], 0, 0x12345678) == [0x78, 0x56, 0x34, 0x12]
  {
    var r := PutWord([0, 0, 0, 0], 0, 0x12345678);
    assert r[0] == 0x78 && r[1] == 0x56 && r[2] == 0x34 && r[3] == 0x12;
  }

  lemma SplitBytes(w: int)
    requires 0 <= w < UINT32
    ensures w == w % 0x100 + 0x100 * (w / 0x100 % 0x100)
               + 0x1_0000 * (w / 0x1_0000 % 0x100) + 0x100_0000 * (w / 0x100_0000)
  {
    var a, b, c := w / 0x100, w / 0x1_0000, w / 0x100_0000;
    assert b == a / 0x100 && c == b / 0x100;
    assert w == 0x100 * a + w % 0x100 && a == 0x100 * b + a % 0x100 && b == 0x100 * c + b % 0x100;
  }

  /** The part of a byte string before its first NUL. */
  ghost function CutAtNul(s: seq<Byte>): (r: seq<Byte>)
    ensures r <= s && 0 !in r
    ensures |r| < |s| ==> s[|r|] == 0
  {
    if s == [] || s[0] == 0 then [] else [s[0]] + CutAtNul(s[1..])
  }

  /** Memory holds the string and its terminator at `p`. */
  ghost predicate CString(mem: seq<Byte>, p: int, s: seq<Byte>) {
    && 0 <= p && p + |s| < |mem|
    && (forall k :: 0 <= k < |s| ==> mem[p + k] == s[k])
    && mem[p + |s|] == 0
  }
}
