/** Bytes, 32-bit words in the little-endian layout of the x86 target, and plain sequence helpers. */
module Bytes {

  datatype Option<+T> = None | Some(value: T)

  type byte = x: int | 0 <= x < 0x100 witness 0

  const TWO_32: int := 0x1_0000_0000
  const TWO_31: int := 0x8000_0000

  type uint32 = x: int | 0 <= x < TWO_32 witness 0
  type int32 = x: int | -TWO_31 <= x < TWO_31 witness 0

  function Min(a: int, b: int): int {
    if a <= b then a else b
  }

  /** The int32 whose bits are those of the unsigned word. */
  function ToInt32(u: uint32): int32
  {
    if u < TWO_31 then u else u - TWO_32
  }

  function FromInt32(i: int32): (u: uint32)
    ensures ToInt32(u) == i
  {
    if i < 0 then i + TWO_32 else i
  }

  function PutU32(u: uint32): (s: seq<byte>)
    ensures |s| == 4
  {
    [u % 0x100, u / 0x100 % 0x100, u / 0x1_0000 % 0x100, u / 0x100_0000]
  }

  function Word(b0: int, b1: int, b2: int, b3: int): int {
    b0 + 0x100 * b1 + 0x1_0000 * b2 + 0x100_0000 * b3
  }

  function GetU32(s: seq<byte>, at: nat): (u: uint32)
    requires at + 4 <= |s|
  {
    Word(s[at], s[at + 1], s[at + 2], s[at + 3])
  }

  /** The layout, byte by byte: least significant first. */
  lemma LittleEndian(u: uint32, s: seq<byte>, at: nat)
    requires at + 4 <= |s|
    ensures var b: seq<int> := s[at..at + 4];
            GetU32(s, at) == b[0] + 256 * b[1] + 65536 * b[2] + 16777216 * b[3]
    ensures var p: seq<int> := PutU32(u); u == p[0] + 256 * p[1] + 65536 * p[2] + 16777216 * p[3]
    ensures forall i: int32 :: FromInt32(i) == if i < 0 then i + 0x1_0000_0000 else i
  {
    var p: seq<int> := PutU32(u);
    assert u / 0x1_0000 == u / 0x100 / 0x100 && u / 0x100_0000 == u / 0x100 / 0x100 / 0x100;
    assert p[0] == u - 0x100 * (u / 0x100);
  }

  lemma GetPut(u: uint32, pre: seq<byte>, post: seq<byte>)
    ensures GetU32(pre + PutU32(u) + post, |pre|) == u
  {
    var s := pre + PutU32(u) + post;
    assert s[|pre|..|pre| + 4] == PutU32(u);
    assert forall k | 0 <= k < 4 :: s[|pre| + k] == PutU32(u)[k];
    assert u / 0x1_0000 == u / 0x100 / 0x100 && u / 0x100_0000 == u / 0x100 / 0x100 / 0x100;
  }

  lemma PutGet(s: seq<byte>)
    requires |s| == 4
    ensures PutU32(GetU32(s, 0)) == s
  {
    var b0: int, b1: int, b2: int, b3: int := s[0], s[1], s[2], s[3];
    WordDigits(b0, b1, b2, b3);
    hide Word;
  }

  lemma WordDigits(b0: int, b1: int, b2: int, b3: int)
    requires 0 <= b0 < 0x100 && 0 <= b1 < 0x100 && 0 <= b2 < 0x100 && 0 <= b3 < 0x100
    ensures var u := Word(b0, b1, b2, b3);
            && u % 0x100 == b0 && u / 0x100 % 0x100 == b1
            && u / 0x1_0000 % 0x100 == b2 && u / 0x100_0000 == b3
  {
    var u := Word(b0, b1, b2, b3);
    assert u == b0 + 0x100 * (b1 + 0x100 * b2 + 0x1_0000 * b3);
    assert u / 0x100 == b1 + 0x100 * b2 + 0x1_0000 * b3;
    assert u / 0x1_0000 == b2 + 0x100 * b3;
    assert u / 0x100_0000 == b3;
  }

  function Flatten<T>(parts: seq<seq<T>>): seq<T> {
    if parts == [] then [] else parts[0] + Flatten(parts[1..])
  }

  lemma {:induction false} FlattenSnoc<T>(parts: seq<seq<T>>, last: seq<T>)
    ensures Flatten(parts + [last]) == Flatten(parts) + last
  {
    if parts == [] {
      assert (parts + [last])[1..] == [];
    } else {
      FlattenSnoc(parts[1..], last);
      assert (parts + [last])[1..] == parts[1..] + [last];
    }
  }
}
