/** Octets, big-endian fields, 32-bit integers and fixed-size buffers. */
module Bytes {

  type byte = b: int | 0 <= b < 256
  type u16 = v: int | 0 <= v < 0x1_0000
  type u32 = v: int | 0 <= v < 0x1_0000_0000
  type Octets = seq<byte>

  /** JavaScript's conversion to a signed 32-bit integer. */
  function ToInt32(x: int): int
  {
    var m := x % 0x1_0000_0000;
    if m >= 0x8000_0000 then m - 0x1_0000_0000 else m
  }

  /** readUInt16BE */
  function U16(b: Octets, i: nat): (v: u16)
    requires i + 2 <= |b|
  {
    (b[i] as int) * 256 + b[i + 1]
  }

  /** readUInt32BE */
  function U32(b: Octets, i: nat): (v: u32)
    requires i + 4 <= |b|
  {
    (U16(b, i) as int) * 0x1_0000 + U16(b, i + 2)
  }

  function Be16(v: u16): (b: Octets)
    ensures |b| == 2
  {
    [v / 256, v % 256]
  }

  function Be32(v: u32): (b: Octets)
    ensures |b| == 4
  {
    Be16(v / 0x1_0000) + Be16(v % 0x1_0000)
  }

  lemma Be16Of(b: Octets, i: nat)
    requires i + 2 <= |b|
    ensures Be16(U16(b, i)) == b[i..i + 2]
  {
  }

  lemma Be32Of(b: Octets, i: nat)
    requires i + 4 <= |b|
    ensures Be32(U32(b, i)) == b[i..i + 4]
  {
    var hi: int, lo: int := U16(b, i), U16(b, i + 2);
    assert U32(b, i) / 0x1_0000 == hi && U32(b, i) % 0x1_0000 == lo;
    Be16Of(b, i);
    Be16Of(b, i + 2);
    assert b[i..i + 4] == b[i..i + 2] + b[i + 2..i + 4];
  }

  /** The octets `x` stand at `pos` in the packet `b`. */
  predicate At(b: Octets, pos: nat, x: Octets)
  {
    pos + |x| <= |b| && b[pos..pos + |x|] == x
  }

  lemma AtAppend(b: Octets, pos: nat, x: Octets, y: Octets)
    ensures At(b, pos, x + y) <==> At(b, pos, x) && At(b, pos + |x|, y)
  {
    if pos + |x + y| <= |b| {
      assert b[pos..pos + |x + y|] == b[pos..pos + |x|] + b[pos + |x|..pos + |x + y|];
      if At(b, pos, x + y) {
        assert b[pos..pos + |x|] == (x + y)[..|x|] && b[pos + |x|..pos + |x + y|] == (x + y)[|x|..];
      }
    }
  }

  lemma AtIndex(b: Octets, pos: nat, x: Octets, i: nat)
    requires At(b, pos, x) && i < |x|
    ensures b[pos + i] == x[i]
  {
    assert b[pos + i] == b[pos..pos + |x|][i];
  }

  lemma ReadBe16(b: Octets, pos: nat, v: u16)
    requires At(b, pos, Be16(v))
    ensures U16(b, pos) == v
  {
    AtIndex(b, pos, Be16(v), 0);
    AtIndex(b, pos, Be16(v), 1);
  }

  lemma ReadBe32(b: Octets, pos: nat, v: u32)
    requires At(b, pos, Be32(v))
    ensures U32(b, pos) == v
  {
    AtAppend(b, pos, Be16(v / 0x1_0000), Be16(v % 0x1_0000));
    ReadBe16(b, pos, v / 0x1_0000);
    ReadBe16(b, pos + 2, v % 0x1_0000);
  }

  /** What a buffer of `cap` bytes keeps of a longer stream: `copy` stops silently at the end. */
  function Clip(s: Octets, cap: nat): (r: Octets)
    ensures |r| <= cap && r <= s
  {
    if |s| <= cap then s else s[..cap]
  }

  method ToBuffer(data: Octets) returns (a: array<byte>)
    ensures fresh(a) && a[..] == data
  {
    a := new byte[|data|](i requires 0 <= i < |data| => data[i]);
  }

  datatype Option<+T> = None | Some(value: T)
}
