/** Bytes, machine integers and the little-endian fields shared by every packet format. */
module Bytes {

  type byte = x: int | 0 <= x < 0x100
  type u16 = x: int | 0 <= x < 0x1_0000
  type u32 = x: int | 0 <= x < 0x1_0000_0000

  datatype Option<+T> = None | Some(value: T)

  /** The longest payload of a packet, whose length travels in one byte. */
  const PACKET_MAX: nat := 255

  /** isspace in the C locale. */
  predicate IsSpace(c: byte) { c == 0x20 || 0x09 <= c <= 0x0D }

  /** The bytes of a text in ASCII, with a question mark for every other character. */
  function Ascii(text: string): (b: seq<byte>)
    ensures |b| == |text|
    ensures forall k | 0 <= k < |text| :: b[k] == if text[k] < 128 as char then text[k] as int else 0x3F
  {
    seq(|text|, k requires 0 <= k < |text| => if text[k] < 128 as char then text[k] as int else 0x3F)
  }

  /** The six bytes, by name: blank, tab, line feed, vertical tab, form feed, carriage return. */
  lemma SpaceBytes(c: byte)
    ensures IsSpace(c) <==> c in {0x20, 0x09, 0x0A, 0x0B, 0x0C, 0x0D}
  {
  }

  function Min(a: int, b: int): int { if a <= b then a else b }

  function WriteU16(v: u16): (r: seq<byte>)
    ensures |r| == 2
  {
    [v % 0x100, v / 0x100]
  }

  function ReadU16(b: seq<byte>, at: nat): u16
    requires at + 2 <= |b|
  {
    b[at] as int + 0x100 * (b[at + 1] as int)
  }

  function WriteU32(v: u32): (r: seq<byte>)
    ensures |r| == 4
  {
    [v % 0x100, v / 0x100 % 0x100, v / 0x1_0000 % 0x100, v / 0x100_0000]
  }

  function ReadU32(b: seq<byte>, at: nat): u32
    requires at + 4 <= |b|
  {
    b[at] as int + 0x100 * (b[at + 1] as int) + 0x1_0000 * (b[at + 2] as int) + 0x100_0000 * (b[at + 3] as int)
  }

  /** Fields are little-endian: the byte at place k has the weight 256 to the power of k. */
  lemma LittleEndian(v: u16, w: u32)
    ensures var b := WriteU16(v); b[0] as int + 0x100 * (b[1] as int) == v
    ensures var b := WriteU32(w);
            b[0] as int + 0x100 * (b[1] as int) + 0x1_0000 * (b[2] as int) + 0x100_0000 * (b[3] as int) == w
  {
  }

  /** `text` stands in `s` at position `at`. */
  predicate At(s: seq<byte>, at: nat, text: seq<byte>)
  {
    at + |text| <= |s| && s[at..at + |text|] == text
  }

  lemma AtWhole(s: seq<byte>)
    ensures At(s, 0, s)
  {
  }

  lemma AtAppend(s: seq<byte>, at: nat, a: seq<byte>, b: seq<byte>)
    ensures At(s, at, a + b) <==> At(s, at, a) && At(s, at + |a|, b)
  {
    if At(s, at, a) && At(s, at + |a|, b) {
      assert s[at..at + |a + b|] == s[at..at + |a|] + s[at + |a|..at + |a| + |b|];
    }
    if At(s, at, a + b) {
      assert a == (a + b)[..|a|] == s[at..at + |a|];
      assert b == (a + b)[|a|..] == s[at + |a|..at + |a| + |b|];
    }
  }

  lemma Cut(s: seq<byte>, i: nat, j: nat, k: nat)
    requires i <= j <= k <= |s|
    ensures s[i..k] == s[i..j] + s[j..k]
  {
  }

  /** The first byte, the middle and the last byte of a stretch. */
  lemma CutEnds(s: seq<byte>, i: nat, k: nat)
    requires i + 2 <= k <= |s|
    ensures s[i..k] == [s[i]] + (s[i + 1..k - 1] + [s[k - 1]])
  {
  }

  lemma Associate(a: seq<byte>, b: seq<byte>, c: seq<byte>)
    ensures (a + b) + c == a + (b + c)
  {
  }

  /** Reading a field gives back what was written there, whatever surrounds it. */
  lemma U16RoundTrip(s: seq<byte>, at: nat, v: u16)
    requires At(s, at, WriteU16(v))
    ensures ReadU16(s, at) == v
  {
    assert s[at..at + 2][0] == s[at] && s[at..at + 2][1] == s[at + 1];
  }

  lemma U32RoundTrip(s: seq<byte>, at: nat, v: u32)
    requires At(s, at, WriteU32(v))
    ensures ReadU32(s, at) == v
  {
    var w := s[at..at + 4];
    assert w[0] == s[at] && w[1] == s[at + 1] && w[2] == s[at + 2] && w[3] == s[at + 3];
    assert v / 0x100 / 0x100 == v / 0x1_0000 && v / 0x1_0000 / 0x100 == v / 0x100_0000;
  }

  /** Writing back a field that was read reproduces its bytes. */
  lemma U32Rewrite(s: seq<byte>, at: nat)
    requires at + 4 <= |s|
    ensures WriteU32(ReadU32(s, at)) == s[at..at + 4]
  {
    hide WriteU32;
    Rewritten(s[at], s[at + 1], s[at + 2], s[at + 3]);
  }

  lemma Rewritten(b0: byte, b1: byte, b2: byte, b3: byte)
    ensures var v: int := b0 as int + 0x100 * (b1 as int) + 0x1_0000 * (b2 as int) + 0x100_0000 * (b3 as int);
            0 <= v < 0x1_0000_0000 && WriteU32(v) == [b0, b1, b2, b3]
  {
    var c0: int, c1: int, c2: int, c3: int := b0, b1, b2, b3;
    var lo, hi := c0 + 0x100 * c1, c2 + 0x100 * c3;
    var v := lo + 0x1_0000 * hi;
    assert v / 0x1_0000 == hi && v % 0x1_0000 == lo;
    assert v / 0x100 == c1 + 0x100 * hi;
    assert v / 0x100_0000 == c3;
  }

  /** Writes `bytes` into `a` at `at` and touches nothing else. */
  method CopyInto(a: array<byte>, at: nat, bytes: seq<byte>)
    requires at + |bytes| <= a.Length
    modifies a
    ensures a[..] == old(a[..at]) + bytes + old(a[at + |bytes|..])
  {
    for i := 0 to |bytes|
      invariant a[..at] == old(a[..at])
      invariant a[at..at + i] == bytes[..i]
      invariant a[at + i..] == old(a[at + i..])
    {
      a[at + i] := bytes[i];
    }
  }

  /** Writes a head and what follows it from the start of `a` on. */
  method CopyBoth(a: array<byte>, head: seq<byte>, data: seq<byte>)
    requires |head| + |data| <= a.Length
    modifies a
    ensures a[..|head| + |data|] == head + data
  {
    CopyInto(a, 0, head);
    assert a[..|head|] == head;
    CopyInto(a, |head|, data);
    assert a[..|head|] == head;
    assert a[|head|..|head| + |data|] == data;
  }

  /** Writes `text` with its one-byte count in front. */
  method PutCounted(a: array<byte>, at: nat, text: seq<byte>)
    requires at + 1 + |text| <= a.Length && |text| <= 255
    modifies a
    ensures a[..] == old(a[..at]) + ([|text|] + text) + old(a[at + 1 + |text|..])
  {
    a[at] := |text|;
    CopyInto(a, at + 1, text);
  }
}
