/** Fixed-width unsigned fields and their byte encodings: big-endian for the
    wire headers (cooked link layer, IPv4, UDP) and little-endian for the
    capture container's own headers. */
module Bytes {

  type byte = b: int | 0 <= b < 0x100
  type u16 = n: int | 0 <= n < 0x1_0000
  type u32 = n: int | 0 <= n < 0x1_0000_0000
  type i32 = n: int | -0x8000_0000 <= n < 0x8000_0000

  /** The last piece of a concatenation is the slice after the others. */
  lemma LastPiece(pre: seq<byte>, last: seq<byte>)
    ensures (pre + last)[|pre|..|pre| + |last|] == last
  {
  }

  // Big-endian (network order)

  function BE16(s: seq<byte>): u16
    requires |s| == 2
  {
    (s[0] as int) * 0x100 + s[1]
  }

  function EncodeBE16(n: u16): (s: seq<byte>)
    ensures |s| == 2
    ensures BE16(s) == n
  {
    [n / 0x100, n % 0x100]
  }

  lemma EncodeBE16OfBE16(s: seq<byte>)
    requires |s| == 2
    ensures EncodeBE16(BE16(s)) == s
  {
    var n := BE16(s);
    assert n / 0x100 == s[0];
    assert n % 0x100 == s[1];
  }

  function BE32(s: seq<byte>): u32
    requires |s| == 4
  {
    (BE16(s[..2]) as int) * 0x1_0000 + BE16(s[2..])
  }

  function EncodeBE32(n: u32): (s: seq<byte>)
    ensures |s| == 4
    ensures BE32(s) == n
  {
    var s := EncodeBE16(n / 0x1_0000) + EncodeBE16(n % 0x1_0000);
    assert s[..2] == EncodeBE16(n / 0x1_0000);
    assert s[2..] == EncodeBE16(n % 0x1_0000);
    s
  }

  lemma EncodeBE32OfBE32(s: seq<byte>)
    requires |s| == 4
    ensures EncodeBE32(BE32(s)) == s
  {
    var hi, lo := BE16(s[..2]), BE16(s[2..]);
    var n := (hi as int) * 0x1_0000 + lo;
    assert n / 0x1_0000 == hi;
    assert n % 0x1_0000 == lo;
    EncodeBE16OfBE16(s[..2]);
    EncodeBE16OfBE16(s[2..]);
    assert s == s[..2] + s[2..];
  }

  // Little-endian (the byte order of the capture file's headers)

  function LE16(s: seq<byte>): u16
    requires |s| == 2
  {
    s[0] + (s[1] as int) * 0x100
  }

  function EncodeLE16(n: u16): (s: seq<byte>)
    ensures |s| == 2
    ensures LE16(s) == n
  {
    [n % 0x100, n / 0x100]
  }

  lemma EncodeLE16OfLE16(s: seq<byte>)
    requires |s| == 2
    ensures EncodeLE16(LE16(s)) == s
  {
    var n := LE16(s);
    assert n / 0x100 == s[1];
    assert n % 0x100 == s[0];
  }

  function LE32(s: seq<byte>): u32
    requires |s| == 4
  {
    LE16(s[..2]) + (LE16(s[2..]) as int) * 0x1_0000
  }

  function EncodeLE32(n: u32): (s: seq<byte>)
    ensures |s| == 4
    ensures LE32(s) == n
  {
    var s := EncodeLE16(n % 0x1_0000) + EncodeLE16(n / 0x1_0000);
    assert s[..2] == EncodeLE16(n % 0x1_0000);
    assert s[2..] == EncodeLE16(n / 0x1_0000);
    s
  }

  lemma EncodeLE32OfLE32(s: seq<byte>)
    requires |s| == 4
    ensures EncodeLE32(LE32(s)) == s
  {
    var lo, hi := LE16(s[..2]), LE16(s[2..]);
    var n := lo + (hi as int) * 0x1_0000;
    assert n / 0x1_0000 == hi;
    assert n % 0x1_0000 == lo;
    EncodeLE16OfLE16(s[..2]);
    EncodeLE16OfLE16(s[2..]);
    assert s == s[..2] + s[2..];
  }

  /** Two's-complement reading of a 32-bit field, as the `i` struct code does. */
  function AsI32(u: u32): (v: i32)
    ensures v % 0x1_0000_0000 == u
  {
    if u < 0x8000_0000 then u else u - 0x1_0000_0000
  }

  function FromI32(v: i32): (u: u32)
    ensures AsI32(u) == v
  {
    if v < 0 then v + 0x1_0000_0000 else v
  }
}
