/** What every part shares: machine integers, their little-endian encodings, and a few basics. */
module Bytes {

  type byte = x: int | 0 <= x < 0x100
  type u16 = x: int | 0 <= x < 0x1_0000
  type u32 = x: int | 0 <= x < 0x1_0000_0000
  type u64 = x: int | 0 <= x < 0x1_0000_0000_0000_0000

  datatype Option<+T> = None | Some(value: T)

  ghost predicate Distinct(s: seq<nat>) {
    forall i, j | 0 <= i < j < |s| :: s[i] != s[j]
  }

  function Zeros(n: nat): (s: seq<byte>)
    ensures |s| == n
    ensures forall i | 0 <= i < n :: s[i] == 0
  {
    seq(n, _ => 0)
  }

  function Encode16(x: u16): (s: seq<byte>)
    ensures |s| == 2
  {
    [x % 0x100, x / 0x100]
  }

  function Decode16(s: seq<byte>): u16
    requires |s| == 2
  {
    s[0] as int + 0x100 * s[1] as int
  }

  function Encode32(x: u32): (s: seq<byte>)
    ensures |s| == 4
  {
    Encode16(x % 0x1_0000) + Encode16(x / 0x1_0000)
  }

  function Decode32(s: seq<byte>): u32
    requires |s| == 4
  {
    Decode16(s[..2]) as int + 0x1_0000 * Decode16(s[2..]) as int
  }

  function Encode64(x: u64): (s: seq<byte>)
    ensures |s| == 8
  {
    Encode32(x % 0x1_0000_0000) + Encode32(x / 0x1_0000_0000)
  }

  function Decode64(s: seq<byte>): u64
    requires |s| == 8
  {
    Decode32(s[..4]) as int + 0x1_0000_0000 * Decode32(s[4..]) as int
  }

  lemma RoundTrip16(x: u16, s: seq<byte>)
    requires |s| == 2
    ensures Decode16(Encode16(x)) == x
    ensures Encode16(Decode16(s)) == s
  {
  }

  lemma RoundTrip32(x: u32, s: seq<byte>)
    requires |s| == 4
    ensures Decode32(Encode32(x)) == x
    ensures Encode32(Decode32(s)) == s
  {
    DecodeEncode32(x, x % 0x1_0000, x / 0x1_0000);
    EncodeDecode32(s, Decode16(s[..2]), Decode16(s[2..]));
  }

  lemma DecodeEncode32(x: u32, lo: u16, hi: u16)
    requires lo == x % 0x1_0000 && hi == x / 0x1_0000
    ensures Decode32(Encode32(x)) == x
  {
    hide Encode16, Decode16;
    assert Encode32(x)[..2] == Encode16(lo);
    assert Encode32(x)[2..] == Encode16(hi);
    RoundTrip16(lo, Zeros(2));
    RoundTrip16(hi, Zeros(2));
  }

  lemma EncodeDecode32(s: seq<byte>, lo: u16, hi: u16)
    requires |s| == 4 && lo == Decode16(s[..2]) && hi == Decode16(s[2..])
    ensures Encode32(Decode32(s)) == s
  {
    hide Encode16, Decode16;
    var x := Decode32(s);
    assert x % 0x1_0000 == lo && x / 0x1_0000 == hi;
    RoundTrip16(0, s[..2]);
    RoundTrip16(0, s[2..]);
    assert s == s[..2] + s[2..];
  }

  lemma RoundTrip64(x: u64, s: seq<byte>)
    requires |s| == 8
    ensures Decode64(Encode64(x)) == x
    ensures Encode64(Decode64(s)) == s
  {
    DecodeEncode64(x, x % 0x1_0000_0000, x / 0x1_0000_0000);
    EncodeDecode64(s, Decode32(s[..4]), Decode32(s[4..]));
  }

  lemma DecodeEncode64(x: u64, lo: u32, hi: u32)
    requires lo == x % 0x1_0000_0000 && hi == x / 0x1_0000_0000
    ensures Decode64(Encode64(x)) == x
  {
    hide Encode32, Decode32;
    assert Encode64(x)[..4] == Encode32(lo);
    assert Encode64(x)[4..] == Encode32(hi);
    RoundTrip32(lo, Zeros(4));
    RoundTrip32(hi, Zeros(4));
  }

  lemma EncodeDecode64(s: seq<byte>, lo: u32, hi: u32)
    requires |s| == 8 && lo == Decode32(s[..4]) && hi == Decode32(s[4..])
    ensures Encode64(Decode64(s)) == s
  {
    hide Encode32, Decode32;
    var x := Decode64(s);
    assert x % 0x1_0000_0000 == lo && x / 0x1_0000_0000 == hi;
    RoundTrip32(0, s[..4]);
    RoundTrip32(0, s[4..]);
    assert s == s[..4] + s[4..];
  }

  /** Least significant byte first. */
  lemma LittleEndian(a: seq<byte>, b: seq<byte>, c: seq<byte>)
    requires |a| == 2 && |b| == 4 && |c| == 8
    ensures Decode16(a) == a[0] as int + 0x100 * a[1] as int
    ensures Decode32(b) == b[0] as int + 0x100 * b[1] as int + 0x1_0000 * b[2] as int + 0x100_0000 * b[3] as int
    ensures Decode64(c) == c[0] as int + 0x100 * c[1] as int + 0x1_0000 * c[2] as int + 0x100_0000 * c[3] as int
                           + 0x1_0000_0000 * (c[4] as int + 0x100 * c[5] as int + 0x1_0000 * c[6] as int
                                              + 0x100_0000 * c[7] as int)
  {
  }

  /** Quotient and remainder are the only numbers that fit. */
  lemma DivModUnique(x: int, d: int, q: int, r: int)
    requires d > 0 && x == q * d + r && 0 <= r < d
    ensures x / d == q && x % d == r
  {
    var k := x / d - q;
    assert k * d == r - x % d;
    assert k > 0 ==> k * d >= d;
    assert k < 0 ==> k * d <= -d;
  }
}
