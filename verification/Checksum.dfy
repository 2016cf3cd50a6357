/** The Internet checksum (RFC 1071, section 1) and the echo reply that relies on it. */
module Checksum {
  import opened Bytes

  /** The 16-bit big-endian words of the data, an odd last byte padded with zero. */
  function WordSum(data: seq<byte>): nat {
    if |data| == 0 then 0
    else if |data| == 1 then data[0] as int * 0x100
    else data[0] as int * 0x100 + data[1] as int + WordSum(data[2..])
  }

  /** The same sum byte by byte, from the end: every first byte of a word counts 256, every second 1. */
  function WeightedSum(data: seq<byte>): nat {
    if data == [] then 0
    else
      var n := |data| - 1;
      WeightedSum(data[..n]) + data[n] as int * if n % 2 == 0 then 0x100 else 1
  }

  lemma {:induction false} WeightedFront(data: seq<byte>)
    requires |data| >= 2
    ensures WeightedSum(data) == data[0] as int * 0x100 + data[1] as int + WeightedSum(data[2..])
    decreases |data|
  {
    var n := |data| - 1;
    if n == 1 {
      assert data[..1][..0] == [];
      assert WeightedSum(data[..1]) == data[0] as int * 0x100;
    } else {
      WeightedFront(data[..n]);
      assert data[2..][..n - 2] == data[..n][2..];
    }
  }

  lemma {:induction false} WordSumIsWeighted(data: seq<byte>)
    ensures WordSum(data) == WeightedSum(data)
    decreases |data|
  {
    if |data| >= 2 {
      WeightedFront(data);
      WordSumIsWeighted(data[2..]);
    } else if |data| == 1 {
      assert data[..0] == [];
    }
  }

  /** Ones'-complement value of a sum: its residue modulo 65535, where 0 stands only for an empty sum. */
  function OnesValue(sum: nat): (r: nat)
    ensures r <= 0xFFFF
  {
    if sum == 0 then 0 else (sum - 1) % 0xFFFF + 1
  }

  function ChecksumOf(data: seq<byte>): u16 {
    0xFFFF - OnesValue(WordSum(data))
  }

  /** Longest data whose sum always fits 32 bits. */
  const MAX_LENGTH := 131_074

  lemma {:induction false} WordSumBound(data: seq<byte>)
    ensures WordSum(data) <= (|data| + 1) / 2 * 0xFFFF
  {
    if |data| >= 2 {
      WordSumBound(data[2..]);
    }
  }

  /** The accumulator can overflow exactly when the data is longer than 131074 bytes. */
  lemma SumFitsIffShort(n: nat)
    ensures n <= MAX_LENGTH <==> forall data: seq<byte> | |data| == n :: WordSum(data) < 0x1_0000_0000
  {
    if n <= MAX_LENGTH {
      forall data: seq<byte> | |data| == n
        ensures WordSum(data) < 0x1_0000_0000
      {
        WordSumBound(data);
      }
    } else {
      var data: seq<byte> := seq(n, _ => 0xFF);
      AllOnesSum(n);
      assert |data| == n && WordSum(data) >= 0x1_0000_0000;
    }
  }

  lemma {:induction false} AllOnesSum(n: nat)
    ensures WordSum(seq(n, _ => 0xFF)) == n / 2 * 0xFFFF + n % 2 * 0xFF00
  {
    var data: seq<byte> := seq(n, _ => 0xFF);
    if n >= 2 {
      AllOnesSum(n - 2);
      assert data[2..] == seq(n - 2, _ => 0xFF);
    }
  }

  lemma FoldKeepsValue(sum: nat)
    requires sum >= 0x1_0000
    ensures OnesValue(sum % 0x1_0000 + sum / 0x1_0000) == OnesValue(sum)
    ensures 0 < sum % 0x1_0000 + sum / 0x1_0000 < sum
  {
    var q, r := sum / 0x1_0000, sum % 0x1_0000;
    var k, m := (q + r - 1) / 0xFFFF, (q + r - 1) % 0xFFFF;
    assert sum - 1 == (k + q) * 0xFFFF + m;
    ResidueUnique(sum - 1, k + q, m);
  }

  lemma ResidueUnique(x: int, q: int, r: int)
    requires x == q * 0xFFFF + r && 0 <= r < 0xFFFF
    ensures x % 0xFFFF == r
  {
  }

  lemma {:induction false} WordSumPrefix(data: seq<byte>, i: nat)
    requires i % 2 == 0 && i <= |data|
    ensures WordSum(data) == WordSum(data[..i]) + WordSum(data[i..])
    decreases |data|
  {
    if i == 0 {
      assert data[..0] == [] && data[0..] == data;
    } else {
      WordSumPrefix(data[2..], i - 2);
      assert data[..i][2..] == data[2..][..i - 2];
      assert data[2..][i - 2..] == data[i..];
    }
  }

  /** The carry-folding loop. */
  method Fold(start: u32) returns (sum: u32)
    ensures sum == OnesValue(start)
  {
    sum := start;
    while sum / 0x1_0000 > 0
      invariant OnesValue(sum) == OnesValue(start)
      decreases sum
    {
      FoldKeepsValue(sum);
      sum := sum % 0x1_0000 + sum / 0x1_0000;
    }
  }

  lemma WordSumStep(data: seq<byte>, i: nat)
    requires i % 2 == 0 && i + 1 < |data|
    ensures WordSum(data[..i + 2]) == WordSum(data[..i]) + data[i] as int * 0x100 + data[i + 1] as int <= WordSum(data)
  {
    hide WordSum;
    WordSumPrefix(data, i + 2);
    WordSumPrefix(data[..i + 2], i);
    assert data[..i + 2][..i] == data[..i] && data[..i + 2][i..] == [data[i], data[i + 1]];
    PairSum(data[i], data[i + 1]);
  }

  lemma PairSum(a: byte, b: byte)
    ensures WordSum([a, b]) == a as int * 0x100 + b as int
  {
    assert [a, b][2..] == [];
  }

  lemma WordSumEnd(data: seq<byte>, i: nat)
    requires i % 2 == 0 && |data| - 1 <= i <= |data|
    ensures WordSum(data) == WordSum(data[..i]) + if i < |data| then data[i] as int * 0x100 else 0
  {
    WordSumPrefix(data, i);
    assert data[i..] == if i < |data| then [data[i]] else [];
  }

  /** The source's loops, for all data whose sum fits the 32-bit accumulator. */
  method CalculateChecksum(data: seq<byte>) returns (r: u16)
    requires 0 < |data| && WordSum(data) < 0x1_0000_0000
    ensures r == ChecksumOf(data)
  {
    var sum: u32 := 0;
    var i := 0;
    assert data[..0] == [];
    while i < |data| - 1
      invariant 0 <= i <= |data| && i % 2 == 0
      invariant sum == WordSum(data[..i])
    {
      WordSumStep(data, i);
      sum := sum + (data[i] as int * 0x100 + data[i + 1] as int);
      i := i + 2;
    }
    WordSumEnd(data, i);
    if i < |data| {
      sum := sum + data[i] as int * 0x100;
    }
    sum := Fold(sum);
    return 0xFFFF - sum;
  }

  // ---------------------------------------------------------------- storing the checksum

  function WithWord(data: seq<byte>, at: nat, w: u16): seq<byte>
    requires at + 1 < |data|
  {
    data[at := w / 0x100][at + 1 := w % 0x100]
  }

  lemma {:induction false} WordSumStore(data: seq<byte>, at: nat, w: u16)
    requires at % 2 == 0 && at + 1 < |data|
    ensures WordSum(WithWord(data, at, w)) + (data[at] as int * 0x100 + data[at + 1] as int) == WordSum(data) + w
    decreases |data|
  {
    var d := WithWord(data, at, w);
    if at == 0 {
      assert d[2..] == data[2..];
    } else {
      WordSumStore(data[2..], at - 2, w);
      assert d[2..] == WithWord(data[2..], at - 2, w);
    }
  }

  /** Data that carries its own checksum in a field that was zero sums to all ones: its checksum is 0. */
  lemma StoredChecksumVerifies(data: seq<byte>, at: nat)
    requires at % 2 == 0 && at + 1 < |data| && data[at] == 0 && data[at + 1] == 0
    ensures ChecksumOf(WithWord(data, at, ChecksumOf(data))) == 0
  {
    WordSumStore(data, at, ChecksumOf(data));
    var sum := WordSum(data);
    var k := if sum == 0 then 0 else (sum - 1) / 0xFFFF;
    assert sum - OnesValue(sum) == k * 0xFFFF;
    var total := sum + ChecksumOf(data);
    assert total - 1 == k * 0xFFFF + 0xFFFE;
    ResidueUnique(total - 1, k, 0xFFFE);
  }

  // ---------------------------------------------------------------- the ICMP echo reply

  const FRAME := 1514
  const IP := 14

  /** Faulted stands for a panic, or for lengths in the header that reach outside the buffer. */
  datatype EchoResult = Ignored | Replied(length: nat) | Faulted

  type Frame = s: seq<byte> | |s| == FRAME witness seq(FRAME, _ => 0)
  type IpAddress = s: seq<byte> | |s| == 4 witness [0, 0, 0, 0]
  type MacAddress = s: seq<byte> | |s| == 6 witness [0, 0, 0, 0, 0, 0]

  function HeaderLength(rx: Frame): (n: nat)
    ensures n <= 60 && n % 4 == 0
  {
    rx[IP] % 0x10 * 4
  }

  function TotalLength(rx: Frame): nat {
    rx[IP + 2] as int * 0x100 + rx[IP + 3] as int
  }

  /** An echo request for this host, as the handler recognises it. */
  predicate IsRequest(rx: Frame, received: nat, myIp: IpAddress) {
    && received >= IP + 20 && rx[12] == 0x08 && rx[13] == 0x00
    && rx[IP + 16..IP + 20] == myIp && rx[IP + 9] == 1
    && received >= IP + HeaderLength(rx) + 8 && rx[IP + HeaderLength(rx)] == 8
  }

  /** The same by offsets in the frame: IPv4, ICMP, this host, an echo request, and long enough. */
  lemma RequestByBytes(rx: Frame, received: nat, myIp: IpAddress)
    ensures IsRequest(rx, received, myIp) <==>
            && received >= 34 && rx[12] == 8 && rx[13] == 0 && rx[23] == 1
            && rx[30] == myIp[0] && rx[31] == myIp[1] && rx[32] == myIp[2] && rx[33] == myIp[3]
            && received >= 22 + 4 * (rx[14] % 16) && rx[14 + 4 * (rx[14] % 16)] == 8
  {
    var dst := rx[30..34];
    assert dst[0] == rx[30] && dst[1] == rx[31] && dst[2] == rx[32] && dst[3] == rx[33];
    assert dst == myIp <==> dst[0] == myIp[0] && dst[1] == myIp[1] && dst[2] == myIp[2] && dst[3] == myIp[3];
  }

  /** The lengths are such that the handler neither panics nor leaves the buffer. */
  predicate LengthsFit(rx: Frame) {
    HeaderLength(rx) < TotalLength(rx) && IP + TotalLength(rx) <= FRAME
  }

  /** A request always has a header length: its first byte would otherwise also be the ICMP type. */
  lemma RequestHasHeader(rx: Frame, received: nat, myIp: IpAddress)
    requires IsRequest(rx, received, myIp)
    ensures HeaderLength(rx) >= 4
  {
  }

  // ---------------------------------------------------------------- what the handler writes

  function Put(s: seq<byte>, at: nat, b: seq<byte>): (r: seq<byte>)
    requires at + |b| <= |s|
    ensures |r| == |s| && r[at..at + |b|] == b
    ensures forall k | 0 <= k < |s| && !(at <= k < at + |b|) :: r[k] == s[k]
  {
    s[..at] + b + s[at + |b|..]
  }

  function IcmpZeroed(rx: Frame, icmp: nat): Frame
    requires icmp + 3 < FRAME
  {
    WithWord(rx[icmp := 0], icmp + 2, 0)
  }

  /** Type 0, then a fresh checksum over the ICMP part. */
  function IcmpRewritten(rx: Frame, icmp: nat, len: nat): Frame
    requires icmp + 3 < FRAME && icmp + len <= FRAME
  {
    var z := IcmpZeroed(rx, icmp);
    WithWord(z, icmp + 2, ChecksumOf(z[icmp..icmp + len]))
  }

  function IpZeroed(rx: Frame, myIp: IpAddress): Frame {
    WithWord(Put(Put(rx, IP + 12, myIp), IP + 16, rx[IP + 12..IP + 16]), IP + 10, 0)
  }

  /** Source and destination exchanged, then a fresh checksum over the header. */
  function IpRewritten(rx: Frame, ihl: nat, myIp: IpAddress): Frame
    requires ihl <= 60
  {
    var z := IpZeroed(rx, myIp);
    WithWord(z, IP + 10, ChecksumOf(z[IP..IP + ihl]))
  }

  function MacsExchanged(rx: Frame, myMac: MacAddress): Frame {
    Put(Put(rx, 0, rx[6..12]), 6, myMac)
  }

  /** The packet of the reply. */
  function Answer(rx: Frame, myIp: IpAddress): Frame
    requires LengthsFit(rx)
  {
    var ihl, total := HeaderLength(rx), TotalLength(rx);
    IpRewritten(IcmpRewritten(rx, IP + ihl, total - ihl), ihl, myIp)
  }

  // ---------------------------------------------------------------- what the reply is worth

  /** A part of the buffer whose checksum field is at an even offset verifies once the checksum is stored in it. */
  lemma PartVerifies(before: seq<byte>, after: seq<byte>, lo: nat, hi: nat, at: nat)
    requires lo <= at && at + 1 < hi <= |before| && (at - lo) % 2 == 0 && before[at] == 0 && before[at + 1] == 0
    requires after == WithWord(before, at, ChecksumOf(before[lo..hi]))
    ensures ChecksumOf(after[lo..hi]) == 0
  {
    StoredChecksumVerifies(before[lo..hi], at - lo);
    assert after[lo..hi] == WithWord(before[lo..hi], at - lo, ChecksumOf(before[lo..hi]));
  }

  predicate HeaderVerifies(reply: Frame, ihl: nat)
    requires ihl <= 60
  {
    ChecksumOf(reply[IP..IP + ihl]) == 0
  }

  predicate IcmpVerifies(reply: Frame, ihl: nat, total: nat)
    requires ihl <= total && IP + total <= FRAME
  {
    ChecksumOf(reply[IP + ihl..IP + total]) == 0
  }

  lemma HeaderOfAnswer(rx: Frame, myIp: IpAddress)
    requires LengthsFit(rx) && HeaderLength(rx) >= 12
    ensures HeaderVerifies(Answer(rx, myIp), HeaderLength(rx))
  {
    var ihl, total := HeaderLength(rx), TotalLength(rx);
    var z := IpZeroed(IcmpRewritten(rx, IP + ihl, total - ihl), myIp);
    PartVerifies(z, Answer(rx, myIp), IP, IP + ihl, IP + 10);
  }

  lemma IcmpOfAnswer(rx: Frame, myIp: IpAddress)
    requires LengthsFit(rx) && HeaderLength(rx) >= 20 && HeaderLength(rx) + 4 <= TotalLength(rx)
    ensures IcmpVerifies(Answer(rx, myIp), HeaderLength(rx), TotalLength(rx))
  {
    hide ChecksumOf;
    var ihl, total := HeaderLength(rx), TotalLength(rx);
    var first := IcmpRewritten(rx, IP + ihl, total - ihl);
    PartVerifies(IcmpZeroed(rx, IP + ihl), first, IP + ihl, IP + total, IP + ihl + 2);
    assert Answer(rx, myIp)[IP + ihl..IP + total] == first[IP + ihl..IP + total];
  }

  lemma SwapKeepsSum(a: seq<byte>, b: seq<byte>, rest: seq<byte>)
    requires |a| % 2 == 0 && |b| % 2 == 0
    ensures WordSum(a + b + rest) == WordSum(b + a + rest)
  {
    hide WordSum;
    SumOfThree(a, b, rest);
    SumOfThree(b, a, rest);
  }

  lemma SumOfThree(a: seq<byte>, b: seq<byte>, rest: seq<byte>)
    requires |a| % 2 == 0 && |b| % 2 == 0
    ensures WordSum(a + b + rest) == WordSum(a) + WordSum(b) + WordSum(rest)
  {
    hide WordSum;
    var s := a + b + rest;
    WordSumPrefix(s, |a| + |b|);
    assert s[..|a| + |b|] == a + b && s[|a| + |b|..] == rest;
    WordSumPrefix(a + b, |a|);
    assert (a + b)[..|a|] == a && (a + b)[|a|..] == b;
  }

  /**
   With a twelve-byte header the ICMP part begins at the source address, and exchanging the
   addresses only exchanges words of it: it still verifies.
   */
  lemma IcmpOverAddresses(rx: Frame, received: nat, myIp: IpAddress)
    requires IsRequest(rx, received, myIp) && LengthsFit(rx) && HeaderLength(rx) == 12 && TotalLength(rx) >= 20
    ensures IcmpVerifies(Answer(rx, myIp), 12, TotalLength(rx))
  {
    hide WordSum, OnesValue;
    var total := TotalLength(rx);
    var z := IcmpZeroed(rx, IP + 12);
    var first, last := IcmpRewritten(rx, IP + 12, total - 12), Answer(rx, myIp);
    PartVerifies(z, first, IP + 12, IP + total, IP + 14);
    AddressesSwapped(rx, myIp, first);
    var a, b, rest := first[IP + 12..IP + 16], first[IP + 16..IP + 20], first[IP + 20..IP + total];
    SwapKeepsSum(a, b, rest);
    assert first[IP + 12..IP + total] == a + b + rest;
    assert last[IP + 12..IP + total] == b + a + rest;
  }

  lemma AddressesSwapped(rx: Frame, myIp: IpAddress, first: Frame)
    requires LengthsFit(rx) && HeaderLength(rx) == 12 && rx[IP + 16..IP + 20] == myIp
    requires first == IcmpRewritten(rx, IP + 12, TotalLength(rx) - 12)
    ensures var last := Answer(rx, myIp);
            && last[IP + 12..IP + 16] == first[IP + 16..IP + 20] && last[IP + 16..IP + 20] == first[IP + 12..IP + 16]
            && forall k | IP + 20 <= k < FRAME :: last[k] == first[k]
  {
    hide ChecksumOf;
    assert first[IP + 16..IP + 20] == rx[IP + 16..IP + 20];
    var z := IpZeroed(first, myIp);
    assert z[IP + 12..IP + 16] == myIp && z[IP + 16..IP + 20] == first[IP + 12..IP + 16];
    var last := Answer(rx, myIp);
    assert last[IP + 12..IP + 16] == z[IP + 12..IP + 16] && last[IP + 16..IP + 20] == z[IP + 16..IP + 20];
  }

  /** Lengths for which both checksums of every reply verify. */
  predicate Sound(ihl: nat, total: nat) {
    (20 <= ihl && ihl + 4 <= total) || (ihl == 12 && 20 <= total)
  }

  lemma SoundVerifies(rx: Frame, received: nat, myIp: IpAddress)
    requires IsRequest(rx, received, myIp) && LengthsFit(rx) && Sound(HeaderLength(rx), TotalLength(rx))
    ensures HeaderVerifies(Answer(rx, myIp), HeaderLength(rx))
    ensures IcmpVerifies(Answer(rx, myIp), HeaderLength(rx), TotalLength(rx))
  {
    hide HeaderVerifies, IcmpVerifies, Answer;
    HeaderOfAnswer(rx, myIp);
    if HeaderLength(rx) == 12 {
      IcmpOverAddresses(rx, received, myIp);
    } else {
      IcmpOfAnswer(rx, myIp);
    }
  }

  // ---------------------------------------------------------------- lengths that spoil the reply

  /** A request with these lengths and hardly anything else in it. */
  function Bare(ihl: nat, total: nat): Frame
    requires 4 <= ihl <= 60 && ihl % 4 == 0 && total < 0x1_0000
  {
    seq(FRAME, k requires 0 <= k < FRAME =>
      if k == 12 then 0x08 else if k == IP then 0x40 + ihl / 4 else if k == IP + 2 then total / 0x100
      else if k == IP + 3 then total % 0x100 else if k == IP + 9 then 1 else if k == IP + ihl then 8 else 0)
  }

  function BareIp(ihl: nat): IpAddress {
    if ihl == 16 then [8, 0, 0, 0] else [0, 0, 0, 0]
  }

  lemma BareIsRequest(ihl: nat, total: nat)
    requires 4 <= ihl <= 60 && ihl % 4 == 0 && ihl < total && IP + total <= FRAME
    ensures var rx := Bare(ihl, total);
            && HeaderLength(rx) == ihl && TotalLength(rx) == total && LengthsFit(rx)
            && IsRequest(rx, FRAME, BareIp(ihl))
  {
    var rx := Bare(ihl, total);
    assert rx[IP + 16..IP + 20] == BareIp(ihl);
  }

  lemma {:induction false} ZeroSum(data: seq<byte>)
    requires forall k | 0 <= k < |data| :: data[k] == 0
    ensures WordSum(data) == 0
  {
    if |data| >= 2 {
      ZeroSum(data[2..]);
    }
  }

  lemma ZerosDoNotVerify(data: seq<byte>)
    requires forall k | 0 <= k < |data| :: data[k] == 0
    ensures ChecksumOf(data) == 0xFFFF
  {
    ZeroSum(data);
  }

  /** Headers of four or eight bytes end before the checksum field. */
  lemma ShortHeaderFails(ihl: nat, total: nat)
    requires (ihl == 4 || ihl == 8) && ihl < total && IP + total <= FRAME
    ensures LengthsFit(Bare(ihl, total)) && !HeaderVerifies(Answer(Bare(ihl, total), BareIp(ihl)), ihl)
  {
    BareIsRequest(ihl, total);
    BareHeader(ihl, total);
    hide Bare, Answer, BareIp, ChecksumOf;
    var rx := Bare(ihl, total);
    HeaderKept(rx, BareIp(ihl));
    assert Answer(rx, BareIp(ihl))[IP..IP + ihl] == rx[IP..IP + ihl];
    ShortSum(rx[IP..IP + ihl]);
  }

  lemma BareHeader(ihl: nat, total: nat)
    requires (ihl == 4 || ihl == 8) && IP + total <= FRAME
    ensures var rx := Bare(ihl, total);
            && (rx[IP] == 0x41 || rx[IP] == 0x42) && rx[IP + 1] == 0 && rx[IP + 2] <= 5
            && forall k | IP + 4 <= k < IP + ihl :: rx[k] == 0
  {
  }

  lemma ShortSum(s: seq<byte>)
    requires 4 <= |s| && (s[0] == 0x41 || s[0] == 0x42) && s[1] == 0
    requires s[2] <= 5 && forall k | 4 <= k < |s| :: s[k] == 0
    ensures ChecksumOf(s) != 0
  {
    ZeroSum(s[4..]);
    assert s[2..][2..] == s[4..];
    assert WordSum(s) == s[0] as int * 0x100 + (s[2] as int * 0x100 + s[3] as int + WordSum(s[4..]));
  }

  lemma HeaderKept(rx: Frame, myIp: IpAddress)
    requires LengthsFit(rx) && 4 <= HeaderLength(rx) <= 8
    ensures forall k | IP <= k < IP + HeaderLength(rx) :: Answer(rx, myIp)[k] == rx[k]
  {
    hide ChecksumOf;
  }

  /** A sixteen-byte header makes the source address overwrite the ICMP checksum. */
  lemma SixteenByteHeaderFails(total: nat)
    requires 16 < total && IP + total <= FRAME
    ensures LengthsFit(Bare(16, total)) && !IcmpVerifies(Answer(Bare(16, total), BareIp(16)), 16, total)
  {
    BareIsRequest(16, total);
    var rx := Bare(16, total);
    var part := Answer(rx, BareIp(16))[IP + 16..IP + total];
    assert forall k | 0 <= k < |part| :: part[k] == 0 by {
      AfterAddresses(rx, BareIp(16));
    }
    ZerosDoNotVerify(part);
  }

  lemma AfterAddresses(rx: Frame, myIp: IpAddress)
    requires LengthsFit(rx) && HeaderLength(rx) == 16 && forall k | IP + 12 <= k < FRAME && k != IP + 16 :: rx[k] == 0
    ensures forall k | IP + 16 <= k < FRAME :: Answer(rx, myIp)[k] == 0
  {
    hide ChecksumOf;
    var total := TotalLength(rx);
    var first := IcmpRewritten(rx, IP + 16, total - 16);
    var source := first[IP + 12..IP + 16];
    assert forall k | 0 <= k < 4 :: source[k] == 0;
    var put := Put(Put(first, IP + 12, myIp), IP + 16, source);
    forall k | IP + 16 <= k < FRAME
      ensures put[k] == 0
    {
      assert k < IP + 20 ==> put[IP + 16..IP + 20][k - IP - 16] == 0;
    }
  }

  /** An ICMP part too short for its checksum field does not verify either. */
  lemma ShortPartFails(ihl: nat, total: nat)
    requires 20 <= ihl <= 60 && ihl % 4 == 0 && ihl < total < ihl + 4
    ensures LengthsFit(Bare(ihl, total)) && !IcmpVerifies(Answer(Bare(ihl, total), BareIp(ihl)), ihl, total)
  {
    BareIsRequest(ihl, total);
    var rx := Bare(ihl, total);
    assert rx[IP + ihl + 1] == 0;
    hide Bare, BareIp, ChecksumOf, Answer;
    PartOfAnswer(rx, BareIp(ihl));
    ShortPart(rx, IP + ihl, total - ihl);
    var part := Answer(rx, BareIp(ihl))[IP + ihl..IP + total];
    assert part == IcmpRewritten(rx, IP + ihl, total - ihl)[IP + ihl..IP + total];
    TruncatedFails(part);
  }

  lemma ShortPart(rx: Frame, icmp: nat, len: nat)
    requires icmp + 4 < FRAME && 1 <= len <= 3 && rx[icmp + 1] == 0
    ensures IcmpRewritten(rx, icmp, len)[icmp..icmp + len] == [0, 0, 0xFF][..len]
  {
    var z := IcmpZeroed(rx, icmp);
    ZerosDoNotVerify(z[icmp..icmp + len]);
    hide ChecksumOf;
  }

  lemma PartOfAnswer(rx: Frame, myIp: IpAddress)
    requires LengthsFit(rx) && HeaderLength(rx) >= 20
    ensures var icmp, len := IP + HeaderLength(rx), TotalLength(rx) - HeaderLength(rx);
            forall k | icmp <= k < FRAME :: Answer(rx, myIp)[k] == IcmpRewritten(rx, icmp, len)[k]
  {
    hide ChecksumOf;
  }

  lemma TruncatedFails(part: seq<byte>)
    requires 1 <= |part| <= 3 && part == [0, 0, 0xFF][..|part|]
    ensures ChecksumOf(part) != 0
  {
    if |part| < 3 {
      ZerosDoNotVerify(part);
    } else {
      WordSumPrefix(part, 2);
      ZeroSum(part[..2]);
      assert part[2..] == [0xFF];
      assert WordSum([0xFF]) == 0xFF00;
    }
  }

  /** Nor does a twelve-byte header with a part that does not hold both addresses. */
  lemma TwelveByteHeaderFails(total: nat)
    requires 12 < total < 20
    ensures LengthsFit(Bare(12, total)) && !IcmpVerifies(Answer(Bare(12, total), BareIp(12)), 12, total)
  {
    BareIsRequest(12, total);
    var rx := Bare(12, total);
    assert forall k | IP + 13 <= k < IP + 20 :: rx[k] == 0;
    hide Bare, ChecksumOf, Answer;
    var first := IcmpRewritten(rx, IP + 12, total - 12);
    OverAddresses(rx, total - 12);
    AddressesSwapped(rx, BareIp(12), first);
    var part := Answer(rx, BareIp(12))[IP + 12..IP + total];
    SwappedPart(Answer(rx, BareIp(12)), total);
    TruncatedSwapFails(part);
  }

  lemma OverAddresses(rx: Frame, len: nat)
    requires 1 <= len <= 7 && forall k | IP + 13 <= k < IP + 20 :: rx[k] == 0
    ensures var first := IcmpRewritten(rx, IP + 12, len);
            first[IP + 12..IP + 16] == [0, 0, 0xFF, 0xFF] && first[IP + 16..IP + 20] == [0, 0, 0, 0]
  {
    ZerosDoNotVerify(IcmpZeroed(rx, IP + 12)[IP + 12..IP + 12 + len]);
    hide ChecksumOf;
    var first := IcmpRewritten(rx, IP + 12, len);
    assert first[IP + 12..IP + 16] == [first[IP + 12], first[IP + 13], first[IP + 14], first[IP + 15]];
    assert first[IP + 16..IP + 20] == [first[IP + 16], first[IP + 17], first[IP + 18], first[IP + 19]];
  }

  lemma SwappedPart(last: Frame, total: nat)
    requires 12 < total < 20 && last[IP + 12..IP + 16] == [0, 0, 0, 0] && last[IP + 16..IP + 20] == [0, 0, 0xFF, 0xFF]
    ensures last[IP + 12..IP + total] == [0, 0, 0, 0, 0, 0, 0xFF, 0xFF][..total - 12]
  {
    forall k | 0 <= k < total - 12
      ensures last[IP + 12 + k] == [0, 0, 0, 0, 0, 0, 0xFF, 0xFF][k]
    {
      assert k < 4 ==> last[IP + 12 + k] == last[IP + 12..IP + 16][k];
      assert k >= 4 ==> last[IP + 12 + k] == last[IP + 16..IP + 20][k - 4];
    }
  }

  lemma TruncatedSwapFails(part: seq<byte>)
    requires 1 <= |part| <= 7 && part == [0, 0, 0, 0, 0, 0, 0xFF, 0xFF][..|part|]
    ensures ChecksumOf(part) != 0
  {
    if |part| < 7 {
      ZerosDoNotVerify(part);
    } else {
      WordSumPrefix(part, 6);
      ZeroSum(part[..6]);
      assert part[6..] == [0xFF];
      assert WordSum([0xFF]) == 0xFF00;
    }
  }

  ghost predicate Asks(rx: Frame, received: nat, myIp: IpAddress, ihl: nat, total: nat) {
    IsRequest(rx, received, myIp) && HeaderLength(rx) == ihl && TotalLength(rx) == total
  }

  ghost predicate Verifies(rx: Frame, myIp: IpAddress) {
    LengthsFit(rx) &&
    HeaderVerifies(Answer(rx, myIp), HeaderLength(rx)) &&
    IcmpVerifies(Answer(rx, myIp), HeaderLength(rx), TotalLength(rx))
  }

  /** The lengths decide: every request with them gets a reply that verifies, if and only if they are sound. */
  lemma RepliesVerifyIffSound(ihl: nat, total: nat)
    requires 4 <= ihl <= 60 && ihl % 4 == 0 && ihl < total && IP + total <= FRAME
    ensures (forall rx: Frame, received: nat, myIp: IpAddress | Asks(rx, received, myIp, ihl, total) ::
               Verifies(rx, myIp))
            <==> Sound(ihl, total)
  {
    hide Answer, HeaderVerifies, IcmpVerifies, Bare, BareIp;
    if Sound(ihl, total) {
      forall rx: Frame, received: nat, myIp: IpAddress | Asks(rx, received, myIp, ihl, total)
        ensures Verifies(rx, myIp)
      {
        SoundVerifies(rx, received, myIp);
      }
    } else {
      BareIsRequest(ihl, total);
      assert Asks(Bare(ihl, total), FRAME, BareIp(ihl), ihl, total);
      if ihl <= 8 {
        ShortHeaderFails(ihl, total);
      } else if ihl == 12 {
        TwelveByteHeaderFails(total);
      } else if ihl == 16 {
        SixteenByteHeaderFails(total);
      } else {
        ShortPartFails(ihl, total);
      }
      assert !Verifies(Bare(ihl, total), BareIp(ihl));
    }
  }

  // ---------------------------------------------------------------- the fields of the reply

  /** The bytes the reply rewrites: both MAC addresses, both IP addresses, the type and the two checksums. */
  ghost predicate Rewritten(rx: Frame, k: nat) {
    var icmp := IP + HeaderLength(rx);
    k < 12 || IP + 10 <= k < IP + 20 || k == icmp || k == icmp + 2 || k == icmp + 3
  }

  lemma ReplyFields(rx: Frame, myIp: IpAddress, myMac: MacAddress)
    requires LengthsFit(rx)
    ensures var reply := MacsExchanged(Answer(rx, myIp), myMac);
            && reply[..6] == rx[6..12] && reply[6..12] == myMac && reply[IP..] == Answer(rx, myIp)[IP..]
            && reply[IP + 12..IP + 16] == myIp
            && (HeaderLength(rx) >= 20 ==>
                  reply[IP + 16..IP + 20] == rx[IP + 12..IP + 16] && reply[IP + HeaderLength(rx)] == 0)
            && forall k | 0 <= k < FRAME && !Rewritten(rx, k) :: reply[k] == rx[k]
  {
    hide ChecksumOf;
    var ihl, total := HeaderLength(rx), TotalLength(rx);
    var first := IcmpRewritten(rx, IP + ihl, total - ihl);
    var z, a := IpZeroed(first, myIp), Answer(rx, myIp);
    AnswerFields(rx, myIp);
    hide Answer;
    var m := Put(a, 0, a[6..12]);
    var reply := Put(m, 6, myMac);
    assert reply[..6] == m[0..6] == a[6..12] == rx[6..12];
    assert reply[IP..] == a[IP..];
    assert reply[IP + 12..IP + 16] == a[IP + 12..IP + 16];
    assert reply[IP + 16..IP + 20] == a[IP + 16..IP + 20];
  }

  lemma AnswerFields(rx: Frame, myIp: IpAddress)
    requires LengthsFit(rx)
    ensures var a := Answer(rx, myIp);
            && a[IP + 12..IP + 16] == myIp
            && (HeaderLength(rx) >= 20 ==> a[IP + 16..IP + 20] == rx[IP + 12..IP + 16] && a[IP + HeaderLength(rx)] == 0)
            && forall k | 0 <= k < FRAME && (k < 12 || !Rewritten(rx, k)) :: a[k] == rx[k]
  {
    hide ChecksumOf;
    var ihl, total := HeaderLength(rx), TotalLength(rx);
    var first := IcmpRewritten(rx, IP + ihl, total - ihl);
    var z, a := IpZeroed(first, myIp), Answer(rx, myIp);
    assert z[IP + 12..IP + 16] == myIp;
    assert a[IP + 12..IP + 16] == z[IP + 12..IP + 16];
    assert a[IP + 16..IP + 20] == z[IP + 16..IP + 20] == first[IP + 12..IP + 16];
    assert ihl >= 20 ==> first[IP + 12..IP + 16] == rx[IP + 12..IP + 16];
  }

  // ---------------------------------------------------------------- the handler

  method StoreWord(a: array<byte>, at: nat, w: u16)
    requires at + 1 < a.Length
    modifies a
    ensures a[..] == WithWord(old(a[..]), at, w)
  {
    a[at], a[at + 1] := w / 0x100, w % 0x100;
  }

  method StoreBytes(a: array<byte>, at: nat, s: seq<byte>)
    requires at + |s| <= a.Length
    modifies a
    ensures a[..] == Put(old(a[..]), at, s)
  {
    forall k | 0 <= k < |s| {
      a[at + k] := s[k];
    }
  }

  lemma PartFits(rx: Frame, lo: nat, hi: nat)
    requires lo <= hi <= FRAME
    ensures WordSum(rx[lo..hi]) < 0x1_0000_0000
  {
    WordSumBound(rx[lo..hi]);
  }

  method RewriteIcmp(rx: array<byte>, icmp: nat, len: nat)
    requires rx.Length == FRAME && icmp + 3 < FRAME && 0 < len && icmp + len <= FRAME
    modifies rx
    ensures rx[..] == IcmpRewritten(old(rx[..]), icmp, len)
  {
    hide WordSum;
    rx[icmp] := 0;
    StoreWord(rx, icmp + 2, 0);
    PartFits(rx[..], icmp, icmp + len);
    assert rx[..][icmp..icmp + len] == rx[icmp..icmp + len];
    var sum := CalculateChecksum(rx[icmp..icmp + len]);
    StoreWord(rx, icmp + 2, sum);
  }

  method RewriteIp(rx: array<byte>, ihl: nat, myIp: IpAddress)
    requires rx.Length == FRAME && 0 < ihl <= 60
    modifies rx
    ensures rx[..] == IpRewritten(old(rx[..]), ihl, myIp)
  {
    hide WordSum, Put;
    var source := rx[IP + 12..IP + 16];
    assert source == rx[..][IP + 12..IP + 16];
    StoreBytes(rx, IP + 12, myIp);
    StoreBytes(rx, IP + 16, source);
    StoreWord(rx, IP + 10, 0);
    PartFits(rx[..], IP, IP + ihl);
    assert rx[..][IP..IP + ihl] == rx[IP..IP + ihl];
    var sum := CalculateChecksum(rx[IP..IP + ihl]);
    StoreWord(rx, IP + 10, sum);
  }

  /**
   Turns an echo request into its reply in place.  Everything else is ignored.  A request
   whose lengths do not fit faults; every other one is answered with exactly the frame of
   `Answer`, the MAC addresses exchanged.
   */
  method EchoReply(rx: array<byte>, received: nat, myIp: IpAddress, myMac: MacAddress) returns (r: EchoResult)
    requires rx.Length == FRAME && received <= FRAME
    modifies rx
    ensures !IsRequest(old(rx[..]), received, myIp) ==> r == Ignored && rx[..] == old(rx[..])
    ensures IsRequest(old(rx[..]), received, myIp) ==> (r == Faulted <==> !LengthsFit(old(rx[..])))
    ensures IsRequest(old(rx[..]), received, myIp) && LengthsFit(old(rx[..])) ==>
              && r == Replied(14 + 0x100 * old(rx[16]) as int + old(rx[17]) as int)
              && rx[..] == MacsExchanged(Answer(old(rx[..]), myIp), myMac)
  {
    hide IcmpRewritten, IpRewritten, Put;
    if received < IP || rx[12] != 0x08 || rx[13] != 0x00 || received < IP + 20 {
      return Ignored;
    }
    assert rx[IP + 16..IP + 20] == rx[..][IP + 16..IP + 20];
    if rx[IP + 16..IP + 20] != myIp || rx[IP + 9] != 1 {
      return Ignored;
    }
    var ihl := rx[IP] % 0x10 * 4;
    var icmp := IP + ihl;
    if received < icmp + 8 || rx[icmp] != 8 {
      return Ignored;
    }
    RequestHasHeader(rx[..], received, myIp);
    var total: nat := rx[IP + 2] as int * 0x100 + rx[IP + 3] as int;
    if total <= ihl || IP + total > FRAME {
      return Faulted;
    }
    RewriteIcmp(rx, icmp, total - ihl);
    RewriteIp(rx, ihl, myIp);
    var requester := rx[6..12];
    assert requester == rx[..][6..12];
    StoreBytes(rx, 0, requester);
    StoreBytes(rx, 6, myMac);
    return Replied(IP + total);
  }
}
