/** The bytes of a word, little end first, and copying a run of them from one place to another. */
module HeapBytes {
  import opened Bytes
  import opened HeapMemory

  /** 256 to the power of `r`, for the bytes of one word. */
  function Weight(r: nat): (w: nat)
    requires r <= 8
    ensures w > 0
  {
    match r
    case 0 => 1
    case 1 => 0x100
    case 2 => 0x1_0000
    case 3 => 0x100_0000
    case 4 => 0x1_0000_0000
    case 5 => 0x100_0000_0000
    case 6 => 0x1_0000_0000_0000
    case 7 => 0x100_0000_0000_0000
    case 8 => 0x1_0000_0000_0000_0000
  }

  function ByteOf(word: nat, j: nat): byte
    requires j < 8
  {
    word / Weight(j) % 0x100
  }

  /** The byte at an address, which lies in the word at the multiple of 8 below. */
  function ByteAt(m: Memory, a: nat): byte {
    ByteOf(Load(m, a - a % 8), a % 8)
  }

  /** Byte `j` from `base` on. */
  function ByteFrom(m: Memory, base: nat, j: nat): byte {
    ByteAt(m, base + j)
  }

  function WordFrom(m: Memory, base: nat, k: nat): nat {
    Load(m, base + 8 * k)
  }

  /** The low `r` bytes of `src` over those of `dst`. */
  function LowBytes(dst: nat, src: nat, r: nat): nat
    requires r <= 8
  {
    dst - dst % Weight(r) + src % Weight(r)
  }

  lemma WeightFactors(j: nat, r: nat) returns (k: nat)
    requires j < r <= 8
    ensures Weight(r) == Weight(j) * 0x100 * k
  {
    k := Weight(r - j - 1);
  }

  /** A low byte is decided by the remainder. */
  lemma RemainderDecides(x: nat, j: nat, r: nat)
    requires j < r <= 8
    ensures ByteOf(x, j) == ByteOf(x % Weight(r), j)
  {
    var k := WeightFactors(j, r);
    var q, t, w := x / Weight(r), x % Weight(r), Weight(j);
    var u, v := t / w, t % w;
    assert x == q * Weight(r) + t && t == u * w + v;
    hide Weight;
    ShiftOut(q, w, k, u, v, x);
  }

  lemma ShiftOut(q: nat, w: nat, k: nat, u: nat, v: nat, x: nat)
    requires w > 0 && v < w && x == q * (w * 0x100 * k) + (u * w + v)
    ensures x / w % 0x100 == u % 0x100
  {
    var n := q * k;
    assert q * (w * 0x100 * k) == (n * 0x100) * w;
    assert x == (n * 0x100 + u) * w + v;
    DivModUnique(x, w, n * 0x100 + u, v);
    var a, b := u / 0x100, u % 0x100;
    assert n * 0x100 + u == (n + a) * 0x100 + b;
    DivModUnique(n * 0x100 + u, 0x100, n + a, b);
  }

  lemma LowBytesCopied(dst: nat, src: nat, r: nat, j: nat)
    requires j < r <= 8
    ensures ByteOf(LowBytes(dst, src, r), j) == ByteOf(src, j)
  {
    var w, q := Weight(r), dst / Weight(r);
    assert dst - dst % w == q * w;
    DivModUnique(LowBytes(dst, src, r), w, q, src % w);
    RemainderDecides(LowBytes(dst, src, r), j, r);
    RemainderDecides(src, j, r);
  }

  predicate Apart(a: nat, b: nat, n: nat) {
    a + n <= b || b + n <= a
  }

  /** Memory after copying the first `i` words. */
  ghost predicate CopiedWords(m: Memory, m': Memory, src: nat, dst: nat, i: nat) {
    && (forall k: nat | k < i :: WordFrom(m', dst, k) == WordFrom(m, src, k))
    && forall x: nat | !(dst <= x < dst + 8 * i) :: Load(m', x) == Load(m, x)
  }

  lemma OneMoreWord(m: Memory, m': Memory, src: nat, dst: nat, n: nat, i: nat)
    requires CopiedWords(m, m', src, dst, i) && 8 * i < n && Apart(src, dst, n)
    ensures Load(m', src + 8 * i) == Load(m, src + 8 * i)
    ensures CopiedWords(m, m'[dst + 8 * i := Load(m', src + 8 * i)], src, dst, i + 1)
  {
  }

  /** `n` bytes of `m'` from `dst` on are those of `m` from `src` on, and nothing else has changed. */
  ghost predicate CopiedBytes(m: Memory, m': Memory, src: nat, dst: nat, n: nat) {
    && (forall j: nat | j < n :: ByteFrom(m', dst, j) == ByteFrom(m, src, j))
    && forall x: nat | !(dst <= x < dst + n) :: Load(m', x) == Load(m, x)
  }

  lemma WordOfByte(a: nat, j: nat)
    requires a % 8 == 0
    ensures (a + j) % 8 == j % 8 && a + j - (a + j) % 8 == a + 8 * (j / 8)
  {
    var q := a / 8;
    DivModUnique(a + j, 8, q + j / 8, j % 8);
  }

  lemma WordsThenBytes(m: Memory, m1: Memory, m2: Memory, src: nat, dst: nat, n: nat)
    requires src % 8 == 0 && dst % 8 == 0 && Apart(src, dst, n) && CopiedWords(m, m1, src, dst, n / 8)
    requires var i, r := n / 8, n % 8;
             m2 == if r == 0 then m1 else m1[dst + 8 * i := LowBytes(Load(m1, dst + 8 * i), Load(m1, src + 8 * i), r)]
    ensures CopiedBytes(m, m2, src, dst, n)
  {
    hide ByteOf, LowBytes, Weight;
    var i, r := n / 8, n % 8;
    forall j: nat | j < n
      ensures ByteFrom(m2, dst, j) == ByteFrom(m, src, j)
    {
      WordOfByte(dst, j);
      WordOfByte(src, j);
      if j / 8 == i {
        assert j % 8 < r && Load(m1, src + 8 * i) == Load(m, src + 8 * i);
        LowBytesCopied(Load(m1, dst + 8 * i), Load(m, src + 8 * i), r, j % 8);
      } else {
        assert WordFrom(m2, dst, j / 8) == WordFrom(m1, dst, j / 8) == WordFrom(m, src, j / 8);
      }
    }
  }
}
