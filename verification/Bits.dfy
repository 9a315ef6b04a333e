/** Bitwise operations on unsigned words, as recursive functions over the binary digits.
    The firmware uses C's `&` and `^` on uint8_t; the definitions below are width-agnostic. */
module Bits {

  type byte = b: int | 0 <= b < 256

  type u16 = n: int | 0 <= n < 0x1_0000

  type u32 = n: int | 0 <= n < 0x1_0000_0000

  function Min(a: nat, b: nat): nat { if a < b then a else b }

  /** Bitwise conjunction. */
  function And(a: nat, b: nat): (r: nat)
    ensures r <= a && r <= b
  {
    if a == 0 || b == 0 then 0 else (if a % 2 == 1 && b % 2 == 1 then 1 else 0) + 2 * And(a / 2, b / 2)
  }

  /** Bitwise exclusive or of two words of `width` bits. */
  function Xor(width: nat, a: nat, b: nat): (r: nat)
    requires a < Pow2(width) && b < Pow2(width)
    ensures r < Pow2(width)
  {
    if width == 0 then 0
    else (if a % 2 == b % 2 then 0 else 1) + 2 * Xor(width - 1, a / 2, b / 2)
  }

  function Pow2(n: nat): (r: nat)
    ensures r > 0
  {
    if n == 0 then 1 else 2 * Pow2(n - 1)
  }

  /** Every bit set in `small` is set in `big`. */
  predicate Submask(small: nat, big: nat) {
    And(small, big) == small
  }

  lemma {:induction false} AndIdempotent(a: nat)
    ensures And(a, a) == a
  {
    if a != 0 {
      AndIdempotent(a / 2);
    }
  }

  /** An erased cell takes any value programmed into it. */
  lemma {:induction false} AndOnes(width: nat, a: nat)
    requires a < Pow2(width)
    ensures And(Pow2(width) - 1, a) == a
  {
    if a != 0 {
      AndOnes(width - 1, a / 2);
      assert (Pow2(width) - 1) % 2 == 1 && (Pow2(width) - 1) / 2 == Pow2(width - 1) - 1;
    }
  }

  lemma AndErased(d: byte)
    ensures And(255, d) == d
  {
    PowEight();
    AndOnes(8, d);
  }

  lemma SubmaskRefl(a: nat)
    ensures Submask(a, a)
  {
    AndIdempotent(a);
  }

  lemma SubmaskAntisymmetric(a: nat, b: nat)
    requires Submask(a, b) && Submask(b, a)
    ensures a == b
  {
  }

  lemma SubmaskOfOnes(a: nat)
    requires Submask(255, a) && a < 256
    ensures a == 255
  {
  }

  /** Masking with the same word twice restores the original: the key stream cipher is an involution. */
  lemma {:induction false} XorInvolutive(width: nat, a: nat, m: nat)
    requires a < Pow2(width) && m < Pow2(width)
    ensures Xor(width, Xor(width, a, m), m) == a
  {
    if width != 0 {
      XorInvolutive(width - 1, a / 2, m / 2);
    }
  }

  lemma PowEight()
    ensures Pow2(8) == 256
  {
    assert Pow2(4) == 16;
    assert Pow2(6) == 4 * Pow2(4);
    assert Pow2(8) == 4 * Pow2(6);
  }

  function Xor8(a: byte, m: byte): byte {
    PowEight();
    Xor(8, a, m)
  }

  lemma Xor8Involutive(a: byte, m: byte)
    ensures Xor8(Xor8(a, m), m) == a
  {
    PowEight();
    XorInvolutive(8, a, m);
  }
}

/** Little- and big-endian words in byte sequences. */
module Words {
  import opened Bits

  function Le16(n: u16): (s: seq<byte>)
    ensures |s| == 2
  {
    [n % 256, n / 256]
  }

  function Le32(n: u32): (s: seq<byte>)
    ensures |s| == 4
  {
    [n % 256, n / 256 % 256, n / 256 / 256 % 256, n / 256 / 256 / 256]
  }

  function ReadLe16(s: seq<byte>, at: nat): u16
    requires at + 2 <= |s|
  {
    (s[at] as int) + 256 * (s[at + 1] as int)
  }

  function ReadLe32(s: seq<byte>, at: nat): u32
    requires at + 4 <= |s|
  {
    (s[at] as int) + 0x100 * (s[at + 1] as int) + 0x1_0000 * (s[at + 2] as int) + 0x100_0000 * (s[at + 3] as int)
  }

  lemma Le32RoundTrip(n: u32)
    ensures ReadLe32(Le32(n), 0) == n
  {
  }

  /** A 32-bit word stored at `at` inside a larger buffer. */
  lemma ReadLe32At(s: seq<byte>, at: nat, n: u32)
    requires at + 4 <= |s|
    requires s[at..at + 4] == Le32(n)
    ensures ReadLe32(s, at) == n
  {
    Le32RoundTrip(n);
    var w := s[at..at + 4];
    assert w[0] == s[at] && w[1] == s[at + 1] && w[2] == s[at + 2] && w[3] == s[at + 3];
  }

  lemma ReadLe16At(s: seq<byte>, at: nat, n: u16)
    requires at + 2 <= |s|
    requires s[at..at + 2] == Le16(n)
    ensures ReadLe16(s, at) == n
  {
    var w := s[at..at + 2];
    assert w[0] == s[at] && w[1] == s[at + 1];
  }

  function Be16(n: u16): (s: seq<byte>)
    ensures |s| == 2
  {
    [n / 256, n % 256]
  }

  function Be32(n: u32): (s: seq<byte>)
    ensures |s| == 4
  {
    [n / 256 / 256 / 256, n / 256 / 256 % 256, n / 256 % 256, n % 256]
  }

  function ReadBe16(s: seq<byte>, at: nat): u16
    requires at + 2 <= |s|
  {
    256 * (s[at] as int) + (s[at + 1] as int)
  }

  function ReadBe32(s: seq<byte>, at: nat): u32
    requires at + 4 <= |s|
  {
    0x100_0000 * (s[at] as int) + 0x1_0000 * (s[at + 1] as int) + 0x100 * (s[at + 2] as int) + (s[at + 3] as int)
  }

  lemma Be32RoundTrip(n: u32)
    ensures ReadBe32(Be32(n), 0) == n
  {
  }
}
