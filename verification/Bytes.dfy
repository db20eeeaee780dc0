/** Bytes as characters: the exclusive or of the ciphers and the little-endian integers of the file formats. */
module Bytes {

  // ---- Exclusive or ----

  /** Exclusive or of the low `bits` bits; the higher bits of `a` stay. */
  function Xor(a: nat, b: nat, bits: nat): nat
    decreases bits, a
  {
    if bits == 0 then a else (a + b) % 2 + 2 * Xor(a / 2, b / 2, bits - 1)
  }

  lemma XorStep(a: nat, b: nat, bits: nat)
    requires bits > 0
    ensures Xor(a, b, bits) % 2 == (a + b) % 2 && Xor(a, b, bits) / 2 == Xor(a / 2, b / 2, bits - 1)
  {
    Halves((a + b) % 2, Xor(a / 2, b / 2, bits - 1));
  }

  lemma Halves(low: nat, high: nat)
    requires low < 2
    ensures (low + 2 * high) % 2 == low && (low + 2 * high) / 2 == high
  {
  }

  lemma Parity(x: nat, a: nat, b: nat)
    requires x % 2 == (a + b) % 2
    ensures (x + b) % 2 == a % 2
  {
  }

  lemma {:induction false} XorInvolution(a: nat, b: nat, bits: nat)
    ensures Xor(Xor(a, b, bits), b, bits) == a
    decreases bits
  {
    if bits > 0 {
      var x := Xor(a, b, bits);
      XorStep(a, b, bits);
      XorStep(x, b, bits);
      Parity(x, a, b);
      XorInvolution(a / 2, b / 2, bits - 1);
    }
  }

  function Halved(a: nat, times: nat): nat
    decreases times, a
  {
    if times == 0 then a else Halved(a / 2, times - 1)
  }

  /** Bit `k` of the result is the exclusive or of the two bits. */
  lemma {:induction false} XorBit(a: nat, b: nat, bits: nat, k: nat)
    requires k < bits
    ensures Halved(Xor(a, b, bits), k) % 2 == (Halved(a, k) + Halved(b, k)) % 2
    decreases bits
  {
    XorStep(a, b, bits);
    if k > 0 { XorBit(a / 2, b / 2, bits - 1, k - 1); }
  }

  lemma {:induction false} XorKeepsHighBits(a: nat, b: nat, bits: nat)
    ensures Halved(Xor(a, b, bits), bits) == Halved(a, bits)
    decreases bits
  {
    if bits > 0 {
      XorStep(a, b, bits);
      XorKeepsHighBits(a / 2, b / 2, bits - 1);
    }
  }

  lemma HalvedTwice(a: nat, times: nat)
    ensures Halved(a, times + 2) == Halved(a / 4, times)
  {
    assert Halved(a, times + 2) == Halved(a / 2, times + 1) == Halved(a / 2 / 2, times);
  }

  lemma HalvedEight(a: nat)
    ensures Halved(a, 8) == a / 256
  {
    HalvedFour(a, 4);
    HalvedFour(a / 16, 0);
  }

  lemma HalvedFour(a: nat, times: nat)
    ensures Halved(a, times + 4) == Halved(a / 16, times)
  {
    HalvedTwice(a, times + 2);
    HalvedTwice(a / 4, times);
  }

  function XorByte(a: nat, b: nat): (r: nat)
    ensures r / 256 == a / 256
  {
    XorKeepsHighBits(a, b, 8);
    HalvedEight(a);
    HalvedEight(Xor(a, b, 8));
    Xor(a, b, 8)
  }

  lemma XorByteInvolution(a: nat, b: nat)
    ensures XorByte(XorByte(a, b), b) == a
  {
    XorInvolution(a, b, 8);
  }

  lemma XorByteParity(a: nat, b: nat)
    ensures XorByte(a, b) % 2 == (a + b) % 2
  {
    XorStep(a, b, 8);
  }

  /** Keys that differ in their lowest bit never cancel out. */
  lemma XorByteMoves(a: nat, k: nat, l: nat)
    requires k % 2 != l % 2
    ensures XorByte(XorByte(a, k), l) != a
  {
    var x := XorByte(a, k);
    XorByteParity(a, k);
    XorByteParity(x, l);
    SumParity(a, x, XorByte(x, l), k, l);
  }

  lemma SumParity(a: nat, x: nat, y: nat, k: nat, l: nat)
    requires x % 2 == (a + k) % 2 && y % 2 == (x + l) % 2 && k % 2 != l % 2
    ensures y % 2 != a % 2
  {
  }

  /** `c ^ k` on bytes. */
  function XorChar(c: char, k: char): char { XorByte(c as int, k as int) as char }

  lemma XorCharInvolution(c: char, k: char)
    ensures XorChar(XorChar(c, k), k) == c
  {
    XorByteInvolution(c as int, k as int);
  }

  /** Every byte with the same key. */
  function Xored(s: string, k: char): string { seq(|s|, i requires 0 <= i < |s| => XorChar(s[i], k)) }

  lemma XoredTwice(s: string, k: char)
    ensures Xored(Xored(s, k), k) == s
  {
    forall i | 0 <= i < |s| ensures Xored(Xored(s, k), k)[i] == s[i] { XorCharInvolution(s[i], k); }
  }

  // ---- Little-endian integers ----

  predicate IsByte(c: char) { c as int < 256 }

  predicate AreBytes(s: string) { forall i :: 0 <= i < |s| ==> IsByte(s[i]) }

  function Limit(width: nat): (r: nat)
    ensures r > 0
  {
    if width == 0 then 1 else 256 * Limit(width - 1)
  }

  /** `width` bytes, the lowest first. */
  function Little(n: nat, width: nat): (s: string)
    ensures |s| == width && AreBytes(s)
    decreases width, n
  {
    if width == 0 then "" else [(n % 256) as char] + Little(n / 256, width - 1)
  }

  function FromLittle(s: string): nat {
    if s == "" then 0 else s[0] as int + 256 * FromLittle(s[1..])
  }

  lemma {:induction false} FromLittleOfLittle(n: nat, width: nat)
    requires n < Limit(width)
    ensures FromLittle(Little(n, width)) == n
    decreases width
  {
    if width > 0 {
      FromLittleOfLittle(n / 256, width - 1);
      assert Little(n, width)[1..] == Little(n / 256, width - 1);
    }
  }

  lemma {:induction false} LittleOfFromLittle(s: string)
    requires AreBytes(s)
    ensures Little(FromLittle(s), |s|) == s && FromLittle(s) < Limit(|s|)
  {
    if s != "" {
      LittleOfFromLittle(s[1..]);
      assert FromLittle(s) / 256 == FromLittle(s[1..]) && FromLittle(s) % 256 == s[0] as int;
      assert s == [s[0]] + s[1..];
    }
  }

  const WORD := 0x1_0000_0000_0000_0000

  const HALF_WORD := 0x1_0000_0000

  lemma Limits()
    ensures Limit(4) == HALF_WORD && Limit(8) == WORD
  {
    assert Limit(4) == 256 * 256 * Limit(2);
    assert Limit(8) == 256 * 256 * 256 * 256 * Limit(4);
  }

  /** Eight bytes hold every 64-bit integer. */
  lemma WordRoundTrip(n: nat)
    requires n < WORD
    ensures FromLittle(Little(n, 8)) == n
  {
    Limits();
    FromLittleOfLittle(n, 8);
  }

  lemma HalfWordRoundTrip(n: nat)
    requires n < HALF_WORD
    ensures FromLittle(Little(n, 4)) == n
  {
    Limits();
    FromLittleOfLittle(n, 4);
  }
}
