/**
 Bytes: exclusive or, and big-endian numbers as `BigUint` writes and reads them.
 */
module ByteStrings {

  type byte = x: int | 0 <= x < 256

  type Bytes = seq<byte>

  function Pow(b: nat, e: nat): nat {
    if e == 0 then 1 else b * Pow(b, e - 1)
  }

  // --------------------------------------------------------------- exclusive or

  function XorBits(a: nat, b: nat, n: nat): (r: nat)
    ensures r < Pow(2, n)
  {
    if n == 0 then 0 else (if a % 2 == b % 2 then 0 else 1) + 2 * XorBits(a / 2, b / 2, n - 1)
  }

  lemma {:induction false} XorBitsCancel(a: nat, b: nat, n: nat)
    requires a < Pow(2, n)
    ensures XorBits(XorBits(a, b, n), b, n) == a
  {
    if n > 0 {
      var x := XorBits(a / 2, b / 2, n - 1);
      XorBitsCancel(a / 2, b / 2, n - 1);
      LowBit(if a % 2 == b % 2 then 0 else 1, x);
    }
  }

  lemma LowBit(bit: nat, x: nat)
    requires bit < 2
    ensures (bit + 2 * x) / 2 == x && (bit + 2 * x) % 2 == bit
  {
  }

  lemma Pow2Of8()
    ensures Pow(2, 8) == 256
  {
    assert Pow(2, 4) == 16;
  }

  function Xor(a: byte, b: byte): byte {
    Pow2Of8();
    XorBits(a, b, 8)
  }

  function XorBytes(a: Bytes, b: Bytes): Bytes
    requires |a| == |b|
  {
    seq(|a|, i requires 0 <= i < |a| => Xor(a[i], b[i]))
  }

  /** Exclusive or with the same bytes twice changes nothing. */
  lemma XorCancels(a: Bytes, b: Bytes)
    requires |a| == |b|
    ensures XorBytes(XorBytes(a, b), b) == a
  {
    forall i | 0 <= i < |a| ensures XorBytes(XorBytes(a, b), b)[i] == a[i] {
      Pow2Of8();
      XorBitsCancel(a[i], b[i], 8);
    }
  }

  /** Bit `i`, the lowest first. */
  function Bit(x: nat, i: nat): nat {
    if i == 0 then x % 2 else Bit(x / 2, i - 1)
  }

  /** That is the digit at the place of 2^i. */
  lemma {:induction false} BitIsDigit(x: nat, i: nat)
    ensures Pow(2, i) > 0 && Bit(x, i) == x / Pow(2, i) % 2
  {
    PowPositive(2, i);
    if i > 0 {
      PowPositive(2, i - 1);
      BitIsDigit(x / 2, i - 1);
      HalfThenDivide(x, Pow(2, i - 1));
    }
  }

  lemma HalfThenDivide(x: nat, p: nat)
    requires p > 0
    ensures x / 2 / p == x / (2 * p)
  {
    var q, r := x / (2 * p), x % (2 * p);
    assert x == 2 * (p * q) + r by {
      assert x == 2 * p * q + r;
      assert 2 * p * q == 2 * (p * q);
    }
    assert x / 2 == p * q + r / 2;
    QuotientIs(x / 2, p, q, r / 2);
  }

  lemma QuotientIs(x: nat, p: nat, q: nat, r: nat)
    requires p > 0 && x == p * q + r && r < p
    ensures x / p == q
  {
    var q' := x / p;
    if q' < q {
      MulGrows(p, q' + 1, q);
    } else if q < q' {
      MulGrows(p, q + 1, q');
    }
  }

  lemma MulGrows(p: nat, a: nat, b: nat)
    requires a <= b
    ensures p * a <= p * b
  {
    assert p * b == p * a + p * (b - a);
  }

  lemma {:induction false} XorBitsBit(a: nat, b: nat, n: nat, i: nat)
    requires i < n
    ensures Bit(XorBits(a, b, n), i) == (Bit(a, i) + Bit(b, i)) % 2
  {
    XorBitsHalves(a, b, n);
    if i > 0 {
      XorBitsBit(a / 2, b / 2, n - 1, i - 1);
    }
  }

  lemma XorBitsHalves(a: nat, b: nat, n: nat)
    requires n > 0
    ensures XorBits(a, b, n) % 2 == (a % 2 + b % 2) % 2
    ensures XorBits(a, b, n) / 2 == XorBits(a / 2, b / 2, n - 1)
  {
    LowBit(if a % 2 == b % 2 then 0 else 1, XorBits(a / 2, b / 2, n - 1));
  }

  /** Numbers of `n` bits are alike when their bits are. */
  lemma {:induction false} BitsDecide(x: nat, y: nat, n: nat)
    requires x < Pow(2, n) && y < Pow(2, n) && forall i :: 0 <= i < n ==> Bit(x, i) == Bit(y, i)
    ensures x == y
  {
    if n > 0 {
      forall i | 0 <= i < n - 1 ensures Bit(x / 2, i) == Bit(y / 2, i) {
        assert Bit(x, i + 1) == Bit(y, i + 1);
      }
      BitsDecide(x / 2, y / 2, n - 1);
      assert Bit(x, 0) == Bit(y, 0);
    }
  }

  /** Each bit of `c` is the sum, without carry, of those of `a` and `b`. */
  ghost predicate Mixes(a: byte, b: byte, c: byte) {
    forall i :: 0 <= i < 8 ==> Bit(c, i) == (Bit(a, i) + Bit(b, i)) % 2
  }

  /** Exclusive or, said of bits: there is one byte that mixes two, and this is it. */
  lemma XorMixes(a: byte, b: byte, c: byte)
    ensures c == Xor(a, b) <==> Mixes(a, b, c)
  {
    Pow2Of8();
    forall i | 0 <= i < 8 ensures Bit(Xor(a, b), i) == (Bit(a, i) + Bit(b, i)) % 2 {
      XorBitsBit(a, b, 8, i);
    }
    if Mixes(a, b, c) {
      BitsDecide(c, Xor(a, b), 8);
    }
  }

  // ------------------------------------------------------------------ big endian

  function FromBE(bs: Bytes): nat {
    if bs == [] then 0 else 256 * FromBE(bs[..|bs| - 1]) + bs[|bs| - 1]
  }

  /** The shortest big-endian form; zero is one zero byte. */
  function ToBE(n: nat): Bytes {
    if n < 256 then [n] else ToBE(n / 256) + [n % 256]
  }

  function Zeros(n: nat): Bytes {
    seq(n, _ => 0)
  }

  lemma {:induction false} FromToBE(n: nat)
    ensures FromBE(ToBE(n)) == n
    ensures |ToBE(n)| >= 1
    ensures |ToBE(n)| > 1 ==> ToBE(n)[0] != 0
  {
    if n < 256 {
      assert FromBE([n][..0]) == 0;
    } else {
      FromToBE(n / 256);
      assert ToBE(n)[..|ToBE(n)| - 1] == ToBE(n / 256);
      if n / 256 < 256 {
        assert ToBE(n)[0] == n / 256;
      }
    }
  }

  /** Bytes without a needless leading zero are the shortest form of their number. */
  lemma {:induction false} ToFromBE(bs: Bytes)
    requires bs != [] && (|bs| > 1 ==> bs[0] != 0)
    ensures ToBE(FromBE(bs)) == bs
    ensures |bs| > 1 || bs[0] != 0 ==> FromBE(bs) > 0
  {
    var front := bs[..|bs| - 1];
    assert bs == front + [bs[|bs| - 1]];
    if front != [] {
      ToFromBE(front);
    }
  }

  /** `n` fits in `k` bytes exactly when it is below `256^k`. */
  lemma {:induction false} ToBELength(n: nat, k: nat)
    requires k >= 1
    ensures |ToBE(n)| <= k <==> n < Pow(256, k)
  {
    if n < 256 {
      PowPositive(256, k - 1);
      assert Pow(256, k) == 256 * Pow(256, k - 1);
    } else if k == 1 {
      assert Pow(256, 1) == 256 * Pow(256, 0);
      FromToBE(n / 256);
    } else {
      ToBELength(n / 256, k - 1);
      assert Pow(256, k) == 256 * Pow(256, k - 1);
    }
  }

  lemma {:induction false} PowPositive(b: nat, e: nat)
    requires b > 0
    ensures Pow(b, e) > 0
  {
    if e > 0 {
      PowPositive(b, e - 1);
    }
  }

  lemma {:induction false} FromBEBound(bs: Bytes)
    ensures FromBE(bs) < Pow(256, |bs|)
  {
    if bs != [] {
      FromBEBound(bs[..|bs| - 1]);
    }
  }

  /** Leading zeros do not change the number. */
  lemma {:induction false} LeadingZeros(k: nat, bs: Bytes)
    ensures FromBE(Zeros(k) + bs) == FromBE(bs)
  {
    if bs != [] {
      LeadingZeros(k, bs[..|bs| - 1]);
      var all := Zeros(k) + bs;
      assert all[..|all| - 1] == Zeros(k) + bs[..|bs| - 1];
    } else if k > 0 {
      LeadingZeros(k - 1, []);
      var all := Zeros(k) + bs;
      assert all[..|all| - 1] == Zeros(k - 1) + [];
    }
  }

  /** `strip_leading_zeros`: the same number, without zero bytes in front, the last byte always kept. */
  method StripLeadingZeros(b: Bytes) returns (r: Bytes)
    ensures |r| <= |b| && b == Zeros(|b| - |r|) + r
    ensures FromBE(r) == FromBE(b)
    ensures |r| > 1 ==> r[0] != 0
    ensures r == [] <==> b == []
  {
    var i := 0;
    while i < (if |b| >= 1 then |b| - 1 else 0) && b[i] == 0
      invariant 0 <= i <= |b|
      invariant b != [] ==> i < |b|
      invariant b[..i] == Zeros(i)
    {
      i := i + 1;
    }
    assert b == Zeros(i) + b[i..];
    LeadingZeros(i, b[i..]);
    r := b[i..];
  }

  // ------------------------------------------------------------------------ text

  predicate IsAscii(s: string) {
    forall i :: 0 <= i < |s| ==> s[i] < 128 as char
  }

  function CodeOf(c: char): byte
    requires c < 128 as char
  {
    c as int
  }

  /** The bytes of a text, one a character. */
  function Ascii(s: string): Bytes
    requires IsAscii(s)
  {
    seq(|s|, i requires 0 <= i < |s| => CodeOf(s[i]))
  }

  function FromAscii(bs: Bytes): string {
    seq(|bs|, i requires 0 <= i < |bs| => bs[i] as char)
  }

  lemma FromAsciiAscii(s: string)
    requires IsAscii(s)
    ensures FromAscii(Ascii(s)) == s
  {
  }
}
