/**
 The message that opens the key exchange: magic, length, and fields separated
 by semicolons.
 */
module SecureConnect {
  import opened ByteStrings
  import opened Text
  import Base64

  type u32 = x: int | 0 <= x < 0x1_0000_0000

  const SEPARATOR := ';'

  // --------------------------------------------------------------- decimal numbers

  function DigitChar(d: int): char
    requires 0 <= d < 10
  {
    '0' + d as char
  }

  function Decimal(n: nat): string {
    if n < 10 then [DigitChar(n)] else Decimal(n / 10) + [DigitChar(n % 10)]
  }

  predicate IsDigit(c: char) {
    '0' <= c <= '9'
  }

  function Parse(s: string): nat
    requires forall i :: 0 <= i < |s| ==> IsDigit(s[i])
  {
    if s == "" then 0
    else
      assert IsDigit(s[|s| - 1]);
      10 * Parse(s[..|s| - 1]) + (s[|s| - 1] as int - '0' as int)
  }

  lemma {:induction false} ParseDecimal(n: nat)
    ensures forall i :: 0 <= i < |Decimal(n)| ==> IsDigit(Decimal(n)[i])
    ensures Parse(Decimal(n)) == n
  {
    if n < 10 {
      assert Parse([DigitChar(n)][..0]) == 0;
    } else {
      ParseDecimal(n / 10);
      assert Decimal(n)[..|Decimal(n)| - 1] == Decimal(n / 10);
    }
  }

  /** Most significant digit first, in the usual digits. */
  lemma DecimalReads()
    ensures Decimal(0) == "0" && Decimal(532) == "532" && Decimal(1234567890) == "1234567890"
  {
    assert Decimal(53) == Decimal(5) + "3";
    assert Decimal(12) == "12";
    assert Decimal(1234) == Decimal(123) + "4";
    assert Decimal(123456) == Decimal(12345) + "6";
    assert Decimal(12345678) == Decimal(1234567) + "8";
    assert Decimal(1234567890) == Decimal(123456789) + "0";
  }

  lemma {:induction false} DecimalLength(n: nat, k: nat)
    requires k >= 1 && n < Pow(10, k)
    ensures 1 <= |Decimal(n)| <= k
  {
    if n >= 10 {
      assert k > 1 by { assert Pow(10, 1) == 10 * Pow(10, 0); }
      DecimalLength(n / 10, k - 1);
    }
  }

  lemma U32Decimal(n: u32)
    ensures 1 <= |Decimal(n)| <= 10
  {
    assert Pow(10, 10) == 10_000_000_000 by {
      assert Pow(10, 5) == 100_000 by { assert Pow(10, 3) == 1000; }
    }
    DecimalLength(n, 10);
  }

  // ------------------------------------------------------------------------ fields

  /** The pieces of a text between separators. */
  function Split(s: string): (r: seq<string>)
    ensures |r| >= 1
  {
    if s == "" then [""]
    else
      var rest := Split(s[1..]);
      if s[0] == SEPARATOR then [""] + rest else [[s[0]] + rest[0]] + rest[1..]
  }

  function Joined(fields: seq<string>): string {
    Join(fields, [SEPARATOR])
  }

  lemma {:induction false} SplitAlone(f: string)
    requires SEPARATOR !in f
    ensures Split(f) == [f]
  {
    if f != "" {
      SplitAlone(f[1..]);
      assert [f[0]] + f[1..] == f;
    }
  }

  lemma {:induction false} SplitFirst(f: string, t: string)
    requires SEPARATOR !in f
    ensures Split(f + [SEPARATOR] + t) == [f] + Split(t)
  {
    var s := f + [SEPARATOR] + t;
    if f == "" {
      assert s[1..] == t;
    } else {
      SplitFirst(f[1..], t);
      assert s[1..] == f[1..] + [SEPARATOR] + t;
      assert [f[0]] + f[1..] == f;
    }
  }

  /** Fields that do not hold the separator are found again. */
  lemma {:induction false} SplitJoin(fields: seq<string>)
    requires |fields| >= 1 && AllPlain(fields)
    ensures Split(Joined(fields)) == fields
  {
    if |fields| == 1 {
      SplitAlone(fields[0]);
    } else {
      SplitJoin(fields[1..]);
      SplitFirst(fields[0], Joined(fields[1..]));
    }
  }

  /** ASCII, and without the separator. */
  predicate Plain(f: string) {
    SEPARATOR !in f && IsAscii(f)
  }

  predicate AllPlain(fields: seq<string>) {
    forall i :: 0 <= i < |fields| ==> Plain(fields[i])
  }

  lemma {:induction false} JoinAscii(fields: seq<string>)
    requires |fields| >= 1 && AllPlain(fields)
    ensures IsAscii(Joined(fields))
  {
    if |fields| > 1 {
      assert forall i :: 0 <= i < |fields[1..]| ==> fields[1..][i] == fields[i + 1];
      JoinAscii(fields[1..]);
    }
  }

  // ------------------------------------------------------------------- the public value

  /** A number as 128 bytes; a longer one loses its low bytes. */
  function Padded128(n: nat): (r: Bytes)
    ensures |r| == 128
  {
    var bs := ToBE(n);
    if |bs| <= 128 then Zeros(128 - |bs|) + bs else bs[..128]
  }

  /** 2^1024: what 128 bytes cannot hold. */
  ghost const PUBLIC_LIMIT: nat := Pow(256, 128)

  /** The 128 bytes stand for the number exactly when it is below 2^1024. */
  lemma PaddedValue(n: nat)
    ensures FromBE(Padded128(n)) == n <==> n < PUBLIC_LIMIT
  {
    ToBELength(n, 128);
    FromBEBound(Padded128(n));
    if |ToBE(n)| <= 128 {
      LeadingZeros(128 - |ToBE(n)|, ToBE(n));
      FromToBE(n);
    }
  }

  /** A number that does not fit keeps its 128 most significant bytes. */
  lemma PaddedTop(n: nat)
    requires n >= PUBLIC_LIMIT
    ensures Padded128(n)[0] != 0 && exists low :: low != [] && FromBE(Padded128(n) + low) == n
  {
    var bs := ToBE(n);
    ToBELength(n, 128);
    FromToBE(n);
    assert bs == bs[..128] + bs[128..];
    assert bs[128..] != [] && FromBE(Padded128(n) + bs[128..]) == n;
  }

  // ------------------------------------------------------------------------ the message

  /** Four bytes, most significant first. */
  function U32Bytes(n: u32): Bytes {
    [n / 256 / 256 / 256, n / 256 / 256 % 256, n / 256 % 256, n % 256]
  }

  lemma FromBEFour(a: byte, b: byte, c: byte, d: byte)
    ensures FromBE([a, b, c, d]) == 0x100_0000 * (a as int) + 0x1_0000 * (b as int) + 256 * (c as int) + d as int
  {
    FromBESnoc([], a);
    FromBESnoc([a], b);
    FromBESnoc([a, b], c);
    FromBESnoc([a, b, c], d);
    assert [] + [a] == [a] && [a] + [b] == [a, b] && [a, b] + [c] == [a, b, c] && [a, b, c] + [d] == [a, b, c, d];
  }

  lemma FromBESnoc(bs: Bytes, b: byte)
    ensures FromBE(bs + [b]) == 256 * FromBE(bs) + b as int
  {
    assert (bs + [b])[..|bs|] == bs;
  }

  lemma U32Value(n: u32)
    ensures FromBE(U32Bytes(n)) == n
  {
    FromBEFour(n / 256 / 256 / 256, n / 256 / 256 % 256, n / 256 % 256, n % 256);
  }

  const MAGIC: Bytes := [0x23, 0x25, 0x23, 0x25]

  function Fields(version: u32, negotiated: u32, random: Bytes, public: nat): (r: seq<string>)
    ensures |r| == 7
  {
    [Decimal(version), "532", "0", Decimal(negotiated), Base64.Encode(random), Base64.Encode(Padded128(public)), ""]
  }

  lemma DecimalPlain(n: nat)
    ensures Plain(Decimal(n))
  {
    ParseDecimal(n);
  }

  lemma Base64Plain(bs: Bytes)
    ensures Plain(Base64.Encode(bs))
  {
    Base64.DecodeEncode(bs);
    Base64.EncodeAscii(bs);
  }

  lemma FieldsPlain(version: u32, negotiated: u32, random: Bytes, public: nat)
    ensures AllPlain(Fields(version, negotiated, random, public))
  {
    var fields := Fields(version, negotiated, random, public);
    DecimalPlain(version);
    DecimalPlain(negotiated);
    Base64Plain(random);
    Base64Plain(Padded128(public));
    assert Plain("532") && Plain("0") && Plain("");
    forall i | 0 <= i < 7 ensures Plain(fields[i]) {
      assert i == 0 || i == 1 || i == 2 || i == 3 || i == 4 || i == 5 || i == 6;
    }
  }

  lemma FieldLengths(version: u32, negotiated: u32, random: Bytes, public: nat)
    requires |random| == 32
    ensures var f := Fields(version, negotiated, random, public);
            |f[0]| <= 10 && |f[1]| == 3 && |f[2]| == 1 && |f[3]| <= 10 && |f[4]| == 44 && |f[5]| == 172 && |f[6]| == 0
  {
    U32Decimal(version);
    U32Decimal(negotiated);
    Base64.EncodeLength(random);
    Base64.EncodeLength(Padded128(public));
  }

  /** How long the payload is: never near the reach of a 32-bit length. */
  lemma JoinedLength(version: u32, negotiated: u32, random: Bytes, public: nat)
    requires |random| == 32
    ensures |Joined(Fields(version, negotiated, random, public))| < 256
  {
    FieldLengths(version, negotiated, random, public);
    JoinSeven(Fields(version, negotiated, random, public));
  }

  lemma JoinSeven(f: seq<string>)
    requires |f| == 7
    ensures |Joined(f)| == |f[0]| + |f[1]| + |f[2]| + |f[3]| + |f[4]| + |f[5]| + |f[6]| + 6
  {
    JoinLonger(f);
    JoinLonger(f[1..]);
    JoinLonger(f[2..]);
    JoinLonger(f[3..]);
    JoinLonger(f[4..]);
    JoinLonger(f[5..]);
  }

  /** The payload as the format spells it. */
  function Payload(version: string, negotiated: string, random: string, public: string): string {
    version + (";532;0;" + (negotiated + (";" + (random + (";" + (public + ";"))))))
  }

  lemma JoinStep(a: string, rest: seq<string>)
    requires rest != []
    ensures Joined([a] + rest) == a + (";" + Joined(rest))
  {
    assert ([a] + rest)[1..] == rest;
  }

  lemma PayloadIs(a: string, b: string, c: string, d: string)
    ensures Joined([a, "532", "0", b, c, d, ""]) == Payload(a, b, c, d)
  {
    assert Joined([d, ""]) == d + ";" by {
      JoinStep(d, [""]);
      assert [d] + [""] == [d, ""];
    }
    JoinStep(c, [d, ""]);
    JoinStep(b, [c, d, ""]);
    JoinStep("0", [b, c, d, ""]);
    JoinStep("532", ["0", b, c, d, ""]);
    JoinStep(a, ["532", "0", b, c, d, ""]);
    assert [c] + [d, ""] == [c, d, ""] && [b] + [c, d, ""] == [b, c, d, ""];
    assert ["0"] + [b, c, d, ""] == ["0", b, c, d, ""];
    assert ["532"] + ["0", b, c, d, ""] == ["532", "0", b, c, d, ""];
    assert [a] + ["532", "0", b, c, d, ""] == [a, "532", "0", b, c, d, ""];
    var tail := b + (";" + (c + (";" + (d + ";"))));
    assert a + (";" + ("532" + (";" + ("0" + (";" + tail))))) == a + (";532;0;" + tail);
  }

  lemma JoinLonger(f: seq<string>)
    requires |f| >= 2
    ensures |Joined(f)| == |f[0]| + 1 + |Joined(f[1..])|
  {
  }
}
