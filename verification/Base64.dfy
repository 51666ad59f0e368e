/**
 Base64 with the standard alphabet and canonical padding, section 4 of
 RFC 4648: decoding refuses a wrong length, a foreign character, misplaced
 padding and non-zero trailing bits.
 */
module Base64 {
  import opened ByteStrings
  import opened Options

  // ------------------------------------------------------------ bytes and symbols

  type sextet = x: int | 0 <= x < 64

  /** Six bits, or the padding sign. */
  datatype Symbol = Six(v: sextet) | Pad

  // Twenty-four bits as three bytes `a b c`, or as four sextets `p q r t`.

  function P(a: byte): sextet { a / 4 }
  function Q(a: byte, b: byte): sextet { (a % 4) * 16 + b / 16 }
  function R(b: byte, c: byte): sextet { (b % 16) * 4 + c / 64 }
  function T(c: byte): sextet { c % 64 }

  function A(p: sextet, q: sextet): byte { p * 4 + q / 16 }
  function B(q: sextet, r: sextet): byte { (q % 16) * 16 + r / 4 }
  function C(r: sextet, t: sextet): byte { (r % 4) * 64 + t }

  predicate LowClear4(q: sextet) { q % 16 == 0 }
  predicate LowClear2(r: sextet) { r % 4 == 0 }

  lemma BytesRegroup(a: byte, b: byte, c: byte)
    ensures A(P(a), Q(a, b)) == a && B(Q(a, b), R(b, c)) == b && C(R(b, c), T(c)) == c
    ensures LowClear4(Q(a, 0)) && LowClear2(R(b, 0))
  {
  }

  lemma SextetsRegroup(p: sextet, q: sextet, r: sextet, t: sextet)
    ensures P(A(p, q)) == p
    ensures Q(A(p, q), B(q, r)) == q && R(B(q, r), C(r, t)) == r && T(C(r, t)) == t
    ensures LowClear4(q) ==> Q(A(p, q), 0) == q
    ensures LowClear2(r) ==> R(B(q, r), 0) == r
  {
  }

  /** One, two or three bytes as four symbols. */
  function Quad(g: Bytes): (s: seq<Symbol>)
    requires 1 <= |g| <= 3
    ensures |s| == 4
  {
    if |g| == 1 then [Six(P(g[0])), Six(Q(g[0], 0)), Pad, Pad]
    else if |g| == 2 then [Six(P(g[0])), Six(Q(g[0], g[1])), Six(R(g[1], 0)), Pad]
    else [Six(P(g[0])), Six(Q(g[0], g[1])), Six(R(g[1], g[2])), Six(T(g[2]))]
  }

  /** Four symbols as one, two or three bytes; only the last four may be padded. */
  function Unquad(s: seq<Symbol>, last: bool): (g: Option<Bytes>)
    requires |s| == 4
    ensures g.Some? ==> 1 <= |g.value| <= 3 && (last || |g.value| == 3)
  {
    if s[0].Pad? || s[1].Pad? then None
    else if s[2].Pad? then
      if last && s[3].Pad? && LowClear4(s[1].v) then Some([A(s[0].v, s[1].v)]) else None
    else if s[3].Pad? then
      if last && LowClear2(s[2].v) then Some([A(s[0].v, s[1].v), B(s[1].v, s[2].v)]) else None
    else Some([A(s[0].v, s[1].v), B(s[1].v, s[2].v), C(s[2].v, s[3].v)])
  }

  lemma Three(a: byte, b: byte, c: byte, last: bool)
    ensures Unquad(Quad([a, b, c]), last) == Some([a, b, c])
  {
    BytesRegroup(a, b, c);
  }

  lemma Two(a: byte, b: byte)
    ensures Unquad(Quad([a, b]), true) == Some([a, b])
  {
    BytesRegroup(a, b, 0);
  }

  lemma One(a: byte)
    ensures Unquad(Quad([a]), true) == Some([a])
  {
    assert A(P(a), Q(a, 0)) == a && LowClear4(Q(a, 0)) by { BytesRegroup(a, 0, 0); }
  }

  lemma UnquadQuad(g: Bytes, last: bool)
    requires 1 <= |g| <= 3 && (last || |g| == 3)
    ensures Unquad(Quad(g), last) == Some(g)
  {
    if |g| == 1 {
      assert g == [g[0]];
      One(g[0]);
    } else if |g| == 2 {
      assert g == [g[0], g[1]];
      Two(g[0], g[1]);
    } else {
      assert g == [g[0], g[1], g[2]];
      Three(g[0], g[1], g[2], last);
    }
  }

  lemma QuadUnquad(s: seq<Symbol>, last: bool)
    requires |s| == 4 && Unquad(s, last).Some?
    ensures Quad(Unquad(s, last).value) == s
  {
    assert s == [s[0], s[1], s[2], s[3]];
    if s[2].Pad? {
      SextetsRegroup(s[0].v, s[1].v, 0, 0);
    } else if s[3].Pad? {
      SextetsRegroup(s[0].v, s[1].v, s[2].v, 0);
    } else {
      SextetsRegroup(s[0].v, s[1].v, s[2].v, s[3].v);
    }
  }

  /** The bits of a group, most significant first, filled up with zeros to whole symbols. */
  lemma QuadValue(g: Bytes)
    requires 1 <= |g| <= 3
    ensures var s := Quad(g);
            && s[0].Six? && s[1].Six? && (s[2].Six? <==> |g| >= 2) && (s[3].Six? <==> |g| == 3)
            && (|g| == 1 ==> 64 * s[0].v + s[1].v == 16 * (g[0] as int))
            && (|g| == 2 ==> 4096 * s[0].v + 64 * s[1].v + s[2].v == 4 * (256 * (g[0] as int) + g[1] as int))
            && (|g| == 3 ==> 0x4_0000 * s[0].v + 4096 * s[1].v + 64 * s[2].v + s[3].v
                             == 0x1_0000 * (g[0] as int) + 256 * (g[1] as int) + g[2] as int)
  {
  }

  /** The bytes from the third of `i` on, three of them or as many as there are. */
  function Group(bs: Bytes, i: nat): (g: Bytes)
    requires 3 * i < |bs|
    ensures 1 <= |g| <= 3
  {
    bs[3 * i..if 3 * i + 3 <= |bs| then 3 * i + 3 else |bs|]
  }

  lemma GroupLater(bs: Bytes, i: nat)
    requires i > 0 && 3 * i < |bs|
    ensures Group(bs[3..], i - 1) == Group(bs, i)
  {
    assert bs == bs[..3] + bs[3..];
    SliceShift(bs[..3], bs[3..], 3 * i, if 3 * i + 3 <= |bs| then 3 * i + 3 else |bs|);
  }

  lemma GroupFirst(bs: Bytes)
    requires bs != []
    ensures Group(bs, 0) == if |bs| <= 3 then bs else bs[..3]
  {
  }

  /** Three bytes at a time, in order. */
  lemma {:induction false} SymbolsByGroup(bs: Bytes, i: nat)
    requires 3 * i < |bs|
    ensures 4 * i + 4 <= |ToSymbols(bs)|
    ensures ToSymbols(bs)[4 * i..4 * i + 4] == Quad(Group(bs, i))
  {
    if i == 0 {
      GroupFirst(bs);
      var q := Quad(Group(bs, 0));
      assert ToSymbols(bs)[..4] == q;
    } else {
      GroupLater(bs, i);
      SymbolsByGroup(bs[3..], i - 1);
      SliceShift(Quad(bs[..3]), ToSymbols(bs[3..]), 4 * i, 4 * i + 4);
    }
  }

  lemma SliceShift<V>(a: seq<V>, b: seq<V>, i: nat, j: nat)
    requires |a| <= i <= j <= |a| + |b|
    ensures (a + b)[i..j] == b[i - |a|..j - |a|]
  {
  }

  function ToSymbols(bs: Bytes): (s: seq<Symbol>)
    ensures |s| == (|bs| + 2) / 3 * 4
  {
    if bs == [] then []
    else if |bs| <= 3 then Quad(bs)
    else Quad(bs[..3]) + ToSymbols(bs[3..])
  }

  function FromSymbols(s: seq<Symbol>): Option<Bytes> {
    if s == [] then Some([])
    else if |s| < 4 then None
    else
      match Unquad(s[..4], |s| == 4)
      case None => None
      case Some(g) =>
        match FromSymbols(s[4..])
        case None => None
        case Some(rest) => Some(g + rest)
  }

  lemma {:induction false} FromToSymbols(bs: Bytes)
    ensures FromSymbols(ToSymbols(bs)) == Some(bs)
  {
    if bs == [] {
    } else if |bs| <= 3 {
      UnquadQuad(bs, true);
      var s := ToSymbols(bs);
      assert s[..4] == Quad(bs) && s[4..] == [];
      assert bs + [] == bs;
    } else {
      var s := ToSymbols(bs);
      FromToSymbols(bs[3..]);
      UnquadQuad(bs[..3], false);
      assert s[..4] == Quad(bs[..3]) && s[4..] == ToSymbols(bs[3..]);
      assert bs == bs[..3] + bs[3..];
    }
  }

  lemma {:induction false} ToFromSymbols(s: seq<Symbol>)
    requires FromSymbols(s).Some?
    ensures ToSymbols(FromSymbols(s).value) == s
  {
    if s != [] {
      var g := Unquad(s[..4], |s| == 4).value;
      QuadUnquad(s[..4], |s| == 4);
      ToFromSymbols(s[4..]);
      var rest := FromSymbols(s[4..]).value;
      assert s == s[..4] + s[4..];
      if |s| == 4 {
        assert rest == [] && g + rest == g;
      } else {
        assert (g + rest)[..3] == g && (g + rest)[3..] == rest;
      }
    }
  }

  // ------------------------------------------------------- symbols and characters

  function Letter(s: Symbol): char {
    match s
    case Pad => '='
    case Six(d) =>
      if d < 26 then 'A' + d as char
      else if d < 52 then 'a' + (d - 26) as char
      else if d < 62 then '0' + (d - 52) as char
      else if d == 62 then '+'
      else '/'
  }

  predicate IsLetter(c: char) {
    'A' <= c <= 'Z' || 'a' <= c <= 'z' || '0' <= c <= '9' || c == '+' || c == '/' || c == '='
  }

  function Reading(c: char): (s: Symbol)
    requires IsLetter(c)
    ensures Letter(s) == c
  {
    if 'A' <= c <= 'Z' then Six((c - 'A') as int)
    else if 'a' <= c <= 'z' then Six((c - 'a') as int + 26)
    else if '0' <= c <= '9' then Six((c - '0') as int + 52)
    else if c == '+' then Six(62)
    else if c == '/' then Six(63)
    else Pad
  }

  lemma ReadingOfLetter(s: Symbol)
    ensures IsLetter(Letter(s)) && Reading(Letter(s)) == s
    ensures Letter(s) != ';'
  {
  }

  function Spell(s: seq<Symbol>): string {
    seq(|s|, i requires 0 <= i < |s| => Letter(s[i]))
  }

  predicate Legible(t: string) {
    forall c :: c in t ==> IsLetter(c)
  }

  function Unspell(t: string): seq<Symbol>
    requires Legible(t)
  {
    seq(|t|, i requires 0 <= i < |t| => Reading(t[i]))
  }

  lemma UnspellSpell(s: seq<Symbol>)
    ensures Legible(Spell(s)) && Unspell(Spell(s)) == s
    ensures ';' !in Spell(s)
  {
    forall c | c in Spell(s) ensures IsLetter(c) && c != ';' {
      var i :| 0 <= i < |s| && Spell(s)[i] == c;
      ReadingOfLetter(s[i]);
    }
    forall i | 0 <= i < |s| ensures Unspell(Spell(s))[i] == s[i] {
      ReadingOfLetter(s[i]);
    }
  }

  /** The standard alphabet: A to Z, a to z, 0 to 9, each in order, then the two signs; and the padding sign. */
  lemma StandardAlphabet(d: sextet)
    ensures Letter(Six(0)) == 'A' && Letter(Six(25)) == 'Z' && Letter(Six(26)) == 'a' && Letter(Six(51)) == 'z'
    ensures Letter(Six(52)) == '0' && Letter(Six(61)) == '9' && Letter(Six(62)) == '+' && Letter(Six(63)) == '/'
    ensures d < 61 && d != 25 && d != 51 ==> Letter(Six(d + 1)) as int == Letter(Six(d)) as int + 1
    ensures Letter(Pad) == '='
  {
  }

  // ------------------------------------------------------------------------ codec

  function Encode(bs: Bytes): string {
    Spell(ToSymbols(bs))
  }

  function Decode(t: string): Option<Bytes> {
    if Legible(t) then FromSymbols(Unspell(t)) else None
  }

  /** Four characters for each group of bytes, in order: its symbols spelled out. */
  lemma EncodeByGroup(bs: Bytes, i: nat, j: nat)
    requires 3 * i < |bs| && j < 4
    ensures 4 * i + j < |Encode(bs)| && Encode(bs)[4 * i + j] == Letter(Quad(Group(bs, i))[j])
  {
    SymbolsByGroup(bs, i);
    assert ToSymbols(bs)[4 * i + j] == ToSymbols(bs)[4 * i..4 * i + 4][j];
  }

  lemma EncodeLength(bs: Bytes)
    ensures |Encode(bs)| == (|bs| + 2) / 3 * 4
  {
  }

  /** Decoding what was encoded gives it back, and the field separator never occurs. */
  lemma DecodeEncode(bs: Bytes)
    ensures Decode(Encode(bs)) == Some(bs)
    ensures ';' !in Encode(bs)
  {
    UnspellSpell(ToSymbols(bs));
    FromToSymbols(bs);
  }

  /** Text decodes in one way only: encoding what was decoded gives the text back. */
  lemma EncodeDecode(t: string)
    requires Decode(t).Some?
    ensures Encode(Decode(t).value) == t
  {
    ToFromSymbols(Unspell(t));
    assert Spell(Unspell(t)) == t;
  }

  lemma EncodeAscii(bs: Bytes)
    ensures IsAscii(Encode(bs))
  {
    UnspellSpell(ToSymbols(bs));
    forall i | 0 <= i < |Encode(bs)| ensures Encode(bs)[i] < 128 as char {
      assert Encode(bs)[i] in Encode(bs);
    }
  }
}
