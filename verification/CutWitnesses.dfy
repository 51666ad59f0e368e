/**
 Texts on which cutting from a marker to the end of the next block does
 something else than a reader of the gate would expect.
 */
module CutWitnesses {
  import opened Text
  import opened Options
  import opened WireCoverage
  import opened SpanRows
  import opened MarkedItems
  import opened ItemReading
  import opened CutSeams

  lemma FirstOf(text: string, c: char, from: nat, at: nat)
    requires from <= at < |text| && text[at] == c && forall i :: from <= i < at ==> text[i] != c
    ensures Find(text, [c], from) == at
  {
    FindIsLeast(text, [c], from);
    assert OccursAt(text, [c], at);
    forall i | from <= i < at ensures !OccursAt(text, [c], i) {
      assert text[i..i + 1][0] == text[i];
    }
  }

  lemma NoneOf(text: string, c: char, from: nat)
    requires forall i :: from <= i < |text| ==> text[i] != c
    ensures Find(text, [c], from) == -1
  {
    FindIsLeast(text, [c], from);
    forall i | from <= i < |text| ensures !OccursAt(text, [c], i) {
      assert text[i..i + 1][0] == text[i];
    }
  }

  lemma EmptyBlock(text: string, b: nat)
    requires b + 2 <= |text| && text[b] == '{' && text[b + 1] == '}'
    ensures IsEnd(text, b, b + 2)
  {
    assert ReadTo(text, b, b) == Reader(Code, 0);
    assert ReadTo(text, b, b + 1) == Reader(Code, 1);
  }

  /** What one cut and no other leaves. */
  lemma OneCut(text: string, sp: Span, spans: seq<Span>, r: Option<string>)
    requires NextMarker(text, 0, sp.f) && IsCut(text, sp) && |text| < sp.e + |MARKER|
    requires Leaves(text, spans, r)
    ensures sp.f < sp.e <= |text|
    ensures spans == [sp] && r == Some(text[..sp.f] + text[sp.e..])
  {
    assert CutAt(text, [sp], 0);
    CutsAdvance(text, [sp], 0);
    FindIsLeast(text, MARKER, sp.e);
    OneCutKept(text, sp);
    assert Leaves(text, [sp], Some(Kept(text, [sp])));
    OutcomeDecided(text, spans, r, [sp], Some(Kept(text, [sp])));
  }

  lemma OneCutKept(text: string, sp: Span)
    requires sp.f <= sp.e <= |text|
    ensures Kept(text, [sp]) == text[..sp.f] + text[sp.e..]
  {
    assert KeptTo(text, [sp], 0) == "" && Piece(text, [sp], 0) == text[..sp.f];
    assert Piece(text, [sp], 1) == text[sp.e..];
    assert KeptTo(text, [sp], 1) == text[..sp.f];
  }

  lemma NoMarkerFrom(text: string, from: nat)
    requires forall i :: from <= i < |text| ==> text[i] != '#'
    ensures Find(text, MARKER, from) == -1
  {
    FindIsLeast(text, MARKER, from);
    forall i | from <= i < |text| ensures !OccursAt(text, MARKER, i) {
      if i + |MARKER| <= |text| {
        assert text[i..i + |MARKER|][0] == text[i];
      }
    }
  }

  /** A marked item at the start of a text with no other. */
  lemma OneItem(text: string, e: nat)
    requires OccursAt(text, MARKER, 0) && 0 < e <= |text| && forall i :: e <= i < |text| ==> text[i] != '#'
    ensures FromMarkers(text, [Span(0, e)])
    ensures IsItem(text, Span(0, e)) ==> AllItems(text, [Span(0, e)])
  {
    var items := [Span(0, e)];
    assert RowAt(text, items, 0) && NextMarker(text, Resume(items, 0), items[0].f);
    NoMarkerFrom(text, e);
    NextByNext(text, items);
    if IsItem(text, Span(0, e)) {
      assert ItemAt(text, items, 0);
    }
  }

  /** One cut and one item that end apart do not hold the same characters. */
  lemma EndsApart(a: nat, b: nat)
    requires 0 < a < b
    ensures !SameCharacters([Span(0, a)], [Span(0, b)]) && !SameCharacters([Span(0, b)], [Span(0, a)])
    ensures !TiledBy([Span(0, a)], Span(0, b))
  {
    assert Holds([Span(0, b)][0], a) && Covered([Span(0, b)], a);
    assert !Holds([Span(0, a)][0], a) && !Covered([Span(0, a)], a);
  }

  const LOST := "#[cfg(test)]mod t;fn f(){}"

  lemma LostPlaces(text: string)
    requires text == LOST
    ensures |text| == 26 && text[17] == ';' && text[24] == '{' && text[25] == '}'
    ensures forall i :: 0 <= i < 17 ==> text[i] != ';'
    ensures forall i :: 0 <= i < 24 ==> text[i] != '{'
    ensures forall i :: 1 <= i < 26 ==> text[i] != '#'
    ensures text[0..12] == MARKER && text[18..] == "fn f(){}"
  {
  }

  lemma LostItem(text: string)
    requires |text| == 26 && text[17] == ';' && text[24] == '{' && text[25] == '}'
    requires forall i :: 0 <= i < 17 ==> text[i] != ';'
    requires forall i :: 0 <= i < 24 ==> text[i] != '{'
    ensures IsCut(text, Span(0, 26)) && !BlockComesFirst(text, 0) && IsItem(text, Span(0, 18))
  {
    FirstOf(text, ';', 0, 17);
    FirstOf(text, '{', 0, 24);
    EmptyBlock(text, 24);
  }

  /** A marked declaration without a block takes the unmarked function after it along. */
  lemma UnmarkedFunctionLost(spans: seq<Span>, r: Option<string>)
    requires Leaves(LOST, spans, r)
    ensures r == Some("")
    ensures !BlockComesFirst(LOST, 0) && IsItem(LOST, Span(0, 18)) && LOST[18..] == "fn f(){}"
    ensures AllItems(LOST, [Span(0, 18)]) && FromMarkers(LOST, [Span(0, 18)])
    ensures spans == [Span(0, 26)] && !TiledBy([Span(0, 18)], spans[0]) && !SameCharacters(spans, [Span(0, 18)])
  {
    LostPlaces(LOST);
    LostItem(LOST);
    OneItem(LOST, 18);
    EndsApart(18, 26);
    OneCut(LOST, Span(0, 26), spans, r);
  }

  // ------------------------------------------------------- a marked field

  const FIELD := "#[cfg(test)]a:A,b:B,}fn f(){}"

  lemma FieldPlaces(text: string)
    requires text == FIELD
    ensures |text| == 29 && text[27] == '{' && text[28] == '}'
    ensures forall i :: 0 <= i < 29 ==> text[i] != ';' && (text[i] == '{' ==> i == 27)
    ensures forall i :: 1 <= i < 29 ==> text[i] != '#'
    ensures text[0..12] == MARKER && text[12..16] == "a:A," && text[16..20] == "b:B,"
  {
  }

  lemma FieldCut(text: string)
    requires |text| == 29 && text[27] == '{' && text[28] == '}'
    requires forall i :: 0 <= i < 29 ==> text[i] != ';' && (text[i] == '{' ==> i == 27)
    ensures IsCut(text, Span(0, 29)) && IsItem(text, Span(0, 29)) && BlockComesFirst(text, 0)
    ensures AtHead(text, Span(0, 16))
  {
    FirstOf(text, '{', 0, 27);
    NoneOf(text, ';', 0);
    EmptyBlock(text, 27);
  }

  /**
   A marked field ends at its comma, before any brace.  The field after it goes
   with it, and the function after that; by punctuation alone all of it would
   be one item.
   */
  lemma MarkedFieldTakesTheNext(spans: seq<Span>, r: Option<string>)
    requires Leaves(FIELD, spans, r)
    ensures r == Some("") && spans == [Span(0, 29)]
    ensures FIELD[12..16] == "a:A," && FIELD[16..20] == "b:B,"
    ensures FromMarkers(FIELD, [Span(0, 16)]) && AtHead(FIELD, Span(0, 16))
    ensures !SameCharacters(spans, [Span(0, 16)])
    ensures BlockComesFirst(FIELD, 0) && AllItems(FIELD, [Span(0, 29)])
  {
    FieldPlaces(FIELD);
    FieldCut(FIELD);
    OneItem(FIELD, 16);
    OneItem(FIELD, 29);
    EndsApart(16, 29);
    OneCut(FIELD, Span(0, 29), spans, r);
  }

  // ---------------------------------------------- past the first block, or inside

  const IMPORT := "#[cfg(test)]use a::{b};"

  lemma ImportPlaces(text: string)
    requires text == IMPORT
    ensures |text| == 23 && text[19] == '{' && text[20] == 'b' && text[21] == '}' && text[22] == ';'
    ensures forall i :: 0 <= i < 19 ==> text[i] != '{'
    ensures forall i :: 1 <= i < 23 ==> text[i] != '#'
    ensures text[0..12] == MARKER && text[..0] + text[22..] == ";"
  {
  }

  lemma ImportCut(text: string)
    requires |text| == 23 && text[19] == '{' && text[20] == 'b' && text[21] == '}'
    requires forall i :: 0 <= i < 19 ==> text[i] != '{'
    ensures IsCut(text, Span(0, 22))
  {
    FirstOf(text, '{', 0, 19);
    assert ReadTo(text, 19, 19) == Reader(Code, 0);
    assert ReadTo(text, 19, 20) == Reader(Code, 1);
    assert ReadTo(text, 19, 21) == Reader(Code, 1);
    assert ClosesAt(text, 19, 21);
  }

  /** A marked import of a group goes on past its braces: its semicolon stays. */
  lemma ImportLeavesItsEnd(spans: seq<Span>, r: Option<string>)
    requires Leaves(IMPORT, spans, r)
    ensures r == Some(";") && spans == [Span(0, 22)]
    ensures FromMarkers(IMPORT, [Span(0, 23)]) && !SameCharacters(spans, [Span(0, 23)])
  {
    ImportPlaces(IMPORT);
    ImportCut(IMPORT);
    OneItem(IMPORT, 23);
    EndsApart(22, 23);
    OneCut(IMPORT, Span(0, 22), spans, r);
  }

  const QUOTED := "#[cfg(test)]x\"{\";fn f(){}\"}"

  lemma QuotedPlaces(text: string)
    requires text == QUOTED
    ensures |text| == 27 && text[14] == '{' && text[15] == '"' && text[25] == '"' && text[26] == '}'
    ensures forall i :: 0 <= i < 14 ==> text[i] != '{'
    ensures forall i :: 16 <= i < 25 ==> text[i] != '"' && text[i] != '\\'
    ensures text[16] == ';' && forall i :: 0 <= i < 16 ==> text[i] != ';'
    ensures forall i :: 1 <= i < 27 ==> text[i] != '#'
    ensures text[0..12] == MARKER && text[17..25] == "fn f(){}"
  {
  }

  lemma {:induction false} InLiteral(text: string, b: nat, q: nat, i: nat)
    requires b + 2 <= i <= q < |text| && text[b] == '{' && text[b + 1] == '"'
    requires forall j :: b + 2 <= j < q ==> text[j] != '"' && text[j] != '\\'
    ensures ReadTo(text, b, i) == Reader(Literal, 1)
  {
    if i == b + 2 {
      assert ReadTo(text, b, b) == Reader(Code, 0);
      assert ReadTo(text, b, b + 1) == Reader(Code, 1);
    } else {
      InLiteral(text, b, q, i - 1);
    }
  }

  /** A brace, a literal and a brace. */
  lemma LiteralBlock(text: string, b: nat, q: nat)
    requires b + 2 <= q && q + 1 < |text| && text[b] == '{' && text[b + 1] == '"'
    requires forall j :: b + 2 <= j < q ==> text[j] != '"' && text[j] != '\\'
    requires text[q] == '"' && text[q + 1] == '}'
    ensures IsEnd(text, b, q + 2)
  {
    InLiteral(text, b, q, q);
    assert ReadTo(text, b, q + 1) == Reader(Code, 1);
    assert ClosesAt(text, b, q + 1);
    forall i | b + 2 <= i < q ensures !ClosesAt(text, b, i) {
      InLiteral(text, b, q, i);
    }
  }

  lemma QuotedCut(text: string)
    requires |text| == 27 && text[14] == '{' && text[15] == '"' && text[25] == '"' && text[26] == '}'
    requires forall i :: 0 <= i < 14 ==> text[i] != '{'
    requires forall i :: 16 <= i < 25 ==> text[i] != '"' && text[i] != '\\'
    requires text[16] == ';' && forall i :: 0 <= i < 16 ==> text[i] != ';'
    ensures IsCut(text, Span(0, 27)) && BlockComesFirst(text, 0) && !AtHead(text, Span(0, 17))
  {
    FirstOf(text, '{', 0, 14);
    FirstOf(text, ';', 0, 16);
    LiteralBlock(text, 14, 25);
  }

  /** A marked item with a brace in a literal ends inside what is taken for its block; what follows goes with it. */
  lemma QuotedBraceTakesTheNext(spans: seq<Span>, r: Option<string>)
    requires Leaves(QUOTED, spans, r)
    ensures r == Some("") && spans == [Span(0, 27)] && QUOTED[17..25] == "fn f(){}"
    ensures FromMarkers(QUOTED, [Span(0, 17)]) && !AtHead(QUOTED, Span(0, 17))
    ensures !SameCharacters(spans, [Span(0, 17)]) && BlockComesFirst(QUOTED, 0)
  {
    QuotedPlaces(QUOTED);
    QuotedCut(QUOTED);
    OneItem(QUOTED, 17);
    EndsApart(17, 27);
    OneCut(QUOTED, Span(0, 27), spans, r);
  }

  const ESCAPED := "#[cfg(test)]mod t{\"\\\"\"}fn f(){}"

  lemma EscapedPlaces(text: string)
    requires text == ESCAPED
    ensures |text| == 31 && text[17] == '{' && text[18] == '"' && text[19] == '\\'
    ensures text[20] == '"' && text[21] == '"' && text[22] == '}'
    ensures forall i :: 0 <= i < 17 ==> text[i] != '{'
    ensures text[0..12] == MARKER && text[..0] + text[23..] == "fn f(){}"
  {
  }

  lemma EscapedCut(text: string)
    requires |text| == 31 && text[17] == '{' && text[18] == '"' && text[19] == '\\'
    requires text[20] == '"' && text[21] == '"' && text[22] == '}'
    requires forall i :: 0 <= i < 17 ==> text[i] != '{'
    ensures IsCut(text, Span(0, 23))
  {
    FirstOf(text, '{', 0, 17);
    assert ReadTo(text, 17, 17) == Reader(Code, 0);
    assert ReadTo(text, 17, 18) == Reader(Code, 1);
    assert Backslashes(text, 18, 20) == 1 && Backslashes(text, 18, 21) == 0;
    LiteralSkipped(text, 17, 18, 21);
    assert ClosesAt(text, 17, 22);
  }

  /** A quote taken away by a backslash does not end a literal: the block ends where it should, and the rest stays. */
  lemma EscapedQuoteSkipped(spans: seq<Span>, r: Option<string>)
    requires Leaves(ESCAPED, spans, r)
    ensures r == Some("fn f(){}") && spans == [Span(0, 23)]
  {
    EscapedPlaces(ESCAPED);
    EscapedCut(ESCAPED);
    OneCut(ESCAPED, Span(0, 23), spans, r);
  }

  // ------------------------------------------------- two pieces, two items

  const RESPELLED := "#[cfg(#[cfg(test)]{}test)]"

  lemma RespelledMarker(text: string)
    requires text == RESPELLED
    ensures NextMarker(text, 0, 6)
  {
    assert text[6..18] == MARKER;
    forall i | 0 <= i < 6 ensures !OccursAt(text, MARKER, i) {
      assert text[i..i + 12][0] == text[i] && text[i..i + 12][6] == text[i + 6];
    }
  }

  lemma RespelledBlock(text: string)
    requires text == RESPELLED
    ensures IsCut(text, Span(6, 20))
  {
    FirstOf(text, '{', 6, 18);
    EmptyBlock(text, 18);
  }

  /** Two kept pieces that spell the marker together. */
  lemma MarkerRespelled(spans: seq<Span>, r: Option<string>)
    requires Leaves(RESPELLED, spans, r)
    ensures r == Some(MARKER)
    ensures ASeamSpells(RESPELLED, spans)
  {
    RespelledMarker(RESPELLED);
    RespelledBlock(RESPELLED);
    OneCut(RESPELLED, Span(6, 20), spans, r);
    assert RESPELLED[..6] + RESPELLED[20..] == MARKER;
    MarkerOnlyAtSeams(RESPELLED, spans, MARKER);
    assert OccursAt(MARKER, MARKER, 0);
  }

  const ADJOINING := "#[cfg(test)];#[cfg(test)];"

  lemma AdjoiningPlaces(text: string)
    requires text == ADJOINING
    ensures |text| == 26 && text[12] == ';' && text[25] == ';'
    ensures forall i :: 0 <= i < 26 ==> text[i] != '{' && (text[i] == ';' ==> i == 12 || i == 25)
    ensures text[0..12] == MARKER && text[13..25] == MARKER
  {
  }

  lemma AdjoiningItems(text: string)
    requires |text| == 26 && text[12] == ';' && text[25] == ';'
    requires forall i :: 0 <= i < 26 ==> text[i] != '{' && (text[i] == ';' ==> i == 12 || i == 25)
    ensures IsItem(text, Span(0, 13)) && IsItem(text, Span(13, 26))
    ensures IsCut(text, Span(0, 26)) && !BlockComesFirst(text, 0)
  {
    FirstOf(text, ';', 0, 12);
    FirstOf(text, ';', 13, 25);
    NoneOf(text, '{', 0);
    NoneOf(text, '{', 13);
  }

  lemma AdjoiningListed(text: string, items: seq<Span>)
    requires |text| == 26 && text[0..12] == MARKER && text[13..25] == MARKER && items == [Span(0, 13), Span(13, 26)]
    requires IsItem(text, items[0]) && IsItem(text, items[1])
    ensures AllItems(text, items) && TiledBy(items, Span(0, 26))
  {
    assert OccursAt(text, MARKER, 0) && OccursAt(text, MARKER, 13);
    assert ItemAt(text, items, 0) && ItemAt(text, items, 1);
    NoMarkerAtEnd(text);
    assert Tiles(items, 0, 2, 0, 26);
  }

  lemma AdjoiningAlike(text: string, spans: seq<Span>, rest: string, items: seq<Span>)
    requires Leaves(text, spans, Some(rest)) && AllItems(text, items)
    requires spans == [Span(0, 26)] && TiledBy(items, Span(0, 26))
    ensures SameCharacters(spans, items)
  {
    OnlyReadItemsCut(text, spans, rest, items);
  }

  /** One cut over two adjoining marked items: it runs past its own item and takes nothing unmarked. */
  lemma AdjoiningItemsCutTogether(spans: seq<Span>, r: Option<string>)
    requires Leaves(ADJOINING, spans, r)
    ensures r == Some("") && spans == [Span(0, 26)]
    ensures !BlockComesFirst(ADJOINING, spans[0].f)
    ensures AllItems(ADJOINING, [Span(0, 13), Span(13, 26)]) && TiledBy([Span(0, 13), Span(13, 26)], spans[0])
    ensures SameCharacters(spans, [Span(0, 13), Span(13, 26)])
  {
    var items := [Span(0, 13), Span(13, 26)];
    AdjoiningPlaces(ADJOINING);
    AdjoiningItems(ADJOINING);
    AdjoiningListed(ADJOINING, items);
    OneCut(ADJOINING, Span(0, 26), spans, r);
    AdjoiningAlike(ADJOINING, spans, "", items);
  }
}
