/**
 Cutting test blocks out of a source file: the string-aware block matcher of
 the wire-coverage gate.
 */
module WireCoverage {
  import opened Text
  import opened Options

  // ------------------------------------------------------------ what is counted

  /** Where a reader stands: in code, in a string literal, or just past a backslash in one. */
  datatype Mode = Code | Literal | Escaped

  datatype Reader = Reader(mode: Mode, depth: int)

  function Read(r: Reader, c: char): Reader {
    match r.mode
    case Code =>
      if c == '"' then r.(mode := Literal)
      else if c == '{' then r.(depth := r.depth + 1)
      else if c == '}' then r.(depth := r.depth - 1)
      else r
    case Literal =>
      if c == '"' then r.(mode := Code) else if c == '\\' then r.(mode := Escaped) else r
    case Escaped => r.(mode := Literal)
  }

  /** The reader at `i`, having started in code at `s`. */
  function ReadTo(text: string, s: nat, i: nat): Reader
    requires i <= |text|
  {
    if i <= s then Reader(Code, 0) else Read(ReadTo(text, s, i - 1), text[i - 1])
  }

  /** A closing brace of code at `i` brings the depth counted from `s` to zero. */
  predicate ClosesAt(text: string, s: nat, i: nat) {
    && s <= i < |text|
    && text[i] == '}'
    && ReadTo(text, s, i).mode == Code
    && ReadTo(text, s, i + 1).depth == 0
  }

  /** `e` is just past the first brace that closes what was opened at `s`. */
  ghost predicate IsEnd(text: string, s: nat, e: nat) {
    && 0 < e
    && ClosesAt(text, s, e - 1)
    && forall i :: s <= i < e - 1 ==> !ClosesAt(text, s, i)
  }

  ghost predicate NeverCloses(text: string, s: nat) {
    forall i :: s <= i ==> !ClosesAt(text, s, i)
  }

  // ------------------------------------------------------------------- literals

  /** How many backslashes stand right before `i`, counted back to the quote at `q`. */
  function Backslashes(text: string, q: nat, i: nat): nat
    requires q < i <= |text|
  {
    if i > q + 1 && text[i - 1] == '\\' then 1 + Backslashes(text, q, i - 1) else 0
  }

  /** A quote that no backslash takes away: an even number of them stands before it. */
  predicate BareQuote(text: string, q: nat, c: nat) {
    q < c < |text| && text[c] == '"' && Backslashes(text, q, c) % 2 == 0
  }

  /** The literal that the quote at `q` opens ends with the quote at `c`: the first bare one. */
  ghost predicate ClosesLiteral(text: string, q: nat, c: nat) {
    BareQuote(text, q, c) && forall i :: q < i < c ==> !BareQuote(text, q, i)
  }

  ghost predicate OpensLiteral(text: string, s: nat, q: nat) {
    s <= q < |text| && text[q] == '"' && ReadTo(text, s, q).mode == Code
  }

  /** Up to its closing quote the reader is in the literal, and past a backslash exactly after an odd number of them. */
  lemma {:induction false} InsideLiteral(text: string, s: nat, q: nat, i: nat)
    requires OpensLiteral(text, s, q) && q < i <= |text| && forall j :: q < j < i ==> !BareQuote(text, q, j)
    ensures ReadTo(text, s, i).depth == ReadTo(text, s, q).depth
    ensures ReadTo(text, s, i).mode == if Backslashes(text, q, i) % 2 == 1 then Escaped else Literal
  {
    if i > q + 1 {
      InsideLiteral(text, s, q, i - 1);
      assert !BareQuote(text, q, i - 1);
    }
  }

  /**
   A literal is skipped whole: from the quote that opens it to the first quote
   with an even number of backslashes before it the reader is not in code and
   counts no brace, and right after it is in code again, as deep as before.
   */
  lemma LiteralSkipped(text: string, s: nat, q: nat, c: nat)
    requires OpensLiteral(text, s, q) && ClosesLiteral(text, q, c)
    ensures forall i :: q < i <= c ==>
              ReadTo(text, s, i).mode != Code && ReadTo(text, s, i).depth == ReadTo(text, s, q).depth
    ensures ReadTo(text, s, c + 1) == ReadTo(text, s, q)
  {
    forall i | q < i <= c
      ensures ReadTo(text, s, i).mode != Code && ReadTo(text, s, i).depth == ReadTo(text, s, q).depth
    {
      InsideLiteral(text, s, q, i);
    }
    InsideLiteral(text, s, q, c);
  }

  /** A literal without such a quote swallows the rest of the text. */
  lemma LiteralUnclosed(text: string, s: nat, q: nat, i: nat)
    requires OpensLiteral(text, s, q) && q < i <= |text| && forall c :: q < c < |text| ==> !BareQuote(text, q, c)
    ensures ReadTo(text, s, i).mode != Code && ReadTo(text, s, i).depth == ReadTo(text, s, q).depth
  {
    InsideLiteral(text, s, q, i);
  }

  /** Outside literals each brace counts, an opening one up and a closing one down, and nothing else does. */
  lemma CodeCounts(text: string, s: nat, i: nat)
    requires s <= i < |text| && ReadTo(text, s, i).mode == Code && text[i] != '"'
    ensures ReadTo(text, s, i + 1).mode == Code
    ensures ReadTo(text, s, i + 1).depth - ReadTo(text, s, i).depth
         == (if text[i] == '{' then 1 else 0) - (if text[i] == '}' then 1 else 0)
  {
  }

  /** Where the reader first comes back to code, the literal's closing quote stands. */
  lemma {:induction false} NoBareQuote(text: string, s: nat, q: nat, i: nat)
    requires OpensLiteral(text, s, q) && q < i <= |text|
    requires forall j :: q < j <= i ==> ReadTo(text, s, j).mode != Code
    ensures forall j :: q < j < i ==> !BareQuote(text, q, j)
  {
    if i > q + 1 {
      NoBareQuote(text, s, q, i - 1);
      InsideLiteral(text, s, q, i - 1);
      assert ReadTo(text, s, i) == Read(ReadTo(text, s, i - 1), text[i - 1]);
    }
  }

  /** Past the closing quote of the literal whose inside starts at `from`; past the end if it has none. */
  method SkipLiteral(text: string, ghost s: nat, from: nat) returns (i: nat)
    requires s < from <= |text|
    requires ReadTo(text, s, from).mode == Literal
    ensures i >= from
    ensures i < |text| ==> text[i] == '"' && ReadTo(text, s, i + 1) == Reader(Code, ReadTo(text, s, from).depth)
    ensures forall j :: from <= j <= |text| && j <= i ==> ReadTo(text, s, j).mode != Code
    ensures OpensLiteral(text, s, from - 1) ==> LiteralEnds(text, from - 1, i)
  {
    i := from;
    while i < |text| && text[i] != '"'
      invariant from <= i
      invariant i <= |text| ==> ReadTo(text, s, i) == Reader(Literal, ReadTo(text, s, from).depth)
      invariant forall j :: from <= j <= |text| && j <= i ==> ReadTo(text, s, j).mode != Code
    {
      i := i + if text[i] == '\\' then 2 else 1;
    }
    if OpensLiteral(text, s, from - 1) {
      SkippedTo(text, s, from - 1, i);
    }
  }

  /** `i` is the closing quote of the literal opened at `q`, or lies past the end where it has none. */
  ghost predicate LiteralEnds(text: string, q: nat, i: nat) {
    if i < |text| then ClosesLiteral(text, q, i) else forall c :: q < c < |text| ==> !BareQuote(text, q, c)
  }

  lemma SkippedTo(text: string, s: nat, q: nat, i: nat)
    requires OpensLiteral(text, s, q) && q < i
    requires forall j :: q < j <= |text| && j <= i ==> ReadTo(text, s, j).mode != Code
    requires i < |text| ==> text[i] == '"' && ReadTo(text, s, i).mode == Literal
    ensures LiteralEnds(text, q, i)
  {
    if i < |text| {
      NoBareQuote(text, s, q, i);
      InsideLiteral(text, s, q, i);
    } else {
      NoBareQuote(text, s, q, |text|);
    }
  }

  /** `end_of_block`; no answer where the gate gives up because the block never closes. */
  method EndOfBlock(text: string, open: nat) returns (r: Option<nat>)
    ensures r.Some? ==> IsEnd(text, open, r.value)
    ensures r.None? ==> NeverCloses(text, open)
  {
    var depth, i := 0, open;
    while i < |text|
      invariant open <= i
      invariant i <= |text| ==> ReadTo(text, open, i) == Reader(Code, depth)
      invariant forall j :: open <= j < i ==> !ClosesAt(text, open, j)
      decreases |text| - i
    {
      var c := text[i];
      if c == '"' {
        i := SkipLiteral(text, open, i + 1);
      } else if c == '{' {
        depth := depth + 1;
      } else if c == '}' {
        depth := depth - 1;
        if depth == 0 {
          return Some(i + 1);
        }
      }
      i := i + 1;
    }
    return None;
  }

  /** Inside a block the depth never touches zero: the end is where it first returns there. */
  lemma {:induction false} DeepInside(text: string, s: nat, i: nat)
    requires s < i <= |text| && text[s] == '{'
    requires forall j :: s <= j < i ==> !ClosesAt(text, s, j)
    ensures ReadTo(text, s, i).depth >= 1
  {
    if i == s + 1 {
      assert ReadTo(text, s, s) == Reader(Code, 0);
    } else {
      DeepInside(text, s, i - 1);
      assert !ClosesAt(text, s, i - 1);
    }
  }

  // ------------------------------------------------------------------- cutting

  const MARKER := "#[cfg(test)]"

  /** From `f` up to `e`. */
  datatype Span = Span(f: nat, e: nat)

  /** Where the reading resumes after the first `k` cuts. */
  function Resume(spans: seq<Span>, k: nat): nat
    requires k <= |spans|
  {
    if k == 0 then 0 else spans[k - 1].e
  }

  /** `f` is the first marker at or after `at`. */
  ghost predicate NextMarker(text: string, at: nat, f: nat) {
    OccursAt(text, MARKER, f) && at <= f && forall i :: at <= i < f ==> !OccursAt(text, MARKER, i)
  }

  /** What is cut at a marker: its block, or everything after it if no brace follows. */
  ghost predicate IsCut(text: string, sp: Span) {
    var brace := Find(text, "{", sp.f);
    if brace < 0 then sp.e == |text| else IsEnd(text, brace, sp.e)
  }

  ghost predicate Cuts(text: string, spans: seq<Span>) {
    forall k {:trigger CutAt(text, spans, k)} :: 0 <= k < |spans| ==> CutAt(text, spans, k)
  }

  /** Cut `k` starts at the first marker after the cut before it. */
  ghost predicate CutAt(text: string, spans: seq<Span>, k: nat)
    requires k < |spans|
  {
    NextMarker(text, Resume(spans, k), spans[k].f) && IsCut(text, spans[k])
  }

  /** Cuts run forward inside the text and contain their marker. */
  lemma {:induction false} CutsAdvance(text: string, spans: seq<Span>, k: nat)
    requires Cuts(text, spans) && k <= |spans|
    ensures Resume(spans, k) <= |text|
    ensures k < |spans| ==> Resume(spans, k) <= spans[k].f < spans[k].e <= |text|
  {
    if k > 0 {
      CutsAdvance(text, spans, k - 1);
    }
    if k < |spans| {
      assert CutAt(text, spans, k);
    }
  }

  function Between(text: string, a: nat, b: nat): string {
    if a <= b <= |text| then text[a..b] else ""
  }

  /** What is kept before cut `k`; after the last cut, all that follows it. */
  function Piece(text: string, spans: seq<Span>, k: nat): string
    requires k <= |spans|
  {
    Between(text, Resume(spans, k), if k < |spans| then spans[k].f else |text|)
  }

  /** The kept text before the first `k` cuts, put together. */
  function KeptTo(text: string, spans: seq<Span>, k: nat): string
    requires k <= |spans|
  {
    if k == 0 then "" else KeptTo(text, spans, k - 1) + Piece(text, spans, k - 1)
  }

  /** Everything kept. */
  function Kept(text: string, spans: seq<Span>): string {
    KeptTo(text, spans, |spans|) + Piece(text, spans, |spans|)
  }

  /** Kept and cut text in turn, up to cut `k`. */
  function WovenTo(text: string, spans: seq<Span>, k: nat): string
    requires k <= |spans|
  {
    if k == 0 then ""
    else WovenTo(text, spans, k - 1) + Piece(text, spans, k - 1) + Between(text, spans[k - 1].f, spans[k - 1].e)
  }

  lemma {:induction false} WovenToCut(text: string, spans: seq<Span>, k: nat)
    requires Cuts(text, spans) && k <= |spans|
    ensures Resume(spans, k) <= |text| && WovenTo(text, spans, k) == text[..Resume(spans, k)]
  {
    CutsAdvance(text, spans, k);
    if k > 0 {
      CutsAdvance(text, spans, k - 1);
      WovenToCut(text, spans, k - 1);
      Glue(text, Resume(spans, k - 1), spans[k - 1].f, spans[k - 1].e);
    }
  }

  lemma Glue(text: string, a: nat, b: nat, c: nat)
    requires a <= b <= c <= |text|
    ensures text[..a] + text[a..b] + text[b..c] == text[..c]
  {
  }

  /** Nothing is lost: kept pieces and cuts in turn, and what follows the last cut, are the text. */
  lemma WovenIsText(text: string, spans: seq<Span>)
    requires Cuts(text, spans)
    ensures WovenTo(text, spans, |spans|) + Piece(text, spans, |spans|) == text
  {
    WovenToCut(text, spans, |spans|);
  }

  /** No kept piece spells the marker, the one after the last cut included. */
  lemma PieceHasNoMarker(text: string, spans: seq<Span>, rest: string, k: nat, i: nat)
    requires Leaves(text, spans, Some(rest)) && k <= |spans|
    ensures !OccursAt(Piece(text, spans, k), MARKER, i)
  {
    CutsAdvance(text, spans, k);
    var at, f := Resume(spans, k), if k < |spans| then spans[k].f else |text|;
    if k < |spans| {
      assert CutAt(text, spans, k);
    } else {
      FindIsLeast(text, MARKER, at);
    }
    if at + i < f {
      NotInPiece(text, MARKER, at, f, i);
    }
  }

  lemma CutsGrow(text: string, spans: seq<Span>, sp: Span)
    requires Cuts(text, spans) && NextMarker(text, Resume(spans, |spans|), sp.f) && IsCut(text, sp)
    ensures Cuts(text, spans + [sp])
  {
    var more := spans + [sp];
    forall k | 0 <= k < |more| ensures CutAt(text, more, k) {
      if k < |spans| {
        assert CutAt(text, spans, k);
      }
    }
  }

  lemma {:induction false} KeptOfPrefix(text: string, spans: seq<Span>, sp: Span, k: nat)
    requires k <= |spans|
    ensures KeptTo(text, spans + [sp], k) == KeptTo(text, spans, k)
  {
    if k > 0 {
      KeptOfPrefix(text, spans, sp, k - 1);
      PieceOfPrefix(text, spans, sp, k - 1);
    }
  }

  lemma PieceOfPrefix(text: string, spans: seq<Span>, sp: Span, k: nat)
    requires k < |spans|
    ensures Piece(text, spans + [sp], k) == Piece(text, spans, k)
  {
    var more := spans + [sp];
    assert more[k] == spans[k] && Resume(more, k) == Resume(spans, k);
  }

  /** With no marker left, what follows the last cut is kept. */
  lemma Finished(text: string, spans: seq<Span>, out: string)
    requires Cuts(text, spans) && Resume(spans, |spans|) <= |text|
    requires out == KeptTo(text, spans, |spans|) && Find(text, MARKER, Resume(spans, |spans|)) == -1
    ensures Leaves(text, spans, Some(out + text[Resume(spans, |spans|)..]))
  {
  }

  lemma MarkerFound(text: string, at: nat)
    requires Find(text, MARKER, at) >= 0
    ensures NextMarker(text, at, Find(text, MARKER, at))
  {
    FindIsLeast(text, MARKER, at);
  }

  /**
   These cuts are all there are to make and `r` is what they leave; or the
   next one cannot be made, because its block never closes.
   */
  ghost predicate Leaves(text: string, spans: seq<Span>, r: Option<string>) {
    && Cuts(text, spans)
    && Resume(spans, |spans|) <= |text|
    && match r
       case Some(rest) => Find(text, MARKER, Resume(spans, |spans|)) == -1 && rest == Kept(text, spans)
       case None => Stuck(text, Resume(spans, |spans|))
  }

  /** The first block after the next marker never closes. */
  ghost predicate Stuck(text: string, at: nat) {
    var f := Find(text, MARKER, at);
    f >= 0 && Find(text, "{", f) >= 0 && NeverCloses(text, Find(text, "{", f))
  }

  lemma NoMarkerAtEnd(text: string)
    ensures Find(text, MARKER, |text|) == -1
  {
  }

  /**
   `without_tests`: what is left when every marked block is cut, or nothing
   where a marked block never closes.
   */
  method WithoutTests(text: string) returns (r: Option<string>)
    ensures exists spans :: Leaves(text, spans, r)
  {
    ghost var spans;
    r, spans := CutTests(text);
  }

  method CutTests(text: string) returns (r: Option<string>, ghost spans: seq<Span>)
    ensures Leaves(text, spans, r)
  {
    var out, at := "", 0;
    spans := [];
    while true
      invariant Cuts(text, spans) && at == Resume(spans, |spans|) <= |text|
      invariant out == KeptTo(text, spans, |spans|)
      decreases |text| - at
    {
      var found := Find(text, MARKER, at);
      if found < 0 {
        Finished(text, spans, out);
        out := out + text[at..];
        return Some(out), spans;
      }
      MarkerFound(text, at);
      out := out + text[at..found];
      var brace := Find(text, "{", found);
      if brace < 0 {
        CutToEnd(text, spans, out, found);
        return Some(out), spans + [Span(found, |text|)];
      }
      var end := EndOfBlock(text, brace);
      if end.None? {
        return None, spans;
      }
      Extend(text, spans, Span(found, end.value));
      spans := spans + [Span(found, end.value)];
      at := end.value;
    }
  }

  /** With no brace left, everything from the marker on is cut. */
  lemma CutToEnd(text: string, spans: seq<Span>, out: string, found: nat)
    requires Cuts(text, spans) && NextMarker(text, Resume(spans, |spans|), found) && Find(text, "{", found) < 0
    requires Resume(spans, |spans|) <= found <= |text|
    requires out == KeptTo(text, spans, |spans|) + text[Resume(spans, |spans|)..found]
    ensures Leaves(text, spans + [Span(found, |text|)], Some(out))
  {
    var sp := Span(found, |text|);
    Extend(text, spans, sp);
    NoMarkerAtEnd(text);
    assert Resume(spans + [sp], |spans + [sp]|) == |text|;
    Finished(text, spans + [sp], out);
    assert out + text[|text|..] == out;
  }

  lemma Extend(text: string, spans: seq<Span>, sp: Span)
    requires Cuts(text, spans) && NextMarker(text, Resume(spans, |spans|), sp.f) && IsCut(text, sp)
    ensures Cuts(text, spans + [sp])
    ensures Resume(spans, |spans|) <= sp.f < sp.e <= |text|
    ensures KeptTo(text, spans + [sp], |spans| + 1)
         == KeptTo(text, spans, |spans|) + text[Resume(spans, |spans|)..sp.f]
  {
    CutsGrow(text, spans, sp);
    CutsAdvance(text, spans + [sp], |spans|);
    KeptNext(text, spans, sp);
  }

  lemma KeptNext(text: string, spans: seq<Span>, sp: Span)
    requires Resume(spans, |spans|) <= sp.f <= |text|
    ensures KeptTo(text, spans + [sp], |spans| + 1)
         == KeptTo(text, spans, |spans|) + text[Resume(spans, |spans|)..sp.f]
  {
    var n, more := |spans|, spans + [sp];
    KeptOfPrefix(text, spans, sp, n);
    assert more[n] == sp && Resume(more, n) == Resume(spans, n);
  }

  lemma EndUnique(text: string, s: nat, e: nat, e': nat)
    requires IsEnd(text, s, e) && IsEnd(text, s, e')
    ensures e == e'
  {
    assert ClosesAt(text, s, e - 1) && ClosesAt(text, s, e' - 1);
  }

  /** The cuts of a text are decided, one after the other. */
  lemma {:induction false} CutsAgree(text: string, a: seq<Span>, b: seq<Span>, k: nat)
    requires Cuts(text, a) && Cuts(text, b) && k < |a| && k < |b|
    ensures a[k] == b[k]
  {
    if k > 0 {
      CutsAgree(text, a, b, k - 1);
    }
    assert CutAt(text, a, k) && CutAt(text, b, k);
    var brace := Find(text, "{", a[k].f);
    if brace >= 0 {
      EndUnique(text, brace, a[k].e, b[k].e);
    }
  }

  /** A run that is over has no cut left to make. */
  lemma NoFurtherCut(text: string, a: seq<Span>, r: Option<string>, b: seq<Span>)
    requires Leaves(text, a, r) && Cuts(text, b)
    requires forall k :: 0 <= k < |a| && k < |b| ==> a[k] == b[k]
    ensures |b| <= |a|
  {
    if |a| < |b| {
      CutIsFound(text, b, |a|);
    }
  }

  /** A cut is at the marker a search finds, and its block closes. */
  lemma CutIsFound(text: string, b: seq<Span>, k: nat)
    requires Cuts(text, b) && k < |b|
    ensures Find(text, MARKER, Resume(b, k)) == b[k].f
    ensures var brace := Find(text, "{", b[k].f); brace >= 0 ==> !NeverCloses(text, brace)
  {
    assert CutAt(text, b, k);
    FindIsLeast(text, MARKER, Resume(b, k));
    var brace := Find(text, "{", b[k].f);
    assert brace >= 0 ==> ClosesAt(text, brace, b[k].e - 1);
  }

  /** There is one outcome: the description of the cuts decides what is left. */
  lemma OutcomeDecided(text: string, a: seq<Span>, ra: Option<string>, b: seq<Span>, rb: Option<string>)
    requires Leaves(text, a, ra) && Leaves(text, b, rb)
    ensures a == b && ra == rb
  {
    forall k | 0 <= k < |a| && k < |b| ensures a[k] == b[k] {
      CutsAgree(text, a, b, k);
    }
    NoFurtherCut(text, a, ra, b);
    NoFurtherCut(text, b, rb, a);
    assert a == b;
  }
}
