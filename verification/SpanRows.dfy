/**
 Spans of a text in a row: which characters they hold, and what is left
 without them.
 */
module SpanRows {
  import opened WireCoverage

  ghost predicate RowAt(text: string, spans: seq<Span>, k: nat)
    requires k < |spans|
  {
    Resume(spans, k) <= spans[k].f < spans[k].e <= |text|
  }

  /** Spans run forward inside the text. */
  ghost predicate InRow(text: string, spans: seq<Span>) {
    forall k {:trigger RowAt(text, spans, k)} :: 0 <= k < |spans| ==> RowAt(text, spans, k)
  }

  predicate Holds(sp: Span, p: nat) {
    sp.f <= p < sp.e
  }

  /** One of the spans holds the character at `p`. */
  ghost predicate Covered(spans: seq<Span>, p: nat) {
    exists j :: 0 <= j < |spans| && Holds(spans[j], p)
  }

  /** Both hold the same characters. */
  ghost predicate SameCharacters(a: seq<Span>, b: seq<Span>) {
    forall p: nat :: Covered(a, p) <==> Covered(b, p)
  }

  // ------------------------------------------------------------------- order

  lemma {:induction false} RowOrder(text: string, spans: seq<Span>, j: nat, k: nat)
    requires InRow(text, spans) && j < k <= |spans|
    ensures spans[j].e <= Resume(spans, k)
    decreases k - j
  {
    if j + 1 < k {
      assert RowAt(text, spans, k - 1);
      RowOrder(text, spans, j, k - 1);
    }
  }

  lemma SpansInOrder(text: string, spans: seq<Span>, j: nat, k: nat)
    requires InRow(text, spans) && j < k < |spans|
    ensures spans[j].f < spans[j].e <= spans[k].f < spans[k].e
  {
    RowOrder(text, spans, j, k);
    assert RowAt(text, spans, j) && RowAt(text, spans, k);
  }

  /** A character is in one span at most. */
  lemma OneHolder(text: string, spans: seq<Span>, j: nat, k: nat, p: nat)
    requires InRow(text, spans) && j < |spans| && k < |spans| && Holds(spans[j], p) && Holds(spans[k], p)
    ensures j == k
  {
    if j < k {
      SpansInOrder(text, spans, j, k);
    } else if k < j {
      SpansInOrder(text, spans, k, j);
    }
  }

  /** Between one span and the next nothing is held. */
  lemma GapUncovered(text: string, spans: seq<Span>, k: nat, p: nat)
    requires InRow(text, spans) && k <= |spans|
    requires Resume(spans, k) <= p && (k < |spans| ==> p < spans[k].f)
    ensures !Covered(spans, p)
  {
    forall j | 0 <= j < |spans| ensures !Holds(spans[j], p) {
      if j < k {
        RowOrder(text, spans, j, k);
      } else if k < j {
        SpansInOrder(text, spans, k, j);
      }
    }
  }

  /** Where the first of some held characters stands, a span starts. */
  lemma StartOf(spans: seq<Span>, p: nat) returns (k: nat)
    requires Covered(spans, p) && (p > 0 ==> !Covered(spans, p - 1))
    ensures k < |spans| && spans[k].f == p
  {
    k :| 0 <= k < |spans| && Holds(spans[k], p);
    assert spans[k].f < p ==> Holds(spans[k], p - 1);
  }

  /** After the last of them, a span ends. */
  lemma EndOf(spans: seq<Span>, p: nat) returns (k: nat)
    requires p > 0 && Covered(spans, p - 1) && !Covered(spans, p)
    ensures k < |spans| && spans[k].e == p
  {
    k :| 0 <= k < |spans| && Holds(spans[k], p - 1);
    assert !Holds(spans[k], p);
  }

  /** Where the character a span stops before is held too, the next span starts there. */
  lemma NextIsCovered(text: string, spans: seq<Span>, j: nat)
    requires InRow(text, spans) && j < |spans| && Covered(spans, spans[j].e)
    ensures j + 1 < |spans| && spans[j + 1].f == spans[j].e
  {
    if j + 1 == |spans| || spans[j].e < spans[j + 1].f {
      GapUncovered(text, spans, j + 1, spans[j].e);
    }
    assert RowAt(text, spans, j + 1);
  }

  // --------------------------------------------------------------- adjoining

  /** The spans from `m` up to `n` adjoin one another and run from `f` to `e`. */
  ghost predicate Tiles(spans: seq<Span>, m: nat, n: nat, f: nat, e: nat) {
    && m < n <= |spans|
    && spans[m].f == f && spans[n - 1].e == e
    && forall j, k :: m <= j < k < n && k == j + 1 ==> spans[k].f == spans[j].e
  }

  /** `sp` is one of the spans, or several that adjoin one another. */
  ghost predicate TiledBy(spans: seq<Span>, sp: Span) {
    exists m, n :: Tiles(spans, m, n, sp.f, sp.e)
  }

  lemma TilesLonger(spans: seq<Span>, m: nat, n: nat, e: nat)
    requires m + 1 < |spans| && spans[m + 1].f == spans[m].e && Tiles(spans, m + 1, n, spans[m].e, e)
    ensures Tiles(spans, m, n, spans[m].f, e)
  {
  }

  /** Adjoining spans hold every character from their start to their end. */
  lemma {:induction false} TileHolds(spans: seq<Span>, m: nat, n: nat, f: nat, e: nat, p: nat) returns (j: nat)
    requires Tiles(spans, m, n, f, e) && f <= p < e
    ensures m <= j < n && Holds(spans[j], p)
    decreases n
  {
    if spans[n - 1].f <= p {
      j := n - 1;
    } else {
      assert spans[n - 1].f == spans[n - 2].e;
      j := TileHolds(spans, m, n - 1, f, spans[n - 2].e, p);
    }
  }

  /** Each of them lies between that start and that end. */
  lemma TileInside(text: string, spans: seq<Span>, m: nat, n: nat, f: nat, e: nat, j: nat)
    requires InRow(text, spans) && Tiles(spans, m, n, f, e) && m <= j < n
    ensures f <= spans[j].f < spans[j].e <= e
  {
    assert RowAt(text, spans, j);
    if m < j {
      SpansInOrder(text, spans, m, j);
    }
    if j < n - 1 {
      SpansInOrder(text, spans, j, n - 1);
    }
  }

  /** From `m` up to `n` the spans adjoin, and neither the one before nor the one after does. */
  ghost predicate Run(spans: seq<Span>, m: nat, n: nat) {
    && m < n <= |spans|
    && Tiles(spans, m, n, spans[m].f, spans[n - 1].e)
    && (m > 0 ==> spans[m - 1].e < spans[m].f)
    && (n < |spans| ==> spans[n - 1].e < spans[n].f)
  }

  /** Every span is in such a run. */
  lemma RunAround(text: string, spans: seq<Span>, j: nat) returns (m: nat, n: nat)
    requires InRow(text, spans) && j < |spans|
    ensures m <= j < n && Run(spans, m, n)
  {
    m, n := j, j + 1;
    while m > 0 && spans[m - 1].e == spans[m].f
      invariant m <= j && Tiles(spans, m, n, spans[m].f, spans[n - 1].e)
    {
      m := m - 1;
    }
    while n < |spans| && spans[n].f == spans[n - 1].e
      invariant j < n <= |spans| && Tiles(spans, m, n, spans[m].f, spans[n - 1].e)
    {
      n := n + 1;
    }
    assert RowAt(text, spans, m);
    assert n < |spans| ==> RowAt(text, spans, n);
  }

  /** Nothing of the row stands right before a run. */
  lemma BeforeRun(text: string, spans: seq<Span>, m: nat, n: nat)
    requires InRow(text, spans) && Run(spans, m, n) && spans[m].f > 0
    ensures !Covered(spans, spans[m].f - 1)
  {
    GapUncovered(text, spans, m, spans[m].f - 1);
  }

  /** Nor right after it. */
  lemma AfterRun(text: string, spans: seq<Span>, m: nat, n: nat)
    requires InRow(text, spans) && Run(spans, m, n)
    ensures !Covered(spans, spans[n - 1].e)
  {
    GapUncovered(text, spans, n, spans[n - 1].e);
  }

  // ------------------------------------------------------------- what is kept

  /** The characters of `text[..n]` that no span holds. */
  ghost function Uncovered(text: string, spans: seq<Span>, n: nat): string
    requires n <= |text|
  {
    if n == 0 then "" else Uncovered(text, spans, n - 1) + if Covered(spans, n - 1) then "" else [text[n - 1]]
  }

  lemma {:induction false} RunUncovered(text: string, spans: seq<Span>, a: nat, b: nat)
    requires a <= b <= |text| && forall p :: a <= p < b ==> !Covered(spans, p)
    ensures Uncovered(text, spans, b) == Uncovered(text, spans, a) + text[a..b]
  {
    if a < b {
      RunUncovered(text, spans, a, b - 1);
      assert text[a..b] == text[a..b - 1] + [text[b - 1]];
    }
  }

  lemma {:induction false} RunCovered(text: string, spans: seq<Span>, a: nat, b: nat)
    requires a <= b <= |text| && forall p :: a <= p < b ==> Covered(spans, p)
    ensures Uncovered(text, spans, b) == Uncovered(text, spans, a)
  {
    if a < b {
      RunCovered(text, spans, a, b - 1);
    }
  }

  lemma RowInside(text: string, spans: seq<Span>, k: nat)
    requires InRow(text, spans) && k <= |spans|
    ensures Resume(spans, k) <= |text|
  {
    if k > 0 {
      assert RowAt(text, spans, k - 1);
    }
  }

  lemma {:induction false} KeptToUncovered(text: string, spans: seq<Span>, k: nat)
    requires InRow(text, spans) && k <= |spans|
    ensures Resume(spans, k) <= |text| && KeptTo(text, spans, k) == Uncovered(text, spans, Resume(spans, k))
  {
    RowInside(text, spans, k);
    if k > 0 {
      KeptToUncovered(text, spans, k - 1);
      assert RowAt(text, spans, k - 1);
      var sp := spans[k - 1];
      GapRun(text, spans, k - 1, sp.f);
      forall p | sp.f <= p < sp.e ensures Covered(spans, p) {
        assert Holds(spans[k - 1], p);
      }
      RunCovered(text, spans, sp.f, sp.e);
    }
  }

  lemma GapRun(text: string, spans: seq<Span>, k: nat, b: nat)
    requires InRow(text, spans) && k <= |spans| && Resume(spans, k) <= b <= |text|
    requires k < |spans| ==> b == spans[k].f
    ensures Uncovered(text, spans, b) == Uncovered(text, spans, Resume(spans, k)) + text[Resume(spans, k)..b]
  {
    forall p | Resume(spans, k) <= p < b ensures !Covered(spans, p) {
      GapUncovered(text, spans, k, p);
    }
    RunUncovered(text, spans, Resume(spans, k), b);
  }

  /** What is kept is exactly what no span holds. */
  lemma KeptIsUncovered(text: string, spans: seq<Span>)
    requires InRow(text, spans)
    ensures Kept(text, spans) == Uncovered(text, spans, |text|)
  {
    KeptToUncovered(text, spans, |spans|);
    GapRun(text, spans, |spans|, |text|);
  }

  lemma {:induction false} SameUncovered(text: string, a: seq<Span>, b: seq<Span>, n: nat)
    requires n <= |text| && SameCharacters(a, b)
    ensures Uncovered(text, a, n) == Uncovered(text, b, n)
  {
    if n > 0 {
      SameUncovered(text, a, b, n - 1);
    }
  }

  /** Spans that hold the same characters leave the same text. */
  lemma SameCharactersSameText(text: string, a: seq<Span>, b: seq<Span>)
    requires InRow(text, a) && InRow(text, b) && SameCharacters(a, b)
    ensures Kept(text, a) == Kept(text, b)
  {
    KeptIsUncovered(text, a);
    KeptIsUncovered(text, b);
    SameUncovered(text, a, b, |text|);
  }
}
