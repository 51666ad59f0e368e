/**
 When what the cuts of the wire-coverage gate leave still spells the marker.
 */
module CutSeams {
  import opened Text
  import opened Options
  import opened WireCoverage
  import opened Seams

  /** Everything kept, piece by piece: one before each cut and one after the last. */
  function Pieces(text: string, spans: seq<Span>): seq<string> {
    seq(|spans| + 1, k requires 0 <= k <= |spans| => Piece(text, spans, k))
  }

  lemma {:induction false} KeptIsConcat(text: string, spans: seq<Span>, k: nat)
    requires k <= |spans|
    ensures KeptTo(text, spans, k) == Concat(Pieces(text, spans)[..k])
  {
    if k > 0 {
      KeptIsConcat(text, spans, k - 1);
      ConcatNext(Pieces(text, spans), k - 1);
    }
  }

  lemma KeptIsPieces(text: string, spans: seq<Span>)
    ensures Kept(text, spans) == Concat(Pieces(text, spans))
  {
    KeptIsConcat(text, spans, |spans|);
    ConcatNext(Pieces(text, spans), |spans|);
    assert Pieces(text, spans)[..|spans| + 1] == Pieces(text, spans);
  }

  lemma PiecesAreFree(text: string, spans: seq<Span>, rest: string)
    requires Leaves(text, spans, Some(rest))
    ensures forall p :: p in Pieces(text, spans) ==> Absent(p, MARKER)
  {
    forall p | p in Pieces(text, spans) ensures Absent(p, MARKER) {
      var k :| 0 <= k <= |spans| && p == Pieces(text, spans)[k];
      forall i ensures !OccursAt(p, MARKER, i) {
        if i >= 0 {
          PieceHasNoMarker(text, spans, rest, k, i);
        }
      }
    }
  }

  /** Some cut closed up the text so that the two sides of the seam spell the marker together. */
  ghost predicate ASeamSpells(text: string, spans: seq<Span>) {
    exists k: nat, j: nat :: 0 < k <= |spans| && SeamSpells(Pieces(text, spans), MARKER, k, j)
  }

  /** What is left spells the marker exactly when some seam spells it. */
  lemma MarkerOnlyAtSeams(text: string, spans: seq<Span>, rest: string)
    requires Leaves(text, spans, Some(rest))
    ensures !Absent(rest, MARKER) <==> ASeamSpells(text, spans)
  {
    KeptIsPieces(text, spans);
    PiecesAreFree(text, spans, rest);
    OnlyAtSeams(Pieces(text, spans), MARKER);
  }

  lemma {:induction false} KeptShrinks(text: string, spans: seq<Span>, k: nat)
    requires Cuts(text, spans) && k <= |spans|
    ensures |KeptTo(text, spans, k)| + k <= Resume(spans, k) <= |text|
  {
    CutsAdvance(text, spans, k);
    if k > 0 {
      KeptShrinks(text, spans, k - 1);
      CutsAdvance(text, spans, k - 1);
    }
  }

  /** A pass changes nothing exactly when the marker does not occur. */
  lemma PassIsIdle(text: string, spans: seq<Span>, r: Option<string>)
    requires Leaves(text, spans, r)
    ensures r == Some(text) <==> Absent(text, MARKER)
  {
    FindIsLeast(text, MARKER, 0);
    if spans == [] {
      assert Kept(text, spans) == text;
    } else {
      KeptShrinks(text, spans, |spans|);
      assert CutAt(text, spans, 0);
    }
  }

  /** A second pass changes nothing exactly when no seam of the first spells the marker. */
  lemma SecondPassIdle(text: string, spans: seq<Span>, rest: string, again: seq<Span>, r: Option<string>)
    requires Leaves(text, spans, Some(rest)) && Leaves(rest, again, r)
    ensures r == Some(rest) <==> !ASeamSpells(text, spans)
  {
    MarkerOnlyAtSeams(text, spans, rest);
    PassIsIdle(rest, again, r);
  }
}
