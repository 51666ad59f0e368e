/**
 A pattern in a text put together from pieces that do not hold it can only
 stand across the seams.
 */
module Seams {
  import opened Text

  function Concat(ps: seq<string>): string {
    if ps == [] then "" else Concat(ps[..|ps| - 1]) + ps[|ps| - 1]
  }

  ghost predicate Absent(s: string, pattern: string) {
    forall i :: !OccursAt(s, pattern, i)
  }

  /** The first `k` pieces together end with `pattern[..j]`, and what follows them begins with `pattern[j..]`. */
  ghost predicate SeamSpells(ps: seq<string>, pattern: string, k: nat, j: nat)
    requires k <= |ps|
  {
    var before, all := Concat(ps[..k]), Concat(ps);
    && 0 < j < |pattern|
    && j <= |before| <= |all|
    && before[|before| - j..] == pattern[..j]
    && pattern[j..] <= all[|before|..]
  }

  lemma ConcatNext(ps: seq<string>, k: nat)
    requires k < |ps|
    ensures Concat(ps[..k + 1]) == Concat(ps[..k]) + ps[k]
  {
    assert ps[..k + 1][..k] == ps[..k];
  }

  /** The first pieces begin the whole, and the next one follows them. */
  lemma {:induction false} ConcatBegins(ps: seq<string>, k: nat)
    requires k <= |ps|
    ensures Concat(ps[..k]) <= Concat(ps)
    ensures k < |ps| ==>
              var at := |Concat(ps[..k])|;
              at + |ps[k]| <= |Concat(ps)| && Concat(ps)[at..at + |ps[k]|] == ps[k]
    decreases |ps| - k
  {
    if k == |ps| {
      assert ps[..k] == ps;
    } else {
      ConcatBegins(ps, k + 1);
      ConcatNext(ps, k);
      PrefixOfPrefix(Concat(ps[..k]), ps[k], Concat(ps));
    }
  }

  lemma PrefixOfPrefix(a: string, b: string, all: string)
    requires a + b <= all
    ensures a <= all && |a| + |b| <= |all| && all[|a|..|a| + |b|] == b
  {
    assert all[..|a + b|] == a + b;
    assert (a + b)[..|a|] == a && (a + b)[|a|..] == b;
  }

  lemma NoneInsideAPiece(ps: seq<string>, pattern: string, k: nat, i: nat)
    requires k < |ps| && Absent(ps[k], pattern)
    requires |Concat(ps[..k])| <= i && i + |pattern| <= |Concat(ps[..k])| + |ps[k]|
    ensures !OccursAt(Concat(ps), pattern, i)
  {
    var at, n := |Concat(ps[..k])|, |pattern|;
    ConcatBegins(ps, k);
    assert !OccursAt(ps[k], pattern, i - at);
    SliceOfSlice(Concat(ps), at, |ps[k]|, i - at, n);
  }

  /** An occurrence has a seam strictly inside it. */
  lemma OccurrenceHasSeam(ps: seq<string>, pattern: string, i: nat) returns (k: nat)
    requires pattern != "" && forall p :: p in ps ==> Absent(p, pattern)
    requires OccursAt(Concat(ps), pattern, i)
    ensures 0 < k < |ps| && i < |Concat(ps[..k])| < i + |pattern|
  {
    k := 0;
    while k < |ps| && |Concat(ps[..k + 1])| <= i
      invariant k <= |ps| && |Concat(ps[..k])| <= i
    {
      k := k + 1;
    }
    assert ps[..|ps|] == ps;
    assert k < |ps|;
    ConcatNext(ps, k);
    if i + |pattern| <= |Concat(ps[..k])| + |ps[k]| {
      NoneInsideAPiece(ps, pattern, k, i);
    }
    k := k + 1;
  }

  lemma SplitPattern(all: string, pattern: string, i: nat, j: nat)
    requires 0 < j < |pattern| && i + |pattern| <= |all|
    ensures OccursAt(all, pattern, i) <==>
              all[i..i + j] == pattern[..j] && all[i + j..i + |pattern|] == pattern[j..]
  {
    var here := all[i..i + |pattern|];
    assert here == all[i..i + j] + all[i + j..i + |pattern|];
    assert here[..j] == all[i..i + j] && here[j..] == all[i + j..i + |pattern|];
    assert pattern == pattern[..j] + pattern[j..];
  }

  /** The pattern stands `j` characters before a seam exactly when the seam spells it so. */
  lemma SeamMeans(ps: seq<string>, pattern: string, k: nat, j: nat)
    requires k <= |ps| && 0 < j < |pattern|
    ensures SeamSpells(ps, pattern, k, j)
       <==> |Concat(ps[..k])| >= j && OccursAt(Concat(ps), pattern, |Concat(ps[..k])| - j)
  {
    ConcatBegins(ps, k);
    Around(Concat(ps[..k]), Concat(ps), pattern, j);
  }

  lemma Around(before: string, all: string, pattern: string, j: nat)
    requires before <= all && 0 < j < |pattern|
    ensures (j <= |before| && before[|before| - j..] == pattern[..j] && pattern[j..] <= all[|before|..])
       <==> (j <= |before| && OccursAt(all, pattern, |before| - j))
  {
    var b, m := |before|, |pattern| - j;
    if j <= b && b + m <= |all| {
      SplitPattern(all, pattern, b - j, j);
      assert before[b - j..] == all[b - j..b];
      assert all[b..][..m] == all[b..b + m];
    }
  }

  /** Pieces without the pattern: the whole holds it exactly when some seam spells it. */
  lemma OnlyAtSeams(ps: seq<string>, pattern: string)
    requires pattern != "" && forall p :: p in ps ==> Absent(p, pattern)
    ensures !Absent(Concat(ps), pattern) <==> exists k: nat, j: nat :: 0 < k < |ps| && SeamSpells(ps, pattern, k, j)
  {
    if !Absent(Concat(ps), pattern) {
      var i :| OccursAt(Concat(ps), pattern, i);
      var k := OccurrenceHasSeam(ps, pattern, i);
      SeamMeans(ps, pattern, k, |Concat(ps[..k])| - i);
      assert SeamSpells(ps, pattern, k, |Concat(ps[..k])| - i);
    }
    if k: nat, j: nat :| 0 < k < |ps| && SeamSpells(ps, pattern, k, j) {
      SeamMeans(ps, pattern, k, j);
    }
  }
}
