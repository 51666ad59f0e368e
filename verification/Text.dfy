/** Searching and joining text. */
module Text {

  predicate OccursAt(text: string, pattern: string, i: int) {
    0 <= i && i + |pattern| <= |text| && text[i..i + |pattern|] == pattern
  }

  /** The least occurrence at or after `from`, or -1. */
  function Find(text: string, pattern: string, from: nat): (r: int)
    ensures r == -1 || (from <= r && r + |pattern| <= |text|)
    decreases |text| - from
  {
    if OccursAt(text, pattern, from) then from
    else if from >= |text| then -1
    else Find(text, pattern, from + 1)
  }

  lemma {:induction false} FindIsLeast(text: string, pattern: string, from: nat)
    ensures var r := Find(text, pattern, from);
            && (r >= 0 ==> OccursAt(text, pattern, r))
            && (forall i :: from <= i && (r == -1 || i < r) ==> !OccursAt(text, pattern, i))
    decreases |text| - from
  {
    if !OccursAt(text, pattern, from) && from < |text| {
      FindIsLeast(text, pattern, from + 1);
    }
  }

  lemma FindBrace(text: string, from: nat)
    ensures Find(text, "{", from) >= 0 ==> Find(text, "{", from) < |text| && text[Find(text, "{", from)] == '{'
  {
    FindIsLeast(text, "{", from);
    var r := Find(text, "{", from);
    if r >= 0 {
      assert text[r..r + 1][0] == '{';
    }
  }

  lemma SliceOfSlice(s: string, at: nat, len: nat, i: nat, n: nat)
    requires at + len <= |s| && i + n <= len
    ensures s[at..at + len][i..i + n] == s[at + i..at + i + n]
  {
    var a, b := s[at..at + len][i..i + n], s[at + i..at + i + n];
    assert |a| == |b| && forall k :: 0 <= k < n ==> a[k] == b[k];
    assert a == b;
  }

  /** A text that does not occur at a place of the whole does not occur there in a piece of it. */
  lemma NotInPiece(text: string, pattern: string, a: nat, b: nat, i: nat)
    requires a <= b <= |text| && !OccursAt(text, pattern, a + i)
    ensures !OccursAt(text[a..b], pattern, i)
  {
    if i + |pattern| <= b - a {
      SliceOfSlice(text, a, b - a, i, |pattern|);
    }
  }

  /** The lines one after the other, `sep` between each two. */
  function Join(lines: seq<string>, sep: string): string {
    if lines == [] then ""
    else if |lines| == 1 then lines[0]
    else lines[0] + sep + Join(lines[1..], sep)
  }
}
