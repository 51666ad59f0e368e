/**
 Which `impl` block a position falls in: brace matching in the argument gate.
 */
module ArgReach {
  import opened Text

  function Step(c: char): int {
    if c == '{' then 1 else if c == '}' then -1 else 0
  }

  /** Opening braces less closing ones in `text[s..i]`. */
  function Depth(text: string, s: nat, i: nat): int
    requires i <= |text|
  {
    if i <= s then 0 else Depth(text, s, i - 1) + Step(text[i - 1])
  }

  /** The block opened at `s` is back to depth zero with the brace at `i`. */
  predicate ClosesAt(text: string, s: nat, i: nat) {
    s <= i < |text| && text[i] == '}' && Depth(text, s, i + 1) == 0
  }

  /** `e` is just past the block opened at `s`: past its first closing, or the end of the text if it never closes. */
  ghost predicate IsEnd(text: string, s: nat, e: nat) {
    && s < e <= |text|
    && (forall i :: s <= i < e - 1 ==> !ClosesAt(text, s, i))
    && (ClosesAt(text, s, e - 1) || e == |text|)
  }

  ghost predicate Opens(text: string, s: nat) {
    s < |text| && text[s] == '{'
  }

  lemma {:induction false} DepthAdds(text: string, a: nat, b: nat, i: nat)
    requires a <= b <= i <= |text|
    ensures Depth(text, a, i) == Depth(text, a, b) + Depth(text, b, i)
  {
    if b < i {
      DepthAdds(text, a, b, i - 1);
    }
  }

  /** Until it closes, a block is at least one deep. */
  lemma {:induction false} DeepInside(text: string, s: nat, i: nat)
    requires Opens(text, s) && s < i <= |text|
    requires forall j :: s <= j < i ==> !ClosesAt(text, s, j)
    ensures Depth(text, s, i) >= 1
  {
    if i == s + 1 {
      assert Depth(text, s, s) == 0;
    } else {
      DeepInside(text, s, i - 1);
      assert !ClosesAt(text, s, i - 1);
    }
  }

  lemma ClosedBy(text: string, s: nat, i: nat) returns (j: nat)
    requires Opens(text, s) && s < i <= |text| && Depth(text, s, i) < 1
    ensures s <= j < i && ClosesAt(text, s, j)
  {
    if forall j :: s <= j < i ==> !ClosesAt(text, s, j) {
      DeepInside(text, s, i);
      assert false;
    } else {
      j :| s <= j < i && ClosesAt(text, s, j);
    }
  }

  /** Just past the block opened at `s`. */
  ghost function EndOf(text: string, s: nat): (e: nat)
    requires s < |text|
    ensures IsEnd(text, s, e)
  {
    EndFrom(text, s, s)
  }

  ghost function EndFrom(text: string, s: nat, i: nat): (e: nat)
    requires s <= i < |text| && forall j :: s <= j < i ==> !ClosesAt(text, s, j)
    ensures IsEnd(text, s, e)
    decreases |text| - i
  {
    if ClosesAt(text, s, i) || i + 1 == |text| then i + 1 else EndFrom(text, s, i + 1)
  }

  /** A block has one end. */
  lemma EndUnique(text: string, s: nat, e: nat)
    requires s < |text| && IsEnd(text, s, e)
    ensures e == EndOf(text, s)
  {
    var e' := EndOf(text, s);
    assert ClosesAt(text, s, e - 1) || e == |text|;
    assert ClosesAt(text, s, e' - 1) || e' == |text|;
  }

  /** How often `c` stands in a text. */
  function Count(c: char, text: string): nat {
    multiset(text)[c]
  }

  lemma CountNext(c: char, text: string, s: nat, i: nat)
    requires s < i <= |text|
    ensures Count(c, text[s..i]) == Count(c, text[s..i - 1]) + if text[i - 1] == c then 1 else 0
  {
    assert text[s..i] == text[s..i - 1] + [text[i - 1]];
  }

  lemma {:induction false} DepthCounts(text: string, s: nat, i: nat)
    requires s <= i <= |text|
    ensures Depth(text, s, i) == Count('{', text[s..i]) - Count('}', text[s..i])
  {
    if s < i {
      DepthCounts(text, s, i - 1);
      CountNext('{', text, s, i);
      CountNext('}', text, s, i);
    } else {
      assert text[s..i] == [];
    }
  }

  /** Every proper beginning of the block holds more opening braces than closing ones. */
  ghost predicate OpenUntil(text: string, s: nat, e: nat)
    requires s < e <= |text|
  {
    forall i :: s < i < e ==> Count('{', text[s..i]) > Count('}', text[s..i])
  }

  /** The end of a block, in brace counts: there they are first equal, or the text is over. */
  lemma EndCounts(text: string, s: nat, e: nat)
    requires Opens(text, s) && s < e <= |text|
    ensures e == EndOf(text, s)
       <==> OpenUntil(text, s, e) && (Count('{', text[s..e]) == Count('}', text[s..e]) || e == |text|)
  {
    forall i | s < i <= e ensures Depth(text, s, i) == Count('{', text[s..i]) - Count('}', text[s..i]) {
      DepthCounts(text, s, i);
    }
    if e == EndOf(text, s) {
      forall i | s < i < e ensures Count('{', text[s..i]) > Count('}', text[s..i]) {
        DeepInside(text, s, i);
      }
    }
    if OpenUntil(text, s, e) && (Count('{', text[s..e]) == Count('}', text[s..e]) || e == |text|) {
      CountsEnd(text, s, e);
    }
  }

  lemma CountsEnd(text: string, s: nat, e: nat)
    requires Opens(text, s) && s < e <= |text|
    requires forall i :: s < i <= e ==> Depth(text, s, i) == Count('{', text[s..i]) - Count('}', text[s..i])
    requires OpenUntil(text, s, e) && (Count('{', text[s..e]) == Count('}', text[s..e]) || e == |text|)
    ensures e == EndOf(text, s)
  {
    forall i | s <= i < e - 1 ensures !ClosesAt(text, s, i) {
      assert Count('{', text[s..i + 1]) > Count('}', text[s..i + 1]);
    }
    if Count('{', text[s..e]) == Count('}', text[s..e]) {
      LastCloses(text, s, e);
    }
    EndUnique(text, s, e);
  }

  lemma LastCloses(text: string, s: nat, e: nat)
    requires Opens(text, s) && s < e <= |text| && Depth(text, s, e) == 0
    requires forall i :: s <= i < e - 1 ==> !ClosesAt(text, s, i)
    ensures ClosesAt(text, s, e - 1)
  {
    assert Depth(text, s, s) == 0;
    if e > s + 1 {
      DeepInside(text, s, e - 1);
    }
  }

  /** Two blocks are disjoint, or the one that opens later lies inside the other; never-closing blocks included. */
  lemma BlocksNest(text: string, s1: nat, s2: nat)
    requires Opens(text, s1) && Opens(text, s2) && s1 <= s2
    ensures EndOf(text, s1) <= s2 || EndOf(text, s2) <= EndOf(text, s1)
  {
    var e1 := EndOf(text, s1);
    if s1 < s2 < e1 && ClosesAt(text, s1, e1 - 1) {
      DepthAdds(text, s1, s2, e1);
      DeepInside(text, s1, s2);
      var j := ClosedBy(text, s2, e1);
      assert EndOf(text, s2) <= j + 1;
    }
  }

  /** `_body`: the block opened by the first brace at or after `at`, braces included. */
  method Body(text: string, at: nat) returns (body: string)
    ensures Find(text, "{", at) == -1 ==> body == ""
    ensures Find(text, "{", at) >= 0 ==>
              var s := Find(text, "{", at);
              body == text[s..EndOf(text, s)]
  {
    var start := Find(text, "{", at);
    if start < 0 {
      return "";
    }
    FindBrace(text, at);
    var depth, i := 0, start;
    while i < |text|
      invariant start <= i <= |text|
      invariant depth == Depth(text, start, i)
      invariant forall j :: start <= j < i ==> !ClosesAt(text, start, j)
    {
      if text[i] == '{' {
        depth := depth + 1;
      } else if text[i] == '}' {
        depth := depth - 1;
        if depth == 0 {
          EndUnique(text, start, i + 1);
          return text[start..i + 1];
        }
      }
      i := i + 1;
    }
    EndUnique(text, start, |text|);
    return text[start..];
  }

  /** One `impl` header the pattern found: where it starts, where it ends, and the type it names. */
  datatype Match = Match(start: nat, end: nat, name: string)

  /** Pattern matches come in order, do not overlap, and name something. */
  ghost predicate InOrder(text: string, ms: seq<Match>) {
    && (forall k :: 0 <= k < |ms| ==> ms[k].start < ms[k].end <= |text| && ms[k].name != "")
    && (forall j, k :: 0 <= j < k < |ms| ==> ms[j].end <= ms[k].start)
  }

  /** The braces of `m` hold the position `at`. */
  ghost predicate Holds(text: string, m: Match, at: nat) {
    var s := Find(text, "{", m.end);
    0 <= s <= at < |text| && at < EndOf(text, s)
  }

  /** From the opening brace to the closing one, both included, and no further. */
  lemma HoldsEdges(text: string, m: Match)
    requires Find(text, "{", m.end) >= 0
    ensures var s := Find(text, "{", m.end);
            && Holds(text, m, s) && Holds(text, m, EndOf(text, s) - 1)
            && !Holds(text, m, EndOf(text, s)) && (s > 0 ==> !Holds(text, m, s - 1))
  {
  }

  /** The block of `m` lies inside the block of `n`. */
  ghost predicate Inside(text: string, m: Match, n: Match, at: nat)
    requires Holds(text, m, at) && Holds(text, n, at)
  {
    var s, t := Find(text, "{", m.end), Find(text, "{", n.end);
    t <= s && EndOf(text, s) <= EndOf(text, t)
  }

  /** `ms[k]` holds `at`, and every other block that does contains it. */
  ghost predicate Innermost(text: string, ms: seq<Match>, k: nat, at: nat)
    requires k < |ms|
  {
    && Holds(text, ms[k], at)
    && forall j :: 0 <= j < |ms| && Holds(text, ms[j], at) ==> Inside(text, ms[k], ms[j], at)
  }

  lemma FindMonotone(text: string, pattern: string, a: nat, b: nat)
    requires a <= b && Find(text, pattern, b) >= 0
    ensures 0 <= Find(text, pattern, a) <= Find(text, pattern, b)
  {
    FindIsLeast(text, pattern, a);
    FindIsLeast(text, pattern, b);
  }

  /** Of two blocks that hold one position, the one whose header comes later is inside the other. */
  lemma LaterIsInside(text: string, m: Match, n: Match, at: nat)
    requires n.end <= m.end && Holds(text, m, at) && Holds(text, n, at)
    ensures Inside(text, m, n, at)
  {
    FindMonotone(text, "{", n.end, m.end);
    FindBrace(text, m.end);
    FindBrace(text, n.end);
    BlocksNest(text, Find(text, "{", n.end), Find(text, "{", m.end));
  }

  /** Whether the block after a header holds `at`. */
  method HeldBy(text: string, m: Match, at: nat) returns (held: bool)
    ensures held <==> Holds(text, m, at)
  {
    var start := Find(text, "{", m.end);
    var body := Body(text, m.end);
    held := 0 <= start <= at < start + |body|;
  }

  /** A header past `at` opens no block around it. */
  lemma LaterHoldsNot(text: string, m: Match, at: nat)
    requires at < m.start < m.end
    ensures !Holds(text, m, at)
  {
  }

  /** `_impl_at`: the innermost `impl` block around `at`, or nothing. */
  method ImplAt(text: string, ms: seq<Match>, at: nat) returns (last: string)
    requires InOrder(text, ms)
    ensures last == "" <==> forall k :: 0 <= k < |ms| ==> !Holds(text, ms[k], at)
    ensures last != "" ==> exists k :: 0 <= k < |ms| && ms[k].name == last && Innermost(text, ms, k, at)
  {
    last := "";
    ghost var kept := -1;
    var i := 0;
    while i < |ms|
      invariant 0 <= i <= |ms|
      invariant -1 <= kept < i
      invariant kept == -1 ==> last == ""
      invariant kept >= 0 ==> last == ms[kept].name && Holds(text, ms[kept], at)
      invariant forall k :: kept < k < i ==> !Holds(text, ms[k], at)
    {
      var m := ms[i];
      if m.start > at {
        break;
      }
      var held := HeldBy(text, m, at);
      if held {
        last := m.name;
        kept := i;
      }
      i := i + 1;
    }
    forall k | i <= k < |ms| ensures !Holds(text, ms[k], at) {
      LaterHoldsNot(text, ms[k], at);
    }
    if kept >= 0 {
      LastIsInnermost(text, ms, kept, at);
    }
  }

  lemma LastIsInnermost(text: string, ms: seq<Match>, kept: nat, at: nat)
    requires InOrder(text, ms) && kept < |ms| && Holds(text, ms[kept], at)
    requires forall k :: kept < k < |ms| ==> !Holds(text, ms[k], at)
    ensures Innermost(text, ms, kept, at)
  {
    forall j | 0 <= j < |ms| && Holds(text, ms[j], at) ensures Inside(text, ms[kept], ms[j], at) {
      LaterIsInside(text, ms[kept], ms[j], at);
    }
  }
}
