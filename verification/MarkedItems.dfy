/**
 When the cuts of the wire-coverage gate are the marked items.  Where a marked
 item ends is for the language to say, not for the gate: items are given, as
 spans in a row.
 */
module MarkedItems {
  import opened Text
  import opened Options
  import opened WireCoverage
  import opened SpanRows

  /** Every marker of the text stands in one of the spans. */
  ghost predicate MarkersInside(text: string, spans: seq<Span>) {
    forall p: nat {:trigger Covered(spans, p)} :: OccursAt(text, MARKER, p) ==> Covered(spans, p)
  }

  ghost predicate Starts(text: string, sp: Span) {
    OccursAt(text, MARKER, sp.f)
  }

  /** Spans in a row that start at markers, with no marker outside them. */
  ghost predicate FromMarkers(text: string, spans: seq<Span>) {
    && InRow(text, spans)
    && (forall k {:trigger Starts(text, spans[k])} :: 0 <= k < |spans| ==> Starts(text, spans[k]))
    && MarkersInside(text, spans)
  }

  /** Each is what is cut at its marker. */
  ghost predicate AllCut(text: string, spans: seq<Span>) {
    forall k {:trigger IsCut(text, spans[k])} :: 0 <= k < |spans| ==> IsCut(text, spans[k])
  }

  /** Each starts at the first marker after the one before. */
  lemma StartsAtNext(text: string, spans: seq<Span>, k: nat)
    requires FromMarkers(text, spans) && k < |spans|
    ensures NextMarker(text, Resume(spans, k), spans[k].f)
  {
    assert RowAt(text, spans, k) && Starts(text, spans[k]);
    forall i | Resume(spans, k) <= i < spans[k].f ensures !OccursAt(text, MARKER, i) {
      GapUncovered(text, spans, k, i);
      assert !Covered(spans, i);
    }
  }

  lemma NoneLeft(text: string, spans: seq<Span>)
    requires FromMarkers(text, spans)
    ensures Find(text, MARKER, Resume(spans, |spans|)) == -1
  {
    var at := Resume(spans, |spans|);
    FindIsLeast(text, MARKER, at);
    var p := Find(text, MARKER, at);
    if p >= 0 {
      GapUncovered(text, spans, |spans|, p);
    }
  }

  lemma {:induction false} MarkerCovered(text: string, spans: seq<Span>, k: nat, p: nat)
    requires forall j :: 0 <= j < |spans| ==> NextMarker(text, Resume(spans, j), spans[j].f)
    requires Find(text, MARKER, Resume(spans, |spans|)) == -1
    requires OccursAt(text, MARKER, p) && k <= |spans| && Resume(spans, k) <= p
    ensures Covered(spans, p)
    decreases |spans| - k
  {
    if k == |spans| {
      FindIsLeast(text, MARKER, Resume(spans, k));
    } else if spans[k].e <= p {
      MarkerCovered(text, spans, k + 1, p);
    } else {
      assert NextMarker(text, Resume(spans, k), spans[k].f);
      assert Holds(spans[k], p);
    }
  }

  /** Spans that start each at the next marker, until there is none. */
  lemma NextByNext(text: string, spans: seq<Span>)
    requires InRow(text, spans)
    requires forall j :: 0 <= j < |spans| ==> NextMarker(text, Resume(spans, j), spans[j].f)
    requires Find(text, MARKER, Resume(spans, |spans|)) == -1
    ensures FromMarkers(text, spans)
  {
    forall p: nat | OccursAt(text, MARKER, p) ensures Covered(spans, p) {
      MarkerCovered(text, spans, 0, p);
    }
    forall k | 0 <= k < |spans| ensures Starts(text, spans[k]) {
      assert NextMarker(text, Resume(spans, k), spans[k].f);
    }
  }

  /** The cuts of a pass that gets to the end are such spans. */
  lemma CutsFromMarkers(text: string, spans: seq<Span>, rest: string)
    requires Leaves(text, spans, Some(rest))
    ensures FromMarkers(text, spans)
    ensures AllCut(text, spans)
  {
    forall k | 0 <= k < |spans|
      ensures RowAt(text, spans, k) && NextMarker(text, Resume(spans, k), spans[k].f) && IsCut(text, spans[k])
    {
      CutsAdvance(text, spans, k);
      assert CutAt(text, spans, k);
    }
    NextByNext(text, spans);
  }

  lemma ItemsAreCuts(text: string, items: seq<Span>)
    requires FromMarkers(text, items)
    requires AllCut(text, items)
    ensures Leaves(text, items, Some(Kept(text, items)))
  {
    forall m | 0 <= m < |items| ensures CutAt(text, items, m) {
      StartsAtNext(text, items, m);
    }
    CutsAdvance(text, items, |items|);
    NoneLeft(text, items);
  }

  /**
   Whatever the marked items of a text are and whatever the pass comes to: it
   cuts exactly these, and gets to the end, exactly when each is what is cut at
   the marker it starts at and no marker stands outside them.
   */
  lemma CutExactlyTheItems(text: string, spans: seq<Span>, r: Option<string>, items: seq<Span>)
    requires Leaves(text, spans, r)
    ensures spans == items && r.Some?
       <==> FromMarkers(text, items) && AllCut(text, items)
  {
    if spans == items && r.Some? {
      CutsFromMarkers(text, spans, r.value);
    }
    if FromMarkers(text, items) && AllCut(text, items) {
      ItemsAreCuts(text, items);
      OutcomeDecided(text, spans, r, items, Some(Kept(text, items)));
    }
  }

  // -------------------------------------------------- character by character

  /** What is cut from one marker to the next, one right after the other. */
  ghost predicate CutRow(text: string, cs: seq<Span>, f: nat, e: nat) {
    && Tiles(cs, 0, |cs|, f, e)
    && forall k :: 0 <= k < |cs| ==> Starts(text, cs[k]) && IsCut(text, cs[k])
  }

  /** Cutting at `f`, and on where a cut ends at a marker, ends exactly at `e`. */
  ghost predicate CutsRun(text: string, f: nat, e: nat) {
    exists cs :: CutRow(text, cs, f, e)
  }

  lemma CutUnique(text: string, a: Span, b: Span)
    requires IsCut(text, a) && IsCut(text, b) && a.f == b.f
    ensures a == b
  {
    var brace := Find(text, "{", a.f);
    if brace >= 0 {
      EndUnique(text, brace, a.e, b.e);
    }
  }

  /** A marker where a span ends is where the next one starts. */
  lemma NextAdjoins(text: string, spans: seq<Span>, m: nat)
    requires FromMarkers(text, spans) && m < |spans| && OccursAt(text, MARKER, spans[m].e)
    ensures m + 1 < |spans| && spans[m + 1].f == spans[m].e
  {
    assert Covered(spans, spans[m].e);
    NextIsCovered(text, spans, m);
  }

  /** Where the character a span stops before is held, a marker stands. */
  lemma CoveredEndIsMarker(text: string, spans: seq<Span>, k: nat)
    requires FromMarkers(text, spans) && k < |spans| && Covered(spans, spans[k].e)
    ensures OccursAt(text, MARKER, spans[k].e)
  {
    NextIsCovered(text, spans, k);
    assert Starts(text, spans[k + 1]);
  }

  /** The cuts of a pass follow any row of cuts from where one of them starts. */
  lemma {:induction false} FollowsRow(text: string, spans: seq<Span>, k: nat, cs: seq<Span>, f: nat, e: nat, i: nat)
    requires FromMarkers(text, spans) && AllCut(text, spans)
    requires k < |spans| && spans[k].f == f && CutRow(text, cs, f, e) && i < |cs|
    ensures k + i < |spans| && spans[k + i] == cs[i]
  {
    if i > 0 {
      FollowsRow(text, spans, k, cs, f, e, i - 1);
      assert cs[i].f == cs[i - 1].e && Starts(text, cs[i]);
      NextAdjoins(text, spans, k + i - 1);
    }
    CutUnique(text, spans[k + i], cs[i]);
  }

  lemma FollowsRun(text: string, spans: seq<Span>, k: nat, f: nat, e: nat) returns (n: nat)
    requires FromMarkers(text, spans) && AllCut(text, spans)
    requires k < |spans| && spans[k].f == f && CutsRun(text, f, e)
    ensures Tiles(spans, k, n, f, e)
  {
    var cs :| CutRow(text, cs, f, e);
    n := k + |cs|;
    forall i | 0 <= i < |cs| ensures k + i < |spans| && spans[k + i] == cs[i] {
      FollowsRow(text, spans, k, cs, f, e, i);
    }
    assert k + (|cs| - 1) < |spans|;
    SameTiles(spans, k, cs, f, e);
  }

  lemma SameTiles(spans: seq<Span>, k: nat, cs: seq<Span>, f: nat, e: nat)
    requires k + |cs| <= |spans| && forall i :: 0 <= i < |cs| ==> spans[k + i] == cs[i]
    ensures Tiles(cs, 0, |cs|, f, e) <==> Tiles(spans, k, k + |cs|, f, e)
  {
    if Tiles(cs, 0, |cs|, f, e) {
      forall i, j | k <= i < j < k + |cs| && j == i + 1 ensures spans[j].f == spans[i].e {
        assert spans[k + (i - k)] == cs[i - k] && spans[k + (j - k)] == cs[j - k];
      }
      assert spans[k + 0] == cs[0] && spans[k + (|cs| - 1)] == cs[|cs| - 1];
    }
    if Tiles(spans, k, k + |cs|, f, e) {
      assert spans[k + 0] == cs[0] && spans[k + (|cs| - 1)] == cs[|cs| - 1];
    }
  }

  /** Cuts that hold every character up to `e` and not the one there are a row up to `e`. */
  lemma {:induction false} CutsUpTo(text: string, spans: seq<Span>, k: nat, e: nat) returns (n: nat)
    requires InRow(text, spans) && k < |spans| && spans[k].f < e && !Covered(spans, e)
    requires forall p :: spans[k].f <= p < e ==> Covered(spans, p)
    ensures Tiles(spans, k, n, spans[k].f, e)
    decreases |spans| - k
  {
    assert !Holds(spans[k], e) && RowAt(text, spans, k);
    if spans[k].e == e {
      n := k + 1;
    } else {
      NextIsCovered(text, spans, k);
      n := CutsUpTo(text, spans, k + 1, e);
      TilesLonger(spans, k, n, e);
    }
  }

  /** At the start of a run of items a cut starts, if it is cut and what stands before it is not. */
  lemma CutAtRun(text: string, spans: seq<Span>, items: seq<Span>, m: nat, n: nat) returns (k: nat)
    requires InRow(text, items) && Run(items, m, n)
    requires Covered(spans, items[m].f)
    requires items[m].f > 0 ==> (Covered(spans, items[m].f - 1) <==> Covered(items, items[m].f - 1))
    ensures k < |spans| && spans[k].f == items[m].f
  {
    if items[m].f > 0 {
      BeforeRun(text, items, m, n);
    }
    k := StartOf(spans, items[m].f);
  }

  lemma RunIsCut(text: string, spans: seq<Span>, items: seq<Span>, m: nat, n: nat)
    requires FromMarkers(text, spans) && AllCut(text, spans)
    requires InRow(text, items) && SameCharacters(spans, items) && Run(items, m, n)
    ensures CutsRun(text, items[m].f, items[n - 1].e)
  {
    var f, e := items[m].f, items[n - 1].e;
    TileInside(text, items, m, n, f, e, m);
    forall p | f <= p < e ensures Covered(spans, p) {
      var j := TileHolds(items, m, n, f, e, p);
      assert Covered(items, p);
    }
    AfterRun(text, items, m, n);
    var k := CutAtRun(text, spans, items, m, n);
    var k' := CutsUpTo(text, spans, k, e);
    SameTiles(spans, k, spans[k..k'], f, e);
    assert CutRow(text, spans[k..k'], f, e);
  }

  /** Each run of adjoining items is a run of adjoining cuts. */
  ghost predicate RunsAreCut(text: string, items: seq<Span>) {
    forall m: nat, n: nat {:trigger Run(items, m, n)} :: Run(items, m, n) ==> CutsRun(text, items[m].f, items[n - 1].e)
  }

  lemma RunIsTiled(text: string, spans: seq<Span>, items: seq<Span>, m: nat, n: nat) returns (k: nat, k': nat)
    requires FromMarkers(text, spans) && AllCut(text, spans)
    requires InRow(text, items) && Run(items, m, n) && CutsRun(text, items[m].f, items[n - 1].e)
    requires items[m].f > 0 ==> (Covered(spans, items[m].f - 1) <==> Covered(items, items[m].f - 1))
    ensures Tiles(spans, k, k', items[m].f, items[n - 1].e)
  {
    var cs :| CutRow(text, cs, items[m].f, items[n - 1].e);
    assert Starts(text, cs[0]);
    k := CutAtRun(text, spans, items, m, n);
    k' := FollowsRun(text, spans, k, items[m].f, items[n - 1].e);
  }

  /** An item's character is cut, if all is alike before it. */
  lemma ItemIsCut(text: string, spans: seq<Span>, items: seq<Span>, p: nat)
    requires FromMarkers(text, spans) && AllCut(text, spans)
    requires InRow(text, items) && RunsAreCut(text, items)
    requires forall q: nat :: q < p ==> (Covered(spans, q) <==> Covered(items, q))
    requires Covered(items, p)
    ensures Covered(spans, p)
  {
    var j :| 0 <= j < |items| && Holds(items[j], p);
    var m, n := RunAround(text, items, j);
    TileInside(text, items, m, n, items[m].f, items[n - 1].e, j);
    var k, k' := RunIsTiled(text, spans, items, m, n);
    var i := TileHolds(spans, k, k', items[m].f, items[n - 1].e, p);
  }

  /** No item ends inside a cut with nothing of an item behind it, if all is alike before that. */
  lemma NoEndInside(text: string, spans: seq<Span>, items: seq<Span>, i: nat, j: nat)
    requires FromMarkers(text, spans) && AllCut(text, spans) && i < |spans|
    requires InRow(text, items) && RunsAreCut(text, items) && j < |items|
    requires forall q: nat :: q < items[j].e ==> (Covered(spans, q) <==> Covered(items, q))
    requires spans[i].f < items[j].e < spans[i].e
    ensures Covered(items, items[j].e)
  {
    if !Covered(items, items[j].e) {
      var m := RunTo(text, items, j);
      var k, n := RunIsTiled(text, spans, items, m, j + 1);
      TileInside(text, spans, k, n, items[m].f, items[j].e, n - 1);
      OneHolder(text, spans, n - 1, i, items[j].e - 1);
    }
  }

  /** A cut character is an item's, if all is alike before it. */
  lemma CutIsItems(text: string, spans: seq<Span>, items: seq<Span>, p: nat)
    requires FromMarkers(text, spans) && AllCut(text, spans)
    requires InRow(text, items) && MarkersInside(text, items) && RunsAreCut(text, items)
    requires forall q: nat :: q < p ==> (Covered(spans, q) <==> Covered(items, q))
    requires Covered(spans, p)
    ensures Covered(items, p)
  {
    var i :| 0 <= i < |spans| && Holds(spans[i], p);
    assert Starts(text, spans[i]);
    if spans[i].f < p && !Covered(items, p) {
      assert Holds(spans[i], p - 1);
      var j := EndOf(items, p);
      NoEndInside(text, spans, items, i, j);
    }
  }

  lemma RunTo(text: string, items: seq<Span>, j: nat) returns (m: nat)
    requires InRow(text, items) && j < |items| && !Covered(items, items[j].e)
    ensures m <= j && Run(items, m, j + 1) && items[m].f < items[j].e
  {
    var n;
    m, n := RunAround(text, items, j);
    TileInside(text, items, m, n, items[m].f, items[n - 1].e, j);
    if j + 1 < n {
      assert items[j + 1].f == items[j].e;
      assert RowAt(text, items, j + 1) && Holds(items[j + 1], items[j].e);
    }
  }

  lemma {:induction false} AlikeAt(text: string, spans: seq<Span>, items: seq<Span>, p: nat)
    requires FromMarkers(text, spans) && AllCut(text, spans)
    requires InRow(text, items) && MarkersInside(text, items) && RunsAreCut(text, items)
    ensures Covered(spans, p) <==> Covered(items, p)
  {
    forall q: nat | q < p ensures Covered(spans, q) <==> Covered(items, q) {
      AlikeAt(text, spans, items, q);
    }
    if Covered(items, p) {
      ItemIsCut(text, spans, items, p);
    }
    if Covered(spans, p) {
      CutIsItems(text, spans, items, p);
    }
  }

  /**
   Whatever the marked items of a text are: exactly their characters are cut
   exactly when no marker stands outside them and each run of adjoining items
   is a run of adjoining cuts.  Then the result is the text less its items.
   */
  lemma OnlyItemsCut(text: string, spans: seq<Span>, rest: string, items: seq<Span>)
    requires Leaves(text, spans, Some(rest)) && InRow(text, items)
    ensures SameCharacters(spans, items) <==> MarkersInside(text, items) && RunsAreCut(text, items)
    ensures SameCharacters(spans, items) ==> rest == Kept(text, items)
  {
    CutsFromMarkers(text, spans, rest);
    if SameCharacters(spans, items) {
      forall m: nat, n: nat | Run(items, m, n) ensures CutsRun(text, items[m].f, items[n - 1].e) {
        RunIsCut(text, spans, items, m, n);
      }
      SameCharactersSameText(text, spans, items);
    }
    if MarkersInside(text, items) && RunsAreCut(text, items) {
      forall p: nat ensures Covered(spans, p) <==> Covered(items, p) {
        AlikeAt(text, spans, items, p);
      }
    }
  }

  // ------------------------------------------------------------ item by item

  /** The item ends before any brace. */
  predicate AtHead(text: string, item: Span) {
    var brace := Find(text, "{", item.f);
    brace < 0 || item.e <= brace
  }

  /**
   The item does not end inside the first block after its marker, as the gate
   reads that block; and if it goes on past the block, no marker follows the
   block directly.
   */
  ghost predicate EndsOutside(text: string, item: Span) {
    || AtHead(text, item)
    || forall c: nat :: IsEnd(text, Find(text, "{", item.f), c) ==>
         c <= item.e && (c < item.e ==> !OccursAt(text, MARKER, c))
  }

  /** The item is what is cut at its marker, or ends before any brace and right where the next marker stands. */
  ghost predicate CutOrFollowed(text: string, item: Span) {
    IsCut(text, item) || (AtHead(text, item) && OccursAt(text, MARKER, item.e))
  }

  ghost predicate AllEndOutside(text: string, items: seq<Span>) {
    forall m {:trigger EndsOutside(text, items[m])} :: 0 <= m < |items| ==> EndsOutside(text, items[m])
  }

  lemma SameBrace(text: string, a: nat, b: nat)
    requires a <= b && (Find(text, "{", a) < 0 || b <= Find(text, "{", a))
    ensures Find(text, "{", b) == Find(text, "{", a)
  {
    FindIsLeast(text, "{", a);
    FindIsLeast(text, "{", b);
  }

  /** `at` stands before the brace that opens the cut's block, or no brace follows. */
  predicate BeforeBlock(text: string, sp: Span, at: nat) {
    var brace := Find(text, "{", sp.f);
    sp.f <= at && (brace < 0 || at <= brace)
  }

  /** An item that starts before the block of a cut: where it ends, seen from the end of the cut. */
  lemma ItemInCut(text: string, sp: Span, item: Span)
    requires IsCut(text, sp) && EndsOutside(text, item) && BeforeBlock(text, sp, item.f) && item.f < item.e <= |text|
    ensures item.e == sp.e <==> IsCut(text, item)
    ensures item.e < sp.e ==> AtHead(text, item) && BeforeBlock(text, sp, item.e)
    ensures item.e > sp.e ==> !AtHead(text, item) && !OccursAt(text, MARKER, sp.e)
  {
    SameBrace(text, sp.f, item.f);
    var brace := Find(text, "{", sp.f);
    if brace >= 0 {
      assert ClosesAt(text, brace, sp.e - 1);
      if IsCut(text, item) {
        EndUnique(text, brace, sp.e, item.e);
      }
    }
  }

  /** Cuts and items that stand at one place of the text go on at one marker. */
  lemma SameMarker(text: string, spans: seq<Span>, items: seq<Span>, k: nat, m: nat)
    requires FromMarkers(text, spans) && FromMarkers(text, items) && k < |spans| && m <= |items|
    requires Resume(spans, k) == Resume(items, m)
    ensures m < |items| && items[m].f == spans[k].f
  {
    StartsAtNext(text, spans, k);
    if m < |items| {
      StartsAtNext(text, items, m);
    } else {
      NoneLeft(text, items);
      FindIsLeast(text, MARKER, Resume(items, m));
    }
  }

  lemma {:induction false} CutTiled(text: string, items: seq<Span>, sp: Span, j: nat) returns (n: nat)
    requires FromMarkers(text, items) && IsCut(text, sp) && j < |items| && BeforeBlock(text, sp, items[j].f)
    requires AllEndOutside(text, items)
    requires forall i {:trigger CutOrFollowed(text, items[i])} :: 0 <= i < |items| ==> CutOrFollowed(text, items[i])
    ensures Tiles(items, j, n, items[j].f, sp.e)
    decreases |items| - j
  {
    assert RowAt(text, items, j);
    ItemInCut(text, sp, items[j]);
    assert CutOrFollowed(text, items[j]);
    if items[j].e == sp.e {
      n := j + 1;
    } else {
      NextAdjoins(text, items, j);
      n := CutTiled(text, items, sp, j + 1);
      TilesLonger(items, j, n, sp.e);
    }
  }

  lemma {:induction false} CutsTiled(text: string, spans: seq<Span>, items: seq<Span>, k: nat) returns (m: nat)
    requires FromMarkers(text, spans) && FromMarkers(text, items) && k <= |spans|
    requires AllCut(text, spans)
    requires AllEndOutside(text, items)
    requires forall i {:trigger CutOrFollowed(text, items[i])} :: 0 <= i < |items| ==> CutOrFollowed(text, items[i])
    ensures m <= |items| && Resume(items, m) == Resume(spans, k)
    ensures forall j :: 0 <= j < k ==> TiledBy(items, spans[j])
  {
    if k == 0 {
      m := 0;
    } else {
      var m0 := CutsTiled(text, spans, items, k - 1);
      SameMarker(text, spans, items, k - 1, m0);
      assert RowAt(text, spans, k - 1);
      FindIsLeast(text, "{", spans[k - 1].f);
      m := CutTiled(text, items, spans[k - 1], m0);
    }
  }

  /** Cuts that are each one item, or several that adjoin, hold what the items hold. */
  lemma TiledCutsAlike(text: string, spans: seq<Span>, items: seq<Span>)
    requires FromMarkers(text, spans) && FromMarkers(text, items)
    requires forall k :: 0 <= k < |spans| ==> TiledBy(items, spans[k])
    ensures SameCharacters(spans, items)
  {
    forall p: nat ensures Covered(spans, p) <==> Covered(items, p) {
      if Covered(spans, p) {
        var k :| 0 <= k < |spans| && Holds(spans[k], p);
        var m, n :| Tiles(items, m, n, spans[k].f, spans[k].e);
        var j := TileHolds(items, m, n, spans[k].f, spans[k].e, p);
      }
      if j :| 0 <= j < |items| && Holds(items[j], p) {
        ItemInTiledCut(text, spans, items, j, p);
      }
    }
  }

  lemma ItemInTiledCut(text: string, spans: seq<Span>, items: seq<Span>, j: nat, p: nat)
    requires FromMarkers(text, spans) && FromMarkers(text, items) && j < |items| && Holds(items[j], p)
    requires forall k :: 0 <= k < |spans| ==> TiledBy(items, spans[k])
    ensures Covered(spans, p)
  {
    assert Starts(text, items[j]) && Covered(spans, items[j].f);
    var k :| 0 <= k < |spans| && Holds(spans[k], items[j].f);
    var m, n :| Tiles(items, m, n, spans[k].f, spans[k].e);
    var i := TileHolds(items, m, n, spans[k].f, spans[k].e, items[j].f);
    OneHolder(text, items, i, j, items[j].f);
    TileInside(text, items, m, n, spans[k].f, spans[k].e, j);
    assert Holds(spans[k], p);
  }

  /**
   An item that goes on past the first block after its marker: the character
   right behind the block is the item's and is not cut.
   */
  lemma PastTheBlock(text: string, spans: seq<Span>, k: nat, item: Span)
    requires FromMarkers(text, spans) && k < |spans|
    requires item.f < spans[k].e < item.e && !OccursAt(text, MARKER, spans[k].e)
    ensures Holds(item, spans[k].e) && !Covered(spans, spans[k].e)
  {
    if Covered(spans, spans[k].e) {
      CoveredEndIsMarker(text, spans, k);
    }
  }

  lemma {:induction false} AlikeCutTiled(text: string, spans: seq<Span>, k: nat, items: seq<Span>, j: nat)
    returns (n: nat)
    requires FromMarkers(text, spans) && FromMarkers(text, items) && SameCharacters(spans, items)
    requires k < |spans| && IsCut(text, spans[k]) && j < |items| && BeforeBlock(text, spans[k], items[j].f)
    requires items[j].f < spans[k].e
    requires AllEndOutside(text, items)
    ensures j < n <= |items| && items[n - 1].e == spans[k].e
    ensures forall i {:trigger CutOrFollowed(text, items[i])} :: j <= i < n ==> CutOrFollowed(text, items[i])
    decreases |items| - j
  {
    var sp, item := spans[k], items[j];
    assert RowAt(text, items, j) && RowAt(text, spans, k);
    ItemInCut(text, sp, item);
    if item.e > sp.e {
      NotPast(text, spans, k, items, j);
    } else if item.e == sp.e {
      n := j + 1;
    } else {
      assert Holds(sp, item.e);
      NextIsCovered(text, items, j);
      assert Starts(text, items[j + 1]);
      n := AlikeCutTiled(text, spans, k, items, j + 1);
    }
  }

  lemma NotPast(text: string, spans: seq<Span>, k: nat, items: seq<Span>, j: nat)
    requires FromMarkers(text, spans) && SameCharacters(spans, items) && k < |spans| && j < |items|
    requires items[j].f < spans[k].e && !OccursAt(text, MARKER, spans[k].e)
    ensures items[j].e <= spans[k].e
  {
    if items[j].e > spans[k].e {
      PastTheBlock(text, spans, k, items[j]);
    }
  }

  lemma {:induction false} AlikeCutsTiled(text: string, spans: seq<Span>, items: seq<Span>, k: nat) returns (m: nat)
    requires FromMarkers(text, spans) && FromMarkers(text, items) && SameCharacters(spans, items) && k <= |spans|
    requires AllCut(text, spans)
    requires AllEndOutside(text, items)
    ensures m <= |items| && Resume(items, m) == Resume(spans, k)
    ensures forall i {:trigger CutOrFollowed(text, items[i])} :: 0 <= i < m ==> CutOrFollowed(text, items[i])
  {
    if k == 0 {
      m := 0;
    } else {
      var m0 := AlikeCutsTiled(text, spans, items, k - 1);
      SameMarker(text, spans, items, k - 1, m0);
      assert RowAt(text, spans, k - 1);
      FindIsLeast(text, "{", spans[k - 1].f);
      m := AlikeCutTiled(text, spans, k - 1, items, m0);
    }
  }

  lemma AllItemsMet(text: string, spans: seq<Span>, items: seq<Span>, m: nat)
    requires FromMarkers(text, spans) && FromMarkers(text, items) && m <= |items|
    requires Resume(items, m) == Resume(spans, |spans|)
    ensures m == |items|
  {
    NoneLeft(text, spans);
    FindIsLeast(text, MARKER, Resume(spans, |spans|));
    if m < |items| {
      StartsAtNext(text, items, m);
    }
  }

  /**
   Item by item, where items start at the markers and none ends inside the
   first block after its marker: exactly their characters are cut exactly when
   each is what is cut at its marker, or ends before any brace and right where
   the next marker stands; that is, when each cut is one item or several that
   adjoin.  An item that goes on past that block is neither.
   */
  lemma ItemByItem(text: string, spans: seq<Span>, rest: string, items: seq<Span>)
    requires Leaves(text, spans, Some(rest)) && FromMarkers(text, items)
    requires AllEndOutside(text, items)
    ensures SameCharacters(spans, items) <==> forall m :: 0 <= m < |items| ==>
              IsCut(text, items[m]) || (AtHead(text, items[m]) && OccursAt(text, MARKER, items[m].e))
    ensures SameCharacters(spans, items) <==> forall k :: 0 <= k < |spans| ==> TiledBy(items, spans[k])
  {
    CutsFromMarkers(text, spans, rest);
    if SameCharacters(spans, items) {
      var m := AlikeCutsTiled(text, spans, items, |spans|);
      AllItemsMet(text, spans, items, m);
      assert forall i :: 0 <= i < |items| ==> CutOrFollowed(text, items[i]);
    }
    if forall m :: 0 <= m < |items| ==> CutOrFollowed(text, items[m]) {
      var m := CutsTiled(text, spans, items, |spans|);
    }
    if forall k :: 0 <= k < |spans| ==> TiledBy(items, spans[k]) {
      TiledCutsAlike(text, spans, items);
    }
  }
}
