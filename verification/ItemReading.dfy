/**
 One reading of where marked items end, by punctuation alone, and what the cuts
 of the wire-coverage gate make of it.
 */
module ItemReading {
  import opened Text
  import opened Options
  import opened WireCoverage
  import opened SpanRows
  import opened MarkedItems

  /**
   From a marker past the first semicolon or past the first block, whichever
   comes first; where there is neither, to the end of the text.  That is right
   for a declaration.  It is not for a field or an argument, which ends at a
   comma, nor for `use a::{b};`, which goes on past its braces.  Semicolon and
   brace are the first there are, inside brackets, comments and literals as
   well: `fn f(b: [u8; 4]) {}` is read as ending inside its signature.
   */
  ghost predicate IsItem(text: string, sp: Span) {
    var semi, brace := Find(text, ";", sp.f), Find(text, "{", sp.f);
    if semi >= 0 && (brace < 0 || semi < brace) then sp.e == semi + 1
    else if brace >= 0 then IsEnd(text, brace, sp.e)
    else sp.e == |text|
  }

  /**
   No semicolon stands between the marker at `f` and the first brace; where no
   brace follows, nothing follows the semicolon.
   */
  predicate BlockComesFirst(text: string, f: nat) {
    var semi, brace := Find(text, ";", f), Find(text, "{", f);
    semi < 0 || (if brace >= 0 then brace <= semi else semi + 1 == |text|)
  }

  /** A cut ends with the marked item exactly when the item's block comes before any semicolon. */
  lemma CutIsItem(text: string, sp: Span)
    requires IsCut(text, sp)
    ensures IsItem(text, sp) <==> BlockComesFirst(text, sp.f)
  {
    var semi, brace := Find(text, ";", sp.f), Find(text, "{", sp.f);
    if semi >= 0 && brace >= 0 {
      assert ClosesAt(text, brace, sp.e - 1);
      Apart(text, sp.f);
    }
  }

  /** One place holds one character. */
  lemma Apart(text: string, f: nat)
    requires Find(text, ";", f) >= 0 && Find(text, "{", f) >= 0
    ensures Find(text, ";", f) != Find(text, "{", f)
  {
    FindIsLeast(text, ";", f);
    FindIsLeast(text, "{", f);
    var i := Find(text, ";", f);
    assert text[i..i + 1][0] == ';';
    FindBrace(text, f);
  }

  ghost predicate ItemAt(text: string, spans: seq<Span>, k: nat)
    requires k < |spans|
  {
    NextMarker(text, Resume(spans, k), spans[k].f) && IsItem(text, spans[k])
  }

  /** The first marked items of a text. */
  ghost predicate Items(text: string, spans: seq<Span>) {
    forall k {:trigger ItemAt(text, spans, k)} :: 0 <= k < |spans| ==> ItemAt(text, spans, k)
  }

  /** The marked items of a text, first to last and all of them. */
  ghost predicate AllItems(text: string, spans: seq<Span>) {
    Items(text, spans) && Find(text, MARKER, Resume(spans, |spans|)) == -1
  }

  /** The cuts made are the marked items, all of them and nothing more, exactly when in each the block comes first. */
  lemma CutsAreItems(text: string, spans: seq<Span>, rest: string)
    requires Leaves(text, spans, Some(rest))
    ensures AllItems(text, spans) <==> forall k :: 0 <= k < |spans| ==> BlockComesFirst(text, spans[k].f)
  {
    forall k | 0 <= k < |spans| ensures ItemAt(text, spans, k) <==> BlockComesFirst(text, spans[k].f) {
      assert CutAt(text, spans, k);
      CutIsItem(text, spans[k]);
    }
    if AllItems(text, spans) {
      forall k | 0 <= k < |spans| ensures BlockComesFirst(text, spans[k].f) {
        assert ItemAt(text, spans, k);
      }
    }
  }

  lemma ItemUnique(text: string, a: Span, b: Span)
    requires IsItem(text, a) && IsItem(text, b) && a.f == b.f
    ensures a == b
  {
    var brace := Find(text, "{", a.f);
    if brace >= 0 && IsEnd(text, brace, a.e) && IsEnd(text, brace, b.e) {
      EndUnique(text, brace, a.e, b.e);
    }
  }

  lemma {:induction false} ItemsAgree(text: string, a: seq<Span>, b: seq<Span>, k: nat)
    requires Items(text, a) && Items(text, b) && k < |a| && k < |b|
    ensures a[k] == b[k]
  {
    if k > 0 {
      ItemsAgree(text, a, b, k - 1);
    }
    assert ItemAt(text, a, k) && ItemAt(text, b, k);
    ItemUnique(text, a[k], b[k]);
  }

  lemma ItemsEnd(text: string, a: seq<Span>, b: seq<Span>)
    requires AllItems(text, a) && Items(text, b)
    ensures |b| <= |a|
  {
    if |a| < |b| {
      if a != [] {
        ItemsAgree(text, a, b, |a| - 1);
      }
      assert ItemAt(text, b, |a|);
      FindIsLeast(text, MARKER, Resume(b, |a|));
    }
  }

  /** A text has one list of marked items. */
  lemma ItemsDecided(text: string, a: seq<Span>, b: seq<Span>)
    requires AllItems(text, a) && AllItems(text, b)
    ensures a == b
  {
    ItemsEnd(text, a, b);
    ItemsEnd(text, b, a);
    forall k | 0 <= k < |a| ensures a[k] == b[k] {
      ItemsAgree(text, a, b, k);
    }
  }

  /** The next marked item ends nowhere: its block comes before any semicolon and never closes. */
  ghost predicate Endless(text: string, at: nat) {
    var f := Find(text, MARKER, at);
    && f >= 0 && Find(text, "{", f) >= 0 && NeverCloses(text, Find(text, "{", f))
    && (Find(text, ";", f) < 0 || Find(text, "{", f) < Find(text, ";", f))
  }

  lemma {:induction false} FirstClose(text: string, s: nat, i: nat) returns (e: nat)
    requires ClosesAt(text, s, i)
    ensures IsEnd(text, s, e)
  {
    if j :| s <= j < i && ClosesAt(text, s, j) {
      e := FirstClose(text, s, j);
    } else {
      e := i + 1;
    }
  }

  lemma NextItem(text: string, at: nat) returns (sp: Span)
    requires Find(text, MARKER, at) >= 0 && !Endless(text, at)
    ensures NextMarker(text, at, sp.f) && IsItem(text, sp)
  {
    MarkerFound(text, at);
    var f: nat := Find(text, MARKER, at);
    var semi, brace := Find(text, ";", f), Find(text, "{", f);
    if semi >= 0 && (brace < 0 || semi < brace) {
      sp := Span(f, semi + 1);
    } else if brace >= 0 {
      if semi >= 0 {
        Apart(text, f);
      }
      var i :| brace <= i && ClosesAt(text, brace, i);
      var e := FirstClose(text, brace, i);
      sp := Span(f, e);
    } else {
      sp := Span(f, |text|);
    }
  }

  lemma ItemsGrow(text: string, spans: seq<Span>, sp: Span)
    requires Items(text, spans) && NextMarker(text, Resume(spans, |spans|), sp.f) && IsItem(text, sp)
    ensures Items(text, spans + [sp])
  {
    var more := spans + [sp];
    forall k | 0 <= k < |more| ensures ItemAt(text, more, k) {
      if k < |spans| {
        assert ItemAt(text, spans, k);
      }
    }
  }

  lemma {:induction false} ListItems(text: string, spans: seq<Span>) returns (items: seq<Span>)
    requires Items(text, spans)
    ensures Items(text, items) && (AllItems(text, items) || Endless(text, Resume(items, |items|)))
    decreases |text| - Resume(spans, |spans|)
  {
    var at := Resume(spans, |spans|);
    if Find(text, MARKER, at) < 0 || Endless(text, at) {
      items := spans;
    } else {
      var sp := NextItem(text, at);
      ItemLong(text, sp);
      ItemsGrow(text, spans, sp);
      items := ListItems(text, spans + [sp]);
    }
  }

  lemma NoEndlessItem(text: string, items: seq<Span>, some: seq<Span>)
    requires AllItems(text, items) && Items(text, some)
    ensures !Endless(text, Resume(some, |some|))
  {
    ItemsEnd(text, items, some);
    var n := |some|;
    if n > 0 {
      ItemsAgree(text, items, some, n - 1);
    }
    assert Resume(items, n) == Resume(some, n);
    if n < |items| {
      assert ItemAt(text, items, n);
      FindIsLeast(text, MARKER, Resume(items, n));
      ItemCloses(text, items[n]);
    }
  }

  lemma ItemCloses(text: string, sp: Span)
    requires IsItem(text, sp)
    ensures var semi, brace := Find(text, ";", sp.f), Find(text, "{", sp.f);
            brace >= 0 && (semi < 0 || brace < semi) ==> !NeverCloses(text, brace)
  {
    var brace := Find(text, "{", sp.f);
    if brace >= 0 && IsEnd(text, brace, sp.e) {
      assert ClosesAt(text, brace, sp.e - 1);
    }
  }

  /** A text has a list of marked items exactly when none of them is endless. */
  lemma ItemsExist(text: string)
    ensures (exists items :: AllItems(text, items))
       <==> forall some :: Items(text, some) ==> !Endless(text, Resume(some, |some|))
  {
    var items := ListItems(text, []);
    if all :| AllItems(text, all) {
      forall some | Items(text, some) ensures !Endless(text, Resume(some, |some|)) {
        NoEndlessItem(text, all, some);
      }
    }
  }

  lemma ItemLong(text: string, sp: Span)
    requires OccursAt(text, MARKER, sp.f) && IsItem(text, sp)
    ensures sp.f < sp.e <= |text|
  {
  }

  // ------------------------------------------------- what is cut, so read

  /** So read, an item is what is cut at its marker exactly when its block comes first. */
  lemma ItemIsCutIff(text: string, sp: Span)
    requires IsItem(text, sp)
    ensures IsCut(text, sp) <==> BlockComesFirst(text, sp.f)
  {
    if IsCut(text, sp) {
      CutIsItem(text, sp);
    } else if Find(text, ";", sp.f) >= 0 && Find(text, "{", sp.f) >= 0 {
      Apart(text, sp.f);
    }
  }

  /** It ends before any brace, or with its block. */
  lemma ItemEndsOutside(text: string, sp: Span)
    requires OccursAt(text, MARKER, sp.f) && IsItem(text, sp)
    ensures EndsOutside(text, sp)
    ensures !BlockComesFirst(text, sp.f) ==> AtHead(text, sp)
  {
    var brace := Find(text, "{", sp.f);
    if !AtHead(text, sp) {
      forall c: nat | IsEnd(text, brace, c) ensures c == sp.e {
        EndUnique(text, brace, c, sp.e);
      }
    }
  }

  lemma ItemsFromMarkers(text: string, items: seq<Span>)
    requires AllItems(text, items)
    ensures FromMarkers(text, items) && AllEndOutside(text, items)
  {
    forall k | 0 <= k < |items|
      ensures RowAt(text, items, k) && NextMarker(text, Resume(items, k), items[k].f) && EndsOutside(text, items[k])
    {
      assert ItemAt(text, items, k);
      ItemLong(text, items[k]);
      ItemEndsOutside(text, items[k]);
    }
    NextByNext(text, items);
  }

  /** So read, the items are what is cut, and the pass gets to the end, exactly when in each the block comes first. */
  lemma ReadItemsCut(text: string, spans: seq<Span>, r: Option<string>, items: seq<Span>)
    requires Leaves(text, spans, r) && AllItems(text, items)
    ensures spans == items && r.Some? <==> forall m :: 0 <= m < |items| ==> BlockComesFirst(text, items[m].f)
    ensures r.Some? ==> (spans == items <==> forall k :: 0 <= k < |spans| ==> BlockComesFirst(text, spans[k].f))
  {
    ItemsFromMarkers(text, items);
    forall m | 0 <= m < |items| ensures IsCut(text, items[m]) <==> BlockComesFirst(text, items[m].f) {
      assert ItemAt(text, items, m);
      ItemIsCutIff(text, items[m]);
    }
    CutExactlyTheItems(text, spans, r, items);
    if r.Some? {
      CutsAreItems(text, spans, r.value);
      if AllItems(text, spans) {
        ItemsDecided(text, spans, items);
      }
    }
  }

  /**
   So read, exactly the items' characters are cut exactly when in each the
   block comes first or the next marker stands right where it ends; that is,
   when each cut is one item or several that adjoin.  Then the result is the
   text less its items.
   */
  lemma OnlyReadItemsCut(text: string, spans: seq<Span>, rest: string, items: seq<Span>)
    requires Leaves(text, spans, Some(rest)) && AllItems(text, items)
    ensures SameCharacters(spans, items) <==> forall m :: 0 <= m < |items| ==>
              BlockComesFirst(text, items[m].f) || OccursAt(text, MARKER, items[m].e)
    ensures SameCharacters(spans, items) <==> forall k :: 0 <= k < |spans| ==> TiledBy(items, spans[k])
    ensures SameCharacters(spans, items) ==> rest == Kept(text, items)
  {
    ItemsFromMarkers(text, items);
    forall m | 0 <= m < |items|
      ensures IsCut(text, items[m]) <==> BlockComesFirst(text, items[m].f)
      ensures !BlockComesFirst(text, items[m].f) ==> AtHead(text, items[m])
    {
      assert ItemAt(text, items, m);
      ItemIsCutIff(text, items[m]);
      ItemEndsOutside(text, items[m]);
    }
    ItemByItem(text, spans, rest, items);
    OnlyItemsCut(text, spans, rest, items);
  }
}
