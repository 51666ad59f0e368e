/**
 The order Python's `sorted` uses on names, and sorting by a total order.
 */
module Ordering {

  ghost predicate TotalOrder<V(!new)>(leq: (V, V) -> bool) {
    && (forall a :: leq(a, a))
    && (forall a, b :: leq(a, b) || leq(b, a))
    && (forall a, b :: leq(a, b) && leq(b, a) ==> a == b)
    && (forall a, b, c :: leq(a, b) && leq(b, c) ==> leq(a, c))
  }

  predicate Ascending<V>(s: seq<V>, leq: (V, V) -> bool) {
    forall i, j :: 0 <= i < j < |s| ==> leq(s[i], s[j])
  }

  predicate Distinct<V(==)>(s: seq<V>) {
    forall i, j :: 0 <= i < j < |s| ==> s[i] != s[j]
  }

  function Elements<V>(s: seq<V>): set<V> {
    set x | x in s
  }

  function Insert<V>(x: V, s: seq<V>, leq: (V, V) -> bool): (r: seq<V>)
    ensures multiset(r) == multiset(s) + multiset{x}
  {
    if s == [] then [x]
    else if leq(x, s[0]) then
      [x] + s
    else
      assert s == [s[0]] + s[1..];
      [s[0]] + Insert(x, s[1..], leq)
  }

  function Sorted<V>(s: seq<V>, leq: (V, V) -> bool): (r: seq<V>)
    ensures multiset(r) == multiset(s)
  {
    if s == [] then []
    else
      assert s == [s[0]] + s[1..];
      Insert(s[0], Sorted(s[1..], leq), leq)
  }

  lemma {:induction false} InsertAscending<V(!new)>(x: V, s: seq<V>, leq: (V, V) -> bool)
    requires TotalOrder(leq) && Ascending(s, leq)
    ensures Ascending(Insert(x, s, leq), leq)
  {
    if s == [] || leq(x, s[0]) {
    } else {
      var t := Insert(x, s[1..], leq);
      InsertAscending(x, s[1..], leq);
      forall y | y in t ensures leq(s[0], y) {
        assert y in multiset(t);
      }
    }
  }

  /** Sorting rearranges and orders: nothing lost, doubled or invented. */
  lemma {:induction false} SortedIsSorted<V(!new)>(s: seq<V>, leq: (V, V) -> bool)
    requires TotalOrder(leq)
    ensures Ascending(Sorted(s, leq), leq)
    ensures |Sorted(s, leq)| == |s|
    ensures Elements(Sorted(s, leq)) == Elements(s)
    ensures Distinct(s) ==> Distinct(Sorted(s, leq))
  {
    var r := Sorted(s, leq);
    if s != [] {
      SortedIsSorted(s[1..], leq);
      InsertAscending(s[0], Sorted(s[1..], leq), leq);
    }
    SameBag(s, r);
  }

  lemma SameBag<V>(s: seq<V>, r: seq<V>)
    requires multiset(s) == multiset(r)
    ensures |r| == |s| && Elements(r) == Elements(s)
    ensures Distinct(s) ==> Distinct(r)
  {
    assert |multiset(s)| == |s| && |multiset(r)| == |r|;
    forall x ensures x in Elements(r) <==> x in Elements(s) {
      assert x in multiset(s) <==> x in multiset(r);
    }
    if Distinct(s) {
      forall x ensures multiset(s)[x] <= 1 { DistinctCount(s, x); }
      forall i, j | 0 <= i < j < |r| ensures r[i] != r[j] {
        if r[i] == r[j] {
          CountTwice(r, i, j);
        }
      }
    }
  }

  lemma {:induction false} DistinctCount<V>(s: seq<V>, x: V)
    requires Distinct(s)
    ensures multiset(s)[x] <= 1
  {
    if s != [] {
      assert s == [s[0]] + s[1..];
      DistinctCount(s[1..], x);
      if x == s[0] {
        assert x !in s[1..];
        assert x !in multiset(s[1..]);
      }
    }
  }

  lemma CountTwice<V>(r: seq<V>, i: nat, j: nat)
    requires i < j < |r| && r[i] == r[j]
    ensures multiset(r)[r[i]] >= 2
  {
    assert r == r[..i + 1] + r[i + 1..];
    assert r[..i + 1] == r[..i] + [r[i]];
    assert r[i + 1..][j - i - 1] == r[j];
    assert r[j] in multiset(r[i + 1..]);
  }

  /** Names compare character by character, a proper prefix first. */
  predicate LexLeq(a: string, b: string) {
    || a == []
    || (b != [] && (a[0] < b[0] || (a[0] == b[0] && LexLeq(a[1..], b[1..]))))
  }

  lemma {:induction false} LexTotal(a: string, b: string)
    ensures LexLeq(a, b) || LexLeq(b, a)
    ensures LexLeq(a, a)
  {
    if a != [] {
      LexTotal(a[1..], if b == [] then [] else b[1..]);
    }
  }

  lemma {:induction false} LexAntisymmetric(a: string, b: string)
    requires LexLeq(a, b) && LexLeq(b, a)
    ensures a == b
  {
    if a != [] {
      LexAntisymmetric(a[1..], b[1..]);
      assert a == [a[0]] + a[1..];
      assert b == [b[0]] + b[1..];
    }
  }

  lemma {:induction false} LexTransitive(a: string, b: string, c: string)
    requires LexLeq(a, b) && LexLeq(b, c)
    ensures LexLeq(a, c)
  {
    if a != [] && a[0] == b[0] && b[0] == c[0] {
      LexTransitive(a[1..], b[1..], c[1..]);
    }
  }

  /** Up to `k` the names agree, and there `a` stops or has the smaller character. */
  predicate Precedes(a: string, b: string, k: nat) {
    && k <= |a| && k <= |b| && a[..k] == b[..k]
    && (k == |a| || (k < |b| && a[k] < b[k]))
  }

  /** The order of names, said of the first place at which they differ. */
  lemma {:induction false} LexDecides(a: string, b: string)
    ensures LexLeq(a, b) <==> exists k :: Precedes(a, b, k)
  {
    if a == [] {
      assert Precedes(a, b, 0);
    } else if b != [] && a[0] == b[0] {
      LexDecides(a[1..], b[1..]);
      if LexLeq(a, b) {
        var k :| Precedes(a[1..], b[1..], k);
        LexShift(a, b, k);
      } else if k: nat :| Precedes(a, b, k) {
        LexUnshift(a, b, k);
      }
    } else if LexLeq(a, b) {
      assert Precedes(a, b, 0);
    } else if k: nat :| Precedes(a, b, k) {
      assert k > 0 ==> a[..k][0] == b[..k][0];
    }
  }

  lemma LexShift(a: string, b: string, k: nat)
    requires a != [] && b != [] && a[0] == b[0] && Precedes(a[1..], b[1..], k)
    ensures Precedes(a, b, k + 1)
  {
    assert a[..k + 1] == [a[0]] + a[1..][..k] && b[..k + 1] == [b[0]] + b[1..][..k];
  }

  lemma LexUnshift(a: string, b: string, k: nat)
    requires a != [] && b != [] && a[0] == b[0] && Precedes(a, b, k)
    ensures k > 0 && Precedes(a[1..], b[1..], k - 1)
  {
    assert a[1..][..k - 1] == a[..k][1..] && b[1..][..k - 1] == b[..k][1..];
  }

  lemma LexIsTotalOrder()
    ensures TotalOrder(LexLeq)
  {
    forall a: string, b: string ensures (LexLeq(a, b) || LexLeq(b, a)) && LexLeq(a, a) { LexTotal(a, b); }
    forall a: string, b: string | LexLeq(a, b) && LexLeq(b, a) ensures a == b { LexAntisymmetric(a, b); }
    forall a: string, b: string, c: string | LexLeq(a, b) && LexLeq(b, c) ensures LexLeq(a, c) {
      LexTransitive(a, b, c);
    }
  }
}
