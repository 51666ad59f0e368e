/**
 The search for groups of modules that depend on each other: Tarjan's
 strongly-connected-components walk, with its shared mutable tables.
 */
module ModuleGraph {
  import opened Graph
  import opened Ordering

  /** The six tables the walk shares, as one value. */
  datatype Tables<V> = Tables(
    index: map<V, nat>,
    low: map<V, nat>,
    stack: seq<V>,
    on: set<V>,
    counter: nat,
    found: seq<seq<V>>)

  // ---------------------------------------------------------------- invariant

  /** Numbered and no longer on the stack. */
  ghost function Popped<V>(s: Tables<V>): set<V> {
    s.index.Keys - s.on
  }

  /** How the tables fit together. `gray` holds the vertices whose walk is still running. */
  ghost predicate Shape<V(!new)>(adj: Adjacency<V>, s: Tables<V>, gray: set<V>) {
    && s.low.Keys == s.index.Keys
    && s.index.Keys <= Vertices(adj)
    && (forall v :: v in s.on <==> v in s.stack)
    && s.on <= s.index.Keys
    && gray <= s.on
    && (forall i, j :: 0 <= i < j < |s.stack| ==> s.index[s.stack[i]] < s.index[s.stack[j]])
    && (forall v :: v in s.index ==> s.index[v] < s.counter)
  }

  /** A finished vertex points only at numbered ones. */
  ghost predicate NoBlackToWhite<V>(adj: Adjacency<V>, s: Tables<V>, gray: set<V>) {
    forall x {:trigger Succ(adj, x)} :: x in s.index && x !in gray ==> Succ(adj, x) <= s.index.Keys
  }

  ghost predicate GrayReachesUp<V(!new)>(adj: Adjacency<V>, s: Tables<V>, gray: set<V>)
    requires gray <= s.on <= s.index.Keys
  {
    forall g, y {:trigger Reach(adj, g, y)} :: g in gray && y in s.on && s.index[g] <= s.index[y] ==> Reach(adj, g, y)
  }

  /** `y` reaches a running vertex at or below it on the stack. */
  ghost predicate HasAnchor<V(!new)>(adj: Adjacency<V>, s: Tables<V>, gray: set<V>, y: V)
    requires gray <= s.on <= s.index.Keys && y in s.index
  {
    exists g :: g in gray && s.index[g] <= s.index[y] && Reach(adj, y, g)
  }

  ghost predicate StackReachesGray<V(!new)>(adj: Adjacency<V>, s: Tables<V>, gray: set<V>)
    requires gray <= s.on <= s.index.Keys
  {
    forall y {:trigger HasAnchor(adj, s, gray, y)} :: y in s.on ==> HasAnchor(adj, s, gray, y)
  }

  /** `bound` is the index of a stacked vertex that `v` reaches. */
  ghost predicate NamesStacked<V(!new)>(adj: Adjacency<V>, t: Tables<V>, v: V, bound: nat)
    requires t.on <= t.index.Keys
  {
    exists y :: y in t.on && t.index[y] == bound && Reach(adj, v, y)
  }

  ghost predicate LowLinked<V(!new)>(adj: Adjacency<V>, s: Tables<V>, y: V)
    requires s.on <= s.index.Keys && s.low.Keys == s.index.Keys && y in s.index
  {
    s.low[y] <= s.index[y] && NamesStacked(adj, s, y, s.low[y])
  }

  /** The low-link of each stacked vertex names one at or below it that it reaches. */
  ghost predicate LowLinks<V(!new)>(adj: Adjacency<V>, s: Tables<V>)
    requires s.on <= s.index.Keys && s.low.Keys == s.index.Keys
  {
    forall y {:trigger LowLinked(adj, s, y)} :: y in s.on ==> LowLinked(adj, s, y)
  }

  /** `found` lists exactly the components of two or more vertices inside `popped`, each once. */
  ghost predicate Reported<V(!new)>(adj: Adjacency<V>, popped: set<V>, found: seq<seq<V>>, leq: (V, V) -> bool) {
    && (forall k :: 0 <= k < |found| ==> IsReport(adj, popped, found[k], leq))
    && (forall j, k :: 0 <= j < k < |found| ==> Elements(found[j]) !! Elements(found[k]))
    && (forall x, y {:trigger Mutual(adj, x, y)} :: x in popped && x != y && Mutual(adj, x, y) ==> Listed(found, x))
  }

  ghost predicate Listed<V>(found: seq<seq<V>>, x: V) {
    exists k :: 0 <= k < |found| && x in found[k]
  }

  ghost predicate IsReport<V(!new)>(adj: Adjacency<V>, popped: set<V>, group: seq<V>, leq: (V, V) -> bool) {
    && |group| > 1
    && Distinct(group)
    && Ascending(group, leq)
    && Elements(group) <= popped
    && IsComponent(adj, Elements(group))
  }

  /** What every step of the walk keeps. */
  ghost predicate Invariant<V(!new)>(adj: Adjacency<V>, s: Tables<V>, gray: set<V>, leq: (V, V) -> bool) {
    && Shape(adj, s, gray)
    && NoBlackToWhite(adj, s, gray)
    && GrayReachesUp(adj, s, gray)
    && StackReachesGray(adj, s, gray)
    && LowLinks(adj, s)
    && Closed(adj, Popped(s))
    && Reported(adj, Popped(s), s.found, leq)
  }

  // ------------------------------------------------- what one walk may change

  /** From `s` to `t`: old entries are untouched, the stack and the report only grow. */
  ghost predicate Extends<V>(s: Tables<V>, t: Tables<V>)
    requires s.low.Keys == s.index.Keys && t.low.Keys == t.index.Keys
  {
    && (forall x :: x in s.index ==> x in t.index && t.index[x] == s.index[x] && t.low[x] == s.low[x])
    && (forall x :: x in t.index && x !in s.index ==> s.counter <= t.index[x])
    && s.stack <= t.stack
    && s.on <= t.on
    && (forall x :: x in t.on && x in s.index ==> x in s.on)
    && s.counter <= t.counter
    && s.found <= t.found
  }

  /** Edges from what was newly stacked down into the old stack are bounded by `bound`. */
  ghost predicate EdgesBounded<V>(adj: Adjacency<V>, s: Tables<V>, t: Tables<V>, bound: nat)
    requires s.on <= s.index.Keys
  {
    forall x, y {:trigger Succ(adj, x), y in s.on} ::
      x in t.on && x !in s.on && y in Succ(adj, x) && y in s.on ==> bound <= s.index[y]
  }

  /** What a finished `walk(v)` says about its vertex. */
  ghost predicate Walked<V(!new)>(adj: Adjacency<V>, s: Tables<V>, t: Tables<V>, v: V)
    requires s.on <= s.index.Keys && t.on <= t.index.Keys
    requires t.low.Keys == t.index.Keys
  {
    && v in t.index
    && t.index[v] == s.counter
    && t.low[v] <= t.index[v]
    && (v in t.on ==> t.low[v] < t.index[v] && NamesStacked(adj, t, v, t.low[v]))
    && (v !in t.on ==> t.low[v] == t.index[v])
    && EdgesBounded(adj, s, t, t.low[v])
  }

  // -------------------------------------------------------------- inside walk

  /** Between two successors of `v`; `done` are those already looked at. */
  ghost predicate Scanning<V(!new)>(adj: Adjacency<V>, s: Tables<V>, t: Tables<V>, v: V, done: set<V>)
    requires s.low.Keys == s.index.Keys && s.on <= s.index.Keys
    requires t.low.Keys == t.index.Keys && t.on <= t.index.Keys
  {
    && Extends(s, t)
    && v !in s.index && v in t.index
    && t.index[v] == s.counter
    && s.stack + [v] <= t.stack
    && done <= t.index.Keys
    && t.low[v] <= t.index[v]
    && NamesStacked(adj, t, v, t.low[v])
    && ScanBounded(adj, s, t, v, done, t.low[v])
  }

  /** No edge looked at so far leads into the old stack below `bound`. */
  ghost predicate ScanBounded<V(!new)>(adj: Adjacency<V>, s: Tables<V>, t: Tables<V>, v: V, done: set<V>, bound: nat)
    requires s.on <= s.index.Keys
  {
    && (forall x, y {:trigger Succ(adj, x), y in s.on} ::
          x in t.on && x !in s.on && x != v && y in Succ(adj, x) && y in s.on ==> bound <= s.index[y])
    && (forall y :: y in done && y in s.on ==> bound <= s.index[y])
  }

  /** The tables after `walk` has numbered and stacked `v`. */
  function Open<V>(s: Tables<V>, v: V): (t: Tables<V>) {
    Tables(s.index[v := s.counter], s.low[v := s.counter], s.stack + [v], s.on + {v}, s.counter + 1, s.found)
  }

  lemma OpenShape<V(!new)>(adj: Adjacency<V>, s: Tables<V>, v: V, gray: set<V>)
    requires Shape(adj, s, gray) && v !in s.index && v in Vertices(adj)
    ensures Shape(adj, Open(s, v), gray + {v})
    ensures Extends(s, Open(s, v))
    ensures Popped(Open(s, v)) == Popped(s)
  {
  }

  lemma OpenReach<V(!new)>(adj: Adjacency<V>, s: Tables<V>, v: V, gray: set<V>)
    requires gray <= s.on <= s.index.Keys && v !in s.index
    requires forall x :: x in s.index ==> s.index[x] < s.counter
    requires GrayReachesUp(adj, s, gray) && StackReachesGray(adj, s, gray)
    requires forall g {:trigger Reach(adj, g, v)} :: g in gray ==> Reach(adj, g, v)
    ensures GrayReachesUp(adj, Open(s, v), gray + {v})
    ensures StackReachesGray(adj, Open(s, v), gray + {v})
  {
    var t := Open(s, v);
    ReachRefl(adj, v);
    forall y | y in t.on ensures HasAnchor(adj, t, gray + {v}, y) {
      if y != v {
        assert HasAnchor(adj, s, gray, y);
        var g :| g in gray && s.index[g] <= s.index[y] && Reach(adj, y, g);
        assert g in gray + {v} && t.index[g] <= t.index[y] && Reach(adj, y, g);
      } else {
        assert v in gray + {v} && t.index[v] <= t.index[v] && Reach(adj, v, v);
      }
    }
  }

  lemma OpenLowLinks<V(!new)>(adj: Adjacency<V>, s: Tables<V>, v: V)
    requires s.on <= s.index.Keys && s.low.Keys == s.index.Keys && v !in s.index && LowLinks(adj, s)
    ensures LowLinks(adj, Open(s, v))
  {
    var t := Open(s, v);
    ReachRefl(adj, v);
    forall y | y in t.on ensures LowLinked(adj, t, y) {
      if y != v {
        assert LowLinked(adj, s, y);
        var z :| z in s.on && s.index[z] == s.low[y] && Reach(adj, y, z);
        assert z in t.on && t.index[z] == t.low[y] && Reach(adj, y, z);
      } else {
        assert v in t.on && t.index[v] == t.low[v] && Reach(adj, v, v);
      }
    }
  }

  lemma OpenScanning<V(!new)>(adj: Adjacency<V>, s: Tables<V>, v: V, gray: set<V>, leq: (V, V) -> bool)
    requires Invariant(adj, s, gray, leq)
    requires v !in s.index && v in Vertices(adj)
    requires forall g {:trigger Reach(adj, g, v)} :: g in gray ==> Reach(adj, g, v)
    ensures Invariant(adj, Open(s, v), gray + {v}, leq)
    ensures Scanning(adj, s, Open(s, v), v, {})
  {
    var t := Open(s, v);
    OpenShape(adj, s, v, gray);
    OpenReach(adj, s, v, gray);
    OpenLowLinks(adj, s, v);
    ReachRefl(adj, v);
    assert NamesStacked(adj, t, v, t.low[v]);
  }

  // ------------------------------------------------------- one successor done

  function Min(a: nat, b: nat): nat {
    if a <= b then a else b
  }

  function Lower<V>(t: Tables<V>, v: V, bound: nat): Tables<V>
    requires v in t.low
  {
    t.(low := t.low[v := Min(t.low[v], bound)])
  }

  lemma ExtendsTrans<V>(s: Tables<V>, t: Tables<V>, u: Tables<V>)
    requires s.low.Keys == s.index.Keys && t.low.Keys == t.index.Keys && u.low.Keys == u.index.Keys
    requires Extends(s, t) && Extends(t, u)
    ensures Extends(s, u)
  {
  }

  lemma LowerLowLinks<V(!new)>(adj: Adjacency<V>, t: Tables<V>, v: V, bound: nat)
    requires t.on <= t.index.Keys && t.low.Keys == t.index.Keys && LowLinks(adj, t) && v in t.on
    requires NamesStacked(adj, t, v, Min(t.low[v], bound))
    ensures LowLinks(adj, Lower(t, v, bound))
  {
    var u := Lower(t, v, bound);
    assert LowLinked(adj, t, v);
    forall y | y in u.on ensures LowLinked(adj, u, y) {
      assert LowLinked(adj, t, y);
      var z :| z in t.on && t.index[z] == u.low[y] && Reach(adj, y, z);
      assert z in u.on && u.index[z] == u.low[y] && Reach(adj, y, z);
    }
  }

  lemma LowerShape<V(!new)>(adj: Adjacency<V>, t: Tables<V>, v: V, bound: nat, gray: set<V>)
    requires Shape(adj, t, gray) && v in t.index
    ensures Shape(adj, Lower(t, v, bound), gray)
  {
    assert Lower(t, v, bound).low.Keys == t.low.Keys;
  }

  lemma LowerAnchors<V(!new)>(adj: Adjacency<V>, t: Tables<V>, v: V, bound: nat, gray: set<V>)
    requires gray <= t.on <= t.index.Keys && v in t.low && StackReachesGray(adj, t, gray)
    ensures StackReachesGray(adj, Lower(t, v, bound), gray)
  {
    var u := Lower(t, v, bound);
    forall y | y in u.on ensures HasAnchor(adj, u, gray, y) {
      assert HasAnchor(adj, t, gray, y);
    }
  }

  /** Lowering the low-link of a stacked vertex to the index of another it reaches disturbs nothing else. */
  lemma LowerKeeps<V(!new)>(adj: Adjacency<V>, t: Tables<V>, v: V, bound: nat, gray: set<V>, leq: (V, V) -> bool)
    requires Invariant(adj, t, gray, leq) && v in t.on
    requires NamesStacked(adj, t, v, Min(t.low[v], bound))
    ensures Invariant(adj, Lower(t, v, bound), gray, leq)
  {
    LowerShape(adj, t, v, bound, gray);
    LowerAnchors(adj, t, v, bound, gray);
    LowerLowLinks(adj, t, v, bound);
    assert Popped(Lower(t, v, bound)) == Popped(t);
  }

  lemma LowerExtends<V>(s: Tables<V>, t: Tables<V>, v: V, bound: nat)
    requires s.low.Keys == s.index.Keys && t.low.Keys == t.index.Keys
    requires Extends(s, t) && v in t.index && v !in s.index
    ensures Extends(s, Lower(t, v, bound))
  {
  }

  lemma BoundsAfterWalk<V(!new)>(adj: Adjacency<V>, s: Tables<V>, t: Tables<V>, u: Tables<V>, v: V, w: V, done: set<V>)
    requires s.low.Keys == s.index.Keys && t.low.Keys == t.index.Keys && u.low.Keys == u.index.Keys
    requires s.on <= s.index.Keys && t.on <= t.index.Keys && u.on <= u.index.Keys
    requires Extends(s, t) && v in t.index && w !in t.index && w in u.index
    requires ScanBounded(adj, s, t, v, done, t.low[v]) && EdgesBounded(adj, t, u, u.low[w])
    ensures ScanBounded(adj, s, u, v, done + {w}, Min(t.low[v], u.low[w]))
  {
    forall x, y | x in u.on && x !in s.on && x != v && y in Succ(adj, x) && y in s.on
      ensures Min(t.low[v], u.low[w]) <= s.index[y]
    {
      if x !in t.on {
        assert y in t.on;
      }
    }
  }

  lemma LowLinkAfterWalk<V(!new)>(adj: Adjacency<V>, t: Tables<V>, u: Tables<V>, v: V, w: V)
    requires t.low.Keys == t.index.Keys && u.low.Keys == u.index.Keys
    requires t.on <= t.index.Keys && u.on <= u.index.Keys
    requires forall x :: x in t.index ==> t.index[x] < t.counter
    requires Extends(t, u) && Walked(adj, t, u, w)
    requires w in Succ(adj, v) && v in t.index && t.low[v] <= t.index[v]
    requires NamesStacked(adj, t, v, t.low[v])
    ensures NamesStacked(adj, u, v, Min(u.low[v], u.low[w]))
  {
    if u.low[w] < u.low[v] {
      assert w in u.on;
      var y :| y in u.on && u.index[y] == u.low[w] && Reach(adj, w, y);
      ReachEdge(adj, v, w);
      ReachTrans(adj, v, w, y);
    } else {
      var y :| y in t.on && t.index[y] == t.low[v] && Reach(adj, v, y);
      assert y in u.on && u.index[y] == u.low[v];
    }
  }

  lemma ScannedWalk<V(!new)>(adj: Adjacency<V>, s: Tables<V>, t: Tables<V>, u: Tables<V>, v: V, w: V, done: set<V>)
    requires s.low.Keys == s.index.Keys && t.low.Keys == t.index.Keys && u.low.Keys == u.index.Keys
    requires s.on <= s.index.Keys && t.on <= t.index.Keys && u.on <= u.index.Keys
    requires forall x :: x in t.index ==> t.index[x] < t.counter
    requires Scanning(adj, s, t, v, done)
    requires w in Succ(adj, v) && w !in t.index
    requires Extends(t, u) && Walked(adj, t, u, w)
    ensures Scanning(adj, s, Lower(u, v, u.low[w]), v, done + {w})
  {
    ExtendsTrans(s, t, u);
    LowerExtends(s, u, v, u.low[w]);
    BoundsAfterWalk(adj, s, t, u, v, w, done);
    LowLinkAfterWalk(adj, t, u, v, w);
  }

  lemma LowLinkToStacked<V(!new)>(adj: Adjacency<V>, t: Tables<V>, v: V, w: V)
    requires t.low.Keys == t.index.Keys && t.on <= t.index.Keys
    requires w in Succ(adj, v) && w in t.on && v in t.index && NamesStacked(adj, t, v, t.low[v])
    ensures NamesStacked(adj, t, v, Min(t.low[v], t.index[w]))
  {
    ReachEdge(adj, v, w);
  }

  /** Low-links are no part of what a vertex on the stack is. */
  lemma NamesAlike<V(!new)>(adj: Adjacency<V>, t: Tables<V>, v: V, bound: nat)
    requires t.on <= t.index.Keys && v in t.low && NamesStacked(adj, t, v, Min(t.low[v], bound))
    ensures NamesStacked(adj, Lower(t, v, bound), v, Min(t.low[v], bound))
  {
    var u := Lower(t, v, bound);
    var y :| y in t.on && t.index[y] == Min(t.low[v], bound) && Reach(adj, v, y);
    assert y in u.on && u.index[y] == Min(t.low[v], bound) && Reach(adj, v, y);
  }

  lemma ScannedOn<V(!new)>(adj: Adjacency<V>, s: Tables<V>, t: Tables<V>, v: V, w: V, done: set<V>)
    requires s.low.Keys == s.index.Keys && t.low.Keys == t.index.Keys
    requires s.on <= s.index.Keys && t.on <= t.index.Keys
    requires Scanning(adj, s, t, v, done)
    requires w in Succ(adj, v) && w in t.on
    ensures Scanning(adj, s, Lower(t, v, t.index[w]), v, done + {w})
  {
    LowerExtends(s, t, v, t.index[w]);
    LowLinkToStacked(adj, t, v, w);
    NamesAlike(adj, t, v, t.index[w]);
  }

  // --------------------------------------------------------------- walk is over

  /** The search stays on the stack: its vertex leans on an older one. */
  lemma KeptAnchors<V(!new)>(adj: Adjacency<V>, t: Tables<V>, v: V, gray: set<V>)
    requires gray + {v} <= t.on <= t.index.Keys
    requires v in t.low && t.low[v] < t.index[v] && NamesStacked(adj, t, v, t.low[v])
    requires StackReachesGray(adj, t, gray + {v})
    ensures StackReachesGray(adj, t, gray)
  {
    var z :| z in t.on && t.index[z] == t.low[v] && Reach(adj, v, z);
    assert HasAnchor(adj, t, gray + {v}, z);
    var h :| h in gray + {v} && t.index[h] <= t.index[z] && Reach(adj, z, h);
    assert h in gray;
    ReachTrans(adj, v, z, h);
    forall y | y in t.on ensures HasAnchor(adj, t, gray, y) {
      assert HasAnchor(adj, t, gray + {v}, y);
      var g :| g in gray + {v} && t.index[g] <= t.index[y] && Reach(adj, y, g);
      if g == v {
        ReachTrans(adj, y, v, h);
        assert h in gray && t.index[h] <= t.index[y] && Reach(adj, y, h);
      }
    }
  }

  lemma Kept<V(!new)>(adj: Adjacency<V>, s: Tables<V>, t: Tables<V>, v: V, gray: set<V>, leq: (V, V) -> bool)
    requires s.low.Keys == s.index.Keys && s.on <= s.index.Keys
    requires Invariant(adj, t, gray + {v}, leq)
    requires Scanning(adj, s, t, v, Succ(adj, v))
    requires t.low[v] < t.index[v]
    ensures Invariant(adj, t, gray, leq)
    ensures Walked(adj, s, t, v)
  {
    KeptAnchors(adj, t, v, gray);
  }

  /** The tables after the pop loop has taken `v` and everything above it. */
  function Popping<V>(s: Tables<V>, t: Tables<V>, found: seq<seq<V>>): Tables<V> {
    t.(stack := s.stack, on := s.on, found := found)
  }

  lemma GroupClosed<V(!new)>(adj: Adjacency<V>, s: Tables<V>, t: Tables<V>, v: V, gray: set<V>, leq: (V, V) -> bool)
    requires Invariant(adj, s, gray, leq)
    requires Invariant(adj, t, gray + {v}, leq) && Scanning(adj, s, t, v, Succ(adj, v))
    requires t.low[v] == t.index[v]
    ensures Closed(adj, Popped(t) + (t.on - s.on))
  {
    var q := Popped(t) + (t.on - s.on);
    forall x, y | x in q && y in Succ(adj, x) ensures y in q {
      if x in t.on - s.on {
        assert y in t.index;
        assert y !in s.on;
      }
    }
  }

  lemma GroupReach<V(!new)>(adj: Adjacency<V>, s: Tables<V>, t: Tables<V>, v: V, gray: set<V>, x: V,
                            leq: (V, V) -> bool)
    requires Invariant(adj, s, gray, leq)
    requires Invariant(adj, t, gray + {v}, leq) && Scanning(adj, s, t, v, Succ(adj, v))
    requires Closed(adj, Popped(t) + (t.on - s.on))
    requires x in t.on - s.on
    ensures Mutual(adj, v, x)
  {
    assert Reach(adj, v, x);
    assert HasAnchor(adj, t, gray + {v}, x);
    var g :| g in gray + {v} && t.index[g] <= t.index[x] && Reach(adj, x, g);
    ClosedReach(adj, Popped(t) + (t.on - s.on), x, g);
    assert g == v;
  }

  lemma GroupIsComponent<V(!new)>(adj: Adjacency<V>, s: Tables<V>, t: Tables<V>, v: V, gray: set<V>,
                                  leq: (V, V) -> bool)
    requires Invariant(adj, s, gray, leq)
    requires Invariant(adj, t, gray + {v}, leq) && Scanning(adj, s, t, v, Succ(adj, v))
    requires t.low[v] == t.index[v]
    ensures IsComponent(adj, t.on - s.on)
  {
    var c := t.on - s.on;
    GroupClosed(adj, s, t, v, gray, leq);
    assert v in c;
    forall x, y | x in c && y in c ensures Reach(adj, x, y) {
      GroupReach(adj, s, t, v, gray, x, leq);
      GroupReach(adj, s, t, v, gray, y, leq);
      ReachTrans(adj, x, v, y);
    }
    forall x, y | x in c && Mutual(adj, x, y) ensures y in c {
      ClosedReach(adj, Popped(t) + c, x, y);
      if y in Popped(t) {
        ClosedReach(adj, Popped(t), y, x);
      }
    }
  }

  /** What `walk` adds to `found`: the group in name order, unless it is a single vertex. */
  function Report<V>(found: seq<seq<V>>, group: seq<V>, leq: (V, V) -> bool): seq<seq<V>> {
    if |group| > 1 then found + [Sorted(group, leq)] else found
  }

  lemma ReportedGrows<V(!new)>(adj: Adjacency<V>, popped: set<V>, c: set<V>, found: seq<seq<V>>, group: seq<V>,
                               leq: (V, V) -> bool)
    requires TotalOrder(leq) && Reported(adj, popped, found, leq)
    requires IsComponent(adj, c) && popped !! c
    requires Distinct(group) && Elements(group) == c
    ensures Reported(adj, popped + c, Report(found, group, leq), leq)
  {
    var found' := Report(found, group, leq);
    SortedIsSorted(group, leq);
    forall k | 0 <= k < |found'| ensures IsReport(adj, popped + c, found'[k], leq) {
      if k < |found| {
        assert IsReport(adj, popped, found[k], leq);
      }
    }
    forall j, k | 0 <= j < k < |found'| ensures Elements(found'[j]) !! Elements(found'[k]) {
      assert IsReport(adj, popped, found[j], leq);
    }
    forall x, y | x in popped + c && x != y && Mutual(adj, x, y) ensures Listed(found', x) {
      if x in popped {
        var k :| 0 <= k < |found| && x in found[k];
        assert x in found'[k];
      } else {
        LongerThanOne(group, x, y);
        assert x in Elements(Sorted(group, leq));
        assert x in found'[|found|];
      }
    }
  }

  lemma LongerThanOne<V>(group: seq<V>, x: V, y: V)
    requires x in Elements(group) && y in Elements(group) && x != y
    ensures |group| > 1
  {
  }

  lemma PoppingShape<V(!new)>(adj: Adjacency<V>, s: Tables<V>, t: Tables<V>, v: V, gray: set<V>, found: seq<seq<V>>)
    requires Shape(adj, s, gray) && Shape(adj, t, gray + {v})
    requires Extends(s, t) && t.found <= found
    ensures Shape(adj, Popping(s, t, found), gray)
    ensures Extends(s, Popping(s, t, found))
    ensures Popped(Popping(s, t, found)) == Popped(t) + (t.on - s.on)
  {
  }

  lemma PoppingAnchors<V(!new)>(adj: Adjacency<V>, s: Tables<V>, t: Tables<V>, v: V, gray: set<V>, found: seq<seq<V>>)
    requires gray <= s.on <= s.index.Keys && gray + {v} <= t.on <= t.index.Keys
    requires forall x :: x in s.index ==> s.index[x] < s.counter
    requires s.low.Keys == s.index.Keys && t.low.Keys == t.index.Keys
    requires Extends(s, t) && t.index[v] == s.counter
    requires GrayReachesUp(adj, t, gray + {v}) && StackReachesGray(adj, t, gray + {v})
    ensures GrayReachesUp(adj, Popping(s, t, found), gray)
    ensures StackReachesGray(adj, Popping(s, t, found), gray)
  {
    var u := Popping(s, t, found);
    forall y | y in u.on ensures HasAnchor(adj, u, gray, y) {
      assert HasAnchor(adj, t, gray + {v}, y);
      var g :| g in gray + {v} && t.index[g] <= t.index[y] && Reach(adj, y, g);
      assert g in gray && u.index[g] <= u.index[y] && Reach(adj, y, g);
    }
  }

  /** What a stacked vertex leans on is no higher than itself, so a pop above it does not take it away. */
  lemma PoppingLowLinks<V(!new)>(adj: Adjacency<V>, s: Tables<V>, t: Tables<V>, found: seq<seq<V>>)
    requires s.on <= s.index.Keys && t.on <= t.index.Keys
    requires forall x :: x in s.index ==> s.index[x] < s.counter
    requires s.low.Keys == s.index.Keys && t.low.Keys == t.index.Keys
    requires Extends(s, t) && LowLinks(adj, t)
    ensures LowLinks(adj, Popping(s, t, found))
  {
    var u := Popping(s, t, found);
    forall y | y in u.on ensures LowLinked(adj, u, y) {
      assert LowLinked(adj, t, y);
      var z :| z in t.on && t.index[z] == t.low[y] && Reach(adj, y, z);
      assert z in u.on && u.index[z] == u.low[y] && Reach(adj, y, z);
    }
  }

  /** `v` leans on nothing older: what lies above it is one whole component, and leaves the stack. */
  lemma GroupPopped<V(!new)>(adj: Adjacency<V>, s: Tables<V>, t: Tables<V>, v: V, group: seq<V>, gray: set<V>,
                             leq: (V, V) -> bool)
    requires TotalOrder(leq) && Invariant(adj, s, gray, leq)
    requires Invariant(adj, t, gray + {v}, leq) && Scanning(adj, s, t, v, Succ(adj, v))
    requires t.low[v] == t.index[v]
    requires Distinct(group) && Elements(group) == t.on - s.on
    ensures Invariant(adj, Popping(s, t, Report(t.found, group, leq)), gray, leq)
    ensures Extends(s, Popping(s, t, Report(t.found, group, leq)))
    ensures Walked(adj, s, Popping(s, t, Report(t.found, group, leq)), v)
  {
    var found := Report(t.found, group, leq);
    GroupClosed(adj, s, t, v, gray, leq);
    GroupIsComponent(adj, s, t, v, gray, leq);
    ReportedGrows(adj, Popped(t), t.on - s.on, t.found, group, leq);
    PoppingShape(adj, s, t, v, gray, found);
    PoppingAnchors(adj, s, t, v, gray, found);
    PoppingLowLinks(adj, s, t, found);
  }

  // -------------------------------------------------------------------- code

  class Search<V(!new, ==)> {
    const adj: Adjacency<V>
    const leq: (V, V) -> bool
    var index: map<V, nat>
    var low: map<V, nat>
    var stack: seq<V>
    var on: set<V>
    var counter: nat
    var found: seq<seq<V>>

    constructor (adj: Adjacency<V>, leq: (V, V) -> bool)
      ensures this.adj == adj && this.leq == leq
      ensures View() == Tables(map[], map[], [], {}, 0, [])
    {
      this.adj, this.leq := adj, leq;
      index, low, stack, on, counter, found := map[], map[], [], {}, 0, [];
    }

    ghost function View(): Tables<V>
      reads this
    {
      Tables(index, low, stack, on, counter, found)
    }

    /** The pop loop: takes `v` and everything above it off the stack. */
    method PopGroup(v: V, ghost below: seq<V>) returns (group: seq<V>)
      requires Distinct(stack) && below + [v] <= stack
      requires forall x :: x in on <==> x in stack
      modifies this`stack, this`on
      ensures stack == below
      ensures on == Elements(below)
      ensures Distinct(group)
      ensures Elements(group) == old(on) - on
    {
      group := [];
      ghost var all := stack;
      assert all[|below|] == v;
      while true
        invariant |below| < |stack| <= |all|
        invariant stack == all[..|stack|]
        invariant on == Elements(stack)
        invariant Distinct(group)
        invariant on !! Elements(group)
        invariant on + Elements(group) == Elements(all)
        decreases |stack|
      {
        var w := stack[|stack| - 1];
        assert w == all[|stack| - 1] && w !in Elements(group);
        stack := stack[..|stack| - 1];
        on := on - {w};
        group := group + [w];
        if w == v {
          break;
        }
      }
      assert stack == below;
    }

    /** The start of `walk`: `v` takes the next number and goes on the stack. */
    method Enter(v: V)
      modifies this
      ensures View() == Open(old(View()), v)
    {
      index, low := index[v := counter], low[v := counter];
      counter := counter + 1;
      stack := stack + [v];
      on := on + {v};
    }

    /** `walk(v)`: numbers everything reachable from `v` that has no number yet, and reports what closes. */
    method Walk(v: V, ghost gray: set<V>)
      requires TotalOrder(leq)
      requires Invariant(adj, View(), gray, leq)
      requires v !in index && v in Vertices(adj)
      requires forall g {:trigger Reach(adj, g, v)} :: g in gray ==> Reach(adj, g, v)
      modifies this
      ensures Invariant(adj, View(), gray, leq)
      ensures Extends(old(View()), View())
      ensures Walked(adj, old(View()), View(), v)
      decreases Vertices(adj) - index.Keys, 0
    {
      ghost var s := View();
      Enter(v);
      OpenScanning(adj, s, v, gray, leq);

      var todo := Succ(adj, v);
      ghost var done := {};
      while todo != {}
        invariant done + todo == Succ(adj, v)
        invariant Invariant(adj, View(), gray + {v}, leq)
        invariant Scanning(adj, s, View(), v, done)
        decreases todo
      {
        var w :| w in todo;
        todo := todo - {w};
        Visit(v, w, s, done, gray);
        done := done + {w};
      }
      assert done == Succ(adj, v);
      Close(v, s, gray);
    }

    /** One successor of `v`. */
    method Visit(v: V, w: V, ghost s: Tables<V>, ghost done: set<V>, ghost gray: set<V>)
      requires TotalOrder(leq)
      requires Invariant(adj, s, gray, leq)
      requires Invariant(adj, View(), gray + {v}, leq)
      requires Scanning(adj, s, View(), v, done) && w in Succ(adj, v)
      modifies this
      ensures Invariant(adj, View(), gray + {v}, leq)
      ensures Scanning(adj, s, View(), v, done + {w})
      decreases Vertices(adj) - index.Keys, 1
    {
      ghost var t := View();
      if w !in index {
        WalkReaches(adj, s, t, v, w, gray);
        Walk(w, gray + {v});
        ghost var u := View();
        low := low[v := Min(low[v], low[w])];
        assert View() == Lower(u, v, u.low[w]);
        ScannedWalk(adj, s, t, u, v, w, done);
        LowLinkAfterWalk(adj, t, u, v, w);
        LowerKeeps(adj, u, v, u.low[w], gray + {v}, leq);
      } else if w in on {
        low := low[v := Min(low[v], index[w])];
        assert View() == Lower(t, v, t.index[w]);
        ScannedOn(adj, s, t, v, w, done);
        LowLinkToStacked(adj, t, v, w);
        LowerKeeps(adj, t, v, t.index[w], gray + {v}, leq);
      }
    }

    /** The end of `walk`: the group of `v` leaves the stack when nothing older is reached from it. */
    method Close(v: V, ghost s: Tables<V>, ghost gray: set<V>)
      requires TotalOrder(leq)
      requires Invariant(adj, s, gray, leq)
      requires Invariant(adj, View(), gray + {v}, leq)
      requires Scanning(adj, s, View(), v, Succ(adj, v))
      modifies this
      ensures Invariant(adj, View(), gray, leq)
      ensures Extends(s, View())
      ensures Walked(adj, s, View(), v)
    {
      ghost var t := View();
      if low[v] == index[v] {
        DistinctStack(adj, t, gray + {v});
        var group := PopGroup(v, s.stack);
        assert on == s.on;
        if |group| > 1 {
          found := found + [Sorted(group, leq)];
        }
        assert View() == Popping(s, t, Report(t.found, group, leq));
        GroupPopped(adj, s, t, v, group, gray, leq);
      } else {
        Kept(adj, s, t, v, gray, leq);
      }
    }
  }

  lemma DistinctStack<V(!new)>(adj: Adjacency<V>, t: Tables<V>, gray: set<V>)
    requires Shape(adj, t, gray)
    ensures Distinct(t.stack)
  {
    forall i, j | 0 <= i < j < |t.stack| ensures t.stack[i] != t.stack[j] {
      assert t.index[t.stack[i]] < t.index[t.stack[j]];
    }
  }

  lemma WalkReaches<V(!new)>(adj: Adjacency<V>, s: Tables<V>, t: Tables<V>, v: V, w: V, gray: set<V>)
    requires gray + {v} <= t.on <= t.index.Keys
    requires GrayReachesUp(adj, t, gray + {v})
    requires gray <= s.on <= s.index.Keys && s.low.Keys == s.index.Keys && t.low.Keys == t.index.Keys
    requires forall x :: x in s.index ==> s.index[x] < s.counter
    requires Extends(s, t) && t.index[v] == s.counter
    requires w in Succ(adj, v)
    ensures w in Vertices(adj)
    ensures forall g {:trigger Reach(adj, g, w)} :: g in gray + {v} ==> Reach(adj, g, w)
  {
    ReachEdge(adj, v, w);
    forall g | g in gray + {v} ensures Reach(adj, g, w) {
      ReachTrans(adj, g, v, w);
    }
  }

  // ----------------------------------------------------------------- results

  /** At any moment of the search, each stacked vertex reaches every one above it. */
  lemma StackReachesAbove<V(!new)>(adj: Adjacency<V>, s: Tables<V>, gray: set<V>, i: nat, j: nat, leq: (V, V) -> bool)
    requires Invariant(adj, s, gray, leq) && i <= j < |s.stack|
    ensures Reach(adj, s.stack[i], s.stack[j])
  {
    var x, y := s.stack[i], s.stack[j];
    assert s.index[x] <= s.index[y];
    assert HasAnchor(adj, s, gray, x);
    var g :| g in gray && s.index[g] <= s.index[x] && Reach(adj, x, g);
    assert Reach(adj, g, y);
    ReachTrans(adj, x, g, y);
  }

  /** With no walk running, the stack is empty and everything numbered has been reported on. */
  lemma Settled<V(!new)>(adj: Adjacency<V>, s: Tables<V>, leq: (V, V) -> bool)
    requires Invariant(adj, s, {}, leq)
    ensures s.on == {} && Popped(s) == s.index.Keys
  {
    forall y | y in s.index ensures y !in s.on {
      assert !HasAnchor(adj, s, {}, y);
    }
  }

  lemma Numbered<V(!new)>(adj: Adjacency<V>, s: Tables<V>, leq: (V, V) -> bool)
    requires Invariant(adj, s, {}, leq)
    requires adj.Keys <= s.index.Keys
    ensures Popped(s) == Vertices(adj)
  {
    Settled(adj, s, leq);
    forall v | v in Vertices(adj) ensures v in s.index {
      if v !in adj {
        var k :| k in adj && v in adj[k];
        assert v in Succ(adj, k);
      }
    }
  }

  ghost predicate Plural<V>(s: set<V>) {
    exists x, y :: x in s && y in s && x != y
  }

  /** Two distinct vertices that reach each other are both in the graph. */
  lemma MutualInside<V(!new)>(adj: Adjacency<V>, x: V, y: V)
    requires Mutual(adj, x, y) && x != y
    ensures x in Vertices(adj)
  {
    var w := ReachUnroll(adj, x, y);
  }

  lemma ComponentsMeet<V(!new)>(adj: Adjacency<V>, a: set<V>, b: set<V>, x: V)
    requires IsComponent(adj, a) && IsComponent(adj, b) && x in a && x in b
    ensures a <= b
  {
    forall y | y in a ensures y in b {
      assert Reach(adj, x, y) && Reach(adj, y, x);
      assert Mutual(adj, x, y);
    }
  }

  lemma EveryComponentListed<V(!new)>(adj: Adjacency<V>, found: seq<seq<V>>, c: set<V>, leq: (V, V) -> bool)
    requires Reported(adj, Vertices(adj), found, leq)
    requires IsComponent(adj, c) && Plural(c)
    ensures exists k :: 0 <= k < |found| && Elements(found[k]) == c
  {
    var x, y :| x in c && y in c && x != y;
    assert Reach(adj, x, y) && Reach(adj, y, x);
    assert Mutual(adj, x, y);
    MutualInside(adj, x, y);
    assert Listed(found, x);
    var k :| 0 <= k < |found| && x in found[k];
    assert IsReport(adj, Vertices(adj), found[k], leq);
    assert x in Elements(found[k]);
    ComponentsMeet(adj, c, Elements(found[k]), x);
    ComponentsMeet(adj, Elements(found[k]), c, x);
  }

  /** The report is empty exactly when no two distinct vertices reach each other. */
  lemma EmptyReport<V(!new)>(adj: Adjacency<V>, found: seq<seq<V>>, leq: (V, V) -> bool)
    requires Reported(adj, Vertices(adj), found, leq)
    ensures found == [] <==> forall x, y :: x != y ==> !Mutual(adj, x, y)
  {
    forall x, y | x != y && Mutual(adj, x, y) ensures found != [] {
      MutualInside(adj, x, y);
      assert Listed(found, x);
    }
    if found != [] {
      assert IsReport(adj, Vertices(adj), found[0], leq);
      var x, y := found[0][0], found[0][1];
      assert x in Elements(found[0]) && y in Elements(found[0]);
      assert Reach(adj, x, y) && Reach(adj, y, x);
      assert Mutual(adj, x, y);
    }
  }

  /**
   `cycles`: the strongly connected components of two or more vertices, each
   once, each in name order.  Names are taken in no particular order.
   */
  method Cycles<V(!new, ==)>(adj: Adjacency<V>, leq: (V, V) -> bool) returns (found: seq<seq<V>>)
    requires TotalOrder(leq)
    ensures forall k :: 0 <= k < |found| ==>
              |found[k]| > 1 && Distinct(found[k]) && Ascending(found[k], leq) && IsComponent(adj, Elements(found[k]))
    ensures forall j, k :: 0 <= j < k < |found| ==> Elements(found[j]) !! Elements(found[k])
    ensures forall c :: IsComponent(adj, c) && Plural(c) ==> exists k :: 0 <= k < |found| && Elements(found[k]) == c
    ensures found == [] <==> forall x, y :: x != y ==> !Mutual(adj, x, y)
  {
    var search := new Search(adj, leq);
    var todo := adj.Keys;
    while todo != {}
      invariant search.adj == adj && search.leq == leq
      invariant Invariant(adj, search.View(), {}, leq)
      invariant adj.Keys - todo <= search.index.Keys
      decreases todo
    {
      var v :| v in todo;
      todo := todo - {v};
      if v !in search.index {
        search.Walk(v, {});
      }
    }
    Numbered(adj, search.View(), leq);
    found := search.found;
    FoundIsExact(adj, found, leq);
  }

  lemma FoundIsExact<V(!new)>(adj: Adjacency<V>, found: seq<seq<V>>, leq: (V, V) -> bool)
    requires Reported(adj, Vertices(adj), found, leq)
    ensures forall k :: 0 <= k < |found| ==>
              |found[k]| > 1 && Distinct(found[k]) && Ascending(found[k], leq) && IsComponent(adj, Elements(found[k]))
    ensures forall c :: IsComponent(adj, c) && Plural(c) ==> exists k :: 0 <= k < |found| && Elements(found[k]) == c
    ensures found == [] <==> forall x, y :: x != y ==> !Mutual(adj, x, y)
  {
    forall k | 0 <= k < |found|
      ensures |found[k]| > 1 && Distinct(found[k]) && Ascending(found[k], leq) && IsComponent(adj, Elements(found[k]))
    {
      assert IsReport(adj, Vertices(adj), found[k], leq);
    }
    forall c | IsComponent(adj, c) && Plural(c) ensures exists k :: 0 <= k < |found| && Elements(found[k]) == c {
      EveryComponentListed(adj, found, c, leq);
    }
    EmptyReport(adj, found, leq);
  }

  // ----------------------------------------------------------------- verdict

  /** A path of at least one edge back to where it started. */
  ghost predicate HasCycle<V(!new)>(adj: Adjacency<V>) {
    exists p, x {:trigger Joins(adj, p, x, x)} :: Joins(adj, p, x, x) && |p| > 1
  }

  ghost predicate Loopless<V(!new)>(adj: Adjacency<V>) {
    forall x :: x !in Succ(adj, x)
  }

  /** Where no module names itself, a cycle is two distinct modules that reach each other. */
  lemma CycleIsMutual<V(!new)>(adj: Adjacency<V>)
    requires Loopless(adj)
    ensures HasCycle(adj) <==> exists x, y :: x != y && Mutual(adj, x, y)
  {
    if HasCycle(adj) {
      var p, x {:trigger Joins(adj, p, x, x)} :| Joins(adj, p, x, x) && |p| > 1;
      var w := p[1];
      assert Joins(adj, [x, w], x, w);
      assert Joins(adj, p[1..], w, x);
      assert x != w && Mutual(adj, x, w);
    }
    if exists x, y :: x != y && Mutual(adj, x, y) {
      var x, y :| x != y && Mutual(adj, x, y);
      var w := ReachUnroll(adj, x, y);
      ReachTrans(adj, w, y, x);
      var q :| Joins(adj, q, w, x);
      assert Joins(adj, [x] + q, x, x);
    }
  }

  /** Each module of a reported group names another of the same group, so the listing under it is never blank. */
  lemma MemberNamesMember<V(!new)>(adj: Adjacency<V>, group: seq<V>, a: V)
    requires IsComponent(adj, Elements(group)) && |group| > 1 && Distinct(group) && a in group
    ensures Succ(adj, a) * Elements(group) != {}
  {
    var c := if group[0] == a then group[1] else group[0];
    assert a in Elements(group) && c in Elements(group);
    assert Reach(adj, a, c) && Reach(adj, c, a);
    var w := ReachUnroll(adj, a, c);
    ReachTrans(adj, w, c, a);
    ReachEdge(adj, a, w);
    assert Mutual(adj, a, w);
    assert w in Succ(adj, a) * Elements(group);
  }

  /** The exit code of the gate: zero exactly when no two modules reach each other. */
  method Verdict(adj: Adjacency<string>) returns (code: int)
    ensures code == 0 || code == 1
    ensures code == 0 <==> forall x, y :: x != y ==> !Mutual(adj, x, y)
    ensures Loopless(adj) ==> (code == 0 <==> !HasCycle(adj))
  {
    LexIsTotalOrder();
    var found := Cycles(adj, LexLeq);
    if Loopless(adj) {
      CycleIsMutual(adj);
    }
    code := if found != [] then 1 else 0;
  }
}
