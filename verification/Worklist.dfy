/**
 A worklist taken from its end visits depth first.
 */
module Worklist {
  import opened Ordering

  function Next<V>(g: map<V, seq<V>>, v: V): seq<V> {
    if v in g then g[v] else []
  }

  /** All that `v` leads to, itself aside, past what is seen. */
  ghost function Below<V>(g: map<V, seq<V>>, v: V, seen: set<V>): seq<V>
    requires v !in seen
    decreases g.Keys - seen, 0
  {
    if v in g then DepthFirst(g, g[v], seen + {v}) else []
  }

  /**
   Depth first, last name first: each name not yet seen, then all it leads to,
   then the names before it.
   */
  ghost function DepthFirst<V>(g: map<V, seq<V>>, wanted: seq<V>, seen: set<V>): seq<V>
    decreases g.Keys - seen, 1 + |wanted|
  {
    if wanted == [] then []
    else
      var v, front := wanted[|wanted| - 1], wanted[..|wanted| - 1];
      if v in seen then DepthFirst(g, front, seen)
      else
        var below := Below(g, v, seen);
        [v] + below + DepthFirst(g, front, seen + {v} + Elements(below))
  }

  lemma SeenAfter<V>(seen: set<V>, v: V, below: seq<V>, next: seq<V>)
    ensures seen + {v} + Elements(below) + Elements(next) == seen + Elements([v] + below + next)
  {
  }

  lemma Regroup<V>(v: V, below: seq<V>, next: seq<V>, tail: seq<V>)
    ensures [v] + below + (next + tail) == [v] + below + next + tail
    ensures [v] + (below + next) == [v] + below + next
  {
  }

  lemma Skip<V>(g: map<V, seq<V>>, front: seq<V>, v: V, seen: set<V>)
    requires v in seen
    ensures DepthFirst(g, front + [v], seen) == DepthFirst(g, front, seen)
  {
    var all := front + [v];
    assert all[|all| - 1] == v && all[..|all| - 1] == front;
  }

  lemma Take<V>(g: map<V, seq<V>>, front: seq<V>, v: V, seen: set<V>, below: seq<V>)
    requires v !in seen && below == Below(g, v, seen)
    ensures DepthFirst(g, front + [v], seen) == [v] + below + DepthFirst(g, front, seen + {v} + Elements(below))
  {
    var all := front + [v];
    assert all[|all| - 1] == v && all[..|all| - 1] == front;
  }

  /** What stands later in the list is done first, and is seen when the rest is done. */
  lemma {:induction false} Split<V>(g: map<V, seq<V>>, a: seq<V>, b: seq<V>, seen: set<V>, first: seq<V>)
    requires first == DepthFirst(g, b, seen)
    ensures DepthFirst(g, a + b, seen) == first + DepthFirst(g, a, seen + Elements(first))
    decreases |b|, 0
  {
    if b == [] {
      assert a + b == a && seen + Elements(first) == seen;
    } else {
      var v, front := b[|b| - 1], b[..|b| - 1];
      assert b == front + [v] && a + b == (a + front) + [v];
      if v in seen {
        Skip(g, front, v, seen);
        Skip(g, a + front, v, seen);
        Split(g, a, front, seen, first);
      } else {
        SplitTaken(g, a, front, v, seen, first);
      }
    }
  }

  lemma {:induction false} SplitTaken<V>(g: map<V, seq<V>>, a: seq<V>, front: seq<V>, v: V, seen: set<V>, first: seq<V>)
    requires v !in seen && first == DepthFirst(g, front + [v], seen)
    ensures DepthFirst(g, (a + front) + [v], seen) == first + DepthFirst(g, a, seen + Elements(first))
    decreases |front|, 1
  {
    var below := Below(g, v, seen);
    var now := seen + {v} + Elements(below);
    var next := DepthFirst(g, front, now);
    var tail := DepthFirst(g, a, now + Elements(next));
    assert first == [v] + below + next by {
      Take(g, front, v, seen, below);
    }
    SeenAfter(seen, v, below, next);
    assert DepthFirst(g, (a + front) + [v], seen) == [v] + below + (next + tail) by {
      Take(g, a + front, v, seen, below);
      Split(g, a, front, now, next);
    }
    Regroup(v, below, next, tail);
  }

  /** One turn of the worklist: a new name comes out, and what it leads to goes on top. */
  lemma Turn<V>(g: map<V, seq<V>>, front: seq<V>, v: V, seen: set<V>)
    requires v !in seen
    ensures DepthFirst(g, front + [v], seen) == [v] + DepthFirst(g, front + Next(g, v), seen + {v})
  {
    var below := Below(g, v, seen);
    var rest := DepthFirst(g, front, seen + {v} + Elements(below));
    assert DepthFirst(g, front + [v], seen) == [v] + below + rest by {
      Take(g, front, v, seen, below);
    }
    assert DepthFirst(g, front + Next(g, v), seen + {v}) == below + rest by {
      assert below == DepthFirst(g, Next(g, v), seen + {v});
      Split(g, front, Next(g, v), seen + {v}, below);
    }
    Regroup(v, below, rest, []);
  }

  // -------------------------------------------------------- what comes next

  /** `w` is the last of the names that is not seen. */
  ghost predicate LastUnseen<V>(names: seq<V>, seen: set<V>, w: V) {
    exists i :: LastUnseenAt(names, seen, w, i)
  }

  ghost predicate LastUnseenAt<V>(names: seq<V>, seen: set<V>, w: V, i: nat) {
    i < |names| && names[i] == w && w !in seen && forall j :: i < j < |names| ==> names[j] in seen
  }

  /** Names already seen at the end of the list do not matter. */
  lemma {:induction false} SkipSeen<V>(g: map<V, seq<V>>, wanted: seq<V>, seen: set<V>, i: nat)
    requires i < |wanted| && forall j :: i < j < |wanted| ==> wanted[j] in seen
    ensures DepthFirst(g, wanted, seen) == DepthFirst(g, wanted[..i + 1], seen)
    decreases |wanted|
  {
    if i + 1 < |wanted| {
      var front, v := wanted[..|wanted| - 1], wanted[|wanted| - 1];
      assert wanted == front + [v];
      Skip(g, front, v, seen);
      SkipSeen(g, front, seen, i);
      assert front[..i + 1] == wanted[..i + 1];
    } else {
      assert wanted[..i + 1] == wanted;
    }
  }

  /** First comes the last name of the list that is not seen; then the list with what it leads to on top. */
  lemma FirstOut<V>(g: map<V, seq<V>>, wanted: seq<V>, seen: set<V>, w: V, i: nat)
    requires LastUnseenAt(wanted, seen, w, i)
    ensures DepthFirst(g, wanted, seen) == [w] + DepthFirst(g, wanted[..i] + Next(g, w), seen + {w})
  {
    SkipSeen(g, wanted, seen, i);
    assert wanted[..i + 1] == wanted[..i] + [w];
    Turn(g, wanted[..i], w, seen);
  }

  lemma {:induction false} NothingUnseen<V>(g: map<V, seq<V>>, wanted: seq<V>, seen: set<V>)
    requires forall j :: 0 <= j < |wanted| ==> wanted[j] in seen
    ensures DepthFirst(g, wanted, seen) == []
  {
    if wanted != [] {
      NothingUnseen(g, wanted[..|wanted| - 1], seen);
    }
  }

  lemma {:induction false} FindLastUnseen<V>(wanted: seq<V>, seen: set<V>, n: nat) returns (i: nat)
    requires n <= |wanted| && (forall j :: n <= j < |wanted| ==> wanted[j] in seen)
    requires exists j :: 0 <= j < |wanted| && wanted[j] !in seen
    ensures i < |wanted| && LastUnseenAt(wanted, seen, wanted[i], i)
    decreases n
  {
    if n > 0 && wanted[n - 1] in seen {
      i := FindLastUnseen(wanted, seen, n - 1);
    } else {
      i := n - 1;
    }
  }

  lemma LastUnseenOfBoth<V>(a: seq<V>, b: seq<V>, seen: set<V>, w: V)
    requires LastUnseen(b, seen, w)
    ensures LastUnseen(a + b, seen, w)
  {
    var i :| LastUnseenAt(b, seen, w, i);
    assert LastUnseenAt(a + b, seen, w, |a| + i);
  }

  lemma SecondOut<V>(g: map<V, seq<V>>, below: seq<V>, v: V, now: set<V>, w: V)
    requires LastUnseen(Next(g, v), now, w)
    ensures var rest := DepthFirst(g, below + Next(g, v), now); rest != [] && rest[0] == w
  {
    LastUnseenOfBoth(below, Next(g, v), now, w);
    var j :| LastUnseenAt(below + Next(g, v), now, w, j);
    FirstOut(g, below + Next(g, v), now, w, j);
  }

  lemma SeenSplit<V>(seen: set<V>, v: V, rest: seq<V>, k: nat)
    requires k <= |rest|
    ensures ([v] + rest)[..k + 1] == [v] + rest[..k]
    ensures seen + Elements(([v] + rest)[..k + 1]) == seen + {v} + Elements(rest[..k])
    ensures seen + {v} + Elements(rest[..0]) == seen + {v}
  {
  }

  /**
   The order, said of neighbours: right after a name comes the last of its
   calls that has not come before, if there is one.
   */
  lemma {:induction false} AfterComesLastCall<V>(g: map<V, seq<V>>, wanted: seq<V>, seen: set<V>, k: nat, w: V)
    requires var order := DepthFirst(g, wanted, seen);
             k < |order| && LastUnseen(Next(g, order[k]), seen + Elements(order[..k + 1]), w)
    ensures var order := DepthFirst(g, wanted, seen);
            k + 1 < |order| && order[k + 1] == w
    decreases k
  {
    if forall j :: 0 <= j < |wanted| ==> wanted[j] in seen {
      NothingUnseen(g, wanted, seen);
    } else {
      var i := FindLastUnseen(wanted, seen, |wanted|);
      var v := wanted[i];
      FirstOut(g, wanted, seen, v, i);
      var rest := DepthFirst(g, wanted[..i] + Next(g, v), seen + {v});
      SeenSplit(seen, v, rest, k);
      if k == 0 {
        SecondOut(g, wanted[..i], v, seen + {v}, w);
      } else {
        AfterComesLastCall(g, wanted[..i] + Next(g, v), seen + {v}, k - 1, w);
      }
    }
  }
}
