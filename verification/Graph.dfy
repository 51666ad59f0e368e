/**
 Directed graphs as the gates keep them: a finite map from a name to the names
 it points at.  A name without an entry points at nothing.
 */
module Graph {

  type Adjacency<V> = map<V, set<V>>

  function Succ<V>(adj: Adjacency<V>, v: V): set<V> {
    if v in adj then adj[v] else {}
  }

  /** Every name the graph mentions, as a key or as a target. */
  function Vertices<V>(adj: Adjacency<V>): set<V> {
    adj.Keys + set k, w | k in adj && w in adj[k] :: w
  }

  ghost predicate IsPath<V>(adj: Adjacency<V>, p: seq<V>) {
    && |p| > 0
    && forall i, j :: 0 <= i < j < |p| && j == i + 1 ==> p[j] in Succ(adj, p[i])
  }

  /** `p` is a path from `x` to `y`. */
  ghost predicate Joins<V>(adj: Adjacency<V>, p: seq<V>, x: V, y: V) {
    IsPath(adj, p) && p[0] == x && p[|p| - 1] == y
  }

  /** Some path, possibly of no edges, leads from `x` to `y`. */
  ghost predicate Reach<V(!new)>(adj: Adjacency<V>, x: V, y: V) {
    exists p :: Joins(adj, p, x, y)
  }

  ghost predicate Mutual<V(!new)>(adj: Adjacency<V>, x: V, y: V) {
    Reach(adj, x, y) && Reach(adj, y, x)
  }

  ghost predicate Closed<V>(adj: Adjacency<V>, s: set<V>) {
    forall x {:trigger Succ(adj, x)} :: x in s ==> Succ(adj, x) <= s
  }

  /** A strongly connected component: mutually reachable, and maximal. */
  ghost predicate IsComponent<V(!new)>(adj: Adjacency<V>, s: set<V>) {
    && s != {}
    && (forall x, y {:trigger Reach(adj, x, y)} :: x in s && y in s ==> Reach(adj, x, y))
    && (forall x, y {:trigger Mutual(adj, x, y)} :: x in s && Mutual(adj, x, y) ==> y in s)
  }

  lemma ReachRefl<V(!new)>(adj: Adjacency<V>, x: V)
    ensures Reach(adj, x, x)
  {
    assert Joins(adj, [x], x, x);
  }

  lemma ReachTrans<V(!new)>(adj: Adjacency<V>, x: V, y: V, z: V)
    requires Reach(adj, x, y) && Reach(adj, y, z)
    ensures Reach(adj, x, z)
  {
    var p :| Joins(adj, p, x, y);
    var q :| Joins(adj, q, y, z);
    var r := p + q[1..];
    forall i, j | 0 <= i < j < |r| && j == i + 1 ensures r[j] in Succ(adj, r[i]) {
      if i >= |p| - 1 {
        var k := i - (|p| - 1);
        assert r[i] == q[k] && r[i + 1] == q[k + 1];
      }
    }
    assert Joins(adj, r, x, z);
  }

  lemma ReachEdge<V(!new)>(adj: Adjacency<V>, x: V, y: V)
    requires y in Succ(adj, x)
    ensures Reach(adj, x, y)
  {
    assert Joins(adj, [x, y], x, y);
  }

  /** Nothing reachable from inside a closed set lies outside it. */
  lemma ClosedReach<V(!new)>(adj: Adjacency<V>, s: set<V>, x: V, y: V)
    requires Closed(adj, s) && x in s && Reach(adj, x, y)
    ensures y in s
  {
    var p :| Joins(adj, p, x, y);
    for i := 0 to |p| - 1
      invariant p[i] in s
    {
      assert p[i + 1] in Succ(adj, p[i]);
    }
  }

  /** A vertex that reaches a different one has a first step towards it. */
  lemma ReachUnroll<V(!new)>(adj: Adjacency<V>, x: V, y: V) returns (w: V)
    requires Reach(adj, x, y) && x != y
    ensures w in Succ(adj, x) && Reach(adj, w, y)
  {
    var p :| Joins(adj, p, x, y);
    w := p[1];
    assert Joins(adj, p[1..], w, y);
  }

  /** Whatever is reachable is reachable without passing a vertex twice. */
  lemma SimplePath<V(!new)>(adj: Adjacency<V>, x: V, y: V) returns (p: seq<V>)
    requires Reach(adj, x, y)
    ensures Joins(adj, p, x, y)
    ensures forall i, j :: 0 <= i < j < |p| ==> p[i] != p[j]
  {
    p :| Joins(adj, p, x, y);
    while !(forall i, j :: 0 <= i < j < |p| ==> p[i] != p[j])
      invariant Joins(adj, p, x, y)
      decreases |p|
    {
      var i, j :| 0 <= i < j < |p| && p[i] == p[j];
      p := Shortcut(adj, p, i, j);
    }
  }

  lemma Shortcut<V>(adj: Adjacency<V>, p: seq<V>, i: nat, j: nat) returns (q: seq<V>)
    requires IsPath(adj, p) && i < j < |p| && p[i] == p[j]
    ensures IsPath(adj, q) && |q| < |p| && q[0] == p[0] && q[|q| - 1] == p[|p| - 1]
  {
    q := p[..i] + p[j..];
    forall a, b | 0 <= a < b < |q| && b == a + 1 ensures q[b] in Succ(adj, q[a]) {
      if b == i {
        assert q[b] == p[i];
      } else if a >= i {
        assert q[a] == p[a - i + j] && q[b] == p[b - i + j];
      }
    }
  }
}
