/**
 The worklist of the order-field gate: the text of `attrs` together with that
 of every function it leads to by calls on `self`.
 */
module OrderFieldReach {
  import opened Graph
  import opened Ordering
  import opened Text
  import opened Worklist

  /** A function body: its text, and the names its `self.` calls spell, in order. */
  datatype Body = Body(text: string, calls: seq<string>)

  /** The bodies a file declares; a name it does not declare has an empty one. */
  type Source = map<string, Body>

  const ROOT := "attrs"

  function BodyOf(src: Source, name: string): Body {
    if name in src then src[name] else Body("", [])
  }

  function Calls(src: Source): Adjacency<string> {
    map name | name in src :: Elements(src[name].calls)
  }

  function Universe(src: Source): set<string> {
    Vertices(Calls(src)) + {ROOT}
  }

  function Texts(src: Source, names: seq<string>): seq<string> {
    seq(|names|, i requires 0 <= i < |names| => BodyOf(src, names[i]).text)
  }

  lemma CallsAreEdges(src: Source, name: string)
    ensures Elements(BodyOf(src, name).calls) == Succ(Calls(src), name)
    ensures Succ(Calls(src), name) <= Universe(src)
  {
    if name in src {
      forall t | t in Succ(Calls(src), name) ensures t in Universe(src) {
        assert t in Calls(src)[name];
      }
    }
  }

  /** What is seen leads only to what is seen or wanted. */
  ghost predicate Frontier(src: Source, seen: set<string>, wanted: seq<string>) {
    forall x, t {:trigger Succ(Calls(src), x), t in wanted} ::
      x in seen && t in Succ(Calls(src), x) ==> t in seen || t in wanted
  }

  lemma FrontierAdvances(src: Source, seen: set<string>, wanted: seq<string>, name: string)
    requires Frontier(src, seen, wanted + [name])
    ensures Frontier(src, seen + {name}, wanted + BodyOf(src, name).calls)
  {
    CallsAreEdges(src, name);
    forall x, t | x in seen + {name} && t in Succ(Calls(src), x)
      ensures t in seen + {name} || t in wanted + BodyOf(src, name).calls
    {
      if x == name {
        assert t in Elements(BodyOf(src, name).calls);
      } else {
        assert t in seen || t in wanted + [name];
      }
    }
  }

  lemma WantedReachable(src: Source, wanted: seq<string>, name: string)
    requires Reach(Calls(src), ROOT, name)
    requires forall w :: w in wanted ==> Reach(Calls(src), ROOT, w) && w in Universe(src)
    ensures forall w :: w in wanted + BodyOf(src, name).calls ==> Reach(Calls(src), ROOT, w) && w in Universe(src)
  {
    CallsAreEdges(src, name);
    forall w | w in BodyOf(src, name).calls ensures Reach(Calls(src), ROOT, w) && w in Universe(src) {
      assert w in Elements(BodyOf(src, name).calls);
      ReachEdge(Calls(src), name, w);
      ReachTrans(Calls(src), ROOT, name, w);
    }
  }

  /** A name already seen may leave the worklist. */
  lemma FrontierDrops(src: Source, seen: set<string>, wanted: seq<string>, name: string)
    requires Frontier(src, seen, wanted + [name]) && name in seen
    ensures Frontier(src, seen, wanted)
  {
    forall x, t | x in seen && t in Succ(Calls(src), x) ensures t in seen || t in wanted {
      assert t in seen || t in wanted + [name];
    }
  }

  lemma OrderGrows(src: Source, order: seq<string>, name: string)
    requires Distinct(order) && name !in Elements(order)
    ensures Distinct(order + [name])
    ensures Elements(order + [name]) == Elements(order) + {name}
    ensures Texts(src, order + [name]) == Texts(src, order) + [BodyOf(src, name).text]
  {
  }

  lemma ReachableIsSeen(src: Source, seen: set<string>)
    requires ROOT in seen && Frontier(src, seen, [])
    ensures forall n :: Reach(Calls(src), ROOT, n) ==> n in seen
  {
    forall x, t | x in seen && t in Succ(Calls(src), x) ensures t in seen {
      var none: seq<string> := [];
      assert t in seen || t in none;
    }
    forall n | Reach(Calls(src), ROOT, n) ensures n in seen {
      ClosedReach(Calls(src), seen, ROOT, n);
    }
  }

  /** The calls of each body, in order. */
  function CallLists(src: Source): map<string, seq<string>> {
    map name | name in src :: src[name].calls
  }

  /** Depth first from the conversion, the last call of a body first. */
  ghost function ConversionOrder(src: Source): seq<string> {
    DepthFirst(CallLists(src), [ROOT], {})
  }

  lemma StartsWithAttrs(src: Source)
    ensures ConversionOrder(src) != [] && ConversionOrder(src)[0] == "attrs"
  {
  }

  /** Right after a body comes that of the last call in it that has not come before, if there is one. */
  lemma LastCallNext(src: Source, k: nat, w: string)
    requires k < |ConversionOrder(src)|
    requires LastUnseen(BodyOf(src, ConversionOrder(src)[k]).calls, Elements(ConversionOrder(src)[..k + 1]), w)
    ensures k + 1 < |ConversionOrder(src)| && ConversionOrder(src)[k + 1] == w
  {
    var order := ConversionOrder(src);
    assert Next(CallLists(src), order[k]) == BodyOf(src, order[k]).calls;
    assert {} + Elements(order[..k + 1]) == Elements(order[..k + 1]);
    AfterComesLastCall(CallLists(src), [ROOT], {}, k, w);
  }

  /** `order` names exactly what the conversion reaches, each once. */
  ghost predicate Emits(src: Source, order: seq<string>) {
    Distinct(order) && forall n :: n in order <==> Reach(Calls(src), ROOT, n)
  }

  // What every turn of the worklist keeps.

  ghost predicate Reached(src: Source, wanted: seq<string>, seen: set<string>) {
    && (forall w :: w in wanted ==> Reach(Calls(src), ROOT, w) && w in Universe(src))
    && (forall n :: n in seen ==> Reach(Calls(src), ROOT, n))
    && (ROOT in seen || ROOT in wanted)
    && Frontier(src, seen, wanted)
  }

  /** What came out and what is still to come are the depth-first order. */
  ghost predicate OnCourse(src: Source, wanted: seq<string>, seen: set<string>, order: seq<string>) {
    && Distinct(order) && Elements(order) == seen
    && order + DepthFirst(CallLists(src), wanted, seen) == ConversionOrder(src)
  }

  lemma Begun(src: Source)
    ensures Reached(src, [ROOT], {}) && OnCourse(src, [ROOT], {}, [])
  {
    ReachRefl(Calls(src), ROOT);
    assert ROOT in Universe(src);
  }

  lemma Skipped(src: Source, front: seq<string>, name: string, seen: set<string>, order: seq<string>)
    requires Reached(src, front + [name], seen) && OnCourse(src, front + [name], seen, order) && name in seen
    ensures Reached(src, front, seen) && OnCourse(src, front, seen, order)
  {
    FrontierDrops(src, seen, front, name);
    Skip(CallLists(src), front, name, seen);
    assert forall w :: w in front ==> w in front + [name];
    assert ROOT in front + [name] ==> ROOT in front || ROOT == name;
  }

  lemma TakenReaches(src: Source, front: seq<string>, name: string, seen: set<string>)
    requires Reached(src, front + [name], seen)
    ensures name in Universe(src)
    ensures Reached(src, front + BodyOf(src, name).calls, seen + {name})
  {
    assert forall w :: w in front ==> w in front + [name];
    assert name in front + [name];
    assert ROOT in front + [name] ==> ROOT in front || ROOT == name;
    WantedReachable(src, front, name);
    FrontierAdvances(src, seen, front, name);
  }

  lemma TakenOnCourse(src: Source, front: seq<string>, name: string, seen: set<string>, order: seq<string>)
    requires OnCourse(src, front + [name], seen, order) && name !in seen
    ensures OnCourse(src, front + BodyOf(src, name).calls, seen + {name}, order + [name])
    ensures Texts(src, order + [name]) == Texts(src, order) + [BodyOf(src, name).text]
  {
    Turn(CallLists(src), front, name, seen);
    OrderGrows(src, order, name);
    assert Next(CallLists(src), name) == BodyOf(src, name).calls;
    var rest := DepthFirst(CallLists(src), front + BodyOf(src, name).calls, seen + {name});
    assert order + ([name] + rest) == order + [name] + rest;
  }

  lemma Done(src: Source, seen: set<string>, order: seq<string>)
    requires Reached(src, [], seen) && OnCourse(src, [], seen, order)
    ensures order == ConversionOrder(src) && Emits(src, order)
  {
    ReachableIsSeen(src, seen);
    assert forall n :: n in order <==> n in Elements(order);
  }

  /**
   `the_conversion`: the bodies of everything reachable from the conversion
   through calls on `self`, each once, depth first with the last call first,
   joined by line breaks.
   */
  method Conversion(src: Source) returns (text: string)
    ensures text == Join(Texts(src, ConversionOrder(src)), "\n")
    ensures Emits(src, ConversionOrder(src))
  {
    var wanted, seen, out := [ROOT], {}, [];
    ghost var order: seq<string> := [];
    Begun(src);
    while wanted != []
      invariant Reached(src, wanted, seen)
      invariant OnCourse(src, wanted, seen, order)
      invariant out == Texts(src, order)
      decreases Universe(src) - seen, |wanted|
    {
      var name := wanted[|wanted| - 1];
      assert wanted == wanted[..|wanted| - 1] + [name];
      wanted := wanted[..|wanted| - 1];
      if name in seen {
        Skipped(src, wanted, name, seen, order);
        continue;
      }
      TakenReaches(src, wanted, name, seen);
      TakenOnCourse(src, wanted, name, seen, order);
      seen := seen + {name};
      var body := BodyOf(src, name);
      out := out + [body.text];
      order := order + [name];
      wanted := wanted + body.calls;
    }
    Done(src, seen, order);
    text := Join(out, "\n");
  }
}
