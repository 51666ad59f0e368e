/**
 What a request does with itself, read off its body and the bodies it hands on
 to: the depth-first classification of the wire-reach gate.
 */
module WireReach {
  import opened Graph
  import opened Options

  datatype Kind = Wire | Refused | Missing | Withdrawn | Session | Silent

  /** What the pattern tests find in one body, and the calls on `self` it makes, in order. */
  datatype Body = Body(
    sendsControl: bool,
    refusesOutright: bool,
    reportsReason: bool,
    catchesErr: bool,
    notImplemented: bool,
    nothingToWithdraw: bool,
    readsSession: bool,
    calls: seq<string>)

  const EMPTY_BODY := Body(false, false, false, false, false, false, false, [])

  type Bodies = map<string, Body>

  function BodyOf(all: Bodies, name: string): Body {
    if name in all then all[name] else EMPTY_BODY
  }

  /** What the tests above the delegation loop decide. */
  function Early(b: Body): Kind {
    if b.sendsControl then Wire
    else if b.refusesOutright || (b.reportsReason && !b.catchesErr) then Refused
    else if b.notImplemented then Missing
    else if b.nothingToWithdraw then Withdrawn
    else Silent
  }

  /** What the test below the delegation loop decides. */
  function Late(b: Body): Kind {
    if b.readsSession then Session else Silent
  }

  /** The wording of a body that stands for each kind but `Session`. */
  predicate Shows(b: Body, k: Kind) {
    match k
    case Wire => b.sendsControl
    case Refused => b.refusesOutright || (b.reportsReason && !b.catchesErr)
    case Missing => b.notImplemented
    case Withdrawn => b.nothingToWithdraw
    case Session => false
    case Silent => false
  }

  function Precedence(k: Kind): nat {
    match k case Wire => 0 case Refused => 1 case Missing => 2 case Withdrawn => 3 case Session => 4 case Silent => 5
  }

  /** A body is the first kind, in that order, whose wording it shows; what it delegates and reads comes later. */
  lemma EarlyIsFirst(b: Body, k: Kind)
    ensures Early(b) == k && k != Silent <==>
              Shows(b, k) && forall j :: Shows(b, j) ==> Precedence(k) <= Precedence(j)
    ensures Early(b) == Silent <==> forall j :: !Shows(b, j)
  {
    assert Shows(b, Early(b)) || Early(b) == Silent;
    assert Shows(b, k) ==> Precedence(Early(b)) <= Precedence(k);
    assert Early(b) == Silent ==>
        !Shows(b, Wire) && !Shows(b, Refused) && !Shows(b, Missing) && !Shows(b, Withdrawn) && !Shows(b, Session);
  }

  predicate Marked(b: Body) {
    Early(b) != Silent || Late(b) != Silent
  }

  predicate Followed(all: Bodies, name: string, target: string) {
    target in all && target != name
  }

  /** Who delegates to whom. */
  function Delegation(all: Bodies): Adjacency<string> {
    map name | name in all :: set t | t in all[name].calls && Followed(all, name, t)
  }

  // ---------------------------------------------------- without shared memory

  /**
   The recursion without shared memory: nothing is remembered of what was
   looked at elsewhere, only the calls being followed right now, so that a
   loop ends.
   */
  function Plain(all: Bodies, name: string, path: set<string>): Kind
    decreases all.Keys + {name} - path, 1, 0
  {
    if name in path then Silent
    else
      var b := BodyOf(all, name);
      if Early(b) != Silent then Early(b)
      else
        var k := PlainCalls(all, name, b.calls, path + {name});
        if k != Silent then k else Late(b)
  }

  function PlainCalls(all: Bodies, name: string, calls: seq<string>, path: set<string>): Kind
    requires name in path
    decreases all.Keys - path, 2, |calls|
  {
    if calls == [] then Silent
    else if Followed(all, name, calls[0]) then
      var k := Plain(all, calls[0], path);
      if k != Silent then k else PlainCalls(all, name, calls[1..], path)
    else PlainCalls(all, name, calls[1..], path)
  }

  // ------------------------------------------------------------ the code's form

  /**
   What was looked at and let go of: unmarked, and handing on only to names
   already seen.  `path` holds the calls being followed right now.
   */
  ghost predicate Spent(all: Bodies, seen: set<string>, path: set<string>) {
    && path <= seen
    && (forall d :: d in seen && d !in path ==> !Marked(BodyOf(all, d)))
    && (forall d, t :: d in seen && d !in path && t in BodyOf(all, d).calls && Followed(all, d, t) ==> t in seen)
  }

  /** Looking again at a spent name, from any point still inside the search, finds nothing. */
  lemma {:induction false} SpentIsSilent(all: Bodies, seen: set<string>, path: set<string>,
                                         name: string, now: set<string>)
    requires Spent(all, seen, path) && path <= now && name in seen
    ensures Plain(all, name, now) == Silent
    decreases all.Keys + {name} - now, 1, 0
  {
    if name !in now {
      SpentCallsAreSilent(all, seen, path, name, BodyOf(all, name).calls, now + {name});
    }
  }

  lemma {:induction false} SpentCallsAreSilent(all: Bodies, seen: set<string>, path: set<string>, name: string,
                                               calls: seq<string>, now: set<string>)
    requires Spent(all, seen, path) && path <= now && name in now
    requires forall t :: t in calls && Followed(all, name, t) ==> t in seen
    ensures PlainCalls(all, name, calls, now) == Silent
    decreases all.Keys - now, 2, |calls|
  {
    if calls != [] {
      if Followed(all, name, calls[0]) {
        SpentIsSilent(all, seen, path, calls[0], now);
      }
      SpentCallsAreSilent(all, seen, path, name, calls[1..], now);
    }
  }

  class Classifier {
    const all: Bodies
    /** Every name looked at so far, shared by the whole search. */
    var seen: set<string>

    constructor (all: Bodies)
      ensures this.all == all && seen == {}
    {
      this.all := all;
      seen := {};
    }

    /** `classify` with its shared `seen`: the same answer as the plain reading. */
    method Classify(name: string, ghost path: set<string>) returns (kind: Kind)
      requires Spent(all, seen, path)
      modifies this`seen
      ensures kind == Plain(all, name, path)
      ensures old(seen) <= seen
      ensures kind == Silent ==> Spent(all, seen, path) && name in seen
      decreases all.Keys + {name} - seen, 1
    {
      if name in seen {
        SpentIsSilent(all, seen, path, name, path);
        return Silent;
      }
      ghost var before := seen;
      seen := seen + {name};
      var body := BodyOf(all, name);
      if Early(body) != Silent {
        return Early(body);
      }
      var i := 0;
      while i < |body.calls|
        invariant 0 <= i <= |body.calls|
        invariant Spent(all, seen, path + {name})
        invariant before + {name} <= seen
        invariant forall t :: t in body.calls[..i] && Followed(all, name, t) ==> t in seen
        invariant PlainCalls(all, name, body.calls, path + {name})
               == PlainCalls(all, name, body.calls[i..], path + {name})
      {
        var target := body.calls[i];
        if target in all && target != name {
          kind := Classify(target, path + {name});
          if kind != Silent {
            return;
          }
        }
        assert body.calls[i..][1..] == body.calls[i + 1..];
        assert body.calls[..i + 1] == body.calls[..i] + [target];
        i := i + 1;
      }
      assert body.calls[..i] == body.calls;
      return Late(body);
    }
  }

  // ------------------------------------------------------------------- meaning

  /** A name that answers with a kind has it from a body its calls lead to. */
  lemma {:induction false} KindHasSource(all: Bodies, name: string, path: set<string>) returns (source: string)
    requires Plain(all, name, path) != Silent
    ensures Reach(Delegation(all), name, source)
    ensures Early(BodyOf(all, source)) == Plain(all, name, path)
         || (Early(BodyOf(all, source)) == Silent && Late(BodyOf(all, source)) == Plain(all, name, path))
    decreases all.Keys + {name} - path, 1, 0
  {
    var b := BodyOf(all, name);
    if Early(b) == Silent && PlainCalls(all, name, b.calls, path + {name}) != Silent {
      source := KindHasSourceBelow(all, name, b.calls, path + {name});
    } else {
      ReachRefl(Delegation(all), name);
      source := name;
    }
  }

  lemma {:induction false} KindHasSourceBelow(all: Bodies, name: string, calls: seq<string>, path: set<string>)
    returns (source: string)
    requires name in path && PlainCalls(all, name, calls, path) != Silent
    requires forall t :: t in calls ==> t in BodyOf(all, name).calls
    ensures Reach(Delegation(all), name, source)
    ensures Early(BodyOf(all, source)) == PlainCalls(all, name, calls, path)
         || (Early(BodyOf(all, source)) == Silent && Late(BodyOf(all, source)) == PlainCalls(all, name, calls, path))
    decreases all.Keys - path, 2, |calls|
  {
    var t := calls[0];
    if Followed(all, name, t) && Plain(all, t, path) != Silent {
      source := KindHasSource(all, t, path);
      assert t in BodyOf(all, name).calls && name in all;
      assert t in Succ(Delegation(all), name);
      ReachEdge(Delegation(all), name, t);
      ReachTrans(Delegation(all), name, t, source);
    } else {
      source := KindHasSourceBelow(all, name, calls[1..], path);
    }
  }

  lemma {:induction false} CallDecides(all: Bodies, name: string, calls: seq<string>, path: set<string>, t: string)
    requires name in path && t in calls && Followed(all, name, t) && Plain(all, t, path) != Silent
    ensures PlainCalls(all, name, calls, path) != Silent
  {
    if t != calls[0] {
      CallDecides(all, name, calls[1..], path, t);
    }
  }

  /** A marked body at the end of a chain of calls without repeats is never passed over. */
  lemma {:induction false} MarkIsSeen(all: Bodies, p: seq<string>, path: set<string>)
    requires IsPath(Delegation(all), p)
    requires forall i, j :: 0 <= i < j < |p| ==> p[i] != p[j]
    requires forall x :: x in p ==> x !in path
    requires Marked(BodyOf(all, p[|p| - 1]))
    ensures Plain(all, p[0], path) != Silent
    decreases |p|
  {
    if |p| > 1 {
      var name, t := p[0], p[1];
      assert t in Succ(Delegation(all), name);
      MarkIsSeen(all, p[1..], path + {name});
      CallDecides(all, name, BodyOf(all, name).calls, path + {name}, t);
    }
  }

  /** A request is silent exactly when no body its calls lead to carries any mark. */
  lemma SilentMeansUnmarked(all: Bodies, name: string)
    ensures Plain(all, name, {}) == Silent
       <==> forall n :: Reach(Delegation(all), name, n) ==> !Marked(BodyOf(all, n))
  {
    if Plain(all, name, {}) != Silent {
      var n := KindHasSource(all, name, {});
      assert Reach(Delegation(all), name, n) && Marked(BodyOf(all, n));
    }
    forall n | Reach(Delegation(all), name, n) && Marked(BodyOf(all, n)) ensures Plain(all, name, {}) != Silent {
      var p := SimplePath(Delegation(all), name, n);
      MarkIsSeen(all, p, {});
    }
  }

  // -------------------------------------------------- whatever the delegate is

  /** The first of the followed calls, in order, that answers anything when asked on its own. */
  function FirstDelegate(all: Bodies, name: string, calls: seq<string>): Option<string> {
    if calls == [] then None
    else if Followed(all, name, calls[0]) && Plain(all, calls[0], {}) != Silent then Some(calls[0])
    else FirstDelegate(all, name, calls[1..])
  }

  /** What that one answers on its own. */
  function FirstAnswer(all: Bodies, name: string, calls: seq<string>): Kind {
    match FirstDelegate(all, name, calls) case None => Silent case Some(d) => Plain(all, d, {})
  }

  /** What is silent on its own is silent whatever is being followed. */
  lemma SilentAnywhere(all: Bodies, name: string, path: set<string>)
    requires Plain(all, name, {}) == Silent
    ensures Plain(all, name, path) == Silent
  {
    SilentMeansUnmarked(all, name);
    if Plain(all, name, path) != Silent {
      var n := KindHasSource(all, name, path);
    }
  }

  lemma {:induction false} FirstDelegateAnswers(all: Bodies, name: string, calls: seq<string>, path: set<string>)
    requires name in path
    ensures match FirstDelegate(all, name, calls)
            case None => PlainCalls(all, name, calls, path) == Silent
            case Some(d) =>
              && d in calls && Followed(all, name, d) && Plain(all, d, {}) != Silent
              && (Plain(all, d, path) != Silent ==> PlainCalls(all, name, calls, path) == Plain(all, d, path))
  {
    if calls != [] {
      var t := calls[0];
      if !Followed(all, name, t) || Plain(all, t, {}) == Silent {
        if Followed(all, name, t) {
          SilentAnywhere(all, t, path);
        }
        FirstDelegateAnswers(all, name, calls[1..], path);
      }
    }
  }

  // Around a loop: what answers nothing once `name` is out of bounds has been
  // let go of, and has any answer of its own only through `name`.

  /** A silent answer leaves behind names that are all spent. */
  lemma {:induction false} SilentIsSpent(all: Bodies, name: string, seen: set<string>, path: set<string>)
    returns (after: set<string>)
    requires Spent(all, seen, path) && Plain(all, name, path) == Silent
    ensures Spent(all, after, path) && seen <= after && name in after
    decreases all.Keys + {name} - path, 1, 0
  {
    if name in seen {
      after := seen;
    } else {
      after := SilentCallsAreSpent(all, name, BodyOf(all, name).calls, seen + {name}, path + {name});
    }
  }

  lemma {:induction false} SilentCallsAreSpent(all: Bodies, name: string, calls: seq<string>,
                                               seen: set<string>, path: set<string>)
    returns (after: set<string>)
    requires Spent(all, seen, path) && name in path && PlainCalls(all, name, calls, path) == Silent
    ensures Spent(all, after, path) && seen <= after
    ensures forall t :: t in calls && Followed(all, name, t) ==> t in after
    decreases all.Keys - path, 2, |calls|
  {
    after := seen;
    if calls != [] {
      if Followed(all, name, calls[0]) {
        after := SilentIsSpent(all, calls[0], seen, path);
      }
      after := SilentCallsAreSpent(all, name, calls[1..], after, path);
    }
  }

  /** Following spent names as well changes no answer. */
  lemma {:induction false} SpentIrrelevant(all: Bodies, seen: set<string>, path: set<string>,
                                           name: string, now: set<string>, extra: set<string>)
    requires Spent(all, seen, path) && path <= now && extra <= seen
    ensures Plain(all, name, now + extra) == Plain(all, name, now)
    decreases all.Keys + {name} - now, 1, 0
  {
    if name in extra {
      SpentIsSilent(all, seen, path, name, now);
    } else if name !in now {
      SpentIrrelevantBelow(all, seen, path, name, BodyOf(all, name).calls, now + {name}, extra);
      assert now + extra + {name} == now + {name} + extra;
    }
  }

  lemma {:induction false} SpentIrrelevantBelow(all: Bodies, seen: set<string>, path: set<string>,
                                                name: string, calls: seq<string>, now: set<string>, extra: set<string>)
    requires Spent(all, seen, path) && path <= now && extra <= seen && name in now
    ensures PlainCalls(all, name, calls, now + extra) == PlainCalls(all, name, calls, now)
    decreases all.Keys - now, 2, |calls|
  {
    if calls != [] {
      if Followed(all, name, calls[0]) {
        SpentIrrelevant(all, seen, path, calls[0], now, extra);
      }
      SpentIrrelevantBelow(all, seen, path, name, calls[1..], now, extra);
    }
  }

  /** Coming to `name` along spent names is coming to it afresh. */
  lemma SameFromInside(all: Bodies, seen: set<string>, name: string, path: set<string>)
    requires Spent(all, seen, {name}) && path <= seen && name !in path
    ensures Plain(all, name, path) == Plain(all, name, {})
  {
    SpentIrrelevantBelow(all, seen, {name}, name, BodyOf(all, name).calls, {name}, path);
    assert path + {name} == {name} + path && {} + {name} == {name};
  }

  /** A spent name answers nothing, or what `name` answers. */
  lemma {:induction false} OnlyThroughName(all: Bodies, seen: set<string>, name: string, x: string, path: set<string>)
    requires Spent(all, seen, {name}) && path <= seen && name !in path && x in seen
    ensures Plain(all, x, path) == Silent || Plain(all, x, path) == Plain(all, name, {})
    decreases all.Keys + {x} - path, 1, 0
  {
    if x == name {
      SameFromInside(all, seen, name, path);
    } else if x !in path {
      OnlyThroughNameBelow(all, seen, name, x, BodyOf(all, x).calls, path + {x});
    }
  }

  lemma {:induction false} OnlyThroughNameBelow(all: Bodies, seen: set<string>, name: string, x: string,
                                                calls: seq<string>, path: set<string>)
    requires Spent(all, seen, {name}) && path <= seen && name !in path && x in path
    requires forall t :: t in calls && Followed(all, x, t) ==> t in seen
    ensures PlainCalls(all, x, calls, path) == Silent || PlainCalls(all, x, calls, path) == Plain(all, name, {})
    decreases all.Keys - path, 2, |calls|
  {
    if calls != [] {
      if Followed(all, x, calls[0]) {
        OnlyThroughName(all, seen, name, calls[0], path);
      }
      OnlyThroughNameBelow(all, seen, name, x, calls[1..], path);
    }
  }

  /** What answers nothing while `name` is being followed answers on its own nothing, or what `name` answers. */
  lemma SilentButForName(all: Bodies, name: string, d: string)
    requires Plain(all, d, {name}) == Silent
    ensures Plain(all, d, {}) == Silent || Plain(all, d, {}) == Plain(all, name, {})
  {
    var seen := SilentIsSpent(all, d, {name}, {name});
    OnlyThroughName(all, seen, name, d, {});
  }

  /**
   What a name that shows nothing early makes of its delegates, loops or no
   loops: with `d` the first that answers anything on its own, it answers what
   `d` answers while the name is being followed, or, if that is nothing, what
   `d` answers on its own.  So it is whatever `d` is exactly when `d`, asked
   with the name already seen, says the same or says nothing.
   */
  lemma DelegateDecides(all: Bodies, name: string)
    requires Early(BodyOf(all, name)) == Silent
    ensures match FirstDelegate(all, name, BodyOf(all, name).calls)
            case None => Plain(all, name, {}) == Late(BodyOf(all, name))
            case Some(d) =>
              var alone, within := Plain(all, d, {}), Plain(all, d, {name});
              && alone != Silent
              && Plain(all, name, {}) == (if within != Silent then within else alone)
              && (Plain(all, name, {}) == alone <==> within == Silent || within == alone)
  {
    FirstDelegateAnswers(all, name, BodyOf(all, name).calls, {name});
    assert {} + {name} == {name};
    match FirstDelegate(all, name, BodyOf(all, name).calls)
    case None =>
    case Some(d) =>
      if Plain(all, d, {name}) == Silent {
        SilentButForName(all, name, d);
      }
  }

  /**
   What a body says of itself comes before what it hands on to, whatever that
   is: the first kind, in order, whose wording it shows is the answer.
   */
  lemma OwnWordingFirst(all: Bodies, name: string, path: set<string>)
    requires name !in path
    ensures var b, answer := BodyOf(all, name), Plain(all, name, path);
            var refuses := b.refusesOutright || (b.reportsReason && !b.catchesErr);
            && (b.sendsControl ==> answer == Wire)
            && (!b.sendsControl && refuses ==> answer == Refused)
            && (!b.sendsControl && !refuses && b.notImplemented ==> answer == Missing)
            && (!b.sendsControl && !refuses && !b.notImplemented && b.nothingToWithdraw ==> answer == Withdrawn)
    ensures forall k :: Shows(BodyOf(all, name), k)
              && (forall j :: Shows(BodyOf(all, name), j) ==> Precedence(k) <= Precedence(j))
              ==> Plain(all, name, path) == k
  {
    forall k | Shows(BodyOf(all, name), k) && forall j :: Shows(BodyOf(all, name), j) ==> Precedence(k) <= Precedence(j)
      ensures Plain(all, name, path) == k
    {
      EarlyIsFirst(BodyOf(all, name), k);
    }
  }

  /** A body that shows nothing and hands on to nothing that answers is `session` if it reads the session. */
  lemma SessionLast(all: Bodies, name: string)
    requires forall k :: !Shows(BodyOf(all, name), k)
    requires FirstDelegate(all, name, BodyOf(all, name).calls) == None
    ensures Plain(all, name, {}) == if BodyOf(all, name).readsSession then Session else Silent
  {
    EarlyIsFirst(BodyOf(all, name), Silent);
    DelegateDecides(all, name);
  }

  /** None of the names reachable from `name` is in `extra`. */
  ghost predicate Clear(all: Bodies, name: string, extra: set<string>) {
    forall n {:trigger Reach(Delegation(all), name, n)} :: Reach(Delegation(all), name, n) ==> n !in extra
  }

  lemma ClearBelow(all: Bodies, name: string, t: string, extra: set<string>)
    requires Clear(all, name, extra) && t in Succ(Delegation(all), name)
    ensures Clear(all, t, extra)
  {
    ReachEdge(Delegation(all), name, t);
    forall n | Reach(Delegation(all), t, n) ensures n !in extra {
      ReachTrans(Delegation(all), name, t, n);
    }
  }

  /** Names that are never reached do not matter on the path. */
  lemma {:induction false} PathIrrelevant(all: Bodies, name: string, path: set<string>, extra: set<string>)
    requires Clear(all, name, extra)
    ensures Plain(all, name, path + extra) == Plain(all, name, path)
    decreases all.Keys + {name} - path, 1, 0
  {
    ReachRefl(Delegation(all), name);
    assert name !in extra;
    if name !in path {
      PathIrrelevantBelow(all, name, BodyOf(all, name).calls, path + {name}, extra);
      assert path + extra + {name} == path + {name} + extra;
    }
  }

  lemma {:induction false} PathIrrelevantBelow(all: Bodies, name: string, calls: seq<string>,
                                               path: set<string>, extra: set<string>)
    requires name in path && Clear(all, name, extra)
    requires forall t :: t in calls ==> t in BodyOf(all, name).calls
    ensures PlainCalls(all, name, calls, path + extra) == PlainCalls(all, name, calls, path)
    decreases all.Keys - path, 2, |calls|
  {
    if calls != [] {
      var t := calls[0];
      if Followed(all, name, t) {
        assert t in BodyOf(all, name).calls && name in all;
        assert t in Succ(Delegation(all), name);
        ClearBelow(all, name, t, extra);
        PathIrrelevant(all, t, path, extra);
      }
      PathIrrelevantBelow(all, name, calls[1..], path, extra);
    }
  }

  /** Where no call leads back to the name, that is the first answer its delegates give on their own. */
  lemma WhateverTheDelegateIs(all: Bodies, name: string)
    requires Early(BodyOf(all, name)) == Silent
    requires forall t :: t in Succ(Delegation(all), name) ==> !Reach(Delegation(all), t, name)
    ensures var k := FirstAnswer(all, name, BodyOf(all, name).calls);
            Plain(all, name, {}) == if k != Silent then k else Late(BodyOf(all, name))
  {
    DelegateDecides(all, name);
    FirstDelegateAnswers(all, name, BodyOf(all, name).calls, {name});
    match FirstDelegate(all, name, BodyOf(all, name).calls)
    case None =>
    case Some(d) =>
      assert name in all && d in Succ(Delegation(all), name);
      PathIrrelevant(all, d, {}, {name});
      assert {} + {name} == {name};
  }

  /** In a loop it is not so: `b` hands on to `a`, which alone reaches the wire, and `b` answers from the session. */
  lemma NotSoInALoop(all: Bodies)
    requires all == map["a" := EMPTY_BODY.(readsSession := true, calls := ["b"]),
                        "b" := EMPTY_BODY.(calls := ["a", "c"]),
                        "c" := EMPTY_BODY.(sendsControl := true)]
    ensures Plain(all, "a", {}) == Wire
    ensures FirstAnswer(all, "b", BodyOf(all, "b").calls) == Wire
    ensures Plain(all, "b", {}) == Session
  {
    var atA: set<string>, atB: set<string> := {} + {"a"}, {} + {"b"};
    assert ["a", "c"][1..] == ["c"];
    assert Plain(all, "a", {}) == Wire by {
      assert PlainCalls(all, "b", ["c"], atA + {"b"}) == Wire;
      assert PlainCalls(all, "b", ["a", "c"], atA + {"b"}) == Wire;
      assert Plain(all, "b", atA) == Wire;
    }
    assert Plain(all, "b", {}) == Session by {
      assert PlainCalls(all, "a", ["b"], atB + {"a"}) == Silent;
      assert Plain(all, "a", atB) == Session;
    }
  }

  /** The gate's finding: the requests that return as though they acted and did not. */
  method SilentCalls(all: Bodies, requests: set<string>) returns (silent: set<string>)
    ensures forall n :: n in silent <==>
              n in requests && forall m :: Reach(Delegation(all), n, m) ==> !Marked(BodyOf(all, m))
  {
    silent := {};
    var todo := requests;
    while todo != {}
      invariant todo <= requests
      invariant forall n :: n in silent <==> n in requests && n !in todo && Plain(all, n, {}) == Silent
      decreases todo
    {
      var n :| n in todo;
      todo := todo - {n};
      var search := new Classifier(all);
      var kind := search.Classify(n, {});
      if kind == Silent {
        silent := silent + {n};
      }
    }
    forall n
      ensures Plain(all, n, {}) == Silent <==> forall m :: Reach(Delegation(all), n, m) ==> !Marked(BodyOf(all, m))
    {
      SilentMeansUnmarked(all, n);
    }
  }
}
