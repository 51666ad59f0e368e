/**
 Delivering every callback to two places at once: the splitter a question
 pumps the queues through, over wrappers that may themselves be splitters.
 */
module TeeWrapper {

  datatype OrderOp = Place | Modify | Cancel | Exercise | Venue

  /** What an error is about. */
  datatype Origin =
    | Request(id: int, ends: bool)
    | Order(id: int, op: OrderOp)
    | Question(q: nat, ends: bool)
    | Session
    | Internal(lookup: nat)
  {
    /** The number `error` states it under. */
    function Id(): int {
      match this
      case Request(id, _) => id
      case Order(id, _) => id
      case Internal(lookup) => lookup
      case Question(_, _) => -1
      case Session => -1
    }
  }

  /** What either error callback says beside what it is about. */
  datatype Report = Report(time: int, code: int, text: string, json: string)

  /** One callback. Every callback but the two for errors is told apart by its name and carries its arguments. */
  datatype Call =
    | ErrorFrom(origin: Origin, report: Report)
    | Error(id: int, report: Report)
    | Other(name: string, args: seq<string>)

  /** Which callbacks a wrapper implements itself; the rest are the trait's defaults. */
  datatype Overrides = Overrides(errorFrom: bool, error: bool, others: set<string>)

  // ----------------------------------------------------------------- what is promised

  /** What a wrapper makes of one callback delivered to it directly. */
  function Heard(o: Overrides, c: Call): seq<Call> {
    match c
    case ErrorFrom(origin, report) =>
      if o.errorFrom then [c] else if o.error then [Error(origin.Id(), report)] else []
    case Error(_, _) => if o.error then [c] else []
    case Other(name, _) => if name in o.others then [c] else []
  }

  function HeardAll(o: Overrides, calls: seq<Call>): seq<Call> {
    if calls == [] then [] else HeardAll(o, calls[..|calls| - 1]) + Heard(o, calls[|calls| - 1])
  }

  lemma HeardNext(o: Overrides, was: seq<Call>, calls: seq<Call>, i: nat)
    requires i < |calls|
    ensures was + HeardAll(o, calls[..i]) + Heard(o, calls[i]) == was + HeardAll(o, calls[..i + 1])
  {
    assert calls[..i + 1][..i] == calls[..i];
  }

  predicate IsError(c: Call) {
    c.ErrorFrom? || c.Error?
  }

  function Errors(calls: seq<Call>): nat {
    if calls == [] then 0 else Errors(calls[..|calls| - 1]) + if IsError(calls[|calls| - 1]) then 1 else 0
  }

  lemma {:induction false} ErrorsAdd(a: seq<Call>, b: seq<Call>)
    ensures Errors(a + b) == Errors(a) + Errors(b)
  {
    if b == [] {
      assert a + b == a;
    } else {
      assert (a + b)[..|a + b| - 1] == a + b[..|b| - 1];
      ErrorsAdd(a, b[..|b| - 1]);
    }
  }

  lemma ErrorHeardOnce(o: Overrides, c: Call)
    requires o.error
    ensures Errors(Heard(o, c)) == if IsError(c) then 1 else 0
  {
    var h := Heard(o, c);
    assert h == [] || (|h| == 1 && h[..0] == []);
  }

  /** A wrapper that implements `error` hears each error of a run once, through one callback or the other. */
  lemma {:induction false} EachErrorOnce(o: Overrides, calls: seq<Call>)
    requires o.error
    ensures Errors(HeardAll(o, calls)) == Errors(calls)
  {
    if calls != [] {
      var front, last := calls[..|calls| - 1], calls[|calls| - 1];
      EachErrorOnce(o, front);
      ErrorsAdd(HeardAll(o, front), Heard(o, last));
      ErrorHeardOnce(o, last);
    }
  }

  /** A run as it was before `error_from` existed: every error already stated under its number. */
  function Plainly(calls: seq<Call>): seq<Call> {
    seq(|calls|, i requires 0 <= i < |calls| =>
      match calls[i]
      case ErrorFrom(origin, report) => Error(origin.Id(), report)
      case Error(_, _) => calls[i]
      case Other(_, _) => calls[i])
  }

  /** A wrapper that implements only `error` hears exactly what it heard before `error_from` existed. */
  lemma {:induction false} OldWrapperUnchanged(o: Overrides, calls: seq<Call>)
    requires !o.errorFrom
    ensures HeardAll(o, calls) == HeardAll(o, Plainly(calls))
  {
    if calls != [] {
      OldWrapperUnchanged(o, calls[..|calls| - 1]);
      assert Plainly(calls)[..|calls| - 1] == Plainly(calls[..|calls| - 1]);
    }
  }

  /** The number an error is stated under: its own where it has one, and -1 for the rest. */
  lemma NumberStated(origin: Origin)
    ensures origin.Request? || origin.Order? ==> origin.Id() == origin.id
    ensures origin.Internal? ==> origin.Id() == origin.lookup
    ensures origin.Question? || origin.Session? ==> origin.Id() == -1
  {
  }

  predicate Implements(o: Overrides, c: Call) {
    match c
    case ErrorFrom(_, _) => o.errorFrom
    case Error(_, _) => o.error
    case Other(name, _) => name in o.others
  }

  /** The callbacks of a run that a wrapper implements, in order. */
  function Implemented(o: Overrides, calls: seq<Call>): seq<Call> {
    if calls == [] then []
    else if Implements(o, calls[0]) then [calls[0]] + Implemented(o, calls[1..])
    else Implemented(o, calls[1..])
  }

  lemma {:induction false} ImplementedNext(o: Overrides, front: seq<Call>, c: Call)
    ensures Implemented(o, front + [c]) == Implemented(o, front) + if Implements(o, c) then [c] else []
  {
    if front == [] {
      assert [c][1..] == [] && front + [c] == [c];
    } else {
      assert (front + [c])[1..] == front[1..] + [c];
      ImplementedNext(o, front[1..], c);
    }
  }

  /**
   What any wrapper hears of any run: the callbacks it implements, in order and
   as they were made; where it has no `error_from`, after each error was
   restated under its number.
   */
  lemma {:induction false} HearsWhatItImplements(o: Overrides, calls: seq<Call>)
    ensures HeardAll(o, calls) == Implemented(o, if o.errorFrom then calls else Plainly(calls))
  {
    if calls != [] {
      var front, last := calls[..|calls| - 1], calls[|calls| - 1];
      HearsWhatItImplements(o, front);
      assert calls == front + [last];
      if o.errorFrom {
        ImplementedNext(o, front, last);
      } else {
        PlainlyNext(front, last);
        ImplementedNext(o, Plainly(front), Plainly([last])[0]);
      }
    }
  }

  lemma PlainlyNext(front: seq<Call>, c: Call)
    ensures Plainly(front + [c]) == Plainly(front) + [Plainly([c])[0]]
  {
  }

  // ---------------------------------------------------------------------------- code

  /** Everything every wrapper logged, in the order it was logged. */
  class Journal {
    ghost var entries: seq<(Recorder, Call)>

    constructor ()
      ensures entries == []
    {
      entries := [];
    }
  }

  /** A wrapper that logs what it implements. */
  class Recorder {
    const overrides: Overrides
    var log: seq<Call>

    constructor (overrides: Overrides)
      ensures this.overrides == overrides && log == []
    {
      this.overrides := overrides;
      log := [];
    }

    method Note(c: Call, ghost journal: Journal)
      modifies this`log, journal`entries
      ensures log == old(log) + [c] && journal.entries == old(journal.entries) + [(this, c)]
    {
      log := log + [c];
      journal.entries := journal.entries + [(this, c)];
    }

    method Error(id: int, report: Report, ghost journal: Journal)
      modifies this`log, journal`entries
      ensures log == old(log) + Heard(overrides, Call.Error(id, report))
      ensures journal.entries == old(journal.entries) + Marked(this, Heard(overrides, Call.Error(id, report)))
    {
      if overrides.error {
        Note(Call.Error(id, report), journal);
      }
    }

    /** Without one of its own, the trait's: the error goes on to `error` under its number. */
    method ErrorFrom(origin: Origin, report: Report, ghost journal: Journal)
      modifies this`log, journal`entries
      ensures log == old(log) + Heard(overrides, Call.ErrorFrom(origin, report))
      ensures journal.entries == old(journal.entries) + Marked(this, Heard(overrides, Call.ErrorFrom(origin, report)))
    {
      if overrides.errorFrom {
        Note(Call.ErrorFrom(origin, report), journal);
      } else {
        Error(origin.Id(), report, journal);
      }
    }

    method Other(name: string, args: seq<string>, ghost journal: Journal)
      modifies this`log, journal`entries
      ensures log == old(log) + Heard(overrides, Call.Other(name, args))
      ensures journal.entries == old(journal.entries) + Marked(this, Heard(overrides, Call.Other(name, args)))
    {
      if name in overrides.others {
        Note(Call.Other(name, args), journal);
      }
    }
  }

  ghost function Marked(r: Recorder, calls: seq<Call>): seq<(Recorder, Call)> {
    seq(|calls|, i requires 0 <= i < |calls| => (r, calls[i]))
  }

  /** A wrapper: a leaf, or a splitter over two wrappers. */
  datatype Sink = Leaf(recorder: Recorder) | Tee(asked: Sink, kept: Sink)

  ghost function Leaves(s: Sink): set<Recorder> {
    match s case Leaf(r) => {r} case Tee(asked, kept) => Leaves(asked) + Leaves(kept)
  }

  /** A splitter borrows its two wrappers exclusively. */
  ghost predicate Exclusive(s: Sink) {
    match s
    case Leaf(_) => true
    case Tee(asked, kept) => Exclusive(asked) && Exclusive(kept) && Leaves(asked) !! Leaves(kept)
  }

  /** What one callback adds to the journal: all of what was asked, then all of what is kept. */
  ghost function Trace(s: Sink, c: Call): seq<(Recorder, Call)> {
    match s
    case Leaf(r) => Marked(r, Heard(r.overrides, c))
    case Tee(asked, kept) => Trace(asked, c) + Trace(kept, c)
  }

  lemma {:induction false} TraceLeaves(s: Sink, c: Call, i: nat)
    requires i < |Trace(s, c)|
    ensures Trace(s, c)[i].0 in Leaves(s) && Trace(s, c)[i].1 in Heard(Trace(s, c)[i].0.overrides, c)
  {
    match s
    case Leaf(_) =>
    case Tee(asked, kept) =>
      if i < |Trace(asked, c)| {
        TraceLeaves(asked, c, i);
      } else {
        TraceLeaves(kept, c, i - |Trace(asked, c)|);
      }
  }

  /** What the asked side notes of a callback comes before anything the kept side notes of it. */
  lemma AskedFirst(asked: Sink, kept: Sink, c: Call, i: nat, j: nat)
    requires Exclusive(Tee(asked, kept)) && i < j < |Trace(Tee(asked, kept), c)|
    ensures Trace(Tee(asked, kept), c)[j].0 in Leaves(asked) ==> Trace(Tee(asked, kept), c)[i].0 in Leaves(asked)
  {
    var first := Trace(asked, c);
    if i < |first| {
      TraceLeaves(asked, c, i);
    } else {
      TraceLeaves(kept, c, j - |first|);
    }
  }

  ghost function TraceAll(s: Sink, calls: seq<Call>): seq<(Recorder, Call)> {
    if calls == [] then [] else TraceAll(s, calls[..|calls| - 1]) + Trace(s, calls[|calls| - 1])
  }

  lemma TraceNext(s: Sink, was: seq<(Recorder, Call)>, calls: seq<Call>, i: nat)
    requires i < |calls|
    ensures was + TraceAll(s, calls[..i]) + Trace(s, calls[i]) == was + TraceAll(s, calls[..i + 1])
  {
    assert calls[..i + 1][..i] == calls[..i];
  }

  method SinkError(s: Sink, id: int, report: Report, ghost journal: Journal, ghost leaves: set<Recorder>)
    requires Exclusive(s) && leaves == Leaves(s)
    modifies leaves`log, journal`entries
    ensures forall r :: r in leaves ==> r.log == old(r.log) + Heard(r.overrides, Error(id, report))
    ensures journal.entries == old(journal.entries) + Trace(s, Error(id, report))
    decreases s
  {
    match s
    case Leaf(r) => r.Error(id, report, journal);
    case Tee(asked, kept) =>
      SinkError(asked, id, report, journal, Leaves(asked));
      SinkError(kept, id, report, journal, Leaves(kept));
  }

  method SinkErrorFrom(s: Sink, origin: Origin, report: Report, ghost journal: Journal, ghost leaves: set<Recorder>)
    requires Exclusive(s) && leaves == Leaves(s)
    modifies leaves`log, journal`entries
    ensures forall r :: r in leaves ==> r.log == old(r.log) + Heard(r.overrides, ErrorFrom(origin, report))
    ensures journal.entries == old(journal.entries) + Trace(s, ErrorFrom(origin, report))
    decreases s
  {
    match s
    case Leaf(r) => r.ErrorFrom(origin, report, journal);
    case Tee(asked, kept) =>
      SinkErrorFrom(asked, origin, report, journal, Leaves(asked));
      SinkErrorFrom(kept, origin, report, journal, Leaves(kept));
  }

  method SinkOther(s: Sink, name: string, args: seq<string>, ghost journal: Journal, ghost leaves: set<Recorder>)
    requires Exclusive(s) && leaves == Leaves(s)
    modifies leaves`log, journal`entries
    ensures forall r :: r in leaves ==> r.log == old(r.log) + Heard(r.overrides, Other(name, args))
    ensures journal.entries == old(journal.entries) + Trace(s, Other(name, args))
    decreases s
  {
    match s
    case Leaf(r) => r.Other(name, args, journal);
    case Tee(asked, kept) =>
      SinkOther(asked, name, args, journal, Leaves(asked));
      SinkOther(kept, name, args, journal, Leaves(kept));
  }

  method Deliver(s: Sink, c: Call, ghost journal: Journal, ghost leaves: set<Recorder>)
    requires Exclusive(s) && leaves == Leaves(s)
    modifies leaves`log, journal`entries
    ensures forall r :: r in leaves ==> r.log == old(r.log) + Heard(r.overrides, c)
    ensures journal.entries == old(journal.entries) + Trace(s, c)
  {
    match c
    case ErrorFrom(origin, report) => SinkErrorFrom(s, origin, report, journal, leaves);
    case Error(id, report) => SinkError(s, id, report, journal, leaves);
    case Other(name, args) => SinkOther(s, name, args, journal, leaves);
  }

  /**
   A run of callbacks through any tree of splitters: each leaf's log grows by
   exactly what the run delivered to it directly would have added, and the
   logging goes callback by callback, what was asked before what is kept.
   */
  method DeliverAll(s: Sink, calls: seq<Call>, ghost journal: Journal, ghost leaves: set<Recorder>)
    requires Exclusive(s) && leaves == Leaves(s)
    modifies leaves`log, journal`entries
    ensures forall r :: r in leaves ==> r.log == old(r.log) + HeardAll(r.overrides, calls)
    ensures journal.entries == old(journal.entries) + TraceAll(s, calls)
  {
    ghost var noted := journal.entries;
    ghost var was := map r | r in leaves :: r.log;
    var i := 0;
    while i < |calls|
      invariant 0 <= i <= |calls|
      invariant forall r :: r in leaves ==> r.log == was[r] + HeardAll(r.overrides, calls[..i])
      invariant journal.entries == noted + TraceAll(s, calls[..i])
    {
      label before:
      Deliver(s, calls[i], journal, leaves);
      TraceNext(s, noted, calls, i);
      forall r | r in leaves ensures r.log == was[r] + HeardAll(r.overrides, calls[..i + 1]) {
        assert r.log == old@before(r.log) + Heard(r.overrides, calls[i]);
        HeardNext(r.overrides, was[r], calls, i);
      }
      i := i + 1;
    }
    assert calls[..i] == calls;
  }
}
