/**
 Whole runs of one channel: any order of hellos, encrypts and decrypts.
 */
module ChannelRuns {
  import opened ByteStrings
  import opened Options
  import opened Channel

  datatype Event = Greet(fields: seq<string>) | Send(plaintext: Bytes) | Receive(frame: Bytes)

  /** `Panicked` is the source's `expect` on missing keys. */
  datatype Outcome =
    | Accepted
    | Rejected(error: HelloError)
    | Sent(frame: Bytes)
    | Received(plaintext: Bytes)
    | Refused(why: Refusal)
    | Panicked
  {
    /** The call did what it was asked. */
    predicate Served() {
      Accepted? || Sent? || Received?
    }
  }

  /** Keys are either absent, or whole: a block of 104 bytes and two vectors of 16. */
  predicate Shaped(keys: Option<Keys>) {
    keys.Some? ==> keys.value.Valid()
  }

  function After(cfg: Config, keys: Option<Keys>, ev: Event): (r: Option<Keys>)
    requires cfg.n >= 2 && Shaped(keys)
    ensures Shaped(r)
  {
    match ev
    case Greet(fields) => (match Hello(cfg, fields) case Ok(k) => Some(k) case Err(_) => keys)
    case Send(plaintext) => if keys.None? then None else Some(AfterEncrypt(cfg.p, keys.value, plaintext))
    case Receive(frame) => if keys.None? then None else Some(AfterDecrypt(cfg.p, keys.value, frame))
  }

  function Answer(cfg: Config, keys: Option<Keys>, ev: Event): Outcome
    requires cfg.n >= 2 && Shaped(keys)
  {
    match ev
    case Greet(fields) => (match Hello(cfg, fields) case Ok(_) => Accepted case Err(e) => Rejected(e))
    case Send(plaintext) =>
      if keys.None? then Panicked else Sent(Frame(cfg.p, keys.value, keys.value.writeIv, plaintext))
    case Receive(frame) =>
      if |frame| < 20 then Refused(TooShort)
      else if keys.None? then Panicked
      else (match Open(cfg.p, keys.value, frame) case Ok(pt) => Received(pt) case Err(why) => Refused(why))
  }

  /** The channel object takes exactly this step wherever the source lets a caller take it. */
  method Apply(ch: SecureChannel, ev: Event) returns (o: Outcome)
    requires ch.Valid() && Answer(ch.cfg, ch.keys, ev) != Panicked
    modifies ch`keys
    ensures ch.Valid() && ch.keys == After(ch.cfg, old(ch.keys), ev)
    ensures o == Answer(ch.cfg, old(ch.keys), ev)
  {
    match ev
    case Greet(fields) =>
      var r := ch.ProcessServerHello(fields);
      o := if r.Ok? then Accepted else Rejected(r.error);
    case Send(plaintext) =>
      var frame := ch.Encrypt(plaintext);
      o := Sent(frame);
    case Receive(frame) =>
      var r := ch.Decrypt(frame);
      o := if r.Ok? then Received(r.value) else Refused(r.error);
  }

  function RunKeys(cfg: Config, keys: Option<Keys>, evs: seq<Event>): (r: Option<Keys>)
    requires cfg.n >= 2 && Shaped(keys)
    ensures Shaped(r)
    decreases |evs|
  {
    if evs == [] then keys else RunKeys(cfg, After(cfg, keys, evs[0]), evs[1..])
  }

  function RunAnswers(cfg: Config, keys: Option<Keys>, evs: seq<Event>): (r: seq<Outcome>)
    requires cfg.n >= 2 && Shaped(keys)
    ensures |r| == |evs|
    decreases |evs|
  {
    if evs == [] then []
    else [Answer(cfg, keys, evs[0])] + RunAnswers(cfg, After(cfg, keys, evs[0]), evs[1..])
  }

  lemma {:induction false} RunSplit(cfg: Config, keys: Option<Keys>, a: seq<Event>, b: seq<Event>)
    requires cfg.n >= 2 && Shaped(keys)
    ensures RunKeys(cfg, keys, a + b) == RunKeys(cfg, RunKeys(cfg, keys, a), b)
    ensures RunAnswers(cfg, keys, a + b) == RunAnswers(cfg, keys, a) + RunAnswers(cfg, RunKeys(cfg, keys, a), b)
    decreases |a|
  {
    if a == [] {
      assert a + b == b;
    } else {
      RunSplit(cfg, After(cfg, keys, a[0]), a[1..], b);
      assert (a + b)[1..] == a[1..] + b;
    }
  }

  // -------------------------------------------------------------- when keys exist

  lemma {:induction false} KeyedRunStaysKeyed(cfg: Config, keys: Option<Keys>, evs: seq<Event>)
    requires cfg.n >= 2 && Shaped(keys) && keys.Some?
    ensures RunKeys(cfg, keys, evs).Some?
    decreases |evs|
  {
    if evs != [] {
      KeyedRunStaysKeyed(cfg, After(cfg, keys, evs[0]), evs[1..]);
    }
  }

  /** A new channel has keys exactly when some hello has been accepted; nothing takes them away. */
  lemma {:induction false} KeyedIffGreeted(cfg: Config, evs: seq<Event>)
    requires cfg.n >= 2
    ensures RunKeys(cfg, None, evs).Some? <==> Accepted in RunAnswers(cfg, None, evs)
    decreases |evs|
  {
    if evs != [] {
      var keys := After(cfg, None, evs[0]);
      if keys.Some? {
        KeyedRunStaysKeyed(cfg, keys, evs[1..]);
        assert RunAnswers(cfg, None, evs)[0] == Accepted;
      } else {
        KeyedIffGreeted(cfg, evs[1..]);
        assert Answer(cfg, None, evs[0]) != Accepted;
      }
    }
  }

  /** Before a hello is accepted: sending panics, and so does receiving, but a frame too short for a tag is refused. */
  lemma BeforeHello(cfg: Config, evs: seq<Event>, ev: Event)
    requires cfg.n >= 2 && Accepted !in RunAnswers(cfg, None, evs) && !ev.Greet?
    ensures RunKeys(cfg, None, evs) == None
    ensures Answer(cfg, RunKeys(cfg, None, evs), ev)
         == if ev.Receive? && |ev.frame| < 20 then Refused(TooShort) else Panicked
  {
    KeyedIffGreeted(cfg, evs);
  }

  // ------------------------------------------------------------ refusals stutter

  /** A call that is not served leaves the channel as it was. */
  lemma UnservedChangesNothing(cfg: Config, keys: Option<Keys>, ev: Event)
    requires cfg.n >= 2 && Shaped(keys) && !Answer(cfg, keys, ev).Served()
    ensures After(cfg, keys, ev) == keys
  {
  }

  /** The run without the calls that were not served. */
  function ServedEvents(cfg: Config, keys: Option<Keys>, evs: seq<Event>): seq<Event>
    requires cfg.n >= 2 && Shaped(keys)
    decreases |evs|
  {
    if evs == [] then []
    else (if Answer(cfg, keys, evs[0]).Served() then [evs[0]] else [])
         + ServedEvents(cfg, After(cfg, keys, evs[0]), evs[1..])
  }

  function ServedAnswers(os: seq<Outcome>): seq<Outcome> {
    if os == [] then [] else (if os[0].Served() then [os[0]] else []) + ServedAnswers(os[1..])
  }

  /**
   Refused frames and hellos are stutters: taking all of them out of a run,
   wherever they stand, changes neither the keys and vectors at its end nor
   what any other call answered.
   */
  lemma {:induction false} RefusalsStutter(cfg: Config, keys: Option<Keys>, evs: seq<Event>)
    requires cfg.n >= 2 && Shaped(keys)
    ensures RunKeys(cfg, keys, ServedEvents(cfg, keys, evs)) == RunKeys(cfg, keys, evs)
    ensures RunAnswers(cfg, keys, ServedEvents(cfg, keys, evs)) == ServedAnswers(RunAnswers(cfg, keys, evs))
    decreases |evs|
  {
    if evs != [] {
      var next := After(cfg, keys, evs[0]);
      RefusalsStutter(cfg, next, evs[1..]);
      var rest := ServedEvents(cfg, next, evs[1..]);
      var os := RunAnswers(cfg, keys, evs);
      assert os[1..] == RunAnswers(cfg, next, evs[1..]);
      if Answer(cfg, keys, evs[0]).Served() {
        var kept := [evs[0]] + rest;
        assert kept[1..] == rest;
      } else {
        UnservedChangesNothing(cfg, keys, evs[0]);
        assert [] + rest == rest;
        assert [] + ServedAnswers(os[1..]) == ServedAnswers(os[1..]);
      }
    }
  }

  /** The same said of insertion: two runs that differ only in unserved calls end alike and answer alike. */
  lemma SameServedSameEnd(cfg: Config, keys: Option<Keys>, a: seq<Event>, b: seq<Event>)
    requires cfg.n >= 2 && Shaped(keys)
    requires ServedEvents(cfg, keys, a) == ServedEvents(cfg, keys, b)
    ensures RunKeys(cfg, keys, a) == RunKeys(cfg, keys, b)
    ensures ServedAnswers(RunAnswers(cfg, keys, a)) == ServedAnswers(RunAnswers(cfg, keys, b))
  {
    RefusalsStutter(cfg, keys, a);
    RefusalsStutter(cfg, keys, b);
  }

  /** Every call of `junk` would be refused where the channel stands. */
  ghost predicate AllUnserved(cfg: Config, keys: Option<Keys>, junk: seq<Event>)
    requires cfg.n >= 2 && Shaped(keys)
  {
    forall i :: 0 <= i < |junk| ==> !Answer(cfg, keys, junk[i]).Served()
  }

  lemma {:induction false} JunkIsIdle(cfg: Config, keys: Option<Keys>, junk: seq<Event>)
    requires cfg.n >= 2 && Shaped(keys) && AllUnserved(cfg, keys, junk)
    ensures RunKeys(cfg, keys, junk) == keys
    ensures ServedEvents(cfg, keys, junk) == []
    decreases |junk|
  {
    if junk != [] {
      UnservedChangesNothing(cfg, keys, junk[0]);
      JunkIsIdle(cfg, keys, junk[1..]);
    }
  }

  /** The calls whose answer says they were served. */
  function Picked(evs: seq<Event>, os: seq<Outcome>): seq<Event>
    requires |evs| == |os|
  {
    if evs == [] then [] else (if os[0].Served() then [evs[0]] else []) + Picked(evs[1..], os[1..])
  }

  lemma {:induction false} PickedSplit(a: seq<Event>, b: seq<Event>, oa: seq<Outcome>, ob: seq<Outcome>)
    requires |a| == |oa| && |b| == |ob|
    ensures Picked(a + b, oa + ob) == Picked(a, oa) + Picked(b, ob)
  {
    if a == [] {
      assert a + b == b && oa + ob == ob;
    } else {
      PickedSplit(a[1..], b, oa[1..], ob);
      PickedNext(a, b, oa, ob);
      Regroup(if oa[0].Served() then [a[0]] else [], Picked(a[1..], oa[1..]), Picked(b, ob));
    }
  }

  lemma PickedNext(a: seq<Event>, b: seq<Event>, oa: seq<Outcome>, ob: seq<Outcome>)
    requires |a| == |oa| && |b| == |ob| && a != []
    ensures Picked(a + b, oa + ob) == (if oa[0].Served() then [a[0]] else []) + Picked(a[1..] + b, oa[1..] + ob)
  {
    assert (a + b)[1..] == a[1..] + b && (oa + ob)[1..] == oa[1..] + ob;
  }

  lemma Regroup(first: seq<Event>, rest: seq<Event>, later: seq<Event>)
    ensures first + (rest + later) == first + rest + later
  {
  }

  lemma {:induction false} ServedIsPicked(cfg: Config, keys: Option<Keys>, evs: seq<Event>)
    requires cfg.n >= 2 && Shaped(keys)
    ensures ServedEvents(cfg, keys, evs) == Picked(evs, RunAnswers(cfg, keys, evs))
    decreases |evs|
  {
    if evs != [] {
      var next := After(cfg, keys, evs[0]);
      ServedIsPicked(cfg, next, evs[1..]);
      assert RunAnswers(cfg, keys, evs)[1..] == RunAnswers(cfg, next, evs[1..]);
    }
  }

  lemma ServedSplit(cfg: Config, keys: Option<Keys>, a: seq<Event>, b: seq<Event>)
    requires cfg.n >= 2 && Shaped(keys)
    ensures ServedEvents(cfg, keys, a + b) == ServedEvents(cfg, keys, a) + ServedEvents(cfg, RunKeys(cfg, keys, a), b)
  {
    var here := RunKeys(cfg, keys, a);
    ServedIsPicked(cfg, keys, a + b);
    ServedIsPicked(cfg, keys, a);
    ServedIsPicked(cfg, here, b);
    RunSplit(cfg, keys, a, b);
    PickedSplit(a, b, RunAnswers(cfg, keys, a), RunAnswers(cfg, here, b));
  }

  lemma InsertedAnswers(cfg: Config, keys: Option<Keys>, a: seq<Event>, junk: seq<Event>, b: seq<Event>)
    requires cfg.n >= 2 && Shaped(keys) && AllUnserved(cfg, RunKeys(cfg, keys, a), junk)
    ensures RunKeys(cfg, keys, a + junk + b) == RunKeys(cfg, keys, a + b)
    ensures var os := RunAnswers(cfg, keys, a + junk + b);
            os[..|a|] + os[|a| + |junk|..] == RunAnswers(cfg, keys, a + b)
  {
    var here := RunKeys(cfg, keys, a);
    JunkIsIdle(cfg, here, junk);
    RunSplit(cfg, keys, a, junk);
    RunSplit(cfg, keys, a + junk, b);
    RunSplit(cfg, keys, a, b);
    CutMiddle(RunAnswers(cfg, keys, a), RunAnswers(cfg, here, junk), RunAnswers(cfg, here, b));
  }

  lemma InsertedServed(cfg: Config, keys: Option<Keys>, a: seq<Event>, junk: seq<Event>, b: seq<Event>)
    requires cfg.n >= 2 && Shaped(keys) && AllUnserved(cfg, RunKeys(cfg, keys, a), junk)
    ensures ServedEvents(cfg, keys, a + junk + b) == ServedEvents(cfg, keys, a + b)
  {
    JunkIsIdle(cfg, RunKeys(cfg, keys, a), junk);
    RunSplit(cfg, keys, a, junk);
    ServedSplit(cfg, keys, a, junk);
    ServedSplit(cfg, keys, a + junk, b);
    ServedSplit(cfg, keys, a, b);
  }

  /**
   Any number of refused calls, put in anywhere: the keys and vectors at the
   end are the same, every other call answers the same, and what is served is
   the same.
   */
  lemma InsertedRefusals(cfg: Config, keys: Option<Keys>, a: seq<Event>, junk: seq<Event>, b: seq<Event>)
    requires cfg.n >= 2 && Shaped(keys) && AllUnserved(cfg, RunKeys(cfg, keys, a), junk)
    ensures RunKeys(cfg, keys, a + junk + b) == RunKeys(cfg, keys, a + b)
    ensures var os := RunAnswers(cfg, keys, a + junk + b);
            os[..|a|] + os[|a| + |junk|..] == RunAnswers(cfg, keys, a + b)
    ensures ServedEvents(cfg, keys, a + junk + b) == ServedEvents(cfg, keys, a + b)
  {
    InsertedAnswers(cfg, keys, a, junk, b);
    InsertedServed(cfg, keys, a, junk, b);
  }

  lemma CutMiddle<T>(x: seq<T>, y: seq<T>, z: seq<T>)
    ensures var s := x + y + z; s[..|x|] + s[|x| + |y|..] == x + z
  {
  }

  // ------------------------------------------------------------------ fresh frames

  lemma {:induction false} BlockStays(cfg: Config, keys: Option<Keys>, evs: seq<Event>)
    requires cfg.n >= 2 && Shaped(keys) && keys.Some?
    requires Accepted !in RunAnswers(cfg, keys, evs)
    ensures RunKeys(cfg, keys, evs).Some? && RunKeys(cfg, keys, evs).value.block == keys.value.block
    decreases |evs|
  {
    if evs != [] {
      var os := RunAnswers(cfg, keys, evs);
      var next := After(cfg, keys, evs[0]);
      assert os[0] == Answer(cfg, keys, evs[0]) && os[0] in os;
      assert os[1..] == RunAnswers(cfg, next, evs[1..]);
      BlockStays(cfg, next, evs[1..]);
    }
  }

  /** The last accepted hello of a run. */
  lemma LastGreeting(os: seq<Outcome>) returns (i: nat)
    requires Accepted in os
    ensures i < |os| && os[i] == Accepted && forall j :: i < j < |os| ==> os[j] != Accepted
  {
    i := |os| - 1;
    while os[i] != Accepted
      invariant i < |os| && forall j :: i < j < |os| ==> os[j] != Accepted
      decreases i
    {
      i := i - 1;
    }
  }

  /**
   However many messages have gone by, `encrypt_fresh` produces what the first
   `encrypt` after the current hello would have produced.
   */
  lemma FreshIsFirst(cfg: Config, evs: seq<Event>, plaintext: Bytes) returns (i: nat)
    requires cfg.n >= 2 && RunKeys(cfg, None, evs).Some?
    ensures i < |evs| && RunAnswers(cfg, None, evs)[i] == Accepted
    ensures forall j :: i < j < |evs| ==> RunAnswers(cfg, None, evs)[j] != Accepted
    ensures var now := RunKeys(cfg, None, evs).value;
            Answer(cfg, RunKeys(cfg, None, evs[..i + 1]), Send(plaintext))
              == Sent(Frame(cfg.p, now, now.InitialWriteIv(), plaintext))
  {
    KeyedIffGreeted(cfg, evs);
    i := LastGreeting(RunAnswers(cfg, None, evs));
    SplitAt(cfg, None, evs, i);
    var greeted := RunKeys(cfg, None, evs[..i + 1]);
    BlockStays(cfg, greeted, evs[i + 1..]);
  }

  /** A run around its `i`th event. */
  lemma SplitAt(cfg: Config, keys: Option<Keys>, evs: seq<Event>, i: nat)
    requires cfg.n >= 2 && Shaped(keys) && i < |evs|
    ensures var here := RunKeys(cfg, keys, evs[..i + 1]);
            && RunKeys(cfg, keys, evs) == RunKeys(cfg, here, evs[i + 1..])
            && RunAnswers(cfg, here, evs[i + 1..]) == RunAnswers(cfg, keys, evs)[i + 1..]
            && (RunAnswers(cfg, keys, evs)[i] == Accepted ==>
                  here.Some? && here.value.writeIv == here.value.InitialWriteIv())
  {
    var before, here, later := evs[..i], [evs[i]], evs[i + 1..];
    assert evs[..i + 1] == before + here;
    assert evs == evs[..i + 1] + later;
    RunSplit(cfg, keys, before, here);
    RunSplit(cfg, keys, evs[..i + 1], later);
    GreetedKeys(cfg, RunKeys(cfg, keys, before), evs[i]);
  }

  lemma GreetedKeys(cfg: Config, keys: Option<Keys>, ev: Event)
    requires cfg.n >= 2 && Shaped(keys)
    ensures RunKeys(cfg, keys, [ev]) == After(cfg, keys, ev)
    ensures RunAnswers(cfg, keys, [ev]) == [Answer(cfg, keys, ev)]
    ensures Answer(cfg, keys, ev) == Accepted ==>
              After(cfg, keys, ev).Some?
              && After(cfg, keys, ev).value.writeIv == After(cfg, keys, ev).value.InitialWriteIv()
  {
    assert [ev][1..] == [];
  }
}
