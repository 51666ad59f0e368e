/**
 Two channels talking: what one side enciphers, the other reads.
 */
module Conversation {
  import opened ByteStrings
  import opened Cipher
  import opened Channel

  // ------------------------------------------------------ one continuous CBC stream

  function KeysAfter(p: Primitives, k: Keys, texts: seq<Bytes>): (r: Keys)
    requires k.Valid()
    ensures r.Valid() && r.block == k.block && r.readIv == k.readIv
    decreases |texts|
  {
    if texts == [] then k else KeysAfter(p, AfterEncrypt(p, k, texts[0]), texts[1..])
  }

  /** The frames of a list of messages, in order. */
  function Frames(p: Primitives, k: Keys, texts: seq<Bytes>): (r: seq<Bytes>)
    requires k.Valid()
    ensures |r| == |texts| && forall i :: 0 <= i < |r| ==> |r[i]| >= 36
    decreases |texts|
  {
    if texts == [] then [] else [Frame(p, k, k.writeIv, texts[0])] + Frames(p, AfterEncrypt(p, k, texts[0]), texts[1..])
  }

  /** All messages padded, one after the other. */
  function Padded(texts: seq<Bytes>): (r: Bytes)
    ensures Whole(r)
  {
    if texts == [] then [] else Pad(texts[0]) + Padded(texts[1..])
  }

  /** All frames without their tags, one after the other. */
  function Bodies(frames: seq<Bytes>): Bytes
    requires forall i :: 0 <= i < |frames| ==> |frames[i]| >= 20
  {
    if frames == [] then [] else Body(frames[0]) + Bodies(frames[1..])
  }

  lemma FramesStep(p: Primitives, k: Keys, texts: seq<Bytes>)
    requires k.Valid() && texts != []
    ensures Frames(p, k, texts)[0] == Frame(p, k, k.writeIv, texts[0])
    ensures Frames(p, k, texts)[1..] == Frames(p, AfterEncrypt(p, k, texts[0]), texts[1..])
  {
  }

  lemma BodyOfFrame(p: Primitives, k: Keys, iv: Block, plaintext: Bytes)
    requires k.Valid()
    ensures |Frame(p, k, iv, plaintext)| >= 36
    ensures Body(Frame(p, k, iv, plaintext)) == Ciphertext(p, k, iv, plaintext)
  {
  }

  /**
   Chaining message by message is one continuous CBC pass: the frames without
   their tags are the encryption, from the starting vector, of all the padded
   messages together, and the vector left behind is that pass's last block.
   */
  lemma {:induction false} FramesAreOneStream(p: Primitives, k: Keys, texts: seq<Bytes>)
    requires k.Valid()
    ensures Bodies(Frames(p, k, texts)) == CbcEncrypt(p, k.WriteAes(), k.writeIv, Padded(texts))
    ensures KeysAfter(p, k, texts).writeIv == Chain(k.writeIv, CbcEncrypt(p, k.WriteAes(), k.writeIv, Padded(texts)))
    decreases |texts|
  {
    if texts != [] {
      var ct := Ciphertext(p, k, k.writeIv, texts[0]);
      var next := AfterEncrypt(p, k, texts[0]);
      var rest := Padded(texts[1..]);
      FramesAreOneStream(p, next, texts[1..]);
      BodyOfFrame(p, k, k.writeIv, texts[0]);
      CbcAppend(p, k.WriteAes(), k.writeIv, Pad(texts[0]), rest);
      assert Frames(p, k, texts)[1..] == Frames(p, next, texts[1..]);
      ChainsOn(k.writeIv, ct, CbcEncrypt(p, k.WriteAes(), next.writeIv, rest));
    }
  }

  lemma ChainsOn(iv: Block, a: Bytes, b: Bytes)
    requires Whole(a) && Whole(b)
    ensures Whole(a + b) && Chain(iv, a + b) == Chain(Chain(iv, a), b)
  {
    WholeJoin(a, b);
    if b == [] {
      assert a + b == a;
    } else {
      WholeLong(b);
      assert (a + b)[|a + b| - 16..] == b[|b| - 16..];
    }
  }

  // ------------------------------------------------------------------- the peer reads

  /** `b` reads with what `a` writes with, and stands where `a` stands. */
  predicate Reads(b: Keys, a: Keys)
    requires a.Valid() && b.Valid()
  {
    b.ReadAes() == a.WriteAes() && b.ReadMac() == a.WriteMac() && b.readIv == a.writeIv
  }

  /** A frame reads back as what was written, and both sides move to the same vector. */
  lemma FrameIsRead(p: Primitives, a: Keys, b: Keys, plaintext: Bytes)
    requires p.Lawful() && a.Valid() && b.Valid() && Reads(b, a)
    ensures Open(p, b, Frame(p, a, a.writeIv, plaintext)) == Ok(plaintext)
    ensures Reads(AfterDecrypt(p, b, Frame(p, a, a.writeIv, plaintext)), AfterEncrypt(p, a, plaintext))
  {
    var ct := Ciphertext(p, a, a.writeIv, plaintext);
    var f := Frame(p, a, a.writeIv, plaintext);
    BodyOfFrame(p, a, a.writeIv, plaintext);
    AesRoundTrip(p, a.WriteAes(), a.writeIv, plaintext);
    assert f[|f| - 20..] == p.hmacSha1(a.WriteMac(), a.writeIv + ct);
    assert f[|f| - 36..|f| - 20] == ct[|ct| - 16..];
  }

  /** Only the writer's own frame of a text is read as that text. */
  lemma OnlyTheWritersFrame(p: Primitives, a: Keys, b: Keys, frame: Bytes, text: Bytes)
    requires p.Invertible() && a.Valid() && b.Valid() && Reads(b, a)
    ensures Open(p, b, frame) == Ok(text) <==> frame == Frame(p, a, a.writeIv, text)
  {
    OpenIff(p, b, frame, text);
    FrameIff(p, a, a.writeIv, text, frame);
  }

  /** So a frame is refused exactly when the writer, where it stands, could have written it for no text. */
  lemma RefusedIffForeign(p: Primitives, a: Keys, b: Keys, frame: Bytes)
    requires p.Invertible() && a.Valid() && b.Valid() && Reads(b, a)
    ensures Open(p, b, frame).Err? <==> forall text :: frame != Frame(p, a, a.writeIv, text)
  {
    forall text ensures Open(p, b, frame) == Ok(text) <==> frame == Frame(p, a, a.writeIv, text) {
      OnlyTheWritersFrame(p, a, b, frame, text);
    }
    var r := Open(p, b, frame);
    assert r.Ok? ==> frame == Frame(p, a, a.writeIv, r.value);
  }

  /** A frame with any bit of its tag changed is refused for its tag, whatever it carries. */
  lemma ChangedTagRefused(p: Primitives, a: Keys, b: Keys, text: Bytes, tag: Digest20)
    requires a.Valid() && b.Valid() && Reads(b, a)
    requires Ciphertext(p, a, a.writeIv, text) + tag != Frame(p, a, a.writeIv, text)
    ensures Open(p, b, Ciphertext(p, a, a.writeIv, text) + tag) == Err(BadMac)
  {
    var ct := Ciphertext(p, a, a.writeIv, text);
    var f := ct + tag;
    assert f[..|f| - 20] == ct && f[|f| - 20..] == tag;
    RefusalDecided(p, b, f);
  }

  /** A frame read under another vector than it was written under passes only if both vectors give one tag. */
  lemma ReplayNeedsCollision(p: Primitives, a: Keys, b: Keys, iv: Block, text: Bytes)
    requires a.Valid() && b.Valid() && b.ReadMac() == a.WriteMac() && Open(p, b, Frame(p, a, iv, text)).Ok?
    ensures var ct := Body(Frame(p, a, iv, text));
            p.hmacSha1(a.block[64..84], b.readIv + ct) == p.hmacSha1(a.block[64..84], iv + ct)
  {
    var f := Frame(p, a, iv, text);
    BodyOfFrame(p, a, iv, text);
    OpenIff(p, b, f, Open(p, b, f).value);
  }

  /** Reading a list of frames in order: what each says, stopping at nothing. */
  function Readings(p: Primitives, k: Keys, frames: seq<Bytes>): seq<Result<Bytes, Refusal>>
    requires k.Valid()
    decreases |frames|
  {
    if frames == [] then [] else [Open(p, k, frames[0])] + Readings(p, AfterDecrypt(p, k, frames[0]), frames[1..])
  }

  function KeysAfterReading(p: Primitives, k: Keys, frames: seq<Bytes>): (r: Keys)
    requires k.Valid()
    ensures r.Valid() && r.block == k.block && r.writeIv == k.writeIv
    decreases |frames|
  {
    if frames == [] then k else KeysAfterReading(p, AfterDecrypt(p, k, frames[0]), frames[1..])
  }

  function AllOk(texts: seq<Bytes>): seq<Result<Bytes, Refusal>> {
    seq(|texts|, i requires 0 <= i < |texts| => Ok(texts[i]))
  }

  /** A peer whose read windows are this side's write windows reads exactly the messages sent, and ends in step. */
  lemma {:induction false} PeerReadsAll(p: Primitives, a: Keys, b: Keys, texts: seq<Bytes>)
    requires p.Lawful() && a.Valid() && b.Valid() && Reads(b, a)
    ensures Readings(p, b, Frames(p, a, texts)) == AllOk(texts)
    ensures Reads(KeysAfterReading(p, b, Frames(p, a, texts)), KeysAfter(p, a, texts))
    decreases |texts|
  {
    if texts != [] {
      var f := Frame(p, a, a.writeIv, texts[0]);
      var a', b' := AfterEncrypt(p, a, texts[0]), AfterDecrypt(p, b, f);
      FrameIsRead(p, a, b, texts[0]);
      PeerReadsAll(p, a', b', texts[1..]);
      FramesStep(p, a, texts);
      assert AllOk(texts) == [Ok(texts[0])] + AllOk(texts[1..]);
    }
  }

  lemma SameHeadTail<T>(a: seq<T>, b: seq<T>)
    requires |a| == |b| > 0 && a[0] == b[0] && a[1..] == b[1..]
    ensures a == b
  {
    assert a == [a[0]] + a[1..] && b == [b[0]] + b[1..];
  }

  /** In step after every message, not only the last: the first `i` frames are the frames of the first `i` messages. */
  lemma {:induction false} FramesOfPrefix(p: Primitives, k: Keys, texts: seq<Bytes>, i: nat)
    requires k.Valid() && i <= |texts|
    ensures Frames(p, k, texts)[..i] == Frames(p, k, texts[..i])
    decreases i
  {
    if i > 0 {
      var next := AfterEncrypt(p, k, texts[0]);
      FramesOfPrefix(p, next, texts[1..], i - 1);
      FramesStep(p, k, texts);
      FramesStep(p, k, texts[..i]);
      assert texts[..i][1..] == texts[1..][..i - 1];
      SameHeadTail(Frames(p, k, texts)[..i], Frames(p, k, texts[..i]));
    }
  }

  lemma InStepAfterEach(p: Primitives, a: Keys, b: Keys, texts: seq<Bytes>, i: nat)
    requires p.Lawful() && a.Valid() && b.Valid() && Reads(b, a) && i <= |texts|
    ensures KeysAfterReading(p, b, Frames(p, a, texts)[..i]).readIv == KeysAfter(p, a, texts[..i]).writeIv
  {
    FramesOfPrefix(p, a, texts, i);
    PeerReadsAll(p, a, b, texts[..i]);
  }

  // --------------------------------------------------------------- a network between them

  /** One direction: the writer, the reader, the frames under way, and what was sent and read so far. */
  datatype Line = Line(writer: Keys, reader: Keys, transit: seq<Bytes>, sent: seq<Bytes>, got: seq<Bytes>) {
    predicate Valid() {
      writer.Valid() && reader.Valid()
    }
  }

  /** Both directions between two sides. */
  datatype Net = Net(a: Keys, b: Keys, ab: seq<Bytes>, ba: seq<Bytes>,
                     sentA: seq<Bytes>, gotB: seq<Bytes>, sentB: seq<Bytes>, gotA: seq<Bytes>)
  {
    predicate Valid() {
      a.Valid() && b.Valid()
    }
    function Forth(): Line { Line(a, b, ab, sentA, gotB) }
    function Back(): Line { Line(b, a, ba, sentB, gotA) }
  }

  /** `Noise` is a frame that arrives out of nowhere and is refused. */
  datatype Step =
    | WriteA(text: Bytes) | WriteB(text: Bytes)
    | DeliverToB | DeliverToA
    | NoiseToB(frame: Bytes) | NoiseToA(frame: Bytes)

  predicate Enabled(p: Primitives, n: Net, s: Step)
    requires n.Valid()
  {
    match s
    case DeliverToB => n.ab != []
    case DeliverToA => n.ba != []
    case NoiseToB(f) => Open(p, n.b, f).Err?
    case NoiseToA(f) => Open(p, n.a, f).Err?
    case _ => true
  }

  function Heard(r: Result<Bytes, Refusal>): seq<Bytes> {
    match r case Ok(text) => [text] case Err(_) => []
  }

  function Take(p: Primitives, n: Net, s: Step): (r: Net)
    requires n.Valid() && Enabled(p, n, s)
    ensures r.Valid()
  {
    match s
    case WriteA(t) =>
      n.(a := AfterEncrypt(p, n.a, t), ab := n.ab + [Frame(p, n.a, n.a.writeIv, t)], sentA := n.sentA + [t])
    case WriteB(t) =>
      n.(b := AfterEncrypt(p, n.b, t), ba := n.ba + [Frame(p, n.b, n.b.writeIv, t)], sentB := n.sentB + [t])
    case DeliverToB =>
      n.(b := AfterDecrypt(p, n.b, n.ab[0]), ab := n.ab[1..], gotB := n.gotB + Heard(Open(p, n.b, n.ab[0])))
    case DeliverToA =>
      n.(a := AfterDecrypt(p, n.a, n.ba[0]), ba := n.ba[1..], gotA := n.gotA + Heard(Open(p, n.a, n.ba[0])))
    case NoiseToB(f) => n.(b := AfterDecrypt(p, n.b, f), gotB := n.gotB + Heard(Open(p, n.b, f)))
    case NoiseToA(f) => n.(a := AfterDecrypt(p, n.a, f), gotA := n.gotA + Heard(Open(p, n.a, f)))
  }

  ghost predicate IsRun(p: Primitives, ns: seq<Net>, steps: seq<Step>) {
    && |ns| == |steps| + 1
    && (forall i :: 0 <= i < |ns| ==> ns[i].Valid())
    && forall i {:trigger Follows(p, ns[i], steps[i], ns[i + 1])} ::
         0 <= i < |steps| ==> Follows(p, ns[i], steps[i], ns[i + 1])
  }

  ghost predicate Follows(p: Primitives, n: Net, s: Step, n': Net)
    requires n.Valid()
  {
    Enabled(p, n, s) && n' == Take(p, n, s)
  }

  /** Reading what is under way completes what was sent, and brings the reader to where the writer is. */
  ghost predicate InOrder(p: Primitives, l: Line)
    requires l.Valid()
  {
    exists pending :: Completes(p, l, pending)
  }

  ghost predicate Completes(p: Primitives, l: Line, pending: seq<Bytes>)
    requires l.Valid()
  {
    && Readings(p, l.reader, l.transit) == AllOk(pending)
    && l.got + pending == l.sent
    && Reads(KeysAfterReading(p, l.reader, l.transit), l.writer)
  }

  lemma {:induction false} ReadingsSnoc(p: Primitives, k: Keys, fs: seq<Bytes>, f: Bytes)
    requires k.Valid()
    ensures Readings(p, k, fs + [f]) == Readings(p, k, fs) + [Open(p, KeysAfterReading(p, k, fs), f)]
    ensures KeysAfterReading(p, k, fs + [f]) == AfterDecrypt(p, KeysAfterReading(p, k, fs), f)
    decreases |fs|
  {
    if fs == [] {
      assert [f][1..] == [] && fs + [f] == [f];
    } else {
      ReadingsSnoc(p, AfterDecrypt(p, k, fs[0]), fs[1..], f);
      assert (fs + [f])[1..] == fs[1..] + [f];
    }
  }

  /** Reading does not look at the write vector. */
  lemma {:induction false} ReadingIgnoresWriting(p: Primitives, k: Keys, k': Keys, fs: seq<Bytes>)
    requires k.Valid() && k'.Valid() && k'.block == k.block && k'.readIv == k.readIv
    ensures Readings(p, k', fs) == Readings(p, k, fs)
    ensures KeysAfterReading(p, k', fs).readIv == KeysAfterReading(p, k, fs).readIv
    decreases |fs|
  {
    if fs != [] {
      assert Open(p, k', fs[0]) == Open(p, k, fs[0]);
      ReadingIgnoresWriting(p, AfterDecrypt(p, k, fs[0]), AfterDecrypt(p, k', fs[0]), fs[1..]);
    }
  }

  lemma LineWrites(p: Primitives, l: Line, t: Bytes)
    requires p.Lawful() && l.Valid() && InOrder(p, l)
    ensures InOrder(p, Line(AfterEncrypt(p, l.writer, t), l.reader,
                            l.transit + [Frame(p, l.writer, l.writer.writeIv, t)], l.sent + [t], l.got))
  {
    var pending :| Completes(p, l, pending);
    var f := Frame(p, l.writer, l.writer.writeIv, t);
    var l' := Line(AfterEncrypt(p, l.writer, t), l.reader, l.transit + [f], l.sent + [t], l.got);
    ReadingsSnoc(p, l.reader, l.transit, f);
    FrameIsRead(p, l.writer, KeysAfterReading(p, l.reader, l.transit), t);
    assert AllOk(pending + [t]) == AllOk(pending) + [Ok(t)];
    assert l.got + (pending + [t]) == l.sent + [t];
    assert Completes(p, l', pending + [t]);
  }

  lemma LineDelivers(p: Primitives, l: Line)
    requires l.Valid() && InOrder(p, l) && l.transit != []
    ensures InOrder(p, Line(l.writer, AfterDecrypt(p, l.reader, l.transit[0]), l.transit[1..], l.sent,
                            l.got + Heard(Open(p, l.reader, l.transit[0]))))
  {
    var pending :| Completes(p, l, pending);
    var rs := Readings(p, l.reader, l.transit);
    assert |AllOk(pending)| == |pending|;
    assert rs[0] == Ok(pending[0]) && rs[1..] == AllOk(pending[1..]);
    var l' := Line(l.writer, AfterDecrypt(p, l.reader, l.transit[0]), l.transit[1..], l.sent,
                   l.got + Heard(Open(p, l.reader, l.transit[0])));
    assert l'.got + pending[1..] == l.got + pending;
    assert Completes(p, l', pending[1..]);
  }

  /** What the reader writes, and what the writer reads, does not touch this direction. */
  lemma LineIndifferent(p: Primitives, l: Line, writer: Keys, reader: Keys)
    requires l.Valid() && InOrder(p, l)
    requires writer.Valid() && writer.block == l.writer.block && writer.writeIv == l.writer.writeIv
    requires reader.Valid() && reader.block == l.reader.block && reader.readIv == l.reader.readIv
    ensures InOrder(p, l.(writer := writer, reader := reader))
  {
    var pending :| Completes(p, l, pending);
    ReadingIgnoresWriting(p, l.reader, reader, l.transit);
    assert Completes(p, l.(writer := writer, reader := reader), pending);
  }

  /** Every step of the network keeps both directions in order. */
  lemma StepKeepsOrder(p: Primitives, n: Net, s: Step)
    requires p.Lawful() && n.Valid() && Enabled(p, n, s)
    requires InOrder(p, n.Forth()) && InOrder(p, n.Back())
    ensures InOrder(p, Take(p, n, s).Forth()) && InOrder(p, Take(p, n, s).Back())
  {
    var r := Take(p, n, s);
    match s
    case WriteA(t) =>
      LineWrites(p, n.Forth(), t);
      LineIndifferent(p, n.Back(), r.b, r.a);
    case WriteB(t) =>
      LineWrites(p, n.Back(), t);
      LineIndifferent(p, n.Forth(), r.a, r.b);
    case DeliverToB =>
      LineDelivers(p, n.Forth());
      LineIndifferent(p, n.Back(), r.b, r.a);
    case DeliverToA =>
      LineDelivers(p, n.Back());
      LineIndifferent(p, n.Forth(), r.a, r.b);
    case NoiseToB(f) =>
      assert r == n;
    case NoiseToA(f) =>
      assert r == n;
  }

  /** Both sides fresh from one handshake, nothing under way. */
  ghost predicate Fresh(n: Net) {
    && n.Valid() && Reads(n.b, n.a) && Reads(n.a, n.b)
    && n.ab == n.ba == [] && n.sentA == n.gotB == [] && n.sentB == n.gotA == []
  }

  lemma {:induction false} RunKeepsOrder(p: Primitives, ns: seq<Net>, steps: seq<Step>, i: nat)
    requires p.Lawful() && IsRun(p, ns, steps) && Fresh(ns[0]) && i < |ns|
    ensures InOrder(p, ns[i].Forth()) && InOrder(p, ns[i].Back())
  {
    if i == 0 {
      assert Completes(p, ns[0].Forth(), []);
      assert Completes(p, ns[0].Back(), []);
    } else {
      RunKeepsOrder(p, ns, steps, i - 1);
      var j := i - 1;
      assert Follows(p, ns[j], steps[j], ns[j + 1]);
      StepKeepsOrder(p, ns[j], steps[j]);
    }
  }

  /**
   Safety of every run, both ways at once, however writing, delivery and
   refused noise interleave: what was read is always the beginning of what was
   sent, and all of it once nothing is under way.
   */
  lemma NothingLostOrReordered(p: Primitives, ns: seq<Net>, steps: seq<Step>, i: nat)
    requires p.Lawful() && IsRun(p, ns, steps) && Fresh(ns[0]) && i < |ns|
    ensures ns[i].gotB <= ns[i].sentA && ns[i].gotA <= ns[i].sentB
    ensures ns[i].ab == [] ==> ns[i].gotB == ns[i].sentA
    ensures ns[i].ba == [] ==> ns[i].gotA == ns[i].sentB
  {
    RunKeepsOrder(p, ns, steps, i);
    LineInOrder(p, ns[i].Forth());
    LineInOrder(p, ns[i].Back());
  }

  lemma LineInOrder(p: Primitives, l: Line)
    requires l.Valid() && InOrder(p, l)
    ensures l.got <= l.sent
    ensures l.transit == [] ==> l.got == l.sent
  {
    var pending :| Completes(p, l, pending);
    assert |AllOk(pending)| == |pending|;
  }
}
