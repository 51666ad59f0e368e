/**
 The enciphered channel: keys derived from a server hello, then messages
 enciphered and authenticated, each chained to the one before it.
 */
module Channel {
  import opened ByteStrings
  import opened Options
  import opened Modular
  import opened Cipher
  import opened Prf
  import opened SecureConnect
  import opened KeySchedule
  import opened FrameFormat
  import Base64

  // ------------------------------------------------------------------------- keys

  /** A channel with keys: the block they are windows of, and one chaining vector each way. */
  datatype Keys = Keys(block: Bytes, writeIv: Bytes, readIv: Bytes) {
    predicate Valid() {
      |block| == 104 && |writeIv| == 16 && |readIv| == 16
    }
    function WriteAes(): Block requires Valid() { block[0..16] }
    function ReadAes(): Block requires Valid() { block[16..32] }
    function InitialWriteIv(): Block requires Valid() { block[32..48] }
    function InitialReadIv(): Block requires Valid() { block[48..64] }
    function WriteMac(): Bytes requires Valid() { block[64..84] }
    function ReadMac(): Bytes requires Valid() { block[84..104] }
  }

  /** The six windows tile the block in order: no byte is read twice, none is left over. */
  lemma WindowsTileBlock(k: Keys)
    requires k.Valid()
    ensures k.block == k.WriteAes() + k.ReadAes() + k.InitialWriteIv() + k.InitialReadIv() + k.WriteMac() + k.ReadMac()
    ensures |k.WriteMac()| == 20 && |k.ReadMac()| == 20
  {
  }

  /** What one side of the exchange holds before the hello. */
  datatype Config = Config(p: Primitives, n: nat, clientRandom: Random, privateKey: nat)

  type Random = b: Bytes | |b| == 32 witness Zeros(32)

  datatype HelloError = TooFewFields(got: nat) | BadRandom | BadPublic | OutOfRange

  datatype Refusal = TooShort | BadMac | BadCiphertext

  datatype Result<+T, +E> = Ok(value: T) | Err(error: E)

  /** The key block both derivations lead to, from the shared number and the two randoms. */
  function KeyBlock(p: Primitives, shared: nat, clientRandom: Bytes, serverRandom: Bytes): (r: Bytes)
    ensures |r| == 104
  {
    var seed := clientRandom + serverRandom;
    PrfOutput(p, PrfOutput(p, ToBE(shared), MASTER_SECRET, seed, 48), KEY_EXPANSION, seed, 104)
  }

  const MASTER_SECRET := "master secret"
  const KEY_EXPANSION := "key expansion"

  /** It is the block the protocol asks for, and no other block is. */
  lemma KeyBlockIs(p: Primitives, shared: nat, client: Bytes, server: Bytes, block: Bytes)
    ensures IsKeyBlock(p, shared, client, server, block) <==> block == KeyBlock(p, shared, client, server)
  {
    forall preMaster, master
      ensures KeyBlockBy(p, shared, client, server, block, preMaster, master)
         <==> preMaster == ToBE(shared)
              && master == PrfOutput(p, preMaster, MASTER_SECRET, client + server, 48)
              && block == PrfOutput(p, master, KEY_EXPANSION, client + server, 104)
    {
      KeyBlockByIs(p, shared, client, server, block, preMaster, master);
    }
    var master := PrfOutput(p, ToBE(shared), MASTER_SECRET, client + server, 48);
    if block == KeyBlock(p, shared, client, server) {
      assert KeyBlockBy(p, shared, client, server, block, ToBE(shared), master);
    }
  }

  lemma KeyBlockByIs(p: Primitives, shared: nat, client: Bytes, server: Bytes, block: Bytes,
                     preMaster: Bytes, master: Bytes)
    ensures KeyBlockBy(p, shared, client, server, block, preMaster, master)
       <==> preMaster == ToBE(shared)
            && master == PrfOutput(p, preMaster, MASTER_SECRET, client + server, 48)
            && block == PrfOutput(p, master, KEY_EXPANSION, client + server, 104)
  {
    ShortestIs(shared, preMaster);
    StageIs(p, preMaster, MASTER_SECRET, client, server, 48, master);
    StageIs(p, master, KEY_EXPANSION, client, server, 104, block);
  }

  lemma StageIs(p: Primitives, secret: Bytes, name: string, client: Bytes, server: Bytes, size: nat, out: Bytes)
    requires IsAscii(name)
    ensures |out| == size && IsPrf(p, secret, Ascii(name) + client + server, out)
       <==> out == PrfOutput(p, secret, name, client + server, size)
  {
    Regroup(Ascii(name), client, server);
    PrfIs(p, secret, name, client + server, out);
  }

  lemma Regroup(a: Bytes, b: Bytes, c: Bytes)
    ensures a + b + c == a + (b + c)
  {
  }

  function Derive(cfg: Config, serverRandom: Bytes, serverPublic: nat): (k: Keys)
    requires cfg.n > 0
    ensures k.Valid()
    ensures k.writeIv == k.InitialWriteIv() && k.readIv == k.InitialReadIv()
  {
    var block := KeyBlock(cfg.p, ModPow(serverPublic, cfg.privateKey, cfg.n), cfg.clientRandom, serverRandom);
    Keys(block, block[32..48], block[48..64])
  }

  /** What a server hello leads to. */
  function Hello(cfg: Config, fields: seq<string>): (r: Result<Keys, HelloError>)
    requires cfg.n >= 2
    ensures r.Ok? ==> r.value.Valid()
    ensures r.Ok? ==> r.value.writeIv == r.value.InitialWriteIv() && r.value.readIv == r.value.InitialReadIv()
  {
    if |fields| < 2 then Err(TooFewFields(|fields|))
    else
      match (Base64.Decode(fields[0]), Base64.Decode(fields[1]))
      case (None, _) => Err(BadRandom)
      case (Some(_), None) => Err(BadPublic)
      case (Some(random), Some(public)) =>
        if InRange(FromBE(public), cfg.n) then Ok(Derive(cfg, random, FromBE(public))) else Err(OutOfRange)
  }

  /** The number a field carries, if it decodes. */
  function Carried(field: string): Option<nat> {
    match Base64.Decode(field) case None => None case Some(bs) => Some(FromBE(bs))
  }

  /**
   When a hello is accepted, and which fault is named first: the number of
   fields, the random, the public value, its range.
   */
  lemma HelloDecided(cfg: Config, fields: seq<string>)
    requires cfg.n >= 2
    ensures Hello(cfg, fields) == Err(TooFewFields(|fields|)) <==> |fields| < 2
    ensures Hello(cfg, fields) == Err(BadRandom) <==> |fields| >= 2 && Base64.Decode(fields[0]).None?
    ensures Hello(cfg, fields) == Err(BadPublic)
       <==> |fields| >= 2 && Base64.Decode(fields[0]).Some? && Carried(fields[1]).None?
    ensures Hello(cfg, fields) == Err(OutOfRange)
       <==> |fields| >= 2 && Base64.Decode(fields[0]).Some? && Carried(fields[1]).Some?
            && (Carried(fields[1]).value < 2 || Carried(fields[1]).value > cfg.n - 2)
    ensures Hello(cfg, fields).Ok?
       <==> |fields| >= 2 && Base64.Decode(fields[0]).Some? && Carried(fields[1]).Some?
            && 2 <= Carried(fields[1]).value <= cfg.n - 2
    ensures Hello(cfg, fields).Ok? ==>
              var k, shared := Hello(cfg, fields).value, ModPow(Carried(fields[1]).value, cfg.privateKey, cfg.n);
              && IsKeyBlock(cfg.p, shared, cfg.clientRandom, Base64.Decode(fields[0]).value, k.block)
              && k.writeIv == k.block[32..48] && k.readIv == k.block[48..64]
  {
    if Hello(cfg, fields).Ok? {
      var random, public := Base64.Decode(fields[0]).value, Carried(fields[1]).value;
      var shared, block := ModPow(public, cfg.privateKey, cfg.n), Hello(cfg, fields).value.block;
      KeyBlockIs(cfg.p, shared, cfg.clientRandom, random, block);
    }
  }

  // ---------------------------------------------------------------------- messages

  /** The ciphertext of `plaintext` under the vector `iv`. */
  function Ciphertext(p: Primitives, k: Keys, iv: Block, plaintext: Bytes): (r: Bytes)
    requires k.Valid()
    ensures Whole(r) && |r| >= 16
  {
    CbcEncrypt(p, k.WriteAes(), iv, Pad(plaintext))
  }

  /** Encrypt-then-MAC: the ciphertext, then the HMAC of the vector and the ciphertext. */
  function Frame(p: Primitives, k: Keys, iv: Block, plaintext: Bytes): Bytes
    requires k.Valid()
  {
    var ct := Ciphertext(p, k, iv, plaintext);
    ct + p.hmacSha1(k.WriteMac(), iv + ct)
  }

  function AfterEncrypt(p: Primitives, k: Keys, plaintext: Bytes): (r: Keys)
    requires k.Valid()
    ensures r.Valid() && r.block == k.block && r.readIv == k.readIv
  {
    var ct := Ciphertext(p, k, k.writeIv, plaintext);
    k.(writeIv := ct[|ct| - 16..])
  }

  function Body(frame: Bytes): Bytes
    requires |frame| >= 20
  {
    frame[..|frame| - 20]
  }

  /** What a frame says to the reading side, or why it is refused. */
  function Open(p: Primitives, k: Keys, frame: Bytes): (r: Result<Bytes, Refusal>)
    requires k.Valid()
    ensures r.Ok? ==> |frame| >= 36 && Whole(Body(frame))
  {
    if |frame| < 20 then Err(TooShort)
    else
      var ct := Body(frame);
      if frame[|frame| - 20..] != p.hmacSha1(k.ReadMac(), k.readIv + ct) then Err(BadMac)
      else
        match Deciphered(p, k.ReadAes(), k.readIv, ct)
        case None => Err(BadCiphertext)
        case Some(plaintext) => Ok(plaintext)
  }

  /** The read vector moves to the last cipher block of an accepted frame, and only then. */
  function AfterDecrypt(p: Primitives, k: Keys, frame: Bytes): (r: Keys)
    requires k.Valid()
    ensures r.Valid() && r.block == k.block && r.writeIv == k.writeIv
    ensures Open(p, k, frame).Err? ==> r == k
  {
    if Open(p, k, frame).Ok? then k.(readIv := frame[|frame| - 36..|frame| - 20]) else k
  }

  /** A frame opens to a text exactly where it is a frame of it under the reading windows of the block. */
  lemma OpenIff(p: Primitives, k: Keys, frame: Bytes, text: Bytes)
    requires k.Valid()
    ensures Open(p, k, frame) == Ok(text)
       <==> IsFrame(p, k.block[16..32], k.block[84..104], k.readIv, text, frame)
  {
    if |frame| >= 20 {
      DecipheredIff(p, k.ReadAes(), k.readIv, Body(frame), text);
    }
  }

  /** Why a frame is refused: too short for a tag, else a wrong tag, else nothing that it carries. */
  lemma RefusalDecided(p: Primitives, k: Keys, frame: Bytes)
    requires k.Valid()
    ensures Open(p, k, frame) == Err(TooShort) <==> |frame| < 20
    ensures Open(p, k, frame) == Err(BadMac)
       <==> |frame| >= 20
            && frame[|frame| - 20..] != p.hmacSha1(k.block[84..104], k.readIv + frame[..|frame| - 20])
    ensures Open(p, k, frame) == Err(BadCiphertext)
       <==> |frame| >= 20
            && frame[|frame| - 20..] == p.hmacSha1(k.block[84..104], k.readIv + frame[..|frame| - 20])
            && CarriesNothing(p, k.block[16..32], k.readIv, frame[..|frame| - 20])
  {
    if |frame| >= 20 {
      var ct := Body(frame);
      forall text ensures Deciphered(p, k.ReadAes(), k.readIv, ct) == Some(text)
                     <==> Carries(p, k.block[16..32], k.readIv, text, ct)
      {
        DecipheredIff(p, k.ReadAes(), k.readIv, ct, text);
      }
      var d := Deciphered(p, k.ReadAes(), k.readIv, ct);
      assert d.Some? ==> Carries(p, k.block[16..32], k.readIv, d.value, ct);
    }
  }

  /** The frame written is the one frame of the text under the writing windows of the block. */
  lemma FrameIff(p: Primitives, k: Keys, iv: Block, text: Bytes, frame: Bytes)
    requires p.Invertible() && k.Valid()
    ensures frame == Frame(p, k, iv, text) <==> IsFrame(p, k.block[0..16], k.block[64..84], iv, text, frame)
  {
    var made := Frame(p, k, iv, text);
    var ct := Ciphertext(p, k, iv, text);
    assert made[..|made| - 20] == ct && made[|made| - 20..] == p.hmacSha1(k.WriteMac(), iv + ct);
    EncipheredIff(p, k.WriteAes(), iv, ct, text);
    if IsFrame(p, k.block[0..16], k.block[64..84], iv, text, frame) {
      EncipheredIff(p, k.WriteAes(), iv, frame[..|frame| - 20], text);
      assert frame == frame[..|frame| - 20] + frame[|frame| - 20..];
    }
  }

  // ---------------------------------------------------------------------- the class

  class SecureChannel {
    const cfg: Config
    const publicKey: nat
    var keys: Option<Keys>

    ghost predicate Valid()
      reads this
    {
      && cfg.n >= 2
      && publicKey == ModPow(2, cfg.privateKey, cfg.n)
      && (keys.Some? ==> keys.value.Valid())
    }

    constructor (cfg: Config)
      requires cfg.n >= 2
      ensures Valid() && this.cfg == cfg && keys == None
    {
      this.cfg := cfg;
      publicKey := ModPow(2, cfg.privateKey, cfg.n);
      keys := None;
    }

    /**
     `build_secure_connect`: a framed message whose length field is right and
     whose payload splits into the six fields and an empty one.
     */
    method BuildSecureConnect(version: u32, negotiated: u32) returns (msg: Bytes)
      requires Valid()
      ensures |msg| > 8 && msg[..4] == MAGIC && FromAscii(msg[..4]) == "#%#%"
      ensures FromBE(msg[4..8]) == |msg| - 8
      ensures Split(FromAscii(msg[8..])) == Fields(version, negotiated, cfg.clientRandom, publicKey)
      ensures FromAscii(msg[8..]) == Payload(Decimal(version), Decimal(negotiated),
                                             Base64.Encode(cfg.clientRandom), Base64.Encode(Padded128(publicKey)))
    {
      var padded := PadPublic(publicKey);
      var fields := [Decimal(version), "532", "0", Decimal(negotiated),
                     Base64.Encode(cfg.clientRandom), Base64.Encode(padded), ""];
      FieldsPlain(version, negotiated, cfg.clientRandom, publicKey);
      SplitJoin(fields);
      JoinAscii(fields);
      PayloadIs(Decimal(version), Decimal(negotiated), Base64.Encode(cfg.clientRandom), Base64.Encode(padded));
      JoinedLength(version, negotiated, cfg.clientRandom, publicKey);
      msg := Framed(Joined(fields));
      assert FromAscii(MAGIC) == "#%#%";
    }

    /** `process_server_hello`: derives the keys, or says why not and changes nothing. */
    method ProcessServerHello(fields: seq<string>) returns (r: Result<(), HelloError>)
      requires Valid()
      modifies this`keys
      ensures Valid()
      ensures match Hello(cfg, fields)
              case Ok(k) => r == Ok(()) && keys == Some(k)
              case Err(e) => r == Err(e) && keys == old(keys)
    {
      if |fields| < 2 {
        return Err(TooFewFields(|fields|));
      }
      var serverRandom := Base64.Decode(fields[0]);
      if serverRandom.None? {
        return Err(BadRandom);
      }
      var serverPublic := Base64.Decode(fields[1]);
      if serverPublic.None? {
        return Err(BadPublic);
      }
      var public := FromBE(serverPublic.value);
      if public < 2 || public > cfg.n - 2 {
        return Err(OutOfRange);
      }
      var k := DeriveKeys(serverRandom.value, public);
      keys := Some(k);
      return Ok(());
    }

    /** The second half of `process_server_hello`: from the public value to the keys. */
    method DeriveKeys(serverRandom: Bytes, public: nat) returns (k: Keys)
      requires cfg.n > 0
      ensures k == Derive(cfg, serverRandom, public)
      ensures IsKeyBlock(cfg.p, ModPow(public, cfg.privateKey, cfg.n), cfg.clientRandom, serverRandom, k.block)
    {
      var shared := ModPow(public, cfg.privateKey, cfg.n);
      var preMaster := StripLeadingZeros(ToBE(shared));
      FromToBE(shared);
      ToFromBE(preMaster);
      var seed := cfg.clientRandom + serverRandom;
      var masterSecret := Tls10Prf(cfg.p, preMaster, MASTER_SECRET, seed, 48);
      var block := Tls10Prf(cfg.p, masterSecret, KEY_EXPANSION, seed, 104);
      k := Keys(block, block[32..48], block[48..64]);
      KeyBlockIs(cfg.p, shared, cfg.clientRandom, serverRandom, block);
    }

    /** `encrypt`: the frame, and the write vector moved to its last cipher block. */
    method Encrypt(plaintext: Bytes) returns (frame: Bytes)
      requires Valid() && keys.Some?
      modifies this`keys
      ensures Valid() && keys == Some(AfterEncrypt(cfg.p, old(keys.value), plaintext))
      ensures frame == Frame(cfg.p, old(keys.value), old(keys.value.writeIv), plaintext)
    {
      var k := keys.value;
      var ciphertext := AesCbcEncrypt(cfg.p, k.WriteAes(), k.writeIv, plaintext);
      var mac := cfg.p.hmacSha1(k.WriteMac(), k.writeIv + ciphertext);
      keys := Some(k.(writeIv := ciphertext[|ciphertext| - 16..]));
      frame := ciphertext + mac;
    }

    /** `decrypt`: the length is looked at before the keys, the MAC before the ciphertext. */
    method Decrypt(data: Bytes) returns (r: Result<Bytes, Refusal>)
      requires Valid() && (|data| >= 20 ==> keys.Some?)
      modifies this`keys
      ensures Valid()
      ensures |data| < 20 ==> r == Err(TooShort) && keys == old(keys)
      ensures |data| >= 20 ==>
                keys == Some(AfterDecrypt(cfg.p, old(keys.value), data)) && r == Open(cfg.p, old(keys.value), data)
      ensures |data| >= 20 ==> forall text :: r == Ok(text) <==>
                var k := old(keys.value);
                IsFrame(cfg.p, k.block[16..32], k.block[84..104], k.readIv, text, data)
    {
      if |data| < 20 {
        return Err(TooShort);
      }
      var ciphertext := data[..|data| - 20];
      var receivedMac := data[|data| - 20..];
      var k := keys.value;
      forall text ensures Open(cfg.p, k, data) == Ok(text)
                     <==> IsFrame(cfg.p, k.block[16..32], k.block[84..104], k.readIv, text, data)
      {
        OpenIff(cfg.p, k, data, text);
      }
      var expectedMac := cfg.p.hmacSha1(k.ReadMac(), k.readIv + ciphertext);
      if receivedMac != expectedMac {
        return Err(BadMac);
      }
      var plaintext := AesCbcDecrypt(cfg.p, k.ReadAes(), k.readIv, ciphertext);
      if plaintext.None? {
        return Err(BadCiphertext);
      }
      keys := Some(k.(readIv := ciphertext[|ciphertext| - 16..]));
      assert ciphertext[|ciphertext| - 16..] == data[|data| - 36..|data| - 20];
      return Ok(plaintext.value);
    }

    /** `encrypt_fresh`: under the vector as derived; nothing moves. */
    method EncryptFresh(plaintext: Bytes) returns (frame: Bytes)
      requires Valid() && keys.Some?
      ensures frame == Frame(cfg.p, keys.value, keys.value.InitialWriteIv(), plaintext)
    {
      var k := keys.value;
      var iv := k.InitialWriteIv();
      var ciphertext := AesCbcEncrypt(cfg.p, k.WriteAes(), iv, plaintext);
      var mac := cfg.p.hmacSha1(k.WriteMac(), iv + ciphertext);
      frame := ciphertext + mac;
    }
  }

  /** The public value as 128 big-endian bytes. */
  method PadPublic(public: nat) returns (padded: Bytes)
    ensures padded == Padded128(public)
  {
    var bs := ToBE(public);
    if |bs| <= 128 {
      padded := Zeros(128 - |bs|) + bs;
    } else {
      var stripped := StripLeadingZeros(bs);
      FromToBE(public);
      ToFromBE(stripped);
      var start := if |stripped| <= 128 then 128 - |stripped| else 0;
      padded := Zeros(start) + stripped[..if |stripped| <= 128 then |stripped| else 128];
    }
  }

  /** Magic, the length of the payload as 32 bits, the payload. */
  method Framed(payload: string) returns (msg: Bytes)
    requires IsAscii(payload) && 0 < |payload| < 0x1_0000_0000
    ensures |msg| == 8 + |payload| && msg[..4] == MAGIC
    ensures FromBE(msg[4..8]) == |payload|
    ensures FromAscii(msg[8..]) == payload
  {
    var length := U32Bytes(|payload| % 0x1_0000_0000);
    U32Value(|payload|);
    msg := MAGIC + length + Ascii(payload);
    ThreeParts(MAGIC, length, Ascii(payload));
    FromAsciiAscii(payload);
  }

  lemma ThreeParts(a: Bytes, b: Bytes, c: Bytes)
    ensures (a + b + c)[..|a|] == a && (a + b + c)[|a|..|a| + |b|] == b && (a + b + c)[|a| + |b|..] == c
  {
  }

  predicate IsNumber(f: string, n: nat) {
    (forall i :: 0 <= i < |f| ==> IsDigit(f[i])) && Parse(f) == n
  }

  /** A reader of the opening message finds both versions. */
  lemma ConnectVersions(version: u32, negotiated: u32, random: Random, public: nat)
    ensures var f := Fields(version, negotiated, random, public);
            IsNumber(f[0], version) && f[1] == "532" && f[2] == "0" && IsNumber(f[3], negotiated)
  {
    ParseDecimal(version);
    ParseDecimal(negotiated);
  }

  /** A reader finds the client's random, and the public value exactly when it is below 2^1024. */
  lemma ConnectValues(version: u32, negotiated: u32, random: Random, public: nat)
    ensures var f := Fields(version, negotiated, random, public);
            && Base64.Decode(f[4]) == Some(random)
            && Base64.Decode(f[5]) == Some(Padded128(public))
            && (FromBE(Padded128(public)) == public <==> public < PUBLIC_LIMIT)
  {
    Base64.DecodeEncode(random);
    Base64.DecodeEncode(Padded128(public));
    PaddedValue(public);
  }
}
