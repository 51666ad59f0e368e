/**
 The whole exchange against a mirrored server: both sides derive one block, and
 each reads with the windows the other writes with.
 */
module Handshake {
  import opened ByteStrings
  import opened Options
  import opened Modular
  import opened Cipher
  import opened Channel
  import opened SecureConnect
  import opened KeySchedule
  import opened Conversation
  import Base64

  /** A server: its private key and its random. */
  datatype Server = Server(privateKey: nat, random: Bytes)

  function ServerPublic(n: nat, server: Server): nat
    requires n > 0
  {
    ModPow(2, server.privateKey, n)
  }

  /** The fields carry its random and its public value, in whatever number of bytes; what follows is not read. */
  predicate IsHelloOf(n: nat, server: Server, fields: seq<string>)
    requires n > 0
  {
    && |fields| >= 2
    && Base64.Decode(fields[0]) == Some(server.random)
    && var public := Base64.Decode(fields[1]);
       public.Some? && FromBE(public.value) == ServerPublic(n, server)
  }

  /** The documented form, 128 bytes, is one such hello where the modulus fits in them; so is the shortest form. */
  lemma HelloForms(n: nat, server: Server, more: seq<string>)
    requires n > 0
    ensures n <= PUBLIC_LIMIT ==>
              var padded := Padded128(ServerPublic(n, server));
              IsHelloOf(n, server, [Base64.Encode(server.random), Base64.Encode(padded)] + more)
    ensures IsHelloOf(n, server, [Base64.Encode(server.random), Base64.Encode(ToBE(ServerPublic(n, server)))] + more)
  {
    var public := ServerPublic(n, server);
    Base64.DecodeEncode(server.random);
    Base64.DecodeEncode(Padded128(public));
    Base64.DecodeEncode(ToBE(public));
    PaddedValue(public);
    FromToBE(public);
  }

  /** The block it derives from the client's random and public value, by the protocol. */
  ghost predicate ServerDerives(p: Primitives, n: nat, server: Server, clientRandom: Bytes, clientPublic: nat,
                                block: Bytes)
    requires n > 0
  {
    IsKeyBlock(p, ModPow(clientPublic, server.privateKey, n), clientRandom, server.random, block)
  }

  /** The same block with each pair of windows exchanged: what one side writes with, the other reads with. */
  function Mirrored(block: Bytes): (r: Keys)
    requires |block| == 104
    ensures r.Valid()
  {
    Keys(block[16..32] + block[0..16] + block[48..64] + block[32..48] + block[84..104] + block[64..84],
         block[48..64], block[32..48])
  }

  lemma MirrorReads(k: Keys)
    requires k.Valid() && k.writeIv == k.InitialWriteIv() && k.readIv == k.InitialReadIv()
    ensures Reads(Mirrored(k.block), k) && Reads(k, Mirrored(k.block))
  {
    var m := Mirrored(k.block);
    assert m.ReadAes() == k.block[0..16] && m.WriteAes() == k.block[16..32];
    assert m.ReadMac() == k.block[64..84] && m.WriteMac() == k.block[84..104];
  }

  /** The client accepts the hello of a server in the group, and that server derives the client's block and no other. */
  lemma BothDeriveOneBlock(cfg: Config, server: Server, fields: seq<string>, block: Bytes)
    requires cfg.n >= 2 && IsHelloOf(cfg.n, server, fields) && InRange(ServerPublic(cfg.n, server), cfg.n)
    ensures Hello(cfg, fields).Ok?
    ensures ServerDerives(cfg.p, cfg.n, server, cfg.clientRandom, ModPow(2, cfg.privateKey, cfg.n), block)
       <==> block == Hello(cfg, fields).value.block
  {
    KeyAgreement(2, cfg.privateKey, server.privateKey, cfg.n);
    var shared := ModPow(ServerPublic(cfg.n, server), cfg.privateKey, cfg.n);
    KeyBlockIs(cfg.p, shared, cfg.clientRandom, server.random, block);
  }

  /** A server that reads the client's random and public value out of the opening message, and what it then derives. */
  ghost predicate ServerAnswers(cfg: Config, server: Server, payload: string, block: Bytes)
    requires cfg.n > 0
  {
    var f := Split(payload);
    && |f| >= 6
    && var random, public := Base64.Decode(f[4]), Base64.Decode(f[5]);
       && random.Some? && public.Some?
       && ServerDerives(cfg.p, cfg.n, server, random.value, FromBE(public.value), block)
  }

  /**
   From the opening message to the first frame, on the channel object: a server
   that takes the client's values out of the message the channel built derives
   one block, and with it is in step with the channel both ways, for every
   modulus up to 2^1024.
   */
  method Exchange(cfg: Config, server: Server, fields: seq<string>, version: u32, negotiated: u32)
    returns (ch: SecureChannel, msg: Bytes)
    requires 2 <= cfg.n <= PUBLIC_LIMIT
    requires IsHelloOf(cfg.n, server, fields) && InRange(ServerPublic(cfg.n, server), cfg.n)
    ensures ch.Valid() && ch.cfg == cfg && ch.keys.Some? && |msg| > 8
    ensures forall block :: ServerAnswers(cfg, server, FromAscii(msg[8..]), block) <==> block == ch.keys.value.block
    ensures Fresh(Net(ch.keys.value, Mirrored(ch.keys.value.block), [], [], [], [], [], []))
  {
    ch := new SecureChannel(cfg);
    msg := ch.BuildSecureConnect(version, negotiated);
    var r := ch.ProcessServerHello(fields);
    HelloAccepted(cfg, server, fields);
    forall block
      ensures ServerAnswers(cfg, server, FromAscii(msg[8..]), block) <==> block == Hello(cfg, fields).value.block
    {
      AnsweredByBlock(cfg, server, fields, version, negotiated, FromAscii(msg[8..]), block);
    }
    MirrorReads(Hello(cfg, fields).value);
  }

  lemma AnsweredByBlock(cfg: Config, server: Server, fields: seq<string>, version: u32, negotiated: u32,
                        payload: string, block: Bytes)
    requires 2 <= cfg.n <= PUBLIC_LIMIT
    requires IsHelloOf(cfg.n, server, fields) && InRange(ServerPublic(cfg.n, server), cfg.n)
    requires Split(payload) == Fields(version, negotiated, cfg.clientRandom, ModPow(2, cfg.privateKey, cfg.n))
    ensures Hello(cfg, fields).Ok?
    ensures ServerAnswers(cfg, server, payload, block) <==> block == Hello(cfg, fields).value.block
  {
    ConnectValues(version, negotiated, cfg.clientRandom, ModPow(2, cfg.privateKey, cfg.n));
    BothDeriveOneBlock(cfg, server, fields, block);
  }

  lemma HelloAccepted(cfg: Config, server: Server, fields: seq<string>)
    requires cfg.n >= 2 && IsHelloOf(cfg.n, server, fields) && InRange(ServerPublic(cfg.n, server), cfg.n)
    ensures Hello(cfg, fields).Ok?
  {
    BothDeriveOneBlock(cfg, server, fields, []);
  }

  /** The same said of the fields of that message. */
  lemma ExchangeEndsInStep(cfg: Config, server: Server, fields: seq<string>, version: u32, negotiated: u32,
                           block: Bytes)
    requires 2 <= cfg.n <= PUBLIC_LIMIT
    requires IsHelloOf(cfg.n, server, fields) && InRange(ServerPublic(cfg.n, server), cfg.n)
    ensures var f := Fields(version, negotiated, cfg.clientRandom, ModPow(2, cfg.privateKey, cfg.n));
            var random, public := Base64.Decode(f[4]), Base64.Decode(f[5]);
            && random.Some? && public.Some?
            && Hello(cfg, fields).Ok?
            && var k := Hello(cfg, fields).value;
               && ServerDerives(cfg.p, cfg.n, server, random.value, FromBE(public.value), k.block)
               && (ServerDerives(cfg.p, cfg.n, server, random.value, FromBE(public.value), block) ==>
                     |block| == 104 && Fresh(Net(k, Mirrored(block), [], [], [], [], [], [])))
  {
    HelloAccepted(cfg, server, fields);
    var k := Hello(cfg, fields).value;
    ConnectValues(version, negotiated, cfg.clientRandom, ModPow(2, cfg.privateKey, cfg.n));
    BothDeriveOneBlock(cfg, server, fields, block);
    BothDeriveOneBlock(cfg, server, fields, k.block);
    MirrorReads(k);
  }

  /** A hello whose public value is degenerate is refused, whatever else it carries. */
  lemma DegenerateHelloRefused(cfg: Config, fields: seq<string>)
    requires cfg.n >= 2 && |fields| >= 2
    requires Base64.Decode(fields[0]).Some? && Base64.Decode(fields[1]).Some?
    requires Degenerate(FromBE(Base64.Decode(fields[1]).value), cfg.n)
    ensures Hello(cfg, fields) == Err(OutOfRange)
  {
    RangeRefusesDegenerate(FromBE(Base64.Decode(fields[1]).value), cfg.n);
  }
}
