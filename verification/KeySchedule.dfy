/**
 The key derivation as a peer would write it down from the protocol: what the
 bytes must satisfy, and not how this client comes by them.
 */
module KeySchedule {
  import opened ByteStrings
  import opened Cipher
  import opened Prf

  type Mac = (Bytes, Bytes) -> Bytes

  // ------------------------------------------- section 5 of RFC 2246, as relations

  /** A(0) is the seed, and each further A is the keyed hash of the one before. */
  ghost predicate IsChain(mac: Mac, secret: Bytes, seed: Bytes, chain: seq<Bytes>) {
    && |chain| > 0 && chain[0] == seed
    && forall i, j :: 0 <= i < j < |chain| && j == i + 1 ==> chain[j] == mac(secret, chain[i])
  }

  /** The bytes are the hashes of A(1) and seed, A(2) and seed, and so on, one after the other. */
  ghost predicate IsExpansion(mac: Mac, size: nat, secret: Bytes, seed: Bytes, chain: seq<Bytes>, out: Bytes) {
    && size > 0 && IsChain(mac, secret, seed, chain)
    && (forall i :: 0 <= i < |chain| ==> |mac(secret, chain[i] + seed)| == size)
    && forall j :: 0 <= j < |out| ==>
         j / size + 1 < |chain| && out[j] == mac(secret, chain[j / size + 1] + seed)[j % size]
  }

  /** The first half of the secret keys MD5, the second SHA-1; they share the middle byte of an odd secret. */
  ghost predicate IsHalves(secret: Bytes, first: Bytes, second: Bytes) {
    && |first| == |second| == (|secret| + 1) / 2
    && first == secret[..|first|] && second == secret[|secret| - |second|..]
  }

  ghost function Md5Mac(p: Primitives): Mac {
    (key, data) => p.hmacMd5(key, data)
  }

  ghost function Sha1Mac(p: Primitives): Mac {
    (key, data) => p.hmacSha1(key, data)
  }

  /** The halves, the chains and the two expansions that are mixed. */
  datatype Work = Work(first: Bytes, second: Bytes,
                       md5Chain: seq<Bytes>, sha1Chain: seq<Bytes>, md5: Bytes, sha1: Bytes)

  ghost predicate PrfBy(p: Primitives, secret: Bytes, seed: Bytes, out: Bytes, w: Work) {
    && IsHalves(secret, w.first, w.second)
    && |w.md5| == |w.sha1| == |out|
    && IsExpansion(Md5Mac(p), 16, w.first, seed, w.md5Chain, w.md5)
    && IsExpansion(Sha1Mac(p), 20, w.second, seed, w.sha1Chain, w.sha1)
    && forall j :: 0 <= j < |out| ==> Mixes(w.md5[j], w.sha1[j], out[j])
  }

  ghost predicate IsPrf(p: Primitives, secret: Bytes, seed: Bytes, out: Bytes) {
    exists w :: PrfBy(p, secret, seed, out, w)
  }

  /**
   The key block: 48 bytes of master secret from the shared number without
   leading zeros, then 104 bytes from the master secret; both times the label,
   the client's random and the server's random, in this order.
   */
  ghost predicate KeyBlockBy(p: Primitives, shared: nat, client: Bytes, server: Bytes, block: Bytes,
                             preMaster: Bytes, master: Bytes)
  {
    && FromBE(preMaster) == shared && preMaster != [] && (|preMaster| > 1 ==> preMaster[0] != 0)
    && |master| == 48 && IsPrf(p, preMaster, Ascii("master secret") + client + server, master)
    && |block| == 104 && IsPrf(p, master, Ascii("key expansion") + client + server, block)
  }

  ghost predicate IsKeyBlock(p: Primitives, shared: nat, client: Bytes, server: Bytes, block: Bytes) {
    exists preMaster, master :: KeyBlockBy(p, shared, client, server, block, preMaster, master)
  }

  // ------------------------------------------------- the functions satisfy them, alone

  ghost function MacOf(p: Primitives, h: Hash): Mac {
    match h case Md5 => Md5Mac(p) case Sha1 => Sha1Mac(p)
  }

  lemma {:induction false} ChainIs(p: Primitives, h: Hash, secret: Bytes, seed: Bytes, chain: seq<Bytes>, i: nat)
    requires IsChain(MacOf(p, h), secret, seed, chain) && i < |chain|
    ensures chain[i] == Iterate(p, h, secret, seed, i)
  {
    if i > 0 {
      ChainIs(p, h, secret, seed, chain, i - 1);
      assert chain[i] == MacOf(p, h)(secret, chain[i - 1]);
    }
  }

  ghost function Iterates(p: Primitives, h: Hash, secret: Bytes, seed: Bytes, n: nat): seq<Bytes> {
    seq(n, i requires 0 <= i => Iterate(p, h, secret, seed, i))
  }

  lemma ChainExists(p: Primitives, h: Hash, secret: Bytes, seed: Bytes, n: nat)
    requires n > 0
    ensures IsChain(MacOf(p, h), secret, seed, Iterates(p, h, secret, seed, n))
  {
  }

  lemma InChain(j: nat, n: nat, h: Hash)
    requires j < n
    ensures j / DigestLength(h) < n
  {
    assert j / 16 <= j && j / 20 <= j;
  }

  /** The stream this client computes is the expansion, and no other bytes are. */
  lemma ExpansionExists(p: Primitives, h: Hash, secret: Bytes, seed: Bytes, n: nat)
    ensures IsExpansion(MacOf(p, h), DigestLength(h), secret, seed,
                        Iterates(p, h, secret, seed, n + 1), PHash(p, h, secret, seed, n))
  {
    ChainExists(p, h, secret, seed, n + 1);
    forall j | 0 <= j < n ensures j / DigestLength(h) + 1 < n + 1 {
      InChain(j, n, h);
    }
  }

  lemma ExpansionIs(p: Primitives, h: Hash, secret: Bytes, seed: Bytes, chain: seq<Bytes>, out: Bytes)
    requires IsExpansion(MacOf(p, h), DigestLength(h), secret, seed, chain, out)
    ensures out == PHash(p, h, secret, seed, |out|)
  {
    forall j | 0 <= j < |out| ensures out[j] == StreamByte(p, h, secret, seed, j) {
      ChainIs(p, h, secret, seed, chain, j / DigestLength(h) + 1);
    }
  }

  lemma HalvesAre(secret: Bytes, first: Bytes, second: Bytes)
    ensures IsHalves(secret, first, second) <==> first == FirstHalf(secret) && second == SecondHalf(secret)
  {
  }

  lemma MixedIs(a: Bytes, b: Bytes, out: Bytes)
    requires |a| == |b| == |out|
    ensures (forall j :: 0 <= j < |out| ==> Mixes(a[j], b[j], out[j])) <==> out == XorBytes(a, b)
  {
    forall j | 0 <= j < |out| ensures Mixes(a[j], b[j], out[j]) <==> out[j] == XorBytes(a, b)[j] {
      XorMixes(a[j], b[j], out[j]);
    }
  }

  lemma PrfByIs(p: Primitives, secret: Bytes, name: string, seed: Bytes, out: Bytes, w: Work)
    requires IsAscii(name) && PrfBy(p, secret, Ascii(name) + seed, out, w)
    ensures out == PrfOutput(p, secret, name, seed, |out|)
  {
    HalvesAre(secret, w.first, w.second);
    ExpansionIs(p, Md5, w.first, Ascii(name) + seed, w.md5Chain, w.md5);
    ExpansionIs(p, Sha1, w.second, Ascii(name) + seed, w.sha1Chain, w.sha1);
    MixedIs(w.md5, w.sha1, out);
  }

  lemma PrfExists(p: Primitives, secret: Bytes, name: string, seed: Bytes, n: nat)
    requires IsAscii(name)
    ensures IsPrf(p, secret, Ascii(name) + seed, PrfOutput(p, secret, name, seed, n))
  {
    var first, second, s := FirstHalf(secret), SecondHalf(secret), Ascii(name) + seed;
    var out := PrfOutput(p, secret, name, seed, n);
    var w := Work(first, second, Iterates(p, Md5, first, s, n + 1), Iterates(p, Sha1, second, s, n + 1),
                  PHash(p, Md5, first, s, n), PHash(p, Sha1, second, s, n));
    HalvesAre(secret, first, second);
    ExpansionExists(p, Md5, first, s, n);
    ExpansionExists(p, Sha1, second, s, n);
    MixedIs(w.md5, w.sha1, out);
    assert PrfBy(p, secret, s, out, w);
  }

  /** What this client computes is what section 5 of RFC 2246 asks for, and nothing else is. */
  lemma PrfIs(p: Primitives, secret: Bytes, name: string, seed: Bytes, out: Bytes)
    requires IsAscii(name)
    ensures IsPrf(p, secret, Ascii(name) + seed, out) <==> out == PrfOutput(p, secret, name, seed, |out|)
  {
    if w :| PrfBy(p, secret, Ascii(name) + seed, out, w) {
      PrfByIs(p, secret, name, seed, out, w);
    }
    PrfExists(p, secret, name, seed, |out|);
  }

  lemma ShortestIs(n: nat, bs: Bytes)
    ensures FromBE(bs) == n && bs != [] && (|bs| > 1 ==> bs[0] != 0) <==> bs == ToBE(n)
  {
    FromToBE(n);
    if FromBE(bs) == n && bs != [] && (|bs| > 1 ==> bs[0] != 0) {
      ToFromBE(bs);
    }
  }
}
