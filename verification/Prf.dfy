/**
 The TLS 1.0 pseudo-random function, section 5 of RFC 2246.
 */
module Prf {
  import opened ByteStrings
  import opened Cipher

  datatype Hash = Md5 | Sha1

  function DigestLength(h: Hash): nat {
    match h case Md5 => 16 case Sha1 => 20
  }

  function Hmac(p: Primitives, h: Hash, key: Bytes, data: Bytes): (r: Bytes)
    ensures |r| == DigestLength(h)
  {
    match h case Md5 => p.hmacMd5(key, data) case Sha1 => p.hmacSha1(key, data)
  }

  /** A(0) is the seed, A(i) the HMAC of A(i-1). */
  function Iterate(p: Primitives, h: Hash, secret: Bytes, seed: Bytes, i: nat): Bytes {
    if i == 0 then seed else Hmac(p, h, secret, Iterate(p, h, secret, seed, i - 1))
  }

  /** The digest P_hash emits for A(i). */
  function Chunk(p: Primitives, h: Hash, secret: Bytes, seed: Bytes, i: nat): (r: Bytes)
    ensures |r| == DigestLength(h)
  {
    Hmac(p, h, secret, Iterate(p, h, secret, seed, i) + seed)
  }

  /** Byte `j` of the endless stream of chunks A(1), A(2), ... */
  function StreamByte(p: Primitives, h: Hash, secret: Bytes, seed: Bytes, j: nat): byte {
    Chunk(p, h, secret, seed, j / DigestLength(h) + 1)[j % DigestLength(h)]
  }

  /** The first `length` bytes of the stream. */
  function PHash(p: Primitives, h: Hash, secret: Bytes, seed: Bytes, length: nat): Bytes {
    seq(length, j requires 0 <= j => StreamByte(p, h, secret, seed, j))
  }

  lemma StreamGrows(p: Primitives, h: Hash, secret: Bytes, seed: Bytes, k: nat)
    ensures PHash(p, h, secret, seed, (k + 1) * DigestLength(h))
         == PHash(p, h, secret, seed, k * DigestLength(h)) + Chunk(p, h, secret, seed, k + 1)
  {
    var l := DigestLength(h);
    var longer := PHash(p, h, secret, seed, (k + 1) * l);
    forall j | k * l <= j < (k + 1) * l ensures longer[j] == Chunk(p, h, secret, seed, k + 1)[j - k * l] {
      InChunk(j, k, h);
    }
  }

  lemma InChunk(j: nat, k: nat, h: Hash)
    requires k * DigestLength(h) <= j < (k + 1) * DigestLength(h)
    ensures j / DigestLength(h) == k && j % DigestLength(h) == j - k * DigestLength(h)
  {
  }

  /** `p_md5` and `p_sha1`: the loop computes exactly the stream, cut to length. */
  method Expand(p: Primitives, h: Hash, secret: Bytes, seed: Bytes, length: nat) returns (result: Bytes)
    ensures result == PHash(p, h, secret, seed, length)
  {
    result := [];
    var a := Hmac(p, h, secret, seed);
    ghost var k := 0;
    while |result| < length
      invariant |result| == k * DigestLength(h)
      invariant result == PHash(p, h, secret, seed, k * DigestLength(h))
      invariant a == Iterate(p, h, secret, seed, k + 1)
      decreases length - |result|
    {
      StreamGrows(p, h, secret, seed, k);
      result := result + Hmac(p, h, secret, a + seed);
      a := Hmac(p, h, secret, a);
      k := k + 1;
    }
    PHashPrefix(p, h, secret, seed, length, |result|);
    result := result[..length];
  }

  /** Asking for less gives a prefix of what asking for more gives. */
  lemma PHashPrefix(p: Primitives, h: Hash, secret: Bytes, seed: Bytes, short: nat, long: nat)
    requires short <= long
    ensures PHash(p, h, secret, seed, long)[..short] == PHash(p, h, secret, seed, short)
  {
  }

  function FirstHalf(secret: Bytes): Bytes {
    secret[..|secret| / 2 + |secret| % 2]
  }

  function SecondHalf(secret: Bytes): Bytes {
    secret[|secret| / 2..]
  }

  /** Both halves are half the secret long, rounded up, and share its middle byte exactly when its length is odd. */
  lemma Halves(secret: Bytes)
    ensures |FirstHalf(secret)| == |SecondHalf(secret)| == (|secret| + 1) / 2
    ensures |secret| % 2 == 0 ==> FirstHalf(secret) + SecondHalf(secret) == secret
    ensures |secret| % 2 == 1 ==>
              FirstHalf(secret) + SecondHalf(secret)[1..] == secret
              && FirstHalf(secret)[|FirstHalf(secret)| - 1] == SecondHalf(secret)[0]
  {
  }

  function PrfOutput(p: Primitives, secret: Bytes, name: string, seed: Bytes, length: nat): (r: Bytes)
    requires IsAscii(name)
    ensures |r| == length
  {
    XorBytes(PHash(p, Md5, FirstHalf(secret), Ascii(name) + seed, length),
             PHash(p, Sha1, SecondHalf(secret), Ascii(name) + seed, length))
  }

  lemma PrfPrefix(p: Primitives, secret: Bytes, name: string, seed: Bytes, short: nat, long: nat)
    requires IsAscii(name) && short <= long
    ensures PrfOutput(p, secret, name, seed, long)[..short] == PrfOutput(p, secret, name, seed, short)
  {
  }

  /** `tls10_prf`. */
  method Tls10Prf(p: Primitives, secret: Bytes, name: string, seed: Bytes, length: nat) returns (out: Bytes)
    requires IsAscii(name)
    ensures out == PrfOutput(p, secret, name, seed, length)
  {
    var labelSeed := Ascii(name) + seed;
    var n := |secret|;
    var half := n / 2;
    var md5Out := Expand(p, Md5, secret[..half + n % 2], labelSeed, length);
    var sha1Out := Expand(p, Sha1, secret[half..], labelSeed, length);
    out := XorBytes(md5Out, sha1Out);
  }
}
