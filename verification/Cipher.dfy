/**
 The cipher: CBC with PKCS#7 padding.  The AES block function and the two HMACs
 are parameters; only invertibility and output lengths are used.
 */
module Cipher {
  import opened ByteStrings
  import opened Options

  type Block = b: Bytes | |b| == 16 witness Zeros(16)
  type Digest16 = b: Bytes | |b| == 16 witness Zeros(16)
  type Digest20 = b: Bytes | |b| == 20 witness Zeros(20)

  datatype Primitives = Primitives(
    aesEncrypt: (Block, Block) -> Block,
    aesDecrypt: (Block, Block) -> Block,
    hmacMd5: (Bytes, Bytes) -> Digest16,
    hmacSha1: (Bytes, Bytes) -> Digest20)
  {
    /** Under one key, deciphering a block undoes enciphering it. */
    ghost predicate Lawful() {
      forall key: Block, b: Block :: aesDecrypt(key, aesEncrypt(key, b)) == b
    }

    /** And enciphering undoes deciphering. */
    ghost predicate Invertible() {
      Lawful() && forall key: Block, b: Block :: aesEncrypt(key, aesDecrypt(key, b)) == b
    }
  }

  predicate Whole(data: Bytes) {
    |data| % 16 == 0
  }

  // -------------------------------------------------------------------------- CBC

  /** CBC encryption, section 6.2 of NIST SP 800-38A. */
  function CbcEncrypt(p: Primitives, key: Block, iv: Block, data: Bytes): (r: Bytes)
    requires Whole(data)
    ensures |r| == |data|
    decreases |data|
  {
    if data == [] then []
    else
      var c := p.aesEncrypt(key, XorBytes(data[..16], iv));
      c + CbcEncrypt(p, key, c, data[16..])
  }

  function CbcDecrypt(p: Primitives, key: Block, iv: Block, data: Bytes): (r: Bytes)
    requires Whole(data)
    ensures |r| == |data|
    decreases |data|
  {
    if data == [] then []
    else
      var c: Block := data[..16];
      XorBytes(p.aesDecrypt(key, c), iv) + CbcDecrypt(p, key, c, data[16..])
  }

  /** The vector the next block is chained to: the last block, or the one before the first. */
  function Chain(iv: Block, data: Bytes): Block
    requires Whole(data)
  {
    if data == [] then iv else data[|data| - 16..]
  }

  lemma {:induction false} CbcRoundTrip(p: Primitives, key: Block, iv: Block, data: Bytes)
    requires p.Lawful() && Whole(data)
    ensures CbcDecrypt(p, key, iv, CbcEncrypt(p, key, iv, data)) == data
    decreases |data|
  {
    if data != [] {
      var x := XorBytes(data[..16], iv);
      var c := p.aesEncrypt(key, x);
      var r := CbcEncrypt(p, key, iv, data);
      assert r[..16] == c && r[16..] == CbcEncrypt(p, key, c, data[16..]);
      CbcRoundTrip(p, key, c, data[16..]);
      XorCancels(data[..16], iv);
      assert data == data[..16] + data[16..];
    }
  }

  /** And encryption undoes decryption: every ciphertext is that of some data. */
  lemma {:induction false} CbcRoundTripBack(p: Primitives, key: Block, iv: Block, data: Bytes)
    requires p.Invertible() && Whole(data)
    ensures CbcEncrypt(p, key, iv, CbcDecrypt(p, key, iv, data)) == data
    decreases |data|
  {
    if data != [] {
      var c: Block := data[..16];
      var d := p.aesDecrypt(key, c);
      var r := CbcDecrypt(p, key, iv, data);
      assert r[..16] == XorBytes(d, iv) && r[16..] == CbcDecrypt(p, key, c, data[16..]);
      XorCancels(d, iv);
      CbcRoundTripBack(p, key, c, data[16..]);
      assert data == c + data[16..];
    }
  }

  /** Block `at` of the ciphertext: the cipher of that block of data mixed with the block before it. */
  lemma {:induction false} CbcBlock(p: Primitives, key: Block, iv: Block, data: Bytes, at: nat)
    requires Whole(data) && at % 16 == 0 && at + 16 <= |data|
    ensures var ct := CbcEncrypt(p, key, iv, data);
            var before := if at == 0 then iv else ct[at - 16..at];
            ct[at..at + 16] == p.aesEncrypt(key, XorBytes(data[at..at + 16], before))
    decreases |data|
  {
    var c := p.aesEncrypt(key, XorBytes(data[..16], iv));
    var rest := CbcEncrypt(p, key, c, data[16..]);
    var ct := CbcEncrypt(p, key, iv, data);
    assert ct == c + rest;
    if at == 0 {
      assert data[0..16] == data[..16] && ct[0..16] == c;
    } else {
      CbcBlock(p, key, c, data[16..], at - 16);
      assert data[16..][at - 16..at] == data[at..at + 16];
      assert rest[at - 16..at] == ct[at..at + 16];
      if at == 16 {
        assert ct[0..16] == c;
      } else {
        assert rest[at - 32..at - 16] == ct[at - 16..at];
      }
    }
  }

  lemma WholeLong(a: Bytes)
    requires Whole(a) && a != []
    ensures |a| >= 16
  {
  }

  lemma WholeJoin(a: Bytes, b: Bytes)
    requires Whole(a) && Whole(b)
    ensures Whole(a + b)
    ensures a != [] ==> |a| >= 16 && Whole(a[16..]) && (a + b)[..16] == a[..16] && (a + b)[16..] == a[16..] + b
  {
  }

  /** Encrypting in two parts, the second chained to the first, is encrypting the whole. */
  lemma {:induction false} CbcAppend(p: Primitives, key: Block, iv: Block, a: Bytes, b: Bytes)
    requires Whole(a) && Whole(b)
    ensures Whole(a + b)
    ensures CbcEncrypt(p, key, iv, a + b)
         == CbcEncrypt(p, key, iv, a) + CbcEncrypt(p, key, Chain(iv, CbcEncrypt(p, key, iv, a)), b)
    decreases |a|
  {
    WholeJoin(a, b);
    if a == [] {
      assert a + b == b;
    } else {
      var c := p.aesEncrypt(key, XorBytes(a[..16], iv));
      var rest := CbcEncrypt(p, key, c, a[16..]);
      var tail := CbcEncrypt(p, key, Chain(c, rest), b);
      CbcAppend(p, key, c, a[16..], b);
      ChainAppend(iv, c, rest);
      assert CbcEncrypt(p, key, iv, a + b) == c + (rest + tail);
      assert c + (rest + tail) == (c + rest) + tail;
    }
  }

  lemma ChainAppend(iv: Block, c: Block, rest: Bytes)
    requires Whole(rest)
    ensures Whole(c + rest) && Chain(iv, c + rest) == Chain(c, rest)
  {
    WholeJoin(c, rest);
    if rest == [] {
      assert (c + rest)[|c + rest| - 16..] == c;
    } else {
      WholeLong(rest);
      assert (c + rest)[|c + rest| - 16..] == rest[|rest| - 16..];
    }
  }

  // ---------------------------------------------------------------------- padding

  function PadLength(n: nat): byte {
    16 - n % 16
  }

  /** PKCS#7 padding to whole blocks, section 6.3 of RFC 5652. */
  function Pad(data: Bytes): (r: Bytes)
    ensures Whole(r) && r != []
  {
    data + seq(PadLength(|data|), _ => PadLength(|data|))
  }

  /** The inverse; absent where the last byte is not a padding length, or the padding does not repeat it. */
  function Unpad(data: Bytes): Option<Bytes>
    requires Whole(data)
  {
    if data == [] then None
    else
      var n := data[|data| - 1];
      if n == 0 || n > 16 || exists i :: |data| - n <= i < |data| && data[i] != n then None
      else Some(data[..|data| - n])
  }

  lemma UnpadPad(data: Bytes)
    ensures Unpad(Pad(data)) == Some(data)
  {
    var r := Pad(data);
    assert r[..|data|] == data;
  }

  /** Padding is the only text that unpads to its data. */
  lemma PadUnpad(data: Bytes)
    requires Whole(data) && Unpad(data).Some?
    ensures Pad(Unpad(data).value) == data
  {
    var n := data[|data| - 1];
    var d := Unpad(data).value;
    assert PadLength(|d|) == n;
    assert forall i :: |d| <= i < |data| ==> data[i] == n;
  }

  // ------------------------------------------------------------------ AES messages

  /** `aes_cbc_encrypt`: pads in a buffer and enciphers the buffer block by block. */
  method AesCbcEncrypt(p: Primitives, key: Block, iv: Block, plaintext: Bytes) returns (ct: Bytes)
    ensures ct == CbcEncrypt(p, key, iv, Pad(plaintext))
  {
    var n := |plaintext|;
    var padding := PadLength(n);
    var buf := new byte[n + padding](i => if 0 <= i < n then plaintext[i] else padding);
    assert buf[..] == Pad(plaintext);
    EncryptBlocks(p, key, iv, buf);
    ct := buf[..];
  }

  /** The first `at` bytes are enciphered, the rest are as they were. */
  ghost predicate EncryptedTo(p: Primitives, key: Block, iv: Block, data: Bytes, now: Bytes, at: nat, chain: Block) {
    && at <= |data| == |now| && Whole(data[..at])
    && now[..at] == CbcEncrypt(p, key, iv, data[..at])
    && now[at..] == data[at..]
    && chain == Chain(iv, now[..at])
  }

  method EncryptBlocks(p: Primitives, key: Block, iv: Block, buf: array<byte>)
    requires Whole(buf[..])
    modifies buf
    ensures Whole(old(buf[..])) && buf[..] == CbcEncrypt(p, key, iv, old(buf[..]))
  {
    ghost var data := buf[..];
    var at, chain := 0, iv;
    while at < buf.Length
      invariant at <= buf.Length && at % 16 == 0
      invariant EncryptedTo(p, key, iv, data, buf[..], at, chain)
    {
      var c: Block := p.aesEncrypt(key, XorBytes(buf[at..at + 16], chain));
      ghost var before := buf[..];
      WriteBlock(buf, at, c);
      EncryptOneMore(p, key, iv, data, before, buf[..], at, chain, c);
      chain := c;
      at := at + 16;
    }
    assert buf[..][..at] == buf[..] && data[..at] == data;
  }

  lemma EncryptOneMore(p: Primitives, key: Block, iv: Block, data: Bytes, before: Bytes, now: Bytes, at: nat,
                       chain: Block, c: Block)
    requires at + 16 <= |data| && EncryptedTo(p, key, iv, data, before, at, chain)
    requires c == p.aesEncrypt(key, XorBytes(before[at..at + 16], chain))
    requires now == before[..at] + c + before[at + 16..]
    ensures EncryptedTo(p, key, iv, data, now, at + 16, c)
  {
    var block := data[at..at + 16];
    assert before[at..at + 16] == block by {
      assert before[at..][..16] == data[at..][..16];
    }
    assert data[..at + 16] == data[..at] + block;
    CbcAppend(p, key, iv, data[..at], block);
    assert block[..16] == block && block[16..] == [];
    assert CbcEncrypt(p, key, chain, block) == c;
    assert now[..at + 16] == before[..at] + c;
    assert now[at + 16..] == before[at..][16..];
    assert data[at + 16..] == data[at..][16..];
  }

  method WriteBlock(buf: array<byte>, at: nat, c: Block)
    requires at + 16 <= buf.Length
    modifies buf
    ensures buf[..] == old(buf[..at]) + c + old(buf[at + 16..])
  {
    forall i | 0 <= i < 16 {
      buf[at + i] := c[i];
    }
  }

  /** `aes_cbc_decrypt`: deciphers a copy block by block; absent where the length or the padding is wrong. */
  method AesCbcDecrypt(p: Primitives, key: Block, iv: Block, ct: Bytes) returns (r: Option<Bytes>)
    ensures r == Deciphered(p, key, iv, ct)
  {
    if !Whole(ct) {
      return None;
    }
    var buf := new byte[|ct|](i => if 0 <= i < |ct| then ct[i] else 0);
    assert buf[..] == ct;
    DecryptBlocks(p, key, iv, buf);
    r := Unpad(buf[..]);
  }

  ghost predicate DecryptedTo(p: Primitives, key: Block, iv: Block, data: Bytes, now: Bytes, at: nat, chain: Block) {
    && at <= |data| == |now| && Whole(data[..at])
    && now[..at] == CbcDecrypt(p, key, iv, data[..at])
    && now[at..] == data[at..]
    && chain == Chain(iv, data[..at])
  }

  method DecryptBlocks(p: Primitives, key: Block, iv: Block, buf: array<byte>)
    requires Whole(buf[..])
    modifies buf
    ensures Whole(old(buf[..])) && buf[..] == CbcDecrypt(p, key, iv, old(buf[..]))
  {
    ghost var data := buf[..];
    var at, chain := 0, iv;
    while at < buf.Length
      invariant at <= buf.Length && at % 16 == 0
      invariant DecryptedTo(p, key, iv, data, buf[..], at, chain)
    {
      var c: Block := buf[at..at + 16];
      ghost var before := buf[..];
      WriteBlock(buf, at, XorBytes(p.aesDecrypt(key, c), chain));
      DecryptOneMore(p, key, iv, data, before, buf[..], at, chain, c);
      chain := c;
      at := at + 16;
    }
    assert buf[..][..at] == buf[..] && data[..at] == data;
  }

  lemma DecryptOneMore(p: Primitives, key: Block, iv: Block, data: Bytes, before: Bytes, now: Bytes, at: nat,
                       chain: Block, c: Block)
    requires at + 16 <= |data| && DecryptedTo(p, key, iv, data, before, at, chain)
    requires c == before[at..at + 16]
    requires now == before[..at] + XorBytes(p.aesDecrypt(key, c), chain) + before[at + 16..]
    ensures DecryptedTo(p, key, iv, data, now, at + 16, c)
  {
    assert before[at..][..16] == data[at..][..16];
    assert data[..at + 16] == data[..at] + c;
    CbcDecryptAppend(p, key, iv, data[..at], c);
    assert c[..16] == c && c[16..] == [];
    assert CbcDecrypt(p, key, chain, c) == XorBytes(p.aesDecrypt(key, c), chain);
    assert now[..at + 16] == before[..at] + XorBytes(p.aesDecrypt(key, c), chain);
    assert now[at + 16..] == before[at..][16..];
    assert data[at + 16..] == data[at..][16..];
  }

  lemma {:induction false} CbcDecryptAppend(p: Primitives, key: Block, iv: Block, a: Bytes, b: Bytes)
    requires Whole(a) && Whole(b)
    ensures Whole(a + b)
    ensures CbcDecrypt(p, key, iv, a + b) == CbcDecrypt(p, key, iv, a) + CbcDecrypt(p, key, Chain(iv, a), b)
    decreases |a|
  {
    WholeJoin(a, b);
    if a == [] {
      assert a + b == b;
    } else {
      var c: Block := a[..16];
      var first := XorBytes(p.aesDecrypt(key, c), iv);
      var rest := CbcDecrypt(p, key, c, a[16..]);
      var tail := CbcDecrypt(p, key, Chain(c, a[16..]), b);
      CbcDecryptAppend(p, key, c, a[16..], b);
      assert a == c + a[16..];
      ChainAppend(iv, c, a[16..]);
      assert first + (rest + tail) == (first + rest) + tail;
    }
  }

  /** What a ciphertext stands for, if anything. */
  function Deciphered(p: Primitives, key: Block, iv: Block, ct: Bytes): (r: Option<Bytes>)
    ensures r.Some? ==> |ct| >= 16 && Whole(ct)
  {
    if !Whole(ct) then None else Unpad(CbcDecrypt(p, key, iv, ct))
  }

  lemma AesRoundTrip(p: Primitives, key: Block, iv: Block, plaintext: Bytes)
    requires p.Lawful()
    ensures Deciphered(p, key, iv, CbcEncrypt(p, key, iv, Pad(plaintext))) == Some(plaintext)
  {
    CbcRoundTrip(p, key, iv, Pad(plaintext));
    UnpadPad(plaintext);
  }
}
