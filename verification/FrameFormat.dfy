/**
 A frame as a peer would describe it, byte by byte: what must hold between the
 bytes on the wire and the text they stand for, and not how either is computed.
 */
module FrameFormat {
  import opened ByteStrings
  import opened Options
  import opened Cipher

  /** Where the block that holds byte `j` starts. */
  function BlockStart(j: nat): nat {
    j / 16 * 16
  }

  /** The bytes chained into the block at `at`: the block before it, or the vector. */
  function ChainedInto(iv: Block, ct: Bytes, at: nat): Block
    requires at + 16 <= |ct| && at % 16 == 0
  {
    if at == 0 then iv else ct[at - 16..at]
  }

  /** Byte `j` of the deciphered block, mixed with what is chained into it, is `b`. */
  ghost predicate Says(p: Primitives, key: Block, iv: Block, ct: Bytes, j: nat, b: byte)
    requires Whole(ct) && j < |ct|
  {
    var at := BlockStart(j);
    BlockFits(|ct|, j);
    Mixes(p.aesDecrypt(key, ct[at..at + 16])[j % 16], ChainedInto(iv, ct, at)[j % 16], b)
  }

  lemma BlockFits(n: nat, j: nat)
    requires n % 16 == 0 && j < n
    ensures BlockStart(j) + 16 <= n && BlockStart(j) % 16 == 0 && BlockStart(j) + j % 16 == j
  {
  }

  /** The text, then one to sixteen bytes that each say how many they are. */
  function PaddedByte(text: Bytes, size: nat, j: nat): byte
    requires |text| < size <= |text| + 16
  {
    if j < |text| then text[j] else size - |text|
  }

  /** Whole blocks that say the text and its padding: section 6.2 of NIST SP 800-38A, section 6.3 of RFC 5652. */
  ghost predicate Carries(p: Primitives, key: Block, iv: Block, text: Bytes, ct: Bytes) {
    && Whole(ct) && |text| < |ct| <= |text| + 16
    && forall j {:trigger Says(p, key, iv, ct, j, PaddedByte(text, |ct|, j))} ::
         0 <= j < |ct| ==> Says(p, key, iv, ct, j, PaddedByte(text, |ct|, j))
  }

  ghost predicate CarriesNothing(p: Primitives, key: Block, iv: Block, ct: Bytes) {
    forall text :: !Carries(p, key, iv, text, ct)
  }

  /** Blocks that carry the text, then the 20 bytes that authenticate the vector and them. */
  ghost predicate IsFrame(p: Primitives, key: Block, macKey: Bytes, iv: Block, text: Bytes, frame: Bytes) {
    && |frame| >= 20
    && Carries(p, key, iv, text, frame[..|frame| - 20])
    && frame[|frame| - 20..] == p.hmacSha1(macKey, iv + frame[..|frame| - 20])
  }

  // -------------------------------------------------------------------- deciphering

  lemma SaysFirst(p: Primitives, key: Block, iv: Block, ct: Bytes, j: nat, b: byte)
    requires Whole(ct) && ct != [] && j < 16
    ensures |ct| >= 16
    ensures Says(p, key, iv, ct, j, b) <==> Mixes(p.aesDecrypt(key, ct[..16])[j], iv[j], b)
  {
    assert BlockStart(j) == 0 && ct[0..16] == ct[..16];
  }

  lemma SaysLater(p: Primitives, key: Block, iv: Block, ct: Bytes, j: nat, b: byte)
    requires Whole(ct) && 16 <= j < |ct|
    ensures Whole(ct[16..]) && (Says(p, key, iv, ct, j, b) <==> Says(p, key, ct[..16], ct[16..], j - 16, b))
  {
    var at := BlockStart(j);
    BlockFits(|ct|, j);
    assert BlockStart(j - 16) == at - 16 && (j - 16) % 16 == j % 16;
    assert ct[16..][at - 16..at] == ct[at..at + 16];
    if at == 16 {
      assert ct[at - 16..at] == ct[..16];
    } else {
      assert ct[16..][at - 32..at - 16] == ct[at - 16..at];
    }
  }

  /** Each byte this client deciphers is what the frame says there, and only that. */
  lemma {:induction false} DecryptSays(p: Primitives, key: Block, iv: Block, ct: Bytes, j: nat, b: byte)
    requires Whole(ct) && j < |ct|
    ensures Says(p, key, iv, ct, j, b) <==> CbcDecrypt(p, key, iv, ct)[j] == b
    decreases |ct|
  {
    var first := XorBytes(p.aesDecrypt(key, ct[..16]), iv);
    var rest := CbcDecrypt(p, key, ct[..16], ct[16..]);
    assert CbcDecrypt(p, key, iv, ct) == first + rest;
    if j < 16 {
      SaysFirst(p, key, iv, ct, j, b);
      XorMixes(p.aesDecrypt(key, ct[..16])[j], iv[j], b);
    } else {
      SaysLater(p, key, iv, ct, j, b);
      DecryptSays(p, key, ct[..16], ct[16..], j - 16, b);
      assert (first + rest)[j] == rest[j - 16];
    }
  }

  /** What unpads to a text is the text and its padding, byte by byte. */
  lemma UnpadIff(data: Bytes, text: Bytes)
    requires Whole(data)
    ensures Unpad(data) == Some(text)
       <==> |text| < |data| <= |text| + 16 && forall j :: 0 <= j < |data| ==> data[j] == PaddedByte(text, |data|, j)
  {
    if |text| < |data| <= |text| + 16 && forall j :: 0 <= j < |data| ==> data[j] == PaddedByte(text, |data|, j) {
      assert data[|data| - 1] == |data| - |text|;
      assert data[..|text|] == text;
    }
  }

  /** Deciphering gives a text exactly where the blocks carry it. */
  lemma DecipheredIff(p: Primitives, key: Block, iv: Block, ct: Bytes, text: Bytes)
    ensures Deciphered(p, key, iv, ct) == Some(text) <==> Carries(p, key, iv, text, ct)
  {
    if Whole(ct) {
      var data := CbcDecrypt(p, key, iv, ct);
      UnpadIff(data, text);
      if |text| < |ct| <= |text| + 16 {
        forall j | 0 <= j < |ct|
          ensures Says(p, key, iv, ct, j, PaddedByte(text, |ct|, j)) <==> data[j] == PaddedByte(text, |ct|, j)
        {
          DecryptSays(p, key, iv, ct, j, PaddedByte(text, |ct|, j));
        }
      }
    }
  }

  /** Only what was enciphered carries a text. */
  lemma EncipheredIff(p: Primitives, key: Block, iv: Block, ct: Bytes, text: Bytes)
    requires p.Invertible()
    ensures ct == CbcEncrypt(p, key, iv, Pad(text)) <==> Carries(p, key, iv, text, ct)
  {
    DecipheredIff(p, key, iv, ct, text);
    if ct == CbcEncrypt(p, key, iv, Pad(text)) {
      AesRoundTrip(p, key, iv, text);
    }
    if Carries(p, key, iv, text, ct) {
      PadUnpad(CbcDecrypt(p, key, iv, ct));
      CbcRoundTripBack(p, key, iv, ct);
    }
  }
}
