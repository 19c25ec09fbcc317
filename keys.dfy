/** Provider API keys at rest: AES-GCM with a fresh 96-bit IV per key
    (NIST SP 800-38D), stored as the IV followed by the ciphertext. The cipher,
    the random IV source, base64 and UTF-8 text coding are foreign primitives;
    the model covers the framing around them and the displayed key hint. */
module KeyCrypto {

  import opened Common
  import opened ContentHash

  /** The IV length used by `encryptProviderKey`: 12 bytes = 96 bits. */
  const IvLength := 12

  type Iv = s: seq<byte> | |s| == IvLength witness seq(12, _ => 0)

  /** `s.slice(start)` with one argument: a negative start counts from the end;
      out-of-range starts are clamped to the string. The result is always a
      suffix of `s`: the last `-start` characters (all of `s` when shorter)
      for a negative start, everything from `start` on (nothing when past
      the end) otherwise. */
  function JsSlice(s: string, start: int): (r: string)
    ensures |r| <= |s| && r == s[|s| - |r|..]
    ensures start < 0 ==> |r| == Min(|s|, -start)
    ensures start >= 0 ==> |r| == Max(|s| - start, 0)
  {
    var from := if start < 0 then Max(|s| + start, 0) else Min(start, |s|);
    s[from..]
  }

  /** `getKeyHint`: three dots and the last (at most) four characters. */
  function GetKeyHint(apiKey: string): (hint: string)
    ensures |hint| == 3 + Min(4, |apiKey|)
    ensures hint[..3] == "..."
    ensures apiKey[|apiKey| - (|hint| - 3)..] == hint[3..]
  {
    "..." + JsSlice(apiKey, -4)
  }

  /** A key of at least four characters always gives a seven-character hint. */
  lemma KeyHintOfLongKey(apiKey: string)
    requires |apiKey| >= 4
    ensures |GetKeyHint(apiKey)| == 7
    ensures GetKeyHint(apiKey)[3..] == apiKey[|apiKey| - 4..]
  {
  }

  /** The stored layout: IV, then ciphertext. */
  function Packed(iv: Iv, ciphertext: seq<byte>): seq<byte>
  {
    iv + ciphertext
  }

  /** `Uint8Array.prototype.set(src, offset)`: copies `src` over `dst` from
      `offset` on and leaves every other element as it was. */
  method CopyInto(dst: array<byte>, src: seq<byte>, offset: nat)
    requires offset + |src| <= dst.Length
    modifies dst
    ensures dst[..] == old(dst[..offset]) + src + old(dst[offset + |src|..])
  {
    var k := 0;
    while k < |src|
      invariant 0 <= k <= |src|
      invariant dst[..offset] == old(dst[..offset])
      invariant dst[offset..offset + k] == src[..k]
      invariant dst[offset + |src|..] == old(dst[offset + |src|..])
      invariant dst[offset + k..offset + |src|] == old(dst[offset + k..offset + |src|])
    {
      dst[offset + k] := src[k];
      k := k + 1;
    }
    assert dst[..] == dst[..offset] + dst[offset..offset + |src|] + dst[offset + |src|..];
  }

  /** The buffer assembly of `encryptProviderKey`: a zero-filled array of
      `|iv| + |ciphertext|` bytes, then the IV set at 0 and the ciphertext at 12. */
  method Pack(iv: Iv, ciphertext: seq<byte>) returns (combined: array<byte>)
    ensures combined.Length == IvLength + |ciphertext|
    ensures combined[..] == Packed(iv, ciphertext)
  {
    combined := new byte[|iv| + |ciphertext|](_ => 0);
    CopyInto(combined, iv, 0);
    CopyInto(combined, ciphertext, |iv|);
  }

  /** `combined.subarray(0, 12)` and `combined.subarray(12)` in
      `decryptProviderKey`; both clamp to the buffer. */
  function Unpack(combined: seq<byte>): (parts: (seq<byte>, seq<byte>))
    ensures parts.0 + parts.1 == combined
    ensures |parts.0| == Min(IvLength, |combined|)
  {
    if |combined| < IvLength then (combined, [])
    else (combined[..IvLength], combined[IvLength..])
  }

  /** Bytes `[0, 12)` are the IV and the rest is the ciphertext, unchanged. */
  lemma PackedLayout(iv: Iv, ciphertext: seq<byte>)
    ensures |Packed(iv, ciphertext)| == IvLength + |ciphertext|
    ensures Packed(iv, ciphertext)[..IvLength] == iv
    ensures Packed(iv, ciphertext)[IvLength..] == ciphertext
  {
  }

  /** The split at offset 12 recovers exactly what was packed. */
  lemma UnpackPacked(iv: Iv, ciphertext: seq<byte>)
    ensures Unpack(Packed(iv, ciphertext)) == (iv, ciphertext)
  {
    PackedLayout(iv, ciphertext);
  }

  /** `encryptProviderKey` before base64: the packed IV and ciphertext. */
  function EncryptFramed(encrypt: (Iv, seq<byte>) -> seq<byte>, iv: Iv, plaintext: seq<byte>): seq<byte>
  {
    Packed(iv, encrypt(iv, plaintext))
  }

  /** `decryptProviderKey` after base64: split, then decrypt. */
  function DecryptFramed(decrypt: (seq<byte>, seq<byte>) -> seq<byte>, combined: seq<byte>): seq<byte>
  {
    var (iv, ciphertext) := Unpack(combined);
    decrypt(iv, ciphertext)
  }

  /** With a cipher whose decryption undoes its encryption under the same IV,
      decrypting the stored bytes returns the plaintext. */
  lemma DecryptEncrypted(encrypt: (Iv, seq<byte>) -> seq<byte>,
                         decrypt: (seq<byte>, seq<byte>) -> seq<byte>,
                         iv: Iv, plaintext: seq<byte>)
    requires decrypt(iv, encrypt(iv, plaintext)) == plaintext
    ensures DecryptFramed(decrypt, EncryptFramed(encrypt, iv, plaintext)) == plaintext
  {
    UnpackPacked(iv, encrypt(iv, plaintext));
  }
}
