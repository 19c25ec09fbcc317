/** The content fingerprint used as the memory dedup key: the SHA-256 digest of
    the UTF-8 encoded content, written as lower-case hexadecimal, two characters
    per byte. The digest itself (and the UTF-8 encoding before it) is a foreign
    primitive; it enters the model as a function parameter `sha256`. */
module ContentHash {

  import opened Common

  type byte = x: int | 0 <= x < 256

  /** A SHA-256 digest is 32 bytes (FIPS 180-4, section 6.2). */
  const DigestLength := 32

  type Sha256Digest = d: seq<byte> | |d| == DigestLength witness seq(32, _ => 0)

  const HexDigits := "0123456789abcdef"

  function HexDigit(n: nat): (c: char)
    requires n < 16
  {
    HexDigits[n]
  }

  /** `b.toString(16)` for a byte: no leading zero, lower-case digits. */
  function ToBase16(b: byte): (s: string)
  {
    if b < 16 then [HexDigit(b)] else [HexDigit(b / 16), HexDigit(b % 16)]
  }

  /** `s.padStart(width, fill)`: prefixes copies of `fill` until `s` is `width` long. */
  function PadStart(s: string, width: nat, fill: char): string
  {
    if |s| >= width then s else seq(width - |s|, _ => fill) + s
  }

  /** The padded string is `width` long (or `s` when longer): copies of
      `fill`, then `s`. */
  lemma PadStartSpec(s: string, width: nat, fill: char)
    ensures var r := PadStart(s, width, fill);
      && |r| == (if |s| >= width then |s| else width)
      && r[|r| - |s|..] == s
      && forall k :: 0 <= k < |r| - |s| ==> r[k] == fill
  {
  }

  /** One byte as written by `b.toString(16).padStart(2, "0")`. */
  function ByteToHex(b: byte): string
  {
    PadStart(ToBase16(b), 2, '0')
  }

  /** `Array.from(bytes).map(ByteToHex).join("")`. */
  function ToHex(d: seq<byte>): string
  {
    if d == [] then "" else ByteToHex(d[0]) + ToHex(d[1..])
  }

  /** `computeContentHash`: hex of the digest of the content. */
  function ComputeContentHash(sha256: string -> Sha256Digest, content: string): (h: string)
    ensures |h| == 2 * DigestLength
  {
    ToHexLength(sha256(content));
    ToHex(sha256(content))
  }

  /** Every byte is two characters, high nibble first; zero padding for values
      below 16 makes the high nibble `'0'`. */
  lemma ByteToHexNibbles(b: byte)
    ensures ByteToHex(b) == [HexDigit(b / 16), HexDigit(b % 16)]
  {
    PadStartSpec(ToBase16(b), 2, '0');
    if b < 16 {
      assert ToBase16(b) == [HexDigit(b)];
      assert b / 16 == 0 && b % 16 == b;
      assert HexDigit(0) == '0';
    }
  }

  lemma {:induction false} ToHexLength(d: seq<byte>)
    ensures |ToHex(d)| == 2 * |d|
  {
    if d != [] {
      ByteToHexNibbles(d[0]);
      ToHexLength(d[1..]);
    }
  }

  /** The encoding of a non-empty digest: the first byte's two digits, then
      the rest. */
  lemma ToHexCons(d: seq<byte>)
    requires d != []
    ensures ToHex(d) == [HexDigit(d[0] / 16), HexDigit(d[0] % 16)] + ToHex(d[1..])
  {
    ByteToHexNibbles(d[0]);
  }

  lemma PairThen(h: string, t: string, j: nat)
    requires |h| == 2 && j < |t|
    ensures (h + t)[j + 2] == t[j]
  {
  }

  lemma {:induction false} ToHexAt(d: seq<byte>, i: nat)
    requires i < |d|
    ensures |ToHex(d)| == 2 * |d|
    ensures ToHex(d)[2 * i] == HexDigit(d[i] / 16)
    ensures ToHex(d)[2 * i + 1] == HexDigit(d[i] % 16)
  {
    ToHexLength(d);
    ToHexCons(d);
    if i > 0 {
      var rest := d[1..];
      var head, tail := [HexDigit(d[0] / 16), HexDigit(d[0] % 16)], ToHex(rest);
      ToHexAt(rest, i - 1);
      assert rest[i - 1] == d[i];
      var j := 2 * (i - 1);
      PairThen(head, tail, j);
      PairThen(head, tail, j + 1);
    }
  }

  /** The output uses only the lower-case hex alphabet. */
  lemma ToHexAlphabet(d: seq<byte>)
    ensures forall k :: 0 <= k < |ToHex(d)| ==> ToHex(d)[k] in HexDigits
  {
    ToHexLength(d);
    forall k | 0 <= k < |ToHex(d)|
      ensures ToHex(d)[k] in HexDigits
    {
      ToHexAt(d, k / 2);
      assert k == 2 * (k / 2) || k == 2 * (k / 2) + 1;
    }
  }

  /** The value of a lower-case hex digit, the inverse of `HexDigit`. */
  function HexValue(c: char): (r: Option<nat>)
    ensures r.Some? ==> r.value < 16 && HexDigit(r.value) == c
    ensures c in HexDigits ==> r.Some?
  {
    if '0' <= c <= '9' then Some(c as int - '0' as int)
    else if 'a' <= c <= 'f' then Some(c as int - 'a' as int + 10)
    else None
  }

  /** Reads a hex string back as bytes, two characters per byte. */
  function FromHex(s: string): Option<seq<byte>>
  {
    if s == [] then Some([])
    else if |s| == 1 then None
    else
      match (HexValue(s[0]), HexValue(s[1]), FromHex(s[2..]))
      case (Some(hi), Some(lo), Some(rest)) => Some([hi * 16 + lo] + rest)
      case _ => None
  }

  lemma HexDigitValue(n: nat)
    requires n < 16
    ensures HexValue(HexDigit(n)) == Some(n)
  {
  }

  /** A byte is its two nibbles. */
  lemma NibbleSplit(b: byte)
    ensures b / 16 < 16 && (b / 16) * 16 + b % 16 == b
  {
  }

  /** Decoding the hex string recovers the digest. */
  lemma {:induction false} FromHexToHex(d: seq<byte>)
    ensures FromHex(ToHex(d)) == Some(d)
  {
    if d != [] {
      var b := d[0];
      var hi, lo := b / 16, b % 16;
      NibbleSplit(b);
      HexDigitValue(hi);
      HexDigitValue(lo);
      FromHexToHex(d[1..]);
      ToHexCons(d);
      var s := ToHex(d);
      assert s[2..] == ToHex(d[1..]);
      assert FromHex(s) == Some([hi * 16 + lo] + d[1..]);
      assert [d[0]] + d[1..] == d;
    }
  }

  /** Equal hash strings come from equal digests: the encoding loses nothing. */
  lemma ToHexInjective(d1: seq<byte>, d2: seq<byte>)
    requires ToHex(d1) == ToHex(d2)
    ensures d1 == d2
  {
    FromHexToHex(d1);
    FromHexToHex(d2);
  }

  /** Two contents get the same fingerprint exactly when their digests agree. */
  lemma SameHashIffSameDigest(sha256: string -> Sha256Digest, c1: string, c2: string)
    ensures ComputeContentHash(sha256, c1) == ComputeContentHash(sha256, c2)
        <==> sha256(c1) == sha256(c2)
  {
    if ComputeContentHash(sha256, c1) == ComputeContentHash(sha256, c2) {
      ToHexInjective(sha256(c1), sha256(c2));
    }
  }
}
