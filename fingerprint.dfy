/**
 The fingerprints of a joke: the exact-match hash (md5 of the lower-cased,
 trimmed text) and the hash-derived fallback embedding used when the remote
 embedding service fails. md5 and sha256 are supplied by the caller; only the
 size of a sha256 digest, 32 bytes, is assumed.
 */
module Fingerprint {
  import opened JsText

  newtype Byte = x: int | 0 <= x < 256

  /** A sha256 digest. */
  type Digest = d: seq<Byte> | |d| == 32 witness seq(32, _ => 0 as Byte)

  /** The text `generateHash` passes to md5: lower-cased, then trimmed. */
  function Normalize(text: string): string {
    Trim(Lower(text))
  }

  /** `generateHash`: the md5 digest of the normalised text. */
  function GenerateHash(md5: string -> string, text: string): string {
    md5(Normalize(text))
  }

  lemma {:induction false} NormalizeIdempotent(text: string)
    ensures Normalize(Normalize(text)) == Normalize(text)
  {
    var x := Trim(Lower(text));
    calc {
      Normalize(x);
      Trim(Lower(x));
      { LowerTrimCommute(text); }
      Trim(Lower(Lower(Trim(text))));
      { LowerIdempotent(Trim(text)); }
      Trim(Lower(Trim(text)));
      { LowerTrimCommute(text); }
      Trim(Trim(Lower(text)));
      { TrimIdempotent(Lower(text)); }
      x;
    }
  }

  /** Texts that agree once lower-cased and trimmed collide, whatever md5 is. */
  lemma HashIgnoresCaseAndEdges(md5: string -> string, a: string, b: string)
    requires Lower(Trim(a)) == Lower(Trim(b))
    ensures GenerateHash(md5, a) == GenerateHash(md5, b)
  {
    LowerTrimCommute(a);
    LowerTrimCommute(b);
  }

  /** Hashing a text and hashing its normalised form agree. */
  lemma HashOfNormalized(md5: string -> string, text: string)
    ensures GenerateHash(md5, text) == GenerateHash(md5, Normalize(text))
  {
    NormalizeIdempotent(text);
  }

  // ---- hex digests and parseInt(_, 16) ----

  /** One lower-case hex digit, as `digest('hex')` writes it. */
  function HexChar(n: nat): (c: char)
    requires n < 16
    ensures IsHexDigit(c) && DigitValue(c) == n
  {
    if n < 10 then ('0' as int + n) as char else ('a' as int + n - 10) as char
  }

  function ByteHex(b: Byte): string {
    [HexChar(b as int / 16), HexChar(b as int % 16)]
  }

  /** `digest('hex')`: two characters per byte, high nibble first. */
  function HexEncode(d: seq<Byte>): (h: string)
    ensures |h| == 2 * |d|
  {
    if d == [] then [] else ByteHex(d[0]) + HexEncode(d[1..])
  }

  predicate IsHexDigit(c: char) {
    '0' <= c <= '9' || 'a' <= c <= 'f' || 'A' <= c <= 'F'
  }

  function DigitValue(c: char): (n: nat)
    requires IsHexDigit(c)
    ensures n < 16
  {
    if '0' <= c <= '9' then c as int - '0' as int
    else if 'a' <= c <= 'f' then c as int - 'a' as int + 10
    else c as int - 'A' as int + 10
  }

  predicate AllHex(s: string) {
    forall i :: 0 <= i < |s| ==> IsHexDigit(s[i])
  }

  /** `parseInt(s, 16)` on a non-empty string of hex digits. */
  function ParseHex(s: string): (n: nat)
    requires s != [] && AllHex(s)
    ensures n < Pow16(|s|)
  {
    if |s| == 1 then DigitValue(s[0])
    else 16 * ParseHex(s[..|s| - 1]) + DigitValue(s[|s| - 1])
  }

  function Pow16(k: nat): (p: nat)
    ensures p > 0
  {
    if k == 0 then 1 else 16 * Pow16(k - 1)
  }

  /** `s.substr(start, length)` for non-negative arguments. */
  function Substr(s: string, start: nat, length: nat): (r: string)
    ensures |r| <= length
    ensures start + length <= |s| ==> r == s[start..start + length]
    ensures start >= |s| ==> r == []
  {
    var from := if start < |s| then start else |s|;
    var to := if start + length < |s| then start + length else |s|;
    s[from..to]
  }

  /** Reading a byte's two hex digits back gives the byte. */
  lemma ParseByteHex(b: Byte)
    ensures AllHex(ByteHex(b)) && ParseHex(ByteHex(b)) == b as int
  {
    var h := ByteHex(b);
    assert h[..1] == [h[0]];
  }

  lemma {:induction false} HexEncodeAt(d: seq<Byte>, k: nat)
    requires k < |d|
    ensures HexEncode(d)[2 * k..2 * k + 2] == ByteHex(d[k])
  {
    var h := HexEncode(d);
    assert h == ByteHex(d[0]) + HexEncode(d[1..]);
    if k > 0 {
      HexEncodeAt(d[1..], k - 1);
      assert h[2 * k..2 * k + 2] == HexEncode(d[1..])[2 * (k - 1)..2 * (k - 1) + 2];
    }
  }

  /** Each two-character window of the hex digest at an even index is the
      encoding of one byte of the digest, and so parses back to that byte. */
  lemma HexPairParses(d: seq<Byte>, i: nat)
    requires i % 2 == 0 && i + 2 <= 2 * |d|
    ensures var pair := Substr(HexEncode(d), i, 2);
            pair != [] && AllHex(pair) && ParseHex(pair) == d[i / 2] as int
  {
    var k := i / 2;
    assert 2 * k == i;
    HexEncodeAt(d, k);
    ParseByteHex(d[k]);
    var h := HexEncode(d);
    assert Substr(h, i, 2) == h[i..i + 2] == ByteHex(d[k]);
  }

  // ---- the fallback embedding ----

  /** An entry of the fallback vector: `(parseInt(pair, 16) - 128) / 128`. */
  function ByteToUnit(b: int): real {
    (b - 128) as real / 128.0
  }

  /** The vector the fallback builds from a sha256 digest: one entry per
      byte while the 64-character digest lasts, then the value of "00". */
  function FallbackVector(d: Digest): (v: seq<real>)
    ensures |v| == 384
    ensures forall k :: 0 <= k < |v| ==> -1.0 <= v[k] <= 127.0 / 128.0
  {
    seq(384, k requires 0 <= k < 384 => if k < 32 then ByteToUnit(d[k] as int) else -1.0)
  }

  /** The fallback branch of `generateEmbedding`: walk the hex sha256 digest
      of the lower-cased (not trimmed) text two characters at a time, for even
      indices below 768, substituting "00" once the digest is exhausted. */
  method FallbackEmbedding(sha256: string -> Digest, text: string) returns (v: seq<real>)
    ensures |v| == 384
    ensures forall k :: 0 <= k < 32 ==> v[k] == ByteToUnit(sha256(Lower(text))[k] as int)
    ensures forall k :: 32 <= k < 384 ==> v[k] == -1.0
    ensures v == FallbackVector(sha256(Lower(text)))
  {
    var d := sha256(Lower(text));
    var hash := HexEncode(d);
    v := [];
    var i := 0;
    while i < 768
      invariant 0 <= i <= 768 && i % 2 == 0
      invariant |v| == i / 2
      invariant forall k :: 0 <= k < |v| ==> v[k] == FallbackVector(d)[k]
    {
      var hexPair := Substr(hash, i, 2);
      if hexPair == [] {
        hexPair := "00";
      }
      if i < 64 {
        HexPairParses(d, i);
      }
      assert hexPair != [] && AllHex(hexPair);
      assert ParseHex(hexPair) == if i < 64 then d[i / 2] as int else 0;
      v := v + [(ParseHex(hexPair) as int - 128) as real / 128.0];
      i := i + 2;
    }
  }

  /** What the embedding service answered: a vector, or any failure. */
  datatype EmbedReply = Embedded(values: seq<real>) | ServiceError

  /** The embedding `generateEmbedding` returns for a reply of the service. */
  function EmbeddingFor(reply: EmbedReply, sha256: string -> Digest, text: string): seq<real> {
    match reply
    case Embedded(values) => values
    case ServiceError => FallbackVector(sha256(Lower(text)))
  }

  /** The fallback ignores case but, unlike the hash, not surrounding
      whitespace: " a" and "a" hash alike, yet their digests are taken of
      different strings. */
  lemma FallbackSeesWhitespace()
    ensures Normalize(" a") == Normalize("a")
    ensures Lower(" a") != Lower("a")
  {
    LowerOfLowerCase();
    TrimOfSpaceA();
    TrimKeepsTrimmed("a");
  }

  lemma LowerOfLowerCase()
    ensures Lower(" a") == " a" && Lower("a") == "a"
  {
  }

  lemma TrimOfSpaceA()
    ensures Trim(" a") == "a"
  {
    assert " a" == [' '] + "a";
    TrimStartSkips(' ', "a");
    TrimKeepsTrimmed("a");
  }
}
