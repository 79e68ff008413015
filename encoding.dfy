/**
 * `Buffer.toString('hex')` and `Buffer.toString('base64')`: the two text
 * forms a local digest is compared in.
 */
module Encoding {
  import opened Wrappers
  import opened Interfaces

  datatype HashEncoding = Hex | Base64

  const Base64Alphabet: string := "ABCDEFGHIJKLMNOPQRSTUVWXYZabcdefghijklmnopqrstuvwxyz0123456789+/"

  /** The lower-case hex digit for a value below 16. */
  function HexDigit(d: nat): char
    requires d < 16
  {
    if d < 10 then (('0' as int) + d) as char else (('a' as int) + d - 10) as char
  }

  /** The value of a lower-case hex digit. */
  function HexValue(c: char): (r: Option<nat>)
    ensures r.Some? ==> r.value < 16 && HexDigit(r.value) == c
  {
    if '0' <= c <= '9' then Some((c as int) - ('0' as int))
    else if 'a' <= c <= 'f' then Some((c as int) - ('a' as int) + 10)
    else None
  }

  /** Two lower-case hex digits per byte, most significant digit first. */
  function HexString(bytes: seq<byte>): (s: string)
    ensures |s| == 2 * |bytes|
  {
    if |bytes| == 0 then ""
    else [HexDigit(bytes[0] as int / 16), HexDigit(bytes[0] as int % 16)] + HexString(bytes[1..])
  }

  /** Reads a hex string back into bytes; fails on odd length or a non-hex digit. */
  function ParseHex(s: string): Option<seq<byte>>
    decreases |s|
  {
    if |s| < 2 then (if |s| == 0 then Some([]) else None)
    else match (HexValue(s[0]), HexValue(s[1]), ParseHex(s[2..]))
      case (Some(hi), Some(lo), Some(rest)) => Some([(hi * 16 + lo) as byte] + rest)
      case _ => None
  }

  /** Hex encoding loses nothing: parsing it back yields the bytes. */
  lemma {:induction false} ParseHexString(bytes: seq<byte>)
    ensures ParseHex(HexString(bytes)) == Some(bytes)
  {
    if |bytes| > 0 {
      var s := HexString(bytes);
      var b := bytes[0] as int;
      assert s[0] == HexDigit(b / 16) && s[1] == HexDigit(b % 16);
      assert s[2..] == HexString(bytes[1..]);
      ParseHexString(bytes[1..]);
      assert HexValue(s[0]) == Some(b / 16);
      assert HexValue(s[1]) == Some(b % 16);
      assert [(b / 16 * 16 + b % 16) as byte] + bytes[1..] == bytes;
    }
  }

  /** Equal hex strings come from equal bytes. */
  lemma HexInjective(a: seq<byte>, b: seq<byte>)
    requires HexString(a) == HexString(b)
    ensures a == b
  {
    ParseHexString(a);
    ParseHexString(b);
  }

  /** The four characters for one group of one to three bytes. */
  function Base64Group(b0: byte, b1: Option<byte>, b2: Option<byte>): (s: string)
    requires b1.None? ==> b2.None?
    ensures |s| == 4
  {
    var x0 := b0 as int;
    var x1 := if b1.Some? then b1.value as int else 0;
    var x2 := if b2.Some? then b2.value as int else 0;
    [Base64Alphabet[x0 / 4],
     Base64Alphabet[(x0 % 4) * 16 + x1 / 16],
     if b1.Some? then Base64Alphabet[(x1 % 16) * 4 + x2 / 64] else '=',
     if b2.Some? then Base64Alphabet[x2 % 64] else '=']
  }

  /** The number of started groups of three. */
  function Groups(n: nat): (g: nat)
    ensures 3 * g >= n > 3 * g - 3
  {
    if n == 0 then 0 else 1 + Groups(if n >= 3 then n - 3 else 0)
  }

  /** Standard base64 with '=' padding: four characters per started group of three bytes. */
  function Base64String(bytes: seq<byte>): (s: string)
    ensures |s| == 4 * Groups(|bytes|)
  {
    if |bytes| == 0 then ""
    else if |bytes| == 1 then Base64Group(bytes[0], None, None)
    else if |bytes| == 2 then Base64Group(bytes[0], Some(bytes[1]), None)
    else Base64Group(bytes[0], Some(bytes[1]), Some(bytes[2])) + Base64String(bytes[3..])
  }

  /** A digest in the given text form; only the empty digest has the empty form. */
  function EncodeDigest(enc: HashEncoding, bytes: seq<byte>): (s: string)
    ensures s == "" <==> bytes == []
  {
    match enc
    case Hex => HexString(bytes)
    case Base64 => Base64String(bytes)
  }
}
