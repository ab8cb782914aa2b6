/**
 * The shared types of the shortener (internal/model/url.go): the URL record
 * handed to the stores, the per-user index entry, the error values, and the
 * derivation of a short key from an original URL.
 *
 * Go strings are byte strings; here a `string` stands for one, each `char`
 * standing for one byte.
 */
module Model {
  import opened Wrappers

  /** Errors the stores and adapters return. */
  datatype Error =
    | NotFound                 // errors.New("not found") from a store's Get
    | IsDeleted                // model.ErrIsDeleted
    | NoConnection             // the fixed error of PingDB on the memory and file stores
    | WriteFailed              // an append to the storage file that failed

  /** A URL as the handlers pass it to `SaveURL` and receive it from `GetURL`. */
  datatype URL = URL(
    originalURL: string,
    key: string,
    correlationID: string,
    conflict: bool,
    userID: string)

  /** An entry of a user's list: `KeyAndOURL`. */
  datatype KeyAndOURL = KeyAndOURL(key: string, originalURL: string)

  type Byte = bv8

  /** An MD5 digest: 16 bytes (RFC 1321). */
  type Digest = d: seq<Byte> | |d| == 16
    witness [0, 0, 0, 0, 0, 0, 0, 0, 0, 0, 0, 0, 0, 0, 0, 0]

  /** MD5 itself is outside this model: it is passed in as a function. */
  type Md5 = string -> Digest

  const HexDigits: string := "0123456789abcdef"

  predicate IsLowerHex(c: char) {
    c in HexDigits
  }

  /** The value of a lowercase hex digit, or -1. */
  function HexValue(c: char): (v: int)
    ensures -1 <= v < 16
    ensures v >= 0 <==> IsLowerHex(c)
    ensures v >= 0 ==> HexDigits[v] == c
  {
    if '0' <= c <= '9' then c as int - '0' as int
    else if 'a' <= c <= 'f' then c as int - 'a' as int + 10
    else -1
  }

  /** The two lowercase digits of one byte, high nibble first. */
  function ByteHex(b: Byte): (r: string)
    ensures |r| == 2 && IsLowerHex(r[0]) && IsLowerHex(r[1])
  {
    [HexDigits[b as int / 16], HexDigits[b as int % 16]]
  }

  /** `hex.EncodeToString`: two lowercase digits per byte, in order. */
  function HexEncode(d: seq<Byte>): (r: string)
    ensures |r| == 2 * |d|
    ensures forall i :: 0 <= i < |r| ==> IsLowerHex(r[i])
  {
    if d == [] then "" else ByteHex(d[0]) + HexEncode(d[1..])
  }

  /** The inverse of `HexEncode`; None for odd length or a non-hex character. */
  function HexDecode(s: string): Option<seq<Byte>>
    decreases |s|
  {
    if s == [] then Some([])
    else if |s| == 1 then None
    else
      var hi, lo := HexValue(s[0]), HexValue(s[1]);
      if hi < 0 || lo < 0 then None
      else match HexDecode(s[2..])
        case None => None
        case Some(rest) => Some([(hi * 16 + lo) as Byte] + rest)
  }

  /** Each digit decodes to its own position in `HexDigits`. */
  lemma HexDigitValue(v: int)
    requires 0 <= v < 16
    ensures HexValue(HexDigits[v]) == v
  {
    if v < 10 {
      assert HexDigits[v] == ('0' as int + v) as char;
    } else {
      assert HexDigits[v] == ('a' as int + v - 10) as char;
    }
  }

  /** A byte is rebuilt from its two nibbles. */
  lemma Nibbles(b: Byte)
    ensures 0 <= b as int / 16 < 16 && 0 <= b as int % 16 < 16
    ensures (b as int / 16 * 16 + b as int % 16) as Byte == b
  {
  }

  /** The two digits of a byte, in front of `rest`, decode back to it. */
  lemma ByteHexDecodes(b: Byte, rest: string)
    ensures HexDecode(ByteHex(b) + rest) ==
      match HexDecode(rest)
      case None => None
      case Some(r) => Some([b] + r)
  {
    Nibbles(b);
    HexDigitValue(b as int / 16);
    HexDigitValue(b as int % 16);
    assert (ByteHex(b) + rest)[2..] == rest;
  }

  /** Decoding an encoding gives back the bytes. */
  lemma {:induction false} HexRoundTrip(d: seq<Byte>)
    ensures HexDecode(HexEncode(d)) == Some(d)
  {
    if d != [] {
      HexRoundTrip(d[1..]);
      ByteHexDecodes(d[0], HexEncode(d[1..]));
      assert [d[0]] + d[1..] == d;
    }
  }

  /** Hex encoding is injective. */
  lemma HexInjective(d1: seq<Byte>, d2: seq<Byte>)
    ensures HexEncode(d1) == HexEncode(d2) <==> d1 == d2
  {
    HexRoundTrip(d1);
    HexRoundTrip(d2);
  }

  /** The bytes.Buffer after `WriteString`: what was there, then `s`. */
  function WriteString(buf: string, s: string): string {
    buf + s
  }

  /**
   * `ShortKey`: the MD5 of exactly the bytes of `ourl` (written into a fresh
   * buffer), as 32 lowercase hex characters.
   */
  function ShortKey(md5: Md5, ourl: string): (key: string)
    ensures |key| == 32
    ensures forall i :: 0 <= i < |key| ==> IsLowerHex(key[i])
    ensures HexDecode(key) == Some(md5(ourl))
  {
    var bb := WriteString("", ourl);
    assert bb == ourl;
    var hash := md5(bb);
    HexRoundTrip(hash);
    HexEncode(hash)
  }

  /** Two URLs get the same key exactly when their digests agree. */
  lemma ShortKeyCollision(md5: Md5, u1: string, u2: string)
    ensures ShortKey(md5, u1) == ShortKey(md5, u2) <==> md5(u1) == md5(u2)
  {
    assert WriteString("", u1) == u1 && WriteString("", u2) == u2;
    HexInjective(md5(u1), md5(u2));
  }
}
