/**
  `CoreUtils.hashMD5` and `CoreUtils.hash`: digest a string's UTF-8 bytes
  and encode the digest as Base64 or lowercase hexadecimal.

  The JDK services the source calls (the `MessageDigest` registry, the
  UTF-8 charset and the Base64 encoder) are passed in as the functions of
  a `Providers` value; nothing is assumed about them.
 */
module Hashing {
  import opened JavaLang
  import HexEncoding

  /** The constants of `Coding` the switch in `hash` names; `Unknown` stands for any other constant. */
  datatype Coding = Base64 | Hex | Unknown(name: string)

  /** The platform services `hash` depends on. */
  datatype Providers = Providers(
    // `String.getBytes(StandardCharsets.UTF_8)`
    utf8: string -> seq<Byte>,
    // `MessageDigest.getInstance(algorithm).digest(bytes)`; `None` when the algorithm is not available
    digest: (string, seq<Byte>) -> Option<seq<Byte>>,
    // `Base64.getEncoder().encodeToString(bytes)`
    base64: seq<Byte> -> string)

  /** The ways `hash` ends abruptly. */
  datatype HashError =
    | DigestUnavailable(algorithm: string)  // `getInstance` failed, so `md` is null and `md.digest` throws NullPointerException
    | UnsupportedCoding(name: string)       // the `default` branch: IllegalArgumentException

  /** The fixed start of the IllegalArgumentException's message. */
  const UnsupportedPrefix := "Unsuported coding:"

  /**
    The detail message of each failure's exception. The NullPointerException
    of a missing algorithm has no message the source chooses (it is null, or
    whatever text the JVM generates), so it is `None`; the unsupported coding
    names the constant after a fixed text.
   */
  function Message(e: HashError): (m: Option<string>)
    ensures m.None? <==> e.DigestUnavailable?
    ensures e.UnsupportedCoding? ==> UnsupportedPrefix <= m.value && m.value[|UnsupportedPrefix|..] == e.name
  {
    match e
    case DigestUnavailable(_) => None
    case UnsupportedCoding(name) => Some(UnsupportedPrefix + name)
  }

  /** The digest `hash` computes before it looks at the coding. */
  function DigestOf(target: string, algorithm: string, p: Providers): Option<seq<Byte>> {
    p.digest(algorithm, p.utf8(target))
  }

  /**
    `hash(target, algorithm, coding)`: a missing algorithm fails before the
    coding is examined; otherwise HEX gives the hexadecimal text and
    BASE_64 the Base64 text of the digest, and any other coding fails.
   */
  function Hash(target: string, algorithm: string, coding: Coding, p: Providers): (r: Result<string, HashError>)
    ensures DigestOf(target, algorithm, p).None? <==> r == Err(DigestUnavailable(algorithm))
    ensures DigestOf(target, algorithm, p).Some? ==>
      var d := DigestOf(target, algorithm, p).value;
      match coding
      case Base64 => r == Ok(p.base64(d))
      case Hex => r == Ok(HexEncoding.Hex(d))
      case Unknown(name) => r == Err(UnsupportedCoding(name))
    ensures r.Err? && r.error.UnsupportedCoding? ==> coding.Unknown?
  {
    match DigestOf(target, algorithm, p)
    case None => Err(DigestUnavailable(algorithm))
    case Some(byteHash) =>
      match coding
      case Base64 => Ok(p.base64(byteHash))
      case Hex => Ok(HexEncoding.Hex(byteHash))
      case Unknown(name) => Err(UnsupportedCoding(name))
  }

  /**
    `hashMD5(value, coding)`: a null value or a null coding gives back
    `value` itself; otherwise the MD5 hash of the value in that coding.
   */
  function HashMD5(value: JString, coding: Option<Coding>, p: Providers): (r: Result<JString, HashError>)
    ensures value.None? || coding.None? ==> r == Ok(value)
    ensures value.Some? && coding.Some? ==>
      match Hash(value.value, "MD5", coding.value, p)
      case Ok(h) => r == Ok(Some(h))
      case Err(e) => r == Err(e)
    ensures r.Ok? && r.value.None? ==> value.None?
  {
    if coding.None? || value.None? then Ok(value)
    else
      match Hash(value.value, "MD5", coding.value, p)
      case Ok(h) => Ok(Some(h))
      case Err(e) => Err(e)
  }

  /**
    A HEX hash is the digest written out: twice as long as the digest,
    only lowercase digits, and it decodes back to the digest.
   */
  lemma HexHashDecodes(target: string, algorithm: string, p: Providers)
    requires DigestOf(target, algorithm, p).Some?
    ensures Hash(target, algorithm, Hex, p).Ok?
    ensures var h := Hash(target, algorithm, Hex, p).value;
      var d := DigestOf(target, algorithm, p).value;
      && |h| == 2 * |d|
      && (forall k :: 0 <= k < |h| ==> HexEncoding.IsLowerHexDigit(h[k]))
      && HexEncoding.Unhex(h) == Some(d)
  {
    var d := DigestOf(target, algorithm, p).value;
    HexEncoding.HexLength(d);
    HexEncoding.HexAlphabet(d);
    HexEncoding.UnhexHex(d);
  }

  /** Two values whose HEX MD5 hashes agree have the same MD5 digest: the encoding step loses nothing. */
  lemma HexMD5DeterminesDigest(v: string, w: string, p: Providers)
    requires HashMD5(Some(v), Some(Hex), p).Ok? && HashMD5(Some(w), Some(Hex), p).Ok?
    requires HashMD5(Some(v), Some(Hex), p) == HashMD5(Some(w), Some(Hex), p)
    ensures DigestOf(v, "MD5", p) == DigestOf(w, "MD5", p)
  {
    var dv, dw := DigestOf(v, "MD5", p).value, DigestOf(w, "MD5", p).value;
    HexEncoding.HexInjective(dv, dw);
  }

  /** For an MD5 provider with 16-byte digests, a HEX `hashMD5` of a non-null value is 32 lowercase digits. */
  lemma HexMD5Length(value: string, p: Providers)
    requires DigestOf(value, "MD5", p).Some? && |DigestOf(value, "MD5", p).value| == 16
    ensures HashMD5(Some(value), Some(Hex), p).Ok?
    ensures var h := HashMD5(Some(value), Some(Hex), p).value;
      h.Some? && |h.value| == 32 && forall k :: 0 <= k < 32 ==> HexEncoding.IsLowerHexDigit(h.value[k])
  {
    HexHashDecodes(value, "MD5", p);
  }
}
