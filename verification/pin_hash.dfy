/** `SessionManager.hashPin`: the PIN's SHA-256 digest rendered as lowercase
    hex. The digest itself (UTF-8 encoding followed by SHA-256) is an
    uninterpreted `Digest` function passed in by the caller; nothing is
    assumed about it, not even injectivity. What is modelled exactly is the
    rendering: `fold("") { str, it -> str + "%02x".format(it) }` over the
    digest's signed JVM bytes. */
module PinHash {
  import opened Maybe

  /** A JVM `Byte`. */
  newtype int8 = x: int | -128 <= x < 128

  /** The PIN-to-digest-bytes function (`toByteArray` then SHA-256). */
  type Digest = string -> seq<int8>

  predicate IsLowerHex(c: char) {
    '0' <= c <= '9' || 'a' <= c <= 'f'
  }

  /** `%x` on a negative `Byte` formats the value plus 2^8. */
  function Unsigned(b: int8): (u: nat)
    ensures u < 256
    ensures u as int == b as int || u as int == b as int + 256
  {
    if b < 0 then b as int + 256 else b as int
  }

  /** The lowercase hex digit for `n`. */
  function HexDigit(n: nat): (c: char)
    requires n < 16
    ensures IsLowerHex(c)
  {
    if n < 10 then ('0' as int + n) as char else ('a' as int + n - 10) as char
  }

  /** The value of a hex digit, reading lowercase digits only. */
  function HexValue(c: char): (r: Option<nat>)
    ensures IsLowerHex(c) <==> r.Some?
    ensures r.Some? ==> r.value < 16 && HexDigit(r.value) == c
  {
    if '0' <= c <= '9' then Some(c as int - '0' as int)
    else if 'a' <= c <= 'f' then Some(c as int - 'a' as int + 10)
    else None
  }

  lemma HexValueOfDigit(n: nat)
    requires n < 16
    ensures HexValue(HexDigit(n)) == Some(n)
  {
  }

  /** `"%02x".format(b)`: exactly two lowercase hex digits, high nibble first. */
  function FormatByte(b: int8): (s: string)
    ensures |s| == 2 && IsLowerHex(s[0]) && IsLowerHex(s[1])
  {
    var u := Unsigned(b);
    [HexDigit(u / 16), HexDigit(u % 16)]
  }

  /** The left fold that appends each byte's two digits. */
  function ToHex(bytes: seq<int8>): (s: string)
    ensures |s| == 2 * |bytes|
    ensures forall i :: 0 <= i < |s| ==> IsLowerHex(s[i])
  {
    if |bytes| == 0 then ""
    else ToHex(bytes[..|bytes| - 1]) + FormatByte(bytes[|bytes| - 1])
  }

  /** `hashPin(pin)`. */
  function HashPin(digest: Digest, pin: string): (h: string)
    ensures |h| == 2 * |digest(pin)|
    ensures forall i :: 0 <= i < |h| ==> IsLowerHex(h[i])
  {
    ToHex(digest(pin))
  }

  /** Reads two hex digits back as the signed byte they render. */
  function ParseByte(hi: char, lo: char): Option<int8> {
    match (HexValue(hi), HexValue(lo))
    case (Some(h), Some(l)) =>
      var u: int := h * 16 + l;
      Some((if u >= 128 then u - 256 else u) as int8)
    case _ => None
  }

  /** The inverse of `ToHex`, consuming two digits per byte from the end. */
  function ParseHex(s: string): Option<seq<int8>> {
    if |s| == 0 then Some([])
    else if |s| == 1 then None
    else
      match (ParseHex(s[..|s| - 2]), ParseByte(s[|s| - 2], s[|s| - 1]))
      case (Some(init), Some(last)) => Some(init + [last])
      case _ => None
  }

  lemma ParseFormatByte(b: int8)
    ensures ParseByte(FormatByte(b)[0], FormatByte(b)[1]) == Some(b)
  {
    var u := Unsigned(b);
    HexValueOfDigit(u / 16);
    HexValueOfDigit(u % 16);
  }

  /** One step of `ParseHex`: the last two digits of `t + f` are `f`. */
  lemma ParseHexSnoc(t: string, f: string, init: seq<int8>, last: int8)
    requires |f| == 2
    requires ParseHex(t) == Some(init)
    requires ParseByte(f[0], f[1]) == Some(last)
    ensures ParseHex(t + f) == Some(init + [last])
  {
    var s := t + f;
    assert s[..|s| - 2] == t;
    assert s[|s| - 2] == f[0] && s[|s| - 1] == f[1];
  }

  /** Parsing undoes the rendering, so the rendering loses nothing. */
  lemma {:induction false} ParseHexToHex(bytes: seq<int8>)
    ensures ParseHex(ToHex(bytes)) == Some(bytes)
  {
    if |bytes| > 0 {
      var init, last := bytes[..|bytes| - 1], bytes[|bytes| - 1];
      ParseHexToHex(init);
      ParseFormatByte(last);
      ParseHexSnoc(ToHex(init), FormatByte(last), init, last);
      assert bytes == init + [last];
    }
  }

  /** Two digests render to the same string only when they are equal. */
  lemma ToHexInjective(a: seq<int8>, b: seq<int8>)
    requires ToHex(a) == ToHex(b)
    ensures a == b
  {
    ParseHexToHex(a);
    ParseHexToHex(b);
  }

  /** Two PINs hash to the same string exactly when their digests agree. */
  lemma HashPinEqualIff(digest: Digest, p: string, q: string)
    ensures HashPin(digest, p) == HashPin(digest, q) <==> digest(p) == digest(q)
  {
    if HashPin(digest, p) == HashPin(digest, q) {
      ToHexInjective(digest(p), digest(q));
    }
  }
}
