/** urllib.parse.unquote on the CFI taken from a link, restricted to ASCII:
    each %XX escape (two hex digits, either case, section 2.1 of RFC 3986)
    becomes the character with that code, and a '%' that does not start such
    an escape stays as it is. An escape of a byte 0x80 or above, which
    unquote would decode as UTF-8, is reported as a decoding failure. */
module Percent {
  import opened Text

  predicate IsHexDigit(c: char) {
    ('0' <= c <= '9') || ('a' <= c <= 'f') || ('A' <= c <= 'F')
  }

  function HexValue(c: char): (v: nat)
    requires IsHexDigit(c)
    ensures v < 16
  {
    if '0' <= c <= '9' then (c as int) - ('0' as int)
    else if 'a' <= c <= 'f' then (c as int) - ('a' as int) + 10
    else (c as int) - ('A' as int) + 10
  }

  /** Upper-case hex digit of a value below 16. */
  function HexUpper(d: nat): (c: char)
    requires d < 16
    ensures IsHexDigit(c) && HexValue(c) == d
  {
    if d < 10 then (('0' as int) + d) as char else (('A' as int) + d - 10) as char
  }

  /** Starts with an escape %XX. */
  predicate EscapeAt(s: string, i: nat) {
    i + 2 < |s| && s[i] == '%' && IsHexDigit(s[i + 1]) && IsHexDigit(s[i + 2])
  }

  function EscapeValue(s: string, i: nat): (v: nat)
    requires EscapeAt(s, i)
    ensures v < 256
  {
    16 * HexValue(s[i + 1]) + HexValue(s[i + 2])
  }

  /** unquote(s), or None when an escape stands for a non-ASCII byte. */
  function PercentDecode(s: string): (r: Option<string>)
    ensures r.Some? ==> |r.value| <= |s|
    decreases |s|
  {
    if s == [] then Some([])
    else if EscapeAt(s, 0) then
      if EscapeValue(s, 0) < 128 then
        match PercentDecode(s[3..])
        case Some(t) => Some([EscapeValue(s, 0) as char] + t)
        case None => None
      else None
    else
      match PercentDecode(s[1..])
      case Some(t) => Some([s[0]] + t)
      case None => None
  }

  predicate IsAscii(c: char) {
    (c as int) < 128
  }

  /** The characters urllib.parse.quote leaves alone by default: the
      unreserved set of section 2.3 of RFC 3986 and '/'. */
  predicate IsSafe(c: char) {
    ('A' <= c <= 'Z') || ('a' <= c <= 'z') || ('0' <= c <= '9')
    || c == '-' || c == '.' || c == '_' || c == '~' || c == '/'
  }

  /** urllib.parse.quote(s) on ASCII text, the encoding the CFI arrives in. */
  function PercentEncode(s: string): (r: string)
    requires forall i :: 0 <= i < |s| ==> IsAscii(s[i])
    ensures '%' in s ==> '%' in r
  {
    if s == [] then []
    else if IsSafe(s[0]) then [s[0]] + PercentEncode(s[1..])
    else
      var v := s[0] as int;
      assert IsAscii(s[0]);
      ['%', HexUpper(v / 16), HexUpper(v % 16)] + PercentEncode(s[1..])
  }

  /** Decoding undoes encoding. */
  lemma {:induction false} DecodeEncode(s: string)
    requires forall i :: 0 <= i < |s| ==> IsAscii(s[i])
    ensures PercentDecode(PercentEncode(s)) == Some(s)
    decreases |s|
  {
    if s != [] {
      DecodeEncode(s[1..]);
      var e := PercentEncode(s);
      if IsSafe(s[0]) {
        assert e[1..] == PercentEncode(s[1..]);
        assert !EscapeAt(e, 0);
        assert [s[0]] + s[1..] == s;
      } else {
        var v := s[0] as int;
        assert EscapeAt(e, 0);
        assert EscapeValue(e, 0) == v;
        assert e[3..] == PercentEncode(s[1..]);
        assert [v as char] + s[1..] == s;
      }
    }
  }

  /** A string without '%' decodes to itself. */
  lemma {:induction false} DecodeWithoutPercent(s: string)
    requires '%' !in s
    ensures PercentDecode(s) == Some(s)
    decreases |s|
  {
    if s != [] {
      assert s[0] != '%';
      assert '%' !in s[1..];
      DecodeWithoutPercent(s[1..]);
      assert [s[0]] + s[1..] == s;
    }
  }

  /** An escape in a suffix is an escape, of the same value, in the whole string. */
  lemma EscapeShift(s: string, d: nat, i: nat)
    requires d <= |s|
    ensures EscapeAt(s[d..], i) == EscapeAt(s, i + d)
    ensures EscapeAt(s, i + d) ==> EscapeValue(s[d..], i) == EscapeValue(s, i + d)
  {
  }

  /** Decoding fails exactly when some escape stands for a byte 0x80 or
      above ('%' is not a hex digit, so escapes never overlap and the
      left-to-right decoding meets every one of them). */
  lemma {:induction false} DecodeFailsIffHighEscape(s: string)
    ensures PercentDecode(s).None? <==> exists i: nat :: EscapeAt(s, i) && EscapeValue(s, i) >= 128
    decreases |s|
  {
    if s != [] && !(EscapeAt(s, 0) && EscapeValue(s, 0) >= 128) {
      var d := if EscapeAt(s, 0) then 3 else 1;
      DecodeFailsIffHighEscape(s[d..]);
      assert PercentDecode(s).None? <==> PercentDecode(s[d..]).None?;
      if exists i: nat :: EscapeAt(s, i) && EscapeValue(s, i) >= 128 {
        var i: nat :| EscapeAt(s, i) && EscapeValue(s, i) >= 128;
        assert i >= d;
        EscapeShift(s, d, i - d);
      }
      if PercentDecode(s[d..]).None? {
        var i: nat :| EscapeAt(s[d..], i) && EscapeValue(s[d..], i) >= 128;
        EscapeShift(s, d, i);
      }
    }
  }
}
