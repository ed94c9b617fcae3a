/** The colour helpers of calibre_annotations_html.py (sanitize_color and
    color_contrasting) and the stylesheet that format_annotations_to_html
    prepends to its output. */
module Colors {
  import opened Text
  import Percent

  // ---------------------------------------------------------------------
  // sanitize_color: drop every character outside [a-zA-Z0-9-]

  predicate IsColorChar(c: char) {
    ('a' <= c <= 'z') || ('A' <= c <= 'Z') || ('0' <= c <= '9') || c == '-'
  }

  /** The colour with every character outside [a-zA-Z0-9-] removed. */
  function SanitizeColor(color: string): (r: string)
    ensures |r| <= |color|
    ensures forall i :: 0 <= i < |r| ==> IsColorChar(r[i])
  {
    if color == [] then []
    else if IsColorChar(color[0]) then [color[0]] + SanitizeColor(color[1..])
    else SanitizeColor(color[1..])
  }

  /** Sanitizing distributes over concatenation: it keeps the allowed
      characters in their original order. */
  lemma {:induction false} SanitizeAppend(a: string, b: string)
    ensures SanitizeColor(a + b) == SanitizeColor(a) + SanitizeColor(b)
    decreases |a|
  {
    if a != [] {
      assert (a + b)[0] == a[0] && (a + b)[1..] == a[1..] + b;
      SanitizeAppend(a[1..], b);
    } else {
      assert a + b == b;
    }
  }

  /** A colour is left unchanged exactly when it holds only allowed characters. */
  lemma {:induction false} SanitizeFixedIff(color: string)
    ensures SanitizeColor(color) == color <==> forall i :: 0 <= i < |color| ==> IsColorChar(color[i])
    decreases |color|
  {
    if color != [] {
      SanitizeFixedIff(color[1..]);
      if IsColorChar(color[0]) {
        assert [color[0]] + color[1..] == color;
        if forall i :: 0 <= i < |color| ==> IsColorChar(color[i]) {
          assert forall i :: 0 <= i < |color[1..]| ==> IsColorChar(color[1..][i]) by {
            forall i | 0 <= i < |color[1..]| ensures IsColorChar(color[1..][i]) {
              assert color[1..][i] == color[i + 1];
            }
          }
        }
        if SanitizeColor(color) == color {
          forall i | 0 <= i < |color| ensures IsColorChar(color[i]) {
            if i > 0 { assert color[i] == color[1..][i - 1]; }
          }
        }
      } else {
        assert |SanitizeColor(color)| < |color|;
      }
    }
  }

  /** A single character is kept when allowed and dropped otherwise; with
      SanitizeAppend this determines the result for every colour. */
  lemma SanitizeChar(c: char)
    ensures SanitizeColor([c]) == (if IsColorChar(c) then [c] else [])
  {
    assert [c][1..] == [];
  }

  /** Sanitizing twice is sanitizing once. */
  lemma SanitizeIdempotent(color: string)
    ensures SanitizeColor(SanitizeColor(color)) == SanitizeColor(color)
  {
    SanitizeFixedIff(SanitizeColor(color));
  }

  // ---------------------------------------------------------------------
  // color_contrasting

  /** The colour with all its leading '#' characters removed. */
  function StripHashes(s: string): (r: string)
    ensures r == [] || r[0] != '#'
    ensures |r| <= |s| && r == s[|s| - |r|..]
    ensures forall i :: 0 <= i < |s| - |r| ==> s[i] == '#'
  {
    if s != [] && s[0] == '#' then StripHashes(s[1..]) else s
  }

  /** s[i:j] with Python's clamping to the string's length. */
  function Slice(s: string, i: nat, j: nat): (r: string)
    requires i <= j
    ensures |r| <= j - i
  {
    if i >= |s| then "" else if j >= |s| then s[i..] else s[i..j]
  }

  /** The whitespace int() skips around a number: ASCII space, tab,
      newline, vertical tab, form feed and carriage return, and non-ASCII
      whitespace. The separators U+001C-U+001F, which str.isspace()
      accepts, are never skipped. */
  predicate IsIntSpace(c: char) {
    ('\t' <= c <= '\r') || c == ' ' || ((c as int) >= 128 && IsSpace(c))
  }

  function DropLeadingIntSpace(t: string): (u: string)
    ensures |u| <= |t| && u == t[|t| - |u|..]
    ensures forall i :: 0 <= i < |t| - |u| ==> IsIntSpace(t[i])
    ensures u == [] || !IsIntSpace(u[0])
  {
    if t != [] && IsIntSpace(t[0]) then DropLeadingIntSpace(t[1..]) else t
  }

  function DropTrailingIntSpace(t: string): (u: string)
    ensures |u| <= |t| && u == t[..|u|]
    ensures forall i :: |u| <= i < |t| ==> IsIntSpace(t[i])
    ensures u == [] || !IsIntSpace(u[|u| - 1])
  {
    if t != [] && IsIntSpace(t[|t| - 1]) then DropTrailingIntSpace(t[..|t| - 1]) else t
  }

  /** The slice without the whitespace int() skips on either side. */
  function IntStrip(t: string): string {
    DropTrailingIntSpace(DropLeadingIntSpace(t))
  }

  /** int(t, 16) for the at most two characters of one channel slice:
      surrounding whitespace is ignored and a sign is allowed; anything else
      raises ValueError (None). */
  function ParseHexChannel(t: string): (r: Option<int>)
    requires |t| <= 2
    ensures r.Some? ==> -15 <= r.value <= 255
  {
    ParseHexNumber(IntStrip(t))
  }

  /** int(u, 16) once the whitespace is gone: one or two hex digits, or a
      sign and one digit. */
  function ParseHexNumber(u: string): (r: Option<int>)
    ensures r.Some? ==> -15 <= r.value <= 255
  {
    if |u| == 1 && Percent.IsHexDigit(u[0]) then Some(Percent.HexValue(u[0]))
    else if |u| == 2 && Percent.IsHexDigit(u[0]) && Percent.IsHexDigit(u[1]) then
      Some(16 * Percent.HexValue(u[0]) + Percent.HexValue(u[1]))
    else if |u| == 2 && u[0] == '+' && Percent.IsHexDigit(u[1]) then Some(Percent.HexValue(u[1]))
    else if |u| == 2 && u[0] == '-' && Percent.IsHexDigit(u[1]) then Some(-(Percent.HexValue(u[1]) as int))
    else None
  }

  /** A hex digit that is not an upper-case letter. */
  predicate IsLowerHexDigit(c: char) {
    Percent.IsHexDigit(c) && !('A' <= c <= 'F')
  }

  predicate AllLowerHex(s: string) {
    forall i :: 0 <= i < |s| ==> IsLowerHexDigit(s[i])
  }

  lemma AllLowerHexAppend(x: string, y: string)
    requires AllLowerHex(x) && AllLowerHex(y)
    ensures AllLowerHex(x + y)
  {
    forall i | 0 <= i < |x + y|
      ensures IsLowerHexDigit((x + y)[i])
    {
      if i >= |x| {
        assert (x + y)[i] == y[i - |x|];
      }
    }
  }

  function LowerHexDigit(d: nat): (c: char)
    requires d < 16
    ensures Percent.IsHexDigit(c) && Percent.HexValue(c) == d
    ensures !('A' <= c <= 'F')
  {
    if d < 10 then (('0' as int) + d) as char else (('a' as int) + d - 10) as char
  }

  /** The value of a string of hex digits, most significant first. */
  function LowerHexValue(s: string): nat
    requires AllLowerHex(s)
  {
    if s == [] then 0
    else
      assert IsLowerHexDigit(s[|s| - 1]);
      16 * LowerHexValue(s[..|s| - 1]) + Percent.HexValue(s[|s| - 1])
  }

  /** Lower-case hex digits of v, as many as needed. */
  function HexLower(v: nat): (r: string)
    ensures |r| >= 1 && AllLowerHex(r)
    ensures r[0] == '0' ==> v == 0
  {
    if v < 16 then [LowerHexDigit(v)]
    else
      AllLowerHexAppend(HexLower(v / 16), [LowerHexDigit(v % 16)]);
      HexLower(v / 16) + [LowerHexDigit(v % 16)]
  }

  /** Reading back the digits HexLower prints gives v. */
  lemma {:induction false} HexLowerValue(v: nat)
    ensures LowerHexValue(HexLower(v)) == v
    ensures v >= 16 ==> HexLower(v)[0] != '0'
  {
    if v >= 16 {
      var r := HexLower(v);
      assert r[..|r| - 1] == HexLower(v / 16);
      HexLowerValue(v / 16);
    }
  }

  /** "{:02x}".format(v) for a non-negative v: the digits of v, padded with
      one '0' to two digits when there is only one. */
  function Format02x(v: nat): (r: string)
    ensures |r| >= 2 && AllLowerHex(r)
    ensures LowerHexValue(r) == v
    ensures |r| == 2 || r[0] != '0'
    ensures v < 256 ==> r == [LowerHexDigit(v / 16), LowerHexDigit(v % 16)]
  {
    var h := HexLower(v);
    assert 16 <= v < 256 ==> HexLower(v / 16) == [LowerHexDigit(v / 16)];
    assert LowerHexDigit(0) == '0';
    AllLowerHexAppend("0", h);
    HexLowerValue(v);
    if |h| < 2 then
      PadValue(h);
      "0" + h
    else h
  }

  /** A leading '0' does not change the value of one digit. */
  lemma PadValue(h: string)
    requires |h| == 1 && AllLowerHex(h)
    ensures AllLowerHex("0" + h) && LowerHexValue("0" + h) == LowerHexValue(h)
  {
    var p := "0" + h;
    assert IsLowerHexDigit(h[0]) && p[1] == h[0];
    assert p[..1] == "0" && h[..0] == "";
    assert LowerHexValue("0") == 0 by { assert "0"[..0] == ""; }
  }

  /** One channel of color_contrasting: 255 minus its value, printed with
      "{:02x}"; None when int(…, 16) raises. */
  function ContrastChannel(t: string): (r: Option<string>)
    requires |t| <= 2
    ensures r.Some? <==> ParseHexChannel(t).Some?
    ensures r.Some? ==> |r.value| >= 2 && AllLowerHex(r.value)
    ensures r.Some? ==> LowerHexValue(r.value) == 255 - ParseHexChannel(t).value
  {
    match ParseHexChannel(t)
    case Some(v) => Some(Format02x(255 - v))
    case None => None
  }

  /** int(…, 16) raises on one of the three channel slices of h. */
  predicate ChannelFails(h: string) {
    ParseHexChannel(Slice(h, 0, 2)).None? ||
    ParseHexChannel(Slice(h, 2, 4)).None? ||
    ParseHexChannel(Slice(h, 4, 6)).None?
  }

  /** color_contrasting(hex_color); None stands for the ValueError int()
      raises on a channel that is not a hex number. */
  function ColorContrasting(hexColor: string): (r: Option<string>)
    ensures r.None? <==> ChannelFails(StripHashes(hexColor))
    ensures r.Some? ==> |r.value| >= 7 && r.value[0] == '#' && AllLowerHex(r.value[1..])
  {
    ContrastHex(StripHashes(hexColor))
  }

  /** color_contrasting after the leading '#'s are removed. */
  function ContrastHex(h: string): (r: Option<string>)
    ensures r.None? <==> ChannelFails(h)
    ensures r.Some? ==> |r.value| >= 7 && r.value[0] == '#' && AllLowerHex(r.value[1..])
  {
    var red := ContrastChannel(Slice(h, 0, 2));
    var green := ContrastChannel(Slice(h, 2, 4));
    var blue := ContrastChannel(Slice(h, 4, 6));
    if red.None? || green.None? || blue.None? then None
    else
      HashJoin(red.value, green.value, blue.value);
      Some("#" + red.value + green.value + blue.value)
  }

  /** '#' and three channels of at least two lower-case hex digits each. */
  lemma HashJoin(x: string, y: string, z: string)
    requires |x| >= 2 && |y| >= 2 && |z| >= 2
    requires AllLowerHex(x) && AllLowerHex(y) && AllLowerHex(z)
    ensures var c := "#" + x + y + z; |c| >= 7 && c[0] == '#' && AllLowerHex(c[1..])
  {
    var c := "#" + x + y + z;
    assert c[1..] == x + y + z;
    AllLowerHexAppend(x, y);
    AllLowerHexAppend(x + y, z);
  }

  function ToLowerHex(c: char): char {
    if 'A' <= c <= 'F' then ((c as int) + 32) as char else c
  }

  predicate IsHex6(h: string) {
    |h| >= 6 && forall i :: 0 <= i < 6 ==> Percent.IsHexDigit(h[i])
  }

  lemma LowerOfValue(c: char)
    requires Percent.IsHexDigit(c)
    ensures LowerHexDigit(Percent.HexValue(c)) == ToLowerHex(c)
  {
  }

  /** The hex digit of value 15 - d, in lower case. */
  function ComplementDigit(c: char): (r: char)
    requires Percent.IsHexDigit(c)
    ensures Percent.IsHexDigit(r) && Percent.HexValue(r) == 15 - Percent.HexValue(c)
    ensures !('A' <= r <= 'F')
  {
    LowerHexDigit(15 - Percent.HexValue(c))
  }

  /** The digit-wise complement of the first six hex digits. */
  function Complement6(h: string): (r: string)
    requires IsHex6(h)
    ensures IsHex6(r) && |r| == 6 && r[0] != '#'
    ensures forall i :: 0 <= i < 6 ==> !('A' <= r[i] <= 'F')
  {
    [ComplementDigit(h[0]), ComplementDigit(h[1]), ComplementDigit(h[2]),
     ComplementDigit(h[3]), ComplementDigit(h[4]), ComplementDigit(h[5])]
  }

  /** A channel of two hex digits contrasts to its two complemented digits. */
  lemma Channel(t: string)
    requires |t| == 2 && Percent.IsHexDigit(t[0]) && Percent.IsHexDigit(t[1])
    ensures ContrastChannel(t) == Some([ComplementDigit(t[0]), ComplementDigit(t[1])])
  {
    ParseHexPair(t);
    ContrastOfParsed(t, 16 * Percent.HexValue(t[0]) + Percent.HexValue(t[1]));
    ComplementPair(t[0], t[1]);
  }

  /** 255 minus the value of two hex digits prints as their complements. */
  lemma ComplementPair(x: char, y: char)
    requires Percent.IsHexDigit(x) && Percent.IsHexDigit(y)
    ensures Format02x(255 - (16 * Percent.HexValue(x) + Percent.HexValue(y))) == [ComplementDigit(x), ComplementDigit(y)]
  {
    FormatComplement(Percent.HexValue(x), Percent.HexValue(y));
  }

  lemma ContrastOfParsed(t: string, v: int)
    requires |t| <= 2 && ParseHexChannel(t) == Some(v)
    ensures ContrastChannel(t) == Some(Format02x(255 - v))
  {
  }

  /** Two hex digits parse to 16 times the first plus the second. */
  lemma ParseHexPair(t: string)
    requires |t| == 2 && Percent.IsHexDigit(t[0]) && Percent.IsHexDigit(t[1])
    ensures ParseHexChannel(t) == Some(16 * Percent.HexValue(t[0]) + Percent.HexValue(t[1]))
  {
    assert !IsIntSpace(t[0]) && !IsIntSpace(t[1]);
    assert DropLeadingIntSpace(t) == t;
    assert DropTrailingIntSpace(t) == t;
  }

  /** A file separator next to a hex digit is not whitespace to int(): the
      channel does not parse. */
  lemma SeparatorIsNotSpace()
    ensures ParseHexChannel("\U{1c}A") == None
  {
    var sep := "\U{1c}A";
    assert !IsIntSpace(sep[0]) && !IsIntSpace(sep[1]);
    assert DropLeadingIntSpace(sep) == sep;
    assert DropTrailingIntSpace(sep) == sep;
    assert IntStrip(sep) == sep;
    assert !Percent.IsHexDigit(sep[0]) && sep[0] != '+' && sep[0] != '-';
  }

  /** A space next to a hex digit is skipped. */
  lemma SpaceIsSkipped()
    ensures ParseHexChannel(" A") == Some(10)
  {
    SpaceIsStripped();
    assert Percent.IsHexDigit('A') && Percent.HexValue('A') == 10;
  }

  lemma SpaceIsStripped()
    ensures IntStrip(" A") == "A"
  {
    var sp := " A";
    assert IsIntSpace(sp[0]) && !IsIntSpace(sp[1]);
    assert sp[1..] == "A";
    assert DropLeadingIntSpace(sp) == "A";
    assert DropTrailingIntSpace("A") == "A";
  }

  /** A three-digit colour raises: its third slice is empty. */
  lemma ShortColorRaises()
    ensures ColorContrasting("#fff") == None
  {
    var c := "#fff";
    assert c[0] == '#' && c[1..] == "fff";
    assert StripHashes("fff") == "fff";
    assert StripHashes(c) == "fff";
    EmptyChannelRaises();
    assert Slice("fff", 4, 6) == "";
    assert ChannelFails("fff");
  }

  /** int("", 16) raises. */
  lemma EmptyChannelRaises()
    ensures ParseHexChannel("") == None
  {
    var e: string := [];
    assert DropLeadingIntSpace(e) == e;
    assert DropTrailingIntSpace(e) == e;
    assert ParseHexNumber(e) == None;
  }

  /** A sign is accepted by int(): the slice "-f" is -15, so its channel is
      255 + 15 = 270, which "{:02x}" prints with three digits. */
  lemma SignedChannel()
    ensures ContrastChannel("-f") == Some("10e")
  {
    var t := "-f";
    assert !IsIntSpace(t[0]) && !IsIntSpace(t[1]);
    assert DropLeadingIntSpace(t) == t;
    assert DropTrailingIntSpace(t) == t;
    assert ParseHexNumber(t) == Some(-15);
    assert HexLower(1) == "1";
    assert HexLower(16) == "10";
    assert HexLower(270) == "10e";
  }

  /** So color_contrasting can return more than six digits: a colour whose
      first channel is "-f" contrasts to '#' and seven hex digits. */
  lemma SignedContrast()
    ensures ColorContrasting("-f0000") == Some("#10effff")
  {
    var h := "-f0000";
    assert StripHashes(h) == h;
    assert Slice(h, 0, 2) == "-f";
    assert Slice(h, 2, 4) == "00" && Slice(h, 4, 6) == "00";
    SignedChannel();
    Channel("00");
    assert ComplementDigit('0') == 'f';
    ContrastHexOf(h, "10e", "ff", "ff");
    SignedJoin();
  }

  lemma SignedJoin()
    ensures "#" + "10e" + "ff" + "ff" == "#10effff"
  {
    var c := "#" + "10e" + "ff" + "ff";
    assert |c| == 8;
    assert forall i :: 0 <= i < 8 ==> c[i] == "#10effff"[i];
  }

  lemma FormatComplement(a: nat, b: nat)
    requires a < 16 && b < 16
    ensures Format02x(255 - (16 * a + b)) == [LowerHexDigit(15 - a), LowerHexDigit(15 - b)]
  {
    var v := 255 - (16 * a + b);
    assert v == 16 * (15 - a) + (15 - b);
    assert v / 16 == 15 - a && v % 16 == 15 - b;
  }

  /** color_contrasting joins the three channels after a '#'. */
  lemma ContrastHexOf(h: string, a: string, b: string, c: string)
    requires ContrastChannel(Slice(h, 0, 2)) == Some(a)
    requires ContrastChannel(Slice(h, 2, 4)) == Some(b)
    requires ContrastChannel(Slice(h, 4, 6)) == Some(c)
    ensures ContrastHex(h) == Some("#" + a + b + c)
  {
  }

  /** On six hex digits, the channels are complemented digit by digit and
      printed in lower case. */
  lemma ContrastHex6(h: string)
    requires IsHex6(h)
    ensures ContrastHex(h) == Some("#" + Complement6(h))
  {
    var a := [ComplementDigit(h[0]), ComplementDigit(h[1])];
    var b := [ComplementDigit(h[2]), ComplementDigit(h[3])];
    var c := [ComplementDigit(h[4]), ComplementDigit(h[5])];
    assert ContrastHex(h) == Some("#" + a + b + c) by {
      var t0, t1, t2 := h[0..2], h[2..4], h[4..6];
      assert Slice(h, 0, 2) == t0 && Slice(h, 2, 4) == t1 && Slice(h, 4, 6) == t2;
      Channel(t0);
      Channel(t1);
      Channel(t2);
      ContrastHexOf(h, a, b, c);
    }
    Complement6Parts(h);
  }

  lemma Complement6Parts(h: string)
    requires IsHex6(h)
    ensures "#" + [ComplementDigit(h[0]), ComplementDigit(h[1])] + [ComplementDigit(h[2]), ComplementDigit(h[3])]
      + [ComplementDigit(h[4]), ComplementDigit(h[5])] == "#" + Complement6(h)
  {
  }

  /** The first six characters with A-F lowered. */
  function LowerHex6(h: string): (r: string)
    requires |h| >= 6
    ensures |r| == 6 && forall i :: 0 <= i < 6 ==> r[i] == ToLowerHex(h[i])
  {
    [ToLowerHex(h[0]), ToLowerHex(h[1]), ToLowerHex(h[2]),
     ToLowerHex(h[3]), ToLowerHex(h[4]), ToLowerHex(h[5])]
  }

  /** Complementing a digit twice gives the digit in lower case. */
  lemma DoubleComplement(c: char)
    requires Percent.IsHexDigit(c)
    ensures ComplementDigit(ComplementDigit(c)) == ToLowerHex(c)
  {
    LowerOfValue(c);
  }

  lemma Complement6Twice(h: string)
    requires IsHex6(h)
    ensures Complement6(Complement6(h)) == LowerHex6(h)
  {
    DoubleComplement(h[0]);
    DoubleComplement(h[1]);
    DoubleComplement(h[2]);
    DoubleComplement(h[3]);
    DoubleComplement(h[4]);
    DoubleComplement(h[5]);
  }

  /** For a valid colour the result is '#' and six lower-case hex digits. */
  lemma ContrastingShape(hexColor: string)
    requires IsHex6(StripHashes(hexColor))
    ensures ColorContrasting(hexColor).Some?
    ensures var c := ColorContrasting(hexColor).value;
      |c| == 7 && c[0] == '#' && IsHex6(c[1..]) && forall i :: 1 <= i < 7 ==> !('A' <= c[i] <= 'F')
  {
    var d := Complement6(StripHashes(hexColor));
    ContrastingOnce(hexColor);
    assert ("#" + d)[1..] == d;
  }

  /** Applying color_contrasting twice gives back the colour in lower case. */
  lemma ContrastingTwice(hexColor: string)
    requires IsHex6(StripHashes(hexColor))
    ensures ColorContrasting(hexColor).Some?
    ensures ColorContrasting(ColorContrasting(hexColor).value) == Some("#" + LowerHex6(StripHashes(hexColor)))
  {
    var h := StripHashes(hexColor);
    var d := Complement6(h);
    ContrastingOnce(hexColor);
    ContrastOfHash(d);
    Complement6Twice(h);
  }

  lemma ContrastingOnce(hexColor: string)
    requires IsHex6(StripHashes(hexColor))
    ensures ColorContrasting(hexColor) == Some("#" + Complement6(StripHashes(hexColor)))
  {
    ContrastHex6(StripHashes(hexColor));
  }

  lemma ContrastOfHash(d: string)
    requires IsHex6(d) && d[0] != '#'
    ensures ColorContrasting("#" + d) == Some("#" + Complement6(d))
  {
    StripOneHash(d);
    ContrastHex6(d);
  }

  lemma StripOneHash(d: string)
    requires d != [] && d[0] != '#'
    ensures StripHashes("#" + d) == d
  {
    assert ("#" + d)[1..] == d;
  }

  // ---------------------------------------------------------------------
  // The stylesheet (lines 237-271)

  const Backgrounds: map<string, string> := map[
    "yellow" := "#fff9c4", "blue" := "#e3f2fd", "green" := "#e8f5e9",
    "red" := "#ffebee", "default" := "#f9f9f9"]

  const LinkColors: map<string, string> := map[
    "yellow" := "#795548", "blue" := "#0d47a1", "green" := "#1b5e20",
    "red" := "#b71c1c", "default" := "#333333"]

  /** The background from the fixed table, #f5f5f5 for any other colour. */
  function Background(color: string): (r: string)
    ensures r == "#f5f5f5" <==> color !in {"yellow", "blue", "green", "red", "default"}
  {
    if color in Backgrounds then Backgrounds[color] else "#f5f5f5"
  }

  /** The link and note colour from the fixed table, #333333 for any other colour. */
  function LinkColor(color: string): (r: string)
    ensures color !in {"yellow", "blue", "green", "red"} <==> r == "#333333"
  {
    if color in LinkColors then LinkColors[color] else "#333333"
  }

  /** The left border: the colour itself, but #cccccc for "default". */
  function BorderColor(color: string): (r: string)
    ensures color == "default" ==> r == "#cccccc"
    ensures color != "default" ==> r == color
  {
    if color != "default" then color else "#cccccc"
  }

  /** The three rules (.bq-C, .bq-C a, .bq-C em) for one sanitized colour. */
  function RuleLines(color: string): seq<string> {
    [ ".bq-" + color + " {",
      "  border-left: 3px solid " + BorderColor(color) + " !important;",
      "  padding: 0.5em 10px;",
      "  margin: 1em 0;",
      "  background-color: " + Background(color) + ";",
      "  border-radius: 4px;",
      "}",
      ".bq-" + color + " a {",
      "  color: " + LinkColor(color) + ";",
      "  font-weight: bold;",
      "}",
      ".bq-" + color + " em {",
      "  font-style: italic;",
      "  font-weight: bold;",
      "  color: " + LinkColor(color) + ";",
      "}" ]
  }

  /** The rules the colour c contributes: none when it sanitizes to the
      empty string. */
  function RulesOf(c: string): seq<string> {
    var name := SanitizeColor(c);
    if name == "" then [] else RuleLines(name)
  }

  /** The rule lines for the colours in order. */
  function RulesFor(colors: seq<string>): seq<string> {
    FlatMap(RulesOf, colors)
  }

  const StyleOpen: seq<string> := ["<style>", "/* Calibre Annotation Styles */"]
  const StyleClose := "</style>\n"

  function StyleLines(colors: seq<string>): seq<string> {
    StyleOpen + RulesFor(colors) + [StyleClose]
  }

  /** Every colour that survives sanitizing contributes its three rules, and
      every rule line comes from a colour that survives. */
  lemma RulesForMembers(colors: seq<string>)
    ensures forall l :: l in RulesFor(colors) <==>
      exists k :: 0 <= k < |colors| && SanitizeColor(colors[k]) != "" && l in RuleLines(SanitizeColor(colors[k]))
  {
    FlatMapMembers(RulesOf, colors);
  }

  /** The colour set the stylesheet is built from: "default" is added when
      no record set a colour but the index is not empty. */
  function FinalColors(used: set<string>, indexNonEmpty: bool): (r: set<string>)
    ensures "default" in r <==> "default" in used || (used == {} && indexNonEmpty)
    ensures r - {"default"} == used - {"default"}
  {
    if used == {} && indexNonEmpty then {"default"} else used
  }

  lemma RulesForStep(colors: seq<string>, i: nat)
    requires i < |colors|
    ensures RulesFor(colors[..i + 1]) == RulesFor(colors[..i]) + RulesOf(colors[i])
  {
    assert colors[..i + 1][..i] == colors[..i];
  }

  /** The loop at lines 241-270 over the sorted colours. */
  method EmitStyleLines(colors: seq<string>) returns (lines: seq<string>)
    ensures lines == StyleLines(colors)
  {
    var rules := [];
    for i := 0 to |colors|
      invariant rules == RulesFor(colors[..i])
    {
      RulesForStep(colors, i);
      var sanitized := SanitizeColor(colors[i]);
      if sanitized == "" {
        continue;
      }
      rules := rules + RuleLines(sanitized);
    }
    assert colors[..|colors|] == colors;
    lines := StyleOpen + rules + [StyleClose];
  }
}
