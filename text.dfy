/** String helpers with the semantics of the Python built-ins the formatter uses:
    str.strip / lstrip / rstrip, str.split with a one-character separator,
    str.join, str.split(sep, 1), str() of an int, and the regex class \s. */
module Text {

  datatype Option<T> = None | Some(value: T) {
    function GetOr(default: T): T {
      match this
      case Some(v) => v
      case None => default
    }
  }

  datatype Result<T, E> = Ok(value: T) | Err(error: E)

  /** The characters Python's str.isspace() accepts, which is also what the
      regular-expression class \s matches on str patterns. */
  predicate IsSpace(c: char) {
    ('\t' <= c <= '\r') || ('\U{1c}' <= c <= '\U{1f}') || c == ' '
    || c == '\U{85}' || c == '\U{a0}' || c == '\U{1680}'
    || ('\U{2000}' <= c <= '\U{200a}') || c == '\U{2028}' || c == '\U{2029}'
    || c == '\U{202f}' || c == '\U{205f}' || c == '\U{3000}'
  }

  predicate IsBlank(s: string) {
    forall i :: 0 <= i < |s| ==> IsSpace(s[i])
  }

  /** Length of the longest all-whitespace prefix (what `^\s*` matches). */
  function LeadingSpaces(s: string): (n: nat)
    ensures n <= |s|
    ensures forall i :: 0 <= i < n ==> IsSpace(s[i])
    ensures n < |s| ==> !IsSpace(s[n])
  {
    if s != [] && IsSpace(s[0]) then 1 + LeadingSpaces(s[1..]) else 0
  }

  /** Length of the longest all-whitespace suffix. */
  function TrailingSpaces(s: string): (n: nat)
    ensures n <= |s|
    ensures forall i :: |s| - n <= i < |s| ==> IsSpace(s[i])
    ensures n < |s| ==> !IsSpace(s[|s| - 1 - n])
  {
    if s != [] && IsSpace(s[|s| - 1]) then 1 + TrailingSpaces(s[..|s| - 1]) else 0
  }

  function LStrip(s: string): string {
    s[LeadingSpaces(s)..]
  }

  function RStrip(s: string): string {
    s[..|s| - TrailingSpaces(s)]
  }

  function Strip(s: string): string {
    RStrip(LStrip(s))
  }

  /** `s.strip() == ""` exactly when every character of s is whitespace. */
  lemma StripEmptyIffBlank(s: string)
    ensures Strip(s) == [] <==> IsBlank(s)
  {
    var n := LeadingSpaces(s);
    var t := s[n..];
    if n < |s| {
      assert t[0] == s[n] && !IsSpace(t[0]);
      assert TrailingSpaces(t) < |t|;
      assert !IsBlank(s);
    }
  }

  /** The text left after str.lstrip() is blank exactly when the whole string is. */
  lemma LStripBlank(s: string)
    ensures IsBlank(LStrip(s)) <==> IsBlank(s)
  {
    var n := LeadingSpaces(s);
    if !IsBlank(s) {
      var i :| 0 <= i < |s| && !IsSpace(s[i]);
      assert n <= i;
      assert LStrip(s)[i - n] == s[i];
    }
  }

  /** str.rstrip() leaves no trailing whitespace and removes only whitespace. */
  lemma RStripShape(s: string)
    ensures |RStrip(s)| <= |s| && s[..|RStrip(s)|] == RStrip(s)
    ensures RStrip(s) == [] || !IsSpace(RStrip(s)[|RStrip(s)| - 1])
    ensures IsBlank(s[|RStrip(s)|..])
  {
    var n := TrailingSpaces(s);
    var r := RStrip(s);
    if r != [] {
      assert r[|r| - 1] == s[|s| - 1 - n];
    }
    forall i | 0 <= i < |s[|r|..]|
      ensures IsSpace(s[|r|..][i])
    {
      assert s[|r|..][i] == s[|r| + i];
    }
  }

  /** Right-stripping text that is not all whitespace keeps its first character. */
  lemma RStripNotBlank(s: string)
    requires !IsBlank(s)
    ensures RStrip(s) != [] && RStrip(s)[0] == s[0]
  {
    RStripShape(s);
    assert s[0..] == s;
  }

  /** sep.join(parts) */
  function Join(sep: string, parts: seq<string>): string
    decreases |parts|
  {
    if |parts| == 0 then ""
    else if |parts| == 1 then parts[0]
    else parts[0] + sep + Join(sep, parts[1..])
  }

  lemma {:induction false} JoinAppend(sep: string, a: seq<string>, b: seq<string>)
    requires a != [] && b != []
    ensures Join(sep, a + b) == Join(sep, a) + sep + Join(sep, b)
    decreases |a|
  {
    if |a| == 1 {
      assert (a + b)[1..] == b;
    } else {
      assert (a + b)[1..] == a[1..] + b;
      JoinAppend(sep, a[1..], b);
    }
  }

  /** f applied to each element, built from the end as a loop that appends. */
  function Map<A, B>(f: A -> B, xs: seq<A>): seq<B>
    decreases |xs|
  {
    if xs == [] then [] else Map(f, xs[..|xs| - 1]) + [f(xs[|xs| - 1])]
  }

  lemma {:induction false} MapPointwise<A, B>(f: A -> B, xs: seq<A>)
    ensures |Map(f, xs)| == |xs|
    ensures forall k :: 0 <= k < |xs| ==> Map(f, xs)[k] == f(xs[k])
    decreases |xs|
  {
    if xs != [] {
      var init := xs[..|xs| - 1];
      MapPointwise(f, init);
      forall k | 0 <= k < |xs|
        ensures Map(f, xs)[k] == f(xs[k])
      {
        if k < |init| {
          assert init[k] == xs[k];
        }
      }
    }
  }

  /** The sequences f gives for the elements, laid end to end in order. */
  function FlatMap<A, B>(f: A -> seq<B>, xs: seq<A>): seq<B>
    decreases |xs|
  {
    if xs == [] then [] else FlatMap(f, xs[..|xs| - 1]) + f(xs[|xs| - 1])
  }

  lemma {:induction false} FlatMapMembers<A, B>(f: A -> seq<B>, xs: seq<A>)
    ensures forall y :: y in FlatMap(f, xs) <==> exists k :: 0 <= k < |xs| && y in f(xs[k])
    decreases |xs|
  {
    if xs != [] {
      var init := xs[..|xs| - 1];
      var n := |xs| - 1;
      FlatMapMembers(f, init);
      forall y
        ensures y in FlatMap(f, xs) <==> exists k :: 0 <= k < |xs| && y in f(xs[k])
      {
        if y in FlatMap(f, init) {
          var k :| 0 <= k < |init| && y in f(init[k]);
          assert init[k] == xs[k];
        }
        if exists k :: 0 <= k < |xs| && y in f(xs[k]) {
          var k :| 0 <= k < |xs| && y in f(xs[k]);
          if k < n {
            assert init[k] == xs[k];
          }
        }
      }
    }
  }

  /** "".join(parts) */
  function Concat(parts: seq<string>): string
    decreases |parts|
  {
    if parts == [] then "" else parts[0] + Concat(parts[1..])
  }

  lemma {:induction false} ConcatAppend(a: seq<string>, b: seq<string>)
    ensures Concat(a + b) == Concat(a) + Concat(b)
    decreases |a|
  {
    if a == [] {
      assert a + b == b;
    } else {
      assert (a + b)[1..] == a[1..] + b;
      ConcatAppend(a[1..], b);
    }
  }

  /** Appending a non-empty string is appending its first character, then the rest. */
  lemma SplitHead(a: string, r: string)
    requires r != []
    ensures a + "" + r == a + [r[0]] + r[1..]
  {
    assert r == [r[0]] + r[1..];
  }

  /** A string inserted at position k can be cut out again. */
  lemma CutOut(t: string, k: nat, m: string)
    requires k <= |t|
    ensures var r := t[..k] + m + t[k..];
      |r| == |t| + |m| && r[k..k + |m|] == m && r[..k] + r[k + |m|..] == t
  {
    var r := t[..k] + m + t[k..];
    assert r[..k] == t[..k] && r[k + |m|..] == t[k..];
    assert t[..k] + t[k..] == t;
  }

  lemma SliceSplit(s: string, i: nat, j: nat, k: nat)
    requires i <= j <= k <= |s|
    ensures s[i..k] == s[i..j] + s[j..k]
  {
  }

  lemma SliceSplit4(s: string, i: nat, j: nat, k: nat, l: nat, n: nat)
    requires i <= j <= k <= l <= n <= |s|
    ensures s[i..n] == s[i..j] + s[j..k] + s[k..l] + s[l..n]
  {
    SliceSplit(s, i, l, n);
    SliceSplit(s, i, k, l);
    SliceSplit(s, i, j, k);
  }

  lemma SliceSplit5(s: string, i: nat, j: nat, k: nat, l: nat, n: nat, o: nat)
    requires i <= j <= k <= l <= n <= o <= |s|
    ensures s[i..o] == s[i..j] + s[j..k] + s[k..l] + s[l..n] + s[n..o]
  {
    SliceSplit(s, i, n, o);
    SliceSplit4(s, i, j, k, l, n);
  }

  /** Position of the first c in s, or |s| when there is none. */
  function FirstIndex(s: string, c: char): (i: nat)
    ensures i <= |s|
    ensures forall j :: 0 <= j < i ==> s[j] != c
    ensures i < |s| ==> s[i] == c
  {
    if s == [] then 0 else if s[0] == c then 0 else 1 + FirstIndex(s[1..], c)
  }

  /** s.split(c) for a one-character separator: the pieces between the
      separators, which joined with c give back s. */
  function Split(s: string, c: char): (r: seq<string>)
    ensures |r| >= 1
    ensures forall k :: 0 <= k < |r| ==> c !in r[k]
    ensures Join([c], r) == s
    decreases |s|
  {
    var i := FirstIndex(s, c);
    if i == |s| then
      assert c !in s;
      [s]
    else
      var rest := Split(s[i + 1..], c);
      var r := [s[..i]] + rest;
      assert r[1..] == rest;
      assert c !in s[..i];
      assert Join([c], r) == s[..i] + [c] + Join([c], rest);
      assert s == s[..i] + [c] + s[i + 1..];
      r
  }

  /** t occurs in s starting at position i. */
  predicate OccursAt(s: string, t: string, i: nat) {
    i + |t| <= |s| && forall k :: 0 <= k < |t| ==> s[i + k] == t[k]
  }

  lemma OccursAtSlice(s: string, t: string, i: nat)
    ensures OccursAt(s, t, i) <==> i + |t| <= |s| && s[i..i + |t|] == t
  {
    if i + |t| <= |s| && s[i..i + |t|] == t {
      forall k | 0 <= k < |t| ensures s[i + k] == t[k] {
        assert s[i..i + |t|][k] == s[i + k];
      }
    }
  }

  /** The first occurrence of t in s at or after position i. */
  function FindFrom(s: string, t: string, i: nat): (r: Option<nat>)
    requires i <= |s|
    ensures r.Some? ==> i <= r.value && OccursAt(s, t, r.value)
    ensures r.Some? ==> forall j :: i <= j < r.value ==> !OccursAt(s, t, j)
    ensures r.None? ==> forall j :: i <= j ==> !OccursAt(s, t, j)
    decreases |s| - i
  {
    if OccursAt(s, t, i) then Some(i)
    else if i + |t| < |s| then FindFrom(s, t, i + 1)
    else None
  }

  /** s.split(t, 1)[-1]: the text after the first occurrence of t, or all of s
      when t does not occur. */
  function AfterFirst(s: string, t: string): (r: string)
    requires |t| > 0
    ensures (forall j :: !OccursAt(s, t, j)) ==> r == s
    ensures (exists j :: OccursAt(s, t, j)) ==>
      exists j: nat :: OccursAt(s, t, j) && r == s[j + |t|..] && forall i: nat :: i < j ==> !OccursAt(s, t, i)
  {
    match FindFrom(s, t, 0)
    case Some(j) => s[j + |t|..]
    case None => s
  }

  function DigitChar(d: nat): char
    requires d < 10
  {
    (('0' as int) + d) as char
  }

  predicate IsDigit(c: char) {
    '0' <= c <= '9'
  }

  /** str(n) for a non-negative int. */
  function NatToString(n: nat): (r: string)
    ensures |r| >= 1
    ensures forall i :: 0 <= i < |r| ==> IsDigit(r[i])
    ensures r[0] == '0' ==> n == 0
  {
    if n < 10 then [DigitChar(n)] else NatToString(n / 10) + [DigitChar(n % 10)]
  }

  /** str(i) for any int. */
  function IntToString(i: int): (r: string)
    ensures |r| >= 1
    ensures forall k :: 0 <= k < |r| ==> IsDigit(r[k]) || (k == 0 && r[k] == '-')
  {
    if i < 0 then "-" + NatToString(-i) else NatToString(i)
  }

  /** The value of a string of decimal digits (the inverse of NatToString). */
  function DigitsValue(s: string): nat
    requires forall i :: 0 <= i < |s| ==> IsDigit(s[i])
  {
    if s == [] then 0
    else
      assert IsDigit(s[|s| - 1]);
      10 * DigitsValue(s[..|s| - 1]) + ((s[|s| - 1] as int) - ('0' as int))
  }

  lemma {:induction false} NatToStringRoundTrip(n: nat)
    ensures DigitsValue(NatToString(n)) == n
  {
    if n >= 10 {
      var r := NatToString(n);
      assert r[..|r| - 1] == NatToString(n / 10);
      NatToStringRoundTrip(n / 10);
    }
  }

  /** str() on non-negative ints is injective. */
  lemma NatToStringInjective(a: nat, b: nat)
    requires NatToString(a) == NatToString(b)
    ensures a == b
  {
    NatToStringRoundTrip(a);
    NatToStringRoundTrip(b);
  }

  /** str(i) is the digits of |i|, after a '-' when i is negative, and
      reading those digits back gives |i|. */
  lemma IntToStringValue(i: int)
    ensures i >= 0 ==> IntToString(i) == NatToString(i)
    ensures i < 0 ==> IntToString(i) == "-" + NatToString(-i)
    ensures DigitsValue(IntToString(i)[if i < 0 then 1 else 0..]) == (if i < 0 then -i else i)
  {
    var r := IntToString(i);
    if i < 0 {
      assert r[1..] == NatToString(-i);
      NatToStringRoundTrip(-i);
    } else {
      assert r[0..] == NatToString(i);
      NatToStringRoundTrip(i);
    }
  }

  /** str(i) starts with '-' exactly when i is negative. */
  lemma IntToStringSign(i: int)
    ensures (IntToString(i)[0] == '-') == (i < 0)
  {
    if i >= 0 { assert IsDigit(NatToString(i)[0]); }
  }

  /** str() on ints is injective. */
  lemma IntToStringInjective(i: int, j: int)
    requires IntToString(i) == IntToString(j)
    ensures i == j
  {
    IntToStringSign(i);
    IntToStringSign(j);
    if i < 0 {
      assert NatToString(-i) == IntToString(i)[1..];
      assert NatToString(-j) == IntToString(j)[1..];
      NatToStringInjective(-i, -j);
    } else {
      NatToStringInjective(i, j);
    }
  }
}
