/** Hand-written scanners for the two fixed regular expressions that
    format_annotations_to_html applies to the Markdown text:
      the rule delimiter  (\n-{3,}\n)   used by re.split, re.search and re.sub,
      the Calibre link    \[(.*?)\]\((calibre:\/\/.*?open_at=epubcfi%28(.*?)%29)\)
    with Python's semantics: `.` never matches a newline, lazy quantifiers
    try the shortest repetition first, and searching, splitting and
    substitution go left to right without overlaps. */
module Markdown {
  import opened Text

  // ---------------------------------------------------------------------
  // The delimiter \n-{3,}\n

  /** Number of consecutive '-' starting at position i. */
  function DashRun(s: string, i: nat): (n: nat)
    requires i <= |s|
    ensures i + n <= |s|
    ensures forall j :: i <= j < i + n ==> s[j] == '-'
    ensures i + n == |s| || s[i + n] != '-'
    decreases |s| - i
  {
    if i < |s| && s[i] == '-' then 1 + DashRun(s, i + 1) else 0
  }

  /** The dash run is the only run of dashes ended by a non-dash. */
  lemma DashRunIs(s: string, i: nat, k: nat)
    requires i + k <= |s|
    requires forall j :: i <= j < i + k ==> s[j] == '-'
    requires i + k == |s| || s[i + k] != '-'
    ensures DashRun(s, i) == k
  {
  }

  /** The delimiter pattern matches at position i. Since dashes are not
      newlines, the only way for -{3,} to be followed by \n is to take the
      whole dash run, so the match, when there is one, is unique. */
  predicate DelimAt(s: string, i: nat) {
    i < |s| && s[i] == '\n' && DashRun(s, i + 1) >= 3
    && i + 1 + DashRun(s, i + 1) < |s| && s[i + 1 + DashRun(s, i + 1)] == '\n'
  }

  /** End (exclusive) of the delimiter match at i. */
  function DelimEnd(s: string, i: nat): (e: nat)
    requires DelimAt(s, i)
    ensures i + 5 <= e <= |s|
  {
    i + DashRun(s, i + 1) + 2
  }

  /** A string the delimiter pattern matches in full: a newline, three or
      more dashes, a newline. */
  predicate IsDelimiter(t: string) {
    |t| >= 5 && t[0] == '\n' && t[|t| - 1] == '\n'
    && forall k :: 0 < k < |t| - 1 ==> t[k] == '-'
  }

  /** The matches of the delimiter at i are exactly the delimiter-shaped
      substrings starting at i. */
  lemma DelimAtIff(s: string, i: nat, e: nat)
    requires i < e <= |s|
    ensures (DelimAt(s, i) && DelimEnd(s, i) == e) <==> IsDelimiter(s[i..e])
  {
    var t := s[i..e];
    if IsDelimiter(t) {
      forall j | i + 1 <= j < e - 1
        ensures s[j] == '-'
      {
        assert s[j] == t[j - i];
      }
      assert s[e - 1] == t[|t| - 1];
      DashRunIs(s, i + 1, e - i - 2);
    }
    if DelimAt(s, i) && DelimEnd(s, i) == e {
      forall k | 0 < k < |t| - 1
        ensures t[k] == '-'
      {
        assert t[k] == s[i + k];
      }
    }
  }

  /** Position of the leftmost delimiter match at or after `from`, or |s|. */
  function NextDelim(s: string, from: nat): (r: nat)
    requires from <= |s|
    ensures from <= r <= |s|
    ensures r < |s| ==> DelimAt(s, r)
    ensures forall j :: from <= j < r ==> !DelimAt(s, j)
    decreases |s| - from
  {
    if from == |s| then from
    else if DelimAt(s, from) then from
    else NextDelim(s, from + 1)
  }

  /** The delimiter occurs somewhere in s (re.search finds it). */
  predicate HasDelim(s: string) {
    NextDelim(s, 0) < |s|
  }

  lemma HasDelimIff(s: string)
    ensures HasDelim(s) <==> exists j :: DelimAt(s, j)
  {
    if exists j :: DelimAt(s, j) {
      var j: nat :| DelimAt(s, j);
      assert j < |s|;
    }
  }

  /** re.split of s[from..] on the delimiter: the text between matches, with
      each match kept as its own part. */
  function SplitFrom(s: string, from: nat): seq<string>
    requires from <= |s|
    decreases |s| - from
  {
    var i := NextDelim(s, from);
    if i == |s| then [s[from..]]
    else [s[from..i], s[i..DelimEnd(s, i)]] + SplitFrom(s, DelimEnd(s, i))
  }

  function SplitKeep(s: string): seq<string> {
    SplitFrom(s, 0)
  }

  /** A match found inside a slice of s is a match in s at the shifted position. */
  lemma DelimAtInSlice(s: string, f: nat, e: nat, j: nat)
    requires f <= e <= |s|
    requires DelimAt(s[f..e], j)
    ensures DelimAt(s, f + j)
  {
    var t := s[f..e];
    var k := DashRun(t, j + 1);
    forall m | f + j + 1 <= m < f + j + 1 + k
      ensures s[m] == '-'
    {
      assert s[m] == t[m - f];
    }
    assert s[f + j + 1 + k] == t[j + 1 + k];
    DashRunIs(s, f + j + 1, k);
  }

  /** A stretch of s in which no match starts holds no match of its own. */
  lemma NoDelimInGap(s: string, f: nat, e: nat)
    requires f <= e <= |s|
    requires forall j :: f <= j < e ==> !DelimAt(s, j)
    ensures !HasDelim(s[f..e])
  {
    var t := s[f..e];
    if HasDelim(t) {
      var j := NextDelim(t, 0);
      DelimAtInSlice(s, f, e, j);
    }
  }

  /** The parts of a split: text and delimiters alternate, starting and
      ending with text; every delimiter part is one whole match and no text
      part contains a match. */
  predicate Alternates(parts: seq<string>) {
    |parts| % 2 == 1
    && (forall k :: 0 <= k < |parts| && k % 2 == 1 ==> IsDelimiter(parts[k]))
    && (forall k :: 0 <= k < |parts| && k % 2 == 0 ==> !HasDelim(parts[k]))
  }

  lemma AlternatesCons(x: string, d: string, rest: seq<string>)
    requires !HasDelim(x) && IsDelimiter(d) && Alternates(rest)
    ensures Alternates([x, d] + rest)
  {
    var parts := [x, d] + rest;
    forall k | 2 <= k < |parts|
      ensures parts[k] == rest[k - 2] && (k % 2 == (k - 2) % 2)
    {
    }
  }

  lemma ConcatCons2(x: string, d: string, rest: seq<string>)
    ensures Concat([x, d] + rest) == x + d + Concat(rest)
  {
    var parts := [x, d] + rest;
    assert parts[1..] == [d] + rest;
    assert parts[1..][1..] == rest;
  }

  /** A text part without a match, a whole match and a split of the rest of
      s keep every character and alternate. */
  lemma SpecCons(s: string, from: nat, i: nat, e: nat, rest: seq<string>)
    requires from <= i < e <= |s|
    requires !HasDelim(s[from..i]) && DelimAt(s, i) && DelimEnd(s, i) == e
    requires Concat(rest) == s[e..] && Alternates(rest)
    ensures Concat([s[from..i], s[i..e]] + rest) == s[from..]
    ensures Alternates([s[from..i], s[i..e]] + rest)
  {
    DelimAtIff(s, i, e);
    AlternatesCons(s[from..i], s[i..e], rest);
    ConcatCons2(s[from..i], s[i..e], rest);
    assert s[from..] == s[from..i] + s[i..e] + s[e..];
  }

  lemma {:induction false} SplitFromSpec(s: string, from: nat)
    requires from <= |s|
    ensures Concat(SplitFrom(s, from)) == s[from..]
    ensures Alternates(SplitFrom(s, from))
    decreases |s| - from
  {
    var i := NextDelim(s, from);
    NoDelimInGap(s, from, i);
    if i < |s| {
      var e := DelimEnd(s, i);
      SplitFromSpec(s, e);
      SpecCons(s, from, i, e, SplitFrom(s, e));
    } else {
      assert s[from..i] == s[from..];
      assert Concat([s[from..]]) == s[from..] + Concat([]);
    }
  }

  /** A part of a split of s, starting at position p of s, is where the
      left-to-right scan puts it: a delimiter part is the match that starts
      at p, and no match starts anywhere inside a text part. */
  predicate PartIsLeftmost(s: string, p: nat, part: string, isDelim: bool) {
    if isDelim then DelimAt(s, p) && DelimEnd(s, p) == p + |part|
    else forall j :: p <= j < p + |part| ==> !DelimAt(s, j)
  }

  /** Every part of a split of s[from..] is where the scan puts it: a text
      part, then (when there are more) a delimiter part and the rest from
      where the delimiter ends. */
  predicate LeftmostFrom(s: string, from: nat, parts: seq<string>)
    decreases |parts|
  {
    |parts| >= 1 && PartIsLeftmost(s, from, parts[0], false)
    && (|parts| == 1
        || (|parts| >= 3 && PartIsLeftmost(s, from + |parts[0]|, parts[1], true)
            && LeftmostFrom(s, from + |parts[0]| + |parts[1]|, parts[2..])))
  }

  /** A text part with no match in it, the match that follows, and a
      leftmost split from the end of that match make a leftmost split. */
  lemma LeftmostCons(s: string, from: nat, x: string, d: string, rest: seq<string>, i: nat, e: nat)
    requires i == from + |x| && e == i + |d|
    requires forall j :: from <= j < i ==> !DelimAt(s, j)
    requires DelimAt(s, i) && DelimEnd(s, i) == e
    requires LeftmostFrom(s, e, rest)
    ensures LeftmostFrom(s, from, [x, d] + rest)
  {
    var parts := [x, d] + rest;
    assert parts[2..] == rest;
  }

  /** re.split scans left to right: each part is where the scan puts it. */
  lemma {:induction false} SplitFromLeftmost(s: string, from: nat)
    requires from <= |s|
    ensures LeftmostFrom(s, from, SplitFrom(s, from))
    decreases |s| - from
  {
    var i := NextDelim(s, from);
    if i < |s| {
      var e := DelimEnd(s, i);
      SplitFromLeftmost(s, e);
      LeftmostCons(s, from, s[from..i], s[i..e], SplitFrom(s, e), i, e);
    } else {
      assert SplitFrom(s, from) == [s[from..]];
    }
  }

  /** A leftmost split of more than one part, with its first text part
      ending at i and its first delimiter part at e: no match before i, the
      match at i ends at e, and a leftmost split of the rest from e. */
  lemma LeftmostHead(s: string, from: nat, parts: seq<string>, i: nat, e: nat)
    requires LeftmostFrom(s, from, parts) && |parts| > 1
    requires i == from + |parts[0]| && e == i + |parts[1]|
    ensures |parts| >= 3
    ensures forall j :: from <= j < i ==> !DelimAt(s, j)
    ensures DelimAt(s, i) && DelimEnd(s, i) == e
    ensures LeftmostFrom(s, e, parts[2..])
  {
  }

  /** A leftmost split of one part is s[from..] itself, with no match in it. */
  lemma LeftmostSingle(s: string, from: nat, parts: seq<string>)
    requires from <= |s| && Concat(parts) == s[from..] && LeftmostFrom(s, from, parts)
    requires |parts| == 1
    ensures parts == [s[from..]]
    ensures forall j :: from <= j < |s| ==> !DelimAt(s, j)
  {
    assert parts[1..] == [];
    assert Concat(parts) == parts[0];
  }

  /** Cutting s[from..] = x + d + r back into its three pieces, which end
      at i, e and |s|. */
  lemma SliceThree(s: string, from: nat, x: string, d: string, r: string, i: nat, e: nat)
    requires from <= |s| && s[from..] == x + d + r
    requires i == from + |x| && e == i + |d|
    ensures e <= |s|
    ensures s[from..i] == x && s[i..e] == d && s[e..] == r
  {
    assert s[from..i] == s[from..][..|x|];
    assert s[i..e] == s[from..][|x|..|x| + |d|];
    assert s[e..] == s[from..][|x| + |d|..];
  }

  /** The first delimiter part of a leftmost split of more than one part is
      the first match: another leftmost split of the same text has a
      delimiter part too, and its first text part is no longer. */
  lemma FirstDelimBound(s: string, from: nat, p: seq<string>, q: seq<string>)
    requires from <= |s|
    requires Concat(p) == s[from..] && LeftmostFrom(s, from, p)
    requires Concat(q) == s[from..] && LeftmostFrom(s, from, q)
    requires |p| > 1
    ensures |q| > 1 && |q[0]| <= |p[0]|
  {
    LeftmostHead(s, from, p, from + |p[0]|, from + |p[0]| + |p[1]|);
    if |q| == 1 {
      LeftmostSingle(s, from, q);
      assert false;
    }
  }

  /** A leftmost split of s[from..] of more than one part, taken apart at
      the end i of its first text part: the text up to the first match, that
      match, and a leftmost split of what follows it. */
  lemma LeftmostRest(s: string, from: nat, p: seq<string>, i: nat)
    requires from <= |s|
    requires Concat(p) == s[from..] && LeftmostFrom(s, from, p)
    requires |p| > 1 && i == from + |p[0]|
    ensures i < |s| && DelimAt(s, i)
    ensures p[0] == s[from..i] && p[1] == s[i..DelimEnd(s, i)]
    ensures Concat(p[2..]) == s[DelimEnd(s, i)..] && LeftmostFrom(s, DelimEnd(s, i), p[2..])
  {
    var e := i + |p[1]|;
    LeftmostHead(s, from, p, i, e);
    ConcatCons2(p[0], p[1], p[2..]);
    assert p == [p[0], p[1]] + p[2..];
    SliceThree(s, from, p[0], p[1], Concat(p[2..]), i, e);
  }

  /** Two leftmost splits of the same text, one of them of a single part,
      are equal. */
  lemma LeftmostUniqueSingle(s: string, from: nat, p: seq<string>, q: seq<string>)
    requires from <= |s|
    requires Concat(p) == s[from..] && LeftmostFrom(s, from, p)
    requires Concat(q) == s[from..] && LeftmostFrom(s, from, q)
    requires |p| == 1
    ensures p == q
  {
    if |q| > 1 {
      FirstDelimBound(s, from, q, p);
    }
    LeftmostSingle(s, from, p);
    LeftmostSingle(s, from, q);
  }

  lemma EqualByParts(p: seq<string>, q: seq<string>)
    requires |p| >= 2 && |q| >= 2 && p[0] == q[0] && p[1] == q[1] && p[2..] == q[2..]
    ensures p == q
  {
    assert p == [p[0], p[1]] + p[2..];
    assert q == [q[0], q[1]] + q[2..];
  }

  /** Two leftmost splits of the same text are equal. */
  lemma {:induction false} LeftmostUnique(s: string, from: nat, p: seq<string>, q: seq<string>)
    requires from <= |s|
    requires Concat(p) == s[from..] && LeftmostFrom(s, from, p)
    requires Concat(q) == s[from..] && LeftmostFrom(s, from, q)
    ensures p == q
    decreases |p|
  {
    if |p| == 1 {
      LeftmostUniqueSingle(s, from, p, q);
    } else {
      FirstDelimBound(s, from, p, q);
      FirstDelimBound(s, from, q, p);
      var i := from + |p[0]|;
      LeftmostRest(s, from, p, i);
      LeftmostRest(s, from, q, i);
      LeftmostUnique(s, DelimEnd(s, i), p[2..], q[2..]);
      EqualByParts(p, q);
    }
  }

  /** The scan's split is the only leftmost one: any sequence of parts that
      joins up to s[from..] with every part where the scan puts it is the
      split. */
  lemma SplitFromUnique(s: string, from: nat, parts: seq<string>)
    requires from <= |s|
    requires Concat(parts) == s[from..] && LeftmostFrom(s, from, parts)
    ensures parts == SplitFrom(s, from)
  {
    SplitFromSpec(s, from);
    SplitFromLeftmost(s, from);
    LeftmostUnique(s, from, parts, SplitFrom(s, from));
  }

  /** re.split keeps every character: joining the parts gives back s. */
  lemma SplitKeepSpec(s: string)
    ensures Concat(SplitKeep(s)) == s
    ensures Alternates(SplitKeep(s))
    ensures LeftmostFrom(s, 0, SplitKeep(s))
  {
    SplitFromSpec(s, 0);
    SplitFromLeftmost(s, 0);
  }

  /** The parts of a split with every delimiter part replaced by a rule tag. */
  function HrParts(parts: seq<string>): (r: seq<string>)
    ensures |r| == |parts|
    ensures forall k :: 0 <= k < |parts| ==> r[k] == if k % 2 == 1 then "\n<hr>\n" else parts[k]
  {
    seq(|parts|, k requires 0 <= k < |parts| => if k % 2 == 1 then "\n<hr>\n" else parts[k])
  }

  /** re.sub on the delimiter: each match found by the same
      left-to-right scan is replaced by a rule tag. */
  function ReplaceDelims(s: string): string {
    Concat(HrParts(SplitKeep(s)))
  }

  lemma ReplaceWithoutDelim(s: string)
    requires !HasDelim(s)
    ensures ReplaceDelims(s) == s
  {
    var parts := SplitKeep(s);
    assert parts == [s];
    assert HrParts(parts) == [s];
    assert Concat(HrParts(parts)) == s + Concat([]);
  }

  /** re.sub replaces exactly the matches of the left-to-right scan: cut s
      into text and delimiter parts, each where the scan puts it, and the
      result is the text parts with a rule tag between each two. */
  lemma ReplaceDelimsLeftmost(s: string, parts: seq<string>)
    requires Concat(parts) == s && LeftmostFrom(s, 0, parts)
    ensures ReplaceDelims(s) == Concat(HrParts(parts))
  {
    SplitFromUnique(s, 0, parts);
  }

  // ---------------------------------------------------------------------
  // The link \[(.*?)\]\((calibre:\/\/.*?open_at=epubcfi%28(.*?)%29)\)

  const LinkMid := "](calibre://"
  const CfiOpen := "open_at=epubcfi%28"
  const CfiClose := "%29)"

  /** No newline among s[i..j]: what a `.*?` run may cover. */
  predicate NoNewline(s: string, i: nat, j: nat) {
    forall k :: i <= k < j && k < |s| ==> s[k] != '\n'
  }

  /** The tail (.*?)%29\) matches with c characters in group 3. */
  predicate CfiOk(s: string, cs: nat, c: nat) {
    cs + c <= |s| && NoNewline(s, cs, cs + c) && OccursAt(s, CfiClose, cs + c)
  }

  /** The tail .*?open_at=epubcfi%28(.*?)%29\) matches with b characters for
      the lazy run and c for group 3. */
  predicate MidOk(s: string, q: nat, b: nat, c: nat) {
    q + b <= |s| && NoNewline(s, q, q + b) && OccursAt(s, CfiOpen, q + b)
    && CfiOk(s, q + b + |CfiOpen|, c)
  }

  /** Everything after the opening bracket at p matches, with a characters in
      group 1. */
  predicate TextOk(s: string, p: nat, a: nat, b: nat, c: nat) {
    p + 1 + a <= |s| && NoNewline(s, p + 1, p + 1 + a) && OccursAt(s, LinkMid, p + 1 + a)
    && MidOk(s, p + 1 + a + |LinkMid|, b, c)
  }

  /** A match of the link pattern: where it starts and how many characters
      each lazy run takes. */
  datatype LinkMatch = LinkMatch(start: nat, textLen: nat, midLen: nat, cfiLen: nat)

  predicate IsLinkMatch(s: string, m: LinkMatch) {
    m.start < |s| && s[m.start] == '[' && TextOk(s, m.start, m.textLen, m.midLen, m.cfiLen)
  }

  /** (b', c') comes before (b, c) in the engine's order: a shorter first
      run, or the same first run and a shorter second. */
  predicate Before2(b': nat, c': nat, b: nat, c: nat) {
    b' < b || (b' == b && c' < c)
  }

  /** The same order on triples. */
  predicate Before3(a': nat, b': nat, c': nat, a: nat, b: nat, c: nat) {
    a' < a || (a' == a && Before2(b', c', b, c))
  }

  /** The order in which the regex engine tries matches: leftmost start
      first, then the shortest group 1, then the shortest middle run, then
      the shortest group 3. */
  predicate Earlier(m1: LinkMatch, m2: LinkMatch) {
    m1.start < m2.start
    || (m1.start == m2.start && Before3(m1.textLen, m1.midLen, m1.cfiLen, m2.textLen, m2.midLen, m2.cfiLen))
  }

  /** The match re.search reports. */
  ghost predicate FirstLinkMatch(s: string, m: LinkMatch) {
    IsLinkMatch(s, m) && forall m' :: IsLinkMatch(s, m') ==> !Earlier(m', m)
  }

  function UrlStart(m: LinkMatch): nat { m.start + m.textLen + 3 }
  function CfiStart(m: LinkMatch): nat { m.start + 1 + m.textLen + |LinkMid| + m.midLen + |CfiOpen| }
  function MatchEnd(m: LinkMatch): nat { CfiStart(m) + m.cfiLen + |CfiClose| }

  /** group(0): the whole Markdown link. */
  function WholeLink(s: string, m: LinkMatch): string
    requires IsLinkMatch(s, m)
  {
    s[m.start..MatchEnd(m)]
  }

  /** group(1): the link text. */
  function LinkText(s: string, m: LinkMatch): string
    requires IsLinkMatch(s, m)
  {
    s[m.start + 1..m.start + 1 + m.textLen]
  }

  /** group(2): the calibre:// URL. */
  function LinkUrl(s: string, m: LinkMatch): string
    requires IsLinkMatch(s, m)
  {
    s[UrlStart(m)..MatchEnd(m) - 1]
  }

  /** group(3): the percent-encoded CFI. */
  function EncodedCfi(s: string, m: LinkMatch): string
    requires IsLinkMatch(s, m)
  {
    s[CfiStart(m)..CfiStart(m) + m.cfiLen]
  }

  /** re.search reports one match: the engine's order is total on distinct matches. */
  lemma FirstLinkMatchUnique(s: string, m1: LinkMatch, m2: LinkMatch)
    requires FirstLinkMatch(s, m1) && FirstLinkMatch(s, m2)
    ensures m1 == m2
  {
    assert !Earlier(m1, m2) && !Earlier(m2, m1);
  }

  /** The fixed text around the groups of a match. */
  lemma OpenBracketAt(s: string, m: LinkMatch)
    requires IsLinkMatch(s, m)
    ensures s[m.start..m.start + 1] == "["
  {
  }

  lemma LinkMidAt(s: string, m: LinkMatch)
    requires IsLinkMatch(s, m)
    ensures s[m.start + 1 + m.textLen..UrlStart(m)] == "]("
    ensures s[UrlStart(m)..UrlStart(m) + 10] == "calibre://"
  {
    var p := m.start + 1 + m.textLen;
    OccursAtSlice(s, LinkMid, p);
    assert s[p..p + 2] == s[p..p + |LinkMid|][..2];
    assert s[p + 2..p + 12] == s[p..p + |LinkMid|][2..];
  }

  lemma CfiOpenAt(s: string, m: LinkMatch)
    requires IsLinkMatch(s, m)
    ensures s[UrlStart(m) + 10 + m.midLen..CfiStart(m)] == CfiOpen
  {
    OccursAtSlice(s, CfiOpen, UrlStart(m) + 10 + m.midLen);
  }

  lemma CfiCloseAt(s: string, m: LinkMatch)
    requires IsLinkMatch(s, m)
    ensures s[CfiStart(m) + m.cfiLen..MatchEnd(m) - 1] == "%29"
    ensures s[MatchEnd(m) - 1..MatchEnd(m)] == ")"
  {
    var c := CfiStart(m) + m.cfiLen;
    OccursAtSlice(s, CfiClose, c);
    assert s[c..c + 3] == s[c..c + |CfiClose|][..3];
    assert s[c + 3..c + 4] == s[c..c + |CfiClose|][3..];
  }

  lemma JoinPieces(s: string, i: nat, j: nat, k: nat, l: nat, n: nat, o: nat, a: string, b: string, c: string)
    requires i <= j <= k <= l <= n <= o <= |s|
    requires s[i..j] == a && s[k..l] == b && s[n..o] == c
    ensures s[i..o] == a + s[j..k] + b + s[l..n] + c
  {
    SliceSplit5(s, i, j, k, l, n, o);
  }

  /** group(0) is group(1) in brackets followed by group(2) in parentheses. */
  lemma WholeLinkParts(s: string, m: LinkMatch)
    requires IsLinkMatch(s, m)
    ensures WholeLink(s, m) == "[" + LinkText(s, m) + "](" + LinkUrl(s, m) + ")"
  {
    OpenBracketAt(s, m);
    LinkMidAt(s, m);
    CfiCloseAt(s, m);
    JoinPieces(s, m.start, m.start + 1, m.start + 1 + m.textLen, UrlStart(m), MatchEnd(m) - 1, MatchEnd(m), "[", "](", ")");
  }

  /** group(2) is the calibre:// URL, ending in the encoded CFI (group 3)
      wrapped in open_at=epubcfi%28 ... %29. */
  lemma LinkUrlShape(s: string, m: LinkMatch)
    requires IsLinkMatch(s, m)
    ensures LinkUrl(s, m) == "calibre://" + s[UrlStart(m) + 10..UrlStart(m) + 10 + m.midLen] + CfiOpen + EncodedCfi(s, m) + "%29"
  {
    LinkMidAt(s, m);
    CfiOpenAt(s, m);
    CfiCloseAt(s, m);
    JoinPieces(s, UrlStart(m), UrlStart(m) + 10, UrlStart(m) + 10 + m.midLen, CfiStart(m), CfiStart(m) + m.cfiLen,
               MatchEnd(m) - 1, "calibre://", CfiOpen, "%29");
  }

  lemma NoNewlineExtend(s: string, i: nat, j: nat)
    requires i <= j < |s| && NoNewline(s, i, j) && s[j] != '\n'
    ensures NoNewline(s, i, j + 1)
  {
  }

  // The engine matches a lazy run `.*?` followed by the rest of the
  // pattern by trying the rest after 0, 1, 2, ... characters, and gives up
  // at a newline or at the end of the text. LazyRun is that search, for any
  // rest of the pattern; the three runs of the link pattern are instances.

  /** The shortest run of at least b characters from position q, none of
      them a newline, after which tail succeeds, with what tail found. */
  function LazyRun<R>(s: string, q: nat, b: nat, tail: nat -> Option<R>): Option<(nat, R)>
    decreases |s| - (q + b)
  {
    if q + b > |s| then None
    else match tail(q + b)
      case Some(r) => Some((b, r))
      case None => if q + b < |s| && s[q + b] != '\n' then LazyRun(s, q, b + 1, tail) else None
  }

  /** What LazyRun finds is a run of non-newline characters after which
      tail succeeds. */
  lemma {:induction false} LazyRunSound<R>(s: string, q: nat, b: nat, tail: nat -> Option<R>)
    requires NoNewline(s, q, q + b)
    ensures LazyRun(s, q, b, tail).Some? ==>
      var v := LazyRun(s, q, b, tail).value;
      b <= v.0 && q + v.0 <= |s| && NoNewline(s, q, q + v.0) && tail(q + v.0) == Some(v.1)
    decreases |s| - (q + b)
  {
    if q + b < |s| && tail(q + b).None? && s[q + b] != '\n' {
      NoNewlineExtend(s, q, q + b);
      LazyRunSound(s, q, b + 1, tail);
    }
  }

  /** The run LazyRun finds from q, and the result of tail after it. */
  lemma LazyRunFound<R>(s: string, q: nat, tail: nat -> Option<R>, b: nat, r: R)
    requires LazyRun(s, q, 0, tail) == Some((b, r))
    ensures q + b <= |s| && NoNewline(s, q, q + b) && tail(q + b) == Some(r)
  {
    LazyRunSound(s, q, 0, tail);
  }

  /** Whenever tail succeeds after a run of b' characters free of newlines,
      LazyRun finds a run no longer than b', and for that very run the same
      result of tail. */
  lemma {:induction false} LazyRunFirst<R>(s: string, q: nat, b: nat, tail: nat -> Option<R>, b': nat)
    requires b <= b' && q + b' <= |s| && NoNewline(s, q, q + b') && tail(q + b').Some?
    ensures LazyRun(s, q, b, tail).Some? && LazyRun(s, q, b, tail).value.0 <= b'
    ensures LazyRun(s, q, b, tail).value.0 == b' ==> LazyRun(s, q, b, tail).value.1 == tail(q + b').value
    decreases b' - b
  {
    if b < b' && tail(q + b).None? {
      assert s[q + b] != '\n';
      LazyRunFirst(s, q, b + 1, tail, b');
    }
  }

  /** The rest of the pattern after group 3: %29\). */
  function CloseTail(s: string): nat -> Option<()> {
    (x: nat) => if OccursAt(s, CfiClose, x) then Some(()) else None
  }

  /** Group 3 of a match whose group 3 starts at cs. */
  function ScanCfi(s: string, cs: nat): Option<nat> {
    match LazyRun(s, cs, 0, CloseTail(s))
    case Some(v) => Some(v.0)
    case None => None
  }

  lemma ScanCfiSound(s: string, cs: nat)
    ensures ScanCfi(s, cs).Some? ==> CfiOk(s, cs, ScanCfi(s, cs).value)
  {
    LazyRunSound(s, cs, 0, CloseTail(s));
  }

  /** Whenever some group 3 completes the match, ScanCfi finds one no longer. */
  lemma ScanCfiFirst(s: string, cs: nat, c': nat)
    requires CfiOk(s, cs, c')
    ensures ScanCfi(s, cs).Some? && ScanCfi(s, cs).value <= c'
  {
    LazyRunFirst(s, cs, 0, CloseTail(s), c');
  }

  /** The rest of the pattern after the middle run: open_at=epubcfi%28(.*?)%29\). */
  function MidTail(s: string): nat -> Option<nat> {
    (x: nat) => if OccursAt(s, CfiOpen, x) then ScanCfi(s, x + |CfiOpen|) else None
  }

  /** The (middle run, group 3) pair of a match whose URL tail starts at q. */
  function ScanMid(s: string, q: nat): Option<(nat, nat)> {
    LazyRun(s, q, 0, MidTail(s))
  }

  lemma ScanMidSound(s: string, q: nat)
    ensures ScanMid(s, q).Some? ==> MidOk(s, q, ScanMid(s, q).value.0, ScanMid(s, q).value.1)
  {
    var r := ScanMid(s, q);
    if r.Some? {
      MidFound(s, q, r.value.0, r.value.1);
    }
  }

  lemma MidFound(s: string, q: nat, b: nat, c: nat)
    requires ScanMid(s, q) == Some((b, c))
    ensures MidOk(s, q, b, c)
  {
    LazyRunFound(s, q, MidTail(s), b, c);
    MidTailAt(s, q + b);
    ScanCfiSound(s, q + b + |CfiOpen|);
  }

  lemma MidTailAt(s: string, x: nat)
    ensures MidTail(s)(x) == if OccursAt(s, CfiOpen, x) then ScanCfi(s, x + |CfiOpen|) else None
  {
  }

  /** Whenever some pair completes the match, ScanMid finds one, and none
      after it in the engine's order. */
  lemma ScanMidFirst(s: string, q: nat, b': nat, c': nat)
    requires MidOk(s, q, b', c')
    ensures ScanMid(s, q).Some? && !Before2(b', c', ScanMid(s, q).value.0, ScanMid(s, q).value.1)
  {
    ScanCfiFirst(s, q + b' + |CfiOpen|, c');
    LazyRunFirst(s, q, 0, MidTail(s), b');
  }

  /** The rest of the pattern after group 1: ](calibre://.*?open_at=... */
  function TextTail(s: string): nat -> Option<(nat, nat)> {
    (x: nat) => if OccursAt(s, LinkMid, x) then ScanMid(s, x + |LinkMid|) else None
  }

  /** The (group 1, (middle run, group 3)) lengths of a match whose opening
      bracket is at p. */
  function ScanText(s: string, p: nat): Option<(nat, (nat, nat))> {
    LazyRun(s, p + 1, 0, TextTail(s))
  }

  lemma ScanTextSound(s: string, p: nat)
    ensures ScanText(s, p).Some? ==>
      var v := ScanText(s, p).value;
      TextOk(s, p, v.0, v.1.0, v.1.1)
  {
    var r := ScanText(s, p);
    if r.Some? {
      TextFound(s, p, r.value.0, r.value.1.0, r.value.1.1);
    }
  }

  lemma TextFound(s: string, p: nat, a: nat, b: nat, c: nat)
    requires ScanText(s, p) == Some((a, (b, c)))
    ensures TextOk(s, p, a, b, c)
  {
    LazyRunFound(s, p + 1, TextTail(s), a, (b, c));
    TextTailAt(s, p + 1 + a);
    MidFound(s, p + 1 + a + |LinkMid|, b, c);
  }

  lemma TextTailAt(s: string, x: nat)
    ensures TextTail(s)(x) == if OccursAt(s, LinkMid, x) then ScanMid(s, x + |LinkMid|) else None
  {
  }

  /** Whenever a match has its bracket at p, ScanText finds one, and none
      after it in the engine's order. */
  lemma ScanTextFirst(s: string, p: nat, a': nat, b': nat, c': nat)
    requires TextOk(s, p, a', b', c')
    ensures ScanText(s, p).Some?
    ensures !Before3(a', b', c', ScanText(s, p).value.0, ScanText(s, p).value.1.0, ScanText(s, p).value.1.1)
  {
    ScanMidFirst(s, p + 1 + a' + |LinkMid|, b', c');
    LazyRunFirst(s, p + 1, 0, TextTail(s), a');
  }

  /** The first match starting at or after p. */
  function ScanStart(s: string, p: nat): (r: Option<LinkMatch>)
    requires p <= |s|
    ensures r.Some? ==> IsLinkMatch(s, r.value) && p <= r.value.start
    decreases |s| - p
  {
    if p == |s| then None
    else
      ScanTextSound(s, p);
      var t := if s[p] == '[' then ScanText(s, p) else None;
      if t.Some? then Some(LinkMatch(p, t.value.0, t.value.1.0, t.value.1.1))
      else ScanStart(s, p + 1)
  }

  /** Whenever some match starts at p or later, ScanStart finds one, and
      none that the engine tries after it. */
  lemma {:induction false} ScanStartFirst(s: string, p: nat, m: LinkMatch)
    requires p <= |s| && IsLinkMatch(s, m) && p <= m.start
    ensures ScanStart(s, p).Some? && !Earlier(m, ScanStart(s, p).value)
    decreases |s| - p
  {
    var t := if s[p] == '[' then ScanText(s, p) else None;
    if m.start == p {
      ScanTextFirst(s, p, m.textLen, m.midLen, m.cfiLen);
      assert ScanStart(s, p) == Some(LinkMatch(p, t.value.0, t.value.1.0, t.value.1.1));
    } else if t.Some? {
      assert ScanStart(s, p) == Some(LinkMatch(p, t.value.0, t.value.1.0, t.value.1.1));
    } else {
      ScanStartFirst(s, p + 1, m);
      assert ScanStart(s, p) == ScanStart(s, p + 1);
    }
  }

  lemma ScanStartFirstAll(s: string)
    ensures forall m :: IsLinkMatch(s, m) ==> ScanStart(s, 0).Some? && !Earlier(m, ScanStart(s, 0).value)
  {
    forall m | IsLinkMatch(s, m)
      ensures ScanStart(s, 0).Some? && !Earlier(m, ScanStart(s, 0).value)
    {
      ScanStartFirst(s, 0, m);
    }
  }

  /** link_regex.search(s) */
  function SearchLink(s: string): (r: Option<LinkMatch>)
    ensures r.Some? ==> FirstLinkMatch(s, r.value)
    ensures r.None? ==> forall m :: !IsLinkMatch(s, m)
  {
    ScanStartFirstAll(s);
    ScanStart(s, 0)
  }
}
