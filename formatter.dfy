/** format_annotations_to_html (calibre_annotations_html.py, lines 114-273)
    without its file I/O: the per-part reconstruction of the Markdown, the
    header scan, the note rule, the blockquote and the final assembly with
    the stylesheet and the rule pass. */
module Formatter {
  import opened Text
  import opened StringOrder
  import opened Markdown
  import Percent
  import opened Colors
  import opened Annotations

  // ---------------------------------------------------------------------
  // The header scan (lines 176-199)

  /** The line, stripped, starts with a hash. */
  predicate IsHeaderLine(line: string) {
    var t := Strip(line);
    t != [] && t[0] == '#'
  }

  /** Lines the scan consumes: headers and blank lines. */
  predicate Consumed(line: string) {
    IsHeaderLine(line) || IsBlank(line)
  }

  /** Length of the group (#+) of ^(#+)\s*(.*). */
  function HashRun(t: string): (n: nat)
    ensures n <= |t|
    ensures forall i :: 0 <= i < n ==> t[i] == '#'
    ensures n < |t| ==> t[n] != '#'
  {
    if t != [] && t[0] == '#' then 1 + HashRun(t[1..]) else 0
  }

  /** The header level: the number of hashes, capped at 6. */
  function HeaderLevel(line: string): (n: nat)
    requires IsHeaderLine(line)
    ensures 1 <= n <= 6
    ensures n == HashRun(Strip(line)) || (n == 6 && HashRun(Strip(line)) > 6)
  {
    var run := HashRun(Strip(line));
    if run < 6 then run else 6
  }

  /** group(2): what follows the hashes and the whitespace after them. */
  function HeaderText(line: string): string
    requires IsHeaderLine(line)
  {
    var t := Strip(line);
    LStrip(t[HashRun(t)..])
  }

  /** The regex match splits the stripped header line into its hashes, the
      whitespace after them and the header text. */
  lemma HeaderParts(line: string)
    requires IsHeaderLine(line)
    ensures var t := Strip(line); var n := HashRun(t); var text := HeaderText(line);
      n + |text| <= |t| && t[|t| - |text|..] == text && IsBlank(t[n..|t| - |text|])
      && (text == [] || !IsSpace(text[0]))
  {
    var t := Strip(line);
    var n := HashRun(t);
    var u := t[n..];
    var k := LeadingSpaces(u);
    assert HeaderText(line) == u[k..];
    assert t[|t| - |u[k..]|..] == u[k..];
    assert t[n..|t| - |u[k..]|] == u[..k];
  }

  /** "<hN>text</hN>\n" for a header line. */
  function HeaderTag(line: string): string
    requires IsHeaderLine(line)
  {
    var level := NatToString(HeaderLevel(line));
    "<h" + level + ">" + HeaderText(line) + "</h" + level + ">\n"
  }

  /** The tag names one digit, the level. */
  lemma HeaderTagShape(line: string)
    requires IsHeaderLine(line)
    ensures HeaderTag(line) == "<h" + [DigitChar(HeaderLevel(line))] + ">" + HeaderText(line)
      + "</h" + [DigitChar(HeaderLevel(line))] + ">\n"
    ensures '1' <= DigitChar(HeaderLevel(line)) <= '6'
  {
  }

  /** What a consumed line adds to prefix_content. */
  function PrefixLine(line: string): string {
    if IsHeaderLine(line) then HeaderTag(line) else "\n"
  }

  /** first_non_header_line_idx: the number of leading consumed lines. */
  function HeaderCount(lines: seq<string>): (n: nat)
    ensures n <= |lines|
    ensures forall i :: 0 <= i < n ==> Consumed(lines[i])
    ensures n < |lines| ==> !Consumed(lines[n])
    decreases |lines|
  {
    if lines != [] && Consumed(lines[0]) then 1 + HeaderCount(lines[1..]) else 0
  }

  /** prefix_content after consuming the given lines. */
  function PrefixOf(lines: seq<string>): string
    decreases |lines|
  {
    if lines == [] then "" else PrefixOf(lines[..|lines| - 1]) + PrefixLine(lines[|lines| - 1])
  }

  /** The pieces prefix_content is built from, one per consumed line. */
  function PrefixPieces(lines: seq<string>): seq<string> {
    Map(PrefixLine, lines)
  }

  /** Piece i is what line i adds: its header tag or a newline. */
  lemma PrefixPiecesPointwise(lines: seq<string>)
    ensures |PrefixPieces(lines)| == |lines|
    ensures forall k :: 0 <= k < |lines| ==> PrefixPieces(lines)[k] == PrefixLine(lines[k])
  {
    MapPointwise(PrefixLine, lines);
  }

  /** The prefix is its pieces laid end to end. */
  lemma {:induction false} PrefixOfPieces(lines: seq<string>)
    ensures PrefixOf(lines) == Concat(PrefixPieces(lines))
    decreases |lines|
  {
    if lines != [] {
      var init := lines[..|lines| - 1];
      var last := PrefixLine(lines[|lines| - 1]);
      PrefixOfPieces(init);
      ConcatAppend(PrefixPieces(init), [last]);
      assert Concat([last]) == last + Concat([]);
    }
  }

  lemma PrefixOfSnoc(lines: seq<string>, i: nat)
    requires i < |lines|
    ensures PrefixOf(lines[..i + 1]) == PrefixOf(lines[..i]) + PrefixLine(lines[i])
  {
    assert lines[..i + 1][..i] == lines[..i];
  }

  /** How the branches of the loop classify a line by its stripped text. */
  lemma LineKinds(line: string)
    ensures Strip(line) != [] && Strip(line)[0] == '#' ==> Consumed(line) && PrefixLine(line) == HeaderTag(line)
    ensures Strip(line) == [] ==> Consumed(line) && PrefixLine(line) == "\n"
    ensures Strip(line) != [] && Strip(line)[0] != '#' ==> !Consumed(line)
  {
    StripEmptyIffBlank(line);
  }

  /** The loop at lines 179-197. */
  method ScanHeaders(lines: seq<string>) returns (prefix: string, first: nat)
    ensures first == HeaderCount(lines)
    ensures prefix == PrefixOf(lines[..first])
  {
    prefix := "";
    first := 0;
    var i := 0;
    while i < |lines|
      invariant first == i <= HeaderCount(lines)
      invariant prefix == PrefixOf(lines[..i])
    {
      var line := lines[i];
      var trimmed := Strip(line);
      LineKinds(line);
      PrefixOfSnoc(lines, i);
      if trimmed != [] && trimmed[0] == '#' {
        prefix := prefix + HeaderTag(line);
        first := i + 1;
      } else if trimmed == "" && prefix != "" {
        prefix := prefix + "\n";
        first := i + 1;
      } else if trimmed != "" {
        break;
      } else {
        prefix := prefix + "\n";
        first := i + 1;
      }
      i := i + 1;
    }
  }

  /** annotation_content_to_replace: the lines after the consumed ones. */
  function Body(part: string): string {
    var lines := Split(part, '\n');
    Join("\n", lines[HeaderCount(lines)..])
  }

  /** The consumed lines and the body make up the part again: with nothing
      consumed the body is the whole part, with every line consumed it is
      empty, and otherwise the part is the consumed lines, a newline and the
      body. */
  lemma BodyOfPart(part: string)
    ensures var lines := Split(part, '\n'); var n := HeaderCount(lines);
      (n == 0 ==> Body(part) == part)
      && (n == |lines| ==> Body(part) == "")
      && (0 < n < |lines| ==> part == Join("\n", lines[..n]) + "\n" + Body(part))
  {
    var lines := Split(part, '\n');
    var n := HeaderCount(lines);
    assert lines[0..] == lines;
    if 0 < n < |lines| {
      assert lines == lines[..n] + lines[n..];
      JoinAppend("\n", lines[..n], lines[n..]);
    }
  }

  // ---------------------------------------------------------------------
  // The note (lines 210-222)

  const NoteMarker := "<em>Note: </em>"

  /** note_for_blockquote, from the text after the link and the record's
      "notes" value (an absent key reads as ""). */
  function ComposeNote(trailing: string, jsonNote: string): (r: string)
    ensures IsBlank(trailing) ==> r == ""
    ensures !IsBlank(trailing) && IsBlank(jsonNote) ==> r == trailing
    ensures !IsBlank(trailing) && !IsBlank(jsonNote) ==>
      r == trailing[..LeadingSpaces(trailing)] + NoteMarker + trailing[LeadingSpaces(trailing)..]
  {
    var leading := trailing[..LeadingSpaces(trailing)];
    var actual := LStrip(trailing);
    StripEmptyIffBlank(jsonNote);
    StripEmptyIffBlank(actual);
    LStripBlank(trailing);
    if jsonNote != "" && Strip(jsonNote) != "" && Strip(actual) != "" then leading + NoteMarker + actual
    else if Strip(actual) != "" then trailing
    else ""
  }

  /** The marker only sits between the leading whitespace and the rest:
      removing it gives back the text after the link. */
  lemma NoteMarkerRemoved(trailing: string, jsonNote: string)
    requires !IsBlank(trailing) && !IsBlank(jsonNote)
    ensures var r := ComposeNote(trailing, jsonNote); var k := LeadingSpaces(trailing);
      |r| == |trailing| + |NoteMarker| && r[k..k + |NoteMarker|] == NoteMarker
      && r[..k] + r[k + |NoteMarker|..] == trailing
  {
    CutOut(trailing, LeadingSpaces(trailing), NoteMarker);
  }

  // ---------------------------------------------------------------------
  // The blockquote (lines 202-232)

  /** The blockquote colour: the style's "which" value, "default" only when
      the style or its "which" key is absent; the value is used as it is, unsanitised. */
  function BlockColor(a: Annotation): (c: string)
    ensures a.style.None? ==> c == "default"
    ensures a.style.Some? && a.style.value.which.None? ==> c == "default"
    ensures a.style.Some? && a.style.value.which.Some? ==> c == a.style.value.which.value
  {
    match a.style
    case None => "default"
    case Some(st) => st.which.GetOr("default")
  }

  function HtmlLink(url: string, text: string): string {
    "<a href=\"" + url + "\">" + text + "</a>"
  }

  /** blockquote_inner_content */
  function BlockquoteInner(highlighted: string, link: string, note: string): string {
    var inner := highlighted + "\n" + link;
    if Strip(note) != "" then
      inner + (if note[0] == '\n' then "" else "\n") + RStrip(note)
    else inner
  }

  /** A blank note adds nothing; any other note follows the link after
      exactly one newline, with its trailing whitespace removed. */
  lemma BlockquoteInnerShape(highlighted: string, link: string, note: string)
    ensures IsBlank(note) ==> BlockquoteInner(highlighted, link, note) == highlighted + "\n" + link
    ensures !IsBlank(note) ==> (note != [] &&
      var start := if note[0] == '\n' then 1 else 0;
      BlockquoteInner(highlighted, link, note) == highlighted + "\n" + link + "\n" + RStrip(note)[start..]
      && (note[0] == '\n' ==> RStrip(note)[0] == '\n'))
  {
    StripEmptyIffBlank(note);
    if !IsBlank(note) {
      RStripNotBlank(note);
      var r := RStrip(note);
      var inner := highlighted + "\n" + link;
      assert BlockquoteInner(highlighted, link, note) == inner + (if note[0] == '\n' then "" else "\n") + r;
      if note[0] == '\n' {
        SplitHead(inner, r);
      } else {
        assert r[0..] == r;
      }
    }
  }

  function Blockquote(color: string, inner: string): string {
    "<blockquote class=\"bq-" + color + "\">\n" + inner + "\n</blockquote>"
  }

  /** Line 232: the right-stripped prefix, a blank line only when the prefix
      has text, then the blockquote. */
  function Placement(prefix: string, block: string): (r: string)
    ensures IsBlank(prefix) ==> r == block
    ensures !IsBlank(prefix) ==> r == RStrip(prefix) + "\n\n" + block && RStrip(prefix) != ""
  {
    StripEmptyIffBlank(prefix);
    RStripShape(prefix);
    assert !IsBlank(prefix) ==> RStrip(prefix) != [] by {
      if RStrip(prefix) == [] {
        assert prefix[0..] == prefix;
      }
    }
    RStrip(prefix) + (if Strip(prefix) != "" then "\n\n" else "") + block
  }

  // ---------------------------------------------------------------------
  // One part (lines 148-232)

  /** re.search reports the first match in the engine's order, whichever
      way that match is characterised. */
  lemma SearchLinkIsFirst(s: string)
    ensures forall m :: FirstLinkMatch(s, m) ==> SearchLink(s) == Some(m)
  {
    forall m | FirstLinkMatch(s, m) ensures SearchLink(s) == Some(m) {
      FirstLinkMatchUnique(s, m, SearchLink(s).value);
    }
  }

  /** The replacement for a part whose link names the record ann. */
  function Reconstruct(part: string, m: LinkMatch, ann: Annotation): string
    requires IsLinkMatch(part, m)
  {
    var lines := Split(part, '\n');
    var first := HeaderCount(lines);
    var prefix := PrefixOf(lines[..first]);
    var link := HtmlLink(LinkUrl(part, m), LinkText(part, m));
    var trailing := AfterFirst(Body(part), WholeLink(part, m));
    var note := ComposeNote(trailing, ann.notes.GetOr(""));
    Placement(prefix, Blockquote(BlockColor(ann), BlockquoteInner(ann.highlightedText.GetOr(""), link, note)))
  }

  /** What the loop appends for one part of the split. */
  function RenderedPart(part: string, index: map<string, Annotation>): string {
    if HasDelim(part) then part
    else match SearchLink(part)
      case None => part
      case Some(m) =>
        match Percent.PercentDecode(EncodedCfi(part, m))
        case None => part
        case Some(cfi) => if cfi in index then Reconstruct(part, m, index[cfi]) else part
  }

  /** A part is left as it is unless it is text, holds a link, the link's
      CFI decodes and names a known record; then it is reconstructed from
      the first link in the engine's order. */
  lemma RenderedPartCases(part: string, index: map<string, Annotation>)
    ensures HasDelim(part) ==> RenderedPart(part, index) == part
    ensures (forall m :: !IsLinkMatch(part, m)) ==> RenderedPart(part, index) == part
    ensures forall m :: FirstLinkMatch(part, m) && Percent.PercentDecode(EncodedCfi(part, m)).None? ==> RenderedPart(part, index) == part
    ensures forall m :: (FirstLinkMatch(part, m) && Percent.PercentDecode(EncodedCfi(part, m)).Some?
                         && Percent.PercentDecode(EncodedCfi(part, m)).value !in index) ==> RenderedPart(part, index) == part
    ensures forall m :: (!HasDelim(part) && FirstLinkMatch(part, m) && Percent.PercentDecode(EncodedCfi(part, m)).Some?
                         && Percent.PercentDecode(EncodedCfi(part, m)).value in index) ==>
      RenderedPart(part, index) == Reconstruct(part, m, index[Percent.PercentDecode(EncodedCfi(part, m)).value])
  {
    SearchLinkIsFirst(part);
  }

  /** The body of the loop at lines 148-232 for one part. */
  method RenderPart(part: string, index: map<string, Annotation>) returns (r: string)
    ensures r == RenderedPart(part, index)
  {
    if HasDelim(part) {
      return part;
    }
    var linkMatch := SearchLink(part);
    if linkMatch.None? {
      return part;
    }
    var m := linkMatch.value;
    var decoded := Percent.PercentDecode(EncodedCfi(part, m));
    if decoded.None? {
      return part;
    }
    if decoded.value !in index {
      return part;
    }
    var ann := index[decoded.value];
    var lines := Split(part, '\n');
    var prefix, first := ScanHeaders(lines);
    var body := Join("\n", lines[first..]);
    var color := BlockColor(ann);
    var highlighted := ann.highlightedText.GetOr("");
    var htmlLink := HtmlLink(LinkUrl(part, m), LinkText(part, m));
    var trailing := AfterFirst(body, WholeLink(part, m));
    var note := ComposeNote(trailing, ann.notes.GetOr(""));
    var inner := highlighted + "\n" + htmlLink;
    if Strip(note) != "" {
      inner := inner + (if note[0] == '\n' then "" else "\n") + RStrip(note);
    }
    var block := "<blockquote class=\"bq-" + color + "\">\n" + inner + "\n</blockquote>";
    r := RStrip(prefix) + (if Strip(prefix) != "" then "\n\n" else "") + block;
  }

  /** new_markdown_parts after the loop over the given parts. */
  function RenderedParts(parts: seq<string>, index: map<string, Annotation>): seq<string> {
    Map(part => RenderedPart(part, index), parts)
  }

  /** Exactly one output part per input part, in order. */
  lemma RenderedPartsPointwise(parts: seq<string>, index: map<string, Annotation>)
    ensures |RenderedParts(parts, index)| == |parts|
    ensures forall k :: 0 <= k < |parts| ==> RenderedParts(parts, index)[k] == RenderedPart(parts[k], index)
  {
    MapPointwise(part => RenderedPart(part, index), parts);
  }

  /** The loop at lines 148-232: new_markdown_parts for the parts of the split. */
  method RenderParts(parts: seq<string>, index: map<string, Annotation>) returns (newParts: seq<string>)
    ensures newParts == RenderedParts(parts, index)
  {
    newParts := [];
    for i := 0 to |parts|
      invariant newParts == RenderedParts(parts[..i], index)
    {
      assert parts[..i + 1][..i] == parts[..i];
      var rendered := RenderPart(parts[i], index);
      newParts := newParts + [rendered];
    }
    assert parts[..|parts|] == parts;
  }

  /** With an empty index no part is reconstructed, so the parts joined
      again are the Markdown text itself. */
  lemma UnindexedPassThrough(markdown: string)
    ensures Concat(RenderedParts(SplitKeep(markdown), map[])) == markdown
  {
    var parts := SplitKeep(markdown);
    RenderedPartsPointwise(parts, map[]);
    assert RenderedParts(parts, map[]) == parts;
    SplitKeepSpec(markdown);
  }

  // ---------------------------------------------------------------------
  // The whole transformation (lines 114-273)

  /** The errors format_annotations_to_html raises (all as ValueError). */
  datatype FormatError =
    | EmptyJson                      // line 115
    | InvalidJson(snippet: string)   // line 121, with the first 100 characters
    | MissingAnnotations             // line 128

  /** The first 100 characters of the JSON text, quoted in the error. */
  function Snippet(s: string): (r: string)
    ensures |r| == (if |s| < 100 then |s| else 100) && r == s[..|r|]
  {
    if |s| < 100 then s else s[..100]
  }

  /** The output for a record list and a Markdown text. */
  ghost function Rendered(anns: seq<Annotation>, markdown: string): string {
    var index := IndexOf(anns);
    var colors := SortedOf(FinalColors(ColorsOf(anns), index != map[]));
    ReplaceDelims(Join("\n", StyleLines(colors)) + "\n" + Concat(RenderedParts(SplitKeep(markdown), index)))
  }

  /** format_annotations_to_html on a JSON text and a Markdown text.
      decoded is what json.loads returns for jsonText: None when it raises
      JSONDecodeError. */
  method FormatAnnotationsToHtml(jsonText: string, decoded: Option<JsonDocument>, markdown: string)
    returns (r: Result<string, FormatError>)
    ensures IsBlank(jsonText) ==> r == Err(EmptyJson)
    ensures !IsBlank(jsonText) && decoded.None? ==> r == Err(InvalidJson(Snippet(jsonText)))
    ensures !IsBlank(jsonText) && decoded.Some? && AnnotationList(decoded.value).None? ==> r == Err(MissingAnnotations)
    ensures !IsBlank(jsonText) && decoded.Some? && AnnotationList(decoded.value).Some? ==>
      r == Ok(Rendered(AnnotationList(decoded.value).value, markdown))
  {
    StripEmptyIffBlank(jsonText);
    if Strip(jsonText) == "" {
      return Err(EmptyJson);
    }
    if decoded.None? {
      return Err(InvalidJson(Snippet(jsonText)));
    }
    var data := decoded.value;
    var annotationList := data.annotations;
    if annotationList.None? {
      annotationList := data.highlights;
    }
    if annotationList.None? {
      return Err(MissingAnnotations);
    }
    var anns := annotationList.value;
    var index, usedColors := BuildIndex(anns);

    var newParts := RenderParts(SplitKeep(markdown), index);
    var finalMarkdown := Concat(newParts);

    if usedColors == {} && index != map[] {
      usedColors := usedColors + {"default"};
    }
    assert usedColors == FinalColors(ColorsOf(anns), index != map[]);
    var sortedColors := SortStrings(usedColors);
    SortedUnique(sortedColors, SortedOf(usedColors));
    var styleLines := EmitStyleLines(sortedColors);
    var output := Join("\n", styleLines) + "\n" + finalMarkdown;
    output := ReplaceDelims(output);
    assert anns == AnnotationList(decoded.value).value;
    assert output == Rendered(anns, markdown);
    return Ok(output);
  }
}
