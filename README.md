# Calibre annotations to HTML, modelled in Dafny

This project models `format_annotations_to_html` from
`calibre_annotations_html.py` together with its two pure colour helpers,
`sanitize_color` and `color_contrasting`. The function takes the JSON
export of a reader's Calibre highlights and a Markdown document whose
highlight fragments link back to the book through `calibre://` URLs. It
returns the document with each matched fragment rewritten as a coloured
`<blockquote>`, a stylesheet for the colours in front, and every `---`
rule turned into `<hr>`.

The model has seven modules. Each is one `.dfy` file, verified together.

| file | module | contents |
|---|---|---|
| `text.dfy` | `Text` | Python string built-ins as functions: `strip`/`lstrip`/`rstrip`, `split`, `join`, `split(t, 1)[-1]`, `str()` of an int. Also the `\s` class and generic `Map`/`FlatMap`. |
| `order.dfy` | `StringOrder` | Python's `<` on `str`, and `sorted()` of a set of strings as a pick-the-least loop. |
| `percent.dfy` | `Percent` | `urllib.parse.unquote` on ASCII `%XX` escapes (section 2.1 of RFC 3986) and the matching `quote`. |
| `markdown.dfy` | `Markdown` | Hand-written scanners for the two fixed regular expressions: the rule delimiter `\n-{3,}\n` (used by `re.split`, `re.search`, `re.sub`) and the Calibre link pattern (used by `re.search`). |
| `colors.dfy` | `Colors` | `sanitize_color`, `color_contrasting`, and the stylesheet loop with its palette tables. |
| `annotations.dfy` | `Annotations` | The annotation records (every JSON key optional) and the loop that builds the CFI index and the colour set. |
| `formatter.dfy` | `Formatter` | The per-part loop: the header scan, the note rule, the blockquote, placement. Also the whole function with its three error cases. |

## How the code is modelled

The imperative loops are methods. Each is proved against a function that
states what it computes:

- The index loop (`Annotations.BuildIndex`) against `IndexOf` and `ColorsOf`.
- The per-part loop (`Formatter.RenderParts`) against `RenderedParts`.
  Its body, `Formatter.RenderPart`, is proved against `RenderedPart`.
- The header loop (`Formatter.ScanHeaders`) against `HeaderCount` and `PrefixOf`.
- The colour loop (`Colors.EmitStyleLines`) against `StyleLines`.
- `sorted()` (`StringOrder.SortStrings`) against the sortedness and
  membership that determine its result (`SortedUnique`).

The lemmas then state and prove the properties about those functions.

**Regular expressions.** Each regex is a scanner with Python's semantics:

- `.` never matches a newline.
- A lazy `.*?` tries 0, 1, 2, … characters, in that order.
- `re.search` returns the leftmost match. Among the matches at that
  position it returns the first the backtracking engine reaches: the
  shortest group 1, then the shortest middle run, then the shortest group 3.

`Markdown.SearchLink` is proved to return exactly that match (`FirstLinkMatch`).
When there is no match it returns None, and no match exists.

**The delimiter.** It is `\n`, three or more dashes, `\n`. Its dashes are
not newlines, so a match at a given position is unique. `re.split` and
`re.sub` scan left to right without overlaps.

**JSON.** `json.loads` is not modelled. The method takes its result as a
parameter `decoded: Option<JsonDocument>`:

- `None` means `json.loads` raised `JSONDecodeError`.
- A `JsonDocument` holds the `"annotations"` and `"highlights"` values
  when they are lists.
- Each record field is an `Option`, None for an absent key.
- `spine_index` is present only when the JSON value is an `int`.

**Behaviour of the code worth noting:**

- Headers become `<hN>` only inside the prefix of a reconstructed part
  (lines 180-197). The Markdown elsewhere is not rewritten.
- Placement is line 232 alone: the prefix, a blank line when the prefix is
  not blank, and the blockquote. The part is not compared with the
  annotation body.
- The blockquote colour falls back to `"default"` only when the `style`
  object or its `which` key is absent (line 202). An empty `which` gives
  the class `bq-`. The class uses the unsanitised colour. The stylesheet
  uses the sanitised one (line 242).
- For colours outside the palette, the border is the colour itself and
  only the background and link colours fall back (lines 245-250).
- The split keeps each delimiter match as its own part, and the parts are
  the only ones a left-to-right scan produces (`Markdown.SplitFromUnique`).
- `color_contrasting` accepts a signed channel: `int("-f", 16)` is -15, so
  that channel becomes 270 and prints with three digits
  (`Colors.SignedContrast`: `"-f0000"` gives `"#10effff"`).
- `int(…, 16)` skips ASCII space, `\t`..`\r` and non-ASCII whitespace;
  the separators U+001C–U+001F, which `str.isspace()` accepts, are never
  skipped (`Colors.SpaceIsSkipped`, `Colors.SeparatorIsNotSpace`).

## Model

| member | source | states |
|---|---|---|
| Text.LeadingSpaces | calibre_annotations_html.py:215 | `^\s*` matches the longest all-whitespace prefix: every character in it is whitespace, and the next is not |
| Text.StripEmptyIffBlank | calibre_annotations_html.py:114 | `s.strip()` is empty exactly when every character of `s` is whitespace (both directions) |
| Text.LStripBlank | calibre_annotations_html.py:216-221 | the left-stripped note text is blank exactly when the text after the link is |
| Text.RStripShape | calibre_annotations_html.py:227 | `rstrip` keeps a prefix, leaves no trailing whitespace and removes only whitespace |
| Text.RStripNotBlank | calibre_annotations_html.py:227 | right-stripping a non-blank note keeps its first character, so the `startswith('\n')` test is the same after `rstrip` |
| Text.Split | calibre_annotations_html.py:178 | `part.split('\n')` gives at least one piece, no piece contains a newline, and joining with `\n` gives back the part |
| Text.JoinAppend | calibre_annotations_html.py:199 | joining two non-empty line lists is joining each, with one separator between |
| Text.FindFrom | calibre_annotations_html.py:213 | returns the first occurrence of the link string at or after a position, or None when there is none |
| Text.AfterFirst | calibre_annotations_html.py:213 | `split(link, 1)[-1]` is the text after the first occurrence of the link, or the whole body when the link does not occur |
| Text.ConcatAppend | calibre_annotations_html.py:234 | `"".join` of two lists is the concatenation of their joins |
| Text.NatToString | calibre_annotations_html.py:135 | `str()` of a non-negative int is a non-empty string of decimal digits, with no leading zero unless the number is 0 |
| Text.IntToString | calibre_annotations_html.py:135 | `str()` of an int is non-empty, all digits except a leading minus sign |
| Text.IntToStringValue | calibre_annotations_html.py:135 | `str(i)` is `str(abs(i))`, after `-` when `i` is negative, and reading its digits back gives `abs(i)` |
| Text.NatToStringRoundTrip | calibre_annotations_html.py:135 | reading back the digits `str(n)` prints gives `n` |
| Text.NatToStringInjective | calibre_annotations_html.py:135 | distinct non-negative numbers print differently |
| Text.IntToStringSign | calibre_annotations_html.py:135 | `str(i)` starts with `-` exactly when `i` is negative (both directions) |
| Text.IntToStringInjective | calibre_annotations_html.py:135 | distinct spine numbers print differently |
| StringOrder.BelowIrreflexive | calibre_annotations_html.py:241 | no string sorts before itself |
| StringOrder.BelowTransitive | calibre_annotations_html.py:241 | Python's string order is transitive |
| StringOrder.BelowTotal | calibre_annotations_html.py:241 | any two distinct strings are ordered one way or the other |
| StringOrder.BelowAsymmetric | calibre_annotations_html.py:241 | two strings are never each before the other |
| StringOrder.LeastExists | calibre_annotations_html.py:241 | a finite non-empty set of colours has a least element |
| StringOrder.SortedUnique | calibre_annotations_html.py:241 | two strictly ascending lists with the same members are equal, so `sorted(list(used_colors))` depends only on the set |
| StringOrder.SortedExists | calibre_annotations_html.py:241 | every finite set of strings has a strictly ascending listing |
| StringOrder.SortedOf | calibre_annotations_html.py:241 | `sorted(list(s))` is strictly ascending and holds exactly the members of `s` |
| StringOrder.SortStrings | calibre_annotations_html.py:241 | the sorting loop returns a strictly ascending list holding exactly the colours of the set |
| Percent.PercentDecode | calibre_annotations_html.py:161 | a decoded CFI is never longer than the encoded one |
| Percent.DecodeEncode | calibre_annotations_html.py:161 | decoding the percent-encoding of any ASCII CFI gives it back |
| Percent.DecodeWithoutPercent | calibre_annotations_html.py:161 | a CFI without `%` decodes to itself |
| Percent.DecodeFailsIffHighEscape | calibre_annotations_html.py:161-165 | decoding fails, taking the pass-through branch, exactly when some `%XX` escape has a value of 0x80 or more (both directions) |
| Colors.SanitizeColor | calibre_annotations_html.py:32 | the result is no longer than the colour and holds only `[a-zA-Z0-9-]` |
| Colors.SanitizeChar | calibre_annotations_html.py:32 | a single character is kept when it is in `[a-zA-Z0-9-]` and dropped otherwise |
| Colors.SanitizeAppend | calibre_annotations_html.py:32 | sanitizing keeps the allowed characters in their original order: it distributes over concatenation |
| Colors.SanitizeFixedIff | calibre_annotations_html.py:32 | a colour is unchanged by sanitizing exactly when it holds only allowed characters (both directions) |
| Colors.SanitizeIdempotent | calibre_annotations_html.py:32 | sanitizing twice is sanitizing once |
| Colors.StripHashes | calibre_annotations_html.py:43 | `lstrip("#")` returns a suffix that does not start with `#`, and every character it removed is a `#` |
| Colors.DropLeadingIntSpace | calibre_annotations_html.py:44 | the whitespace `int()` skips in front of a number: a suffix, all removed characters whitespace, the rest not starting with whitespace |
| Colors.DropTrailingIntSpace | calibre_annotations_html.py:44 | the whitespace `int()` skips after a number: a prefix, all removed characters whitespace, the rest not ending with whitespace |
| Colors.ParseHexChannel | calibre_annotations_html.py:44 | `int(slice, 16)` of a channel slice of at most two characters is None (ValueError) or lies in -15..255 |
| Colors.ParseHexNumber | calibre_annotations_html.py:44 | `int(…, 16)` of a channel with its whitespace removed is None (ValueError) or lies in -15..255 |
| Colors.ParseHexPair | calibre_annotations_html.py:44 | two hex digits parse to 16 times the first plus the second |
| Colors.SpaceIsSkipped | calibre_annotations_html.py:44 | a space next to a digit is skipped: `" A"` parses to 10 |
| Colors.SeparatorIsNotSpace | calibre_annotations_html.py:44 | U+001C next to a digit is not skipped: the channel raises |
| Colors.HexLower | calibre_annotations_html.py:46 | hex printing gives at least one lower-case hex digit, with no leading zero unless the value is 0 |
| Colors.HexLowerValue | calibre_annotations_html.py:46 | reading back the printed hex digits gives the value, and a value of 16 or more has no leading zero |
| Colors.Format02x | calibre_annotations_html.py:46 | `{:02x}` gives lower-case hex digits that read back as the value: two digits, or more with no leading zero; for a value below 256 exactly its two digits |
| Colors.ContrastChannel | calibre_annotations_html.py:44-46 | a channel raises (None) exactly when `int(slice, 16)` does, and otherwise prints as two or more lower-case hex digits whose value is 255 minus the parsed value, signed slices included |
| Colors.Channel | calibre_annotations_html.py:44-46 | a two-hex-digit channel `c` becomes `255 - c`: each digit is complemented and printed in lower case |
| Colors.ContrastHex | calibre_annotations_html.py:44-47 | after the `#`s are removed, the result is None exactly when `int(…, 16)` raises on one of the three channel slices, and otherwise `#` followed by at least six lower-case hex digits |
| Colors.ColorContrasting | calibre_annotations_html.py:43-47 | `color_contrasting` raises (None) exactly when a channel slice of the `#`-stripped colour does not parse, and otherwise returns `#` followed by at least six lower-case hex digits |
| Colors.ShortColorRaises | calibre_annotations_html.py:43-44 | `color_contrasting("#fff")` raises, since its third slice is empty |
| Colors.ComplementPair | calibre_annotations_html.py:45-46 | 255 minus the value of two hex digits prints as their two complemented digits |
| Colors.SignedChannel | calibre_annotations_html.py:44-46 | the slice `"-f"` is -15, and its channel prints as the three digits `10e` |
| Colors.SignedContrast | calibre_annotations_html.py:43-47 | `color_contrasting("-f0000")` is `"#10effff"`: seven digits, not a colour |
| Colors.ContrastHex6 | calibre_annotations_html.py:43-47 | on six hex digits the result is `#` followed by the digit-wise complement |
| Colors.Complement6Twice | calibre_annotations_html.py:43-47 | complementing six hex digits twice lowers them |
| Colors.ContrastingShape | calibre_annotations_html.py:43-47 | for a valid 6-digit colour the result is `#` and exactly six lower-case hex digits |
| Colors.ContrastingTwice | calibre_annotations_html.py:43-47 | for a valid 6-digit colour, applying `color_contrasting` twice gives `#` and the colour in lower case |
| Colors.Background | calibre_annotations_html.py:246-249 | the background is `#f5f5f5` exactly for colours outside the table |
| Colors.LinkColor | calibre_annotations_html.py:247-250 | the link colour is `#333333` exactly for colours other than yellow, blue, green and red |
| Colors.BorderColor | calibre_annotations_html.py:245 | the border is `#cccccc` for `default` and the colour itself otherwise |
| Colors.RuleLines | calibre_annotations_html.py:252-269 | the sixteen lines of the three rules `.bq-c`, `.bq-c a` and `.bq-c em` for one sanitised colour |
| Colors.StyleLines | calibre_annotations_html.py:237-270 | the opening lines, the rules of each colour that sanitises to something non-empty, and `</style>\n` |
| Colors.RulesForMembers | calibre_annotations_html.py:241-269 | each rule line comes from a colour that sanitizes to something non-empty, and every such colour contributes all its rule lines (both directions) |
| Colors.RulesForStep | calibre_annotations_html.py:241-269 | one more colour appends its rules, or nothing for a colour that sanitizes to empty |
| Colors.FinalColors | calibre_annotations_html.py:238-239 | `default` is in the final set exactly when it was used or no colour was used and the index is non-empty; no other colour changes |
| Colors.EmitStyleLines | calibre_annotations_html.py:237-270 | the loop yields the opening lines, the rules of each sanitized non-empty colour in the given order, and the closing line |
| Annotations.AnnotationList | calibre_annotations_html.py:123-127 | `"annotations"` wins when it is a list, `"highlights"` is the fallback, and the list is missing exactly when neither is a list |
| Annotations.Key | calibre_annotations_html.py:135 | the key is `/`, the printed spine number and the CFI: it starts with `/` and ends with the CFI |
| Annotations.IndexOf | calibre_annotations_html.py:132-136 | the index after inserting each indexed record in order, later records replacing earlier ones |
| Annotations.ColorsOf | calibre_annotations_html.py:137-138 | the set of truthy `style.which` values of the indexed records |
| Annotations.BuildIndex | calibre_annotations_html.py:129-138 | the loop builds the index of inserting the records in order and the colour set collected alongside |
| Annotations.IndexOfKeys | calibre_annotations_html.py:132-136 | the index keys are exactly the keys `"/" + str(2*s+2) + start_cfi` of records with a truthy `start_cfi` and an integer `spine_index` (both directions) |
| Annotations.IndexOfLastWins | calibre_annotations_html.py:136 | a key maps to the last indexed record carrying it |
| Annotations.IndexOfValues | calibre_annotations_html.py:132-136 | every index value is an indexed input record filed under its own key |
| Annotations.ColorsOfIff | calibre_annotations_html.py:137-138 | `used_colors` is exactly the set of truthy `style.which` values of indexed records (both directions) |
| Annotations.ColorsNeedIndex | calibre_annotations_html.py:137-138 | a non-empty colour set implies a non-empty index |
| Annotations.KeyInjective | calibre_annotations_html.py:135 | for CFIs not starting with a digit, equal keys mean equal spine index and CFI |
| Markdown.DashRun | calibre_annotations_html.py:141 | the dash run starting at a position is maximal: all dashes, ended by a non-dash or the end of the text |
| Markdown.DelimAtIff | calibre_annotations_html.py:141 | the delimiter matches at `i` ending at `e` exactly when `s[i..e]` is a newline, three or more dashes and a newline (both directions) |
| Markdown.NextDelim | calibre_annotations_html.py:142 | the scan returns the leftmost delimiter match at or after a position, or the end of the text |
| Markdown.HasDelimIff | calibre_annotations_html.py:149 | the `re.search` test succeeds exactly when the delimiter matches somewhere in the part (both directions) |
| Markdown.NoDelimInGap | calibre_annotations_html.py:142 | a stretch between matches contains no match of its own |
| Markdown.SplitFromSpec | calibre_annotations_html.py:142 | splitting from a position keeps every character, and the parts alternate text and whole delimiter matches, beginning and ending with text |
| Markdown.SplitKeep | calibre_annotations_html.py:141-142 | `re.split` with the delimiter as a capture group: text, match, text, … |
| Markdown.SplitKeepSpec | calibre_annotations_html.py:142 | `re.split` keeps every character: joining its parts gives back the Markdown, parts alternate text without a delimiter and a delimiter, and each part is where the left-to-right scan puts it |
| Markdown.SplitFromLeftmost | calibre_annotations_html.py:142 | every delimiter part is the match at its own position, and no match starts anywhere inside a text part |
| Markdown.LeftmostUnique | calibre_annotations_html.py:142 | two splits of the same text in which every part is where the scan puts it are equal |
| Markdown.SplitFromUnique | calibre_annotations_html.py:142 | any such split of the text is the one `re.split` returns |
| Markdown.ReplaceDelims | calibre_annotations_html.py:272-273 | `re.sub` with `\n<hr>\n`: each match of the split replaced, the text between kept |
| Markdown.ReplaceWithoutDelim | calibre_annotations_html.py:273 | the rule pass leaves text without a delimiter unchanged |
| Markdown.ReplaceDelimsLeftmost | calibre_annotations_html.py:273 | for any cut of the text into parts where the scan puts them, the rule pass gives the text parts joined with `\n<hr>\n` in place of each delimiter part |
| Markdown.FirstLinkMatchUnique | calibre_annotations_html.py:153 | at most one match is first in the engine's order |
| Markdown.WholeLinkParts | calibre_annotations_html.py:206-212 | group 0 is `[`, group 1, `](`, group 2 and `)` |
| Markdown.LinkUrlShape | calibre_annotations_html.py:146 | group 2 is `calibre://`, a newline-free run, `open_at=epubcfi%28`, group 3 and `%29` |
| Markdown.LazyRunSound | calibre_annotations_html.py:146 | a lazy `.*?` run that succeeds covers no newline, and the rest of the pattern matches after it |
| Markdown.LazyRunFirst | calibre_annotations_html.py:146 | if the rest of the pattern matches after some newline-free run, the lazy run succeeds with a run no longer than that one, and the same rest when the lengths agree |
| Markdown.ScanCfiSound | calibre_annotations_html.py:146 | the group-3 scan returns a newline-free run followed by `%29)` |
| Markdown.ScanCfiFirst | calibre_annotations_html.py:146 | the group-3 scan returns the shortest such run |
| Markdown.ScanMidSound | calibre_annotations_html.py:146 | the scan after `calibre://` returns runs that match the rest of the pattern |
| Markdown.ScanMidFirst | calibre_annotations_html.py:146 | the scan after `calibre://` returns the first such pair in the engine's order |
| Markdown.ScanTextSound | calibre_annotations_html.py:146 | the scan after `[` returns runs that match the rest of the pattern |
| Markdown.ScanTextFirst | calibre_annotations_html.py:146 | the scan after `[` returns the first such triple in the engine's order |
| Markdown.ScanStart | calibre_annotations_html.py:153 | the search from a position returns only real matches that start there or later |
| Markdown.ScanStartFirst | calibre_annotations_html.py:153 | the search from a position finds a match whenever one starts there or later, and none it returns comes after one in the engine's order |
| Markdown.ScanStartFirstAll | calibre_annotations_html.py:153 | the search from the start is never beaten by any match in the engine's order |
| Markdown.SearchLink | calibre_annotations_html.py:153 | `link_regex.search` returns the first match in the engine's order; None exactly when there is no match |
| Formatter.HashRun | calibre_annotations_html.py:184 | `(#+)` takes every leading hash |
| Formatter.HeaderLevel | calibre_annotations_html.py:186 | the level is the number of hashes, capped at 6, and lies in 1..6 |
| Formatter.HeaderParts | calibre_annotations_html.py:184-187 | the stripped header line is its hashes, whitespace and the header text, which does not start with whitespace |
| Formatter.HeaderTagShape | calibre_annotations_html.py:188 | a header line adds `<hN>text</hN>\n` with N the single digit of the level |
| Formatter.HeaderCount | calibre_annotations_html.py:179-197 | the scan consumes the leading header and blank lines and stops at the first line that is neither |
| Formatter.PrefixPiecesPointwise | calibre_annotations_html.py:188-196 | each consumed line adds its header tag, or a newline for a blank line |
| Formatter.PrefixOfPieces | calibre_annotations_html.py:176-197 | the prefix is the pieces of the consumed lines laid end to end |
| Formatter.PrefixOfSnoc | calibre_annotations_html.py:188-196 | consuming one more line appends its piece to the prefix |
| Formatter.LineKinds | calibre_annotations_html.py:181-197 | the loop's branches classify a line by its stripped text the way `Consumed` and `PrefixLine` do |
| Formatter.ScanHeaders | calibre_annotations_html.py:176-197 | the loop returns the number of leading consumed lines and the prefix they build |
| Formatter.BodyOfPart | calibre_annotations_html.py:199 | the consumed lines, a newline and the body give back the part; no consumed line means the body is the whole part, all lines consumed means an empty body |
| Formatter.ComposeNote | calibre_annotations_html.py:211-222 | blank trailing text gives no note; otherwise a blank JSON note keeps the trailing text verbatim, and a non-blank one inserts `<em>Note: </em>` after its leading whitespace |
| Formatter.NoteMarkerRemoved | calibre_annotations_html.py:220 | removing the note marker from the composed note gives back the trailing text |
| Formatter.BlockColor | calibre_annotations_html.py:202 | the colour is `which` when present, `default` when the style or `which` is absent |
| Formatter.BlockquoteInnerShape | calibre_annotations_html.py:225-227 | a blank note adds nothing; otherwise the right-stripped note follows the link after exactly one newline |
| Formatter.Placement | calibre_annotations_html.py:232 | a blank prefix gives just the block; otherwise the right-stripped, non-empty prefix, a blank line and the block |
| Formatter.SearchLinkIsFirst | calibre_annotations_html.py:153 | the search returns whichever match is first in the engine's order |
| Formatter.Reconstruct | calibre_annotations_html.py:176-232 | the header prefix, the blockquote of the record's colour with its text, link and note, put together as line 232 does |
| Formatter.RenderedPart | calibre_annotations_html.py:148-232 | one part of the loop: kept as it is, or reconstructed from its first link and the record its CFI names |
| Formatter.RenderedPartCases | calibre_annotations_html.py:148-232 | delimiter parts, parts without a link, and parts whose CFI does not decode or is not in the index are kept verbatim; otherwise the part is reconstructed from the first link and its record |
| Formatter.RenderPart | calibre_annotations_html.py:148-232 | the loop body appends the part as `RenderedPart` describes |
| Formatter.RenderedPartsPointwise | calibre_annotations_html.py:148-232 | exactly one output part per input part, in order, each rendered on its own |
| Formatter.RenderParts | calibre_annotations_html.py:143-232 | the loop builds `new_markdown_parts` as the rendering of each part in order |
| Formatter.UnindexedPassThrough | calibre_annotations_html.py:148-234 | with an empty index, the joined parts are the Markdown text unchanged |
| Formatter.Snippet | calibre_annotations_html.py:120 | the error snippet is the first 100 characters, or the whole text when it is shorter |
| Formatter.Rendered | calibre_annotations_html.py:129-273 | the stylesheet for the sorted colours, a newline and the rendered parts, after the rule pass |
| Formatter.FormatAnnotationsToHtml | calibre_annotations_html.py:114-273 | a blank JSON text, a decoding failure and a missing record list raise their errors; otherwise the output is the stylesheet for the sorted colours, a newline and the rendered parts, with every delimiter replaced by `<hr>` |

## Left out

- File reading and writing (lines 6-22 and 274 onward): filesystem I/O. The method takes the JSON text and the Markdown text themselves.
- `json.loads` (line 118): a foreign library. Its result is a parameter, so the snippet error depends only on whether decoding failed.
- JSON values of unexpected types: a top-level value that is not an object, list elements that are not objects (line 133 raises AttributeError on them), a `style` that is not an object, a `"notes"` or `"highlighted_text"` that is not a string, a truthy non-string `start_cfi`, a non-string `"which"` on an indexed record (a truthy one is added to `used_colors` at line 138 and the call then raises TypeError: at line 138 for an unhashable value, at line 241 when `sorted()` mixes it with strings, or at line 242 because `re.sub` takes only strings; only a falsy one, which line 137 does not add, reaches the class at line 202 in its printed form, such as `bq-None` for `null`), and `bool` values, which Python's `isinstance(..., int)` accepts as `spine_index`. The records are typed, so these inputs cannot be written.
- JSON `null` values on an indexed record: a null `"highlighted_text"` reaches the f-string at line 225 as the text `None`, and a null `"style"` makes line 202 raise AttributeError. The model reads a null as an absent key, which gives the empty text and the colour `default`. A null `"notes"` is falsy and takes the same branch as an absent one, which the model does.
- Percent.PercentDecode: escapes of bytes 0x80 and above are reported as failure instead of being decoded as UTF-8. In Python, `unquote` replaces invalid UTF-8 with U+FFFD rather than raising, so for those CFIs the model takes the pass-through branch of lines 162-165 where Python would look up the replaced text.
- Colors.ParseHexChannel: non-ASCII Unicode decimal digits, which Python's `int(…, 16)` also accepts, are not modelled: such a slice gives None. Underscores need no model, since in a slice of two characters one cannot stand between two digits.
- `color_lighten` and `color_opacity`: floating-point factors with `round` and `int` truncation, and neither is used by the function.
- The `print` diagnostics (line 163) and the `__main__` example block: console I/O.
- General regular-expression semantics: each pattern the function uses is modelled as its own scanner, with no regex engine. These are the delimiter and the link (`Markdown`), `^(#+)\s*(.*)` (`Formatter.HashRun`, `Formatter.HeaderParts`), `^\s*` (`Text.LeadingSpaces`) and `[^a-zA-Z0-9-]` (`Colors.SanitizeColor`).
- Formatter.FormatAnnotationsToHtml: the returned text is specified through the ghost function `Rendered`, because `sorted()` of a set is specified up to the unique strictly ascending listing (`StringOrder.SortedOf`, `StringOrder.SortedUnique`).
