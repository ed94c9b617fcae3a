/** The annotation records of a Calibre export and the index that
    format_annotations_to_html builds from them (calibre_annotations_html.py,
    lines 123-138). A record's fields are optional, as the JSON keys are. */
module Annotations {
  import opened Text

  /** The "style" object of a record: only its "which" colour is read. */
  datatype Style = Style(which: Option<string>)

  /** One JSON record; None stands for an absent key. */
  datatype Annotation = Annotation(
    spineIndex: Option<int>,
    startCfi: Option<string>,
    style: Option<Style>,
    highlightedText: Option<string>,
    notes: Option<string>)

  /** The decoded JSON object: the "annotations" and "highlights" values
      when they are lists, None when absent or of another type. */
  datatype JsonDocument = JsonDocument(annotations: Option<seq<Annotation>>, highlights: Option<seq<Annotation>>)

  /** The record list: "annotations", falling back to "highlights". */
  function AnnotationList(d: JsonDocument): (r: Option<seq<Annotation>>)
    ensures d.annotations.Some? ==> r == d.annotations
    ensures d.annotations.None? ==> r == d.highlights
    ensures r.None? <==> d.annotations.None? && d.highlights.None?
  {
    if d.annotations.Some? then d.annotations else d.highlights
  }

  /** A record enters the index when its start_cfi is truthy (a non-empty
      string) and its spine_index is an int. */
  predicate Indexed(a: Annotation) {
    a.startCfi.Some? && a.startCfi.value != "" && a.spineIndex.Some?
  }

  /** The index key "/" + str(spine_index * 2 + 2) + start_cfi: the CFI as it
      appears, decoded, in a calibre:// link. */
  function Key(a: Annotation): (k: string)
    requires Indexed(a)
    ensures |k| >= 2 + |a.startCfi.value| && k[0] == '/'
    ensures k[|k| - |a.startCfi.value|..] == a.startCfi.value
  {
    "/" + IntToString(a.spineIndex.value * 2 + 2) + a.startCfi.value
  }

  /** A record contributes a colour when it has a style whose "which" is truthy. */
  predicate HasColor(a: Annotation) {
    a.style.Some? && a.style.value.which.Some? && a.style.value.which.value != ""
  }

  /** The index after inserting the records in order: a later record with
      the same key replaces the earlier one. */
  function IndexOf(anns: seq<Annotation>): map<string, Annotation>
    decreases |anns|
  {
    if anns == [] then map[]
    else
      var index := IndexOf(anns[..|anns| - 1]);
      var a := anns[|anns| - 1];
      if Indexed(a) then index[Key(a) := a] else index
  }

  /** The colours collected alongside the index. */
  function ColorsOf(anns: seq<Annotation>): set<string>
    decreases |anns|
  {
    if anns == [] then {}
    else
      var used := ColorsOf(anns[..|anns| - 1]);
      var a := anns[|anns| - 1];
      if Indexed(a) && HasColor(a) then used + {a.style.value.which.value} else used
  }

  /** The loop at lines 132-138. */
  method BuildIndex(anns: seq<Annotation>) returns (index: map<string, Annotation>, usedColors: set<string>)
    ensures index == IndexOf(anns)
    ensures usedColors == ColorsOf(anns)
  {
    index := map[];
    usedColors := {};
    for i := 0 to |anns|
      invariant index == IndexOf(anns[..i])
      invariant usedColors == ColorsOf(anns[..i])
    {
      assert anns[..i + 1][..i] == anns[..i];
      var ann := anns[i];
      if ann.startCfi.Some? && ann.startCfi.value != "" && ann.spineIndex.Some? {
        var cfiKey := "/" + IntToString(ann.spineIndex.value * 2 + 2) + ann.startCfi.value;
        index := index[cfiKey := ann];
        if ann.style.Some? && ann.style.value.which.Some? && ann.style.value.which.value != "" {
          usedColors := usedColors + {ann.style.value.which.value};
        }
      }
    }
    assert anns[..|anns|] == anns;
  }

  /** The keys of the index are exactly the keys of the indexed records. */
  lemma {:induction false} IndexOfKeys(anns: seq<Annotation>)
    ensures forall key :: key in IndexOf(anns) <==>
      exists k :: 0 <= k < |anns| && Indexed(anns[k]) && Key(anns[k]) == key
    decreases |anns|
  {
    if anns != [] {
      var init := anns[..|anns| - 1];
      IndexOfKeys(init);
      assert forall k :: 0 <= k < |init| ==> init[k] == anns[k];
    }
  }

  /** Each key maps to the last indexed record carrying it. */
  lemma {:induction false} IndexOfLastWins(anns: seq<Annotation>, k: nat)
    requires k < |anns| && Indexed(anns[k])
    requires forall j :: k < j < |anns| && Indexed(anns[j]) ==> Key(anns[j]) != Key(anns[k])
    ensures Key(anns[k]) in IndexOf(anns) && IndexOf(anns)[Key(anns[k])] == anns[k]
    decreases |anns|
  {
    if k < |anns| - 1 {
      var init := anns[..|anns| - 1];
      assert init[k] == anns[k];
      IndexOfLastWins(init, k);
    }
  }

  /** Every value of the index is a record filed under its own key. */
  lemma {:induction false} IndexOfValues(anns: seq<Annotation>)
    ensures forall key :: key in IndexOf(anns) ==>
      Indexed(IndexOf(anns)[key]) && Key(IndexOf(anns)[key]) == key && IndexOf(anns)[key] in anns
    decreases |anns|
  {
    if anns != [] {
      var init := anns[..|anns| - 1];
      IndexOfValues(init);
      assert forall a :: a in init ==> a in anns;
    }
  }

  /** used_colors is exactly the set of truthy style.which values of the
      indexed records. */
  lemma {:induction false} ColorsOfIff(anns: seq<Annotation>)
    ensures forall c :: c in ColorsOf(anns) <==>
      exists k :: 0 <= k < |anns| && Indexed(anns[k]) && HasColor(anns[k]) && anns[k].style.value.which.value == c
    decreases |anns|
  {
    if anns != [] {
      var init := anns[..|anns| - 1];
      ColorsOfIff(init);
      assert forall k :: 0 <= k < |init| ==> init[k] == anns[k];
    }
  }

  /** A colour is collected only alongside an index entry, so a non-empty
      colour set means a non-empty index. */
  lemma ColorsNeedIndex(anns: seq<Annotation>)
    ensures ColorsOf(anns) != {} ==> IndexOf(anns) != map[]
  {
    IndexOfKeys(anns);
    ColorsOfIff(anns);
    if ColorsOf(anns) != {} {
      var c :| c in ColorsOf(anns);
      var k :| 0 <= k < |anns| && Indexed(anns[k]) && HasColor(anns[k]) && anns[k].style.value.which.value == c;
      assert Key(anns[k]) in IndexOf(anns);
    }
  }

  /** Keys are unambiguous for CFIs that do not start with a digit (Calibre
      CFIs start with '/'): the key gives back both the spine index and
      the CFI. */
  lemma KeyInjective(a: Annotation, b: Annotation)
    requires Indexed(a) && Indexed(b)
    requires !IsDigit(a.startCfi.value[0]) && !IsDigit(b.startCfi.value[0])
    requires Key(a) == Key(b)
    ensures a.spineIndex == b.spineIndex && a.startCfi == b.startCfi
  {
    var sa, sb := IntToString(a.spineIndex.value * 2 + 2), IntToString(b.spineIndex.value * 2 + 2);
    var ca, cb := a.startCfi.value, b.startCfi.value;
    var key := Key(a);
    assert key == "/" + sa + ca && key == "/" + sb + cb;
    assert key[1 + |sa|] == ca[0] && key[1 + |sb|] == cb[0];
    assert |sa| == |sb|;
    assert sa == key[1..1 + |sa|] == sb;
    assert ca == key[1 + |sa|..] == cb;
    IntToStringInjective(a.spineIndex.value * 2 + 2, b.spineIndex.value * 2 + 2);
  }
}
