/** Rendering of rich-text runs to Markdown (the `getText` helper of the block renderer). */
module RichTextRender {
  import opened Wrappers
  import opened Notion
  import opened JsString

  /** The text an annotation puts before the current result. */
  function Opening(a: Annotation): string
  {
    match a.tag
    case "b" => "**"
    case "i" => "*"
    case "c" => "`"
    case "s" => "~~"
    case "a" => "["
    case _ => ""
  }

  /** The text an annotation puts after the current result. */
  function Closing(a: Annotation): string
  {
    match a.tag
    case "b" => "**"
    case "i" => "*"
    case "c" => "`"
    case "s" => "~~"
    case "a" => "](" + Shown(a.value) + ")"
    case _ => ""
  }

  /** The tags the renderer knows; any other tag leaves the text as it is. */
  predicate IsKnownTag(tag: string)
  {
    tag == "b" || tag == "i" || tag == "c" || tag == "s" || tag == "a"
  }

  /** One step of the annotation loop: wrap the current result in the annotation's mark. */
  function Wrap(result: string, a: Annotation): (r: string)
    ensures !IsKnownTag(a.tag) ==> r == result
    ensures r == Opening(a) + result + Closing(a)
  {
    match a.tag
    case "b" => "**" + result + "**"
    case "i" => "*" + result + "*"
    case "c" => "`" + result + "`"
    case "s" => "~~" + result + "~~"
    case "a" => "[" + result + "](" + Shown(a.value) + ")"
    case _ => result
  }

  /** The annotations applied in list order: the last one ends up outermost. */
  function Annotate(text: string, anns: seq<Annotation>): string
  {
    if anns == [] then text
    else Wrap(Annotate(text, anns[..|anns| - 1]), anns[|anns| - 1])
  }

  /** All the openings of a list of annotations, outermost (last) first. */
  function Openings(anns: seq<Annotation>): string
  {
    if anns == [] then "" else Opening(anns[|anns| - 1]) + Openings(anns[..|anns| - 1])
  }

  /** All the closings of a list of annotations, innermost (first) first. */
  function Closings(anns: seq<Annotation>): string
  {
    if anns == [] then "" else Closings(anns[..|anns| - 1]) + Closing(anns[|anns| - 1])
  }

  /** The run's text; a missing or empty text becomes "". */
  function SegmentBase(seg: Segment): string
  {
    match seg
    case Plain(s) => s
    case Rich(t, _) => if t.Some? then t.value else ""
  }

  /** How one run renders: a bare string as itself, a pair as its text wrapped in its annotations. */
  function SegmentText(seg: Segment): string
  {
    match seg
    case Plain(s) => s
    case Rich(_, anns) =>
      if anns.None? || anns.value == [] then SegmentBase(seg)
      else Annotate(SegmentBase(seg), anns.value)
  }

  /** `getText`: an absent property renders as "", otherwise the rendered runs joined with no separator. */
  function GetText(prop: Option<RichText>): string
  {
    if prop.None? then "" else Concat(Rendered(prop.value))
  }

  /** Each run rendered on its own (the `map` of `getText`). */
  function Rendered(segs: seq<Segment>): seq<string>
  {
    seq(|segs|, i requires 0 <= i < |segs| => SegmentText(segs[i]))
  }

  /** The concatenation of a list of strings (`join('')`). */
  function Concat(strs: seq<string>): string
  {
    if strs == [] then "" else Concat(strs[..|strs| - 1]) + strs[|strs| - 1]
  }

  /**
   * The per-run body of `getText`: start from the run's text and let each annotation,
   * in list order, wrap the current result.
   */
  method RenderSegment(seg: Segment) returns (result: string)
    ensures result == SegmentText(seg)
  {
    if seg.Plain? {
      return seg.s;
    }
    var text := SegmentBase(seg);
    if seg.annotations.None? || seg.annotations.value == [] {
      return text;
    }
    var anns := seg.annotations.value;
    result := text;
    for i := 0 to |anns|
      invariant result == Annotate(text, anns[..i])
    {
      assert anns[..i + 1][..i] == anns[..i];
      result := Wrap(result, anns[i]);
    }
    assert anns[..|anns|] == anns;
  }

  /** Annotations nest: the text ends up inside every opening and closing, the last annotation outermost. */
  lemma {:induction false} AnnotateNests(text: string, anns: seq<Annotation>)
    ensures Annotate(text, anns) == Openings(anns) + text + Closings(anns)
  {
    if anns != [] {
      var init, last := anns[..|anns| - 1], anns[|anns| - 1];
      AnnotateNests(text, init);
      calc {
        Annotate(text, anns);
        Wrap(Annotate(text, init), last);
        Opening(last) + (Openings(init) + text + Closings(init)) + Closing(last);
        (Opening(last) + Openings(init)) + text + (Closings(init) + Closing(last));
      }
    }
  }

  /** Applying `a` and then `b` is applying `a + b`. */
  lemma {:induction false} AnnotateAppend(text: string, a: seq<Annotation>, b: seq<Annotation>)
    ensures Annotate(Annotate(text, a), b) == Annotate(text, a + b)
    decreases |b|
  {
    if b == [] {
      assert a + b == a;
    } else {
      var init := b[..|b| - 1];
      assert (a + b)[..|a + b| - 1] == a + init;
      assert (a + b)[|a + b| - 1] == b[|b| - 1];
      AnnotateAppend(text, a, init);
    }
  }

  /** The annotations whose tag the renderer knows, in their order. */
  function KnownOnly(anns: seq<Annotation>): (r: seq<Annotation>)
    ensures forall x :: x in r ==> IsKnownTag(x.tag)
  {
    if anns == [] then []
    else if IsKnownTag(anns[|anns| - 1].tag) then KnownOnly(anns[..|anns| - 1]) + [anns[|anns| - 1]]
    else KnownOnly(anns[..|anns| - 1])
  }

  /** Unknown tags leave the result unchanged wherever they appear in the list. */
  lemma {:induction false} UnknownTagsIgnored(text: string, anns: seq<Annotation>)
    ensures Annotate(text, anns) == Annotate(text, KnownOnly(anns))
  {
    if anns != [] {
      var init, last := anns[..|anns| - 1], anns[|anns| - 1];
      UnknownTagsIgnored(text, init);
      if IsKnownTag(last.tag) {
        var k := KnownOnly(init) + [last];
        assert k[..|k| - 1] == KnownOnly(init);
      }
    }
  }

  /** A bold run carrying a link renders with the link outermost: `[**text**](url)`. */
  lemma BoldThenLink(text: string, url: string)
    ensures Annotate(text, [Annotation("b", None), Annotation("a", Some(url))])
      == "[**" + text + "**](" + url + ")"
  {
    var bold := [Annotation("b", None)];
    var anns := bold + [Annotation("a", Some(url))];
    assert anns[..|anns| - 1] == bold;
    assert bold[..|bold| - 1] == [];
    assert Annotate(text, bold) == "**" + text + "**";
  }

  /** Concatenating one more string appends it. */
  lemma ConcatSnoc(strs: seq<string>, x: string)
    ensures Concat(strs + [x]) == Concat(strs) + x
  {
    var s := strs + [x];
    assert s[..|s| - 1] == strs;
  }

  /** `join('')` of two lists of strings one after the other is the concatenation of the joins. */
  lemma {:induction false} ConcatAppend(a: seq<string>, b: seq<string>)
    ensures Concat(a + b) == Concat(a) + Concat(b)
    decreases |b|
  {
    if b == [] {
      assert a + b == a;
    } else {
      var init, last := b[..|b| - 1], b[|b| - 1];
      assert b == init + [last];
      assert a + b == (a + init) + [last];
      ConcatSnoc(a + init, last);
      ConcatSnoc(init, last);
      ConcatAppend(a, init);
      var x, y := Concat(a), Concat(init);
      assert (x + y) + last == x + (y + last);
    }
  }

  /** Rendering two lists of runs one after the other gives the two renderings one after the other. */
  lemma GetTextAppend(a: RichText, b: RichText)
    ensures GetText(Some(a + b)) == GetText(Some(a)) + GetText(Some(b))
  {
    assert Rendered(a + b) == Rendered(a) + Rendered(b);
    ConcatAppend(Rendered(a), Rendered(b));
  }

  /** The text of each run (a rich run contributes its text, "" when missing). */
  function Texts(segs: seq<Segment>): seq<string>
  {
    seq(|segs|, i requires 0 <= i < |segs| => SegmentBase(segs[i]))
  }

  /** Runs without annotations render as their texts concatenated, so bare strings come out verbatim. */
  lemma UnannotatedRunsVerbatim(segs: RichText)
    requires forall i :: 0 <= i < |segs| ==>
      segs[i].Plain? || segs[i].annotations.None? || segs[i].annotations.value == []
    ensures GetText(Some(segs)) == Concat(Texts(segs))
  {
    assert Rendered(segs) == Texts(segs);
  }
}
