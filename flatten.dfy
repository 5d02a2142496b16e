/**
 * Flattening of a page's record map into one Markdown document (`convertNotionToMarkdown`
 * after the fetch): collect the blocks, sort them in place with a comparator built from
 * each block's child list, concatenate the fragments and trim.
 */
module Flatten {
  import opened Wrappers
  import opened Notion
  import opened JsString
  import opened RichTextRender
  import opened BlockRender

  /** The message of the error thrown when the response has no block map. */
  const INVALID_RESPONSE := "Invalid response from Notion API"

  /** `xs.indexOf(x)`: the first position of `x` in `xs`, -1 when absent. */
  function IndexIn(xs: seq<string>, x: string): (r: int)
    ensures -1 <= r < |xs|
    ensures r == -1 <==> x !in xs
    ensures r >= 0 ==> xs[r] == x && x !in xs[..r]
  {
    if xs == [] then -1
    else if xs[0] == x then 0
    else
      var k := IndexIn(xs[1..], x);
      assert k >= 0 ==> xs[..k + 1] == [xs[0]] + xs[1..][..k];
      if k == -1 then -1 else k + 1
  }

  /** `a` names `b`'s id in its `content` child list. */
  predicate Lists(a: Block, b: Block)
  {
    a.value.Some? && a.value.value.content.Some? && b.value.Some? && b.value.value.id.Some?
    && b.value.value.id.value in a.value.value.content.value
  }

  /** `a.value?.content?.indexOf(b.value?.id) ?? -1`: where `a` lists `b`, or -1. */
  function ChildIndex(a: Block, b: Block): (r: int)
    ensures r >= -1
    ensures r >= 0 <==> Lists(a, b)
  {
    if a.value.None? || a.value.value.content.None? then -1
    else if b.value.None? || b.value.value.id.None? then -1
    else IndexIn(a.value.value.content.value, b.value.value.id.value)
  }

  /** A non-negative child index is the first position of the child's id in the parent's `content`. */
  lemma ChildIndexIsFirstPosition(a: Block, b: Block)
    requires ChildIndex(a, b) >= 0
    ensures var content, r := a.value.value.content.value, ChildIndex(a, b);
      r < |content| && content[r] == b.value.value.id.value && b.value.value.id.value !in content[..r]
  {
  }

  /** The sort comparator: positive when `a` is to come after `b`. */
  function Compare(a: Block, b: Block): int
  {
    ChildIndex(a, b) - ChildIndex(b, a)
  }

  /** The comparator is antisymmetric, and 0 when neither block lists the other. */
  lemma CompareAntisymmetric(a: Block, b: Block)
    ensures Compare(a, b) == -Compare(b, a)
    ensures !Lists(a, b) && !Lists(b, a) ==> Compare(a, b) == 0
  {
  }

  /** A block that lists a child which does not list it back compares after that child. */
  lemma CompareChildFirst(parent: Block, child: Block)
    requires Lists(parent, child) && !Lists(child, parent)
    ensures Compare(parent, child) > 0 && Compare(child, parent) < 0
  {
  }

  /** No two neighbours are out of order by the comparator. */
  ghost predicate AdjacentInOrder(s: seq<Block>)
  {
    forall k :: 0 <= k < |s| - 1 ==> Compare(s[k], s[k + 1]) <= 0
  }

  /** The comparator is 0 on every pair of the blocks: no block lists another. */
  ghost predicate Unrelated(s: seq<Block>)
  {
    forall i, j :: 0 <= i < |s| && 0 <= j < |s| ==> Compare(s[i], s[j]) == 0
  }

  /** Exchanges two neighbouring elements. */
  method SwapDown(a: array<Block>, j: nat)
    requires 0 < j < a.Length
    modifies a
    ensures a[..] == old(a[..])[j - 1 := old(a[j])][j := old(a[j - 1])]
    ensures multiset(a[..]) == multiset(old(a[..]))
  {
    a[j - 1], a[j] := a[j], a[j - 1];
  }

  /** The first `n` elements of `a` have no neighbours out of order. */
  ghost predicate InOrderUpTo(a: array<Block>, n: int)
    reads a
  {
    forall k :: 0 <= k < n - 1 && k + 1 < a.Length ==> Compare(a[k], a[k + 1]) <= 0
  }

  /**
   * The state of one insertion pass: the element being moved sits at `j`; the neighbours
   * before it and those from `j + 1` up to `i` are in order, and it is smaller than the one after it.
   */
  ghost predicate Inserting(s: seq<Block>, j: int, i: int)
    requires 0 <= j <= i < |s|
  {
    (forall k :: 0 <= k < j - 1 ==> Compare(s[k], s[k + 1]) <= 0)
    && (forall k :: j < k < i ==> Compare(s[k], s[k + 1]) <= 0)
    && (j < i ==> Compare(s[j], s[j + 1]) < 0)
    && (0 < j < i ==> Compare(s[j - 1], s[j + 1]) <= 0)
  }

  /** Swapping the moved element with a greater left neighbour keeps the pass's state, one place further left. */
  lemma InsertingStep(s: seq<Block>, j: int, i: int)
    requires 0 < j <= i < |s| && Inserting(s, j, i)
    requires Compare(s[j - 1], s[j]) > 0
    ensures Inserting(s[j - 1 := s[j]][j := s[j - 1]], j - 1, i)
  {
    var t := s[j - 1 := s[j]][j := s[j - 1]];
    CompareAntisymmetric(s[j - 1], s[j]);
    forall k | j - 1 < k < i
      ensures Compare(t[k], t[k + 1]) <= 0
    {
      if k == j {
        assert t[k] == s[j - 1] && t[k + 1] == s[j + 1];
      } else {
        assert t[k] == s[k] && t[k + 1] == s[k + 1];
      }
    }
  }

  /** A pass stops when the moved element reaches the front or a neighbour that is not greater. */
  lemma InsertingDone(s: seq<Block>, j: int, i: int)
    requires 0 <= j <= i < |s| && Inserting(s, j, i)
    requires j == 0 || Compare(s[j - 1], s[j]) <= 0
    ensures forall k :: 0 <= k < i ==> Compare(s[k], s[k + 1]) <= 0
  {
  }

  /**
   * One pass of the insertion sort: moves `a[i]` left past every neighbour that compares
   * greater than it, so that the first `i + 1` elements end up with no neighbours out of order.
   */
  method InsertLeft(a: array<Block>, i: nat)
    requires 0 < i < a.Length
    requires InOrderUpTo(a, i)
    modifies a
    ensures multiset(a[..]) == multiset(old(a[..]))
    ensures InOrderUpTo(a, i + 1)
    ensures Compare(old(a[i - 1]), old(a[i])) <= 0 ==> a[..] == old(a[..])
    ensures a[i + 1..] == old(a[i + 1..])
  {
    var j := i;
    while j > 0 && Compare(a[j - 1], a[j]) > 0
      invariant 0 <= j <= i
      invariant multiset(a[..]) == multiset(old(a[..]))
      invariant Inserting(a[..], j, i)
      invariant j == i ==> a[..] == old(a[..])
      invariant j < i ==> Compare(old(a[i - 1]), old(a[i])) > 0
      invariant a[i + 1..] == old(a[i + 1..])
    {
      InsertingStep(a[..], j, i);
      SwapDown(a, j);
      j := j - 1;
    }
    InsertingDone(a[..], j, i);
  }

  /**
   * `blocks.sort(compare)`, as a stable insertion sort that moves an element left only
   * while the comparator is positive. Its result is a permutation of the input in which
   * no neighbours are out of order; when the comparator is 0 everywhere nothing moves.
   */
  method SortBlocks(a: array<Block>)
    modifies a
    ensures multiset(a[..]) == multiset(old(a[..]))
    ensures AdjacentInOrder(a[..])
    ensures Unrelated(old(a[..])) ==> a[..] == old(a[..])
  {
    if a.Length <= 1 {
      return;
    }
    var i := 1;
    while i < a.Length
      invariant 1 <= i <= a.Length
      invariant multiset(a[..]) == multiset(old(a[..]))
      invariant InOrderUpTo(a, i)
      invariant Unrelated(old(a[..])) ==> a[..] == old(a[..])
    {
      ghost var before := a[..];
      if Unrelated(old(a[..])) {
        assert Compare(before[i - 1], before[i]) == 0;
      }
      InsertLeft(a, i);
      i := i + 1;
    }
  }

  /** The fragments of the blocks, in order, concatenated. */
  function RenderAll(bs: seq<Block>): string
  {
    if bs == [] then "" else RenderAll(bs[..|bs| - 1]) + BlockToMarkdown(bs[|bs| - 1])
  }

  /**
   * `convertNotionToMarkdown` after the fetch. A response without a record map or without
   * a block map is an error and yields no Markdown. Otherwise the result is the trimmed
   * concatenation of the fragments in the sorted order `order`, a permutation of the
   * record map's blocks.
   */
  method ConvertNotionToMarkdown(data: Response) returns (r: Result<string>, ghost order: seq<Block>)
    ensures r.Err? <==> data.recordMap.None? || data.recordMap.value.block.None?
    ensures r.Err? ==> r.message == INVALID_RESPONSE
    ensures r.Ok? ==> multiset(order) == multiset(data.recordMap.value.block.value)
    ensures r.Ok? ==> AdjacentInOrder(order)
    ensures r.Ok? && Unrelated(data.recordMap.value.block.value) ==> order == data.recordMap.value.block.value
    ensures r.Ok? ==> r.value == Trim(RenderAll(order)) && NoOuterWhitespace(r.value)
  {
    if data.recordMap.None? || data.recordMap.value.block.None? {
      return Err(INVALID_RESPONSE), [];
    }
    var values := data.recordMap.value.block.value;
    var blocks := new Block[|values|](i requires 0 <= i < |values| => values[i]);
    assert blocks[..] == values;
    SortBlocks(blocks);
    var markdown := RenderBlocks(blocks);
    order := blocks[..];
    TrimLeavesNoOuterWhitespace(markdown);
    r := Ok(Trim(markdown));
  }

  /** The accumulation loop: `markdown += blockToMarkdown(block)` over the sorted blocks. */
  method RenderBlocks(blocks: array<Block>) returns (markdown: string)
    ensures markdown == RenderAll(blocks[..])
  {
    markdown := "";
    for i := 0 to blocks.Length
      invariant markdown == RenderAll(blocks[..i])
    {
      assert blocks[..i + 1][..i] == blocks[..i];
      markdown := markdown + BlockToMarkdown(blocks[i]);
    }
    assert blocks[..blocks.Length] == blocks[..];
  }

  /** Properties holding only a title. */
  function TitleOnly(title: RichText): Properties
  {
    Properties(Some(title), None, None, None, None, None)
  }

  /** A header "Intro" whose only child is the paragraph below. */
  function IntroHeader(): Block
  {
    Block(Some(BlockValue(Some("h"), "header", Some(TitleOnly([Rich(Some("Intro"), None)])), None, Some(["t"]))))
  }

  /** The paragraph "Hello " followed by a bold "world". */
  function HelloParagraph(): Block
  {
    var title := [Rich(Some("Hello "), None), Rich(Some("world"), Some([Annotation("b", None)]))];
    Block(Some(BlockValue(Some("t"), "text", Some(TitleOnly(title)), None, None)))
  }

  /** The paragraph's title renders as "Hello **world**". */
  lemma HelloTitle()
    ensures Title(HelloParagraph().value.value) == "Hello **world**"
  {
    var anns := [Annotation("b", None)];
    var segs := [Rich(Some("Hello "), None), Rich(Some("world"), Some(anns))];
    assert anns[..|anns| - 1] == [];
    assert SegmentText(segs[1]) == "**world**";
    assert Props(HelloParagraph().value.value).title == Some(segs);
    var strs := Rendered(segs);
    assert strs == ["Hello ", "**world**"];
    assert strs[..1][..0] == [];
    assert Concat(strs[..1]) == "Hello ";
  }

  /** The header's title renders as "Intro". */
  lemma IntroTitle()
    ensures Title(IntroHeader().value.value) == "Intro"
  {
    var segs := [Rich(Some("Intro"), None)];
    assert Props(IntroHeader().value.value).title == Some(segs);
    var strs := Rendered(segs);
    assert strs == ["Intro"];
    assert strs[..0] == [];
  }

  /** Trimming the two fragments drops the final blank line. */
  lemma HelloIntroTrim()
    ensures Trim("Hello **world**\n\n" + "# Intro\n\n") == "Hello **world**\n\n# Intro"
  {
    var md := "Hello **world**\n\n" + "# Intro\n\n";
    assert TrimStart(md) == md;
    var m1 := md[..|md| - 1];
    var m2 := m1[..|m1| - 1];
    assert md[|md| - 1] == '\n' && m1[|m1| - 1] == '\n';
    assert m2 == "Hello **world**\n\n# Intro";
    assert TrimEnd(m2) == m2;
  }

  /** The two blocks in the only order the comparator leaves them in: the paragraph, then its header. */
  lemma ChildSortsFirst(order: seq<Block>)
    requires multiset(order) == multiset([IntroHeader(), HelloParagraph()])
    requires AdjacentInOrder(order)
    ensures order == [HelloParagraph(), IntroHeader()]
  {
    var h, t := IntroHeader(), HelloParagraph();
    assert h != t;
    assert |order| == 2 by {
      assert |multiset(order)| == |order|;
    }
    assert order == [order[0], order[1]];
    assert order[0] in multiset(order) && order[1] in multiset(order);
    assert Lists(h, t) && !Lists(t, h);
    CompareChildFirst(h, t);
  }

  /** The paragraph then the header render, once trimmed, as "Hello **world**", a blank line and "# Intro". */
  lemma ChildFirstMarkdown()
    ensures Trim(RenderAll([HelloParagraph(), IntroHeader()])) == "Hello **world**\n\n# Intro"
  {
    var h, t := IntroHeader(), HelloParagraph();
    HelloTitle();
    IntroTitle();
    assert BlockToMarkdown(t) == "Hello **world**\n\n";
    assert BlockToMarkdown(h) == "# Intro\n\n";
    var order := [t, h];
    assert order[..1] == [t];
    assert [t][..0] == [];
    assert RenderAll([t]) == "Hello **world**\n\n";
    assert RenderAll(order) == "Hello **world**\n\n" + "# Intro\n\n";
    HelloIntroTrim();
  }

  /**
   * A header with its paragraph as only child comes out with the paragraph FIRST: the
   * comparator is positive for (parent, child), so the child sorts before its parent.
   */
  lemma ChildBeforeParent(order: seq<Block>)
    requires multiset(order) == multiset([IntroHeader(), HelloParagraph()])
    requires AdjacentInOrder(order)
    ensures order == [HelloParagraph(), IntroHeader()]
    ensures Trim(RenderAll(order)) == "Hello **world**\n\n# Intro"
  {
    ChildSortsFirst(order);
    ChildFirstMarkdown();
  }
}
