/** Rendering of one block record to one Markdown fragment (`blockToMarkdown`). */
module BlockRender {
  import opened Wrappers
  import opened Notion
  import opened RichTextRender

  /** A block value's properties; when `properties` is absent every `properties?.<name>` is absent. */
  function Props(v: BlockValue): Properties
  {
    if v.properties.Some? then v.properties.value else Properties(None, None, None, None, None, None)
  }

  /**
   * `prop?.[0]?.[0]`: the first element of the first run. For a bare-string run that is
   * its first character (JavaScript string indexing); for a pair it is the text.
   */
  function FirstValue(prop: Option<RichText>): (r: Option<string>)
    ensures prop.None? || prop.value == [] ==> r.None?
    ensures prop.Some? && prop.value != [] && prop.value[0].Rich? ==> r == prop.value[0].text
    ensures prop.Some? && prop.value != [] && prop.value[0].Plain? ==>
      r == if prop.value[0].s == [] then None else Some([prop.value[0].s[0]])
  {
    if prop.None? || prop.value == [] then None
    else match prop.value[0]
      case Plain(s) =>
        if s == [] then None
        else
          assert s[..1] == [s[0]];
          Some(s[..1])
      case Rich(t, _) => t
  }

  /** `a || b` on an optional string: an absent or empty `a` falls through to `b`. */
  function OrElse(a: Option<string>, b: string): string
  {
    if a.Some? && a.value != "" then a.value else b
  }

  /** The rendered title of a block value. */
  function Title(v: BlockValue): string
  {
    GetText(Props(v).title)
  }

  /** A to-do item is checked exactly when `properties.checked[0][0]` is "Yes". */
  predicate IsChecked(v: BlockValue)
  {
    FirstValue(Props(v).checked) == Some("Yes")
  }

  /** The fence's language tag: `properties.language[0][0]`, or "". */
  function CodeLanguage(v: BlockValue): string
  {
    OrElse(FirstValue(Props(v).language), "")
  }

  /** An image's URL: `format.display_source`, else `properties.source[0][0]`, else "". */
  function ImageUrl(v: BlockValue): string
  {
    var display := if v.format.Some? then v.format.value.displaySource else None;
    OrElse(display, OrElse(FirstValue(Props(v).source), ""))
  }

  /** An image's alt text: the rendered caption, or "image" when that is empty. */
  function ImageCaption(v: BlockValue): string
  {
    var caption := GetText(Props(v).caption);
    if caption != "" then caption else "image"
  }

  /** A bookmark's URL: `properties.link[0][0]`, or "". */
  function BookmarkUrl(v: BlockValue): string
  {
    OrElse(FirstValue(Props(v).link), "")
  }

  /** The Markdown fragment of one block; total, it never fails. */
  function BlockToMarkdown(block: Block): string
  {
    if block.value.None? then ""
    else
      var v := block.value.value;
      var title := Title(v);
      match v.blockType
      case "page" => "# " + title + "\n\n"
      case "header" => "# " + title + "\n\n"
      case "sub_header" => "## " + title + "\n\n"
      case "sub_sub_header" => "### " + title + "\n\n"
      case "text" => if title != "" then title + "\n\n" else "\n"
      case "bulleted_list" => "- " + title + "\n"
      case "numbered_list" => "1. " + title + "\n"
      case "to_do" => "- [" + (if IsChecked(v) then "x" else " ") + "] " + title + "\n"
      case "code" => "```" + CodeLanguage(v) + "\n" + title + "\n```\n\n"
      case "quote" => "> " + title + "\n\n"
      case "divider" => "---\n\n"
      case "image" => "![" + ImageCaption(v) + "](" + ImageUrl(v) + ")\n\n"
      case "bookmark" =>
        var url := BookmarkUrl(v);
        "[" + (if title != "" then title else url) + "](" + url + ")\n\n"
      case _ => if title != "" then title + "\n\n" else ""
  }

  /** The block types with a case of their own in the renderer. */
  predicate IsKnownType(t: string)
  {
    t in ["page", "header", "sub_header", "sub_sub_header", "text", "bulleted_list",
          "numbered_list", "to_do", "code", "quote", "divider", "image", "bookmark"]
  }

  /** A record without a value renders as "". */
  lemma MissingValueRendersEmpty()
    ensures BlockToMarkdown(Block(None)) == ""
  {
  }

  /** Pages and headings render as a Markdown heading of their level followed by a blank line. */
  lemma HeadingFragments(v: BlockValue)
    ensures v.blockType == "page" || v.blockType == "header" ==>
      BlockToMarkdown(Block(Some(v))) == "# " + Title(v) + "\n\n"
    ensures v.blockType == "sub_header" ==> BlockToMarkdown(Block(Some(v))) == "## " + Title(v) + "\n\n"
    ensures v.blockType == "sub_sub_header" ==> BlockToMarkdown(Block(Some(v))) == "### " + Title(v) + "\n\n"
  {
  }

  /** A bulleted item renders as `- ` and its title on one line. */
  lemma BulletedListFragment(v: BlockValue)
    requires v.blockType == "bulleted_list"
    ensures BlockToMarkdown(Block(Some(v))) == "- " + Title(v) + "\n"
  {
  }

  /** A quote renders as `> ` and its title, followed by a blank line. */
  lemma QuoteFragment(v: BlockValue)
    requires v.blockType == "quote"
    ensures BlockToMarkdown(Block(Some(v))) == "> " + Title(v) + "\n\n"
  {
  }

  /** Every numbered item renders with the literal marker `1.`, whatever its position. */
  lemma NumberedListFragment(v: BlockValue)
    requires v.blockType == "numbered_list"
    ensures BlockToMarkdown(Block(Some(v))) == "1. " + Title(v) + "\n"
  {
  }

  /** A paragraph renders its title and a blank line, or exactly "\n" when the title is empty. */
  lemma TextFragment(v: BlockValue)
    requires v.blockType == "text"
    ensures Title(v) == "" ==> BlockToMarkdown(Block(Some(v))) == "\n"
    ensures Title(v) != "" ==> BlockToMarkdown(Block(Some(v))) == Title(v) + "\n\n"
  {
  }

  /** A divider renders as exactly `---` and a blank line, whatever its properties. */
  lemma DividerFragment(v: BlockValue)
    requires v.blockType == "divider"
    ensures BlockToMarkdown(Block(Some(v))) == "---\n\n"
  {
  }

  /** A block of an unrecognised type renders as its title and a blank line, or "" when the title is empty. */
  lemma UnknownTypeFragment(v: BlockValue)
    requires !IsKnownType(v.blockType)
    ensures Title(v) == "" ==> BlockToMarkdown(Block(Some(v))) == ""
    ensures Title(v) != "" ==> BlockToMarkdown(Block(Some(v))) == Title(v) + "\n\n"
  {
  }

  /** A to-do item shows `[x]` exactly when its `checked` value is "Yes", `[ ]` otherwise. */
  lemma ToDoFragment(v: BlockValue)
    requires v.blockType == "to_do"
    ensures IsChecked(v) ==> BlockToMarkdown(Block(Some(v))) == "- [x] " + Title(v) + "\n"
    ensures !IsChecked(v) ==> BlockToMarkdown(Block(Some(v))) == "- [ ] " + Title(v) + "\n"
  {
    var mark := if IsChecked(v) then "x" else " ";
    assert BlockToMarkdown(Block(Some(v))) == "- [" + mark + "] " + Title(v) + "\n";
    assert "- [" + mark + "] " == if IsChecked(v) then "- [x] " else "- [ ] ";
  }

  /** A checked flag given as a bare string is never "Yes": only its first character is compared. */
  lemma BareCheckedNeverChecked(v: BlockValue, s: string)
    requires Props(v).checked.Some? && Props(v).checked.value != []
    requires Props(v).checked.value[0] == Plain(s)
    ensures !IsChecked(v)
  {
  }

  /** A code block is fenced with its language tag, which defaults to "" (an untagged fence). */
  lemma CodeFragment(v: BlockValue)
    requires v.blockType == "code"
    ensures BlockToMarkdown(Block(Some(v))) == "```" + CodeLanguage(v) + "\n" + Title(v) + "\n```\n\n"
    ensures FirstValue(Props(v).language).None? ==> CodeLanguage(v) == ""
    ensures FirstValue(Props(v).language).Some? ==> CodeLanguage(v) == FirstValue(Props(v).language).value
  {
  }

  /** An image is rendered as a Markdown image of its caption and URL. */
  lemma ImageFragment(v: BlockValue)
    requires v.blockType == "image"
    ensures BlockToMarkdown(Block(Some(v))) == "![" + ImageCaption(v) + "](" + ImageUrl(v) + ")\n\n"
  {
    assert |v.blockType| == 5 && v.blockType[0] == 'i';
  }

  /**
   * An image's URL prefers a non-empty `format.display_source`, then `properties.source`, then "";
   * its caption is the rendered caption, or "image" when that is empty.
   */
  lemma ImageDefaults(v: BlockValue)
    ensures v.format.Some? && v.format.value.displaySource.Some? && v.format.value.displaySource.value != ""
      ==> ImageUrl(v) == v.format.value.displaySource.value
    ensures (v.format.None? || v.format.value.displaySource.None? || v.format.value.displaySource.value == "")
      ==> ImageUrl(v) == OrElse(FirstValue(Props(v).source), "")
    ensures (v.format.None? || v.format.value.displaySource.None?) && FirstValue(Props(v).source).None?
      ==> ImageUrl(v) == ""
    ensures GetText(Props(v).caption) == "" ==> ImageCaption(v) == "image"
    ensures GetText(Props(v).caption) != "" ==> ImageCaption(v) == GetText(Props(v).caption)
  {
  }

  /** A bookmark links its URL, with the title as link text, or the URL itself when the title is empty. */
  lemma BookmarkFragment(v: BlockValue)
    requires v.blockType == "bookmark"
    ensures Title(v) == "" ==>
      BlockToMarkdown(Block(Some(v))) == "[" + BookmarkUrl(v) + "](" + BookmarkUrl(v) + ")\n\n"
    ensures Title(v) != "" ==>
      BlockToMarkdown(Block(Some(v))) == "[" + Title(v) + "](" + BookmarkUrl(v) + ")\n\n"
  {
  }

  /** Every non-empty fragment ends with a newline: fragments never run into each other on one line. */
  lemma FragmentEndsWithNewline(block: Block)
    ensures var f := BlockToMarkdown(block); f == "" || f[|f| - 1] == '\n'
  {
  }
}
