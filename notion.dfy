/**
 * The record shapes of a page chunk returned by the document service, as far as the
 * converter reads them. Every field the converter reaches through `?.` is optional.
 */
module Notion {
  import opened Wrappers

  /** One mark of a rich-text run: a tag (`b`, `i`, `c`, `s`, `a`, …) and an optional value (a link target for `a`). */
  datatype Annotation = Annotation(tag: string, value: Option<string>)

  /** One run of a rich-text property: either a bare string or a `[text?, annotations?]` pair. */
  datatype Segment =
    | Plain(s: string)
    | Rich(text: Option<string>, annotations: Option<seq<Annotation>>)

  /** A rich-text property value: a list of runs. */
  type RichText = seq<Segment>

  /** The properties a block may carry; each is a rich-text value. */
  datatype Properties = Properties(
    title: Option<RichText>,
    caption: Option<RichText>,
    source: Option<RichText>,
    link: Option<RichText>,
    checked: Option<RichText>,
    language: Option<RichText>)

  /** The `format` record of a block; only the image source is read. */
  datatype Format = Format(displaySource: Option<string>)

  /**
   * The `value` record of a block. An absent `type` is represented by the empty
   * string, which selects the same (default) branch of the renderer.
   */
  datatype BlockValue = BlockValue(
    id: Option<string>,
    blockType: string,
    properties: Option<Properties>,
    format: Option<Format>,
    content: Option<seq<string>>)

  /** An entry of the record map: a wrapper whose `value` may be missing. */
  datatype Block = Block(value: Option<BlockValue>)

  /** The record map of a response; `block` holds the block map's values in their enumeration order. */
  datatype RecordMap = RecordMap(block: Option<seq<Block>>)

  /** The decoded body of the page-chunk response. */
  datatype Response = Response(recordMap: Option<RecordMap>)
}
