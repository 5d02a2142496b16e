# Notion page to Markdown: a verified model of the conversion pipeline

This project models the conversion pipeline in `src/popup.js` of a browser extension. The
extension copies the Notion page open in the current tab to the clipboard as Markdown. It can
also move the page's images from Notion's transient hosting into a Tencent COS bucket. The model
covers four parts of that pipeline:

- **Rich text and blocks** (`richtext.dfy`, `blockrender.dfy`).
  - `getText` renders a rich-text property: bare strings, and `[text, annotations]` pairs whose
    annotations wrap the text in list order.
  - `blockToMarkdown` renders one block record to one Markdown fragment, with the per-type
    defaults.
  - The per-run `forEach` loop is the method `RenderSegment`. It is proved equal to the function
    `SegmentText`.
- **Flattening** (`flatten.dfy`).
  - The body of `convertNotionToMarkdown` after the fetch: a missing `recordMap` or
    `recordMap.block` is an error.
  - The blocks are sorted in place on an `array` with the pairwise comparator built from each
    block's `content` list.
  - The fragments are appended in a loop and the result is trimmed.
- **Image relocation** (`imagescan.dfy`, `relocate.dfy`).
  - The `exec` loop of the global regex `/!\[(.*?)\]\((.*?)\)/g` collects candidates, keeping
    those whose URL names one of the two hosts.
  - The upload loop then replaces the first occurrence of each kept candidate with a link to the
    bucket's copy.
  - The object key and location are derived as in `uploadImageToCos`.
  - The fetch and the upload form an oracle `outcome: nat -> UploadOutcome`: the outcome of the
    i-th attempt.
  - The MD5 digest is a function parameter `hash: string -> string`.
- **Page ids** (`pageid.dfy`).
  - `getPageIdFromUrl` is modelled from the URL's pathname: the last `/`-separated segment, then
    its first run of 32 lowercase hex digits.
  - `formatPageId` is modelled together with the hyphenated id the cookie mode sends to the
    internal API.

Supporting modules:

- `wrappers.dfy` holds `Option` and `Result`.
- `notion.dfy` holds the record-map datatypes.
- `jsstring.dfy` holds the JavaScript string operations the code relies on:
  - `indexOf` and `includes`;
  - `trim`, with the ECMAScript set of white-space and line-terminator code points;
  - `split` on one character;
  - `replace` with a string pattern, including its `$` replacement patterns.

The comparator `aIdx - bIdx` is positive when `a` lists `b` as a child and `b` does not list
`a`, so a sort puts a child block *before* the block that lists it. `Flatten.ChildBeforeParent`
proves that a header listing a paragraph comes out as `"Hello **world**\n\n# Intro"`, the
paragraph first.

## Model

| member | source | states |
|---|---|---|
| RichTextRender.GetText | src/popup.js:90-109 | `getText`: "" for an absent property, otherwise the runs rendered one by one and joined with no separator; its promises are stated by RenderSegment, AnnotateNests, UnknownTagsIgnored, GetTextAppend and UnannotatedRunsVerbatim |
| RichTextRender.Wrap | src/popup.js:100-106 | each known tag wraps the current result between its opening and closing mark; an unknown tag leaves it unchanged |
| RichTextRender.RenderSegment | src/popup.js:92-107 | the per-run loop returns the run's text wrapped by each annotation in list order; a bare string or a run without annotations comes back as its text |
| RichTextRender.AnnotateNests | src/popup.js:99-106 | the text ends up inside all openings and closings, with the last annotation outermost |
| RichTextRender.AnnotateAppend | src/popup.js:100-106 | applying one list of annotations and then another equals applying their concatenation |
| RichTextRender.KnownOnly | src/popup.js:100-106 | the filtered list holds only the five tags the renderer knows |
| RichTextRender.UnknownTagsIgnored | src/popup.js:100-106 | unknown tags change nothing wherever they occur: the rendering equals that of the known tags alone |
| RichTextRender.BoldThenLink | src/popup.js:100-106 | a bold, linked run renders as `[**text**](url)`, the link outermost |
| RichTextRender.ConcatAppend | src/popup.js:108 | `join('')` of two lists one after the other is the two joins one after the other |
| RichTextRender.GetTextAppend | src/popup.js:90-109 | rendering two lists of runs together gives the two renderings concatenated |
| RichTextRender.UnannotatedRunsVerbatim | src/popup.js:93-97 | runs whose annotation list is absent or empty render as their texts joined, so bare strings come out verbatim |
| BlockRender.BlockToMarkdown | src/popup.js:84-161 | `blockToMarkdown`: the switch on the block type; its promises are stated per type by MissingValueRendersEmpty, HeadingFragments, TextFragment, BulletedListFragment, NumberedListFragment, ToDoFragment, CodeFragment, QuoteFragment, DividerFragment, ImageFragment, ImageDefaults, BookmarkFragment and UnknownTypeFragment, and for all blocks by FragmentEndsWithNewline |
| BlockRender.FirstValue | src/popup.js:136 | `prop?.[0]?.[0]`: absent for a missing or empty property; a pair's text; the first character of a bare string, and absent for an empty one |
| BlockRender.MissingValueRendersEmpty | src/popup.js:85 | a record without a value renders as "" |
| BlockRender.HeadingFragments | src/popup.js:114-124 | page and header give `# title`, sub_header `## title`, sub_sub_header `### title`, each followed by a blank line |
| BlockRender.BulletedListFragment | src/popup.js:129-130 | a bulleted item renders as `- title` and a newline |
| BlockRender.NumberedListFragment | src/popup.js:132-133 | a numbered item always renders as `1. title` and a newline |
| BlockRender.TextFragment | src/popup.js:126-127 | a text block with an empty title is exactly "\n"; otherwise its title and a blank line |
| BlockRender.ToDoFragment | src/popup.js:135-137 | a to-do item renders `[x]` exactly when its checked flag is "Yes", and `[ ]` otherwise |
| BlockRender.BareCheckedNeverChecked | src/popup.js:136 | a checked flag given as a bare string is never "Yes", because only its first character is compared |
| BlockRender.CodeFragment | src/popup.js:139-141 | a code block is fenced with its language tag, which is "" when the language is missing |
| BlockRender.QuoteFragment | src/popup.js:143-144 | a quote renders as `> title` followed by a blank line |
| BlockRender.DividerFragment | src/popup.js:146-147 | a divider renders as exactly `---` and a blank line, whatever its properties |
| BlockRender.ImageFragment | src/popup.js:149-152 | an image renders as a Markdown image of its caption and URL, followed by a blank line |
| BlockRender.ImageDefaults | src/popup.js:150-151 | the URL is a non-empty `display_source`, else `properties.source[0][0]`, else ""; the caption is the rendered caption, or "image" when that is empty |
| BlockRender.BookmarkFragment | src/popup.js:154-156 | a bookmark links its URL, and its link text is the title or, when the title is empty, the URL |
| BlockRender.UnknownTypeFragment | src/popup.js:158-159 | an unknown type renders as "" with an empty title, and as the title and a blank line otherwise |
| BlockRender.FragmentEndsWithNewline | src/popup.js:113-160 | every fragment is empty or ends with a newline |
| Flatten.Compare | src/popup.js:174-178 | the sort comparator `aIdx - bIdx`; its promises are stated by CompareAntisymmetric and CompareChildFirst |
| Flatten.RenderAll | src/popup.js:180-184 | the fragments of the blocks concatenated in order; RenderBlocks proves the loop computes it and ChildFirstMarkdown evaluates it on an example |
| Flatten.IndexIn | src/popup.js:175 | `indexOf`: -1 exactly when the id is absent, otherwise the position of its first occurrence |
| Flatten.ChildIndex | src/popup.js:175-176 | the comparator's index is non-negative exactly when the first block lists the second |
| Flatten.ChildIndexIsFirstPosition | src/popup.js:175 | a non-negative index is the first position of the other block's id in the content list |
| Flatten.CompareAntisymmetric | src/popup.js:174-178 | the comparator is antisymmetric, and 0 when neither block lists the other |
| Flatten.CompareChildFirst | src/popup.js:174-178 | when a parent lists a child that does not list it back, the comparator orders the child first |
| Flatten.SwapDown | src/popup.js:174 | one exchange of neighbours in place, which keeps the array's multiset of blocks |
| Flatten.InsertingStep | src/popup.js:174-178 | a swap with a greater left neighbour keeps the insertion pass's ordering invariant, one place to the left |
| Flatten.InsertingDone | src/popup.js:174-178 | a pass that stops at the front, or at a neighbour that is not greater, leaves its prefix in order |
| Flatten.InsertLeft | src/popup.js:174-178 | one insertion pass keeps the multiset, extends the in-order prefix by one and leaves everything after the new element as it was; nothing moves when the new element is in place |
| Flatten.SortBlocks | src/popup.js:174-178 | the in-place sort returns a permutation with no neighbours out of order, and moves nothing when no block lists another |
| Flatten.RenderBlocks | src/popup.js:180-184 | the `markdown +=` loop gives the fragments of the blocks concatenated in array order |
| Flatten.ConvertNotionToMarkdown | src/popup.js:163-187 | a missing record map or block map is the "Invalid response" error; otherwise the result is the trim of the fragments in a sorted permutation of the blocks, with no outer white space |
| Flatten.ChildSortsFirst | src/popup.js:174-178 | for a header listing a paragraph, the only sorted order puts the paragraph first |
| Flatten.ChildFirstMarkdown | src/popup.js:180-186 | that order renders and trims to `Hello **world**\n\n# Intro` |
| Flatten.ChildBeforeParent | src/popup.js:171-186 | the flattener emits the paragraph before the header that lists it |
| JsString.Trim | src/popup.js:186 | `trim`; its promises are stated by TrimLeavesNoOuterWhitespace, TrimIsInnerSlice, TrimCutsOnlyWhitespace and TrimIdempotent |
| JsString.Includes | src/popup.js:369 | `includes`; IncludesIffOccurs states that it holds exactly when the pattern occurs |
| JsString.ReplaceFirst | src/popup.js:378 | `replace` with a string pattern; ReplaceFirstLiteral and ReplaceWhole state what it does with a `$`-free replacement |
| JsString.TrimStart | src/popup.js:186 | only leading trimmable characters are removed, and the result starts with none |
| JsString.TrimEnd | src/popup.js:186 | only trailing trimmable characters are removed, and the result ends with none |
| JsString.TrimLeavesNoOuterWhitespace | src/popup.js:186 | the trimmed Markdown neither starts nor ends with a trimmable character |
| JsString.TrimIsInnerSlice | src/popup.js:186 | `trim` returns a contiguous slice of its input |
| JsString.TrimCutsOnlyWhitespace | src/popup.js:186 | everything `trim` cuts off on either side is white space or a line terminator |
| JsString.TrimIdempotent | src/popup.js:186 | a string without outer white space is left alone by `trim` |
| JsString.IndexOfFrom | src/popup.js:378 | the search returns the first occurrence at or after the start, and none when there is none |
| JsString.IncludesIffOccurs | src/popup.js:369 | `includes` holds exactly when the pattern occurs somewhere |
| JsString.Substitution | src/popup.js:378 | a replacement text without `$` is inserted literally |
| JsString.ReplaceFirstLiteral | src/popup.js:378 | `replace` with a string pattern and a `$`-free replacement splices it in place of the first occurrence only; with no occurrence nothing changes |
| JsString.ReplaceWhole | src/popup.js:378 | replacing a whole string by a `$`-free text gives that text |
| JsString.SepIndex | src/popup.js:279 | the position of the first separator, or none when the string has none |
| JsString.Split | src/popup.js:279 | `split` on one character gives at least one piece, and no piece holds the separator |
| JsString.JoinSplit | src/popup.js:279 | joining the pieces with the separator gives back the string |
| JsString.SplitJoin | src/popup.js:279 | splitting a join of separator-free pieces gives back the pieces |
| JsString.SplitAroundSeparator | src/popup.js:279 | splitting at a separator concatenates the splits of both sides |
| JsString.LastPieceIsSuffix | src/popup.js:279-280 | the last piece is a separator-free suffix, and a separator precedes it when it is not the whole string |
| PageId.PageIdFromPath | src/popup.js:276-286 | `getPageIdFromUrl` from the pathname; PageIdIsLeftmostHexRun and PageIdIgnoresEarlierSegments state its promises |
| PageId.ApiPageId | src/popup.js:310-332 | the id the cookie mode sends: the detected id passed through `formatPageId`; ApiPageIdIsCanonical states that it is a canonical UUID |
| PageId.FirstHexRun | src/popup.js:281 | a result is the start of a run of 32 lowercase hex digits |
| PageId.FirstHexRunIsLeftmost | src/popup.js:281 | no run starts before the result, and none at all when there is no result |
| PageId.LastSegment | src/popup.js:279-280 | the last path segment is a suffix of the pathname without `/`, preceded by `/` when shorter |
| PageId.PageIdIsLeftmostHexRun | src/popup.js:279-282 | no id exactly when the last segment has no 32-digit hex run; otherwise the id is the leftmost run |
| PageId.PageIdIgnoresEarlierSegments | src/popup.js:279-282 | directories before the last segment never affect the id |
| PageId.FormatPageId | src/popup.js:289-293 | a length other than 32 is returned unchanged; 32 characters become 36 with hyphens at 8, 13, 18 and 23 |
| PageId.FormatPageIdKeepsCharacters | src/popup.js:292 | every input character keeps its order, shifted by the hyphens inserted before it |
| PageId.RemoveHyphens | src/popup.js:292 | removing hyphens leaves none |
| PageId.FormatPageIdRoundTrip | src/popup.js:289-293 | removing the hyphens from the formatted id gives back the input |
| PageId.ApiPageIdIsCanonical | src/popup.js:310-332 | every id the cookie mode sends is a canonical 8-4-4-4-12 lowercase UUID |
| Relocate.HasCos | src/popup.js:352-358 | a COS client exists when bucket, secret id and secret key are all non-empty; ProcessImages and NoImagesUnchanged depend on it |
| Relocate.ObjectKey | src/popup.js:402-404 | the object key `prefix + digest + "." + ext`; ObjectKeyInjective states when two keys are equal |
| Relocate.Location | src/popup.js:414 | the bucket URL of a key; LocationEndsWithKey states its shape and that it determines the key |
| Relocate.UploadImage | src/popup.js:398-418 | `uploadImageToCos` with the fetch and upload as an outcome; UploadImageResult and UploadStoredMediaType state its promises |
| Relocate.RewriteStep | src/popup.js:377-378 | one iteration of the upload loop: the first-occurrence replace on success, no change on failure; RewriteStepSplices states its effect |
| Relocate.Rewritten | src/popup.js:374-383 | the text after the loop has handled the candidates in order; RelocateImages, FailedUploadsKeepText and ProcessedSingle state its promises |
| Relocate.Processed | src/popup.js:352-384 | the whole image pass; ProcessImages, NoImagesUnchanged, SingleImageRelocated and SingleImageFetchFails state its promises |
| Relocate.FileExtension | src/popup.js:403 | the extension is never empty and never holds `/` |
| Relocate.FileExtensionOfMediaType | src/popup.js:403 | `type/subtype` gives the subtype, or "png" when the subtype is empty |
| Relocate.FileExtensionWithoutSlash | src/popup.js:403 | a content type without `/` gives "png" |
| Relocate.ObjectKeyInjective | src/popup.js:402-404 | under one prefix, keys from digests of one length are equal exactly when digest and extension are |
| Relocate.LocationEndsWithKey | src/popup.js:414 | the location is an https URL ending in `/` and the key, and one bucket and region never give two keys one location |
| Relocate.UploadImageResult | src/popup.js:398-418 | an upload yields a location exactly when the blob was fetched and stored, and that location ends with the key from the digest and the extension |
| Relocate.UploadStoredMediaType | src/popup.js:398-418 | a stored `type/subtype` blob lands at the key made of the URL's digest and the subtype |
| Relocate.RelocateImages | src/popup.js:374-383 | the upload loop handles the candidates in order, one rewrite per attempt |
| Relocate.ProcessImages | src/popup.js:352-384 | with a COS client, the loop runs over the extracted candidates; without one, the text is unchanged |
| Relocate.FailedUploadsKeepText | src/popup.js:376-382 | when every upload fails, the text is unchanged |
| Relocate.RewriteStepSplices | src/popup.js:378 | a successful step replaces only the first occurrence of the candidate's text with the new link |
| Relocate.NoImagesUnchanged | src/popup.js:360-384 | text without `![` is never changed by the pass |
| Relocate.ProcessedSingle | src/popup.js:374-383 | with a single candidate, the pass is one rewrite with the first outcome |
| Relocate.SingleImageRelocated | src/popup.js:360-384 | one hosted image, stored as `type/subtype`, becomes the same image pointing at the bucket's copy |
| Relocate.SingleImageFetchFails | src/popup.js:360-384 | the same image whose fetch fails stays as it was |
| ImageScan.ToCandidate | src/popup.js:367-370 | the candidate of one match, with the match text and its two groups; CandidateOfLazyMatch states its shape |
| ImageScan.IsRelocatable | src/popup.js:369 | the host filter; RelocatableFilters states that exactly the candidates passing it are kept |
| ImageScan.Candidates | src/popup.js:362-372 | the filtered candidates of the whole scan; ExtractCandidates proves the loop computes them, CandidatesWellFormed states their shape, and NoImageSyntaxNoCandidates and SingleImageCandidates evaluate them |
| ImageScan.AltEnd | src/popup.js:362 | a found `](` lies within the text at or after the start |
| ImageScan.AltEndIsFirst | src/popup.js:362 | the lazy alt text ends at the first `](` on the line, and there is none when nothing is found |
| ImageScan.CloseParen | src/popup.js:362 | a found `)` lies within the text at or after the start |
| ImageScan.CloseParenIsFirst | src/popup.js:362 | the lazy URL ends at the first `)` on the line, and there is none when nothing is found |
| ImageScan.MatchAt | src/popup.js:362 | a match attempt at a position starts there and lies inside the text |
| ImageScan.MatchAtIsLazy | src/popup.js:362 | a match at a position is the lazy one: `![`, then alt up to the first `](`, then URL up to the first `)` |
| ImageScan.MatchAtIsShortestMatch | src/popup.js:362 | there is no match exactly when no `![alt](url)` starts there; otherwise the match is the one with the shortest alt and then the shortest URL |
| ImageScan.Exec | src/popup.js:366 | `exec` returns a match starting at or after `lastIndex` |
| ImageScan.ExecFindsFirstMatch | src/popup.js:366 | `exec` returns the leftmost match from `lastIndex`, and null when no position matches |
| ImageScan.ScanFrom | src/popup.js:362-372 | every match of the scan lies inside the text |
| ImageScan.ScanInOrder | src/popup.js:366-372 | matches come in increasing position order and do not overlap |
| ImageScan.ScanFindsMatches | src/popup.js:366-372 | every match of the scan is a lazy regex match |
| ImageScan.ScanEmptyIffNoMatch | src/popup.js:366 | the scan is empty exactly when no position matches |
| ImageScan.CandidateOfLazyMatch | src/popup.js:366-370 | a candidate's original is `![alt](url)` and occurs in the text; its URL holds no `)`, and neither URL nor alt holds a line terminator |
| ImageScan.Relocatable | src/popup.js:369-371 | the filter keeps at most as many candidates as there are matches |
| ImageScan.RelocatableFilters | src/popup.js:369-371 | a candidate is kept exactly when its URL includes one of the two hosts, and every kept one comes from a match |
| ImageScan.RelocatableOne | src/popup.js:369-371 | one match contributes its candidate when the URL passes the filter, and nothing otherwise |
| ImageScan.RelocatableAppend | src/popup.js:366-371 | the filter works match by match: it keeps the order of the matches and keeps every passing one, duplicates included |
| ImageScan.CandidatesWellFormed | src/popup.js:362-372 | every candidate the pass uploads is a whole `![alt](url)` link whose URL holds no `)` and passes the host filter |
| ImageScan.ExtractCandidates | src/popup.js:362-372 | the `exec` loop collects exactly the filtered candidates of the scan, in order |
| ImageScan.NoImageSyntaxNoCandidates | src/popup.js:362-372 | text without `![` gives no match and no candidate |
| ImageScan.SingleImageMatch | src/popup.js:362-370 | text that is one image link gives one match, whose candidate is the whole text with its alt and URL |
| ImageScan.SingleImageCandidates | src/popup.js:362-372 | that one image is a candidate exactly when its URL passes the host filter |

## Left out

- The popup's user interface, status messages, settings storage, cookies, tabs and clipboard are
  left out. They are browser I/O.
- `fetchNotionPage` and the network are left out. The API response is a parameter of
  `Flatten.ConvertNotionToMarkdown`.
- Image fetches and `cos.putObject` are left out. They are replaced by the outcome oracle.
- The MD5 digest is not computed; `hash` is an uninterpreted function.
- Token mode (`@notionhq/client` and `notion-to-md`) is left out. It is a foreign library.
- `new URL(...)` parsing and its `null` on a malformed URL are left out. The page id is modelled
  from the pathname.
- The check that the tab's URL includes `notion.so` is left out. It belongs to the event handler,
  not to the id helpers.
- Async ordering and promise plumbing are left out. The two loops run sequentially in the model.
- `Object.values` is modelled as the block sequence of the record map, in its given order.
- JavaScript values of shapes other than those of the datatypes are not modelled, such as a
  number where a segment is expected.
- Strings are sequences of `char`, not UTF-16 code units. Lengths, indices and slices of text
  outside the Basic Multilingual Plane are not modelled.
- The `recordMap` argument of `blockToMarkdown` is dropped, because the code never reads it.
- Flatten.SortBlocks: stands for `Array.prototype.sort` as a stable insertion sort that moves a
  block left only while the comparator is positive. With a comparator that is not transitive, an
  engine's actual order is engine-defined. The proved facts (a permutation, no neighbours out of
  order, nothing moved when no block lists another) are stated for this sort.
- Flatten.ConvertNotionToMarkdown: the sorted order is a ghost result. It is characterised by
  those facts rather than fixed to one engine's order.
- Relocate.SingleImageRelocated: stated only for a new link without `$`. The `$` patterns of
  `replace` are modelled in `JsString.Substitution`, but this lemma does not state what a `$` in
  the alt text or the location does to the rewrite.
- Relocate.RewriteStepSplices: stated only for an alt text and a new URL without `$`, for the
  same reason.
- PageId.FormatPageIdRoundTrip: stated for ids without `-`. Removing hyphens from the formatted
  id also removes any hyphen the input had. Every id `getPageIdFromUrl` returns is hex.
- Relocate.ObjectKeyInjective: stated for digests of one length. MD5 hex digests are always 32
  characters.
