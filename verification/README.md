# Markdown-to-WordPress publisher: the text-processing core

The publisher turns a markdown article into a WordPress post. This project
models the pure text processing that sits between reading the file and
calling the WordPress and image APIs. All of it is in `scripts/publish.py`.

- **parse_markdown.** The first match of `^#\s+(.+)` (MULTILINE) gives the
  post title: its group, stripped. Because `\s+` also matches newlines, `#`
  followed by a newline takes its title from the next line. With no match,
  the file's stem is the title. The match, and one newline after it if there
  is one, is cut out of the markdown body, and the body is stripped. The
  groups of the matches of `^##\s+(.+)` in the body are indexed as sections.
- **convert_to_gutenberg_blocks.** The rendered HTML is segmented into tables,
  blockquotes, bullet and numbered lists, level-2 and level-3 headings, and
  paragraphs. The regex search is leftmost, non-overlapping, and ends each
  element at the nearest closing tag. Each element is serialized as a
  Gutenberg block with its comment markers, and the blocks are joined by
  blank lines.
- **_convert_list_items.** Each `<li>` item of a list becomes a list-item
  block around its stripped text, and the blocks are concatenated.
- **select_sections_for_images.** This picks the headings that get an inline
  image. It samples with a stride from every heading but the last, or from
  the single heading when there is only one. For a positive `max_images`
  there are at most that many picks.
- **insert_inline_images.** This splices an image block in after the first
  level-2 heading block whose text matches the heading, ignoring case.
- **The image file-name slug.** Runs of characters other than `a-z0-9` in the
  lower-cased heading become `-`, and dashes are trimmed from both ends.

The Python regular expressions are modelled as explicit searches with the
same semantics:

- `re.finditer` and `re.findall` scan leftmost-first and resume at the end of
  each match.
- A lazy `.*?` stops at the first closing tag.
- `[^>]*` stops at the first `>`.
- `^#\s+(.+)` with MULTILINE lets the greedy `\s+` run across newlines. It
  then backtracks to the last position where `.+` can still match one
  character.

Modules:

| file | module | what |
|---|---|---|
| text.dfy | Text | Python's `str.strip`, literal substring search, ASCII lower-casing, `str.join` |
| segmenter.dfy | Segmenter | the seven-alternative element regex and its `finditer` |
| list_items.dfy | ListItems | `_convert_list_items` |
| gutenberg.dfy | Gutenberg | the block serializer and a reader that parses a block back |
| headings.dfy | MarkdownHeadings | the H1 title, its removal from the body, and the H2 section index |
| publish.dfy | Publish | `parse_markdown` as a whole, with the markdown renderer as a parameter |
| selection.dfy | Selection | `select_sections_for_images` |
| images.dfy | InlineImages | `insert_inline_images` |
| slug.dfy | Slug | the `safe_name` slug of an inline image |

## Model

| member | source | states |
|---|---|---|
| Selection.SelectSections | scripts/publish.py:252-261 | An empty heading list gives no picks. Otherwise pick `i` is candidate `i * step`, where `step` = max(1, len(candidates) // max_images). The candidates are all headings but the last, or the single heading when there is only one. For a positive `max_images` there are at most `max_images` picks. |
| Selection.SelectFirst | scripts/publish.py:252-261 | With a positive bound, a non-empty list always yields its first heading. A lone heading is kept even though it is also the last. |
| Selection.SelectNeverLast | scripts/publish.py:256-257 | With two or more headings, the last heading is never picked (the wrap-up section is skipped). |
| Selection.SelectCount | scripts/publish.py:259-261 | The number of picks is min(max_images, ceil(candidates / step)). |
| Selection.SelectNegativeBound | scripts/publish.py:259-261 | A negative `max_images` gives a stride of 1 (Python floor division) and cuts the last abs(max_images) candidates (Python negative slice). |
| Selection.FiveHeadingsThreeImages | scripts/publish.py:252-261 | Five headings and three images: the fifth is skipped and the first three are picked. |
| Selection.SevenHeadingsThreeImages | scripts/publish.py:252-261 | Seven headings and three images: the stride is 2 and headings 0, 2 and 4 are picked. |
| Slug.Slug | scripts/publish.py:242 | The slug is the maximal `a-z0-9` runs of the lower-cased heading, in order, joined by single dashes. So it holds only `a-z0-9` and `-`, never starts or ends with `-`, and never has two dashes in a row. |
| Slug.SlugKeepsSlugChars | scripts/publish.py:242 | The slug keeps exactly the `a-z0-9` characters of the lower-cased heading, in order. It is empty exactly when there are none. |
| Slug.SlugIdempotent | scripts/publish.py:242 | Slugging a slug changes nothing. |
| Slug.Collapse | scripts/publish.py:242 | `re.sub('[^a-z0-9]+', '-')` leaves only slug characters and single dashes. The output starts with a dash exactly when the input starts with a separator. |
| Slug.CollapseWords | scripts/publish.py:242 | `re.sub('[^a-z0-9]+', '-')` gives the maximal `a-z0-9` runs joined by single dashes. One more dash stands in front when the input starts with a separator, and one at the end when a separator run follows the last run. |
| Slug.TrimmedCollapse | scripts/publish.py:242 | `.strip('-')` of the collapsed text is exactly the runs joined by single dashes. |
| Slug.WordsOfTwo | scripts/publish.py:242 | Two runs of `a-z0-9` with any run of other characters between them are two words. So the slug of such a heading is the two runs with one dash between them. |
| Slug.TwoWords | scripts/publish.py:242 | The heading `A b` gives the slug `a-b`. |
| Slug.CollapseKeepsSlugChars | scripts/publish.py:242 | Collapsing separator runs neither loses nor adds slug characters. |
| ListItems.ItemTexts | scripts/publish.py:72 | No item found by the lazy `<li>(.*?)</li>` search contains `</li>`. |
| ListItems.ItemTextsOfMarkup | scripts/publish.py:72-75 | Searching the list-item markup built from items free of `</li>` gives back exactly those items, in order. |
| ListItems.ConvertListItems | scripts/publish.py:70-76 | The output is tiled by one list-item block per `<li>(.*?)</li>` match, in order, with nothing between them. Each block is `<!-- wp:list-item -->`, a newline, `<li>`, the stripped item text, `</li>`, a newline, `<!-- /wp:list-item -->` and a newline. Searching the output for `<li>(.*?)</li>` gives back exactly the stripped items. A list without items gives the empty string. |
| ListItems.ItemsMarkupIsJoin | scripts/publish.py:70-76 | The list-item markup is the `"".join` of the item blocks. |
| ListItems.StripKeepsNoItemClose | scripts/publish.py:75 | Stripping an item cannot create a `</li>`. |
| Segmenter.FindDelimited | scripts/publish.py:82-91 | A found element opens with its tag at the scan position, a heading's open tag runs to its first `>`, and the content ends at the first closing tag. |
| Segmenter.FindDelimitedComplete | scripts/publish.py:82-91 | If such an element starts at the scan position, the search finds exactly it. |
| Segmenter.DelimitsUnique | scripts/publish.py:82-91 | The lazy `.*?` admits one match per start position. |
| Segmenter.OpenTagsExclusive | scripts/publish.py:83-89 | No two of the seven opening tags match at the same position. |
| Segmenter.MatchUnique | scripts/publish.py:82-91 | At any position at most one alternative of the pattern matches, and it matches in one way. |
| Segmenter.FirstMatchAmong | scripts/publish.py:82-91 | The alternatives are tried in pattern order. "No match" means no alternative matches at that position. |
| Segmenter.FirstMatchAtComplete | scripts/publish.py:82-91 | If no alternative is found at a position, the pattern does not match there. |
| Segmenter.Segment | scripts/publish.py:93 | The matches of `finditer` lie inside the document, in increasing order, without overlapping. |
| Segmenter.SegmentMatches | scripts/publish.py:93 | Every match of `finditer` is a real match of the pattern. |
| Segmenter.SegmentCovers | scripts/publish.py:93 | Every position where the pattern matches is either a match of `finditer` or lies inside an earlier one. |
| Segmenter.ClassifyElement | scripts/publish.py:96-149 | The `startswith` / `re.match` chain sends every matched element to the branch of the alternative that matched it. |
| Segmenter.ElementIsMatch | scripts/publish.py:103-142 | Searching the element again for its own alternative matches at its start, with the same content. |
| Gutenberg.Render | scripts/publish.py:96-149 | A block's markup starts with its kind's opening marker and tag, ends with its closing tag and marker, and holds exactly the block's content between them. |
| Gutenberg.RenderShape | scripts/publish.py:96-149 | Every block is its start marker line, the content tags around the content, and its end marker line. |
| Gutenberg.BlockOpenExclusive | scripts/publish.py:96-149 | No two block kinds share an opening marker, so the kind can be read off a block. |
| Gutenberg.ParseRender | scripts/publish.py:96-149 | A well-formed block is read back from its serialization as the same block. |
| Gutenberg.FromContentOfBlock | scripts/publish.py:96-149 | A block's kind and content determine the block. |
| Gutenberg.SearchFrom | scripts/publish.py:103-142 | A match that the inner `re.search` finds is a real match of the alternative, starting at or after the search position. |
| Gutenberg.SearchFromLeftmost | scripts/publish.py:103-142 | The inner `re.search` is leftmost: no match starts between the search position and the match found, and it fails only when no match starts anywhere from there on. |
| Gutenberg.ElementToBlock | scripts/publish.py:96-149 | An element gives a block only when a branch of the if-chain accepts it, and the block has that branch's kind. An accepted table, blockquote, list or paragraph always gives a block. A heading gives one exactly when the re-search for its content succeeds. |
| Gutenberg.SearchElement | scripts/publish.py:103-142 | The inner re-search in the blockquote and heading branches always succeeds and finds the matched content. The heading branch's `.group(1)` therefore never fails. |
| Gutenberg.ListBlockContent | scripts/publish.py:112-126 | In the `<ul>` and `<ol>` branches, the list block's content is exactly what `_convert_list_items` makes of the element. |
| Gutenberg.BlockOfListContent | scripts/publish.py:112-126 | The block read off a list match holds what `_convert_list_items` makes of the matched element. |
| Gutenberg.ElementToBlockSpec | scripts/publish.py:96-149 | The if-chain turns each element into the block its match stands for. A table or paragraph keeps the whole element, a blockquote its content stripped, a list its items stripped, and a heading its content as is. |
| Gutenberg.BlockOfWellFormed | scripts/publish.py:112-126 | No list item of a serialized list contains `</li>`. |
| Gutenberg.Blocks | scripts/publish.py:93-149 | There is one block per `finditer` match, in match order, and block `i` is the block that match `i` stands for. |
| Gutenberg.BlocksSpec | scripts/publish.py:93-149 | There is exactly one block per `finditer` match, in order, each the block its match stands for, and each well-formed. |
| Gutenberg.Convert | scripts/publish.py:151 | The output is tiled by the blocks' markup and `\n\n`. Block `i` sits at its offset, `\n\n` follows it directly, and block `i + 1` starts right after that. Nothing follows the last block, so the length is exactly the blocks plus the separators. No blocks give the empty string. |
| Gutenberg.ConvertInOrder | scripts/publish.py:93-151 | Tile `i` of the output is the markup of the block for `finditer` match `i`: the output follows the matches one for one, in order. |
| Text.JoinTiles | scripts/publish.py:151 | `sep.join(parts)` is tiled by the parts: each part at its offset, the separator right after it, the next part right after that, and nothing after the last part. |
| Gutenberg.ConvertReadsBack | scripts/publish.py:93-151 | Each block in the output reads back as the block of its match. |
| Gutenberg.ConvertNoMatches | scripts/publish.py:93-151 | HTML where no alternative matches converts to the empty string. |
| MarkdownHeadings.LineMatch | scripts/publish.py:158 | A match of `#\s+(.+)` at a line start has: the hashes, whitespace (possibly across newlines), then a group that is non-empty, free of newlines, and runs to the end of its line. |
| MarkdownHeadings.LineMatchGreedy | scripts/publish.py:158 | When the pattern can match, it does, and its group starts no earlier than any other parse (greedy `\s+`). |
| MarkdownHeadings.LineMatchPlain | scripts/publish.py:158 | When the text after the whitespace starts with a non-space, the group is exactly the rest of that line. |
| MarkdownHeadings.HeadingAt | scripts/publish.py:158-169 | A match only happens at a line start (MULTILINE `^`). The group is non-empty and has no newline. |
| MarkdownHeadings.DoubleHashIsNoTitle | scripts/publish.py:158 | A `##` line is never taken for the title. |
| MarkdownHeadings.TripleHashIsNoSection | scripts/publish.py:169 | A `###` line is not a section, at any of its first three positions. |
| MarkdownHeadings.FirstHeading | scripts/publish.py:158 | `re.search` gives the leftmost match, and "none" means no match anywhere. |
| MarkdownHeadings.ExtractTitle | scripts/publish.py:158-162 | With no match anywhere, the title is the file stem and the body is the stripped input. Otherwise the title is the stripped group of the leftmost match. The body is the input with the match cut out, from its start to the end of its line plus one following newline if present, then stripped. The title has no newline and the body is shorter than the input. |
| MarkdownHeadings.TitleAfterPrefix | scripts/publish.py:158-162 | A `# t` line that follows lines with no title match (front matter, say) gives the title strip(t). The body is everything else with that line and its newline cut out, stripped. |
| MarkdownHeadings.TitleOfFirstLine | scripts/publish.py:158-162 | A file that opens with `# t` gives the title strip(t), and the body is the rest stripped. |
| MarkdownHeadings.TitleAcrossNewline | scripts/publish.py:158 | The greedy `\s+` crosses a newline: a bare `#` line followed by `Hello` gives the title `Hello`. |
| MarkdownHeadings.H2Sections | scripts/publish.py:169 | Every section title found is non-empty and on one line. SectionsAtMatch, SectionsSkipLine and SectionsLastLine give the list line by line. |
| MarkdownHeadings.SectionsShift | scripts/publish.py:169 | Scanning from a line start gives the same sections as scanning the text that begins there. |
| MarkdownHeadings.SectionsAtMatch | scripts/publish.py:169 | A `##` match at the start gives its group as the first section. The rest are the sections of the text after the group's line. |
| MarkdownHeadings.SectionsSkipLine | scripts/publish.py:169 | A first line with no `##` match contributes nothing: the sections are those of the lines after it. |
| MarkdownHeadings.SectionsLastLine | scripts/publish.py:169 | A single line with no `##` match gives no sections. |
| MarkdownHeadings.IntroThenSection | scripts/publish.py:169 | The body `Intro\n## A\n` has the single section `A`: the introduction line is skipped. |
| MarkdownHeadings.SectionOfFirstLine | scripts/publish.py:169 | A body that opens with `## t` has `t` as its first section, followed by the sections of the rest. |
| Publish.ParseMarkdown | scripts/publish.py:153-171 | The sections are non-empty single lines. With no match of `^#\s+(.+)` (MULTILINE), the title is the stem, and both the HTML and the sections come from the stripped file. Otherwise let the leftmost match run from `p` to the end `e` of its group. The title is the stripped group. The body is the input without `p` up to `e` and one newline after `e` if there is one, then stripped. The HTML is the block conversion of the rendered body, and the sections are those of the body. |
| Publish.ParseTitledFile | scripts/publish.py:153-171 | For a file that opens with `# t`: the title is strip(t), the HTML is the block serialization of the rendered stripped rest, and the sections are those of the stripped rest. |
| InlineImages.Anchor | scripts/publish.py:295-302 | The image goes right after the first case-insensitive occurrence of the heading's level-2 block. With no occurrence there is no anchor. |
| InlineImages.InsertOne | scripts/publish.py:288-303 | With no match the body is unchanged. Otherwise the result is the body up to the anchor, then the image block, then the rest of the body, with the matched text kept as it was. |
| InlineImages.InsertAll | scripts/publish.py:286-304 | Applying the map only adds text, and at most one image block per entry. |
| InlineImages.InsertAllUndo | scripts/publish.py:286-304 | Cutting the inserted image blocks back out, last one first, gives back the original HTML: nothing else is changed. |
| InlineImages.InsertOneUndo | scripts/publish.py:288-303 | Cutting one inserted image block out gives back the body. |
| InlineImages.AnchorFindsHeadingBlock | scripts/publish.py:295-302 | If a level-2 block for the heading is present in any case, an anchor is found, at or before the end of that block. |
| InlineImages.InsertAfterHeadingBlock | scripts/publish.py:288-303 | A heading block at the front gets the image block immediately after it. |
| InlineImages.InsertOneAgain | scripts/publish.py:288-303 | Placement is not idempotent: the same entry applied again finds the same anchor and adds a second image. |
| InlineImages.InsertAllNoMatch | scripts/publish.py:286-304 | A map whose headings have no block in the body leaves the body unchanged. |

## Left out

- File reading, `Path(filepath).stem`, and the markdown-to-HTML renderer (the `markdown` package with its tables, fenced_code and nl2br extensions) are not part of this model. The stem is a parameter, and the renderer is a function parameter of `Publish.ParseMarkdown`.
- Image generation and download (OpenAI), the WordPress REST calls, authentication headers, prompts, logging and the command line are I/O and are left out.
- Slug.Slug: `str.lower` is modelled as ASCII lower-casing. Unicode case mapping is not modelled.
- InlineImages.Anchor: the IGNORECASE search is modelled by comparing ASCII-lower-cased text. Unicode case folding is not modelled.
- InlineImages.InsertOne: the image block is treated as literal text. In the source it is part of a `re.sub` replacement template, so a backslash in the URL or heading would be read as an escape. Headings and URLs with backslashes are outside this model.
- InlineImages.InsertAll: the `dict` of heading to media URL is a sequence of pairs, in the dict's insertion order.
- Segmenter.Segment: the element regex is modelled exactly, so HTML the renderer does not emit is segmented as the regex would segment it. Examples are nested lists (the outer list ends at the first `</ul>`) and `<p>` tags with attributes (not matched). No claim is made about that output being useful.
- Gutenberg.ElementToBlock: when the heading re-search fails, the source raises on `.group(1)`. The model returns no block instead. `Gutenberg.SearchElement` proves that this case never arises for a matched element.
- Selection.SelectSections: `max_images == 0` with a non-empty heading list raises ZeroDivisionError in the source. The precondition excludes it.
- Python strings are sequences of characters. Encoding and normalisation are not modelled.
