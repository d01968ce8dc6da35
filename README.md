# Help-center chunker: a Dafny model

This project models the two pieces of logic in the help-center scraper `Qaunt.py`:

- **The chunker** (`chunk_text_blocks`). It packs an article's ordered text blocks into chunks. Consecutive blocks are joined by `"\n"`. The current chunk is closed as soon as `len(current) + len(block) + 1 < max_length` fails. A block is never split, so an oversized block becomes a chunk of its own.
- **The link filter** of `get_help_articles`. It keeps the hrefs that contain `/help/` and whose lower-cased form does not contain `academy`. Hrefs that do not start with `http` get the site origin put in front. Duplicates are removed.

Strings are `seq<char>`, and Python's `len` is the sequence length.

Files:

- `strings.dfy` (module `Strings`): the Python built-ins `sep.join`, `in`, `startswith` and `lower()`.
- `chunker.dfy` (module `Chunker`): the chunker.
  - The loop body is the function `Step`, and `Run` folds it over the blocks. `Chunks` adds the final guarded push.
  - The method `ChunkTextBlocks` is the loop itself, proved equal to `Chunks`.
  - `GreedyPartition` characterises the result independently of the loop: the groups flatten back to the blocks, every group is non-empty, a group of two or more blocks joins to fewer than `max_length` characters, and the first block of each group did not fit after the group before it.
  - The lemmas prove that for non-empty blocks the chunks are that partition joined by newlines, and that the partition is unique.
- `link_filter.dfy` (module `LinkFilter`): the filter.
  - It works on the list of `href` values already read from the listing page's anchors. An anchor without `href` reads as `""`, which the filter rejects.
  - The origin is a parameter, and the constant `BaseUrl` holds the value the source uses.
  - The method `GetHelpArticles` has the source's loop, then the de-duplication `Deduplicate`.

## Model

| member | source | states |
|---|---|---|
| Chunker.ChunkTextBlocks | Qaunt.py:94-126 | The loop returns `Chunks(blocks, max_length)`. No block list gives no chunks. Every chunk is non-empty. There are never more chunks than blocks. For non-empty blocks the chunks are the greedy partition of the blocks, each group joined by `"\n"`. |
| Chunker.ChunksNonEmpty | Qaunt.py:109-124 | Every returned chunk is non-empty, even when input blocks are empty: a chunk is pushed only from a non-empty accumulator. |
| Chunker.ChunkCount | Qaunt.py:103-124 | The number of chunks is at most the number of blocks. |
| Chunker.OversizedChunkIsBlock | Qaunt.py:108-120 | For any blocks and any bound, a chunk of length at least `max_length` is one of the input blocks, kept whole. |
| Chunker.OversizedBlockIsOwnChunk | Qaunt.py:108-120 | For any blocks and any bound, a non-empty block of length at least `max_length` comes back as a chunk of its own. |
| Chunker.ChunksArePartition | Qaunt.py:103-124 | For non-empty blocks the chunks are a greedy partition of the blocks joined group by group. No block is lost, duplicated, reordered or split. A multi-block chunk is shorter than `max_length`, and each later chunk's first block did not fit after the chunk before it. |
| Chunker.GreedyPartitionUnique | Qaunt.py:113-120 | At most one partition of a block list is greedy, so the fit test at line 113 fixes every chunk boundary. |
| Chunker.ChunksAreTheGreedyPartition | Qaunt.py:103-124 | For non-empty blocks, any greedy partition joined group by group equals the returned chunks. |
| Chunker.ChunkBoundaries | Qaunt.py:113-120 | For non-empty blocks, a chunk of length at least `max_length` has exactly one block. For consecutive chunks, `len(chunk_i) + len(first block of chunk_{i+1}) + 1 >= max_length`. |
| Chunker.SingleBlock | Qaunt.py:108-110 | A single non-empty block comes back as exactly one chunk equal to it, for any bound. |
| Chunker.LeadingEmptyBlock | Qaunt.py:109-110 | An empty block met while the accumulator is empty disappears: `[""] + blocks` gives the same chunks as `blocks`, for every list of blocks and every bound. |
| Chunker.TrailingEmptyBlock | Qaunt.py:109-124 | For `["a", ""]`: with a bound above 2 the empty block is appended and the only chunk, `"a\n"`, ends in a newline. With a bound of 2 or less it closes `"a"` and vanishes. |
| Chunker.EmptyBlockAfterBlock | Qaunt.py:109-124 | For `["a", "", "b"]` and every bound: above 4 the empty block leaves a blank line inside the one chunk `"a\n\nb"`. At 3 or 4 the chunks are `"a\n"` and `"b"`. Below 3 the empty block closes `"a"` and vanishes, giving `"a"` and `"b"`. |
| Chunker.HeadingThenParagraph | Qaunt.py:113-120 | `["Heading A", "Paragraph text here"]` with bound 25 gives two chunks, because 9 + 19 + 1 = 29 is not below 25. |
| Chunker.HeadingAndParagraphShareChunk | Qaunt.py:139 | The same two blocks with the driver's bound of 750 share one chunk, `"Heading A\nParagraph text here"`. |
| Strings.ContainsAt | Qaunt.py:31 | `sub in s` holds exactly when `sub` occurs at some index of `s`. |
| LinkFilter.ArticleLinksMembership | Qaunt.py:25-36 | A URL is among the collected links iff some href contains `/help/`, its lower-cased form lacks `academy`, and it normalises to that URL. A normalised href is kept verbatim when it starts with `http` and prefixed with the origin otherwise. |
| LinkFilter.Deduplicate | Qaunt.py:39 | `list(set(xs))` has no duplicates and the same elements as `xs`. |
| LinkFilter.GetHelpArticles | Qaunt.py:25-40 | The result has no duplicates. A URL is in it iff it is the normalised form of an accepted href. Every returned URL contains `/help/`. When the lower-cased origin has no `a`, no returned URL mentions `academy` in any letter case. |
| LinkFilter.ArticleLinksAvoidExcluded | Qaunt.py:28-36 | When the lower-cased origin has no `a`, no collected link contains `academy` once lower-cased, even though the test at line 31 looks only at the href and not at the origin put in front of it. |
| LinkFilter.BaseUrlAvoidsExcluded | Qaunt.py:6 | The site's origin `https://www.notion.so` has no `a`, so the two guarantees above hold for the links the scraper collects. |
| LinkFilter.RelativeArticleAccepted | Qaunt.py:31-36 | `/help/foo` is accepted and becomes `https://www.notion.so/help/foo`. |
| LinkFilter.AcademyRejected | Qaunt.py:31 | `/help/academy/bar` is rejected. |
| LinkFilter.AbsoluteArticleAccepted | Qaunt.py:31-34 | `https://other.site/help/baz` is accepted and kept verbatim. |
| LinkFilter.OtherPageRejected | Qaunt.py:31 | `/other/page` is rejected. |
| LinkFilter.ListingExample | Qaunt.py:25-36 | The four hrefs above give exactly `https://www.notion.so/help/foo` and `https://other.site/help/baz`. |

## Left out

- `requests.get` (Qaunt.py:15, 48): network I/O. The link filter starts from the `href` values and takes the origin as a parameter.
- `scrape_article` (Qaunt.py:43-91) is not modelled. The container lookup, `find_all`, `get_text(strip=True)` and the body fallback all belong to the HTML parser. The block order (headings, then paragraphs, then lists) comes from those calls.
- The bullet prefix at Qaunt.py:85 is a mis-encoded character and is not modelled.
- `main` (Qaunt.py:129-153) is not modelled. It holds the per-article `try`/`except` with its console message, the JSON file written at the end, and the `(url, chunk_index, text)` records built by `enumerate`. The bound 750 it passes is the constant `Chunker.DefaultMaxLength`.
- Strings.Lower: maps only the ASCII capitals `A`-`Z`. Python's `str.lower()` also lower-cases non-ASCII letters. Only two non-ASCII characters lower to ASCII characters: U+0130 lowers to `i` followed by a combining dot, and U+212A (Kelvin sign) lowers to `k`. Neither `i` nor `k` is a letter of `academy`, so for every href the ASCII mapping gives the same answer to the `academy` test as Python's.
- LinkFilter.Deduplicate: states the elements and the absence of duplicates, not the order. The iteration order of a Python `set` is not specified.
- LinkFilter.GetHelpArticles: states the elements and the absence of duplicates, not the order, for the same reason.
- Chunker.ChunksArePartition: stated for non-empty blocks only. An empty block can disappear, leave a blank line inside a chunk, or end a chunk with a newline (see `Chunker.LeadingEmptyBlock`, `Chunker.EmptyBlockAfterBlock` and `Chunker.TrailingEmptyBlock`). The scraper emits only non-empty blocks. For arbitrary blocks the model proves non-empty chunks, the count bound and the size bound.
