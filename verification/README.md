# Rabindra poem parser: a Dafny model

This project models the text-extraction core of the Rabindra poetry scraper (`RabindraPoetryParser` in `poem_scraper.py`). The scraper turns the poem container of an HTML page into plain lines of verse. The model covers two things:

- how one element is flattened into text: non-breaking spaces become spaces, a `<font>` becomes one space per non-breaking space it holds, and a `<br>` becomes a newline;
- how a page is turned into lines: the first `div` whose `id` contains "kobita" is the container, and one of two layouts is applied to it.

It also covers the pure step that joins the texts of a poem's pages with a page divider.

The parsed page is an input datatype, `Html.Node = Text(text) | Element(tag, id, children)`. Children are in document order. An absent `id` is `""`, because `contains(@id, "kobita")` is false for both an absent id and `""`. Everything is a pure function over this tree. Properties are stated as lemmas.

Files and modules:

- `seqs.dfy` (`Seqs`): `Option`, and an order-preserving `Filter`. `Filter` stands for an XPath node-set read in document order, and for a list comprehension with an `if` clause.
- `strings.dfy` (`Strings`): the Python `str` operations the parser uses:
  - whitespace as `str.isspace` defines it: the full Unicode set, including U+00A0 and U+3000;
  - `rstrip`, `lstrip`, `strip`;
  - `replace` and `count`, with leftmost, non-overlapping matches, as CPython does them;
  - `split` on one character, and `join`;
  - `contains`, and ASCII `lower`.
- `html.dfy` (`Html`): the node tree, `.//text()` as `TextContent`, and document (pre-)order as `PreOrder` and `Descendants`.
- `extraction.dfy` (`Extraction`): `extract_text_with_spacing`, as `Contribution`, `Extract` and `ExtractAll`.
- `poem_content.dfy` (`PoemContent`): `parse_poem_content`. It covers the container search, the layout choice, paragraph lines, break lines and the final join.
- `pages.dfy` (`Pages`): the page combination at the end of `scrape_poem`.

How tags are recognised:

- `<font>` and `<br>` are recognised with `tag.lower()`. The model lowers ASCII letters only. No non-ASCII code point lowers to any of `f o n t b r` in Python, so for these two names the result is the same.
- The XPath name tests `//div` and `.//p` compare the tree's tag exactly.

Behaviour worth noting:

- Newlines inside text nodes are kept, not collapsed. In the break layout they split lines like a `<br>` does.
- A `<font>` never contributes its ordinary text. It contributes only spaces.
- In the break layout, a piece made only of spaces and starting with a space is kept as the empty line `""`. It is not dropped. A piece that is empty, or blank without a leading space, is dropped.
- In the paragraph layout, a `<p>` whose text is non-empty but all whitespace gives the empty line `""`. A `<p>` whose text is empty gives nothing.

## Model

| member | source | states |
|---|---|---|
| Extraction.ExtractAllAppend | poem_scraper.py:20-44 | An element's text is the concatenation of its children's contributions in document order. Extraction distributes over any split of the child list, and one child gives exactly its own contribution. |
| Extraction.ExtractAllEmpty | poem_scraper.py:20-44 | A child list gives "" exactly when every child contributes "". This includes the case of no children. |
| Extraction.InlineWrapperTransparent | poem_scraper.py:38-41 | An element that is neither `<font>` nor `<br>` is walked in turn. Wrapping children in such an element leaves the extracted text unchanged. |
| Extraction.FontContribution | poem_scraper.py:29-33 | A `<font>` contributes exactly N spaces. N is the number of `\xa0` plus the number of positions where `&nbsp;` starts in the concatenation of all its descendant text, so an entity split across text nodes still counts. It never contributes a newline, even for a nested `<br>`. It contributes "" when N = 0, whatever other text it holds. |
| Extraction.TextContribution | poem_scraper.py:24-27 | A text child contributes its text read in one pass, with each `&nbsp;` and each `\xa0` turned into one space and every other character kept in place. So it holds no `\xa0` and exactly the newlines of its text. A text with no `&nbsp;` contributes itself with each `\xa0` turned into a space. |
| Extraction.NormalizeSinglePass | poem_scraper.py:27 | Replacing `&nbsp;` after every `\xa0` has become a space gives the same text as the single left-to-right pass: the first replacement neither creates nor breaks an `&nbsp;`. |
| Extraction.NoNbspInExtract | poem_scraper.py:14-44 | No extracted text contains `\xa0`. |
| Extraction.NewlinesCounted | poem_scraper.py:20-44 | The number of newlines in the extracted text equals the number of `<br>` elements the walk reaches, plus the newlines in the text nodes it reaches. The walk does not go inside a `<font>` or a `<br>`. |
| Strings.ReplaceCharCount | poem_scraper.py:27 | `replace(pat, rep)` keeps every character not in `pat`. It adds that character's count in `rep` once per occurrence replaced. |
| Strings.CountOneChar | poem_scraper.py:31 | `count` of a one-character pattern is the number of times that character occurs. |
| Strings.CountNonOverlapping | poem_scraper.py:31 | For a pattern whose first character does not recur inside it, such as `&nbsp;`, `count` equals the number of positions where the pattern starts. |
| Extraction.EntityCount | poem_scraper.py:31 | `count("&nbsp;")` equals the number of positions where `&nbsp;` starts, because the entity cannot overlap itself. |
| Strings.ReplaceOneChar | poem_scraper.py:27 | Replacing one character by one character rewrites exactly the positions holding it and keeps every other character in place. |
| Strings.ReplaceAbsent | poem_scraper.py:27 | Replacing a pattern that does not occur leaves the text unchanged. |
| PoemContent.FirstKobitaDivSpec | poem_scraper.py:49-52 | There is no container exactly when no node is a `div` whose `id` contains "kobita". Otherwise the container is such a `div`, and no node before it in document order is one. |
| Strings.ContainsAt | poem_scraper.py:49 | The test `contains(@id, "kobita")` holds exactly when "kobita" sits at some position of the `id`. |
| PoemContent.LayoutChoice | poem_scraper.py:54-55 | The paragraph layout is taken exactly when some `<p>` lies below the container. The break layout is taken exactly when none does. |
| PoemContent.ParagraphLineShape | poem_scraper.py:58-67 | A `<p>` yields a line exactly when its extracted text is non-empty. The line is that text with every newline removed and trailing whitespace cut off, so it holds no newline. It is "" exactly when the text is all whitespace. |
| Strings.RemoveNewlines | poem_scraper.py:61 | `replace("\n", "")` keeps every other character, in order. |
| Strings.RStripSpec | poem_scraper.py:61 | `rstrip()` gives the longest prefix that does not end in whitespace. What it cuts off is all whitespace, and the result is "" or ends in a non-whitespace character. |
| Strings.StripEmptyIffBlank | poem_scraper.py:64-66 | `strip()` is falsy exactly when the text is all whitespace. |
| PoemContent.ParagraphLinesInOrder | poem_scraper.py:56-69 | The paragraph layout emits one line per `<p>` with non-empty text and none for the others, in document order. The k-th line is the line of the k-th such `<p>`. |
| PoemContent.OutsideParagraphsIgnored | poem_scraper.py:54-69 | In the paragraph layout, inserting a child that neither is nor holds a `<p>`, at any position, leaves the lines unchanged. Text outside every `<p>` is ignored. |
| PoemContent.KeptPieceMeaning | poem_scraper.py:73-75 | A piece is kept exactly when it has a non-whitespace character or starts with a space. A kept piece that is all whitespace becomes "". |
| PoemContent.BreakLinesInOrder | poem_scraper.py:71-76 | The break-layout lines are the kept newline-separated pieces of the container's text, in order, each right-stripped. None holds a newline. There are at most as many lines as newlines plus one. |
| Strings.SplitSpec | poem_scraper.py:72 | `split("\n")` gives one piece more than there are newlines, and no piece holds a newline. |
| Strings.JoinSplit | poem_scraper.py:72 | Joining the pieces of a split with the separator gives back the text. |
| PoemContent.PoemLinesHaveNoNewline | poem_scraper.py:56-76 | No poem line holds a newline, in either layout. |
| Strings.SplitJoin | poem_scraper.py:69 | Splitting a join gives back its parts, when there is at least one part and no part holds the separator. |
| PoemContent.ParseRoundTrip | poem_scraper.py:47-76 | A page with no kobita `div` gives "". Otherwise, splitting the result on "\n" gives back the lines of the first kobita `div`, provided there is at least one line. |
| Pages.CombinePagesIsJoin | poem_scraper.py:178-182 | The three cases (several pages, one page, none) agree with one join on the page divider. |
| Pages.CombinePagesAppend | poem_scraper.py:178-182 | One more page adds the divider and that page at the end, so every page appears whole and in order. |
| Pages.CombinePagesLength | poem_scraper.py:178-182 | The combined text is as long as the pages plus one divider between each two consecutive pages. |
| Pages.CombinePagesEmpty | poem_scraper.py:159-182 | Only non-empty page texts are collected, so the combined text is "" exactly when every page parsed to "". |
| Strings.JoinAppend | poem_scraper.py:179 | Appending a part to a non-empty join adds one separator and the part. |
| Strings.JoinLength | poem_scraper.py:179 | A join of n > 0 parts is as long as the parts plus n - 1 separators. |

## Left out

- HTTP fetching and session setup (`get_page`, `__init__`): network I/O.
- Link discovery (`get_collection_poems`, `get_next_page_url`): XPath queries and `urljoin`, whose behaviour is library code.
- The crawl loops `scrape_poem`, `scrape_collection` and `scrape_all_collections`: I/O, delays, exception handling and printing. Only the pure combination of page texts is modelled.
- `save_poems` and `save_poems_text`: file system and JSON output.
- HTML parsing and XPath evaluation: the parsed tree is an input, and node-sets are modelled as document-order filters over it.
- Comment and processing-instruction nodes are not represented. lxml gives them a non-string `tag`, which the program's `tag.lower()` does not handle.
- Attributes other than `id`, and tail text as a separate concept: lxml's text and tail are both text-node children here.
- `main.py` is not part of this model. It is a command-line entry point.
