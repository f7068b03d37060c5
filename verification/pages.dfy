/**
 The last step of `RabindraPoetryaScraper.scrape_poem`: the non-empty texts
 of a poem's pages, in the order they were fetched, combined into one text
 with a visible page divider between consecutive pages.
 */
module Pages {
  import opened Seqs
  import opened Strings

  /** "\n\n--- পাতা বিভাজক ---\n\n" (Bengali for "page divider"). */
  const PageSeparator: string :=
    "\n\n--- \U{09AA}\U{09BE}\U{09A4}\U{09BE} \U{09AC}\U{09BF}\U{09AD}\U{09BE}\U{099C}\U{0995} ---\n\n"

  /** Two or more pages are joined with the divider, a single page is taken
      as it is, and no page gives "". */
  function CombinePages(pages: seq<string>): string {
    if |pages| > 1 then Join(pages, PageSeparator)
    else if |pages| == 1 then pages[0]
    else ""
  }

  /** The three cases agree with one plain join on the divider. */
  lemma CombinePagesIsJoin(pages: seq<string>)
    ensures CombinePages(pages) == Join(pages, PageSeparator)
  {
  }

  /** One more page adds a divider and that page at the end: the pages appear
      whole and in order. */
  lemma CombinePagesAppend(pages: seq<string>, page: string)
    requires |pages| > 0
    ensures CombinePages(pages + [page]) == CombinePages(pages) + PageSeparator + page
  {
    JoinAppend(pages, page, PageSeparator);
  }

  /** The combined text is as long as the pages plus one divider between each
      two consecutive pages. */
  lemma CombinePagesLength(pages: seq<string>)
    requires |pages| > 0
    ensures |CombinePages(pages)| == TotalLength(pages) + (|pages| - 1) * |PageSeparator|
  {
    JoinLength(pages, PageSeparator);
  }

  /** A page's parsed text is kept only when it is non-empty. */
  predicate NonEmpty(s: string) {
    s != ""
  }

  /** The page texts `scrape_poem` collects from the texts it parsed, in the
      order the pages were fetched. */
  function CollectedPages(contents: seq<string>): seq<string> {
    Filter(contents, NonEmpty)
  }

  /** The combined text is "" exactly when every page parsed to "". */
  lemma {:induction false} CombinePagesEmpty(contents: seq<string>)
    ensures CombinePages(CollectedPages(contents)) == "" <==>
              forall i :: 0 <= i < |contents| ==> contents[i] == ""
  {
    var pages := CollectedPages(contents);
    FilterHead(contents, NonEmpty);
    if |pages| > 0 {
      JoinLength(pages, PageSeparator);
      assert NonEmpty(pages[0]);
      assert TotalLength(pages) >= |pages[0]|;
    }
  }
}
