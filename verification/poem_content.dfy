/**
 `RabindraPoetryParser.parse_poem_content`: locate the poem container, the
 first `div` whose `id` contains "kobita", and turn it into lines in one of two
 layouts. When the container holds any `<p>`, each `<p>` gives one line
 (paragraph layout); otherwise the container's whole text is cut at its
 newlines (break layout). The lines are joined with "\n".
 */
module PoemContent {
  import opened Seqs
  import opened Strings
  import opened Html
  import opened Extraction

  /** The token a poem container's `id` carries. */
  const KobitaMarker: string := "kobita"

  /** The XPath step `div[contains(@id, "kobita")]`; the name test is exact. */
  predicate IsKobitaDiv(n: Node) {
    n.Element? && n.tag == "div" && Contains(n.id, KobitaMarker)
  }

  /** The first of `nodes` that is a `div` whose `id` contains "kobita", or
      nothing when none is. */
  function FirstKobitaDiv(nodes: seq<Node>): Option<Node> {
    var divs := Filter(nodes, IsKobitaDiv);
    if |divs| == 0 then None else Some(divs[0])
  }

  /** The poem container of a page: its first kobita `div` in document order. */
  function Container(page: Node): Option<Node> {
    FirstKobitaDiv(PreOrder(page))
  }

  /** There is no kobita `div` to pick exactly when none of the nodes is
      one; otherwise the pick is one, and no node before it is. */
  lemma FirstKobitaDivSpec(nodes: seq<Node>)
    ensures FirstKobitaDiv(nodes).None? <==> forall i :: 0 <= i < |nodes| ==> !IsKobitaDiv(nodes[i])
    ensures FirstKobitaDiv(nodes).Some? ==>
              && IsKobitaDiv(FirstKobitaDiv(nodes).value)
              && exists i :: 0 <= i < |nodes| && nodes[i] == FirstKobitaDiv(nodes).value
                             && forall j :: 0 <= j < i ==> !IsKobitaDiv(nodes[j])
  {
    FilterHead(nodes, IsKobitaDiv);
    if FirstKobitaDiv(nodes).Some? {
      var first := Filter(nodes, IsKobitaDiv)[0];
      var i :| 0 <= i < |nodes| && nodes[i] == first
               && (forall j :: 0 <= j < i ==> !IsKobitaDiv(nodes[j]));
      assert IsKobitaDiv(nodes[i]);
    }
  }

  /** The XPath step `p`; the name test is exact. */
  predicate IsParagraph(n: Node) {
    n.Element? && n.tag == "p"
  }

  /** `container.xpath(".//p")`: the `<p>` descendants, in document order. */
  function Paragraphs(container: Node): seq<Node> {
    Filter(Descendants(container), IsParagraph)
  }

  /** Some `<p>` lies strictly below `n`. */
  predicate HasParagraphBelow(n: Node)
    decreases n
  {
    match n
    case Text(_) => false
    case Element(_, _, cs) => HasParagraphAmong(cs)
  }

  /** Some `<p>` is one of `cs` or lies below one of them. */
  predicate HasParagraphAmong(cs: seq<Node>)
    decreases cs
  {
    |cs| > 0 && (IsParagraph(cs[0]) || HasParagraphBelow(cs[0]) || HasParagraphAmong(cs[1..]))
  }

  /** The `.//p` node-set is non-empty exactly when some `<p>` lies below. */
  lemma {:induction false} ParagraphsExist(n: Node)
    ensures |Paragraphs(n)| > 0 <==> HasParagraphBelow(n)
    decreases n
  {
    match n
    case Text(_) =>
    case Element(_, _, cs) => ParagraphsExistAmong(cs);
  }

  lemma {:induction false} ParagraphsExistAmong(cs: seq<Node>)
    ensures |Filter(PreOrderAll(cs), IsParagraph)| > 0 <==> HasParagraphAmong(cs)
    decreases cs
  {
    if |cs| > 0 {
      var c := cs[0];
      FilterAppend([c] + Descendants(c), PreOrderAll(cs[1..]), IsParagraph);
      FilterAppend([c], Descendants(c), IsParagraph);
      ParagraphsExist(c);
      ParagraphsExistAmong(cs[1..]);
    }
  }

  /** The two layouts the parser distinguishes. */
  datatype Layout = ParagraphLayout | BreakLayout

  /** The paragraph layout when the container has at least one `<p>`
      descendant, the break layout otherwise. */
  function LayoutOf(container: Node): Layout {
    if |Paragraphs(container)| > 0 then ParagraphLayout else BreakLayout
  }

  /** The paragraph layout is taken exactly when the container has a `<p>`
      somewhere below it; the break layout exactly when it has none. */
  lemma {:induction false} LayoutChoice(container: Node)
    ensures LayoutOf(container) == ParagraphLayout <==> HasParagraphBelow(container)
    ensures LayoutOf(container) == BreakLayout <==> !HasParagraphBelow(container)
  {
    ParagraphsExist(container);
  }

  /** The line one `<p>` gives in the paragraph layout: nothing when its text
      is empty, otherwise its text without newlines and right-stripped. The
      line is kept as it is when it strips to something, and is "" otherwise;
      in that second branch the right-stripped text is already "". */
  function ParagraphLine(p: Node): Option<string> {
    var content := Extract(p);
    if content != "" then
      var clean := RStrip(Replace(content, "\n", ""));
      if Strip(clean) != "" then Some(clean) else Some("")
    else None
  }

  /** The lines of a sequence of `<p>`, in order. */
  function ParagraphLines(ps: seq<Node>): seq<string> {
    FilterMap(ps, ParagraphLine)
  }

  /** A `<p>` yields a line exactly when its text is non-empty. The line is
      that text with the newlines left out and the trailing whitespace cut
      off, so it holds no newline; it is "" exactly when the text is all
      whitespace. */
  lemma {:induction false} ParagraphLineShape(p: Node)
    ensures ParagraphLine(p).None? <==> Extract(p) == ""
    ensures ParagraphLine(p).Some? ==>
              var line := ParagraphLine(p).value;
              var kept := Filter(Extract(p), NotNewline);
              && '\n' !in line
              && line <= kept
              && IsBlank(kept[|line|..])
              && (line == [] || !IsSpace(line[|line| - 1]))
    ensures ParagraphLine(p) == Some("") <==> Extract(p) != "" && IsBlank(Extract(p))
  {
    CleanLine(Extract(p));
  }

  /** The cleaning a `<p>`'s text goes through: the newlines are left out and
      the trailing whitespace cut off. The result is "" exactly when the text
      is all whitespace, and then `strip()` of it is "" too. */
  lemma {:induction false} CleanLine(content: string)
    ensures var clean := RStrip(Replace(content, "\n", ""));
            var kept := Filter(content, NotNewline);
            && '\n' !in clean
            && clean <= kept
            && IsBlank(kept[|clean|..])
            && (clean == [] || !IsSpace(clean[|clean| - 1]))
            && (clean == "" <==> IsBlank(content))
            && (Strip(clean) == "" <==> clean == "")
  {
    var kept := Filter(content, NotNewline);
    RemoveNewlines(content);
    assert '\n' !in kept by {
      forall i | 0 <= i < |kept|
        ensures kept[i] != '\n'
      {
        assert NotNewline(kept[i]);
      }
    }
    var clean := RStrip(kept);
    RStripSpec(kept);
    RStripKeepsOut(kept, '\n');
    RStripEmptyIffBlank(kept);
    BlankWithoutNewlines(content);
    StripEmptyIffBlank(clean);
    RStripEmptyIffBlank(clean);
  }

  /** Leaving out the newlines of a text does not change whether it is blank. */
  lemma {:induction false} BlankWithoutNewlines(s: string)
    ensures IsBlank(Filter(s, NotNewline)) <==> IsBlank(s)
    decreases |s|
  {
    if |s| > 0 {
      BlankWithoutNewlines(s[1..]);
      assert s == [s[0]] + s[1..];
      BlankConcat([s[0]], s[1..]);
      if NotNewline(s[0]) {
        BlankConcat([s[0]], Filter(s[1..], NotNewline));
      }
    }
  }

  /** `<p>` elements whose text is non-empty: the ones that yield a line. */
  predicate YieldsLine(p: Node) {
    Extract(p) != ""
  }

  /** The `<p>` of `ps` that yield a line, in order. */
  function LineParagraphs(ps: seq<Node>): seq<Node> {
    Filter(ps, YieldsLine)
  }

  /** The paragraph layout emits one line per `<p>` with non-empty text and
      none for the others, keeping their document order: the `k`-th line is
      the line of the `k`-th such `<p>`. */
  lemma {:induction false} ParagraphLinesInOrder(ps: seq<Node>)
    ensures |ParagraphLines(ps)| == |LineParagraphs(ps)|
    ensures forall k :: 0 <= k < |ParagraphLines(ps)| ==>
              ParagraphLine(LineParagraphs(ps)[k]) == Some(ParagraphLines(ps)[k])
  {
    forall i | 0 <= i < |ps|
      ensures ParagraphLine(ps[i]).Some? <==> YieldsLine(ps[i])
    {
      ParagraphLineShape(ps[i]);
    }
    FilterMapInOrder(ps, ParagraphLine, YieldsLine);
  }

  /** A piece survives the break layout's filter when it holds a
      non-whitespace character or starts with a space. */
  predicate KeptPiece(piece: string) {
    Strip(piece) != "" || (|piece| > 0 && piece[0] == ' ')
  }

  /** The surviving pieces, each right-stripped, in order. */
  function KeepPieces(pieces: seq<string>): seq<string> {
    if |pieces| == 0 then []
    else if KeptPiece(pieces[0]) then [RStrip(pieces[0])] + KeepPieces(pieces[1..])
    else KeepPieces(pieces[1..])
  }

  /** The break layout: the container's text cut at every newline, filtered. */
  function BreakLines(raw: string): seq<string> {
    KeepPieces(Split(raw, '\n'))
  }

  /** A piece is kept exactly when it holds a non-whitespace character or
      starts with a space; so an all-whitespace piece starting with a space
      gives the empty line, and any other all-whitespace piece gives none. */
  lemma {:induction false} KeptPieceMeaning(piece: string)
    ensures KeptPiece(piece) <==> !IsBlank(piece) || (|piece| > 0 && piece[0] == ' ')
    ensures KeptPiece(piece) && IsBlank(piece) ==> RStrip(piece) == ""
  {
    StripEmptyIffBlank(piece);
    RStripEmptyIffBlank(piece);
  }

  /** The break layout's lines are the kept newline-separated pieces of the
      text, in order, each right-stripped: none holds a newline or ends in
      whitespace, and there are at most as many as newlines plus one. */
  lemma {:induction false} BreakLinesInOrder(raw: string)
    ensures var kept := Filter(Split(raw, '\n'), KeptPiece);
            && |BreakLines(raw)| == |kept|
            && forall k :: 0 <= k < |kept| ==> BreakLines(raw)[k] == RStrip(kept[k])
    ensures |BreakLines(raw)| <= multiset(raw)['\n'] + 1
    ensures forall k :: 0 <= k < |BreakLines(raw)| ==> '\n' !in BreakLines(raw)[k]
  {
    SplitSpec(raw, '\n');
    KeepPiecesInOrder(Split(raw, '\n'));
  }

  lemma {:induction false} KeepPiecesInOrder(pieces: seq<string>)
    requires forall i :: 0 <= i < |pieces| ==> '\n' !in pieces[i]
    ensures var kept := Filter(pieces, KeptPiece);
            && |KeepPieces(pieces)| == |kept|
            && forall k :: 0 <= k < |kept| ==> KeepPieces(pieces)[k] == RStrip(kept[k])
    ensures forall k :: 0 <= k < |KeepPieces(pieces)| ==> '\n' !in KeepPieces(pieces)[k]
  {
    if |pieces| > 0 {
      var piece, rest := pieces[0], pieces[1..];
      KeepPiecesInOrder(rest);
      var q, qs := Filter(pieces, KeptPiece), Filter(rest, KeptPiece);
      var lines, restLines := KeepPieces(pieces), KeepPieces(rest);
      if KeptPiece(piece) {
        RStripKeepsOut(piece, '\n');
        assert q == [piece] + qs;
        assert lines == [RStrip(piece)] + restLines;
        forall k | 0 <= k < |lines|
          ensures lines[k] == RStrip(q[k]) && '\n' !in lines[k]
        {
          if k > 0 {
            assert q[k] == qs[k - 1];
            assert lines[k] == restLines[k - 1];
          }
        }
      } else {
        assert q == qs;
        assert lines == restLines;
      }
    }
  }

  /** The poem lines of a container, in the layout it calls for. */
  function PoemLines(container: Node): seq<string> {
    match LayoutOf(container)
    case ParagraphLayout => ParagraphLines(Paragraphs(container))
    case BreakLayout => BreakLines(Extract(container))
  }

  /** `parse_poem_content(page)`. */
  function ParsePoemContent(page: Node): string {
    match Container(page)
    case None => ""
    case Some(container) => Join(PoemLines(container), "\n")
  }

  /** No poem line holds a newline, whichever layout produced it. */
  lemma {:induction false} PoemLinesHaveNoNewline(container: Node)
    ensures forall k :: 0 <= k < |PoemLines(container)| ==> '\n' !in PoemLines(container)[k]
  {
    match LayoutOf(container)
    case ParagraphLayout =>
      var ps := Paragraphs(container);
      ParagraphLinesInOrder(ps);
      forall k | 0 <= k < |PoemLines(container)|
        ensures '\n' !in PoemLines(container)[k]
      {
        ParagraphLineShape(LineParagraphs(ps)[k]);
      }
    case BreakLayout =>
      BreakLinesInOrder(Extract(container));
  }

  /** A page without a kobita `div` gives "". With one, cutting the result at
      its newlines gives back the poem lines of the first such `div`, as long
      as there is at least one line. */
  lemma {:induction false} ParseRoundTrip(page: Node)
    ensures var nodes := PreOrder(page);
            (forall i :: 0 <= i < |nodes| ==> !IsKobitaDiv(nodes[i])) ==> ParsePoemContent(page) == ""
    ensures Container(page).Some? && |PoemLines(Container(page).value)| > 0 ==>
              Split(ParsePoemContent(page), '\n') == PoemLines(Container(page).value)
  {
    FirstKobitaDivSpec(PreOrder(page));
    if Container(page).Some? && |PoemLines(Container(page).value)| > 0 {
      PoemLinesHaveNoNewline(Container(page).value);
      SplitJoin(PoemLines(Container(page).value), '\n');
    }
  }

  /** In the paragraph layout, a node that is not and does not hold a `<p>`
      changes nothing wherever it is inserted among the container's children:
      text outside every `<p>` is ignored. */
  lemma {:induction false} OutsideParagraphsIgnored(tag: string, id: string, cs: seq<Node>, k: nat, extra: Node)
    requires k <= |cs|
    requires LayoutOf(Element(tag, id, cs)) == ParagraphLayout
    requires !IsParagraph(extra) && !HasParagraphBelow(extra)
    ensures Paragraphs(Element(tag, id, cs[..k] + [extra] + cs[k..])) == Paragraphs(Element(tag, id, cs))
    ensures LayoutOf(Element(tag, id, cs[..k] + [extra] + cs[k..])) == ParagraphLayout
    ensures PoemLines(Element(tag, id, cs[..k] + [extra] + cs[k..])) == PoemLines(Element(tag, id, cs))
  {
    assert cs == cs[..k] + cs[k..];
    ParagraphsSkipInserted(cs[..k], cs[k..], extra);
  }

  /** Inserting a node that is not and does not hold a `<p>` leaves the
      `<p>` descendants of a child list as they were. */
  lemma {:induction false} ParagraphsSkipInserted(before: seq<Node>, after: seq<Node>, extra: Node)
    requires !IsParagraph(extra) && !HasParagraphBelow(extra)
    ensures Filter(PreOrderAll(before + [extra] + after), IsParagraph)
            == Filter(PreOrderAll(before + after), IsParagraph)
  {
    var pb, pe, pa := PreOrderAll(before), PreOrderAll([extra]), PreOrderAll(after);
    PreOrderAllAppend(before + [extra], after);
    PreOrderAllAppend(before, [extra]);
    PreOrderAllAppend(before, after);
    NoParagraphInside(extra);
    FilterAppend(pb + pe, pa, IsParagraph);
    FilterAppend(pb, pe, IsParagraph);
    FilterAppend(pb, pa, IsParagraph);
    assert Filter(pb, IsParagraph) + [] == Filter(pb, IsParagraph);
  }

  lemma {:induction false} NoParagraphInside(extra: Node)
    requires !IsParagraph(extra) && !HasParagraphBelow(extra)
    ensures Filter(PreOrderAll([extra]), IsParagraph) == []
  {
    assert [extra][1..] == [];
    assert PreOrderAll([extra]) == [extra] + Descendants(extra);
    ParagraphsExist(extra);
    FilterAppend([extra], Descendants(extra), IsParagraph);
  }
}
