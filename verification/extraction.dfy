/**
 `RabindraPoetryParser.extract_text_with_spacing`: the text of an element,
 built from the contributions of its direct children in document order.
 A text child gives its text with non-breaking spaces turned into spaces,
 a `<font>` child gives one space per non-breaking space it holds, a `<br>`
 child gives a newline, and any other element is walked in turn.
 */
module Extraction {
  import opened Strings
  import opened Html

  /** U+00A0, the character a decoded `&nbsp;` becomes. */
  const Nbsp: char := '\U{A0}'

  /** The entity spelled out, as it survives in doubly escaped markup. */
  const NbspEntity: string := "&nbsp;"

  /** A text node's contribution: first `\xa0`, then the literal entity,
      each replaced by one space. */
  function NormalizeText(s: string): string {
    Replace(Replace(s, [Nbsp], " "), NbspEntity, " ")
  }

  /** How many non-breaking spaces a text holds, in either spelling. */
  function NbspCount(s: string): nat {
    Count(s, [Nbsp]) + Count(s, NbspEntity)
  }

  /** Each `\xa0` of `s` turned into a space in place; every other
      character kept. */
  function NbspAsSpace(s: string): string {
    seq(|s|, i requires 0 <= i < |s| => if s[i] == Nbsp then ' ' else s[i])
  }

  /** A single left-to-right pass over a text: each `&nbsp;` becomes one
      space, each `\xa0` becomes a space, and every other character is kept. */
  function SpacedText(s: string): string
    decreases |s|
  {
    if |s| == 0 then ""
    else if NbspEntity <= s then " " + SpacedText(s[|NbspEntity|..])
    else [if s[0] == Nbsp then ' ' else s[0]] + SpacedText(s[1..])
  }

  /** A run of `k` spaces. */
  function Spaces(k: nat): (r: string)
    ensures |r| == k
    ensures forall i :: 0 <= i < |r| ==> r[i] == ' '
  {
    seq(k, _ => ' ')
  }

  /** What one direct child adds to its parent's text. */
  function Contribution(c: Node): string
    decreases c, 1
  {
    match c
    case Text(s) =>
      if s != "" then NormalizeText(s) else ""
    case Element(tag, _, _) =>
      if Lower(tag) == "font" then
        var k := NbspCount(TextContent(c));
        if k > 0 then Spaces(k) else ""
      else if Lower(tag) == "br" then "\n"
      else
        var sub := Extract(c);
        if sub != "" then sub else ""
  }

  /** The spaced text of a node: an element gives the contributions of its
      children in order; a text node has no children and gives "". */
  function Extract(n: Node): string
    decreases n, 0
  {
    match n
    case Text(_) => ""
    case Element(_, _, cs) => ExtractAll(cs)
  }

  /** The contributions of a child list, concatenated in order. */
  function ExtractAll(cs: seq<Node>): string
    decreases cs
  {
    if |cs| == 0 then "" else Contribution(cs[0]) + ExtractAll(cs[1..])
  }

  /** Extraction distributes over a child list cut in two, and a single child
      gives exactly its own contribution. */
  lemma {:induction false} ExtractAllAppend(a: seq<Node>, b: seq<Node>)
    ensures ExtractAll(a + b) == ExtractAll(a) + ExtractAll(b)
    ensures |a| == 1 ==> ExtractAll(a) == Contribution(a[0])
  {
    if |a| == 0 {
      assert a + b == b;
    } else {
      assert (a + b)[1..] == a[1..] + b;
      ExtractAllAppend(a[1..], b);
    }
  }

  /** A child list gives "" exactly when every child contributes "" (in
      particular when there are no children). */
  lemma {:induction false} ExtractAllEmpty(cs: seq<Node>)
    ensures ExtractAll(cs) == "" <==> forall i :: 0 <= i < |cs| ==> Contribution(cs[i]) == ""
  {
    if |cs| > 0 {
      ExtractAllEmpty(cs[1..]);
      if ExtractAll(cs) == "" {
        forall i | 0 <= i < |cs|
          ensures Contribution(cs[i]) == ""
        {
          if i > 0 {
            assert cs[i] == cs[1..][i - 1];
          }
        }
      } else if Contribution(cs[0]) == "" {
        var i :| 0 <= i < |cs[1..]| && Contribution(cs[1..][i]) != "";
        assert cs[i + 1] == cs[1..][i];
      }
    }
  }

  /** Any element other than `<font>` and `<br>` is walked in turn: wrapping
      children in such an element changes nothing. */
  lemma InlineWrapperTransparent(tag: string, id: string, wrapper: string, wrapperId: string, cs: seq<Node>)
    requires Lower(wrapper) != "font" && Lower(wrapper) != "br"
    ensures Extract(Element(tag, id, [Element(wrapper, wrapperId, cs)])) == Extract(Element(tag, id, cs))
  {
    var w := Element(wrapper, wrapperId, cs);
    ExtractAllAppend([w], []);
    assert [w] + [] == [w];
  }

  /** A `<font>` child contributes one space per `\xa0` and per literal
      `&nbsp;` in its whole text (counted on the concatenated text, so an
      entity split across text nodes still counts), and nothing else: no
      newline for a nested `<br>`, and "" when it holds no non-breaking space,
      whatever other text it holds. */
  lemma FontContribution(f: Node)
    requires IsNamed(f, "font")
    ensures Contribution(f) == Spaces(multiset(TextContent(f))[Nbsp] + Occ(TextContent(f), NbspEntity))
    ensures '\n' !in Contribution(f)
    ensures NbspCount(TextContent(f)) == 0 ==> Contribution(f) == ""
  {
    CountOneChar(TextContent(f), Nbsp);
    EntityCount(TextContent(f));
  }

  /** `&nbsp;` cannot overlap itself, so `count` finds every place it starts. */
  lemma EntityCount(s: string)
    ensures Count(s, NbspEntity) == Occ(s, NbspEntity)
  {
    assert NbspEntity[0] !in NbspEntity[1..];
    CountNonOverlapping(s, NbspEntity);
  }

  /** Normalizing a text leaves no `\xa0` in it. */
  lemma NormalizeRemovesNbsp(s: string)
    ensures Nbsp !in NormalizeText(s)
  {
    ReplaceRemovesChar(s, Nbsp, " ");
    ReplaceKeepsOut(Replace(s, [Nbsp], " "), NbspEntity, " ", Nbsp);
  }

  /** Normalizing a text keeps exactly its newlines. */
  lemma NormalizeKeepsNewlines(s: string)
    ensures multiset(NormalizeText(s))['\n'] == multiset(s)['\n']
  {
    var once := Replace(s, [Nbsp], " ");
    assert multiset(" ")['\n'] == 0;
    assert '\n' !in [Nbsp];
    ReplaceCharCount(s, [Nbsp], " ", '\n');
    assert multiset(once)['\n'] == multiset(s)['\n'];
    assert '\n' !in NbspEntity;
    ReplaceCharCount(once, NbspEntity, " ", '\n');
  }

  /** A text child's contribution holds no `\xa0` and exactly its newlines.
      It is the text read in one pass with each `&nbsp;` and each `\xa0`
      turned into one space; when the text spells out no `&nbsp;`, that is the
      text itself with each `\xa0` turned into a space in place. */
  lemma TextContribution(s: string)
    ensures Nbsp !in Contribution(Text(s))
    ensures multiset(Contribution(Text(s)))['\n'] == multiset(s)['\n']
    ensures Contribution(Text(s)) == SpacedText(s)
    ensures !Contains(s, NbspEntity) ==> Contribution(Text(s)) == NbspAsSpace(s)
  {
    if s != "" {
      NormalizeRemovesNbsp(s);
      NormalizeKeepsNewlines(s);
      ReplaceOneChar(s, Nbsp, ' ');
      assert Replace(s, [Nbsp], " ") == NbspAsSpace(s);
      NormalizeSinglePass(s);
      if !Contains(s, NbspEntity) {
        EntityNotCreated(s);
        ReplaceAbsent(NbspAsSpace(s), NbspEntity, " ");
      }
    }
  }

  /** Replacing `&nbsp;` after the `\xa0` have become spaces is the same as
      the single pass: the first step neither creates nor breaks an
      `&nbsp;`, which holds neither character. */
  lemma {:induction false} NormalizeSinglePass(s: string)
    ensures Replace(NbspAsSpace(s), NbspEntity, " ") == SpacedText(s)
    decreases |s|
  {
    var m := NbspAsSpace(s);
    if |s| > 0 {
      var n := |NbspEntity|;
      if NbspEntity <= s {
        forall j | 0 <= j < n
          ensures m[j] == NbspEntity[j]
        {
          assert s[j] == NbspEntity[j] && NbspEntity[j] != Nbsp;
        }
        assert NbspEntity <= m;
        assert m[n..] == NbspAsSpace(s[n..]);
        NormalizeSinglePass(s[n..]);
      } else {
        if |s| >= n {
          assert s[..n] != NbspEntity;
          var j :| 0 <= j < n && s[j] != NbspEntity[j];
          assert NbspEntity[j] != ' ';
          assert m[j] != NbspEntity[j];
        }
        assert m[1..] == NbspAsSpace(s[1..]);
        NormalizeSinglePass(s[1..]);
      }
    }
  }

  /** Turning `\xa0` into spaces cannot create an `&nbsp;`, which holds
      neither character. */
  lemma {:induction false} EntityNotCreated(s: string)
    requires !Contains(s, NbspEntity)
    ensures !Contains(NbspAsSpace(s), NbspEntity)
    decreases |s|
  {
    var m := NbspAsSpace(s);
    if |s| > 0 {
      var tail := s[1..];
      EntityNotCreated(tail);
      assert m[1..] == NbspAsSpace(tail);
      if |s| >= |NbspEntity| {
        assert s[..|NbspEntity|] != NbspEntity;
        var j :| 0 <= j < |NbspEntity| && s[j] != NbspEntity[j];
        assert m[j] != NbspEntity[j];
      }
    }
  }

  /** The extracted text never holds a non-breaking space. */
  lemma {:induction false} NoNbspInExtract(n: Node)
    ensures Nbsp !in Extract(n)
    decreases n, 0
  {
    match n
    case Text(_) =>
    case Element(_, _, cs) => NoNbspInExtractAll(cs);
  }

  lemma {:induction false} NoNbspInContribution(c: Node)
    ensures Nbsp !in Contribution(c)
    decreases c, 1
  {
    match c
    case Text(s) => TextContribution(s);
    case Element(tag, _, _) =>
      if Lower(tag) != "font" && Lower(tag) != "br" {
        NoNbspInExtract(c);
      }
  }

  lemma {:induction false} NoNbspInExtractAll(cs: seq<Node>)
    ensures Nbsp !in ExtractAll(cs)
    decreases cs
  {
    if |cs| > 0 {
      NoNbspInContribution(cs[0]);
      NoNbspInExtractAll(cs[1..]);
    }
  }

  /** The `<br>` elements the walk reaches from a child list: those not inside
      a `<font>` or another `<br>`. */
  function BreaksReached(cs: seq<Node>): nat
    decreases cs
  {
    if |cs| == 0 then 0 else BreaksReachedFrom(cs[0]) + BreaksReached(cs[1..])
  }

  function BreaksReachedFrom(c: Node): nat
    decreases c
  {
    match c
    case Text(_) => 0
    case Element(tag, _, cs) =>
      if Lower(tag) == "font" then 0
      else if Lower(tag) == "br" then 1
      else BreaksReached(cs)
  }

  /** The text nodes the walk reaches from a child list, concatenated. */
  function TextReached(cs: seq<Node>): string
    decreases cs
  {
    if |cs| == 0 then "" else TextReachedFrom(cs[0]) + TextReached(cs[1..])
  }

  function TextReachedFrom(c: Node): string
    decreases c
  {
    match c
    case Text(s) => s
    case Element(tag, _, cs) =>
      if Lower(tag) == "font" || Lower(tag) == "br" then "" else TextReached(cs)
  }

  /** Every newline of the extracted text comes from a `<br>` the walk
      reaches or from a newline already in a text node it reaches. */
  lemma {:induction false} NewlinesCounted(cs: seq<Node>)
    ensures multiset(ExtractAll(cs))['\n'] == BreaksReached(cs) + multiset(TextReached(cs))['\n']
    decreases cs
  {
    if |cs| > 0 {
      NewlinesCountedFrom(cs[0]);
      NewlinesCounted(cs[1..]);
    }
  }

  lemma {:induction false} NewlinesCountedFrom(c: Node)
    ensures multiset(Contribution(c))['\n'] == BreaksReachedFrom(c) + multiset(TextReachedFrom(c))['\n']
    decreases c
  {
    match c
    case Text(s) => TextContribution(s);
    case Element(tag, _, cs) =>
      if Lower(tag) == "font" {
        FontContribution(c);
      } else if Lower(tag) != "br" {
        NewlinesCounted(cs);
      }
  }
}
