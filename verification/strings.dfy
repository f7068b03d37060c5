/**
 The Python `str` operations the poem parser applies, over `string`
 (a sequence of Unicode code points): whitespace as `str.isspace` defines it,
 `rstrip`/`strip` without arguments, leftmost non-overlapping `replace` and
 `count`, `split` on one separator character, and `join`.
 */
module Strings {
  import opened Seqs

  /** `str.isspace()` for a single code point: the ASCII separators and
      control whitespace plus the Unicode space separators, line and paragraph
      separators, exactly the set CPython strips by default. */
  predicate IsSpace(c: char) {
    || c == ' '
    || '\t' <= c <= '\r'
    || '\U{1C}' <= c <= '\U{1F}'
    || c == '\U{85}'
    || c == '\U{A0}'
    || c == '\U{1680}'
    || '\U{2000}' <= c <= '\U{200A}'
    || c == '\U{2028}'
    || c == '\U{2029}'
    || c == '\U{202F}'
    || c == '\U{205F}'
    || c == '\U{3000}'
  }

  /** Every character is whitespace (the empty string included). */
  predicate IsBlank(s: string) {
    forall i :: 0 <= i < |s| ==> IsSpace(s[i])
  }

  /** `s.rstrip()`: trailing whitespace removed, one character at a time. */
  function RStrip(s: string): string
    decreases |s|
  {
    if |s| > 0 && IsSpace(s[|s| - 1]) then RStrip(s[..|s| - 1]) else s
  }

  /** `rstrip()` gives the longest prefix that does not end in whitespace:
      what it cuts off is all whitespace, and what it keeps is "" or ends in
      a non-whitespace character. */
  lemma {:induction false} RStripSpec(s: string)
    ensures RStrip(s) <= s
    ensures IsBlank(s[|RStrip(s)|..])
    ensures RStrip(s) == [] || !IsSpace(RStrip(s)[|RStrip(s)| - 1])
    decreases |s|
  {
    if |s| > 0 && IsSpace(s[|s| - 1]) {
      var init := s[..|s| - 1];
      RStripSpec(init);
      var r := RStrip(init);
      assert s[|r|..] == init[|r|..] + [s[|s| - 1]];
    }
  }

  /** A concatenation is blank exactly when both parts are. */
  lemma BlankConcat(a: string, b: string)
    ensures IsBlank(a + b) <==> IsBlank(a) && IsBlank(b)
  {
    if IsBlank(a + b) {
      forall i | 0 <= i < |a|
        ensures IsSpace(a[i])
      {
        assert a[i] == (a + b)[i];
      }
      forall i | 0 <= i < |b|
        ensures IsSpace(b[i])
      {
        assert b[i] == (a + b)[|a| + i];
      }
    }
  }

  /** `s.rstrip()` is empty exactly when `s` is all whitespace. */
  lemma {:induction false} RStripEmptyIffBlank(s: string)
    ensures RStrip(s) == "" <==> IsBlank(s)
    decreases |s|
  {
    if |s| > 0 {
      var init := s[..|s| - 1];
      assert s == init + [s[|s| - 1]];
      BlankConcat(init, [s[|s| - 1]]);
      if IsSpace(s[|s| - 1]) {
        RStripEmptyIffBlank(init);
      }
    }
  }

  /** Right-stripping adds no character. */
  lemma {:induction false} RStripKeepsOut(s: string, c: char)
    requires c !in s
    ensures c !in RStrip(s)
  {
    var r := RStrip(s);
    RStripSpec(s);
    forall i | 0 <= i < |r|
      ensures r[i] != c
    {
      assert r[i] == s[i];
    }
  }

  /** `s.lstrip()`: leading whitespace removed, one character at a time. */
  function LStrip(s: string): string
    decreases |s|
  {
    if |s| > 0 && IsSpace(s[0]) then LStrip(s[1..]) else s
  }

  /** `lstrip()` gives the longest suffix that does not start with
      whitespace: what it cuts off is all whitespace, and what it keeps is ""
      or starts with a non-whitespace character. */
  lemma {:induction false} LStripSpec(s: string)
    ensures |LStrip(s)| <= |s| && LStrip(s) == s[|s| - |LStrip(s)|..]
    ensures IsBlank(s[..|s| - |LStrip(s)|])
    ensures LStrip(s) == [] || !IsSpace(LStrip(s)[0])
    decreases |s|
  {
    if |s| > 0 && IsSpace(s[0]) {
      var tail := s[1..];
      LStripSpec(tail);
      var r := LStrip(tail);
      assert s[..|s| - |r|] == [s[0]] + tail[..|tail| - |r|];
    }
  }

  /** `s.strip()`. */
  function Strip(s: string): string {
    LStrip(RStrip(s))
  }

  /** `s.strip()` is falsy exactly when `s` is all whitespace. */
  lemma {:induction false} StripEmptyIffBlank(s: string)
    ensures Strip(s) == "" <==> IsBlank(s)
  {
    var r := RStrip(s);
    RStripSpec(s);
    LStripSpec(r);
    if Strip(s) == "" {
      assert IsBlank(r[..|r|]);
      assert r[..|r|] == r;
      assert s == r + s[|r|..];
      forall i | 0 <= i < |s|
        ensures IsSpace(s[i])
      {
        if i >= |r| {
          assert s[i] == s[|r|..][i - |r|];
        }
      }
    } else {
      assert |r| > 0;
      assert !IsSpace(s[|r| - 1]);
    }
  }

  /** `s.replace(pat, rep)` for a non-empty `pat`: occurrences are taken
      leftmost first and never overlap. */
  function Replace(s: string, pat: string, rep: string): string
    requires |pat| > 0
    decreases |s|
  {
    if |s| == 0 then ""
    else if pat <= s then rep + Replace(s[|pat|..], pat, rep)
    else [s[0]] + Replace(s[1..], pat, rep)
  }

  /** `s.count(pat)` for a non-empty `pat`: the number of leftmost,
      non-overlapping occurrences; they fit side by side inside `s`. */
  function Count(s: string, pat: string): (k: nat)
    requires |pat| > 0
    ensures k * |pat| <= |s|
    decreases |s|
  {
    if |s| == 0 then 0
    else if pat <= s then 1 + Count(s[|pat|..], pat)
    else Count(s[1..], pat)
  }

  /** The number of positions of `s` at which `pat` starts, overlapping
      occurrences included: a reference count that does not skip. */
  function Occ(s: string, pat: string): nat
    requires |pat| > 0
    decreases |s|
  {
    if |s| == 0 then 0
    else (if pat <= s then 1 else 0) + Occ(s[1..], pat)
  }

  /** Positions where `pat` does not start add nothing to `Occ`. */
  lemma {:induction false} OccSkip(s: string, pat: string, k: nat)
    requires |pat| > 0 && k <= |s|
    requires forall j :: 0 <= j < k ==> !(pat <= s[j..])
    ensures Occ(s, pat) == Occ(s[k..], pat)
    decreases k
  {
    if k > 0 {
      assert !(pat <= s[0..]) && s[0..] == s;
      var tail := s[1..];
      forall j | 0 <= j < k - 1
        ensures !(pat <= tail[j..])
      {
        assert tail[j..] == s[j + 1..];
      }
      OccSkip(tail, pat, k - 1);
      assert tail[k - 1..] == s[k..];
    }
  }

  /** When the first character of `pat` does not occur again inside it, two
      occurrences can never overlap, so `count`'s leftmost skipping scan
      finds every position where `pat` starts. */
  lemma {:induction false} CountNonOverlapping(s: string, pat: string)
    requires |pat| > 0 && pat[0] !in pat[1..]
    ensures Count(s, pat) == Occ(s, pat)
    decreases |s|
  {
    if |s| > 0 {
      if pat <= s {
        forall j | 0 <= j < |pat| - 1
          ensures !(pat <= s[1..][j..])
        {
          assert s[1..][j] == pat[1..][j];
        }
        OccSkip(s[1..], pat, |pat| - 1);
        assert s[1..][|pat| - 1..] == s[|pat|..];
        CountNonOverlapping(s[|pat|..], pat);
      } else {
        CountNonOverlapping(s[1..], pat);
      }
    }
  }

  /** Counting a one-character pattern counts that character. */
  lemma {:induction false} CountOneChar(s: string, c: char)
    ensures Count(s, [c]) == multiset(s)[c]
    decreases |s|
  {
    if |s| > 0 {
      assert s == [s[0]] + s[1..];
      CountOneChar(s[1..], c);
    }
  }

  /** Replacing a pattern that does not contain `c` keeps every `c` of the
      input and adds those of the replacement, once per occurrence replaced. */
  lemma {:induction false} ReplaceCharCount(s: string, pat: string, rep: string, c: char)
    requires |pat| > 0 && c !in pat
    ensures multiset(Replace(s, pat, rep))[c] == multiset(s)[c] + Count(s, pat) * multiset(rep)[c]
    decreases |s|
  {
    if |s| > 0 {
      if pat <= s {
        var t := s[|pat|..];
        ReplaceCharCount(t, pat, rep, c);
        ReplaceMatchStep(s, pat, rep, c);
        MulDistributes(Count(t, pat), multiset(rep)[c]);
      } else {
        assert s == [s[0]] + s[1..];
        ReplaceCharCount(s[1..], pat, rep, c);
      }
    }
  }

  /** One match at the front of `s`: the replacement's copies of `c` are
      added, the pattern held none, and one more occurrence is counted. */
  lemma ReplaceMatchStep(s: string, pat: string, rep: string, c: char)
    requires |pat| > 0 && c !in pat && pat <= s
    ensures var t := s[|pat|..];
            && multiset(Replace(s, pat, rep))[c] == multiset(rep)[c] + multiset(Replace(t, pat, rep))[c]
            && multiset(s)[c] == multiset(t)[c]
            && Count(s, pat) == 1 + Count(t, pat)
  {
    var t := s[|pat|..];
    var r := Replace(t, pat, rep);
    assert Replace(s, pat, rep) == rep + r;
    assert multiset(rep + r) == multiset(rep) + multiset(r);
    assert s == pat + t;
    assert multiset(s) == multiset(pat) + multiset(t);
    assert multiset(pat)[c] == 0;
  }

  lemma MulDistributes(k: nat, m: nat)
    ensures (1 + k) * m == m + k * m
  {
  }

  /** Replacing every `c` by a text free of `c` leaves no `c` behind. */
  lemma {:induction false} ReplaceRemovesChar(s: string, c: char, rep: string)
    requires c !in rep
    ensures c !in Replace(s, [c], rep)
    decreases |s|
  {
    if |s| > 0 {
      if [c] <= s {
        ReplaceRemovesChar(s[1..], c, rep);
      } else {
        assert s[0] != c;
        ReplaceRemovesChar(s[1..], c, rep);
      }
    }
  }

  /** Replacing with a text free of `c` cannot bring `c` into a text free
      of it. */
  lemma {:induction false} ReplaceKeepsOut(s: string, pat: string, rep: string, c: char)
    requires |pat| > 0 && c !in s && c !in rep
    ensures c !in Replace(s, pat, rep)
    decreases |s|
  {
    if |s| > 0 {
      if pat <= s {
        ReplaceKeepsOut(s[|pat|..], pat, rep, c);
      } else {
        ReplaceKeepsOut(s[1..], pat, rep, c);
      }
    }
  }

  predicate NotNewline(c: char) {
    c != '\n'
  }

  /** `s.replace("\n", "")` keeps every other character, in order. */
  lemma {:induction false} RemoveNewlines(s: string)
    ensures Replace(s, "\n", "") == Filter(s, NotNewline)
    decreases |s|
  {
    if |s| > 0 {
      RemoveNewlines(s[1..]);
    }
  }

  /** `s.split(sep)` for a one-character separator: the text cut at every
      occurrence of `sep`. */
  function Split(s: string, sep: char): (pieces: seq<string>)
    ensures |pieces| > 0
    decreases |s|
  {
    if |s| == 0 then [""]
    else
      var rest := Split(s[1..], sep);
      if s[0] == sep then [""] + rest
      else [[s[0]] + rest[0]] + rest[1..]
  }

  /** `split(sep)` gives one piece more than there are separators, and no
      piece holds the separator. */
  lemma {:induction false} SplitSpec(s: string, sep: char)
    ensures |Split(s, sep)| == multiset(s)[sep] + 1
    ensures forall i :: 0 <= i < |Split(s, sep)| ==> sep !in Split(s, sep)[i]
    decreases |s|
  {
    if |s| > 0 {
      var rest := Split(s[1..], sep);
      SplitSpec(s[1..], sep);
      assert s == [s[0]] + s[1..];
      var pieces := Split(s, sep);
      if s[0] != sep {
        forall i | 0 <= i < |pieces|
          ensures sep !in pieces[i]
        {
          if i > 0 {
            assert pieces[i] == rest[i];
          }
        }
      } else {
        forall i | 0 <= i < |pieces|
          ensures sep !in pieces[i]
        {
          if i > 0 {
            assert pieces[i] == rest[i - 1];
          }
        }
      }
    }
  }

  /** `sep.join(parts)`. */
  function Join(parts: seq<string>, sep: string): string {
    if |parts| == 0 then ""
    else if |parts| == 1 then parts[0]
    else parts[0] + sep + Join(parts[1..], sep)
  }

  /** Sum of the lengths of `parts`. */
  function TotalLength(parts: seq<string>): nat {
    if |parts| == 0 then 0 else |parts[0]| + TotalLength(parts[1..])
  }

  /** Appending one part to a non-empty join adds one separator and the part. */
  lemma {:induction false} JoinAppend(parts: seq<string>, last: string, sep: string)
    requires |parts| > 0
    ensures Join(parts + [last], sep) == Join(parts, sep) + sep + last
  {
    if |parts| > 1 {
      assert (parts + [last])[1..] == parts[1..] + [last];
      JoinAppend(parts[1..], last, sep);
    }
  }

  /** A join of `n > 0` parts is as long as the parts plus `n - 1` separators. */
  lemma {:induction false} JoinLength(parts: seq<string>, sep: string)
    requires |parts| > 0
    ensures |Join(parts, sep)| == TotalLength(parts) + (|parts| - 1) * |sep|
  {
    if |parts| > 1 {
      JoinLength(parts[1..], sep);
      assert (|parts| - 1) * |sep| == |sep| + (|parts[1..]| - 1) * |sep|;
    }
  }

  /** Splitting a text free of the separator, followed by anything, extends the
      first piece of the split of the rest. */
  lemma {:induction false} SplitPrefix(a: string, t: string, sep: char)
    requires sep !in a
    ensures Split(a + t, sep) == [a + Split(t, sep)[0]] + Split(t, sep)[1..]
    decreases |a|
  {
    if |a| > 0 {
      assert (a + t)[1..] == a[1..] + t;
      SplitPrefix(a[1..], t, sep);
      assert [a[0]] + (a[1..] + Split(t, sep)[0]) == a + Split(t, sep)[0];
    } else {
      assert a + t == t;
      assert Split(t, sep) == [Split(t, sep)[0]] + Split(t, sep)[1..];
      assert a + Split(t, sep)[0] == Split(t, sep)[0];
    }
  }

  /** Splitting a join gives back the parts, provided there is at least one
      part and none holds the separator. */
  lemma {:induction false} SplitJoin(parts: seq<string>, sep: char)
    requires |parts| > 0
    requires forall i :: 0 <= i < |parts| ==> sep !in parts[i]
    ensures Split(Join(parts, [sep]), sep) == parts
  {
    if |parts| == 1 {
      SplitPrefix(parts[0], "", sep);
      assert parts[0] + "" == parts[0];
    } else {
      var rest := Join(parts[1..], [sep]);
      var tail := [sep] + rest;
      SplitJoin(parts[1..], sep);
      assert Join(parts, [sep]) == parts[0] + tail;
      assert tail[1..] == rest;
      assert Split(tail, sep) == [""] + parts[1..];
      SplitPrefix(parts[0], tail, sep);
      assert parts[0] + "" == parts[0];
      assert parts == [parts[0]] + parts[1..];
    }
  }

  /** Joining the pieces of a split gives back the text. */
  lemma {:induction false} JoinSplit(s: string, sep: char)
    ensures Join(Split(s, sep), [sep]) == s
    decreases |s|
  {
    if |s| > 0 {
      var tail := s[1..];
      JoinSplit(tail, sep);
      JoinSplitStep(s[0], tail, sep);
      assert s == [s[0]] + tail;
    }
  }

  /** One step of `JoinSplit`: putting a character in front of a text whose
      pieces join back to it. */
  lemma JoinSplitStep(c: char, tail: string, sep: char)
    requires Join(Split(tail, sep), [sep]) == tail
    ensures Join(Split([c] + tail, sep), [sep]) == [c] + tail
  {
    var s := [c] + tail;
    assert s[1..] == tail;
    var rest := Split(tail, sep);
    if c == sep {
      assert Split(s, sep) == [""] + rest;
      JoinCons("", rest, [sep]);
      assert "" + [sep] + tail == s;
    } else {
      assert Split(s, sep) == [[c] + rest[0]] + rest[1..];
      JoinExtendFirst(c, rest, [sep]);
    }
  }

  /** Putting a character in front of the first part puts it in front of
      the join. */
  lemma JoinExtendFirst(c: char, parts: seq<string>, sep: string)
    requires |parts| > 0
    ensures Join([[c] + parts[0]] + parts[1..], sep) == [c] + Join(parts, sep)
  {
    var first := [c] + parts[0];
    if |parts| == 1 {
      assert [first] + parts[1..] == [first];
    } else {
      var more := Join(parts[1..], sep);
      assert parts == [parts[0]] + parts[1..];
      JoinCons(first, parts[1..], sep);
      JoinCons(parts[0], parts[1..], sep);
      assert first + sep + more == [c] + (parts[0] + sep + more);
    }
  }

  /** A join of a part followed by at least one more part. */
  lemma JoinCons(first: string, rest: seq<string>, sep: string)
    requires |rest| > 0
    ensures Join([first] + rest, sep) == first + sep + Join(rest, sep)
  {
    assert ([first] + rest)[1..] == rest;
  }

  /** `sub in s` for strings: `sub` occurs somewhere in `s` (XPath `contains`). */
  predicate Contains(s: string, sub: string)
    decreases |s|
  {
    sub <= s || (|s| > 0 && Contains(s[1..], sub))
  }

  /** `sub` sits at position `i` of `s`. */
  predicate OccursAt(s: string, sub: string, i: int) {
    0 <= i <= |s| - |sub| && s[i..i + |sub|] == sub
  }

  /** A string contains `sub` exactly when `sub` sits at some position in it. */
  lemma {:induction false} ContainsAt(s: string, sub: string)
    ensures Contains(s, sub) <==> exists i :: OccursAt(s, sub, i)
    decreases |s|
  {
    if sub <= s {
      assert OccursAt(s, sub, 0);
    } else if |s| > 0 {
      ContainsAt(s[1..], sub);
      if Contains(s[1..], sub) {
        var i :| OccursAt(s[1..], sub, i);
        assert s[i + 1..i + 1 + |sub|] == s[1..][i..i + |sub|];
        assert OccursAt(s, sub, i + 1);
      }
      if exists i :: OccursAt(s, sub, i) {
        var i :| OccursAt(s, sub, i);
        assert i != 0;
        assert s[1..][i - 1..i - 1 + |sub|] == s[i..i + |sub|];
        assert OccursAt(s[1..], sub, i - 1);
      }
    }
  }

  /** Replacing one character by one character rewrites each position in
      place and leaves every other character where it was. */
  lemma {:induction false} ReplaceOneChar(s: string, c: char, d: char)
    ensures Replace(s, [c], [d]) == seq(|s|, i requires 0 <= i < |s| => if s[i] == c then d else s[i])
    decreases |s|
  {
    if |s| > 0 {
      ReplaceOneChar(s[1..], c, d);
      var r := Replace(s, [c], [d]);
      var rest := Replace(s[1..], [c], [d]);
      assert [c] <= s <==> s[0] == c;
      assert r == [if s[0] == c then d else s[0]] + rest;
      assert forall i :: 0 < i < |s| ==> s[1..][i - 1] == s[i];
    }
  }

  /** Replacing a pattern that does not occur changes nothing. */
  lemma {:induction false} ReplaceAbsent(s: string, pat: string, rep: string)
    requires |pat| > 0 && !Contains(s, pat)
    ensures Replace(s, pat, rep) == s
    decreases |s|
  {
    if |s| > 0 {
      ReplaceAbsent(s[1..], pat, rep);
      assert s == [s[0]] + s[1..];
    }
  }

  /** ASCII upper-case letters lowered, everything else unchanged. */
  function LowerChar(c: char): char {
    if 'A' <= c <= 'Z' then (c as int + 32) as char else c
  }

  /** `s.lower()` as far as it matters for comparing with an ASCII tag name:
      no non-ASCII code point lowers to one of the letters compared against. */
  function Lower(s: string): string {
    seq(|s|, i requires 0 <= i < |s| => LowerChar(s[i]))
  }
}
