/**
 Greedy word wrap: what it keeps of the words, exactly when it keeps them apart and fits the width, and
 that no split uses fewer lines.
 */
module Wrap {
  import opened Telnet

  const DEFAULT_WIDTH: nat := 80

  /** The display width of a rune; `isMark` tells the zero-width combining marks. */
  function RuneWidth(r: char, isMark: char -> bool): nat {
    if isMark(r) then 0 else if r as int >= 0x80 then 2 else 1
  }

  function Width(s: string, isMark: char -> bool): nat {
    if s == [] then 0 else Width(s[..|s| - 1], isMark) + RuneWidth(s[|s| - 1], isMark)
  }

  lemma {:induction false} WidthConcat(s: string, t: string, isMark: char -> bool)
    ensures Width(s + t, isMark) == Width(s, isMark) + Width(t, isMark)
  {
    if t == [] {
      assert s + t == s;
    } else {
      assert (s + t)[..|s + t| - 1] == s + t[..|t| - 1];
      WidthConcat(s, t[..|t| - 1], isMark);
    }
  }

  /** How many runes of `s` satisfy `p`. */
  function Number(s: string, p: char -> bool): nat {
    if s == [] then 0 else (if p(s[0]) then 1 else 0) + Number(s[1..], p)
  }

  /** Marks count nothing, other runes outside ASCII twice, the rest once. */
  lemma {:induction false} WidthCounts(s: string, isMark: char -> bool)
    ensures Width(s, isMark) == Number(s, c => !isMark(c)) + Number(s, c => !isMark(c) && c as int >= 128)
  {
    if s != [] {
      WidthConcat([s[0]], s[1..], isMark);
      assert [s[0]] + s[1..] == s && [s[0]][..0] == [];
      WidthCounts(s[1..], isMark);
    }
  }

  method StringWidth(s: string, isMark: char -> bool) returns (width: nat)
    ensures width == Width(s, isMark)
  {
    width := 0;
    for i := 0 to |s|
      invariant width == Width(s[..i], isMark)
    {
      assert s[..i + 1][..i] == s[..i];
      if !isMark(s[i]) {
        width := width + if s[i] as int >= 0x80 then 2 else 1;
      }
    }
    assert s[..|s|] == s;
  }

  // ---------------------------------------------------------------------------------------------
  // Words
  // ---------------------------------------------------------------------------------------------

  /** The maximal runs without white space in `text`, `word` being the one begun. */
  function Fields(word: string, text: string, isSpace: char -> bool): seq<string>
    decreases text
  {
    if text == [] then if word == [] then [] else [word]
    else if isSpace(text[0]) then (if word == [] then [] else [word]) + Fields([], text[1..], isSpace)
    else Fields(word + [text[0]], text[1..], isSpace)
  }

  function Words(text: string, isSpace: char -> bool): seq<string> {
    Fields([], text, isSpace)
  }

  /** `s` without the runes for which `drop` holds. */
  function Without(s: string, drop: char -> bool): string {
    if s == [] then [] else (if drop(s[0]) then [] else [s[0]]) + Without(s[1..], drop)
  }

  lemma {:induction false} WithoutConcat(s: string, t: string, drop: char -> bool)
    ensures Without(s + t, drop) == Without(s, drop) + Without(t, drop)
  {
    if s == [] {
      assert s + t == t;
    } else {
      assert (s + t)[0] == s[0] && (s + t)[1..] == s[1..] + t;
      WithoutConcat(s[1..], t, drop);
    }
  }

  lemma {:induction false} WithoutNothing(s: string, drop: char -> bool)
    requires forall c :: c in s ==> !drop(c)
    ensures Without(s, drop) == s
  {
    if s != [] {
      assert s[0] in s && forall c :: c in s[1..] ==> c in s;
      WithoutNothing(s[1..], drop);
    }
  }

  /** Nonempty words without white space. */
  ghost predicate AreWords(words: seq<string>, isSpace: char -> bool) {
    forall i :: 0 <= i < |words| ==> words[i] != [] && forall c :: c in words[i] ==> !isSpace(c)
  }

  /** The words are nonempty, free of white space, and hold everything else of the text in order. */
  lemma {:induction false} FieldsAreWords(word: string, text: string, isSpace: char -> bool)
    requires forall c :: c in word ==> !isSpace(c)
    ensures AreWords(Fields(word, text, isSpace), isSpace)
    ensures Flat(Fields(word, text, isSpace)) == word + Without(text, isSpace)
    decreases text
  {
    if text == [] {
      assert [word][1..] == [];
    } else if isSpace(text[0]) {
      var more := Fields([], text[1..], isSpace);
      FieldsAreWords([], text[1..], isSpace);
      assert [] + Without(text[1..], isSpace) == Without(text[1..], isSpace);
      if word == [] {
        assert [] + more == more;
      } else {
        assert ([word] + more)[1..] == more;
      }
    } else {
      FieldsAreWords(word + [text[0]], text[1..], isSpace);
      ConcatAssociative(word, [text[0]], Without(text[1..], isSpace));
    }
  }

  /** The words with a gap before each, and one behind the last. */
  function Weave(gaps: seq<string>, words: seq<string>): string
    requires |gaps| == |words| + 1
    decreases words
  {
    if words == [] then gaps[0] else gaps[0] + (words[0] + Weave(gaps[1..], words[1..]))
  }

  /** White space only, and some of it between each two words. */
  ghost predicate AreGaps(gaps: seq<string>, isSpace: char -> bool) {
    && (forall i :: 0 <= i < |gaps| ==> forall c :: c in gaps[i] ==> isSpace(c))
    && forall i :: 0 < i < |gaps| - 1 ==> gaps[i] != []
  }

  /**
   The text is its words and white space, with some between each two words: two runes are in the same word
   if and only if no white space lies between them.
   */
  lemma {:induction false} FieldsAreSeparated(word: string, text: string, isSpace: char -> bool) returns (gaps: seq<string>)
    ensures |gaps| == |Fields(word, text, isSpace)| + 1 && AreGaps(gaps, isSpace) && (word != [] ==> gaps[0] == [])
    ensures Weave(gaps, Fields(word, text, isSpace)) == word + text
    decreases text
  {
    if text == [] {
      gaps := if word == [] then [[]] else [[], []];
    } else if isSpace(text[0]) {
      var g := FieldsAreSeparated([], text[1..], isSpace);
      gaps := GapBefore(word, text, g, isSpace);
    } else {
      gaps := FieldsAreSeparated(word + [text[0]], text[1..], isSpace);
      assert word + text == word + [text[0]] + text[1..];
    }
  }

  lemma GapBefore(word: string, text: string, g: seq<string>, isSpace: char -> bool) returns (gaps: seq<string>)
    requires text != [] && isSpace(text[0]) && |g| == |Fields([], text[1..], isSpace)| + 1 && AreGaps(g, isSpace)
    requires Weave(g, Fields([], text[1..], isSpace)) == [] + text[1..]
    ensures |gaps| == |Fields(word, text, isSpace)| + 1 && AreGaps(gaps, isSpace) && (word != [] ==> gaps[0] == [])
    ensures Weave(gaps, Fields(word, text, isSpace)) == word + text
  {
    var words := Fields([], text[1..], isSpace);
    var first := [[text[0]] + g[0]] + g[1..];
    MoreSpace(text[0], g, words, isSpace);
    assert Weave(first, words) == text by {
      assert [text[0]] + ([] + text[1..]) == text;
    }
    if word == [] {
      gaps := first;
      assert Fields(word, text, isSpace) == [] + words == words && word + text == text;
    } else {
      gaps := [[]] + first;
      WordFirst(word, first, words, isSpace);
    }
  }

  lemma MoreSpace(c: char, g: seq<string>, words: seq<string>, isSpace: char -> bool)
    requires |g| == |words| + 1 && AreGaps(g, isSpace) && isSpace(c)
    ensures var first := [[c] + g[0]] + g[1..];
            |first| == |g| && AreGaps(first, isSpace) && Weave(first, words) == [c] + Weave(g, words)
  {
    var first := [[c] + g[0]] + g[1..];
    assert first[1..] == g[1..] && forall i :: 0 < i < |g| ==> first[i] == g[i];
    if words != [] {
      ConcatAssociative([c], g[0], words[0] + Weave(g[1..], words[1..]));
    }
  }

  lemma WordFirst(word: string, first: seq<string>, words: seq<string>, isSpace: char -> bool)
    requires |first| == |words| + 1 && AreGaps(first, isSpace) && first[0] != []
    ensures AreGaps([[]] + first, isSpace)
    ensures Weave([[]] + first, [word] + words) == word + Weave(first, words)
  {
    var gaps := [[]] + first;
    assert gaps[1..] == first && ([word] + words)[1..] == words;
    assert forall i :: 0 <= i < |first| ==> gaps[i + 1] == first[i];
    assert [] + (word + Weave(first, words)) == word + Weave(first, words);
  }

  // ---------------------------------------------------------------------------------------------
  // The loop
  // ---------------------------------------------------------------------------------------------

  /** The lines produced from here on, with `line` begun and `width` its width. */
  function WrapFrom(line: string, width: nat, words: seq<string>, max: nat, isMark: char -> bool): seq<string>
    decreases words
  {
    if words == [] then if line == [] then [] else [line]
    else
      var w, rest := words[0], words[1..];
      if width > 0 && width + 1 + Width(w, isMark) > max then [line] + WrapFrom(w, Width(w, isMark), rest, max, isMark)
      else if width > 0 then WrapFrom(line + [' '] + w, width + 1 + Width(w, isMark), rest, max, isMark)
      else WrapFrom(line + w, Width(w, isMark), rest, max, isMark)
  }

  method WordWrap(text: string, maxWidth: int, isMark: char -> bool, isSpace: char -> bool) returns (lines: seq<string>)
    ensures lines == WrapFrom([], 0, Words(text, isSpace), if maxWidth <= 0 then 80 else maxWidth, isMark)
  {
    var max: nat := if maxWidth <= 0 then DEFAULT_WIDTH else maxWidth;
    var words := Words(text, isSpace);
    lines := [];
    var line: string := [];
    var lineWidth: nat := 0;
    assert words[0..] == words;
    for i := 0 to |words|
      invariant lines + WrapFrom(line, lineWidth, words[i..], max, isMark) == WrapFrom([], 0, words, max, isMark)
    {
      var wordWidth := StringWidth(words[i], isMark);
      assert words[i..][0] == words[i] && words[i..][1..] == words[i + 1..];
      ghost var lines0, line0, lineWidth0 := lines, line, lineWidth;
      if lineWidth > 0 && lineWidth + 1 + wordWidth > max {
        lines := lines + [line];
        line := [];
        lineWidth := 0;
      }
      if lineWidth > 0 {
        line := line + [' '];
        lineWidth := lineWidth + 1;
      }
      line := line + words[i];
      lineWidth := lineWidth + wordWidth;
      assert lines0 + WrapFrom(line0, lineWidth0, words[i..], max, isMark)
             == lines + WrapFrom(line, lineWidth, words[i + 1..], max, isMark) by {
        assert [] + words[i] == words[i];
        ConcatAssociative(lines0, [line0], WrapFrom(line, lineWidth, words[i + 1..], max, isMark));
      }
    }
    assert words[|words|..] == [];
    if |line| > 0 {
      lines := lines + [line];
    }
  }

  // ---------------------------------------------------------------------------------------------
  // As groups of words
  // ---------------------------------------------------------------------------------------------

  /** The words with a space between each two. */
  function Join(g: seq<string>): string {
    if g == [] then []
    else if |g| == 1 then g[0]
    else Join(g[..|g| - 1]) + [' '] + g[|g| - 1]
  }

  /** The width of the words of `g`, each with one space. */
  function Extent(g: seq<string>, isMark: char -> bool): nat {
    if g == [] then 0 else Extent(g[..|g| - 1], isMark) + Width(g[|g| - 1], isMark) + 1
  }

  predicate Fits(g: seq<string>, max: nat, isMark: char -> bool) {
    Extent(g, isMark) <= max + 1
  }

  lemma {:induction false} ExtentConcat(g: seq<string>, h: seq<string>, isMark: char -> bool)
    ensures Extent(g + h, isMark) == Extent(g, isMark) + Extent(h, isMark)
  {
    if h == [] {
      assert g + h == g;
    } else {
      assert (g + h)[..|g + h| - 1] == g + h[..|h| - 1];
      ExtentConcat(g, h[..|h| - 1], isMark);
    }
  }

  lemma ExtentOne(w: string, isMark: char -> bool)
    ensures Extent([w], isMark) == Width(w, isMark) + 1
  {
    assert [w][..0] == [];
  }

  lemma {:induction false} JoinWidth(g: seq<string>, isMark: char -> bool)
    requires g != [] && !isMark(' ')
    ensures Width(Join(g), isMark) + 1 == Extent(g, isMark)
  {
    if |g| == 1 {
      assert g == [g[0]];
      ExtentOne(g[0], isMark);
    } else {
      var h, w := g[..|g| - 1], g[|g| - 1];
      JoinWidth(h, isMark);
      WidthConcat(Join(h) + [' '], w, isMark);
      WidthConcat(Join(h), [' '], isMark);
      assert [' '][..0] == [];
      assert Width([' '], isMark) == 1;
    }
  }

  /** The greedy grouping, with `cur` the group begun. */
  function Groups(cur: seq<string>, words: seq<string>, max: nat, isMark: char -> bool): seq<seq<string>>
    decreases words
  {
    if words == [] then if cur == [] then [] else [cur]
    else if cur != [] && !Fits(cur + [words[0]], max, isMark) then [cur] + Groups([words[0]], words[1..], max, isMark)
    else Groups(cur + [words[0]], words[1..], max, isMark)
  }

  function JoinAll(groups: seq<seq<string>>): seq<string> {
    if groups == [] then [] else [Join(groups[0])] + JoinAll(groups[1..])
  }

  /** The width of the open line once a word of width `w` has been placed. */
  function Placed(width: nat, w: nat, max: nat): nat {
    if width > 0 && width + 1 + w <= max then width + 1 + w else w
  }

  /** How many of the words are put directly behind another, with `started` telling that one is there. */
  function Glued(started: bool, width: nat, words: seq<string>, max: nat, isMark: char -> bool): nat
    decreases words
  {
    if words == [] then 0
    else (if started && width == 0 then 1 else 0) + Glued(true, Placed(width, Width(words[0], isMark), max), words[1..], max, isMark)
  }

  /** When no words are glued, the lines are the joined greedy groups. */
  lemma {:induction false} WrapIsGreedy(cur: seq<string>, words: seq<string>, max: nat, isMark: char -> bool)
    requires Nonempty(cur) && Nonempty(words) && !isMark(' ')
    requires Glued(cur != [], Width(Join(cur), isMark), words, max, isMark) == 0
    ensures WrapFrom(Join(cur), Width(Join(cur), isMark), words, max, isMark) == JoinAll(Groups(cur, words, max, isMark))
    decreases words
  {
    if words == [] {
      if cur != [] {
        JoinAllOne(cur);
        JoinNonempty(cur);
      }
    } else {
      var w, rest := words[0], words[1..];
      if cur == [] {
        assert [] + [w] == [w] && Join([w]) == w && [] + w == w;
        WrapIsGreedy([w], rest, max, isMark);
      } else {
        GreedyStep(cur, w, max, isMark);
        if Fits(cur + [w], max, isMark) {
          WrapIsGreedy(cur + [w], rest, max, isMark);
        } else {
          assert Join([w]) == w;
          WrapIsGreedy([w], rest, max, isMark);
          var more := Groups([w], rest, max, isMark);
          assert ([cur] + more)[1..] == more;
        }
      }
    }
  }

  /** The loop's test for one more word is that of the groups. */
  lemma GreedyStep(cur: seq<string>, w: string, max: nat, isMark: char -> bool)
    requires cur != [] && !isMark(' ')
    ensures Fits(cur + [w], max, isMark) <==> Width(Join(cur), isMark) + 1 + Width(w, isMark) <= max
    ensures Join(cur + [w]) == Join(cur) + [' '] + w
    ensures Width(Join(cur + [w]), isMark) == Width(Join(cur), isMark) + 1 + Width(w, isMark)
  {
    assert (cur + [w])[..|cur|] == cur;
    JoinWidth(cur, isMark);
    JoinWidth(cur + [w], isMark);
    ExtentConcat(cur, [w], isMark);
    ExtentOne(w, isMark);
  }

  predicate Nonempty(words: seq<string>) {
    forall i :: 0 <= i < |words| ==> words[i] != []
  }

  lemma JoinNonempty(g: seq<string>)
    requires g != [] && Nonempty(g)
    ensures Join(g) != []
  {
  }

  lemma JoinAllOne(g: seq<string>)
    ensures JoinAll([g]) == [Join(g)]
  {
    assert [g][1..] == [];
  }

  // ---------------------------------------------------------------------------------------------
  // What greedy achieves
  // ---------------------------------------------------------------------------------------------

  /** No word is lost, repeated or moved. */
  lemma {:induction false} GroupsKeepWords(cur: seq<string>, words: seq<string>, max: nat, isMark: char -> bool)
    ensures Flat(Groups(cur, words, max, isMark)) == cur + words
    ensures forall i :: 0 <= i < |Groups(cur, words, max, isMark)| ==> Groups(cur, words, max, isMark)[i] != []
    decreases words
  {
    if words == [] {
      if cur != [] {
        assert [cur][1..] == [];
      }
    } else {
      var w, rest := words[0], words[1..];
      if cur != [] && !Fits(cur + [w], max, isMark) {
        var more := Groups([w], rest, max, isMark);
        GroupsKeepWords([w], rest, max, isMark);
        assert [w] + rest == words && ([cur] + more)[1..] == more;
      } else {
        GroupsKeepWords(cur + [w], rest, max, isMark);
        assert cur + [w] + rest == cur + words;
      }
    }
  }

  /** Each line is as full as it can be: the next line's first word does not fit on it. */
  lemma {:induction false} GroupsAreFull(cur: seq<string>, words: seq<string>, max: nat, isMark: char -> bool, i: nat)
    requires i + 1 < |Groups(cur, words, max, isMark)|
    ensures var groups := Groups(cur, words, max, isMark);
            groups[i + 1] != [] && !Fits(groups[i] + [groups[i + 1][0]], max, isMark)
    ensures cur != [] ==> cur <= Groups(cur, words, max, isMark)[0]
    decreases words
  {
    GroupsKeepWords(cur, words, max, isMark);
    if cur != [] {
      GroupsStart(cur, words, max, isMark);
    }
    if words != [] {
      var w, rest := words[0], words[1..];
      if cur != [] && !Fits(cur + [w], max, isMark) {
        var more := Groups([w], rest, max, isMark);
        assert forall k :: 0 <= k < |more| ==> ([cur] + more)[k + 1] == more[k];
        GroupsStart([w], rest, max, isMark);
        if i > 0 {
          GroupsAreFull([w], rest, max, isMark, i - 1);
        }
      } else {
        GroupsAreFull(cur + [w], rest, max, isMark, i);
      }
    }
  }

  lemma {:induction false} GroupsStart(cur: seq<string>, words: seq<string>, max: nat, isMark: char -> bool)
    requires cur != []
    ensures |Groups(cur, words, max, isMark)| > 0 && cur <= Groups(cur, words, max, isMark)[0]
    decreases words
  {
    if words != [] && Fits(cur + [words[0]], max, isMark) {
      GroupsStart(cur + [words[0]], words[1..], max, isMark);
    }
  }

  predicate AllFit(groups: seq<seq<string>>, max: nat, isMark: char -> bool) {
    forall i :: 0 <= i < |groups| ==> Fits(groups[i], max, isMark)
  }

  predicate WordsFit(words: seq<string>, max: nat, isMark: char -> bool) {
    forall i :: 0 <= i < |words| ==> Width(words[i], isMark) <= max
  }

  lemma {:induction false} GroupsFit(cur: seq<string>, words: seq<string>, max: nat, isMark: char -> bool)
    requires Fits(cur, max, isMark) && WordsFit(words, max, isMark)
    ensures AllFit(Groups(cur, words, max, isMark), max, isMark)
    decreases words
  {
    if words != [] {
      var w, rest := words[0], words[1..];
      ExtentOne(w, isMark);
      if cur != [] && !Fits(cur + [w], max, isMark) {
        GroupsFit([w], rest, max, isMark);
      } else {
        assert cur == [] ==> cur + [w] == [w];
        GroupsFit(cur + [w], rest, max, isMark);
      }
    }
  }

  lemma {:induction false} WordInGroup(groups: seq<seq<string>>, i: nat, max: nat, isMark: char -> bool)
    requires i < |Flat(groups)| && AllFit(groups, max, isMark)
    ensures Width(Flat(groups)[i], isMark) <= max
    decreases groups
  {
    var g := groups[0];
    if i < |g| {
      ExtentConcat(g[..i] + [g[i]], g[i + 1..], isMark);
      ExtentConcat(g[..i], [g[i]], isMark);
      assert g == g[..i] + [g[i]] + g[i + 1..];
      ExtentOne(g[i], isMark);
    } else {
      WordInGroup(groups[1..], i - |g|, max, isMark);
    }
  }

  /** Every line fits if and only if every word does. */
  lemma LinesFitExactly(words: seq<string>, max: nat, isMark: char -> bool)
    ensures AllFit(Groups([], words, max, isMark), max, isMark) <==> WordsFit(words, max, isMark)
  {
    var groups := Groups([], words, max, isMark);
    GroupsKeepWords([], words, max, isMark);
    assert [] + words == words;
    if WordsFit(words, max, isMark) {
      GroupsFit([], words, max, isMark);
    }
    if AllFit(groups, max, isMark) {
      forall i | 0 <= i < |words|
        ensures Width(words[i], isMark) <= max
      {
        WordInGroup(groups, i, max, isMark);
      }
    }
  }

  // ---------------------------------------------------------------------------------------------
  // Greedy is optimal
  // ---------------------------------------------------------------------------------------------

  /**
   Greedy is ahead of the other split: its line `cur` is the end of the other's line `y`, of which `p`
   is still to come. Then it needs no more lines than the other.
   */
  lemma {:induction false} Ahead(x: seq<string>, cur: seq<string>, p: seq<string>, others: seq<seq<string>>,
                                 max: nat, isMark: char -> bool)
    requires cur != [] && Fits(x + cur + p, max, isMark) && AllFit(others, max, isMark)
    ensures |Groups(cur, p + Flat(others), max, isMark)| <= 1 + |others|
    decreases others, 1, p
  {
    if p == [] {
      assert p + Flat(others) == Flat(others);
      Behind(cur, others, max, isMark);
    } else {
      var words := p + Flat(others);
      assert words[0] == p[0] && words[1..] == p[1..] + Flat(others);
      assert x + cur + p == x + (cur + [p[0]]) + p[1..];
      ExtentConcat(x + (cur + [p[0]]), p[1..], isMark);
      ExtentConcat(x, cur + [p[0]], isMark);
      Ahead(x, cur + [p[0]], p[1..], others, max, isMark);
    }
  }

  /** At worst, an open line costs one line more than any split of what follows. */
  lemma {:induction false} Behind(cur: seq<string>, others: seq<seq<string>>, max: nat, isMark: char -> bool)
    requires cur != [] && AllFit(others, max, isMark)
    ensures |Groups(cur, Flat(others), max, isMark)| <= 1 + |others|
    decreases others, 0
  {
    if others != [] {
      assert AllFit(others[1..], max, isMark);
      assert [] + others[0] == others[0];
      BehindInLine(cur, [], others[0], others[1..], max, isMark);
    }
  }

  /** The same inside the other's line, of which `y` is past and `q` to come. */
  lemma {:induction false} BehindInLine(cur: seq<string>, y: seq<string>, q: seq<string>, others: seq<seq<string>>,
                                        max: nat, isMark: char -> bool)
    requires cur != [] && Fits(y + q, max, isMark) && AllFit(others, max, isMark)
    ensures |Groups(cur, q + Flat(others), max, isMark)| <= 2 + |others|
    decreases others, 2, q
  {
    if q == [] {
      assert q + Flat(others) == Flat(others);
      Behind(cur, others, max, isMark);
    } else {
      var w := q[0];
      var words := q + Flat(others);
      assert words[0] == w && words[1..] == q[1..] + Flat(others);
      assert y + [w] + q[1..] == y + q;
      if Fits(cur + [w], max, isMark) {
        BehindInLine(cur + [w], y + [w], q[1..], others, max, isMark);
      } else {
        Ahead(y, [w], q[1..], others, max, isMark);
      }
    }
  }

  /** No way of cutting the words, in order, into lines that fit uses fewer lines. */
  lemma GreedyIsOptimal(other: seq<seq<string>>, max: nat, isMark: char -> bool)
    requires AllFit(other, max, isMark) && forall i :: 0 <= i < |other| ==> other[i] != []
    ensures |Groups([], Flat(other), max, isMark)| <= |other|
  {
    var words := Flat(other);
    if other != [] {
      var p := other[0];
      assert words[0] == p[0] && words[1..] == p[1..] + Flat(other[1..]);
      assert [] + [p[0]] == [p[0]] && [] + [p[0]] + p[1..] == p;
      assert AllFit(other[1..], max, isMark);
      Ahead([], [p[0]], p[1..], other[1..], max, isMark);
    }
  }

  // ---------------------------------------------------------------------------------------------
  // What WordWrap's lines are
  // ---------------------------------------------------------------------------------------------

  predicate LinesFit(lines: seq<string>, max: nat, isMark: char -> bool) {
    forall i :: 0 <= i < |lines| ==> Width(lines[i], isMark) <= max
  }

  lemma FirstLineFits(line: string, more: seq<string>, max: nat, isMark: char -> bool)
    ensures LinesFit([line] + more, max, isMark) <==> Width(line, isMark) <= max && LinesFit(more, max, isMark)
  {
    var all := [line] + more;
    assert all[0] == line && forall i :: 0 <= i < |more| ==> all[i + 1] == more[i];
  }

  lemma FirstWordFits(words: seq<string>, max: nat, isMark: char -> bool)
    requires words != []
    ensures WordsFit(words, max, isMark) <==> Width(words[0], isMark) <= max && WordsFit(words[1..], max, isMark)
  {
    assert forall i :: 0 <= i < |words[1..]| ==> words[i + 1] == words[1..][i];
  }

  /** Every line fits if and only if every word does, glued or not. */
  lemma {:induction false} WrapFits(line: string, width: nat, words: seq<string>, max: nat, isMark: char -> bool)
    requires width == Width(line, isMark) && Nonempty(words) && !isMark(' ')
    ensures LinesFit(WrapFrom(line, width, words, max, isMark), max, isMark)
            <==> width <= max && WordsFit(words, max, isMark)
    decreases words
  {
    if words == [] {
      if line != [] {
        FirstLineFits(line, [], max, isMark);
        assert [line] + [] == [line];
      }
    } else {
      var w, rest := words[0], words[1..];
      var v := Width(w, isMark);
      FirstWordFits(words, max, isMark);
      if width > 0 && width + 1 + v > max {
        var more := WrapFrom(w, v, rest, max, isMark);
        assert LinesFit(more, max, isMark) <==> v <= max && WordsFit(rest, max, isMark) by {
          WrapFits(w, v, rest, max, isMark);
        }
        FirstLineFits(line, more, max, isMark);
        assert WrapFrom(line, width, words, max, isMark) == [line] + more;
      } else {
        var line', width' := if width > 0 then line + [' '] + w else line + w, Placed(width, v, max);
        assert width' == Width(line', isMark) by {
          SpacedWidth(line, w, isMark);
          WidthConcat(line, w, isMark);
        }
        assert LinesFit(WrapFrom(line', width', rest, max, isMark), max, isMark)
               <==> width' <= max && WordsFit(rest, max, isMark) by {
          WrapFits(line', width', rest, max, isMark);
        }
        assert WrapFrom(line, width, words, max, isMark) == WrapFrom(line', width', rest, max, isMark);
      }
    }
  }

  lemma SpacedWidth(line: string, w: string, isMark: char -> bool)
    requires !isMark(' ')
    ensures Width(line + [' '] + w, isMark) == Width(line, isMark) + 1 + Width(w, isMark)
  {
    WidthConcat(line + [' '], w, isMark);
    WidthConcat(line, [' '], isMark);
    assert [' '][..0] == [];
    assert Width([' '], isMark) == 1;
  }

  /** Apart from spaces, the lines hold the words' runes in order, glued or not. */
  lemma {:induction false} WrapKeepsRunes(line: string, width: nat, words: seq<string>, max: nat, isMark: char -> bool,
                                          isSpace: char -> bool)
    requires AreWords(words, isSpace) && isSpace(' ')
    ensures Without(Flat(WrapFrom(line, width, words, max, isMark)), isSpace) == Without(line, isSpace) + Flat(words)
    decreases words
  {
    if words == [] {
      if line != [] {
        assert [line][1..] == [] && line + [] == line;
      }
    } else {
      var w, rest := words[0], words[1..];
      var v := Width(w, isMark);
      assert Without(w, isSpace) == w by {
        WithoutNothing(w, isSpace);
      }
      assert AreWords(rest, isSpace);
      if width > 0 && width + 1 + v > max {
        var more := WrapFrom(w, v, rest, max, isMark);
        assert Without(Flat(more), isSpace) == w + Flat(rest) by {
          WrapKeepsRunes(w, v, rest, max, isMark, isSpace);
        }
        FlatFirst(line, more, isSpace);
      } else {
        var sep := if width > 0 then [' '] else [];
        var width' := Placed(width, v, max);
        assert WrapFrom(line, width, words, max, isMark) == WrapFrom(line + sep + w, width', rest, max, isMark) by {
          assert line + [] == line;
        }
        assert Without(line + sep + w, isSpace) == Without(line, isSpace) + w by {
          WithoutConcat(line + sep, w, isSpace);
          WithoutConcat(line, sep, isSpace);
          assert Without(sep, isSpace) == [] && Without(line, isSpace) + [] == Without(line, isSpace);
        }
        WrapKeepsRunes(line + sep + w, width', rest, max, isMark, isSpace);
        ConcatAssociative(Without(line, isSpace), w, Flat(rest));
      }
    }
  }

  lemma FlatFirst(line: string, more: seq<string>, isSpace: char -> bool)
    ensures Without(Flat([line] + more), isSpace) == Without(line, isSpace) + Without(Flat(more), isSpace)
  {
    assert ([line] + more)[1..] == more;
    WithoutConcat(line, Flat(more), isSpace);
  }

  /** An open line no wider than the group `cur` leads to no more lines than the greedy groups. */
  lemma {:induction false} WrapNoLonger(line: string, width: nat, cur: seq<string>, words: seq<string>, max: nat,
                                        isMark: char -> bool)
    requires line != [] && cur != [] && Nonempty(words) && width + 1 <= Extent(cur, isMark)
    ensures |WrapFrom(line, width, words, max, isMark)| <= |Groups(cur, words, max, isMark)|
    decreases words, 1
  {
    if words != [] {
      var w, rest := words[0], words[1..];
      var v := Width(w, isMark);
      ExtentConcat(cur, [w], isMark);
      ExtentOne(w, isMark);
      if width > 0 && width + 1 + v > max {
        WrapNoLonger(w, v, [w], rest, max, isMark);
      } else {
        var line' := if width > 0 then line + [' '] + w else line + w;
        if Fits(cur + [w], max, isMark) {
          WrapNoLonger(line', Placed(width, v, max), cur + [w], rest, max, isMark);
        } else {
          WrapOneLonger(line', Placed(width, v, max), [w], rest, max, isMark);
        }
      }
    }
  }

  /** And any open line leads to at most one line more. */
  lemma {:induction false} WrapOneLonger(line: string, width: nat, cur: seq<string>, words: seq<string>, max: nat,
                                         isMark: char -> bool)
    requires line != [] && cur != [] && Nonempty(words)
    ensures |WrapFrom(line, width, words, max, isMark)| <= 1 + |Groups(cur, words, max, isMark)|
    decreases words, 0
  {
    if words != [] {
      var w, rest := words[0], words[1..];
      var v := Width(w, isMark);
      var cur' := if Fits(cur + [w], max, isMark) then cur + [w] else [w];
      if width > 0 && width + 1 + v > max {
        ExtentConcat(cur, [w], isMark);
        ExtentOne(w, isMark);
        WrapNoLonger(w, v, cur', rest, max, isMark);
      } else {
        var line' := if width > 0 then line + [' '] + w else line + w;
        WrapOneLonger(line', Placed(width, v, max), cur', rest, max, isMark);
      }
    }
  }

  /**
   For every text: the lines hold the words' runes in order; they all fit if and only if every word does;
   and no way of cutting the words, in order, into lines that fit uses fewer lines.
   */
  lemma WordWrapIsOptimal(text: string, other: seq<seq<string>>, max: nat, isMark: char -> bool, isSpace: char -> bool)
    requires max > 0 && !isMark(' ') && isSpace(' ')
    requires Flat(other) == Words(text, isSpace) && forall i :: 0 <= i < |other| ==> other[i] != []
    ensures var words, lines := Words(text, isSpace), WrapFrom([], 0, Words(text, isSpace), max, isMark);
            && Without(Flat(lines), isSpace) == Without(text, isSpace)
            && (LinesFit(lines, max, isMark) <==> WordsFit(words, max, isMark))
            && (AllFit(other, max, isMark) ==> |lines| <= |other|)
  {
    var words := Words(text, isSpace);
    var lines := WrapFrom([], 0, words, max, isMark);
    assert AreWords(words, isSpace) && Flat(words) == Without(text, isSpace) by {
      FieldsAreWords([], text, isSpace);
      assert [] + Without(text, isSpace) == Without(text, isSpace);
    }
    assert Without(Flat(lines), isSpace) == Without(text, isSpace) by {
      WrapKeepsRunes([], 0, words, max, isMark, isSpace);
      assert Without([], isSpace) == [] && [] + Flat(words) == Flat(words);
    }
    assert LinesFit(lines, max, isMark) <==> WordsFit(words, max, isMark) by {
      WrapFits([], 0, words, max, isMark);
    }
    if AllFit(other, max, isMark) {
      GreedyIsOptimal(other, max, isMark);
      FewestLines(words, max, isMark);
    }
  }

  lemma FewestLines(words: seq<string>, max: nat, isMark: char -> bool)
    requires Nonempty(words)
    ensures |WrapFrom([], 0, words, max, isMark)| <= |Groups([], words, max, isMark)|
  {
    if words != [] {
      var w := words[0];
      ExtentOne(w, isMark);
      assert [] + [w] == [w] && [] + w == w;
      WrapNoLonger(w, Width(w, isMark), [w], words[1..], max, isMark);
    }
  }

  // ---------------------------------------------------------------------------------------------
  // Exactly when words stay apart
  // ---------------------------------------------------------------------------------------------

  /** The width of the open line after placing all the words. */
  function OpenWidth(words: seq<string>, max: nat, isMark: char -> bool): nat {
    if words == [] then 0
    else Placed(OpenWidth(words[..|words| - 1], max, isMark), Width(words[|words| - 1], isMark), max)
  }

  /** A word without width begins a line, and another word follows it (on the same line, then). */
  predicate RunsOn(words: seq<string>, i: nat, max: nat, isMark: char -> bool) {
    && i + 1 < |words| && Width(words[i], isMark) == 0
    && (i == 0 || OpenWidth(words[..i], max, isMark) >= max)
  }

  /** The lines are the words, in order, split into lines and joined by spaces. */
  ghost predicate WordsKept(lines: seq<string>, words: seq<string>) {
    exists groups :: Flat(groups) == words && lines == JoinAll(groups) && forall i :: 0 <= i < |groups| ==> groups[i] != []
  }

  /** Spaces, and one for each line. */
  function Score(lines: seq<string>): nat {
    if lines == [] then 0 else Spaces(lines[0]) + 1 + Score(lines[1..])
  }

  function Spaces(s: string): nat {
    if s == [] then 0 else (if s[0] == ' ' then 1 else 0) + Spaces(s[1..])
  }

  lemma {:induction false} SpacesConcat(s: string, t: string)
    ensures Spaces(s + t) == Spaces(s) + Spaces(t)
  {
    if s == [] {
      assert s + t == t;
    } else {
      assert (s + t)[0] == s[0] && (s + t)[1..] == s[1..] + t;
      SpacesConcat(s[1..], t);
    }
  }

  lemma {:induction false} NoSpaces(s: string)
    requires ' ' !in s
    ensures Spaces(s) == 0
  {
    if s != [] {
      NoSpaces(s[1..]);
    }
  }

  predicate Solid(words: seq<string>) {
    forall i :: 0 <= i < |words| ==> words[i] != [] && ' ' !in words[i]
  }

  lemma {:induction false} JoinSpaces(g: seq<string>)
    requires g != [] && Solid(g)
    ensures Spaces(Join(g)) + 1 == |g|
  {
    NoSpaces(g[|g| - 1]);
    if |g| > 1 {
      var h := g[..|g| - 1];
      JoinSpaces(h);
      SpacesConcat(Join(h) + [' '], g[|g| - 1]);
      SpacesConcat(Join(h), [' ']);
      assert Spaces([' ']) == 1;
    }
  }

  /** Lines that keep the words apart score one for each word. */
  lemma {:induction false} KeptScore(groups: seq<seq<string>>)
    requires Solid(Flat(groups)) && forall i :: 0 <= i < |groups| ==> groups[i] != []
    ensures Score(JoinAll(groups)) == |Flat(groups)|
  {
    if groups != [] {
      var g, rest := groups[0], groups[1..];
      assert Solid(g) && Solid(Flat(rest)) by {
        assert forall i :: 0 <= i < |g| ==> Flat(groups)[i] == g[i];
        assert forall i :: 0 <= i < |Flat(rest)| ==> Flat(groups)[|g| + i] == Flat(rest)[i];
      }
      JoinSpaces(g);
      KeptScore(rest);
      assert JoinAll(groups)[1..] == JoinAll(rest);
    }
  }

  /** The loop's lines score one less for each glued word. */
  lemma {:induction false} WrapScore(line: string, width: nat, words: seq<string>, max: nat, isMark: char -> bool)
    requires Solid(words) && (line == [] ==> width == 0)
    ensures Score(WrapFrom(line, width, words, max, isMark)) + Glued(line != [], width, words, max, isMark)
            == (if line == [] then 0 else Spaces(line) + 1) + |words|
    decreases words
  {
    if words == [] {
      if line != [] {
        assert [line][1..] == [];
      }
    } else {
      var w, rest := words[0], words[1..];
      var v := Width(w, isMark);
      NoSpaces(w);
      if width > 0 && width + 1 + v > max {
        var more := WrapFrom(w, v, rest, max, isMark);
        WrapScore(w, v, rest, max, isMark);
        assert ([line] + more)[1..] == more;
      } else if width > 0 {
        WrapScore(line + [' '] + w, width + 1 + v, rest, max, isMark);
        SpacesConcat(line + [' '], w);
        SpacesConcat(line, [' ']);
        assert Spaces([' ']) == 1;
      } else {
        WrapScore(line + w, v, rest, max, isMark);
        SpacesConcat(line, w);
      }
    }
  }

  /** Some word from the `k`th on is glued if and only if it finds a line without width. */
  lemma {:induction false} GluedSomewhere(words: seq<string>, k: nat, max: nat, isMark: char -> bool)
    requires k <= |words|
    ensures Glued(k > 0, OpenWidth(words[..k], max, isMark), words[k..], max, isMark) > 0
            <==> exists j :: k <= j < |words| && 0 < j && OpenWidth(words[..j], max, isMark) == 0
    decreases |words| - k
  {
    if k < |words| {
      GluedSomewhere(words, k + 1, max, isMark);
      assert words[..k + 1][..k] == words[..k] && words[k..][1..] == words[k + 1..];
    }
  }

  /** The first word that finds such a line stands behind one that runs on. */
  lemma {:induction false} FirstGlued(words: seq<string>, j: nat, max: nat, isMark: char -> bool) returns (i: nat)
    requires 0 < j < |words| && OpenWidth(words[..j], max, isMark) == 0
    ensures RunsOn(words, i, max, isMark)
    decreases j
  {
    assert words[..j][..j - 1] == words[..j - 1];
    if j > 1 && OpenWidth(words[..j - 1], max, isMark) == 0 {
      i := FirstGlued(words, j - 1, max, isMark);
    } else {
      i := j - 1;
    }
  }

  lemma RunsOnGlues(words: seq<string>, i: nat, max: nat, isMark: char -> bool)
    requires max > 0 && RunsOn(words, i, max, isMark)
    ensures OpenWidth(words[..i + 1], max, isMark) == 0
  {
    assert words[..i + 1][..i] == words[..i];
  }

  /** Words are glued if and only if one runs on. */
  lemma GluedExactly(words: seq<string>, max: nat, isMark: char -> bool)
    requires max > 0
    ensures Glued(false, 0, words, max, isMark) > 0 <==> exists i :: RunsOn(words, i, max, isMark)
  {
    assert words[..0] == [] && words[0..] == words;
    GluedSomewhere(words, 0, max, isMark);
    if i :| RunsOn(words, i, max, isMark) {
      RunsOnGlues(words, i, max, isMark);
      assert 0 < i + 1 < |words|;
    }
    if j :| 0 < j < |words| && OpenWidth(words[..j], max, isMark) == 0 {
      var i := FirstGlued(words, j, max, isMark);
    }
  }

  /**
   WordWrap keeps the words apart if and only if no word without width that begins a line (it is the
   first, or the line before is already full) is followed by another.
   */
  lemma WordsKeptExactly(words: seq<string>, max: nat, isMark: char -> bool)
    requires Solid(words) && max > 0 && !isMark(' ')
    ensures WordsKept(WrapFrom([], 0, words, max, isMark), words) <==> !exists i :: RunsOn(words, i, max, isMark)
  {
    var lines := WrapFrom([], 0, words, max, isMark);
    GluedExactly(words, max, isMark);
    WrapScore([], 0, words, max, isMark);
    if groups :| Flat(groups) == words && lines == JoinAll(groups) && forall i :: 0 <= i < |groups| ==> groups[i] != [] {
      KeptScore(groups);
    }
    if Glued(false, 0, words, max, isMark) == 0 {
      WrapIsGreedy([], words, max, isMark);
      GroupsKeepWords([], words, max, isMark);
      assert [] + words == words;
    }
  }

  /** A word without width at the start of a text is run together with the next word. */
  lemma WidthlessWordIsMerged(mark: char, w: string, max: nat, isMark: char -> bool)
    requires isMark(mark) && w != []
    ensures WrapFrom([], 0, [[mark], w], max, isMark) == [[mark] + w]
  {
    assert Width([mark], isMark) == 0 by {
      assert [mark][..0] == [];
    }
    assert [[mark], w][1..] == [w] && [w][1..] == [] && [] + [mark] == [mark];
    assert WrapFrom([mark], 0, [w], max, isMark) == WrapFrom([mark] + w, Width(w, isMark), [], max, isMark);
  }
}
