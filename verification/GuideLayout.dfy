/** Text layout of the guide converter (scripts/md2guide.py), with the display
    width of each word as a number. */
module GuideLayout {
  import opened Options

  // ----- wrapping -----

  /** A word as it is written and the columns it takes when displayed. */
  datatype Word = Word(text: string, width: nat)

  type Line = seq<Word>

  function WordsWidth(ws: Line): nat {
    if ws == [] then 0 else WordsWidth(ws[..|ws| - 1]) + ws[|ws| - 1].width
  }

  /** A prefix, the words and one space between two of them. */
  function LineWidth(prefix: nat, ws: Line): nat {
    prefix + WordsWidth(ws) + if ws == [] then 0 else |ws| - 1
  }

  /** All words of some lines in order. */
  function Flatten(lines: seq<Line>): Line {
    if lines == [] then [] else Flatten(lines[..|lines| - 1]) + lines[|lines| - 1]
  }

  function Prefix(i: nat, first: nat, following: nat): nat {
    if i == 0 then first else following
  }

  /** A way to break the words into lines: the words in their order, no line
      without words, and every line of two words or more within the width. */
  predicate Breaks(lines: seq<Line>, words: Line, width: nat, first: nat, following: nat) {
    && Flatten(lines) == words
    && forall i :: 0 <= i < |lines| ==>
         lines[i] != [] && (|lines[i]| >= 2 ==> LineWidth(Prefix(i, first, following), lines[i]) <= width)
  }

  /** The first word of line i + 1 did not fit on line i. */
  predicate NoRoom(lines: seq<Line>, i: nat, width: nat, first: nat, following: nat)
    requires i + 1 < |lines|
  {
    lines[i + 1] != [] && LineWidth(Prefix(i, first, following), lines[i] + [lines[i + 1][0]]) > width
  }

  predicate Greedy(lines: seq<Line>, width: nat, first: nat, following: nat) {
    forall i: nat :: i + 1 < |lines| ==> NoRoom(lines, i, width, first, following)
  }

  /** The words with one space between two of them. */
  function Spaced(ws: Line): string {
    if ws == [] then ""
    else if |ws| == 1 then ws[0].text
    else Spaced(ws[..|ws| - 1]) + " " + ws[|ws| - 1].text
  }

  /** A line as it is written. */
  function Text(prefix: string, ws: Line): string {
    prefix + Spaced(ws)
  }

  /** Where words and prefix display as they are written, a line is as wide as
      its text. */
  lemma {:induction false} LineWidthIsLength(prefix: Word, ws: Line)
    requires prefix.width == |prefix.text| && forall i :: 0 <= i < |ws| ==> ws[i].width == |ws[i].text|
    ensures LineWidth(prefix.width, ws) == |Text(prefix.text, ws)|
  {
    if ws != [] {
      LineWidthIsLength(prefix, ws[..|ws| - 1]);
    }
  }

  /** One more word. */
  lemma NextWord(prefix: string, line: Line, word: Word)
    ensures Text(prefix, line + [word]) == Text(prefix, line) + (if line == [] then "" else " ") + word.text
  {
    assert (line + [word])[..|line|] == line;
  }

  predicate Written(texts: seq<string>, lines: seq<Line>, first: Word, following: Word) {
    && |texts| == |lines|
    && forall i :: 0 <= i < |lines| ==> texts[i] == Text(if i == 0 then first.text else following.text, lines[i])
  }

  /** wrap_flow: None for a width below one; otherwise the words broken into
      the fewest lines possible, and these lines written out. */
  method WrapFlow(words: Line, width: int, first: Word, following: Word)
    returns (r: Option<seq<string>>, ghost lines: seq<Line>)
    ensures r.None? <==> width < 1
    ensures r.Some? ==> Written(r.value, lines, first, following)
    ensures r.Some? ==> Breaks(lines, words, width, first.width, following.width)
    ensures r.Some? ==>
              forall other :: Breaks(other, words, width, first.width, following.width) ==> |lines| <= |other|
  {
    hide LineWidth, Breaks, Greedy, Text;
    lines := [];
    if width < 1 {
      return None, lines;
    }
    if words == [] {
      NoWords(width, first.width, following.width);
      return Some([]), lines;
    }
    var texts: seq<string>, prefix, line: Line, text := [], first, [], first.text;
    NoText(first.text);
    for i := 0 to |words|
      invariant i == 0 ==> lines == [] && line == []
      invariant prefix == if lines == [] then first else following
      invariant Written(texts, lines, first, following) && text == Text(prefix.text, line)
      invariant i > 0 ==>
                line != [] && Breaks(lines + [line], words[..i], width, first.width, following.width)
                && Greedy(lines + [line], width, first.width, following.width)
    {
      var word := words[i];
      assert words[..i + 1] == words[..i] + [word];
      if line != [] && LineWidth(prefix.width, line + [word]) > width {
        NewLine(lines, line, words[..i], word, width, first.width, following.width);
        lines := lines + [line];
        texts := texts + [text];
        prefix := following;
        NoText(prefix.text);
        NextWord(prefix.text, [], word);
        assert [] + [word] == [word];
        line := [word];
        text := prefix.text + word.text;
      } else {
        if line == [] {
          FirstWord(word, width, first.width, following.width);
          assert words[..i] == [];
        } else {
          SameLine(lines, line, words[..i], word, width, first.width, following.width);
        }
        NextWord(prefix.text, line, word);
        text := text + (if line == [] then "" else " ") + word.text;
        line := line + [word];
      }
    }
    assert words[..|words|] == words;
    lines := lines + [line];
    texts := texts + [text];
    forall other | Breaks(other, words, width, first.width, following.width)
      ensures |lines| <= |other|
    {
      GreedyIsOptimal(lines, other, words, width, first.width, following.width);
    }
    return Some(texts), lines;
  }

  lemma NoText(prefix: string)
    ensures Text(prefix, []) == prefix
  {}

  lemma NoWords(width: nat, first: nat, following: nat)
    ensures Breaks([], [], width, first, following)
  {}

  lemma FirstWord(word: Word, width: nat, first: nat, following: nat)
    ensures Breaks([] + [[] + [word]], [] + [word], width, first, following)
    ensures Greedy([] + [[] + [word]], width, first, following)
  {
    hide LineWidth, Flatten;
    var line: Line := [] + [word];
    FlattenSnoc([], line);
    FlattenNothing();
    var lines := [] + [line];
    assert |lines| == 1 && lines[0] == line && |line| == 1;
  }

  lemma FlattenNothing()
    ensures Flatten([]) == []
  {}

  lemma SameLine(lines: seq<Line>, line: Line, before: Line, word: Word, width: nat, first: nat, following: nat)
    requires line != [] && Breaks(lines + [line], before, width, first, following)
             && Greedy(lines + [line], width, first, following)
    requires LineWidth(Prefix(|lines|, first, following), line + [word]) <= width
    ensures Breaks(lines + [line + [word]], before + [word], width, first, following)
    ensures Greedy(lines + [line + [word]], width, first, following)
  {
    hide LineWidth, Prefix, Flatten;
    var a, b := lines + [line], lines + [line + [word]];
    FlattenSnoc(lines, line);
    FlattenSnoc(lines, line + [word]);
    forall i: nat | i + 1 < |b|
      ensures NoRoom(b, i, width, first, following)
    {
      assert NoRoom(a, i, width, first, following);
      assert b[i] == a[i] && b[i + 1][0] == a[i + 1][0];
    }
    forall i | 0 <= i < |b|
      ensures b[i] != [] && (|b[i]| >= 2 ==> LineWidth(Prefix(i, first, following), b[i]) <= width)
    {
      assert i < |lines| ==> b[i] == a[i];
    }
  }

  lemma NewLine(lines: seq<Line>, line: Line, before: Line, word: Word, width: nat, first: nat, following: nat)
    requires line != [] && Breaks(lines + [line], before, width, first, following)
             && Greedy(lines + [line], width, first, following)
    requires LineWidth(Prefix(|lines|, first, following), line + [word]) > width
    ensures Breaks(lines + [line] + [[word]], before + [word], width, first, following)
    ensures Greedy(lines + [line] + [[word]], width, first, following)
  {
    hide LineWidth, Prefix, Flatten;
    var a, b := lines + [line], lines + [line] + [[word]];
    FlattenSnoc(a, [word]);
    forall i: nat | i + 1 < |b|
      ensures NoRoom(b, i, width, first, following)
    {
      if i < |lines| {
        assert NoRoom(a, i, width, first, following);
        assert b[i] == a[i] && b[i + 1] == a[i + 1];
      }
    }
  }

  lemma FlattenSnoc(lines: seq<Line>, line: Line)
    ensures Flatten(lines + [line]) == Flatten(lines) + line
  {
    assert (lines + [line])[..|lines|] == lines;
  }

  lemma {:induction false} WordsWidthAppend(a: Line, b: Line)
    ensures WordsWidth(a + b) == WordsWidth(a) + WordsWidth(b)
  {
    if b == [] {
      assert a + b == a;
    } else {
      WordsWidthAppend(a, b[..|b| - 1]);
      assert (a + b)[..|a + b| - 1] == a + b[..|b| - 1];
    }
  }

  /** Part of a line is no wider than the line. */
  lemma PartIsNarrower(prefix: nat, ws: Line, i: nat, j: nat)
    requires i < j <= |ws|
    ensures LineWidth(prefix, ws[i..j]) <= LineWidth(prefix, ws)
  {
    WordsWidthAppend(ws[..i], ws[i..j]);
    WordsWidthAppend(ws[..j], ws[j..]);
    assert ws[..j] == ws[..i] + ws[i..j] && ws == ws[..j] + ws[j..];
  }

  /** How many words the first k lines hold. */
  function Cover(lines: seq<Line>, k: nat): nat
    requires k <= |lines|
  {
    |Flatten(lines[..k])|
  }

  /** Line k is the words between the lines before and after it. */
  lemma {:induction false} LineIsSlice(lines: seq<Line>, words: Line, k: nat)
    requires Flatten(lines) == words && k < |lines|
    ensures Cover(lines, k) + |lines[k]| == Cover(lines, k + 1) <= |words|
    ensures lines[k] == words[Cover(lines, k)..Cover(lines, k + 1)]
    decreases |lines|
  {
    var n := |lines| - 1;
    if k == n {
      assert lines[..k + 1] == lines;
    } else {
      LineIsSlice(lines[..n], Flatten(lines[..n]), k);
      assert lines[..n][..k] == lines[..k] && lines[..n][..k + 1] == lines[..k + 1];
    }
  }

  /** After k lines the greedy breaking has placed at least as many words. */
  lemma {:induction false} GreedyLeads(g: seq<Line>, o: seq<Line>, words: Line, width: nat, first: nat,
                                       following: nat, k: nat)
    requires Breaks(g, words, width, first, following) && Greedy(g, width, first, following)
    requires Breaks(o, words, width, first, following) && k <= |g| && k <= |o|
    ensures Cover(o, k) <= Cover(g, k)
  {
    if k > 0 {
      var i := k - 1;
      GreedyLeads(g, o, words, width, first, following, i);
      LineIsSlice(g, words, i);
      LineIsSlice(o, words, i);
      if k == |g| {
        assert g[..k] == g;
      } else {
        LineIsSlice(g, words, k);
        assert NoRoom(g, i, width, first, following);
        hide LineWidth, Flatten;
        Lead(Prefix(i, first, following), words, g[i], g[k][0], o[i], Cover(o, i), Cover(g, i), Cover(g, k),
             Cover(o, k), width);
      }
    }
  }

  /** A line that starts no later and fits ends no later than one that stopped
      because the next word did not fit. */
  lemma Lead(prefix: nat, words: Line, line: Line, next: Word, other: Line, a: nat, from: nat, to: nat, b: nat,
             width: nat)
    requires a <= from < to < |words| && a <= b <= |words|
    requires line == words[from..to] && next == words[to] && other == words[a..b]
    requires LineWidth(prefix, line + [next]) > width
    requires |other| >= 2 ==> LineWidth(prefix, other) <= width
    ensures b <= to
  {
    hide LineWidth;
    if b > to {
      Exchange(prefix, words, a, from, to, b);
    }
  }

  lemma SliceOfSlice(s: Line, a: nat, b: nat, i: nat, j: nat)
    requires a <= b <= |s| && i <= j <= b - a
    ensures s[a..b][i..j] == s[a + i..a + j]
  {
    forall k | 0 <= k < j - i
      ensures s[a..b][i..j][k] == s[a + i..a + j][k]
    {}
  }

  /** A stretch of words that fits holds every shorter stretch in it. */
  lemma Exchange(prefix: nat, words: Line, a: nat, from: nat, to: nat, b: nat)
    requires a <= from < to < b <= |words|
    ensures LineWidth(prefix, words[from..to] + [words[to]]) <= LineWidth(prefix, words[a..b])
  {
    hide LineWidth;
    PartIsNarrower(prefix, words[a..b], from - a, to + 1 - a);
    SliceOfSlice(words, a, b, from - a, to + 1 - a);
    assert words[from..to + 1] == words[from..to] + [words[to]];
  }

  /** No way of breaking uses fewer lines. */
  lemma GreedyIsOptimal(g: seq<Line>, o: seq<Line>, words: Line, width: nat, first: nat, following: nat)
    requires Breaks(g, words, width, first, following) && Greedy(g, width, first, following)
    requires Breaks(o, words, width, first, following)
    ensures |g| <= |o|
  {
    if |o| < |g| {
      GreedyLeads(g, o, words, width, first, following, |o|);
      assert o[..|o|] == o;
      LineIsSlice(g, words, |o|);
    }
  }

  // ----- column widths -----

  function Sum(s: seq<nat>): nat {
    if s == [] then 0 else Sum(s[..|s| - 1]) + s[|s| - 1]
  }

  function Max(a: int, b: int): int { if a < b then b else a }

  function Min(a: int, b: int): int { if a < b then a else b }

  /** The most a column can use: its widest cell, or its longest word. */
  function Wanted(minimums: seq<nat>, maximums: seq<nat>): (w: seq<nat>)
    requires |minimums| == |maximums|
    ensures |w| == |minimums|
  {
    seq(|minimums|, i requires 0 <= i < |minimums| => Max(minimums[i], maximums[i]))
  }

  /** Three columns between two table columns; at least one is left. */
  function Available(width: int, columns: nat): int {
    Max(1, width - 3 * (columns - 1))
  }

  predicate Between(minimums: seq<nat>, widths: seq<nat>, wanted: seq<nat>) {
    && |minimums| == |widths| == |wanted|
    && forall i :: 0 <= i < |widths| ==> minimums[i] <= widths[i] <= wanted[i]
  }

  lemma {:induction false} SumMonotone(a: seq<nat>, b: seq<nat>)
    requires |a| == |b| && forall i :: 0 <= i < |a| ==> a[i] <= b[i]
    ensures Sum(a) <= Sum(b)
  {
    if a != [] {
      SumMonotone(a[..|a| - 1], b[..|a| - 1]);
    }
  }

  lemma {:induction false} SumUpdate(s: seq<nat>, i: nat, x: nat)
    requires i < |s|
    ensures Sum(s[i := x]) == Sum(s) - s[i] + x
  {
    var n := |s| - 1;
    if i == n {
      assert s[i := x][..n] == s[..n];
    } else {
      SumUpdate(s[..n], i, x);
      assert s[i := x][..n] == s[..n][i := x];
    }
  }

  /** The candidates are the columns with a wish, in order. */
  predicate AreCandidates(candidates: seq<nat>, widths: seq<nat>, maximums: seq<nat>)
    requires |widths| == |maximums|
  {
    && (forall j :: 0 <= j < |candidates| ==>
          candidates[j] < |widths| && widths[candidates[j]] < maximums[candidates[j]])
    && (forall i, j :: 0 <= i < j < |candidates| ==> candidates[i] < candidates[j])
    && (forall i :: 0 <= i < |widths| && widths[i] < maximums[i] ==> i in candidates)
  }

  /** The columns that are still below what they want. */
  method Candidates(widths: seq<nat>, maximums: seq<nat>) returns (c: seq<nat>)
    requires |widths| == |maximums|
    ensures AreCandidates(c, widths, maximums)
  {
    c := [];
    for i := 0 to |widths|
      invariant forall j :: 0 <= j < |c| ==> c[j] < i && widths[c[j]] < maximums[c[j]]
      invariant forall k, j :: 0 <= k < j < |c| ==> c[k] < c[j]
      invariant forall k :: 0 <= k < i && widths[k] < maximums[k] ==> k in c
    {
      if widths[i] < maximums[i] {
        c := c + [i];
      }
    }
  }

  /** A column's share of what remains, rounded down but at least one. */
  function Share(remaining: nat, weight: nat, total: nat): (s: nat)
    requires total > 0
    ensures s >= 1 && (s > 1 ==> s * total <= remaining * weight) && remaining * weight < (s + 1) * total
  {
    Floor(remaining * weight, total);
    Max(1, remaining * weight / total)
  }

  lemma Floor(x: nat, d: nat)
    requires d > 0
    ensures x / d * d <= x < (x / d + 1) * d
  {
    assert x == d * (x / d) + x % d;
  }

  /** What a column can still use. */
  function Wish(widths: seq<nat>, maximums: seq<nat>, i: nat): nat
    requires i < |widths| == |maximums|
  {
    if widths[i] < maximums[i] then maximums[i] - widths[i] else 0
  }

  /** What the first n columns can still use together. */
  function Wishes(widths: seq<nat>, maximums: seq<nat>, n: nat): nat
    requires n <= |widths| == |maximums|
  {
    if n == 0 then 0 else Wishes(widths, maximums, n - 1) + Wish(widths, maximums, n - 1)
  }

  /** What is left when the columns before i have had their turn. */
  function Left(before: seq<nat>, after: seq<nat>, i: nat, remaining: nat): int
    requires i <= |before| == |after|
  {
    remaining + Sum(before[..i]) - Sum(after[..i])
  }

  /** Column i in a proportional pass: as long as something is left, it gets the
      share of it that its wish is of all wishes, but no more than it can use and
      no more than is left. */
  predicate Served(maximums: seq<nat>, before: seq<nat>, after: seq<nat>, i: nat, remaining: nat)
    requires i < |before| == |after| == |maximums|
  {
    var wish, left := Wish(before, maximums, i), Left(before, after, i, remaining);
    if wish == 0 || left <= 0 then after[i] == before[i]
    else
      WishCounts(before, maximums, i, |before|);
      after[i] == before[i] + Min(Share(left, wish, Wishes(before, maximums, |before|)), Min(wish, left))
  }

  lemma {:induction false} WishCounts(widths: seq<nat>, maximums: seq<nat>, i: nat, n: nat)
    requires i < n <= |widths| == |maximums|
    ensures Wishes(widths, maximums, n) >= Wish(widths, maximums, i)
  {
    if i < n - 1 {
      WishCounts(widths, maximums, i, n - 1);
    }
  }

  /** A whole pass. */
  predicate Passes(maximums: seq<nat>, before: seq<nat>, after: seq<nat>, remaining: nat) {
    && |before| == |after| == |maximums|
    && forall i :: 0 <= i < |before| ==> Served(maximums, before, after, i, remaining)
  }

  /** The column whose turn it is, or the end. */
  function Turn(candidates: seq<nat>, j: nat, n: nat): nat
    requires j <= |candidates|
  {
    if j < |candidates| then candidates[j] else n
  }

  lemma NoneBetween(candidates: seq<nat>, widths: seq<nat>, maximums: seq<nat>, j: nat)
    requires |widths| == |maximums| && AreCandidates(candidates, widths, maximums) && j <= |candidates|
    ensures var from := if j == 0 then 0 else candidates[j - 1] + 1;
      from <= Turn(candidates, j, |widths|) <= |widths|
      && forall i :: from <= i < Turn(candidates, j, |widths|) ==> Wish(widths, maximums, i) == 0
  {
    var from := if j == 0 then 0 else candidates[j - 1] + 1;
    forall i | from <= i < Turn(candidates, j, |widths|)
      ensures Wish(widths, maximums, i) == 0
    {
      forall k | 0 <= k < |candidates|
        ensures candidates[k] != i
      {
        assert k < j - 1 ==> candidates[k] < candidates[j - 1];
        assert k > j ==> candidates[j] < candidates[k];
      }
    }
  }

  lemma {:induction false} WishesUpTo(widths: seq<nat>, maximums: seq<nat>, from: nat, until: nat)
    requires from <= until <= |widths| == |maximums|
    requires forall i :: from <= i < until ==> Wish(widths, maximums, i) == 0
    ensures Wishes(widths, maximums, until) == Wishes(widths, maximums, from)
    decreases until
  {
    if from < until {
      WishesUpTo(widths, maximums, from, until - 1);
    }
  }

  lemma LeftStep(before: seq<nat>, after: seq<nat>, i: nat, remaining: nat)
    requires i < |before| == |after|
    ensures Left(before, after, i + 1, remaining) == Left(before, after, i, remaining) + before[i] - after[i]
  {
    assert before[..i + 1][..i] == before[..i] && after[..i + 1][..i] == after[..i];
  }

  /** Columns that stay as they are leave what is left as it is. */
  lemma {:induction false} LeftSame(before: seq<nat>, after: seq<nat>, from: nat, until: nat, remaining: nat)
    requires from <= until <= |before| == |after| && forall i :: from <= i < until ==> after[i] == before[i]
    ensures Left(before, after, until, remaining) == Left(before, after, from, remaining)
    decreases until
  {
    hide Left;
    if from < until {
      LeftSame(before, after, from, until - 1, remaining);
      LeftStep(before, after, until - 1, remaining);
    }
  }

  /** The columns before `until` have been served, those after it not touched, and
      `left` is what is left. */
  predicate ServedUpTo(maximums: seq<nat>, before: seq<nat>, after: seq<nat>, until: nat, remaining: nat, left: int) {
    && until <= |before| == |after| == |maximums|
    && (forall i :: 0 <= i < until ==> Served(maximums, before, after, i, remaining))
    && (forall i :: until <= i < |before| ==> after[i] == before[i])
    && left == Left(before, after, until, remaining)
  }

  /** Columns without a wish, or with nothing left for them, are served by
      leaving them alone. */
  lemma SkipColumns(maximums: seq<nat>, before: seq<nat>, after: seq<nat>, from: nat, until: nat, remaining: nat,
                    left: int)
    requires ServedUpTo(maximums, before, after, from, remaining, left) && from <= until <= |before|
    requires left <= 0 || forall i :: from <= i < until ==> Wish(before, maximums, i) == 0
    ensures ServedUpTo(maximums, before, after, until, remaining, left)
  {
    forall i | from <= i < until
      ensures Served(maximums, before, after, i, remaining)
    {
      LeftSame(before, after, from, i, remaining);
    }
    LeftSame(before, after, from, until, remaining);
  }

  lemma NothingServed(maximums: seq<nat>, before: seq<nat>, remaining: nat)
    requires |before| == |maximums|
    ensures ServedUpTo(maximums, before, before, 0, remaining, remaining)
  {}

  /** One column with a wish. */
  lemma ServeColumn(maximums: seq<nat>, before: seq<nat>, after: seq<nat>, i: nat, remaining: nat, left: int,
                    addition: nat)
    requires ServedUpTo(maximums, before, after, i, remaining, left) && i < |before| && left > 0
    requires Wish(before, maximums, i) > 0 && Wishes(before, maximums, |before|) > 0
    requires addition == Min(Share(left, Wish(before, maximums, i), Wishes(before, maximums, |before|)),
                             Min(Wish(before, maximums, i), left))
    ensures ServedUpTo(maximums, before, after[i := after[i] + addition], i + 1, remaining, left - addition)
  {
    hide Share, Wish, Wishes, Sum;
    var next := after[i := after[i] + addition];
    forall k | 0 <= k <= i
      ensures Left(before, next, k, remaining) == Left(before, after, k, remaining)
    {
      assert next[..k] == after[..k];
    }
    forall k | 0 <= k < i
      ensures Served(maximums, before, next, k, remaining)
    {
      assert Served(maximums, before, after, k, remaining);
    }
    LeftStep(before, next, i, remaining);
  }

  /** The sum of the weights. */
  method TotalWeight(maximums: seq<nat>, widths: seq<nat>, candidates: seq<nat>) returns (total: nat)
    requires |widths| == |maximums| && AreCandidates(candidates, widths, maximums)
    ensures total == Wishes(widths, maximums, |widths|) && total >= |candidates|
  {
    hide Wishes, AreCandidates;
    var n := |widths|;
    total := 0;
    NoneBetween(candidates, widths, maximums, 0);
    NoWishes(widths, maximums);
    WishesUpTo(widths, maximums, 0, Turn(candidates, 0, n));
    for j := 0 to |candidates|
      invariant total >= j && Turn(candidates, j, n) <= n
      invariant total == Wishes(widths, maximums, Turn(candidates, j, n))
    {
      CandidateHasWish(candidates, widths, maximums, j);
      NoneBetween(candidates, widths, maximums, j + 1);
      NextWish(widths, maximums, candidates[j]);
      WishesUpTo(widths, maximums, candidates[j] + 1, Turn(candidates, j + 1, n));
      total := total + Max(1, maximums[candidates[j]] - widths[candidates[j]]);
    }
  }

  /** One proportional pass; what is left over shrinks while it runs. */
  method Pass(minimums: seq<nat>, maximums: seq<nat>, widths0: seq<nat>, remaining0: nat, candidates: seq<nat>)
    returns (widths: seq<nat>, remaining: nat)
    requires |minimums| == |maximums| && Between(minimums, widths0, Wanted(minimums, maximums))
    requires remaining0 > 0 && candidates != [] && AreCandidates(candidates, widths0, maximums)
    ensures Passes(maximums, widths0, widths, remaining0)
    ensures Between(minimums, widths, Wanted(minimums, maximums))
    ensures remaining < remaining0 && Sum(widths) + remaining == Sum(widths0) + remaining0
  {
    hide Share, Sum, Wishes, Left, Served, ServedUpTo, AreCandidates;
    var n := |widths0|;
    var total := TotalWeight(maximums, widths0, candidates);
    NoneBetween(candidates, widths0, maximums, 0);
    widths, remaining := widths0, remaining0;
    NothingServed(maximums, widths0, remaining0);
    SkipColumns(maximums, widths0, widths, 0, Turn(candidates, 0, n), remaining0, remaining);
    for j := 0 to |candidates|
      invariant Turn(candidates, j, n) <= n
      invariant ServedUpTo(maximums, widths0, widths, Turn(candidates, j, n), remaining0, remaining)
      invariant Between(minimums, widths, Wanted(minimums, maximums))
      invariant j > 0 ==> remaining < remaining0
      invariant j == 0 ==> remaining == remaining0
      invariant remaining > 0
    {
      var column := candidates[j];
      NoneBetween(candidates, widths0, maximums, j + 1);
      Untouched(maximums, widths0, widths, column, remaining0, remaining);
      CandidateHasWish(candidates, widths0, maximums, j);
      var weight := Max(1, maximums[column] - widths0[column]);
      var share := Share(remaining, weight, total);
      var addition := Min(share, Min(maximums[column] - widths[column], remaining));
      ServeColumn(maximums, widths0, widths, column, remaining0, remaining, addition);
      widths := widths[column := widths[column] + addition];
      remaining := remaining - addition;
      if remaining == 0 {
        SkipColumns(maximums, widths0, widths, column + 1, n, remaining0, remaining);
        AllServed(maximums, widths0, widths, remaining0, remaining);
        return;
      }
      SkipColumns(maximums, widths0, widths, column + 1, Turn(candidates, j + 1, n), remaining0, remaining);
    }
    AllServed(maximums, widths0, widths, remaining0, remaining);
  }

  lemma NoWishes(widths: seq<nat>, maximums: seq<nat>)
    requires |widths| == |maximums|
    ensures Wishes(widths, maximums, 0) == 0
  {}

  lemma NextWish(widths: seq<nat>, maximums: seq<nat>, i: nat)
    requires i < |widths| == |maximums|
    ensures Wishes(widths, maximums, i + 1) == Wishes(widths, maximums, i) + Wish(widths, maximums, i)
  {}

  lemma CandidateHasWish(candidates: seq<nat>, widths: seq<nat>, maximums: seq<nat>, j: nat)
    requires |widths| == |maximums| && AreCandidates(candidates, widths, maximums) && j < |candidates|
    ensures candidates[j] < |widths| && widths[candidates[j]] < maximums[candidates[j]]
  {}

  lemma Untouched(maximums: seq<nat>, before: seq<nat>, after: seq<nat>, i: nat, remaining: nat, left: int)
    requires ServedUpTo(maximums, before, after, i, remaining, left) && i < |before|
    ensures after[i] == before[i] && |after| == |before|
  {}

  lemma AllServed(maximums: seq<nat>, before: seq<nat>, after: seq<nat>, remaining: nat, left: int)
    requires ServedUpTo(maximums, before, after, |before|, remaining, left)
    ensures Passes(maximums, before, after, remaining) && Sum(after) + left == Sum(before) + remaining
  {
    assert before[..|before|] == before && after[..|before|] == after;
  }

  /** Some passes, one after another, as long as columns are left to give out
      and someone wants them. */
  predicate PassByPass(steps: seq<seq<nat>>, maximums: seq<nat>, available: int) {
    forall k :: 0 <= k < |steps| - 1 ==>
      available > Sum(steps[k]) && Passes(maximums, steps[k], steps[k + 1], available - Sum(steps[k]))
  }

  /** distribute_widths: every column gets at least its longest word and no
      more than it wants, and together they take all that is available unless
      that is too little or too much; what there is beyond the longest words is
      given out in proportional passes. */
  method DistributeWidths(minimums: seq<nat>, maximums: seq<nat>, width: int)
    returns (widths: seq<nat>, ghost steps: seq<seq<nat>>)
    requires |minimums| == |maximums|
    ensures Between(minimums, widths, Wanted(minimums, maximums))
    ensures Sum(widths) == Max(Sum(minimums), Min(Available(width, |minimums|), Sum(Wanted(minimums, maximums))))
    ensures |steps| > 0 && steps[0] == minimums && steps[|steps| - 1] == widths
    ensures PassByPass(steps, maximums, Available(width, |minimums|))
  {
    hide Sum, Passes, AreCandidates;
    var available := Available(width, |minimums|);
    ghost var wanted := Wanted(minimums, maximums);
    widths := minimums;
    steps := [minimums];
    var remaining := available - Sum(widths);
    SumMonotone(minimums, wanted);
    while remaining > 0
      invariant Between(minimums, widths, wanted)
      invariant Sum(widths) + remaining == available
      invariant remaining < 0 ==> widths == minimums
      invariant |steps| > 0 && steps[0] == minimums && steps[|steps| - 1] == widths
      invariant PassByPass(steps, maximums, available)
    {
      var candidates := Candidates(widths, maximums);
      if candidates == [] {
        NoCandidates(widths, maximums);
        SumMonotone(wanted, widths);
        break;
      }
      widths, remaining := Pass(minimums, maximums, widths, remaining, candidates);
      steps := steps + [widths];
    }
    SumMonotone(minimums, widths);
    SumMonotone(widths, wanted);
  }

  lemma NoCandidates(widths: seq<nat>, maximums: seq<nat>)
    requires |widths| == |maximums| && AreCandidates([], widths, maximums)
    ensures forall i :: 0 <= i < |widths| ==> widths[i] >= maximums[i]
  {}

  // ----- rows -----

  datatype Mode = Left | Right | Center

  function Spaces(n: nat): (s: string)
    ensures |s| == n
  {
    seq(n, _ => ' ')
  }

  /** padded: a cell filled up to the width of its column. */
  function Padded(value: string, width: nat, mode: Mode): (s: string)
    ensures |s| == if |value| < width then width else |value|
  {
    var padding := if |value| < width then width - |value| else 0;
    match mode
    case Right => Spaces(padding) + value
    case Center => Spaces(padding / 2) + value + Spaces(padding - padding / 2)
    case Left => value + Spaces(padding)
  }

  /** The cells of one row, each filled up. */
  function Cells(values: seq<string>, widths: seq<nat>, modes: seq<Mode>): (cells: seq<string>)
    requires |values| == |widths| == |modes|
    ensures |cells| == |values|
  {
    seq(|values|, i requires 0 <= i < |values| => Padded(values[i], widths[i], modes[i]))
  }

  /** The cells with a bar between two of them. */
  function Row(cells: seq<string>): string {
    if cells == [] then ""
    else if |cells| == 1 then cells[0]
    else Row(cells[..|cells| - 1]) + " | " + cells[|cells| - 1]
  }

  lemma {:induction false} RowWidth(cells: seq<string>, widths: seq<nat>)
    requires |cells| == |widths| > 0 && forall i :: 0 <= i < |cells| ==> |cells[i]| == widths[i]
    ensures |Row(cells)| == Sum(widths) + 3 * (|widths| - 1)
  {
    if |cells| > 1 {
      RowWidth(cells[..|cells| - 1], widths[..|widths| - 1]);
    } else {
      assert widths[..0] == [];
    }
  }

  lemma {:induction false} SumOfPositive(s: seq<nat>)
    requires forall i :: 0 <= i < |s| ==> s[i] >= 1
    ensures Sum(s) >= |s|
  {
    if s != [] {
      SumOfPositive(s[..|s| - 1]);
    }
  }

  /** A row of a table whose columns have the widths that are given out fits the
      page if the longest words do, and then fills it unless there is not enough
      to show. */
  lemma RowFits(minimums: seq<nat>, maximums: seq<nat>, width: int, widths: seq<nat>, values: seq<string>,
                modes: seq<Mode>)
    requires |minimums| == |maximums| == |widths| == |values| == |modes| > 0
    requires Sum(widths) == Max(Sum(minimums), Min(Available(width, |minimums|), Sum(Wanted(minimums, maximums))))
    requires forall i :: 0 <= i < |minimums| ==> minimums[i] >= 1
    requires forall i :: 0 <= i < |values| ==> |values[i]| <= widths[i]
    requires Sum(minimums) + 3 * (|minimums| - 1) <= width
    ensures |Row(Cells(values, widths, modes))| <= width
    ensures Sum(Wanted(minimums, maximums)) + 3 * (|minimums| - 1) >= width
            ==> |Row(Cells(values, widths, modes))| == width
  {
    hide Sum, Row, Cells, Wanted;
    CellWidths(values, widths, modes);
    RowWidth(Cells(values, widths, modes), widths);
    SumOfPositive(minimums);
    Filled(Sum(minimums), Sum(Wanted(minimums, maximums)), Sum(widths), width, 3 * (|minimums| - 1));
  }

  lemma CellWidths(values: seq<string>, widths: seq<nat>, modes: seq<Mode>)
    requires |values| == |widths| == |modes| && forall i :: 0 <= i < |values| ==> |values[i]| <= widths[i]
    ensures forall i :: 0 <= i < |values| ==> |Cells(values, widths, modes)[i]| == widths[i]
  {
    hide Padded;
  }

  lemma Filled(low: int, want: int, total: int, width: int, gaps: int)
    requires total == Max(low, Min(Max(1, width - gaps), want)) && low >= 1 && low + gaps <= width
    ensures total + gaps <= width && (want + gaps >= width ==> total + gaps == width)
  {}
}
