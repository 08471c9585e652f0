/** wrap_text: splitting a text into lines no wider than a given width, breaking at
    spaces and newlines and cutting words that do not fit on a line of their own. */
module WrapText {

  predicate IsBlank(c: char)
  {
    c == ' ' || c == '\n'
  }

  /** The concatenation of the lines. */
  function Concat(ls: seq<string>): string
  {
    if |ls| == 0 then [] else Concat(ls[..|ls| - 1]) + ls[|ls| - 1]
  }

  /** The text without its spaces and newlines. */
  function NonBlank(s: string): string
  {
    if |s| == 0 then []
    else NonBlank(s[..|s| - 1]) + (if IsBlank(s[|s| - 1]) then [] else [s[|s| - 1]])
  }

  function Count(s: string, c: char): nat
  {
    if |s| == 0 then 0 else Count(s[..|s| - 1], c) + (if s[|s| - 1] == c then 1 else 0)
  }

  /** The last line extended by `w`. */
  function AppendLast(ls: seq<string>, w: string): (r: seq<string>)
    requires |ls| > 0
    ensures |r| == |ls|
  {
    ls[..|ls| - 1] + [ls[|ls| - 1] + w]
  }

  /** The newline-separated segments of a text. */
  function Split(s: string): (r: seq<string>)
    ensures |r| == 1 + Count(s, '\n')
  {
    if |s| == 0 then [""]
    else if s[|s| - 1] == '\n' then Split(s[..|s| - 1]) + [""]
    else AppendLast(Split(s[..|s| - 1]), [s[|s| - 1]])
  }

  /** The lines joined with newlines between them. */
  function JoinLines(ls: seq<string>): string
    requires |ls| > 0
  {
    if |ls| == 1 then ls[0] else JoinLines(ls[..|ls| - 1]) + ['\n'] + ls[|ls| - 1]
  }

  /** The line with its trailing spaces removed, keeping at least one character. */
  function TrimEnd(s: string): (r: string)
    ensures |r| <= |s| && r == s[..|r|]
    ensures forall k :: |r| <= k < |s| ==> s[k] == ' '
    ensures |r| > 1 ==> r[|r| - 1] != ' '
    ensures |s| > 0 ==> |r| > 0
  {
    if |s| > 1 && s[|s| - 1] == ' ' then TrimEnd(s[..|s| - 1]) else s
  }

  predicate Bounded(ls: seq<string>, width: int)
  {
    forall j :: 0 <= j < |ls| ==> |ls[j]| <= width
  }

  predicate NoNewlines(ls: seq<string>)
  {
    forall j :: 0 <= j < |ls| ==> '\n' !in ls[j]
  }

  predicate Trimmed(ls: seq<string>)
  {
    forall j :: 0 <= j < |ls| ==> |ls[j]| > 1 ==> ls[j][|ls[j]| - 1] != ' '
  }

  // ---------------------------------------------------------------------------
  // The algorithm

  /** Places the word that has just ended: on the last line if it fits there (or there
      is no width), otherwise cut into pieces of the maximal width, the first placed on
      the last line when that is empty and each other on a new line, and the remainder
      on a new line. */
  method PlaceWord(lines: seq<string>, word: string, lineWidth: int) returns (r: seq<string>)
    requires |lines| > 0
    ensures |r| >= |lines|
    ensures Concat(r) == Concat(lines) + word
    ensures lineWidth > 0 && Bounded(lines, lineWidth) ==> Bounded(r, lineWidth)
    ensures NoNewlines(lines) && '\n' !in word ==> NoNewlines(r)
    ensures lineWidth <= 0 ==> r == AppendLast(lines, word)
  {
    if |lines[|lines| - 1]| + |word| > lineWidth && lineWidth > 0 {
      r := lines;
      var rest := word;
      while |rest| > lineWidth
        invariant |r| >= |lines|
        invariant Concat(r) + rest == Concat(lines) + word
        invariant Bounded(lines, lineWidth) ==> Bounded(r, lineWidth)
        invariant NoNewlines(lines) && '\n' !in word ==> NoNewlines(r) && '\n' !in rest
        decreases |rest|
      {
        var piece := rest[..lineWidth];
        if |r[|r| - 1]| == 0 {
          ConcatAppendLast(r, piece);
          r := AppendLast(r, piece);
        } else {
          ConcatSnoc(r, piece);
          r := r + [piece];
        }
        assert rest == piece + rest[lineWidth..];
        rest := rest[lineWidth..];
      }
      ConcatSnoc(r, rest);
      r := r + [rest];
    } else {
      ConcatAppendLast(lines, word);
      r := AppendLast(lines, word);
    }
  }

  /** The trimming loop of one line. */
  method TrimLine(s: string) returns (r: string)
    ensures r == TrimEnd(s)
  {
    var newSize := |s|;
    assert s[..newSize] == s;
    while newSize > 1 && s[newSize - 1] == ' '
      invariant 0 <= newSize <= |s|
      invariant TrimEnd(s) == TrimEnd(s[..newSize])
    {
      assert s[..newSize][..newSize - 1] == s[..newSize - 1];
      newSize := newSize - 1;
    }
    r := s[..newSize];
  }

  method TrimLines(ls: seq<string>) returns (r: seq<string>)
    ensures |r| == |ls| && forall j :: 0 <= j < |ls| ==> r[j] == TrimEnd(ls[j])
  {
    r := ls;
    for j := 0 to |ls|
      invariant |r| == |ls|
      invariant forall k :: 0 <= k < j ==> r[k] == TrimEnd(ls[k])
      invariant forall k :: j <= k < |ls| ==> r[k] == ls[k]
    {
      var t := TrimLine(r[j]);
      r := r[j := t];
    }
  }

  /** What the scan of the consumed text t keeps: the lines so far and the word being
      read. */
  ghost predicate Scanned(t: string, lineWidth: int, lines: seq<string>, word: string)
  {
    && |lines| >= 1 + Count(t, '\n')
    && (lineWidth > 0 ==> Bounded(lines, lineWidth))
    && NoNewlines(lines) && ' ' !in word && '\n' !in word
    && NonBlank(Concat(lines) + word) == NonBlank(t)
    && (lineWidth <= 0 ==> AppendLast(lines, word) == Split(t))
  }

  /** wrap_text. A line width of zero or less disables wrapping. */
  method WrapText(text: string, lineWidth: int) returns (lines: seq<string>)
    ensures |lines| >= 1 + Count(text, '\n')
    ensures lineWidth > 0 ==> Bounded(lines, lineWidth)
    ensures NoNewlines(lines)
    ensures NonBlank(Concat(lines)) == NonBlank(text)
    ensures Trimmed(lines)
    ensures lineWidth <= 0 ==>
      |lines| == |Split(text)| && forall j :: 0 <= j < |lines| ==> lines[j] == TrimEnd(Split(text)[j])
  {
    lines := [""];
    var word := "";
    for i := 0 to |text|
      invariant Scanned(text[..i], lineWidth, lines, word)
    {
      var ch := text[i];
      assert text[..i + 1] == text[..i] + [ch];
      if ch == ' ' || ch == '\n' {
        var placed := PlaceWord(lines, word, lineWidth);
        var next;
        if ch == ' ' && (|placed[|placed| - 1]| < lineWidth || lineWidth <= 0) {
          next := AppendLast(placed, " ");
        } else if ch == '\n' {
          next := placed + [""];
        } else {
          next := placed;
        }
        ScanBlank(text[..i], ch, lineWidth, lines, word, placed, next);
        lines, word := next, "";
      } else {
        ScanWordChar(text[..i], ch, lineWidth, lines, word);
        word := word + [ch];
      }
    }
    assert text[..|text|] == text;
    var placed := PlaceWord(lines, word, lineWidth);
    lines := TrimLines(placed);
    TrimmedLines(placed, lines, lineWidth);
  }

  // ---------------------------------------------------------------------------
  // Proof of the scan

  lemma ConcatSnoc(ls: seq<string>, l: string)
    ensures Concat(ls + [l]) == Concat(ls) + l
  {
    assert (ls + [l])[..|ls|] == ls;
  }

  lemma ConcatAppendLast(ls: seq<string>, w: string)
    requires |ls| > 0
    ensures Concat(AppendLast(ls, w)) == Concat(ls) + w
  {
    var init, last := ls[..|ls| - 1], ls[|ls| - 1];
    SnocParts(init, last + w);
    Assoc(Concat(init), last, w);
  }

  lemma SnocParts(ls: seq<string>, l: string)
    ensures |ls + [l]| == |ls| + 1 && (ls + [l])[..|ls|] == ls && (ls + [l])[|ls|] == l
  {
  }

  lemma Assoc(a: string, b: string, c: string)
    ensures a + (b + c) == (a + b) + c
  {
  }

  lemma {:induction false} NonBlankJoin(a: string, b: string)
    ensures NonBlank(a + b) == NonBlank(a) + NonBlank(b)
    decreases |b|
  {
    if |b| > 0 {
      var b' := b[..|b| - 1];
      assert (a + b)[..|a + b| - 1] == a + b';
      NonBlankJoin(a, b');
    } else {
      assert a + b == a;
    }
  }

  lemma NonBlankSnoc(s: string, c: char)
    ensures NonBlank(s + [c]) == NonBlank(s) + (if IsBlank(c) then [] else [c])
  {
    assert (s + [c])[..|s|] == s;
  }

  lemma SplitSnoc(s: string, c: char)
    ensures Split(s + [c]) == if c == '\n' then Split(s) + [""] else AppendLast(Split(s), [c])
    ensures Count(s + [c], '\n') == Count(s, '\n') + (if c == '\n' then 1 else 0)
  {
    assert (s + [c])[..|s|] == s;
  }

  lemma AppendLastTwice(ls: seq<string>, a: string, b: string)
    requires |ls| > 0
    ensures AppendLast(AppendLast(ls, a), b) == AppendLast(ls, a + b)
  {
    assert ls[|ls| - 1] + a + b == ls[|ls| - 1] + (a + b);
  }

  lemma AppendNothing(ls: seq<string>)
    requires |ls| > 0
    ensures AppendLast(ls, "") == ls
  {
    assert ls[|ls| - 1] + "" == ls[|ls| - 1];
  }

  /** A character of a word extends the word. */
  lemma ScanWordChar(t: string, c: char, lineWidth: int, lines: seq<string>, word: string)
    requires !IsBlank(c)
    requires Scanned(t, lineWidth, lines, word)
    ensures Scanned(t + [c], lineWidth, lines, word + [c])
  {
    SplitSnoc(t, c);
    NonBlankSnoc(Concat(lines) + word, c);
    NonBlankSnoc(t, c);
    assert Concat(lines) + (word + [c]) == Concat(lines) + word + [c];
    AppendLastTwice(lines, word, [c]);
  }

  /** The guarantees of PlaceWord, as ScanBlank uses them. */
  ghost predicate Placed(lines: seq<string>, word: string, lineWidth: int, placed: seq<string>)
    requires |lines| > 0
  {
    && |placed| >= |lines|
    && Concat(placed) == Concat(lines) + word
    && (lineWidth > 0 && Bounded(lines, lineWidth) ==> Bounded(placed, lineWidth))
    && (NoNewlines(lines) && '\n' !in word ==> NoNewlines(placed))
    && (lineWidth <= 0 ==> placed == AppendLast(lines, word))
  }

  /** A space or a newline places the word and then adds the space or starts a line. */
  lemma ScanBlank(t: string, c: char, lineWidth: int, lines: seq<string>, word: string,
                  placed: seq<string>, next: seq<string>)
    requires IsBlank(c)
    requires Scanned(t, lineWidth, lines, word)
    requires Placed(lines, word, lineWidth, placed)
    requires next == if c == ' ' && (|placed[|placed| - 1]| < lineWidth || lineWidth <= 0)
                     then AppendLast(placed, " ")
                     else if c == '\n' then placed + [""]
                     else placed
    ensures Scanned(t + [c], lineWidth, next, "")
  {
    SplitSnoc(t, c);
    NonBlankSnoc(t, c);
    if c == ' ' && (|placed[|placed| - 1]| < lineWidth || lineWidth <= 0) {
      ScanSpaceKept(t, lineWidth, lines, word, placed);
    } else if c == '\n' {
      ScanNewline(t, lineWidth, lines, word, placed);
    } else {
      assert Concat(placed) + "" == Concat(placed);
    }
  }

  lemma ScanSpaceKept(t: string, lineWidth: int, lines: seq<string>, word: string, placed: seq<string>)
    requires Scanned(t, lineWidth, lines, word)
    requires Placed(lines, word, lineWidth, placed)
    requires |placed[|placed| - 1]| < lineWidth || lineWidth <= 0
    ensures Scanned(t + [' '], lineWidth, AppendLast(placed, " "), "")
  {
    var next := AppendLast(placed, " ");
    SplitSnoc(t, ' ');
    NonBlankSnoc(t, ' ');
    ConcatAppendLast(placed, " ");
    NonBlankSnoc(Concat(placed), ' ');
    assert Concat(next) + "" == Concat(next);
    SpaceKeepsLines(placed, lineWidth);
    if lineWidth <= 0 {
      AppendLastTwice(lines, word, " ");
      AppendNothing(next);
    }
  }

  lemma SpaceKeepsLines(placed: seq<string>, lineWidth: int)
    requires |placed| > 0 && NoNewlines(placed)
    requires |placed[|placed| - 1]| < lineWidth || lineWidth <= 0
    ensures NoNewlines(AppendLast(placed, " "))
    ensures lineWidth > 0 && Bounded(placed, lineWidth) ==> Bounded(AppendLast(placed, " "), lineWidth)
  {
    var next := AppendLast(placed, " ");
    forall j | 0 <= j < |next|
      ensures '\n' !in next[j] && (|next[j]| <= |placed[j]| || j == |next| - 1)
    {
      if j < |next| - 1 {
        assert next[j] == next[..|next| - 1][j];
      }
    }
  }

  lemma ScanNewline(t: string, lineWidth: int, lines: seq<string>, word: string, placed: seq<string>)
    requires Scanned(t, lineWidth, lines, word)
    requires Placed(lines, word, lineWidth, placed)
    ensures Scanned(t + ['\n'], lineWidth, placed + [""], "")
  {
    var next := placed + [""];
    SplitSnoc(t, '\n');
    NonBlankSnoc(t, '\n');
    ConcatSnoc(placed, "");
    assert Concat(placed) + "" == Concat(placed);
    assert Concat(next) + "" == Concat(next);
    if lineWidth <= 0 {
      AppendNothing(next);
    }
  }

  // ---------------------------------------------------------------------------
  // Split and JoinLines are inverse

  /** Joining the segments of a text with newlines gives the text back, and no segment
      holds a newline. */
  lemma {:induction false} JoinOfSplit(s: string)
    ensures NoNewlines(Split(s))
    ensures JoinLines(Split(s)) == s
  {
    if |s| > 0 {
      var init, c := s[..|s| - 1], s[|s| - 1];
      JoinOfSplit(init);
      var ls := Split(init);
      assert s == init + [c];
      if c == '\n' {
        var r := ls + [""];
        assert r[..|r| - 1] == ls;
        assert JoinLines(r) == JoinLines(ls) + ['\n'] + "";
      } else {
        var r := AppendLast(ls, [c]);
        AppendLastNoNewline(ls, [c]);
        JoinAppendLast(ls, [c]);
      }
    }
  }

  /** Splitting lines joined with newlines gives the lines back, when none of them
      holds a newline. */
  lemma {:induction false} SplitOfJoin(ls: seq<string>)
    requires |ls| > 0 && NoNewlines(ls)
    ensures Split(JoinLines(ls)) == ls
    decreases |ls|
  {
    if |ls| == 1 {
      SplitOfLine(ls[0]);
      assert [ls[0]] == ls;
    } else {
      var init, last := ls[..|ls| - 1], ls[|ls| - 1];
      NoNewlinesPrefix(ls);
      SplitOfJoin(init);
      assert JoinLines(ls) == JoinLines(init) + ['\n'] + last;
      SplitOfJoinStep(init, last);
      assert init + [last] == ls;
    }
  }

  lemma SplitOfJoinStep(init: seq<string>, last: string)
    requires |init| > 0 && Split(JoinLines(init)) == init && '\n' !in last
    ensures Split(JoinLines(init) + ['\n'] + last) == init + [last]
  {
    var t := JoinLines(init) + ['\n'];
    SplitSnoc(JoinLines(init), '\n');
    SplitAppend(t, last);
    AppendToEmptyLine(init, last);
  }

  lemma NoNewlinesPrefix(ls: seq<string>)
    requires |ls| > 0 && NoNewlines(ls)
    ensures NoNewlines(ls[..|ls| - 1]) && '\n' !in ls[|ls| - 1]
  {
    var init := ls[..|ls| - 1];
    forall j | 0 <= j < |init|
      ensures '\n' !in init[j]
    {
      assert init[j] == ls[j];
    }
  }

  /** Text without newlines only extends the last segment. */
  lemma {:induction false} SplitAppend(s: string, w: string)
    requires '\n' !in w
    ensures Split(s + w) == AppendLast(Split(s), w)
    decreases |w|
  {
    if |w| == 0 {
      assert s + w == s;
      AppendNothing(Split(s));
    } else {
      var w', c := w[..|w| - 1], w[|w| - 1];
      assert w == w' + [c];
      SplitAppend(s, w');
      assert s + w == (s + w') + [c];
      SplitSnoc(s + w', c);
      AppendLastTwice(Split(s), w', [c]);
    }
  }

  lemma SplitOfLine(w: string)
    requires '\n' !in w
    ensures Split(w) == [w]
  {
    SplitAppend([], w);
    assert [] + w == w;
    AppendToEmptyLine([], w);
    assert [] + [""] == [""] && [] + [w] == [w];
  }

  lemma AppendLastNoNewline(ls: seq<string>, w: string)
    requires |ls| > 0 && NoNewlines(ls) && '\n' !in w
    ensures NoNewlines(AppendLast(ls, w))
  {
    var r := AppendLast(ls, w);
    forall j | 0 <= j < |r|
      ensures '\n' !in r[j]
    {
      if j < |r| - 1 {
        assert r[j] == r[..|r| - 1][j];
      }
    }
  }

  lemma JoinAppendLast(ls: seq<string>, w: string)
    requires |ls| > 0
    ensures JoinLines(AppendLast(ls, w)) == JoinLines(ls) + w
  {
    var init, last := ls[..|ls| - 1], ls[|ls| - 1];
    SnocParts(init, last + w);
    if |ls| > 1 {
      Assoc(JoinLines(init) + ['\n'], last, w);
    }
  }

  lemma AppendToEmptyLine(ls: seq<string>, w: string)
    ensures AppendLast(ls + [""], w) == ls + [w]
  {
    var r := AppendLast(ls + [""], w);
    assert r[|ls|] == "" + w == w;
  }

  /** Trimming keeps the line count, the widths, the absence of newlines and the
      non-blank characters, and leaves no trailing space on a longer line. */
  lemma TrimmedLines(placed: seq<string>, lines: seq<string>, lineWidth: int)
    requires |lines| == |placed| && forall j :: 0 <= j < |placed| ==> lines[j] == TrimEnd(placed[j])
    ensures lineWidth > 0 && Bounded(placed, lineWidth) ==> Bounded(lines, lineWidth)
    ensures NoNewlines(placed) ==> NoNewlines(lines)
    ensures Trimmed(lines)
    ensures NonBlank(Concat(lines)) == NonBlank(Concat(placed))
  {
    forall j | 0 <= j < |lines|
      ensures |lines[j]| <= |placed[j]|
      ensures '\n' in lines[j] ==> '\n' in placed[j]
    {
      var t := lines[j];
      if '\n' in t {
        var k :| 0 <= k < |t| && t[k] == '\n';
        assert placed[j][k] == '\n';
      }
    }
    TrimmedNonBlank(placed, lines);
  }

  lemma {:induction false} TrimmedNonBlank(placed: seq<string>, lines: seq<string>)
    requires |lines| == |placed| && forall j :: 0 <= j < |placed| ==> lines[j] == TrimEnd(placed[j])
    ensures NonBlank(Concat(lines)) == NonBlank(Concat(placed))
  {
    if |placed| > 0 {
      var n := |placed|;
      TrimmedNonBlank(placed[..n - 1], lines[..n - 1]);
      NonBlankJoin(Concat(lines[..n - 1]), lines[n - 1]);
      NonBlankJoin(Concat(placed[..n - 1]), placed[n - 1]);
      TrimKeepsNonBlank(placed[n - 1]);
    }
  }

  /** Trimming removes only spaces. */
  lemma TrimKeepsNonBlank(s: string)
    ensures NonBlank(TrimEnd(s)) == NonBlank(s)
  {
    var r := TrimEnd(s);
    assert s == r + s[|r|..];
    NonBlankJoin(r, s[|r|..]);
    AllSpaces(s[|r|..]);
  }

  lemma {:induction false} AllSpaces(s: string)
    requires forall k :: 0 <= k < |s| ==> s[k] == ' '
    ensures NonBlank(s) == []
  {
    if |s| > 0 {
      AllSpaces(s[..|s| - 1]);
    }
  }
}
