/**
 * The chapter-splitting pass of the reader panel. The novel is read line by
 * line; a line that matches the heading pattern opens a new chapter titled
 * with the heading, every other line is written to the current chapter
 * followed by a line separator. The first chapter, holding whatever comes
 * before the first heading, is titled "开篇".
 *
 * A chapter's body is what the panel writes to that chapter's cache file;
 * here it is kept in the chapter value itself.
 */
module ChapterSplit {
  import opened Common

  datatype Chapter = Chapter(title: string, body: string)

  /** Title of the chapter that holds the text before the first heading. */
  const OpeningTitle: string := "开篇"

  // ---------------- the heading pattern ----------------
  //
  // CHAPTER_RE is ^\s*(第[0-9一二三四五六七八九十百千两〇零]+[章节回卷部篇].*)\s*$
  // matched against a whole line, compiled without flags by the JVM.

  /** Characters that `\s` matches in a Java pattern compiled without flags. */
  predicate IsRegexSpace(c: char) {
    c == ' ' || c == '\t' || c == '\n' || c == '\U{000B}' || c == '\U{000C}' || c == '\r'
  }

  /** Characters that `.` refuses in a Java pattern compiled without flags. */
  predicate IsLineTerminator(c: char) {
    c == '\n' || c == '\r' || c == '\U{0085}' || c == '\U{2028}' || c == '\U{2029}'
  }

  /** The class `[0-9一二三四五六七八九十百千两〇零]`. */
  predicate IsNumeral(c: char) {
    '0' <= c <= '9' || c in "一二三四五六七八九十百千两〇零"
  }

  /** The class `[章节回卷部篇]`. */
  predicate IsChapterKind(c: char) {
    c in "章节回卷部篇"
  }

  /** A line as `BufferedReader.readLine` returns it: no '\n' and no '\r' inside. */
  predicate IsReadLine(line: string) {
    forall i :: 0 <= i < |line| ==> line[i] != '\n' && line[i] != '\r'
  }

  predicate AllSpaces(s: string) {
    forall i :: 0 <= i < |s| ==> IsRegexSpace(s[i])
  }

  predicate AllNumerals(s: string) {
    forall i :: 0 <= i < |s| ==> IsNumeral(s[i])
  }

  predicate NoTerminator(s: string) {
    forall i :: 0 <= i < |s| ==> !IsLineTerminator(s[i])
  }

  /** Length of the longest prefix of `s` that `\s*` matches. */
  function LeadingSpaces(s: string): (n: nat)
    ensures n <= |s| && AllSpaces(s[..n])
    ensures n < |s| ==> !IsRegexSpace(s[n])
  {
    if s != [] && IsRegexSpace(s[0]) then
      var m := LeadingSpaces(s[1..]);
      assert s[..1 + m] == [s[0]] + s[1..][..m];
      1 + m
    else 0
  }

  /** Length of the longest prefix of `s` made of numerals. */
  function NumeralRun(s: string): (n: nat)
    ensures n <= |s| && AllNumerals(s[..n])
    ensures n < |s| ==> !IsNumeral(s[n])
  {
    if s != [] && IsNumeral(s[0]) then
      var m := NumeralRun(s[1..]);
      assert s[..1 + m] == [s[0]] + s[1..][..m];
      1 + m
    else 0
  }

  /**
   * The pattern, stated declaratively: `line` is `w` spaces, then '第', then
   * numerals up to index `k`, then a kind character at `k`, then a tail in
   * which `.` accepts every character. On a line from readLine the greedy
   * `.*` takes the whole tail, trailing spaces included, and the trailing
   * `\s*` matches nothing; a tail holding a character that `.` refuses
   * cannot be matched by `\s*` either, so such a line is no heading.
   */
  ghost predicate HeadingAt(line: string, w: int, k: int) {
    && 0 <= w && w + 2 <= k < |line|
    && AllSpaces(line[..w])
    && line[w] == '第'
    && AllNumerals(line[w + 1..k])
    && IsChapterKind(line[k])
    && NoTerminator(line[k + 1..])
  }

  /** `title` is what capture group 1 holds when `line` matches the pattern. */
  ghost predicate IsHeading(line: string, title: string) {
    exists w, k :: HeadingAt(line, w, k) && title == line[w..]
  }

  /**
   * `CHAPTER_RE.matchEntire(line)?.groupValues[1]`: the line without its
   * leading spaces when it is a heading, None otherwise.
   */
  function HeadingTitle(line: string): (r: Option<string>)
    ensures r.Some? ==> IsHeading(line, r.value)
  {
    var w := LeadingSpaces(line);
    var t := line[w..];
    if 2 <= |t| && t[0] == '第' then
      var k := 1 + NumeralRun(t[1..]);
      if k < |t| && 2 <= k && IsChapterKind(t[k]) && NoTerminator(t[k + 1..]) then
        assert line[w + 1..w + k] == t[1..][..k - 1];
        assert HeadingAt(line, w, w + k);
        Some(t)
      else None
    else None
  }

  /** A run of `w` spaces followed by a non-space is exactly what LeadingSpaces measures. */
  lemma LeadingSpacesExact(s: string, w: int)
    requires 0 <= w < |s| && AllSpaces(s[..w]) && !IsRegexSpace(s[w])
    ensures LeadingSpaces(s) == w
  {
    var n := LeadingSpaces(s);
    forall j | 0 <= j < w ensures IsRegexSpace(s[j]) {
      assert s[..w][j] == s[j];
    }
    forall j | 0 <= j < n ensures IsRegexSpace(s[j]) {
      assert s[..n][j] == s[j];
    }
  }

  /** A run of `m` numerals followed by a non-numeral is exactly what NumeralRun measures. */
  lemma NumeralRunExact(s: string, m: int)
    requires 0 <= m < |s| && AllNumerals(s[..m]) && !IsNumeral(s[m])
    ensures NumeralRun(s) == m
  {
    var n := NumeralRun(s);
    forall j | 0 <= j < m ensures IsNumeral(s[j]) {
      assert s[..m][j] == s[j];
    }
    forall j | 0 <= j < n ensures IsNumeral(s[j]) {
      assert s[..n][j] == s[j];
    }
  }

  /** Every way the declarative pattern can match gives HeadingTitle's answer. */
  lemma HeadingTitleComplete(line: string, w: int, k: int)
    requires HeadingAt(line, w, k)
    ensures HeadingTitle(line) == Some(line[w..])
  {
    LeadingSpacesExact(line, w);
    var t := line[w..];
    assert t[1..][..k - w - 1] == line[w + 1..k];
    assert t[1..][k - w - 1] == line[k];
    NumeralRunExact(t[1..], k - w - 1);
    assert t[k - w] == line[k];
    assert t[k - w + 1..] == line[k + 1..];
  }

  // ---------------- splitting ----------------

  /**
   * The chapter list after one more line has been read: a heading opens a
   * new, empty chapter after the others; any other line joins the body of
   * the last chapter, followed by the separator. The chapters before the
   * last one are never touched.
   */
  function AddLine(chapters: seq<Chapter>, line: string, newline: string): (r: seq<Chapter>)
    requires chapters != []
    ensures |r| == |chapters| + (if HeadingTitle(line).Some? then 1 else 0)
    ensures r[..|chapters| - 1] == chapters[..|chapters| - 1]
    ensures HeadingTitle(line).Some? ==>
      r[|chapters| - 1] == chapters[|chapters| - 1] && r[|chapters|] == Chapter(HeadingTitle(line).value, "")
    ensures HeadingTitle(line).None? ==>
      r[|chapters| - 1].title == chapters[|chapters| - 1].title &&
      r[|chapters| - 1].body == chapters[|chapters| - 1].body + line + newline
  {
    match HeadingTitle(line)
    case Some(title) => chapters + [Chapter(title, "")]
    case None =>
      var last := chapters[|chapters| - 1];
      chapters[..|chapters| - 1] + [Chapter(last.title, last.body + line + newline)]
  }

  /** The chapters that splitting `lines` produces. */
  function Split(lines: seq<string>, newline: string): (r: seq<Chapter>)
    ensures r != []
  {
    if lines == [] then [Chapter(OpeningTitle, "")]
    else AddLine(Split(lines[..|lines| - 1], newline), lines[|lines| - 1], newline)
  }

  /** The titles of the heading lines among `lines`, in line order. */
  function HeadingTitles(lines: seq<string>): seq<string>
  {
    if lines == [] then []
    else
      var earlier := HeadingTitles(lines[..|lines| - 1]);
      match HeadingTitle(lines[|lines| - 1])
      case Some(title) => earlier + [title]
      case None => earlier
  }

  /** The other lines, each followed by `newline`, in line order. */
  function BodyText(lines: seq<string>, newline: string): string
  {
    if lines == [] then []
    else
      var last := lines[|lines| - 1];
      BodyText(lines[..|lines| - 1], newline)
        + (if HeadingTitle(last).Some? then "" else last + newline)
  }

  function Titles(chapters: seq<Chapter>): seq<string>
  {
    if chapters == [] then [] else Titles(chapters[..|chapters| - 1]) + [chapters[|chapters| - 1].title]
  }

  /** All chapter bodies, one after the other. */
  function AllBodies(chapters: seq<Chapter>): string
  {
    if chapters == [] then [] else AllBodies(chapters[..|chapters| - 1]) + chapters[|chapters| - 1].body
  }

  /**
   * One more line adds its title, as a new chapter, when it is a heading,
   * and otherwise adds itself and a separator to the last chapter's body.
   */
  lemma AddLineEffect(chapters: seq<Chapter>, line: string, newline: string)
    requires chapters != []
    ensures var h := HeadingTitle(line);
      && |AddLine(chapters, line, newline)| == |chapters| + (if h.Some? then 1 else 0)
      && Titles(AddLine(chapters, line, newline)) == Titles(chapters) + (if h.Some? then [h.value] else [])
      && AllBodies(AddLine(chapters, line, newline)) == AllBodies(chapters) + (if h.Some? then "" else line + newline)
  {
    match HeadingTitle(line)
    case Some(title) =>
      LastAppended(chapters, Chapter(title, ""));
    case None =>
      var front := chapters[..|chapters| - 1];
      var last := chapters[|chapters| - 1];
      assert chapters == front + [last];
      LastAppended(front, last);
      LastAppended(front, Chapter(last.title, last.body + line + newline));
  }

  /**
   * The chapter list is the opening chapter followed by one chapter per
   * heading line, in line order; so it holds one chapter more than there
   * are heading lines.
   */
  lemma {:induction false} SplitTitles(lines: seq<string>, newline: string)
    ensures Titles(Split(lines, newline)) == [OpeningTitle] + HeadingTitles(lines)
    ensures |Split(lines, newline)| == 1 + |HeadingTitles(lines)|
  {
    if lines != [] {
      var init := lines[..|lines| - 1];
      SplitTitles(init, newline);
      AddLineEffect(Split(init, newline), lines[|lines| - 1], newline);
    }
  }

  lemma LastAppended(chapters: seq<Chapter>, c: Chapter)
    ensures Titles(chapters + [c]) == Titles(chapters) + [c.title]
    ensures AllBodies(chapters + [c]) == AllBodies(chapters) + c.body
  {
    assert (chapters + [c])[..|chapters|] == chapters;
  }

  lemma {:induction false} TitlesAt(chapters: seq<Chapter>)
    ensures |Titles(chapters)| == |chapters|
    ensures forall i :: 0 <= i < |chapters| ==> Titles(chapters)[i] == chapters[i].title
  {
    if chapters != [] {
      TitlesAt(chapters[..|chapters| - 1]);
    }
  }

  /**
   * Nothing is lost or reordered: the chapter bodies, one after the other,
   * are exactly the non-heading lines, each followed by a line separator.
   */
  lemma {:induction false} SplitBodies(lines: seq<string>, newline: string)
    ensures AllBodies(Split(lines, newline)) == BodyText(lines, newline)
  {
    if lines != [] {
      var init := lines[..|lines| - 1];
      SplitBodies(init, newline);
      AddLineEffect(Split(init, newline), lines[|lines| - 1], newline);
    }
  }

  /** No heading among `lines`. */
  predicate NoHeading(lines: seq<string>) {
    forall i :: 0 <= i < |lines| ==> HeadingTitle(lines[i]).None?
  }

  /** A line that is no heading joins the last chapter's body. */
  lemma SplitPlainLine(lines: seq<string>, x: string, newline: string)
    requires HeadingTitle(x).None?
    ensures var before := Split(lines, newline);
            var last := before[|before| - 1];
      Split(lines + [x], newline) == before[..|before| - 1] + [Chapter(last.title, last.body + x + newline)]
  {
    assert (lines + [x])[..|lines|] == lines;
    var before := Split(lines, newline);
    var r := AddLine(before, x, newline);
    assert r == r[..|before| - 1] + [r[|before| - 1]];
  }

  lemma BodyTextPlainLine(lines: seq<string>, x: string, newline: string)
    requires HeadingTitle(x).None?
    ensures BodyText(lines + [x], newline) == BodyText(lines, newline) + (x + newline)
  {
    assert (lines + [x])[..|lines|] == lines;
  }

  /**
   * One inductive step of TailJoinsLast: when the last chapter so far holds
   * `body` and then the lines of `init`, one more line that is no heading
   * joins it too.
   */
  lemma TailStep(lines: seq<string>, front: seq<Chapter>, title: string, body: string,
                 init: seq<string>, x: string, newline: string)
    requires HeadingTitle(x).None?
    requires Split(lines, newline) == front + [Chapter(title, body + BodyText(init, newline))]
    ensures Split(lines + [x], newline) == front + [Chapter(title, body + BodyText(init + [x], newline))]
  {
    SplitPlainLine(lines, x, newline);
    BodyTextPlainLine(init, x, newline);
    Regroup(body, BodyText(init, newline), x, newline);
  }

  lemma Regroup(p: string, q: string, x: string, newline: string)
    ensures p + q + x + newline == p + (q + (x + newline))
  {
  }

  /**
   * Lines without a heading all go to the last chapter: when the lines so far
   * end in a chapter `title` holding `body`, appending `b` only extends that body.
   */
  lemma {:induction false} TailJoins(lines: seq<string>, front: seq<Chapter>, title: string, body: string,
                                     b: seq<string>, newline: string)
    requires NoHeading(b)
    requires Split(lines, newline) == front + [Chapter(title, body)]
    ensures Split(lines + b, newline) == front + [Chapter(title, body + BodyText(b, newline))]
    decreases |b|
  {
    if b == [] {
      assert lines + b == lines;
      assert body + BodyText(b, newline) == body;
    } else {
      var init, x := b[..|b| - 1], b[|b| - 1];
      RegroupLines(lines, b);
      NoHeadingPrefix(b);
      TailJoins(lines, front, title, body, init, newline);
      TailStep(lines + init, front, title, body, init, x, newline);
    }
  }

  lemma RegroupLines(lines: seq<string>, b: seq<string>)
    requires b != []
    ensures lines + b == (lines + b[..|b| - 1]) + [b[|b| - 1]]
  {
    assert b == b[..|b| - 1] + [b[|b| - 1]];
  }

  lemma NoHeadingPrefix(b: seq<string>)
    requires b != [] && NoHeading(b)
    ensures NoHeading(b[..|b| - 1]) && HeadingTitle(b[|b| - 1]).None?
  {
    var init := b[..|b| - 1];
    forall i | 0 <= i < |init| ensures HeadingTitle(init[i]).None? {
      assert init[i] == b[i];
    }
  }

  /**
   * Lines without a heading all go to the chapter opened last: the chapters
   * before it stay as they are and its body grows by the lines.
   */
  lemma TailJoinsLast(a: seq<string>, b: seq<string>, newline: string)
    requires NoHeading(b)
    ensures var before := Split(a, newline);
            var last := before[|before| - 1];
      Split(a + b, newline) == before[..|before| - 1] + [Chapter(last.title, last.body + BodyText(b, newline))]
  {
    var before := Split(a, newline);
    var last := before[|before| - 1];
    assert before == before[..|before| - 1] + [Chapter(last.title, last.body)];
    TailJoins(a, before[..|before| - 1], last.title, last.body, b, newline);
  }

  /** Without any heading, the whole text is the body of the opening chapter. */
  lemma OpeningChapterOnly(lines: seq<string>, newline: string)
    requires NoHeading(lines)
    ensures Split(lines, newline) == [Chapter(OpeningTitle, BodyText(lines, newline))]
  {
    TailJoinsLast([], lines, newline);
    assert [] + lines == lines;
    assert "" + BodyText(lines, newline) == BodyText(lines, newline);
  }

  /**
   * The last heading `h` opens the last chapter, titled with the heading,
   * whose body is exactly the lines after it; the chapters before it are
   * those of the lines before it.
   */
  lemma LastChapterIsTail(a: seq<string>, h: string, b: seq<string>, newline: string)
    requires HeadingTitle(h).Some? && NoHeading(b)
    ensures Split(a + [h] + b, newline) == Split(a, newline) + [Chapter(HeadingTitle(h).value, BodyText(b, newline))]
  {
    TailJoinsLast(a + [h], b, newline);
    assert (a + [h])[..|a + [h]| - 1] == a;
    var withHeading := Split(a + [h], newline);
    assert withHeading == Split(a, newline) + [Chapter(HeadingTitle(h).value, "")];
    assert withHeading[..|withHeading| - 1] == Split(a, newline);
    assert withHeading[|withHeading| - 1] == Chapter(HeadingTitle(h).value, "");
    assert "" + BodyText(b, newline) == BodyText(b, newline);
  }

  /**
   * The last heading, at line `j`, opens the last chapter, which holds
   * exactly the lines after it.
   */
  lemma SplitAtLastHeading(lines: seq<string>, j: int, newline: string)
    requires 0 <= j < |lines| && HeadingTitle(lines[j]).Some? && NoHeading(lines[j + 1..])
    ensures Split(lines, newline) == Split(lines[..j], newline) + [Chapter(HeadingTitle(lines[j]).value, BodyText(lines[j + 1..], newline))]
  {
    var a, h, b := lines[..j], lines[j], lines[j + 1..];
    assert a + [h] + b == lines;
    LastChapterIsTail(a, h, b, newline);
  }

  /**
   * What splitting promises as a whole: the opening chapter comes first, one
   * chapter follows per heading in line order, the bodies together are the
   * text without its headings, and the last chapter holds exactly the lines
   * after the last heading (all of them when there is none).
   */
  lemma SplitShape(lines: seq<string>, newline: string)
    ensures Split(lines, newline)[0].title == OpeningTitle
    ensures Titles(Split(lines, newline)) == [OpeningTitle] + HeadingTitles(lines)
    ensures AllBodies(Split(lines, newline)) == BodyText(lines, newline)
    ensures NoHeading(lines) ==> Split(lines, newline) == [Chapter(OpeningTitle, BodyText(lines, newline))]
    ensures forall j :: 0 <= j < |lines| && HeadingTitle(lines[j]).Some? && NoHeading(lines[j + 1..]) ==>
      Split(lines, newline) == Split(lines[..j], newline) + [Chapter(HeadingTitle(lines[j]).value, BodyText(lines[j + 1..], newline))]
  {
    SplitTitles(lines, newline);
    SplitBodies(lines, newline);
    TitlesAt(Split(lines, newline));
    if NoHeading(lines) {
      OpeningChapterOnly(lines, newline);
    }
    forall j | 0 <= j < |lines| && HeadingTitle(lines[j]).Some? && NoHeading(lines[j + 1..]) {
      SplitAtLastHeading(lines, j, newline);
    }
  }

  /**
   * The splitting loop: opens the opening chapter, then reads the lines in
   * order, opening a chapter per heading and appending every other line,
   * with a separator, to the chapter opened last.
   */
  method SplitIntoChapters(lines: seq<string>, newline: string) returns (chapters: seq<Chapter>)
    requires forall i :: 0 <= i < |lines| ==> IsReadLine(lines[i])
    ensures chapters == Split(lines, newline)
    ensures chapters[0].title == OpeningTitle
    ensures Titles(chapters) == [OpeningTitle] + HeadingTitles(lines)
    ensures AllBodies(chapters) == BodyText(lines, newline)
    ensures NoHeading(lines) ==> chapters == [Chapter(OpeningTitle, BodyText(lines, newline))]
    ensures forall j :: 0 <= j < |lines| && HeadingTitle(lines[j]).Some? && NoHeading(lines[j + 1..]) ==>
      chapters == Split(lines[..j], newline) + [Chapter(HeadingTitle(lines[j]).value, BodyText(lines[j + 1..], newline))]
  {
    chapters := [Chapter(OpeningTitle, "")];
    var i := 0;
    while i < |lines|
      invariant 0 <= i <= |lines|
      invariant chapters == Split(lines[..i], newline)
    {
      var line := lines[i];
      match HeadingTitle(line) {
        case Some(title) =>
          chapters := chapters + [Chapter(title, "")];
        case None =>
          var last := chapters[|chapters| - 1];
          chapters := chapters[..|chapters| - 1] + [Chapter(last.title, last.body + line + newline)];
      }
      assert lines[..i + 1][..i] == lines[..i];
      i := i + 1;
    }
    assert lines[..|lines|] == lines;
    SplitShape(lines, newline);
  }
}
