/**
 * The title of a single-day event card, split by character count into at most two lines
 * (`drawSingleDayEvent`). `charsPerLine` is the configured CHARS_PER_LINE, a positive
 * constant of the build configuration.
 */
module TitleSplit {

  datatype TitleLines = TitleLines(line1: string, line2: string)

  /** The first space of `title` at a position in [`lo`, `hi`), or -1. Positions below 0
      are skipped: the source compares the signed index with the unsigned length, so a
      negative index never passes `i < title.length()`. */
  function FirstSpace(title: string, lo: int, hi: int): (i: int)
    requires hi <= |title|
    ensures i == -1 || (0 <= lo <= i < hi && title[i] == ' ') || (lo < 0 <= i < hi && title[i] == ' ')
    ensures forall k :: lo <= k < hi && 0 <= k && (i == -1 || k < i) ==> title[k] != ' '
    decreases hi - lo
  {
    if lo >= hi then -1
    else if lo >= 0 && title[lo] == ' ' then lo
    else FirstSpace(title, lo + 1, hi)
  }

  function Min(a: int, b: int): int {
    if a <= b then a else b
  }

  /** The split position of a title longer than a line: the first space within three
      characters of the line length (at `charsPerLine - 3` up to `charsPerLine + 2`), or the
      line length itself. */
  function SplitPosition(title: string, charsPerLine: int): (p: int)
    requires 0 < charsPerLine < |title|
    ensures 0 <= p < |title| && p <= charsPerLine + 2
    ensures p != charsPerLine ==> title[p] == ' ' && charsPerLine - 3 <= p
  {
    var i := FirstSpace(title, charsPerLine - 3, Min(|title|, charsPerLine + 3));
    if i == -1 then charsPerLine else i
  }

  /** A line cut to `charsPerLine` characters with the last one replaced by ".". */
  function Shorten(s: string, charsPerLine: int): (r: string)
    requires 0 < charsPerLine < |s|
    ensures |r| == charsPerLine && r[..charsPerLine - 1] == s[..charsPerLine - 1] && r[charsPerLine - 1] == '.'
  {
    s[..charsPerLine - 1] + "."
  }

  /** The title lines of `drawSingleDayEvent`. */
  function SplitTitle(title: string, charsPerLine: int, singleLineMode: bool): (r: TitleLines)
    requires charsPerLine > 0
    ensures |title| <= charsPerLine ==> r == TitleLines(title, "")
    ensures |title| > charsPerLine && singleLineMode ==> r == TitleLines(Shorten(title, charsPerLine), "")
    ensures |r.line1| <= charsPerLine + 2 && |r.line2| <= charsPerLine
    ensures r.line2 != "" ==> !singleLineMode && |title| > charsPerLine
  {
    if singleLineMode || |title| <= charsPerLine then
      if |title| <= charsPerLine then TitleLines(title, "")
      else TitleLines(Shorten(title, charsPerLine), "")
    else
      var splitPos := SplitPosition(title, charsPerLine);
      var line1 := title[..splitPos];
      // splitPos < |title| always holds here, so the second line is always computed
      var line2 := title[splitPos + (if title[splitPos] == ' ' then 1 else 0)..];
      TitleLines(line1, if |line2| > charsPerLine then Shorten(line2, charsPerLine) else line2)
  }

  /** Split over two lines, the title loses at most the one space it was split at, plus the
      end of a second line that is too long. The first line ends at the first space near the
      line length when there is one, and is exactly a line long otherwise. */
  lemma TwoLineSplit(title: string, charsPerLine: int)
    requires 0 < charsPerLine < |title|
    ensures var r := SplitTitle(title, charsPerLine, false);
      exists sep: string, rest: string ::
        && (sep == "" || sep == " ")
        && title == r.line1 + sep + rest
        && (sep == "" ==> |r.line1| == charsPerLine)
        && r.line2 == (if |rest| <= charsPerLine then rest else Shorten(rest, charsPerLine))
    ensures var r := SplitTitle(title, charsPerLine, false);
      forall k :: charsPerLine - 3 <= k < Min(|title|, charsPerLine + 3) && 0 <= k && title[k] == ' ' ==>
        |r.line1| <= k && title[|r.line1|] == ' '
  {
    var r := SplitTitle(title, charsPerLine, false);
    var p := SplitPosition(title, charsPerLine);
    var sep := if title[p] == ' ' then " " else "";
    var rest := title[p + |sep|..];
    assert title == title[..p] + sep + rest;
  }
}
