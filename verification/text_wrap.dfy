/**
 * Text placement: the alignment offset of `drawString` and the greedy word wrap of
 * `drawMultiLnString`. The font metrics of the display driver are foreign: they are the
 * parameter `measure`, the width in pixels that the driver reports for a string.
 * Drawing is recorded as a sequence of `DrawCall`s.
 */
module TextWrap {
  import opened CppInt
  import opened ArduinoString

  datatype Alignment = Left | Right | Center

  /** A string drawn with its cursor at (x, y). */
  datatype DrawCall = DrawCall(x: int, y: int, text: string)

  /** The cursor x that `drawString` uses for text `w` pixels wide anchored at `x`; the
      result is stored back into the `int16_t` parameter. */
  function AlignedX(x: int, w: nat, alignment: Alignment): int
  {
    match alignment
    case Left => x
    case Right => Int16(x - w)
    case Center => Int16(x - w / 2)
  }

  /** Within the 16-bit range, RIGHT puts the right edge of the text on `x`, CENTER puts
      its middle (rounded down) on `x`, and LEFT starts the text at `x`. */
  lemma AlignedXAnchors(x: int, w: nat, alignment: Alignment)
    requires -0x8000 <= x - w && x < 0x8000
    ensures alignment == Left ==> AlignedX(x, w, alignment) == x
    ensures alignment == Right ==> AlignedX(x, w, alignment) + w == x
    ensures alignment == Center ==> AlignedX(x, w, alignment) + w / 2 == x
  {
  }

  /** `drawString(x, y, text, alignment)`. */
  function DrawString(x: int, y: int, text: string, alignment: Alignment, measure: string -> nat): (d: DrawCall)
    ensures d.text == text && d.y == y
  {
    DrawCall(AlignedX(x, measure(text), alignment), y, text)
  }

  // ---------------------------------------------------------------------------
  // The line the inner loop of drawMultiLnString settles on
  // ---------------------------------------------------------------------------

  /** Position `i` of `t` is a legal break: a space, or on a line other than the last a hyphen. */
  predicate IsBreakAt(t: string, i: int, lastLine: bool)
    requires 0 <= i < |t|
  {
    t[i] == ' ' || (!lastLine && t[i] == '-')
  }

  predicate NoBreakBefore(t: string, k: int, lastLine: bool)
    requires k <= |t|
  {
    forall i :: 0 <= i < k ==> !IsBreakAt(t, i, lastLine)
  }

  /** The line that breaking at `b` gives: a space is dropped, a hyphen is kept. */
  function Piece(t: string, b: int): string
    requires 0 <= b < |t|
  {
    if t[b] == ' ' then t[..b] else t[..b + 1]
  }

  /** What is measured for a break at `b`: on the last line the piece with an ellipsis. */
  function Measured(t: string, b: int, lastLine: bool): string
    requires 0 <= b < |t|
  {
    if lastLine then Piece(t, b) + "..." else Piece(t, b)
  }

  predicate Fits(t: string, b: int, lastLine: bool, maxWidth: nat, measure: string -> nat)
    requires 0 <= b < |t|
  {
    measure(Measured(t, b, lastLine)) <= maxWidth
  }

  /** No legal break at or after `from` fits. */
  predicate NoneFitsFrom(t: string, from: int, lastLine: bool, maxWidth: nat, measure: string -> nat)
    requires 0 <= from
  {
    forall k :: from <= k < |t| && IsBreakAt(t, k, lastLine) ==> !Fits(t, k, lastLine, maxWidth, measure)
  }

  /** `b` is the rightmost legal break that fits: the line is the piece (with the ellipsis on
      the last line) and the next line starts right after the break character. */
  predicate BreaksAtFit(t: string, b: int, lastLine: bool, maxWidth: nat, measure: string -> nat,
                        line: string, rest: string)
  {
    && 0 <= b < |t| && IsBreakAt(t, b, lastLine)
    && Fits(t, b, lastLine, maxWidth, measure)
    && NoneFitsFrom(t, b + 1, lastLine, maxWidth, measure)
    && line == Measured(t, b, lastLine)
    && rest == t[b + 1..]
  }

  /** No legal break fits and `b` is the leftmost one: the line is everything before it,
      wider than the budget, and the break character is on neither line. */
  predicate BreaksAtLeftmost(t: string, b: int, lastLine: bool, maxWidth: nat, measure: string -> nat,
                             line: string, rest: string)
  {
    && 0 <= b < |t| && IsBreakAt(t, b, lastLine)
    && NoBreakBefore(t, b, lastLine)
    && NoneFitsFrom(t, b, lastLine, maxWidth, measure)
    && line == t[..b]
    && rest == t[b + 1..]
  }

  /** The greedy choice for one line of remaining text `t`: all of `t` when it fits or has
      no legal break; otherwise the rightmost fitting break, or failing that the leftmost
      break. */
  predicate IsGreedyLine(t: string, maxWidth: nat, lastLine: bool, measure: string -> nat,
                         line: string, rest: string)
  {
    if measure(t) <= maxWidth || NoBreakBefore(t, |t|, lastLine) then
      line == t && rest == ""
    else
      exists b :: 0 <= b < |t| &&
        (BreaksAtFit(t, b, lastLine, maxWidth, measure, line, rest) ||
         BreaksAtLeftmost(t, b, lastLine, maxWidth, measure, line, rest))
  }

  function MaxInt(a: int, b: int): int {
    if a >= b then a else b
  }

  /** Where the inner loop looks for a break in `s`: the later of the last space and the last
      hyphen, or on the last line the last space; -1 when there is none. */
  function LastBreak(s: string, lastLine: bool): (r: int)
    ensures -1 <= r < |s|
    ensures r >= 0 ==> IsBreakAt(s, r, lastLine)
    ensures forall i :: r < i < |s| ==> !IsBreakAt(s, i, lastLine)
  {
    if !lastLine then MaxInt(LastIndexOf(s, ' '), LastIndexOf(s, '-')) else LastIndexOf(s, ' ')
  }

  /** Moving from the break `b` that did not fit to the next legal break `c` to its left. */
  lemma NoneFitsStep(t: string, b: int, c: int, lastLine: bool, maxWidth: nat, measure: string -> nat)
    requires 0 <= c < b < |t|
    requires NoneFitsFrom(t, b + 1, lastLine, maxWidth, measure)
    requires !Fits(t, b, lastLine, maxWidth, measure)
    requires forall i :: c < i < b ==> !IsBreakAt(t[..b], i, lastLine)
    ensures NoneFitsFrom(t, c + 1, lastLine, maxWidth, measure)
  {
    forall k | c + 1 <= k < |t| && IsBreakAt(t, k, lastLine)
      ensures !Fits(t, k, lastLine, maxWidth, measure)
    {
      if k < b {
        assert IsBreakAt(t[..b], k, lastLine);
      }
    }
  }

  /** A break before `b` gives the same piece in `t[..b]` as in `t`. */
  lemma PiecePrefix(t: string, b: int, c: int, lastLine: bool)
    requires 0 <= c < b <= |t|
    ensures Piece(t[..b], c) == Piece(t, c)
    ensures Measured(t[..b], c, lastLine) == Measured(t, c, lastLine)
  {
  }

  /** One round of the inner loop once a break `splitAt` of `s` is found: cut after it, drop
      a space or keep a hyphen, and measure (with "..." appended on the last line, kept only
      when it fits). */
  method CutAt(s: string, splitAt: int, keepIn: int, lastLine: bool, maxWidth: nat, measure: string -> nat)
    returns (subStr: string, endIndex: int, keepLastChar: int, w: nat)
    requires 0 <= splitAt < |s| && IsBreakAt(s, splitAt, lastLine)
    ensures endIndex == (if s[splitAt] == ' ' then splitAt - 1 else splitAt)
    ensures keepLastChar == (if s[splitAt] == ' ' then 0 else 1)
    ensures w == measure(Measured(s, splitAt, lastLine))
    ensures subStr == (if lastLine && w <= maxWidth then Measured(s, splitAt, lastLine) else Piece(s, splitAt))
  {
    keepLastChar := keepIn;
    endIndex := splitAt;
    subStr := Substring(s, 0, endIndex + 1);
    var lastChar := subStr[endIndex];
    if lastChar == ' ' {
      keepLastChar := 0;
      subStr := RemoveFrom(subStr, endIndex);
      endIndex := endIndex - 1;
    } else if lastChar == '-' {
      keepLastChar := 1;
    }
    assert subStr == Piece(s, splitAt);
    if !lastLine {
      w := measure(subStr);
    } else {
      w := measure(subStr + "...");
      if w <= maxWidth {
        subStr := subStr + "...";
      }
    }
  }

  /** The inner loop of `drawMultiLnString` for the remaining text `t`: returns the string it
      draws and its final `endIndex` and `keepLastChar`. */
  method FitLine(t: string, maxWidth: nat, lastLine: bool, measure: string -> nat)
    returns (subStr: string, endIndex: int, keepLastChar: int)
    requires t != ""
    ensures 0 <= endIndex + 2 - keepLastChar
    ensures IsGreedyLine(t, maxWidth, lastLine, measure, subStr, SubstringFrom(t, endIndex + 2 - keepLastChar))
  {
    var w := measure(t);
    endIndex := |t|;
    subStr := t;
    var splitAt := 0;
    keepLastChar := 0;
    ghost var b := |t|;  // the last break tried; |t| while none has been
    while w > maxWidth && splitAt != -1
      invariant 0 <= b <= |t|
      invariant b < |t| ==> measure(t) > maxWidth && IsBreakAt(t, b, lastLine)
      invariant NoneFitsFrom(t, b + 1, lastLine, maxWidth, measure)
      invariant b == |t| ==> endIndex == |t| && keepLastChar == 0 && w == measure(t)
      invariant b == |t| && splitAt != -1 ==> subStr == t
      invariant b < |t| ==> w == measure(Measured(t, b, lastLine))
      invariant b < |t| ==> endIndex == (if t[b] == ' ' then b - 1 else b)
      invariant b < |t| ==> keepLastChar == (if t[b] == ' ' then 0 else 1)
      invariant b < |t| && splitAt != -1 ==>
        subStr == (if lastLine && w <= maxWidth then Measured(t, b, lastLine) else Piece(t, b))
      invariant splitAt == -1 ==> w > maxWidth && subStr == t[..b] && NoBreakBefore(t, b, lastLine)
      decreases if splitAt == -1 then 0 else b + 1
    {
      if keepLastChar == 1 {
        // the hyphen kept last round is removed now
        subStr := RemoveFrom(subStr, |subStr| - 1);
      }
      assert subStr == t[..b];
      splitAt := LastBreak(subStr, lastLine);
      if splitAt == -1 {
        forall i | 0 <= i < b ensures !IsBreakAt(t, i, lastLine) {
          assert !IsBreakAt(subStr, i, lastLine);
        }
      } else {
        assert IsBreakAt(t, splitAt, lastLine) by {
          assert IsBreakAt(subStr, splitAt, lastLine);
        }
        if b < |t| {
          NoneFitsStep(t, b, splitAt, lastLine, maxWidth, measure);
        }
      }
      if splitAt != -1 {
        subStr, endIndex, keepLastChar, w := CutAt(subStr, splitAt, keepLastChar, lastLine, maxWidth, measure);
        PiecePrefix(t, b, splitAt, lastLine);
        b := splitAt;
      }
    }
    if b < |t| {
      assert endIndex + 2 - keepLastChar == b + 1;
      if splitAt != -1 {
        assert BreaksAtFit(t, b, lastLine, maxWidth, measure, subStr, t[b + 1..]);
      } else {
        assert BreaksAtLeftmost(t, b, lastLine, maxWidth, measure, subStr, t[b + 1..]);
      }
      GreedyAtBreak(t, b, maxWidth, lastLine, measure, subStr, t[b + 1..]);
    } else {
      assert subStr == t;
    }
  }

  /** A text too wide for the budget, broken as the greedy rule says at `b`. */
  lemma GreedyAtBreak(t: string, b: int, maxWidth: nat, lastLine: bool, measure: string -> nat,
                      line: string, rest: string)
    requires 0 <= b < |t| && measure(t) > maxWidth
    requires BreaksAtFit(t, b, lastLine, maxWidth, measure, line, rest) ||
             BreaksAtLeftmost(t, b, lastLine, maxWidth, measure, line, rest)
    ensures IsGreedyLine(t, maxWidth, lastLine, measure, line, rest)
  {
    assert !NoBreakBefore(t, |t|, lastLine) by {
      assert IsBreakAt(t, b, lastLine);
    }
  }

  // ---------------------------------------------------------------------------
  // drawMultiLnString
  // ---------------------------------------------------------------------------

  /** Line `n` was drawn as the greedy line of the non-empty remaining text `remaining[n]`,
      at `y + n * line_spacing`, and left `remaining[n + 1]`. */
  ghost predicate LineDrawn(x: int, y: int, alignment: Alignment, maxWidth: nat, maxLines: nat,
                            lineSpacing: int, measure: string -> nat,
                            draws: seq<DrawCall>, remaining: seq<string>, n: nat)
    requires n < |draws| && |remaining| == |draws| + 1
  {
    && remaining[n] != ""
    && IsGreedyLine(remaining[n], maxWidth, n == maxLines - 1, measure, draws[n].text, remaining[n + 1])
    && draws[n] == DrawString(x, Int16(y + n * lineSpacing), draws[n].text, alignment, measure)
  }

  /** Every line in `draws` was drawn as LineDrawn says. */
  ghost predicate LinesDrawn(x: int, y: int, alignment: Alignment, maxWidth: nat, maxLines: nat,
                             lineSpacing: int, measure: string -> nat,
                             draws: seq<DrawCall>, remaining: seq<string>)
    requires |remaining| == |draws| + 1
    decreases |draws|
  {
    |draws| == 0 ||
    (&& LinesDrawn(x, y, alignment, maxWidth, maxLines, lineSpacing, measure,
                   draws[..|draws| - 1], remaining[..|draws|])
     && LineDrawn(x, y, alignment, maxWidth, maxLines, lineSpacing, measure, draws, remaining, |draws| - 1))
  }

  /** `draws` is what `drawMultiLnString` draws, `remaining` the successive values of its
      remaining text: one greedy line per draw, until the text runs out or `maxLines` lines
      are drawn. */
  ghost predicate IsWrap(x: int, y: int, text: string, alignment: Alignment, maxWidth: nat,
                         maxLines: nat, lineSpacing: int, measure: string -> nat,
                         draws: seq<DrawCall>, remaining: seq<string>)
  {
    && |remaining| == |draws| + 1 && remaining[0] == text
    && |draws| <= maxLines
    && (|draws| == maxLines || remaining[|draws|] == "")
    && LinesDrawn(x, y, alignment, maxWidth, maxLines, lineSpacing, measure, draws, remaining)
  }

  /** Each line of a wrap was drawn as LineDrawn says. */
  lemma {:induction false} LineOfWrap(x: int, y: int, alignment: Alignment, maxWidth: nat, maxLines: nat,
                                      lineSpacing: int, measure: string -> nat,
                                      draws: seq<DrawCall>, remaining: seq<string>, n: nat)
    requires |remaining| == |draws| + 1 && n < |draws|
    requires LinesDrawn(x, y, alignment, maxWidth, maxLines, lineSpacing, measure, draws, remaining)
    ensures LineDrawn(x, y, alignment, maxWidth, maxLines, lineSpacing, measure, draws, remaining, n)
    decreases |draws|
  {
    var m := |draws| - 1;
    if n < m {
      var d, r := draws[..m], remaining[..m + 1];
      LineOfWrap(x, y, alignment, maxWidth, maxLines, lineSpacing, measure, d, r, n);
      assert d[n] == draws[n] && r[n] == remaining[n] && r[n + 1] == remaining[n + 1];
    }
  }

  /** `drawMultiLnString(x, y, text, alignment, max_width, max_lines, line_spacing)`. */
  method DrawMultiLnString(x: int, y: int, text: string, alignment: Alignment, maxWidth: nat,
                           maxLines: nat, lineSpacing: int, measure: string -> nat)
    returns (draws: seq<DrawCall>, ghost remaining: seq<string>)
    ensures |draws| <= maxLines
    ensures forall i :: 0 <= i < |draws| ==> draws[i].y == Int16(y + i * lineSpacing)
    ensures IsWrap(x, y, text, alignment, maxWidth, maxLines, lineSpacing, measure, draws, remaining)
  {
    var currentLine := 0;
    var textRemaining := text;
    draws := [];
    remaining := [text];
    while currentLine < maxLines && textRemaining != ""
      invariant currentLine == |draws| <= maxLines
      invariant |remaining| == |draws| + 1 && remaining[0] == text
      invariant remaining[|draws|] == textRemaining
      invariant LinesDrawn(x, y, alignment, maxWidth, maxLines, lineSpacing, measure, draws, remaining)
    {
      var subStr, endIndex, keepLastChar := FitLine(textRemaining, maxWidth, !(currentLine < maxLines - 1), measure);
      ghost var draws0, remaining0 := draws, remaining;
      draws := draws + [DrawString(x, Int16(y + currentLine * lineSpacing), subStr, alignment, measure)];
      textRemaining := SubstringFrom(textRemaining, endIndex + 2 - keepLastChar);
      remaining := remaining + [textRemaining];
      assert draws[..currentLine] == draws0 && remaining[..currentLine + 1] == remaining0;
      assert LineDrawn(x, y, alignment, maxWidth, maxLines, lineSpacing, measure, draws, remaining, currentLine);
      currentLine := currentLine + 1;
    }
    forall i | 0 <= i < |draws|
      ensures draws[i].y == Int16(y + i * lineSpacing)
    {
      LineOfWrap(x, y, alignment, maxWidth, maxLines, lineSpacing, measure, draws, remaining, i);
    }
  }

  // ---------------------------------------------------------------------------
  // What the greedy line promises
  // ---------------------------------------------------------------------------

  /** The greedy line is determined by its inputs. */
  lemma GreedyLineUnique(t: string, maxWidth: nat, lastLine: bool, measure: string -> nat,
                         line1: string, rest1: string, line2: string, rest2: string)
    requires IsGreedyLine(t, maxWidth, lastLine, measure, line1, rest1)
    requires IsGreedyLine(t, maxWidth, lastLine, measure, line2, rest2)
    ensures line1 == line2 && rest1 == rest2
  {
    if !(measure(t) <= maxWidth || NoBreakBefore(t, |t|, lastLine)) {
      var b1 :| 0 <= b1 < |t| &&
        (BreaksAtFit(t, b1, lastLine, maxWidth, measure, line1, rest1) ||
         BreaksAtLeftmost(t, b1, lastLine, maxWidth, measure, line1, rest1));
      var b2 :| 0 <= b2 < |t| &&
        (BreaksAtFit(t, b2, lastLine, maxWidth, measure, line2, rest2) ||
         BreaksAtLeftmost(t, b2, lastLine, maxWidth, measure, line2, rest2));
      BreakChoiceUnique(t, maxWidth, lastLine, measure, b1, line1, rest1, b2, line2, rest2);
    }
  }

  lemma BreakChoiceUnique(t: string, maxWidth: nat, lastLine: bool, measure: string -> nat,
                          b1: int, line1: string, rest1: string, b2: int, line2: string, rest2: string)
    requires BreaksAtFit(t, b1, lastLine, maxWidth, measure, line1, rest1) ||
             BreaksAtLeftmost(t, b1, lastLine, maxWidth, measure, line1, rest1)
    requires BreaksAtFit(t, b2, lastLine, maxWidth, measure, line2, rest2) ||
             BreaksAtLeftmost(t, b2, lastLine, maxWidth, measure, line2, rest2)
    ensures b1 == b2
  {
  }

  /** Two runs of the wrap on the same inputs draw the same thing. */
  lemma {:induction false} WrapDeterministic(x: int, y: int, text: string, alignment: Alignment, maxWidth: nat,
                                             maxLines: nat, lineSpacing: int, measure: string -> nat,
                                             draws1: seq<DrawCall>, remaining1: seq<string>,
                                             draws2: seq<DrawCall>, remaining2: seq<string>)
    requires IsWrap(x, y, text, alignment, maxWidth, maxLines, lineSpacing, measure, draws1, remaining1)
    requires IsWrap(x, y, text, alignment, maxWidth, maxLines, lineSpacing, measure, draws2, remaining2)
    ensures draws1 == draws2 && remaining1 == remaining2
  {
    var n := 0;
    while n < |draws1| && n < |draws2|
      invariant n <= |draws1| && n <= |draws2|
      invariant draws1[..n] == draws2[..n] && remaining1[..n + 1] == remaining2[..n + 1]
    {
      LineOfWrap(x, y, alignment, maxWidth, maxLines, lineSpacing, measure, draws1, remaining1, n);
      LineOfWrap(x, y, alignment, maxWidth, maxLines, lineSpacing, measure, draws2, remaining2, n);
      assert remaining1[n] == remaining2[n] by {
        assert remaining1[..n + 1][n] == remaining2[..n + 1][n];
      }
      GreedyLineUnique(remaining1[n], maxWidth, n == maxLines - 1, measure,
                       draws1[n].text, remaining1[n + 1], draws2[n].text, remaining2[n + 1]);
      assert remaining1[..n + 2] == remaining1[..n + 1] + [remaining1[n + 1]];
      assert remaining2[..n + 2] == remaining2[..n + 1] + [remaining2[n + 1]];
      assert draws1[..n + 1] == draws1[..n] + [draws1[n]];
      assert draws2[..n + 1] == draws2[..n] + [draws2[n]];
      n := n + 1;
    }
    assert remaining1[n] == remaining2[n] by {
      assert remaining1[..n + 1][n] == remaining2[..n + 1][n];
    }
    if n < |draws1| {
      LineOfWrap(x, y, alignment, maxWidth, maxLines, lineSpacing, measure, draws1, remaining1, n);
    } else if n < |draws2| {
      LineOfWrap(x, y, alignment, maxWidth, maxLines, lineSpacing, measure, draws2, remaining2, n);
    }
    assert |draws1| == |draws2|;
    assert draws1 == draws1[..n] && draws2 == draws2[..n];
    assert remaining1 == remaining1[..n + 1] && remaining2 == remaining2[..n + 1];
  }

  /** Each drawn line is within the width budget, unless it is a run without a legal break. */
  lemma GreedyLineFitsOrUnbreakable(t: string, maxWidth: nat, lastLine: bool, measure: string -> nat,
                                    line: string, rest: string)
    requires IsGreedyLine(t, maxWidth, lastLine, measure, line, rest)
    ensures measure(line) <= maxWidth || NoBreakBefore(line, |line|, lastLine)
  {
    if !(measure(t) <= maxWidth || NoBreakBefore(t, |t|, lastLine)) {
      var b :| 0 <= b < |t| &&
        (BreaksAtFit(t, b, lastLine, maxWidth, measure, line, rest) ||
         BreaksAtLeftmost(t, b, lastLine, maxWidth, measure, line, rest));
      if BreaksAtLeftmost(t, b, lastLine, maxWidth, measure, line, rest) {
        forall i | 0 <= i < |line| ensures !IsBreakAt(line, i, lastLine) {
          assert line[i] == t[i] && !IsBreakAt(t, i, lastLine);
        }
      }
    }
  }

  /** The remaining text is a strict suffix of `t`; what was consumed is the line, followed by
      the dropped space or (when nothing fit) the lost hyphen, and on the last line the line may
      instead be the consumed text minus its final space plus "...". No other character is
      lost, and an ellipsis appears only on the last line. */
  lemma GreedyLineConsumes(t: string, maxWidth: nat, lastLine: bool, measure: string -> nat,
                           line: string, rest: string)
    requires t != ""
    requires IsGreedyLine(t, maxWidth, lastLine, measure, line, rest)
    ensures |rest| < |t| && rest == t[|t| - |rest|..]
    ensures var consumed := t[..|t| - |rest|];
      || consumed == line
      || consumed == line + " "
      || (!lastLine && consumed == line + "-")
      || (lastLine && consumed[|consumed| - 1] == ' ' && line == consumed[..|consumed| - 1] + "..."
          && measure(line) <= maxWidth)
  {
    if measure(t) <= maxWidth || NoBreakBefore(t, |t|, lastLine) {
      assert t[..|t| - |rest|] == line;
    } else {
      var b :| 0 <= b < |t| &&
        (BreaksAtFit(t, b, lastLine, maxWidth, measure, line, rest) ||
         BreaksAtLeftmost(t, b, lastLine, maxWidth, measure, line, rest));
      assert rest == t[b + 1..] && |t| - |rest| == b + 1;
      BreakConsumes(t, b, maxWidth, lastLine, measure, line, BreaksAtFit(t, b, lastLine, maxWidth, measure, line, rest));
    }
  }

  /** What a break at `b` consumes, `t[..b + 1]`, against the line it gives. */
  lemma BreakConsumes(t: string, b: int, maxWidth: nat, lastLine: bool, measure: string -> nat,
                      line: string, fit: bool)
    requires 0 <= b < |t| && IsBreakAt(t, b, lastLine)
    requires fit ==> line == Measured(t, b, lastLine) && Fits(t, b, lastLine, maxWidth, measure)
    requires !fit ==> line == t[..b]
    ensures var consumed := t[..b + 1];
      || consumed == line
      || consumed == line + " "
      || (!lastLine && consumed == line + "-")
      || (lastLine && consumed[|consumed| - 1] == ' ' && line == consumed[..|consumed| - 1] + "..."
          && measure(line) <= maxWidth)
  {
    var consumed := t[..b + 1];
    assert consumed == t[..b] + [t[b]];
    if fit && lastLine {
      assert consumed[..|consumed| - 1] == t[..b];
    }
  }

  /** The quirk of the source: when a hyphen break was tried, did not fit, and no earlier
      break exists, the hyphen is on neither the drawn line nor the remaining text. With one
      pixel per character and a budget of one pixel, "ab-cd" draws "ab" and continues at "cd". */
  lemma HyphenLostWhenNothingFits()
    ensures IsGreedyLine("ab-cd", 1, false, (s: string) => |s|, "ab", "cd")
  {
    var t := "ab-cd";
    assert BreaksAtLeftmost(t, 2, false, 1, (s: string) => |s|, "ab", "cd") by {
      assert Piece(t, 2) == "ab-";
      assert t[..2] == "ab" && t[3..] == "cd";
      assert NoneFitsFrom(t, 2, false, 1, (s: string) => |s|) by {
        forall k | 2 <= k < |t| && IsBreakAt(t, k, false)
          ensures !Fits(t, k, false, 1, (s: string) => |s|)
        {
          assert k == 2;
        }
      }
    }
  }
}
