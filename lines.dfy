/**
 * The first stage of the compiler: line breaks are unified, the input is cut
 * into numbered lines and every line is classified as text or as one of the
 * three rule lines that underline headings.
 */
module Lines {
  import opened Strings

  datatype LineKind = TextLine | EqualsLine | MinusLine | DottedLine

  /** A line of the input with its kind and its 1-based line number. */
  datatype CodeLine = CodeLine(text: string, kind: LineKind, number: int)

  /** `unifyLineBreaks`: every CR LF pair, then every remaining CR, becomes
      LF. */
  function UnifyLineBreaks(code: string): string {
    ReplaceAll(ReplaceAll(code, "\r\n", "\n"), "\r", "\n")
  }

  /** Reference definition of line-break unification in a single pass: CR LF
      and a lone CR each become exactly one LF, every other character is
      kept. */
  function NormalizedBreaks(code: string): string
    decreases |code|
  {
    if |code| == 0 then ""
    else if code[0] == '\r' then
      "\n" + NormalizedBreaks(if |code| > 1 && code[1] == '\n' then code[2..] else code[1..])
    else [code[0]] + NormalizedBreaks(code[1..])
  }

  lemma {:induction false} ReplaceCrHead(c: char, x: string)
    ensures ReplaceAll([c] + x, "\r", "\n") == (if c == '\r' then "\n" else [c]) + ReplaceAll(x, "\r", "\n")
  {
    assert ([c] + x)[1..] == x;
  }

  /** The two-pass replacement does exactly what the single-pass reference
      does. */
  lemma {:induction false} UnifyLineBreaksIsNormalized(code: string)
    ensures UnifyLineBreaks(code) == NormalizedBreaks(code)
    decreases |code|
  {
    if |code| > 0 {
      var once := ReplaceAll(code, "\r\n", "\n");
      if HasPrefix(code, "\r\n") {
        assert once == "\n" + ReplaceAll(code[2..], "\r\n", "\n");
        ReplaceCrHead('\n', ReplaceAll(code[2..], "\r\n", "\n"));
        UnifyLineBreaksIsNormalized(code[2..]);
      } else {
        assert once == [code[0]] + ReplaceAll(code[1..], "\r\n", "\n");
        ReplaceCrHead(code[0], ReplaceAll(code[1..], "\r\n", "\n"));
        UnifyLineBreaksIsNormalized(code[1..]);
      }
    }
  }

  /** No carriage return survives unification. */
  lemma {:induction false} NormalizedHasNoCr(code: string)
    ensures '\r' !in NormalizedBreaks(code)
    decreases |code|
  {
    if |code| > 0 {
      if code[0] == '\r' {
        NormalizedHasNoCr(if |code| > 1 && code[1] == '\n' then code[2..] else code[1..]);
      } else {
        NormalizedHasNoCr(code[1..]);
      }
    }
  }

  lemma UnifiedHasNoCr(code: string)
    ensures '\r' !in UnifyLineBreaks(code)
  {
    UnifyLineBreaksIsNormalized(code);
    NormalizedHasNoCr(code);
  }

  /** A rule line: at least three characters, all of them `c`. */
  predicate IsRule(line: string, c: char) {
    |line| >= 3 && forall k | 0 <= k < |line| :: line[k] == c
  }

  /** The loop of `computeLineKind` that compares every character with its
      predecessor, from index `i` on. */
  function AllSameFrom(line: string, i: nat): (same: bool)
    requires 1 <= i <= |line|
    ensures same <==> forall k | i <= k < |line| :: line[k] == line[i - 1]
    decreases |line| - i
  {
    if i == |line| then true else line[i] == line[i - 1] && AllSameFrom(line, i + 1)
  }

  /** `computeLineKind`: a rule line of `=`, `-` or `.` characters, otherwise
      a text line. */
  function ComputeLineKind(line: string): (k: LineKind)
    ensures k == EqualsLine <==> IsRule(line, '=')
    ensures k == MinusLine <==> IsRule(line, '-')
    ensures k == DottedLine <==> IsRule(line, '.')
  {
    if |line| >= 3 && AllSameFrom(line, 1) then
      match line[0]
      case '=' => EqualsLine
      case '-' => MinusLine
      case '.' => DottedLine
      case _ => TextLine
    else TextLine
  }

  /** The lines of (already unified) code, as `extractCodeLines` produces
      them: one per LF-separated piece, numbered from 1 in order. */
  function LinesOf(code: string): (lines: seq<CodeLine>)
    ensures |lines| == Count(code, '\n') + 1
    ensures forall i | 0 <= i < |lines| ::
      lines[i].number == i + 1 && '\n' !in lines[i].text && lines[i].kind == ComputeLineKind(lines[i].text)
    ensures Join(Texts(lines), "\n") == code
  {
    var texts := Split(code, '\n');
    SplitShape(code, '\n');
    JoinSplit(code, '\n');
    var lines := seq(|texts|, i requires 0 <= i < |texts| => CodeLine(texts[i], ComputeLineKind(texts[i]), i + 1));
    assert Texts(lines) == texts;
    lines
  }

  function Texts(lines: seq<CodeLine>): (texts: seq<string>)
    ensures |texts| == |lines| && forall i | 0 <= i < |lines| :: texts[i] == lines[i].text
  {
    seq(|lines|, i requires 0 <= i < |lines| => lines[i].text)
  }

  /** `extractCodeLines`: fills an array of lines, one per piece. */
  method ExtractCodeLines(code: string) returns (lines: seq<CodeLine>)
    ensures lines == LinesOf(code)
  {
    var texts := Split(code, '\n');
    var a := new CodeLine[|texts|];
    for i := 0 to a.Length
      invariant forall k | 0 <= k < i :: a[k] == CodeLine(texts[k], ComputeLineKind(texts[k]), k + 1)
    {
      a[i] := CodeLine(texts[i], ComputeLineKind(texts[i]), i + 1);
    }
    lines := a[..];
  }
}
