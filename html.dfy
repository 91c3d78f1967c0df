/**
 * The HTML renderer. `escapeHTML` makes a line of text safe to put between
 * tags and keeps its spaces visible; `genHTML` writes a page with one piece
 * of markup per document part.
 */
module Html {
  import opened Wrappers
  import opened Strings
  import opened Document
  import opened Render

  // ---------------------------------------------------------------------
  // escapeHTML, as the source writes it: five replacements in a row.

  /** `html.EscapeString` on one character. */
  function EntityOf(c: char): string {
    if c == '&' then "&amp;"
    else if c == '\'' then "&#39;"
    else if c == '<' then "&lt;"
    else if c == '>' then "&gt;"
    else if c == '"' then "&#34;"
    else [c]
  }

  /** `html.EscapeString`: the five characters that are special in HTML
      become character references. */
  function EscapeString(s: string): string {
    FlatMap(s, EntityOf)
  }

  /** The third replacement: every pair of spaces, from the left. */
  function NbspPairs(s: string): string {
    ReplaceAll(s, "  ", "&nbsp;&nbsp;")
  }

  /** The fourth replacement: a space left over after a pair. */
  function NbspOdd(s: string): string {
    ReplaceAll(s, "&nbsp; ", "&nbsp;&nbsp;")
  }

  /** The fifth replacement, after escaping, so that its tags stay tags. */
  function Superscript(s: string): string {
    ReplaceAll(s, "®", "<sup>®</sup>")
  }

  /** `escapeHTML`. */
  function EscapeHtml(s: string): string {
    Superscript(NbspOdd(NbspPairs(EscapeString(ReplaceAll(s, "\t", "    ")))))
  }

  // ---------------------------------------------------------------------
  // What escapeHTML means: one pass from left to right.

  const Nbsp := "&nbsp;"

  /** A tab is four spaces. */
  function TabStop(c: char): string {
    if c == '\t' then "    " else [c]
  }

  function ExpandTabs(s: string): string {
    FlatMap(s, TabStop)
  }

  /** What becomes of a character other than a space: the special
      characters of HTML become references and `®` is superscripted. */
  function HtmlChar(c: char): string {
    if c == '®' then "<sup>®</sup>" else EntityOf(c)
  }

  /** A text read from left to right: every character but a space is
      escaped on its own, a space with a space next to it becomes
      `&nbsp;`, and a lone space stays a space. `afterSpace` says whether
      the character before `x` was a space. */
  function Visible(x: string, afterSpace: bool): string
    decreases |x|
  {
    if |x| == 0 then ""
    else if x[0] != ' ' then HtmlChar(x[0]) + Visible(x[1..], false)
    else if afterSpace || (|x| > 1 && x[1] == ' ') then Nbsp + Visible(x[1..], true)
    else " " + Visible(x[1..], true)
  }

  /** `Visible` before the superscript step. */
  function Spaced(x: string, afterSpace: bool): string
    decreases |x|
  {
    if |x| == 0 then ""
    else if x[0] != ' ' then EntityOf(x[0]) + Spaced(x[1..], false)
    else if afterSpace || (|x| > 1 && x[1] == ' ') then Nbsp + Spaced(x[1..], true)
    else " " + Spaced(x[1..], true)
  }

  /** No `&` in `w` is followed by `n`, so no `&nbsp; ` starts in `w`. */
  predicate AmpSafe(w: string) {
    forall i | 0 <= i < |w| && w[i] == '&' :: i + 1 < |w| && w[i + 1] != 'n'
  }

  lemma EntityShape(c: char)
    requires c != ' '
    ensures var w := EntityOf(c); |w| > 0 && w[0] != ' ' && ' ' !in w && AmpSafe(w)
  {
  }

  lemma {:induction false} PairsThrough(w: string, y: string)
    requires ' ' !in w
    ensures NbspPairs(w + y) == w + NbspPairs(y)
    decreases |w|
  {
    if |w| > 0 {
      assert (w + y)[0] == w[0] && (w + y)[1..] == w[1..] + y;
      PairsThrough(w[1..], y);
    } else {
      assert w + y == y;
    }
  }

  lemma PairsSpace(y: string)
    requires |y| == 0 || y[0] != ' '
    ensures NbspPairs(" " + y) == " " + NbspPairs(y)
  {
    assert (" " + y)[1..] == y;
  }

  lemma PairsPair(y: string)
    ensures NbspPairs("  " + y) == "&nbsp;&nbsp;" + NbspPairs(y)
  {
    assert ("  " + y)[..2] == "  " && ("  " + y)[2..] == y;
  }

  lemma {:induction false} OddThrough(w: string, y: string)
    requires AmpSafe(w)
    ensures NbspOdd(w + y) == w + NbspOdd(y)
    decreases |w|
  {
    if |w| > 0 {
      var s := w + y;
      assert s[0] == w[0] && s[1..] == w[1..] + y;
      if w[0] == '&' {
        assert s[1] == w[1];
      }
      assert !HasPrefix(s, "&nbsp; ");
      OddThrough(w[1..], y);
    } else {
      assert w + y == y;
    }
  }

  lemma OddNbsp(y: string)
    requires |y| == 0 || y[0] != ' '
    ensures NbspOdd(Nbsp + y) == Nbsp + NbspOdd(y)
  {
    var s := Nbsp + y;
    assert !HasPrefix(s, "&nbsp; ") by {
      if |y| > 0 {
        assert s[6] == y[0];
      }
    }
    assert s[1..] == "nbsp;" + y;
    OddThrough("nbsp;", y);
  }

  lemma OddNbspSpace(y: string)
    ensures NbspOdd(Nbsp + " " + y) == "&nbsp;&nbsp;" + NbspOdd(y)
  {
    var s := Nbsp + " " + y;
    assert s[..7] == "&nbsp; " && s[7..] == y;
  }

  lemma EscapeCons(x: string)
    requires |x| > 0
    ensures EscapeString(x) == EntityOf(x[0]) + EscapeString(x[1..])
  {
  }

  /** The escaped text does not start with a space unless the text does. */
  lemma EscapeFirst(x: string)
    requires |x| == 0 || x[0] != ' '
    ensures var e := EscapeString(x); |e| == 0 || e[0] != ' '
  {
    if |x| > 0 {
      EscapeCons(x);
      EntityShape(x[0]);
    }
  }

  lemma PairsFirst(x: string)
    requires |x| == 0 || x[0] != ' '
    ensures var p := NbspPairs(EscapeString(x)); |p| == 0 || p[0] != ' '
  {
    if |x| > 0 {
      EscapeCons(x);
      EntityShape(x[0]);
      PairsThrough(EntityOf(x[0]), EscapeString(x[1..]));
    }
  }

  lemma EscapeTwoSpaces(x: string)
    requires |x| > 1 && x[0] == ' ' && x[1] == ' '
    ensures EscapeString(x) == "  " + EscapeString(x[2..])
  {
    EscapeCons(x);
    EscapeCons(x[1..]);
    assert x[1..][1..] == x[2..];
  }

  lemma TwoNbsp(y: string)
    requires |y| == 0 || y[0] != ' '
    ensures NbspOdd("&nbsp;&nbsp;" + y) == "&nbsp;&nbsp;" + NbspOdd(y)
  {
    OddNbsp(Nbsp + y);
    OddNbsp(y);
    assert "&nbsp;&nbsp;" + y == Nbsp + (Nbsp + y);
  }

  lemma {:induction false} SpacedAfter(x: string)
    requires |x| == 0 || x[0] != ' '
    ensures Spaced(x, true) == Spaced(x, false)
  {
  }

  /** The two space replacements together, at the start of a run. */
  lemma {:induction false} SpacesAtStart(x: string)
    ensures NbspOdd(NbspPairs(EscapeString(x))) == Spaced(x, false)
    decreases |x|, 1
  {
    if |x| == 0 {
    } else if x[0] != ' ' {
      AtStartChar(x);
    } else if |x| > 1 && x[1] == ' ' {
      AtStartPair(x);
    } else {
      AtStartLone(x);
    }
  }

  lemma {:induction false} AtStartPair(x: string)
    requires |x| > 1 && x[0] == ' ' && x[1] == ' '
    ensures NbspOdd(NbspPairs(EscapeString(x))) == Spaced(x, false)
    decreases |x|, 0
  {
    EscapeTwoSpaces(x);
    PairsPair(EscapeString(x[2..]));
    SpacesInRun(x[2..]);
    SpacedPair(x, false);
  }

  /** Two spaces in a row become two `&nbsp;`. */
  lemma {:induction false} SpacedPair(x: string, afterSpace: bool)
    requires |x| > 1 && x[0] == ' ' && x[1] == ' '
    ensures Spaced(x, afterSpace) == "&nbsp;&nbsp;" + Spaced(x[2..], true)
  {
    var t := Spaced(x[2..], true);
    assert x[1..][1..] == x[2..];
    assert Spaced(x[1..], true) == Nbsp + t;
    assert Nbsp + (Nbsp + t) == "&nbsp;&nbsp;" + t;
  }

  lemma {:induction false} AtStartChar(x: string)
    requires |x| > 0 && x[0] != ' '
    ensures NbspOdd(NbspPairs(EscapeString(x))) == Spaced(x, false)
    decreases |x|, 0
  {
    var w := EntityOf(x[0]);
    EscapeCons(x);
    EntityShape(x[0]);
    PairsThrough(w, EscapeString(x[1..]));
    OddThrough(w, NbspPairs(EscapeString(x[1..])));
    SpacesAtStart(x[1..]);
  }

  lemma {:induction false} AtStartLone(x: string)
    requires |x| > 0 && x[0] == ' ' && (|x| == 1 || x[1] != ' ')
    ensures NbspOdd(NbspPairs(EscapeString(x))) == Spaced(x, false)
    decreases |x|, 0
  {
    var rest := EscapeString(x[1..]);
    EscapeCons(x);
    EscapeFirst(x[1..]);
    PairsSpace(rest);
    OddThrough(" ", NbspPairs(rest));
    SpacesAtStart(x[1..]);
  }

  /** The two space replacements together, after a pair of spaces. */
  lemma {:induction false} SpacesInRun(x: string)
    ensures NbspOdd("&nbsp;&nbsp;" + NbspPairs(EscapeString(x))) == "&nbsp;&nbsp;" + Spaced(x, true)
    decreases |x|, 4
  {
    if |x| == 0 || x[0] != ' ' {
      InRunEnds(x);
    } else if |x| > 1 && x[1] == ' ' {
      InRunPair(x);
    } else {
      InRunLone(x);
    }
  }

  lemma {:induction false} InRunEnds(x: string)
    requires |x| == 0 || x[0] != ' '
    ensures NbspOdd("&nbsp;&nbsp;" + NbspPairs(EscapeString(x))) == "&nbsp;&nbsp;" + Spaced(x, true)
    decreases |x|, 3
  {
    PairsFirst(x);
    TwoNbsp(NbspPairs(EscapeString(x)));
    SpacesAtStart(x);
    SpacedAfter(x);
  }

  lemma {:induction false} InRunPair(x: string)
    requires |x| > 1 && x[0] == ' ' && x[1] == ' '
    ensures NbspOdd("&nbsp;&nbsp;" + NbspPairs(EscapeString(x))) == "&nbsp;&nbsp;" + Spaced(x, true)
    decreases |x|, 3
  {
    var q := NbspPairs(EscapeString(x[2..]));
    EscapeTwoSpaces(x);
    PairsPair(EscapeString(x[2..]));
    TwoNbsp("&nbsp;&nbsp;" + q);
    SpacesInRun(x[2..]);
    SpacedPair(x, true);
  }

  lemma {:induction false} InRunLone(x: string)
    requires |x| > 0 && x[0] == ' ' && (|x| == 1 || x[1] != ' ')
    ensures NbspOdd("&nbsp;&nbsp;" + NbspPairs(EscapeString(x))) == "&nbsp;&nbsp;" + Spaced(x, true)
    decreases |x|, 3
  {
    var q := NbspPairs(EscapeString(x[1..]));
    var t := Spaced(x[1..], false);
    var nn := "&nbsp;&nbsp;";
    assert nn == Nbsp + Nbsp;
    calc {
      NbspOdd(nn + NbspPairs(EscapeString(x)));
      { EscapeCons(x); }
      NbspOdd(nn + NbspPairs(" " + EscapeString(x[1..])));
      { EscapeFirst(x[1..]); PairsSpace(EscapeString(x[1..])); }
      NbspOdd(nn + (" " + q));
      { ConcatAssoc(Nbsp, Nbsp, " " + q); ConcatAssoc(Nbsp, " ", q); }
      NbspOdd(Nbsp + (Nbsp + " " + q));
      { OddNbsp(Nbsp + " " + q); }
      Nbsp + NbspOdd(Nbsp + " " + q);
      { OddNbspSpace(q); }
      Nbsp + (nn + NbspOdd(q));
      { SpacesAtStart(x[1..]); }
      Nbsp + (nn + t);
      { ConcatAssoc(Nbsp, Nbsp, t); ConcatAssoc(Nbsp, Nbsp, Nbsp + t); }
      nn + (Nbsp + t);
      { SpacedAfter(x[1..]); }
      nn + Spaced(x, true);
    }
  }

  lemma {:induction false} SupNone(w: string)
    requires '®' !in w
    ensures Superscript(w) == w
  {
    ReplaceAllAbsent(w, "®", "<sup>®</sup>");
  }

  lemma SuperscriptAppend(a: string, b: string)
    ensures Superscript(a + b) == Superscript(a) + Superscript(b)
  {
    var f := x => if x == '®' then "<sup>®</sup>" else [x];
    ReplaceCharIsFlatMap(a + b, '®', "<sup>®</sup>");
    ReplaceCharIsFlatMap(a, '®', "<sup>®</sup>");
    ReplaceCharIsFlatMap(b, '®', "<sup>®</sup>");
    FlatMapAppend(a, b, f);
  }

  lemma SuperscriptEntity(c: char)
    requires c != ' '
    ensures Superscript(EntityOf(c)) == HtmlChar(c)
  {
    if c == '®' {
      var w := EntityOf(c);
      assert w == "®" && w[..1] == "®" && w[1..] == "";
    } else {
      SupNone(EntityOf(c));
    }
  }

  /** The superscript step turns `Spaced` into `Visible`. */
  lemma {:induction false} SuperscriptSpaced(x: string, afterSpace: bool)
    ensures Superscript(Spaced(x, afterSpace)) == Visible(x, afterSpace)
    decreases |x|
  {
    if |x| > 0 {
      var next := x[0] == ' ';
      SuperscriptSpaced(x[1..], next);
      if x[0] != ' ' {
        SuperscriptAppend(EntityOf(x[0]), Spaced(x[1..], next));
        SuperscriptEntity(x[0]);
      } else if afterSpace || (|x| > 1 && x[1] == ' ') {
        SuperscriptAppend(Nbsp, Spaced(x[1..], next));
        SupNone(Nbsp);
      } else {
        SuperscriptAppend(" ", Spaced(x[1..], next));
        SupNone(" ");
      }
    }
  }

  /** `escapeHTML` is the one-pass reading of the text with its tabs
      expanded: the special characters of HTML become references, `®` is
      superscripted, a run of two or more spaces becomes as many `&nbsp;`,
      and a lone space stays a space. */
  lemma EscapeHtmlVisible(s: string)
    ensures EscapeHtml(s) == Visible(ExpandTabs(s), false)
  {
    ReplaceCharIsFlatMap(s, '\t', "    ");
    FlatMapExt(s, x => if x == '\t' then "    " else [x], TabStop);
    SpacesAtStart(ExpandTabs(s));
    SuperscriptSpaced(ExpandTabs(s), false);
  }

  // ---------------------------------------------------------------------
  // The cases the tests of escapeHTML spell out, for any surrounding text.

  /** Text that `escapeHTML` leaves alone. */
  predicate Plain(s: string) {
    forall k | 0 <= k < |s| :: PlainChar(s[k])
  }

  predicate PlainChar(c: char) {
    c != ' ' && c != '\t' && c != '&' && c != '\'' && c != '<' && c != '>' && c != '"' && c != '®'
  }

  lemma PlainCharKept(c: char)
    requires PlainChar(c)
    ensures HtmlChar(c) == [c] && TabStop(c) == [c]
  {
  }

  lemma {:induction false} VisibleCons(x: string, afterSpace: bool)
    requires |x| > 0 && x[0] != ' '
    ensures Visible(x, afterSpace) == HtmlChar(x[0]) + Visible(x[1..], false)
  {
  }

  function Spaces(n: nat): (r: string)
    ensures |r| == n && forall k | 0 <= k < n :: r[k] == ' '
  {
    seq(n, _ => ' ')
  }

  function NbspTimes(n: nat): string {
    if n == 0 then "" else Nbsp + NbspTimes(n - 1)
  }

  lemma {:induction false} VisiblePlain(a: string, rest: string)
    requires Plain(a)
    ensures Visible(a + rest, false) == a + Visible(rest, false)
    decreases |a|
  {
    if |a| == 0 {
      assert a + rest == rest;
    } else {
      var x := a + rest;
      assert x[0] == a[0] && x[1..] == a[1..] + rest;
      PlainCharKept(a[0]);
      VisibleCons(x, false);
      assert Plain(a[1..]) by {
        forall k | 0 <= k < |a[1..]| ensures PlainChar(a[1..][k]) {
          assert a[1..][k] == a[k + 1];
        }
      }
      VisiblePlain(a[1..], rest);
      assert [a[0]] + a[1..] == a;
      ConcatAssoc([a[0]], a[1..], Visible(rest, false));
    }
  }

  lemma {:induction false} VisiblePlainAll(b: string, afterSpace: bool)
    requires Plain(b)
    ensures Visible(b, afterSpace) == b
  {
    VisiblePlain(b, "");
    assert b + "" == b;
  }

  /** A run of spaces, not followed by another space, after a space or of
      length two or more. */
  lemma {:induction false} VisibleRun(n: nat, b: string, afterSpace: bool)
    requires n >= 2 || (n == 1 && afterSpace)
    requires |b| == 0 || b[0] != ' '
    ensures Visible(Spaces(n) + b, afterSpace) == NbspTimes(n) + Visible(b, true)
    decreases n
  {
    var x := Spaces(n) + b;
    assert x[0] == ' ' && x[1..] == Spaces(n - 1) + b;
    if n == 1 {
      assert Spaces(0) + b == b;
    } else {
      assert x[1] == ' ';
      VisibleRun(n - 1, b, true);
    }
  }

  lemma ExpandPlain(a: string)
    requires Plain(a)
    ensures ExpandTabs(a) == a
  {
    forall k | 0 <= k < |a| ensures TabStop(a[k]) == [a[k]] {
      PlainCharKept(a[k]);
    }
    FlatMapId(a, TabStop);
  }

  /** The text between two plain texts. */
  lemma {:induction false} EscapeBetween(a: string, m: string, b: string)
    requires Plain(a) && Plain(b)
    ensures EscapeHtml(a + m + b) == a + Visible(ExpandTabs(m) + b, false)
  {
    EscapeHtmlVisible(a + m + b);
    ExpandBetween(a, m, b);
    VisiblePlain(a, ExpandTabs(m) + b);
  }

  lemma ExpandBetween(a: string, m: string, b: string)
    requires Plain(a) && Plain(b)
    ensures ExpandTabs(a + m + b) == a + (ExpandTabs(m) + b)
  {
    FlatMapAppend(a + m, b, TabStop);
    FlatMapAppend(a, m, TabStop);
    ExpandPlain(a);
    ExpandPlain(b);
  }

  /** Two or more spaces become as many `&nbsp;`. */
  lemma {:induction false} EscapeSpaceRun(a: string, n: nat, b: string)
    requires Plain(a) && Plain(b) && n >= 2
    ensures EscapeHtml(a + Spaces(n) + b) == a + NbspTimes(n) + b
  {
    EscapeBetween(a, Spaces(n), b);
    ExpandPlainSpaces(n);
    VisibleRun(n, b, false);
    VisiblePlainAll(b, true);
  }

  lemma ExpandPlainSpaces(n: nat)
    ensures ExpandTabs(Spaces(n)) == Spaces(n)
  {
    FlatMapId(Spaces(n), TabStop);
  }

  /** A single space between plain texts stays a space. */
  lemma EscapeLoneSpace(a: string, b: string)
    requires Plain(a) && Plain(b)
    ensures EscapeHtml(a + " " + b) == a + " " + b
  {
    EscapeBetween(a, " ", b);
    assert ExpandTabs(" ") == " ";
    var x := " " + b;
    assert x[1..] == b;
    VisiblePlainAll(b, true);
  }

  /** A tab becomes four `&nbsp;`. */
  lemma EscapeTab(a: string, b: string)
    requires Plain(a) && Plain(b)
    ensures EscapeHtml(a + "\t" + b) == a + NbspTimes(4) + b
  {
    EscapeBetween(a, "\t", b);
    assert ExpandTabs("\t") == Spaces(4);
    VisibleRun(4, b, false);
    VisiblePlainAll(b, true);
  }

  /** Any other character becomes its reference, and `®` its superscript,
      with no effect on its neighbours. */
  lemma EscapeChar(a: string, c: char, b: string)
    requires Plain(a) && Plain(b) && c != ' ' && c != '\t'
    ensures EscapeHtml(a + [c] + b) == a + HtmlChar(c) + b
  {
    EscapeBetween(a, [c], b);
    FlatMapId([c], TabStop);
    var x := [c] + b;
    assert x[0] == c && x[1..] == b;
    VisibleCons(x, false);
    VisiblePlainAll(b, false);
    assert a + (HtmlChar(c) + b) == a + HtmlChar(c) + b;
  }

  // ---------------------------------------------------------------------
  // A text part: its lines.

  /** A `docText` part: every line escaped on its own, the lines joined by
      `<br>`. */
  function TextHtml(t: string): string {
    Join(EscapeEach(Split(t, '\n')), "<br>")
  }

  function EscapeEach(lines: seq<string>): (r: seq<string>)
    ensures |r| == |lines|
  {
    seq(|lines|, k requires 0 <= k < |lines| => EscapeHtml(lines[k]))
  }

  /** The loop over a text part's lines, escaping each in place. */
  method EscapeLines(lines: array<string>)
    modifies lines
    ensures lines[..] == EscapeEach(old(lines[..]))
  {
    for i := 0 to lines.Length
      invariant forall k | 0 <= k < i :: lines[k] == EscapeHtml(old(lines[k]))
      invariant forall k | i <= k < lines.Length :: lines[k] == old(lines[k])
    {
      lines[i] := EscapeHtml(lines[i]);
    }
  }

  /** A text without line breaks is escaped as a whole. */
  lemma TextHtmlOneLine(t: string)
    requires '\n' !in t
    ensures TextHtml(t) == EscapeHtml(t)
  {
  }

  /** A line break becomes `<br>` between the escaped line before it and
      the rendering of the rest. */
  lemma TextHtmlBreak(a: string, b: string)
    requires '\n' !in a
    ensures TextHtml(a + "\n" + b) == EscapeHtml(a) + "<br>" + TextHtml(b)
  {
    SplitAfter(a, b, '\n');
    var rest := Split(b, '\n');
    var e := EscapeEach([a] + rest);
    assert e == [EscapeHtml(a)] + EscapeEach(rest);
    assert e[1..] == EscapeEach(rest);
  }

  lemma {:induction false} VisibleAvoidsNewline(x: string, afterSpace: bool)
    requires '\n' !in x
    ensures '\n' !in Visible(x, afterSpace)
    decreases |x|
  {
    if |x| > 0 {
      assert x[0] != '\n';
      assert '\n' !in x[1..] by {
        assert forall k | 0 <= k < |x[1..]| :: x[1..][k] == x[k + 1];
      }
      VisibleAvoidsNewline(x[1..], x[0] == ' ');
    }
  }

  lemma EscapeAvoidsNewline(s: string)
    requires '\n' !in s
    ensures '\n' !in EscapeHtml(s)
  {
    EscapeHtmlVisible(s);
    FlatMapAvoids(s, TabStop, '\n');
    VisibleAvoidsNewline(ExpandTabs(s), false);
  }

  /** Every line break of a text part becomes `<br>`: none is left in the
      markup. */
  lemma TextHtmlNoNewline(t: string)
    ensures '\n' !in TextHtml(t)
  {
    var lines := Split(t, '\n');
    SplitShape(t, '\n');
    forall k | 0 <= k < |lines| ensures '\n' !in EscapeEach(lines)[k] {
      EscapeAvoidsNewline(lines[k]);
    }
    JoinAvoids(EscapeEach(lines), "<br>", '\n');
  }

  // ---------------------------------------------------------------------
  // genHTML: one piece of markup per part.

  const HtmlHead := "<!DOCTYPE html><meta charset=\"UTF-8\"><html><head>\n<style>\n body{\n  background-color: #D7EEEF;\n  text-align: left;\n  max-width:800px;\n  margin-left: auto;\n  margin-right: auto;\n }\n</style>"

  /** The title element, written as it is, and only for a non-empty title. */
  function TitleHtml(title: string): string {
    if title != "" then "<title>" + title + "</title>" else ""
  }

  function CaptionHtml(cap: string, size: string): string {
    "<h" + size + ">" + EscapeHtml(cap) + "</h" + size + ">"
  }

  function LinkHtml(id: int, text: string): string {
    "<a href=\"#" + FormatInt(id) + "\">" + EscapeHtml(text) + "</a>"
  }

  function AnchorHtml(id: int): string {
    "<a id=\"" + FormatInt(id) + "\"/>"
  }

  function ExternalLinkHtml(url: string, text: string): string {
    "<a href=\"" + url + "\">" + EscapeHtml(text) + "</a>"
  }

  /** The tags are opened bold first and closed in the reverse order. */
  function StyledHtml(text: string, bold: bool, italic: bool): string {
    (if bold then "<b>" else "") + (if italic then "<i>" else "")
    + EscapeHtml(text)
    + (if italic then "</i>" else "") + (if bold then "</b>" else "")
  }

  function UnhandledHtml(p: DocPart): string {
    "error generating HTML: unhandled document part: " + TypeName(p)
  }

  /** The markup of one part, or the message the page is abandoned with.
      An image is looked up by name and turned into a tag by the two
      functions the caller passes. */
  function PartHtml<Img>(p: DocPart, findImage: string -> Result<Img, string>, imageTag: Img -> Result<string, string>): Result<string, string> {
    match p
    case Text(t) => Ok(TextHtml(t))
    case Image(name) =>
      (match findImage(name)
       case Err(e) => Err("error generating HTML image '" + name + "': " + e)
       case Ok(img) =>
         match imageTag(img)
         case Err(e) => Err("error generating HTML image tag for '" + name + "': " + e)
         case Ok(tag) => Ok(tag))
    case Title(t) => Ok(CaptionHtml(t, "1"))
    case Caption(t) => Ok(CaptionHtml(t, "2"))
    case SubCaption(t) => Ok(CaptionHtml(t, "3"))
    case SubSubCaption(t) => Ok(CaptionHtml(t, "4"))
    case Link(id, text) => Ok(LinkHtml(id, text))
    case LinkTarget(id) => Ok(AnchorHtml(id))
    case ExternalLink(url, text) => Ok(ExternalLinkHtml(url, text))
    case Styled(text, bold, italic) => Ok(StyledHtml(text, bold, italic))
    case TempRef(_, _, _) => Err(UnhandledHtml(p))
  }

  /** The markup of the parts in order, or the first part's error. */
  function PartsHtml<Img>(parts: seq<DocPart>, findImage: string -> Result<Img, string>, imageTag: Img -> Result<string, string>): Result<string, string> {
    RenderAll(parts, p => PartHtml(p, findImage, imageTag))
  }

  /** `genHTML`: the page, or the error of the first part that cannot be
      rendered. */
  function PageHtml<Img>(doc: Document, findImage: string -> Result<Img, string>, imageTag: Img -> Result<string, string>): Result<string, string> {
    match PartsHtml(doc.parts, findImage, imageTag)
    case Err(e) => Err(e)
    case Ok(body) => Ok(PageStart(doc.title) + body + "</body></html>")
  }

  /** Writes a text part after `buf`. */
  method WriteText(buf: string, t: string) returns (out: string)
    ensures out == buf + TextHtml(t)
  {
    var pieces := Split(t, '\n');
    var lines := new string[|pieces|](k requires 0 <= k < |pieces| => pieces[k]);
    assert lines[..] == pieces;
    EscapeLines(lines);
    out := buf + Join(lines[..], "<br>");
  }

  /** Writes a styled text after `buf`: the opening tags, the text, the
      closing tags. */
  method WriteStyled(buf: string, text: string, bold: bool, italic: bool) returns (out: string)
    ensures out == buf + StyledHtml(text, bold, italic)
  {
    var b1, i1 := if bold then "<b>" else "", if italic then "<i>" else "";
    var i0, b0 := if italic then "</i>" else "", if bold then "</b>" else "";
    var body := EscapeHtml(text);
    out := buf;
    if bold {
      out := out + "<b>";
    }
    assert out == buf + b1;
    if italic {
      out := out + "<i>";
    }
    ConcatAssoc(buf, b1, i1);
    out := out + body;
    ConcatAssoc(buf, b1 + i1, body);
    if italic {
      out := out + "</i>";
    }
    ConcatAssoc(buf, b1 + i1 + body, i0);
    if bold {
      out := out + "</b>";
    }
    ConcatAssoc(buf, b1 + i1 + body + i0, b0);
  }

  /** Writes an image tag after `buf`, or says why there is none. */
  method WriteImage<Img>(buf: string, name: string, findImage: string -> Result<Img, string>, imageTag: Img -> Result<string, string>)
    returns (out: string, err: Option<string>)
    ensures var r := PartHtml(Image(name), findImage, imageTag);
      (r.Ok? ==> err == None && out == buf + r.value) && (r.Err? ==> err == Some(r.error))
  {
    var img := findImage(name);
    if img.Err? {
      return buf, Some("error generating HTML image '" + name + "': " + img.error);
    }
    var tag := imageTag(img.value);
    if tag.Err? {
      return buf, Some("error generating HTML image tag for '" + name + "': " + tag.error);
    }
    return buf + tag.value, None;
  }

  /** Writes one part after `buf`: the switch over the part's kind. */
  method WritePart<Img>(buf: string, p: DocPart, findImage: string -> Result<Img, string>, imageTag: Img -> Result<string, string>)
    returns (out: string, err: Option<string>)
    ensures var r := PartHtml(p, findImage, imageTag);
      (r.Ok? ==> err == None && out == buf + r.value) && (r.Err? ==> err == Some(r.error))
  {
    out, err := buf, None;
    match p {
      case Text(t) =>
        out := WriteText(buf, t);
      case Image(name) =>
        out, err := WriteImage(buf, name, findImage, imageTag);
      case Title(t) =>
        out := buf + CaptionHtml(t, "1");
      case Caption(t) =>
        out := buf + CaptionHtml(t, "2");
      case SubCaption(t) =>
        out := buf + CaptionHtml(t, "3");
      case SubSubCaption(t) =>
        out := buf + CaptionHtml(t, "4");
      case Link(id, text) =>
        out := buf + LinkHtml(id, text);
      case LinkTarget(id) =>
        out := buf + AnchorHtml(id);
      case ExternalLink(url, text) =>
        out := buf + ExternalLinkHtml(url, text);
      case Styled(text, bold, italic) =>
        out := WriteStyled(buf, text, bold, italic);
      case TempRef(_, _, _) =>
        err := Some(UnhandledHtml(p));
    }
  }

  /** The head of the page: the style sheet, the title when there is one,
      and the opening of the body. */
  function PageStart(title: string): string {
    HtmlHead + TitleHtml(title) + "</head><body>"
  }

  method WriteHead(title: string) returns (buf: string)
    ensures buf == PageStart(title)
  {
    buf := HtmlHead;
    if title != "" {
      buf := buf + ("<title>" + title + "</title>");
    }
    assert buf == HtmlHead + TitleHtml(title);
    buf := buf + "</head><body>";
  }

  /** `genHTML`: writes the head, the title, every part in order and the
      closing tags into one buffer; the first part that cannot be written
      abandons the page. */
  method GenHtml<Img>(doc: Document, findImage: string -> Result<Img, string>, imageTag: Img -> Result<string, string>)
    returns (r: Result<string, string>)
    ensures r == PageHtml(doc, findImage, imageTag)
  {
    var buf := WriteHead(doc.title);
    ghost var head := buf;
    ghost var body := "";
    for i := 0 to |doc.parts|
      invariant PartsHtml(doc.parts[..i], findImage, imageTag) == Ok(body)
      invariant buf == head + body
    {
      var err;
      RenderStep(doc.parts, i, p => PartHtml(p, findImage, imageTag));
      buf, err := WritePart(buf, doc.parts[i], findImage, imageTag);
      if err.Some? {
        RenderFirstError(doc.parts, i + 1, p => PartHtml(p, findImage, imageTag));
        return Err(err.value);
      }
      ghost var piece := PartHtml(doc.parts[i], findImage, imageTag).value;
      ConcatAssoc(head, body, piece);
      body := body + piece;
    }
    assert doc.parts[..|doc.parts|] == doc.parts;
    buf := buf + "</body></html>";
    return Ok(buf);
  }

  // ---------------------------------------------------------------------
  // What genHTML promises.

  /** An image renders when it is found and its tag can be made. */
  predicate ImageHtmlOk<Img>(name: string, findImage: string -> Result<Img, string>, imageTag: Img -> Result<string, string>) {
    findImage(name).Ok? && imageTag(findImage(name).value).Ok?
  }

  /** A part fails exactly when it is a reference left unresolved, or an
      image that cannot be found or tagged; an unresolved reference is
      reported by its Go type name. */
  lemma PartHtmlFails<Img>(p: DocPart, findImage: string -> Result<Img, string>, imageTag: Img -> Result<string, string>)
    ensures PartHtml(p, findImage, imageTag).Err?
      <==> p.TempRef? || (p.Image? && !ImageHtmlOk(p.name, findImage, imageTag))
    ensures p.TempRef? ==>
      PartHtml(p, findImage, imageTag).error == "error generating HTML: unhandled document part: main.tempRef"
  {
  }

  /** Headings become `h1` to `h4` by their level. */
  lemma HeadingTags<Img>(t: string, findImage: string -> Result<Img, string>, imageTag: Img -> Result<string, string>)
    ensures PartHtml(Title(t), findImage, imageTag) == Ok("<h1>" + EscapeHtml(t) + "</h1>")
    ensures PartHtml(Caption(t), findImage, imageTag) == Ok("<h2>" + EscapeHtml(t) + "</h2>")
    ensures PartHtml(SubCaption(t), findImage, imageTag) == Ok("<h3>" + EscapeHtml(t) + "</h3>")
    ensures PartHtml(SubSubCaption(t), findImage, imageTag) == Ok("<h4>" + EscapeHtml(t) + "</h4>")
  {
    HeadingTag(t, "1", "<h1>", "</h1>");
    HeadingTag(t, "2", "<h2>", "</h2>");
    HeadingTag(t, "3", "<h3>", "</h3>");
    HeadingTag(t, "4", "<h4>", "</h4>");
  }

  lemma HeadingTag(t: string, size: string, open: string, close: string)
    requires open == "<h" + size + ">" && close == "</h" + size + ">"
    ensures CaptionHtml(t, size) == open + EscapeHtml(t) + close
  {
  }

  /** A link points at the anchor whose id it carries; the anchor is an
      empty element. */
  lemma LinkTags<Img>(t: string, id: int, findImage: string -> Result<Img, string>, imageTag: Img -> Result<string, string>)
    ensures PartHtml(Link(id, t), findImage, imageTag) == Ok("<a href=\"#" + FormatInt(id) + "\">" + EscapeHtml(t) + "</a>")
    ensures PartHtml(LinkTarget(id), findImage, imageTag) == Ok("<a id=\"" + FormatInt(id) + "\"/>")
  {
  }

  /** A document without unresolved references, whose images can all be
      rendered, becomes a page. */
  lemma ResolvedRendersHtml<Img>(doc: Document, findImage: string -> Result<Img, string>, imageTag: Img -> Result<string, string>)
    requires forall k | 0 <= k < |doc.parts| :: !doc.parts[k].TempRef?
    requires forall k | 0 <= k < |doc.parts| && doc.parts[k].Image? :: ImageHtmlOk(doc.parts[k].name, findImage, imageTag)
    ensures PageHtml(doc, findImage, imageTag).Ok?
  {
    forall k | 0 <= k < |doc.parts| ensures PartHtml(doc.parts[k], findImage, imageTag).Ok? {
      PartHtmlFails(doc.parts[k], findImage, imageTag);
    }
    RenderOk(doc.parts, p => PartHtml(p, findImage, imageTag));
  }

  /** A printed id ends at the first quote: it holds only digits and a
      minus sign. */
  lemma FormatIntUnquoted(i: int)
    ensures forall k | 0 <= k < |FormatInt(i)| :: FormatInt(i)[k] != '"'
  {
    if i < 0 {
      assert forall k | 1 <= k < |FormatInt(i)| :: FormatInt(i)[k] == NatToDecimal(-i)[k - 1];
    }
  }

  /** Two quote-free texts each followed by a quote, one the start of the
      other, are the same text. */
  lemma UnquotedPrefix(x: string, y: string, r: string)
    requires forall k | 0 <= k < |x| :: x[k] != '"'
    requires forall k | 0 <= k < |y| :: y[k] != '"'
    requires HasPrefix(x + "\"" + r, y + "\"")
    ensures x == y
  {
    var s, t := x + "\"" + r, y + "\"";
    assert s[|x|] == '"' && t[|y|] == '"';
    assert forall k | 0 <= k < |t| :: s[k] == t[k];
    assert forall k | 0 <= k < |x| :: s[k] == x[k];
    assert forall k | 0 <= k < |y| :: t[k] == y[k];
    assert |x| == |y|;
  }

  lemma DropPrefix(o: string, a: string, b: string)
    requires HasPrefix(o + a, o + b)
    ensures HasPrefix(a, b)
  {
    assert forall k | 0 <= k < |b| :: a[k] == (o + a)[|o| + k] && b[k] == (o + b)[|o| + k];
  }

  /** A link points at an anchor exactly when they carry the same id: the
      link's markup starts with `<a href="#`, the anchor's id and a
      closing quote only for that id. */
  lemma LinkFindsAnchor(i: int, j: int, text: string)
    ensures HasPrefix(LinkHtml(i, text), "<a href=\"#" + FormatInt(j) + "\"") <==> i == j
  {
    var open := "<a href=\"#";
    var x, y := FormatInt(i), FormatInt(j);
    var r := ">" + EscapeHtml(text) + "</a>";
    assert LinkHtml(i, text) == open + (x + "\"" + r);
    assert open + y + "\"" == open + (y + "\"");
    if HasPrefix(LinkHtml(i, text), open + y + "\"") {
      DropPrefix(open, x + "\"" + r, y + "\"");
      FormatIntUnquoted(i);
      FormatIntUnquoted(j);
      UnquotedPrefix(x, y, r);
      FormatIntInjective(i, j);
    }
  }
}
