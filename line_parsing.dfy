/**
 * What `parseLines` makes of the lines that remain once the variable
 * definitions are taken out. A text line directly above a rule line is a
 * heading (of three levels, by the rule's character), a text line between
 * two `=` rules is the document title, rule lines themselves produce
 * nothing, and every other text line is parsed for inline markup and
 * followed by a line break unless it is the last line.
 */
module LineParsing {
  import opened Wrappers
  import opened Strings
  import opened Document
  import opened Lines
  import opened Errors
  import opened Variables
  import opened Substitution
  import opened Inline

  /** What a line is in the document. */
  datatype Role = TitleRole | CaptionRole | SubCaptionRole | SubSubCaptionRole | BodyRole | RuleRole

  predicate FollowedBy(lines: seq<CodeLine>, i: nat, kind: LineKind) {
    i + 1 < |lines| && lines[i + 1].kind == kind
  }

  predicate PrecededBy(lines: seq<CodeLine>, i: nat, kind: LineKind)
    requires i < |lines|
  {
    i > 0 && lines[i - 1].kind == kind
  }

  /** The decision `parseLines` makes for line `i`. Only text lines count;
      a blank line is never a heading. */
  function RoleOf(lines: seq<CodeLine>, i: nat): (r: Role)
    requires i < |lines|
    ensures r == RuleRole <==> lines[i].kind != TextLine
    ensures r == TitleRole <==>
      lines[i].kind == TextLine && !IsBlank(lines[i].text)
      && PrecededBy(lines, i, EqualsLine) && FollowedBy(lines, i, EqualsLine)
    ensures r == CaptionRole <==>
      lines[i].kind == TextLine && !IsBlank(lines[i].text)
      && !PrecededBy(lines, i, EqualsLine) && FollowedBy(lines, i, EqualsLine)
    ensures r == SubCaptionRole <==>
      lines[i].kind == TextLine && !IsBlank(lines[i].text) && FollowedBy(lines, i, MinusLine)
    ensures r == SubSubCaptionRole <==>
      lines[i].kind == TextLine && !IsBlank(lines[i].text) && FollowedBy(lines, i, DottedLine)
    ensures r == BodyRole <==>
      lines[i].kind == TextLine && (IsBlank(lines[i].text) || i + 1 == |lines| || lines[i + 1].kind == TextLine)
  {
    var line := lines[i];
    if line.kind != TextLine then RuleRole
    else
      var empty := |TrimSpace(line.text)| == 0;
      TrimSpaceEmpty(line.text);
      if !empty && PrecededBy(lines, i, EqualsLine) && FollowedBy(lines, i, EqualsLine) then TitleRole
      else if !empty && FollowedBy(lines, i, EqualsLine) then CaptionRole
      else if !empty && FollowedBy(lines, i, MinusLine) then SubCaptionRole
      else if !empty && FollowedBy(lines, i, DottedLine) then SubSubCaptionRole
      else BodyRole
  }

  /** The state `parseLines` carries from line to line: the document title,
      the parts emitted so far, and the index of the title line, or -1. */
  datatype LinesState = LinesState(title: string, parts: seq<DocPart>, titleLine: int)

  /** The line break `parseLines` emits after every body line but the
      last. */
  function LineBreak(lines: seq<CodeLine>, i: nat): seq<DocPart> {
    if i != |lines| - 1 then [Text("\n")] else []
  }

  /** One turn of `parseLines`' loop. A second title line is an error that
      names both lines by their position in the list (counted from 1); a
      body line whose markup crashes the source ends parsing too. */
  function LineStep(vars: VarTable, lines: seq<CodeLine>, i: nat, st: LinesState): (r: Result<LinesState, CompileError>)
    requires i < |lines|
    ensures r.Ok? && RoleOf(lines, i) == TitleRole ==> r.value.titleLine == i
    ensures r.Ok? && RoleOf(lines, i) != TitleRole ==> r.value.titleLine == st.titleLine && r.value.title == st.title
    ensures r.Err? ==>
      (RoleOf(lines, i) == TitleRole && st.titleLine != -1 && r.error == TitleRedefined(i + 1, st.titleLine + 1))
      || (RoleOf(lines, i) == BodyRole && r.error == SlicePanic(lines[i].number))
  {
    var text := lines[i].text;
    match RoleOf(lines, i)
    case RuleRole => Ok(st)
    case TitleRole =>
      if st.titleLine != -1 then Err(TitleRedefined(i + 1, st.titleLine + 1))
      else
        var title := Subst(vars, text);
        Ok(LinesState(title, st.parts + [Title(title)], i))
    case CaptionRole => Ok(st.(parts := st.parts + [Caption(Subst(vars, text))]))
    case SubCaptionRole => Ok(st.(parts := st.parts + [SubCaption(Subst(vars, text))]))
    case SubSubCaptionRole => Ok(st.(parts := st.parts + [SubSubCaption(Subst(vars, text))]))
    case BodyRole =>
      match LineParts(vars, text, lines[i].number)
      case None => Err(SlicePanic(lines[i].number))
      case Some(ps) => Ok(st.(parts := st.parts + ps + LineBreak(lines, i)))
  }

  /** `parseLines` from line `i` on. */
  function LinesFrom(vars: VarTable, lines: seq<CodeLine>, i: nat, st: LinesState): Result<LinesState, CompileError>
    requires i <= |lines|
    decreases |lines| - i
  {
    if i == |lines| then Ok(st)
    else
      match LineStep(vars, lines, i, st)
      case Err(e) => Err(e)
      case Ok(next) => LinesFrom(vars, lines, i + 1, next)
  }

  /** `parseLines` over all lines, starting from a document with the given
      title and parts. */
  function ParseLinesFrom(vars: VarTable, lines: seq<CodeLine>, title: string, parts: seq<DocPart>): Result<LinesState, CompileError> {
    LinesFrom(vars, lines, 0, LinesState(title, parts, -1))
  }

  /** What each kind of line adds to the document: a rule line nothing; a
      heading line one heading part whose text has its variables
      substituted but is never parsed for styles or references; a body
      line its inline parts, then a line break unless it is the last. */
  lemma {:induction false} LineStepParts(vars: VarTable, lines: seq<CodeLine>, i: nat, st: LinesState)
    requires i < |lines|
    ensures var r := LineStep(vars, lines, i, st);
      var heading := Subst(vars, lines[i].text);
      && (RoleOf(lines, i) == RuleRole ==> r == Ok(st))
      && (RoleOf(lines, i) == TitleRole && st.titleLine == -1 ==> r == Ok(LinesState(heading, st.parts + [Title(heading)], i)))
      && (RoleOf(lines, i) == CaptionRole ==> r == Ok(st.(parts := st.parts + [Caption(heading)])))
      && (RoleOf(lines, i) == SubCaptionRole ==> r == Ok(st.(parts := st.parts + [SubCaption(heading)])))
      && (RoleOf(lines, i) == SubSubCaptionRole ==> r == Ok(st.(parts := st.parts + [SubSubCaption(heading)])))
      && (RoleOf(lines, i) == BodyRole && LineParts(vars, lines[i].text, lines[i].number).Some? ==>
            r.Ok? && r.value.title == st.title && r.value.titleLine == st.titleLine
            && r.value.parts == st.parts + LineParts(vars, lines[i].text, lines[i].number).value
               + (if i + 1 < |lines| then [Text("\n")] else []))
  {
  }

  // ---------------------------------------------------------------------
  // There is at most one title.

  function TitleCount(parts: seq<DocPart>): nat
    decreases |parts|
  {
    if |parts| == 0 then 0
    else TitleCount(parts[..|parts| - 1]) + (if parts[|parts| - 1].Title? then 1 else 0)
  }

  lemma {:induction false} TitleCountAppend(a: seq<DocPart>, b: seq<DocPart>)
    ensures TitleCount(a + b) == TitleCount(a) + TitleCount(b)
    decreases |b|
  {
    if |b| == 0 {
      assert a + b == a;
    } else {
      assert (a + b)[..|a + b| - 1] == a + b[..|b| - 1];
      TitleCountAppend(a, b[..|b| - 1]);
    }
  }

  lemma {:induction false} TitleCountOneMore(parts: seq<DocPart>, p: DocPart)
    ensures TitleCount(parts + [p]) == TitleCount(parts) + (if p.Title? then 1 else 0)
  {
    assert (parts + [p])[..|parts|] == parts;
  }

  lemma {:induction false} TitleCountNone(parts: seq<DocPart>)
    requires forall k | 0 <= k < |parts| :: !parts[k].Title?
    ensures TitleCount(parts) == 0
    decreases |parts|
  {
    if |parts| > 0 {
      TitleCountNone(parts[..|parts| - 1]);
    }
  }

  /** What holds of the state after the lines before `i`: without a title
      line so far there is no title part; with one there is exactly one,
      made from that line, and no other line before `i` is a title line. */
  predicate TitleState(vars: VarTable, lines: seq<CodeLine>, i: nat, st: LinesState)
    requires i <= |lines|
  {
    (forall j | 0 <= j < i && j != st.titleLine :: RoleOf(lines, j) != TitleRole)
    && (st.titleLine == -1 ==> TitleCount(st.parts) == 0)
    && (st.titleLine != -1 ==>
      0 <= st.titleLine < i && RoleOf(lines, st.titleLine) == TitleRole
      && st.title == Subst(vars, lines[st.titleLine].text) && TitleCount(st.parts) == 1)
  }

  /** A line that is not a title line leaves the title, the title line and
      the number of title parts as they were. */
  lemma {:induction false} OtherStepKeepsTitle(vars: VarTable, lines: seq<CodeLine>, i: nat, st: LinesState)
    requires i < |lines| && RoleOf(lines, i) != TitleRole && LineStep(vars, lines, i, st).Ok?
    ensures var next := LineStep(vars, lines, i, st).value;
      next.title == st.title && next.titleLine == st.titleLine && TitleCount(next.parts) == TitleCount(st.parts)
  {
    var text := lines[i].text;
    match RoleOf(lines, i)
    case RuleRole =>
    case CaptionRole =>
      TitleCountOneMore(st.parts, Caption(Subst(vars, text)));
    case SubCaptionRole =>
      TitleCountOneMore(st.parts, SubCaption(Subst(vars, text)));
    case SubSubCaptionRole =>
      TitleCountOneMore(st.parts, SubSubCaption(Subst(vars, text)));
    case BodyRole =>
      var ps := LineParts(vars, text, lines[i].number).value;
      ScanKinds(vars, text, 0, lines[i].number);
      assert forall k | 0 <= k < |ps| :: !ps[k].Title?;
      assert forall k | 0 <= k < |LineBreak(lines, i)| :: !LineBreak(lines, i)[k].Title?;
      TitleCountNone(ps);
      TitleCountNone(LineBreak(lines, i));
      TitleCountAppend(st.parts, ps);
      TitleCountAppend(st.parts + ps, LineBreak(lines, i));
  }

  /** The title state survives a line that is not a title line. */
  lemma OtherStepTitle(vars: VarTable, lines: seq<CodeLine>, i: nat, st: LinesState, next: LinesState)
    requires i < |lines| && TitleState(vars, lines, i, st) && RoleOf(lines, i) != TitleRole
    requires next.title == st.title && next.titleLine == st.titleLine && TitleCount(next.parts) == TitleCount(st.parts)
    ensures TitleState(vars, lines, i + 1, next)
  {
  }

  /** The first title line starts the title state. */
  lemma FirstTitleStep(vars: VarTable, lines: seq<CodeLine>, i: nat, st: LinesState)
    requires i < |lines| && TitleState(vars, lines, i, st) && RoleOf(lines, i) == TitleRole && st.titleLine == -1
    ensures var title := Subst(vars, lines[i].text);
      LineStep(vars, lines, i, st) == Ok(LinesState(title, st.parts + [Title(title)], i))
      && TitleState(vars, lines, i + 1, LinesState(title, st.parts + [Title(title)], i))
  {
    var title := Subst(vars, lines[i].text);
    TitleCountOneMore(st.parts, Title(title));
  }

  /** One line keeps the title state. */
  lemma LineStepTitle(vars: VarTable, lines: seq<CodeLine>, i: nat, st: LinesState)
    requires i < |lines| && TitleState(vars, lines, i, st) && LineStep(vars, lines, i, st).Ok?
    ensures TitleState(vars, lines, i + 1, LineStep(vars, lines, i, st).value)
  {
    if RoleOf(lines, i) == TitleRole {
      FirstTitleStep(vars, lines, i, st);
    } else {
      OtherStepKeepsTitle(vars, lines, i, st);
      OtherStepTitle(vars, lines, i, st, LineStep(vars, lines, i, st).value);
    }
  }

  lemma {:induction false} LinesFromTitle(vars: VarTable, lines: seq<CodeLine>, i: nat, st: LinesState)
    requires i <= |lines| && TitleState(vars, lines, i, st) && LinesFrom(vars, lines, i, st).Ok?
    ensures TitleState(vars, lines, |lines|, LinesFrom(vars, lines, i, st).value)
    decreases |lines| - i
  {
    if i < |lines| {
      LineStepTitle(vars, lines, i, st);
      LinesFromTitle(vars, lines, i + 1, LineStep(vars, lines, i, st).value);
    }
  }

  /** A parsed document has at most one title part. When no line is a
      title line it has none and its title stays as it was; otherwise the
      title is the one title line with its variables replaced, and it is
      also the one title part. */
  lemma {:induction false} AtMostOneTitle(vars: VarTable, lines: seq<CodeLine>, title: string, parts: seq<DocPart>)
    requires forall k | 0 <= k < |parts| :: !parts[k].Title?
    ensures var r := ParseLinesFrom(vars, lines, title, parts);
      r.Ok? ==>
        TitleCount(r.value.parts) <= 1
        && ((forall j | 0 <= j < |lines| :: RoleOf(lines, j) != TitleRole) <==> TitleCount(r.value.parts) == 0)
        && (TitleCount(r.value.parts) == 0 ==> r.value.title == title)
        && (TitleCount(r.value.parts) == 1 ==>
          exists j | 0 <= j < |lines| :: RoleOf(lines, j) == TitleRole && r.value.title == Subst(vars, lines[j].text))
  {
    var st := LinesState(title, parts, -1);
    TitleCountNone(parts);
    var r := ParseLinesFrom(vars, lines, title, parts);
    if r.Ok? {
      LinesFromTitle(vars, lines, 0, st);
      TitleKept(vars, lines, 0, st);
    }
  }

  /** The title changes only together with the title line. */
  lemma {:induction false} TitleKept(vars: VarTable, lines: seq<CodeLine>, i: nat, st: LinesState)
    requires i <= |lines| && TitleState(vars, lines, i, st) && LinesFrom(vars, lines, i, st).Ok?
    ensures var r := LinesFrom(vars, lines, i, st).value;
      (r.titleLine == -1 ==> r.title == st.title) && (st.titleLine != -1 ==> r.titleLine == st.titleLine)
    decreases |lines| - i
  {
    if i < |lines| {
      var next := LineStep(vars, lines, i, st).value;
      LineStepTitle(vars, lines, i, st);
      TitleKept(vars, lines, i + 1, next);
    }
  }

  /** A second title line stops parsing with an error that names it and
      the first title line, both counted from 1. */
  lemma {:induction false} TitleRedefinedNamesBoth(vars: VarTable, lines: seq<CodeLine>, i: nat, st: LinesState, l: int, f: int)
    requires i <= |lines| && TitleState(vars, lines, i, st)
    requires LinesFrom(vars, lines, i, st) == Err(TitleRedefined(l, f))
    ensures 1 <= f < l <= |lines|
    ensures RoleOf(lines, f - 1) == TitleRole && RoleOf(lines, l - 1) == TitleRole
    ensures forall j | 0 <= j < l - 1 && j != f - 1 :: RoleOf(lines, j) != TitleRole
    decreases |lines| - i
  {
    if i < |lines| {
      var step := LineStep(vars, lines, i, st);
      if step.Ok? {
        LineStepTitle(vars, lines, i, st);
        TitleRedefinedNamesBoth(vars, lines, i + 1, step.value, l, f);
      }
    }
  }

  /** Every body line before line `l` parses without the slice panic. */
  predicate NoCrashBefore(vars: VarTable, lines: seq<CodeLine>, l: nat)
    requires l <= |lines|
  {
    forall j | 0 <= j < l && RoleOf(lines, j) == BodyRole :: LineParts(vars, lines[j].text, lines[j].number).Some?
  }

  /** Once a title line has been seen, parsing reaches the next title line
      and stops there, naming it and the first one. */
  lemma {:induction false} ReachSecondTitle(vars: VarTable, lines: seq<CodeLine>, i: nat, st: LinesState, l: nat)
    requires i <= l < |lines| && st.titleLine >= 0 && RoleOf(lines, l) == TitleRole
    requires forall j | i <= j < l :: RoleOf(lines, j) != TitleRole
    requires NoCrashBefore(vars, lines, l)
    ensures LinesFrom(vars, lines, i, st) == Err(TitleRedefined(l + 1, st.titleLine + 1))
    decreases l - i
  {
    if i < l {
      var step := LineStep(vars, lines, i, st);
      assert step.Ok?;
      ReachSecondTitle(vars, lines, i + 1, step.value, l);
    }
  }

  /** Before any title line, parsing reaches the first title line `f`,
      goes on to the second one `l`, and stops there. */
  lemma {:induction false} ReachFirstTitle(vars: VarTable, lines: seq<CodeLine>, i: nat, st: LinesState, f: nat, l: nat)
    requires i <= f < l < |lines| && st.titleLine == -1
    requires RoleOf(lines, f) == TitleRole && RoleOf(lines, l) == TitleRole
    requires forall j | i <= j < l && j != f :: RoleOf(lines, j) != TitleRole
    requires NoCrashBefore(vars, lines, l)
    ensures LinesFrom(vars, lines, i, st) == Err(TitleRedefined(l + 1, f + 1))
    decreases f - i
  {
    var step := LineStep(vars, lines, i, st);
    assert step.Ok?;
    if i < f {
      ReachFirstTitle(vars, lines, i + 1, step.value, f, l);
    } else {
      ReachSecondTitle(vars, lines, f + 1, step.value, l);
    }
  }

  /** Two title lines make parsing fail, whatever else the lines hold. */
  lemma TwoTitlesFail(vars: VarTable, lines: seq<CodeLine>, title: string, parts: seq<DocPart>, f: nat, l: nat)
    requires f < l < |lines| && RoleOf(lines, f) == TitleRole && RoleOf(lines, l) == TitleRole
    requires forall k | 0 <= k < |parts| :: !parts[k].Title?
    ensures ParseLinesFrom(vars, lines, title, parts).Err?
  {
    var st := LinesState(title, parts, -1);
    TitleCountNone(parts);
    if LinesFrom(vars, lines, 0, st).Ok? {
      LinesFromTitle(vars, lines, 0, st);
    }
  }

  /** When `f` and `l` are the first two title lines and no body line
      before `l` crashes, parsing fails with the error that names line
      `l + 1` as the second title and line `f + 1` as the first. */
  lemma SecondTitleFails(vars: VarTable, lines: seq<CodeLine>, title: string, parts: seq<DocPart>, f: nat, l: nat)
    requires f < l < |lines| && RoleOf(lines, f) == TitleRole && RoleOf(lines, l) == TitleRole
    requires forall j | 0 <= j < l && j != f :: RoleOf(lines, j) != TitleRole
    requires NoCrashBefore(vars, lines, l)
    ensures ParseLinesFrom(vars, lines, title, parts) == Err(TitleRedefined(l + 1, f + 1))
  {
    ReachFirstTitle(vars, lines, 0, LinesState(title, parts, -1), f, l);
  }

  // ---------------------------------------------------------------------
  // Lines without markup.

  /** The parts a run of plain body lines produces from line `i` on. */
  function PlainFrom(lines: seq<CodeLine>, i: nat): (r: seq<DocPart>)
    requires i <= |lines|
    ensures forall k | 0 <= k < |r| :: r[k].Text?
    decreases |lines| - i
  {
    if i == |lines| then []
    else TextParts(lines[i].text) + LineBreak(lines, i) + PlainFrom(lines, i + 1)
  }

  /** Every line is a text line whose content has no inline markup. */
  predicate PlainLines(lines: seq<CodeLine>) {
    forall k | 0 <= k < |lines| :: lines[k].kind == TextLine && NoMarkupChar(lines[k].text)
  }

  /** Lines without rules and markup become their texts with a line break
      between each two. */
  lemma {:induction false} PlainLinesFrom(vars: VarTable, lines: seq<CodeLine>, i: nat, st: LinesState)
    requires i <= |lines| && PlainLines(lines)
    ensures LinesFrom(vars, lines, i, st) == Ok(st.(parts := st.parts + PlainFrom(lines, i)))
    decreases |lines| - i
  {
    if i == |lines| {
      assert st.parts + [] == st.parts;
    } else {
      assert RoleOf(lines, i) == BodyRole;
      PlainLine(vars, lines[i].text, lines[i].number);
      var next := st.(parts := st.parts + TextParts(lines[i].text) + LineBreak(lines, i));
      assert LineStep(vars, lines, i, st) == Ok(next);
      PlainLinesFrom(vars, lines, i + 1, next);
      var t, b := TextParts(lines[i].text), LineBreak(lines, i);
      ConcatAssoc(st.parts, t, b);
      ConcatAssoc(st.parts, t + b, PlainFrom(lines, i + 1));
    }
  }
}
