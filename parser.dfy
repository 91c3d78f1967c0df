/**
 * The parser object of the compiler (`parser` in parser.go) and the whole
 * of `parse`: unify line breaks, cut the input into lines, take out the
 * variable definitions, parse the remaining lines, merge neighbouring text
 * parts and, when nothing failed, resolve the references.
 *
 * Each method works on the parser's fields step by step as the source
 * does and is proved against the specification functions of the other
 * modules; `Compile` puts those together.
 */
module Parser {
  import opened Wrappers
  import opened Strings
  import opened Document
  import opened Lines
  import opened Errors
  import opened Variables
  import opened Substitution
  import opened Inline
  import opened LineParsing
  import opened Simplify
  import opened Resolve

  /** What `parse` leaves in the parser before references are resolved. */
  function Parsed(code: string): Result<Document, CompileError> {
    var lines := LinesOf(UnifyLineBreaks(code));
    match ExtractVariables(lines)
    case Err(e) => Err(e)
    case Ok((body, vars)) =>
      match ParseLinesFrom(vars, body, "", [])
      case Err(e) => Err(e)
      case Ok(st) => Ok(Document(st.title, Coalesce(st.parts)))
  }

  /** What `parse` returns: the document, or the first error. */
  function Compile(code: string, parseAddress: string -> Option<string>): Result<Document, CompileError> {
    match Parsed(code)
    case Err(e) => Err(e)
    case Ok(doc) =>
      match Resolve.Resolve(doc.parts, parseAddress)
      case Err(e) => Err(e)
      case Ok(parts) => Ok(doc.(parts := parts))
  }

  /** The insertion loop's state: the parts before index `i` are final, and
      the rest is still to be processed. */
  function Glue(done: seq<DocPart>, r: (seq<DocPart>, Targets)): (seq<DocPart>, Targets) {
    (done + r.0, r.1)
  }

  /** What `parseLine` has emitted once it is done with the line, having
      emitted `acc` before reaching index `i`; the form of `Scan` that the
      loop follows. */
  function ScanAcc(vars: VarTable, line: string, i: nat, n: int, acc: seq<DocPart>): Option<seq<DocPart>>
    requires i <= |line|
    decreases |line|, |line| - i
  {
    if i == |line| then Some(if |line| > 0 then acc + [Text(line)] else acc)
    else
      match MarkupAt(vars, line, i, n)
      case NoMarkup => ScanAcc(vars, line, i + 1, n, acc)
      case Crash => None
      case Found(part, rest) => ScanAcc(vars, rest, 0, n, acc + Before(line, i) + [part])
  }

  /** The accumulating scan is the scan appended to what came before. */
  lemma {:induction false} ScanAccThen(vars: VarTable, line: string, i: nat, n: int, acc: seq<DocPart>)
    requires i <= |line|
    ensures ScanAcc(vars, line, i, n, acc) == Then(acc, Scan(vars, line, i, n))
    decreases |line|, |line| - i
  {
    if i < |line| {
      var m := MarkupAt(vars, line, i, n);
      if m.NoMarkup? {
        ScanAccThen(vars, line, i + 1, n, acc);
        assert ScanAcc(vars, line, i, n, acc) == ScanAcc(vars, line, i + 1, n, acc);
        assert Scan(vars, line, i, n) == Scan(vars, line, i + 1, n);
      } else if m.Found? {
        ScanAccThen(vars, m.rest, 0, n, acc + Before(line, i) + [m.part]);
        ScanFoundAfter(vars, line, i, n, acc);
        assert ScanAcc(vars, line, i, n, acc) == ScanAcc(vars, m.rest, 0, n, acc + Before(line, i) + [m.part]);
      }
    } else {
      assert acc + [] == acc;
    }
  }

  lemma ThenAppend(a: seq<DocPart>, b: seq<DocPart>, more: Option<seq<DocPart>>)
    ensures Then(a + b, more) == Then(a, Then(b, more))
  {
    if more.Some? {
      assert (a + b) + more.value == a + (b + more.value);
    }
  }

  /** Markup at index `i` of a line: the text before it and its part
      follow what was emitted so far, and the scan restarts after it. */
  lemma {:induction false} ScanFoundAfter(vars: VarTable, line: string, i: nat, n: int, done: seq<DocPart>)
    requires i < |line| && MarkupAt(vars, line, i, n).Found?
    ensures var m := MarkupAt(vars, line, i, n);
      Then(done, Scan(vars, line, i, n)) == Then(done + Before(line, i) + [m.part], Scan(vars, m.rest, 0, n))
  {
    var m := MarkupAt(vars, line, i, n);
    ScanFound(vars, line, i, n);
    ThenAppend(done, Before(line, i) + [m.part], Scan(vars, m.rest, 0, n));
    ConcatAssoc(done, Before(line, i), [m.part]);
  }

  /** The merge loop of `simplifyDoc` on the part list: a text part after
      a text part is appended to it and removed, and the index steps back
      so that the merged part is looked at again. */
  method MergeTexts(orig: seq<DocPart>) returns (parts: seq<DocPart>)
    ensures parts == Coalesce(orig)
  {
    parts := orig;
    ghost var k := if |orig| == 0 then 0 else 1;
    ghost var acc := Coalesce(orig[..k]);
    if |orig| > 0 {
      assert orig[..1] == [] + [orig[0]];
    }
    var i := 0;
    while i < |parts| - 1
      invariant 0 <= k <= |orig| && acc == Coalesce(orig[..k])
      invariant |orig| == 0 ==> parts == []
      invariant |orig| > 0 ==> 1 <= k && parts == acc + orig[k..] && i == |acc| - 1
      decreases |orig| - k
    {
      if parts[i].Text? && parts[i + 1].Text? {
        SimplifyMerged(orig, k, parts, i);
        var a, b := parts[i], parts[i + 1];
        parts := parts[i := Text(a.text + b.text)];
        parts := parts[..i + 1] + parts[i + 2..];
        // The source steps back with `i--`, so that the next round looks
        // at the merged part again: `i` stays.
      } else {
        SimplifyKept(orig, k, parts, i);
        i := i + 1;
      }
      k := k + 1;
      acc := Coalesce(orig[..k]);
    }
    if |orig| > 0 {
      assert orig[..k] == orig;
    }
  }

  /** The simplified prefix after one more part, when that part is a text
      merged into the text before it. */
  lemma SimplifyMerged(orig: seq<DocPart>, k: nat, parts: seq<DocPart>, i: nat)
    requires 1 <= k < |orig|
    requires parts == Coalesce(orig[..k]) + orig[k..] && i == |Coalesce(orig[..k])| - 1
    requires parts[i].Text? && parts[i + 1].Text?
    ensures var merged := parts[i := Text(parts[i].text + parts[i + 1].text)];
      merged[..i + 1] + merged[i + 2..] == Coalesce(orig[..k + 1]) + orig[k + 1..]
      && i == |Coalesce(orig[..k + 1])| - 1
  {
    var acc := Coalesce(orig[..k]);
    CoalesceStep(orig, k);
    assert parts[i] == acc[i] && parts[i + 1] == orig[k];
    assert Coalesce(orig[..k + 1]) == acc[..i] + [Text(acc[i].text + orig[k].text)];
    MergeAt(acc, orig[k..], Text(parts[i].text + parts[i + 1].text));
    assert orig[k..][1..] == orig[k + 1..];
  }

  /** Replacing the last element of `acc` in `acc + rest` and dropping the
      element after it. */
  lemma MergeAt(acc: seq<DocPart>, rest: seq<DocPart>, t: DocPart)
    requires |acc| > 0 && |rest| > 0
    ensures var i := |acc| - 1; var m := (acc + rest)[i := t];
      m[..i + 1] + m[i + 2..] == acc[..i] + [t] + rest[1..]
  {
    var i := |acc| - 1;
    var m := (acc + rest)[i := t];
    assert m[..i + 1] == acc[..i] + [t];
    assert m[i + 2..] == rest[1..];
  }

  /** The simplified prefix after one more part, when it is kept as it is. */
  lemma SimplifyKept(orig: seq<DocPart>, k: nat, parts: seq<DocPart>, i: nat)
    requires 1 <= k < |orig|
    requires parts == Coalesce(orig[..k]) + orig[k..] && i == |Coalesce(orig[..k])| - 1
    requires !(parts[i].Text? && parts[i + 1].Text?)
    ensures parts == Coalesce(orig[..k + 1]) + orig[k + 1..] && i + 1 == |Coalesce(orig[..k + 1])| - 1
  {
    var acc := Coalesce(orig[..k]);
    CoalesceStep(orig, k);
    assert parts[i] == acc[i] && parts[i + 1] == orig[k];
    assert Coalesce(orig[..k + 1]) == acc + [orig[k]];
    assert orig[k..] == [orig[k]] + orig[k + 1..];
    ConcatAssoc(acc, [orig[k]], orig[k + 1..]);
  }

  lemma GlueNothing(r: (seq<DocPart>, Targets))
    ensures Glue([], r) == r
  {
    assert [] + r.0 == r.0;
  }

  /** The insertion loop steps over a heading that is referenced: an anchor
      goes in front of it. */
  lemma {:induction false} InsertAnchorStep(parts: seq<DocPart>, i: nat, referenced: set<string>, targets: Targets)
    requires i < |parts| && IsHeading(parts[i]) && HeadingText(parts[i]) in referenced
    ensures var id := |targets| + 1;
      var next := parts[..i] + [LinkTarget(id)] + parts[i..];
      Glue(parts[..i], InsertFrom(parts[i..], referenced, targets))
        == Glue(next[..i + 2], InsertFrom(next[i + 2..], referenced, targets[HeadingText(parts[i]) := id]))
  {
    var id := |targets| + 1;
    var p := parts[i];
    var next := parts[..i] + [LinkTarget(id)] + parts[i..];
    var t := targets[HeadingText(p) := id];
    assert parts[i..][0] == p && parts[i..][1..] == parts[i + 1..];
    assert next[..i + 2] == parts[..i] + [LinkTarget(id), p];
    assert next[i + 2..] == parts[i + 1..];
    var r := InsertFrom(parts[i + 1..], referenced, t);
    assert InsertFrom(parts[i..], referenced, targets) == ([LinkTarget(id), p] + r.0, r.1);
    ConcatAssoc(parts[..i], [LinkTarget(id), p], r.0);
  }

  /** The insertion loop steps over any other part. */
  lemma {:induction false} InsertOtherStep(parts: seq<DocPart>, i: nat, referenced: set<string>, targets: Targets)
    requires i < |parts| && !(IsHeading(parts[i]) && HeadingText(parts[i]) in referenced)
    ensures Glue(parts[..i], InsertFrom(parts[i..], referenced, targets))
      == Glue(parts[..i + 1], InsertFrom(parts[i + 1..], referenced, targets))
  {
    var p := parts[i];
    assert parts[i..][0] == p && parts[i..][1..] == parts[i + 1..];
    var r := InsertFrom(parts[i + 1..], referenced, targets);
    assert InsertFrom(parts[i..], referenced, targets) == ([p] + r.0, r.1);
    assert parts[..i + 1] == parts[..i] + [p];
    ConcatAssoc(parts[..i], [p], r.0);
  }

  class Parser {
    var doc: Document
    var err: Option<CompileError>
    var code: string
    var vars: VarTable

    constructor (code: string)
      ensures this.code == code && doc == Document("", []) && err == None && vars == map[]
    {
      this.code := code;
      doc := Document("", []);
      err := None;
      vars := map[];
    }

    /** `emit`: appends a part to the document. */
    method Emit(part: DocPart)
      modifies this
      ensures doc == Document(old(doc.title), old(doc.parts) + [part])
      ensures err == old(err) && code == old(code) && vars == old(vars)
    {
      doc := doc.(parts := doc.parts + [part]);
    }

    /** `replaceVars`: replaces the first defined `[name]` again and again,
        each time searching only what follows the inserted value. */
    method ReplaceVars(text: string) returns (result: string)
      ensures result == Subst(vars, text)
    {
      result := "";
      var rest := text;
      var found := true;
      while found
        invariant result + Subst(vars, rest) == Subst(vars, text)
        invariant !found ==> Subst(vars, rest) == rest
        decreases |rest|
      {
        var next: nat;
        SubstStep(vars, rest);
        var r := ReplaceFirstVar(vars, rest);
        rest, found, next := r.0, r.1, r.2;
        if !found {
          break;
        }
        assert result + rest[..next] + Subst(vars, rest[next..]) == result + (rest[..next] + Subst(vars, rest[next..]));
        result := result + rest[..next];
        rest := rest[next..];
      }
      result := result + rest;
    }

    /** The `if i > 0` emit in both cases of `parseLine`'s `switch`: the
        text before index `i`, if any. */
    method EmitBefore(line: string, i: nat)
      requires i <= |line|
      modifies this
      ensures doc == Document(old(doc.title), old(doc.parts) + Before(line, i))
      ensures err == old(err) && code == old(code) && vars == old(vars)
    {
      if i > 0 {
        Emit(Text(line[..i]));
      } else {
        assert doc.parts + [] == doc.parts;
      }
    }

    /** The end of a style span in `parseLine`: its text with the
        variables replaced, as a styled part. */
    method EmitStyled(text: string, bold: bool, italic: bool)
      modifies this
      ensures doc == Document(old(doc.title), old(doc.parts) + [Styled(Subst(vars, text), bold, italic)])
      ensures err == old(err) && code == old(code) && vars == old(vars)
    {
      var replaced := ReplaceVars(text);
      Emit(Styled(replaced, bold, italic));
    }

    /** The `'*', '/'` case of `parseLine`'s `switch`: a style span that
        starts at index `i` is emitted after the text before it. */
    method ParseStyleAt(line: string, i: nat) returns (found: bool, crashed: bool, rest: string)
      requires i < |line| && (line[i] == '*' || line[i] == '/')
      modifies this
      ensures code == old(code) && vars == old(vars) && doc.title == old(doc.title) && err == old(err)
      ensures var m := StyleMarkup(vars, line, i);
        found == m.Found? && crashed == m.Crash?
        && (m.NoMarkup? ==> doc.parts == old(doc.parts))
        && (m.Found? ==> rest == m.rest && doc.parts == old(doc.parts) + Before(line, i) + [m.part])
    {
      found, crashed, rest := false, false, line;
      var delim := line[i];
      if i + 1 < |line| && !IsSpace(line[i + 1]) {
        var end := FindStyleEnd(line[i + 1..], delim);
        if end != -1 {
          end := end + i + 1;
          StyleClosed(vars, line, i, end);
          crashed := EmitSpan(line, i, end);
          if !crashed {
            found, rest := true, line[end..];
          }
        } else {
          StyleUnclosed(vars, line, i);
        }
      } else {
        StyleUnclosed(vars, line, i);
      }
    }

    /** A closed style span in `parseLine`: the text before it, then its
        interior unwrapped into text and flags, with the variables
        replaced. */
    method EmitSpan(line: string, i: nat, end: nat) returns (crashed: bool)
      requires i + 2 <= end <= |line| && (line[i] == '*' || line[i] == '/')
      modifies this
      ensures code == old(code) && vars == old(vars) && doc.title == old(doc.title) && err == old(err)
      ensures var m := StyleSpan(vars, line, i, end);
        crashed == m.Crash? && (m.Found? ==> doc.parts == old(doc.parts) + Before(line, i) + [m.part])
    {
      EmitBefore(line, i);
      var style := StyleOf(line[i], line[i + 1..end - 1]);
      if style.None? {
        StyleSpanCrash(vars, line, i, end, line[i + 1..end - 1]);
        // The source slices out of range here and panics.
        return true;
      }
      StyleSpanOf(vars, line, i, end, line[i], line[i + 1..end - 1], line[end..]);
      EmitStyled(style.value.0, style.value.1, style.value.2);
      crashed := false;
    }

    /** The `'['` case of `parseLine`'s `switch`: a reference that starts
        at index `i` is emitted after the text before it, as what it
        stands for. */
    method ParseRefAt(line: string, i: nat, n: int) returns (found: bool, rest: string)
      requires i < |line| && line[i] == '['
      modifies this
      ensures code == old(code) && vars == old(vars) && doc.title == old(doc.title) && err == old(err)
      ensures var m := RefMarkup(vars, line, i, n);
        found == m.Found? && (m.NoMarkup? ==> doc.parts == old(doc.parts))
        && (m.Found? ==> rest == m.rest && doc.parts == old(doc.parts) + Before(line, i) + [m.part])
    {
      found, rest := false, line;
      var r := FindRefEnd(line[i + 1..]);
      if r.found {
        EmitBefore(line, i);
        Emit(RefPart(vars, r.ref, r.subRef, n));
        found, rest := true, r.rest;
      }
    }

    /** The `switch` in `parseLine`'s loop, at index `i` of what is left
        of the line: a style span or a bracket reference starting there is
        emitted after the text before it, and what follows it is returned. */
    method ParseMarkupAt(line: string, i: nat, n: int) returns (found: bool, crashed: bool, rest: string)
      requires i < |line|
      modifies this
      ensures code == old(code) && vars == old(vars) && doc.title == old(doc.title) && err == old(err)
      ensures match MarkupAt(vars, line, i, n)
        case NoMarkup => !found && !crashed && doc.parts == old(doc.parts)
        case Crash => crashed
        case Found(part, after) =>
          found && !crashed && rest == after && doc.parts == old(doc.parts) + Before(line, i) + [part]
    {
      found, crashed, rest := false, false, line;
      var c := line[i];
      if c == '*' || c == '/' {
        found, crashed, rest := ParseStyleAt(line, i);
      } else if c == '[' {
        found, rest := ParseRefAt(line, i, n);
      }
    }

    /** `parseLine`: scans one line for markup, emitting the text before
        each span or reference and then the span or reference itself, and
        the text after the last one. */
    method ParseLine(text: string, n: int)
      modifies this
      ensures code == old(code) && vars == old(vars) && doc.title == old(doc.title)
      ensures LineParts(vars, text, n).Some? ==>
        doc.parts == old(doc.parts) + LineParts(vars, text, n).value && err == old(err)
      ensures LineParts(vars, text, n).None? ==> err == Some(SlicePanic(n))
    {
      ScanAccThen(vars, text, 0, n, doc.parts);
      if |text| == 0 {
        assert doc.parts + [] == doc.parts;
        return;
      }
      var line := text;
      var i := 0;
      while i < |line|
        invariant 0 <= i <= |line|
        invariant code == old(code) && vars == old(vars) && doc.title == old(doc.title) && err == old(err)
        invariant ScanAcc(vars, line, i, n, doc.parts) == ScanAcc(vars, text, 0, n, old(doc.parts))
        decreases |line|, |line| - i
      {
        var found, crashed, rest := ParseMarkupAt(line, i, n);
        if crashed {
          err := Some(SlicePanic(n));
          return;
        }
        if found {
          i, line := 0, rest;
        } else {
          i := i + 1;
        }
      }
      if |line| > 0 {
        Emit(Text(line));
      }
    }

    /** `parseLines`: the title, the headings, and the body lines with a
        line break after each but the last. A crash in a body line ends
        parsing, as the source's panic would. */
    method ParseLines(lines: seq<CodeLine>)
      requires err == None
      modifies this
      ensures code == old(code) && vars == old(vars)
      ensures match ParseLinesFrom(vars, lines, old(doc.title), old(doc.parts))
        case Ok(st) => doc == Document(st.title, st.parts) && err == None
        case Err(e) => err == Some(e)
    {
      var titleLine := -1;
      for i := 0 to |lines|
        invariant code == old(code) && vars == old(vars) && err == None
        invariant ParseLinesFrom(vars, lines, old(doc.title), old(doc.parts))
          == LinesFrom(vars, lines, i, LinesState(doc.title, doc.parts, titleLine))
      {
        ghost var st := LinesState(doc.title, doc.parts, titleLine);
        var line := lines[i];
        if line.kind == TextLine {
          var empty := |TrimSpace(line.text)| == 0;
          var precededByEqualsLine := i > 0 && lines[i - 1].kind == EqualsLine;
          var followedByEqualsLine := i + 1 < |lines| && lines[i + 1].kind == EqualsLine;
          var followedByMinusLine := i + 1 < |lines| && lines[i + 1].kind == MinusLine;
          var followedByDottedLine := i + 1 < |lines| && lines[i + 1].kind == DottedLine;
          if !empty && precededByEqualsLine && followedByEqualsLine {
            assert RoleOf(lines, i) == TitleRole;
            if titleLine != -1 {
              err := Some(TitleRedefined(i + 1, titleLine + 1));
              return;
            }
            titleLine := i;
            var title := ReplaceVars(line.text);
            doc := doc.(title := title);
            Emit(Title(doc.title));
          } else if !empty && followedByEqualsLine {
            assert RoleOf(lines, i) == CaptionRole;
            var caption := ReplaceVars(line.text);
            Emit(Caption(caption));
          } else if !empty && followedByMinusLine {
            assert RoleOf(lines, i) == SubCaptionRole;
            var caption := ReplaceVars(line.text);
            Emit(SubCaption(caption));
          } else if !empty && followedByDottedLine {
            assert RoleOf(lines, i) == SubSubCaptionRole;
            var caption := ReplaceVars(line.text);
            Emit(SubSubCaption(caption));
          } else {
            assert RoleOf(lines, i) == BodyRole;
            ParseLine(line.text, line.number);
            if err.Some? {
              return;
            }
            if i != |lines| - 1 {
              Emit(Text("\n"));
            }
            assert doc.parts == st.parts + LineParts(vars, line.text, line.number).value + LineBreak(lines, i);
          }
        }
      }
    }

    /** `simplifyDoc`: merges each text part into a text part before it,
        moving left to right. The loop works on the part list, which is
        written back at the end. */
    method SimplifyDoc()
      modifies this
      ensures doc == Document(old(doc.title), Coalesce(old(doc.parts)))
      ensures err == old(err) && code == old(code) && vars == old(vars)
    {
      var parts := MergeTexts(doc.parts);
      doc := doc.(parts := parts);
    }

    /** The first phase of `resolveRefs`: the texts that references still
        to be resolved point to. */
    method FindReferenced() returns (referenced: set<string>)
      ensures referenced == Referenced(doc.parts)
    {
      referenced := {};
      for k := 0 to |doc.parts|
        invariant referenced == set j | 0 <= j < k && doc.parts[j].TempRef? :: doc.parts[j].target
      {
        if doc.parts[k].TempRef? {
          referenced := referenced + {doc.parts[k].target};
        }
      }
    }

    /** The second phase of `resolveRefs`: an anchor in front of every
        heading whose text is referenced, numbered as the texts get ids. */
    method AddTargets(referenced: set<string>) returns (targets: Targets)
      modifies this
      ensures InsertFrom(old(doc.parts), referenced, map[]) == (doc.parts, targets)
      ensures doc.title == old(doc.title) && err == old(err) && code == old(code) && vars == old(vars)
    {
      var parts := doc.parts;
      targets := map[];
      var i := 0;
      assert parts[..0] == [] && parts[0..] == parts;
      GlueNothing(InsertFrom(parts, referenced, targets));
      while i < |parts|
        invariant 0 <= i <= |parts|
        invariant doc == old(doc) && err == old(err) && code == old(code) && vars == old(vars)
        invariant InsertFrom(old(doc.parts), referenced, map[]) == Glue(parts[..i], InsertFrom(parts[i..], referenced, targets))
        decreases |parts| - i
      {
        var part := parts[i];
        if IsHeading(part) && HeadingText(part) in referenced {
          InsertAnchorStep(parts, i, referenced, targets);
          var id := |targets| + 1;
          targets := targets[HeadingText(part) := id];
          parts := parts[..i] + [LinkTarget(id)] + parts[i..];
          i := i + 1;
        } else {
          InsertOtherStep(parts, i, referenced, targets);
        }
        i := i + 1;
      }
      assert parts[i..] == [] && parts[..i] == parts;
      assert parts + [] == parts;
      doc := doc.(parts := parts);
    }

    /** The third phase of `resolveRefs`: every reference replaced by what
        it resolves to, in order, stopping at the first that does not
        resolve. */
    method ReplaceRefs(targets: Targets, parseAddress: string -> Option<string>)
      requires err == None
      modifies this
      ensures doc.title == old(doc.title) && code == old(code) && vars == old(vars)
      ensures match Rewrite(old(doc.parts), targets, parseAddress)
        case Ok(parts) => doc.parts == parts && err == None
        case Err(e) => err == Some(e)
    {
      var parts := doc.parts;
      for k := 0 to |parts|
        invariant |parts| == |old(doc.parts)|
        invariant forall j | k <= j < |parts| :: parts[j] == old(doc.parts)[j]
        invariant forall j | 0 <= j < k :: ResolvePart(old(doc.parts)[j], targets, parseAddress) == Ok(parts[j])
      {
        var part := parts[k];
        if part.TempRef? {
          var resolved := ResolvePart(part, targets, parseAddress);
          if resolved.Err? {
            RewriteFirstErr(old(doc.parts), k, targets, parseAddress);
            err := Some(resolved.error);
            return;
          }
          parts := parts[k := resolved.value];
        }
      }
      RewriteAllOk(old(doc.parts), parts, targets, parseAddress);
      doc := doc.(parts := parts);
    }

    /** `resolveRefs`: its three phases in turn. */
    method ResolveRefs(parseAddress: string -> Option<string>)
      requires err == None
      modifies this
      ensures code == old(code) && vars == old(vars) && doc.title == old(doc.title)
      ensures match Resolve.Resolve(old(doc.parts), parseAddress)
        case Ok(parts) => doc.parts == parts && err == None
        case Err(e) => err == Some(e)
    {
      var referenced := FindReferenced();
      var targets := AddTargets(referenced);
      ReplaceRefs(targets, parseAddress);
    }

    /** `parse` on a fresh parser: every stage in turn, stopping at the first
        error. */
    method ParseCode()
      requires doc == Document("", []) && err == None
      modifies this
      ensures match Parsed(old(code))
        case Ok(d) => doc == d && err == None
        case Err(e) => err == Some(e)
    {
      ghost var source := code;
      code := UnifyLineBreaks(code);
      var lines := ExtractCodeLines(code);
      var extracted := ExtractVariableDefinitions(lines);
      if extracted.Err? {
        err := Some(extracted.error);
        return;
      }
      lines, vars := extracted.value.0, extracted.value.1;
      ParseLines(lines);
      if err.Some? {
        return;
      }
      SimplifyDoc();
    }
  }

  /** `parse`: the document, or the error that stopped the compiler. */
  method Parse(code: string, parseAddress: string -> Option<string>) returns (doc: Document, err: Option<CompileError>)
    ensures match Compile(code, parseAddress)
      case Ok(d) => doc == d && err == None
      case Err(e) => err == Some(e)
  {
    var p := new Parser(code);
    p.ParseCode();
    if p.err == None {
      p.ResolveRefs(parseAddress);
    }
    return p.doc, p.err;
  }

  // ---------------------------------------------------------------------
  // Plain text.

  /** The text of the parts plain lines produce is the lines joined with
      line breaks. */
  lemma {:induction false} PlainFromText(lines: seq<CodeLine>, i: nat)
    requires i < |lines|
    ensures AllText(PlainFrom(lines, i)) == Join(Texts(lines)[i..], "\n")
    decreases |lines| - i
  {
    var t := lines[i].text;
    var first := TextParts(t) + LineBreak(lines, i);
    assert AllText(TextParts(t)) == t by {
      if t != "" {
        assert [Text(t)][..0] == [];
      }
    }
    AllTextAppend(first, PlainFrom(lines, i + 1));
    if i == |lines| - 1 {
      assert first == TextParts(t) && PlainFrom(lines, i + 1) == [];
      assert Texts(lines)[i..] == [t];
    } else {
      PlainFromText(lines, i + 1);
      AllTextAppend(TextParts(t), [Text("\n")]);
      assert AllText([Text("\n")]) == "\n" by {
        assert [Text("\n")][..0] == [];
      }
      assert Texts(lines)[i..][1..] == Texts(lines)[i + 1..];
    }
  }

  /** Every line of text without markup characters is free of markup and
      is not a variable definition. */
  lemma PlainLinesOfCode(code: string)
    requires NoMarkupChar(code)
    ensures var lines := LinesOf(code);
      forall k | 0 <= k < |lines| :: NoMarkupChar(lines[k].text) && !IsDefinition(lines[k])
  {
    var lines := LinesOf(code);
    forall k | 0 <= k < |lines|
      ensures NoMarkupChar(lines[k].text) && !IsDefinition(lines[k])
    {
      var t := Texts(lines)[k];
      forall c | c in t
        ensures c != '*' && c != '/' && c != '['
      {
        JoinHas(Texts(lines), "\n", k, c);
      }
      if |t| > 0 {
        assert t[0] in t;
      }
    }
  }

  /** Text without markup, rules, variables or carriage returns parses to
      one text part holding the whole text, and to no part at all when it
      is empty. */
  lemma PlainParsed(code: string)
    requires NoMarkupChar(code) && '\r' !in code
    requires forall k | 0 <= k < |LinesOf(code)| :: LinesOf(code)[k].kind == TextLine
    ensures Parsed(code) == Ok(Document("", if code == "" then [] else [Text(code)]))
  {
    ReplaceAllAbsent(code, "\r\n", "\n");
    ReplaceAllAbsent(code, "\r", "\n");
    assert UnifyLineBreaks(code) == code;
    var lines := LinesOf(code);
    PlainLinesOfCode(code);
    NoDefinitionLines(lines);
    ExtractVariablesSpec(lines);
    var vars := TableOf([]);
    assert ExtractVariables(lines) == Ok((lines, vars));
    PlainLinesFrom(vars, lines, 0, LinesState("", [], -1));
    var parts := PlainFrom(lines, 0);
    assert [] + parts == parts;
    assert ParseLinesFrom(vars, lines, "", []) == Ok(LinesState("", parts, -1));
    CoalesceAllText(parts);
    PlainFromText(lines, 0);
    assert Texts(lines)[0..] == Texts(lines);
  }

  /** A program with two title lines among the lines that are not variable
      definitions does not compile. */
  lemma ParsedTwoTitles(code: string, parseAddress: string -> Option<string>, f: nat, l: nat)
    requires var body := NonDefinitions(LinesOf(UnifyLineBreaks(code)));
      f < l < |body| && RoleOf(body, f) == TitleRole && RoleOf(body, l) == TitleRole
    ensures Parsed(code).Err? && Compile(code, parseAddress).Err?
  {
    var lines := LinesOf(UnifyLineBreaks(code));
    ExtractVariablesSpec(lines);
    if ExtractVariables(lines).Ok? {
      TwoTitlesFail(TableOf(Definitions(lines)), NonDefinitions(lines), "", [], f, l);
    }
  }

  /** When the variable definitions are distinct, `f` and `l` are the first
      two title lines among the other lines and no body line before `l`
      crashes, the program fails to compile with the error that names both
      title lines, counted from 1 in that list. */
  lemma ParsedSecondTitle(code: string, parseAddress: string -> Option<string>, f: nat, l: nat)
    requires DistinctNames(Definitions(LinesOf(UnifyLineBreaks(code))))
    requires var lines := LinesOf(UnifyLineBreaks(code)); var body := NonDefinitions(lines);
      f < l < |body| && RoleOf(body, f) == TitleRole && RoleOf(body, l) == TitleRole
      && (forall j | 0 <= j < l && j != f :: RoleOf(body, j) != TitleRole)
      && NoCrashBefore(TableOf(Definitions(lines)), body, l)
    ensures Parsed(code) == Err(TitleRedefined(l + 1, f + 1))
    ensures Compile(code, parseAddress) == Err(TitleRedefined(l + 1, f + 1))
  {
    var lines := LinesOf(UnifyLineBreaks(code));
    ExtractVariablesSpec(lines);
    SecondTitleFails(TableOf(Definitions(lines)), NonDefinitions(lines), "", [], f, l);
  }

  /** Text without markup, rules, variables or carriage returns compiles to
      one text part holding the whole text, and to no part at all when it
      is empty. */
  lemma PlainText(code: string, parseAddress: string -> Option<string>)
    requires NoMarkupChar(code) && '\r' !in code
    requires forall k | 0 <= k < |LinesOf(code)| :: LinesOf(code)[k].kind == TextLine
    ensures Compile(code, parseAddress) == Ok(Document("", if code == "" then [] else [Text(code)]))
  {
    PlainParsed(code);
    ResolveWithoutReferences(if code == "" then [] else [Text(code)], parseAddress);
  }
}
