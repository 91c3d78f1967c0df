/**
 * The inline markup of an ordinary line: `*bold*` and `/italic/` spans,
 * bracket references (`[target]`, `[text[target]]`), the escapes `[[]`,
 * `[*]`, `[/]`, `[=]`, `[-]`, `[.]`, image names and variables. `Scan`
 * specifies the parts `parseLine` emits for one line.
 */
module Inline {
  import opened Wrappers
  import opened Strings
  import opened Document
  import opened Variables
  import opened Substitution

  /** `isSpace`: only space and tab count. */
  predicate IsSpace(c: char) {
    c == ' ' || c == '\t'
  }

  /** A span of `delim` that opened just before `s` can close at index `k`
      of `s`: the delimiter, not first, and not after a space or tab. */
  predicate ClosesAt(s: string, delim: char, k: int) {
    0 < k < |s| && s[k] == delim && !IsSpace(s[k - 1])
  }

  function StyleEndFrom(s: string, delim: char, i: nat): (r: int)
    requires i <= |s|
    ensures r == -1 || (i + 1 <= r <= |s| && 2 <= r)
    decreases |s| - i
  {
    if i == |s| then -1
    else if s[i] == delim && i > 0 && !IsSpace(s[i - 1]) then i + 1
    else StyleEndFrom(s, delim, i + 1)
  }

  /** The search from `i` on finds the first closing position at or after
      `i`, or -1 when there is none. */
  lemma {:induction false} StyleEndFromFirst(s: string, delim: char, i: nat)
    requires i <= |s|
    ensures var r := StyleEndFrom(s, delim, i);
      (r == -1 ==> forall k | i <= k :: !ClosesAt(s, delim, k))
      && (r != -1 ==> ClosesAt(s, delim, r - 1) && forall k | i <= k < r - 1 :: !ClosesAt(s, delim, k))
    decreases |s| - i
  {
    if i < |s| && !(s[i] == delim && i > 0 && !IsSpace(s[i - 1])) {
      StyleEndFromFirst(s, delim, i + 1);
    }
  }

  /** `findStyleEnd`: one past the first closing delimiter, or -1. */
  function FindStyleEnd(s: string, delim: char): (r: int)
    ensures r == -1 || 2 <= r <= |s|
  {
    StyleEndFrom(s, delim, 0)
  }

  /** `findStyleEnd` returns -1 exactly when no position closes the span,
      and otherwise one past the first position that does. */
  lemma FindStyleEndFirst(s: string, delim: char)
    ensures var r := FindStyleEnd(s, delim);
      (r == -1 <==> forall k :: !ClosesAt(s, delim, k))
      && (r != -1 ==> ClosesAt(s, delim, r - 1) && forall k | 0 <= k < r - 1 :: !ClosesAt(s, delim, k))
  {
    StyleEndFromFirst(s, delim, 0);
  }

  /** Strips one character from both ends of a span interior that starts
      and ends with `c`; `None` stands for the out-of-range slice of a
      one-character interior. */
  function Unwrap(text: string): Option<string> {
    if |text| >= 2 then Some(text[1..|text| - 1]) else None
  }

  /** The second unwrapping step of a span: an italic interior wrapped in
      `*` is also bold. */
  function UnwrapBold(text: string, bold: bool, italic: bool): Option<(string, bool, bool)> {
    if italic && HasPrefix(text, "*") && HasSuffix(text, "*") then
      match Unwrap(text)
      case None => None
      case Some(inner) => Some((inner, true, italic))
    else Some((text, bold, italic))
  }

  /** The text and the flags of a span of `delim` with the given interior:
      a bold interior wrapped in `/` is also italic, and then an italic
      interior wrapped in `*` is also bold. `None` when the source slices out
      of range, which happens for exactly three interiors. */
  function StyleOf(delim: char, text: string): (r: Option<(string, bool, bool)>)
    requires delim == '*' || delim == '/'
    ensures r.None? <==> (delim == '*' && (text == "/" || text == "/*/")) || (delim == '/' && text == "*")
    ensures r.Some? ==> r.value.1 || r.value.2
    ensures r.Some? ==> (delim == '*' ==> r.value.1) && (delim == '/' ==> r.value.2)
  {
    var bold, italic := delim == '*', delim == '/';
    if bold && HasPrefix(text, "/") && HasSuffix(text, "/") then
      match Unwrap(text)
      case None => None
      case Some(inner) =>
        assert text == "/" + inner + "/";
        assert inner == "*" <==> text == "/*/";
        UnwrapBold(inner, bold, true)
    else
      assert bold ==> text != "/";
      UnwrapBold(text, bold, italic)
  }

  /** What `findRefEnd` returns: whether a reference was found, its text,
      its target when it has the `[text[target]]` form, and the rest of the
      line after it. */
  datatype RefEnd = RefEnd(found: bool, ref: string, subRef: string, rest: string)

  function NoRef(s: string): RefEnd {
    RefEnd(false, "", "", s)
  }

  predicate NoBrackets(s: string) {
    '[' !in s && ']' !in s
  }

  /** The loop of `findRefEnd` from index `i` on, where `subStart` is the
      position of the one inner `[` seen so far, or -1. */
  function RefScan(s: string, i: nat, subStart: int): (r: RefEnd)
    requires i <= |s| && -1 <= subStart < i
    requires ']' !in s[..i]
    requires subStart == -1 ==> '[' !in s[..i]
    requires subStart != -1 ==> s[subStart] == '[' && '[' !in s[..subStart] && '[' !in s[subStart + 1..i]
    ensures !r.found ==> r == NoRef(s)
    ensures r.found ==> |r.rest| < |s| - i
    ensures r.found && r.ref == "" && r.subRef == "" ==> s[0] == ']' || (|s| >= 2 && s[0] == '[' && s[1] == ']')
    decreases |s| - i
  {
    if i == |s| then NoRef(s)
    else if s[i] == ']' then
      if subStart != -1 then
        if i + 1 < |s| && s[i + 1] == ']' then RefEnd(true, s[..subStart], s[subStart + 1..i], s[i + 2..])
        else NoRef(s)
      else RefEnd(true, s[..i], "", s[i + 1..])
    else if s[i] == '[' then
      if subStart != -1 then NoRef(s)
      else
        assert s[..i + 1] == s[..i] + [s[i]];
        RefScan(s, i + 1, i)
    else
      assert s[..i + 1] == s[..i] + [s[i]];
      RefScan(s, i + 1, subStart)
  }

  /** What a reference found by the scan is made of: its text and `]`, or
      its text, the inner `[`, its target and `]]`, followed by the rest. */
  lemma {:induction false} RefScanShape(s: string, i: nat, subStart: int)
    requires i <= |s| && -1 <= subStart < i
    requires ']' !in s[..i]
    requires subStart == -1 ==> '[' !in s[..i]
    requires subStart != -1 ==> s[subStart] == '[' && '[' !in s[..subStart] && '[' !in s[subStart + 1..i]
    ensures var r := RefScan(s, i, subStart);
      r.found ==>
        (subStart == -1 && s == r.ref + "]" + r.rest && r.subRef == "" && NoBrackets(r.ref))
        || (s == r.ref + "[" + r.subRef + "]]" + r.rest && NoBrackets(r.ref) && NoBrackets(r.subRef))
    decreases |s| - i
  {
    if i == |s| {
    } else if s[i] == ']' {
      if subStart != -1 {
        if i + 1 < |s| && s[i + 1] == ']' {
          assert s == s[..subStart] + "[" + s[subStart + 1..i] + "]]" + s[i + 2..];
        }
      } else {
        assert s == s[..i] + "]" + s[i + 1..];
      }
    } else if s[i] == '[' {
      if subStart == -1 {
        assert s[..i + 1] == s[..i] + [s[i]];
        RefScanShape(s, i + 1, i);
      }
    } else {
      assert s[..i + 1] == s[..i] + [s[i]];
      RefScanShape(s, i + 1, subStart);
    }
  }

  /** `findRefEnd` applied to what follows a `[`: nothing when the line ends
      there or goes on with a space, a tab or `]`; the escape `[[]`; or a
      reference closed by the first `]`, or by `]]` when one `[` comes
      first. */
  function FindRefEnd(s: string): (r: RefEnd)
    ensures !r.found ==> r == NoRef(s)
    ensures r.found ==> |r.rest| < |s| && (r.ref != "" || r.subRef != "")
  {
    if |s| == 0 || IsSpace(s[0]) || s[0] == ']' then NoRef(s)
    else if |s| >= 2 && s[0] == '[' && s[1] == ']' then RefEnd(true, "[", "", s[2..])
    else RefScan(s, 0, -1)
  }

  /** What a reference found after a `[` is made of. */
  lemma FindRefEndShape(s: string)
    ensures var r := FindRefEnd(s);
      r.found ==>
        (r.ref == "[" && s == "[]" + r.rest && r.subRef == "")
        || (s == r.ref + "]" + r.rest && r.subRef == "" && NoBrackets(r.ref) && r.ref != "")
        || (s == r.ref + "[" + r.subRef + "]]" + r.rest && NoBrackets(r.ref) && NoBrackets(r.subRef))
  {
    if |s| == 0 || IsSpace(s[0]) || s[0] == ']' {
    } else if |s| >= 2 && s[0] == '[' && s[1] == ']' {
      assert s == "[]" + s[2..];
    } else {
      RefScanShape(s, 0, -1);
    }
  }

  /** A plain reference is read back as its text and what follows. */
  lemma PlainRefRoundTrip(ref: string, rest: string)
    requires ref != "" && !IsSpace(ref[0]) && NoBrackets(ref)
    ensures FindRefEnd(ref + "]" + rest) == RefEnd(true, ref, "", rest)
  {
    var s := ref + "]" + rest;
    assert s[|ref|] == ']' && s[0] == ref[0];
    assert s[..|ref|] == ref && s[|ref| + 1..] == rest;
    RefScanNoBrackets(s, 0, |ref|);
  }

  /** A reference with its own text is read back as text, target and what
      follows. */
  lemma SubRefRoundTrip(ref: string, target: string, rest: string)
    requires NoBrackets(ref) && NoBrackets(target) && target != ""
    requires ref == "" || !IsSpace(ref[0])
    ensures FindRefEnd(ref + "[" + target + "]]" + rest) == RefEnd(true, ref, target, rest)
  {
    var s := ref + "[" + target + "]]" + rest;
    var o, c := |ref|, |ref| + 1 + |target|;
    SubRefShape(ref, target, rest);
    assert FindRefEnd(s) == RefScan(s, 0, -1);
    RefScanNoBrackets(s, 0, o);
    RefScanOpen(s, o);
    RefScanNoBracketsSub(s, o + 1, c, o);
    SubScanState(s, c, c, o);
    RefScanClose(s, c, o);
  }

  lemma SubRefShape(ref: string, target: string, rest: string)
    requires NoBrackets(ref) && NoBrackets(target) && target != ""
    requires ref == "" || !IsSpace(ref[0])
    ensures var s, o, c := ref + "[" + target + "]]" + rest, |ref|, |ref| + 1 + |target|;
      s[o] == '[' && s[c] == ']' && s[c + 1] == ']'
      && s[..o] == ref && s[o + 1..c] == target && s[c + 2..] == rest
      && s[0] == (if ref == "" then '[' else ref[0])
      && (ref == "" ==> s[1] == target[0])
  {
  }

  /** The inner `[` of a reference: the scan goes on remembering where it is. */
  lemma {:induction false} RefScanOpen(s: string, o: nat)
    requires o < |s| && s[o] == '[' && NoBrackets(s[..o])
    ensures RefScan(s, o, -1) == RefScan(s, o + 1, o)
  {
    assert s[..o + 1] == s[..o] + ['['];
  }

  /** `]]` after an inner `[` closes the reference. */
  lemma RefScanClose(s: string, c: nat, o: nat)
    requires o < c && c + 1 < |s| && s[c] == ']' && s[c + 1] == ']'
    requires ']' !in s[..c] && s[o] == '[' && '[' !in s[..o] && '[' !in s[o + 1..c]
    ensures RefScan(s, c, o) == RefEnd(true, s[..o], s[o + 1..c], s[c + 2..])
  {
  }

  lemma {:induction false} RefScanNoBrackets(s: string, i: nat, j: nat)
    requires i <= j < |s| && NoBrackets(s[..j]) && (s[j] == ']' || s[j] == '[')
    ensures RefScan(s, i, -1) == RefScan(s, j, -1)
    decreases j - i
  {
    if i < j {
      assert s[i] == s[..j][i];
      assert s[..i] == s[..j][..i];
      RefScanNoBrackets(s, i + 1, j);
    }
  }

  lemma {:induction false} RefScanNoBracketsSub(s: string, i: nat, j: nat, o: nat)
    requires o < i <= j < |s| && s[o] == '[' && NoBrackets(s[..o]) && NoBrackets(s[o + 1..j]) && s[j] == ']'
    ensures RefScan(s, i, o) == RefScan(s, j, o)
    decreases j - i
  {
    if i < j {
      SubScanState(s, i, j, o);
      SubScanState(s, i + 1, j, o);
      RefScanSkip(s, i, o);
      RefScanNoBracketsSub(s, i + 1, j, o);
    }
  }

  /** A character other than a bracket is passed over. */
  lemma RefScanSkip(s: string, i: nat, o: nat)
    requires o < i < |s| && s[i] != '[' && s[i] != ']'
    requires ']' !in s[..i + 1] && s[o] == '[' && '[' !in s[..o] && '[' !in s[o + 1..i + 1]
    ensures '[' !in s[o + 1..i]
    ensures RefScan(s, i, o) == RefScan(s, i + 1, o)
  {
    assert s[..i] == s[..i + 1][..i] && s[o + 1..i] == s[o + 1..i + 1][..i - o - 1];
  }

  /** Between an inner `[` at `o` and the first `]` at `j`, the scan's
      state at `i` is the one `RefScan` requires. */
  lemma SubScanState(s: string, i: nat, j: nat, o: nat)
    requires o < i <= j < |s| && s[o] == '[' && NoBrackets(s[..o]) && NoBrackets(s[o + 1..j])
    ensures ']' !in s[..i] && '[' !in s[o + 1..i]
    ensures i < j ==> s[i] != '[' && s[i] != ']'
  {
    assert forall k | 0 <= k < o :: s[..i][k] == s[..o][k];
    assert forall k | o < k < i :: s[..i][k] == s[o + 1..j][k - o - 1];
  }

  /** A `[` is literal text when the line ends after it, or it is followed
      by a space, a tab or `]`. */
  lemma NotAReference(s: string)
    requires s == "" || IsSpace(s[0]) || s[0] == ']'
    ensures !FindRefEnd(s).found
  {
  }

  /** A second inner `[` rejects the bracket. */
  lemma ThirdBracketRejects(a: string, b: string, c: string)
    requires NoBrackets(a) && NoBrackets(b)
    ensures !FindRefEnd(a + "[" + b + "[" + c).found
  {
    var s := a + "[" + b + "[" + c;
    var o, t := |a|, |a| + 1 + |b|;
    assert s[o] == '[' && s[t] == '[';
    assert s[..o] == a && s[o + 1..t] == b;
    if s != "" && !IsSpace(s[0]) && s[0] != ']' && !(|s| >= 2 && s[0] == '[' && s[1] == ']') {
      RefScanNoBrackets(s, 0, o);
      RefScanSubToSecond(s, o + 1, t, o);
    }
  }

  lemma {:induction false} RefScanSubToSecond(s: string, i: nat, j: nat, o: nat)
    requires o < i <= j < |s| && s[o] == '[' && NoBrackets(s[..o]) && NoBrackets(s[o + 1..j]) && s[j] == '['
    ensures !RefScan(s, i, o).found
    decreases j - i
  {
    if i < j {
      assert s[i] == s[o + 1..j][i - o - 1];
      RefScanSubToSecond(s, i + 1, j, o);
    }
  }

  /** `strings.ToLower`, character by character. */
  function LowerAll(s: string): (r: string)
    ensures |r| == |s| && forall k | 0 <= k < |s| :: r[k] == ToLower(s[k])
  {
    seq(|s|, k requires 0 <= k < |s| => ToLower(s[k]))
  }

  const ImageExts: seq<string> := [".png", ".jpg", ".jpeg", ".bmp", ".gif"]

  /** `s` ends in `ext` when case is ignored. */
  predicate EndsWithFold(s: string, ext: string) {
    |s| >= |ext| && LowerAll(s[|s| - |ext|..]) == ext
  }

  function ImageExtFrom(s: string, i: nat): (r: bool)
    requires i <= |ImageExts|
    ensures r <==> exists k | i <= k < |ImageExts| :: EndsWithFold(s, ImageExts[k])
    decreases |ImageExts| - i
  {
    if i == |ImageExts| then false
    else EndsWithFold(s, ImageExts[i]) || ImageExtFrom(s, i + 1)
  }

  /** `hasImageExt`: the name ends in one of the five image extensions, in
      any case. */
  function HasImageExt(s: string): (r: bool)
    ensures r <==> exists k | 0 <= k < |ImageExts| :: EndsWithFold(s, ImageExts[k])
  {
    ImageExtFrom(s, 0)
  }

  /** Any name with an image extension is an image name, whatever the case
      of the extension. */
  lemma ImageNameAnyCase(name: string, k: nat, ext: string)
    requires k < |ImageExts| && LowerAll(ext) == ImageExts[k]
    ensures HasImageExt(name + ext)
  {
    var s := name + ext;
    assert |ext| == |ImageExts[k]|;
    assert s[|s| - |ext|..] == ext;
    assert EndsWithFold(s, ImageExts[k]);
  }

  /** The part a bracket reference stands for, in the order the source
      tries them: a reference with its own target, a variable, an escaped
      special character, an image, and otherwise a reference still to be
      resolved, remembering the line it was found in. */
  function RefPart(vars: VarTable, ref: string, subRef: string, n: int): (p: DocPart)
    ensures p.Text? || p.Image? || p.TempRef?
    ensures p.TempRef? ==> p.declLine == n && (p.target == subRef || p.target == ref)
    ensures subRef != "" ==> p == TempRef(n, subRef, ref)
  {
    if subRef != "" then TempRef(n, subRef, ref)
    else if ref in vars then Text(vars[ref].text)
    else if |ref| == 1 && ref[0] in "[*/=-." then Text(ref)
    else if HasImageExt(ref) then Image(ref)
    else TempRef(n, ref, "")
  }

  /** What starts at one position of a line. */
  datatype Markup =
    | NoMarkup
    | Crash
    | Found(part: DocPart, rest: string)

  /** The markup that starts at index `i`: a style span, a bracket
      reference, or nothing. A span whose interior the source slices out of
      range is a crash. */
  function MarkupAt(vars: VarTable, line: string, i: nat, n: int): (m: Markup)
    requires i < |line|
    ensures m.Found? ==> |m.rest| < |line| - i
    ensures m.Found? ==> m.part.Text? || m.part.Styled? || m.part.Image? || m.part.TempRef?
    ensures m.Found? && m.part.TempRef? ==> m.part.declLine == n && m.part.target != ""
    ensures line[i] != '*' && line[i] != '/' && line[i] != '[' ==> m == NoMarkup
  {
    var c := line[i];
    if c == '*' || c == '/' then StyleMarkup(vars, line, i)
    else if c == '[' then RefMarkup(vars, line, i, n)
    else NoMarkup
  }

  /** The `'*', '/'` case: a span needs a character other than a space or a
      tab after the delimiter and a closing delimiter. */
  function StyleMarkup(vars: VarTable, line: string, i: nat): (m: Markup)
    requires i < |line| && (line[i] == '*' || line[i] == '/')
    ensures m.Found? ==> |m.rest| < |line| - i && m.part.Styled?
  {
    if i + 1 < |line| && !IsSpace(line[i + 1]) then
      var e := FindStyleEnd(line[i + 1..], line[i]);
      if e != -1 then StyleSpan(vars, line, i, e + i + 1) else NoMarkup
    else NoMarkup
  }

  /** The `'['` case: a reference, as the part it stands for. */
  function RefMarkup(vars: VarTable, line: string, i: nat, n: int): (m: Markup)
    requires i < |line| && line[i] == '['
    ensures m.Found? ==> |m.rest| < |line| - i
    ensures m.Found? ==> m.part.Text? || m.part.Image? || m.part.TempRef?
    ensures m.Found? && m.part.TempRef? ==> m.part.declLine == n && m.part.target != ""
  {
    var r := FindRefEnd(line[i + 1..]);
    if r.found then Found(RefPart(vars, r.ref, r.subRef, n), r.rest) else NoMarkup
  }


  /** A style span from the delimiter at `i` to just before `end`: styled
      text with the variables replaced, or a crash for the interiors the
      source slices out of range. */
  function StyleSpan(vars: VarTable, line: string, i: nat, end: nat): (m: Markup)
    requires i + 2 <= end <= |line| && (line[i] == '*' || line[i] == '/')
    ensures m.Crash? || (m.Found? && m.rest == line[end..] && m.part.Styled?)
  {
    var style := StyleOf(line[i], line[i + 1..end - 1]);
    if style.None? then Crash
    else Found(Styled(Subst(vars, style.value.0), style.value.1, style.value.2), line[end..])
  }

  /** Appends to the parts of a line, unless the line crashed. */
  function Then(parts: seq<DocPart>, more: Option<seq<DocPart>>): Option<seq<DocPart>> {
    match more
    case None => None
    case Some(ps) => Some(parts + ps)
  }

  /** A text part for `s`, or none when `s` is empty. */
  function TextParts(s: string): seq<DocPart> {
    if s == "" then [] else [Text(s)]
  }

  /** The text before markup at index `i`, if any. */
  function Before(line: string, i: nat): seq<DocPart>
    requires i <= |line|
  {
    if i > 0 then [Text(line[..i])] else []
  }

  /** The parts `parseLine` emits for the line from index `i` on (the line
      having already been cut after the last markup), or `None` for a
      crash. */
  function Scan(vars: VarTable, line: string, i: nat, n: int): Option<seq<DocPart>>
    requires i <= |line|
    decreases |line|, |line| - i
  {
    if i == |line| then Some(if |line| > 0 then [Text(line)] else [])
    else
      match MarkupAt(vars, line, i, n)
      case NoMarkup => Scan(vars, line, i + 1, n)
      case Crash => None
      case Found(part, rest) => Then(Before(line, i) + [part], Scan(vars, rest, 0, n))
  }

  /** `parseLine`'s output for one whole line. */
  function LineParts(vars: VarTable, line: string, n: int): Option<seq<DocPart>> {
    Scan(vars, line, 0, n)
  }

  /** A part an ordinary line can produce: text, styled text, an image, or
      a reference to resolve that remembers its line and has a target. */
  predicate InlinePart(p: DocPart, n: int) {
    p.Text? || p.Styled? || p.Image? || (p.TempRef? && p.declLine == n && p.target != "")
  }

  predicate AllInline(ps: seq<DocPart>, n: int) {
    forall k | 0 <= k < |ps| :: InlinePart(ps[k], n)
  }

  lemma AllInlineAppend(a: seq<DocPart>, b: seq<DocPart>, n: int)
    requires AllInline(a, n) && AllInline(b, n)
    ensures AllInline(a + b, n)
  {
    forall k | 0 <= k < |a + b| ensures InlinePart((a + b)[k], n) {
      if k >= |a| {
        assert (a + b)[k] == b[k - |a|];
      }
    }
  }

  /** The text before markup and the markup itself are inline parts. */
  lemma BeforeInline(line: string, i: nat, p: DocPart, n: int)
    requires i <= |line| && InlinePart(p, n)
    ensures AllInline(Before(line, i) + [p], n)
  {
  }

  lemma {:induction false} ScanKinds(vars: VarTable, line: string, i: nat, n: int)
    requires i <= |line|
    ensures Scan(vars, line, i, n).Some? ==> AllInline(Scan(vars, line, i, n).value, n)
    decreases |line|, |line| - i
  {
    if i < |line| {
      var m := MarkupAt(vars, line, i, n);
      if m.NoMarkup? {
        ScanKinds(vars, line, i + 1, n);
      } else if m.Found? {
        ScanKinds(vars, m.rest, 0, n);
        ScanFound(vars, line, i, n);
        var r := Scan(vars, m.rest, 0, n);
        if r.Some? {
          BeforeInline(line, i, m.part, n);
          AllInlineAppend(Before(line, i) + [m.part], r.value, n);
        }
      }
    }
  }


  predicate NoMarkupChar(s: string) {
    '*' !in s && '/' !in s && '[' !in s
  }

  /** Characters that cannot start markup are skipped. */
  lemma {:induction false} ScanSkips(vars: VarTable, line: string, i: nat, j: nat, n: int)
    requires i <= j <= |line| && NoMarkupChar(line[i..j])
    ensures Scan(vars, line, i, n) == Scan(vars, line, j, n)
    decreases j - i
  {
    if i < j {
      assert line[i] == line[i..j][0];
      ScanSkips(vars, line, i + 1, j, n);
    }
  }

  /** Text without markup at the start of a line is skipped and comes out
      as one text part. */
  lemma {:induction false} PlainPrefix(vars: VarTable, line: string, before: string, n: int)
    requires |before| <= |line| && line[..|before|] == before && NoMarkupChar(before)
    ensures Scan(vars, line, 0, n) == Scan(vars, line, |before|, n)
    ensures Before(line, |before|) == TextParts(before)
  {
    assert line[0..|before|] == before;
    ScanSkips(vars, line, 0, |before|, n);
  }

  /** Where a markup character `c` follows `before` in a line. */
  lemma SpanShape(line: string, before: string, c: char, tail: string)
    requires line == before + [c] + tail
    ensures |before| < |line| && line[..|before|] == before
    ensures line[|before|] == c && line[|before| + 1..] == tail
  {
    assert line[|before| + 1..] == tail by {
      forall k | 0 <= k < |tail| ensures line[|before| + 1..][k] == tail[k] {
        assert line[|before| + 1 + k] == tail[k];
      }
    }
  }

  /** A line without `*`, `/` or `[` is a single text part (or nothing when
      it is empty). */
  lemma PlainLine(vars: VarTable, line: string, n: int)
    requires NoMarkupChar(line)
    ensures LineParts(vars, line, n) == Some(TextParts(line))
  {
    assert line[0..|line|] == line;
    ScanSkips(vars, line, 0, |line|, n);
  }

  /** A span: text without markup, then `delim`, an interior that does not
      start with a space or end with one and has no `delim` in it, `delim`
      again and the rest of the line. The span becomes one styled part whose
      text has its variables substituted, and the rest is scanned anew. */
  lemma {:induction false} StyledSpan(vars: VarTable, line: string, before: string, delim: char, inner: string, after: string, n: int)
    requires delim == '*' || delim == '/'
    requires line == before + [delim] + inner + [delim] + after
    requires NoMarkupChar(before) && inner != "" && delim !in inner
    requires !IsSpace(inner[0]) && !IsSpace(inner[|inner| - 1])
    requires StyleOf(delim, inner).Some?
    ensures var style := StyleOf(delim, inner).value;
      LineParts(vars, line, n) == Then(TextParts(before) + [Styled(Subst(vars, style.0), style.1, style.2)], LineParts(vars, after, n))
  {
    SpanShape(line, before, delim, inner + [delim] + after);
    PlainPrefix(vars, line, before, n);
    ScanSpan(vars, line, |before|, delim, inner, after, n);
  }



  lemma {:induction false} ScanSpan(vars: VarTable, line: string, i: nat, delim: char, inner: string, after: string, n: int)
    requires delim == '*' || delim == '/'
    requires i < |line| && line[i] == delim && line[i + 1..] == inner + [delim] + after
    requires inner != "" && delim !in inner
    requires !IsSpace(inner[0]) && !IsSpace(inner[|inner| - 1])
    requires StyleOf(delim, inner).Some?
    ensures var style := StyleOf(delim, inner).value;
      Scan(vars, line, i, n) == Then(Before(line, i) + [Styled(Subst(vars, style.0), style.1, style.2)], Scan(vars, after, 0, n))
  {
    var end := |inner| + 1 + i + 1;
    SpanCloses(line, i, delim, inner, after);
    SpanSlices(line, i, end, inner, delim, after);
    SpanMarkup(vars, line, i, end, delim, inner, after);
    StyleAt(vars, line, i, n);
    ScanFound(vars, line, i, n);
  }

  /** Markup found at `i` is emitted after the text before it, and the line
      is scanned anew after the markup. */
  lemma {:induction false} ScanFound(vars: VarTable, line: string, i: nat, n: int)
    requires i < |line| && MarkupAt(vars, line, i, n).Found?
    ensures var m := MarkupAt(vars, line, i, n);
      Scan(vars, line, i, n) == Then(Before(line, i) + [m.part], Scan(vars, m.rest, 0, n))
  {
  }

  /** A span that closes at `end` is the styled interior, followed by the
      rest of the line. */
  lemma {:induction false} SpanMarkup(vars: VarTable, line: string, i: nat, end: nat, delim: char, inner: string, after: string)
    requires delim == '*' || delim == '/'
    requires i + 1 < |line| && line[i] == delim && !IsSpace(line[i + 1])
    requires FindStyleEnd(line[i + 1..], line[i]) != -1 && end == FindStyleEnd(line[i + 1..], line[i]) + i + 1
    requires i + 2 <= end <= |line| && line[i + 1..end - 1] == inner && line[end..] == after
    requires StyleOf(delim, inner).Some?
    ensures var style := StyleOf(delim, inner).value;
      StyleMarkup(vars, line, i) == Found(Styled(Subst(vars, style.0), style.1, style.2), after)
  {
    StyleClosed(vars, line, i, end);
    StyleSpanOf(vars, line, i, end, delim, inner, after);
  }

  /** A span whose interior has no delimiter and does not end in a space
      closes at the first delimiter after it. */
  lemma SpanCloses(line: string, i: nat, delim: char, inner: string, after: string)
    requires i < |line| && line[i] == delim && line[i + 1..] == inner + [delim] + after
    requires inner != "" && delim !in inner
    requires !IsSpace(inner[0]) && !IsSpace(inner[|inner| - 1])
    ensures i + 1 < |line| && !IsSpace(line[i + 1])
    ensures FindStyleEnd(line[i + 1..], line[i]) == |inner| + 1
  {
    SpanEnd(inner, delim, after);
    assert line[i + 1] == inner[0];
  }


  lemma SpanEnd(inner: string, delim: char, after: string)
    requires inner != "" && delim !in inner && !IsSpace(inner[|inner| - 1])
    ensures FindStyleEnd(inner + [delim] + after, delim) == |inner| + 1
  {
    var s := inner + [delim] + after;
    FindStyleEndFirst(s, delim);
    assert ClosesAt(s, delim, |inner|);
    forall k | 0 <= k < |inner| ensures !ClosesAt(s, delim, k) {
      assert s[k] == inner[k];
    }
  }

  /** Where the interior and the rest of a span of `delim` that opens at
      `i` and ends just before `end` lie in the line. */
  lemma SpanSlices(line: string, i: nat, end: nat, inner: string, delim: char, after: string)
    requires i < |line| && line[i + 1..] == inner + [delim] + after && end == i + |inner| + 2
    ensures i + 2 <= end <= |line|
    ensures line[i + 1..end - 1] == inner && line[end..] == after
  {
    assert line[i + 1..end - 1] == line[i + 1..][..|inner|];
    assert line[end..] == line[i + 1..][|inner| + 1..];
  }


  /** The style span whose interior is `text`, when the source can slice
      it. */
  lemma {:induction false} StyleSpanOf(vars: VarTable, line: string, i: nat, end: nat, delim: char, text: string, after: string)
    requires i + 2 <= end <= |line| && line[i] == delim && (delim == '*' || delim == '/')
    requires line[i + 1..end - 1] == text && line[end..] == after && StyleOf(delim, text).Some?
    ensures var style := StyleOf(delim, text).value;
      StyleSpan(vars, line, i, end) == Found(Styled(Subst(vars, style.0), style.1, style.2), after)
  {
  }

  /** The style span whose interior the source slices out of range. */
  lemma StyleSpanCrash(vars: VarTable, line: string, i: nat, end: nat, text: string)
    requires i + 2 <= end <= |line| && (line[i] == '*' || line[i] == '/')
    requires line[i + 1..end - 1] == text && StyleOf(line[i], text).None?
    ensures StyleSpan(vars, line, i, end) == Crash
  {
  }

  /** At a style delimiter, the markup is the style case. */
  lemma StyleAt(vars: VarTable, line: string, i: nat, n: int)
    requires i < |line| && (line[i] == '*' || line[i] == '/')
    ensures MarkupAt(vars, line, i, n) == StyleMarkup(vars, line, i)
  {
  }

  /** A style span closed `e` characters after its opening delimiter. */
  lemma StyleClosed(vars: VarTable, line: string, i: nat, end: nat)
    requires i + 1 < |line| && (line[i] == '*' || line[i] == '/') && !IsSpace(line[i + 1])
    requires FindStyleEnd(line[i + 1..], line[i]) != -1
    requires end == FindStyleEnd(line[i + 1..], line[i]) + i + 1
    ensures i + 2 <= end <= |line|
    ensures StyleMarkup(vars, line, i) == StyleSpan(vars, line, i, end)
  {
  }

  /** A style delimiter at the end of the line, before a space, or without
      a closing delimiter is no markup. */
  lemma StyleUnclosed(vars: VarTable, line: string, i: nat)
    requires i < |line| && (line[i] == '*' || line[i] == '/')
    requires i + 1 == |line| || IsSpace(line[i + 1]) || FindStyleEnd(line[i + 1..], line[i]) == -1
    ensures StyleMarkup(vars, line, i) == NoMarkup
  {
  }

  /** A span of `delim` that is empty or starts with a space or tab is no
      markup: the delimiter stays in the text. */
  lemma NoSpanAfterSpace(vars: VarTable, line: string, i: nat, n: int)
    requires i < |line| && (line[i] == '*' || line[i] == '/')
    requires i + 1 == |line| || IsSpace(line[i + 1])
    ensures StyleMarkup(vars, line, i) == NoMarkup
  {
  }

  /** A plain reference after text without markup: the reference becomes
      its part, and the line is scanned anew after the `]`. */
  lemma ReferenceSpan(vars: VarTable, line: string, before: string, ref: string, after: string, n: int)
    requires line == before + "[" + ref + "]" + after
    requires NoMarkupChar(before) && ref != "" && !IsSpace(ref[0]) && NoBrackets(ref)
    ensures LineParts(vars, line, n) == Then(TextParts(before) + [RefPart(vars, ref, "", n)], LineParts(vars, after, n))
  {
    var i := |before|;
    assert Scan(vars, line, 0, n) == Scan(vars, line, i, n) by {
      assert line[0..i] == before;
      ScanSkips(vars, line, 0, i, n);
    }
    assert Before(line, i) == TextParts(before) by {
      assert line[..i] == before;
    }
    assert line[i] == '[' && line[i + 1..] == ref + "]" + after;
    PlainRefRoundTrip(ref, after);
    ScanFound(vars, line, i, n);
  }

  /** A reference with its own text after text without markup becomes a
      reference to resolve with that text, remembering the line. */
  lemma TextReferenceSpan(vars: VarTable, line: string, before: string, text: string, target: string, after: string, n: int)
    requires line == before + "[" + text + "[" + target + "]]" + after
    requires NoMarkupChar(before) && NoBrackets(text) && NoBrackets(target) && target != ""
    requires text == "" || !IsSpace(text[0])
    ensures LineParts(vars, line, n) == Then(TextParts(before) + [TempRef(n, target, text)], LineParts(vars, after, n))
  {
    SpanShape(line, before, '[', text + "[" + target + "]]" + after);
    PlainPrefix(vars, line, before, n);
    SubRefRoundTrip(text, target, after);
    ScanFound(vars, line, |before|, n);
  }



  /** The escapes: `[[]` stands for `[`, and a bracketed `*`, `/`, `=`, `-`
      or `.` for itself, unless a variable has that name. */
  lemma Escapes(vars: VarTable, c: char, rest: string, n: int)
    requires c in "[*/=-." && [c] !in vars
    ensures RefPart(vars, [c], "", n) == Text([c])
    ensures "[" !in vars ==> FindRefEnd("[]" + rest) == RefEnd(true, "[", "", rest) && RefPart(vars, "[", "", n) == Text("[")
  {
  }

  /** A bracketed name that is neither a variable nor an escape is an image
      when it has an image extension (and keeps its name as written), and
      otherwise a reference to resolve. */
  lemma ImageOrReference(vars: VarTable, ref: string, n: int)
    requires ref !in vars && !(|ref| == 1 && ref[0] in "[*/=-.")
    ensures HasImageExt(ref) ==> RefPart(vars, ref, "", n) == Image(ref)
    ensures !HasImageExt(ref) ==> RefPart(vars, ref, "", n) == TempRef(n, ref, "")
  {
  }
}
