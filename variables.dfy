/**
 * The second stage: lines of the form `[\name=value]` define text variables.
 * They are collected into a table, a second definition of a name is an
 * error, and the definition lines are taken out of the line list.
 */
module Variables {
  import opened Wrappers
  import opened Strings
  import opened Lines
  import opened Errors

  /** A variable's value and the line it was defined in. */
  datatype Variable = Variable(text: string, declLine: int)

  type VarTable = map<string, Variable>

  /** The characters a variable name is made of. The comment above
      `validVarName` speaks of underscores; the code accepts spaces. */
  predicate IsNameChar(c: char) {
    c == ' ' || IsAsciiLetter(c) || IsDigit(c)
  }

  /** The rune loop of `validVarName` from index `i` on. */
  function NameCharsFrom(name: string, i: nat): (ok: bool)
    requires i <= |name|
    ensures ok <==> forall k | i <= k < |name| :: IsNameChar(name[k])
    decreases |name| - i
  {
    if i == |name| then true else IsNameChar(name[i]) && NameCharsFrom(name, i + 1)
  }

  /** `validVarName`: a non-empty name of letters, digits and spaces. */
  function ValidVarName(name: string): (ok: bool)
    ensures ok <==> name != "" && forall k | 0 <= k < |name| :: IsNameChar(name[k])
  {
    NameCharsFrom(name, 0) && name != ""
  }

  /** An underscore, which the comment promises, is refused by the code. */
  lemma UnderscoreIsNotANameChar()
    ensures !ValidVarName("a_b")
  {
    assert !IsNameChar("a_b"[1]);
  }

  /** The text of a definition line for `name` and `value`. */
  function DefinitionLine(name: string, value: string): string {
    "[\\" + name + "=" + value + "]"
  }

  /** The name and value a line defines, if it is a definition line: it
      starts with `[\`, ends with `]`, and what lies between `[\` and the first
      `=` is a valid name. */
  function Definition(line: string): (d: Option<(string, string)>)
    ensures d.Some? ==> ValidVarName(d.value.0) && line == DefinitionLine(d.value.0, d.value.1)
  {
    if HasPrefix(line, "[\\") && HasSuffix(line, "]") && '=' in line then
      var firstEq := IndexOf(line, '=');
      assert line[0] == '[' && line[1] == '\\' && line[|line| - 1] == ']';
      var name := line[2..firstEq];
      if ValidVarName(name) then
        var text := TrimSuffix(line[firstEq + 1..], "]");
        assert text == line[firstEq + 1..|line| - 1];
        assert line == DefinitionLine(name, text);
        Some((name, text))
      else None
    else None
  }

  /** Every definition line is read back as the name and value it was made
      of. */
  lemma DefinitionRoundTrip(name: string, value: string)
    requires ValidVarName(name)
    ensures Definition(DefinitionLine(name, value)) == Some((name, value))
  {
    var line := DefinitionLine(name, value);
    assert line[..2] == "[\\";
    assert line[2 + |name|] == '=';
    assert '=' !in line[..2 + |name|] by {
      forall k | 0 <= k < 2 + |name| ensures line[k] != '=' {
        if k >= 2 { assert line[k] == name[k - 2]; }
      }
    }
    assert line[2..2 + |name|] == name;
    assert line[2 + |name| + 1..][..|value|] == value;
  }

  predicate IsDefinition(line: CodeLine) {
    Definition(line.text).Some?
  }

  /** The definitions among the lines, in order, each with its value and
      line number. */
  function Definitions(lines: seq<CodeLine>): seq<(string, Variable)>
    decreases |lines|
  {
    if |lines| == 0 then [] else DefinitionIn(lines[0]) + Definitions(lines[1..])
  }

  /** The definition a line makes, if it makes one. */
  function DefinitionIn(line: CodeLine): seq<(string, Variable)> {
    match Definition(line.text)
    case Some((name, value)) => [(name, Variable(value, line.number))]
    case None => []
  }

  /** The lines that are not definitions, in order. */
  function NonDefinitions(lines: seq<CodeLine>): seq<CodeLine>
    decreases |lines|
  {
    if |lines| == 0 then []
    else (if IsDefinition(lines[0]) then [] else [lines[0]]) + NonDefinitions(lines[1..])
  }

  /** The table a list of definitions with distinct names builds. */
  function TableOf(defs: seq<(string, Variable)>): VarTable
    decreases |defs|
  {
    if |defs| == 0 then map[] else map[defs[0].0 := defs[0].1] + TableOf(defs[1..])
  }

  predicate DistinctNames(defs: seq<(string, Variable)>) {
    forall i, j | 0 <= i < j < |defs| :: defs[i].0 != defs[j].0
  }

  predicate NamesNotIn(defs: seq<(string, Variable)>, vars: VarTable) {
    forall i | 0 <= i < |defs| :: defs[i].0 !in vars
  }

  /** The loop of `extractVariableDefinitions` from a given table on: the
      kept lines and the completed table, or the first redefinition. */
  function ExtractFrom(lines: seq<CodeLine>, vars: VarTable): Result<(seq<CodeLine>, VarTable), CompileError>
    decreases |lines|
  {
    if |lines| == 0 then Ok(([], vars))
    else
      match Definition(lines[0].text)
      case None => Prepend([lines[0]], ExtractFrom(lines[1..], vars))
      case Some((name, value)) =>
        if name in vars then Err(VariableRedefined(name, lines[0].number, vars[name].declLine))
        else ExtractFrom(lines[1..], vars[name := Variable(value, lines[0].number)])
  }

  function Prepend(kept: seq<CodeLine>, r: Result<(seq<CodeLine>, VarTable), CompileError>)
    : Result<(seq<CodeLine>, VarTable), CompileError>
  {
    match r
    case Ok((rest, vars)) => Ok((kept + rest, vars))
    case Err(e) => Err(e)
  }

  lemma PrependNothing(r: Result<(seq<CodeLine>, VarTable), CompileError>)
    ensures Prepend([], r) == r
  {
    if r.Ok? {
      assert [] + r.value.0 == r.value.0;
    }
  }

  lemma PrependTwice(a: seq<CodeLine>, b: seq<CodeLine>, r: Result<(seq<CodeLine>, VarTable), CompileError>)
    ensures Prepend(a, Prepend(b, r)) == Prepend(a + b, r)
  {
    if r.Ok? {
      assert a + (b + r.value.0) == (a + b) + r.value.0;
    }
  }

  /** What `extractVariableDefinitions` returns for the whole line list. */
  function ExtractVariables(lines: seq<CodeLine>): Result<(seq<CodeLine>, VarTable), CompileError> {
    ExtractFrom(lines, map[])
  }

  lemma {:induction false} DefinitionsCons(x: CodeLine, rest: seq<CodeLine>)
    ensures Definitions([x] + rest) == DefinitionIn(x) + Definitions(rest)
  {
    assert ([x] + rest)[0] == x && ([x] + rest)[1..] == rest;
  }

  lemma TakeOneMore<T>(s: seq<T>, i: nat)
    requires i < |s|
    ensures s[..i + 1] == s[..i] + [s[i]]
  {
  }

  lemma {:induction false} DefinitionsAppendStep(x: CodeLine, rest: seq<CodeLine>, b: seq<CodeLine>)
    requires Definitions(rest + b) == Definitions(rest) + Definitions(b)
    ensures Definitions([x] + rest + b) == Definitions([x] + rest) + Definitions(b)
  {
    ConcatAssoc([x], rest, b);
    DefinitionsCons(x, rest + b);
    DefinitionsCons(x, rest);
    ConcatAssoc(DefinitionIn(x), Definitions(rest), Definitions(b));
  }

  lemma {:induction false} DefinitionsAppend(a: seq<CodeLine>, b: seq<CodeLine>)
    ensures Definitions(a + b) == Definitions(a) + Definitions(b)
    decreases |a|
  {
    if |a| == 0 {
      assert a + b == b;
    } else {
      DefinitionsAppend(a[1..], b);
      DefinitionsAppendStep(a[0], a[1..], b);
      assert a == [a[0]] + a[1..];
    }
  }

  lemma {:induction false} NonDefinitionsCons(x: CodeLine, rest: seq<CodeLine>)
    ensures NonDefinitions([x] + rest) == (if IsDefinition(x) then [] else [x]) + NonDefinitions(rest)
  {
    assert ([x] + rest)[0] == x && ([x] + rest)[1..] == rest;
  }

  lemma {:induction false} NonDefinitionsAppendStep(x: CodeLine, rest: seq<CodeLine>, b: seq<CodeLine>)
    requires NonDefinitions(rest + b) == NonDefinitions(rest) + NonDefinitions(b)
    ensures NonDefinitions([x] + rest + b) == NonDefinitions([x] + rest) + NonDefinitions(b)
  {
    ConcatAssoc([x], rest, b);
    NonDefinitionsCons(x, rest + b);
    NonDefinitionsCons(x, rest);
    ConcatAssoc(if IsDefinition(x) then [] else [x], NonDefinitions(rest), NonDefinitions(b));
  }

  lemma {:induction false} NonDefinitionsAppend(a: seq<CodeLine>, b: seq<CodeLine>)
    ensures NonDefinitions(a + b) == NonDefinitions(a) + NonDefinitions(b)
    decreases |a|
  {
    if |a| == 0 {
      assert a + b == b;
    } else {
      NonDefinitionsAppend(a[1..], b);
      NonDefinitionsAppendStep(a[0], a[1..], b);
      assert a == [a[0]] + a[1..];
    }
  }

  lemma {:induction false} DefinitionsSplit(a: seq<CodeLine>, b: seq<CodeLine>)
    ensures Definitions(a + b) == Definitions(a) + Definitions(b)
    ensures NonDefinitions(a + b) == NonDefinitions(a) + NonDefinitions(b)
  {
    DefinitionsAppend(a, b);
    NonDefinitionsAppend(a, b);
  }


  lemma ConsDistinct(x: (string, Variable), r: seq<(string, Variable)>, vars: VarTable)
    ensures DistinctNames([x] + r) && NamesNotIn([x] + r, vars) <==>
      x.0 !in vars && DistinctNames(r) && NamesNotIn(r, vars[x.0 := x.1])
  {
    var xr := [x] + r;
    if x.0 !in vars && DistinctNames(r) && NamesNotIn(r, vars[x.0 := x.1]) {
      forall i, j | 0 <= i < j < |xr| ensures xr[i].0 != xr[j].0 {
        assert xr[j] == r[j - 1];
        if i > 0 { assert xr[i] == r[i - 1]; }
      }
      forall i | 0 <= i < |xr| ensures xr[i].0 !in vars {
        if i > 0 { assert xr[i] == r[i - 1]; }
      }
    }
    if DistinctNames(xr) && NamesNotIn(xr, vars) {
      assert xr[0] == x;
      forall i | 0 <= i < |r| ensures r[i].0 !in vars[x.0 := x.1] {
        assert r[i] == xr[i + 1];
      }
      forall i, j | 0 <= i < j < |r| ensures r[i].0 != r[j].0 {
        assert r[i] == xr[i + 1] && r[j] == xr[j + 1];
      }
    }
  }

  /** The extraction succeeds exactly when no name is defined twice, nor
      was already in the starting table. */
  lemma {:induction false} ExtractFromOk(lines: seq<CodeLine>, vars: VarTable)
    ensures ExtractFrom(lines, vars).Ok? <==>
      DistinctNames(Definitions(lines)) && NamesNotIn(Definitions(lines), vars)
    decreases |lines|
  {
    if |lines| > 0 {
      var rest := lines[1..];
      var d := Definition(lines[0].text);
      if d.None? {
        assert Definitions(lines) == Definitions(rest);
        ExtractFromOk(rest, vars);
      } else {
        var name, v := d.value.0, Variable(d.value.1, lines[0].number);
        assert Definitions(lines) == [(name, v)] + Definitions(rest);
        ConsDistinct((name, v), Definitions(rest), vars);
        if name !in vars {
          ExtractFromOk(rest, vars[name := v]);
        }
      }
    }
  }

  lemma {:induction false} TableCons(vars: VarTable, x: (string, Variable), r: seq<(string, Variable)>)
    ensures vars + TableOf([x] + r) == vars[x.0 := x.1] + TableOf(r)
  {
    assert ([x] + r)[1..] == r;
    var t := TableOf(r);
    assert TableOf([x] + r) == map[x.0 := x.1] + t;
    assert vars[x.0 := x.1] + t == vars + (map[x.0 := x.1] + t);
  }

  /** On success the extraction keeps the non-definition lines in order and
      adds every definition to the table. */
  lemma {:induction false} ExtractFromValue(lines: seq<CodeLine>, vars: VarTable)
    requires ExtractFrom(lines, vars).Ok?
    ensures ExtractFrom(lines, vars).value == (NonDefinitions(lines), vars + TableOf(Definitions(lines)))
    decreases |lines|
  {
    if |lines| == 0 {
      assert vars + map[] == vars;
    } else {
      var rest := lines[1..];
      var rdefs := Definitions(rest);
      var d := Definition(lines[0].text);
      if d.None? {
        assert Definitions(lines) == rdefs;
        assert NonDefinitions(lines) == [lines[0]] + NonDefinitions(rest);
        assert ExtractFrom(lines, vars) == Prepend([lines[0]], ExtractFrom(rest, vars));
        ExtractFromValue(rest, vars);
      } else {
        var name, v := d.value.0, Variable(d.value.1, lines[0].number);
        assert Definitions(lines) == [(name, v)] + rdefs;
        assert NonDefinitions(lines) == NonDefinitions(rest);
        assert ExtractFrom(lines, vars) == ExtractFrom(rest, vars[name := v]);
        ExtractFromValue(rest, vars[name := v]);
        TableCons(vars, (name, v), rdefs);
      }
    }
  }

  /** On success the kept lines are exactly the non-definition lines, in
      order, the table maps each defined name to its value and line, and no
      definition line is left. */
  lemma {:induction false} ExtractVariablesSpec(lines: seq<CodeLine>)
    ensures ExtractVariables(lines).Ok? <==> DistinctNames(Definitions(lines))
    ensures ExtractVariables(lines).Ok? ==>
      ExtractVariables(lines).value == (NonDefinitions(lines), TableOf(Definitions(lines)))
  {
    ExtractFromOk(lines, map[]);
    if ExtractVariables(lines).Ok? {
      ExtractFromValue(lines, map[]);
    }
    assert map[] + TableOf(Definitions(lines)) == TableOf(Definitions(lines));
  }

  lemma {:induction false} NoDefinitionKept(lines: seq<CodeLine>)
    ensures forall k | 0 <= k < |NonDefinitions(lines)| :: !IsDefinition(NonDefinitions(lines)[k])
    decreases |lines|
  {
    if |lines| > 0 {
      NoDefinitionKept(lines[1..]);
    }
  }

  /** Definition `j` is the first one whose name was defined before: the
      definitions before it have distinct names, none of them in the
      starting table, and its own name is in the table or among them. */
  predicate FirstClash(defs: seq<(string, Variable)>, vars: VarTable, j: nat) {
    j < |defs| && DistinctNames(defs[..j]) && NamesNotIn(defs[..j], vars)
    && (defs[j].0 in vars || exists i | 0 <= i < j :: defs[i].0 == defs[j].0)
  }

  /** `e` reports definition `j` as the first clash: its name and line,
      then the line of the earlier definition (from the starting table, or
      the one among the definitions before it). */
  predicate ReportsClashAt(e: CompileError, defs: seq<(string, Variable)>, vars: VarTable, j: nat) {
    e.VariableRedefined? && FirstClash(defs, vars, j) && e.name == defs[j].0 && e.line == defs[j].1.declLine
    && ((e.name in vars && e.firstLine == vars[e.name].declLine)
        || exists i | 0 <= i < j :: defs[i].0 == e.name && defs[i].1.declLine == e.firstLine)
  }

  /** The error a failed extraction reports: the first definition whose name
      was defined before, with its own line and then the line of that
      earlier definition. */
  predicate ReportsRedefinition(e: CompileError, defs: seq<(string, Variable)>, vars: VarTable) {
    exists j | 0 <= j < |defs| :: ReportsClashAt(e, defs, vars, j)
  }

  lemma ReportsRedefinitionCons(e: CompileError, x: (string, Variable), r: seq<(string, Variable)>, vars: VarTable)
    requires x.0 !in vars
    requires ReportsRedefinition(e, r, vars[x.0 := x.1])
    ensures ReportsRedefinition(e, [x] + r, vars)
  {
    var xr := [x] + r;
    var vx := vars[x.0 := x.1];
    var j :| 0 <= j < |r| && ReportsClashAt(e, r, vx, j);
    assert xr[..j + 1] == [x] + r[..j];
    assert xr[j + 1] == r[j];
    ConsDistinct(x, r[..j], vars);
    assert xr[0] == x;
    if e.name in vx && e.firstLine == vx[e.name].declLine {
      if e.name != x.0 {
        assert e.name in vars && e.firstLine == vars[e.name].declLine;
      } else {
        assert xr[0].0 == e.name && xr[0].1.declLine == e.firstLine;
      }
    } else {
      var i :| 0 <= i < j && r[i].0 == e.name && r[i].1.declLine == e.firstLine;
      assert xr[i + 1] == r[i];
    }
    assert FirstClash(xr, vars, j + 1);
    assert ReportsClashAt(e, xr, vars, j + 1);
  }

  /** A failed extraction reports the first redefinition among the lines,
      naming its line and then the line of the earlier definition. */
  lemma {:induction false} RedefinitionFrom(lines: seq<CodeLine>, vars: VarTable)
    requires ExtractFrom(lines, vars).Err?
    ensures ReportsRedefinition(ExtractFrom(lines, vars).error, Definitions(lines), vars)
    decreases |lines|
  {
    var rest := lines[1..];
    var e := ExtractFrom(lines, vars).error;
    var d := Definition(lines[0].text);
    if d.None? {
      assert Definitions(lines) == Definitions(rest);
      assert ExtractFrom(lines, vars) == Prepend([lines[0]], ExtractFrom(rest, vars));
      RedefinitionFrom(rest, vars);
    } else {
      var name, v := d.value.0, Variable(d.value.1, lines[0].number);
      var defs := Definitions(lines);
      assert defs == [(name, v)] + Definitions(rest);
      if name in vars {
        assert e == VariableRedefined(name, lines[0].number, vars[name].declLine);
        assert defs[..0] == [];
        assert ReportsClashAt(e, defs, vars, 0);
      } else {
        assert ExtractFrom(lines, vars) == ExtractFrom(rest, vars[name := v]);
        RedefinitionFrom(rest, vars[name := v]);
        ReportsRedefinitionCons(e, (name, v), Definitions(rest), vars);
      }
    }
  }

  /** Only one error fits the description: the first clash is unique, and
      so is the earlier definition it clashes with. */
  lemma ReportsRedefinitionUnique(e1: CompileError, e2: CompileError, defs: seq<(string, Variable)>, vars: VarTable)
    requires ReportsRedefinition(e1, defs, vars) && ReportsRedefinition(e2, defs, vars)
    ensures e1 == e2
  {
    var j1 :| 0 <= j1 < |defs| && ReportsClashAt(e1, defs, vars, j1);
    var j2 :| 0 <= j2 < |defs| && ReportsClashAt(e2, defs, vars, j2);
    FirstClashUnique(defs, vars, j1, j2);
    FirstClashUnique(defs, vars, j2, j1);
    var j := j1;
    if e1.name in vars {
      forall i | 0 <= i < j ensures defs[i].0 != e1.name {
        PrefixNameNotIn(defs, vars, j, i);
      }
    } else {
      var i1 :| 0 <= i1 < j && defs[i1].0 == e1.name && defs[i1].1.declLine == e1.firstLine;
      var i2 :| 0 <= i2 < j && defs[i2].0 == e2.name && defs[i2].1.declLine == e2.firstLine;
      DistinctPrefixAt(defs, j, i1, i2);
    }
  }

  lemma PrefixNameNotIn(defs: seq<(string, Variable)>, vars: VarTable, j: nat, i: nat)
    requires i < j <= |defs| && NamesNotIn(defs[..j], vars)
    ensures defs[i].0 !in vars
  {
    assert defs[..j][i] == defs[i];
  }

  /** Within a prefix of distinct names, a name is at one place only. */
  lemma DistinctPrefixAt(defs: seq<(string, Variable)>, j: nat, a: nat, b: nat)
    requires a < j && b < j && j <= |defs| && DistinctNames(defs[..j]) && defs[a].0 == defs[b].0
    ensures a == b
  {
    var p := defs[..j];
    assert p[a] == defs[a] && p[b] == defs[b];
  }

  /** No clash comes before the first one. */
  lemma FirstClashUnique(defs: seq<(string, Variable)>, vars: VarTable, j1: nat, j2: nat)
    requires FirstClash(defs, vars, j1) && FirstClash(defs, vars, j2)
    ensures !(j1 < j2)
  {
  }

  /** A redefinition error for lines without a starting table: definition
      `j` is the first whose name occurs earlier, definition `i` is that
      earlier one, and the error names the name, `j`'s line and `i`'s
      line. */
  predicate RedefinedTwice(e: CompileError, defs: seq<(string, Variable)>) {
    exists i, j | 0 <= i < j < |defs| :: RepeatAt(e, defs, i, j)
  }

  /** `e` names definition `j`, the first whose name occurs earlier, and
      definition `i`, that earlier one. */
  predicate RepeatAt(e: CompileError, defs: seq<(string, Variable)>, i: nat, j: nat)
    requires i < j < |defs|
  {
    DistinctNames(defs[..j]) && defs[i].0 == defs[j].0
    && e == VariableRedefined(defs[j].0, defs[j].1.declLine, defs[i].1.declLine)
  }

  lemma NoPriorTable(e: CompileError, defs: seq<(string, Variable)>)
    requires ReportsRedefinition(e, defs, map[])
    ensures RedefinedTwice(e, defs)
  {
    var j :| 0 <= j < |defs| && ReportsClashAt(e, defs, map[], j);
    var i :| 0 <= i < j && defs[i].0 == e.name && defs[i].1.declLine == e.firstLine;
    assert RepeatAt(e, defs, i, j);
  }

  /** Redefining a variable reports the first definition whose name was
      already defined, with its line, and then the line of that name's
      first definition. */
  lemma {:induction false} RedefinitionReportsBothLines(lines: seq<CodeLine>)
    requires ExtractVariables(lines).Err?
    ensures RedefinedTwice(ExtractVariables(lines).error, Definitions(lines))
  {
    RedefinitionFrom(lines, map[]);
    NoPriorTable(ExtractVariables(lines).error, Definitions(lines));
  }

  /** Only one error fits `RedefinedTwice`. */
  lemma RedefinedTwiceUnique(e1: CompileError, e2: CompileError, defs: seq<(string, Variable)>)
    requires RedefinedTwice(e1, defs) && RedefinedTwice(e2, defs)
    ensures e1 == e2
  {
    var i1, j1 :| 0 <= i1 < j1 < |defs| && RepeatAt(e1, defs, i1, j1);
    var i2, j2 :| 0 <= i2 < j2 < |defs| && RepeatAt(e2, defs, i2, j2);
    if j1 < j2 {
      DistinctPrefixAt(defs, j2, i1, j1);
    } else if j2 < j1 {
      DistinctPrefixAt(defs, j1, i2, j2);
    } else {
      DistinctPrefixAt(defs, j1, i1, i2);
    }
  }

  function Names(defs: seq<(string, Variable)>): set<string> {
    set i | 0 <= i < |defs| :: defs[i].0
  }

  lemma DistinctAppend(p: seq<(string, Variable)>, q: seq<(string, Variable)>)
    ensures DistinctNames(p + q) <==> DistinctNames(p) && DistinctNames(q) && Names(p) !! Names(q)
  {
    var pq := p + q;
    if DistinctNames(pq) {
      forall i, j | 0 <= i < j < |p| ensures p[i].0 != p[j].0 {
        assert p[i] == pq[i] && p[j] == pq[j];
      }
      forall i, j | 0 <= i < j < |q| ensures q[i].0 != q[j].0 {
        assert q[i] == pq[|p| + i] && q[j] == pq[|p| + j];
      }
      forall n | n in Names(p) ensures n !in Names(q) {
        var i :| 0 <= i < |p| && p[i].0 == n;
        assert pq[i] == p[i];
        forall j | 0 <= j < |q| ensures q[j].0 != n {
          assert pq[|p| + j] == q[j];
        }
      }
    }
    if DistinctNames(p) && DistinctNames(q) && Names(p) !! Names(q) {
      forall i, j | 0 <= i < j < |pq| ensures pq[i].0 != pq[j].0 {
        if j < |p| {
        } else if i >= |p| {
          assert pq[i] == q[i - |p|] && pq[j] == q[j - |p|];
        } else {
          assert pq[j].0 == q[j - |p|].0 && q[j - |p|].0 in Names(q);
          assert pq[i].0 == p[i].0 && p[i].0 in Names(p);
        }
      }
    }
  }

  lemma NamesCons(x: (string, Variable), r: seq<(string, Variable)>)
    ensures Names([x] + r) == {x.0} + Names(r)
  {
    var xr := [x] + r;
    forall n | n in Names(xr) ensures n in {x.0} + Names(r) {
      var i :| 0 <= i < |xr| && xr[i].0 == n;
      if i > 0 { assert xr[i] == r[i - 1]; }
    }
    forall n | n in Names(r) ensures n in Names(xr) {
      var i :| 0 <= i < |r| && r[i].0 == n;
      assert xr[i + 1] == r[i];
    }
    assert xr[0] == x;
  }

  lemma {:induction false} TableKeys(p: seq<(string, Variable)>)
    ensures TableOf(p).Keys == Names(p)
    decreases |p|
  {
    if |p| > 0 {
      TableKeys(p[1..]);
      NamesCons(p[0], p[1..]);
      assert [p[0]] + p[1..] == p;
    }
  }

  lemma {:induction false} TableOfAppend(p: seq<(string, Variable)>, q: seq<(string, Variable)>)
    ensures TableOf(p + q) == TableOf(p) + TableOf(q)
    decreases |p|
  {
    if |p| == 0 {
      assert p + q == q;
      assert map[] + TableOf(q) == TableOf(q);
    } else {
      assert (p + q)[0] == p[0] && (p + q)[1..] == p[1..] + q;
      TableOfAppend(p[1..], q);
      MapUnionAssoc(map[p[0].0 := p[0].1], TableOf(p[1..]), TableOf(q));
    }
  }

  lemma MapUnionAssoc<K, V>(m: map<K, V>, a: map<K, V>, b: map<K, V>)
    ensures m + (a + b) == (m + a) + b
  {
    var l, r := m + (a + b), (m + a) + b;
    assert l.Keys == r.Keys;
    forall k | k in l ensures l[k] == r[k] {
    }
  }

  lemma NamesAppend(p: seq<(string, Variable)>, q: seq<(string, Variable)>)
    ensures Names(p + q) == Names(p) + Names(q)
  {
    var pq := p + q;
    forall n | n in Names(pq) ensures n in Names(p) + Names(q) {
      var i :| 0 <= i < |pq| && pq[i].0 == n;
      if i < |p| { assert pq[i] == p[i]; } else { assert pq[i] == q[i - |p|]; }
    }
    forall n | n in Names(p) + Names(q) ensures n in Names(pq) {
      if n in Names(p) {
        var i :| 0 <= i < |p| && p[i].0 == n;
        assert pq[i] == p[i];
      } else {
        var i :| 0 <= i < |q| && q[i].0 == n;
        assert pq[|p| + i] == q[i];
      }
    }
  }

  lemma MapUnionCommutes(m: VarTable, n: VarTable)
    requires m.Keys !! n.Keys
    ensures m + n == n + m
  {
  }

  /** Exchanging two blocks of definitions keeps the names distinct or not. */
  lemma SwapDistinct(x: seq<(string, Variable)>, y: seq<(string, Variable)>, z: seq<(string, Variable)>)
    ensures DistinctNames(x + y + z) <==> DistinctNames(y + x + z)
  {
    DistinctAppend(x + y, z);
    DistinctAppend(y + x, z);
    DistinctAppend(x, y);
    DistinctAppend(y, x);
    NamesAppend(x, y);
    NamesAppend(y, x);
  }

  /** With distinct names, exchanging two blocks of definitions builds the
      same table. */
  lemma {:induction false} SwapTable(x: seq<(string, Variable)>, y: seq<(string, Variable)>, z: seq<(string, Variable)>)
    requires DistinctNames(x + y + z)
    ensures TableOf(x + y + z) == TableOf(y + x + z)
  {
    DistinctAppend(x + y, z);
    DistinctAppend(x, y);
    TableOfAppend(x + y, z);
    TableOfAppend(y + x, z);
    TableOfAppend(x, y);
    TableOfAppend(y, x);
    TableKeys(x);
    TableKeys(y);
    MapUnionCommutes(TableOf(x), TableOf(y));
  }

  /** Where a definition stands makes no difference: moving a definition
      line to the front of the input (keeping its line number) yields the
      same kept lines and the same table, and success does not depend on
      it. */
  lemma DefinitionOrderIrrelevant(a: seq<CodeLine>, d: CodeLine, b: seq<CodeLine>)
    requires IsDefinition(d)
    ensures ExtractVariables(a + [d] + b).Ok? <==> ExtractVariables([d] + a + b).Ok?
    ensures ExtractVariables(a + [d] + b).Ok? ==> ExtractVariables(a + [d] + b) == ExtractVariables([d] + a + b)
  {
    var da, dd, db := Definitions(a), Definitions([d]), Definitions(b);
    MoveDefinition(a, d, b);
    ExtractVariablesSpec(a + [d] + b);
    ExtractVariablesSpec([d] + a + b);
    SwapDistinct(da, dd, db);
    if DistinctNames(da + dd + db) {
      SwapTable(da, dd, db);
    }
  }

  lemma {:induction false} MoveDefinition(a: seq<CodeLine>, d: CodeLine, b: seq<CodeLine>)
    requires IsDefinition(d)
    ensures Definitions(a + [d] + b) == Definitions(a) + Definitions([d]) + Definitions(b)
    ensures Definitions([d] + a + b) == Definitions([d]) + Definitions(a) + Definitions(b)
    ensures NonDefinitions(a + [d] + b) == NonDefinitions([d] + a + b)
  {
    DefinitionsSplit(a + [d], b);
    DefinitionsSplit(a, [d]);
    DefinitionsSplit([d] + a, b);
    DefinitionsSplit([d], a);
    var na, nb := NonDefinitions(a), NonDefinitions(b);
    NonDefinitionOne(d);
    assert na + [] == na && [] + na == na;
  }

  lemma NonDefinitionOne(d: CodeLine)
    requires IsDefinition(d)
    ensures NonDefinitions([d]) == []
  {
    assert [d][1..] == [];
  }

  /** `extractVariableDefinitions`: walks the lines, records every
      definition, refuses a redefinition, and deletes definition lines in
      place, staying at the same index after a deletion. */
  method ExtractVariableDefinitions(lines: seq<CodeLine>) returns (r: Result<(seq<CodeLine>, VarTable), CompileError>)
    ensures r == ExtractVariables(lines)
  {
    var vars: VarTable := map[];
    var current := lines;
    var i := 0;
    assert current[..0] == [] && current[0..] == lines;
    PrependNothing(ExtractVariables(lines));
    while i < |current|
      invariant 0 <= i <= |current|
      invariant ExtractVariables(lines) == Prepend(current[..i], ExtractFrom(current[i..], vars))
      decreases |current| - i
    {
      assert current[i..][1..] == current[i + 1..];
      var d := Definition(current[i].text);
      if d.Some? {
        var (name, text) := d.value;
        if name in vars {
          return Err(VariableRedefined(name, current[i].number, vars[name].declLine));
        }
        assert ExtractFrom(current[i..], vars) == ExtractFrom(current[i + 1..], vars[name := Variable(text, current[i].number)]);
        vars := vars[name := Variable(text, current[i].number)];
        var next := current[..i] + current[i + 1..];
        assert next[..i] == current[..i] && next[i..] == current[i + 1..];
        current := next;
      } else {
        assert ExtractFrom(current[i..], vars) == Prepend([current[i]], ExtractFrom(current[i + 1..], vars));
        PrependTwice(current[..i], [current[i]], ExtractFrom(current[i + 1..], vars));
        TakeOneMore(current, i);
        i := i + 1;
      }
    }
    assert current[i..] == [] && current[..i] == current;
    assert current + [] == current;
    r := Ok((current, vars));
  }

  /** Without definition lines there are no definitions and every line is
      kept. */
  lemma {:induction false} NoDefinitionLines(lines: seq<CodeLine>)
    requires forall k | 0 <= k < |lines| :: !IsDefinition(lines[k])
    ensures Definitions(lines) == [] && NonDefinitions(lines) == lines
    decreases |lines|
  {
    if |lines| > 0 {
      NoDefinitionLines(lines[1..]);
      assert [lines[0]] + lines[1..] == lines;
    }
  }
}
