/**
 * Variable substitution in running text (`replaceFirstVar` and the
 * specification of `replaceVars`): every `[name]` whose name is in the
 * completed variable table is replaced by the variable's value, and scanning
 * resumes after the inserted value, so a value is never scanned again.
 */
module Substitution {
  import opened Wrappers
  import opened Variables

  /** A `[` at `o` and a `]` at `c` enclosing a defined name. */
  predicate VarAt(vars: VarTable, text: string, o: int, c: int) {
    0 <= o < c < |text| && text[o] == '[' && text[c] == ']' && text[o + 1..c] in vars
  }

  /** `(o, c)` comes before `(o2, c2)` in the order `replaceFirstVar` tries
      them: by opening bracket, then by closing bracket. */
  predicate TriedBefore(o: int, c: int, o2: int, c2: int) {
    o < o2 || (o == o2 && c < c2)
  }

  /** The inner loop of `replaceFirstVar`: the first `]` from `c` on that
      closes a defined name opened at `o`. */
  function CloseFrom(vars: VarTable, text: string, o: nat, c: nat): (r: Option<nat>)
    requires o < c <= |text| && text[o] == '['
    ensures r.Some? ==>
      c <= r.value && VarAt(vars, text, o, r.value) && forall c2 | c <= c2 < r.value :: !VarAt(vars, text, o, c2)
    ensures r.None? ==> forall c2 | c <= c2 :: !VarAt(vars, text, o, c2)
    decreases |text| - c
  {
    if c == |text| then None
    else if text[c] == ']' && text[o + 1..c] in vars then Some(c)
    else CloseFrom(vars, text, o, c + 1)
  }

  /** The outer loop of `replaceFirstVar` from the opening position `o` on. */
  function FirstVarFrom(vars: VarTable, text: string, o: nat): (r: Option<(nat, nat)>)
    requires o <= |text|
    ensures r.Some? ==>
      o <= r.value.0 && VarAt(vars, text, r.value.0, r.value.1) && forall o2, c2 | o <= o2 && TriedBefore(o2, c2, r.value.0, r.value.1) :: !VarAt(vars, text, o2, c2)
    ensures r.None? ==> forall o2, c2 | o <= o2 :: !VarAt(vars, text, o2, c2)
    decreases |text| - o
  {
    if o == |text| then None
    else if text[o] == '[' && o + 1 <= |text| && CloseFrom(vars, text, o, o + 1).Some? then
      Some((o, CloseFrom(vars, text, o, o + 1).value))
    else FirstVarFrom(vars, text, o + 1)
  }

  /** The first defined `[name]` in the text: the earliest opening bracket,
      and for it the earliest closing bracket, that enclose a defined name. */
  function FirstVar(vars: VarTable, text: string): (r: Option<(nat, nat)>)
    ensures r.Some? ==>
      VarAt(vars, text, r.value.0, r.value.1) && forall o2, c2 | TriedBefore(o2, c2, r.value.0, r.value.1) :: !VarAt(vars, text, o2, c2)
    ensures r.None? ==> forall o2, c2 :: !VarAt(vars, text, o2, c2)
  {
    FirstVarFrom(vars, text, 0)
  }

  /** `replaceFirstVar`: the text with its first defined `[name]` replaced
      by the value, whether one was found, and the index just after the
      inserted value. */
  function ReplaceFirstVar(vars: VarTable, text: string): (r: (string, bool, nat))
    ensures r.2 <= |r.0|
    ensures !r.1 ==> r == (text, false, 0)
    ensures r.1 ==> exists o, c | VarAt(vars, text, o, c) ::
      r.0 == text[..o] + vars[text[o + 1..c]].text + text[c + 1..] && r.2 == o + |vars[text[o + 1..c]].text|
  {
    match FirstVar(vars, text)
    case None => (text, false, 0)
    case Some((o, c)) =>
      var value := vars[text[o + 1..c]].text;
      (text[..o] + value + text[c + 1..], true, o + |value|)
  }

  /** What `replaceVars` computes: each first defined `[name]` in turn is
      replaced, and the search goes on after the closing bracket. */
  function Subst(vars: VarTable, text: string): string
    decreases |text|
  {
    match FirstVar(vars, text)
    case None => text
    case Some((o, c)) => text[..o] + vars[text[o + 1..c]].text + Subst(vars, text[c + 1..])
  }

  /** One round of `replaceVars`: the part up to the end of the inserted
      value is final, and substitution goes on in what follows. */
  lemma {:induction false} SubstStep(vars: VarTable, text: string)
    ensures var (replaced, found, next) := ReplaceFirstVar(vars, text);
      if found then Subst(vars, text) == replaced[..next] + Subst(vars, replaced[next..])
        && |replaced[next..]| < |text|
      else Subst(vars, text) == text
  {
    match FirstVar(vars, text)
    case None =>
    case Some((o, c)) =>
      var value := vars[text[o + 1..c]].text;
      var replaced := text[..o] + value + text[c + 1..];
      assert replaced[..o + |value|] == text[..o] + value;
      assert replaced[o + |value|..] == text[c + 1..];
  }

  /** Text without an opening bracket is left as it is. */
  lemma {:induction false} SubstNoBracket(vars: VarTable, text: string)
    requires '[' !in text
    ensures Subst(vars, text) == text
  {
  }

  /** With no variables, nothing is replaced. */
  lemma {:induction false} SubstNoVariables(text: string)
    ensures Subst(map[], text) == text
  {
  }

  /** A defined `[name]` (with no `]` inside the name) that follows text
      without brackets is replaced by its value, and the value is never
      scanned again: substitution goes on after the closing bracket. */
  lemma {:induction false} SubstVariable(vars: VarTable, before: string, name: string, after: string)
    requires '[' !in before && ']' !in name && name in vars
    ensures Subst(vars, before + "[" + name + "]" + after) == before + vars[name].text + Subst(vars, after)
  {
    var text := before + "[" + name + "]" + after;
    var o, c := |before|, |before| + 1 + |name|;
    assert text[o] == '[' && text[c] == ']' && text[o + 1..c] == name;
    assert VarAt(vars, text, o, c);
    var r := FirstVar(vars, text);
    assert r.Some?;
    var (o1, c1) := r.value;
    forall k | 0 <= k < o ensures text[k] != '[' {
      assert text[k] == before[k];
    }
    forall k | o < k < c ensures text[k] != ']' {
      assert text[k] == name[k - o - 1];
    }
    assert !TriedBefore(o, c, o1, c1);
    assert o1 == o && c1 == c;
    assert text[..o] == before && text[c + 1..] == after;
  }
}
