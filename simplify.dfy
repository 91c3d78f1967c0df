/**
 * The last step of parsing (`simplifyDoc`): neighbouring text parts are
 * merged into one. `Coalesce` specifies the result as a fold from the left,
 * which is the order in which the source's loop merges.
 */
module Simplify {
  import opened Document

  /** Adds one part to an already simplified prefix: a text part that
      follows a text part is appended to it. */
  function Merge(acc: seq<DocPart>, p: DocPart): (r: seq<DocPart>)
    ensures |r| == |acc| || |r| == |acc| + 1
  {
    if |acc| > 0 && acc[|acc| - 1].Text? && p.Text? then
      acc[..|acc| - 1] + [Text(acc[|acc| - 1].text + p.text)]
    else acc + [p]
  }

  /** What `simplifyDoc` leaves of the parts. */
  function Coalesce(parts: seq<DocPart>): (r: seq<DocPart>)
    ensures |r| <= |parts|
    ensures |r| == 0 <==> |parts| == 0
    decreases |parts|
  {
    if |parts| == 0 then [] else Merge(Coalesce(parts[..|parts| - 1]), parts[|parts| - 1])
  }

  /** One more part in the input is merged into the simplified prefix. */
  lemma CoalesceStep(parts: seq<DocPart>, k: nat)
    requires k < |parts|
    ensures Coalesce(parts[..k + 1]) == Merge(Coalesce(parts[..k]), parts[k])
  {
    assert parts[..k + 1][..k] == parts[..k];
  }

  predicate NoAdjacentTexts(parts: seq<DocPart>) {
    forall k | 0 <= k < |parts| - 1 :: !(parts[k].Text? && parts[k + 1].Text?)
  }

  lemma MergeKeepsNoAdjacentTexts(acc: seq<DocPart>, p: DocPart)
    requires NoAdjacentTexts(acc)
    ensures NoAdjacentTexts(Merge(acc, p))
  {
    var r := Merge(acc, p);
    if |acc| > 0 && acc[|acc| - 1].Text? && p.Text? {
      forall k | 0 <= k < |r| - 1 ensures !(r[k].Text? && r[k + 1].Text?) {
        assert r[k] == acc[k];
        if k + 1 < |r| - 1 {
          assert r[k + 1] == acc[k + 1];
        }
      }
    } else {
      forall k | 0 <= k < |r| - 1 ensures !(r[k].Text? && r[k + 1].Text?) {
        assert r[k] == acc[k];
        if k + 1 < |r| - 1 {
          assert r[k + 1] == acc[k + 1];
        }
      }
    }
  }

  /** After simplification no two text parts are neighbours. */
  lemma {:induction false} CoalesceNoAdjacentTexts(parts: seq<DocPart>)
    ensures NoAdjacentTexts(Coalesce(parts))
    decreases |parts|
  {
    if |parts| > 0 {
      CoalesceNoAdjacentTexts(parts[..|parts| - 1]);
      MergeKeepsNoAdjacentTexts(Coalesce(parts[..|parts| - 1]), parts[|parts| - 1]);
    }
  }

  /** Parts without neighbouring texts are left as they are. */
  lemma {:induction false} CoalesceFixed(parts: seq<DocPart>)
    requires NoAdjacentTexts(parts)
    ensures Coalesce(parts) == parts
    decreases |parts|
  {
    if |parts| > 0 {
      var init := parts[..|parts| - 1];
      assert NoAdjacentTexts(init) by {
        forall k | 0 <= k < |init| - 1 ensures !(init[k].Text? && init[k + 1].Text?) {
          assert init[k] == parts[k] && init[k + 1] == parts[k + 1];
        }
      }
      CoalesceFixed(init);
      assert init + [parts[|parts| - 1]] == parts;
    }
  }

  /** Simplifying twice is simplifying once. */
  lemma {:induction false} CoalesceIdempotent(parts: seq<DocPart>)
    ensures Coalesce(Coalesce(parts)) == Coalesce(parts)
  {
    CoalesceNoAdjacentTexts(parts);
    CoalesceFixed(Coalesce(parts));
  }

  /** The document read as a stream of characters and non-text parts. */
  datatype Item = Char(c: char) | Part(p: DocPart)

  function Chars(s: string): (r: seq<Item>)
    ensures |r| == |s| && forall k | 0 <= k < |s| :: r[k] == Char(s[k])
  {
    seq(|s|, k requires 0 <= k < |s| => Char(s[k]))
  }

  function Spell(parts: seq<DocPart>): seq<Item>
    decreases |parts|
  {
    if |parts| == 0 then []
    else Spell(parts[..|parts| - 1]) + SpellOne(parts[|parts| - 1])
  }

  function SpellOne(p: DocPart): seq<Item> {
    if p.Text? then Chars(p.text) else [Part(p)]
  }

  lemma {:induction false} SpellLast(acc: seq<DocPart>, p: DocPart)
    ensures Spell(acc + [p]) == Spell(acc) + SpellOne(p)
  {
    assert (acc + [p])[..|acc|] == acc;
  }

  lemma {:induction false} MergeSpelling(acc: seq<DocPart>, p: DocPart)
    ensures Spell(Merge(acc, p)) == Spell(acc) + SpellOne(p)
  {
    if |acc| > 0 && acc[|acc| - 1].Text? && p.Text? {
      var init, last := acc[..|acc| - 1], acc[|acc| - 1];
      SpellLast(init, Text(last.text + p.text));
      assert Chars(last.text + p.text) == Chars(last.text) + Chars(p.text);
      assert Spell(acc) == Spell(init) + Chars(last.text);
    } else {
      SpellLast(acc, p);
    }
  }

  /** Simplification changes where texts are cut and nothing else: read
      character by character, the document is the same. */
  lemma {:induction false} CoalesceSpelling(parts: seq<DocPart>)
    ensures Spell(Coalesce(parts)) == Spell(parts)
    decreases |parts|
  {
    if |parts| > 0 {
      CoalesceSpelling(parts[..|parts| - 1]);
      MergeSpelling(Coalesce(parts[..|parts| - 1]), parts[|parts| - 1]);
    }
  }

  /** The texts of the text parts, run together. */
  function AllText(parts: seq<DocPart>): string
    decreases |parts|
  {
    if |parts| == 0 then ""
    else AllText(parts[..|parts| - 1]) + (if parts[|parts| - 1].Text? then parts[|parts| - 1].text else "")
  }

  /** Parts that are all text become a single text part. */
  lemma {:induction false} CoalesceAllText(parts: seq<DocPart>)
    requires forall k | 0 <= k < |parts| :: parts[k].Text?
    ensures Coalesce(parts) == if |parts| == 0 then [] else [Text(AllText(parts))]
    decreases |parts|
  {
    if |parts| == 1 {
      assert parts[..0] == [];
      assert "" + parts[0].text == parts[0].text;
    } else if |parts| > 1 {
      CoalesceAllText(parts[..|parts| - 1]);
    }
  }

  /** The texts of two runs of text parts, run together. */
  lemma {:induction false} AllTextAppend(a: seq<DocPart>, b: seq<DocPart>)
    ensures AllText(a + b) == AllText(a) + AllText(b)
    decreases |b|
  {
    if |b| == 0 {
      assert a + b == a;
    } else {
      var init := b[..|b| - 1];
      AllTextAppend(a, init);
      assert (a + b)[..|a + b| - 1] == a + init;
    }
  }
}
