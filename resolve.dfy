/**
 * Reference resolution (`resolveRefs`): anchors are inserted in front of
 * every heading some reference names, and every reference still to be
 * resolved becomes a link to such an anchor, a web link or a mail link, or
 * the first one that is none of these stops the compiler.
 */
module Resolve {
  import opened Wrappers
  import opened Strings
  import opened Document
  import opened Errors

  /** The texts the references still to be resolved point to. */
  function Referenced(parts: seq<DocPart>): set<string> {
    set k | 0 <= k < |parts| && parts[k].TempRef? :: parts[k].target
  }

  /** The anchor ids given so far, by heading text. */
  type Targets = map<string, int>

  /** The insertion loop of `resolveRefs` over the remaining parts: in
      front of each heading whose text is referenced goes an anchor whose id
      is one more than the number of texts given an id so far, and the text
      is (re)assigned that id. */
  function InsertFrom(parts: seq<DocPart>, referenced: set<string>, targets: Targets): (r: (seq<DocPart>, Targets))
    ensures forall k | 0 <= k < |r.0| :: r.0[k].LinkTarget? || r.0[k] in parts
    decreases |parts|
  {
    if |parts| == 0 then ([], targets)
    else
      var p := parts[0];
      if IsHeading(p) && HeadingText(p) in referenced then
        var id := |targets| + 1;
        var r := InsertFrom(parts[1..], referenced, targets[HeadingText(p) := id]);
        ([LinkTarget(id), p] + r.0, r.1)
      else
        var r := InsertFrom(parts[1..], referenced, targets);
        ([p] + r.0, r.1)
  }

  /** The parts with their anchors and the ids given to heading texts. */
  function InsertTargets(parts: seq<DocPart>): (seq<DocPart>, Targets) {
    InsertFrom(parts, Referenced(parts), map[])
  }

  /** The text a link shows: its own text, or else its target. */
  function LinkText(text: string, target: string): string {
    if text == "" then target else text
  }

  predicate IsWebAddress(target: string) {
    HasPrefix(target, "www.") || HasPrefix(target, "http://www.") || HasPrefix(target, "https://www.")
  }

  /** What one part becomes in the rewriting loop of `resolveRefs`. Parts
      other than references are kept. A reference to a heading text becomes
      a link to its anchor; otherwise a web address becomes a web link (a
      bare `www.` address gets `http://` in front); otherwise an address the
      mail address parser accepts, with or without `mailto:`, becomes a mail
      link; otherwise the reference is an error. An id of 0 stands for a text
      without an anchor, as it does in the source. */
  function ResolvePart(p: DocPart, targets: Targets, parseAddress: string -> Option<string>): (r: Result<DocPart, CompileError>)
    ensures !p.TempRef? ==> r == Ok(p)
    ensures r.Ok? ==> !r.value.TempRef?
    ensures r.Err? ==> p.TempRef? && r.error == UnknownLinkTarget(p.target, p.declLine)
    ensures p.TempRef? && r.Ok? && r.value.Link? ==> p.target in targets && r.value.id == targets[p.target]
    ensures p.TempRef? && p.target in targets && targets[p.target] != 0 ==>
      r == Ok(Link(targets[p.target], LinkText(p.text, p.target)))
  {
    if !p.TempRef? then Ok(p)
    else
      var id := if p.target in targets then targets[p.target] else 0;
      if id == 0 then
        if IsWebAddress(p.target) then
          var url := if HasPrefix(p.target, "www.") then "http://" + p.target else p.target;
          Ok(ExternalLink(url, LinkText(p.text, p.target)))
        else
          match parseAddress(TrimPrefix(p.target, "mailto:"))
          case Some(addr) => Ok(ExternalLink("mailto:" + addr, LinkText(p.text, addr)))
          case None => Err(UnknownLinkTarget(p.target, p.declLine))
      else Ok(Link(id, LinkText(p.text, p.target)))
  }

  /** A reference to a text without an anchor: a web address becomes a web
      link, with `http://` in front of a bare `www.` address; otherwise an
      address the mail parser accepts, after any `mailto:` is taken off,
      becomes a `mailto:` link showing the parsed address unless the
      reference has its own text; anything else is an unknown target. */
  lemma ExternalTargets(declLine: int, target: string, text: string, targets: Targets, parseAddress: string -> Option<string>)
    requires target !in targets || targets[target] == 0
    ensures var r := ResolvePart(TempRef(declLine, target, text), targets, parseAddress);
      var shown := if text == "" then target else text;
      var addr := parseAddress(TrimPrefix(target, "mailto:"));
      && (HasPrefix(target, "www.") ==> r == Ok(ExternalLink("http://" + target, shown)))
      && (HasPrefix(target, "http://www.") || HasPrefix(target, "https://www.") ==> r == Ok(ExternalLink(target, shown)))
      && (!IsWebAddress(target) && addr.Some? ==>
            r == Ok(ExternalLink("mailto:" + addr.value, if text == "" then addr.value else text)))
      && (!IsWebAddress(target) && addr.None? ==> r == Err(UnknownLinkTarget(target, declLine)))
  {
    if HasPrefix(target, "http://www.") || HasPrefix(target, "https://www.") {
      assert target[0] == 'h' by {
        if HasPrefix(target, "http://www.") { assert target[..11][0] == 'h'; }
        else { assert target[..12][0] == 'h'; }
      }
    }
  }

  /** The rewriting loop: every part rewritten in order, or the error of
      the first part that cannot be. */
  function Rewrite(parts: seq<DocPart>, targets: Targets, parseAddress: string -> Option<string>): (r: Result<seq<DocPart>, CompileError>)
    ensures r.Ok? ==> |r.value| == |parts|
    decreases |parts|
  {
    if |parts| == 0 then Ok([])
    else
      match ResolvePart(parts[0], targets, parseAddress)
      case Err(e) => Err(e)
      case Ok(q) =>
        match Rewrite(parts[1..], targets, parseAddress)
        case Err(e) => Err(e)
        case Ok(qs) => Ok([q] + qs)
  }

  /** The rewriting succeeds with each part rewritten at its place, or
      fails with the error of a part all of whose predecessors resolve. */
  lemma {:induction false} RewriteSpec(parts: seq<DocPart>, targets: Targets, parseAddress: string -> Option<string>)
    ensures var r := Rewrite(parts, targets, parseAddress);
      (r.Ok? ==> forall k | 0 <= k < |parts| :: ResolvePart(parts[k], targets, parseAddress) == Ok(r.value[k]))
      && (r.Err? ==> exists k | 0 <= k < |parts| ::
        ResolvePart(parts[k], targets, parseAddress) == Err(r.error)
        && forall j | 0 <= j < k :: ResolvePart(parts[j], targets, parseAddress).Ok?)
    decreases |parts|
  {
    if |parts| > 0 {
      var tail := parts[1..];
      RewriteSpec(tail, targets, parseAddress);
      assert forall k | 1 <= k < |parts| :: tail[k - 1] == parts[k];
      var r := Rewrite(parts, targets, parseAddress);
      if r.Err? && ResolvePart(parts[0], targets, parseAddress).Ok? {
        var rt := Rewrite(tail, targets, parseAddress);
        var k :| 0 <= k < |tail| && ResolvePart(tail[k], targets, parseAddress) == Err(rt.error)
          && forall j | 0 <= j < k :: ResolvePart(tail[j], targets, parseAddress).Ok?;
        assert ResolvePart(parts[k + 1], targets, parseAddress) == Err(r.error);
      }
    }
  }

  /** Conversely, parts that each resolve are rewritten into what they
      resolve to. */
  lemma {:induction false} RewriteAllOk(parts: seq<DocPart>, out: seq<DocPart>, targets: Targets, parseAddress: string -> Option<string>)
    requires |out| == |parts|
    requires forall k | 0 <= k < |parts| :: ResolvePart(parts[k], targets, parseAddress) == Ok(out[k])
    ensures Rewrite(parts, targets, parseAddress) == Ok(out)
    decreases |parts|
  {
    if |parts| > 0 {
      assert ResolvePart(parts[0], targets, parseAddress) == Ok(out[0]);
      assert forall k | 0 <= k < |parts| - 1 :: parts[1..][k] == parts[k + 1] && out[1..][k] == out[k + 1];
      RewriteAllOk(parts[1..], out[1..], targets, parseAddress);
      assert [out[0]] + out[1..] == out;
    }
  }

  /** And the first part that does not resolve makes the rewriting fail
      with its error. */
  lemma {:induction false} RewriteFirstErr(parts: seq<DocPart>, k: nat, targets: Targets, parseAddress: string -> Option<string>)
    requires k < |parts| && ResolvePart(parts[k], targets, parseAddress).Err?
    requires forall j | 0 <= j < k :: ResolvePart(parts[j], targets, parseAddress).Ok?
    ensures Rewrite(parts, targets, parseAddress) == Err(ResolvePart(parts[k], targets, parseAddress).error)
    decreases k
  {
    if k > 0 {
      assert ResolvePart(parts[0], targets, parseAddress).Ok?;
      assert forall j | 0 <= j < k :: parts[1..][j] == parts[j + 1];
      RewriteFirstErr(parts[1..], k - 1, targets, parseAddress);
    }
  }

  /** What `resolveRefs` makes of the parts. */
  function Resolve(parts: seq<DocPart>, parseAddress: string -> Option<string>): Result<seq<DocPart>, CompileError> {
    var (anchored, targets) := InsertTargets(parts);
    Rewrite(anchored, targets, parseAddress)
  }

  /** The parts without the anchors. */
  function WithoutAnchors(parts: seq<DocPart>): seq<DocPart>
    decreases |parts|
  {
    if |parts| == 0 then []
    else (if parts[0].LinkTarget? then [] else [parts[0]]) + WithoutAnchors(parts[1..])
  }

  predicate NoAnchors(parts: seq<DocPart>) {
    forall k | 0 <= k < |parts| :: !parts[k].LinkTarget?
  }

  lemma {:induction false} WithoutAnchorsCons(p: DocPart, rest: seq<DocPart>)
    ensures WithoutAnchors([p] + rest) == (if p.LinkTarget? then [] else [p]) + WithoutAnchors(rest)
  {
    assert ([p] + rest)[0] == p && ([p] + rest)[1..] == rest;
  }

  /** Every part is visited once and kept in order: taking the anchors out
      again gives back the parts. */
  lemma {:induction false} WithoutAnchorsStep(id: int, p: DocPart, rest: seq<DocPart>, tail: seq<DocPart>)
    requires !p.LinkTarget? && WithoutAnchors(rest) == tail
    ensures WithoutAnchors([p] + rest) == [p] + tail
    ensures WithoutAnchors([LinkTarget(id), p] + rest) == [p] + tail
  {
    WithoutAnchorsCons(p, rest);
    assert [LinkTarget(id), p] + rest == [LinkTarget(id)] + ([p] + rest);
    WithoutAnchorsCons(LinkTarget(id), [p] + rest);
  }

  lemma {:induction false} InsertKeepsParts(parts: seq<DocPart>, referenced: set<string>, targets: Targets)
    requires NoAnchors(parts)
    ensures WithoutAnchors(InsertFrom(parts, referenced, targets).0) == parts
    decreases |parts|
  {
    if |parts| > 0 {
      var p := parts[0];
      assert parts == [p] + parts[1..];
      if IsHeading(p) && HeadingText(p) in referenced {
        var id := |targets| + 1;
        var rest := InsertFrom(parts[1..], referenced, targets[HeadingText(p) := id]).0;
        InsertKeepsParts(parts[1..], referenced, targets[HeadingText(p) := id]);
        assert InsertFrom(parts, referenced, targets).0 == [LinkTarget(id), p] + rest;
        WithoutAnchorsStep(id, p, rest, parts[1..]);
      } else {
        var rest := InsertFrom(parts[1..], referenced, targets).0;
        InsertKeepsParts(parts[1..], referenced, targets);
        assert InsertFrom(parts, referenced, targets).0 == [p] + rest;
        WithoutAnchorsStep(0, p, rest, parts[1..]);
      }
    }
  }

  /** Every anchor stands immediately before a heading whose text is
      referenced, and every such heading has an anchor immediately before
      it. */
  predicate AnchorsPlaced(out: seq<DocPart>, referenced: set<string>) {
    (forall k | 0 <= k < |out| && out[k].LinkTarget? ::
      k + 1 < |out| && IsHeading(out[k + 1]) && HeadingText(out[k + 1]) in referenced)
    && (forall k | 0 <= k < |out| && IsHeading(out[k]) && HeadingText(out[k]) in referenced ::
      k > 0 && out[k - 1].LinkTarget?)
  }

  lemma AnchorsPlacedAnchor(id: int, p: DocPart, rest: seq<DocPart>, referenced: set<string>)
    requires IsHeading(p) && HeadingText(p) in referenced && AnchorsPlaced(rest, referenced)
    ensures AnchorsPlaced([LinkTarget(id), p] + rest, referenced)
  {
    var out := [LinkTarget(id), p] + rest;
    forall k | 0 <= k < |out| && out[k].LinkTarget?
      ensures k + 1 < |out| && IsHeading(out[k + 1]) && HeadingText(out[k + 1]) in referenced
    {
      if k >= 2 {
        assert out[k] == rest[k - 2];
        assert out[k + 1] == rest[k - 1];
      }
    }
    forall k | 0 <= k < |out| && IsHeading(out[k]) && HeadingText(out[k]) in referenced
      ensures k > 0 && out[k - 1].LinkTarget?
    {
      if k >= 2 {
        assert out[k] == rest[k - 2];
        if k >= 3 {
          assert out[k - 1] == rest[k - 3];
        }
      }
    }
  }

  lemma AnchorsPlacedOther(p: DocPart, rest: seq<DocPart>, referenced: set<string>)
    requires !p.LinkTarget? && !(IsHeading(p) && HeadingText(p) in referenced) && AnchorsPlaced(rest, referenced)
    ensures AnchorsPlaced([p] + rest, referenced)
  {
    var out := [p] + rest;
    forall k | 0 <= k < |out| && out[k].LinkTarget?
      ensures k + 1 < |out| && IsHeading(out[k + 1]) && HeadingText(out[k + 1]) in referenced
    {
      assert out[k] == rest[k - 1];
      assert out[k + 1] == rest[k];
    }
    forall k | 0 <= k < |out| && IsHeading(out[k]) && HeadingText(out[k]) in referenced
      ensures k > 0 && out[k - 1].LinkTarget?
    {
      assert out[k] == rest[k - 1];
      if k >= 2 {
        assert out[k - 1] == rest[k - 2];
      }
    }
  }

  /** The insertion puts an anchor before every referenced heading and
      nowhere else. */
  lemma {:induction false} AnchorsBeforeReferencedHeadings(parts: seq<DocPart>, referenced: set<string>, targets: Targets)
    requires NoAnchors(parts)
    ensures AnchorsPlaced(InsertFrom(parts, referenced, targets).0, referenced)
    decreases |parts|
  {
    if |parts| > 0 {
      var p := parts[0];
      if IsHeading(p) && HeadingText(p) in referenced {
        var id := |targets| + 1;
        var rest := InsertFrom(parts[1..], referenced, targets[HeadingText(p) := id]).0;
        AnchorsBeforeReferencedHeadings(parts[1..], referenced, targets[HeadingText(p) := id]);
        assert InsertFrom(parts, referenced, targets).0 == [LinkTarget(id), p] + rest;
        AnchorsPlacedAnchor(id, p, rest, referenced);
      } else {
        var rest := InsertFrom(parts[1..], referenced, targets).0;
        AnchorsBeforeReferencedHeadings(parts[1..], referenced, targets);
        assert InsertFrom(parts, referenced, targets).0 == [p] + rest;
        AnchorsPlacedOther(p, rest, referenced);
      }
    }
  }

  /** An anchor with the given id stands immediately before a heading with
      the given text. */
  predicate AnchoredIn(parts: seq<DocPart>, id: int, text: string) {
    exists k | 0 <= k < |parts| - 1 :: parts[k] == LinkTarget(id) && IsHeading(parts[k + 1]) && HeadingText(parts[k + 1]) == text
  }

  lemma AnchoredAfter(prefix: seq<DocPart>, rest: seq<DocPart>, id: int, text: string)
    requires AnchoredIn(rest, id, text)
    ensures AnchoredIn(prefix + rest, id, text)
  {
    var k :| 0 <= k < |rest| - 1 && rest[k] == LinkTarget(id) && IsHeading(rest[k + 1]) && HeadingText(rest[k + 1]) == text;
    var out := prefix + rest;
    assert out[|prefix| + k] == rest[k] && out[|prefix| + k + 1] == rest[k + 1];
  }

  /** Every text in `res` either kept the id it had in `targets` or has
      an anchor with its id in front of a heading with that text. */
  predicate TargetsAnchored(out: seq<DocPart>, res: Targets, targets: Targets) {
    forall t | t in res :: (t in targets && res[t] == targets[t]) || AnchoredIn(out, res[t], t)
  }

  lemma TargetsAnchoredAnchor(id: int, p: DocPart, rest: seq<DocPart>, res: Targets, targets: Targets)
    requires IsHeading(p) && TargetsAnchored(rest, res, targets[HeadingText(p) := id])
    ensures TargetsAnchored([LinkTarget(id), p] + rest, res, targets)
  {
    var out := [LinkTarget(id), p] + rest;
    forall t | t in res ensures (t in targets && res[t] == targets[t]) || AnchoredIn(out, res[t], t) {
      if AnchoredIn(rest, res[t], t) {
        AnchoredAfter([LinkTarget(id), p], rest, res[t], t);
      } else if t == HeadingText(p) {
        assert out[0] == LinkTarget(id) && out[1] == p;
      }
    }
  }

  lemma TargetsAnchoredOther(p: DocPart, rest: seq<DocPart>, res: Targets, targets: Targets)
    requires TargetsAnchored(rest, res, targets)
    ensures TargetsAnchored([p] + rest, res, targets)
  {
    forall t | t in res && AnchoredIn(rest, res[t], t) ensures AnchoredIn([p] + rest, res[t], t) {
      AnchoredAfter([p], rest, res[t], t);
    }
  }

  /** Every id the insertion gives a text is the id of an anchor placed
      before a heading with that text (or was given before and kept). */
  lemma {:induction false} TargetsAreAnchored(parts: seq<DocPart>, referenced: set<string>, targets: Targets)
    ensures TargetsAnchored(InsertFrom(parts, referenced, targets).0, InsertFrom(parts, referenced, targets).1, targets)
    decreases |parts|
  {
    if |parts| > 0 {
      var p := parts[0];
      if IsHeading(p) && HeadingText(p) in referenced {
        var id := |targets| + 1;
        var r := InsertFrom(parts[1..], referenced, targets[HeadingText(p) := id]);
        TargetsAreAnchored(parts[1..], referenced, targets[HeadingText(p) := id]);
        assert InsertFrom(parts, referenced, targets) == ([LinkTarget(id), p] + r.0, r.1);
        TargetsAnchoredAnchor(id, p, r.0, r.1, targets);
      } else {
        var r := InsertFrom(parts[1..], referenced, targets);
        TargetsAreAnchored(parts[1..], referenced, targets);
        assert InsertFrom(parts, referenced, targets) == ([p] + r.0, r.1);
        TargetsAnchoredOther(p, r.0, r.1, targets);
      }
    }
  }

  /** No two referenced headings share a text. */
  predicate DistinctReferencedHeadings(parts: seq<DocPart>, referenced: set<string>) {
    forall a, b | 0 <= a < b < |parts| && IsHeading(parts[a]) && IsHeading(parts[b]) && HeadingText(parts[a]) in referenced ::
      HeadingText(parts[a]) != HeadingText(parts[b])
  }

  /** No referenced heading text has been given an id yet. */
  predicate NotYetTargets(parts: seq<DocPart>, referenced: set<string>, targets: Targets) {
    forall k | 0 <= k < |parts| && IsHeading(parts[k]) && HeadingText(parts[k]) in referenced ::
      HeadingText(parts[k]) !in targets
  }

  lemma DistinctTail(parts: seq<DocPart>, referenced: set<string>, targets: Targets)
    requires |parts| > 0 && DistinctReferencedHeadings(parts, referenced) && NotYetTargets(parts, referenced, targets)
    ensures DistinctReferencedHeadings(parts[1..], referenced)
    ensures NotYetTargets(parts[1..], referenced, targets)
    ensures IsHeading(parts[0]) && HeadingText(parts[0]) in referenced ==>
      NotYetTargets(parts[1..], referenced, targets[HeadingText(parts[0]) := |targets| + 1])
  {
    var tail := parts[1..];
    forall a, b | 0 <= a < b < |tail| && IsHeading(tail[a]) && IsHeading(tail[b]) && HeadingText(tail[a]) in referenced
      ensures HeadingText(tail[a]) != HeadingText(tail[b])
    {
      assert tail[a] == parts[a + 1] && tail[b] == parts[b + 1];
    }
    forall k | 0 <= k < |tail| && IsHeading(tail[k]) && HeadingText(tail[k]) in referenced
      ensures HeadingText(tail[k]) !in targets
    {
      assert tail[k] == parts[k + 1];
    }
    if IsHeading(parts[0]) && HeadingText(parts[0]) in referenced {
      forall k | 0 <= k < |tail| && IsHeading(tail[k]) && HeadingText(tail[k]) in referenced
        ensures HeadingText(tail[k]) != HeadingText(parts[0])
      {
        assert tail[k] == parts[k + 1];
      }
    }
  }

  /** Every anchor id is above `n`, and the ids grow strictly from left to
      right. */
  predicate IdsIncreaseAbove(out: seq<DocPart>, n: int) {
    (forall k | 0 <= k < |out| && out[k].LinkTarget? :: out[k].id > n)
    && forall a, b | 0 <= a < b < |out| && out[a].LinkTarget? && out[b].LinkTarget? :: out[a].id < out[b].id
  }

  lemma IdsIncreaseAnchor(id: int, p: DocPart, rest: seq<DocPart>)
    requires !p.LinkTarget? && IdsIncreaseAbove(rest, id)
    ensures IdsIncreaseAbove([LinkTarget(id), p] + rest, id - 1)
  {
    var out := [LinkTarget(id), p] + rest;
    assert forall k | 2 <= k < |out| :: out[k] == rest[k - 2];
  }

  lemma IdsIncreaseOther(p: DocPart, rest: seq<DocPart>, n: int)
    requires !p.LinkTarget? && IdsIncreaseAbove(rest, n)
    ensures IdsIncreaseAbove([p] + rest, n)
  {
    var out := [p] + rest;
    assert forall k | 1 <= k < |out| :: out[k] == rest[k - 1];
  }

  /** The number of anchors in `s`. */
  function AnchorCount(s: seq<DocPart>): nat
    decreases |s|
  {
    if |s| == 0 then 0 else (if s[0].LinkTarget? then 1 else 0) + AnchorCount(s[1..])
  }

  /** Each anchor's id is `n` plus its place among the anchors: the first
      gets `n + 1`, the second `n + 2`, and so on. */
  predicate IdsNumbered(out: seq<DocPart>, n: int) {
    forall k | 0 <= k < |out| && out[k].LinkTarget? :: out[k].id == n + AnchorCount(out[..k]) + 1
  }

  lemma AnchorCountOther(p: DocPart, q: seq<DocPart>)
    requires !p.LinkTarget?
    ensures AnchorCount([p] + q) == AnchorCount(q)
  {
    assert ([p] + q)[1..] == q;
  }

  lemma NumberedAnchor(id: int, p: DocPart, rest: seq<DocPart>)
    requires !p.LinkTarget? && IdsNumbered(rest, id)
    ensures IdsNumbered([LinkTarget(id), p] + rest, id - 1)
  {
    var out := [LinkTarget(id), p] + rest;
    forall k | 0 <= k < |out| && out[k].LinkTarget?
      ensures out[k].id == id - 1 + AnchorCount(out[..k]) + 1
    {
      if k == 0 {
        assert out[..k] == [];
      } else {
        assert k >= 2 && out[k] == rest[k - 2];
        var q := rest[..k - 2];
        assert out[..k] == [LinkTarget(id)] + ([p] + q);
        assert ([LinkTarget(id)] + ([p] + q))[1..] == [p] + q;
        AnchorCountOther(p, q);
      }
    }
  }

  lemma NumberedOther(p: DocPart, rest: seq<DocPart>, n: int)
    requires !p.LinkTarget? && IdsNumbered(rest, n)
    ensures IdsNumbered([p] + rest, n)
  {
    var out := [p] + rest;
    forall k | 0 <= k < |out| && out[k].LinkTarget?
      ensures out[k].id == n + AnchorCount(out[..k]) + 1
    {
      assert k >= 1 && out[k] == rest[k - 1];
      assert out[..k] == [p] + rest[..k - 1];
      AnchorCountOther(p, rest[..k - 1]);
    }
  }

  /** When no two referenced headings share a text, the anchors get the ids
      `|targets| + 1`, `|targets| + 2`, ... in document order (1, 2, 3, ...
      from the empty table), so no id is used twice. */
  lemma {:induction false} AnchorIdsIncrease(parts: seq<DocPart>, referenced: set<string>, targets: Targets)
    requires NoAnchors(parts) && DistinctReferencedHeadings(parts, referenced)
    requires NotYetTargets(parts, referenced, targets)
    ensures IdsIncreaseAbove(InsertFrom(parts, referenced, targets).0, |targets|)
    ensures IdsNumbered(InsertFrom(parts, referenced, targets).0, |targets|)
    decreases |parts|
  {
    if |parts| > 0 {
      var p := parts[0];
      DistinctTail(parts, referenced, targets);
      if IsHeading(p) && HeadingText(p) in referenced {
        var h, id := HeadingText(p), |targets| + 1;
        var t2 := targets[h := id];
        assert h !in targets;
        assert |t2| == id;
        var rest := InsertFrom(parts[1..], referenced, t2).0;
        AnchorIdsIncrease(parts[1..], referenced, t2);
        assert InsertFrom(parts, referenced, targets).0 == [LinkTarget(id), p] + rest;
        IdsIncreaseAnchor(id, p, rest);
        NumberedAnchor(id, p, rest);
      } else {
        var rest := InsertFrom(parts[1..], referenced, targets).0;
        AnchorIdsIncrease(parts[1..], referenced, targets);
        assert InsertFrom(parts, referenced, targets).0 == [p] + rest;
        IdsIncreaseOther(p, rest, |targets|);
        NumberedOther(p, rest, |targets|);
      }
    }
  }

  /** One step of the insertion loop at a referenced heading. */
  lemma {:induction false} InsertAtHeading(p: DocPart, rest: seq<DocPart>, referenced: set<string>, targets: Targets)
    requires IsHeading(p) && HeadingText(p) in referenced
    ensures InsertFrom([p] + rest, referenced, targets).0
      == [LinkTarget(|targets| + 1), p] + InsertFrom(rest, referenced, targets[HeadingText(p) := |targets| + 1]).0
  {
    assert ([p] + rest)[1..] == rest;
  }

  lemma DuplicateAnchorIdsTail(x: string, y: string)
    requires x != y
    ensures InsertFrom([Caption(y)], {x, y}, map[x := 2]).0 == [LinkTarget(2), Caption(y)]
  {
    var m2: Targets := map[x := 2];
    assert |m2| == 1;
    InsertAtHeading(Caption(y), [], {x, y}, m2);
  }

  lemma DuplicateAnchorIdsSecond(x: string, y: string)
    requires x != y
    ensures InsertFrom([Caption(x), Caption(y)], {x, y}, map[x := 1]).0
      == [LinkTarget(2), Caption(x), LinkTarget(2), Caption(y)]
  {
    var m1: Targets := map[x := 1];
    assert |m1| == 1 && m1[x := 2] == map[x := 2];
    DuplicateAnchorIdsTail(x, y);
    InsertAtHeading(Caption(x), [Caption(y)], {x, y}, m1);
    assert [Caption(x)] + [Caption(y)] == [Caption(x), Caption(y)];
  }

  /** Two referenced headings with the same text make the source give one
      id to two anchors: for the headings x, x and y the anchors get the ids
      1, 2 and 2, because the second x adds no new text to the map whose
      size the next id is taken from. */
  lemma DuplicateAnchorIds(x: string, y: string)
    requires x != y
    ensures InsertFrom([Caption(x), Caption(x), Caption(y)], {x, y}, map[]).0
      == [LinkTarget(1), Caption(x), LinkTarget(2), Caption(x), LinkTarget(2), Caption(y)]
  {
    var m0: Targets := map[];
    assert |m0| == 0 && m0[x := 1] == map[x := 1];
    DuplicateAnchorIdsSecond(x, y);
    InsertAtHeading(Caption(x), [Caption(x), Caption(y)], {x, y}, m0);
    assert [Caption(x)] + [Caption(x), Caption(y)] == [Caption(x), Caption(x), Caption(y)];
  }

  /** On success no reference is left to resolve, and every part other
      than a reference is kept at its place. */
  lemma ResolvedParts(parts: seq<DocPart>, parseAddress: string -> Option<string>)
    ensures var anchored := InsertTargets(parts).0; var r := Resolve(parts, parseAddress);
      r.Ok? ==>
        |r.value| == |anchored|
        && (forall k | 0 <= k < |r.value| :: !r.value[k].TempRef?)
        && (forall k | 0 <= k < |r.value| && !anchored[k].TempRef? :: r.value[k] == anchored[k])
  {
    RewriteSpec(InsertTargets(parts).0, InsertTargets(parts).1, parseAddress);
  }

  /** The rewriting keeps anchors and headings, so an anchor in front of
      a heading is still there afterwards. */
  lemma {:induction false} AnchorsSurviveRewrite(anchored: seq<DocPart>, targets: Targets, parseAddress: string -> Option<string>, out: seq<DocPart>, id: int, t: string)
    requires Rewrite(anchored, targets, parseAddress) == Ok(out)
    requires AnchoredIn(anchored, id, t)
    ensures AnchoredIn(out, id, t)
  {
    RewriteSpec(anchored, targets, parseAddress);
    var j :| 0 <= j < |anchored| - 1 && anchored[j] == LinkTarget(id) && IsHeading(anchored[j + 1]) && HeadingText(anchored[j + 1]) == t;
    assert ResolvePart(anchored[j], targets, parseAddress) == Ok(out[j]);
    assert ResolvePart(anchored[j + 1], targets, parseAddress) == Ok(out[j + 1]);
  }

  /** Every link the resolution makes points to an anchor that stands
      before a heading whose text the reference named. */
  lemma LinksPointToAnchors(parts: seq<DocPart>, parseAddress: string -> Option<string>)
    requires forall k | 0 <= k < |parts| :: !parts[k].Link?
    ensures var anchored := InsertTargets(parts).0; var r := Resolve(parts, parseAddress);
      r.Ok? ==> forall k | 0 <= k < |r.value| && r.value[k].Link? ::
        anchored[k].TempRef? && AnchoredIn(r.value, r.value[k].id, anchored[k].target)
  {
    var empty: Targets := map[];
    var ins := InsertFrom(parts, Referenced(parts), empty);
    var anchored, targets := ins.0, ins.1;
    var r := Rewrite(anchored, targets, parseAddress);
    if r.Ok? {
      var out := r.value;
      TargetsAreAnchored(parts, Referenced(parts), empty);
      RewriteSpec(anchored, targets, parseAddress);
      forall k | 0 <= k < |out| && out[k].Link?
        ensures anchored[k].TempRef? && AnchoredIn(out, out[k].id, anchored[k].target)
      {
        assert ResolvePart(anchored[k], targets, parseAddress) == Ok(out[k]);
        var t := anchored[k].target;
        assert t in targets && out[k].id == targets[t];
        assert AnchoredIn(anchored, targets[t], t);
        AnchorsSurviveRewrite(anchored, targets, parseAddress, out, targets[t], t);
      }
    }
  }

  /** With nothing referenced no anchor is inserted and no id given. */
  lemma {:induction false} InsertNothing(parts: seq<DocPart>, targets: Targets)
    ensures InsertFrom(parts, {}, targets) == (parts, targets)
    decreases |parts|
  {
    if |parts| > 0 {
      InsertNothing(parts[1..], targets);
      assert [parts[0]] + parts[1..] == parts;
    }
  }

  /** A document without references comes out of the resolution as it
      went in. */
  lemma ResolveWithoutReferences(parts: seq<DocPart>, parseAddress: string -> Option<string>)
    requires forall k | 0 <= k < |parts| :: !parts[k].TempRef?
    ensures Resolve(parts, parseAddress) == Ok(parts)
  {
    assert Referenced(parts) == {};
    InsertNothing(parts, map[]);
    RewriteAllOk(parts, parts, map[], parseAddress);
  }
}
