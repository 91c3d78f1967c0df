/**
 * What both renderers do with a document's parts: write the output of
 * every part in order, and give up at the first part that cannot be
 * written, with that part's message.
 */
module Render {
  import opened Wrappers
  import opened Document

  /** The outputs of the parts one after another, or the first error. */
  function RenderAll<T>(parts: seq<DocPart>, render: DocPart -> Result<seq<T>, string>): Result<seq<T>, string>
    decreases |parts|
  {
    if |parts| == 0 then Ok([])
    else
      match RenderAll(parts[..|parts| - 1], render)
      case Err(e) => Err(e)
      case Ok(done) =>
        match render(parts[|parts| - 1])
        case Err(e) => Err(e)
        case Ok(out) => Ok(done + out)
  }

  /** The outputs of a sequence of parts written one after another. */
  function Joined<T>(outs: seq<seq<T>>): seq<T>
    decreases |outs|
  {
    if |outs| == 0 then [] else Joined(outs[..|outs| - 1]) + outs[|outs| - 1]
  }

  /** One more part: its output is appended, or its error ends the run. */
  lemma RenderStep<T>(parts: seq<DocPart>, i: nat, render: DocPart -> Result<seq<T>, string>)
    requires i < |parts| && RenderAll(parts[..i], render).Ok?
    ensures var r := render(parts[i]);
      RenderAll(parts[..i + 1], render)
      == if r.Err? then Err(r.error) else Ok(RenderAll(parts[..i], render).value + r.value)
  {
    assert parts[..i + 1][..i] == parts[..i];
  }

  /** Once a prefix of the parts fails, the whole fails with the same
      message: the first error wins. */
  lemma {:induction false} RenderFirstError<T>(parts: seq<DocPart>, i: nat, render: DocPart -> Result<seq<T>, string>)
    requires i <= |parts|
    requires RenderAll(parts[..i], render).Err?
    ensures RenderAll(parts, render) == RenderAll(parts[..i], render)
    decreases |parts| - i
  {
    if i < |parts| {
      assert parts[..i + 1][..i] == parts[..i];
      RenderFirstError(parts, i + 1, render);
    } else {
      assert parts[..i] == parts;
    }
  }

  /** The parts render exactly when every one of them does, and then the
      output is their outputs in order. */
  lemma {:induction false} RenderOk<T>(parts: seq<DocPart>, render: DocPart -> Result<seq<T>, string>)
    ensures RenderAll(parts, render).Ok? <==> forall k | 0 <= k < |parts| :: render(parts[k]).Ok?
    ensures RenderAll(parts, render).Ok? ==>
      RenderAll(parts, render).value == Joined(seq(|parts|, k requires 0 <= k < |parts| => render(parts[k]).value))
    decreases |parts|
  {
    if |parts| > 0 {
      var init := parts[..|parts| - 1];
      RenderOk(init, render);
      assert forall k | 0 <= k < |init| :: init[k] == parts[k];
      if RenderAll(parts, render).Ok? {
        var outs := seq(|parts|, k requires 0 <= k < |parts| => render(parts[k]).value);
        assert outs[..|parts| - 1] == seq(|init|, k requires 0 <= k < |init| => render(init[k]).value);
      }
    }
  }
}
