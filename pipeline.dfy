/**
 * The compiler and the renderers together: a markup text the compiler
 * accepts holds no unresolved reference, so it renders as HTML and as RTF
 * whenever its images can be loaded.
 */
module Pipeline {
  import opened Wrappers
  import opened Document
  import Parser
  import Resolve
  import Html
  import Rtf

  /** The parts of a compiled document are all resolved. */
  lemma CompiledIsResolved(code: string, parseAddress: string -> Option<string>)
    requires Parser.Compile(code, parseAddress).Ok?
    ensures var parts := Parser.Compile(code, parseAddress).value.parts;
      forall k | 0 <= k < |parts| :: !parts[k].TempRef?
  {
    Resolve.ResolvedParts(Parser.Parsed(code).value.parts, parseAddress);
  }

  /** A compiled document becomes an HTML page when its images can be
      found and tagged. */
  lemma CompiledRendersHtml<Img>(code: string, parseAddress: string -> Option<string>,
                                 findImage: string -> Result<Img, string>, imageTag: Img -> Result<string, string>)
    requires Parser.Compile(code, parseAddress).Ok?
    requires var parts := Parser.Compile(code, parseAddress).value.parts;
      forall k | 0 <= k < |parts| && parts[k].Image? :: Html.ImageHtmlOk(parts[k].name, findImage, imageTag)
    ensures Html.PageHtml(Parser.Compile(code, parseAddress).value, findImage, imageTag).Ok?
  {
    CompiledIsResolved(code, parseAddress);
    Html.ResolvedRendersHtml(Parser.Compile(code, parseAddress).value, findImage, imageTag);
  }

  /** A compiled document becomes RTF, all of it 7-bit ASCII, when its
      images can be found and encoded. */
  lemma CompiledRendersRtf<Img>(code: string, parseAddress: string -> Option<string>,
                                findImage: string -> Result<Img, string>, dims: Img -> (int, int),
                                scaleHeight: (int, int) -> int, encodePng: Img -> Result<seq<Rtf.Byte>, string>)
    requires Parser.Compile(code, parseAddress).Ok?
    requires var parts := Parser.Compile(code, parseAddress).value.parts;
      forall k | 0 <= k < |parts| && parts[k].Image? :: Rtf.ImageRtfOk(parts[k].name, findImage, encodePng)
    ensures var r := Rtf.DocRtf(Parser.Compile(code, parseAddress).value, findImage, dims, scaleHeight, encodePng);
      r.Ok? && Rtf.SevenBit(r.value)
  {
    var doc := Parser.Compile(code, parseAddress).value;
    CompiledIsResolved(code, parseAddress);
    Rtf.ResolvedRendersRtf(doc, findImage, dims, scaleHeight, encodePng);
    Rtf.DocRtfSevenBit(doc, findImage, dims, scaleHeight, encodePng);
  }
}
