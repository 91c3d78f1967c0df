/**
 * The document the compiler produces and the renderers consume: a title kept
 * apart from an ordered sequence of parts drawn from a closed set of kinds.
 */
module Document {

  /** One part of a document. The first nine kinds are the ones declared with
      the part marker next to the document type; `ExternalLink` is the web or
      mail link the reference resolver produces, and `TempRef` is the
      placeholder for a reference that has not been resolved yet, which only
      exists while the compiler runs. */
  datatype DocPart =
    | Text(text: string)
    | Styled(text: string, bold: bool, italic: bool)
    | Image(name: string)
    | Link(id: int, text: string)
    | LinkTarget(id: int)
    | Title(text: string)
    | Caption(text: string)
    | SubCaption(text: string)
    | SubSubCaption(text: string)
    | ExternalLink(url: string, text: string)
    | TempRef(declLine: int, target: string, text: string)

  /** `title` is empty when the input has no title line. */
  datatype Document = Document(title: string, parts: seq<DocPart>)

  predicate IsHeading(p: DocPart) {
    p.Title? || p.Caption? || p.SubCaption? || p.SubSubCaption?
  }

  /** The kinds that carry the part marker in the document's declaration. */
  predicate IsDeclaredKind(p: DocPart) {
    !p.ExternalLink? && !p.TempRef?
  }

  /** The name `%T` prints for a part, used by the renderers' error
      messages. */
  function TypeName(p: DocPart): string {
    match p
    case Text(_) => "main.docText"
    case Styled(_, _, _) => "main.stylizedDocText"
    case Image(_) => "main.docImage"
    case Link(_, _) => "main.docLink"
    case LinkTarget(_) => "main.docLinkTarget"
    case Title(_) => "main.docTitle"
    case Caption(_) => "main.docCaption"
    case SubCaption(_) => "main.docSubCaption"
    case SubSubCaption(_) => "main.docSubSubCaption"
    case ExternalLink(_, _) => "main.externalDocLink"
    case TempRef(_, _, _) => "main.tempRef"
  }

  /** The kind index of a part: equal for two parts exactly when they are of
      the same kind. */
  function KindIndex(p: DocPart): (k: nat)
    ensures k < 11
    ensures IsDeclaredKind(p) <==> k < 9
  {
    match p
    case Text(_) => 0
    case Styled(_, _, _) => 1
    case Image(_) => 2
    case Link(_, _) => 3
    case LinkTarget(_) => 4
    case Title(_) => 5
    case Caption(_) => 6
    case SubCaption(_) => 7
    case SubSubCaption(_) => 8
    case ExternalLink(_, _) => 9
    case TempRef(_, _, _) => 10
  }

  /** An error message names the kind of the part it is about: two parts get
      the same type name exactly when they are of the same kind. */
  lemma TypeNameNamesKind(p: DocPart, q: DocPart)
    ensures TypeName(p) == TypeName(q) <==> KindIndex(p) == KindIndex(q)
  {
    var names := ["main.docText", "main.stylizedDocText", "main.docImage", "main.docLink",
                  "main.docLinkTarget", "main.docTitle", "main.docCaption", "main.docSubCaption",
                  "main.docSubSubCaption", "main.externalDocLink", "main.tempRef"];
    assert TypeName(p) == names[KindIndex(p)];
    assert TypeName(q) == names[KindIndex(q)];
  }

  function HeadingText(p: DocPart): string
    requires IsHeading(p)
  {
    p.text
  }
}
