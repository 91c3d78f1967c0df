/**
 * The RTF renderer. Every string `genRTF` writes goes through its `write`
 * closure, which copies ASCII characters as bytes and turns every other
 * character into an RTF `\u` control word; `escape` turns line breaks and
 * `®` into RTF control words, and each document part becomes one piece of
 * RTF. Images are hex-encoded PNG data.
 */
module Rtf {
  import opened Wrappers
  import opened Strings
  import opened Document
  import opened Render

  /** One byte of the output. */
  type Byte = b: int | 0 <= b < 256

  // ---------------------------------------------------------------------
  // write: the rune encoder.

  /** `utf16.Encode` of one character: the character itself below U+10000,
      otherwise its surrogate pair. */
  function Utf16Encode(c: char): (u: seq<int>)
    ensures 1 <= |u| <= 2
    ensures |u| == 1 <==> c as int < 0x10000
  {
    var v := c as int;
    if v < 0x10000 then [v]
    else
      var r := v - 0x10000;
      [0xD800 + r / 0x400, 0xDC00 + r % 0x400]
  }

  /** The code point a sequence of one or two UTF-16 code units stands for. */
  function Utf16Decode(u: seq<int>): int
    requires 1 <= |u| <= 2
  {
    if |u| == 1 then u[0] else 0x10000 + (u[0] - 0xD800) * 0x400 + (u[1] - 0xDC00)
  }

  /** The UTF-16 encoding gives the character back, and a pair is a high
      surrogate followed by a low one. */
  lemma Utf16RoundTrip(c: char)
    ensures Utf16Decode(Utf16Encode(c)) == c as int
    ensures var u := Utf16Encode(c);
      |u| == 2 ==> 0xD800 <= u[0] <= 0xDBFF && 0xDC00 <= u[1] <= 0xDFFF
  {
    var v := c as int;
    if v >= 0x10000 {
      var r := v - 0x10000;
      assert r == (r / 0x400) * 0x400 + r % 0x400;
    }
  }

  /** The bytes of an ASCII string. */
  function Codes(s: string): (r: seq<Byte>)
    requires forall k | 0 <= k < |s| :: s[k] as int < 128
    ensures |r| == |s| && forall k | 0 <= k < |s| :: r[k] == s[k] as int
  {
    seq(|s|, k requires 0 <= k < |s| => s[k] as int)
  }

  /** `\u<n>?`, the control word for a character outside ASCII, where `n`
      is the character's first UTF-16 code unit. */
  function UnicodeWord(c: char): string {
    "\\u" + FormatInt(Utf16Encode(c)[0]) + "?"
  }

  lemma UnicodeWordAscii(c: char)
    ensures forall k | 0 <= k < |UnicodeWord(c)| :: UnicodeWord(c)[k] as int < 128
  {
    var d := NatToDecimal(Utf16Encode(c)[0]);
    assert UnicodeWord(c) == "\\u" + d + "?";
    forall k | 0 <= k < |UnicodeWord(c)| ensures UnicodeWord(c)[k] as int < 128 {
      if 2 <= k < 2 + |d| {
        assert UnicodeWord(c)[k] == d[k - 2];
      }
    }
  }

  /** What `write` writes for one character. */
  function EncodeRune(c: char): (r: seq<Byte>)
    ensures forall k | 0 <= k < |r| :: r[k] < 128
  {
    if c as int < 128 then [c as int]
    else
      UnicodeWordAscii(c);
      Codes(UnicodeWord(c))
  }

  /** What `write` writes for a string: the characters one after another. */
  function Encode(s: string): seq<Byte>
    decreases |s|
  {
    if |s| == 0 then [] else Encode(s[..|s| - 1]) + EncodeRune(s[|s| - 1])
  }

  lemma {:induction false} EncodeAppend(a: string, b: string)
    ensures Encode(a + b) == Encode(a) + Encode(b)
    decreases |b|
  {
    if |b| == 0 {
      assert a + b == a;
    } else {
      var init, last := b[..|b| - 1], b[|b| - 1];
      assert (a + b)[..|a + b| - 1] == a + init;
      assert (a + b)[|a + b| - 1] == last;
      EncodeAppend(a, init);
      ConcatAssoc(Encode(a), Encode(init), EncodeRune(last));
    }
  }

  /** The RTF written is plain 7-bit ASCII, whatever the text. */
  lemma {:induction false} EncodeIsSevenBit(s: string)
    ensures forall k | 0 <= k < |Encode(s)| :: Encode(s)[k] < 128
    decreases |s|
  {
    if |s| > 0 {
      EncodeIsSevenBit(s[..|s| - 1]);
      var a, b := Encode(s[..|s| - 1]), EncodeRune(s[|s| - 1]);
      assert forall k | |a| <= k < |a| + |b| :: (a + b)[k] == b[k - |a|];
    }
  }

  /** An ASCII string is written byte for byte. */
  lemma {:induction false} EncodeAscii(s: string)
    requires forall k | 0 <= k < |s| :: s[k] as int < 128
    ensures Encode(s) == Codes(s)
    decreases |s|
  {
    if |s| > 0 {
      EncodeAscii(s[..|s| - 1]);
      assert Codes(s) == Codes(s[..|s| - 1]) + [s[|s| - 1] as int];
    }
  }

  /** A character outside ASCII is written as `\u`, the decimal value of
      its first UTF-16 code unit, and `?`. Below U+10000 that number is the
      character's code point; above, it is the high surrogate alone. */
  lemma NonAsciiRune(c: char)
    requires c as int >= 128
    ensures EncodeRune(c) == Codes(UnicodeWord(c))
    ensures var n := Utf16Encode(c)[0];
      UnicodeWord(c) == "\\u" + NatToDecimal(n) + "?"
      && DecimalValue(NatToDecimal(n)) == n
      && (c as int < 0x10000 ==> n == c as int)
      && (c as int >= 0x10000 ==> 0xD800 <= n <= 0xDBFF)
  {
    Utf16RoundTrip(c);
    DecimalRoundTrip(Utf16Encode(c)[0]);
  }

  /** The low surrogate is dropped: U+1F600 and U+1F601 are written alike. */
  lemma AstralRunesShareWord()
    ensures EncodeRune('\U{1F600}') == EncodeRune('\U{1F601}')
  {
    assert Utf16Encode('\U{1F600}')[0] == Utf16Encode('\U{1F601}')[0] == 0xD83D;
  }

  /** `write`: appends the bytes of every character of `s` to `buf`. */
  method Write(buf: seq<Byte>, s: string) returns (out: seq<Byte>)
    ensures out == buf + Encode(s)
  {
    out := buf;
    for i := 0 to |s|
      invariant out == buf + Encode(s[..i])
    {
      var r := s[i];
      ghost var before := out;
      if r as int < 128 {
        out := out + [r as int];
      } else {
        var u := Utf16Encode(r);
        if |u| > 0 {
          UnicodeWordAscii(r);
          out := out + Codes("\\u" + FormatInt(u[0]) + "?");
        }
      }
      assert out == before + EncodeRune(r);
      assert s[..i + 1][..i] == s[..i] && s[..i + 1][i] == r;
      assert Encode(s[..i + 1]) == Encode(s[..i]) + EncodeRune(r);
      ConcatAssoc(buf, Encode(s[..i]), EncodeRune(r));
    }
    assert s[..|s|] == s;
  }

  // ---------------------------------------------------------------------
  // escape and toTwips.

  /** `escape`: every line break becomes `\line ` and every `®` becomes
      `{\super ®}`. */
  function Escape(s: string): string {
    ReplaceAll(ReplaceAll(s, "\n", "\\line "), "®", "{\\super ®}")
  }

  /** What `escape` does to one character. */
  function EscapeChar(c: char): string {
    if c == '\n' then "\\line " else if c == '®' then "{\\super ®}" else [c]
  }

  /** The two replacements act on each character on its own: `escape` is
      the character map `EscapeChar`. */
  lemma {:induction false} EscapeIsCharMap(s: string)
    ensures Escape(s) == FlatMap(s, EscapeChar)
  {
    var f := (x: char) => if x == '\n' then "\\line " else [x];
    var g := (x: char) => if x == '®' then "{\\super ®}" else [x];
    ReplaceCharIsFlatMap(s, '\n', "\\line ");
    ReplaceCharIsFlatMap(FlatMap(s, f), '®', "{\\super ®}");
    FlatMapTwice(s, f, g);
    forall c ensures FlatMap(f(c), g) == EscapeChar(c) {
      if c == '\n' {
        FlatMapId("\\line ", g);
      }
    }
    FlatMapExt(s, c => FlatMap(f(c), g), EscapeChar);
  }

  /** No line break survives `escape`. */
  lemma EscapeRemovesLineBreaks(s: string)
    ensures '\n' !in Escape(s)
  {
    EscapeIsCharMap(s);
    FlatMapAvoids(s, EscapeChar, '\n');
  }

  /** `escape` distributes over concatenation. */
  lemma EscapeAppend(a: string, b: string)
    ensures Escape(a + b) == Escape(a) + Escape(b)
  {
    EscapeIsCharMap(a + b);
    EscapeIsCharMap(a);
    EscapeIsCharMap(b);
    FlatMapAppend(a, b, EscapeChar);
  }

  /** Go's integer division, which truncates toward zero. */
  function GoDiv(a: int, b: int): int
    requires b > 0
  {
    if a >= 0 then a / b else -((-a) / b)
  }

  /** `toTwips`: pixels at 96 per inch to twips at 1440 per inch. */
  function ToTwips(x: int): int {
    GoDiv(x * 1440, 96)
  }

  /** The division is exact: a pixel is fifteen twips, for negative sizes
      too. */
  lemma ToTwipsIsFifteenTimes(x: int)
    ensures ToTwips(x) == 15 * x
  {
    if x >= 0 {
      assert x * 1440 == (15 * x) * 96;
    } else {
      assert -(x * 1440) == (-15 * x) * 96;
    }
  }

  // ---------------------------------------------------------------------
  // The hex loop of the image branch.

  const HexChars: seq<Byte> := Codes("0123456789abcdef")

  /** The two lowercase hex digits of every byte, high nibble first. */
  function HexOf(data: seq<Byte>): (hex: seq<Byte>)
    ensures |hex| == 2 * |data|
  {
    seq(2 * |data|, k requires 0 <= k < 2 * |data| =>
      if k % 2 == 0 then HexChars[data[k / 2] / 16] else HexChars[data[k / 2] % 16])
  }

  /** The value of a lowercase hex digit. */
  function HexValue(h: Byte): int {
    if '0' as int <= h <= '9' as int then h - '0' as int else h - 'a' as int + 10
  }

  /** Reads pairs of hex digits back into bytes. */
  function HexDecode(hex: seq<Byte>): seq<int> {
    seq(|hex| / 2, i requires 0 <= i < |hex| / 2 => 16 * HexValue(hex[2 * i]) + HexValue(hex[2 * i + 1]))
  }

  lemma HexDigitValue(d: int)
    requires 0 <= d < 16
    ensures HexValue(HexChars[d]) == d
    ensures HexChars[d] in Codes("0123456789abcdef")
  {
  }

  /** The hex text reads back as the bytes it was made of, and holds only
      lowercase hex digits. */
  lemma HexRoundTrip(data: seq<Byte>)
    ensures HexDecode(HexOf(data)) == data
    ensures forall k | 0 <= k < |HexOf(data)| :: HexOf(data)[k] in HexChars
  {
    var hex := HexOf(data);
    forall i | 0 <= i < |data| ensures HexDecode(hex)[i] == data[i] {
      HexPair(data, i);
      HexDigitValue(data[i] / 16);
      HexDigitValue(data[i] % 16);
    }
    forall k | 0 <= k < |hex| ensures hex[k] in HexChars {
      var d := if k % 2 == 0 then data[k / 2] / 16 else data[k / 2] % 16;
      assert hex[k] == HexChars[d];
    }
  }

  /** The two digits written for byte `i`. */
  lemma HexPair(data: seq<Byte>, i: nat)
    requires i < |data|
    ensures HexOf(data)[2 * i] == HexChars[data[i] / 16]
    ensures HexOf(data)[2 * i + 1] == HexChars[data[i] % 16]
  {
    assert (2 * i) % 2 == 0 && (2 * i) / 2 == i;
    assert (2 * i + 1) % 2 == 1 && (2 * i + 1) / 2 == i;
  }

  /** The loop that fills an array of twice the input's length, two hex
      digits per byte at positions `2i` and `2i+1`. */
  method HexEncode(data: seq<Byte>) returns (hex: array<Byte>)
    ensures hex[..] == HexOf(data)
  {
    hex := new Byte[|data| * 2];
    for i := 0 to |data|
      invariant forall k | 0 <= k < 2 * i :: hex[k] == HexOf(data)[k]
    {
      var b := data[i];
      hex[i * 2] := HexChars[b / 16];
      hex[i * 2 + 1] := HexChars[b % 16];
      assert (2 * i) % 2 == 0 && (2 * i) / 2 == i;
      assert (2 * i + 1) % 2 == 1 && (2 * i + 1) / 2 == i;
    }
  }

  // ---------------------------------------------------------------------
  // genRTF: one piece of RTF per part.

  const Header := "{\\rtf1\\ansi\\deff0{\\fonttbl{\\f0\\fnil\\fcharset0 Calibri;}}"

  const MaxImageW := 780

  /** `writeCaption`: bold, in the given size when there is one, and back
      to plain text of size 22 with a line break. */
  function CaptionRtf(cap: string, size: string): string {
    "\\b" + (if size != "" then "\\fs" + size else "") + " " + Escape(cap) + "\\b0\\fs22\\line "
  }

  /** The tags of a styled text: `\b ` before `\i `, and closed in the
      reverse order. */
  function StyledRtf(text: string, bold: bool, italic: bool): string {
    (if bold then "\\b " else "") + (if italic then "\\i " else "")
    + Escape(text)
    + (if italic then "\\i0 " else "") + (if bold then "\\b0 " else "")
  }

  function HyperlinkRtf(url: string, text: string): string {
    "{\\field{\\*\\fldinst HYPERLINK \"" + url + "\"}{\\fldrslt " + Escape(text) + "}}"
  }

  /** The string written for every part other than an image or an
      unresolved reference. A link target writes nothing: RTF has no
      anchors. */
  function PartText(p: DocPart): string
    requires !p.Image? && !p.TempRef?
  {
    match p
    case Text(t) => Escape(t)
    case Title(t) => CaptionRtf(t, "45")
    case Caption(t) => CaptionRtf(t, "40")
    case SubCaption(t) => CaptionRtf(t, "34")
    case SubSubCaption(t) => CaptionRtf(t, "")
    case Link(_, text) => Escape(text)
    case LinkTarget(_) => ""
    case ExternalLink(url, text) => HyperlinkRtf(url, text)
    case Styled(text, bold, italic) => StyledRtf(text, bold, italic)
  }

  /** The picture size control words: the image's own size and the size
      it is shown at, in twips. */
  function PictSize(w: int, h: int, destW: int, destH: int): string {
    "\\picw" + FormatInt(ToTwips(w)) + "\\pich" + FormatInt(ToTwips(h))
    + "\\picwgoal" + FormatInt(ToTwips(destW)) + "\\pichgoal" + FormatInt(ToTwips(destH)) + " "
  }

  /** The size an image is shown at: wider than 780 pixels it is scaled
      down to 780, the height by `scaleHeight`, which stands for the
      source's floating-point scaling. */
  function DestSize(w: int, h: int, scaleHeight: (int, int) -> int): (int, int) {
    if w > MaxImageW then (MaxImageW, scaleHeight(w, h)) else (w, h)
  }

  /** The image branch: the image is found by name, its size is written,
      then its PNG data in hex. `findImage`, `dims`, `scaleHeight` and
      `encodePng` stand for the image library. */
  function ImageRtf<Img>(name: string, findImage: string -> Result<Img, string>, dims: Img -> (int, int),
                         scaleHeight: (int, int) -> int, encodePng: Img -> Result<seq<Byte>, string>): Result<seq<Byte>, string>
  {
    match findImage(name)
    case Err(e) => Err("error generating RTF image '" + name + "': " + e)
    case Ok(img) =>
      var (w, h) := dims(img);
      var (destW, destH) := DestSize(w, h, scaleHeight);
      match encodePng(img)
      case Err(e) => Err("error encoding RTF png '" + name + "': " + e)
      case Ok(png) =>
        Ok(Encode("{\\*\\shppict{\\pict\\pngblip" + PictSize(w, h, destW, destH)) + HexOf(png) + Encode("\n}}"))
  }

  function UnhandledRtf(p: DocPart): string {
    "error generating RTF: unhandled document part: " + TypeName(p)
  }

  /** The bytes of one part, or the message the output is abandoned with. */
  function PartRtf<Img>(p: DocPart, findImage: string -> Result<Img, string>, dims: Img -> (int, int),
                        scaleHeight: (int, int) -> int, encodePng: Img -> Result<seq<Byte>, string>): Result<seq<Byte>, string>
  {
    if p.TempRef? then Err(UnhandledRtf(p))
    else if p.Image? then ImageRtf(p.name, findImage, dims, scaleHeight, encodePng)
    else Ok(Encode(PartText(p)))
  }

  /** The bytes of the parts in order, or the first part's error. */
  function PartsRtf<Img>(parts: seq<DocPart>, findImage: string -> Result<Img, string>, dims: Img -> (int, int),
                         scaleHeight: (int, int) -> int, encodePng: Img -> Result<seq<Byte>, string>): Result<seq<Byte>, string>
  {
    RenderAll(parts, p => PartRtf(p, findImage, dims, scaleHeight, encodePng))
  }

  /** `genRTF`: the header, every part, and the closing brace. */
  function DocRtf<Img>(doc: Document, findImage: string -> Result<Img, string>, dims: Img -> (int, int),
                       scaleHeight: (int, int) -> int, encodePng: Img -> Result<seq<Byte>, string>): Result<seq<Byte>, string>
  {
    match PartsRtf(doc.parts, findImage, dims, scaleHeight, encodePng)
    case Err(e) => Err(e)
    case Ok(body) => Ok(Encode(Header) + body + Encode("}"))
  }

  /** `writeCaption`, in its three writes. */
  method WriteCaption(buf: seq<Byte>, cap: string, size: string) returns (out: seq<Byte>)
    ensures out == buf + Encode(CaptionRtf(cap, size))
  {
    var sz := size;
    if sz != "" {
      sz := "\\fs" + sz;
    }
    var open, text, close := "\\b" + sz + " ", Escape(cap), "\\b0\\fs22\\line ";
    assert CaptionRtf(cap, size) == open + text + close;
    out := Write(buf, open);
    out := Write(out, text);
    out := Write(out, close);
    EncodeAppend(open, text);
    EncodeAppend(open + text, close);
    ConcatAssoc(buf, Encode(open), Encode(text));
    ConcatAssoc(buf, Encode(open) + Encode(text), Encode(close));
  }

  /** Writing `s` after the bytes of `acc` gives the bytes of `acc + s`. */
  lemma {:induction false} WriteMore(buf: seq<Byte>, acc: string, s: string)
    ensures (buf + Encode(acc)) + Encode(s) == buf + Encode(acc + s)
  {
    EncodeAppend(acc, s);
  }

  /** Writing nothing changes nothing. */
  lemma {:induction false} WriteNothing(buf: seq<Byte>, acc: string)
    ensures buf + Encode(acc) == buf + Encode(acc + "")
  {
    assert acc + "" == acc;
  }

  /** The styled text case, write by write. */
  method WriteStyled(buf: seq<Byte>, text: string, bold: bool, italic: bool) returns (out: seq<Byte>)
    ensures out == buf + Encode(StyledRtf(text, bold, italic))
  {
    var b1, i1 := if bold then "\\b " else "", if italic then "\\i " else "";
    var i0, b0 := if italic then "\\i0 " else "", if bold then "\\b0 " else "";
    var body := Escape(text);
    out := buf;
    assert buf + [] == buf;
    if bold {
      out := Write(out, b1);
    }
    assert out == buf + Encode(b1);
    if italic {
      out := Write(out, i1);
      WriteMore(buf, b1, i1);
    } else {
      WriteNothing(buf, b1);
    }
    assert out == buf + Encode(b1 + i1);
    out := Write(out, body);
    WriteMore(buf, b1 + i1, body);
    if italic {
      out := Write(out, i0);
      WriteMore(buf, b1 + i1 + body, i0);
    } else {
      WriteNothing(buf, b1 + i1 + body);
    }
    assert out == buf + Encode(b1 + i1 + body + i0);
    if bold {
      out := Write(out, b0);
      WriteMore(buf, b1 + i1 + body + i0, b0);
    } else {
      WriteNothing(buf, b1 + i1 + body + i0);
    }
    assert out == buf + Encode(b1 + i1 + body + i0 + b0);
  }

  /** The image case: the picture header with its size, the PNG data as
      hex, and the closing braces. */
  method WriteImage<Img>(buf: seq<Byte>, name: string, findImage: string -> Result<Img, string>, dims: Img -> (int, int),
                         scaleHeight: (int, int) -> int, encodePng: Img -> Result<seq<Byte>, string>)
    returns (out: seq<Byte>, err: Option<string>)
    ensures var r := ImageRtf(name, findImage, dims, scaleHeight, encodePng);
      (r.Ok? ==> err == None && out == buf + r.value) && (r.Err? ==> err == Some(r.error))
  {
    out := buf;
    var img := findImage(name);
    if img.Err? {
      return buf, Some("error generating RTF image '" + name + "': " + img.error);
    }
    var (w, h) := dims(img.value);
    var destW, destH := w, h;
    if destW > MaxImageW {
      destW := MaxImageW;
      destH := scaleHeight(w, h);
    }
    assert (destW, destH) == DestSize(w, h, scaleHeight);
    var size := PictSize(w, h, destW, destH);
    var pict := "{\\*\\shppict{\\pict\\pngblip" + size;
    out := Write(out, pict);
    var png := encodePng(img.value);
    if png.Err? {
      return out, Some("error encoding RTF png '" + name + "': " + png.error);
    }
    var hex := HexEncode(png.value);
    out := out + hex[..];
    var tail := "\n}}";
    out := Write(out, tail);
    ConcatAssoc(buf, Encode(pict), HexOf(png.value));
    ConcatAssoc(buf, Encode(pict) + HexOf(png.value), Encode(tail));
    err := None;
  }

  /** One part: the switch over the part's kind. */
  method WritePart<Img>(buf: seq<Byte>, p: DocPart, findImage: string -> Result<Img, string>, dims: Img -> (int, int),
                        scaleHeight: (int, int) -> int, encodePng: Img -> Result<seq<Byte>, string>)
    returns (out: seq<Byte>, err: Option<string>)
    ensures var r := PartRtf(p, findImage, dims, scaleHeight, encodePng);
      (r.Ok? ==> err == None && out == buf + r.value) && (r.Err? ==> err == Some(r.error))
  {
    out, err := buf, None;
    match p {
      case Text(t) =>
        out := Write(buf, Escape(t));
      case Image(name) =>
        out, err := WriteImage(buf, name, findImage, dims, scaleHeight, encodePng);
      case Title(t) =>
        out := WriteCaption(buf, t, "45");
      case Caption(t) =>
        out := WriteCaption(buf, t, "40");
      case SubCaption(t) =>
        out := WriteCaption(buf, t, "34");
      case SubSubCaption(t) =>
        out := WriteCaption(buf, t, "");
      case Link(_, text) =>
        out := Write(buf, Escape(text));
      case LinkTarget(_) =>
        assert Encode("") == [] && buf + [] == buf;
      case ExternalLink(url, text) =>
        out := Write(buf, HyperlinkRtf(url, text));
      case Styled(text, bold, italic) =>
        out := WriteStyled(buf, text, bold, italic);
      case TempRef(_, _, _) =>
        err := Some(UnhandledRtf(p));
    }
  }

  /** `genRTF`: writes the header, every part in order and the closing
      brace into one buffer; the first part that cannot be written
      abandons the output. */
  method GenRtf<Img>(doc: Document, findImage: string -> Result<Img, string>, dims: Img -> (int, int),
                     scaleHeight: (int, int) -> int, encodePng: Img -> Result<seq<Byte>, string>)
    returns (r: Result<seq<Byte>, string>)
    ensures r == DocRtf(doc, findImage, dims, scaleHeight, encodePng)
  {
    var buf := Write([], Header);
    ghost var head := buf;
    assert head == Encode(Header);
    ghost var body: seq<Byte> := [];
    for i := 0 to |doc.parts|
      invariant PartsRtf(doc.parts[..i], findImage, dims, scaleHeight, encodePng) == Ok(body)
      invariant buf == head + body
    {
      var err;
      RenderStep(doc.parts, i, p => PartRtf(p, findImage, dims, scaleHeight, encodePng));
      buf, err := WritePart(buf, doc.parts[i], findImage, dims, scaleHeight, encodePng);
      if err.Some? {
        RenderFirstError(doc.parts, i + 1, p => PartRtf(p, findImage, dims, scaleHeight, encodePng));
        return Err(err.value);
      }
      ghost var piece := PartRtf(doc.parts[i], findImage, dims, scaleHeight, encodePng).value;
      ConcatAssoc(head, body, piece);
      body := body + piece;
    }
    assert doc.parts[..|doc.parts|] == doc.parts;
    buf := Write(buf, "}");
    assert buf == Encode(Header) + body + Encode("}");
    return Ok(buf);
  }

  // ---------------------------------------------------------------------
  // What genRTF promises.

  /** An image renders when it is found and its PNG data can be made. */
  predicate ImageRtfOk<Img>(name: string, findImage: string -> Result<Img, string>, encodePng: Img -> Result<seq<Byte>, string>) {
    findImage(name).Ok? && encodePng(findImage(name).value).Ok?
  }

  /** A part fails exactly when it is a reference left unresolved, or an
      image that cannot be found or encoded; an unresolved reference is
      reported by its Go type name. */
  lemma PartRtfFails<Img>(p: DocPart, findImage: string -> Result<Img, string>, dims: Img -> (int, int),
                          scaleHeight: (int, int) -> int, encodePng: Img -> Result<seq<Byte>, string>)
    ensures PartRtf(p, findImage, dims, scaleHeight, encodePng).Err?
      <==> p.TempRef? || (p.Image? && !ImageRtfOk(p.name, findImage, encodePng))
    ensures p.TempRef? ==>
      PartRtf(p, findImage, dims, scaleHeight, encodePng).error == "error generating RTF: unhandled document part: main.tempRef"
  {
  }

  /** Headings are bold, in size 45, 40 and 34 half-points by level (the
      lowest level keeps the current size), and end in plain size 22 and a
      line break. */
  lemma CaptionControls(t: string)
    ensures PartText(Title(t)) == "\\b\\fs45 " + Escape(t) + "\\b0\\fs22\\line "
    ensures PartText(Caption(t)) == "\\b\\fs40 " + Escape(t) + "\\b0\\fs22\\line "
    ensures PartText(SubCaption(t)) == "\\b\\fs34 " + Escape(t) + "\\b0\\fs22\\line "
    ensures PartText(SubSubCaption(t)) == "\\b " + Escape(t) + "\\b0\\fs22\\line "
  {
    CaptionOpening(t, "45", "\\b\\fs45 ");
    CaptionOpening(t, "40", "\\b\\fs40 ");
    CaptionOpening(t, "34", "\\b\\fs34 ");
    CaptionOpening(t, "", "\\b ");
  }

  lemma CaptionOpening(t: string, size: string, opening: string)
    requires opening == "\\b" + (if size != "" then "\\fs" + size else "") + " "
    ensures CaptionRtf(t, size) == opening + Escape(t) + "\\b0\\fs22\\line "
  {
  }

  /** RTF has no anchors: a link writes just its text, as a text part
      would, and a link target writes nothing. */
  lemma LinkIsPlainText<Img>(t: string, id: int, findImage: string -> Result<Img, string>, dims: Img -> (int, int),
                             scaleHeight: (int, int) -> int, encodePng: Img -> Result<seq<Byte>, string>)
    ensures PartRtf(Link(id, t), findImage, dims, scaleHeight, encodePng) == PartRtf(Text(t), findImage, dims, scaleHeight, encodePng)
    ensures PartRtf(LinkTarget(id), findImage, dims, scaleHeight, encodePng) == Ok([])
  {
  }

  /** A document without unresolved references, whose images can all be
      rendered, becomes RTF. */
  lemma ResolvedRendersRtf<Img>(doc: Document, findImage: string -> Result<Img, string>, dims: Img -> (int, int),
                                scaleHeight: (int, int) -> int, encodePng: Img -> Result<seq<Byte>, string>)
    requires forall k | 0 <= k < |doc.parts| :: !doc.parts[k].TempRef?
    requires forall k | 0 <= k < |doc.parts| && doc.parts[k].Image? :: ImageRtfOk(doc.parts[k].name, findImage, encodePng)
    ensures DocRtf(doc, findImage, dims, scaleHeight, encodePng).Ok?
  {
    forall k | 0 <= k < |doc.parts| ensures PartRtf(doc.parts[k], findImage, dims, scaleHeight, encodePng).Ok? {
      PartRtfFails(doc.parts[k], findImage, dims, scaleHeight, encodePng);
    }
    RenderOk(doc.parts, p => PartRtf(p, findImage, dims, scaleHeight, encodePng));
  }

  predicate SevenBit(b: seq<Byte>) {
    forall k | 0 <= k < |b| :: b[k] < 128
  }

  lemma SevenBitAppend(a: seq<Byte>, b: seq<Byte>)
    requires SevenBit(a) && SevenBit(b)
    ensures SevenBit(a + b)
  {
    assert forall k | |a| <= k < |a| + |b| :: (a + b)[k] == b[k - |a|];
  }

  lemma HexIsSevenBit(data: seq<Byte>)
    ensures SevenBit(HexOf(data))
  {
    forall k | 0 <= k < |HexOf(data)| ensures HexOf(data)[k] < 128 {
      var d := if k % 2 == 0 then data[k / 2] / 16 else data[k / 2] % 16;
      assert HexOf(data)[k] == HexChars[d];
    }
  }

  /** Every part is written in 7-bit ASCII, the image data included. */
  lemma PartRtfSevenBit<Img>(p: DocPart, findImage: string -> Result<Img, string>, dims: Img -> (int, int),
                             scaleHeight: (int, int) -> int, encodePng: Img -> Result<seq<Byte>, string>)
    requires PartRtf(p, findImage, dims, scaleHeight, encodePng).Ok?
    ensures SevenBit(PartRtf(p, findImage, dims, scaleHeight, encodePng).value)
  {
    if p.Image? {
      var img := findImage(p.name).value;
      var (w, h) := dims(img);
      var (destW, destH) := DestSize(w, h, scaleHeight);
      var pict := "{\\*\\shppict{\\pict\\pngblip" + PictSize(w, h, destW, destH);
      var png := encodePng(img).value;
      EncodeIsSevenBit(pict);
      HexIsSevenBit(png);
      EncodeIsSevenBit("\n}}");
      SevenBitAppend(Encode(pict), HexOf(png));
      SevenBitAppend(Encode(pict) + HexOf(png), Encode("\n}}"));
    } else {
      EncodeIsSevenBit(PartText(p));
    }
  }

  /** The whole RTF output is 7-bit ASCII: characters outside ASCII are
      written as control words and images in hex. */
  lemma {:induction false} PartsRtfSevenBit<Img>(parts: seq<DocPart>, findImage: string -> Result<Img, string>, dims: Img -> (int, int),
                                                scaleHeight: (int, int) -> int, encodePng: Img -> Result<seq<Byte>, string>)
    requires PartsRtf(parts, findImage, dims, scaleHeight, encodePng).Ok?
    ensures SevenBit(PartsRtf(parts, findImage, dims, scaleHeight, encodePng).value)
    decreases |parts|
  {
    if |parts| > 0 {
      var init := parts[..|parts| - 1];
      PartsRtfSevenBit(init, findImage, dims, scaleHeight, encodePng);
      PartRtfSevenBit(parts[|parts| - 1], findImage, dims, scaleHeight, encodePng);
      SevenBitAppend(PartsRtf(init, findImage, dims, scaleHeight, encodePng).value,
                     PartRtf(parts[|parts| - 1], findImage, dims, scaleHeight, encodePng).value);
    }
  }

  lemma DocRtfSevenBit<Img>(doc: Document, findImage: string -> Result<Img, string>, dims: Img -> (int, int),
                            scaleHeight: (int, int) -> int, encodePng: Img -> Result<seq<Byte>, string>)
    requires DocRtf(doc, findImage, dims, scaleHeight, encodePng).Ok?
    ensures SevenBit(DocRtf(doc, findImage, dims, scaleHeight, encodePng).value)
  {
    var body := PartsRtf(doc.parts, findImage, dims, scaleHeight, encodePng).value;
    PartsRtfSevenBit(doc.parts, findImage, dims, scaleHeight, encodePng);
    EncodeIsSevenBit(Header);
    EncodeIsSevenBit("}");
    SevenBitAppend(Encode(Header), body);
    SevenBitAppend(Encode(Header) + body, Encode("}"));
  }
}
