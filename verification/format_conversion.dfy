/** The per-file step of formatConversion.py: the output file name (the
    input name up to its first dot, then the output extension) and the
    encoder option chosen by the output extension. */
module FormatConversion {
  import opened Wrappers

  /** Compression level for PNG output (0-9) and quality for JPEG (0-100). */
  const PngCompressionLevel := 9
  const JpegQualityLevel := 100

  /** Python's `s.partition(sep)`: the text before the first `sep`, the
      separator itself, and the rest; `(s, "", "")` when `sep` is absent. */
  function Partition(s: string, sep: char): (r: (string, string, string))
    // the three parts put back together give the input
    ensures r.0 + r.1 + r.2 == s
    // the head holds no separator, so the cut is at the first one
    ensures sep !in r.0
    ensures r.1 == [sep] <==> sep in s
    ensures r.1 == [] <==> sep !in s
    ensures r.1 == [] ==> r.2 == []
  {
    if |s| == 0 then
      ("", "", "")
    else if s[0] == sep then
      ("", [sep], s[1..])
    else
      var (head, separator, tail) := Partition(s[1..], sep);
      ([s[0]] + head, separator, tail)
  }

  /** `name + separator + extensionOut` after `imageName.partition('.')`
      (the output directory join is left out). */
  function OutputName(imageName: string, extensionOut: string): (out: string)
    ensures |extensionOut| <= |out|
    // the name ends with the output extension
    ensures out[|out| - |extensionOut|..] == extensionOut
    // without a dot, the extension is glued straight onto the whole name
    ensures '.' !in imageName ==> out[..|out| - |extensionOut|] == imageName
    // with one, what precedes the extension is the name up to and
    // including its first dot
    ensures '.' in imageName ==>
      var stem := out[..|out| - |extensionOut|];
      && 0 < |stem| <= |imageName|
      && stem == imageName[..|stem|]
      && stem[|stem| - 1] == '.'
      && '.' !in stem[..|stem| - 1]
  {
    var (name, separator, _) := Partition(imageName, '.');
    assert imageName == name + separator + Partition(imageName, '.').2;
    assert imageName[..|name + separator|] == name + separator;
    name + separator + extensionOut
  }

  /** Everything after the first dot is dropped, and a name without a dot
      gets no dot before the new extension. */
  lemma OutputNameExamples()
    ensures OutputName("a.b.jpg", "png") == "a.png"
    ensures OutputName("photo", "png") == "photopng"
  {
  }

  /** The encoder setting `cv2.imwrite` is given. */
  datatype Encoder = PngCompression(level: int) | JpegQuality(level: int)

  /** The write option chosen by the output extension; for any extension
      other than `png` and `jpg` nothing is written. */
  function WriteOption(extensionOut: string): (opt: Option<Encoder>)
    ensures opt.Some? <==> extensionOut == "png" || extensionOut == "jpg"
    // the exact settings the source passes
    ensures extensionOut == "png" ==> opt == Some(PngCompression(9))
    ensures extensionOut == "jpg" ==> opt == Some(JpegQuality(100))
    ensures opt.Some? && opt.value.PngCompression? ==>
      extensionOut == "png" && 0 <= opt.value.level <= 9
    ensures opt.Some? && opt.value.JpegQuality? ==>
      extensionOut == "jpg" && 0 <= opt.value.level <= 100
  {
    if extensionOut == "png" then
      Some(PngCompression(PngCompressionLevel))
    else if extensionOut == "jpg" then
      Some(JpegQuality(JpegQualityLevel))
    else
      None
  }

  /** The file write one input image leads to, if any. */
  datatype Write = Write(fileName: string, encoder: Encoder)

  function ConvertedWrite(imageName: string, extensionOut: string): (w: Option<Write>)
    ensures w.Some? <==> extensionOut == "png" || extensionOut == "jpg"
    ensures w.Some? ==>
      var n := w.value.fileName;
      && |extensionOut| <= |n| && n[|n| - |extensionOut|..] == extensionOut
      && (w.value.encoder.PngCompression? <==> extensionOut == "png")
    // the name is the rewritten input name and the encoder the chosen option
    ensures w.Some? ==>
      && w.value.fileName == OutputName(imageName, extensionOut)
      && Some(w.value.encoder) == WriteOption(extensionOut)
  {
    match WriteOption(extensionOut)
    case None => None
    case Some(encoder) => Some(Write(OutputName(imageName, extensionOut), encoder))
  }
}
