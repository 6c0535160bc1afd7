/** The `%%tikz` cell magic (development/tikzmagic.py): the caller's TikZ code
    is wrapped in a `standalone` LaTeX document, `pdflatex` compiles it in a
    scratch directory, `convert` or `pdf2svg` turns the result into the
    requested format, an SVG gets explicit pixel sizes, and the LaTeX log (on
    failure) and the image are returned as an ordered list of display
    payloads.

    The external programs are parameters: each is a function from the scratch
    directory, as it is when the program starts, to how the run ended and the
    files it left behind. The directory is a map from file name to contents.
    The module is Python 2 code, so every file content is a byte string,
    written `ByteString` here. IPython hands the magic its line and cell as
    `unicode`, so the code and the document built around it are text, and
    writing that text to `tikz.tex` encodes it as ASCII. */
module TikzMagic {
  import opened Wrappers
  import opened Strings

  /** A Python 2 `str`: the contents of a file. */
  type ByteString = string

  /** Python 2 encodes a `unicode` text written to a file opened in text mode
      with the default codec, ASCII: the write succeeds iff every character is
      below 128, and raises `UnicodeEncodeError` otherwise. */
  predicate Encodable(text: string) {
    forall i :: 0 <= i < |text| ==> text[i] as int < 128
  }

  /** The scratch directory made by `tempfile.mkdtemp`. */
  type Dir = map<string, ByteString>

  const SOURCE := "TikZMagic.Tikz"
  const TEX_FILE := "tikz.tex"
  const LOG_FILE := "tikz.log"
  const DEFAULT_SCALE := "1"
  const DEFAULT_SIZE := "400,240"
  const DEFAULT_FORMAT := "png"
  const DENSITY := "density=300,"

  // ---------------------------------------------------------------------
  // MIME lookup
  // ---------------------------------------------------------------------

  const MIME_TYPES: map<string, string> :=
    map["png" := "image/png", "svg" := "image/svg+xml", "jpg" := "image/jpeg", "jpeg" := "image/jpeg"]

  /** `_mimetypes.get(format, 'image/%s' % format)`. */
  function MimeType(format: string): (mime: string)
    ensures format == "png" ==> mime == "image/png"
    ensures format == "svg" ==> mime == "image/svg+xml"
    ensures format == "jpg" || format == "jpeg" ==> mime == "image/jpeg"
    ensures format !in {"png", "svg", "jpg", "jpeg"} ==> mime == "image/" + format
    ensures StartsWith(mime, "image/")
  {
    if format in MIME_TYPES then MIME_TYPES[format] else "image/" + format
  }

  // ---------------------------------------------------------------------
  // The request and its defaults
  // ---------------------------------------------------------------------

  /** What the magic receives: the words of its command line that are not
      options, the cell body (absent for the one-line form `%tikz`), and the
      three options, each absent when not given. */
  datatype Request = Request(
    words: seq<string>,
    cell: Option<string>,
    scale: Option<string>,
    size: Option<string>,
    format: Option<string>)

  datatype Options = Options(scale: string, size: string, format: string)

  /** Each option falls back to its default when it was not given. */
  function Resolve(req: Request): (o: Options)
    ensures req.scale.None? ==> o.scale == DEFAULT_SCALE
    ensures req.size.None? ==> o.size == DEFAULT_SIZE
    ensures req.format.None? ==> o.format == DEFAULT_FORMAT
    ensures req.scale.Some? ==> o.scale == req.scale.value
    ensures req.size.Some? ==> o.size == req.size.value
    ensures req.format.Some? ==> o.format == req.format.value
  {
    Options(req.scale.GetOr(DEFAULT_SCALE), req.size.GetOr(DEFAULT_SIZE), req.format.GetOr(DEFAULT_FORMAT))
  }

  /** The TikZ code: the line's words joined by spaces, then the cell body. */
  function CellCode(req: Request): string {
    Join(req.words, " ") + req.cell.GetOr("")
  }

  // ---------------------------------------------------------------------
  // Document templating
  // ---------------------------------------------------------------------

  predicate IsRaster(format: string) {
    format == "png" || format == "jpg" || format == "jpeg"
  }

  /** `add_params`: the density hint, only for the raster formats. */
  function DensityHint(format: string): (hint: string)
    ensures hint == DENSITY <==> IsRaster(format)
    ensures hint == "" <==> !IsRaster(format)
  {
    if IsRaster(format) then DENSITY else ""
  }

  const PREAMBLE_HEAD := "\n\\documentclass[convert={"
  const OUTEXT_PNG := ",outext=.png},border=0pt]{standalone}\n\\usepackage{tikz}\n\\begin{document}\n"
  const PICTURE_OPEN := "\\begin{tikzpicture}[scale="
  const PICTURE_INDENT := "]\n        "
  const POST_TEX := "\n\\end{tikzpicture}\n\\end{document}\n        "

  /** What follows the density hint in `pre_tex`: the size, the `.png` output
      extension (whatever format was asked for) and the opening of the picture. */
  function PreambleTail(width: string, height: string, scale: string): string {
    "size=" + width + "x" + height + OUTEXT_PNG + PICTURE_OPEN + scale + PICTURE_INDENT
  }

  /** `pre_tex`. */
  function Preamble(hint: string, width: string, height: string, scale: string): string {
    PREAMBLE_HEAD + hint + PreambleTail(width, height, scale)
  }

  /** `' '.join((pre_tex, code, post_tex))`. */
  function Document(preamble: string, code: string): string {
    Join([preamble, code, POST_TEX], " ")
  }

  /** What follows the hint starts with the size and the `.png` output
      extension, and so with an `s`. */
  lemma PreambleTailStart(width: string, height: string, scale: string)
    ensures StartsWith(PreambleTail(width, height, scale), "size=" + width + "x" + height + OUTEXT_PNG)
    ensures PreambleTail(width, height, scale)[0] == 's'
  {
    var size := "size=" + width + "x" + height + OUTEXT_PNG;
    assert PreambleTail(width, height, scale) == size + (PICTURE_OPEN + scale + PICTURE_INDENT);
  }

  /** The preamble carries the density hint right after `convert={` exactly
      for the raster formats; for any other format it goes straight on to the
      size. */
  lemma DensityHintPlacement(format: string, width: string, height: string, scale: string)
    ensures var tail := Preamble(DensityHint(format), width, height, scale)[|PREAMBLE_HEAD|..];
            (StartsWith(tail, DENSITY) <==> IsRaster(format))
            && (!IsRaster(format) ==> StartsWith(tail, "size=" + width + "x" + height + OUTEXT_PNG))
  {
    var hint := DensityHint(format);
    var rest := PreambleTail(width, height, scale);
    PreambleTailStart(width, height, scale);
    var tail := Preamble(hint, width, height, scale)[|PREAMBLE_HEAD|..];
    DropPrefix(PREAMBLE_HEAD, hint, rest);
    if IsRaster(format) {
      assert tail[..|DENSITY|] == DENSITY;
    } else {
      assert tail == rest;
      assert DENSITY[0] == 'd';
    }
  }

  /** The requested format reaches the document only through the density hint:
      two formats on the same side of the raster/vector line give the same
      document, so the compiler's output extension never follows the format. */
  lemma FormatOnlyChangesHint(f1: string, f2: string, width: string, height: string, scale: string, code: string)
    requires IsRaster(f1) == IsRaster(f2)
    ensures Document(Preamble(DensityHint(f1), width, height, scale), code)
         == Document(Preamble(DensityHint(f2), width, height, scale), code)
  {
  }

  /** The caller's code sits verbatim between the line that opens the
      `tikzpicture` environment and the text that closes it. */
  lemma CodeInsidePicture(hint: string, width: string, height: string, scale: string, code: string)
    ensures var pre := Preamble(hint, width, height, scale);
            var doc := Document(pre, code);
            var i := |pre| + 1;
            i + |code| + 1 + |POST_TEX| == |doc|
            && doc[i..i + |code|] == code
            && EndsWith(doc[..i], PICTURE_OPEN + scale + PICTURE_INDENT + " ")
            && doc[i + |code|..] == " " + POST_TEX
  {
    var pre := Preamble(hint, width, height, scale);
    DocumentParts(pre, code);
    ThreeParts(pre + " ", code, " " + POST_TEX);
    PreambleEnds(hint, width, height, scale);
  }

  /** The document is the preamble and a space, the code, then a space and
      the closing text. */
  lemma DocumentParts(pre: string, code: string)
    ensures Document(pre, code) == (pre + " ") + code + (" " + POST_TEX)
  {
    assert Join([code, POST_TEX], " ") == code + " " + POST_TEX;
    assert Document(pre, code) == pre + " " + (code + " " + POST_TEX);
  }

  /** The preamble, followed by the joining space, ends with the opening of
      the picture and that space. */
  lemma PreambleEnds(hint: string, width: string, height: string, scale: string)
    ensures EndsWith(Preamble(hint, width, height, scale) + " ", PICTURE_OPEN + scale + PICTURE_INDENT + " ")
  {
    var tail := PreambleTail(width, height, scale);
    var open := PICTURE_OPEN + scale + PICTURE_INDENT;
    EndsWithAppend(PREAMBLE_HEAD + hint, tail);
    EndsWithLastThree("size=" + width + "x" + height + OUTEXT_PNG, PICTURE_OPEN, scale, PICTURE_INDENT);
    EndsWithTrans(Preamble(hint, width, height, scale), tail, open);
    EndsWithExtend(Preamble(hint, width, height, scale), open, " ");
  }

  // ---------------------------------------------------------------------
  // External programs, compile outcome and format routing
  // ---------------------------------------------------------------------

  /** How a `subprocess.call` ended: the exit status and the files the program
      wrote (new or overwritten), or an `OSError` at launch. */
  datatype ToolRun = Exited(status: int, leaves: Dir) | LaunchFailed

  predicate Failed(run: ToolRun) {
    run.LaunchFailed? || run.status != 0
  }

  function AfterRun(dir: Dir, run: ToolRun): Dir {
    if run.Exited? then dir + run.leaves else dir
  }

  /** The root `svg` element: its attributes and, abstractly, the rest of its
      serialised text. */
  datatype SvgElement = SvgElement(attributes: map<string, string>, inner: ByteString)

  /** `pdflatex`, ImageMagick's `convert` and `pdf2svg`, each applied to the
      directory as it is when it starts; `parseSvg` stands for minidom: the
      elements named `svg` in the document, or `None` when it does not parse. */
  datatype Toolchain = Toolchain(
    pdflatex: Dir -> ToolRun,
    convert: Dir -> ToolRun,
    pdf2svg: Dir -> ToolRun,
    parseSvg: ByteString -> Option<seq<SvgElement>>)

  /** The files after compiling, and the log `_run_latex` returns. */
  datatype Workspace = Workspace(files: Dir, log: Option<ByteString>)

  function CompileLog(run: ToolRun, files: Dir): Option<ByteString> {
    if Failed(run) && LOG_FILE in files then Some(files[LOG_FILE]) else None
  }

  /** What `_run_latex` leaves on a fresh directory once `tikz.tex` is
      written: the files after the compiler's run, and the log. */
  function LatexRun(document: string, pdflatex: Dir -> ToolRun): Workspace {
    var written := map[TEX_FILE := document];
    var files := AfterRun(written, pdflatex(written));
    Workspace(files, CompileLog(pdflatex(written), files))
  }

  /** `_run_latex` on a fresh directory: `f.write(code)` raises before the
      compiler starts when the document is not ASCII. */
  function Compile(document: string, pdflatex: Dir -> ToolRun): Result<Workspace, MagicError> {
    if Encodable(document) then Success(LatexRun(document, pdflatex)) else Failure(UnicodeEncode)
  }

  /** `_run_latex`: write the document, run the compiler, and read the log
      back only when the compiler failed and left a log file. A document that
      is not ASCII stops at the write, with `UnicodeEncodeError`. */
  method RunLatex(code: string, dir: Dir, pdflatex: Dir -> ToolRun) returns (r: Result<Workspace, MagicError>)
    ensures r.Failure? <==> !Encodable(code)
    ensures r.Failure? ==> r.error == UnicodeEncode
    ensures r.Success? ==> r.value.files == AfterRun(dir[TEX_FILE := code], pdflatex(dir[TEX_FILE := code]))
    ensures r.Success? ==> (r.value.log.Some? <==> Failed(pdflatex(dir[TEX_FILE := code])) && LOG_FILE in r.value.files)
    ensures r.Success? && r.value.log.Some? ==> r.value.log.value == r.value.files[LOG_FILE]
  {
    if !Encodable(code) {
      return Failure(UnicodeEncode);
    }
    var written := dir[TEX_FILE := code];
    var log: Option<ByteString> := None;
    var retLog := false;
    var run := pdflatex(written);
    match run {
      case Exited(status, _) =>
        if status != 0 {
          retLog := true;
        }
      case LaunchFailed =>
        retLog := true;
    }
    var files := AfterRun(written, run);
    if retLog {
      if LOG_FILE in files {
        log := Some(files[LOG_FILE]);
      }
    }
    r := Success(Workspace(files, log));
  }

  datatype Converter = PngToJpg | PdfToSvg

  /** Which converter runs for a format: `convert` for jpg and jpeg,
      `pdf2svg` for svg, none for anything else (png included). */
  function Route(format: string): (c: Option<Converter>)
    ensures c == Some(PngToJpg) <==> format == "jpg" || format == "jpeg"
    ensures c == Some(PdfToSvg) <==> format == "svg"
    ensures c == None <==> format != "jpg" && format != "jpeg" && format != "svg"
  {
    if format == "jpg" || format == "jpeg" then Some(PngToJpg)
    else if format == "svg" then Some(PdfToSvg)
    else None
  }

  /** `_convert_png_to_jpg` / `_convert_pdf_to_svg`: the exit status is only
      reported, never acted on. */
  function Convert(files: Dir, format: string, tools: Toolchain): Dir {
    match Route(format)
    case None => files
    case Some(PngToJpg) => AfterRun(files, tools.convert(files))
    case Some(PdfToSvg) => AfterRun(files, tools.pdf2svg(files))
  }

  // ---------------------------------------------------------------------
  // SVG size normalisation
  // ---------------------------------------------------------------------

  /** Exceptions that escape `tikz`. */
  datatype MagicError =
    | MalformedSize           // the size is not two comma-separated fields
    | SizeNotInteger          // int() rejects a field of the size
    | MalformedSvg            // minidom cannot parse the SVG
    | SvgElementCount(n: nat) // the SVG does not hold exactly one svg element
    | ViewBoxUnpack           // the viewBox does not have four fields
    | NotANumber              // '%d' given a string
    | UnicodeEncode           // the document written to tikz.tex is not ASCII

  /** minidom's `getAttribute`: the empty string when the attribute is absent. */
  function Attribute(e: SvgElement, name: string): string {
    if name in e.attributes then e.attributes[name] else ""
  }

  function ViewBox(e: SvgElement): seq<string> {
    Split(Attribute(e, "viewBox"), ' ')
  }

  /** The size normalisation as the docstring describes it: exactly one `svg`
      element, whose width and height become `<w>px` and `<h>px`, taken from
      the explicit size or else from viewBox fields 2 and 3. */
  function NormaliseSvg(found: Option<seq<SvgElement>>, size: Option<(int, int)>): (r: Result<SvgElement, MagicError>)
    ensures r.Success? <==>
              found.Some? && |found.value| == 1 && (size.Some? || |ViewBox(found.value[0])| == 4)
  {
    if found.None? then Failure(MalformedSvg)
    else if |found.value| != 1 then Failure(SvgElementCount(|found.value|))
    else
      var svg := found.value[0];
      var viewbox := ViewBox(svg);
      if size.Some? then
        Success(svg.(attributes := svg.attributes["width" := IntToString(size.value.0) + "px"]
                                                 ["height" := IntToString(size.value.1) + "px"]))
      else if |viewbox| != 4 then Failure(ViewBoxUnpack)
      else
        Success(svg.(attributes := svg.attributes["width" := viewbox[2] + "px"]["height" := viewbox[3] + "px"]))
  }

  /** What normalisation promises: width and height in pixels from the
      explicit size or the viewBox, every other attribute and the content of
      the element untouched. */
  lemma NormaliseSvgSetsSize(found: Option<seq<SvgElement>>, size: Option<(int, int)>)
    requires NormaliseSvg(found, size).Success?
    ensures var svg := found.value[0];
            var out := NormaliseSvg(found, size).value;
            && out.inner == svg.inner
            && out.attributes.Keys == svg.attributes.Keys + {"width", "height"}
            && (forall a :: a in svg.attributes && a != "width" && a != "height" ==>
                  out.attributes[a] == svg.attributes[a])
            && out.attributes["width"]
               == (if size.Some? then IntToString(size.value.0) else ViewBox(svg)[2]) + "px"
            && out.attributes["height"]
               == (if size.Some? then IntToString(size.value.1) else ViewBox(svg)[3]) + "px"
  {
  }

  /** Without an explicit size, a viewBox of four space-separated fields
      `x y w h` gives the element width `w` px and height `h` px. */
  lemma NormaliseFromViewBox(e: SvgElement, fields: seq<string>)
    requires |fields| == 4
    requires forall i, k :: 0 <= i < 4 && 0 <= k < |fields[i]| ==> fields[i][k] != ' '
    requires Attribute(e, "viewBox") == Join(fields, " ")
    ensures NormaliseSvg(Some([e]), None).Success?
    ensures NormaliseSvg(Some([e]), None).value.attributes["width"] == fields[2] + "px"
    ensures NormaliseSvg(Some([e]), None).value.attributes["height"] == fields[3] + "px"
  {
    SplitJoin(fields, ' ');
    assert ViewBox(e) == fields;
  }

  /** A value given to `'%d'`: the explicit size holds ints, the viewBox
      fallback holds strings. */
  datatype FormatArg = IntArg(i: int) | StrArg(s: string)

  /** `'%dpx' % arg`: a string argument raises `TypeError`. */
  function PercentDPx(arg: FormatArg): (r: Result<string, MagicError>)
    ensures r.Success? <==> arg.IntArg?
    ensures arg.IntArg? ==> r.value == IntToString(arg.i) + "px"
  {
    match arg
    case IntArg(i) => Success(IntToString(i) + "px")
    case StrArg(_) => Failure(NotANumber)
  }

  /** The viewBox fallback as written hands strings to `'%d'`, so it raises
      instead of giving "300px". */
  lemma ViewBoxFallbackRaises()
    ensures PercentDPx(StrArg("300")) == Failure(NotANumber)
    ensures PercentDPx(IntArg(300)) == Success("300px")
  {
    ThreeDigits(3, 0, 0);
    assert DigitChar(3) == '3' && DigitChar(0) == '0';
    assert IntToString(300) == "300";
    assert IntToString(300) + "px" == "300px";
  }

  /** `'%d'` of a three-digit number. */
  lemma ThreeDigits(a: nat, b: nat, c: nat)
    requires 1 <= a < 10 && b < 10 && c < 10
    ensures IntToString(100 * a + 10 * b + c) == [DigitChar(a), DigitChar(b), DigitChar(c)]
  {
    var n := 100 * a + 10 * b + c;
    assert n / 10 == 10 * a + b && n % 10 == c;
    assert (10 * a + b) / 10 == a && (10 * a + b) % 10 == b;
    assert NatToString(a) == [DigitChar(a)];
    assert NatToString(10 * a + b) == [DigitChar(a)] + [DigitChar(b)];
  }

  /** The minidom node of the root `svg` element, whose attributes
      `_fix_gnuplot_svg_size` changes in place. */
  class SvgNode {
    var attributes: map<string, string>
    const inner: ByteString

    constructor (e: SvgElement)
      ensures attributes == e.attributes && inner == e.inner
    {
      attributes := e.attributes;
      inner := e.inner;
    }

    function GetAttribute(name: string): (value: string)
      reads this
      ensures value == Attribute(SvgElement(attributes, inner), name)
    {
      if name in attributes then attributes[name] else ""
    }

    method SetAttribute(name: string, value: string)
      modifies this
      ensures attributes == old(attributes)[name := value]
    {
      attributes := attributes[name := value];
    }

    function ToXml(): SvgElement
      reads this
    {
      SvgElement(attributes, inner)
    }
  }

  /** `_fix_gnuplot_svg_size` as written: with an explicit size it is the
      normalisation above; without one it always raises, either because the
      viewBox does not have four fields or because '%d' is given a string. */
  method FixSvgSize(image: ByteString, size: Option<(int, int)>, parseSvg: ByteString -> Option<seq<SvgElement>>)
    returns (r: Result<SvgElement, MagicError>)
    ensures size.Some? ==> r == NormaliseSvg(parseSvg(image), size)
    ensures size.None? ==> r.Failure?
    ensures (size.None? && parseSvg(image).Some? && |parseSvg(image).value| == 1
             && |ViewBox(parseSvg(image).value[0])| == 4) ==> r == Failure(NotANumber)
  {
    var found := parseSvg(image);
    if found.None? {
      return Failure(MalformedSvg);
    }
    if |found.value| != 1 {
      return Failure(SvgElementCount(|found.value|));
    }
    var svg := new SvgNode(found.value[0]);
    var viewbox := Split(svg.GetAttribute("viewBox"), ' ');
    var width, height;
    if size.Some? {
      width, height := IntArg(size.value.0), IntArg(size.value.1);
    } else {
      // `width, height = viewbox[2:]` unpacks exactly two fields
      if |viewbox| != 4 {
        return Failure(ViewBoxUnpack);
      }
      width, height := StrArg(viewbox[2]), StrArg(viewbox[3]);
    }
    var w := PercentDPx(width);
    if w.Failure? {
      return Failure(w.error);
    }
    svg.SetAttribute("width", w.value);
    // `height` is of the same kind as `width`, which has just been formatted
    var h := PercentDPx(height);
    svg.SetAttribute("height", h.value);
    r := Success(svg.ToXml());
  }

  // ---------------------------------------------------------------------
  // Result packaging and the whole magic
  // ---------------------------------------------------------------------

  datatype ImageData = Raw(bytes: ByteString) | SvgTree(root: SvgElement)

  /** One `publish_display_data` call: the source key and a one-entry data
      dictionary, `{'text/plain': log}` or `{mime: image}`. */
  datatype Data = Text(text: ByteString) | Image(mime: string, image: ImageData)
  datatype Payload = Payload(source: string, data: Data)

  /** The request after defaulting and the first split of the size. */
  datatype Job = Job(format: string, width: string, height: string, document: string)

  function Prepare(req: Request): Result<Job, MagicError> {
    var o := Resolve(req);
    var dims := Split(o.size, ',');
    if |dims| != 2 then Failure(MalformedSize)
    else
      Success(Job(o.format, dims[0], dims[1],
                  Document(Preamble(DensityHint(o.format), dims[0], dims[1], o.scale), CellCode(req))))
  }

  /** Python truthiness of `text_output`: present and non-empty. */
  predicate Truthy(log: Option<ByteString>) {
    log.Some? && log.value != ""
  }

  function ArtifactName(format: string): string {
    "tikz." + format
  }

  /** The text payload `tikz` builds from a log: one, when the log is truthy. */
  function TextPayloads(log: Option<ByteString>): (ps: seq<Payload>)
    ensures |ps| == 1 <==> Truthy(log)
    ensures |ps| <= 1
    ensures |ps| == 1 ==> ps[0] == Payload(SOURCE, Text(log.value))
  {
    if Truthy(log) then [Payload(SOURCE, Text(log.value))] else []
  }

  /** Build `display_data` from the finished directory. */
  function Package(job: Job, ws: Workspace, parseSvg: ByteString -> Option<seq<SvgElement>>): Result<seq<Payload>, MagicError> {
    var text := TextPayloads(ws.log);
    var name := ArtifactName(job.format);
    if name !in ws.files then Success(text)
    else
      var width := ParseInt(job.width);
      var height := ParseInt(job.height);
      if width.None? || height.None? then Failure(SizeNotInteger)
      else if job.format == "svg" then
        match NormaliseSvg(parseSvg(ws.files[name]), Some((width.value, height.value)))
        case Failure(e) => Failure(e)
        case Success(svg) => Success(text + [Payload(SOURCE, Image(MimeType(job.format), SvgTree(svg)))])
      else
        Success(text + [Payload(SOURCE, Image(MimeType(job.format), Raw(ws.files[name])))])
  }

  /** The files the pipeline leaves before packaging, once the document is
      written. */
  function Finished(job: Job, tools: Toolchain): Workspace {
    var compiled := LatexRun(job.document, tools.pdflatex);
    compiled.(files := Convert(compiled.files, job.format, tools))
  }

  /** The payloads `tikz` publishes, or the exception it raises. */
  function Render(req: Request, tools: Toolchain): Result<seq<Payload>, MagicError> {
    match Prepare(req)
    case Failure(e) => Failure(e)
    case Success(job) =>
      match Compile(job.document, tools.pdflatex)
      case Failure(e) => Failure(e)
      case Success(compiled) =>
        Package(job, compiled.(files := Convert(compiled.files, job.format, tools)), tools.parseSvg)
  }

  /** Packaging fails only when there is an image to publish and either the
      size does not read as two integers or the SVG cannot be normalised. */
  lemma PackageFailure(job: Job, ws: Workspace, parseSvg: ByteString -> Option<seq<SvgElement>>)
    ensures Package(job, ws, parseSvg).Failure? <==>
              ArtifactName(job.format) in ws.files
              && (ParseInt(job.width).None? || ParseInt(job.height).None?
                  || (job.format == "svg"
                      && NormaliseSvg(parseSvg(ws.files[ArtifactName(job.format)]), Some((0, 0))).Failure?))
  {
    var name := ArtifactName(job.format);
    if name in ws.files && ParseInt(job.width).Some? && ParseInt(job.height).Some? && job.format == "svg" {
      var found := parseSvg(ws.files[name]);
      assert NormaliseSvg(found, Some((0, 0))).Success?
        <==> NormaliseSvg(found, Some((ParseInt(job.width).value, ParseInt(job.height).value))).Success?;
    }
  }

  /** With an SVG artifact and an integer size, the normalised root element
      is published after the text payload, if any. */
  lemma PackageSvgImage(job: Job, ws: Workspace, parseSvg: ByteString -> Option<seq<SvgElement>>)
    requires ArtifactName(job.format) in ws.files && job.format == "svg"
    requires Package(job, ws, parseSvg).Success?
    ensures ParseInt(job.width).Some? && ParseInt(job.height).Some?
    ensures var svg := NormaliseSvg(parseSvg(ws.files[ArtifactName(job.format)]),
                                    Some((ParseInt(job.width).value, ParseInt(job.height).value)));
            && svg.Success?
            && Package(job, ws, parseSvg)
               == Success(TextPayloads(ws.log)
                          + [Payload(SOURCE, Image(MimeType(job.format), SvgTree(svg.value)))])
  {
  }

  /** Layout of `display_data`: the text payloads followed by at most one
      image payload, all under the one source key. */
  predicate Shaped(ps: seq<Payload>, log: Option<ByteString>, hasImage: bool, mime: string) {
    && |ps| == (if Truthy(log) then 1 else 0) + (if hasImage then 1 else 0)
    && (forall i :: 0 <= i < |ps| ==> ps[i].source == SOURCE)
    && (|ps| > 0 && ps[0].data.Text? <==> Truthy(log))
    && (Truthy(log) ==> ps[0].data == Text(log.value))
    && (forall i :: 0 < i < |ps| ==> ps[i].data.Image?)
    && (|ps| > 0 && ps[|ps| - 1].data.Image? <==> hasImage)
    && (|ps| > 0 && ps[|ps| - 1].data.Image? ==> ps[|ps| - 1].data.mime == mime)
  }

  lemma TextThenImages(log: Option<ByteString>, images: seq<Payload>, mime: string)
    requires |images| <= 1
    requires forall i :: 0 <= i < |images| ==> images[i].source == SOURCE
    requires forall i :: 0 <= i < |images| ==> images[i].data.Image? && images[i].data.mime == mime
    ensures Shaped(TextPayloads(log) + images, log, |images| == 1, mime)
  {
    var ps := TextPayloads(log) + images;
    if |images| == 1 {
      assert ps[|ps| - 1] == images[0];
    }
  }

  /** The shape of a result: at most two payloads, all under the one source
      key; a text payload comes first and exists exactly when the log is
      truthy, and holds the log; an image payload comes last and exists
      exactly when the artifact for the format is in the directory, and
      carries the format's MIME type. */
  lemma PackageShape(job: Job, ws: Workspace, parseSvg: ByteString -> Option<seq<SvgElement>>)
    requires Package(job, ws, parseSvg).Success?
    ensures Shaped(Package(job, ws, parseSvg).value, ws.log, ArtifactName(job.format) in ws.files, MimeType(job.format))
  {
    var text := TextPayloads(ws.log);
    var name := ArtifactName(job.format);
    var mime := MimeType(job.format);
    if name !in ws.files {
      PackageWithoutImage(job, ws, parseSvg);
      assert Package(job, ws, parseSvg).value == text + [];
      TextThenImages(ws.log, [], mime);
    } else {
      var image;
      if job.format == "svg" {
        PackageSvgImage(job, ws, parseSvg);
        image := Image(mime, SvgTree(Package(job, ws, parseSvg).value[|text|].data.image.root));
      } else {
        PackageRawImage(job, ws, parseSvg);
        image := Image(mime, Raw(ws.files[name]));
      }
      assert Package(job, ws, parseSvg).value == text + [Payload(SOURCE, image)];
      TextThenImages(ws.log, [Payload(SOURCE, image)], mime);
    }
  }

  /** A converter runs only for the formats routed to it: replacing the
      converter that the format does not use changes nothing. */
  lemma RoutingIsolation(req: Request, tools: Toolchain, other: Dir -> ToolRun)
    ensures Route(Resolve(req).format) != Some(PngToJpg) ==>
              Render(req, tools.(convert := other)) == Render(req, tools)
    ensures Route(Resolve(req).format) != Some(PdfToSvg) ==>
              Render(req, tools.(pdf2svg := other)) == Render(req, tools)
  {
  }

  /** The default size "400,240" splits at its comma into two fields. */
  lemma DefaultSizeSplits()
    ensures Split(DEFAULT_SIZE, ',') == ["400", "240"]
  {
    SplitJoin(["400", "240"], ',');
    assert Join(["240"], [',']) == "240";
    assert Join(["400", "240"], [',']) == "400" + [','] + "240";
    assert "400" + [','] + "240" == DEFAULT_SIZE;
  }

  /** With the default size, `Prepare` succeeds with the fields "400" and
      "240". */
  lemma DefaultSizeFields(req: Request)
    requires req.size.None?
    ensures Prepare(req).Success?
    ensures Prepare(req).value.width == "400" && Prepare(req).value.height == "240"
  {
    DefaultSizeSplits();
  }

  /** `int()` reads the default fields as 400 and 240. */
  lemma DefaultSizeInts()
    ensures ParseInt("400") == Some(400) && ParseInt("240") == Some(240)
  {
    ThreeDigits(4, 0, 0);
    ThreeDigits(2, 4, 0);
    assert DigitChar(4) == '4';
    assert DigitChar(2) == '2';
    assert DigitChar(0) == '0';
    assert IntToString(400) == "400";
    assert IntToString(240) == "240";
    ParseIntToString(400);
    ParseIntToString(240);
  }

  /** Without the artifact in the directory, the result is just the text
      payload, if the log is truthy. */
  lemma PackageWithoutImage(job: Job, ws: Workspace, parseSvg: ByteString -> Option<seq<SvgElement>>)
    requires ArtifactName(job.format) !in ws.files
    ensures Package(job, ws, parseSvg)
            == Success(TextPayloads(ws.log))
  {
  }

  /** With a raster artifact and an integer size, the artifact's bytes are
      published unchanged after the text payload, if any. */
  lemma PackageRawImage(job: Job, ws: Workspace, parseSvg: ByteString -> Option<seq<SvgElement>>)
    requires ArtifactName(job.format) in ws.files && job.format != "svg"
    requires ParseInt(job.width).Some? && ParseInt(job.height).Some?
    ensures Package(job, ws, parseSvg)
            == Success(TextPayloads(ws.log)
                       + [Payload(SOURCE, Image(MimeType(job.format), Raw(ws.files[ArtifactName(job.format)])))])
  {
  }

  /** Once the request is prepared, the result is what packaging makes of the
      finished directory, provided the document can be written. */
  lemma RenderPrepared(req: Request, tools: Toolchain)
    requires Prepare(req).Success?
    ensures Render(req, tools)
            == if Encodable(Prepare(req).value.document)
               then Package(Prepare(req).value, Finished(Prepare(req).value, tools), tools.parseSvg)
               else Failure(UnicodeEncode)
  {
  }

  /** `UnicodeEncodeError` escapes exactly when the request is prepared and
      its document is not ASCII: nothing else raises it. */
  lemma EncodeFailure(req: Request, tools: Toolchain)
    ensures Render(req, tools) == Failure(UnicodeEncode)
            <==> Prepare(req).Success? && !Encodable(Prepare(req).value.document)
  {
    if Prepare(req).Success? && Encodable(Prepare(req).value.document) {
      var job := Prepare(req).value;
      PackageNeverEncodes(job, Finished(job, tools), tools.parseSvg);
    }
  }

  /** Packaging reads files and never writes text. */
  lemma PackageNeverEncodes(job: Job, ws: Workspace, parseSvg: ByteString -> Option<seq<SvgElement>>)
    ensures Package(job, ws, parseSvg) != Failure(UnicodeEncode)
  {
  }

  /** The code is copied verbatim into the document, so the document can be
      written only if the code can. */
  lemma CodeInDocument(req: Request)
    requires Prepare(req).Success?
    ensures Encodable(Prepare(req).value.document) ==> Encodable(CellCode(req))
  {
    var o := Resolve(req);
    var dims := Split(o.size, ',');
    var pre := Preamble(DensityHint(o.format), dims[0], dims[1], o.scale);
    assert Prepare(req).value.document == Document(pre, CellCode(req));
    DocumentEncodable(pre, CellCode(req));
  }

  lemma DocumentEncodable(pre: string, code: string)
    ensures Encodable(Document(pre, code)) ==> Encodable(code)
  {
    DocumentParts(pre, code);
    var doc := Document(pre, code);
    var i := |pre| + 1;
    forall k | 0 <= k < |code|
      ensures code[k] == doc[i + k]
    {
    }
  }


  /** Code holding a character above 127, a degree sign say, makes the
      magic raise `UnicodeEncodeError` and publish nothing, whatever the
      compiler would have done. */
  lemma NonAsciiCodeRaises(req: Request, tools: Toolchain, k: nat)
    requires Prepare(req).Success?
    requires k < |CellCode(req)| && CellCode(req)[k] as int >= 128
    ensures Render(req, tools) == Failure(UnicodeEncode)
  {
    CodeInDocument(req);
    EncodeFailure(req, tools);
  }



  /** The scratch file names are pairwise distinct. */
  lemma FileNames()
    ensures ArtifactName("png") == "tikz.png" && ArtifactName("jpeg") == "tikz.jpeg"
    ensures TEX_FILE != LOG_FILE
    ensures "tikz.png" != TEX_FILE && "tikz.png" != LOG_FILE
    ensures "tikz.jpeg" != TEX_FILE && "tikz.jpeg" != "tikz.jpg"
  {
    assert TEX_FILE[5] == 't' && LOG_FILE[5] == 'l' && "tikz.png"[5] == 'p';
    assert |"tikz.jpeg"| != |TEX_FILE| && |"tikz.jpeg"| != |"tikz.jpg"|;
  }

  /** A compiler that succeeds and writes `tikz.png` gives exactly one image
      payload, the file's bytes, and no text payload (the default size meets
      the size requirement, by `DefaultSizeFields` and `DefaultSizeInts`). */
  lemma CompileSuccessGivesImage(req: Request, tools: Toolchain, png: ByteString)
    requires Resolve(req).format == "png"
    requires Prepare(req).Success?
    requires ParseInt(Prepare(req).value.width).Some? && ParseInt(Prepare(req).value.height).Some?
    requires forall d :: tools.pdflatex(d) == Exited(0, map["tikz.png" := png])
    ensures Render(req, tools)
            == if Encodable(Prepare(req).value.document)
               then Success([Payload(SOURCE, Image("image/png", Raw(png)))])
               else Failure(UnicodeEncode)
  {
    RenderPrepared(req, tools);
    PngJobGivesImage(Prepare(req).value, tools, png);
  }

  lemma PngJobGivesImage(job: Job, tools: Toolchain, png: ByteString)
    requires job.format == "png"
    requires ParseInt(job.width).Some? && ParseInt(job.height).Some?
    requires forall d :: tools.pdflatex(d) == Exited(0, map["tikz.png" := png])
    ensures Package(job, Finished(job, tools), tools.parseSvg)
            == Success([Payload(SOURCE, Image("image/png", Raw(png)))])
  {
    FileNames();
    var written := map[TEX_FILE := job.document];
    assert tools.pdflatex(written) == Exited(0, map["tikz.png" := png]);
    var ws := Finished(job, tools);
    assert ws.files == written + map["tikz.png" := png];
    assert ws.files[ArtifactName(job.format)] == png;
    assert TextPayloads(ws.log) == [];
    PackageRawImage(job, ws, tools.parseSvg);
    var image := Payload(SOURCE, Image("image/png", Raw(png)));
    assert [] + [image] == [image];
  }

  /** A compiler that fails (any non-zero exit status) and leaves a
      non-empty log gives exactly one text payload, the log, and no image. */
  lemma CompileFailureWithLog(req: Request, tools: Toolchain, status: int, log: ByteString)
    requires Resolve(req).format == "png"
    requires Prepare(req).Success?
    requires status != 0 && log != ""
    requires forall d :: tools.pdflatex(d) == Exited(status, map[LOG_FILE := log])
    ensures Render(req, tools)
            == if Encodable(Prepare(req).value.document) then Success([Payload(SOURCE, Text(log))])
               else Failure(UnicodeEncode)
  {
    var job := Prepare(req).value;
    var run := Exited(status, map[LOG_FILE := log]);
    FileNames();
    FailedPngJob(job, tools, run);
    assert TextPayloads(Some(log)) == [Payload(SOURCE, Text(log))];
    RenderPrepared(req, tools);
  }

  /** A compiler that fails without leaving a log, whether it exits non-zero
      or cannot be launched at all, gives an empty result. */
  lemma CompileFailureWithoutLog(req: Request, tools: Toolchain, run: ToolRun)
    requires Resolve(req).format == "png"
    requires Prepare(req).Success?
    requires Failed(run) && (run.Exited? ==> run.leaves == map[])
    requires forall d :: tools.pdflatex(d) == run
    ensures Render(req, tools)
            == if Encodable(Prepare(req).value.document) then Success([]) else Failure(UnicodeEncode)
  {
    RenderPrepared(req, tools);
    FailedPngJob(Prepare(req).value, tools, run);
  }

  /** A failing compiler (non-zero exit, or an `OSError` at launch) that
      writes no `tikz.png` publishes the log it left, if any and not empty. */
  lemma FailedPngJob(job: Job, tools: Toolchain, run: ToolRun)
    requires job.format == "png"
    requires Failed(run)
    requires run.Exited? ==> "tikz.png" !in run.leaves
    requires forall d :: tools.pdflatex(d) == run
    ensures Package(job, Finished(job, tools), tools.parseSvg)
            == Success(TextPayloads(if run.Exited? && LOG_FILE in run.leaves then Some(run.leaves[LOG_FILE]) else None))
  {
    FileNames();
    var written := map[TEX_FILE := job.document];
    assert tools.pdflatex(written) == run;
    var ws := Finished(job, tools);
    assert ws.files == AfterRun(written, run);
    assert LOG_FILE in ws.files <==> run.Exited? && LOG_FILE in run.leaves;
    PackageWithoutImage(job, ws, tools.parseSvg);
  }

  /** Asking for `jpeg` runs `convert`, which writes `tikz.jpg`, but the
      packager opens `tikz.jpeg`: unless the compiler itself wrote that file,
      no image is ever published for `jpeg`, only the log. */
  lemma JpegReadsUnwrittenFile(req: Request, tools: Toolchain)
    requires req.format == Some("jpeg")
    requires Prepare(req).Success?
    requires forall d :: tools.pdflatex(d).Exited? ==> "tikz.jpeg" !in tools.pdflatex(d).leaves
    requires forall d :: tools.convert(d).Exited? ==> tools.convert(d).leaves.Keys <= {"tikz.jpg"}
    ensures Render(req, tools)
            == if Encodable(Prepare(req).value.document)
               then Success(TextPayloads(Finished(Prepare(req).value, tools).log))
               else Failure(UnicodeEncode)
  {
    RenderPrepared(req, tools);
    JpegJobHasNoImage(Prepare(req).value, tools);
  }

  lemma JpegJobHasNoImage(job: Job, tools: Toolchain)
    requires job.format == "jpeg"
    requires forall d :: tools.pdflatex(d).Exited? ==> "tikz.jpeg" !in tools.pdflatex(d).leaves
    requires forall d :: tools.convert(d).Exited? ==> tools.convert(d).leaves.Keys <= {"tikz.jpg"}
    ensures Package(job, Finished(job, tools), tools.parseSvg) == Success(TextPayloads(Finished(job, tools).log))
  {
    FileNames();
    var written := map[TEX_FILE := job.document];
    var compiled := AfterRun(written, tools.pdflatex(written));
    assert "tikz.jpeg" !in compiled;
    var ws := Finished(job, tools);
    assert ws.files == AfterRun(compiled, tools.convert(compiled));
    assert ArtifactName(job.format) !in ws.files;
    PackageWithoutImage(job, ws, tools.parseSvg);
  }

  /** Packaging as evidently intended: for `jpeg`, open the `tikz.jpg` that
      `convert` writes. Since `jpg` and `jpeg` share a MIME type, this is the
      `jpg` packaging; every other format is packaged as written. */
  function PackageIntended(job: Job, ws: Workspace, parseSvg: ByteString -> Option<seq<SvgElement>>): Result<seq<Payload>, MagicError> {
    if job.format == "jpeg" then Package(job.(format := "jpg"), ws, parseSvg) else Package(job, ws, parseSvg)
  }

  /** With the intended packaging, a `jpeg` request whose compile and
      conversion succeed publishes the converted image as `image/jpeg`. */
  lemma IntendedJpegGivesImage(job: Job, tools: Toolchain, png: ByteString, jpg: ByteString)
    requires job.format == "jpeg"
    requires ParseInt(job.width).Some? && ParseInt(job.height).Some?
    requires forall d :: tools.pdflatex(d) == Exited(0, map["tikz.png" := png])
    requires forall d :: tools.convert(d) == Exited(0, map["tikz.jpg" := jpg])
    ensures PackageIntended(job, Finished(job, tools), tools.parseSvg)
            == Success([Payload(SOURCE, Image("image/jpeg", Raw(jpg)))])
  {
    var ws := Finished(job, tools);
    ConvertedJpeg(job, tools, png, jpg);
    var fixed := job.(format := "jpg");
    assert ArtifactName(fixed.format) == "tikz.jpg";
    PackageRawImage(fixed, ws, tools.parseSvg);
    var image := Payload(SOURCE, Image("image/jpeg", Raw(jpg)));
    assert [] + [image] == [image];
  }

  /** After a successful compile and conversion, `tikz.jpg` holds the
      converted image and there is no log. */
  lemma ConvertedJpeg(job: Job, tools: Toolchain, png: ByteString, jpg: ByteString)
    requires job.format == "jpeg"
    requires forall d :: tools.pdflatex(d) == Exited(0, map["tikz.png" := png])
    requires forall d :: tools.convert(d) == Exited(0, map["tikz.jpg" := jpg])
    ensures "tikz.jpg" in Finished(job, tools).files && Finished(job, tools).files["tikz.jpg"] == jpg
    ensures Finished(job, tools).log == None
  {
    var written := map[TEX_FILE := job.document];
    var compiled := written + map["tikz.png" := png];
    assert tools.pdflatex(written) == Exited(0, map["tikz.png" := png]);
    assert tools.convert(compiled) == Exited(0, map["tikz.jpg" := jpg]);
    assert Finished(job, tools).files == compiled + map["tikz.jpg" := jpg];
  }

  /** The first half of `tikz`: default the options, split the size and
      template the document. */
  method PrepareJob(req: Request) returns (r: Result<Job, MagicError>)
    ensures r == Prepare(req)
  {
    var code := Join(req.words, " ") + req.cell.GetOr("");
    var scale := if req.scale.Some? then req.scale.value else DEFAULT_SCALE;
    var size := if req.size.Some? then req.size.value else DEFAULT_SIZE;
    var dims := Split(size, ',');
    if |dims| != 2 {
      return Failure(MalformedSize);
    }
    var format := if req.format.Some? then req.format.value else DEFAULT_FORMAT;
    var addParams := "";
    if format == "png" || format == "jpg" || format == "jpeg" {
      addParams := addParams + DENSITY;
      assert addParams == DENSITY;
    }
    var preTex := Preamble(addParams, dims[0], dims[1], scale);
    r := Success(Job(format, dims[0], dims[1], Join([preTex, code, POST_TEX], " ")));
  }

  /** The `tikz` magic: prepare the document, compile it in an empty
      directory, run the converter the format is routed to, and publish. */
  method Tikz(req: Request, tools: Toolchain) returns (r: Result<seq<Payload>, MagicError>)
    ensures r == Render(req, tools)
  {
    var prepared := PrepareJob(req);
    if prepared.Failure? {
      return Failure(prepared.error);
    }
    var job := prepared.value;
    var written := RunLatex(job.document, map[], tools.pdflatex);
    if written.Failure? {
      return Failure(written.error);
    }
    var files, textOutput := written.value.files, written.value.log;
    ghost var compiled := files;
    if job.format == "jpg" || job.format == "jpeg" {
      files := AfterRun(files, tools.convert(files));
    } else if job.format == "svg" {
      files := AfterRun(files, tools.pdf2svg(files));
    }
    assert files == Convert(compiled, job.format, tools);
    assert Workspace(files, textOutput) == Finished(job, tools);
    RenderPrepared(req, tools);
    assert Encodable(job.document);
    r := PublishResults(job, files, textOutput, tools.parseSvg);
  }

  /** The second half of `tikz`: collect the log and the image into
      `display_data`, appending one payload at a time. */
  method PublishResults(job: Job, files: Dir, textOutput: Option<ByteString>,
                        parseSvg: ByteString -> Option<seq<SvgElement>>)
    returns (r: Result<seq<Payload>, MagicError>)
    ensures r == Package(job, Workspace(files, textOutput), parseSvg)
  {
    var format := job.format;
    var ws := Workspace(files, textOutput);
    var displayData: seq<Payload> := [];
    if textOutput.Some? && textOutput.value != "" {
      displayData := displayData + [Payload(SOURCE, Text(textOutput.value))];
    }
    assert displayData == TextPayloads(ws.log);
    var name := "tikz." + format;
    if name !in files {
      PackageWithoutImage(job, ws, parseSvg);
    } else {
      var image := files[name];
      var mime := MimeType(format);
      var width := ParseInt(job.width);
      var height := ParseInt(job.height);
      if width.None? || height.None? {
        return Failure(SizeNotInteger);
      }
      if format == "svg" {
        var fixed := FixSvgSize(image, Some((width.value, height.value)), parseSvg);
        if fixed.Failure? {
          return Failure(fixed.error);
        }
        displayData := displayData + [Payload(SOURCE, Image(mime, SvgTree(fixed.value)))];
      } else {
        displayData := displayData + [Payload(SOURCE, Image(mime, Raw(image)))];
        PackageRawImage(job, ws, parseSvg);
      }
    }
    r := Success(displayData);
  }
}
