# CBE20255 course tools in Dafny

A model of the two pieces of the CBE20255 course repository that do real work.

- `development/tikzmagic.py` is the `%%tikz` IPython cell magic, written in Python 2.
  - It wraps the cell's TikZ code in a `standalone` LaTeX document.
  - It compiles the document with `pdflatex` in a scratch directory.
  - It converts the picture to JPEG with `convert` or to SVG with `pdf2svg` when asked.
  - It gives an SVG explicit pixel sizes.
  - It publishes an ordered list of display payloads: the LaTeX log (after a failed run), then the image.
- `tools/__main__.py` is the course-site builder, written in Python 3.
  - It picks the notebooks whose file names look like `<chapter>.<section>-<name>.ipynb`.
  - It reads each notebook's title and its table of contents from the markdown cells.
  - It sorts the notebooks by file name.
  - It links them with navigation bars (previous, contents, next, Colab).
  - It puts a course-information cell and the bars into every notebook.
  - It writes `README.md` and `index.md` from the collected entries.

Files:

- `wrappers.dfy` (module `Wrappers`): `Option` for Python's `None`, and `Result` for an operation that may end in an exception.
- `strings.dfy` (module `Strings`): the Python string operations both scripts rely on.
  - `startswith`/`endswith`, `sep.join`, `split(',')`, `strip()`, `splitlines()[0]` and `split()`.
  - Python 3's Unicode whitespace and line-break sets, and Python 2's ASCII ones.
  - `int()`, `'%d'`, and the ordering of strings.
- `tikz_magic.dfy` (module `TikzMagic`): the cell magic.
  - External programs are functions from the scratch directory to how the run ended (exit code and files left behind, or a failed launch).
  - The XML parser is a function from bytes to the `<svg>` elements found.
  - The SVG element whose attributes `_fix_gnuplot_svg_size` sets in place is the class `SvgNode`.
  - Exceptions that escape the magic are the `MagicError` datatype. They include the `UnicodeEncodeError` raised when the document written to `tikz.tex` is not ASCII.
  - The line and the cell arrive as `unicode` text, as IPython passes them. Writing that text to a file opened in text mode encodes it as ASCII (predicate `Encodable`).
- `course_tools.dfy` (module `CourseTools`): the site builder.
  - A notebook is a list of `Cell`s.
  - The per-course texts at the top of the script are a `Config` value.
  - The `notebook` objects whose `navbar` and cells the script updates in place are instances of the class `Notebook`.
  - Exceptions that stop the script are the `ScriptError` datatype: `IndexError`, `KeyError` and `StopIteration`.

The pure parts are functions; the step-by-step parts are methods proved against them:

- `ReadTitle`, `GetToc`, `LoadNotebooks`, `SetNavbars`, `WriteNotebooks`, `Publish` and `Rebuild`.
- `RunLatex`, `FixSvgSize`, `PrepareJob`, `PublishResults` and `Tikz`.

## Model

| member | source | states |
|---|---|---|
| TikzMagic.MimeType | development/tikzmagic.py:47-50 | png, svg, jpg and jpeg map to their MIME types; any other format `f` falls back to `image/f`; every result is an `image/` type |
| TikzMagic.Resolve | development/tikzmagic.py:220-235 | each option is the one given, else the default: scale `1`, size `400,240`, format `png` |
| TikzMagic.DensityHint | development/tikzmagic.py:237-240 | `density=300,` is added exactly for png, jpg and jpeg; otherwise nothing is added |
| TikzMagic.PreambleTailStart | development/tikzmagic.py:244-245 | after the density hint, the class options continue with `size=<w>x<h>,outext=.png` whatever the format |
| TikzMagic.DensityHintPlacement | development/tikzmagic.py:237-249 | the converter options start with the density hint iff the format is raster; for other formats they start directly with the size |
| TikzMagic.FormatOnlyChangesHint | development/tikzmagic.py:237-256 | two formats that agree on being raster produce the same LaTeX document |
| TikzMagic.CodeInsidePicture | development/tikzmagic.py:244-256 | the document holds the code verbatim, right after the `tikzpicture` opening with its scale and a space; a space and the closing text follow it |
| TikzMagic.RunLatex | development/tikzmagic.py:98-129 | raises `UnicodeEncodeError` iff the document is not ASCII, before pdflatex runs; otherwise writes `tikz.tex`, runs pdflatex on that directory, and returns the log iff the run failed (non-zero exit or launch failure) and left `tikz.log` |
| TikzMagic.Route | development/tikzmagic.py:259-262 | jpg and jpeg go to `convert`, svg to `pdf2svg`, and nothing else to a converter |
| TikzMagic.NormaliseSvg | development/tikzmagic.py:85-95 | succeeds iff the parser found exactly one `<svg>`, and either a size is given or the viewBox has four fields |
| TikzMagic.NormaliseSvgSetsSize | development/tikzmagic.py:85-95 | the result keeps every other attribute and the children, and sets width and height to the given size (or viewBox fields 3 and 4) followed by `px` |
| TikzMagic.NormaliseFromViewBox | development/tikzmagic.py:86-94 | with no size, a viewBox `a b w h` gives width `wpx` and height `hpx` |
| TikzMagic.PercentDPx | development/tikzmagic.py:93-94 | `'%dpx'` succeeds iff its argument is an integer, and then writes its decimal digits and `px` |
| TikzMagic.ViewBoxFallbackRaises | development/tikzmagic.py:91-94 | `'%dpx'` applied to the viewBox text `"300"` raises, while the integer 300 gives `300px` |
| TikzMagic.SvgNode.constructor | development/tikzmagic.py:85 | the node holds the parsed element's attributes and children |
| TikzMagic.Attribute | development/tikzmagic.py:86-91 | definition: minidom's `getAttribute`, the empty string for an absent attribute; properties in TikzMagic.NormaliseSvgSetsSize and TikzMagic.NormaliseFromViewBox |
| TikzMagic.SvgNode.SetAttribute | development/tikzmagic.py:93-94 | `setAttribute` updates that one attribute and leaves the others alone |
| TikzMagic.FixSvgSize | development/tikzmagic.py:71-95 | with a size it returns the normalised element; without one it always raises, and does so even when the viewBox has four fields |
| TikzMagic.TextPayloads | development/tikzmagic.py:267-269 | one text payload holding the log iff the log is non-empty; none otherwise |
| TikzMagic.PackageFailure | development/tikzmagic.py:272-281 | publishing raises iff the image file exists and either the size is not two integers or the SVG does not have exactly one `<svg>` element; a missing image is swallowed |
| TikzMagic.PackageSvgImage | development/tikzmagic.py:272-278 | a published SVG is the normalised element at the requested size, after the text payload |
| TikzMagic.TextThenImages | development/tikzmagic.py:264-278 | the log payload followed by one image of the given MIME type, or by none, is a well-shaped result |
| TikzMagic.PackageShape | development/tikzmagic.py:264-281 | the result holds exactly one text payload, first and holding the log, iff the log is non-empty, and exactly one image, last and of the format's MIME type, iff the image file exists; nothing else, all tagged `TikZMagic.Tikz` |
| TikzMagic.PackageWithoutImage | development/tikzmagic.py:272-281 | with no image file, only the text payload is published |
| TikzMagic.PackageRawImage | development/tikzmagic.py:272-278 | any image other than SVG is published unchanged, after the text payload |
| TikzMagic.RoutingIsolation | development/tikzmagic.py:259-262 | the result does not depend on `convert` unless the format is jpg/jpeg, nor on `pdf2svg` unless it is svg |
| TikzMagic.DefaultSizeSplits | development/tikzmagic.py:228-230 | the default size splits into `400` and `240` |
| TikzMagic.DefaultSizeFields | development/tikzmagic.py:225-230 | with no `--size`, preparation succeeds with width `400` and height `240` |
| TikzMagic.DefaultSizeInts | development/tikzmagic.py:275 | the default fields parse as the integers 400 and 240 |
| TikzMagic.RenderPrepared | development/tikzmagic.py:201-286 | a prepared request renders as: compile, convert, then package; if its document is not ASCII, it raises `UnicodeEncodeError` instead |
| TikzMagic.EncodeFailure | development/tikzmagic.py:99-100 | the magic raises `UnicodeEncodeError` iff the request is prepared and its document is not ASCII; packaging never raises it |
| TikzMagic.CodeInDocument | development/tikzmagic.py:211-256 | the code is copied into the document, so a document that can be written has ASCII code |
| TikzMagic.NonAsciiCodeRaises | development/tikzmagic.py:99-100 | code holding any character above 127 (a degree sign, say) raises `UnicodeEncodeError` and publishes nothing, whatever pdflatex would do |
| TikzMagic.CompileSuccessGivesImage | development/tikzmagic.py:257-278 | a png request whose pdflatex run succeeds and leaves `tikz.png` publishes exactly that image, if its document is ASCII; otherwise it raises `UnicodeEncodeError` |
| TikzMagic.PngJobGivesImage | development/tikzmagic.py:257-278 | the same, for a prepared png job |
| TikzMagic.CompileFailureWithLog | development/tikzmagic.py:106-129 | a png compile that exits with any non-zero status and leaves a non-empty log publishes exactly the log as text, if the document is ASCII; otherwise it raises `UnicodeEncodeError` |
| TikzMagic.CompileFailureWithoutLog | development/tikzmagic.py:119-125 | a compile that exits with any non-zero status leaving no file, or cannot be launched, publishes nothing, if the document is ASCII; otherwise it raises `UnicodeEncodeError` |
| TikzMagic.FailedPngJob | development/tikzmagic.py:257-281 | a png compile that fails in any way (non-zero exit or failed launch) without leaving the image publishes only the log payload, if it left one, whatever it does to `tikz.tex` |
| TikzMagic.JpegReadsUnwrittenFile | development/tikzmagic.py:259-273 | for `-f jpeg`, `convert` writes `tikz.jpg` but `tikz.jpeg` is opened, so only the log is published (or `UnicodeEncodeError` is raised, for a document that is not ASCII) |
| TikzMagic.JpegJobHasNoImage | development/tikzmagic.py:151 | the same, for a prepared jpeg job |
| TikzMagic.PackageIntended | development/tikzmagic.py:259-278 | definition: packaging that opens `tikz.jpg` for `-f jpeg`, the file `convert` writes; properties in TikzMagic.IntendedJpegGivesImage |
| TikzMagic.IntendedJpegGivesImage | development/tikzmagic.py:259-278 | with that correction, a jpeg job whose compile and conversion succeed publishes the converted JPEG as `image/jpeg` |
| TikzMagic.PrepareJob | development/tikzmagic.py:201-256 | builds the job (code, size fields, format, document) or raises on a size that is not two comma-separated fields |
| TikzMagic.Tikz | development/tikzmagic.py:181-286 | the magic, step by step, returns what the model's rendering function specifies |
| TikzMagic.PublishResults | development/tikzmagic.py:264-281 | the publishing loop builds exactly the payload list that packaging specifies |
| TikzMagic.CellCode | development/tikzmagic.py:204-211 | definition: the line's code words joined by blanks, then the cell body (empty for the line form); properties in TikzMagic.PrepareJob and TikzMagic.CodeInsidePicture |
| TikzMagic.PreambleTail | development/tikzmagic.py:244-249 | definition: the class options after the density hint and the `tikzpicture` opening; properties in TikzMagic.PreambleTailStart |
| TikzMagic.Preamble | development/tikzmagic.py:244-249 | definition: `pre_tex` filled in; properties in TikzMagic.DensityHintPlacement, TikzMagic.FormatOnlyChangesHint and TikzMagic.CodeInsidePicture |
| TikzMagic.Document | development/tikzmagic.py:251-256 | definition: `pre_tex`, the code and `post_tex` joined by blanks; properties in TikzMagic.CodeInsidePicture and TikzMagic.FormatOnlyChangesHint |
| TikzMagic.Prepare | development/tikzmagic.py:220-256 | definition: options resolved, size split, document built; properties in TikzMagic.PrepareJob, TikzMagic.DefaultSizeFields and TikzMagic.RenderPrepared |
| TikzMagic.CompileLog | development/tikzmagic.py:106-129 | definition: the log is read back only after a failed run that left `tikz.log`; properties in TikzMagic.RunLatex |
| TikzMagic.Compile | development/tikzmagic.py:98-129 | definition: `_run_latex` on a fresh directory, raising `UnicodeEncodeError` at the write for a document that is not ASCII; properties in TikzMagic.RunLatex, TikzMagic.EncodeFailure, TikzMagic.CompileSuccessGivesImage and TikzMagic.CompileFailureWithLog |
| TikzMagic.Convert | development/tikzmagic.py:259-262 | definition: the converter run, chosen by format, changes the files; properties in TikzMagic.Route and TikzMagic.RoutingIsolation |
| TikzMagic.Package | development/tikzmagic.py:264-281 | definition: the log payload, then the image read, sized and typed; properties in TikzMagic.PackageShape, TikzMagic.PackageFailure, TikzMagic.PackageSvgImage, TikzMagic.PackageRawImage and TikzMagic.PackageWithoutImage |
| TikzMagic.Render | development/tikzmagic.py:201-286 | definition: the whole magic as a function; properties in TikzMagic.RenderPrepared, TikzMagic.EncodeFailure, TikzMagic.NonAsciiCodeRaises, TikzMagic.RoutingIsolation, TikzMagic.CompileSuccessGivesImage, TikzMagic.CompileFailureWithLog and TikzMagic.Tikz |
| CourseTools.CourseInfo | tools/__main__.py:91-94 | the course-information text starts with the course comment marker |
| CourseTools.FindExtension | tools/__main__.py:97 | a found position is an `.ipynb` with no newline before it (the regex `.` does not cross lines) |
| CourseTools.FindExtensionNone | tools/__main__.py:97 | when none is found, no position on the first line holds `.ipynb` |
| CourseTools.MatchName | tools/__main__.py:97 | a match yields a chapter of two digits or one capital letter, and a section of two digits |
| CourseTools.MatchNameComplete | tools/__main__.py:97 | every `<chapter>.<section>-<name>.ipynb...` name with a newline-free name matches, with those groups |
| CourseTools.MatchNameSound | tools/__main__.py:97 | every matching name decomposes as chapter, `.`, section, `-`, a newline-free name, `.ipynb`, and the rest |
| CourseTools.CellTitle | tools/__main__.py:129 | a title cell raises IndexError iff its source is just `#`; otherwise the title is one line with no surrounding whitespace |
| CourseTools.CellTitleOf | tools/__main__.py:129 | `#`, spaces, a trimmed one-line title and a line break give back that title |
| CourseTools.Title | tools/__main__.py:124-131 | a title found is a single line |
| CourseTools.TitleFromFirst | tools/__main__.py:126-130 | the title comes from the first markdown cell starting with `#` |
| CourseTools.TitleAbsent | tools/__main__.py:124-131 | without such a cell the title is `None` |
| CourseTools.ReadTitle | tools/__main__.py:124-131 | the loop with its `break` returns the title function's result |
| CourseTools.FmtKeys | tools/__main__.py:105-108 | `FMT` has a key iff it is 2 to 5 `#`; its template is indented by four spaces per level below `#` |
| CourseTools.HeadingWords | tools/__main__.py:171 | the first line of a `##` cell, stripped and split, has a first word starting with `##` |
| CourseTools.TocLine | tools/__main__.py:171-174 | a heading gives a line iff its first word is 2 to 5 `#`; otherwise KeyError on that word |
| CourseTools.TocLineLayout | tools/__main__.py:171-174 | the line is the indentation, then `- [words](url#words-joined-by-dashes)` |
| CourseTools.Headings | tools/__main__.py:168-170 | the cells visited are markdown cells starting with `##` |
| CourseTools.TocSucceeds | tools/__main__.py:166-175 | the table of contents succeeds iff every heading cell gives a line |
| CourseTools.TocInOrder | tools/__main__.py:166-175 | the table of contents is one line per heading cell, in cell order |
| CourseTools.TocFailureStays | tools/__main__.py:168-174 | once a heading fails, later cells do not change the outcome |
| CourseTools.GetToc | tools/__main__.py:166-175 | the loop returns the table-of-contents function's result |
| CourseTools.SectionInZerosIsZero | tools/__main__.py:159-163 | for a two-digit section, `section in '00'` holds iff the section is `00` |
| CourseTools.TocEntryShape | tools/__main__.py:155-164 | an entry is a `### [` heading iff the section is `00`, otherwise a `- [` item; it ends with `title](url)` |
| CourseTools.TwoDigitsPrinted | tools/__main__.py:157-164 | `int()` of a two-digit group prints without the leading zero |
| CourseTools.EntryLabels | tools/__main__.py:155-164 | the label for each chapter kind (`00`, digits, appendix letter) and section kind, with numbers unpadded |
| CourseTools.UrlJoin | tools/__main__.py:116 | `os.path.join`: the URL ends with the file name; a relative name follows the non-empty base with exactly one `/` between them; an absolute name is the whole result |
| CourseTools.LoadPage | tools/__main__.py:112-122 | a loaded page keeps the file name and the cells read |
| CourseTools.LoadPageOk | tools/__main__.py:112-122 | loading succeeds iff the title and the table of contents do; the title's error comes first |
| CourseTools.LoadNotebook | tools/__main__.py:112-122 | the constructor's steps give the page-loading function's result |
| CourseTools.Matching | tools/__main__.py:194 | exactly the listed names that match are kept, with their groups |
| CourseTools.CollectValues | tools/__main__.py:194 | the list comprehension succeeds iff every element does, and then holds every value in order |
| CourseTools.CollectFirstFailure | tools/__main__.py:194 | otherwise the first exception is the one raised |
| CourseTools.LoadAllPages | tools/__main__.py:194 | all matching notebooks load, in listing order, or the first failure is raised |
| CourseTools.LoadNotebooks | tools/__main__.py:194 | the loop returns the load-all function's result |
| CourseTools.CourseInfoWritten | tools/__main__.py:133-140 | an empty notebook raises IndexError; otherwise the first cell becomes the info, replacing a marked cell or inserted before the rest |
| CourseTools.CourseInfoIdempotent | tools/__main__.py:133-140 | writing the course info twice is the same as once |
| CourseTools.SecondCellIsNavbar | tools/__main__.py:143-148 | the second cell becomes the bar, replacing a marked cell or inserted before it |
| CourseTools.LastCellIsNavbar | tools/__main__.py:149-152 | the last cell becomes the bar, replacing a marked cell or appended |
| CourseTools.NavbarWritten | tools/__main__.py:142-153 | fewer than two cells raise IndexError; otherwise the first cell is kept and the second and last cells are the bar |
| CourseTools.NavbarIdempotent | tools/__main__.py:142-153 | writing the bar twice is the same as once |
| CourseTools.Notebook.constructor | tools/__main__.py:111-122 | a new notebook holds the loaded page's cells and no bar |
| CourseTools.Notebook.WriteCourseInfo | tools/__main__.py:133-140 | the cells become the course-info result, unchanged on failure; the bar is untouched |
| CourseTools.Notebook.WriteNavbar | tools/__main__.py:142-153 | the cells become the navbar result, unchanged on failure; the bar is untouched |
| CourseTools.NavbarPrev | tools/__main__.py:188-189 | every bar starts with the marker; all but the first then link to the previous notebook |
| CourseTools.NavbarFirst | tools/__main__.py:189-190 | the contents link directly follows the marker iff the notebook is the first |
| CourseTools.NavbarNext | tools/__main__.py:191-192 | every bar ends with the Colab link; all but the last have the link to the next notebook just before it |
| CourseTools.NavbarLast | tools/__main__.py:190-192 | the contents link directly precedes the Colab link iff the notebook is the last |
| CourseTools.MakeNavbar | tools/__main__.py:188-192 | the `+=` steps build the bar specified for that position |
| CourseTools.SetNavbars | tools/__main__.py:184-192 | an empty list raises StopIteration; otherwise every notebook gets the bar for its position and no cells change |
| CourseTools.Insert | tools/__main__.py:194 | insertion adds exactly the one page |
| CourseTools.SortPages | tools/__main__.py:194 | sorting is a permutation |
| CourseTools.InsertSorted | tools/__main__.py:177-178 | inserting into a list sorted by file name keeps it sorted |
| CourseTools.SortPagesSorted | tools/__main__.py:177-178 | the sorted list is ordered by file name |
| CourseTools.Amended | tools/__main__.py:198-200 | amending raises IndexError iff the notebook is empty or is only a course-info cell; otherwise it has the info first, the bar second and the bar last |
| CourseTools.AmendAllSucceeds | tools/__main__.py:198-200 | the write loop completes iff every notebook can be amended |
| CourseTools.AmendAllCells | tools/__main__.py:196-200 | after the loop every notebook has the info and the bar for its position |
| CourseTools.ReadmeLayout | tools/__main__.py:202-205 | README is the header, the entries joined by newlines, and the footer; every entry sits at its offset |
| CourseTools.IndexLayout | tools/__main__.py:207-209 | index.md is the header, then every notebook's block at its offset |
| CourseTools.IndexBlockLayout | tools/__main__.py:209 | a block is the entry, then every table-of-contents line at its offset |
| CourseTools.BuildNothing | tools/__main__.py:184-196 | when no file name matches, the script ends in StopIteration |
| CourseTools.BuildPages | tools/__main__.py:194 | a successful build uses every loaded notebook, sorted by file name |
| CourseTools.AssembleCells | tools/__main__.py:196-209 | a built site has every notebook amended with its bar, plus the README and index texts |
| CourseTools.BuildAssembles | tools/__main__.py:194-209 | a build is load, sort, then assemble |
| CourseTools.MakeNotebooks | tools/__main__.py:194 | one fresh, distinct notebook object per loaded page, with no bar yet |
| CourseTools.AmendNotebook | tools/__main__.py:198-200 | writing the info and then the bar gives the amended cells, or the error |
| CourseTools.WriteNotebooks | tools/__main__.py:198-200 | the loop stops at the first failing notebook; on success every notebook holds its amended cells; no bar changes |
| CourseTools.Publish | tools/__main__.py:196-209 | once the bars are set, the in-place steps give the assembled site; on success each notebook object holds the site's cells for its position, and no bar changes |
| CourseTools.Rebuild | tools/__main__.py:194-209 | the whole script in place gives the build function's result |
| CourseTools.Toc | tools/__main__.py:166-175 | definition: one line per heading cell, or the first KeyError; properties in CourseTools.TocSucceeds, CourseTools.TocInOrder, CourseTools.TocFailureStays and CourseTools.GetToc |
| CourseTools.EntryLabel | tools/__main__.py:155-163 | definition: the heading or item opening and the chapter and section numbers; properties in CourseTools.EntryLabels and CourseTools.TocEntryShape |
| CourseTools.TocEntry | tools/__main__.py:155-164 | definition: the label, then the linked title; properties in CourseTools.TocEntryShape and CourseTools.EntryLabels |
| CourseTools.WithCourseInfo | tools/__main__.py:133-140 | definition: `write_course_info` on the cells as values; properties in CourseTools.CourseInfoWritten, CourseTools.CourseInfoIdempotent and CourseTools.Notebook.WriteCourseInfo |
| CourseTools.WithNavbar | tools/__main__.py:142-153 | definition: `write_navbar` on the cells as values; properties in CourseTools.NavbarWritten, CourseTools.SecondCellIsNavbar, CourseTools.LastCellIsNavbar, CourseTools.NavbarIdempotent and CourseTools.Notebook.WriteNavbar |
| CourseTools.PrevLink | tools/__main__.py:189 | definition: `PREV_TEMPLATE` filled in with the previous page; properties in CourseTools.NavbarPrev |
| CourseTools.NextLink | tools/__main__.py:191 | definition: `NEXT_TEMPLATE` filled in with the next page; properties in CourseTools.NavbarNext |
| CourseTools.NavbarAt | tools/__main__.py:188-192 | definition: the bar for a position; properties in CourseTools.NavbarPrev, CourseTools.NavbarFirst, CourseTools.NavbarNext, CourseTools.NavbarLast, CourseTools.MakeNavbar and CourseTools.SetNavbars |
| CourseTools.Readme | tools/__main__.py:202-205 | definition: `README.md`'s text; properties in CourseTools.ReadmeLayout |
| CourseTools.IndexBlock | tools/__main__.py:209 | definition: one notebook's entry and table of contents in `index.md`; properties in CourseTools.IndexBlockLayout |
| CourseTools.Index | tools/__main__.py:207-209 | definition: `index.md`'s text; properties in CourseTools.IndexLayout |
| CourseTools.Assemble | tools/__main__.py:196-209 | definition: bars, amended notebooks and the two texts from sorted pages; properties in CourseTools.AssembleCells and CourseTools.Publish |
| CourseTools.Build | tools/__main__.py:194-209 | definition: the whole script as a function of the listing; properties in CourseTools.BuildNothing, CourseTools.BuildPages, CourseTools.BuildAssembles and CourseTools.Rebuild |
| Strings.JoinHoldsPart | tools/__main__.py:204 | `sep.join(parts)` holds each part at its offset; consecutive offsets are a part and a separator apart |
| Strings.Split | development/tikzmagic.py:230 | `split(',')` returns at least one field, and no field contains the separator |
| Strings.JoinSplit | development/tikzmagic.py:230 | joining the fields of a split with the separator gives back the string |
| Strings.SplitJoin | development/tikzmagic.py:230 | splitting the join of separator-free fields gives back the fields |
| Strings.Strip | tools/__main__.py:129 | `strip()` leaves no whitespace at either end |
| Strings.StripSlice | tools/__main__.py:129 | the result of `strip()` is a slice of the text, and everything cut off before and after it is whitespace |
| Strings.StripKeeps | tools/__main__.py:129 | `strip()` leaves a string without surrounding whitespace unchanged |
| Strings.FirstLine | tools/__main__.py:129 | `splitlines()[0]` is a prefix with no line break, ended by a break or the end of the string |
| Strings.FirstLineOf | tools/__main__.py:171 | a break-free text followed by a line break has itself as first line |
| Strings.Words | tools/__main__.py:171 | `split()` returns non-empty words without whitespace |
| Strings.WordsOfSpaced | tools/__main__.py:171 | `split()` of words with whitespace runs around them, non-empty between two words, returns exactly those words in order |
| Strings.FirstWord | tools/__main__.py:171 | the first word of a string not starting with whitespace is its longest non-space prefix |
| Strings.NatToStringValue | development/tikzmagic.py:93-94 | the decimal digits `'%d'` writes have the number's value |
| Strings.ParseIntToString | development/tikzmagic.py:275 | `int()` reads back what `'%d'` writes |
| Strings.ParseDigits | development/tikzmagic.py:275 | `int()` of a digit string is its value |
| Strings.ParseNegative | development/tikzmagic.py:275 | `int()` of `-` directly followed by digits is the negated value |
| Strings.ParseSpaceAfterSign | development/tikzmagic.py:275 | `int()` of a sign, any ASCII whitespace, then digits is the signed value of the digits (`int('- 240') == -240`) |
| Strings.BeforeAsymmetric | tools/__main__.py:177-178 | the file-name order is asymmetric |
| Strings.BeforeTotal | tools/__main__.py:177-178 | two distinct file names are always ordered |
| Strings.BeforeTransitive | tools/__main__.py:177-178 | the file-name order is transitive |
| Strings.Join | tools/__main__.py:204 | definition: `sep.join(parts)`; properties in Strings.JoinHoldsPart, Strings.JoinSplit and Strings.SplitJoin |
| Strings.ParseInt | development/tikzmagic.py:275 | definition: Python 2's `int()` in base 10; properties in Strings.ParseIntToString, Strings.ParseDigits, Strings.ParseNegative and Strings.ParseSpaceAfterSign |
| Strings.IntToString | development/tikzmagic.py:93-94 | definition: `'%d' % n`; properties in Strings.ParseIntToString, Strings.NatToStringValue and TikzMagic.PercentDPx |
| Strings.Before | tools/__main__.py:177-178 | definition: Python's `<` on strings; properties in Strings.BeforeAsymmetric, Strings.BeforeTotal, Strings.BeforeTransitive and CourseTools.SortPagesSorted |

## Left out

- I/O is not modelled:
  - Reading and writing notebooks (`nbformat`), the directory listing, and the README and index files are parameters and results.
  - The scratch directory's creation and removal, `chdir`, `subprocess.call` and `os.system('notedown …')` are outside the model.
  - The progress and error messages printed to the console are left out.
- The external programs (`pdflatex`, `convert`, `pdf2svg`) and `minidom.parseString` are parameters. Their behaviour is whatever the caller supplies.
- `publish_display_data` is not called. The model returns the ordered payload list that the final loop would publish.
- The per-course constants at the top of `tools/__main__.py` are a `Config` value, not their literal texts. These are the README header and footer, the index header, the course-information text, the Colab link and the nbviewer address.
- The `notedown` conversion of `index.md` into `index.ipynb` is not modelled. It is an external program.
- The `%tikz` line form's `return_output` flag and `local_ns` argument are not modelled. They are computed but never used.
- The scratch directory that `UnicodeEncodeError` leaves behind is not modelled, because the directory is outside the model. Neither is the empty `tikz.tex` that `open(…, 'w')` has already created.
- `int()` and the `\d` of the file-name pattern accept only ASCII digits here. Python also accepts other Unicode decimal digits.
- CourseTools.Notebook.WriteNavbar: requires the bar to be set. The script calls `write_navbar` only after `set_navbars` has set every bar (tools/__main__.py:196-200).
- CourseTools.WriteNotebooks: on failure, does not state which earlier notebooks were already rewritten. It states only the error raised.
- CourseTools.SetNavbars: requires the notebook objects to be distinct. The script builds one object per file.
- CourseTools.SortPages: ordering among notebooks with equal file names is not stated. Names from one directory listing are distinct.
- Notebooks are first loaded as values in listing order, then made into `Notebook` objects. In the script, `notebook.__init__` both reads the file and builds the object.

## Findings

| source | as written | input that shows it | evidently intended | confidence | as-written member | corrected member |
|---|---|---|---|---|---|---|
| development/tikzmagic.py:91-94 | with no `size`, width and height are taken from the viewBox as text, then formatted with `'%dpx'`, which raises `TypeError` on a string | `_fix_gnuplot_svg_size` of an SVG with `viewBox="0 0 300 200"` and `size=None` | width `300px` and height `200px`, taken from the viewBox | not executed | TikzMagic.FixSvgSize, TikzMagic.ViewBoxFallbackRaises | TikzMagic.NormaliseSvg, TikzMagic.NormaliseFromViewBox |
| development/tikzmagic.py:259-273 | for `-f jpeg`, `convert` writes `tikz.jpg` (line 151) but the image opened is `tikz.jpeg`, so no image is published | `%%tikz -f jpeg` on any picture that compiles and converts | the converted picture published as `image/jpeg` | not executed | TikzMagic.JpegReadsUnwrittenFile, TikzMagic.JpegJobHasNoImage | TikzMagic.PackageIntended, TikzMagic.IntendedJpegGivesImage |
