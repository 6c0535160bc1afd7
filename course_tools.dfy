/** The course-site builder (tools/__main__.py): it picks the notebooks whose
    file names follow the `<chapter>.<section>-<name>.ipynb` pattern, reads each
    one's title and table of contents from its markdown cells, orders them by
    file name, puts a course-information cell and a navigation bar (previous,
    contents, next) into every notebook, and writes the README and the index
    from the collected entries.

    Notebooks are lists of cells held in memory; reading and writing them, the
    directory listing and the `notedown` call are outside the model. The texts
    the script asks each course to edit (the README header and footer, the
    index header, the course-information text, the Colab link around the file
    name and the nbviewer address) are a `Config` parameter. */
module CourseTools {
  import opened Wrappers
  import opened Strings

  // ---------------------------------------------------------------------
  // Cells, texts and failures
  // ---------------------------------------------------------------------

  datatype CellType = Markdown | Code | Raw

  /** An nbformat cell: only its type and its source text matter here. */
  datatype Cell = Cell(cellType: CellType, source: string)

  /** The per-course texts at the top of the script. */
  datatype Config = Config(
    readmeHeader: string,
    readmeFooter: string,
    indexHeader: string,
    courseInfoHeader: string,
    colabBefore: string,   // the Colab link up to the file name
    colabAfter: string,    // the Colab link after the file name
    nbviewerBaseUrl: string)

  /** Exceptions that end the script. */
  datatype ScriptError =
    | TitleIndexError          // a title cell is just "#": no first line to take
    | TocKeyError(marker: string) // a `##` heading whose first word is not 2 to 5 '#'
    | StopIteration            // no notebook matched, so there is no first one
    | CellIndexError           // a notebook has too few cells to amend

  const COURSE_COMMENT := "<!--COURSE_INFORMATION-->"
  const NAV_COMMENT := "<!--NAVIGATION-->\n"
  const CONTENTS := "| [Contents](index.ipynb) |"

  /** `COURSE_INFO`: the marker, then the course text. */
  function CourseInfo(cfg: Config): (info: string)
    ensures StartsWith(info, COURSE_COMMENT)
  {
    COURSE_COMMENT + cfg.courseInfoHeader
  }

  /** `str.format` of a title that may be `None`. */
  function TitleText(title: Option<string>): string {
    if title.Some? then title.value else "None"
  }

  // ---------------------------------------------------------------------
  // File names: REG.match
  // ---------------------------------------------------------------------

  predicate IsUpper(c: char) {
    'A' <= c <= 'Z'
  }

  predicate NoNewline(s: string) {
    forall k :: 0 <= k < |s| ==> s[k] != '\n'
  }

  /** A chapter group: two digits, or one capital letter. */
  predicate ValidChapter(chapter: string) {
    || (|chapter| == 2 && IsDigit(chapter[0]) && IsDigit(chapter[1]))
    || (|chapter| == 1 && IsUpper(chapter[0]))
  }

  /** A section group: two digits. */
  predicate ValidSection(section: string) {
    |section| == 2 && IsDigit(section[0]) && IsDigit(section[1])
  }

  const EXTENSION := ".ipynb"

  /** `s` holds `.ipynb` at position `k`. */
  predicate ExtensionAt(s: string, k: nat) {
    k + |EXTENSION| <= |s| && s[k..k + |EXTENSION|] == EXTENSION
  }

  /** Where `(.*)\.ipynb` can stop: the first position of `.ipynb` in `s`
      that no newline precedes (`.` does not match a newline). */
  function FindExtension(s: string): (j: Option<nat>)
    ensures j.Some? ==> ExtensionAt(s, j.value) && NoNewline(s[..j.value])
    decreases |s|
  {
    if StartsWith(s, EXTENSION) then Some(0)
    else if s == [] || s[0] == '\n' then None
    else
      var rest := FindExtension(s[1..]);
      if rest.None? then None
      else
        assert s[..rest.value + 1] == [s[0]] + s[1..][..rest.value];
        assert s[rest.value + 1..rest.value + 1 + |EXTENSION|] == s[1..][rest.value..rest.value + |EXTENSION|];
        Some(rest.value + 1)
  }

  /** When the search finds nothing, no `.ipynb` is reachable on the first line. */
  lemma {:induction false} FindExtensionNone(s: string, k: nat)
    requires FindExtension(s).None?
    requires k <= |s| && NoNewline(s[..k])
    ensures !ExtensionAt(s, k)
    decreases k
  {
    if k > 0 {
      assert s[0] == s[..k][0];
      assert !StartsWith(s, EXTENSION) && s != [] && s[0] != '\n';
      assert s[1..][..k - 1] == s[..k][1..];
      FindExtensionNone(s[1..], k - 1);
      assert k + |EXTENSION| <= |s| ==> s[k..k + |EXTENSION|] == s[1..][k - 1..k - 1 + |EXTENSION|];
    }
  }

  /** The `chapter` and `section` groups of a match. */
  datatype NameMatch = NameMatch(chapter: string, section: string)

  /** Width of the chapter group at the front of `f`, 0 when there is none. */
  function ChapterWidth(f: string): nat {
    if |f| >= 2 && IsDigit(f[0]) && IsDigit(f[1]) then 2
    else if |f| >= 1 && IsUpper(f[0]) then 1
    else 0
  }

  /** `REG.match(filename)`, anchored at the start only: the chapter, a dot,
      the section, a dash, then `.ipynb` somewhere on the first line. */
  function MatchName(f: string): (m: Option<NameMatch>)
    ensures m.Some? ==> ValidChapter(m.value.chapter) && ValidSection(m.value.section)
  {
    var c := ChapterWidth(f);
    if c == 0 || |f| < c + 4 || f[c] != '.' || !IsDigit(f[c + 1]) || !IsDigit(f[c + 2]) || f[c + 3] != '-' then None
    else if FindExtension(f[c + 4..]).None? then None
    else Some(NameMatch(f[..c], f[c + 1..c + 3]))
  }

  /** Every name of the pattern matches, with its own chapter and section. */
  lemma MatchNameComplete(chapter: string, section: string, name: string, rest: string)
    requires ValidChapter(chapter) && ValidSection(section) && NoNewline(name)
    ensures MatchName(chapter + "." + section + "-" + name + EXTENSION + rest)
            == Some(NameMatch(chapter, section))
  {
    var f := chapter + "." + section + "-" + name + EXTENSION + rest;
    var c := |chapter|;
    assert f[..c] == chapter;
    assert f[c] == '.' && f[c + 1..c + 3] == section && f[c + 3] == '-';
    assert ChapterWidth(f) == c;
    var tail := f[c + 4..];
    assert tail == name + EXTENSION + rest;
    assert tail[|name|..|name| + |EXTENSION|] == EXTENSION;
    assert tail[..|name|] == name;
    assert ExtensionAt(tail, |name|);
    assert FindExtension(tail).Some? by {
      if FindExtension(tail).None? {
        FindExtensionNone(tail, |name|);
      }
    }
  }

  /** Every name that matches is of the pattern: the chapter, a dot, the
      section, a dash, a first-line name and `.ipynb`, then anything. */
  lemma MatchNameSound(f: string)
    requires MatchName(f).Some?
    ensures var m := MatchName(f).value;
            var c := |m.chapter|;
            var j := FindExtension(f[c + 4..]).value;
            && NoNewline(f[c + 4..][..j])
            && f == m.chapter + "." + m.section + "-" + f[c + 4..][..j] + EXTENSION + f[c + 4 + j + |EXTENSION|..]
  {
    var m := MatchName(f).value;
    var c := |m.chapter|;
    var tail := f[c + 4..];
    var j := FindExtension(tail).value;
    var e := c + 4 + j;
    var x := |EXTENSION|;
    // f is cut, left to right, into the pieces of the pattern
    TakeSplit(f, c, c + 1);
    TakeSplit(f, c + 1, c + 3);
    TakeSplit(f, c + 3, c + 4);
    TakeSplit(f, c + 4, e);
    TakeSplit(f, e, e + x);
    TakeSplit(f, e + x, |f|);
    SliceOne(f, c);
    SliceOne(f, c + 3);
    SliceOfSuffix(f, c + 4, 0, j);
    SliceOfSuffix(f, c + 4, j, j + x);
    SliceOfSuffix(f, c + 4, j + x, j + x);
    assert f[e + x..|f|] == f[e + x..];
    assert f[..|f|] == f;
  }


  // ---------------------------------------------------------------------
  // Titles: read_title
  // ---------------------------------------------------------------------

  predicate NoLineBreak(s: string) {
    forall k :: 0 <= k < |s| ==> !IsLineBreak(s[k])
  }

  /** A cell `read_title` stops at: markdown whose source starts with `#`. */
  predicate IsTitleCell(c: Cell) {
    c.cellType == Markdown && StartsWith(c.source, "#")
  }

  /** The title held by a title cell: the first line after the `#`, stripped.
      A cell that is just `#` has no lines after it, and indexing the empty
      line list fails. */
  function CellTitle(source: string): (r: Result<string, ScriptError>)
    requires StartsWith(source, "#")
    ensures r.Failure? <==> source == "#"
    ensures r.Success? ==> NoLineBreak(r.value)
    ensures r.Success? && |r.value| > 0 ==> !IsSpace(r.value[0]) && !IsSpace(r.value[|r.value| - 1])
  {
    if |source| == 1 then
      assert source == "#";
      Failure(TitleIndexError)
    else
      var line := FirstLine(source[1..]);
      StripInside(line, IsSpace, c => !IsLineBreak(c));
      Success(Strip(line, IsSpace))
  }

  /** A title written `#`, blanks, the title, then a line break or nothing is
      read back as it was written. */
  lemma CellTitleOf(pad: string, title: string, rest: string)
    requires forall k :: 0 <= k < |pad| ==> pad[k] == ' '
    requires |title| > 0 && NoLineBreak(title)
    requires !IsSpace(title[0]) && !IsSpace(title[|title| - 1])
    requires rest == [] || IsLineBreak(rest[0])
    ensures CellTitle("#" + pad + title + rest) == Success(title)
  {
    var source := "#" + pad + title + rest;
    assert source[1..] == (pad + title) + rest;
    forall k | 0 <= k < |pad + title|
      ensures !IsLineBreak((pad + title)[k])
    {
      if k >= |pad| {
        assert (pad + title)[k] == title[k - |pad|];
      }
    }
    FirstLineOf(pad + title, rest);
    TrimStartPad(pad, title, IsSpace);
    StripKeeps(title, IsSpace);
  }

  /** What `read_title` returns for a cell list: the title of the first title
      cell, `None` when there is none, or the failure of that first cell. */
  function Title(cells: seq<Cell>): (r: Result<Option<string>, ScriptError>)
    ensures r.Success? && r.value.Some? ==> NoLineBreak(r.value.value)
  {
    if cells == [] then Success(None)
    else if IsTitleCell(cells[0]) then
      var t := CellTitle(cells[0].source);
      if t.Failure? then Failure(t.error) else Success(Some(t.value))
    else Title(cells[1..])
  }

  /** The first title cell decides the title; the cells after it do not matter. */
  lemma {:induction false} TitleFromFirst(cells: seq<Cell>, i: nat)
    requires i < |cells| && IsTitleCell(cells[i])
    requires forall j :: 0 <= j < i ==> !IsTitleCell(cells[j])
    ensures var t := CellTitle(cells[i].source);
            Title(cells) == if t.Failure? then Failure(t.error) else Success(Some(t.value))
    decreases i
  {
    if i > 0 {
      assert !IsTitleCell(cells[0]);
      TitleFromFirst(cells[1..], i - 1);
    }
  }

  /** Without a title cell, the title is `None`. */
  lemma {:induction false} TitleAbsent(cells: seq<Cell>)
    requires forall j :: 0 <= j < |cells| ==> !IsTitleCell(cells[j])
    ensures Title(cells) == Success(None)
    decreases |cells|
  {
    if cells != [] {
      assert !IsTitleCell(cells[0]);
      TitleAbsent(cells[1..]);
    }
  }

  /** `read_title`: scan the cells, stop at the first title cell. */
  method ReadTitle(cells: seq<Cell>) returns (title: Result<Option<string>, ScriptError>)
    ensures title == Title(cells)
  {
    title := Success(None);
    var i := 0;
    while i < |cells|
      invariant i <= |cells|
      invariant Title(cells) == Title(cells[i..])
      invariant title == Success(None)
    {
      if IsTitleCell(cells[i]) {
        var t := CellTitle(cells[i].source);
        title := if t.Failure? then Failure(t.error) else Success(Some(t.value));
        break;
      }
      assert cells[i..][1..] == cells[i + 1..];
      i := i + 1;
    }
  }

  // ---------------------------------------------------------------------
  // Tables of contents: get_toc
  // ---------------------------------------------------------------------

  /** `FMT`: the indentation of a sub-entry for each heading marker. */
  const FMT: map<string, string> := map[
    "##" := "    ",
    "###" := "        ",
    "####" := "            ",
    "#####" := "                "]

  predicate IsHashes(s: string) {
    forall k :: 0 <= k < |s| ==> s[k] == '#'
  }

  /** The markers `FMT` knows are the runs of two to five `#`, and each
      indents by four blanks per level below the title. */
  lemma FmtKeys(m: string)
    requires StartsWith(m, "##")
    ensures m in FMT <==> |m| <= 5 && IsHashes(m)
    ensures m in FMT ==> |FMT[m]| == 4 * (|m| - 1) && forall k :: 0 <= k < |FMT[m]| ==> FMT[m][k] == ' '
  {
    if |m| <= 5 && IsHashes(m) {
      if |m| == 2 {
        assert m == "##";
      } else if |m| == 3 {
        assert m == "###";
      } else if |m| == 4 {
        assert m == "####";
      } else {
        assert m == "#####";
      }
    }
  }

  /** A cell `get_toc` lists: markdown whose source starts with `##`. */
  predicate IsHeadingCell(c: Cell) {
    c.cellType == Markdown && StartsWith(c.source, "##")
  }

  /** A first line of a text that starts with `##` starts with `##` too. */
  lemma LineOfHeading(source: string)
    requires StartsWith(source, "##")
    ensures |FirstLine(source)| >= 2 && FirstLine(source)[0] == '#' && FirstLine(source)[1] == '#'
  {
    var line := FirstLine(source);
    assert source[0] == '#' && source[1] == '#' by {
      assert source[..2] == "##";
    }
    assert line[..2] == source[..2];
  }

  /** Stripping leaves a leading `##` in place. */
  lemma StripOfHeading(line: string)
    requires |line| >= 2 && line[0] == '#' && line[1] == '#'
    ensures var u := Strip(line, IsSpace); |u| >= 2 && u[0] == '#' && u[1] == '#'
  {
    assert TrimStart(line, IsSpace) == line;
    var u := TrimEnd(line, IsSpace);
    assert u[..2] == line[..2];
  }

  /** The first word of a text that starts with `##` starts with `##`. */
  lemma WordsOfHeading(u: string)
    requires |u| >= 2 && u[0] == '#' && u[1] == '#'
    ensures |Words(u)| > 0 && |Words(u)[0]| >= 2 && Words(u)[0][0] == '#' && Words(u)[0][1] == '#'
  {
    FirstWord(u);
    assert WordLength(u) >= 2 by {
      assert WordLength(u[1..]) >= 1;
    }
  }

  /** The words of a heading's first line, stripped
      (`splitlines()[0].strip().split()`); the first is the marker. */
  function HeadingWords(source: string): (ws: seq<string>)
    requires StartsWith(source, "##")
    ensures |ws| > 0 && StartsWith(ws[0], "##")
  {
    LineOfHeading(source);
    StripOfHeading(FirstLine(source));
    WordsOfHeading(Strip(FirstLine(source), IsSpace));
    var ws := Words(Strip(FirstLine(source), IsSpace));
    assert ws[0][..2] == "##";
    ws
  }

  /** One line of the sub-table of contents for a heading cell. The marker
      must be a key of `FMT`, which holds the runs of two to five `#`. */
  function TocLine(url: string, source: string): (r: Result<string, ScriptError>)
    requires StartsWith(source, "##")
    ensures var m := HeadingWords(source)[0];
            && (r.Success? <==> |m| <= 5 && IsHashes(m))
            && (r.Failure? ==> r.error == TocKeyError(m))
  {
    var header := HeadingWords(source);
    FmtKeys(header[0]);
    if header[0] !in FMT then Failure(TocKeyError(header[0]))
    else
      var txt := Join(header[1..], " ");
      var link := url + "#" + Join(header[1..], "-");  // '#'.join of the two
      Success(FMT[header[0]] + TocItem(txt, link))
  }

  /** The `- [{0}]({1})` part of an `FMT` template. */
  function TocItem(txt: string, link: string): string {
    "- [" + txt + "](" + link + ")"
  }

  /** A line of the sub-table of contents is indented by four blanks per
      heading level below the title, then links the heading's words, joined
      by blanks, to the page URL with the words joined by `-` as anchor. */
  lemma TocLineLayout(url: string, source: string)
    requires StartsWith(source, "##") && TocLine(url, source).Success?
    ensures var ws := HeadingWords(source);
            var line := TocLine(url, source).value;
            var n := 4 * (|ws[0]| - 1);
            && n < |line|
            && (forall k :: 0 <= k < n ==> line[k] == ' ')
            && line[n..] == TocItem(Join(ws[1..], " "), url + "#" + Join(ws[1..], "-"))
  {
    FmtKeys(HeadingWords(source)[0]);
  }

  /** `get_toc`: the line of every heading cell, in cell order; the first
      heading whose marker is unknown fails the whole list. */
  function Toc(url: string, cells: seq<Cell>): Result<seq<string>, ScriptError>
    decreases |cells|
  {
    if cells == [] then Success([])
    else
      var front := Toc(url, cells[..|cells| - 1]);
      var c := cells[|cells| - 1];
      if front.Failure? || !IsHeadingCell(c) then front
      else
        var line := TocLine(url, c.source);
        if line.Failure? then Failure(line.error) else Success(front.value + [line.value])
  }

  /** The heading cells, in order. */
  function Headings(cells: seq<Cell>): (hs: seq<Cell>)
    ensures forall i :: 0 <= i < |hs| ==> IsHeadingCell(hs[i])
    decreases |cells|
  {
    if cells == [] then []
    else
      var front := Headings(cells[..|cells| - 1]);
      if IsHeadingCell(cells[|cells| - 1]) then front + [cells[|cells| - 1]] else front
  }

  /** `Toc` of the cells with one more at the end. */
  lemma TocSnoc(url: string, front: seq<Cell>, c: Cell)
    ensures var f := Toc(url, front);
            Toc(url, front + [c]) ==
              if f.Failure? || !IsHeadingCell(c) then f
              else
                var line := TocLine(url, c.source);
                if line.Failure? then Failure(line.error) else Success(f.value + [line.value])
  {
    assert (front + [c])[..|front|] == front;
  }

  /** A failed contents stays failed, with the same error, whatever cell follows. */
  lemma TocFailedSnoc(url: string, front: seq<Cell>, c: Cell)
    requires Toc(url, front).Failure?
    ensures Toc(url, front + [c]) == Toc(url, front)
  {
    assert (front + [c])[..|front|] == front;
  }

  /** `Headings` of the cells with one more at the end. */
  lemma HeadingsSnoc(front: seq<Cell>, c: Cell)
    ensures Headings(front + [c]) == if IsHeadingCell(c) then Headings(front) + [c] else Headings(front)
  {
    assert (front + [c])[..|front|] == front;
  }

  /** A heading cell whose line `FMT` can format. */
  predicate TocLineOk(url: string, c: Cell) {
    IsHeadingCell(c) && TocLine(url, c.source).Success?
  }

  /** All heading lines can be formatted. */
  predicate AllTocLines(url: string, hs: seq<Cell>) {
    forall i :: 0 <= i < |hs| ==> TocLineOk(url, hs[i])
  }

  /** `AllTocLines` of the headings with one more at the end. */
  lemma AllTocLinesSnoc(url: string, hs: seq<Cell>, c: Cell)
    ensures AllTocLines(url, hs + [c]) <==> AllTocLines(url, hs) && TocLineOk(url, c)
  {
    assert forall i :: 0 <= i < |hs| ==> (hs + [c])[i] == hs[i];
    assert (hs + [c])[|hs|] == c;
  }

  /** The table of contents fails exactly when one heading cell has a marker
      `FMT` does not know. */
  lemma {:induction false} TocSucceeds(url: string, cells: seq<Cell>)
    ensures Toc(url, cells).Success? <==> AllTocLines(url, Headings(cells))
    decreases |cells|
  {
    if cells != [] {
      var front := cells[..|cells| - 1];
      var c := cells[|cells| - 1];
      DropLast(cells);
      TocSucceeds(url, front);
      TocSnoc(url, front, c);
      HeadingsSnoc(front, c);
      if IsHeadingCell(c) {
        AllTocLinesSnoc(url, Headings(front), c);
      }
    }
  }

  /** The headings `hs` and the lines `toc` correspond one to one. */
  predicate LinesOf(url: string, hs: seq<Cell>, toc: seq<string>) {
    && |toc| == |hs|
    && forall i :: 0 <= i < |hs| ==>
         IsHeadingCell(hs[i]) && TocLine(url, hs[i].source).Success? && toc[i] == TocLine(url, hs[i].source).value
  }

  /** Adding a heading and its line keeps the correspondence. */
  lemma LinesOfSnoc(url: string, hs: seq<Cell>, toc: seq<string>, c: Cell)
    requires LinesOf(url, hs, toc)
    requires IsHeadingCell(c) && TocLine(url, c.source).Success?
    ensures LinesOf(url, hs + [c], toc + [TocLine(url, c.source).value])
  {
    var hs' := hs + [c];
    var toc' := toc + [TocLine(url, c.source).value];
    forall i | 0 <= i < |hs'|
      ensures IsHeadingCell(hs'[i]) && TocLine(url, hs'[i].source).Success? && toc'[i] == TocLine(url, hs'[i].source).value
    {
      if i < |hs| {
        assert hs'[i] == hs[i] && toc'[i] == toc[i];
      }
    }
  }

  /** The table of contents holds exactly one line per heading cell, in the
      order of the cells. */
  lemma {:induction false} TocInOrder(url: string, cells: seq<Cell>)
    requires Toc(url, cells).Success?
    ensures LinesOf(url, Headings(cells), Toc(url, cells).value)
    decreases |cells|
  {
    if cells != [] {
      var front := cells[..|cells| - 1];
      var c := cells[|cells| - 1];
      DropLast(cells);
      TocSnoc(url, front, c);
      HeadingsSnoc(front, c);
      TocInOrder(url, front);
      if IsHeadingCell(c) {
        LinesOfSnoc(url, Headings(front), Toc(url, front).value, c);
      }
    }
  }

  /** Once the front of the cells fails, any cells after it leave the
      failure as it is. */
  lemma {:induction false} TocFailedAppend(url: string, front: seq<Cell>, rest: seq<Cell>)
    requires Toc(url, front).Failure?
    ensures Toc(url, front + rest) == Toc(url, front)
    decreases |rest|
  {
    if rest == [] {
      assert front + rest == front;
    } else {
      var init := rest[..|rest| - 1];
      var last := rest[|rest| - 1];
      TocFailedAppend(url, front, init);
      AppendSnoc(front, rest);
      TocFailedSnoc(url, front + init, last);
    }
  }

  /** Once a prefix of the cells fails, the whole list fails the same way. */
  lemma TocFailureStays(url: string, cells: seq<Cell>, i: nat)
    requires i <= |cells| && Toc(url, cells[..i]).Failure?
    ensures Toc(url, cells) == Toc(url, cells[..i])
  {
    TocFailedAppend(url, cells[..i], cells[i..]);
    TakeDrop(cells, i);
  }

  /** One step of the loop over the cells: a cell that is not a heading
      adds nothing, a heading adds its line, and a heading without a line
      fails the whole contents. */
  lemma TocStep(url: string, cells: seq<Cell>, i: nat, lines: seq<string>)
    requires i < |cells| && Toc(url, cells[..i]) == Success(lines)
    ensures !IsHeadingCell(cells[i]) ==> Toc(url, cells[..i + 1]) == Success(lines)
    ensures IsHeadingCell(cells[i]) ==>
              var line := TocLine(url, cells[i].source);
              && (line.Success? ==> Toc(url, cells[..i + 1]) == Success(lines + [line.value]))
              && (line.Failure? ==> Toc(url, cells) == Failure(line.error))
  {
    TakeSnoc(cells, i + 1);
    TocSnoc(url, cells[..i], cells[i]);
    if IsHeadingCell(cells[i]) && TocLine(url, cells[i].source).Failure? {
      TocFailureStays(url, cells, i + 1);
    }
  }

  /** A loop that went through every cell holds the whole contents. */
  lemma TocDone(url: string, cells: seq<Cell>, lines: seq<string>)
    requires Toc(url, cells[..|cells|]) == Success(lines)
    ensures Toc(url, cells) == Success(lines)
  {
    TakeAll(cells);
  }

  /** `get_toc`: append the line of each heading cell in turn. */
  method GetToc(url: string, cells: seq<Cell>) returns (toc: Result<seq<string>, ScriptError>)
    ensures toc == Toc(url, cells)
  {
    var lines: seq<string> := [];
    for i := 0 to |cells|
      invariant Toc(url, cells[..i]) == Success(lines)
    {
      TocStep(url, cells, i, lines);
      if IsHeadingCell(cells[i]) {
        var line := TocLine(url, cells[i].source);
        if line.Failure? {
          return Failure(line.error);
        }
        lines := lines + [line.value];
      }
    }
    TocDone(url, cells, lines);
    toc := Success(lines);
  }

  // ---------------------------------------------------------------------
  // README entries: get_toc_entry
  // ---------------------------------------------------------------------

  /** `self.section in '00'`: a substring test on the section. */
  predicate SectionInZeros(section: string) {
    IsInfix(section, "00")
  }

  /** For the two-digit sections the file-name pattern admits, the substring
      test is the same as being `00`. */
  lemma SectionInZerosIsZero(section: string)
    requires ValidSection(section)
    ensures SectionInZeros(section) <==> section == "00"
  {
    if section == "00" {
      assert StartsWith("00", section);
    } else {
      assert !StartsWith("00", section);
      assert !StartsWith("0", section) && !StartsWith("", section);
    }
  }

  /** The README entry of a notebook. A numeric chapter is printed as an
      integer, chapter 0 gets no label, a letter chapter is an appendix; the
      section, printed as an integer, only shows in items. */
  function TocEntry(chapter: string, section: string, title: Option<string>, url: string): string
    requires ValidChapter(chapter) && ValidSection(section)
  {
    EntryLabel(chapter, section) + EntryLink(title, url)
  }

  /** The `{2}]({3})` end of every entry template. */
  function EntryLink(title: Option<string>, url: string): string {
    TitleText(title) + "](" + url + ")"
  }

  /** An entry is a heading exactly when the section is `00`, an item
      otherwise, and it ends with the title linked to the page. */
  lemma TocEntryShape(chapter: string, section: string, title: Option<string>, url: string)
    requires ValidChapter(chapter) && ValidSection(section)
    ensures var r := TocEntry(chapter, section, title, url);
            && (StartsWith(r, "\n### [") <==> section == "00")
            && (section != "00" ==> StartsWith(r, "- ["))
            && EndsWith(r, TitleText(title) + "](" + url + ")")
  {
    SectionInZerosIsZero(section);
    EntryLabelStarts(chapter, section);
    var head := EntryLabel(chapter, section);
    var tail := EntryLink(title, url);
    EndsWithAppend(head, tail);
    if section == "00" {
      StartsWithAppend(head, tail, "\n### [");
    } else {
      StartsWithAppend(head, tail, "- [");
      assert (head + tail)[0] == '-';
      DiffersAt(head + tail, "\n### [", 0);
    }
  }

  /** A heading label starts with `\n### [`, an item label with `- [`. */
  lemma EntryLabelStarts(chapter: string, section: string)
    requires ValidChapter(chapter) && ValidSection(section)
    ensures SectionInZeros(section) ==> StartsWith(EntryLabel(chapter, section), "\n### [")
    ensures !SectionInZeros(section) ==> StartsWith(EntryLabel(chapter, section), "- [")
  {
  }

  /** The template chosen by `get_toc_entry`, filled in up to the title. */
  function EntryLabel(chapter: string, section: string): string
    requires ValidChapter(chapter) && ValidSection(section)
  {
    var heading := SectionInZeros(section);
    var number := NatToString(DigitsValue(section));
    if AllDigits(chapter) then
      var n := DigitsValue(chapter);
      if n == 0 then
        if heading then "\n### [" else "- ["
      else if heading then "\n### [Chapter " + NatToString(n) + ". "
      else "- [" + NatToString(n) + "." + number + " "
    else if heading then "\n### [Appendix " + chapter + ". "
    else "- [" + chapter + "." + number + " "
  }

  /** A two-digit number as `'%d'` prints it: without a leading zero. */
  function Unpadded(d: string): string
    requires |d| > 0
  {
    if d[0] == '0' then d[1..] else d
  }

  /** The digit a digit character stands for is written with that character. */
  lemma DigitRoundTrip(c: char)
    requires IsDigit(c)
    ensures DigitChar(DigitValue(c)) == c
  {
    var d := DigitValue(c);
    assert c as int == '0' as int + d;
  }

  /** Two digits with a leading zero print as the second digit alone. */
  lemma LeadingZeroPrinted(d: string)
    requires |d| == 2 && d[0] == '0' && IsDigit(d[1])
    ensures NatToString(DigitsValue(d)) == [d[1]]
  {
    var lo := DigitValue(d[1]);
    DigitsValueTwo(d);
    DigitRoundTrip(d[1]);
    assert DigitsValue(d) == lo;
  }

  /** Two digits without a leading zero print as themselves. */
  lemma TensPrinted(d: string)
    requires |d| == 2 && IsDigit(d[0]) && d[0] != '0' && IsDigit(d[1])
    ensures NatToString(DigitsValue(d)) == d
  {
    var hi := DigitValue(d[0]);
    var lo := DigitValue(d[1]);
    DigitsValueTwo(d);
    DigitRoundTrip(d[0]);
    DigitRoundTrip(d[1]);
    NatToStringTwo(hi, lo);
    assert d == [d[0], d[1]];
  }

  /** Printing the integer value of two digits drops a leading zero and
      nothing else. */
  lemma TwoDigitsPrinted(d: string)
    requires |d| == 2 && IsDigit(d[0]) && IsDigit(d[1])
    ensures NatToString(DigitsValue(d)) == Unpadded(d)
  {
    if d[0] == '0' {
      LeadingZeroPrinted(d);
      assert d[1..] == [d[1]];
    } else {
      TensPrinted(d);
    }
  }



  /** The labels of the README entries: a section `00` opens a chapter
      heading (none for chapter `00`, `Appendix X.` for a letter, `Chapter n.`
      otherwise); any other section is an item numbered chapter.section, the
      two printed without leading zeros, except in chapter `00`. */
  lemma EntryLabels(chapter: string, section: string)
    requires ValidChapter(chapter) && ValidSection(section)
    ensures section == "00" ==>
              EntryLabel(chapter, section) ==
                if chapter == "00" then "\n### ["
                else if IsUpper(chapter[0]) then "\n### [Appendix " + chapter + ". "
                else "\n### [Chapter " + Unpadded(chapter) + ". "
    ensures section != "00" ==>
              EntryLabel(chapter, section) ==
                if chapter == "00" then "- ["
                else "- [" + Unpadded(chapter) + "." + Unpadded(section) + " "
  {
    SectionInZerosIsZero(section);
    if section != "00" {
      TwoDigitsPrinted(section);
    }
    if AllDigits(chapter) {
      assert |chapter| == 2;
      if chapter != "00" {
        TwoDigitsPrinted(chapter);
        assert DigitsValue(chapter) != 0;
      } else {
        assert DigitsValue(chapter) == 0;
      }
    } else {
      assert IsUpper(chapter[0]) && chapter[0] != '0';
    }
  }

  // ---------------------------------------------------------------------
  // Notebooks as loaded: notebook.__init__
  // ---------------------------------------------------------------------

  /** A directory entry: a file name and, for a notebook, its cells. */
  datatype Entry = Entry(name: string, cells: seq<Cell>)

  /** `os.path.join(base, name)`: a relative name is put after the base,
      with one `/` between them; an absolute name replaces the base. */
  function UrlJoin(base: string, name: string): (url: string)
    ensures EndsWith(url, name)
    ensures !StartsWith(name, "/") && base != [] ==> StartsWith(url, base)
    ensures !StartsWith(name, "/") && base != [] ==>
              |url| == |base| + |name| + (if EndsWith(base, "/") then 0 else 1) &&
              EndsWith(url[..|url| - |name|], "/")
    ensures StartsWith(name, "/") ==> url == name
  {
    if StartsWith(name, "/") || base == [] then name
    else if EndsWith(base, "/") then
      assert (base + name)[..|base|] == base;
      base + name
    else
      assert (base + "/" + name)[..|base| + 1] == base + "/";
      assert (base + "/" + name)[..|base|] == base;
      base + "/" + name
  }

  /** What `notebook.__init__` computes for a notebook, before its navigation
      bar is set. */
  datatype Page = Page(
    filename: string,
    chapter: string,
    section: string,
    url: string,
    colabLink: string,
    cells: seq<Cell>,
    title: Option<string>,
    tocEntry: string,
    toc: seq<string>)

  /** A page as loading leaves it: its groups come from its file name and its
      entry and table of contents from its title and cells. */
  predicate PageOk(p: Page) {
    && MatchName(p.filename) == Some(NameMatch(p.chapter, p.section))
    && Title(p.cells) == Success(p.title)
    && p.tocEntry == TocEntry(p.chapter, p.section, p.title, p.url)
    && Toc(p.url, p.cells) == Success(p.toc)
  }

  /** A matching entry with the groups of its match. */
  datatype Matched = Matched(entry: Entry, groups: NameMatch)

  predicate GroupsOk(g: NameMatch) {
    ValidChapter(g.chapter) && ValidSection(g.section)
  }

  /** `notebook(filename)`: fails with the title's failure, then with the
      table of contents' failure. */
  function LoadPage(cfg: Config, m: Matched): (r: Result<Page, ScriptError>)
    requires GroupsOk(m.groups)
    ensures r.Success? ==> r.value.filename == m.entry.name && r.value.cells == m.entry.cells
  {
    var e := m.entry;
    var url := UrlJoin(cfg.nbviewerBaseUrl, e.name);
    var title := Title(e.cells);
    if title.Failure? then Failure(title.error)
    else
      var toc := Toc(url, e.cells);
      if toc.Failure? then Failure(toc.error)
      else
        Success(Page(e.name, m.groups.chapter, m.groups.section, url, cfg.colabBefore + e.name + cfg.colabAfter,
                     e.cells, title.value, TocEntry(m.groups.chapter, m.groups.section, title.value, url), toc.value))
  }

  /** A notebook loads exactly when its title and its table of contents can
      be read, the title being read first; the page it gives is well formed. */
  lemma LoadPageOk(cfg: Config, m: Matched)
    requires MatchName(m.entry.name) == Some(m.groups)
    ensures var r := LoadPage(cfg, m);
            var toc := Toc(UrlJoin(cfg.nbviewerBaseUrl, m.entry.name), m.entry.cells);
            && (r.Success? <==> Title(m.entry.cells).Success? && toc.Success?)
            && (r.Failure? ==> r.error == if Title(m.entry.cells).Failure? then Title(m.entry.cells).error else toc.error)
            && (r.Success? ==> PageOk(r.value))
  {
  }

  /** `notebook.__init__`, which reads the title and the table of contents
      of the cells. */
  method LoadNotebook(cfg: Config, m: Matched) returns (r: Result<Page, ScriptError>)
    requires GroupsOk(m.groups)
    ensures r == LoadPage(cfg, m)
  {
    var e := m.entry;
    var url := UrlJoin(cfg.nbviewerBaseUrl, e.name);
    var colab := cfg.colabBefore + e.name + cfg.colabAfter;
    var title := ReadTitle(e.cells);
    if title.Failure? {
      return Failure(title.error);
    }
    var entry := TocEntry(m.groups.chapter, m.groups.section, title.value, url);
    var toc := GetToc(url, e.cells);
    if toc.Failure? {
      return Failure(toc.error);
    }
    r := Success(Page(e.name, m.groups.chapter, m.groups.section, url, colab, e.cells, title.value, entry, toc.value));
  }

  /** Every match carries valid groups. */
  predicate AllGroupsOk(ms: seq<Matched>) {
    forall i :: 0 <= i < |ms| ==> GroupsOk(ms[i].groups)
  }

  /** The entries whose names match the pattern, in listing order, each with
      the groups of its match. */
  function Matching(listing: seq<Entry>): (ms: seq<Matched>)
    ensures forall i :: 0 <= i < |ms| ==> MatchName(ms[i].entry.name) == Some(ms[i].groups)
    ensures forall i :: 0 <= i < |ms| ==> ms[i].entry in listing
    ensures forall e :: e in listing && MatchName(e.name).Some? ==> Matched(e, MatchName(e.name).value) in ms
    ensures AllGroupsOk(ms)
    decreases |listing|
  {
    if listing == [] then []
    else
      var front := Matching(listing[..|listing| - 1]);
      var e := listing[|listing| - 1];
      assert listing == listing[..|listing| - 1] + [e];
      var m := MatchName(e.name);
      if m.Some? then front + [Matched(e, m.value)] else front
  }

  /** The values of a list of outcomes, or the first failure among them. */
  function Collect<T>(rs: seq<Result<T, ScriptError>>): (r: Result<seq<T>, ScriptError>)
    ensures r.Success? ==> |r.value| == |rs|
    decreases |rs|
  {
    if rs == [] then Success([])
    else
      var front := Collect(rs[..|rs| - 1]);
      var last := rs[|rs| - 1];
      if front.Failure? then front
      else if last.Failure? then Failure(last.error)
      else Success(front.value + [last.value])
  }

  /** `Collect` of the outcomes with one more at the end. */
  lemma CollectSnoc<T>(rs: seq<Result<T, ScriptError>>, r: Result<T, ScriptError>)
    ensures var f := Collect(rs);
            Collect(rs + [r]) ==
              if f.Failure? then f
              else if r.Failure? then Failure(r.error)
              else Success(f.value + [r.value])
  {
    assert (rs + [r])[..|rs|] == rs;
  }

  /** `Collect` succeeds exactly when every outcome does, and then holds
      their values in order. */
  lemma {:induction false} CollectValues<T>(rs: seq<Result<T, ScriptError>>)
    ensures Collect(rs).Success? <==> forall i :: 0 <= i < |rs| ==> rs[i].Success?
    ensures Collect(rs).Success? ==>
              |Collect(rs).value| == |rs| &&
              forall i :: 0 <= i < |rs| ==> Collect(rs).value[i] == rs[i].value
    decreases |rs|
  {
    if rs != [] {
      var front := rs[..|rs| - 1];
      assert rs == front + [rs[|rs| - 1]];
      CollectValues(front);
      CollectSnoc(front, rs[|rs| - 1]);
    }
  }

  /** The first failure decides: once a prefix of the outcomes fails, the
      whole list fails the same way. */
  lemma {:induction false} CollectFailureStays<T>(rs: seq<Result<T, ScriptError>>, i: nat)
    requires i <= |rs| && Collect(rs[..i]).Failure?
    ensures Collect(rs) == Collect(rs[..i])
    decreases |rs| - i
  {
    if i < |rs| {
      assert rs[..i + 1] == rs[..i] + [rs[i]];
      CollectSnoc(rs[..i], rs[i]);
      CollectFailureStays(rs, i + 1);
    } else {
      assert rs[..i] == rs;
    }
  }

  /** One step of a loop that collects the outcomes in order: a success
      extends the values, a failure is the outcome of the whole list. */
  lemma CollectStep<T>(rs: seq<Result<T, ScriptError>>, i: nat, done: seq<T>)
    requires i < |rs| && Collect(rs[..i]) == Success(done)
    ensures rs[i].Success? ==> Collect(rs[..i + 1]) == Success(done + [rs[i].value])
    ensures rs[i].Failure? ==> Collect(rs) == Failure(rs[i].error)
  {
    assert rs[..i + 1] == rs[..i] + [rs[i]];
    CollectSnoc(rs[..i], rs[i]);
    if rs[i].Failure? {
      CollectFailureStays(rs, i + 1);
    }
  }

  /** The first failure in the list is the outcome of the whole list. */
  lemma CollectFirstFailure<T>(rs: seq<Result<T, ScriptError>>, i: nat)
    requires i < |rs| && rs[i].Failure?
    requires forall j :: 0 <= j < i ==> rs[j].Success?
    ensures Collect(rs) == Failure(rs[i].error)
  {
    CollectValues(rs[..i]);
    CollectStep(rs, i, Collect(rs[..i]).value);
  }

  /** A loop that collected every outcome holds the outcome of the list. */
  lemma CollectDone<T>(rs: seq<Result<T, ScriptError>>, done: seq<T>)
    requires Collect(rs[..|rs|]) == Success(done)
    ensures Collect(rs) == Success(done)
  {
    assert rs[..|rs|] == rs;
  }

  /** The outcome of loading each matching entry. */
  function Loads(cfg: Config, ms: seq<Matched>): (rs: seq<Result<Page, ScriptError>>)
    requires AllGroupsOk(ms)
    ensures |rs| == |ms|
  {
    seq(|ms|, i requires 0 <= i < |ms| => LoadPage(cfg, ms[i]))
  }

  /** Every matching entry, loaded; the first one that fails, in listing
      order, fails the list. */
  function LoadAll(cfg: Config, ms: seq<Matched>): Result<seq<Page>, ScriptError>
    requires AllGroupsOk(ms)
  {
    Collect(Loads(cfg, ms))
  }

  /** Loading succeeds exactly when every entry loads, and then holds one
      page per entry, in order, each loaded from that entry. */
  lemma LoadAllPages(cfg: Config, ms: seq<Matched>)
    requires AllGroupsOk(ms)
    ensures LoadAll(cfg, ms).Success? <==> forall i :: 0 <= i < |ms| ==> LoadPage(cfg, ms[i]).Success?
    ensures LoadAll(cfg, ms).Success? ==>
              var ps := LoadAll(cfg, ms).value;
              && |ps| == |ms|
              && forall i :: 0 <= i < |ms| ==> ps[i] == LoadPage(cfg, ms[i]).value
  {
    var rs := Loads(cfg, ms);
    CollectValues(rs);
    assert forall i :: 0 <= i < |ms| ==> rs[i] == LoadPage(cfg, ms[i]);
  }

  /** `[notebook(filename) for filename in ... if REG.match(filename)]`. */
  method LoadNotebooks(cfg: Config, ms: seq<Matched>) returns (r: Result<seq<Page>, ScriptError>)
    requires AllGroupsOk(ms)
    ensures r == LoadAll(cfg, ms)
  {
    ghost var rs := Loads(cfg, ms);
    var pages: seq<Page> := [];
    for i := 0 to |ms|
      invariant Collect(rs[..i]) == Success(pages)
    {
      var p := LoadNotebook(cfg, ms[i]);
      assert p == rs[i];
      CollectStep(rs, i, pages);
      if p.Failure? {
        return Failure(p.error);
      }
      pages := pages + [p.value];
    }
    CollectDone(rs, pages);
    r := Success(pages);
  }

  // ---------------------------------------------------------------------
  // Amending cells: write_course_info and write_navbar
  // ---------------------------------------------------------------------

  /** The cells after `write_course_info`: a first cell that carries the
      course marker gets the course text as its source (keeping its type);
      otherwise a markdown cell with the text is put in front. A notebook
      without cells has no first cell to look at. */
  function WithCourseInfo(cells: seq<Cell>, info: string): Result<seq<Cell>, ScriptError> {
    if cells == [] then Failure(CellIndexError)
    else if StartsWith(cells[0].source, COURSE_COMMENT) then Success(cells[0 := cells[0].(source := info)])
    else Success([Cell(Markdown, info)] + cells)
  }

  /** Only a notebook without cells fails; otherwise the first cell holds the
      course text, and the other cells are kept in order behind it, the old
      first cell among them unless it carried the marker. */
  lemma CourseInfoWritten(cells: seq<Cell>, info: string)
    ensures var r := WithCourseInfo(cells, info);
            && (r.Failure? <==> cells == [])
            && (r.Failure? ==> r.error == CellIndexError)
            && (r.Success? ==> |r.value| > 0 && r.value[0].source == info)
            && (r.Success? ==>
                  if StartsWith(cells[0].source, COURSE_COMMENT)
                  then |r.value| == |cells| && r.value[0].cellType == cells[0].cellType && r.value[1..] == cells[1..]
                  else |r.value| == |cells| + 1 && r.value[0].cellType == Markdown && r.value[1..] == cells)
  {
    if cells != [] && !StartsWith(cells[0].source, COURSE_COMMENT) {
      assert ([Cell(Markdown, info)] + cells)[1..] == cells;
    }
  }

  /** A course text that carries the marker is put in once: amending again
      changes nothing. */
  lemma CourseInfoIdempotent(cells: seq<Cell>, info: string)
    requires StartsWith(info, COURSE_COMMENT)
    requires WithCourseInfo(cells, info).Success?
    ensures WithCourseInfo(WithCourseInfo(cells, info).value, info) == WithCourseInfo(cells, info)
  {
    var once := WithCourseInfo(cells, info).value;
    assert once[0 := once[0].(source := info)] == once;
  }

  /** The cells after the first half of `write_navbar`: the second cell is
      amended when it carries the navigation marker, or a navigation cell is
      inserted before it. */
  function NavbarAtSecond(cells: seq<Cell>, nav: string): seq<Cell>
    requires |cells| >= 2
  {
    if StartsWith(cells[1].source, NAV_COMMENT) then cells[1 := cells[1].(source := nav)]
    else cells[..1] + [Cell(Markdown, nav)] + cells[1..]
  }

  /** The first cell stays, the second holds the bar, and the cells behind
      it are kept in order, the old second one among them unless it carried
      the marker. */
  lemma SecondCellIsNavbar(cells: seq<Cell>, nav: string)
    requires |cells| >= 2
    ensures var r := NavbarAtSecond(cells, nav);
            && |r| >= 2 && r[0] == cells[0] && r[1].source == nav
            && (StartsWith(cells[1].source, NAV_COMMENT) ==>
                  |r| == |cells| && r[1].cellType == cells[1].cellType && r[2..] == cells[2..])
            && (!StartsWith(cells[1].source, NAV_COMMENT) ==>
                  |r| == |cells| + 1 && r[1].cellType == Markdown && r[2..] == cells[1..])
  {
    if !StartsWith(cells[1].source, NAV_COMMENT) {
      assert (cells[..1] + [Cell(Markdown, nav)] + cells[1..])[2..] == cells[1..];
    }
  }

  /** The cells after the second half of `write_navbar`: the last cell is
      amended when it carries the navigation marker, or a navigation cell is
      appended. */
  function NavbarAtLast(cells: seq<Cell>, nav: string): seq<Cell>
    requires |cells| >= 1
  {
    var last := |cells| - 1;
    if StartsWith(cells[last].source, NAV_COMMENT) then cells[last := cells[last].(source := nav)]
    else cells + [Cell(Markdown, nav)]
  }

  /** The last cell holds the bar, and the cells before it are kept in
      order, the old last one among them unless it carried the marker. */
  lemma LastCellIsNavbar(cells: seq<Cell>, nav: string)
    requires |cells| >= 1
    ensures var r := NavbarAtLast(cells, nav);
            && |r| >= 1 && r[|r| - 1].source == nav
            && (StartsWith(cells[|cells| - 1].source, NAV_COMMENT) ==>
                  && |r| == |cells| && r[..|r| - 1] == cells[..|cells| - 1]
                  && r[|r| - 1].cellType == cells[|cells| - 1].cellType)
            && (!StartsWith(cells[|cells| - 1].source, NAV_COMMENT) ==>
                  |r| == |cells| + 1 && r[..|cells|] == cells && r[|cells|].cellType == Markdown)
  {
  }

  /** The cells after `write_navbar`; fewer than two cells have no second
      cell to look at. */
  function WithNavbar(cells: seq<Cell>, nav: string): Result<seq<Cell>, ScriptError> {
    if |cells| < 2 then Failure(CellIndexError)
    else
      SecondCellIsNavbar(cells, nav);
      Success(NavbarAtLast(NavbarAtSecond(cells, nav), nav))
  }

  /** Fewer than two cells fail; otherwise the first cell stays and the bar
      is both the second and the last cell. */
  lemma NavbarWritten(cells: seq<Cell>, nav: string)
    ensures var r := WithNavbar(cells, nav);
            && (r.Failure? <==> |cells| < 2)
            && (r.Failure? ==> r.error == CellIndexError)
            && (r.Success? ==>
                  && |r.value| >= 2
                  && r.value[0] == cells[0]
                  && r.value[1].source == nav
                  && r.value[|r.value| - 1].source == nav)
  {
    if |cells| >= 2 {
      var mid := NavbarAtSecond(cells, nav);
      SecondCellIsNavbar(cells, nav);
      LastCellIsNavbar(mid, nav);
      if !StartsWith(mid[|mid| - 1].source, NAV_COMMENT) {
        assert NavbarAtLast(mid, nav)[..|mid|] == mid;
      }
    }
  }

  /** A navigation bar that carries the marker is put in once: amending again
      changes nothing. */
  lemma NavbarIdempotent(cells: seq<Cell>, nav: string)
    requires StartsWith(nav, NAV_COMMENT)
    requires WithNavbar(cells, nav).Success?
    ensures WithNavbar(WithNavbar(cells, nav).value, nav) == WithNavbar(cells, nav)
  {
    var once := WithNavbar(cells, nav).value;
    var mid := NavbarAtSecond(once, nav);
    assert mid == once by {
      assert once[1 := once[1].(source := nav)] == once;
    }
    var last := |once| - 1;
    assert once[last := once[last].(source := nav)] == once;
  }

  /** A notebook being rewritten: the page it was loaded as, its cells and
      its navigation bar (`None` until `set_navbars` sets it). */
  class Notebook {
    const page: Page
    var cells: seq<Cell>
    var navbar: Option<string>

    constructor (page: Page)
      ensures this.page == page && cells == page.cells && navbar == None
    {
      this.page := page;
      cells := page.cells;
      navbar := None;
    }

    /** `write_course_info`. */
    method WriteCourseInfo(info: string) returns (error: Option<ScriptError>)
      modifies this
      ensures navbar == old(navbar)
      ensures var r := WithCourseInfo(old(cells), info);
              && (r.Failure? ==> error == Some(r.error) && cells == old(cells))
              && (r.Success? ==> error == None && cells == r.value)
    {
      if |cells| == 0 {
        return Some(CellIndexError);
      }
      if StartsWith(cells[0].source, COURSE_COMMENT) {
        cells := cells[0 := cells[0].(source := info)];
      } else {
        cells := [Cell(Markdown, info)] + cells;
      }
      return None;
    }

    /** `write_navbar`, once `set_navbars` has set the bar. */
    method WriteNavbar() returns (error: Option<ScriptError>)
      requires navbar.Some?
      modifies this
      ensures navbar == old(navbar)
      ensures var r := WithNavbar(old(cells), navbar.value);
              && (r.Failure? ==> error == Some(r.error) && cells == old(cells))
              && (r.Success? ==> error == None && cells == r.value)
    {
      if |cells| < 2 {
        return Some(CellIndexError);
      }
      var nav := navbar.value;
      if StartsWith(cells[1].source, NAV_COMMENT) {
        cells := cells[1 := cells[1].(source := nav)];
      } else {
        cells := cells[..1] + [Cell(Markdown, nav)] + cells[1..];
      }
      var last := |cells| - 1;
      if StartsWith(cells[last].source, NAV_COMMENT) {
        cells := cells[last := cells[last].(source := nav)];
      } else {
        cells := cells + [Cell(Markdown, nav)];
      }
      return None;
    }
  }

  // ---------------------------------------------------------------------
  // Navigation bars: set_navbars
  // ---------------------------------------------------------------------

  /** `PREV_TEMPLATE` filled in with a page. */
  function PrevLink(p: Page): string {
    "< [" + TitleText(p.title) + "](" + p.url + ") "
  }

  /** `NEXT_TEMPLATE` filled in with a page. */
  function NextLink(p: Page): string {
    " [" + TitleText(p.title) + "](" + p.url + ") >"
  }

  /** The navigation bar `set_navbars` builds for the `i`-th of the pages:
      the marker, a link back unless it is the first, the contents link, a
      link forward unless it is the last, then its Colab link. */
  function NavbarAt(pages: seq<Page>, i: nat): string
    requires i < |pages|
  {
    NAV_COMMENT
    + (if i > 0 then PrevLink(pages[i - 1]) else "")
    + CONTENTS
    + (if i + 1 < |pages| then NextLink(pages[i + 1]) else "")
    + pages[i].colabLink
  }

  /** Every bar starts with the marker, followed by the link back to the
      previous page when there is one. */
  lemma NavbarPrev(pages: seq<Page>, i: nat)
    requires i < |pages|
    ensures var nav := NavbarAt(pages, i);
            && StartsWith(nav, NAV_COMMENT)
            && (i > 0 ==> StartsWith(nav, NAV_COMMENT + PrevLink(pages[i - 1])))
  {
    var prev := if i > 0 then PrevLink(pages[i - 1]) else "";
    var next := if i + 1 < |pages| then NextLink(pages[i + 1]) else "";
    var nav := NavbarAt(pages, i);
    var ap := NAV_COMMENT + prev;
    StartsWithTrans(nav, ap + CONTENTS + next, ap + CONTENTS);
    StartsWithTrans(nav, ap + CONTENTS, ap);
    StartsWithTrans(nav, ap, NAV_COMMENT);
  }

  /** The contents link follows the marker directly exactly on the first
      page's bar, the only one without a link back. */
  lemma NavbarFirst(pages: seq<Page>, i: nat)
    requires i < |pages|
    ensures StartsWith(NavbarAt(pages, i), NAV_COMMENT + CONTENTS) <==> i == 0
  {
    var prev := if i > 0 then PrevLink(pages[i - 1]) else "";
    var next := if i + 1 < |pages| then NextLink(pages[i + 1]) else "";
    var nav := NavbarAt(pages, i);
    var ap := NAV_COMMENT + prev;
    StartsWithTrans(nav, ap + CONTENTS + next, ap + CONTENTS);
    if i > 0 {
      StartsWithTrans(nav, ap + CONTENTS, ap);
      assert prev[0] == '<';
      PrefixesDiffer(nav, NAV_COMMENT, prev, CONTENTS);
    } else {
      assert ap == NAV_COMMENT;
    }
  }

  /** Every bar ends with its page's Colab link, after the link forward to
      the next page when there is one. */
  lemma NavbarNext(pages: seq<Page>, i: nat)
    requires i < |pages|
    ensures var nav := NavbarAt(pages, i);
            var colab := pages[i].colabLink;
            && EndsWith(nav, colab)
            && (i + 1 < |pages| ==> EndsWith(nav, NextLink(pages[i + 1]) + colab))
  {
    var prev := if i > 0 then PrevLink(pages[i - 1]) else "";
    var next := if i + 1 < |pages| then NextLink(pages[i + 1]) else "";
    EndsWithLastTwo(NAV_COMMENT + prev + CONTENTS, next, pages[i].colabLink);
  }

  /** The contents link comes directly before the Colab link exactly on the
      last page's bar, the only one without a link forward. */
  lemma NavbarLast(pages: seq<Page>, i: nat)
    requires i < |pages|
    ensures EndsWith(NavbarAt(pages, i), CONTENTS + pages[i].colabLink) <==> i + 1 == |pages|
  {
    var prev := if i > 0 then PrevLink(pages[i - 1]) else "";
    var colab := pages[i].colabLink;
    var nav := NavbarAt(pages, i);
    if i + 1 < |pages| {
      var next := NextLink(pages[i + 1]);
      EndsWithLastTwo(NAV_COMMENT + prev + CONTENTS, next, colab);
      assert next[|next| - 1] == '>';
      SuffixesDiffer(nav, CONTENTS, next, colab);
    } else {
      assert nav == NAV_COMMENT + prev + CONTENTS + colab;
      EndsWithLastTwo(NAV_COMMENT + prev, CONTENTS, colab);
    }
  }

  /** The pages of the notebooks. */
  function Pages(nbs: seq<Notebook>): (ps: seq<Page>)
    ensures |ps| == |nbs| && forall i :: 0 <= i < |nbs| ==> ps[i] == nbs[i].page
  {
    seq(|nbs|, i requires 0 <= i < |nbs| => nbs[i].page)
  }

  /** The body of the loop in `set_navbars`: the bar of the `i`-th page,
      put together piece by piece. */
  method MakeNavbar(pages: seq<Page>, i: nat) returns (bar: string)
    requires i < |pages|
    ensures bar == NavbarAt(pages, i)
  {
    bar := NAV_COMMENT;
    bar := bar + if i > 0 then PrevLink(pages[i - 1]) else "";
    bar := bar + CONTENTS;
    bar := bar + if i + 1 < |pages| then NextLink(pages[i + 1]) else "";
    bar := bar + pages[i].colabLink;
  }

  /** `set_navbars`: give every notebook the bar for its place in the list.
      An empty list has no first notebook to skip past. */
  method SetNavbars(nbs: seq<Notebook>) returns (error: Option<ScriptError>)
    requires forall i, j :: 0 <= i < j < |nbs| ==> nbs[i] != nbs[j]
    modifies nbs
    ensures error.Some? <==> nbs == []
    ensures error.Some? ==> error.value == StopIteration
    ensures forall i :: 0 <= i < |nbs| ==> nbs[i].cells == old(nbs[i].cells)
    ensures forall i :: 0 <= i < |nbs| ==> nbs[i].navbar == Some(NavbarAt(Pages(nbs), i))
  {
    if nbs == [] {
      return Some(StopIteration);
    }
    var pages := Pages(nbs);
    ghost var bars := seq(|nbs|, j requires 0 <= j < |nbs| => NavbarAt(pages, j));
    for i := 0 to |nbs|
      invariant forall j :: 0 <= j < i ==> nbs[j].navbar == Some(bars[j])
      invariant forall j :: 0 <= j < |nbs| ==> nbs[j].cells == old(nbs[j].cells)
    {
      label Loop:
      var bar := MakeNavbar(pages, i);
      assert bar == bars[i];
      nbs[i].navbar := Some(bar);
      forall j | 0 <= j < i
        ensures nbs[j].navbar == old@Loop(nbs[j].navbar)
      {
        assert nbs[j] != nbs[i];
      }
    }
    return None;
  }

  // ---------------------------------------------------------------------
  // Ordering: sorted(...) through notebook.__gt__
  // ---------------------------------------------------------------------

  /** No page comes after one whose file name is greater: what `sorted`
      guarantees, `a < b` being `b.__gt__(a)`, that is `a.filename < b.filename`. */
  predicate SortedByName(ps: seq<Page>) {
    forall i, j :: 0 <= i < j < |ps| ==> !Before(ps[j].filename, ps[i].filename)
  }

  /** `p` put before the first page whose name it does not follow. */
  function Insert(p: Page, ps: seq<Page>): (r: seq<Page>)
    ensures multiset(r) == multiset(ps) + multiset{p}
    decreases |ps|
  {
    if ps == [] then [p]
    else if Before(ps[0].filename, p.filename) then
      assert ps == [ps[0]] + ps[1..];
      [ps[0]] + Insert(p, ps[1..])
    else [p] + ps
  }

  /** The pages in file-name order. */
  function SortPages(ps: seq<Page>): (r: seq<Page>)
    ensures multiset(r) == multiset(ps)
    decreases |ps|
  {
    if ps == [] then []
    else
      assert ps == [ps[0]] + ps[1..];
      Insert(ps[0], SortPages(ps[1..]))
  }

  /** Inserting into sorted pages keeps them sorted. */
  lemma {:induction false} InsertSorted(p: Page, ps: seq<Page>)
    requires SortedByName(ps)
    ensures SortedByName(Insert(p, ps))
    decreases |ps|
  {
    if ps != [] {
      var r := Insert(p, ps);
      if Before(ps[0].filename, p.filename) {
        var tail := Insert(p, ps[1..]);
        InsertSorted(p, ps[1..]);
        BeforeAsymmetric(ps[0].filename, p.filename);
        forall j | 0 < j < |r|
          ensures !Before(r[j].filename, ps[0].filename)
        {
          assert r[j] == tail[j - 1];
          assert r[j] in multiset(tail);
          if r[j] != p {
            assert r[j] in ps[1..];
          }
        }
      } else {
        forall j | 0 < j < |r|
          ensures !Before(r[j].filename, p.filename)
        {
          if j > 1 {
            NotBeforeTransitive(ps[j - 1].filename, ps[0].filename, p.filename);
          }
        }
      }
    }
  }

  /** `SortPages` puts the pages in file-name order. */
  lemma {:induction false} SortPagesSorted(ps: seq<Page>)
    ensures SortedByName(SortPages(ps))
    decreases |ps|
  {
    if ps != [] {
      SortPagesSorted(ps[1..]);
      InsertSorted(ps[0], SortPages(ps[1..]));
    }
  }

  // ---------------------------------------------------------------------
  // The script: amend every notebook, write the README and the index
  // ---------------------------------------------------------------------

  /** A notebook's cells after `write_course_info` then `write_navbar`. It
      fails exactly when the notebook has no cells, or only the course cell. */
  function Amend(info: string, nav: string, cells: seq<Cell>): Result<seq<Cell>, ScriptError> {
    var c := WithCourseInfo(cells, info);
    if c.Failure? then c else WithNavbar(c.value, nav)
  }

  /** Cells that start with the course text and carry the bar second and
      last. */
  predicate Framed(cells: seq<Cell>, info: string, nav: string) {
    && |cells| >= 2
    && cells[0].source == info
    && cells[1].source == nav
    && cells[|cells| - 1].source == nav
  }

  /** Amending fails only on a notebook without cells, or with just the
      course cell (no second cell for the bar); otherwise the course text is
      first and the bar is second and last. */
  lemma Amended(info: string, nav: string, cells: seq<Cell>)
    ensures var r := Amend(info, nav, cells);
            && (r.Failure? <==> cells == [] || (|cells| == 1 && StartsWith(cells[0].source, COURSE_COMMENT)))
            && (r.Failure? ==> r.error == CellIndexError)
            && (r.Success? ==> Framed(r.value, info, nav))
  {
    CourseInfoWritten(cells, info);
    var c := WithCourseInfo(cells, info);
    if c.Success? {
      NavbarWritten(c.value, nav);
    }
  }

  /** The `i`-th notebook amended with its own bar. */
  function AmendAt(info: string, pages: seq<Page>, i: nat): Result<seq<Cell>, ScriptError>
    requires i < |pages|
  {
    Amend(info, NavbarAt(pages, i), pages[i].cells)
  }

  /** The outcome of amending each notebook with its own bar. */
  function Amendments(info: string, pages: seq<Page>): (rs: seq<Result<seq<Cell>, ScriptError>>)
    ensures |rs| == |pages|
  {
    seq(|pages|, i requires 0 <= i < |pages| => AmendAt(info, pages, i))
  }

  /** The loop over the notebooks: the cells of each, amended in order; the
      first that fails stops the script. */
  function AmendAll(info: string, pages: seq<Page>): (r: Result<seq<seq<Cell>>, ScriptError>)
    ensures r.Success? ==> |r.value| == |pages|
  {
    Collect(Amendments(info, pages))
  }

  /** The loop fails exactly when a notebook cannot be amended. */
  lemma AmendAllSucceeds(info: string, pages: seq<Page>)
    ensures AmendAll(info, pages).Success? <==>
              forall i :: 0 <= i < |pages| ==> AmendAt(info, pages, i).Success?
  {
    var rs := Amendments(info, pages);
    CollectValues(rs);
    assert forall i :: 0 <= i < |pages| ==> rs[i] == AmendAt(info, pages, i);
  }

  /** When the loop goes through, every notebook starts with the course
      text and carries its own bar second and last. */
  lemma AmendAllCells(info: string, pages: seq<Page>)
    requires AmendAll(info, pages).Success?
    ensures var cs := AmendAll(info, pages).value;
            && |cs| == |pages|
            && forall i :: 0 <= i < |pages| ==> Framed(cs[i], info, NavbarAt(pages, i))
  {
    var rs := Amendments(info, pages);
    CollectValues(rs);
    var cs: seq<seq<Cell>> := AmendAll(info, pages).value;
    forall i | 0 <= i < |pages|
      ensures Framed(cs[i], info, NavbarAt(pages, i))
    {
      Amended(info, NavbarAt(pages, i), pages[i].cells);
      assert cs[i] == rs[i].value;
    }
  }


  /** The README entries of the pages, in order. */
  function Entries(pages: seq<Page>): (es: seq<string>)
    ensures |es| == |pages| && forall i :: 0 <= i < |pages| ==> es[i] == pages[i].tocEntry
  {
    seq(|pages|, i requires 0 <= i < |pages| => pages[i].tocEntry)
  }

  /** README.md: the header, the entries one per line, the footer. */
  function Readme(cfg: Config, pages: seq<Page>): string {
    cfg.readmeHeader + Join(Entries(pages), "\n") + cfg.readmeFooter
  }

  /** A page's block in the index: its entry, then its sub-entries, one per line. */
  function IndexBlock(p: Page): string {
    Join([p.tocEntry] + p.toc, "\n")
  }

  /** The index blocks of the pages, in order. */
  function Blocks(pages: seq<Page>): (bs: seq<string>)
    ensures |bs| == |pages| && forall i :: 0 <= i < |pages| ==> bs[i] == IndexBlock(pages[i])
  {
    seq(|pages|, i requires 0 <= i < |pages| => IndexBlock(pages[i]))
  }

  /** index.md: the header, then the blocks one per line. */
  function Index(cfg: Config, pages: seq<Page>): string {
    cfg.indexHeader + Join(Blocks(pages), "\n")
  }

  /** The README starts with its header, ends with its footer, and holds
      each page's entry, unaltered, at its place in page order. */
  lemma ReadmeLayout(cfg: Config, pages: seq<Page>, i: nat)
    requires i < |pages|
    ensures var readme := Readme(cfg, pages);
            var at := |cfg.readmeHeader| + JoinOffset(Entries(pages), "\n", i);
            && StartsWith(readme, cfg.readmeHeader)
            && EndsWith(readme, cfg.readmeFooter)
            && at + |pages[i].tocEntry| <= |readme|
            && readme[at..at + |pages[i].tocEntry|] == pages[i].tocEntry
  {
    var body := Join(Entries(pages), "\n");
    JoinHoldsPart(Entries(pages), "\n", i);
    var h := |cfg.readmeHeader|;
    var o := JoinOffset(Entries(pages), "\n", i);
    var n := |pages[i].tocEntry|;
    SliceOfFront(cfg.readmeHeader + body, cfg.readmeFooter, h + o, h + o + n);
    SliceOfBack(cfg.readmeHeader, body, o, o + n);
    StartsWithAppend(cfg.readmeHeader, body, cfg.readmeHeader);
    StartsWithAppend(cfg.readmeHeader + body, cfg.readmeFooter, cfg.readmeHeader);
    EndsWithAppend(cfg.readmeHeader + body, cfg.readmeFooter);
  }

  /** The index starts with its header and holds each page's block,
      unaltered, at the page's place in page order. */
  lemma IndexLayout(cfg: Config, pages: seq<Page>, i: nat)
    requires i < |pages|
    ensures var index := Index(cfg, pages);
            var block := IndexBlock(pages[i]);
            var at := |cfg.indexHeader| + JoinOffset(Blocks(pages), "\n", i);
            && StartsWith(index, cfg.indexHeader)
            && at + |block| <= |index|
            && index[at..at + |block|] == block
  {
    JoinHoldsPart(Blocks(pages), "\n", i);
    var body := Join(Blocks(pages), "\n");
    var o := JoinOffset(Blocks(pages), "\n", i);
    var n := |IndexBlock(pages[i])|;
    SliceOfBack(cfg.indexHeader, body, o, o + n);
  }

  /** A page's block holds its entry, then each of its sub-entries,
      unaltered and in order. */
  lemma IndexBlockLayout(p: Page, j: nat)
    requires j <= |p.toc|
    ensures var block := IndexBlock(p);
            var lines := [p.tocEntry] + p.toc;
            var at := JoinOffset(lines, "\n", j);
            && at + |lines[j]| <= |block|
            && block[at..at + |lines[j]|] == lines[j]
  {
    JoinHoldsPart([p.tocEntry] + p.toc, "\n", j);
  }

  /** What a run of the script leaves: the notebooks in order, their cells,
      README.md and index.md. */
  datatype Site = Site(pages: seq<Page>, cells: seq<seq<Cell>>, readme: string, index: string)

  /** The notebooks, once loaded and sorted, amended in order, with the
      README and the index built from them. */
  function Assemble(cfg: Config, pages: seq<Page>): Result<Site, ScriptError> {
    var cells := AmendAll(CourseInfo(cfg), pages);
    if cells.Failure? then Failure(cells.error)
    else Success(Site(pages, cells.value, Readme(cfg, pages), Index(cfg, pages)))
  }

  /** The script on a directory listing. */
  function Build(cfg: Config, listing: seq<Entry>): Result<Site, ScriptError> {
    var loaded := LoadAll(cfg, Matching(listing));
    if loaded.Failure? then Failure(loaded.error)
    else
      var pages := SortPages(loaded.value);
      if pages == [] then Failure(StopIteration)
      else Assemble(cfg, pages)
  }

  /** A listing without a matching notebook stops the script. */
  lemma BuildNothing(cfg: Config, listing: seq<Entry>)
    requires forall e :: e in listing ==> MatchName(e.name).None?
    ensures Build(cfg, listing) == Failure(StopIteration)
  {
    var ms := Matching(listing);
    assert |ms| == 0 || MatchName(ms[0].entry.name).None?;
    assert ms == [];
    assert multiset(SortPages([])) == multiset{};
  }

  /** A run that goes through has loaded every matching entry, and its pages
      are those, in file-name order. */
  lemma BuildPages(cfg: Config, listing: seq<Entry>)
    requires Build(cfg, listing).Success?
    ensures var loaded := LoadAll(cfg, Matching(listing));
            && loaded.Success?
            && var pages := Build(cfg, listing).value.pages;
            && pages != []
            && SortedByName(pages)
            && multiset(pages) == multiset(loaded.value)
  {
    var loaded := LoadAll(cfg, Matching(listing));
    SortPagesSorted(loaded.value);
  }

  /** In a run that goes through, every notebook starts with the course text
      and carries its own bar second and last; the README and the index are
      built from the pages in order. */
  lemma AssembleCells(cfg: Config, pages: seq<Page>)
    requires Assemble(cfg, pages).Success?
    ensures var site := Assemble(cfg, pages).value;
            && site.pages == pages
            && |site.cells| == |pages|
            && (forall i :: 0 <= i < |pages| ==> Framed(site.cells[i], CourseInfo(cfg), NavbarAt(pages, i)))
            && site.readme == Readme(cfg, pages)
            && site.index == Index(cfg, pages)
  {
    AmendAllCells(CourseInfo(cfg), pages);
  }

  /** A run that goes through is the assembly of its sorted pages. */
  lemma BuildAssembles(cfg: Config, listing: seq<Entry>)
    requires Build(cfg, listing).Success?
    ensures var loaded := LoadAll(cfg, Matching(listing));
            && loaded.Success?
            && Build(cfg, listing) == Assemble(cfg, SortPages(loaded.value))
  {
  }

  /** One notebook object per page, in order, each fresh and still as read. */
  method MakeNotebooks(pages: seq<Page>) returns (nbs: seq<Notebook>)
    ensures |nbs| == |pages|
    ensures forall i :: 0 <= i < |nbs| ==> fresh(nbs[i])
    ensures forall i, j :: 0 <= i < j < |nbs| ==> nbs[i] != nbs[j]
    ensures forall i :: 0 <= i < |nbs| ==>
              nbs[i].page == pages[i] && nbs[i].cells == pages[i].cells && nbs[i].navbar == None
  {
    nbs := [];
    for i := 0 to |pages|
      invariant |nbs| == i
      invariant forall j :: 0 <= j < i ==> fresh(nbs[j])
      invariant forall j, k :: 0 <= j < k < i ==> nbs[j] != nbs[k]
      invariant forall j :: 0 <= j < i ==>
                  nbs[j].page == pages[j] && nbs[j].cells == pages[j].cells && nbs[j].navbar == None
    {
      var nb := new Notebook(pages[i]);
      nbs := nbs + [nb];
    }
  }

  /** `n.write_course_info()` then `n.write_navbar()` on one notebook whose
      bar is set: the notebook ends with the cells `Amend` gives, or the
      script stops with its failure. */
  method AmendNotebook(info: string, nb: Notebook) returns (error: Option<ScriptError>)
    requires nb.navbar.Some?
    modifies nb
    ensures nb.navbar == old(nb.navbar)
    ensures var r := Amend(info, nb.navbar.value, old(nb.cells));
            && (r.Failure? ==> error == Some(r.error))
            && (r.Success? ==> error == None && nb.cells == r.value)
  {
    error := nb.WriteCourseInfo(info);
    if error.None? {
      error := nb.WriteNavbar();
    }
  }

  /** What amending each notebook with its own bar gives. */
  function Pending(info: string, nbs: seq<Notebook>): seq<Result<seq<Cell>, ScriptError>>
    reads nbs
  {
    seq(|nbs|, i requires 0 <= i < |nbs| reads nbs => Amend(info, nbs[i].navbar.GetOr(""), nbs[i].cells))
  }

  /** The loop `for n in notebooks: n.write_course_info(); n.write_navbar()`
      on notebooks whose bars are set: it stops at the first notebook that
      cannot be amended, with that failure, and otherwise leaves every
      notebook with the cells its amendment gives. */
  method WriteNotebooks(info: string, nbs: seq<Notebook>) returns (error: Option<ScriptError>)
    requires forall i, j :: 0 <= i < j < |nbs| ==> nbs[i] != nbs[j]
    requires forall i :: 0 <= i < |nbs| ==> nbs[i].navbar.Some?
    modifies nbs
    ensures forall i :: 0 <= i < |nbs| ==> nbs[i].navbar == old(nbs[i].navbar)
    ensures var r := Collect(old(Pending(info, nbs)));
            && (r.Failure? ==> error == Some(r.error))
            && (r.Success? ==> error == None && |r.value| == |nbs| &&
                               forall i :: 0 <= i < |nbs| ==> nbs[i].cells == r.value[i])
  {
    ghost var rs := Pending(info, nbs);
    for i := 0 to |nbs|
      invariant forall j :: 0 <= j < i ==> rs[j].Success? && nbs[j].cells == rs[j].value
      invariant forall j :: 0 <= j < |nbs| ==> nbs[j].navbar == old(nbs[j].navbar)
      invariant forall j :: i <= j < |nbs| ==>
                  nbs[j].cells == old(nbs[j].cells) && nbs[j].navbar == old(nbs[j].navbar)
    {
      assert rs[i] == Amend(info, nbs[i].navbar.value, nbs[i].cells);
      label Loop:
      error := AmendNotebook(info, nbs[i]);
      forall j | 0 <= j < |nbs| && j != i
        ensures nbs[j].cells == old@Loop(nbs[j].cells) && nbs[j].navbar == old@Loop(nbs[j].navbar)
      {
        assert nbs[j] != nbs[i];
      }
      if error.Some? {
        CollectFirstFailure(rs, i);
        return;
      }
    }
    CollectValues(rs);
    error := None;
  }

  /** Notebooks that hold their pages' cells and bars are amended as their
      pages are. */
  lemma PendingAmendments(info: string, nbs: seq<Notebook>)
    requires forall i :: 0 <= i < |nbs| ==>
               nbs[i].cells == nbs[i].page.cells && nbs[i].navbar == Some(NavbarAt(Pages(nbs), i))
    ensures Pending(info, nbs) == Amendments(info, Pages(nbs))
  {
    var pages := Pages(nbs);
    var ps := Pending(info, nbs);
    var am := Amendments(info, pages);
    forall i | 0 <= i < |nbs|
      ensures ps[i] == am[i]
    {
      assert ps[i] == Amend(info, nbs[i].navbar.value, nbs[i].cells);
      assert am[i] == AmendAt(info, pages, i);
    }
  }

  /** The script once the bars are set: amend every notebook, then gather
      their cells and write README.md and index.md. */
  method Publish(cfg: Config, nbs: seq<Notebook>) returns (r: Result<Site, ScriptError>)
    requires forall i, j :: 0 <= i < j < |nbs| ==> nbs[i] != nbs[j]
    requires forall i :: 0 <= i < |nbs| ==>
               nbs[i].cells == nbs[i].page.cells && nbs[i].navbar == Some(NavbarAt(Pages(nbs), i))
    modifies nbs
    ensures r == Assemble(cfg, Pages(nbs))
    ensures forall i :: 0 <= i < |nbs| ==> nbs[i].navbar == old(nbs[i].navbar)
    ensures r.Success? ==> |r.value.cells| == |nbs| &&
                           forall i :: 0 <= i < |nbs| ==> nbs[i].cells == r.value.cells[i]
  {
    var pages := Pages(nbs);
    PendingAmendments(CourseInfo(cfg), nbs);
    var error := WriteNotebooks(CourseInfo(cfg), nbs);
    if error.Some? {
      return Failure(error.value);
    }
    ghost var amended := AmendAll(CourseInfo(cfg), pages).value;
    assert forall i :: 0 <= i < |nbs| ==> nbs[i].cells == amended[i];
    var cells := seq(|nbs|, i requires 0 <= i < |nbs| reads nbs => nbs[i].cells);
    assert cells == amended;
    r := Success(Site(pages, cells, Readme(cfg, pages), Index(cfg, pages)));
  }

  /** The whole script in place: load and sort the notebooks, set their
      bars, amend each, then write README.md and index.md. */
  method Rebuild(cfg: Config, listing: seq<Entry>) returns (r: Result<Site, ScriptError>)
    ensures r == Build(cfg, listing)
  {
    var ms := Matching(listing);
    var loaded := LoadNotebooks(cfg, ms);
    if loaded.Failure? {
      return Failure(loaded.error);
    }
    var pages := SortPages(loaded.value);
    var nbs := MakeNotebooks(pages);
    assert Pages(nbs) == pages;
    var error := SetNavbars(nbs);
    if error.Some? {
      return Failure(error.value);
    }
    r := Publish(cfg, nbs);
  }
}
