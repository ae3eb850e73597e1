/** Turning fetched or inline text into a render-ready record
    (`toSnippetContent` in modules/Snippet.js): line segmentation, language
    and title inference, and the optional highlighter. */
module SnippetContent {
  import opened Optional
  import opened Text
  import JsArray

  /** The `title` key of an input: absent, or present with a value where
      `None` is an explicit `null`. */
  datatype TitleField = Absent | Present(title: Option<string>)

  /** One input specification. `language`, `from` and `to` are `None` when
      they are missing or `null` (the `??` operator treats both alike). */
  datatype Input = Input(
    source: string,
    language: Option<string>,
    from: Option<int>,
    to: Option<int>,
    title: TitleField)

  /** One resolved record; `url` is `None` for inline text. */
  datatype Content = Content(title: Option<string>, content: string, url: Option<string>)

  /** The optional global highlighter: absent, or a function from a text and a
      language name to markup. */
  datatype Highlighter = NoPrism | Prism(highlight: (string, string) -> string)

  const Plain: string := "plain"

  /** The lines of a text: split on `\n`, then the last line is dropped once
      if it is blank (the artefact of a trailing newline). The lines joined
      back give the text itself, or the text without its blank last line. */
  function Lines(text: string): (lines: seq<string>)
    ensures forall i :: 0 <= i < |lines| ==> '\n' !in lines[i]
    ensures !IsBlank(AfterLast(text, '\n')) ==> Join(lines, "\n") == text
    ensures IsBlank(AfterLast(text, '\n')) && '\n' in text ==>
              text == Join(lines, "\n") + "\n" + AfterLast(text, '\n')
    ensures IsBlank(text) && '\n' !in text ==> lines == []
  {
    var parts := Split(text, '\n');
    var n := |parts|;
    AfterLastParts(text, '\n');
    if IsBlank(parts[n - 1]) then
      if n >= 2 then parts[..n - 1] else []
    else
      parts
  }

  /** The lines `from` to `to` (1-based, inclusive), picked with the
      JavaScript `slice(from - 1, to)`; a missing `from` is 1 and a missing
      `to` is the number of lines. */
  function SegmentLines(lines: seq<string>, from: Option<int>, to: Option<int>): seq<string> {
    JsArray.Slice(lines, from.GetOr(1) - 1, to.GetOr(|lines|))
  }

  /** The selected lines of `text`, joined with `\n`. */
  function Segment(text: string, from: Option<int>, to: Option<int>): string {
    Join(SegmentLines(Lines(text), from, to), "\n")
  }

  /** The language: the explicit one, else the text after the last `.` of the
      URL, else `plain` for inline text. */
  function Language(input: Input, url: Option<string>): (lang: string)
    ensures input.language.Some? ==> lang == input.language.value
    ensures input.language.None? && url.Some? ==> IsTextAfterLast(url.value, '.', lang)
    ensures input.language.None? && url.None? ==> lang == Plain
  {
    match input.language
    case Some(l) => l
    case None =>
      match url
      case Some(u) => AfterLast(u, '.')
      case None => Plain
  }

  /** The title: the `title` value verbatim when the key is present (even
      `null`), else the last `/`-segment of the URL, else none. */
  function Title(input: Input, url: Option<string>): (title: Option<string>)
    ensures input.title.Present? ==> title == input.title.title
    ensures input.title.Absent? && url.Some? ==> title.Some? && IsTextAfterLast(url.value, '/', title.value)
    ensures input.title.Absent? && url.None? ==> title.None?
  {
    match input.title
    case Present(t) => t
    case Absent =>
      match url
      case Some(u) => Some(AfterLast(u, '/'))
      case None => None
  }

  /** `Prism.highlight(segment, Prism.languages[lang], lang)` when the
      highlighter is there, the segment itself otherwise. */
  function Highlight(hl: Highlighter, segment: string, lang: string): string {
    match hl
    case NoPrism => segment
    case Prism(highlight) => highlight(segment, lang)
  }

  /** `toSnippetContent(text, input, url)`. */
  function ToSnippetContent(text: string, input: Input, url: Option<string>, hl: Highlighter): (c: Content)
    ensures c.url == url
    ensures c.title == Title(input, url)
    ensures hl.NoPrism? ==> c.content == Segment(text, input.from, input.to)
    ensures hl.Prism? ==> c.content == hl.highlight(Segment(text, input.from, input.to), Language(input, url))
  {
    var segment := Segment(text, input.from, input.to);
    var lang := Language(input, url);
    Content(Title(input, url), Highlight(hl, segment, lang), url)
  }

  /** `Lines` undoes joining: lines without `\n` whose last one is not blank
      come back unchanged from the text they make. */
  lemma LinesOfJoin(ls: seq<string>)
    requires |ls| >= 1
    requires forall i :: 0 <= i < |ls| ==> '\n' !in ls[i]
    requires !IsBlank(ls[|ls| - 1])
    ensures Lines(Join(ls, "\n")) == ls
  {
    var text := Join(ls, "\n");
    SplitJoin(ls, '\n');
    LinesKeepLast(text, ls);
  }

  lemma LinesKeepLast(text: string, parts: seq<string>)
    requires Split(text, '\n') == parts
    requires !IsBlank(parts[|parts| - 1])
    ensures Lines(text) == parts
  {
  }

  lemma LinesDropLast(text: string, parts: seq<string>)
    requires Split(text, '\n') == parts && |parts| >= 2
    requires IsBlank(parts[|parts| - 1])
    ensures Lines(text) == parts[..|parts| - 1]
  {
  }

  /** A text whose every line ends with `\n` has exactly those lines: the
      empty part after the final newline is dropped. */
  lemma LinesOfTerminated(ls: seq<string>)
    requires |ls| >= 1
    requires forall i :: 0 <= i < |ls| ==> '\n' !in ls[i]
    ensures Lines(Join(ls, "\n") + "\n") == ls
  {
    var ext := ls + [""];
    assert ext[..|ext| - 1] == ls;
    JoinLast(ext, "\n");
    assert Join(ext, "\n") == Join(ls, "\n") + "\n";
    SplitJoin(ext, '\n');
    LinesDropLast(Join(ext, "\n"), ext);
  }

  /** Without `from` and `to` the whole text is kept, except a blank last
      line. */
  lemma SegmentWhole(text: string)
    ensures !IsBlank(AfterLast(text, '\n')) ==> Segment(text, None, None) == text
    ensures IsBlank(AfterLast(text, '\n')) && '\n' in text ==>
              text == Segment(text, None, None) + "\n" + AfterLast(text, '\n')
  {
    var lines := Lines(text);
    assert SegmentLines(lines, None, None) == lines;
  }

  /** For `from >= 1` and `to >= 0`, the segment is lines `from` to `to`
      counted from 1, cut at the last line, and nothing when the range is
      empty or starts past the end. */
  lemma SegmentRange(lines: seq<string>, from: int, to: int)
    requires from >= 1 && to >= 0
    ensures from <= to && from <= |lines| ==>
              SegmentLines(lines, Some(from), Some(to))
              == lines[from - 1..if to < |lines| then to else |lines|]
    ensures to < from || |lines| < from ==> SegmentLines(lines, Some(from), Some(to)) == []
    ensures to < from || |lines| < from ==> Join(SegmentLines(lines, Some(from), Some(to)), "\n") == ""
    ensures |SegmentLines(lines, Some(from), Some(to))| <= if from <= to then to - from + 1 else 0
  {
    JsArray.SliceNonNegative(lines, from - 1, to);
  }

  /** `from: 0` becomes `slice(-1, to)`: the last line alone when `to`
      reaches the end, nothing otherwise. */
  lemma SegmentFromZero(lines: seq<string>, to: Option<int>)
    requires |lines| >= 1
    ensures to.None? || to.value >= |lines| ==>
              SegmentLines(lines, Some(0), to) == [lines[|lines| - 1]]
    ensures to.Some? && 0 <= to.value < |lines| ==> SegmentLines(lines, Some(0), to) == []
  {
    var r := SegmentLines(lines, Some(0), to);
    if to.None? || to.value >= |lines| {
      assert |r| == 1 && r[0] == lines[|lines| - 1];
    }
  }

  /** Lines 2 to 3 of a four-line text with a trailing newline. */
  lemma SegmentOfFourLines(text: string)
    requires text == "a\nb\nc\nd\n"
    ensures Segment(text, Some(2), Some(3)) == "b\nc"
  {
    var ls := ["a", "b", "c", "d"];
    FourLinesShape(text, ls);
    SegmentOfLines(text, ls, 2, 3);
    MiddleLinesJoined(ls);
  }

  lemma FourLinesShape(text: string, ls: seq<string>)
    requires text == "a\nb\nc\nd\n" && ls == ["a", "b", "c", "d"]
    ensures |ls| >= 1 && forall i :: 0 <= i < |ls| ==> '\n' !in ls[i]
    ensures text == Join(ls, "\n") + "\n"
  {
    JoinFour("a", "b", "c", "d", "\n");
    FourLinesText(text);
    forall i | 0 <= i < |ls|
      ensures '\n' !in ls[i]
    {
      assert |ls[i]| == 1 && ls[i][0] != '\n';
    }
  }

  lemma FourLinesText(text: string)
    requires text == "a\nb\nc\nd\n"
    ensures text == "a" + "\n" + "b" + "\n" + "c" + "\n" + "d" + "\n"
  {
  }

  lemma MiddleLinesJoined(ls: seq<string>)
    requires ls == ["a", "b", "c", "d"]
    ensures Join(ls[1..3], "\n") == "b\nc"
  {
    assert ls[1..3] == ["b", "c"];
    JoinCons("b", ["c"], "\n");
  }

  lemma JoinFour(a: string, b: string, c: string, d: string, sep: string)
    ensures Join([a, b, c, d], sep) == a + sep + b + sep + c + sep + d
  {
    JoinCons(a, [b, c, d], sep);
    JoinCons(b, [c, d], sep);
    JoinCons(c, [d], sep);
  }

  lemma SegmentOfLines(text: string, ls: seq<string>, from: int, to: int)
    requires |ls| >= 1 && forall i :: 0 <= i < |ls| ==> '\n' !in ls[i]
    requires text == Join(ls, "\n") + "\n"
    requires 1 <= from <= to && from <= |ls|
    ensures Segment(text, Some(from), Some(to))
         == Join(ls[from - 1..if to < |ls| then to else |ls|], "\n")
  {
    LinesOfTerminated(ls);
    SegmentRange(ls, from, to);
  }

  /** A URL input without `title` or `language` takes both from its last path
      segment. */
  lemma TitleAndLanguageOfFileUrl(input: Input, url: string)
    requires input.title.Absent? && input.language.None?
    requires url == "https://x/y/file.py"
    ensures Title(input, Some(url)) == Some("file.py")
    ensures Language(input, Some(url)) == "py"
  {
    FileUrlShape(url);
    AfterLastOf("https://x/y", "file.py", '/');
    AfterLastOf("https://x/y/file", "py", '.');
  }

  lemma FileUrlShape(url: string)
    requires url == "https://x/y/file.py"
    ensures url == "https://x/y" + ['/'] + "file.py"
    ensures url == "https://x/y/file" + ['.'] + "py"
    ensures '/' !in "file.py" && '.' !in "py"
  {
  }

  /** An explicit `title`, even `null`, wins over the URL; inline text has no
      title and is `plain`. */
  lemma ExplicitTitleWins(input: Input, url: Option<string>)
    requires input.title == Present(None) || input.title == Present(Some("Custom"))
    ensures Title(input, url) == input.title.title
    ensures url.None? && input.language.None? ==> Language(input, url) == Plain
  {
  }
}
