/** Text extraction: `extract_text_from_file` of the upload handler and
    `load_pdf_text` of the ingester, over what the document libraries
    hand back (page texts, paragraph texts, slides of shapes), and the
    answer assembly of `generate_llm_answer`. */
module Extraction {
  import opened Text
  import opened Wrappers
  import Chunking

  // ----- Non-blank filtering -----

  /** `[p]` when `p.strip()` is non-empty, else nothing. */
  function Kept(p: string): seq<string> {
    if Strip(p) != [] then [p] else []
  }

  /** The parts whose stripped text is non-empty, in order. */
  function NonBlank(parts: seq<string>): seq<string>
    decreases |parts|
  {
    if parts == [] then [] else NonBlank(parts[..|parts| - 1]) + Kept(parts[|parts| - 1])
  }

  /** The filter keeps exactly the non-blank parts, in their order and with
      their repetitions: kept part `j` is `parts[idx[j]]` for strictly
      increasing positions `idx`, and every other part is blank. Nothing is
      lost when no part is blank. */
  lemma NonBlankSpec(parts: seq<string>)
    ensures var idx := Chunking.KeptIndices(parts);
      && |idx| == |NonBlank(parts)|
      && (forall j :: 0 <= j < |idx| ==> idx[j] < |parts| && NonBlank(parts)[j] == parts[idx[j]])
      && (forall i, j :: 0 <= i < j < |idx| ==> idx[i] < idx[j])
      && (forall k :: 0 <= k < |parts| && k !in idx ==> IsBlank(parts[k]))
    ensures |NonBlank(parts)| <= |parts|
    ensures forall k :: 0 <= k < |NonBlank(parts)| ==> !IsBlank(NonBlank(parts)[k]) && NonBlank(parts)[k] in parts
    ensures forall k :: 0 <= k < |parts| && !IsBlank(parts[k]) ==> parts[k] in NonBlank(parts)
    ensures (forall k :: 0 <= k < |parts| ==> !IsBlank(parts[k])) ==> NonBlank(parts) == parts
  {
    NonBlankSound(parts);
    NonBlankComplete(parts);
    NonBlankIndexed(parts);
    Chunking.NonBlankStrippedIsFilter(parts);
    var out := NonBlank(parts);
    forall k | 0 <= k < |out| ensures !IsBlank(out[k]) {
      StripSpec(out[k]);
    }
    forall k | 0 <= k < |parts| ensures IsBlank(parts[k]) <==> Strip(parts[k]) == [] {
      StripSpec(parts[k]);
    }
  }

  /** Kept part `j` is the part at the `j`-th position the chunker's
      filter keeps: the positions whose text strips to something. */
  lemma {:induction false} NonBlankIndexed(parts: seq<string>)
    ensures |Chunking.KeptIndices(parts)| == |NonBlank(parts)|
    ensures forall j :: 0 <= j < |NonBlank(parts)| ==>
      Chunking.KeptIndices(parts)[j] < |parts| && NonBlank(parts)[j] == parts[Chunking.KeptIndices(parts)[j]]
    decreases |parts|
  {
    if parts != [] {
      var init, last := parts[..|parts| - 1], parts[|parts| - 1];
      NonBlankIndexed(init);
      assert forall k :: 0 <= k < |init| ==> init[k] == parts[k];
      assert Chunking.KeepStripped(last) != [] <==> Kept(last) != [];
      if Kept(last) != [] {
        assert Chunking.KeptIndices(parts) == Chunking.KeptIndices(init) + [|init|];
        assert NonBlank(parts) == NonBlank(init) + [last];
      } else {
        assert Chunking.KeptIndices(parts) == Chunking.KeptIndices(init);
        assert NonBlank(parts) == NonBlank(init);
      }
    }
  }

  /** Every kept part strips to something and comes from the input. */
  lemma {:induction false} NonBlankSound(parts: seq<string>)
    ensures |NonBlank(parts)| <= |parts|
    ensures forall k :: 0 <= k < |NonBlank(parts)| ==> Strip(NonBlank(parts)[k]) != [] && NonBlank(parts)[k] in parts
    decreases |parts|
  {
    if parts != [] {
      var init := parts[..|parts| - 1];
      NonBlankSound(init);
      assert init + [parts[|parts| - 1]] == parts;
      assert forall p :: p in init ==> p in parts;
    }
  }

  /** Every part that strips to something is kept, and when every part
      does, all are kept. */
  lemma NonBlankComplete(parts: seq<string>)
    ensures forall k :: 0 <= k < |parts| && Strip(parts[k]) != [] ==> parts[k] in NonBlank(parts)
    ensures (forall k :: 0 <= k < |parts| ==> Strip(parts[k]) != []) ==> NonBlank(parts) == parts
  {
    NonBlankKeeps(parts);
    if forall k :: 0 <= k < |parts| ==> Strip(parts[k]) != [] {
      NonBlankKeepsAll(parts);
    }
  }

  lemma {:induction false} NonBlankKeeps(parts: seq<string>)
    ensures forall k :: 0 <= k < |parts| && Strip(parts[k]) != [] ==> parts[k] in NonBlank(parts)
    decreases |parts|
  {
    if parts != [] {
      var init, last := parts[..|parts| - 1], parts[|parts| - 1];
      NonBlankKeeps(init);
      assert NonBlank(parts) == NonBlank(init) + Kept(last);
      forall k | 0 <= k < |parts| && Strip(parts[k]) != []
        ensures parts[k] in NonBlank(parts)
      {
        if k < |init| {
          assert parts[k] == init[k];
          assert init[k] in NonBlank(init);
        } else {
          assert Kept(last) == [last];
        }
      }
    }
  }

  lemma {:induction false} NonBlankKeepsAll(parts: seq<string>)
    requires forall k :: 0 <= k < |parts| ==> Strip(parts[k]) != []
    ensures NonBlank(parts) == parts
    decreases |parts|
  {
    if parts != [] {
      var init, last := parts[..|parts| - 1], parts[|parts| - 1];
      forall k | 0 <= k < |init| ensures Strip(init[k]) != [] {
        assert init[k] == parts[k];
      }
      NonBlankKeepsAll(init);
      assert Strip(parts[|parts| - 1]) != [];
      assert Kept(last) == [last];
      assert NonBlank(parts) == NonBlank(init) + Kept(last);
      assert init + [last] == parts;
    }
  }

  /** `runs` with the non-blank `parts` appended, one at a time. */
  method AppendNonBlank(runs: seq<string>, parts: seq<string>) returns (r: seq<string>)
    ensures r == runs + NonBlank(parts)
  {
    r := runs;
    for k := 0 to |parts|
      invariant r == runs + NonBlank(parts[..k])
    {
      assert parts[..k + 1][..k] == parts[..k];
      assert NonBlank(parts[..k + 1]) == NonBlank(parts[..k]) + Kept(parts[k]);
      ConcatAssoc(runs, NonBlank(parts[..k]), Kept(parts[k]));
      if Strip(parts[k]) != [] {
        r := r + [parts[k]];
      }
    }
    assert parts[..|parts|] == parts;
  }

  // ----- PDF -----

  /** Each optional text (a PDF page's, a stream delta's), `None` read as
      the empty string. */
  function TextsOrEmpty(texts: seq<Option<string>>): (r: seq<string>)
    ensures |r| == |texts|
    ensures forall k :: 0 <= k < |texts| ==> r[k] == (if texts[k].Some? then texts[k].value else "")
    decreases |texts|
  {
    if texts == [] then [] else TextsOrEmpty(texts[..|texts| - 1]) + [if texts[|texts| - 1].Some? then texts[|texts| - 1].value else ""]
  }

  /** The PDF branch: the page texts gathered in order. */
  method PdfPages(pages: seq<Option<string>>) returns (texts: seq<string>)
    ensures texts == TextsOrEmpty(pages)
  {
    texts := [];
    for k := 0 to |pages|
      invariant texts == TextsOrEmpty(pages[..k])
    {
      assert pages[..k + 1][..k] == pages[..k];
      var text := if pages[k].Some? then pages[k].value else "";
      texts := texts + [text];
    }
    assert pages[..|pages|] == pages;
  }

  /** Page texts followed each by a line feed, the text `load_pdf_text`
      accumulates. */
  function Terminated(texts: seq<string>): string
    decreases |texts|
  {
    if texts == [] then "" else Terminated(texts[..|texts| - 1]) + texts[|texts| - 1] + "\n"
  }

  /** `load_pdf_text(path)` over the pages the reader yields. */
  method LoadPdfText(pages: seq<Option<string>>) returns (text: string)
    ensures text == Terminated(TextsOrEmpty(pages))
    ensures |text| == TotalLength(TextsOrEmpty(pages)) + |pages|
  {
    text := "";
    for k := 0 to |pages|
      invariant text == Terminated(TextsOrEmpty(pages[..k]))
    {
      assert pages[..k + 1][..k] == pages[..k];
      var pageText := if pages[k].Some? then pages[k].value else "";
      text := text + pageText + "\n";
    }
    assert pages[..|pages|] == pages;
    TerminatedLength(TextsOrEmpty(pages));
  }

  lemma {:induction false} TotalLengthSnoc(parts: seq<string>, p: string)
    ensures TotalLength(parts + [p]) == TotalLength(parts) + |p|
    decreases |parts|
  {
    if parts != [] {
      TotalLengthSnoc(parts[1..], p);
      assert (parts + [p])[1..] == parts[1..] + [p];
    }
  }

  /** One line feed per page on top of the page texts. */
  lemma {:induction false} TerminatedLength(texts: seq<string>)
    ensures |Terminated(texts)| == TotalLength(texts) + |texts|
    decreases |texts|
  {
    if texts != [] {
      var init := texts[..|texts| - 1];
      TerminatedLength(init);
      TotalLengthSnoc(init, texts[|texts| - 1]);
      assert init + [texts[|texts| - 1]] == texts;
    }
  }

  /** The ingester's text is the upload handler's PDF text with a final
      line feed. */
  lemma {:induction false} TerminatedIsJoinPlusNewline(texts: seq<string>)
    requires texts != []
    ensures Terminated(texts) == Join("\n", texts) + "\n"
    decreases |texts|
  {
    var init := texts[..|texts| - 1];
    var last := texts[|texts| - 1];
    if |texts| == 1 {
      assert init == [];
    } else {
      TerminatedIsJoinPlusNewline(init);
      JoinSnoc(init, last);
      assert init + [last] == texts;
    }
  }

  lemma {:induction false} JoinSnoc(parts: seq<string>, p: string)
    requires parts != []
    ensures Join("\n", parts + [p]) == Join("\n", parts) + "\n" + p
    decreases |parts|
  {
    if |parts| == 1 {
      assert (parts + [p])[1..] == [p];
    } else {
      JoinSnoc(parts[1..], p);
      assert (parts + [p])[1..] == parts[1..] + [p];
    }
  }

  // ----- PowerPoint -----

  /** A shape as the extractor sees it: its `text` when it has one, and
      the rows of cell texts when it holds a table. */
  datatype Shape = Shape(text: Option<string>, table: Option<seq<seq<string>>>)

  /** The non-blank cells of the rows, row by row. */
  function RowsRuns(rows: seq<seq<string>>): seq<string>
    decreases |rows|
  {
    if rows == [] then [] else RowsRuns(rows[..|rows| - 1]) + NonBlank(rows[|rows| - 1])
  }

  function TextRun(shape: Shape): seq<string> {
    if shape.text.Some? then Kept(shape.text.value) else []
  }

  /** The runs of one shape: its own text, then its table's cells. */
  function ShapeRuns(shape: Shape): seq<string> {
    TextRun(shape) + (if shape.table.Some? then RowsRuns(shape.table.value) else [])
  }

  function ShapesRuns(shapes: seq<Shape>): seq<string>
    decreases |shapes|
  {
    if shapes == [] then [] else ShapesRuns(shapes[..|shapes| - 1]) + ShapeRuns(shapes[|shapes| - 1])
  }

  /** Every run of the presentation, slide by slide and shape by shape. */
  function SlidesRuns(slides: seq<seq<Shape>>): seq<string>
    decreases |slides|
  {
    if slides == [] then [] else SlidesRuns(slides[..|slides| - 1]) + ShapesRuns(slides[|slides| - 1])
  }

  /** Each run is non-blank; with the run lemma below this is what the
      PowerPoint branch promises of its text. */
  lemma {:induction false} SlidesRunsNonBlank(slides: seq<seq<Shape>>)
    ensures forall k :: 0 <= k < |SlidesRuns(slides)| ==> !IsBlank(SlidesRuns(slides)[k])
    decreases |slides|
  {
    if slides != [] {
      SlidesRunsNonBlank(slides[..|slides| - 1]);
      ShapesRunsNonBlank(slides[|slides| - 1]);
    }
  }

  lemma {:induction false} ShapesRunsNonBlank(shapes: seq<Shape>)
    ensures forall k :: 0 <= k < |ShapesRuns(shapes)| ==> !IsBlank(ShapesRuns(shapes)[k])
    decreases |shapes|
  {
    if shapes != [] {
      ShapesRunsNonBlank(shapes[..|shapes| - 1]);
      var shape := shapes[|shapes| - 1];
      if shape.text.Some? {
        StripSpec(shape.text.value);
      }
      if shape.table.Some? {
        RowsRunsNonBlank(shape.table.value);
      }
    }
  }

  lemma {:induction false} RowsRunsNonBlank(rows: seq<seq<string>>)
    ensures forall k :: 0 <= k < |RowsRuns(rows)| ==> !IsBlank(RowsRuns(rows)[k])
    decreases |rows|
  {
    if rows != [] {
      RowsRunsNonBlank(rows[..|rows| - 1]);
      NonBlankSpec(rows[|rows| - 1]);
    }
  }

  lemma ConcatAssoc(a: seq<string>, b: seq<string>, c: seq<string>)
    ensures a + (b + c) == (a + b) + c
  {
  }

  /** `runs` with one shape's runs appended: its text, then its table's
      cells row by row. */
  method AppendShapeRuns(runs: seq<string>, shape: Shape) returns (r: seq<string>)
    ensures r == runs + ShapeRuns(shape)
  {
    r := runs;
    if shape.text.Some? && Strip(shape.text.value) != [] {
      r := r + [shape.text.value];
    }
    assert r == runs + TextRun(shape);
    if shape.table.Some? {
      r := AppendRows(r, shape.table.value);
    }
  }

  /** `runs` with the non-blank cells of the rows appended, row by row. */
  method AppendRows(runs: seq<string>, rows: seq<seq<string>>) returns (r: seq<string>)
    ensures r == runs + RowsRuns(rows)
  {
    r := runs;
    for k := 0 to |rows|
      invariant r == runs + RowsRuns(rows[..k])
    {
      assert rows[..k + 1][..k] == rows[..k];
      assert RowsRuns(rows[..k + 1]) == RowsRuns(rows[..k]) + NonBlank(rows[k]);
      r := AppendNonBlank(r, rows[k]);
      ConcatAssoc(runs, RowsRuns(rows[..k]), NonBlank(rows[k]));
    }
    assert rows[..|rows|] == rows;
  }

  /** `runs` with the runs of one slide's shapes appended. */
  method AppendSlideRuns(runs: seq<string>, shapes: seq<Shape>) returns (r: seq<string>)
    ensures r == runs + ShapesRuns(shapes)
  {
    r := runs;
    for j := 0 to |shapes|
      invariant r == runs + ShapesRuns(shapes[..j])
    {
      assert shapes[..j + 1][..j] == shapes[..j];
      assert ShapesRuns(shapes[..j + 1]) == ShapesRuns(shapes[..j]) + ShapeRuns(shapes[j]);
      r := AppendShapeRuns(r, shapes[j]);
      ConcatAssoc(runs, ShapesRuns(shapes[..j]), ShapeRuns(shapes[j]));
    }
    assert shapes[..|shapes|] == shapes;
  }

  /** The runs of the PowerPoint branch, gathered slide by slide. */
  method PowerPointRuns(slides: seq<seq<Shape>>) returns (runs: seq<string>)
    ensures runs == SlidesRuns(slides)
  {
    runs := [];
    for i := 0 to |slides|
      invariant runs == SlidesRuns(slides[..i])
    {
      assert slides[..i + 1][..i] == slides[..i];
      runs := AppendSlideRuns(runs, slides[i]);
    }
    assert slides[..|slides|] == slides;
  }

  // ----- Dispatch -----

  /** What the document libraries and the file system yield for the file:
      whether it exists and its size, and for each reader either its
      content or the message of the error it raises. `text` is the file's
      bytes decoded as UTF-8 with undecodable bytes dropped, before any
      newline translation. */
  datatype FileView = FileView(
    path: string,
    present: bool,
    size: nat,
    pdf: Result<seq<Option<string>>>,
    docx: Result<seq<string>>,
    pptx: Result<seq<seq<Shape>>>,
    text: string)

  /** Text mode's universal newlines: `"\r\n"` and a lone `"\r"` are read
      as `"\n"`. */
  function Newlines(s: string): (r: string)
    ensures '\r' !in r
    ensures '\r' !in s ==> r == s
    ensures |r| <= |s|
    decreases |s|
  {
    if s == [] then []
    else if s[0] == '\r' then
      if |s| > 1 && s[1] == '\n' then "\n" + Newlines(s[2..]) else "\n" + Newlines(s[1..])
    else [s[0]] + Newlines(s[1..])
  }

  /** Text without carriage returns passes through unchanged, whatever
      follows it. */
  lemma {:induction false} NewlinesPlain(s: string, u: string)
    requires '\r' !in s
    ensures Newlines(s + u) == s + Newlines(u)
    decreases |s|
  {
    var v := s + u;
    if s == [] {
      assert v == u;
    } else {
      assert v[0] == s[0] != '\r' && v[1..] == s[1..] + u;
      assert Newlines(v) == [s[0]] + Newlines(v[1..]);
      NewlinesPlain(s[1..], u);
      assert [s[0]] + (s[1..] + Newlines(u)) == s + Newlines(u);
    }
  }

  /** A `"\r\n"` after text without carriage returns is read as one
      `"\n"`. */
  lemma NewlinesCrLf(s: string, t: string)
    requires '\r' !in s
    ensures Newlines(s + "\r\n" + t) == s + "\n" + Newlines(t)
  {
    var u := "\r\n" + t;
    assert s + "\r\n" + t == s + u;
    NewlinesPlain(s, u);
    assert u[0] == '\r' && u[1] == '\n' && u[2..] == t;
  }

  /** A lone `"\r"`, one not followed by `"\n"`, is read as `"\n"`. */
  lemma NewlinesLoneCr(s: string, t: string)
    requires '\r' !in s
    requires t == [] || t[0] != '\n'
    ensures Newlines(s + "\r" + t) == s + "\n" + Newlines(t)
  {
    var u := "\r" + t;
    assert s + "\r" + t == s + u;
    NewlinesPlain(s, u);
    assert u[0] == '\r' && u[1..] == t;
    assert |u| > 1 ==> u[1] != '\n';
  }

  /** The message of the `FileNotFoundError` that `open` raises. */
  function NoSuchFile(path: string): string {
    "[Errno 2] No such file or directory: '" + path + "'"
  }

  const WordError := "Error reading Word document. For .doc files, please convert to .docx format. Error: "

  const InvalidLead := "Invalid PowerPoint file"
  const PowerPointLead := "Error reading PowerPoint file"
  const LegacyLead := PowerPointLead + ". Legacy .ppt format"
  const InvalidPowerPoint := InvalidLead + ". The file may be corrupted, incomplete, or not actually a PowerPoint file. If downloading from SharePoint, ensure you have a direct download link. Error: "
  const LegacyPowerPoint := LegacyLead + " is not fully supported. Please convert to .pptx format. Error: "
  const PowerPointFailed := PowerPointLead + ": "

  /** The reader's error says the file is not a PowerPoint package. */
  predicate NotAPackage(message: string) {
    Contains(message, "Package not found") || Contains(Lower(message), "not a zip file")
  }

  /** The message the PowerPoint branch raises for an error `message`:
      the original error always comes last, after a lead that says whether
      the file is no package at all, a legacy `.ppt`, or unreadable. */
  function PowerPointError(message: string, ext: string): (r: string)
    ensures |r| > |message| && r[|r| - |message|..] == message
    ensures OccursAt(r, InvalidLead, 0) <==> NotAPackage(message)
    ensures OccursAt(r, LegacyLead, 0) <==> !NotAPackage(message) && ext == ".ppt"
    ensures NotAPackage(message) ==> r == InvalidPowerPoint + message
    ensures !NotAPackage(message) && ext != ".ppt" ==> r == PowerPointFailed + message
  {
    if NotAPackage(message) then
      LeadsWith(InvalidLead, InvalidPowerPoint[|InvalidLead|..], message);
      DiffersAt(InvalidPowerPoint, message, LegacyLead, 0);
      InvalidPowerPoint + message
    else if ext == ".ppt" then
      LeadsWith(LegacyLead, LegacyPowerPoint[|LegacyLead|..], message);
      DiffersAt(LegacyPowerPoint, message, InvalidLead, 0);
      LegacyPowerPoint + message
    else
      DiffersAt(PowerPointFailed, message, InvalidLead, 0);
      DiffersAt(PowerPointFailed, message, LegacyLead, |PowerPointLead|);
      PowerPointFailed + message
  }

  lemma LeadsWith(lead: string, rest: string, message: string)
    ensures OccursAt(lead + rest + message, lead, 0)
  {
    assert (lead + rest + message)[..|lead|] == lead;
  }

  lemma DiffersAt(lead: string, message: string, x: string, k: nat)
    requires k < |lead| && k < |x| && lead[k] != x[k]
    ensures !OccursAt(lead + message, x, 0)
  {
    assert (lead + message)[k] == lead[k];
  }

  /** The number of lines of `content` with non-blank text. */
  function NonBlankLineCount(content: string): (n: nat)
    ensures n <= multiset(content)['\n'] + 1
    ensures '\n' !in content ==> (n == 1 <==> !IsBlank(content)) && (n == 0 <==> IsBlank(content))
  {
    NonBlankSpec(Split(content, '\n'));
    SplitCount(content, '\n');
    SingleLine(content);
    |NonBlank(Split(content, '\n'))|
  }

  lemma SingleLine(content: string)
    ensures '\n' !in content ==> NonBlank(Split(content, '\n')) == (if IsBlank(content) then [] else [content])
  {
    if '\n' !in content {
      SplitWithoutSeparator(content, '\n');
      StripSpec(content);
      assert NonBlank([content]) == Kept(content);
    }
  }

  /** A lone carriage return separates lines: `"a\rb"` counts two. */
  lemma CarriageReturnSeparatesLines()
    ensures NonBlankLineCount(Newlines("a\rb")) == 2
  {
    CarriageReturnRead();
    TwoLinesSplit();
    TwoLinesKept();
  }

  lemma CarriageReturnRead()
    ensures Newlines("a\rb") == "a\nb"
  {
    var s := "a\rb";
    assert s[0] == 'a' && s[1..] == "\rb";
    assert Newlines(s) == "a" + Newlines("\rb");
    assert "\rb"[1..] == "b";
    assert Newlines("\rb") == "\n" + Newlines("b");
    assert Newlines("b") == "b";
  }

  lemma TwoLinesSplit()
    ensures Split("a\nb", '\n') == ["a", "b"]
  {
    assert "a" + ['\n'] + "b" == "a\nb";
    SplitAfter("a", '\n', "b");
    SplitWithoutSeparator("b", '\n');
  }

  lemma TwoLinesKept()
    ensures NonBlank(["a", "b"]) == ["a", "b"]
  {
    assert !IsSpace('a') && !IsSpace('b');
    assert Strip("a") == "a";
    assert Strip("b") == "b";
    NonBlankComplete(["a", "b"]);
  }

  predicate Supported(ext: string) {
    ext in {".pdf", ".docx", ".doc", ".pptx", ".ppt", ".txt"}
  }

  /** `extract_text_from_file(path, ext)`: the text and the page,
      paragraph, slide or line count, or the error raised. The extension
      is lowered first. */
  method ExtractTextFromFile(file: FileView, ext: string) returns (r: Result<(string, nat)>)
    ensures !Supported(Lower(ext)) ==> r == Err("Unsupported file format: " + Lower(ext))
    ensures Lower(ext) == ".pdf" ==>
      r == if file.pdf.Err? then Err(file.pdf.message) else Ok((Join("\n", TextsOrEmpty(file.pdf.value)), |file.pdf.value|))
    ensures Lower(ext) in {".docx", ".doc"} ==>
      r == if file.docx.Err? then Err(WordError + file.docx.message) else Ok((Join("\n", NonBlank(file.docx.value)), |file.docx.value|))
    ensures Lower(ext) in {".pptx", ".ppt"} ==>
      r == if !file.present then Err(PowerPointError("File not found at path: " + file.path, Lower(ext)))
        else if file.size == 0 then Err(PowerPointError("PowerPoint file is empty or corrupted", Lower(ext)))
        else if file.pptx.Err? then Err(PowerPointError(file.pptx.message, Lower(ext)))
        else Ok((Join("\n", SlidesRuns(file.pptx.value)), |file.pptx.value|))
    ensures Lower(ext) == ".txt" ==>
      r == if !file.present then Err(NoSuchFile(file.path))
        else Ok((Newlines(file.text), NonBlankLineCount(Newlines(file.text))))
  {
    var e := Lower(ext);
    if e == ".pdf" {
      if file.pdf.Err? {
        return Err(file.pdf.message);
      }
      var texts := PdfPages(file.pdf.value);
      r := Ok((Join("\n", texts), |file.pdf.value|));
    } else if e in {".docx", ".doc"} {
      if file.docx.Err? {
        return Err(WordError + file.docx.message);
      }
      var paragraphs := AppendNonBlank([], file.docx.value);
      assert paragraphs == NonBlank(file.docx.value);
      r := Ok((Join("\n", paragraphs), |file.docx.value|));
    } else if e in {".pptx", ".ppt"} {
      if !file.present {
        return Err(PowerPointError("File not found at path: " + file.path, e));
      }
      if file.size == 0 {
        return Err(PowerPointError("PowerPoint file is empty or corrupted", e));
      }
      if file.pptx.Err? {
        return Err(PowerPointError(file.pptx.message, e));
      }
      var runs := PowerPointRuns(file.pptx.value);
      if runs == [] {
        return Ok(("", |file.pptx.value|));
      }
      r := Ok((Join("\n", runs), |file.pptx.value|));
    } else if e == ".txt" {
      if !file.present {
        return Err(NoSuchFile(file.path));
      }
      var content := Newlines(file.text);
      r := Ok((content, NonBlankLineCount(content)));
    } else {
      r := Err("Unsupported file format: " + e);
    }
  }

  /** Splitting a PDF's text at line feeds gives back its pages when no
      page text holds a line feed. */
  lemma PdfPagesRecoverable(pages: seq<Option<string>>)
    requires pages != []
    requires forall k :: 0 <= k < |pages| && pages[k].Some? ==> '\n' !in pages[k].value
    ensures Split(Join("\n", TextsOrEmpty(pages)), '\n') == TextsOrEmpty(pages)
  {
    var texts := TextsOrEmpty(pages);
    forall k | 0 <= k < |texts| ensures '\n' !in texts[k] {
      assert texts[k] == (if pages[k].Some? then pages[k].value else "");
    }
    assert "\n" == ['\n'];
    JoinSplit(texts, '\n');
  }

  // ----- The answer stream -----

  /** The prompt sent for `query` with the retrieved `context`. */
  function Prompt(query: string, context: string): (p: string)
    ensures |p| == |PromptHead| + |query| + |PromptMiddle| + |context| + |PromptRules|
    ensures p[|PromptHead|..|PromptHead| + |query|] == query
    ensures p[|PromptHead| + |query| + |PromptMiddle|..|PromptHead| + |query| + |PromptMiddle| + |context|] == context
  {
    PromptHead + query + PromptMiddle + context + PromptRules
  }

  const PromptHead := "\nYou are an expert assistant. Use ONLY the context below to answer.\n\nUSER QUERY:\n"
  const PromptMiddle := "\n\nCONTEXT:\n"
  const PromptRules := "\n\nRULES:\n- Only use the provided context.\n- If context is insufficient, respond: \"Not enough information in the document.\"\n"

  /** The streamed delta contents, a missing one read as empty, in order. */
  function Concat(deltas: seq<Option<string>>): string
    decreases |deltas|
  {
    if deltas == [] then "" else Concat(deltas[..|deltas| - 1]) + (if deltas[|deltas| - 1].Some? then deltas[|deltas| - 1].value else "")
  }

  /** The answer is as long as all deltas together. */
  lemma {:induction false} ConcatLength(deltas: seq<Option<string>>)
    ensures |Concat(deltas)| == TotalLength(TextsOrEmpty(deltas))
    decreases |deltas|
  {
    if deltas != [] {
      var init := deltas[..|deltas| - 1];
      ConcatLength(init);
      TotalLengthSnoc(TextsOrEmpty(init), TextsOrEmpty(deltas)[|deltas| - 1]);
      assert TextsOrEmpty(init) + [TextsOrEmpty(deltas)[|deltas| - 1]] == TextsOrEmpty(deltas);
    }
  }

  /** `generate_llm_answer`: the deltas of the stream concatenated, or the
      error text when the request or the stream raises `failure`. */
  method GenerateLlmAnswer(deltas: seq<Option<string>>, failure: Option<string>) returns (answer: string)
    ensures failure.None? ==> answer == Concat(deltas)
    ensures failure.Some? ==> answer == "Error generating answer: " + failure.value
  {
    if failure.Some? {
      return "Error generating answer: " + failure.value;
    }
    answer := "";
    for k := 0 to |deltas|
      invariant answer == Concat(deltas[..k])
    {
      assert deltas[..k + 1][..k] == deltas[..k];
      answer := answer + (if deltas[k].Some? then deltas[k].value else "");
    }
    assert deltas[..|deltas|] == deltas;
  }
}
