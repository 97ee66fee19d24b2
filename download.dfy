/** The decisions `download_file_from_url` makes once the response is in:
    which file extension the download gets, whether the downloaded bytes
    are accepted, and how its errors are worded. The HTTP exchange itself
    is not modelled; the response enters as its final URL, its two
    headers and its body. */
module Download {
  import opened Text
  import opened Wrappers
  import opened Urls

  /** What the model needs of the HTTP response: the URL after redirects,
      the `Content-Type` and `Content-Disposition` headers when present. */
  datatype Response = Response(finalUrl: string, contentType: Option<string>, contentDisposition: Option<string>)

  /** `headers.get(name, '')`. */
  function HeaderOr(h: Option<string>): string {
    if h.Some? then h.value else ""
  }

  /** The media types the handler knows, and their extensions. */
  const ContentTypes: map<string, string> := map[
    "application/pdf" := ".pdf",
    "application/vnd.openxmlformats-officedocument.wordprocessingml.document" := ".docx",
    "application/msword" := ".doc",
    "application/vnd.openxmlformats-officedocument.presentationml.presentation" := ".pptx",
    "application/vnd.ms-powerpoint" := ".ppt",
    "application/vnd.openxmlformats-officedocument.spreadsheetml.sheet" := ".xlsx",
    "text/plain" := ".txt"
  ]

  /** The extension a `Content-Type` value maps to: its media type is the
      text before the first `;`, taken as it is (no trimming, no case
      folding). */
  function ContentTypeExt(contentType: string): (r: Option<string>)
    ensures r.Some? ==> r.value in ContentTypes.Values && r.value != "" && r.value != ".aspx"
    ensures r.Some? <==> Split(contentType, ';')[0] in ContentTypes
  {
    var key := Split(contentType, ';')[0];
    if key in ContentTypes then Some(ContentTypes[key]) else None
  }

  /** Parameters after the media type never change the mapping. */
  lemma {:induction false} ContentTypeIgnoresParameters(mediaType: string, parameters: string)
    requires ';' !in mediaType
    ensures ContentTypeExt(mediaType + ";" + parameters) == ContentTypeExt(mediaType)
  {
    SplitHead(mediaType, parameters);
    SplitWithoutSeparator(mediaType, ';');
  }

  lemma {:induction false} SplitHead(head: string, tail: string)
    requires ';' !in head
    ensures Split(head + ";" + tail, ';')[0] == head
    decreases |head|
  {
    if head == [] {
      assert head + ";" + tail == [';'] + tail;
      assert (head + ";" + tail)[1..] == tail;
    } else {
      SplitHead(head[1..], tail);
      assert (head + ";" + tail)[1..] == head[1..] + ";" + tail;
    }
  }

  // ----- The Content-Disposition file name -----

  /** The first index at or after `k` that holds `;`, `=` or a line feed,
      or `|s|`: where `[^;=\n]*` stops. */
  function NameRunEnd(s: string, k: nat): (e: nat)
    requires k <= |s|
    ensures k <= e <= |s|
    ensures e < |s| ==> s[e] == ';' || s[e] == '=' || s[e] == '\n'
    ensures forall j :: k <= j < e ==> s[j] != ';' && s[j] != '=' && s[j] != '\n'
    decreases |s| - k
  {
    if k == |s| || s[k] == ';' || s[k] == '=' || s[k] == '\n' then k else NameRunEnd(s, k + 1)
  }

  /** The first index at or after `k` that holds whitespace or `;`, or
      `|s|`: where `[^\s;]+` stops. */
  function TokenEnd(s: string, k: nat): (e: nat)
    requires k <= |s|
    ensures k <= e <= |s|
    ensures e < |s| ==> IsSpace(s[e]) || s[e] == ';'
    ensures forall j :: k <= j < e ==> !IsSpace(s[j]) && s[j] != ';'
    decreases |s| - k
  {
    if k == |s| || IsSpace(s[k]) || s[k] == ';' then k else TokenEnd(s, k + 1)
  }

  /** The first `quote` at or after `k` with no line feed before it, the
      end of the lazy `.*?` followed by the same quote. */
  function ClosingQuote(s: string, quote: char, k: nat): (r: Option<nat>)
    requires k <= |s|
    ensures r.Some? ==> k <= r.value < |s| && s[r.value] == quote
    ensures r.Some? ==> forall j :: k <= j < r.value ==> s[j] != quote && s[j] != '\n'
    decreases |s| - k
  {
    if k == |s| || s[k] == '\n' then None
    else if s[k] == quote then Some(k)
    else ClosingQuote(s, quote, k + 1)
  }

  /** Group 1 of the pattern, matched from index `v` just after the `=`:
      a quoted value up to the same quote on the same line, or else a run
      of characters other than whitespace and `;`. */
  function ValueAt(s: string, v: nat): (r: Option<string>)
    requires v <= |s|
    ensures r.Some? ==> r.value != []
  {
    if v < |s| && (s[v] == '"' || s[v] == '\'') && ClosingQuote(s, s[v], v + 1).Some? then
      Some(s[v..ClosingQuote(s, s[v], v + 1).value + 1])
    else
      var e := TokenEnd(s, v);
      if e > v then Some(s[v..e]) else None
  }

  const FilenameKey := "filename"

  /** The pattern `filename[^;=\n]*=((['"]).*?\2|[^\s;]+)` tried at
      index `p`: it matches only when the run after `filename` ends in
      `=`. */
  function MatchAt(s: string, p: nat): Option<string>
    requires OccursAt(s, FilenameKey, p)
  {
    var e := NameRunEnd(s, p + |FilenameKey|);
    if e < |s| && s[e] == '=' then ValueAt(s, e + 1) else None
  }

  /** `re.search` of the pattern from index `p`: the match at the leftmost
      index where one exists. */
  function SearchFilename(s: string, p: nat): (r: Option<string>)
    ensures r.Some? ==> r.value != []
    decreases |s| - p
  {
    if p + |FilenameKey| > |s| then None
    else if OccursAt(s, FilenameKey, p) && MatchAt(s, p).Some? then MatchAt(s, p)
    else SearchFilename(s, p + 1)
  }

  predicate IsQuote(c: char) {
    c == '\'' || c == '"'
  }

  /** `s.strip('\'"')`. */
  function StripQuotes(s: string): (r: string)
    ensures |r| <= |s|
    ensures r != [] ==> !IsQuote(r[0]) && !IsQuote(r[|r| - 1])
    decreases |s|
  {
    if |s| > 0 && IsQuote(s[0]) then StripQuotes(s[1..])
    else if |s| > 0 && IsQuote(s[|s| - 1]) then StripQuotes(s[..|s| - 1])
    else s
  }

  /** The extension read from `Content-Disposition`, or `current` when
      the header has no `filename=` or the pattern finds nothing. */
  function DispositionExt(disposition: string, current: string): (r: string)
    ensures r == current || r == [] || r[0] == '.'
  {
    if !Contains(disposition, "filename=") then current
    else
      match SearchFilename(disposition, 0)
      case None => current
      case Some(group) => SplitExt(StripQuotes(group)).1
  }

  /** Scanning passes over every index before the first `filename`. */
  lemma {:induction false} SearchSkips(s: string, p: nat, q: nat)
    requires p <= q
    requires forall j :: p <= j < q ==> !OccursAt(s, FilenameKey, j)
    ensures SearchFilename(s, p) == SearchFilename(s, q)
    decreases q - p
  {
    if p < q {
      SearchSkips(s, p + 1, q);
    }
  }

  /** A quoted `filename="name"` is found whole when no `filename` comes
      before it. */
  lemma QuotedFilenameFound(s: string, p: nat, name: string)
    requires p + 10 + |name| + 1 <= |s|
    requires s[p..p + 10 + |name| + 1] == "filename=\"" + name + "\""
    requires '"' !in name && '\n' !in name
    ensures OccursAt(s, FilenameKey, p)
    ensures MatchAt(s, p) == Some("\"" + name + "\"")
  {
    var t := "filename=\"" + name + "\"";
    assert s[p..p + 8] == t[..8] == FilenameKey;
    assert s[p + 8] == t[8] == '=';
    assert NameRunEnd(s, p + 8) == p + 8;
    var v := p + 9;
    assert s[v] == t[9] == '"';
    var close := v + 1 + |name|;
    assert s[close] == t[10 + |name|] == '"';
    assert forall j :: v + 1 <= j < close ==> s[j] == name[j - v - 1];
    assert ClosingQuote(s, '"', v + 1) == Some(close) by {
      ClosingQuoteAt(s, '"', v + 1, close);
    }
    assert s[v..close + 1] == t[9..];
    assert t[9..] == "\"" + name + "\"";
    assert ValueAt(s, v) == Some(s[v..close + 1]);
  }

  lemma {:induction false} ClosingQuoteAt(s: string, quote: char, k: nat, close: nat)
    requires quote != '\n'
    requires k <= close < |s| && s[close] == quote
    requires forall j :: k <= j < close ==> s[j] != quote && s[j] != '\n'
    ensures ClosingQuote(s, quote, k) == Some(close)
    decreases close - k
  {
    if k < close {
      ClosingQuoteAt(s, quote, k + 1, close);
    }
  }

  /** `Content-Disposition: ...; filename="name"` gives the extension of
      `name`, when no earlier `filename` is in the header and the name
      holds no quote or line feed. */
  lemma QuotedFilenameExt(s: string, p: nat, name: string, current: string)
    requires p + 10 + |name| + 1 <= |s|
    requires s[p..p + 10 + |name| + 1] == "filename=\"" + name + "\""
    requires forall j :: 0 <= j < p ==> !OccursAt(s, FilenameKey, j)
    requires '"' !in name && '\n' !in name && '\'' !in name
    ensures DispositionExt(s, current) == SplitExt(name).1
  {
    QuotedFilenameFound(s, p, name);
    SearchSkips(s, 0, p);
    assert OccursAt(s, "filename=", p) by {
      assert s[p..p + 9] == ("filename=\"" + name + "\"")[..9];
    }
    StripQuotesOfQuoted(name);
  }

  lemma StripQuotesOfQuoted(name: string)
    requires '"' !in name && '\'' !in name
    ensures StripQuotes("\"" + name + "\"") == name
  {
    var q := "\"" + name + "\"";
    var r := name + "\"";
    assert q[1..] == r;
    assert StripQuotes(q) == StripQuotes(r);
    assert r[..|name|] == name;
    if name != [] {
      assert !IsQuote(name[0]) && !IsQuote(name[|name| - 1]);
      assert r[0] == name[0];
      assert StripQuotes(r) == StripQuotes(name);
    } else {
      assert r[1..] == [];
      assert StripQuotes(r) == StripQuotes([]);
    }
  }

  // ----- Extension resolution -----

  /** An extension the handler does not accept as final. */
  predicate Unresolved(ext: string) {
    ext == "" || ext == ".aspx"
  }

  /** The extension `convert_sharepoint_url` found, when it is non-empty. */
  predicate Detected(detected: Option<string>) {
    detected.Some? && detected.value != ""
  }

  const CouldNotDetermine := "Could not determine file type from URL. Please ensure the URL points directly to a document file (PDF, Word, PowerPoint, or Text)."

  /** The extension before the header fallbacks: that of the final URL's
      path, or the detected one when the path has none. */
  function PathExt(parsed: ParseResult, detected: Option<string>): string {
    var fromPath := SplitExt(parsed.path).1;
    if Detected(detected) && fromPath == "" then detected.value else fromPath
  }

  /** The extension after the header fallbacks. */
  function HeaderExt(response: Response, detected: Option<string>, ext: string): string {
    if !Unresolved(ext) then ext
    else
      match ContentTypeExt(HeaderOr(response.contentType))
      case Some(mapped) => mapped
      case None =>
        if Detected(detected) then detected.value
        else DispositionExt(HeaderOr(response.contentDisposition), ext)
  }

  /** The extension `download_file_from_url` settles on. An error is
      raised when `urlparse` rejects the final URL or no source gives an
      extension; a detected `.aspx` is accepted as it is. */
  function ResolveExtension(response: Response, detected: Option<string>): (r: Result<string>)
    ensures r.Ok? ==> !Unresolved(r.value) || (Detected(detected) && r.value == detected.value)
    ensures r.Err? ==> r.message == CouldNotDetermine || r.message == "Invalid IPv6 URL"
    ensures r.Err? && r.message == CouldNotDetermine ==> !Detected(detected)
    ensures UrlParse(response.finalUrl).Err? <==> r == Err("Invalid IPv6 URL")
  {
    match UrlParse(response.finalUrl)
    case Err(e) => Err(e)
    case Ok(parsed) =>
      var ext := HeaderExt(response, detected, PathExt(parsed, detected));
      if !Unresolved(ext) then Ok(ext)
      else if Detected(detected) then Ok(detected.value)
      else Err(CouldNotDetermine)
  }

  /** An extension in the final URL's path wins over every header. */
  lemma PathExtensionWins(response: Response, detected: Option<string>)
    requires UrlParse(response.finalUrl).Ok?
    requires !Unresolved(SplitExt(UrlParse(response.finalUrl).value.path).1)
    ensures ResolveExtension(response, detected) == Ok(SplitExt(UrlParse(response.finalUrl).value.path).1)
  {
  }

  /** When the path gives nothing usable, a known `Content-Type` decides. */
  lemma ContentTypeDecides(response: Response, detected: Option<string>)
    requires UrlParse(response.finalUrl).Ok?
    requires Unresolved(PathExt(UrlParse(response.finalUrl).value, detected))
    requires ContentTypeExt(HeaderOr(response.contentType)).Some?
    ensures ResolveExtension(response, detected) == Ok(ContentTypeExt(HeaderOr(response.contentType)).value)
  {
  }

  /** The error is raised exactly when the URL parses, nothing was
      detected, the path and the `Content-Type` give nothing and the
      `Content-Disposition` file name gives nothing usable either. */
  lemma CouldNotDetermineExactly(response: Response, detected: Option<string>)
    ensures ResolveExtension(response, detected) == Err(CouldNotDetermine) <==>
      (UrlParse(response.finalUrl).Ok?
        && !Detected(detected)
        && Unresolved(SplitExt(UrlParse(response.finalUrl).value.path).1)
        && ContentTypeExt(HeaderOr(response.contentType)).None?
        && Unresolved(DispositionExt(HeaderOr(response.contentDisposition), SplitExt(UrlParse(response.finalUrl).value.path).1)))
  {
  }

  /** With no usable path extension, no detected one and no known
      `Content-Type`, the `filename=` of `Content-Disposition` decides:
      its extension is the result unless it is empty or `.aspx`. */
  lemma DispositionDecides(response: Response, detected: Option<string>)
    requires UrlParse(response.finalUrl).Ok?
    requires !Detected(detected)
    requires Unresolved(PathExt(UrlParse(response.finalUrl).value, detected))
    requires ContentTypeExt(HeaderOr(response.contentType)).None?
    ensures var d := DispositionExt(HeaderOr(response.contentDisposition), PathExt(UrlParse(response.finalUrl).value, detected));
      ResolveExtension(response, detected) == if Unresolved(d) then Err(CouldNotDetermine) else Ok(d)
  {
  }

  /** A detected extension fills an empty path extension, and then stands
      whatever the headers say unless it is `.aspx`. */
  lemma DetectedFillsEmptyPath(response: Response, detected: Option<string>)
    requires UrlParse(response.finalUrl).Ok?
    requires Detected(detected) && !Unresolved(detected.value)
    requires SplitExt(UrlParse(response.finalUrl).value.path).1 == ""
    ensures ResolveExtension(response, detected) == Ok(detected.value)
  {
  }

  /** When the path gives nothing usable and the `Content-Type` is not
      known, a detected extension is the result, even `.aspx`: the
      `Content-Disposition` header is then never read. */
  lemma DetectedDecides(response: Response, detected: Option<string>)
    requires UrlParse(response.finalUrl).Ok?
    requires Detected(detected)
    requires Unresolved(SplitExt(UrlParse(response.finalUrl).value.path).1)
    requires ContentTypeExt(HeaderOr(response.contentType)).None?
    ensures ResolveExtension(response, detected) == Ok(detected.value)
  {
  }

  lemma {:induction false} TokenEndAt(s: string, k: nat, e: nat)
    requires k <= e <= |s|
    requires forall j :: k <= j < e ==> !IsSpace(s[j]) && s[j] != ';'
    requires e == |s| || IsSpace(s[e]) || s[e] == ';'
    ensures TokenEnd(s, k) == e
    decreases e - k
  {
    if k < e {
      TokenEndAt(s, k + 1, e);
    }
  }

  /** An unquoted `filename=name` is found whole when no `filename` comes
      before it and the name ends at whitespace, `;` or the header's end. */
  lemma UnquotedFilenameFound(s: string, p: nat, name: string)
    requires name != [] && p + 9 + |name| <= |s|
    requires s[p..p + 9 + |name|] == "filename=" + name
    requires forall i :: 0 <= i < |name| ==> !IsSpace(name[i]) && name[i] != ';' && !IsQuote(name[i])
    requires p + 9 + |name| == |s| || IsSpace(s[p + 9 + |name|]) || s[p + 9 + |name|] == ';'
    ensures OccursAt(s, FilenameKey, p)
    ensures MatchAt(s, p) == Some(name)
  {
    var t := "filename=" + name;
    assert s[p..p + 8] == t[..8] == FilenameKey;
    assert s[p + 8] == t[8] == '=';
    assert NameRunEnd(s, p + 8) == p + 8;
    var v := p + 9;
    assert forall j :: v <= j < v + |name| ==> s[j] == name[j - v];
    assert s[v] == name[0];
    TokenEndAt(s, v, v + |name|);
    assert s[v..v + |name|] == t[9..] == name;
  }

  /** `Content-Disposition: ...; filename=name` gives the extension of
      `name` when the name is a bare token: no whitespace, `;` or quote
      in it, and no earlier `filename` in the header. */
  lemma UnquotedFilenameExt(s: string, p: nat, name: string, current: string)
    requires name != [] && p + 9 + |name| <= |s|
    requires s[p..p + 9 + |name|] == "filename=" + name
    requires forall i :: 0 <= i < |name| ==> !IsSpace(name[i]) && name[i] != ';' && !IsQuote(name[i])
    requires p + 9 + |name| == |s| || IsSpace(s[p + 9 + |name|]) || s[p + 9 + |name|] == ';'
    requires forall j :: 0 <= j < p ==> !OccursAt(s, FilenameKey, j)
    ensures DispositionExt(s, current) == SplitExt(name).1
  {
    UnquotedFilenameFound(s, p, name);
    SearchSkips(s, 0, p);
    assert OccursAt(s, "filename=", p) by {
      assert s[p..p + 9] == ("filename=" + name)[..9];
    }
    assert StripQuotes(name) == name;
  }

  // ----- Validation of the downloaded bytes -----

  /** The bytes of an ASCII literal. */
  function AsciiBytes(s: string): (r: seq<byte>)
    requires forall i :: 0 <= i < |s| ==> IsAscii(s[i])
    ensures |r| == |s| && forall i :: 0 <= i < |s| ==> r[i] == s[i] as int
    decreases |s|
  {
    if s == [] then []
    else
      assert IsAscii(s[0]);
      var b: byte := s[0] as int;
      [b] + AsciiBytes(s[1..])
  }

  /** `bytes.lower()`: only the ASCII capitals change. */
  function LowerBytes(bs: seq<byte>): (r: seq<byte>)
    ensures |r| == |bs|
    ensures forall i :: 0 <= i < |bs| ==> r[i] == (if 0x41 <= bs[i] <= 0x5A then bs[i] + 0x20 else bs[i])
    decreases |bs|
  {
    if bs == [] then []
    else
      var b: byte := if 0x41 <= bs[0] <= 0x5A then bs[0] + 0x20 else bs[0];
      [b] + LowerBytes(bs[1..])
  }

  predicate BytesAt(bs: seq<byte>, sub: seq<byte>, i: int) {
    0 <= i && i + |sub| <= |bs| && bs[i..i + |sub|] == sub
  }

  /** `sub in bs` for byte strings. */
  predicate ContainsBytes(bs: seq<byte>, sub: seq<byte>) {
    exists i | 0 <= i <= |bs| - |sub| :: BytesAt(bs, sub, i)
  }

  /** A small download whose lowered bytes hold an HTML or ASP tag. */
  predicate LooksLikeWebPage(contents: seq<byte>) {
    |contents| < 1024 &&
    var lowered := LowerBytes(contents);
    ContainsBytes(lowered, AsciiBytes("<html")) || ContainsBytes(lowered, AsciiBytes("<asp"))
    || ContainsBytes(lowered, AsciiBytes("<!doctype"))
  }

  /** A file that does not start with the ZIP signature `PK`. */
  predicate LacksZipSignature(contents: seq<byte>) {
    contents[..Min(2, |contents|)] != AsciiBytes("PK")
  }

  const EmptyDownload := "Downloaded file is empty. The URL may require authentication or the file may not be accessible."
  const WebPageDownload := "Downloaded content appears to be a web page (HTML/ASPX) rather than a document file. This usually means the URL requires authentication. Please try: 1) Getting a direct download link from SharePoint, or 2) Downloading the file manually and uploading from your computer."
  const NotPowerPoint := "Downloaded file does not appear to be a valid PowerPoint file. The file may be corrupted or the URL may not point to the actual file."

  /** The error the checks on the downloaded bytes raise, if any: the
      first of empty, web page, and `.pptx` without the ZIP signature. */
  function ValidateDownload(contents: seq<byte>, ext: string): (r: Option<string>)
    ensures r.None? <==> |contents| > 0 && !LooksLikeWebPage(contents) && (Lower(ext) == ".pptx" ==> !LacksZipSignature(contents))
    ensures r.Some? ==> r.value in {EmptyDownload, WebPageDownload, NotPowerPoint}
    ensures r == Some(NotPowerPoint) ==> Lower(ext) == ".pptx"
  {
    if |contents| == 0 then Some(EmptyDownload)
    else if LooksLikeWebPage(contents) then Some(WebPageDownload)
    else if Lower(ext) == ".pptx" && LacksZipSignature(contents) then Some(NotPowerPoint)
    else None
  }

  /** A `.pptx` download starting with `PK` and too large to be taken
      for a web page passes every check. */
  lemma ZipPowerPointAccepted(contents: seq<byte>, ext: string)
    requires |contents| >= 1024 && contents[..2] == AsciiBytes("PK")
    ensures ValidateDownload(contents, ext) == None
  {
  }

  /** A one-byte `.pptx` download cannot carry the signature and is refused
      unless it was already refused as a web page. */
  lemma OneBytePowerPointRefused(b: byte)
    ensures ValidateDownload([b], ".pptx") != None
  {
    assert Lower(".pptx") == ".pptx";
    assert [b][..Min(2, 1)] == [b];
  }

  const ErrorPrefix := "Error processing URL: "

  /** `download_file_from_url` after the response has arrived: the
      extension the file is saved under, or the error it raises. `url` is
      the address the user gave. */
  function DownloadFileFromUrl(url: string, response: Response, contents: seq<byte>): (r: Result<string>)
    ensures r.Err? ==> |r.message| >= |ErrorPrefix| && r.message[..|ErrorPrefix|] == ErrorPrefix
    ensures r.Ok? ==> |contents| > 0 && !LooksLikeWebPage(contents)
    ensures r.Ok? && Lower(r.value) == ".pptx" ==> !LacksZipSignature(contents)
    ensures r.Ok? ==> !Unresolved(r.value) || (Detected(ConvertSharepointUrl(url).1) && r.value == ConvertSharepointUrl(url).1.value)
    ensures var resolved := ResolveExtension(response, ConvertSharepointUrl(url).1);
      && (r.Ok? <==> resolved.Ok? && ValidateDownload(contents, resolved.value).None?)
      && (r.Ok? ==> r.value == resolved.value)
      && (r.Err? ==> r.message == ErrorPrefix + (if resolved.Err? then resolved.message
                                                 else ValidateDownload(contents, resolved.value).value))
  {
    var detected := ConvertSharepointUrl(url).1;
    match ResolveExtension(response, detected)
    case Err(e) => Err(ErrorPrefix + e)
    case Ok(ext) =>
      match ValidateDownload(contents, ext)
      case Some(e) => Err(ErrorPrefix + e)
      case None => Ok(ext)
  }
}
