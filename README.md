# Basic-RAG core, modelled in Dafny

Basic-RAG is a retrieval-augmented question-answering app. A Streamlit
upload handler (`app.py`) and a command-line ingester (`ingest.py`) turn
documents into text. They cut the text into overlapping chunks, embed
each chunk and store the vectors in a Qdrant collection. Answers are
generated by an LLM from the retrieved chunks. This project models the
logic between those external services and proves what that logic
promises:

- `chunking.dfy` (`Chunking`): the upload handler's chunking loop, which
  keeps raw slices, and the ingester's `chunk_text`, which strips each
  slice and drops the blank ones. Both are loops proved against a
  specification by offsets, with count, bound, order and
  reconstruction lemmas.
- `retry.dfy` (`Retry`): the error classification by lower-cased
  keywords, the `retry_qdrant_operation` decorator as a loop over an
  abstract sequence of outcomes, and the upload's hand-written `upsert`
  retry loop. Sleeps are recorded as a list of delays.
- `store.dfy` (`Store`): the upload handler's `ensure_collection_exists`
  decision procedure. The ingester's side is modelled as a vector store
  class (`create_collection`, `upsert`), plus the point-building loop of
  `store_chunks` and the `load_model` cache.
- `urls.dfy` (`Urls`): the parts of Python's `urllib.parse` that
  `convert_sharepoint_url` uses:
  - `urlparse` in its Python 3.12 form;
  - `parse_qs`;
  - `quote`/`unquote` with UTF-8;
  - POSIX `os.path.splitext`.

  It also holds the SharePoint link rewrite itself.
- `download.dfy` (`Download`): in `download_file_from_url`,
  - the extension resolution (final URL path, then SharePoint-detected
    extension, then `Content-Type`, then the `filename=` of
    `Content-Disposition` matched as its regular expression does);
  - the checks on the downloaded bytes;
  - the error wrapping.
- `extract.dfy` (`Extraction`):
  - the format dispatch of `extract_text_from_file` over abstract
    reader outputs (page texts, paragraph texts, slides of shapes, file
    text);
  - the ingester's `load_pdf_text`;
  - the prompt and the stream concatenation of `generate_llm_answer`.
- `text.dfy` (`Text`) and `wrappers.dfy` (`Wrappers`): Python string
  primitives (`isspace`, `strip`, `lower`, `in`, `find`, `split`,
  `join`), and `Option`/`Result`.

Remote services enter as parameters:
- attempt-indexed outcome functions (`nat -> Result<T>` or
  `nat -> Option<string>`) for Qdrant calls;
- the response's final URL, headers and body for downloads;
- reader outputs for documents;
- a list of stream deltas and an optional failure for the LLM;
- an opaque `embed` function for the embedding model.

The code at `app.py:913-916` visits every offset below `L`, the text's
length, so it makes `ceil(L / (size - overlap))` chunks. It does not make
`ceil((L - overlap) / (size - overlap))`, a count one might expect when a
last chunk that falls wholly inside its predecessor's overlap is skipped.
`Chunking.DefaultsOn450` shows the difference: 450 characters give two
chunks, not one.

## Model

| member | source | states |
|---|---|---|
| Chunking.SliceChunks | app.py:910-916 | The upload loop emits exactly `ceil(len(full_text) / (chunk_size - overlap))` chunks. Chunk `k` is the Python slice `full_text[k*step : k*step + chunk_size]`. |
| Chunking.OffsetInside | app.py:913-916 | Chunk `k` is visited exactly when its offset `k*step` lies before the end of the text. |
| Chunking.CeilDivIsCeiling | app.py:913-916 | The chunk count is a ceiling: `count*step >= len`, and for non-empty text `(count-1)*step < len`. |
| Chunking.SlicesStitch | app.py:913-916 | Chunk 0, followed by every later chunk without its first `overlap` characters, concatenates back to the text exactly. |
| Chunking.ChunkText | ingest.py:57-66 | `chunk_text` returns the stripped raw slices, in order, with the blank ones dropped. |
| Chunking.NonBlankStrippedIsFilter | ingest.py:62-64 | Kept chunk `j` is the strip of the raw slice at the `j`-th of strictly increasing indices. Every slice not kept strips to the empty string. |
| Chunking.NonBlankStrippedTrimmed | ingest.py:62-64 | No emitted chunk is empty, and none has whitespace at either end. |
| Chunking.ChunkTextShape | ingest.py:59-65 | There are at most `ceil(len/step)` chunks. Each is `text[start:start+chunk_size].strip()` for an offset `start = k*step < len`, and is at most `chunk_size` long. |
| Chunking.ChunkTextEmptyIffBlank | ingest.py:58-66 | With `0 <= overlap < size`, `chunk_text` returns `[]` exactly when the text is empty or all whitespace. |
| Chunking.DefaultsOn1200 | ingest.py:57-65 | With the defaults 500/100, a 1200-character text is sliced at offsets 0, 400 and 800. |
| Chunking.DefaultsOn450 | ingest.py:57-65 | With the defaults, a 450-character text gives two slices: the whole text, then its last 50 characters. |
| Retry.ClassificationFacts | app.py:151-158 | Every timeout/handshake/SSL error is also retryable for the decorator. All three classifications ignore letter case. |
| Retry.KelvinSignHandshake | app.py:151-158 | "HANDSHA" + U+212A + "E" is retryable and a timeout, because `lower()` turns the Kelvin sign into `k`. |
| Retry.RetryQdrantOperation | app.py:140-166 | The wrapper loop's result, number of calls and list of sleeps equal those of the recursive run `RetryRun`. This includes the `ValueError` that `time.sleep` raises for a negative length. |
| Retry.RetryRunSpec | app.py:146-164 | The operation is called between 1 and `max_retries` times. Every call but the last failed with a retryable error and was followed by a sleep of `delay*(k+1)`. With `delay >= 0`, the caller gets the last call's outcome unchanged, and an error is returned only if it is not retryable or no attempt was left. With `delay < 0`, a retryable first failure before the last attempt escapes as "sleep length must be non-negative" after one call and no sleep; otherwise the first outcome is returned. With `max_retries <= 0`, `raise None` fails. |
| Retry.FirstOutcomeFinal | app.py:148-164 | A first call that succeeds, or fails without a retryable error, ends the wrapper after one call and no sleep. |
| Retry.TwoRetryableFailures | app.py:146-164 | Two retryable failures followed by a success make three calls, sleeping 2 s and 4 s with the defaults, and return the success. |
| Retry.UpsertWithRetry | app.py:935-991 | The upload's upsert loop raises the same error and makes the same sequence of upsert, create and sleep calls as the recursive run `UpsertLoop`. |
| Retry.UpsertLoopCount | app.py:935-939 | `upsert` is called at most three times. |
| Retry.UpsertLoopCalls | app.py:939-985 | Every call belongs to one of the three attempts. Every sleep lasts 2 s or 4 s. |
| Retry.UpsertLoopOutcome | app.py:939-991 | The points are stored exactly when one of the `upsert` calls succeeds. An error that escapes is always the error of one of the `upsert` calls. |
| Retry.UpsertLoopCreates | app.py:958-970 | `create_collection` is called in attempt `k` exactly when that attempt's `upsert` failed with a "not found" / "doesn't exist" / "404" error. |
| Retry.RaisePermanentRetriesOnlyTransient | app.py:980-988 | In the corrected loop, `upsert` is tried again only after a transient or a "not found" error. |
| Retry.PermanentErrorRetriedAsWritten | app.py:980-988 | As written, an error that is neither transient nor "not found" is retried twice without a pause, and then raised. |
| Retry.PermanentErrorRaisedAtOnce | app.py:986-988 | Raising such an error at once makes one `upsert` call. |
| Retry.CreatedOnLastAttemptStillRaises | app.py:958-993 | With "not found" on every attempt and successful creates, the collection is created three times and the last "not found" error still escapes. |
| Store.EnsureCollectionExists | app.py:171-228 | Returns false exactly when there is no client. `create_collection` is called exactly when `get_collection` failed without a timeout. An error is shown exactly when not silent and the create error is neither "already exists", "collection … exists" nor a timeout. |
| Store.SilentShowsNothing | app.py:171-228 | The silent call made before each upload never shows an error. |
| Store.VectorStore.CreateCollection | ingest.py:83-95 | Creates the collection only when it does not exist. The new collection is empty, with `VECTOR_SIZE` and cosine distance. |
| Store.CreateIdempotent | ingest.py:84-86 | A second `create_collection` changes nothing. |
| Store.CreateAddsOne | ingest.py:89-95 | Creation adds exactly the one name and leaves every other collection unchanged. The new one has the requested size, cosine distance and no points. |
| Store.VectorStore.Upsert | ingest.py:112-115 | Stores each point of the batch under its id in an existing collection. Fails without change when the collection is missing or when any vector's length is not the collection's vector size. |
| Store.BuildPoints | ingest.py:101-110 | One point per chunk. Point `i` has id `i`, the embedding of chunk `i` and chunk `i` as its text. |
| Store.UpsertByPosition | ingest.py:101-115 | After upserting a batch whose ids are its positions, id `i` holds batch entry `i`, and no higher id changes. |
| Store.StoreChunks | ingest.py:98-115 | The chunks are stored exactly when the collection exists and every chunk's embedding has its vector size. On success, every chunk `i` is stored as point `i` with its embedding and text. The set of collections, every other collection, the target's vector parameters and every point with an id of at least `len(chunks)` are unchanged, and no such id is added. On failure, nothing changes. |
| Store.CreateAndStore | ingest.py:133-137 | After `create_collection` and `store_chunks`, the collection exists with its old parameters, or with `VECTOR_SIZE` and cosine distance if it was new. The chunks are stored, as points `0..len(chunks)-1`, exactly when every embedding has that collection's size, so a new collection and embeddings of `VECTOR_SIZE` always store them. Every other collection is unchanged. |
| Store.ModelCache.LoadModel | ingest.py:24-30 | The first call loads the model and sets `VECTOR_SIZE` to its dimension. Later calls return the cached model and change nothing. |
| Urls.UrlSplit | app.py:319 | The parts never hold their delimiters, and the scheme is scheme characters starting with a letter. Tab/CR/LF never survive in netloc or path. A bracket-free URL always parses. The only error is "Invalid IPv6 URL". |
| Urls.UrlParse | app.py:319 | Agrees with `urlsplit` on success, scheme, netloc, query and fragment. Its path has no `?` or `#`. |
| Urls.FirstValue | app.py:320-323 | `parse_qs(q).get(name, [None])[0]` is the value of the first pair named `name`, and is absent exactly when no pair has that name. |
| Urls.Quote | app.py:343 | `quote(s, safe='')` writes only letters, digits, `_.-~` and `%`. |
| Urls.Utf8RoundTrip | app.py:343 | UTF-8 decoding undoes UTF-8 encoding. |
| Urls.UnquoteQuote | app.py:328 | `unquote(quote(s, safe=''))` is `s` for every string. |
| Urls.QueryRoundTrip | app.py:320-323 | `parse_qsl` of `name=quote(value)` gives back `(name, value)` for a plain name and a non-empty value. |
| Urls.SplitExt | app.py:329 | The stem and extension concatenate to the path. A non-empty extension starts with its only `.` and holds no `/`. |
| Urls.SplitExtJoin | app.py:329 | `stem + "." + ext` splits into exactly that stem and extension. |
| Urls.ConvertSharepointUrl | app.py:314-361 | A URL without "sharepoint.com" (any case), or one `urlparse` rejects, comes back unchanged with no extension. A detected extension is empty or starts with `.` and holds no `/`. |
| Urls.DownloadLinkCarriesSourceUrl | app.py:333-346 | The `download.aspx` link made for a bracket-free viewer URL parses again, and its `SourceUrl` query parameter decodes to the original URL exactly. |
| Urls.FileLinkNamesFile | app.py:349-355 | A non-viewer URL naming a file becomes the site prefix plus one quoted path segment that unquotes back to the file name. The extension returned is that name's. |
| Download.ContentTypeExt | app.py:438-448 | The mapped extension is one of the seven table entries, and is never empty or `.aspx`. It exists exactly when the text before the first `;` is a key. |
| Download.ContentTypeIgnoresParameters | app.py:448 | Parameters after the media type's `;` never change the extension. |
| Download.QuotedFilenameExt | app.py:455-461 | A header with `filename="name"`, no earlier `filename` and no quotes or line feeds in the name gives `splitext(name)[1]`. |
| Download.DispositionExt | app.py:455-461 | The result is the current extension, empty, or starts with `.`. |
| Download.UnquotedFilenameExt | app.py:455-461 | A header with a bare `filename=name` (no whitespace, `;` or quotes in the name, which ends at whitespace, `;` or the header's end) and no earlier `filename` gives `splitext(name)[1]`. |
| Download.ResolveExtension | app.py:428-468 | A resolved extension is neither empty nor `.aspx` unless it is the SharePoint-detected one. The only errors are "Invalid IPv6 URL" (and only for a URL `urlparse` rejects) and "Could not determine file type …", raised only when nothing was detected. |
| Download.PathExtensionWins | app.py:429-437 | A usable extension in the final URL's path wins over every header. |
| Download.ContentTypeDecides | app.py:437-450 | When the path gives no usable extension, a known `Content-Type` decides. |
| Download.DispositionDecides | app.py:451-468 | With no usable path extension, nothing detected and no known `Content-Type`, the `Content-Disposition` file name's extension is the result, or "Could not determine file type …" when it is empty or `.aspx`. |
| Download.DetectedFillsEmptyPath | app.py:429-433 | When the path has no extension, a detected extension other than `.aspx` is the result whatever the headers say. |
| Download.DetectedDecides | app.py:436-468 | When the path gives no usable extension and the `Content-Type` is not known, a detected extension is the result, `.aspx` included, and `Content-Disposition` is not consulted. |
| Download.CouldNotDetermineExactly | app.py:437-468 | "Could not determine file type" is raised exactly when the URL parses and no source (detected, path, `Content-Type`, `Content-Disposition`) gives a usable extension. |
| Download.ValidateDownload | app.py:479-498 | The bytes are accepted exactly when the file is non-empty and is not a sub-1 KiB page holding `<html`, `<asp` or `<!doctype` in any case, and a `.pptx` (any case) also starts with `PK`. A PowerPoint error arises only for `.pptx`. |
| Download.ZipPowerPointAccepted | app.py:492-498 | A `.pptx` of at least 1 KiB that starts with `PK` passes every check. |
| Download.OneBytePowerPointRefused | app.py:493-498 | A one-byte `.pptx` is always refused. |
| Download.DownloadFileFromUrl | app.py:428-504 | The download is accepted exactly when the extension resolves and the bytes pass validation, and the extension returned is the resolved one. Otherwise the error is "Error processing URL: " plus the resolution's or the validation's message. An accepted download is non-empty, not a web page, starts with `PK` when `.pptx`, and has a usable or SharePoint-detected extension. |
| Extraction.NonBlankSpec | app.py:527-529 | Kept part `j` is `parts[idx[j]]` for strictly increasing positions `idx`, and every part at another position is blank. So the non-blank parts are kept in order, with their repetitions. Every kept part is non-blank. Nothing is dropped when no part is blank. |
| Extraction.AppendNonBlank | app.py:527-529 | The loop appends exactly the non-blank parts, in order. |
| Extraction.PdfPages | app.py:516-519 | The page texts are gathered in order, with a missing text read as `""`. |
| Extraction.PdfPagesRecoverable | app.py:520 | When no page holds a line feed, splitting the joined PDF text at line feeds gives back the pages. |
| Extraction.LoadPdfText | ingest.py:44-50 | The text is each page's text followed by `"\n"`. Its length is the sum of the page lengths plus the page count. |
| Extraction.TerminatedIsJoinPlusNewline | ingest.py:46-50 | For at least one page, the ingester's text is the upload handler's `"\n".join(pages)` plus a final line feed. |
| Extraction.PowerPointRuns | app.py:552-562 | The runs are gathered slide by slide and shape by shape: each shape's non-blank text, then its table's non-blank cells row by row. |
| Extraction.SlidesRunsNonBlank | app.py:552-562 | No gathered run is blank. |
| Extraction.PowerPointError | app.py:568-575 | The message always ends with the reader's error. It starts with "Invalid PowerPoint file" exactly when the error holds "Package not found" or, in any case, "not a zip file" (and is then the full invalid-file message). It starts with "Error reading PowerPoint file. Legacy .ppt format" exactly when that test fails and the extension is `.ppt`. Otherwise it is "Error reading PowerPoint file: " plus the error. |
| Extraction.NonBlankLineCount | app.py:581-582 | At most one more than the number of line feeds. For a single line, it is 1 if the line is non-blank and 0 otherwise. |
| Extraction.Newlines | app.py:579-580 | Text mode leaves no carriage return in the content, and text without one is read unchanged. |
| Extraction.NewlinesPlain | app.py:579-580 | Text without a carriage return passes through unchanged whatever follows it. |
| Extraction.NewlinesCrLf | app.py:579-580 | After text without carriage returns, `"\r\n"` is read as one `"\n"` and the rest is translated in turn. |
| Extraction.NewlinesLoneCr | app.py:579-580 | After text without carriage returns, a `"\r"` not followed by `"\n"` is read as `"\n"` and the rest is translated in turn. |
| Extraction.CarriageReturnSeparatesLines | app.py:579-582 | A lone carriage return ends a line: `"a\rb"` counts two non-blank lines. |
| Extraction.ExtractTextFromFile | app.py:509-585 | After lowering the extension, it dispatches as follows: **PDF** → joined pages and page count, with reader errors passed through. **Word** → joined non-blank paragraphs and paragraph count, or the Word error. **PowerPoint** → missing file, empty file and reader errors wrapped, otherwise the joined runs and slide count. **Text** → "No such file or directory" for a missing file, otherwise the content with universal newlines applied and its non-blank line count. **Anything else** → "Unsupported file format: " plus the lowered extension. |
| Extraction.Prompt | app.py:591-603 | The prompt holds the query and the context verbatim at fixed offsets. |
| Extraction.GenerateLlmAnswer | app.py:604-618 | The answer is the concatenation of the stream's deltas, missing ones read as empty. On any failure it is "Error generating answer: " plus the error. |
| Extraction.ConcatLength | app.py:613-616 | The answer is as long as all deltas together. |

## Left out

- HTTP, file and network I/O are left out:
  - the NTLM/Basic/MSAL authentication flows;
  - `raise_for_status`;
  - streaming to a temporary file;
  - the `RequestException` wrapping "Failed to download file from URL: …".

  The download model starts from the final URL, the two headers and the body.
- Qdrant, Groq and sentence-transformers are left out. Their outcomes are
  inputs, and embeddings are an opaque function to `seq<real>`.
- The upload handler's random point ids (`np.random.randint`) are
  nondeterministic and are not modelled. Only the ingester's
  position-based ids are.
- The Streamlit UI, session state and progress bars are left out.
- `time.sleep` is recorded as a delay and no waiting is modelled.
- RetryRunSpec: `delay` is an integer number of seconds. Python also
  accepts a float delay, which is not modelled.
- `retry_qdrant_operation` is modelled, although no function in `app.py`
  is decorated with it.
- The internals of pypdf, python-docx and python-pptx are not modelled.
  Each reader is reduced to what it yields or the message it raises. The
  `.txt` branch takes the file's text as already decoded, with
  undecodable bytes dropped. Universal newlines are then applied in the
  model.
- Extraction.ExtractTextFromFile: for `.txt`, the only `open` failure
  modelled is a missing file. Its message writes the path between single
  quotes, without the escaping that Python's `repr` applies. Other
  `OSError`s, such as a directory or a denied permission, are not modelled.
- `Text.Lower` maps the ASCII capitals and the Kelvin sign U+212A (to
  `k`), and keeps every other character:
  - For every substring test in this core, this is exact. The only other
    character that lowers into ASCII is U+0130, into `i` followed by
    U+0307. Every `i` in the keywords tested here is followed by another
    letter, so the U+0307 it leaves behind stops any match.
  - For messages shown back to the user, this is not exact: the
    lowered extension in "Unsupported file format" keeps other non-ASCII
    capitals as they are.
- `Urls.UrlSplit` does not model the bracketed-host validation
  (`_check_bracketed_netloc`), nor the NFKC check on netlocs
  (`_checknetloc`). It raises only on unbalanced brackets, so a few URLs
  that Python rejects are accepted here.
- `Urls.Unquote` decodes `%XX` escapes only inside runs of ASCII
  characters, following CPython. Non-ASCII characters are copied.
- `Urls.SplitExt` is POSIX `os.path.splitext`. The Windows variant is not
  modelled.
- `Store.EnsureCollectionExists` omits the outer `except` of
  `ensure_collection_exists`. Every call in its `try` is caught by an
  inner handler, so only an error raised inside those handlers could
  reach it (from `str()`, `lower()` or `st.error`). The `create` input
  stands for the whole inner `try`: a failure of `get_vector_size` is
  read like a failure of `create_collection`.
- Store.VectorStore.Upsert: a refused batch (a missing collection, or a
  vector whose length is not the collection's size) is reported as a
  failed store that changes nothing. The exception the client raises,
  and its message, are not modelled.
- Python's regular-expression engine is modelled only for the one
  pattern `filename[^;=\n]*=((['"]).*?\2|[^\s;]+)`, as the leftmost
  match with its backtracking spelled out.

## Findings

| source | as written | input that shows it | evidently intended | confidence | as-written member | corrected member |
|---|---|---|---|---|---|---|
| app.py:980-988 | An upsert error that is neither transient nor "not found" (a rejected point, say) falls through the handler on attempts 1 and 2. The loop then retries it at once with no pause, and raises it only on the third attempt. | `upsert` raising "Bad request: wrong vector size" on every attempt makes three `upsert` calls. | The comment "For other errors or last attempt, raise" says such an error is raised on the attempt where it occurs, after one call. | not executed | Retry.PermanentErrorRetriedAsWritten | Retry.PermanentErrorRaisedAtOnce |
