# Certificate generator: a Dafny model

The certificate generator is a single-page React front end. The user uploads
a roster as CSV (student name, course name, completion date) and a background
image. The page then asks a rendering backend for one PDF certificate per
roster row, one row at a time, and offers every PDF for download.

This project models the logic of `src/CertificateGenerator.tsx`:

- **Roster parser** (`parseCSV`). The text is trimmed and split into lines.
  The header cells are trimmed and lower-cased. Each of the three columns is
  the first header containing one of its two keywords. Each data line is read
  at those columns: a cell is trimmed, and a missing cell is `''`. Records with
  an empty field are dropped. When a column is missing, the parser fails with
  the schema message.
- **Upload handlers** (`handleCSVUpload` and `handleImageUpload`). They check
  the file, then either store it or show an error.
- **Generation run** (`generateCertificates`). It runs two early checks, then
  loops over the rows, sending one request per row. It stops at the first
  failure. Progress is `(i + 1) / n * 100` after row `i`. A `finally` clears
  `isGenerating`.
- **Backend choice.** A host name containing `localhost` or `127.0.0.1` uses
  the local server; any other uses the production server.
- **Presentation helpers.**
  - The download file name, and the forEach loop in `downloadAllPdfs`.
  - The five-row preview and its "Showing 5 of N records" note.
  - The enabled state of the Generate button.

The files:

- `text.dfy` (module `Text`) holds the JavaScript string built-ins the page
  uses, with the ECMAScript whitespace set:
  - `trim`
  - `toLowerCase`
  - `includes`, `startsWith` and `endsWith`
  - `split` on one character
  - `replace(/\s+/g, rep)`
- `roster.dfy` (module `Roster`) is the parser.
- `presenter.dfy` (module `Presenter`) holds the preview, the download file
  names and the download links.
- `session.dfy` (module `Session`) holds the page's state as the class
  `CertificateSession`, with one method per handler. Each method is proved
  against the specification functions beside it.

I/O becomes parameters:

- The file the user picks, with its text as the `FileReader` would deliver
  it (or `None` when reading fails), is a `BrowserFile`.
- The page's host name is a `string`.
- The backend is a function `Backend` from (row index, request) to a
  `Response`: either the object URL of the PDF, or a failure.

The session records two extra histories so that contracts can talk about
effects:

- every request sent (`sent`)
- every value the progress bar was set to (`progressTrace`, ghost)

## Model

| member | source | states |
|---|---|---|
| Text.Trim | src/CertificateGenerator.tsx:39 | `trim` returns text no longer than its input that neither starts nor ends with whitespace |
| Text.TrimStartSlice | src/CertificateGenerator.tsx:39 | trimming the start removes a prefix, and that prefix is all whitespace |
| Text.TrimEndSlice | src/CertificateGenerator.tsx:39 | trimming the end removes a suffix, and that suffix is all whitespace |
| Text.TrimStartEmpty | src/CertificateGenerator.tsx:39 | trimming the start leaves nothing exactly when the text is all whitespace |
| Text.TrimEndEmpty | src/CertificateGenerator.tsx:39 | trimming the end leaves nothing exactly when the text is all whitespace |
| Text.TrimEmpty | src/CertificateGenerator.tsx:51 | a value trims to `''` exactly when it is all whitespace, which is when the row filter drops it |
| Text.TrimWindow | src/CertificateGenerator.tsx:51 | the trimmed value is the slice of the cell between its leading and trailing whitespace, and both cut parts are all whitespace |
| Text.TrimIdempotent | src/CertificateGenerator.tsx:40 | trimming an already trimmed cell changes nothing |
| Text.LowerChar | src/CertificateGenerator.tsx:40 | `A`–`Z` become `a`–`z` (32 code points on); every other character is kept |
| Text.ToLower | src/CertificateGenerator.tsx:64 | lower-casing keeps the length |
| Text.ToLowerSuffix | src/CertificateGenerator.tsx:64 | lower-casing commutes with taking a suffix, so `endsWith('.csv')` only looks at the lower-cased last four characters |
| Text.Contains | src/CertificateGenerator.tsx:42-44 | `includes`: with `ContainsAt` and `ContainsWitness`, it holds exactly when the keyword occurs at some position of the header |
| Text.ContainsAt | src/CertificateGenerator.tsx:42-44 | an occurrence of the keyword at some position makes `includes` true |
| Text.ContainsWitness | src/CertificateGenerator.tsx:42-44 | when `includes` holds, the keyword occurs at a position it returns, so a match is never spurious |
| Text.Split | src/CertificateGenerator.tsx:39 | `split` always returns at least one piece, so `lines[0]` always exists |
| Text.SplitPiecesFree | src/CertificateGenerator.tsx:51 | no piece of `split(sep)` contains `sep` |
| Text.JoinSplit | src/CertificateGenerator.tsx:39 | joining the pieces with the separator gives back the text, so splitting loses nothing |
| Text.ReplaceWhitespaceRuns | src/CertificateGenerator.tsx:164 | `replace(/\s+/g, rep)`: with a non-empty replacement the result is empty exactly when the text is; the lemmas below pin down what each run becomes |
| Text.ReplaceLeavesNoWhitespace | src/CertificateGenerator.tsx:164 | `replace(/\s+/g, '_')` leaves no whitespace |
| Text.ReplaceWithoutWhitespace | src/CertificateGenerator.tsx:164 | text with no whitespace is left unchanged |
| Text.ReplaceWhitespaceRun | src/CertificateGenerator.tsx:164 | a run made only of whitespace becomes exactly one replacement |
| Text.ReplaceAfterRun | src/CertificateGenerator.tsx:164 | a whitespace run before non-whitespace becomes one replacement in front of the rest's replacement |
| Text.ReplaceConcat | src/CertificateGenerator.tsx:164 | the replacement distributes over a concatenation whose seam is not inside a whitespace run |
| Text.ReplaceBetweenWords | src/CertificateGenerator.tsx:164 | two words separated by one whitespace run become the words joined by one replacement |
| Roster.Headers | src/CertificateGenerator.tsx:40 | there is one normalized header per comma-separated cell of the first line |
| Roster.NormalizeHeaders | src/CertificateGenerator.tsx:40 | `map(h => h.trim().toLowerCase())` keeps one header per cell |
| Roster.Lines | src/CertificateGenerator.tsx:39 | `text.trim().split('\n')` always yields at least the header line, so `lines[0]` exists |
| Roster.HeaderMatches | src/CertificateGenerator.tsx:42-44 | a header names a column when it includes either of its two keywords; `FindColumnFirst` proves the search returns the first such header |
| Roster.FindColumnFrom | src/CertificateGenerator.tsx:42-44 | searching from `from` returns -1 or an index at or after `from` inside the headers |
| Roster.FindColumnFromFirst | src/CertificateGenerator.tsx:42-44 | searching from `from` gives -1 exactly when no later header matches; otherwise it gives a matching header with no match before it |
| Roster.FindColumn | src/CertificateGenerator.tsx:42-44 | `findIndex` gives -1 or an index of `headers` |
| Roster.FindColumnFirst | src/CertificateGenerator.tsx:42-44 | first match wins: -1 exactly when no header contains either keyword; otherwise the first header that does |
| Roster.FirstMatchExample | src/CertificateGenerator.tsx:42 | in `student_name,name2,course,date` the name column is index 0 |
| Roster.Cell | src/CertificateGenerator.tsx:51-55 | every value read from a line is trimmed (a missing cell reads as `''`) |
| Roster.ExtractRow | src/CertificateGenerator.tsx:51-56 | the record read from one data line has all three fields trimmed |
| Roster.ExtractRows | src/CertificateGenerator.tsx:50-56 | one record per data line, every field trimmed |
| Roster.KeepComplete | src/CertificateGenerator.tsx:57 | the filter returns no more rows than it gets, each an input row with no empty field |
| Roster.CompleteIndicesExact | src/CertificateGenerator.tsx:57 | the indices of the complete rows are in range, strictly increasing, and name every complete row and no other |
| Roster.KeepCompleteAt | src/CertificateGenerator.tsx:57 | the `k`-th kept record is the row at the `k`-th complete index |
| Roster.KeepCompleteSelects | src/CertificateGenerator.tsx:57 | the filter keeps exactly the complete rows, each once, in their original order |
| Roster.KeepCompleteTrimmed | src/CertificateGenerator.tsx:57 | filtering trimmed records gives well-formed records: complete and trimmed |
| Roster.ParseCSV | src/CertificateGenerator.tsx:38-58 | a failure carries the schema message; a success returns at most `lines.length - 1` records, each complete and trimmed |
| Roster.ParseFailsIffColumnMissing | src/CertificateGenerator.tsx:42-48 | parsing fails exactly when one of the three columns is named by no header |
| Roster.ParsedColumns | src/CertificateGenerator.tsx:42-44 | on success each column read is a header naming it, with no earlier header naming it |
| Roster.ReadLinesKeepsCompleteLines | src/CertificateGenerator.tsx:50-57 | the records are, in order, the data lines whose three cells are all non-empty; each field is the trimmed cell at its column; a line is dropped exactly when one of those cells is empty |
| Roster.ParseKeepsCompleteDataLines | src/CertificateGenerator.tsx:39-57 | on success the records are, in order, exactly the lines after the header whose three cells at the columns the header names are non-empty after trimming, each field being that trimmed cell |
| Presenter.CertificateFileName | src/CertificateGenerator.tsx:164 | the name ends in `_certificate.pdf`, and what precedes it holds no whitespace |
| Presenter.FileNameOfTwoWords | src/CertificateGenerator.tsx:164 | a name of two words separated by any whitespace run downloads as `first_second_certificate.pdf` |
| Presenter.JaneDoeFileName | src/CertificateGenerator.tsx:164 | `Jane Doe` downloads as `Jane_Doe_certificate.pdf` |
| Presenter.Preview | src/CertificateGenerator.tsx:278 | the preview is a prefix of the roster of length `min(5, n)` |
| Presenter.ShowsRecordCount | src/CertificateGenerator.tsx:287 | the record-count note condition `csvData.length > 5`; `PreviewNoteWhenTruncated` proves it holds exactly when the preview leaves rows out |
| Presenter.PreviewNoteWhenTruncated | src/CertificateGenerator.tsx:287-291 | the "Showing 5 of N records" note is shown exactly when the preview leaves rows out; otherwise the preview is the whole roster |
| Presenter.DownloadAll | src/CertificateGenerator.tsx:160-170 | one link per PDF, in order, each named after the roster row at the same index; it crashes exactly when there are more PDFs than rows |
| Session.CsvNameByExtension | src/CertificateGenerator.tsx:64 | a name passes the CSV check exactly when its last four characters lower-case to `.csv` |
| Session.CsvNameExamples | src/CertificateGenerator.tsx:64 | `ROSTER.CSV` passes the check; `roster.csv.txt` does not |
| Session.IsCsvFileName | src/CertificateGenerator.tsx:64 | the name lower-cased ends with `.csv`; `CsvNameByExtension` reduces it to the last four characters |
| Session.IsImageType | src/CertificateGenerator.tsx:88 | the declared type starts with `image/`, case-sensitively; see `ImageTypeExamples` |
| Session.ImageTypeExamples | src/CertificateGenerator.tsx:88 | `image/png` passes; `IMAGE/PNG`, `image` and `application/pdf` are refused |
| Session.IsLocalHost | src/CertificateGenerator.tsx:126 | the host name includes `localhost` or `127.0.0.1` |
| Session.ChooseServer | src/CertificateGenerator.tsx:126-128 | the local server for a local host name, the production server otherwise; `BackendBaseChoice` proves both directions |
| Session.BackendBase | src/CertificateGenerator.tsx:126-128 | the URL base for a host name; `BackendBaseChoice` proves it is one of the two constants and which |
| Session.BackendBaseChoice | src/CertificateGenerator.tsx:126-128 | the base is always one of the two URLs, and it is the local one exactly when the host name contains `localhost` or `127.0.0.1` |
| Session.LocalhostPrefixSelectsLocal | src/CertificateGenerator.tsx:126-128 | a host name starting with `localhost` selects the local backend |
| Session.RequestUrlOfRow | src/CertificateGenerator.tsx:126-133 | every request goes to the chosen base followed by `/generate-certificate` |
| Session.CertificateRequest | src/CertificateGenerator.tsx:117-123 | the form carries the row's name, course and date and the background image, addressed to the server chosen from the host name; `RequestUrlOfRow` proves its URL |
| Session.RunRequests | src/CertificateGenerator.tsx:116-123 | a run prepares one request per roster row |
| Session.FirstFailureFrom | src/CertificateGenerator.tsx:135-137 | the index found is the first request the backend fails at or after `from`, or the end |
| Session.FirstFailure | src/CertificateGenerator.tsx:135-137 | every request before the index is delivered, and the one at it (if any) fails |
| Session.FirstFailureUnique | src/CertificateGenerator.tsx:135-137 | those two facts determine where the run stops |
| Session.Percent | src/CertificateGenerator.tsx:143 | progress stays between 0 and 100, is 0 before any row and 100 after all of them |
| Session.PercentMonotonic | src/CertificateGenerator.tsx:143 | progress never decreases as rows complete |
| Session.ProgressSteps | src/CertificateGenerator.tsx:143 | after `done` rows there have been `done` progress updates |
| Session.ProgressStepsNext | src/CertificateGenerator.tsx:143 | completing row `i` appends `(i + 1) / n * 100` to the updates |
| Session.ProgressStepsRise | src/CertificateGenerator.tsx:143 | the progress updates strictly increase, and a complete run's last update is 100 |
| Session.CertificateSession.constructor | src/CertificateGenerator.tsx:27-33 | the initial state: nothing uploaded, no data, not generating, progress 0, no PDFs, no error |
| Session.CertificateSession.GenerateEnabled | src/CertificateGenerator.tsx:305 | the button is enabled when there are rows, an image and no run in progress; `GenerateCertificates` proves a request reaches the backend exactly when it was enabled |
| Session.CertificateSession.HandleCSVUpload | src/CertificateGenerator.tsx:60-82 | no file: no change. A name not ending in `.csv` (any case): error "Please upload a CSV file" and the roster kept. A read that fails: no change, as only `onload` is handled. A parse failure: the schema message and the roster kept. A success: the parsed roster, the file recorded, the error cleared. Never touches image, progress, PDFs or requests |
| Session.CertificateSession.OnCsvLoaded | src/CertificateGenerator.tsx:70-80 | the reader callback: keep the roster and clear the error, or show the parser's message and keep the previous roster and file |
| Session.CertificateSession.HandleImageUpload | src/CertificateGenerator.tsx:84-96 | no file: no change. A type not starting with `image/`: error "Please upload an image file". Otherwise: the image and its preview are stored and the error cleared. Roster, progress and PDFs untouched |
| Session.CertificateSession.GenerateCertificates | src/CertificateGenerator.tsx:98-153 | at least one request is sent exactly when the Generate button (:305) was enabled. Empty roster or no image: the matching error, no request, progress and PDFs unchanged. Otherwise, rows up to the first failure are sent in order; progress is `Percent(f, n)`; every update is recorded; a complete run publishes `n` PDFs index-aligned with the rows; a failed one leaves `[]` and "Error generating certificates"; `isGenerating` is false on every path |
| Session.CertificateSession.RunGeneration | src/CertificateGenerator.tsx:109-152 | the run after the checks: progress reset to 0, PDFs cleared, then the loop's outcome published or the failure reported, and `isGenerating` cleared |
| Session.CertificateSession.RequestCertificates | src/CertificateGenerator.tsx:113-144 | the loop sends the requests of rows `0..f` (through the failing one); it collects the `f` delivered PDFs in row order, sets progress to `Percent(f, n)` with one update per completed row, and reports failure exactly when `f < n` |
| Session.CompleteRunDownloadsAll | src/CertificateGenerator.tsx:160-170 | after a complete run, downloading does not crash and names every file after its own row |

## Left out

- React state updates are applied at once. `useState` batching, re-renders and `useCallback` closures are not modelled. That includes the `[generatedPdfs]`-only dependency of `downloadAllPdfs`: `DownloadAll` is given the roster to name files by (see the end of this file).
- `FileReader` is asynchronous in the browser. The model delivers the text to `OnCsvLoaded` within the same handler call, so a second upload or a generation run in between is not modelled. A failed read is a `BrowserFile` whose `content` is `None`; the handler registers no `onerror`, so nothing changes and no message is shown.
- A run is also modelled as finishing within one call. The `isGenerating` guard against re-entry is the `!isGenerating` conjunct of `Valid()`, which every handler requires and re-establishes; uploads made while a run awaits the backend are not modelled.
- `fetch`, `FormData`, `response.blob()` and `URL.createObjectURL` are modelled as the `Backend` function. A rejected `fetch` and a response that is not `ok` are the same `Failed` outcome, as both reach the same `catch`.
- The DOM anchors, clicks and `console.error` are left out. Object URLs are never revoked in the source either.
- The per-row failure message ("Failed to generate certificate for …") is left out. The `catch` replaces it and it is never shown.
- The `'Error parsing CSV file'` fallback of the reader callback is left out. `parseCSV` only throws `Error` objects, and the model's file text is always a string.
- Text.LowerChar: maps ASCII `A`–`Z` only; every other character is returned unchanged, for the reasons in the next line.
- Text.ToLower: lower-cases ASCII `A`–`Z` only. Non-ASCII case mappings of `toLowerCase` are not modelled. The keywords and `.csv` are ASCII, and a non-ASCII upper-case letter never lowers to one of their letters except U+212A (to `k`) and U+0130 (to `i` plus a combining dot). No keyword contains `k`. The only keyword `i` (in `completion`) is followed by `o`, so a combining dot there breaks the match anyway.
- Session.Percent: computes progress in exact reals, not IEEE doubles. The rounding of `Math.round` (:326) is display only.
- Session.RequestUrlOfRow: each request records which backend it goes to. The URL string is built by `RequestUrl` from that, not stored in the request.
- `src/components/Button.tsx`, `src/types.ts` and the rest of the layout are not part of this model. `CSVRow` and `UploadedFile` appear as the datatypes `Row` and `UploadedFile`.

Where the project's documentation and the code differ, the model follows the code:

- A successful run does not clear an error shown earlier. `GenerateCertificates` keeps `error` unchanged on success.
- The backend base is recomputed for every row (:126-128). It depends only on the host name, so every request goes to the same backend.
- `downloadAllPdfs` names the files from `csvData` by index. It is memoised on `[generatedPdfs]` alone (:170), so it sees the `csvData` of the render in which `generatedPdfs` was last set (:111, :146). The names are therefore wrong only when a new roster is uploaded while a run is awaiting the backend: the CSV input is not disabled during a run. `DownloadAll` is given the roster to name by, and `CompleteRunDownloadsAll` shows the names are right when that roster is the one the run was made from.
