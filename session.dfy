/** The page's session state and the handlers that change it: the two upload
    handlers and `generateCertificates`, the sequential loop that asks the
    rendering backend for one certificate per roster row. */
module Session {
  import opened Text
  import opened Roster
  import opened Presenter

  datatype Option<T> = None | Some(value: T)

  /** A browser `File`: its name, its declared MIME type and what a
      `FileReader` obtains reading it as text (`None` when the read fails). */
  datatype BrowserFile = BrowserFile(name: string, mimeType: string, content: Option<string>)

  datatype UploadKind = CsvUpload | ImageUpload

  /** `UploadedFile`: the file, the object URL of its preview, its slot. */
  datatype UploadedFile = UploadedFile(file: BrowserFile, preview: Option<string>, kind: UploadKind)

  /** The two rendering backends the page can post to. */
  datatype Server = LocalServer | ProductionServer

  /** The multipart POST for one roster row: the backend it goes to and the
      form fields `name`, `course`, `date` and `bgImage`. */
  datatype Request = Request(server: Server, name: string, course: string, date: string,
                             bgImage: BrowserFile)

  /** What awaiting one request yields: the object URL of the returned PDF
      when the response is `ok`, or a failure (a rejected `fetch` or a status
      that is not `ok`). */
  datatype Response = Delivered(pdf: string) | Failed

  /** The rendering backend: the response to the request made for row `i` of
      a run. */
  type Backend = (nat, Request) -> Response

  const CsvTypeMessage := "Please upload a CSV file"
  const ImageTypeMessage := "Please upload an image file"
  const MissingCsvMessage := "CSV data missing"
  const MissingImageMessage := "Background image not uploaded"
  const GenerationMessage := "Error generating certificates"

  const LocalBackendBase := "http://localhost:5051"
  const ProductionBackendBase := "https://certificate-backend-production.up.railway.app"
  const GeneratePath := "/generate-certificate"

  // ------------------------------------------------------------ validators

  /** The CSV slot accepts a name ending in `.csv`, in any letter case. */
  predicate IsCsvFileName(name: string) {
    EndsWith(ToLower(name), ".csv")
  }

  /** The image slot accepts a declared type starting with `image/`. */
  predicate IsImageType(mimeType: string) {
    StartsWith(mimeType, "image/")
  }

  /** Unlike the `.csv` check, the image check is case-sensitive and needs
      the slash: `image/png` passes; `IMAGE/PNG`, `image` and
      `application/pdf` do not. */
  lemma ImageTypeExamples()
    ensures IsImageType("image/png")
    ensures !IsImageType("IMAGE/PNG")
    ensures !IsImageType("image")
    ensures !IsImageType("application/pdf")
  {
    assert "IMAGE/PNG"[0] != "image/"[0];
    assert "application/pdf"[0] != "image/"[0];
  }

  /** The `.csv` check looks only at the last four characters, whatever
      their letter case. */
  lemma CsvNameByExtension(name: string)
    ensures IsCsvFileName(name) <==> |name| >= 4 && ToLower(name[|name| - 4..]) == ".csv"
  {
    if |name| >= 4 {
      ToLowerSuffix(name, |name| - 4);
    }
  }

  /** Example: `ROSTER.CSV` passes the check, `roster.csv.txt` does not. */
  lemma CsvNameExamples()
    ensures IsCsvFileName("ROSTER.CSV")
    ensures !IsCsvFileName("roster.csv.txt")
  {
    CsvNameByExtension("ROSTER.CSV");
    assert "ROSTER.CSV"[6..] == ".CSV";
    CsvNameByExtension("roster.csv.txt");
    assert "roster.csv.txt"[10..] == ".txt";
    assert ToLower(".txt")[1] == LowerChar('t') == 't';
  }

  // ----------------------------------------------------- backend selection

  /** The page runs on a development host: its host name contains
      `localhost` or `127.0.0.1`. */
  predicate IsLocalHost(hostname: string) {
    Contains(hostname, "localhost") || Contains(hostname, "127.0.0.1")
  }

  /** The backend a page on `hostname` posts to. */
  function ChooseServer(hostname: string): Server {
    if IsLocalHost(hostname) then LocalServer else ProductionServer
  }

  function BaseUrl(server: Server): string {
    match server
    case LocalServer => LocalBackendBase
    case ProductionServer => ProductionBackendBase
  }

  /** The backend base URL: the local one when the page's host name contains
      `localhost` or `127.0.0.1`, the production one otherwise. */
  function BackendBase(hostname: string): string {
    BaseUrl(ChooseServer(hostname))
  }

  /** The base is always one of the two, and the local one exactly for a
      local host name. */
  lemma BackendBaseChoice(hostname: string)
    ensures BackendBase(hostname) == LocalBackendBase || BackendBase(hostname) == ProductionBackendBase
    ensures BackendBase(hostname) == LocalBackendBase <==> IsLocalHost(hostname)
  {
    assert |LocalBackendBase| < |ProductionBackendBase|;
  }

  /** Any host name that starts with `localhost`, such as `localhost` itself,
      selects the local backend. */
  lemma LocalhostPrefixSelectsLocal(hostname: string)
    requires StartsWith(hostname, "localhost")
    ensures BackendBase(hostname) == LocalBackendBase
  {
    ContainsAt(hostname, "localhost", 0);
  }

  /** The URL a request is posted to: `${backendBase}/generate-certificate`. */
  function RequestUrl(request: Request): string {
    BaseUrl(request.server) + GeneratePath
  }

  // ------------------------------------------------------ generation run

  /** The request for one row of the roster. */
  function CertificateRequest(row: Row, bgImage: BrowserFile, hostname: string): Request {
    Request(ChooseServer(hostname), row.studentName, row.courseName, row.date, bgImage)
  }

  /** Every request of a run is posted to the backend base chosen from the
      host name, followed by `/generate-certificate`. */
  lemma RequestUrlOfRow(row: Row, bgImage: BrowserFile, hostname: string)
    ensures RequestUrl(CertificateRequest(row, bgImage, hostname)) == BackendBase(hostname) + GeneratePath
    ensures IsLocalHost(hostname) ==>
              RequestUrl(CertificateRequest(row, bgImage, hostname)) == LocalBackendBase + GeneratePath
    ensures !IsLocalHost(hostname) ==>
              RequestUrl(CertificateRequest(row, bgImage, hostname)) == ProductionBackendBase + GeneratePath
  {
  }

  /** The requests of a run over `rows`, in roster order. */
  function RunRequests(rows: seq<Row>, bgImage: BrowserFile, hostname: string): (reqs: seq<Request>)
    ensures |reqs| == |rows|
  {
    seq(|rows|, i requires 0 <= i < |rows| => CertificateRequest(rows[i], bgImage, hostname))
  }

  /** The index of the first request the backend fails, scanning from `from`;
      `|reqs|` when every one from `from` on is delivered. */
  function FirstFailureFrom(reqs: seq<Request>, backend: Backend, from: nat): (f: nat)
    requires from <= |reqs|
    ensures from <= f <= |reqs|
    ensures forall i :: from <= i < f ==> backend(i, reqs[i]).Delivered?
    ensures f < |reqs| ==> backend(f, reqs[f]).Failed?
    decreases |reqs| - from
  {
    if from == |reqs| then from
    else if backend(from, reqs[from]).Failed? then from
    else FirstFailureFrom(reqs, backend, from + 1)
  }

  /** Where a run stops: the first failed request, or `|reqs|`. */
  function FirstFailure(reqs: seq<Request>, backend: Backend): (f: nat)
    ensures f <= |reqs|
    ensures forall i :: 0 <= i < f ==> backend(i, reqs[i]).Delivered?
    ensures f < |reqs| ==> backend(f, reqs[f]).Failed?
  {
    FirstFailureFrom(reqs, backend, 0)
  }

  /** The two facts that end a run pin down where it stopped. */
  lemma FirstFailureUnique(reqs: seq<Request>, backend: Backend, f: nat)
    requires f <= |reqs|
    requires forall i :: 0 <= i < f ==> backend(i, reqs[i]).Delivered?
    requires f < |reqs| ==> backend(f, reqs[f]).Failed?
    ensures FirstFailure(reqs, backend) == f
  {
  }

  /** The progress shown after `done` of `total` rows, as a percentage. */
  function Percent(done: nat, total: nat): (p: real)
    requires 0 < total
    ensures done <= total ==> 0.0 <= p <= 100.0
    ensures done == 0 ==> p == 0.0
    ensures done == total ==> p == 100.0
  {
    (done as real / total as real) * 100.0
  }

  /** Progress only grows as rows complete. */
  lemma PercentMonotonic(a: nat, b: nat, total: nat)
    requires 0 < total && a <= b
    ensures Percent(a, total) <= Percent(b, total)
  {
    assert a as real / total as real <= b as real / total as real;
  }

  /** The progress values set after each of the first `done` rows. */
  function ProgressSteps(done: nat, total: nat): (steps: seq<real>)
    requires 0 < total
    ensures |steps| == done
  {
    seq(done, k requires 0 <= k < done => Percent(k + 1, total))
  }

  /** Completing one more row appends its percentage to the steps. */
  lemma ProgressStepsNext(done: nat, total: nat)
    requires done < total
    ensures ProgressSteps(done + 1, total) == ProgressSteps(done, total) + [Percent(done + 1, total)]
  {
  }

  /** The progress bar only moves forward during a run, and a complete run
      ends it at 100. */
  lemma ProgressStepsRise(done: nat, total: nat)
    requires 0 < total && done <= total
    ensures forall k, l :: 0 <= k < l < done ==> ProgressSteps(done, total)[k] < ProgressSteps(done, total)[l]
    ensures done == total ==> ProgressSteps(done, total)[done - 1] == 100.0
  {
    var steps := ProgressSteps(done, total);
    forall k, l | 0 <= k < l < done
      ensures steps[k] < steps[l]
    {
      var t, d := total as real, (l - k) as real;
      assert d / t > 0.0;
      assert (l + 1) as real / t == (k + 1) as real / t + d / t;
    }
  }

  class CertificateSession {
    var csvFile: Option<UploadedFile>
    var backgroundImage: Option<UploadedFile>
    var csvData: seq<Row>
    var isGenerating: bool
    var generationProgress: real
    var generatedPdfs: seq<string>
    var error: string
    /** The requests this session has sent to the backend, oldest first. */
    var sent: seq<Request>
    /** Every value `generationProgress` has been set to, oldest first. */
    ghost var progressTrace: seq<real>

    /** Between handlers no run is in progress, the roster holds only records
        the parser can return, and progress is a percentage. */
    ghost predicate Valid()
      reads this
    {
      && !isGenerating
      && AllWellFormed(csvData)
      && 0.0 <= generationProgress <= 100.0
    }

    /** The state the page starts in. */
    constructor ()
      ensures Valid()
      ensures csvFile == None && backgroundImage == None && csvData == []
      ensures !isGenerating && generationProgress == 0.0 && generatedPdfs == [] && error == ""
      ensures sent == [] && progressTrace == []
    {
      csvFile, backgroundImage, csvData := None, None, [];
      isGenerating, generationProgress, generatedPdfs, error := false, 0.0, [], "";
      sent, progressTrace := [], [];
    }

    /** The "Generate" button is enabled. */
    predicate GenerateEnabled()
      reads this
    {
      csvData != [] && backgroundImage.Some? && !isGenerating
    }

    /** `handleCSVUpload` with the selected file (`None` when the input holds
        none), run until the reader has finished with the file. */
    method HandleCSVUpload(file: Option<BrowserFile>)
      requires Valid()
      modifies this`csvFile, this`csvData, this`error
      ensures Valid()
      ensures backgroundImage == old(backgroundImage) && generationProgress == old(generationProgress)
      ensures generatedPdfs == old(generatedPdfs) && sent == old(sent)
      ensures progressTrace == old(progressTrace)
      ensures file.None? ==>
                csvFile == old(csvFile) && csvData == old(csvData) && error == old(error)
      ensures file.Some? && !IsCsvFileName(file.value.name) ==>
                csvFile == old(csvFile) && csvData == old(csvData) && error == CsvTypeMessage
      // Only `onload` is handled: a failed read changes nothing.
      ensures file.Some? && IsCsvFileName(file.value.name) && file.value.content.None? ==>
                csvFile == old(csvFile) && csvData == old(csvData) && error == old(error)
      ensures file.Some? && IsCsvFileName(file.value.name) && file.value.content.Some? ==>
                var parsed := ParseCSV(file.value.content.value);
                && (parsed.Err? ==>
                      csvFile == old(csvFile) && csvData == old(csvData) && error == SchemaMessage)
                && (parsed.Ok? ==>
                      && csvData == parsed.value
                      && csvFile == Some(UploadedFile(file.value, None, CsvUpload))
                      && error == "")
    {
      if file.None? {
        return;
      }
      if !IsCsvFileName(file.value.name) {
        error := CsvTypeMessage;
        return;
      }
      if file.value.content.None? {
        return;
      }
      OnCsvLoaded(file.value, ParseCSV(file.value.content.value));
    }

    /** The reader's `onload` callback, given the outcome of parsing the file's
        text: keep the roster and clear the error, or show the parser's
        message and keep the previous roster. */
    method OnCsvLoaded(file: BrowserFile, parsed: Result<seq<Row>>)
      requires Valid()
      requires parsed.Ok? ==> AllWellFormed(parsed.value)
      modifies this`csvFile, this`csvData, this`error
      ensures Valid()
      ensures parsed.Err? ==>
                csvFile == old(csvFile) && csvData == old(csvData) && error == parsed.message
      ensures parsed.Ok? ==>
                && csvData == parsed.value
                && csvFile == Some(UploadedFile(file, None, CsvUpload))
                && error == ""
    {
      match parsed
      case Ok(rows) =>
        csvData := rows;
        csvFile := Some(UploadedFile(file, None, CsvUpload));
        error := "";
      case Err(message) =>
        error := message;
    }

    /** `handleImageUpload` with the selected file; `preview` is the object URL
        the browser mints for it. */
    method HandleImageUpload(file: Option<BrowserFile>, preview: string)
      requires Valid()
      modifies this`backgroundImage, this`error
      ensures Valid()
      ensures csvFile == old(csvFile) && csvData == old(csvData)
      ensures generationProgress == old(generationProgress) && generatedPdfs == old(generatedPdfs)
      ensures sent == old(sent) && progressTrace == old(progressTrace)
      ensures file.None? ==> backgroundImage == old(backgroundImage) && error == old(error)
      ensures file.Some? && !IsImageType(file.value.mimeType) ==>
                backgroundImage == old(backgroundImage) && error == ImageTypeMessage
      ensures file.Some? && IsImageType(file.value.mimeType) ==>
                backgroundImage == Some(UploadedFile(file.value, Some(preview), ImageUpload))
                && error == ""
    {
      if file.None? {
        return;
      }
      if !IsImageType(file.value.mimeType) {
        error := ImageTypeMessage;
        return;
      }
      backgroundImage := Some(UploadedFile(file.value, Some(preview), ImageUpload));
      error := "";
    }

    /** `generateCertificates`, run to completion. `hostname` is the page's
        host name and `backend` answers each request. */
    method GenerateCertificates(hostname: string, backend: Backend)
      requires Valid()
      modifies this`isGenerating, this`generationProgress, this`generatedPdfs, this`error,
               this`sent, this`progressTrace
      ensures Valid()
      ensures csvFile == old(csvFile) && csvData == old(csvData)
      ensures backgroundImage == old(backgroundImage)
      // A request reaches the backend exactly when the button was enabled.
      ensures old(GenerateEnabled()) <==> |sent| > |old(sent)|
      // No roster: report it and send nothing.
      ensures old(csvData) == [] ==>
                && error == MissingCsvMessage && sent == old(sent)
                && generationProgress == old(generationProgress)
                && generatedPdfs == old(generatedPdfs) && progressTrace == old(progressTrace)
      // No background image: report it and send nothing.
      ensures old(csvData) != [] && old(backgroundImage).None? ==>
                && error == MissingImageMessage && sent == old(sent)
                && generationProgress == old(generationProgress)
                && generatedPdfs == old(generatedPdfs) && progressTrace == old(progressTrace)
      // A run: one request per row in roster order until the first failure.
      ensures old(csvData) != [] && old(backgroundImage).Some? ==>
                var n := |csvData|;
                var reqs := RunRequests(csvData, backgroundImage.value.file, hostname);
                var f := FirstFailure(reqs, backend);
                && sent == old(sent) + reqs[..if f < n then f + 1 else n]
                && generationProgress == Percent(f, n)
                && progressTrace == old(progressTrace) + [0.0] + ProgressSteps(f, n)
                && (f == n ==>
                      && error == old(error)
                      && |generatedPdfs| == n
                      && (forall i :: 0 <= i < n ==> generatedPdfs[i] == backend(i, reqs[i]).pdf))
                && (f < n ==> error == GenerationMessage && generatedPdfs == [])
    {
      if |csvData| == 0 {
        error := MissingCsvMessage;
        return;
      }
      if backgroundImage.None? {
        error := MissingImageMessage;
        return;
      }
      RunGeneration(csvData, backgroundImage.value.file, hostname, backend);
    }

    /** The part of `generateCertificates` after its checks: mark the run as
        started, request every certificate, then either publish the URLs or
        report the failure, and mark the run as finished. */
    method RunGeneration(rows: seq<Row>, bgImage: BrowserFile, hostname: string, backend: Backend)
      requires Valid() && rows != []
      modifies this`isGenerating, this`generationProgress, this`generatedPdfs, this`error,
               this`sent, this`progressTrace
      ensures Valid()
      ensures var n := |rows|;
        var reqs := RunRequests(rows, bgImage, hostname);
        var f := FirstFailure(reqs, backend);
        && sent == old(sent) + reqs[..if f < n then f + 1 else n]
        && generationProgress == Percent(f, n)
        && progressTrace == old(progressTrace) + [0.0] + ProgressSteps(f, n)
        && (f == n ==>
              && error == old(error)
              && |generatedPdfs| == n
              && (forall i :: 0 <= i < n ==> generatedPdfs[i] == backend(i, reqs[i]).pdf))
        && (f < n ==> error == GenerationMessage && generatedPdfs == [])
    {
      isGenerating := true;
      generationProgress := 0.0;
      progressTrace := progressTrace + [0.0];
      generatedPdfs := [];

      var pdfs, failed := RequestCertificates(rows, bgImage, hostname, backend);
      if failed {
        error := GenerationMessage;
      } else {
        generatedPdfs := pdfs;
      }
      isGenerating := false;
    }

    /** The loop of `generateCertificates`: for each row in turn, build its
        request, send it and await the response; stop at the first failure.
        `pdfs` are the URLs collected, `failed` whether the loop stopped
        early. */
    method RequestCertificates(rows: seq<Row>, bgImage: BrowserFile, hostname: string, backend: Backend)
        returns (pdfs: seq<string>, failed: bool)
      requires rows != [] && generationProgress == 0.0
      modifies this`sent, this`generationProgress, this`progressTrace
      ensures var n := |rows|;
        var reqs := RunRequests(rows, bgImage, hostname);
        var f := FirstFailure(reqs, backend);
        && (failed <==> f < n)
        && sent == old(sent) + reqs[..if f < n then f + 1 else n]
        && generationProgress == Percent(f, n)
        && progressTrace == old(progressTrace) + ProgressSteps(f, n)
        && |pdfs| == f
        && (forall k :: 0 <= k < f ==> pdfs[k] == backend(k, reqs[k]).pdf)
    {
      var n := |rows|;
      ghost var reqs := RunRequests(rows, bgImage, hostname);
      pdfs := [];
      var i := 0;
      while i < n
        invariant 0 <= i <= n
        invariant forall k :: 0 <= k < i ==> backend(k, reqs[k]).Delivered?
        invariant |pdfs| == i
        invariant forall k :: 0 <= k < i ==> pdfs[k] == backend(k, reqs[k]).pdf
        invariant sent == old(sent) + reqs[..i]
        invariant generationProgress == Percent(i, n)
        invariant progressTrace == old(progressTrace) + ProgressSteps(i, n)
      {
        var request := CertificateRequest(rows[i], bgImage, hostname);
        assert request == reqs[i];
        assert reqs[..i + 1] == reqs[..i] + [request];
        sent := sent + [request];
        var response := backend(i, request);
        if response.Failed? {
          FirstFailureUnique(reqs, backend, i);
          return pdfs, true;
        }
        pdfs := pdfs + [response.pdf];
        generationProgress := Percent(i + 1, n);
        progressTrace := progressTrace + [generationProgress];
        ProgressStepsNext(i, n);
        i := i + 1;
      }
      FirstFailureUnique(reqs, backend, n);
      return pdfs, false;
    }
  }

  /** After a complete run the downloads name every file after the row it was
      made for, and none is missing. */
  lemma CompleteRunDownloadsAll(pdfs: seq<string>, rows: seq<Row>)
    requires |pdfs| == |rows|
    ensures !DownloadAll(pdfs, rows).crashed
    ensures |DownloadAll(pdfs, rows).links| == |rows|
    ensures forall k :: 0 <= k < |rows| ==>
              DownloadAll(pdfs, rows).links[k].download == CertificateFileName(rows[k].studentName)
  {
  }
}
