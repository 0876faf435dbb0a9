/** What the page derives from the session for display and download: the
    preview table, the download file names and the links `downloadAllPdfs`
    clicks. */
module Presenter {
  import opened Text
  import opened Roster

  const CertificateSuffix := "_certificate.pdf"

  /** The download name of a student's certificate: every whitespace run of
      the name becomes `_`, then `_certificate.pdf` follows. */
  function CertificateFileName(studentName: string): (fileName: string)
    ensures EndsWith(fileName, CertificateSuffix)
    ensures NoWhitespace(fileName[..|fileName| - |CertificateSuffix|])
  {
    var stem := ReplaceWhitespaceRuns(studentName, "_");
    ReplaceLeavesNoWhitespace(studentName, "_");
    assert (stem + CertificateSuffix)[..|stem|] == stem;
    stem + CertificateSuffix
  }

  /** A name of words separated by single runs of whitespace gets one `_`
      between consecutive words. */
  lemma FileNameOfTwoWords(first: string, gap: string, second: string)
    requires first != [] && second != [] && NoWhitespace(first) && NoWhitespace(second)
    requires gap != [] && AllWhitespace(gap)
    ensures CertificateFileName(first + gap + second) == first + "_" + second + CertificateSuffix
  {
    ReplaceBetweenWords(first, gap, second, "_");
  }

  /** Example: `Jane Doe` downloads as `Jane_Doe_certificate.pdf`. */
  lemma JaneDoeFileName()
    ensures CertificateFileName("Jane Doe") == "Jane_Doe_certificate.pdf"
  {
    var first, gap, second := "Jane", " ", "Doe";
    assert first + "_" + second + CertificateSuffix == "Jane_Doe_certificate.pdf";
    assert first + gap + second == "Jane Doe";
    assert NoWhitespace(first) && NoWhitespace(second) && AllWhitespace(gap);
    FileNameOfTwoWords(first, gap, second);
  }

  // --------------------------------------------------------------- preview

  const PreviewSize := 5

  /** `csvData.slice(0, 5)`: the rows shown in the preview table. */
  function Preview(rows: seq<Row>): (shown: seq<Row>)
    ensures shown <= rows
    ensures |shown| == if |rows| < PreviewSize then |rows| else PreviewSize
  {
    rows[..if |rows| < PreviewSize then |rows| else PreviewSize]
  }

  /** Whether the "Showing 5 of N records" note is displayed. */
  predicate ShowsRecordCount(rows: seq<Row>) {
    |rows| > PreviewSize
  }

  /** The note appears exactly when the preview leaves rows out. */
  lemma PreviewNoteWhenTruncated(rows: seq<Row>)
    ensures ShowsRecordCount(rows) <==> |Preview(rows)| < |rows|
    ensures !ShowsRecordCount(rows) ==> Preview(rows) == rows
  {
  }

  // ------------------------------------------------------------- downloads

  /** One anchor that `downloadAllPdfs` creates and clicks. */
  datatype Link = Link(href: string, download: string)

  /** What one call of `downloadAllPdfs` does: the links clicked, in order, and
      whether it stopped on a `TypeError` because `csvData[index]` was
      undefined. */
  datatype DownloadRun = DownloadRun(links: seq<Link>, crashed: bool)

  /** `generatedPdfs.forEach((url, index) => ...)` naming each file after the
      row of `rows` at the same index. */
  function DownloadAll(pdfs: seq<string>, rows: seq<Row>): (run: DownloadRun)
    ensures |run.links| == if |pdfs| <= |rows| then |pdfs| else |rows|
    ensures forall k :: 0 <= k < |run.links| ==>
              run.links[k] == Link(pdfs[k], CertificateFileName(rows[k].studentName))
    ensures run.crashed <==> |pdfs| > |rows|
  {
    if pdfs == [] then DownloadRun([], false)
    else if rows == [] then DownloadRun([], true)
    else
      var rest := DownloadAll(pdfs[1..], rows[1..]);
      DownloadRun([Link(pdfs[0], CertificateFileName(rows[0].studentName))] + rest.links, rest.crashed)
  }
}
