/** The auditor's entry point (VucemValidatorController::validatePdf): the uploaded
    document is stored under `tmp/validador`, put through the five VUCEM checks
    (size, PDF version, greyscale, resolution, encryption), and deleted again. The
    document complies when every check passes.

    The external tools are parameters: `ghostscriptFound` says whether Ghostscript
    is installed, and each `…Run` is what the corresponding invocation would
    produce if its tool were there. */
module Compliance {
  import opened Text
  import opened Optional
  import opened Tools
  import opened FileSystem
  import opened VersionCheck
  import opened ColorCheck
  import opened DpiAudit
  import opened EncryptionCheck

  /** VUCEM's limit: 3 MB. */
  const MAX_SIZE_BYTES: nat := 3 * 1024 * 1024

  const UPLOAD_DIR := "tmp/validador"

  /** A tool invocation as the checks see it: nothing runs when the tool is missing. */
  function Run(found: bool, outcome: ToolRun): (r: ToolRun)
    ensures !found ==> r.NotFound?
    ensures found && !outcome.NotFound? ==> r == outcome
  {
    if found then outcome else NotFound
  }

  /** The `version` entry: the version found, or "No detectada" when there is none
      or PHP's `?:` finds it falsy. */
  function VersionValue(v: Option<string>): (s: string)
    ensures v.Some? && !PhpEmpty(v.value) ==> s == v.value
    ensures v.None? || PhpEmpty(v.value) ==> s == "No detectada"
  {
    if v.Some? && !PhpEmpty(v.value) then v.value else "No detectada"
  }

  /** `$dpiResult['status'] ?? ($dpiResult['is_valid'] ? 'ok' : 'error')`. */
  function DpiStatus(r: DpiCheck): (s: Status)
    ensures s != NoStatus
    ensures r.status != NoStatus ==> s == r.status
    ensures r.status == NoStatus ==> (s == StatusOk <==> r.isValid)
  {
    if r.status != NoStatus then r.status else if r.isValid then StatusOk else StatusError
  }

  datatype VersionEntry = VersionEntry(ok: bool, value: string)

  datatype Report = Report(sizeBytes: nat, sizeOk: bool, version: VersionEntry, grayscale: GrayCheck,
                           dpi: DpiCheck, dpiStatus: Status, encryption: EncryptionResult, allOk: bool)

  /** The five entries of `$checks` and the overall verdict: `collect($checks)->every(fn($c) => $c['ok'])`. */
  function Verdict(sizeBytes: nat, version: Option<string>, gray: GrayCheck, dpi: DpiCheck,
                   encryption: EncryptionResult): (r: Report)
    ensures r.sizeOk <==> sizeBytes <= MAX_SIZE_BYTES
    ensures r.version.ok <==> VersionOk(version)
    ensures r.allOk <==> r.sizeOk && r.version.ok && gray.isGray && dpi.isValid && encryption.isUnencrypted
    ensures r.sizeBytes == sizeBytes && r.grayscale == gray && r.dpi == dpi && r.encryption == encryption
    ensures r.dpiStatus == DpiStatus(dpi) && r.dpiStatus != NoStatus
  {
    var sizeOk := sizeBytes <= MAX_SIZE_BYTES;
    var versionOk := VersionOk(version);
    Report(sizeBytes, sizeOk, VersionEntry(versionOk, VersionValue(version)), gray, dpi, DpiStatus(dpi),
           encryption, sizeOk && versionOk && gray.isGray && dpi.isValid && encryption.isUnencrypted)
  }

  /** The greyscale and resolution checks, the two that need Ghostscript. */
  method ImageChecks(ghostscriptFound: bool, inkcovRun: ToolRun, rendered: Option<seq<byte>>,
                     pdfimagesRun: ToolRun, pageCount: int, estimates: seq<GsImage>)
    returns (gray: GrayCheck, dpi: DpiCheck)
    ensures GrayReport(Run(ghostscriptFound, inkcovRun), rendered, gray)
    ensures DpiReport(ghostscriptFound, pdfimagesRun, pageCount, estimates, dpi)
    ensures !ghostscriptFound ==> !gray.isGray && !dpi.isValid
  {
    gray := CheckGrayWithInkCov(Run(ghostscriptFound, inkcovRun), rendered);
    dpi := CheckDpi(ghostscriptFound, pdfimagesRun, pageCount, estimates);
  }

  /** What the report on a stored document says: its size against the 3 MB limit,
      its version against "1.4", the greyscale, resolution and encryption checks'
      verdicts, and the overall verdict as the conjunction of the five checks. */
  ghost predicate Describes(r: Report, content: string, ghostscriptFound: bool,
                      versionRun: ToolRun, inkcovRun: ToolRun, rendered: Option<seq<byte>>,
                      pdfimagesRun: ToolRun, pageCount: int, estimates: seq<GsImage>,
                      qpdfRun: ToolRun, openRun: ToolRun) {
    && r.sizeBytes == |content| && (r.sizeOk <==> |content| <= MAX_SIZE_BYTES)
    && (r.version.ok <==> PdfVersion(Run(ghostscriptFound, versionRun), Some(content)) == Some("1.4"))
    && r.version.value == VersionValue(PdfVersion(Run(ghostscriptFound, versionRun), Some(content)))
    && GrayReport(Run(ghostscriptFound, inkcovRun), rendered, r.grayscale)
    && DpiReport(ghostscriptFound, pdfimagesRun, pageCount, estimates, r.dpi)
    && r.dpiStatus == DpiStatus(r.dpi)
    && r.encryption == CheckEncryption(qpdfRun, Run(ghostscriptFound, openRun))
    && (r.allOk <==> |content| <= MAX_SIZE_BYTES && r.version.ok && r.grayscale.isGray && r.dpi.isValid &&
                     r.encryption.isUnencrypted)
    && (!ghostscriptFound ==> !r.allOk)
  }

  /** The five checks on a stored document, and the verdict. */
  method RunChecks(content: string, ghostscriptFound: bool,
                   versionRun: ToolRun, inkcovRun: ToolRun, rendered: Option<seq<byte>>,
                   pdfimagesRun: ToolRun, pageCount: int, estimates: seq<GsImage>,
                   qpdfRun: ToolRun, openRun: ToolRun)
    returns (r: Report)
    ensures Describes(r, content, ghostscriptFound, versionRun, inkcovRun, rendered, pdfimagesRun, pageCount, estimates,
                      qpdfRun, openRun)
    ensures !ghostscriptFound ==> !r.grayscale.isGray && !r.dpi.isValid
    ensures r.dpiStatus == DpiStatus(r.dpi)
  {
    var version := PdfVersion(Run(ghostscriptFound, versionRun), Some(content));
    var gray, dpi := ImageChecks(ghostscriptFound, inkcovRun, rendered, pdfimagesRun, pageCount, estimates);
    var encryption := CheckEncryption(qpdfRun, Run(ghostscriptFound, openRun));
    r := Verdict(|content|, version, gray, dpi, encryption);
    VerdictDescribes(content, ghostscriptFound, versionRun, inkcovRun, rendered, pdfimagesRun, pageCount, estimates,
                     qpdfRun, openRun, gray, dpi);
  }

  /** The verdict built from the five checks describes the stored document. */
  lemma VerdictDescribes(content: string, ghostscriptFound: bool,
                         versionRun: ToolRun, inkcovRun: ToolRun, rendered: Option<seq<byte>>,
                         pdfimagesRun: ToolRun, pageCount: int, estimates: seq<GsImage>,
                         qpdfRun: ToolRun, openRun: ToolRun, gray: GrayCheck, dpi: DpiCheck)
    requires GrayReport(Run(ghostscriptFound, inkcovRun), rendered, gray)
    requires DpiReport(ghostscriptFound, pdfimagesRun, pageCount, estimates, dpi)
    requires !ghostscriptFound ==> !gray.isGray && !dpi.isValid
    ensures Describes(Verdict(|content|, PdfVersion(Run(ghostscriptFound, versionRun), Some(content)), gray, dpi,
                              CheckEncryption(qpdfRun, Run(ghostscriptFound, openRun))),
                      content, ghostscriptFound, versionRun, inkcovRun, rendered, pdfimagesRun, pageCount, estimates,
                      qpdfRun, openRun)
  {
  }

  /** The part of `validatePdf` after the request validation: the document is
      stored as `stored` (a name `store` generates, so not yet in use), checked,
      and deleted again; the upload directory exists afterwards. */
  method CheckStored(disk: Disk, content: string, stored: Path, ghostscriptFound: bool,
                     versionRun: ToolRun, inkcovRun: ToolRun, rendered: Option<seq<byte>>,
                     pdfimagesRun: ToolRun, pageCount: int, estimates: seq<GsImage>,
                     qpdfRun: ToolRun, openRun: ToolRun)
    returns (r: Report)
    requires stored.dir == UPLOAD_DIR && stored !in disk.files
    modifies disk
    ensures disk.files == old(disk.files)
    ensures disk.dirs == old(disk.dirs) + {UPLOAD_DIR}
    ensures Describes(r, content, ghostscriptFound, versionRun, inkcovRun, rendered, pdfimagesRun, pageCount, estimates,
                      qpdfRun, openRun)
  {
    if UPLOAD_DIR !in disk.dirs {
      disk.MakeDir(UPLOAD_DIR);
    }
    disk.Write(stored, |content|);
    r := RunChecks(content, ghostscriptFound, versionRun, inkcovRun, rendered, pdfimagesRun, pageCount,
                   estimates, qpdfRun, openRun);
    disk.Unlink(stored);
    StoredCopyRemoved(old(disk.files), stored, |content|);
  }

  /** `validatePdf`: the request is refused, with nothing stored, unless the upload
      is a PDF of at most 51200 KiB; otherwise the document is checked. */
  method ValidatePdf(disk: Disk, isPdf: bool, content: string, stored: Path, ghostscriptFound: bool,
                     versionRun: ToolRun, inkcovRun: ToolRun, rendered: Option<seq<byte>>,
                     pdfimagesRun: ToolRun, pageCount: int, estimates: seq<GsImage>,
                     qpdfRun: ToolRun, openRun: ToolRun)
    returns (r: Option<Report>)
    requires stored.dir == UPLOAD_DIR && stored !in disk.files
    modifies disk
    ensures r.None? <==> !isPdf || |content| > MAX_UPLOAD_BYTES
    ensures disk.files == old(disk.files)
    ensures r.None? ==> disk.dirs == old(disk.dirs)
    ensures r.Some? ==> disk.dirs == old(disk.dirs) + {UPLOAD_DIR}
    ensures r.Some? ==> Describes(r.value, content, ghostscriptFound, versionRun, inkcovRun, rendered, pdfimagesRun,
                                    pageCount, estimates, qpdfRun, openRun)
  {
    if !isPdf || |content| > MAX_UPLOAD_BYTES {
      return None;
    }
    var report := CheckStored(disk, content, stored, ghostscriptFound, versionRun, inkcovRun, rendered,
                              pdfimagesRun, pageCount, estimates, qpdfRun, openRun);
    r := Some(report);
  }

  /** A document passes only with exactly version 1.4 and at most 3 MB: one byte
      more than 3 MB fails, whatever the other checks say. */
  lemma SizeLimitIsInclusive(gray: GrayCheck, dpi: DpiCheck, encryption: EncryptionResult)
    requires gray.isGray && dpi.isValid && encryption.isUnencrypted
    ensures Verdict(MAX_SIZE_BYTES, Some("1.4"), gray, dpi, encryption).allOk
    ensures !Verdict(MAX_SIZE_BYTES + 1, Some("1.4"), gray, dpi, encryption).allOk
    ensures !Verdict(MAX_SIZE_BYTES, Some("1.5"), gray, dpi, encryption).allOk
  {
  }
}
