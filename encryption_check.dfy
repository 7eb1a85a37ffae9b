/** The auditor's encryption check (VucemValidatorController::checkEncryptionWithQpdf
    and checkEncryptionWithGs). qpdf's `--show-encryption` report decides when qpdf
    is installed and runs; otherwise Ghostscript is asked to open the document, and
    only an error that mentions a password or encryption counts against it. The
    check fails open: without either tool the document is taken as unencrypted. */
module EncryptionCheck {
  import opened Text
  import opened Tools

  datatype EncryptionDetail =
    | QpdfNotEncrypted
    | QpdfEncrypted
    | NoToolAvailable
    | OpenedByGhostscript
    | PasswordProtected
    | SeemsUnencrypted

  datatype EncryptionResult = EncryptionResult(isUnencrypted: bool, detail: EncryptionDetail)

  const NOT_ENCRYPTED_REPORT := "File is not encrypted"

  /** The `detail` text shown for each outcome. */
  function DetailText(d: EncryptionDetail): string {
    match d
    case QpdfNotEncrypted => "El archivo no está encriptado."
    case QpdfEncrypted => "El archivo está encriptado o protegido."
    case NoToolAvailable => "No se pudo verificar (qpdf/Ghostscript no disponibles). Se asume sin encriptar."
    case OpenedByGhostscript => "El archivo no está encriptado (verificado con Ghostscript)."
    case PasswordProtected => "El archivo está encriptado o protegido con contraseña."
    case SeemsUnencrypted => "El archivo parece no estar encriptado."
  }

  /** An error output that speaks of a password or of encryption, in any case. */
  predicate MentionsProtection(stderr: string) {
    ContainsIgnoringCase(stderr, "password") || ContainsIgnoringCase(stderr, "encrypt")
  }

  /** `checkEncryptionWithGs`, given how Ghostscript's attempt to open the document went. */
  function CheckEncryptionWithGs(gs: ToolRun): (r: EncryptionResult)
    ensures !r.isUnencrypted <==> gs.Failed? && MentionsProtection(gs.stderr)
    ensures r.isUnencrypted <==> r.detail != PasswordProtected
  {
    match gs
    case NotFound => EncryptionResult(true, NoToolAvailable)
    case Succeeded(_, _) => EncryptionResult(true, OpenedByGhostscript)
    case Failed(_, stderr) =>
      if MentionsProtection(stderr) then EncryptionResult(false, PasswordProtected)
      else EncryptionResult(true, SeemsUnencrypted)
  }

  /** `checkEncryptionWithQpdf`: qpdf's report when qpdf is found and succeeds,
      Ghostscript's attempt otherwise. */
  function CheckEncryption(qpdf: ToolRun, gs: ToolRun): (r: EncryptionResult)
    ensures qpdf.Succeeded? ==>
      (r.isUnencrypted <==> ContainsIgnoringCase(qpdf.stdout, NOT_ENCRYPTED_REPORT))
    ensures !qpdf.Succeeded? ==> r == CheckEncryptionWithGs(gs)
  {
    match qpdf
    case Succeeded(stdout, _) =>
      if ContainsIgnoringCase(stdout, NOT_ENCRYPTED_REPORT) then EncryptionResult(true, QpdfNotEncrypted)
      else EncryptionResult(false, QpdfEncrypted)
    case _ => CheckEncryptionWithGs(gs)
  }

  /** Without qpdf and Ghostscript the check passes. */
  lemma FailsOpen(qpdf: ToolRun)
    requires !qpdf.Succeeded?
    ensures CheckEncryption(qpdf, NotFound) == EncryptionResult(true, NoToolAvailable)
  {
  }

  /** qpdf's report is recognised anywhere in its output and in any letter case. */
  lemma ReportRecognised(pre: string, report: string, post: string, stderr: string, gs: ToolRun)
    requires Lower(report) == Lower(NOT_ENCRYPTED_REPORT)
    ensures CheckEncryption(Succeeded(pre + report + post, stderr), gs) == EncryptionResult(true, QpdfNotEncrypted)
  {
    ContainsIgnoringCaseAt(pre, report, post, NOT_ENCRYPTED_REPORT);
  }

  /** A Ghostscript error mentioning a password, anywhere and in any letter case,
      marks the document as protected when qpdf could not be used. */
  lemma PasswordErrorRejects(qpdf: ToolRun, stdout: string, pre: string, word: string, post: string)
    requires !qpdf.Succeeded? && Lower(word) == "password"
    ensures CheckEncryption(qpdf, Failed(stdout, pre + word + post)) == EncryptionResult(false, PasswordProtected)
  {
    assert Lower("password") == "password";
    ContainsIgnoringCaseAt(pre, word, post, "password");
  }
}
