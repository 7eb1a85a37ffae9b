/** The merge endpoint (app/Http/Controllers/PdfMergeController.php): between two and
    fifty uploaded PDFs are saved under numbered names in upload order, handed to
    the service's `mergePdfsKeepDpi`, and the result is returned for download under
    a sanitised name.

    The service defines no `mergePdfsKeepDpi`, so as written the call throws PHP's
    `Error`, which the controller's `catch (\Exception $e)` does not catch: the
    request ends in the framework's error page and the saved uploads stay on disk
    (`MergeAsWritten`). `Merge` models the endpoint with the merge the call
    intends, an oracle that, given the saved input paths, writes an output of some
    size, writes nothing, or throws an `Exception`; with it, every temporary file
    is removed whichever of the three happens. */
module MergeController {
  import opened Text
  import opened FileSystem

  const MIN_FILES: nat := 2
  const MAX_FILES: nat := 50
  const MAX_NAME_LENGTH: nat := 200
  const DEFAULT_NAME := "documento_combinado"
  const ERROR_PREFIX := "Error durante la combinación: "
  const NO_OUTPUT_MESSAGE := "Error al combinar los archivos."
  const UNDEFINED_METHOD_MESSAGE := "Call to undefined method App\\Services\\VucemPdfConverter::mergePdfsKeepDpi()"

  /** The characters `[a-zA-Z0-9_-]` the sanitiser keeps. */
  predicate IsNameChar(c: char) {
    'a' <= c <= 'z' || 'A' <= c <= 'Z' || IsDigit(c) || c == '_' || c == '-'
  }

  predicate IsCleanName(s: string) {
    forall i :: 0 <= i < |s| ==> IsNameChar(s[i])
  }

  /** `preg_replace('/[^a-zA-Z0-9_-]/', '_', $s)`: every other character becomes
      one underscore. */
  function Sanitize(s: string): (r: string)
    ensures |r| == |s|
    ensures IsCleanName(r)
    ensures forall i :: 0 <= i < |s| && IsNameChar(s[i]) ==> r[i] == s[i]
    ensures forall i :: 0 <= i < |s| && !IsNameChar(s[i]) ==> r[i] == '_'
  {
    if s == [] then []
    else [if IsNameChar(s[0]) then s[0] else '_'] + Sanitize(s[1..])
  }

  /** A name is left alone exactly when it is already clean. */
  lemma SanitizeKeepsClean(s: string)
    ensures Sanitize(s) == s <==> IsCleanName(s)
  {
  }

  lemma SanitizeIdempotent(s: string)
    ensures Sanitize(Sanitize(s)) == Sanitize(s)
  {
    SanitizeKeepsClean(Sanitize(s));
  }

  /** The default name consists of allowed characters only. */
  lemma DefaultNameIsClean()
    ensures IsCleanName(DEFAULT_NAME)
  {
    var s := DEFAULT_NAME;
    assert |s| == 19;
    assert s[0] == 'd' && s[1] == 'o' && s[2] == 'c' && s[3] == 'u' && s[4] == 'm' && s[5] == 'e' &&
           s[6] == 'n' && s[7] == 't' && s[8] == 'o' && s[9] == '_';
    assert s[10] == 'c' && s[11] == 'o' && s[12] == 'm' && s[13] == 'b' && s[14] == 'i' && s[15] == 'n' &&
           s[16] == 'a' && s[17] == 'd' && s[18] == 'o';
  }

  /** So sanitising the default leaves it as it is. */
  lemma DefaultNameUnchanged()
    ensures Sanitize(DEFAULT_NAME) == DEFAULT_NAME
  {
    DefaultNameIsClean();
    SanitizeKeepsClean(DEFAULT_NAME);
  }

  /** The `outputName` field of the request. */
  datatype NameField = Absent | Null | Given(value: string)

  /** `preg_replace(…, $request->input('outputName', 'documento_combinado'))`: the
      default applies only when the field is absent; a null field reads as null,
      which `preg_replace` turns into the empty string. */
  function OutputName(field: NameField): (r: string)
    ensures IsCleanName(r)
    ensures field.Absent? ==> r == DEFAULT_NAME
    ensures field.Null? ==> r == []
    ensures field.Given? ==> |r| == |field.value| && (IsCleanName(field.value) ==> r == field.value)
  {
    match field
    case Absent =>
      // the sanitiser leaves the default as it is
      DefaultNameIsClean();
      DEFAULT_NAME
    case Null => Sanitize([])
    case Given(s) =>
      SanitizeKeepsClean(s);
      Sanitize(s)
  }

  /** What the request validation accepts: 2 to 50 files, each a PDF of at most
      51200 KiB, and an output name of at most 200 characters when one is given. */
  predicate ValidRequest(uploads: seq<Upload>, field: NameField)
    ensures ValidRequest(uploads, field) ==> |OutputName(field)| <= MAX_NAME_LENGTH
  {
    MIN_FILES <= |uploads| <= MAX_FILES &&
    (forall k :: 0 <= k < |uploads| ==> uploads[k].isPdf && uploads[k].size <= MAX_UPLOAD_BYTES) &&
    (field.Given? ==> |field.value| <= MAX_NAME_LENGTH)
  }

  function InputName(uniqueId: string, index: nat): string {
    uniqueId + "_input_" + NatToString(index) + ".pdf"
  }

  function InputPath(uniqueId: string, index: nat): Path {
    Path(CONTROLLER_TEMP, InputName(uniqueId, index))
  }

  function MergedOutput(uniqueId: string): Path {
    Path(CONTROLLER_TEMP, uniqueId + "_merged.pdf")
  }

  /** The saved copies of the first `n` uploads, in upload order. */
  function InputPaths(uniqueId: string, n: nat): (ps: seq<Path>)
    ensures |ps| == n
    ensures forall k :: 0 <= k < n ==> ps[k] == InputPath(uniqueId, k)
  {
    seq(n, k requires 0 <= k => InputPath(uniqueId, k))
  }

  /** Distinct positions get distinct files, so no saved upload overwrites another. */
  lemma InputNamesDistinct(uniqueId: string, j: nat, k: nat)
    requires InputName(uniqueId, j) == InputName(uniqueId, k)
    ensures j == k
  {
    var a, b := InputName(uniqueId, j), InputName(uniqueId, k);
    var n := |uniqueId| + 7;
    assert a[n..|a| - 4] == NatToString(j);
    assert b[n..|b| - 4] == NatToString(k);
    NatToStringInjective(j, k);
  }

  /** Saving the next upload leaves the earlier saved copies as they were. */
  lemma SavingKeepsSaved(files: map<Path, nat>, uniqueId: string, uploads: seq<Upload>, index: nat)
    requires index < |uploads|
    requires forall k :: 0 <= k < index ==> Saved(files, InputPath(uniqueId, k), uploads[k])
    ensures forall k :: 0 <= k <= index ==>
      Saved(files[InputPath(uniqueId, index) := uploads[index].size], InputPath(uniqueId, k), uploads[k])
  {
    forall k | 0 <= k < index
      ensures Saved(files[InputPath(uniqueId, index) := uploads[index].size], InputPath(uniqueId, k), uploads[k])
    {
      if InputPath(uniqueId, k) == InputPath(uniqueId, index) {
        InputNamesDistinct(uniqueId, k, index);
      }
    }
  }

  /** The merged output is never one of the saved inputs. */
  lemma OutputIsNotAnInput(uniqueId: string, k: nat)
    ensures MergedOutput(uniqueId) != InputPath(uniqueId, k)
  {
    var n := |uniqueId|;
    assert MergedOutput(uniqueId).name[n + 1] == 'm';
    assert InputName(uniqueId, k)[n + 1] == 'i';
  }

  lemma OutputNotAmongInputs(uniqueId: string, n: nat)
    ensures MergedOutput(uniqueId) !in InputPaths(uniqueId, n)
  {
    forall k | 0 <= k < n ensures InputPaths(uniqueId, n)[k] != MergedOutput(uniqueId) {
      OutputIsNotAnInput(uniqueId, k);
    }
  }

  /** The `$totalSize` the log reports: the sum of the saved sizes. */
  function TotalSize(uploads: seq<Upload>): nat {
    if uploads == [] then 0 else TotalSize(uploads[..|uploads| - 1]) + uploads[|uploads| - 1].size
  }

  predicate Saved(files: map<Path, nat>, p: Path, upload: Upload) {
    p in files && files[p] == upload.size
  }

  /** The save loop: each upload is moved to `<id>_input_<index>.pdf`. */
  method SaveUploads(disk: Disk, uploads: seq<Upload>, uniqueId: string) returns (inputPaths: seq<Path>, totalSize: nat)
    modifies disk
    ensures inputPaths == InputPaths(uniqueId, |uploads|)
    ensures totalSize == TotalSize(uploads)
    ensures forall k :: 0 <= k < |uploads| ==> Saved(disk.files, inputPaths[k], uploads[k])
    ensures ChangedOnly(old(disk.files), disk.files, inputPaths)
    ensures disk.dirs == old(disk.dirs)
  {
    inputPaths := [];
    totalSize := 0;
    var index := 0;
    while index < |uploads|
      invariant 0 <= index <= |uploads|
      invariant inputPaths == InputPaths(uniqueId, index)
      invariant totalSize == TotalSize(uploads[..index])
      invariant forall k :: 0 <= k < index ==> Saved(disk.files, InputPath(uniqueId, k), uploads[k])
      invariant ChangedOnly(old(disk.files), disk.files, inputPaths)
      invariant disk.dirs == old(disk.dirs)
    {
      var path := InputPath(uniqueId, index);
      SavingKeepsSaved(disk.files, uniqueId, uploads, index);
      disk.Write(path, uploads[index].size);
      inputPaths := inputPaths + [path];
      assert uploads[..index + 1][..index] == uploads[..index];
      totalSize := totalSize + uploads[index].size;
      index := index + 1;
    }
    assert uploads[..index] == uploads;
  }

  /** What `mergePdfsKeepDpi` does, as far as the controller can tell. */
  datatype KeepDpiOutcome = Wrote(size: nat) | WroteNothing | Threw(message: string)

  /** What the endpoint answers. */
  datatype MergeResponse =
    | Rejected                                              // the validation failed
    | Download(name: string, size: nat, filesMerged: nat)   // the merged document
    | Failed(message: string)                               // the JSON error with status 500
    | Uncaught(error: string)                               // an `Error` escaped the handler: the framework's 500 page

  /** The answer the controller gives for what the merge did. */
  function Response(downloadName: string, count: nat, outcome: KeepDpiOutcome): (r: MergeResponse)
    ensures r != Rejected
    ensures r.Download? <==> outcome.Wrote?
    ensures r.Download? ==> r.name == downloadName && r.size == outcome.size && r.filesMerged == count
    ensures r.Failed? ==> |r.message| >= |ERROR_PREFIX| && r.message[..|ERROR_PREFIX|] == ERROR_PREFIX
  {
    match outcome
    case Wrote(size) => Download(downloadName, size, count)
    case WroteNothing => Failed(ERROR_PREFIX + NO_OUTPUT_MESSAGE)
    case Threw(message) => Failed(ERROR_PREFIX + message)
  }

  /** The `try` block once the uploads are saved: the merge runs, the response is
      built from what it left at `output`, and every temporary file is removed. */
  method MergeSaved(disk: Disk, inputPaths: seq<Path>, output: Path, downloadName: string, count: nat,
                    outcome: KeepDpiOutcome)
    returns (r: MergeResponse)
    requires output !in disk.files
    modifies disk
    ensures r == Response(downloadName, count, outcome)
    ensures output !in disk.files && forall k :: 0 <= k < |inputPaths| ==> inputPaths[k] !in disk.files
    ensures ChangedOnly(old(disk.files), disk.files, inputPaths + [output])
    ensures disk.dirs == old(disk.dirs)
  {
    if outcome.Wrote? {
      disk.Write(output, outcome.size);
    }
    if outcome.Threw? {
      r := Failed(ERROR_PREFIX + outcome.message);
    } else if output !in disk.files {
      r := Failed(ERROR_PREFIX + NO_OUTPUT_MESSAGE);
    } else {
      r := Download(downloadName, disk.files[output], count);
    }
    disk.DeleteFiles(inputPaths + [output]);
  }

  /** `merge($request)` past its validation: the uploads are saved, merged and
      removed. */
  method MergeUploads(disk: Disk, uploads: seq<Upload>, downloadName: string, uniqueId: string,
                      mergeKeepDpi: seq<Path> -> KeepDpiOutcome)
    returns (r: MergeResponse)
    requires MergedOutput(uniqueId) !in disk.files
    modifies disk
    ensures r == Response(downloadName, |uploads|, mergeKeepDpi(InputPaths(uniqueId, |uploads|)))
    ensures CONTROLLER_TEMP in disk.dirs && MergedOutput(uniqueId) !in disk.files
    ensures forall k :: 0 <= k < |uploads| ==> InputPath(uniqueId, k) !in disk.files
    ensures ChangedOnly(old(disk.files), disk.files, InputPaths(uniqueId, |uploads|) + [MergedOutput(uniqueId)])
  {
    if CONTROLLER_TEMP !in disk.dirs {
      disk.MakeDir(CONTROLLER_TEMP);
    }
    var inputPaths, totalSize := SaveUploads(disk, uploads, uniqueId);
    var output := MergedOutput(uniqueId);
    OutputNotAmongInputs(uniqueId, |uploads|);
    assert AgreeAt(old(disk.files), disk.files, output);
    ghost var saved := disk.files;
    r := MergeSaved(disk, inputPaths, output, downloadName, |uploads|, mergeKeepDpi(inputPaths));
    ChangedOnlyCompose(old(disk.files), saved, disk.files, inputPaths, inputPaths + [output]);
  }

  /** `merge($request)`. `uniqueId` is what `uniqid()` returns; nothing is stored
      under its merged-output name yet. */
  method Merge(disk: Disk, uploads: seq<Upload>, field: NameField, uniqueId: string,
               mergeKeepDpi: seq<Path> -> KeepDpiOutcome)
    returns (r: MergeResponse)
    requires MergedOutput(uniqueId) !in disk.files
    modifies disk
    ensures r == Rejected <==> !ValidRequest(uploads, field)
    ensures r == Rejected ==> disk.files == old(disk.files) && disk.dirs == old(disk.dirs)
    ensures ValidRequest(uploads, field) ==>
      r == Response(OutputName(field) + "_combinado.pdf", |uploads|, mergeKeepDpi(InputPaths(uniqueId, |uploads|)))
    ensures r != Rejected ==>
      CONTROLLER_TEMP in disk.dirs && MergedOutput(uniqueId) !in disk.files &&
      forall k :: 0 <= k < |uploads| ==> InputPath(uniqueId, k) !in disk.files
    ensures ChangedOnly(old(disk.files), disk.files, InputPaths(uniqueId, |uploads|) + [MergedOutput(uniqueId)])
  {
    if !ValidRequest(uploads, field) {
      return Rejected;
    }
    var outputName := OutputName(field);
    r := MergeUploads(disk, uploads, outputName + "_combinado.pdf", uniqueId, mergeKeepDpi);
  }

  /** `merge($request)` as written: past the validation the uploads are saved,
      and the call to the undefined `mergePdfsKeepDpi` throws an `Error` that the
      `catch (\Exception $e)` lets through, so neither cleanup runs and every saved
      upload stays on disk. */
  method MergeAsWritten(disk: Disk, uploads: seq<Upload>, field: NameField, uniqueId: string)
    returns (r: MergeResponse)
    modifies disk
    ensures r == Rejected <==> !ValidRequest(uploads, field)
    ensures r == Rejected ==> disk.files == old(disk.files) && disk.dirs == old(disk.dirs)
    ensures r != Rejected ==>
      r == Uncaught(UNDEFINED_METHOD_MESSAGE) && CONTROLLER_TEMP in disk.dirs &&
      forall k :: 0 <= k < |uploads| ==> Saved(disk.files, InputPath(uniqueId, k), uploads[k])
    ensures ChangedOnly(old(disk.files), disk.files, InputPaths(uniqueId, |uploads|))
  {
    if !ValidRequest(uploads, field) {
      return Rejected;
    }
    if CONTROLLER_TEMP !in disk.dirs {
      disk.MakeDir(CONTROLLER_TEMP);
    }
    var inputPaths, totalSize := SaveUploads(disk, uploads, uniqueId);
    r := Uncaught(UNDEFINED_METHOD_MESSAGE);
  }
}
