/** The conversion endpoint (app/Http/Controllers/PdfConverterController.php): the
    upload is validated, moved into the controllers' temporary directory under a
    unique name, converted by the service, and returned for download named after
    the client's file; both temporary files are removed whatever happens. */
module ConverterController {
  import opened Optional
  import opened FileSystem
  import opened Converter

  /** VUCEM's size limit for a submitted document: 3 MiB. */
  const MAX_OUTPUT_SIZE: nat := 3 * 1024 * 1024

  const ERROR_PREFIX := "Error durante la conversión: "

  /** The part of `s` after its last `c`, or all of `s` when `c` does not occur. */
  function AfterLast(s: string, c: char): (r: string)
    ensures |r| <= |s| && r == s[|s| - |r|..]
    ensures c !in r
    ensures |r| < |s| ==> s[|s| - |r| - 1] == c
  {
    if s == [] then []
    else if s[|s| - 1] == c then []
    else
      var r := AfterLast(s[..|s| - 1], c) + [s[|s| - 1]];
      assert s[..|s| - 1][|s| - |r|..] + [s[|s| - 1]] == s[|s| - |r|..];
      r
  }

  /** The part of `s` before its last `c`, when `c` occurs in `s`. */
  function BeforeLast(s: string, c: char): (r: Option<string>)
    ensures r.None? <==> c !in s
    ensures r.Some? ==> |r.value| < |s| && r.value == s[..|r.value|] && s[|r.value|] == c &&
                        c !in s[|r.value| + 1..]
  {
    if s == [] then None
    else if s[|s| - 1] == c then Some(s[..|s| - 1])
    else
      var r := BeforeLast(s[..|s| - 1], c);
      assert c !in s[..|s| - 1] ==> c !in s;
      if r.Some? then
        assert s[|r.value| + 1..] == s[..|s| - 1][|r.value| + 1..] + [s[|s| - 1]];
        r
      else r
  }

  /** `pathinfo($name, PATHINFO_FILENAME)`: the last path component without its
      last extension. */
  function FileName(name: string): (r: string)
    ensures '/' !in r
    ensures |r| <= |name|
  {
    var base := AfterLast(name, '/');
    match BeforeLast(base, '.')
    case None => base
    case Some(stem) => stem
  }

  /** The extension of a client's "informe.pdf" is what is dropped: the stem comes
      back, dots inside it included. */
  lemma FileNameOfPdf(stem: string)
    requires '/' !in stem
    ensures FileName(stem + ".pdf") == stem
  {
    var name := stem + ".pdf";
    assert AfterLast(name, '/') == name by {
      assert '/' !in name;
    }
    assert name[|stem|] == '.' && name[|stem| + 1..] == "pdf";
  }

  /** Directories the client name carries are dropped. */
  lemma FileNameIgnoresDirectory(dir: string, base: string)
    requires '/' !in base
    ensures FileName(dir + "/" + base) == FileName(base)
  {
    var name := dir + "/" + base;
    var a := AfterLast(name, '/');
    assert AfterLast(base, '/') == base;
    assert name[|dir|] == '/' && name[|dir| + 1..] == base;
  }

  /** What Laravel's rule `required|file|mimes:pdf|max:51200` accepts. */
  predicate ValidUpload(upload: Upload) {
    upload.isPdf && upload.size <= MAX_UPLOAD_BYTES
  }

  function InputPath(uniqueId: string): Path {
    Path(CONTROLLER_TEMP, uniqueId + "_input.pdf")
  }

  function OutputPath(uniqueId: string): Path {
    Path(CONTROLLER_TEMP, uniqueId + "_VUSEM.pdf")
  }

  /** What the endpoint answers. */
  datatype ConvertResponse =
    | Rejected                                              // the validation failed
    | Download(name: string, size: nat, sizeWarning: bool)  // the converted document, with `X-Size-Warning` or not
    | Failed(message: string)                               // the JSON error with status 500

  lemma ControllerTempOutsideConversion(unique: string, time: nat)
    ensures CONTROLLER_TEMP != TempDirName(unique, time)
    ensures !IsSubdirOf(TempDirName(unique, time), CONTROLLER_TEMP)
  {
    assert |TempDirName(unique, time)| > |CONTROLLER_TEMP|;
  }

  /** Storing the upload in the controllers' directory leaves the service's future
      temporary directory fresh. */
  lemma StoreKeepsFresh(files: map<Path, nat>, dirs: set<string>, input: Path, size: nat, unique: string, time: nat)
    requires FreshDir(files, dirs, TempDirName(unique, time)) && input.dir == CONTROLLER_TEMP
    ensures FreshDir(files[input := size], dirs + {CONTROLLER_TEMP}, TempDirName(unique, time))
  {
    ControllerTempOutsideConversion(unique, time);
  }

  /** The part of `convert` after the upload has been moved to `input`: the service
      converts it into `output`, the response is built, and both files are removed. */
  method ConvertStored(disk: Disk, converter: VucemPdfConverter, clientName: string, input: Path, output: Path,
                       unique: string, time: nat, raster: map<string, nat>, rasterError: string,
                       gs: GsCall -> GsResult)
    returns (r: ConvertResponse, ghost conversion: Conversion, ghost pages: seq<Path>)
    requires FreshDir(disk.files, disk.dirs, TempDirName(unique, time))
    requires input in disk.files && output.dir != TempDirName(unique, time)
    modifies disk
    ensures r != Rejected
    ensures r.Download? <==> conversion == Converted
    ensures conversion.ConversionFailed? ==> r == Failed(ERROR_PREFIX + ErrorMessage(conversion.error, input))
    ensures converter.hasGhostscript && PageFiles(TempDirName(unique, time), raster) != {} ==>
      Converts(conversion, pages, old(disk.files), output, TempDirName(unique, time), raster, gs)
    ensures r.Download? && converter.hasGhostscript && PageFiles(TempDirName(unique, time), raster) != {} ==>
      var merged := MergeChain(old(disk.files) + PagesIn(TempDirName(unique, time), raster), pages, output,
                               TempDirName(unique, time), gs).files;
      output in merged && r.size == merged[output]
    ensures r.Download? ==>
      r.name == FileName(clientName) + "_VUCEM_300DPI.pdf" &&
      r.size >= MIN_OUTPUT_BYTES &&
      (r.sizeWarning <==> r.size > MAX_OUTPUT_SIZE)
    ensures r.Failed? ==> |r.message| >= |ERROR_PREFIX| && r.message[..|ERROR_PREFIX|] == ERROR_PREFIX
    ensures !converter.hasGhostscript ==>
      r == Failed(ERROR_PREFIX + ErrorMessage(GhostscriptUnavailable, input))
    ensures converter.hasGhostscript && (forall name :: name in raster ==> !IsPageFile(name)) ==>
      r == Failed(ERROR_PREFIX + ErrorMessage(NoPages(rasterError), input))
    ensures input !in disk.files && output !in disk.files
    ensures forall p: Path :: p.dir != TempDirName(unique, time) && p != input && p != output ==>
      AgreeAt(old(disk.files), disk.files, p)
  {
    var result;
    result, pages := converter.ConvertToVucem(disk, input, output, unique, time, raster, rasterError, gs);
    conversion := result;
    if result.ConversionFailed? {
      r := Failed(ERROR_PREFIX + ErrorMessage(result.error, input));
    } else {
      var size := disk.files[output];
      r := Download(FileName(clientName) + "_VUCEM_300DPI.pdf", size, size > MAX_OUTPUT_SIZE);
    }
    ghost var converted := disk.files;
    disk.DeleteFiles([input, output]);
    forall p: Path | p.dir != TempDirName(unique, time) && p != input && p != output
      ensures AgreeAt(old(disk.files), disk.files, p)
    {
      assert AgreeAt(old(disk.files), converted, p) && AgreeAt(converted, disk.files, p);
    }
  }

  /** `convert($request)`. `uniqueId` is what `uniqid()` returns; `unique`, `time`,
      `raster`, `rasterError` and `gs` are what the service sees (see
      `VucemPdfConverter.ConvertToVucem`). */
  method Convert(disk: Disk, converter: VucemPdfConverter, upload: Upload, uniqueId: string,
                 unique: string, time: nat, raster: map<string, nat>, rasterError: string,
                 gs: GsCall -> GsResult)
    returns (r: ConvertResponse, ghost conversion: Conversion, ghost pages: seq<Path>)
    requires FreshDir(disk.files, disk.dirs, TempDirName(unique, time))
    modifies disk
    ensures r == Rejected <==> !ValidUpload(upload)
    ensures ValidUpload(upload) ==> (r.Download? <==> conversion == Converted)
    ensures ValidUpload(upload) && conversion.ConversionFailed? ==>
      r == Failed(ERROR_PREFIX + ErrorMessage(conversion.error, InputPath(uniqueId)))
    ensures ValidUpload(upload) && converter.hasGhostscript && PageFiles(TempDirName(unique, time), raster) != {} ==>
      Converts(conversion, pages, old(disk.files)[InputPath(uniqueId) := upload.size], OutputPath(uniqueId),
               TempDirName(unique, time), raster, gs)
    ensures r == Rejected ==> disk.files == old(disk.files) && disk.dirs == old(disk.dirs)
    ensures r.Download? ==>
      r.name == FileName(upload.clientName) + "_VUCEM_300DPI.pdf" &&
      r.size >= MIN_OUTPUT_BYTES &&
      (r.sizeWarning <==> r.size > MAX_OUTPUT_SIZE)
    ensures r.Failed? ==> |r.message| >= |ERROR_PREFIX| && r.message[..|ERROR_PREFIX|] == ERROR_PREFIX
    ensures ValidUpload(upload) && !converter.hasGhostscript ==>
      r == Failed(ERROR_PREFIX + ErrorMessage(GhostscriptUnavailable, InputPath(uniqueId)))
    ensures ValidUpload(upload) && converter.hasGhostscript && (forall name :: name in raster ==> !IsPageFile(name)) ==>
      r == Failed(ERROR_PREFIX + ErrorMessage(NoPages(rasterError), InputPath(uniqueId)))
    ensures r != Rejected ==> InputPath(uniqueId) !in disk.files && OutputPath(uniqueId) !in disk.files
    ensures forall p: Path :: p.dir != TempDirName(unique, time) && p != InputPath(uniqueId) && p != OutputPath(uniqueId) ==>
      AgreeAt(old(disk.files), disk.files, p)
  {
    conversion, pages := ConversionFailed(InputMissing), [];
    if !ValidUpload(upload) {
      return Rejected, conversion, pages;
    }
    var input := InputPath(uniqueId);
    var output := OutputPath(uniqueId);
    if CONTROLLER_TEMP !in disk.dirs {
      disk.MakeDir(CONTROLLER_TEMP);
    }
    StoreKeepsFresh(disk.files, disk.dirs, input, upload.size, unique, time);
    disk.Write(input, upload.size);
    ghost var stored := disk.files;
    r, conversion, pages := ConvertStored(disk, converter, upload.clientName, input, output, unique, time, raster, rasterError, gs);
    forall p: Path | p.dir != TempDirName(unique, time) && p != input && p != output
      ensures AgreeAt(old(disk.files), disk.files, p)
    {
      assert AgreeAt(old(disk.files), stored, p) && AgreeAt(stored, disk.files, p);
    }
  }
}
