# VUCEM PDF converter and validator — a Dafny model

VUCEM, Mexico's single window for foreign trade, accepts a scanned document only
if it meets five conditions:

- it is at most 3 MB;
- it is PDF version 1.4;
- it is in greyscale;
- its images are at exactly 300 DPI;
- it is not encrypted.

The Laravel application modelled here has the following parts.

- **The auditor** (`VucemValidatorController`) stores an uploaded PDF and runs the
  five checks on it. It asks Ghostscript, Poppler's `pdfimages` and qpdf, and reads
  their output. It reports each check and an overall verdict.
- **The conversion service** (`VucemPdfConverter`) has Ghostscript rasterise a
  document into one 300 DPI greyscale PDF per page. It sorts the page files by
  number. It merges them back with a chain of fallback strategies, and then
  removes its temporary directory.
- **The conversion endpoint** (`PdfConverterController::convert`) validates the
  upload, stores it, has the service convert it, and returns the result for
  download. It then deletes both temporary files.
- **The merge endpoint** (`PdfMergeController::merge`) validates 2 to 50 uploads
  and sanitises the requested output name. It saves the uploads in order and then
  calls `mergePdfsKeepDpi` on the conversion service, a method the service does not
  define. As written, every valid request therefore ends in an uncaught PHP `Error`
  after the uploads are saved, and no temporary file is deleted. The model states
  that, and separately models the merge the code evidently intends: merge, answer
  with the merged file, delete every temporary file.
- **The merge page** (`resources/js/merge.js`) lets the user pick, reorder and
  remove PDFs, then submits them.
- **The conversion page** (`public/js/upload.js`) keeps a queue of PDFs. Each item
  is sent for conversion in turn, with a simulated progress bar.

## How the model is organised

| file | module | what it holds |
|---|---|---|
| `optional.dfy` | `Optional` | `Option` for PHP `null` and missing entries |
| `text.dfy` | `Text` | character classes, `trim`, `explode`, `preg_split` on line breaks, `stripos`, decimal rendering |
| `ordering.dfy` | `Ordering` | ascending enumeration of a set of page numbers (`ksort`) |
| `tools.dfy` | `Tools` | one run of an external tool: not found, failed, or succeeded, with its outputs |
| `file_system.dfy` | `FileSystem` | files as a map from path to size, directories as a set; the class `Disk` with `Write`, `Unlink`, `MakeDir`, `RemoveDir` and `DeleteFiles` |
| `pdfimages_list.dfy` | `PdfImagesList` | reading one row of `pdfimages -list`, and the rounded average resolution |
| `dpi_audit.dfy` | `DpiAudit` | the auditor's resolution check: the table, the Ghostscript estimate, and `checkDpi` |
| `version_check.dfy` | `VersionCheck` | the PDF version, from Ghostscript or from the file header |
| `color_check.dfy` | `ColorCheck` | the greyscale check: ink coverage, and the sampling of a rendered PPM |
| `encryption_check.dfy` | `EncryptionCheck` | the encryption check through qpdf or Ghostscript |
| `compliance.dfy` | `Compliance` | `validatePdf`: the five checks and the verdict |
| `converter.dfy` | `Converter` | the conversion service as a class over a `Disk` |
| `converter_controller.dfy` | `ConverterController` | the conversion endpoint |
| `merge_controller.dfy` | `MergeController` | the merge endpoint |
| `picked_files.dfy` | `PickedFiles` | the PDF filter both pages apply to picked or dropped files |
| `merge_form.dfy` | `MergePage` | the merge page as a class `MergeForm` |
| `upload_queue.dfy` | `UploadPage` | the conversion page as a class `UploadQueue` |

The model treats everything it cannot see as a parameter:

- the external tools: Ghostscript, `pdfimages` and qpdf, and, in the intended merge
  only, the merge service that `mergePdfsKeepDpi` was evidently meant to be;
- `uniqid()`, `time()`, and the ids `Date.now() + Math.random()`;
- the replies the pages receive.

A tool's result is a `ToolRun`. A Ghostscript invocation inside the converter is a
function from the call to what it writes. Strings are sequences of characters, each
of which stands for one byte.

Where the description of the system and the code disagree, the model follows the
code:

- The resolution rule is the one the code applies. The average of the two axes is
  rounded half up and must equal 300, so a 300×299 image passes
  (`PdfImagesList.AverageRuleAcceptsUnequalAxes`). It does not demand 300 on each
  axis.
- The merge strategies demand more than 100 bytes, but the check after the
  pairwise strategy accepts exactly 100 (`Converter.HundredByteOutputAccepted`).

The exceptions are the defects listed under "## Findings". There the model keeps
the code as written in a member of its own, and the rest of the model is built on
the corrected member. In particular, when `pdfimages` is missing or fails, the
resolution check uses the corrected Ghostscript estimate (`DpiAudit.GhostscriptCheck`),
so a document whose estimated images are all at 300 passes. As written, such a
document is rejected (`DpiAudit.AsWrittenRejectsEveryImage`).

## Model

| member | source | states |
|---|---|---|
| Text.NatToString | app/Http/Controllers/VucemValidatorController.php:575-584 | the decimal rendering of a number is non-empty, all digits, and reads back as the same number |
| Text.NatToStringInjective | app/Services/VucemPdfConverter.php:150 | different numbers render differently, so generated names such as `merged_<i>.pdf` never collide |
| Text.DigitsValue | app/Services/VucemPdfConverter.php:72 | `intval` of a digit run is zero exactly when every digit is `0` |
| Text.Split | app/Http/Controllers/VucemValidatorController.php:482 | `explode` gives at least one piece, no piece contains the separator, and joining the pieces back gives the original text |
| Text.SplitLines | app/Http/Controllers/VucemValidatorController.php:201 | `preg_split` on `\r\n`, `\r` or `\n` gives the pieces of the text between line breaks, with every break read as `\n`: joined back with `\n` they give the text with its breaks normalised, and a text without `\r` exactly; no line contains a break |
| Text.NormalizeBreaks | app/Http/Controllers/VucemValidatorController.php:201 | the text the break pattern sees: no carriage return is left, and a text without one is unchanged |
| Text.TrimWith | app/Http/Controllers/VucemValidatorController.php:126-133 | trimming yields an infix whose ends are not stripped characters; text made only of stripped characters trims to empty |
| Text.TrimAround | app/Http/Controllers/VucemValidatorController.php:126-133 | trimming a core framed by strippable characters returns exactly that core |
| Text.TrimFrame | app/Http/Controllers/VucemValidatorController.php:126-133 | trimming keeps the infix starting after the leading stripped characters, and every character outside it is one the character list strips |
| Text.Trim | app/Http/Controllers/VucemValidatorController.php:127 | `trim` with its default list keeps an infix framed only by blanks, and that infix neither starts nor ends with a blank |
| Text.Contains | app/Http/Controllers/VucemValidatorController.php:866-871 | `strpos` never finds a needle longer than the text, and always finds the empty needle |
| Text.ContainsAt | app/Http/Controllers/VucemValidatorController.php:866-871 | a needle that occurs at some offset is found by `strpos` |
| Text.ContainsWitness | app/Http/Controllers/VucemValidatorController.php:866-871 | conversely, `strpos` finds a needle only where it occurs |
| Text.ContainsIgnoringCase | app/Http/Controllers/VucemValidatorController.php:967-973 | `stripos` finds every needle `strpos` finds |
| Text.LowerKeepsContains | app/Http/Controllers/VucemValidatorController.php:967-973 | an occurrence is still one after both texts are lower-cased |
| Text.ContainsIgnoringCaseAt | app/Http/Controllers/VucemValidatorController.php:967-973 | `stripos` finds a word wherever it stands and whatever the case of its ASCII letters |
| Ordering.Ascending | app/Http/Controllers/VucemValidatorController.php:572 | `ksort` of the page numbers gives each of them exactly once, in strictly increasing order |
| Ordering.IncreasingUnique | app/Http/Controllers/VucemValidatorController.php:572 | there is only one such order: two increasing sequences with the same elements are equal |
| FileSystem.Disk.Write | app/Http/Controllers/PdfMergeController.php:52 | moving or writing a file sets its size and changes nothing else |
| FileSystem.Disk.WriteAll | app/Services/VucemPdfConverter.php:53-59 | Ghostscript's page split adds its files and changes nothing else |
| FileSystem.Disk.Unlink | app/Services/VucemPdfConverter.php:286 | `@unlink` removes exactly that file, silently when it is absent |
| FileSystem.Disk.MakeDir | app/Http/Controllers/PdfMergeController.php:44-46 | `mkdir` adds the directory and touches no file |
| FileSystem.Disk.RemoveDir | app/Services/VucemPdfConverter.php:290 | `@rmdir` succeeds exactly on an existing empty directory, and removes only it |
| FileSystem.Disk.DeleteFiles | app/Http/Controllers/PdfMergeController.php:112-119 | `cleanupFiles` removes exactly the listed files that exist |
| FileSystem.StoredCopyRemoved | app/Http/Controllers/VucemValidatorController.php:87 | a file stored under a new name and deleted again leaves the files as they were |
| FileSystem.ChangedOnlyCompose | app/Http/Controllers/PdfMergeController.php:48-103 | two steps that each change only listed files together change only listed files |
| PickedFiles.Accepted | resources/js/merge.js:71-79 | the accepted files are PDFs taken from the batch, no more of them than were picked |
| PickedFiles.PicksPartition | public/js/upload.js:72-78 | every picked file is either accepted or named among the rejected |
| PickedFiles.AcceptedKeepsEveryPdf | resources/js/merge.js:71-79 | a file is accepted exactly when its MIME type is `application/pdf` or its lower-cased name ends in `.pdf` |
| PickedFiles.AcceptedAppend | resources/js/merge.js:85-89 | filtering two batches in turn keeps arrival order: the later batch's PDFs follow the earlier ones |
| PickedFiles.AllPdfsAccepted | resources/js/merge.js:71-79 | a batch of PDFs only is taken whole and in order |
| PickedFiles.RejectionAlert | resources/js/merge.js:81-83 | an alert is shown exactly when some file was refused |
| PickedFiles.SplitPicks | public/js/upload.js:72-78 | the `forEach` collects exactly the accepted files and the names of the rejected ones, in order |
| PdfImagesList.MatchRow | app/Http/Controllers/VucemValidatorController.php:496 | a line is read as an image row exactly when its whitespace-separated fields have the classes the pattern's groups demand; the captured columns are those fields' values |
| PdfImagesList.AuditorRowsAreConverterRows | app/Http/Controllers/VucemValidatorController.php:496 | every row the auditor's stricter pattern reads, the converter's pattern reads with the same values |
| PdfImagesList.NonRowLines | app/Http/Controllers/VucemValidatorController.php:496 | the table's header and rule lines, whose first non-blank character is not a digit, are not rows |
| PdfImagesList.AverageDpi | app/Http/Controllers/VucemValidatorController.php:509 | the rounded average lies within half a unit of the mean of the two axes; it is 300 exactly when the two sum to 599 or 600 |
| PdfImagesList.AverageRuleAcceptsUnequalAxes | app/Http/Controllers/VucemValidatorController.php:509-512 | the rule admits 300×299 and 301×299 but not 299×299 |
| DpiAudit.Dpis | app/Http/Controllers/VucemValidatorController.php:538-556 | one resolution per image, in image order |
| DpiAudit.SeqMin | app/Http/Controllers/VucemValidatorController.php:546-548 | a page's lowest resolution is one of its resolutions and at most all of them |
| DpiAudit.SeqMax | app/Http/Controllers/VucemValidatorController.php:549-551 | a page's highest resolution is one of its resolutions and at least all of them |
| DpiAudit.Images | app/Http/Controllers/VucemValidatorController.php:482-535 | at most one image per table line, each valid exactly when its rounded resolution is 300 |
| DpiAudit.Summary | app/Http/Controllers/VucemValidatorController.php:538-556 | a page entry carries one resolution per image of the page, and its lowest is at most its highest |
| DpiAudit.WidenEntry | app/Http/Controllers/VucemValidatorController.php:538-556 | one image updates its page entry's bounds, list and validity as the loop body does |
| DpiAudit.AddToPage | app/Http/Controllers/VucemValidatorController.php:538-556 | after grouping one more image, `$pages` agrees with the images read so far |
| DpiAudit.AddRow | app/Http/Controllers/VucemValidatorController.php:496-556 | a matched row appends its image, keeps `$pages` in agreement, and keeps `is_valid` and `$invalidImages` counting the invalid images |
| DpiAudit.ReadTable | app/Http/Controllers/VucemValidatorController.php:482-556 | the loop reads exactly the rows the pattern matches; `$pages` summarises them page by page; the document is valid exactly when no image is invalid |
| DpiAudit.DetailLines | app/Http/Controllers/VucemValidatorController.php:572-584 | one detail line per page with images, in ascending page order, each carrying that page's bounds and verdict |
| DpiAudit.LinesInOrder | app/Http/Controllers/VucemValidatorController.php:572-584 | lines built in the `ksort` order of the pages describe the pages |
| DpiAudit.CheckListedImages | app/Http/Controllers/VucemValidatorController.php:465-601 | the table's images decide; no images gives "no raster images" and passes; otherwise the status is `ok` exactly when every image is at 300 |
| DpiAudit.ImagesAreStrict | app/Http/Controllers/VucemValidatorController.php:512 | each image's verdict is its own resolution being exactly 300 |
| DpiAudit.OneImagePerRow | app/Http/Controllers/VucemValidatorController.php:496-535 | there is one image per matching line and none for any other line |
| DpiAudit.OnPageMembers | app/Http/Controllers/VucemValidatorController.php:538-556 | a page's images are exactly the listed images with that page number |
| DpiAudit.DpisMembers | app/Http/Controllers/VucemValidatorController.php:555 | a resolution is among the listed ones exactly when some image has it |
| DpiAudit.PageValidIffUniform300 | app/Http/Controllers/VucemValidatorController.php:537-555 | a page is valid exactly when its lowest and its highest resolution are both 300 |
| DpiAudit.DocumentValidIffPagesValid | app/Http/Controllers/VucemValidatorController.php:589-600 | the document passes exactly when no image is invalid, that is, exactly when every page passes |
| DpiAudit.NoInvalidIffAllValid | app/Http/Controllers/VucemValidatorController.php:514-521 | an empty `$invalidImages` means every image is valid, and conversely |
| DpiAudit.PageBounds | app/Http/Controllers/VucemValidatorController.php:546-551 | every resolution on a page lies between the page's bounds, and both bounds occur on the page |
| DpiAudit.OneMoreImage | app/Http/Controllers/VucemValidatorController.php:538-556 | an extra image joins only its own page and adds one to the invalid count when it is invalid |
| DpiAudit.EstimatedImages | app/Http/Controllers/VucemValidatorController.php:725-799 | the estimate keeps exactly the images on the first ten pages whose sides both exceed 50 pixels |
| DpiAudit.MinBoundNeverInt300 | app/Http/Controllers/VucemValidatorController.php:714-800 | the running minimum is a PHP float once an image is seen, so it is never the int 300 |
| DpiAudit.BoundsAsWritten | app/Http/Controllers/VucemValidatorController.php:714-800 | the running bounds enclose every resolution seen |
| DpiAudit.GhostscriptVerdictAsWritten | app/Http/Controllers/VucemValidatorController.php:673 | as written, the check accepts only documents whose images are all at 300 |
| DpiAudit.AsWrittenRejectsEveryImage | app/Http/Controllers/VucemValidatorController.php:673 | as written, the Ghostscript check passes exactly when no image was found |
| DpiAudit.AsWrittenRejectsExact300 | app/Http/Controllers/VucemValidatorController.php:673 | as written, a document whose images are all at exactly 300 DPI fails |
| DpiAudit.GhostscriptCheck | app/Http/Controllers/VucemValidatorController.php:663-705 | with the comparison made on values, the estimate passes exactly when every image is at 300; no image passes as "no raster images"; a failure reports the bounds |
| DpiAudit.CheckDpi | app/Http/Controllers/VucemValidatorController.php:359-383 | without Ghostscript the check fails with no status; when `pdfimages` ran, its table decides: the status is `ok` exactly when every listed image is at 300, a table without images reports no raster images, and otherwise the per-page detail and the invalid count are those of the table; when it did not run, the corrected Ghostscript estimate (`GhostscriptCheck`) decides, which accepts a document whose estimated images are all at 300 where the code as written rejects it |
| DpiAudit.PageLineText | app/Http/Controllers/VucemValidatorController.php:575-582 | a detail line ends in a tick exactly when its page is valid |
| VersionCheck.VersionAt | app/Http/Controllers/VucemValidatorController.php:154-156 | a match at an offset is a `digits.digits` version preceded there by `%PDF-` |
| VersionCheck.VersionFrom | app/Http/Controllers/VucemValidatorController.php:154-156 | a match found from an offset is a `digits.digits` version preceded by `%PDF-` at or after that offset |
| VersionCheck.VersionFromLeftmost | app/Http/Controllers/VucemValidatorController.php:154-156 | `preg_match` finds nothing exactly when no offset matches, and otherwise returns the match at the leftmost offset that matches |
| VersionCheck.Header | app/Http/Controllers/VucemValidatorController.php:150 | `fread` takes the first 20 bytes, or the whole file when it is shorter |
| VersionCheck.VersionFromFile | app/Http/Controllers/VucemValidatorController.php:142-159 | a version read from the file is a `digits.digits` text preceded by `%PDF-` in its first 20 bytes; an unreadable file gives none |
| VersionCheck.VersionAtStart | app/Http/Controllers/VucemValidatorController.php:154-156 | at the start of the header, the greedy digit runs around the dot are the version |
| VersionCheck.StandardMarker | app/Http/Controllers/VucemValidatorController.php:154-156 | a header `%PDF-major.minor` followed by a non-digit matches with exactly that version |
| VersionCheck.HeaderRoundTrip | app/Http/Controllers/VucemValidatorController.php:142-159 | a file starting with `%PDF-major.minor` is read back as `major.minor` |
| VersionCheck.GhostscriptVersion | app/Http/Controllers/VucemValidatorController.php:126-133 | an accepted Ghostscript answer is a non-empty run of digits and dots that stands in the output, with only blanks, quotes and line breaks around it |
| VersionCheck.QuotedVersionRecovered | app/Http/Controllers/VucemValidatorController.php:126-133 | a version printed in quotes, with blanks around it, is recovered exactly |
| VersionCheck.PlainVersionRecovered | app/Http/Controllers/VucemValidatorController.php:126-133 | a version printed with blanks around it is recovered exactly |
| VersionCheck.ComposeFrames | app/Http/Controllers/VucemValidatorController.php:127-129 | the two `trim` calls together keep the version at the sum of their offsets, with only blanks, quotes and line breaks around it |
| VersionCheck.PdfVersion | app/Http/Controllers/VucemValidatorController.php:96-137 | Ghostscript's answer wins when it ran and gave a usable version; otherwise the file header decides |
| ColorCheck.InkThreshold | app/Http/Controllers/VucemValidatorController.php:217-220 | the ink threshold is strict: a coverage of exactly 0.0001 is no ink, 0.00011 is ink |
| ColorCheck.Pow10Add | app/Http/Controllers/VucemValidatorController.php:211-217 | powers of ten multiply by adding exponents, so a decimal keeps its value when digits and scale grow together |
| ColorCheck.InkIsAboveThreshold | app/Http/Controllers/VucemValidatorController.php:217 | the ink test is `floatval($x) > 0.0001` on the exact value: the decimal `num / 10^scale` exceeds 0.0001 |
| ColorCheck.InkIgnoresTrailingZeros | app/Http/Controllers/VucemValidatorController.php:211-217 | trailing zeros after the dot never change the verdict |
| ColorCheck.IsColourPage | app/Http/Controllers/VucemValidatorController.php:217-220 | a page is in colour exactly when its cyan, magenta or yellow coverage exceeds 0.0001 |
| ColorCheck.NumberLen | app/Http/Controllers/VucemValidatorController.php:209 | the greedy number at the start of a digit-led text takes at least one character and no more than the text |
| ColorCheck.GroupAt | app/Http/Controllers/VucemValidatorController.php:209 | a group ends where the next group's digit starts |
| ColorCheck.NumberParts | app/Http/Controllers/VucemValidatorController.php:209 | a number with known digit runs around its dot has that length and that decimal value |
| ColorCheck.NumberOf | app/Http/Controllers/VucemValidatorController.php:209 | a printed number is read with its whole length and exact value |
| ColorCheck.GroupOf | app/Http/Controllers/VucemValidatorController.php:209 | a printed number followed by blanks and a digit is one group carrying its value |
| ColorCheck.LastGroupsOf | app/Http/Controllers/VucemValidatorController.php:209 | the magenta and yellow groups are read back with their values |
| ColorCheck.InkAtParts | app/Http/Controllers/VucemValidatorController.php:209 | the cyan, magenta and yellow groups of a coverage line are read back with their values |
| ColorCheck.NoMatchInLeadingBlank | app/Http/Controllers/VucemValidatorController.php:209 | the unanchored pattern cannot start inside the blank indentation of a line |
| ColorCheck.InkFromLeftmost | app/Http/Controllers/VucemValidatorController.php:209 | `preg_match` of the coverage pattern finds nothing exactly when no offset starts a match, and otherwise reads the match at the leftmost offset |
| ColorCheck.InkLineRoundTrip | app/Http/Controllers/VucemValidatorController.php:209 | a page line as the inkcov device prints it is read back with its cyan, magenta and yellow coverage |
| ColorCheck.ColourPagesAmongPages | app/Http/Controllers/VucemValidatorController.php:206-222 | no more pages are counted as coloured than are counted at all |
| ColorCheck.InkPages | app/Http/Controllers/VucemValidatorController.php:206-222 | `$totalPages` counts at most one page per line |
| ColorCheck.NoInkPages | app/Http/Controllers/VucemValidatorController.php:224-227 | no page is counted, so the rendering decides, exactly when no line reads as a page |
| ColorCheck.NoColourPages | app/Http/Controllers/VucemValidatorController.php:229-234 | no page is counted as coloured exactly when no line reads as a coloured page |
| ColorCheck.CountPages | app/Http/Controllers/VucemValidatorController.php:206-222 | the loop counts the lines that read as pages and those with colour; the document is grey exactly when none has colour |
| ColorCheck.CheckGrayWithInkCov | app/Http/Controllers/VucemValidatorController.php:161-240 | no Ghostscript fails, and so does empty output; otherwise the document is grey exactly when no line reads as a coloured page, and the rendering decides when no line reads as a page; when some line reads as a page, the detail is "all N pages grey" or "X of N pages in colour" with N the pages read and X the coloured ones, at least one and at most N |
| ColorCheck.ColorAlternative | app/Http/Controllers/VucemValidatorController.php:245-303 | no Ghostscript or no rendering fails; otherwise the render is grey exactly when the sampler finds no colour |
| ColorCheck.ReadLine | app/Http/Controllers/VucemValidatorController.php:316-328 | `fgets` returns the bytes from the position through the next line feed, or the rest, and fails only at the end |
| ColorCheck.AfterComments | app/Http/Controllers/VucemValidatorController.php:323-325 | skipping comments never moves backwards or past the end |
| ColorCheck.PixelStart | app/Http/Controllers/VucemValidatorController.php:316-328 | the pixel data starts within the file |
| ColorCheck.ColourSample | app/Http/Controllers/VucemValidatorController.php:331-347 | no more coloured pixels are counted than pixels sampled or whole triples present |
| ColorCheck.SkipHeader | app/Http/Controllers/VucemValidatorController.php:323-328 | the header reads stop after the comments, the dimensions and the maximum value |
| ColorCheck.CountColourPixels | app/Http/Controllers/VucemValidatorController.php:331-347 | the sampling loop counts the coloured pixels among at most 10000 whole triples, stopping at a short read |
| ColorCheck.CheckPpmForColor | app/Http/Controllers/VucemValidatorController.php:308-353 | an unreadable file or a missing `P6`/`P3` magic counts as colour; otherwise colour means more than 1% of the 10000 sampled pixels are coloured |
| ColorCheck.PpmHasColor | app/Http/Controllers/VucemValidatorController.php:308-353 | a readable PPM is reported in colour only when its pixel data holds at least 101 whole pixels |
| ColorCheck.SmallRenderIsGray | app/Http/Controllers/VucemValidatorController.php:331-352 | a render with at most 300 bytes of pixel data can never reach the colour threshold |
| ColorCheck.SampleIgnoresTail | app/Http/Controllers/VucemValidatorController.php:331-347 | bytes after the sampled pixels never change the count |
| ColorCheck.GrayPixelsNeverCount | app/Http/Controllers/VucemValidatorController.php:343-346 | pixels whose channels agree within the tolerance are never counted as coloured |
| EncryptionCheck.CheckEncryptionWithGs | app/Http/Controllers/VucemValidatorController.php:930-979 | the document is reported encrypted exactly when Ghostscript failed with an error mentioning a password or encryption |
| EncryptionCheck.CheckEncryption | app/Http/Controllers/VucemValidatorController.php:841-877 | qpdf's report decides when qpdf ran successfully, encrypted exactly when it lacks "not encrypted"; otherwise Ghostscript decides |
| EncryptionCheck.FailsOpen | app/Http/Controllers/VucemValidatorController.php:935-940 | with neither qpdf nor Ghostscript the check passes |
| EncryptionCheck.ReportRecognised | app/Http/Controllers/VucemValidatorController.php:866-871 | qpdf's "not encrypted" is recognised anywhere in its output and in any case |
| EncryptionCheck.PasswordErrorRejects | app/Http/Controllers/VucemValidatorController.php:967-973 | a Ghostscript error mentioning a password, anywhere and in any case, rejects the document |
| Compliance.Run | app/Http/Controllers/VucemValidatorController.php:101-104 | a missing tool produces no run; a present one produces its outcome |
| Compliance.VersionValue | app/Http/Controllers/VucemValidatorController.php:53 | the shown version is the one found, or "No detectada" when none was found or it is PHP-empty |
| Compliance.DpiStatus | app/Http/Controllers/VucemValidatorController.php:70 | the status shown is the check's own status, or `ok`/`error` from its verdict when it has none |
| Compliance.Verdict | app/Http/Controllers/VucemValidatorController.php:36-84 | the size passes up to 3 MB inclusive; the version passes only as "1.4"; the document complies exactly when all five checks pass |
| Compliance.ImageChecks | app/Http/Controllers/VucemValidatorController.php:56-73 | the greyscale entry is the ink-coverage check run on the Ghostscript result, and the resolution entry is `checkDpi` run on the `pdfimages` table or, when that did not run, the corrected Ghostscript estimate (`GhostscriptCheck`); without Ghostscript neither passes |
| Compliance.RunChecks | app/Http/Controllers/VucemValidatorController.php:35-84 | the report holds the size entry, the version entry (its verdict against "1.4" and the shown text, the version or "No detectada"), the encryption entry, the greyscale and resolution entries of `ImageChecks` (the latter with the corrected Ghostscript estimate) and the resolution status `ok` or `error`; the verdict is the conjunction of the five checks |
| Compliance.CheckStored | app/Http/Controllers/VucemValidatorController.php:24-87 | the document is stored, checked and deleted: the files end as they began, the upload directory exists, and the report is the one `RunChecks` describes, down to the shown version text and the resolution status |
| Compliance.ValidatePdf | app/Http/Controllers/VucemValidatorController.php:16-94 | an upload that is not a PDF of at most 51200 KiB is refused with nothing stored; any other is checked and reported as `RunChecks` describes, with the shown version text, the resolution status and the corrected Ghostscript estimate |
| Compliance.SizeLimitIsInclusive | app/Http/Controllers/VucemValidatorController.php:38 | exactly 3 MB passes and one byte more fails; version "1.5" fails |
| Converter.PageName | app/Services/VucemPdfConverter.php:51 | the name Ghostscript gives a page is listed by `page_*.pdf` |
| Converter.PageFileShape | app/Services/VucemPdfConverter.php:62 | `page_*.pdf` lists exactly the names "page_", any text, ".pdf" |
| Converter.PageNumberNeedsDigits | app/Services/VucemPdfConverter.php:69-73 | the sort key is zero unless the name ends in a digit followed by ".pdf" |
| Converter.PageNumberOfName | app/Services/VucemPdfConverter.php:69-73 | the sort key reads back the number Ghostscript put in the name |
| Converter.PageNamesDistinct | app/Services/VucemPdfConverter.php:51 | different pages get different file names |
| Converter.OrderPages | app/Services/VucemPdfConverter.php:62-73 | `glob` then `usort` list each page file once, by non-decreasing page number |
| Converter.SelectNext | app/Services/VucemPdfConverter.php:69-73 | taking a smallest remaining page keeps the listing sorted |
| Converter.ListingOfSelection | app/Services/VucemPdfConverter.php:62-73 | a finished selection is the sorted listing |
| Converter.FillsRange | app/Services/VucemPdfConverter.php:69-73 | `k` strictly increasing numbers drawn from 1..k are 1, 2, …, k |
| Converter.PageKeys | app/Services/VucemPdfConverter.php:69-73 | one sort key per listed page, in listing order |
| Converter.PageKeysIncrease | app/Services/VucemPdfConverter.php:69-73 | the keys of pages 1..k in sorted order increase strictly |
| Converter.PagesInDocumentOrder | app/Services/VucemPdfConverter.php:62-73 | when Ghostscript wrote pages 1..k, the sorted listing is page 1, page 2, …, page k |
| Converter.ConvertsInDocumentOrder | app/Services/VucemPdfConverter.php:49-81 | when Ghostscript wrote pages 1..k, the conversion merged page 1, page 2, …, page k in that order |
| Converter.MergeChain | app/Services/VucemPdfConverter.php:91-182 | the merge succeeds exactly when the output exists with at least 100 bytes; every strategy except the last demanded more than 100; re-processing is tried only for a single page; a failure carries the list strategy's error |
| Converter.MergedNamesDistinct | app/Services/VucemPdfConverter.php:150 | the pairwise intermediates have distinct names |
| Converter.AfterList | app/Services/VucemPdfConverter.php:126-146 | the list strategy always deletes its list file and changes no file but the output and the list file |
| Converter.PairwiseFrom | app/Services/VucemPdfConverter.php:148-166 | the pairwise loop ends holding `merged_<n-1>.pdf`, or the single page when there is one |
| Converter.AfterPairwise | app/Services/VucemPdfConverter.php:148-177 | after the final rewrite the last running result is deleted |
| Converter.PairwiseClears | app/Services/VucemPdfConverter.php:148-166 | each intermediate is deleted by the next iteration, and the loop ends holding the last one |
| Converter.PairwiseFrame | app/Services/VucemPdfConverter.php:148-166 | the pairwise loop touches only the intermediates, and from the second iteration on the running result |
| Converter.ScratchNamesDiffer | app/Services/VucemPdfConverter.php:126 | no intermediate is named like the list file |
| Converter.PairwiseCleansUp | app/Services/VucemPdfConverter.php:148-177 | the pairwise strategy leaves no intermediate behind and never brings back the list file |
| Converter.ChainCleansUp | app/Services/VucemPdfConverter.php:126-177 | once the list strategy has run, the list file is gone; once the pairwise strategy has run, so are all intermediates |
| Converter.ChainFrame | app/Services/VucemPdfConverter.php:91-182 | apart from the output, the list file, the intermediates and a lone page, the chain changes no file |
| Converter.SinglePageConsumed | app/Services/VucemPdfConverter.php:168-177 | with one page, reaching the pairwise strategy rewrites the page as the output and deletes the page |
| Converter.HundredByteOutputAccepted | app/Services/VucemPdfConverter.php:179-181 | an output of exactly 100 bytes fails every strategy's test but passes the final check |
| Converter.ChainKeepsOutside | app/Services/VucemPdfConverter.php:91-182 | outside the temporary directory the chain changes nothing but the output |
| Converter.ChainAddsNoHidden | app/Services/VucemPdfConverter.php:91-182 | every file the chain writes into the temporary directory has a name `glob` lists |
| Converter.ImageOf | app/Services/VucemPdfConverter.php:241-251 | an image of the converted document is valid exactly when its axes sum to 599 or 600 |
| Converter.ImagesIn | app/Services/VucemPdfConverter.php:235-257 | at most one image per line, each valid exactly when its average is 300 |
| Converter.AllAt300Append | app/Services/VucemPdfConverter.php:253-255 | `$allValid` stays true exactly while every image is at 300 |
| Converter.VucemPdfConverter.constructor | app/Services/VucemPdfConverter.php:24-32 | the service remembers which of Ghostscript and `pdfimages` it found |
| Converter.VucemPdfConverter.Execute | app/Services/VucemPdfConverter.php:187-216 | a Ghostscript invocation writes what the tool writes and nothing else |
| Converter.VucemPdfConverter.MergePdfs | app/Services/VucemPdfConverter.php:91-182 | the method's outcome and resulting files are those of the strategy chain |
| Converter.VucemPdfConverter.CreateTempDirectory | app/Services/VucemPdfConverter.php:267-276 | the root and the per-run directory `conv_<uniqid>_<time>` exist afterwards; no file changes |
| Converter.VucemPdfConverter.CleanupDirectory | app/Services/VucemPdfConverter.php:278-291 | every file `glob` lists directly in the directory is removed; the directory goes exactly when no hidden file and no subdirectory is left in it; a missing directory is left alone |
| Converter.VucemPdfConverter.Rasterize | app/Services/VucemPdfConverter.php:50-66 | the page files are written into the fresh directory, and those found are exactly the `page_*.pdf` files Ghostscript wrote |
| Converter.VucemPdfConverter.MergePages | app/Services/VucemPdfConverter.php:69-81 | the found pages are sorted by page number and merged in that order: the outcome and the resulting files are those of the strategy chain on the sorted listing |
| Converter.VucemPdfConverter.ConvertIn | app/Services/VucemPdfConverter.php:49-85 | "no pages" is reported exactly when no page file was written; otherwise the pages are sorted, merged in order by the strategy chain, and the directory is cleaned: the result and the files are those of the chain, less the listed files of the directory |
| Converter.VucemPdfConverter.ConvertToVucem | app/Services/VucemPdfConverter.php:37-86 | a missing input, then a missing Ghostscript, fail first with nothing changed; otherwise the result is that of the strategy chain on the sorted page files and the files end as the chain and the cleanup leave them; the final size check never fires |
| Converter.VucemPdfConverter.ValidateDpi | app/Services/VucemPdfConverter.php:221-265 | without `pdfimages` or the file, or when it fails, there is no validation; otherwise the images are the table's rows, counted, and valid exactly when all are at 300 |
| ConverterController.AfterLast | app/Http/Controllers/PdfConverterController.php:42 | the last path component is a suffix without the separator, preceded by the separator when shorter than the name |
| ConverterController.BeforeLast | app/Http/Controllers/PdfConverterController.php:42 | the part before the last dot exists exactly when there is a dot, and no dot follows it |
| ConverterController.FileName | app/Http/Controllers/PdfConverterController.php:42 | `pathinfo(…, PATHINFO_FILENAME)` holds no separator and is no longer than the name |
| ConverterController.FileNameOfPdf | app/Http/Controllers/PdfConverterController.php:42 | "informe.pdf" gives "informe", dots inside the stem included |
| ConverterController.FileNameIgnoresDirectory | app/Http/Controllers/PdfConverterController.php:42 | directories in the client's name are dropped |
| ConverterController.ControllerTempOutsideConversion | app/Http/Controllers/PdfConverterController.php:50-53 | the controllers' directory is neither the service's temporary directory nor inside it |
| ConverterController.StoreKeepsFresh | app/Http/Controllers/PdfConverterController.php:56-60 | storing the upload leaves the service's future temporary directory unused |
| ConverterController.ConvertStored | app/Http/Controllers/PdfConverterController.php:64-124 | the answer is a download exactly when the service converted, named after the client's file with the merged output's size and the size warning exactly above 3 MiB; a failure answers with the prefixed message of the service's error; the conversion is that of the strategy chain on the sorted pages; both temporary files are gone |
| ConverterController.Convert | app/Http/Controllers/PdfConverterController.php:35-110 | an invalid upload is refused with nothing changed; otherwise the stored upload is converted by the strategy chain on its sorted pages, the answer is a download exactly when that succeeded, and both temporary files are removed |
| MergeController.Sanitize | app/Http/Controllers/PdfMergeController.php:41 | allowed characters are kept in place, every other character becomes `_`, and the length is unchanged |
| MergeController.SanitizeKeepsClean | app/Http/Controllers/PdfMergeController.php:41 | a name is left as it is exactly when it is already clean |
| MergeController.SanitizeIdempotent | app/Http/Controllers/PdfMergeController.php:41 | sanitising twice is sanitising once |
| MergeController.DefaultNameIsClean | app/Http/Controllers/PdfMergeController.php:38 | the default name uses allowed characters only |
| MergeController.DefaultNameUnchanged | app/Http/Controllers/PdfMergeController.php:38-41 | the sanitiser leaves the default name as it is |
| MergeController.OutputName | app/Http/Controllers/PdfMergeController.php:38-41 | an absent field gives the default, `null` gives the empty name, a given name keeps its length and is kept whole when clean |
| MergeController.ValidRequest | app/Http/Controllers/PdfMergeController.php:31-35 | the request rules: 2 to 50 PDFs of at most 51200 KiB, a name of at most 200 characters, so the sanitised name stays within 200 characters |
| MergeController.InputPaths | app/Http/Controllers/PdfMergeController.php:50-56 | the saved copy of upload `k` is `<id>_input_<k>.pdf`, in upload order |
| MergeController.InputNamesDistinct | app/Http/Controllers/PdfMergeController.php:50-52 | different positions get different files, so no saved upload overwrites another |
| MergeController.SavingKeepsSaved | app/Http/Controllers/PdfMergeController.php:48-59 | saving the next upload leaves the earlier saved copies as they were |
| MergeController.OutputIsNotAnInput | app/Http/Controllers/PdfMergeController.php:61-62 | the merged output is never a saved input |
| MergeController.OutputNotAmongInputs | app/Http/Controllers/PdfMergeController.php:61-62 | the merged output is not among the saved inputs |
| MergeController.SaveUploads | app/Http/Controllers/PdfMergeController.php:48-59 | every upload is saved under its position's name with its size, the total is the sum of the sizes, and no other file changes |
| MergeController.Response | app/Http/Controllers/PdfMergeController.php:71-109 | the answer is a download exactly when the merge wrote an output, carrying the download name, the output's size and the number of files; every failure message starts with the fixed prefix |
| MergeController.MergeSaved | app/Http/Controllers/PdfMergeController.php:64-109 | the intended merge, with the merge service as a parameter: the answer follows the merge's outcome, and the inputs and the output are gone whatever happened |
| MergeController.MergeUploads | app/Http/Controllers/PdfMergeController.php:43-109 | the intended merge: the uploads are saved and merged in order, answered, and every temporary file is removed; nothing else changes |
| MergeController.Merge | app/Http/Controllers/PdfMergeController.php:29-110 | the intended merge: an invalid request is refused with nothing changed; otherwise the download is named `<sanitised name>_combinado.pdf` and every temporary file is removed |
| MergeController.MergeAsWritten | app/Http/Controllers/PdfMergeController.php:29-110 | as written: an invalid request is refused with nothing changed; a valid one saves every upload, then ends in the uncaught `Error` of the undefined `mergePdfsKeepDpi`, leaving the saved inputs on disk |
| MergePage.RemoveAt | resources/js/merge.js:238 | `splice(i, 1)` drops exactly element `i`, keeping the others in order |
| MergePage.Swap | resources/js/merge.js:243-259 | exchanging two neighbours moves nothing else and keeps the same files |
| MergePage.MoveTo | resources/js/merge.js:214-222 | the drag-and-drop reorder keeps the list's length |
| MergePage.MoveToPlaces | resources/js/merge.js:214-222 | the dragged file lands at the drop position, the others keep their relative order, and no file is lost or duplicated |
| MergePage.Clamp | resources/js/merge.js:220 | `splice` inserts at the requested position when it is within the list, and at the end otherwise |
| MergePage.RequestName | resources/js/merge.js:275 | the name sent is never empty, and a typed name is sent as it is |
| MergePage.Outcome | resources/js/merge.js:293-338 | a download happens exactly when the server answered with a file, under a non-empty name; every failure alert starts with the fixed prefix, and an error reply's alert continues past it |
| MergePage.MergeForm.constructor | resources/js/merge.js:23 | the page starts with nothing selected, nothing dragged, and the button disabled |
| MergePage.MergeForm.Display | resources/js/merge.js:92-166 | redrawing enables the button exactly when two or more files are selected |
| MergePage.MergeForm.HandleFiles | resources/js/merge.js:64-90 | the batch's PDFs are appended in arrival order, the others are named in an alert, and the button follows the list |
| MergePage.MergeForm.RemoveFile | resources/js/merge.js:237-240 | the row's file is removed, an index past the end changes nothing, and the button follows the list |
| MergePage.MergeForm.MoveFileUp | resources/js/merge.js:243-250 | a file moves up one place by exchange with its predecessor; the first row stays |
| MergePage.MergeForm.MoveFileDown | resources/js/merge.js:252-259 | a file moves down one place by exchange with its successor; the last row stays |
| MergePage.MergeForm.DragStart | resources/js/merge.js:183-187 | the dragged row is remembered |
| MergePage.MergeForm.DragEnd | resources/js/merge.js:228-234 | the drag is forgotten |
| MergePage.MergeForm.Drop | resources/js/merge.js:209-226 | dropping on another row moves the dragged file there; dropping on itself changes nothing |
| MergePage.MergeForm.Send | resources/js/merge.js:262-338 | fewer than 2 or more than 50 files are refused with an alert and nothing changes; otherwise the files are sent in list order, and the list is cleared exactly on a download |
| MergePage.MergeForm.Submit | resources/js/merge.js:262-343 | with the button restored from the list, a submission leaves the button enabled exactly when two or more files remain |
| MergePage.MergeForm.SubmitAsWritten | resources/js/merge.js:339-342 | as written, a successful submission ends with an empty list and an enabled button |
| UploadPage.Count | public/js/upload.js:115-121 | a status count never exceeds the queue's length |
| UploadPage.CountsSum | public/js/upload.js:115-121 | the four counts of the queue header add up to the queue's length |
| UploadPage.CountAppend | public/js/upload.js:84-99 | counting over appended items adds their counts |
| UploadPage.CountPositive | public/js/upload.js:224-225 | an item with a status is counted |
| UploadPage.CountNone | public/js/upload.js:252-256 | a queue with no item of a status counts none |
| UploadPage.RankGrows | public/js/upload.js:252 | a later pending item comes later in the snapshot |
| UploadPage.Rank | public/js/upload.js:252-262 | a pending item's place in the snapshot is within the snapshot, and no later than its place in the queue |
| UploadPage.PendingIndices | public/js/upload.js:252 | the snapshot holds every pending item once, in queue order |
| UploadPage.NewItems | public/js/upload.js:84-99 | each accepted file becomes a pending item at zero progress, with its id |
| UploadPage.IndexOfId | public/js/upload.js:200 | `find` gives the first item with the id, or nothing exactly when none has it |
| UploadPage.WithoutId | public/js/upload.js:193-197 | `filter` keeps exactly the items with another id, and ids stay distinct |
| UploadPage.WithoutIdLength | public/js/upload.js:193-197 | with distinct ids, removing a present id takes out exactly one item |
| UploadPage.Processed | public/js/upload.js:300-325 | a JSON reply completes the item at 100% with a link; any other reply fails it at 0% with a non-empty error |
| UploadPage.FireTimesFromZero | public/js/upload.js:288-293 | the simulated bar climbs by ten per firing from zero and stops at 90 |
| UploadPage.Fire | public/js/upload.js:288-293 | one firing changes only the bar, raising it by at most ten, and moves it exactly when it is below 90 |
| UploadPage.LeakedIntervalMovesFailedItem | public/js/upload.js:288-325 | after a failed fetch, an interval left running moves the failed item's bar up to 90 |
| UploadPage.SubmissionSettles | public/js/upload.js:249-278 | once every request of the snapshot is answered, each pending item is settled by its reply, nothing is pending, and a batch without errors completed something |
| UploadPage.AfterRequests | public/js/upload.js:262-264 | an item keeps its id and file, and is still pending exactly when it was pending and its request is not yet answered |
| UploadPage.CompletionAlert | public/js/upload.js:270-277 | the closing alert shows the number of completed files, and the number of failed ones when there are any |
| UploadPage.UploadQueue.constructor | public/js/upload.js:13-14 | the page starts with an empty queue, idle, the button disabled and no timers |
| UploadPage.UploadQueue.UpdateConvertButton | public/js/upload.js:223-238 | the button is enabled exactly when something is pending and no submission runs |
| UploadPage.UploadQueue.HandleFiles | public/js/upload.js:65-103 | the batch's PDFs join the queue as pending items in arrival order, the others are named in an alert, and the button follows the queue |
| UploadPage.UploadQueue.RemoveFile | public/js/upload.js:193-197 | every item with the id leaves the queue and the button follows |
| UploadPage.UploadQueue.RetryFile | public/js/upload.js:199-208 | the item goes back to pending at zero progress with its error cleared; an unknown id changes nothing |
| UploadPage.UploadQueue.TimerFires | public/js/upload.js:288-293 | a firing raises its item's bar by ten below 90 and changes nothing else |
| UploadPage.UploadQueue.ProcessFile | public/js/upload.js:280-329 | with the interval cleared however the request ends, the item is settled by its reply and no timer is left running |
| UploadPage.UploadQueue.ProcessFileAsWritten | public/js/upload.js:280-329 | as written, a rejected fetch fails the item but leaves its interval running |
| UploadPage.UploadQueue.ProcessPending | public/js/upload.js:262-264 | the loop answers the snapshot's items in order and changes nothing else |
| UploadPage.UploadQueue.Submit | public/js/upload.js:249-278 | built on the corrected `ProcessFile`, which clears the interval however the request ends: with nothing pending, the alert says so; otherwise every pending item is settled, nothing stays pending, the page is idle with the button disabled, and the alert reports the counts |

## Left out

- FileSystem.Disk.MakeDir: `mkdir($d, 0755, true)` also creates missing parent directories; the model adds only the named directory and takes its parents (the storage and temporary directories) to exist.
- Tool discovery (`findGhostscript`, `findPdfimages`, `findQpdf`, configured paths) and process execution, timeouts and environments are not modelled. A tool is either found or not, and its run is a parameter.
- The PostScript estimate is not modelled. `extractEmbeddedImageInfo`, `getPageDimensions`, `getPdfPageCount` and the page-size division give the images as a parameter; the model keeps only which images are kept and the float type of their resolution.
- Floating-point display is not modelled: the MB figures rounded to two decimals, `formatFileSize`, and the `X-File-Size-MB` header. Ink coverage is read as exact decimals.
- Laravel's `mimes:pdf` content sniffing is not modelled; an upload carries an `isPdf` flag.
- `basename` of a name ending in `/` is not modelled; the client's name is taken as is.
- MergeController.ValidRequest: `max:200` is checked on the length of the name's sequence of characters. Laravel counts the characters of a UTF-8 string; the model's characters stand for bytes, so a multi-byte name counts longer here than in Laravel.
- `mergePdfsKeepDpi` is called by the merge endpoint but defined nowhere in the sources. `MergeController.MergeAsWritten` models the call as the uncaught error it raises; the intended merge (`MergeController.Merge`) takes the merge service's outcome as a parameter.
- Text.DigitsValue: reads any digit run as an unbounded number; PHP's `intval` saturates at `PHP_INT_MAX`, which is not modelled.
- `VucemImageExtractor`, `PdfCompressController` and `VucemImageExtractorController` are not part of this model.
- The page's `downloadFile` (a link click) and all DOM rendering are not modelled: HTML, button text, the result panel, the drop zone highlight, and the clearing of the name box after a merge.
- JavaScript's `toLowerCase` is modelled on ASCII letters only.
- UploadPage.UploadQueue.HandleFiles: takes the new ids as distinct and fresh, the property `Date.now() + Math.random()` is relied on for; it does not model a collision.
- `public/js/upload.js` posts to `/api/convert`, a route `routes/web.php` does not define. The reply is a parameter, so the model does not say which endpoint answers.
- The asynchronous interleaving of user actions with a running submission is not modelled. Removing or retrying files while requests are in flight is an example. Each request is answered before the next starts.
- Converter.VucemPdfConverter.ConvertToVucem: the final size check (`< 100`) after `mergePdfs` is modelled and proved never to fire, because `mergePdfs` has already thrown on such an output.
- Compliance.ValidatePdf: Laravel's validation failure is a redirect with errors, modelled as `None`; the view it renders is not modelled.

## Findings

| source | as written | input that shows it | evidently intended | confidence | as-written member | corrected member |
|---|---|---|---|---|---|---|
| app/Http/Controllers/VucemValidatorController.php:673 | `$minDpi === 300 && $maxDpi === 300`, where both bounds come from `round()` and so are floats once an image is found | any document whose estimated images are all at 300 DPI: `300.0 === 300` is false, so it is rejected | compare the values: the document passes when every estimated image is at 300 DPI | high; not executed | DpiAudit.AsWrittenRejectsEveryImage | DpiAudit.GhostscriptCheck |
| resources/js/merge.js:339-342 | the `finally` block sets `btnMerge.disabled = false` after the success branch has emptied the list and redrawn it with the button disabled | select two PDFs and submit with a successful reply: the list is empty and the merge button is enabled | the button follows the list, as `displayFiles` sets it: disabled with fewer than two files | high; not executed | MergePage.MergeForm.SubmitAsWritten | MergePage.MergeForm.Submit |
| public/js/upload.js:300-325 | `clearInterval(progressInterval)` sits after `await fetch(...)` inside the `try`, so a rejected fetch skips it | a network failure: the item is marked `error` at 0%, and the interval keeps raising its bar to 90 | clear the interval however the request ends | high; not executed | UploadPage.UploadQueue.ProcessFileAsWritten | UploadPage.UploadQueue.ProcessFile |
| app/Http/Controllers/PdfMergeController.php:71 | `$this->converter->mergePdfsKeepDpi(...)` calls a method that `VucemPdfConverter` does not define; the resulting `Error` is not an `Exception`, so `catch (\Exception $e)` at line 102 does not catch it and neither cleanup at lines 88 and 103 runs | any valid request with two PDFs: both saved inputs stay in the temporary directory and the client gets a server error | call the converter's merge and delete the inputs and the output whatever happens | high; not executed | MergeController.MergeAsWritten | MergeController.Merge |
