/** The auditor's resolution check (VucemValidatorController::checkDpi and its two
    strategies). The primary strategy reads the table of `pdfimages -list`: every
    embedded image must average exactly 300 DPI, and the result groups the images
    per page with the lowest and highest resolution found on each. When pdfimages
    is unavailable or fails, a Ghostscript-based estimate is used instead. */
module DpiAudit {
  import opened Text
  import opened Optional
  import opened Ordering
  import opened Tools
  import opened PdfImagesList

  /** One entry of `$images`. */
  datatype ImageRecord = ImageRecord(page: nat, imageNum: nat, kind: string, width: nat, height: nat,
                                     color: string, xPpi: nat, yPpi: nat, dpi: nat, valid: bool)

  /** One entry of `$pages`: the lowest and highest resolution on the page, the
      resolutions of its images in table order, and whether all of them are 300. */
  datatype PageSummary = PageSummary(minDpi: nat, maxDpi: nat, dpis: seq<nat>, valid: bool)

  /** One entry of `$invalidImages`. */
  datatype InvalidImage = InvalidImage(page: nat, imageNum: nat, dpi: nat)

  /** One line of the per-page detail: "Página n → d DPI ✓" or "… (inválido)". */
  datatype PageLine = PageLine(page: nat, minDpi: nat, maxDpi: nat, valid: bool)

  datatype DpiDetail =
    | NoRasterImages
    | PerPage(lines: seq<PageLine>, invalidCount: Option<nat>)
    | GhostscriptUnavailable
    | Uniform300
    | OutOfRange(minDpi: nat, maxDpi: nat)

  datatype Status = StatusOk | StatusError | NoStatus

  /** An image the Ghostscript estimate found: pixel size, page, and the estimated
      resolution (already rounded; the page geometry it comes from is not modelled). */
  datatype GsImage = GsImage(page: int, width: nat, height: nat, dpi: nat)

  /** The `images` entry of a result: pdfimages' records or Ghostscript's estimates. */
  datatype ImageInfo = Listed(records: seq<ImageRecord>) | Estimated(estimates: seq<GsImage>)

  datatype DpiCheck = DpiCheck(isValid: bool, detail: DpiDetail, status: Status,
                               pages: map<nat, PageSummary>, images: ImageInfo)

  function RecordOf(row: Row): ImageRecord {
    var dpi := AverageDpi(row.xPpi, row.yPpi);
    ImageRecord(row.page, row.num, row.kind, row.width, row.height, row.color, row.xPpi, row.yPpi, dpi, dpi == 300)
  }

  /** The images the table lists, one per line the auditor's row pattern matches,
      in the order of the lines. */
  function Images(lines: seq<string>): (r: seq<ImageRecord>)
    ensures |r| <= |lines|
    ensures forall k :: 0 <= k < |r| ==> (r[k].valid <==> r[k].dpi == 300)
  {
    if lines == [] then []
    else
      var before := Images(lines[..|lines| - 1]);
      match MatchRow(lines[|lines| - 1], AuditorPattern)
      case None => before
      case Some(row) => before + [RecordOf(row)]
  }

  /** How many of the lines the auditor's row pattern matches. */
  function RowCount(lines: seq<string>): nat {
    if lines == [] then 0
    else RowCount(lines[..|lines| - 1]) + (if MatchRow(lines[|lines| - 1], AuditorPattern).Some? then 1 else 0)
  }

  /** The images of page `p`, in table order. */
  function OnPage(images: seq<ImageRecord>, p: nat): seq<ImageRecord> {
    if images == [] then []
    else
      var before := OnPage(images[..|images| - 1], p);
      if images[|images| - 1].page == p then before + [images[|images| - 1]] else before
  }

  function Dpis(images: seq<ImageRecord>): (ds: seq<nat>)
    ensures |ds| == |images|
  {
    if images == [] then [] else Dpis(images[..|images| - 1]) + [images[|images| - 1].dpi]
  }

  predicate AllValid(images: seq<ImageRecord>) {
    forall k :: 0 <= k < |images| ==> images[k].valid
  }

  /** `count($invalidImages)`. */
  function InvalidCount(images: seq<ImageRecord>): nat {
    if images == [] then 0
    else InvalidCount(images[..|images| - 1]) + (if images[|images| - 1].valid then 0 else 1)
  }

  function SeqMin(s: seq<nat>): (m: nat)
    requires s != []
    ensures m in s && forall x :: x in s ==> m <= x
  {
    if |s| == 1 then s[0]
    else
      var rest := SeqMin(s[..|s| - 1]);
      assert forall x :: x in s ==> x in s[..|s| - 1] || x == s[|s| - 1];
      if s[|s| - 1] < rest then s[|s| - 1] else rest
  }

  function SeqMax(s: seq<nat>): (m: nat)
    requires s != []
    ensures m in s && forall x :: x in s ==> x <= m
  {
    if |s| == 1 then s[0]
    else
      var rest := SeqMax(s[..|s| - 1]);
      assert forall x :: x in s ==> x in s[..|s| - 1] || x == s[|s| - 1];
      if s[|s| - 1] > rest then s[|s| - 1] else rest
  }

  /** What `$pages[$p]` holds once `images` have been read. */
  function Summary(images: seq<ImageRecord>, p: nat): (r: PageSummary)
    requires OnPage(images, p) != []
    ensures |r.dpis| == |OnPage(images, p)| && r.minDpi <= r.maxDpi
  {
    var ds := Dpis(OnPage(images, p));
    PageSummary(SeqMin(ds), SeqMax(ds), ds, AllValid(OnPage(images, p)))
  }

  /** `$pages` has an entry exactly for the pages that have images, and each entry
      summarises that page's images. */
  ghost predicate PagesAgree(pages: map<nat, PageSummary>, images: seq<ImageRecord>) {
    (forall p :: p in pages <==> OnPage(images, p) != []) &&
    (forall p :: p in pages ==> OnPage(images, p) != [] && pages[p] == Summary(images, p))
  }

  function LineFor(p: nat, s: PageSummary): PageLine {
    PageLine(p, s.minDpi, s.maxDpi, s.valid)
  }

  function PageNumbers(lines: seq<PageLine>): (ps: seq<nat>)
    ensures |ps| == |lines| && forall k :: 0 <= k < |lines| ==> ps[k] == lines[k].page
  {
    if lines == [] then [] else [lines[0].page] + PageNumbers(lines[1..])
  }

  /** The detail lines: one per page of `pages`, in ascending page order (`ksort`). */
  ghost predicate DescribesPages(lines: seq<PageLine>, pages: map<nat, PageSummary>) {
    StrictlyIncreasing(PageNumbers(lines)) &&
    (forall p :: p in pages <==> p in PageNumbers(lines)) &&
    (forall k :: 0 <= k < |lines| ==> lines[k].page in pages && lines[k] == LineFor(lines[k].page, pages[lines[k].page]))
  }

  lemma OneMoreImage(images: seq<ImageRecord>, im: ImageRecord)
    ensures OnPage(images + [im], im.page) == OnPage(images, im.page) + [im]
    ensures forall q :: q != im.page ==> OnPage(images + [im], q) == OnPage(images, q)
    ensures InvalidCount(images + [im]) == InvalidCount(images) + (if im.valid then 0 else 1)
  {
    assert (images + [im])[..|images|] == images;
  }

  lemma InvalidCountSnoc(images: seq<ImageRecord>, im: ImageRecord)
    ensures InvalidCount(images + [im]) == InvalidCount(images) + (if im.valid then 0 else 1)
  {
    assert (images + [im])[..|images|] == images;
  }

  lemma AllValidSnoc(images: seq<ImageRecord>, im: ImageRecord)
    ensures AllValid(images + [im]) <==> AllValid(images) && im.valid
  {
    if AllValid(images) && im.valid {
      forall k | 0 <= k < |images| + 1 ensures (images + [im])[k].valid {
        if k < |images| { assert (images + [im])[k] == images[k]; }
      }
    }
    if AllValid(images + [im]) {
      forall k | 0 <= k < |images| ensures images[k].valid {
        assert (images + [im])[k] == images[k];
      }
      assert (images + [im])[|images|] == im;
    }
  }

  lemma SeqMinMaxSnoc(s: seq<nat>, x: nat)
    requires s != []
    ensures SeqMin(s + [x]) == if x < SeqMin(s) then x else SeqMin(s)
    ensures SeqMax(s + [x]) == if x > SeqMax(s) then x else SeqMax(s)
  {
    assert (s + [x])[..|s|] == s;
  }

  /** The entry an image's page starts from: the existing one, or a fresh entry
      whose bounds are the image's own resolution. */
  function StartEntry(pages: map<nat, PageSummary>, im: ImageRecord): PageSummary {
    if im.page in pages then pages[im.page] else PageSummary(im.dpi, im.dpi, [], true)
  }

  /** What the loop body of `checkDpiWithPdfimages` does to a page entry for one
      more image: widen the bounds, clear the verdict on an invalid image, append
      the resolution. */
  function Widen(ps: PageSummary, im: ImageRecord): PageSummary {
    PageSummary(if im.dpi < ps.minDpi then im.dpi else ps.minDpi,
                if im.dpi > ps.maxDpi then im.dpi else ps.maxDpi,
                ps.dpis + [im.dpi], ps.valid && im.valid)
  }

  /** Adding one image to the summaries keeps them in agreement with the images. */
  lemma PageAfter(pages: map<nat, PageSummary>, images: seq<ImageRecord>, im: ImageRecord)
    requires PagesAgree(pages, images)
    ensures PagesAgree(pages[im.page := Widen(StartEntry(pages, im), im)], images + [im])
  {
    var after := pages[im.page := Widen(StartEntry(pages, im), im)];
    KeysAfter(pages, images, im, after);
    EntriesAfter(pages, images, im, after);
  }

  lemma KeysAfter(pages: map<nat, PageSummary>, images: seq<ImageRecord>, im: ImageRecord,
                  after: map<nat, PageSummary>)
    requires PagesAgree(pages, images) && after.Keys == pages.Keys + {im.page}
    ensures forall q :: q in after <==> OnPage(images + [im], q) != []
  {
    OneMoreImage(images, im);
  }

  lemma EntriesAfter(pages: map<nat, PageSummary>, images: seq<ImageRecord>, im: ImageRecord,
                     after: map<nat, PageSummary>)
    requires PagesAgree(pages, images) && after == pages[im.page := Widen(StartEntry(pages, im), im)]
    ensures forall q :: q in after ==> OnPage(images + [im], q) != [] && after[q] == Summary(images + [im], q)
  {
    OneMoreImage(images, im);
    forall q | q in after ensures OnPage(images + [im], q) != [] && after[q] == Summary(images + [im], q) {
      if q != im.page {
        assert OnPage(images + [im], q) == OnPage(images, q);
      } else if im.page in pages {
        SummaryAfterSeen(pages, images, im);
      } else {
        SummaryAfterNew(pages, images, im);
      }
    }
  }

  /** The first image of a page gives an entry with its resolution as both bounds. */
  lemma SummaryAfterNew(pages: map<nat, PageSummary>, images: seq<ImageRecord>, im: ImageRecord)
    requires PagesAgree(pages, images) && im.page !in pages
    ensures OnPage(images + [im], im.page) == [im]
    ensures Widen(StartEntry(pages, im), im) == Summary(images + [im], im.page)
  {
    OneMoreImage(images, im);
    assert OnPage(images, im.page) == [];
    assert [] + [im] == [im];
    assert Dpis([im]) == [im.dpi];
    assert AllValid([im]) == im.valid;
  }

  /** A further image of a page widens its entry to the summary of all of them. */
  lemma SummaryAfterSeen(pages: map<nat, PageSummary>, images: seq<ImageRecord>, im: ImageRecord)
    requires PagesAgree(pages, images) && im.page in pages
    ensures OnPage(images + [im], im.page) != []
    ensures Widen(StartEntry(pages, im), im) == Summary(images + [im], im.page)
  {
    OneMoreImage(images, im);
    var here := OnPage(images, im.page);
    assert here != [] && pages[im.page] == Summary(images, im.page);
    AllValidSnoc(here, im);
    assert Dpis(here + [im]) == Dpis(here) + [im.dpi];
    SeqMinMaxSnoc(Dpis(here), im.dpi);
  }

  lemma ImagesStep(lines: seq<string>, i: nat)
    requires i < |lines|
    ensures Images(lines[..i + 1]) == match MatchRow(lines[i], AuditorPattern)
                                      case None => Images(lines[..i])
                                      case Some(row) => Images(lines[..i]) + [RecordOf(row)]
  {
    assert lines[..i + 1][..i] == lines[..i];
  }

  /** The update of one page entry in the loop body of `checkDpiWithPdfimages`. */
  method WidenEntry(ps: PageSummary, record: ImageRecord) returns (ps': PageSummary)
    ensures ps' == Widen(ps, record)
  {
    var dpi := record.dpi;
    ps' := ps;
    if dpi < ps'.minDpi {
      ps' := ps'.(minDpi := dpi);
    }
    if dpi > ps'.maxDpi {
      ps' := ps'.(maxDpi := dpi);
    }
    if !record.valid {
      ps' := ps'.(valid := false);
    }
    ps' := ps'.(dpis := ps'.dpis + [dpi]);
  }

  /** The grouping step of `checkDpiWithPdfimages`: the record's page entry is
      created on its first image, then its minimum, maximum, validity and list of
      resolutions are updated. */
  method AddToPage(pages: map<nat, PageSummary>, ghost images: seq<ImageRecord>, record: ImageRecord)
    returns (pages': map<nat, PageSummary>)
    requires PagesAgree(pages, images)
    ensures PagesAgree(pages', images + [record])
  {
    var ps := if record.page in pages then pages[record.page] else PageSummary(record.dpi, record.dpi, [], true);
    ps := WidenEntry(ps, record);
    PageAfter(pages, images, record);
    pages' := pages[record.page := ps];
  }

  /** The loop body of `checkDpiWithPdfimages` for a line that matches the row
      pattern: the image is recorded, counted when invalid, and added to its page. */
  method AddRow(row: Row, images: seq<ImageRecord>, pages: map<nat, PageSummary>,
                isValid: bool, invalidImages: seq<InvalidImage>)
    returns (images': seq<ImageRecord>, pages': map<nat, PageSummary>,
             isValid': bool, invalidImages': seq<InvalidImage>)
    requires PagesAgree(pages, images)
    requires isValid <==> InvalidCount(images) == 0
    requires |invalidImages| == InvalidCount(images)
    ensures images' == images + [RecordOf(row)]
    ensures PagesAgree(pages', images')
    ensures isValid' <==> InvalidCount(images') == 0
    ensures |invalidImages'| == InvalidCount(images')
  {
    var dpi := AverageDpi(row.xPpi, row.yPpi);
    var imageValid := dpi == 300;
    isValid', invalidImages' := isValid, invalidImages;
    if !imageValid {
      isValid' := false;
      invalidImages' := invalidImages + [InvalidImage(row.page, row.num, dpi)];
    }
    var record := ImageRecord(row.page, row.num, row.kind, row.width, row.height, row.color,
                              row.xPpi, row.yPpi, dpi, imageValid);
    assert record == RecordOf(row);
    InvalidCountSnoc(images, record);
    pages' := AddToPage(pages, images, record);
    images' := images + [record];
  }

  /** The loop of `checkDpiWithPdfimages` over the lines of the table: collects
      `$images`, `$pages`, `$isValid` and `$invalidImages`. */
  method ReadTable(lines: seq<string>) returns (images: seq<ImageRecord>, pages: map<nat, PageSummary>,
                                                 isValid: bool, invalidImages: seq<InvalidImage>)
    ensures images == Images(lines)
    ensures PagesAgree(pages, images)
    ensures isValid <==> InvalidCount(images) == 0
    ensures |invalidImages| == InvalidCount(images)
  {
    images := [];
    pages := map[];
    isValid := true;
    invalidImages := [];
    var i := 0;
    while i < |lines|
      invariant 0 <= i <= |lines|
      invariant images == Images(lines[..i])
      invariant isValid <==> InvalidCount(images) == 0
      invariant |invalidImages| == InvalidCount(images)
      invariant PagesAgree(pages, images)
    {
      ImagesStep(lines, i);
      var m := MatchRow(lines[i], AuditorPattern);
      if m.Some? {
        images, pages, isValid, invalidImages := AddRow(m.value, images, pages, isValid, invalidImages);
      }
      i := i + 1;
    }
    assert lines[..|lines|] == lines;
  }

  /** The per-page detail lines, pages in ascending order (`ksort`). */
  method DetailLines(pages: map<nat, PageSummary>) returns (lines: seq<PageLine>)
    ensures DescribesPages(lines, pages)
  {
    var order := Ascending(pages.Keys);
    lines := [];
    var k := 0;
    while k < |order|
      invariant 0 <= k <= |order|
      invariant |lines| == k
      invariant forall j :: 0 <= j < k ==> lines[j] == LineFor(order[j], pages[order[j]])
    {
      var pageData := pages[order[k]];
      lines := lines + [PageLine(order[k], pageData.minDpi, pageData.maxDpi, pageData.valid)];
      k := k + 1;
    }
    LinesInOrder(lines, order, pages);
  }

  lemma LinesInOrder(lines: seq<PageLine>, order: seq<nat>, pages: map<nat, PageSummary>)
    requires StrictlyIncreasing(order) && forall x :: x in order <==> x in pages
    requires |lines| == |order| && forall j :: 0 <= j < |order| ==> lines[j] == LineFor(order[j], pages[order[j]])
    ensures DescribesPages(lines, pages)
  {
    assert PageNumbers(lines) == order;
  }

  /** The result `checkDpiWithPdfimages` returns on the table `output`: the images
      it lists, `ok` exactly when none is invalid, no raster images for an empty
      table, and otherwise the per-page detail with the invalid count. */
  ghost predicate ListedReport(output: string, r: DpiCheck) {
    && r.images == Listed(Images(Split(output, '\n')))
    && (r.isValid <==> InvalidCount(r.images.records) == 0)
    && r.status == (if r.isValid then StatusOk else StatusError)
    && (r.images.records == [] ==> r.detail == NoRasterImages && r.pages == map[])
    && (r.images.records != [] ==>
          PagesAgree(r.pages, r.images.records) && r.detail.PerPage? && DescribesPages(r.detail.lines, r.pages) &&
          r.detail.invalidCount == (if r.isValid then None else Some(InvalidCount(r.images.records))))
  }

  /** `checkDpiWithPdfimages` once pdfimages has run successfully and printed
      `output`. */
  method CheckListedImages(output: string) returns (r: DpiCheck)
    ensures ListedReport(output, r)
  {
    var images, pages, isValid, invalidImages := ReadTable(Split(output, '\n'));
    var hasImages := images != [];
    if !hasImages {
      return DpiCheck(true, NoRasterImages, StatusOk, map[], Listed([]));
    }
    var detailLines := DetailLines(pages);
    var summary := if isValid then None else Some(|invalidImages|);
    r := DpiCheck(isValid, PerPage(detailLines, summary), if isValid then StatusOk else StatusError, pages, Listed(images));
  }

  /** Each record's verdict is the strict 300 DPI rule on its own resolution. */
  predicate StrictVerdicts(images: seq<ImageRecord>) {
    forall k :: 0 <= k < |images| ==> (images[k].valid <==> images[k].dpi == 300)
  }

  lemma {:induction false} ImagesAreStrict(lines: seq<string>)
    ensures StrictVerdicts(Images(lines))
  {
    if lines != [] {
      ImagesAreStrict(lines[..|lines| - 1]);
    }
  }

  /** One image per line that the row pattern matches; every other line (the
      header, the dashed separator, blank lines) contributes nothing. */
  lemma {:induction false} OneImagePerRow(lines: seq<string>)
    ensures |Images(lines)| == RowCount(lines)
  {
    if lines != [] {
      OneImagePerRow(lines[..|lines| - 1]);
    }
  }

  /** A page's images are exactly the images listed with that page number. */
  lemma {:induction false} OnPageMembers(images: seq<ImageRecord>, p: nat)
    ensures forall im :: im in OnPage(images, p) <==> im in images && im.page == p
  {
    if images != [] {
      var init := images[..|images| - 1];
      OnPageMembers(init, p);
      assert images == init + [images[|images| - 1]];
    }
  }

  lemma {:induction false} DpisMembers(images: seq<ImageRecord>)
    ensures forall d :: d in Dpis(images) <==> exists im :: im in images && im.dpi == d
  {
    if images != [] {
      var init := images[..|images| - 1];
      DpisMembers(init);
      assert images == init + [images[|images| - 1]];
    }
  }

  /** A page is valid exactly when both its lowest and its highest resolution are
      300, so the detail line reads "300 DPI ✓" for valid pages and shows the
      offending value or range otherwise. */
  lemma PageValidIffUniform300(images: seq<ImageRecord>, p: nat)
    requires StrictVerdicts(images) && OnPage(images, p) != []
    ensures Summary(images, p).valid <==> Summary(images, p).minDpi == 300 && Summary(images, p).maxDpi == 300
  {
    var here := OnPage(images, p);
    var ds := Dpis(here);
    OnPageMembers(images, p);
    DpisMembers(here);
    var mn, mx := SeqMin(ds), SeqMax(ds);
    if AllValid(here) {
      forall d | d in ds ensures d == 300 {
        var im :| im in here && im.dpi == d;
        var k :| 0 <= k < |here| && here[k] == im;
        var j :| 0 <= j < |images| && images[j] == im;
        assert im.valid;
      }
    }
    if mn == 300 && mx == 300 {
      forall k | 0 <= k < |here| ensures here[k].valid {
        var im := here[k];
        assert im in here;
        assert im.dpi in ds;
        var j :| 0 <= j < |images| && images[j] == im;
      }
    }
  }

  /** The table's verdict is page by page: the document passes exactly when every
      listed page is valid, and exactly when no image is counted as invalid. */
  lemma DocumentValidIffPagesValid(pages: map<nat, PageSummary>, images: seq<ImageRecord>)
    requires PagesAgree(pages, images)
    ensures InvalidCount(images) == 0 <==> AllValid(images)
    ensures AllValid(images) <==> forall p :: p in pages ==> pages[p].valid
  {
    NoInvalidIffAllValid(images);
    if AllValid(images) {
      forall p | p in pages ensures pages[p].valid {
        OnPageMembers(images, p);
        var here := OnPage(images, p);
        forall k | 0 <= k < |here| ensures here[k].valid {
          assert here[k] in here;
        }
      }
    }
    if forall p :: p in pages ==> pages[p].valid {
      forall k | 0 <= k < |images| ensures images[k].valid {
        var im := images[k];
        OnPageMembers(images, im.page);
        assert im in OnPage(images, im.page);
        assert AllValid(OnPage(images, im.page));
        var j :| 0 <= j < |OnPage(images, im.page)| && OnPage(images, im.page)[j] == im;
      }
    }
  }

  lemma {:induction false} NoInvalidIffAllValid(images: seq<ImageRecord>)
    ensures InvalidCount(images) == 0 <==> AllValid(images)
  {
    if images != [] {
      var init := images[..|images| - 1];
      NoInvalidIffAllValid(init);
      AllValidSnoc(init, images[|images| - 1]);
      assert images == init + [images[|images| - 1]];
    }
  }

  /** Every resolution on a page lies between the page's minimum and maximum, and
      both bounds are resolutions of images on that page. */
  lemma PageBounds(images: seq<ImageRecord>, p: nat)
    requires OnPage(images, p) != []
    ensures var s := Summary(images, p);
      s.minDpi in s.dpis && s.maxDpi in s.dpis &&
      forall im :: im in images && im.page == p ==> s.minDpi <= im.dpi <= s.maxDpi
  {
    var here := OnPage(images, p);
    var ds := Dpis(here);
    assert Summary(images, p) == PageSummary(SeqMin(ds), SeqMax(ds), ds, AllValid(here));
    OnPageMembers(images, p);
    DpisMembers(here);
    forall im | im in images && im.page == p ensures SeqMin(ds) <= im.dpi <= SeqMax(ds) {
      assert im in here;
      assert im.dpi in ds;
    }
  }

  // The Ghostscript estimate (checkDpiWithGhostscript and extractEmbeddedImageInfo).

  /** Whether extractEmbeddedImageInfo keeps an image: only the first ten pages are
      examined, and images of at most 50 pixels on a side are ignored as icons. */
  predicate Examined(pageCount: int, im: GsImage) {
    1 <= im.page <= pageCount && im.page <= 10 && im.width > 50 && im.height > 50
  }

  function EstimatedImages(pageCount: int, found: seq<GsImage>): (kept: seq<GsImage>)
    ensures forall im :: im in kept <==> im in found && Examined(pageCount, im)
    ensures |kept| <= |found|
  {
    if found == [] then []
    else
      var rest := EstimatedImages(pageCount, found[1..]);
      assert forall im :: im in found <==> im == found[0] || im in found[1..];
      if Examined(pageCount, found[0]) then [found[0]] + rest else rest
  }

  function EstimatedDpis(images: seq<GsImage>): (ds: seq<nat>)
    ensures |ds| == |images| && forall k :: 0 <= k < |images| ==> ds[k] == images[k].dpi
  {
    if images == [] then [] else [images[0].dpi] + EstimatedDpis(images[1..])
  }

  /** PHP numbers as the `===` operator sees them: an int is never identical to a
      float. The float variant only ever holds whole numbers here (results of
      `round`). */
  datatype PhpNumber = PhpInt(i: int) | PhpFloat(f: int)

  function NumericValue(n: PhpNumber): int {
    match n
    case PhpInt(i) => i
    case PhpFloat(f) => f
  }

  const PHP_INT_MAX: int := 0x7FFF_FFFF_FFFF_FFFF

  /** The running `min_dpi` and `max_dpi` of extractEmbeddedImageInfo as written:
      they start as the ints PHP_INT_MAX and 0, and each image's resolution, a float
      returned by `round`, replaces a bound it beats. */
  function BoundsAsWritten(dpis: seq<nat>): (r: (PhpNumber, PhpNumber))
    ensures forall d :: d in dpis ==> NumericValue(r.0) <= d <= NumericValue(r.1)
  {
    if dpis == [] then (PhpInt(PHP_INT_MAX), PhpInt(0))
    else
      var (mn, mx) := BoundsAsWritten(dpis[..|dpis| - 1]);
      var d := dpis[|dpis| - 1];
      assert forall x :: x in dpis ==> x in dpis[..|dpis| - 1] || x == d;
      (if d < NumericValue(mn) then PhpFloat(d) else mn, if d > NumericValue(mx) then PhpFloat(d) else mx)
  }

  /** checkDpiWithGhostscript's verdict as written: no images passes; otherwise
      `$minDpi === 300 && $maxDpi === 300`. */
  function GhostscriptVerdictAsWritten(dpis: seq<nat>): (ok: bool)
    ensures ok ==> forall d :: d in dpis ==> d == 300
  {
    if dpis == [] then true
    else
      var (mn, mx) := BoundsAsWritten(dpis);
      mn == PhpInt(300) && mx == PhpInt(300)
  }

  lemma {:induction false} MinBoundNeverInt300(dpis: seq<nat>)
    ensures BoundsAsWritten(dpis).0 != PhpInt(300)
  {
    if dpis != [] {
      MinBoundNeverInt300(dpis[..|dpis| - 1]);
    }
  }

  /** As written, the strict identity with the int 300 never holds once an image
      was found, so the Ghostscript estimate rejects every document that has
      raster images, whatever their resolution. */
  lemma AsWrittenRejectsEveryImage(dpis: seq<nat>)
    ensures GhostscriptVerdictAsWritten(dpis) <==> dpis == []
  {
    MinBoundNeverInt300(dpis);
  }

  lemma AsWrittenRejectsExact300()
    ensures !GhostscriptVerdictAsWritten([300])
    ensures !GhostscriptVerdictAsWritten([300, 300, 300])
  {
    AsWrittenRejectsEveryImage([300]);
    AsWrittenRejectsEveryImage([300, 300, 300]);
  }

  /** checkDpiWithGhostscript with the comparison made on values, as intended: the
      document passes when there are no images or all estimates are exactly 300. */
  function GhostscriptCheck(images: seq<GsImage>): (r: DpiCheck)
    ensures r.isValid <==> forall im :: im in images ==> im.dpi == 300
    ensures r.status == (if r.isValid then StatusOk else StatusError)
    ensures r.pages == map[]
    ensures images == [] ==> r.detail == NoRasterImages && r.images == Estimated([])
    ensures images != [] ==> r.images == Estimated(images)
    ensures images != [] && r.isValid ==> r.detail == Uniform300
    ensures !r.isValid ==>
      (r.detail.OutOfRange? &&
       (exists im :: im in images && im.dpi == r.detail.minDpi) &&
       (exists im :: im in images && im.dpi == r.detail.maxDpi) &&
       forall im :: im in images ==> r.detail.minDpi <= im.dpi <= r.detail.maxDpi)
  {
    if images == [] then DpiCheck(true, NoRasterImages, StatusOk, map[], Estimated([]))
    else
      var ds := EstimatedDpis(images);
      var mn, mx := SeqMin(ds), SeqMax(ds);
      assert forall im :: im in images ==> im.dpi in ds by {
        forall im | im in images ensures im.dpi in ds {
          var k :| 0 <= k < |images| && images[k] == im;
          assert ds[k] == im.dpi;
        }
      }
      assert forall d :: d in ds ==> exists im :: im in images && im.dpi == d by {
        forall d | d in ds ensures exists im :: im in images && im.dpi == d {
          var k :| 0 <= k < |ds| && ds[k] == d;
          assert images[k] in images;
        }
      }
      if mn == 300 && mx == 300 then DpiCheck(true, Uniform300, StatusOk, map[], Estimated(images))
      else DpiCheck(false, OutOfRange(mn, mx), StatusError, map[], Estimated(images))
  }

  /** The result `checkDpi` returns: none without Ghostscript; with a listing,
      the images it lists, valid exactly when all of them are, with the `ok` or
      `error` status and the per-page detail `checkDpiWithPdfimages` builds;
      otherwise the Ghostscript estimate's result. */
  ghost predicate DpiReport(ghostscriptFound: bool, pdfimages: ToolRun, pageCount: int, found: seq<GsImage>, r: DpiCheck) {
    && (!ghostscriptFound ==> r == DpiCheck(false, GhostscriptUnavailable, NoStatus, map[], Listed([])))
    && (ghostscriptFound && pdfimages.Succeeded? ==>
         ListedReport(pdfimages.stdout, r) && (r.isValid <==> AllValid(r.images.records)))
    && (ghostscriptFound && !pdfimages.Succeeded? ==> r == GhostscriptCheck(EstimatedImages(pageCount, found)))
  }

  /** checkDpi: without Ghostscript the check fails with no status; otherwise the
      pdfimages table decides when pdfimages ran successfully, and the Ghostscript
      estimate (corrected, see GhostscriptCheck) decides when pdfimages is missing
      or failed. */
  method CheckDpi(ghostscriptFound: bool, pdfimages: ToolRun, pageCount: int, found: seq<GsImage>)
    returns (r: DpiCheck)
    ensures DpiReport(ghostscriptFound, pdfimages, pageCount, found, r)
  {
    if !ghostscriptFound {
      return DpiCheck(false, GhostscriptUnavailable, NoStatus, map[], Listed([]));
    }
    if pdfimages.Succeeded? {
      r := CheckListedImages(pdfimages.stdout);
      NoInvalidIffAllValid(r.images.records);
    } else {
      r := GhostscriptCheck(EstimatedImages(pageCount, found));
    }
  }

  /** The text of one detail line. */
  function PageLineText(l: PageLine): (t: string)
    ensures |t| > 0 && (t[|t| - 1] == '✓' <==> l.valid)
  {
    var dpi := if l.minDpi == l.maxDpi then NatToString(l.minDpi)
               else NatToString(l.minDpi) + "-" + NatToString(l.maxDpi);
    "Página " + NatToString(l.page) + " → " + dpi + (if l.valid then " DPI ✓" else " DPI (inválido)")
  }

  function JoinLines(ls: seq<string>): string {
    if ls == [] then "" else if |ls| == 1 then ls[0] else ls[0] + "\n" + JoinLines(ls[1..])
  }

  /** The `detail` string of a result. */
  function DetailText(d: DpiDetail): string {
    match d
    case NoRasterImages => "Documento sin imágenes rasterizadas (solo texto/vectores) ✓"
    case GhostscriptUnavailable => "No se pudo verificar (Ghostscript no disponible)"
    case Uniform300 => "Resolución: 300 DPI ✓"
    case OutOfRange(mn, mx) =>
      var shown := if mn == mx then NatToString(mn) else NatToString(mn) + " - " + NatToString(mx);
      "Resolución: " + shown + " DPI (inválido)\n⚠️ Se requiere exactamente 300 DPI."
    case PerPage(lines, invalidCount) =>
      var body := JoinLines(seq(|lines|, k requires 0 <= k < |lines| => PageLineText(lines[k])));
      match invalidCount
      case None => body
      case Some(n) =>
        body + "\n\n⚠️ " + NatToString(n) + " imagen(es) con DPI ≠ 300. Se requiere exactamente 300 DPI."
  }
}
