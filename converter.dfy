/** The conversion service (app/Services/VucemPdfConverter.php): Ghostscript
    rasterises a document at 300 dpi into one single-page PDF per page inside a
    fresh temporary directory, the pages are put back in page order and merged
    into one PDF 1.4 by a chain of fallback strategies, and the temporary
    directory is cleaned up on every exit.

    Ghostscript itself is an oracle: `gs` says, for each invocation, how large a
    file it leaves at the invocation's output path (nothing at all when it writes
    none) and what it prints on standard error. */
module Converter {
  import opened Text
  import opened Optional
  import opened Tools
  import opened FileSystem
  import opened Ordering
  import opened PdfImagesList

  /** Outputs of at most this many bytes count as failed merges; the final check
      rejects only outputs strictly smaller. */
  const MIN_OUTPUT_BYTES: nat := 100

  /** `storage_path('app/tmp/vucem_convert')`. */
  const CONVERT_ROOT := "storage/app/tmp/vucem_convert"

  const LIST_NAME := "filelist.txt"

  /** The name Ghostscript's `page_%d.pdf` output pattern gives page `n`. */
  function PageName(n: nat): (name: string)
    ensures IsPageFile(name)
  {
    "page_" + NatToString(n) + ".pdf"
  }

  /** The pairwise strategy's `merged_<i>.pdf`. */
  function MergedName(i: nat): string {
    "merged_" + NatToString(i) + ".pdf"
  }

  /** The names glob's `page_*.pdf` lists. */
  predicate IsPageFile(name: string) {
    |name| >= 9 && name[..5] == "page_" && name[|name| - 4..] == ".pdf"
  }

  /** `*` in the pattern stands for any text: the listed names are exactly
      "page_", anything, ".pdf". */
  lemma PageFileShape(name: string)
    ensures IsPageFile(name) <==> exists mid :: name == "page_" + mid + ".pdf"
  {
    if IsPageFile(name) {
      assert name == "page_" + name[5..|name| - 4] + ".pdf";
    } else {
      forall mid ensures name != "page_" + mid + ".pdf" {
        var t := "page_" + mid + ".pdf";
        assert t[..5] == "page_" && t[|t| - 4..] == ".pdf";
      }
    }
  }

  /** The sort key: `intval($m[1] ?? 0)` for `/page_(\d+)\.pdf$/`. The match is
      a suffix of the path, so it lies within the file name: the digits that end
      the name before ".pdf", when "page_" precedes them; 0 when there is no match. */
  function PageNumber(name: string): nat
  {
    if |name| < 4 || name[|name| - 4..] != ".pdf" then 0
    else
      var stem := name[..|name| - 4];
      var d := TrailingCount(stem, IsDigit);
      if d == 0 || |stem| - d < 5 || stem[|stem| - d - 5..|stem| - d] != "page_" then 0
      else
        var digits := stem[|stem| - d..];
        assert AllDigits(digits) by {
          forall k | 0 <= k < |digits| ensures IsDigit(digits[k]) {
            assert digits[k] == stem[|stem| - d + k];
          }
        }
        DigitsValue(digits)
  }

  /** A non-zero key comes only from a name that ends in digits and ".pdf". */
  lemma PageNumberNeedsDigits(name: string)
    ensures PageNumber(name) != 0 ==> |name| >= 10 && name[|name| - 4..] == ".pdf" && IsDigit(name[|name| - 5])
  {
    if PageNumber(name) != 0 {
      var stem := name[..|name| - 4];
      var d := TrailingCount(stem, IsDigit);
      assert IsDigit(stem[|stem| - 1]);
    }
  }

  /** The comparator reads back the number Ghostscript put in the name. */
  lemma PageNumberOfName(n: nat)
    ensures PageNumber(PageName(n)) == n
  {
    var name := PageName(n);
    var digits := NatToString(n);
    var stem := "page_" + digits;
    assert name == stem + ".pdf";
    assert name[|name| - 4..] == ".pdf";
    assert name[..|name| - 4] == stem;
    assert forall c :: c in digits ==> IsDigit(c) by {
      forall c | c in digits ensures IsDigit(c) {
        var k :| 0 <= k < |digits| && digits[k] == c;
      }
    }
    TrailingOf("page_", digits, IsDigit);
    assert stem[|stem| - |digits| - 5..|stem| - |digits|] == "page_";
    assert stem[|stem| - |digits|..] == digits;
  }

  lemma PageNamesDistinct(m: nat, n: nat)
    requires PageName(m) == PageName(n)
    ensures m == n
  {
    PageNumberOfName(m);
    PageNumberOfName(n);
  }

  /** The postcondition of glob followed by the numeric `usort`: every listed page
      once, in non-decreasing page number. Pages with equal numbers may come in
      either order here, where `usort` fixes one; this never matters for the
      names Ghostscript writes, whose numbers differ (`PageNamesDistinct`,
      `PageNumberOfName`). */
  predicate SortedListing(found: set<Path>, pages: seq<Path>) {
    (forall p :: p in found ==> p in pages) &&
    (forall i :: 0 <= i < |pages| ==> pages[i] in found) &&
    (forall i, j :: 0 <= i < j < |pages| ==> pages[i] != pages[j]) &&
    (forall i, j :: 0 <= i < j < |pages| ==> PageNumber(pages[i].name) <= PageNumber(pages[j].name))
  }

  /** `glob` then `usort` by page number: the page files, smallest number first. */
  method OrderPages(found: set<Path>) returns (pages: seq<Path>)
    ensures SortedListing(found, pages)
    ensures |pages| == |found|
  {
    pages := [];
    ghost var keys: seq<nat> := [];
    ghost var floor: nat := 0;
    var rest := found;
    while rest != {}
      invariant Selected(found, pages, keys, floor, rest)
      decreases |rest|
    {
      ghost var candidates := set q | q in rest :: PageNumber(q.name);
      ghost var some :| some in rest;
      assert PageNumber(some.name) in candidates;
      ghost var least := SetMin(candidates);
      ghost var lowest :| lowest in rest && PageNumber(lowest.name) == least;
      forall q | q in rest ensures PageNumber(lowest.name) <= PageNumber(q.name) {
        assert PageNumber(q.name) in candidates;
      }
      var p :| p in rest && forall q :: q in rest ==> PageNumber(p.name) <= PageNumber(q.name);
      SelectNext(found, pages, keys, floor, rest, p);
      floor := PageNumber(p.name);
      pages := pages + [p];
      keys := keys + [floor];
      rest := rest - {p};
    }
    ListingOfSelection(found, pages, keys, floor);
  }

  predicate NonDecreasing(s: seq<nat>) {
    forall i, j :: 0 <= i < j < |s| ==> s[i] <= s[j]
  }

  /** The selection sort's state: `pages` holds the pages already taken, smallest
      number first, `keys` their numbers, and every page still in `rest` has a
      number no smaller than `floor`, the largest taken so far. */
  ghost predicate Selected(found: set<Path>, pages: seq<Path>, keys: seq<nat>, floor: nat, rest: set<Path>) {
    rest <= found &&
    (forall p :: p in found ==> p in pages || p in rest) &&
    (forall i :: 0 <= i < |pages| ==> pages[i] in found && pages[i] !in rest) &&
    (forall i, j :: 0 <= i < j < |pages| ==> pages[i] != pages[j]) &&
    |keys| == |pages| && (forall i :: 0 <= i < |pages| ==> keys[i] == PageNumber(pages[i].name)) &&
    NonDecreasing(keys) &&
    (forall i :: 0 <= i < |keys| ==> keys[i] <= floor) &&
    (forall q :: q in rest ==> floor <= PageNumber(q.name)) &&
    |pages| + |rest| == |found|
  }

  lemma SelectNext(found: set<Path>, pages: seq<Path>, keys: seq<nat>, floor: nat, rest: set<Path>, p: Path)
    requires Selected(found, pages, keys, floor, rest)
    requires p in rest && forall q :: q in rest ==> PageNumber(p.name) <= PageNumber(q.name)
    ensures Selected(found, pages + [p], keys + [PageNumber(p.name)], PageNumber(p.name), rest - {p})
  {
    var pages', keys' := pages + [p], keys + [PageNumber(p.name)];
    assert forall i :: 0 <= i < |pages| ==> pages'[i] == pages[i] && keys'[i] == keys[i];
    assert |rest - {p}| == |rest| - 1;
  }

  lemma ListingOfSelection(found: set<Path>, pages: seq<Path>, keys: seq<nat>, floor: nat)
    requires Selected(found, pages, keys, floor, {})
    ensures SortedListing(found, pages) && |pages| == |found|
  {
    forall i, j | 0 <= i < j < |pages| ensures PageNumber(pages[i].name) <= PageNumber(pages[j].name) {
      assert keys[i] <= keys[j];
    }
  }

  /** A strictly increasing sequence of `k` numbers drawn from 1..k is 1, 2, …, k. */
  lemma {:induction false} FillsRange(s: seq<nat>, i: nat)
    requires StrictlyIncreasing(s)
    requires forall j :: 0 <= j < |s| ==> 1 <= s[j] <= |s|
    requires i < |s|
    ensures s[i] == i + 1
  {
    LowerBound(s, i);
    UpperBound(s, i);
  }

  lemma {:induction false} LowerBound(s: seq<nat>, i: nat)
    requires StrictlyIncreasing(s)
    requires forall j :: 0 <= j < |s| ==> 1 <= s[j]
    requires i < |s|
    ensures s[i] >= i + 1
  {
    if i > 0 {
      LowerBound(s, i - 1);
    }
  }

  lemma {:induction false} UpperBound(s: seq<nat>, i: nat)
    requires StrictlyIncreasing(s)
    requires forall j :: 0 <= j < |s| ==> s[j] <= |s|
    requires i < |s|
    ensures s[i] + (|s| - 1 - i) <= |s|
    decreases |s| - i
  {
    if i < |s| - 1 {
      UpperBound(s, i + 1);
    }
  }

  function PageKeys(pages: seq<Path>): (keys: seq<nat>)
    ensures |keys| == |pages|
    ensures forall i :: 0 <= i < |pages| ==> keys[i] == PageNumber(pages[i].name)
  {
    seq(|pages|, i requires 0 <= i < |pages| => PageNumber(pages[i].name))
  }

  lemma PageKeysOfListing(dir: string, k: nat, pages: seq<Path>)
    requires SortedListing(set n | 1 <= n <= k :: Path(dir, PageName(n)), pages)
    requires |pages| == k
    ensures forall i :: 0 <= i < k ==> 1 <= PageKeys(pages)[i] <= k && pages[i] == Path(dir, PageName(PageKeys(pages)[i]))
  {
    forall i | 0 <= i < k ensures 1 <= PageKeys(pages)[i] <= k && pages[i] == Path(dir, PageName(PageKeys(pages)[i])) {
      var found := set n | 1 <= n <= k :: Path(dir, PageName(n));
      assert pages[i] in found;
      var n :| 1 <= n <= k && pages[i] == Path(dir, PageName(n));
      PageNumberOfName(n);
    }
  }

  lemma PageKeysIncrease(dir: string, k: nat, pages: seq<Path>)
    requires forall i, j :: 0 <= i < j < |pages| ==> pages[i] != pages[j]
    requires forall i, j :: 0 <= i < j < |pages| ==> PageNumber(pages[i].name) <= PageNumber(pages[j].name)
    requires forall i :: 0 <= i < |pages| ==> pages[i] == Path(dir, PageName(PageKeys(pages)[i]))
    ensures StrictlyIncreasing(PageKeys(pages))
  {
    var keys := PageKeys(pages);
    forall i, j | 0 <= i < j < |keys| ensures keys[i] < keys[j] {
      if keys[i] == keys[j] {
        assert false;
      }
    }
  }

  /** When Ghostscript has written pages 1..k, the sorted listing is the document
      order: page_9 comes before page_10, which a sort by name would not give. */
  lemma PagesInDocumentOrder(dir: string, k: nat, pages: seq<Path>)
    requires SortedListing(set n | 1 <= n <= k :: Path(dir, PageName(n)), pages)
    requires |pages| == k
    ensures forall i :: 0 <= i < k ==> pages[i] == Path(dir, PageName(i + 1))
  {
    PageKeysOfListing(dir, k, pages);
    PageKeysIncrease(dir, k, pages);
    forall i | 0 <= i < k ensures pages[i] == Path(dir, PageName(i + 1)) {
      FillsRange(PageKeys(pages), i);
    }
  }

  /** A Ghostscript invocation of the merge chain, named after the strategy that
      makes it; `output` is the file it is asked to write. */
  datatype GsCall =
    | Reprocess(page: Path, output: Path)
    | Direct(pages: seq<Path>, output: Path)
    | FromList(list: Path, output: Path)
    | Pair(current: Path, next: Path, output: Path)
    | Rewrite(merged: Path, output: Path)

  /** What an invocation leaves behind: the size of the file it wrote at its output
      path, if any, and its standard error. */
  datatype GsResult = GsResult(written: Option<nat>, stderr: string)

  /** The files after an invocation. */
  function Effect(files: map<Path, nat>, call: GsCall, result: GsResult): map<Path, nat> {
    if result.written.Some? then files[call.output := result.written.value] else files
  }

  /** A strategy's success test: `file_exists($outputPath) && filesize($outputPath) > 100`. */
  predicate Passes(files: map<Path, nat>, output: Path) {
    output in files && files[output] > MIN_OUTPUT_BYTES
  }

  datatype Strategy = ReprocessSingle | DirectMerge | ListMerge | PairwiseMerge

  /** `mergePdfs` returns after some strategy, or throws with the standard error
      of the list-file invocation, the last one whose result it keeps. */
  datatype MergeOutcome = Merged(strategy: Strategy) | MergeFailed(lastError: string)

  datatype MergeState = MergeState(outcome: MergeOutcome, files: map<Path, nat>)

  datatype PairState = PairState(files: map<Path, nat>, current: Path)

  /** The list file: every page path followed by a line feed. */
  function ListContent(pdfs: seq<Path>): string {
    if pdfs == [] then "" else ListContent(pdfs[..|pdfs| - 1]) + PathText(pdfs[|pdfs| - 1]) + "\n"
  }

  function ListPath(tempDir: string): Path {
    Path(tempDir, LIST_NAME)
  }

  function MergedPath(tempDir: string, i: nat): Path {
    Path(tempDir, MergedName(i))
  }

  /** The pairwise loop from iteration `i` on: merge the running result with page
      `i` into `merged_i.pdf`, and drop the running result when it is itself an
      intermediate (from the second iteration on). */
  function PairwiseFrom(files: map<Path, nat>, current: Path, pdfs: seq<Path>, i: nat, tempDir: string,
                        gs: GsCall -> GsResult): (r: PairState)
    requires 1 <= i <= |pdfs|
    ensures r.current == if i == |pdfs| then current else MergedPath(tempDir, |pdfs| - 1)
    decreases |pdfs| - i
  {
    if i == |pdfs| then PairState(files, current)
    else
      var call := Pair(current, pdfs[i], MergedPath(tempDir, i));
      var written := Effect(files, call, gs(call));
      PairwiseFrom(if i > 1 then written - {current} else written, MergedPath(tempDir, i), pdfs, i + 1, tempDir, gs)
  }

  /** The pairwise strategy: the loop, then one more pass that rewrites the final
      running result as the output and deletes it. */
  function AfterPairwise(files: map<Path, nat>, pdfs: seq<Path>, output: Path, tempDir: string,
                         gs: GsCall -> GsResult): (r: map<Path, nat>)
    requires |pdfs| >= 1
    ensures (if |pdfs| == 1 then pdfs[0] else MergedPath(tempDir, |pdfs| - 1)) !in r
  {
    var p := PairwiseFrom(files, pdfs[0], pdfs, 1, tempDir, gs);
    if p.current in p.files then
      var call := Rewrite(p.current, output);
      Effect(p.files, call, gs(call)) - {p.current}
    else p.files
  }

  /** The list-file strategy: write the list, run Ghostscript on it, delete it. */
  function AfterList(files: map<Path, nat>, pdfs: seq<Path>, output: Path, tempDir: string,
                     gs: GsCall -> GsResult): (r: map<Path, nat>)
    ensures ListPath(tempDir) !in r
    ensures forall p :: p != output && p != ListPath(tempDir) ==> AgreeAt(files, r, p)
  {
    var call := FromList(ListPath(tempDir), output);
    Effect(files[ListPath(tempDir) := |ListContent(pdfs)|], call, gs(call)) - {ListPath(tempDir)}
  }

  /** `mergePdfs`: the strategies in their fixed order, stopping at the first whose
      output passes; after the pairwise strategy the last check only demands
      100 bytes. */
  function MergeChain(files: map<Path, nat>, pdfs: seq<Path>, output: Path, tempDir: string,
                      gs: GsCall -> GsResult): (r: MergeState)
    requires |pdfs| >= 1
    ensures r.outcome.Merged? <==> output in r.files && r.files[output] >= MIN_OUTPUT_BYTES
    ensures r.outcome.Merged? && r.outcome.strategy != PairwiseMerge ==> Passes(r.files, output)
    ensures r.outcome == Merged(ReprocessSingle) ==> |pdfs| == 1
    ensures r.outcome.MergeFailed? ==> r.outcome.lastError == gs(FromList(ListPath(tempDir), output)).stderr
  {
    var single := Reprocess(pdfs[0], output);
    var f0 := if |pdfs| == 1 then Effect(files, single, gs(single)) else files;
    if |pdfs| == 1 && Passes(f0, output) then MergeState(Merged(ReprocessSingle), f0)
    else
      var direct := Direct(pdfs, output);
      var f1 := Effect(f0, direct, gs(direct));
      if Passes(f1, output) then MergeState(Merged(DirectMerge), f1)
      else
        var f2 := AfterList(f1, pdfs, output, tempDir, gs);
        if Passes(f2, output) then MergeState(Merged(ListMerge), f2)
        else
          var f3 := AfterPairwise(f2, pdfs, output, tempDir, gs);
          if output !in f3 || f3[output] < MIN_OUTPUT_BYTES then
            MergeState(MergeFailed(gs(FromList(ListPath(tempDir), output)).stderr), f3)
          else MergeState(Merged(PairwiseMerge), f3)
  }

  lemma MergedNamesDistinct(i: nat, j: nat)
    requires MergedName(i) == MergedName(j)
    ensures i == j
  {
    var a, b := MergedName(i), MergedName(j);
    assert a[7..|a| - 4] == NatToString(i);
    assert b[7..|b| - 4] == NatToString(j);
    NatToStringInjective(i, j);
  }

  /** Each intermediate is deleted by the next iteration, and the loop ends holding
      the last one (or the single page when there is only one). */
  lemma {:induction false} PairwiseClears(files: map<Path, nat>, current: Path, pdfs: seq<Path>, i: nat,
                                          tempDir: string, gs: GsCall -> GsResult)
    requires 1 <= i <= |pdfs|
    requires i == 1 ==> current == pdfs[0]
    requires i > 1 ==> current == MergedPath(tempDir, i - 1)
    requires forall j :: 1 <= j < i - 1 ==> MergedPath(tempDir, j) !in files
    ensures forall j :: 1 <= j < |pdfs| - 1 ==> MergedPath(tempDir, j) !in PairwiseFrom(files, current, pdfs, i, tempDir, gs).files
    ensures PairwiseFrom(files, current, pdfs, i, tempDir, gs).current ==
            if |pdfs| == 1 then pdfs[0] else MergedPath(tempDir, |pdfs| - 1)
    decreases |pdfs| - i
  {
    if i < |pdfs| {
      var call := Pair(current, pdfs[i], MergedPath(tempDir, i));
      var written := Effect(files, call, gs(call));
      var next := if i > 1 then written - {current} else written;
      forall j | 1 <= j < i ensures MergedPath(tempDir, j) !in next {
        if MergedPath(tempDir, j) == MergedPath(tempDir, i) {
          MergedNamesDistinct(i, j);
        }
      }
      PairwiseClears(next, MergedPath(tempDir, i), pdfs, i + 1, tempDir, gs);
    }
  }

  /** The loop touches nothing but the intermediates, and from the second
      iteration on the running result it replaces. */
  lemma {:induction false} PairwiseFrame(files: map<Path, nat>, current: Path, pdfs: seq<Path>, i: nat,
                                         tempDir: string, gs: GsCall -> GsResult, p: Path)
    requires 1 <= i <= |pdfs|
    requires i > 1 ==> current == MergedPath(tempDir, i - 1)
    requires forall j :: 1 <= j < |pdfs| ==> p != MergedPath(tempDir, j)
    ensures AgreeAt(files, PairwiseFrom(files, current, pdfs, i, tempDir, gs).files, p)
    decreases |pdfs| - i
  {
    if i < |pdfs| {
      var call := Pair(current, pdfs[i], MergedPath(tempDir, i));
      var written := Effect(files, call, gs(call));
      var next := if i > 1 then written - {current} else written;
      assert AgreeAt(files, next, p);
      PairwiseFrame(next, MergedPath(tempDir, i), pdfs, i + 1, tempDir, gs, p);
    }
  }

  lemma ScratchNamesDiffer(tempDir: string, j: nat)
    ensures MergedPath(tempDir, j) != ListPath(tempDir)
  {
    assert MergedName(j)[0] == 'm';
  }

  /** The pairwise strategy leaves no intermediate behind, and keeps away from
      every file it neither writes nor replaces. */
  lemma PairwiseCleansUp(files: map<Path, nat>, pdfs: seq<Path>, output: Path, tempDir: string,
                         gs: GsCall -> GsResult)
    requires |pdfs| >= 1 && output.dir != tempDir
    ensures forall j :: 1 <= j < |pdfs| ==> MergedPath(tempDir, j) !in AfterPairwise(files, pdfs, output, tempDir, gs)
    ensures ListPath(tempDir) !in files ==> ListPath(tempDir) !in AfterPairwise(files, pdfs, output, tempDir, gs)
  {
    PairwiseClears(files, pdfs[0], pdfs, 1, tempDir, gs);
    forall j | 1 <= j < |pdfs| ensures ListPath(tempDir) != MergedPath(tempDir, j) {
      ScratchNamesDiffer(tempDir, j);
    }
    PairwiseFrame(files, pdfs[0], pdfs, 1, tempDir, gs, ListPath(tempDir));
  }

  /** Whatever the outcome, the list file is gone once the list strategy has run,
      and every intermediate is gone once the pairwise one has. */
  lemma ChainCleansUp(files: map<Path, nat>, pdfs: seq<Path>, output: Path, tempDir: string,
                      gs: GsCall -> GsResult)
    requires |pdfs| >= 1 && output.dir != tempDir
    ensures var r := MergeChain(files, pdfs, output, tempDir, gs);
      (r.outcome != Merged(ReprocessSingle) && r.outcome != Merged(DirectMerge) ==> ListPath(tempDir) !in r.files) &&
      (r.outcome == Merged(PairwiseMerge) || r.outcome.MergeFailed? ==>
         forall j :: 1 <= j < |pdfs| ==> MergedPath(tempDir, j) !in r.files)
  {
    var single := Reprocess(pdfs[0], output);
    var f0 := if |pdfs| == 1 then Effect(files, single, gs(single)) else files;
    var direct := Direct(pdfs, output);
    var f1 := Effect(f0, direct, gs(direct));
    PairwiseCleansUp(AfterList(f1, pdfs, output, tempDir, gs), pdfs, output, tempDir, gs);
  }

  /** Apart from the output, the list file and the intermediates, the chain
      changes only the single page of a one-page document, which the pairwise
      strategy deletes after its rewrite. */
  lemma ChainFrame(files: map<Path, nat>, pdfs: seq<Path>, output: Path, tempDir: string,
                   gs: GsCall -> GsResult, p: Path)
    requires |pdfs| >= 1
    requires p != output && p != ListPath(tempDir) && forall j :: 1 <= j < |pdfs| ==> p != MergedPath(tempDir, j)
    requires |pdfs| == 1 ==> p != pdfs[0]
    ensures AgreeAt(files, MergeChain(files, pdfs, output, tempDir, gs).files, p)
  {
    var single := Reprocess(pdfs[0], output);
    var f0 := if |pdfs| == 1 then Effect(files, single, gs(single)) else files;
    var direct := Direct(pdfs, output);
    var f1 := Effect(f0, direct, gs(direct));
    var f2 := AfterList(f1, pdfs, output, tempDir, gs);
    assert AgreeAt(files, f0, p) && AgreeAt(f0, f1, p) && AgreeAt(f1, f2, p);
    var pair := PairwiseFrom(f2, pdfs[0], pdfs, 1, tempDir, gs);
    assert AgreeAt(f2, pair.files, p) by {
      PairwiseFrame(f2, pdfs[0], pdfs, 1, tempDir, gs, p);
    }
    assert pair.current != p by {
      PairwiseClears(f2, pdfs[0], pdfs, 1, tempDir, gs);
    }
  }

  /** With a single page, a chain that reaches the pairwise strategy rewrites the
      page itself as the output and then deletes the page. */
  lemma SinglePageConsumed(files: map<Path, nat>, page: Path, output: Path, tempDir: string,
                           gs: GsCall -> GsResult)
    requires page != output
    ensures var r := MergeChain(files, [page], output, tempDir, gs);
      r.outcome == Merged(PairwiseMerge) || r.outcome.MergeFailed? ==> page !in r.files
  {
  }

  /** The strategies reject an output of exactly 100 bytes, but the check after
      the pairwise strategy accepts it: when only the direct merge writes anything,
      and writes 100 bytes, the chain ends in success with that file. */
  lemma HundredByteOutputAccepted(a: Path, b: Path, output: Path, tempDir: string)
    requires output.dir != tempDir
    ensures var gs := (c: GsCall) => if c.Direct? then GsResult(Some(100), "") else GsResult(None, "");
            var r := MergeChain(map[], [a, b], output, tempDir, gs);
            r.outcome == Merged(PairwiseMerge) && output in r.files && r.files[output] == MIN_OUTPUT_BYTES
  {
    var gs := (c: GsCall) => if c.Direct? then GsResult(Some(100), "") else GsResult(None, "");
    var f1 := map[output := 100];
    assert AfterList(f1, [a, b], output, tempDir, gs) == f1;
    assert PairwiseFrom(f1, a, [a, b], 1, tempDir, gs) == PairState(f1, MergedPath(tempDir, 1));
  }

  /** Outside the temporary directory the chain changes nothing but the output. */
  lemma ChainKeepsOutside(files: map<Path, nat>, pdfs: seq<Path>, output: Path, tempDir: string,
                          gs: GsCall -> GsResult)
    requires |pdfs| >= 1 && pdfs[0].dir == tempDir
    ensures forall p: Path :: p.dir != tempDir && p != output ==>
      AgreeAt(files, MergeChain(files, pdfs, output, tempDir, gs).files, p)
  {
    forall p: Path | p.dir != tempDir && p != output
      ensures AgreeAt(files, MergeChain(files, pdfs, output, tempDir, gs).files, p)
    {
      ChainFrame(files, pdfs, output, tempDir, gs, p);
    }
  }

  /** Every file the chain writes has a visible name. */
  lemma ChainAddsNoHidden(files: map<Path, nat>, pdfs: seq<Path>, output: Path, tempDir: string,
                          gs: GsCall -> GsResult)
    requires |pdfs| >= 1 && IsPageFile(pdfs[0].name) && output.dir != tempDir
    ensures NoHiddenIn(files, tempDir) ==> NoHiddenIn(MergeChain(files, pdfs, output, tempDir, gs).files, tempDir)
  {
    var after := MergeChain(files, pdfs, output, tempDir, gs).files;
    forall p: Path | p.dir == tempDir && IsHidden(p.name) ensures AgreeAt(files, after, p) {
      assert p != ListPath(tempDir) by {
        assert LIST_NAME[0] == 'f';
      }
      assert p != pdfs[0] by {
        assert pdfs[0].name[0] == 'p';
      }
      forall j | 1 <= j < |pdfs| ensures p != MergedPath(tempDir, j) {
        assert MergedName(j)[0] == 'm';
      }
      ChainFrame(files, pdfs, output, tempDir, gs, p);
    }
  }

  /** Why `convertToVucem` throws. */
  datatype ConvertError =
    | InputMissing
    | GhostscriptUnavailable
    | NoPages(gsError: string)
    | MergeError(lastError: string)
    | NoOutput

  datatype Conversion = Converted | ConversionFailed(error: ConvertError)

  /** The exception's message. */
  function ErrorMessage(e: ConvertError, input: Path): string {
    match e
    case InputMissing => "El archivo de entrada no existe: " + PathText(input)
    case GhostscriptUnavailable => "Ghostscript no está disponible en el sistema."
    case NoPages(gsError) => "No se generaron páginas PDF. Error: " + gsError
    case MergeError(lastError) => "No se pudieron combinar los PDFs. Último error: " + lastError
    case NoOutput => "No se pudo generar el archivo PDF de salida."
  }

  /** `$basePath . '/conv_' . uniqid() . '_' . time()`. */
  function TempDirName(unique: string, time: nat): string {
    CONVERT_ROOT + "/conv_" + unique + "_" + NatToString(time)
  }

  /** What `uniqid()` and `time()` are relied on for: no directory, file or
      subdirectory of that name exists yet. */
  predicate FreshDir(files: map<Path, nat>, dirs: set<string>, d: string) {
    d !in dirs && (forall p :: p in files ==> p.dir != d) && (forall e :: e in dirs ==> !IsSubdirOf(d, e))
  }

  /** The page files Ghostscript writes into `dir`, by name. */
  function PagesIn(dir: string, written: map<string, nat>): map<Path, nat> {
    map name | name in written :: Path(dir, name) := written[name]
  }

  /** The page files glob lists once the raster pass has written `raster` into
      the empty directory `dir`. */
  function PageFiles(dir: string, raster: map<string, nat>): set<Path> {
    set name | name in raster && IsPageFile(name) :: Path(dir, name)
  }

  /** `r` is what `convertToVucem` ends with when the sorted `pages` are merged
      over `files`: success exactly when the chain merges, otherwise the chain's
      exception. The size check after the merge never fires, because the chain
      succeeds only with an output of at least 100 bytes. */
  predicate MergedAs(r: Conversion, files: map<Path, nat>, pages: seq<Path>, output: Path, tempDir: string,
                     gs: GsCall -> GsResult) {
    |pages| >= 1 &&
    var outcome := MergeChain(files, pages, output, tempDir, gs).outcome;
    r == if outcome.Merged? then Converted else ConversionFailed(MergeError(outcome.lastError))
  }

  /** The files after `cleanupDirectory(dir)`: what glob lists in `dir` is gone. */
  function Cleaned(files: map<Path, nat>, dir: string): map<Path, nat> {
    files - Listed(files, dir)
  }

  /** The conversion of a document whose raster pass wrote `raster` into the
      fresh `tempDir`: `pages` are its page files in page order, and `r` is what
      merging them gives. */
  predicate Converts(r: Conversion, pages: seq<Path>, files: map<Path, nat>, output: Path, tempDir: string,
                     raster: map<string, nat>, gs: GsCall -> GsResult) {
    SortedListing(PageFiles(tempDir, raster), pages) && |pages| == |PageFiles(tempDir, raster)| &&
    MergedAs(r, files + PagesIn(tempDir, raster), pages, output, tempDir, gs)
  }

  /** When the raster pass wrote page_1.pdf … page_k.pdf, the conversion merges
      them in document order. */
  lemma ConvertsInDocumentOrder(r: Conversion, pages: seq<Path>, files: map<Path, nat>, output: Path,
                                tempDir: string, raster: map<string, nat>, gs: GsCall -> GsResult, k: nat)
    requires raster.Keys == set n: nat | 1 <= n <= k :: PageName(n)
    requires Converts(r, pages, files, output, tempDir, raster, gs)
    ensures |pages| == k
    ensures forall i :: 0 <= i < k ==> pages[i] == Path(tempDir, PageName(i + 1))
  {
    var numbered := set n: nat | 1 <= n <= k :: Path(tempDir, PageName(n));
    assert PageFiles(tempDir, raster) == numbered by {
      forall p | p in numbered ensures p in PageFiles(tempDir, raster) {
        var n :| 1 <= n <= k && p == Path(tempDir, PageName(n));
        assert PageName(n) in raster.Keys;
      }
      forall p | p in PageFiles(tempDir, raster) ensures p in numbered {
        var name :| name in raster && IsPageFile(name) && p == Path(tempDir, name);
        var n :| 1 <= n <= k && name == PageName(n);
      }
    }
    assert |numbered| == k by {
      NumberedCount(tempDir, k);
    }
    PagesInDocumentOrder(tempDir, k, pages);
  }

  lemma NumberedCount(dir: string, k: nat)
    ensures |set n: nat | 1 <= n <= k :: Path(dir, PageName(n))| == k
  {
    var name := (n: nat) => Path(dir, PageName(n));
    forall a: nat, b: nat | name(a) == name(b) ensures a == b {
      if a != b {
        PageNamesDistinct(a, b);
      }
    }
    InjectiveCount(name, k);
    var byName := set n: nat | 1 <= n <= k :: name(n);
    var numbered := set n: nat | 1 <= n <= k :: Path(dir, PageName(n));
    forall p | p in numbered ensures p in byName {
      var n: nat :| 1 <= n <= k && p == Path(dir, PageName(n));
      assert p == name(n);
    }
    forall p | p in byName ensures p in numbered {
      var n: nat :| 1 <= n <= k && p == name(n);
    }
    assert byName == numbered;
  }

  /** An injective function takes 1..k to `k` different values. */
  lemma {:induction false} InjectiveCount<T>(f: nat -> T, k: nat)
    requires forall a: nat, b: nat :: f(a) == f(b) ==> a == b
    ensures |set n: nat | 1 <= n <= k :: f(n)| == k
  {
    if k > 0 {
      var smaller := set n: nat | 1 <= n <= k - 1 :: f(n);
      InjectiveCount(f, k - 1);
      assert (set n: nat | 1 <= n <= k :: f(n)) == smaller + {f(k)};
    }
  }

  predicate NoHiddenIn(files: map<Path, nat>, dir: string) {
    forall p :: p in files && p.dir == dir ==> !IsHidden(p.name)
  }

  /** What glob's `*` lists in `dir` and `is_file` keeps. */
  function Listed(files: map<Path, nat>, dir: string): set<Path> {
    set p | p in files && p.dir == dir && !IsHidden(p.name)
  }

  /** One row of `validateDpi`'s `images`. */
  datatype ConvertedImage = ConvertedImage(page: nat, xDpi: nat, yDpi: nat, avgDpi: nat, valid: bool)

  datatype DpiValidation =
    | NotValidated(error: string)
    | Validated(valid: bool, images: seq<ConvertedImage>, count: nat)

  function ImageOf(row: Row): (im: ConvertedImage)
    ensures im.valid <==> row.xPpi + row.yPpi == 599 || row.xPpi + row.yPpi == 600
  {
    var avg := AverageDpi(row.xPpi, row.yPpi);
    ConvertedImage(row.page, row.xPpi, row.yPpi, avg, avg == 300)
  }

  /** The images of the rows among `lines`, in line order. */
  function ImagesIn(lines: seq<string>): (images: seq<ConvertedImage>)
    ensures |images| <= |lines|
    ensures forall k :: 0 <= k < |images| ==> (images[k].valid <==> images[k].avgDpi == 300)
  {
    if lines == [] then []
    else
      var m := MatchRow(lines[|lines| - 1], ConverterPattern);
      ImagesIn(lines[..|lines| - 1]) + if m.Some? then [ImageOf(m.value)] else []
  }

  predicate AllAt300(images: seq<ConvertedImage>) {
    forall k :: 0 <= k < |images| ==> images[k].avgDpi == 300
  }

  lemma AllAt300Append(images: seq<ConvertedImage>, image: ConvertedImage)
    ensures AllAt300(images + [image]) <==> AllAt300(images) && image.avgDpi == 300
  {
    assert forall k :: 0 <= k < |images| ==> (images + [image])[k] == images[k];
    assert (images + [image])[|images|] == image;
  }

  lemma ImagesInStep(lines: seq<string>, i: nat)
    requires i < |lines|
    ensures var m := MatchRow(lines[i], ConverterPattern);
      ImagesIn(lines[..i + 1]) == ImagesIn(lines[..i]) + if m.Some? then [ImageOf(m.value)] else []
  {
    assert lines[..i + 1][..i] == lines[..i];
  }

  /** The converter service. Only the presence of the two tools matters here; the
      search for them is not part of this model. */
  class VucemPdfConverter {
    const hasGhostscript: bool
    const hasPdfimages: bool

    constructor (ghostscript: bool, pdfimages: bool)
      ensures hasGhostscript == ghostscript && hasPdfimages == pdfimages
    {
      hasGhostscript := ghostscript;
      hasPdfimages := pdfimages;
    }

    /** `executeGhostscript`: the invocation's output file as the oracle says. */
    method Execute(disk: Disk, call: GsCall, gs: GsCall -> GsResult) returns (result: GsResult)
      modifies disk
      ensures result == gs(call)
      ensures disk.files == Effect(old(disk.files), call, result) && disk.dirs == old(disk.dirs)
    {
      result := gs(call);
      if result.written.Some? {
        disk.Write(call.output, result.written.value);
      }
    }

    /** `mergePdfs`, proved to follow `MergeChain`. */
    method MergePdfs(disk: Disk, pdfs: seq<Path>, output: Path, tempDir: string, gs: GsCall -> GsResult)
      returns (outcome: MergeOutcome)
      requires |pdfs| >= 1
      modifies disk
      ensures MergeState(outcome, disk.files) == MergeChain(old(disk.files), pdfs, output, tempDir, gs)
      ensures disk.dirs == old(disk.dirs)
    {
      if |pdfs| == 1 {
        var _ := Execute(disk, Reprocess(pdfs[0], output), gs);
        if Passes(disk.files, output) {
          return Merged(ReprocessSingle);
        }
      }
      var _ := Execute(disk, Direct(pdfs, output), gs);
      if Passes(disk.files, output) {
        return Merged(DirectMerge);
      }
      var list := ListPath(tempDir);
      disk.Write(list, |ListContent(pdfs)|);
      var listed := Execute(disk, FromList(list, output), gs);
      disk.Unlink(list);
      if Passes(disk.files, output) {
        return Merged(ListMerge);
      }
      ghost var start := disk.files;
      var current := pdfs[0];
      var i := 1;
      while i < |pdfs|
        invariant 1 <= i <= |pdfs|
        invariant PairwiseFrom(disk.files, current, pdfs, i, tempDir, gs) == PairwiseFrom(start, pdfs[0], pdfs, 1, tempDir, gs)
        invariant disk.dirs == old(disk.dirs)
      {
        var next := MergedPath(tempDir, i);
        var _ := Execute(disk, Pair(current, pdfs[i], next), gs);
        if i > 1 {
          disk.Unlink(current);
        }
        current := next;
        i := i + 1;
      }
      if current in disk.files {
        var _ := Execute(disk, Rewrite(current, output), gs);
        disk.Unlink(current);
      }
      if output !in disk.files || disk.files[output] < MIN_OUTPUT_BYTES {
        outcome := MergeFailed(listed.stderr);
      } else {
        outcome := Merged(PairwiseMerge);
      }
    }
  
    /** `createTempDirectory`: the root if missing, then the per-run directory. */
    method CreateTempDirectory(disk: Disk, unique: string, time: nat) returns (tempDir: string)
      modifies disk
      ensures tempDir == TempDirName(unique, time)
      ensures disk.dirs == old(disk.dirs) + {CONVERT_ROOT, tempDir} && disk.files == old(disk.files)
    {
      if CONVERT_ROOT !in disk.dirs {
        disk.MakeDir(CONVERT_ROOT);
      }
      tempDir := TempDirName(unique, time);
      disk.MakeDir(tempDir);
    }

    /** `cleanupDirectory`: every file glob lists directly in `dir` is unlinked, then
        the directory is removed, which succeeds only when no hidden file and no
        subdirectory is left in it. A missing directory is left alone. */
    method CleanupDirectory(disk: Disk, dir: string)
      modifies disk
      ensures dir !in old(disk.dirs) ==> disk.files == old(disk.files) && disk.dirs == old(disk.dirs)
      ensures dir in old(disk.dirs) ==> disk.files == Cleaned(old(disk.files), dir)
      ensures dir in old(disk.dirs) ==>
        disk.dirs == if (forall p :: p in old(disk.files) && p.dir == dir ==> !IsHidden(p.name)) &&
                        (forall e :: e in old(disk.dirs) ==> !IsSubdirOf(dir, e))
                     then old(disk.dirs) - {dir} else old(disk.dirs)
    {
      if dir !in disk.dirs {
        return;
      }
      var listed := Listed(disk.files, dir);
      var rest := listed;
      while rest != {}
        invariant rest <= listed
        invariant disk.files == old(disk.files) - (listed - rest)
        invariant disk.dirs == old(disk.dirs)
        decreases |rest|
      {
        var p :| p in rest;
        disk.Unlink(p);
        rest := rest - {p};
      }
      var _ := disk.RemoveDir(dir);
    }

    /** Ghostscript's pdfimage8 pass writes `raster` into the fresh directory, and
        glob lists the page files among them. */
    method Rasterize(disk: Disk, tempDir: string, raster: map<string, nat>) returns (found: set<Path>)
      requires forall p :: p in disk.files ==> p.dir != tempDir
      modifies disk
      ensures disk.files == old(disk.files) + PagesIn(tempDir, raster) && disk.dirs == old(disk.dirs)
      ensures found == PageFiles(tempDir, raster)
      ensures found == {} <==> forall name :: name in raster ==> !IsPageFile(name)
      ensures forall p :: p in found ==> p.dir == tempDir && IsPageFile(p.name)
      ensures (forall name :: name in raster ==> !IsHidden(name)) ==> NoHiddenIn(disk.files, tempDir)
    {
      disk.WriteAll(PagesIn(tempDir, raster));
      found := set p | p in disk.files && p.dir == tempDir && IsPageFile(p.name);
      assert found == PageFiles(tempDir, raster) by {
        forall p | p in found ensures p in PageFiles(tempDir, raster) {
          assert p !in old(disk.files);
        }
      }
      if found == {} {
        forall name | name in raster ensures !IsPageFile(name) {
          assert Path(tempDir, name) in disk.files;
          assert Path(tempDir, name) !in found;
        }
      } else {
        var p :| p in found;
        assert p.name in raster;
      }
    }

    /** Order the listed pages and merge them into `output`; the check that
        follows the merge can never fail, since `mergePdfs` returns only with an
        output of at least 100 bytes. */
    method MergePages(disk: Disk, found: set<Path>, output: Path, tempDir: string, gs: GsCall -> GsResult)
      returns (r: Conversion, ghost pages: seq<Path>)
      requires found != {} && (forall p :: p in found ==> p.dir == tempDir && IsPageFile(p.name))
      requires output.dir != tempDir
      modifies disk
      ensures SortedListing(found, pages) && |pages| == |found|
      ensures MergedAs(r, old(disk.files), pages, output, tempDir, gs)
      ensures disk.files == MergeChain(old(disk.files), pages, output, tempDir, gs).files
      ensures r == Converted || r.error.MergeError?
      ensures r == Converted ==> output in disk.files && disk.files[output] >= MIN_OUTPUT_BYTES
      ensures disk.dirs == old(disk.dirs)
      ensures forall p: Path :: p.dir != tempDir && p != output ==> AgreeAt(old(disk.files), disk.files, p)
      ensures NoHiddenIn(old(disk.files), tempDir) ==> NoHiddenIn(disk.files, tempDir)
    {
      var sorted := OrderPages(found);
      pages := sorted;
      var some :| some in found;
      assert |pages| >= 1 by {
        assert some in sorted;
      }
      assert sorted[0] in found;
      var outcome := MergePdfs(disk, sorted, output, tempDir, gs);
      ChainKeepsOutside(old(disk.files), pages, output, tempDir, gs);
      ChainAddsNoHidden(old(disk.files), pages, output, tempDir, gs);
      if outcome.MergeFailed? {
        r := ConversionFailed(MergeError(outcome.lastError));
      } else if output !in disk.files || disk.files[output] < MIN_OUTPUT_BYTES {
        r := ConversionFailed(NoOutput);
      } else {
        r := Converted;
      }
    }

    /** The part of `convertToVucem` inside `try … finally`, in the freshly created
        directory. */
    method ConvertIn(disk: Disk, tempDir: string, output: Path, raster: map<string, nat>, rasterError: string,
                     gs: GsCall -> GsResult)
      returns (r: Conversion, ghost pages: seq<Path>)
      requires tempDir in disk.dirs && (forall p :: p in disk.files ==> p.dir != tempDir)
      requires (forall e :: e in disk.dirs ==> !IsSubdirOf(tempDir, e)) && output.dir != tempDir
      modifies disk
      ensures PageFiles(tempDir, raster) != {} ==>
        Converts(r, pages, old(disk.files), output, tempDir, raster, gs) &&
        disk.files == Cleaned(MergeChain(old(disk.files) + PagesIn(tempDir, raster), pages, output, tempDir, gs).files, tempDir)
      ensures r == ConversionFailed(NoPages(rasterError)) <==> forall name :: name in raster ==> !IsPageFile(name)
      ensures r == Converted || r == ConversionFailed(NoPages(rasterError)) || r.error.MergeError?
      ensures r == Converted ==> output in disk.files && disk.files[output] >= MIN_OUTPUT_BYTES
      ensures forall p :: p in disk.files && p.dir == tempDir ==> IsHidden(p.name)
      ensures (forall name :: name in raster ==> !IsHidden(name)) ==> disk.dirs == old(disk.dirs) - {tempDir}
      ensures forall p: Path :: p.dir != tempDir && p != output ==> AgreeAt(old(disk.files), disk.files, p)
    {
      var found := Rasterize(disk, tempDir, raster);
      if found == {} {
        r := ConversionFailed(NoPages(rasterError));
        pages := [];
      } else {
        r, pages := MergePages(disk, found, output, tempDir, gs);
      }
      CleanupDirectory(disk, tempDir);
    }

    /** `convertToVucem(input, output)`. `raster` is what Ghostscript's pdfimage8
        pass writes into the temporary directory (normally page_1.pdf … page_k.pdf)
        and `rasterError` its standard error; `gs` answers the merge invocations. */
    method ConvertToVucem(disk: Disk, input: Path, output: Path, unique: string, time: nat,
                          raster: map<string, nat>, rasterError: string, gs: GsCall -> GsResult)
      returns (r: Conversion, ghost pages: seq<Path>)
      requires FreshDir(disk.files, disk.dirs, TempDirName(unique, time)) && output.dir != TempDirName(unique, time)
      modifies disk
      ensures input in old(disk.files) && hasGhostscript && PageFiles(TempDirName(unique, time), raster) != {} ==>
        Converts(r, pages, old(disk.files), output, TempDirName(unique, time), raster, gs) &&
        disk.files == Cleaned(MergeChain(old(disk.files) + PagesIn(TempDirName(unique, time), raster), pages, output,
                                         TempDirName(unique, time), gs).files, TempDirName(unique, time))
      ensures r == ConversionFailed(InputMissing) <==> input !in old(disk.files)
      ensures input in old(disk.files) ==> (r == ConversionFailed(GhostscriptUnavailable) <==> !hasGhostscript)
      ensures r == ConversionFailed(InputMissing) || r == ConversionFailed(GhostscriptUnavailable) ==>
        disk.files == old(disk.files) && disk.dirs == old(disk.dirs)
      ensures input in old(disk.files) && hasGhostscript ==>
        (r == ConversionFailed(NoPages(rasterError)) <==> forall name :: name in raster ==> !IsPageFile(name))
      ensures r == Converted ==> output in disk.files && disk.files[output] >= MIN_OUTPUT_BYTES
      ensures r != ConversionFailed(NoOutput)
      ensures forall p :: p in disk.files && p.dir == TempDirName(unique, time) ==> IsHidden(p.name)
      ensures input in old(disk.files) && hasGhostscript && (forall name :: name in raster ==> !IsHidden(name)) ==>
        disk.dirs == old(disk.dirs) + {CONVERT_ROOT}
      ensures forall p: Path :: p.dir != TempDirName(unique, time) && p != output ==> AgreeAt(old(disk.files), disk.files, p)
    {
      pages := [];
      if input !in disk.files {
        return ConversionFailed(InputMissing), pages;
      }
      if !hasGhostscript {
        return ConversionFailed(GhostscriptUnavailable), pages;
      }
      var tempDir := CreateTempDirectory(disk, unique, time);
      assert !IsSubdirOf(tempDir, CONVERT_ROOT);
      r, pages := ConvertIn(disk, tempDir, output, raster, rasterError, gs);
      assert tempDir != CONVERT_ROOT;
    }
  
    /** `validateDpi(pdf)`: the converter's own reading of `pdfimages -list`. */
    method ValidateDpi(disk: Disk, pdf: Path, pdfimages: ToolRun) returns (r: DpiValidation)
      ensures !hasPdfimages || pdf !in disk.files ==> r == NotValidated("No se puede validar")
      ensures hasPdfimages && pdf in disk.files && !pdfimages.Succeeded? ==>
        r == NotValidated("Error al ejecutar pdfimages")
      ensures hasPdfimages && pdf in disk.files && pdfimages.Succeeded? ==>
        r.Validated? && r.images == ImagesIn(Split(pdfimages.stdout, '\n')) && r.count == |r.images| &&
        (r.valid <==> AllAt300(r.images))
    {
      if !hasPdfimages || pdf !in disk.files {
        return NotValidated("No se puede validar");
      }
      if !pdfimages.Succeeded? {
        return NotValidated("Error al ejecutar pdfimages");
      }
      var lines := Split(pdfimages.stdout, '\n');
      var images: seq<ConvertedImage> := [];
      var allValid := true;
      var i := 0;
      while i < |lines|
        invariant 0 <= i <= |lines|
        invariant images == ImagesIn(lines[..i])
        invariant allValid <==> AllAt300(images)
      {
        ImagesInStep(lines, i);
        var m := MatchRow(lines[i], ConverterPattern);
        if m.Some? {
          var image := ImageOf(m.value);
          AllAt300Append(images, image);
          images := images + [image];
          if image.avgDpi != 300 {
            allValid := false;
          }
        }
        i := i + 1;
      }
      assert lines[..i] == lines;
      r := Validated(allValid, images, |images|);
    }
  }
}
