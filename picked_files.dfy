/** Files the user picks or drops on the two browser pages (resources/js/merge.js
    and public/js/upload.js), and the filter both pages apply to them before
    anything else: only PDFs get in, the others are named in an alert. */
module PickedFiles {
  import opened Text
  import opened Optional

  /** A browser `File`: its name, its MIME type as the browser reports it, and its size. */
  datatype PickedFile = PickedFile(name: string, mimeType: string, size: nat)

  predicate EndsWith(s: string, suffix: string) {
    |suffix| <= |s| && s[|s| - |suffix|..] == suffix
  }

  /** `file.type === 'application/pdf' || file.name.toLowerCase().endsWith('.pdf')`. */
  predicate IsPdfPick(f: PickedFile) {
    f.mimeType == "application/pdf" || EndsWith(Lower(f.name), ".pdf")
  }

  /** The accepted files, in the order they arrived. */
  function Accepted(files: seq<PickedFile>): (r: seq<PickedFile>)
    ensures |r| <= |files|
    ensures forall k :: 0 <= k < |r| ==> IsPdfPick(r[k]) && r[k] in files
  {
    if files == [] then []
    else
      var last := files[|files| - 1];
      var prefix := Accepted(files[..|files| - 1]);
      assert forall k :: 0 <= k < |prefix| ==> prefix[k] in files[..|files| - 1];
      prefix + if IsPdfPick(last) then [last] else []
  }

  /** The names of the rejected files, in the order they arrived. */
  function RejectedNames(files: seq<PickedFile>): seq<string> {
    if files == [] then []
    else
      var last := files[|files| - 1];
      RejectedNames(files[..|files| - 1]) + if IsPdfPick(last) then [] else [last.name]
  }

  /** Every file is either accepted or named as rejected. */
  lemma {:induction false} PicksPartition(files: seq<PickedFile>)
    ensures |Accepted(files)| + |RejectedNames(files)| == |files|
  {
    if files != [] {
      PicksPartition(files[..|files| - 1]);
    }
  }

  /** No PDF is lost: a file is accepted exactly when it is a PDF. */
  lemma {:induction false} AcceptedKeepsEveryPdf(files: seq<PickedFile>, f: PickedFile)
    requires f in files
    ensures f in Accepted(files) <==> IsPdfPick(f)
  {
    var prefix := files[..|files| - 1];
    if f in prefix {
      AcceptedKeepsEveryPdf(prefix, f);
    } else {
      assert f == files[|files| - 1];
    }
  }

  /** Filtering two batches is filtering each in turn: what arrives later is
      accepted after what arrived earlier. */
  lemma {:induction false} AcceptedAppend(a: seq<PickedFile>, b: seq<PickedFile>)
    ensures Accepted(a + b) == Accepted(a) + Accepted(b)
    decreases |b|
  {
    if b != [] {
      var b' := b[..|b| - 1];
      assert (a + b)[..|a + b| - 1] == a + b';
      AcceptedAppend(a, b');
    } else {
      assert a + b == a;
    }
  }

  /** A batch of PDFs only is taken whole. */
  lemma {:induction false} AllPdfsAccepted(files: seq<PickedFile>)
    requires forall k :: 0 <= k < |files| ==> IsPdfPick(files[k])
    ensures Accepted(files) == files
  {
    if files != [] {
      var prefix := files[..|files| - 1];
      AllPdfsAccepted(prefix);
      assert IsPdfPick(files[|files| - 1]);
      assert Accepted(files) == prefix + [files[|files| - 1]];
      assert prefix + [files[|files| - 1]] == files;
    }
  }

  /** The `alert` shown when some files were refused; no alert otherwise. */
  function RejectionAlert(names: seq<string>): (r: Option<string>)
    ensures r.Some? <==> names != []
  {
    if names == [] then None
    else Some("\U{274C} Solo se permiten archivos PDF.\n\nArchivos rechazados:\n" + Join(names, '\n'))
  }

  /** The `forEach` both pages run over a batch of files: PDFs go to `validFiles`,
      the names of the others to `invalidFiles`. */
  method SplitPicks(files: seq<PickedFile>) returns (valid: seq<PickedFile>, invalidNames: seq<string>)
    ensures valid == Accepted(files)
    ensures invalidNames == RejectedNames(files)
  {
    valid := [];
    invalidNames := [];
    var i := 0;
    while i < |files|
      invariant 0 <= i <= |files|
      invariant valid == Accepted(files[..i])
      invariant invalidNames == RejectedNames(files[..i])
    {
      assert files[..i + 1][..i] == files[..i];
      if IsPdfPick(files[i]) {
        valid := valid + [files[i]];
      } else {
        invalidNames := invalidNames + [files[i].name];
      }
      i := i + 1;
    }
    assert files[..i] == files;
  }
}
