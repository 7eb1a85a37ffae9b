/** The merge page's script (resources/js/merge.js): the list of selected PDFs,
    reordered by arrow buttons and by drag and drop, the merge button that is only
    enabled with at least two files, and the submission of the list.

    Rendering is reduced to its one observable effect on the form, the merge
    button's `disabled` flag. The server is an oracle: `Submit` is given the reply
    the request gets. */
module MergePage {
  import opened Optional
  import opened PickedFiles

  const MAX_FILES: nat := 50
  const DEFAULT_NAME := "documento_combinado"
  const TOO_FEW_ALERT := "\U{274C} Selecciona al menos 2 archivos PDF para combinar"
  const TOO_MANY_ALERT := "\U{274C} Máximo 50 archivos permitidos"
  const FAILURE_ALERT := "\U{274C} Error al combinar los PDFs: "
  const SERVER_ERROR := "Error en el servidor"
  const FALLBACK_DOWNLOAD := "merged.pdf"

  /** `s` with element `i` taken out: `splice(i, 1)`. */
  function RemoveAt<T>(s: seq<T>, i: nat): (r: seq<T>)
    requires i < |s|
    ensures |r| == |s| - 1
    ensures forall k :: 0 <= k < i ==> r[k] == s[k]
    ensures forall k :: i <= k < |r| ==> r[k] == s[k + 1]
    ensures multiset(r) + multiset{s[i]} == multiset(s)
  {
    assert s == s[..i] + [s[i]] + s[i + 1..];
    s[..i] + s[i + 1..]
  }

  /** `s` with positions `i` and `j` exchanged; nothing else moves. */
  function Swap<T>(s: seq<T>, i: nat, j: nat): (r: seq<T>)
    requires i < |s| && j < |s|
    ensures |r| == |s| && r[i] == s[j] && r[j] == s[i]
    ensures forall k :: 0 <= k < |s| && k != i && k != j ==> r[k] == s[k]
    ensures multiset(r) == multiset(s)
  {
    s[i := s[j]][j := s[i]]
  }

  /** Where `splice(at, 0, x)` inserts into a list of length `n`: past the end means at the end. */
  function Clamp(at: nat, n: nat): (r: nat)
    ensures r <= n && (r == at <==> at <= n)
  {
    if at <= n then at else n
  }

  /** The drag-and-drop reorder: the element at `from` is taken out and put back in
      at `to`. */
  function MoveTo<T>(s: seq<T>, from: nat, to: nat): (r: seq<T>)
    requires from < |s|
    ensures |r| == |s|
  {
    var rest := RemoveAt(s, from);
    var at := Clamp(to, |rest|);
    rest[..at] + [s[from]] + rest[at..]
  }

  /** The dragged element lands at the drop position, the others keep their
      relative order, and nothing is lost or duplicated. */
  lemma MoveToPlaces<T>(s: seq<T>, from: nat, to: nat)
    requires from < |s|
    ensures to < |s| ==> MoveTo(s, from, to)[to] == s[from]
    ensures RemoveAt(MoveTo(s, from, to), Clamp(to, |s| - 1)) == RemoveAt(s, from)
    ensures multiset(MoveTo(s, from, to)) == multiset(s)
  {
    var rest := RemoveAt(s, from);
    var at := Clamp(to, |rest|);
    var r := MoveTo(s, from, to);
    assert r == rest[..at] + [s[from]] + rest[at..];
    assert r[at] == s[from];
    assert RemoveAt(r, at) == rest[..at] + rest[at..];
    assert rest[..at] + rest[at..] == rest;
    calc {
      multiset(r);
      multiset(rest[..at]) + multiset{s[from]} + multiset(rest[at..]);
      multiset(rest[..at] + rest[at..]) + multiset{s[from]};
      multiset(s);
    }
  }

  /** What the reply to `POST /merge-pdfs` turns out to be. */
  datatype MergeReply =
    | ReplyOk(fileName: Option<string>)   // `response.ok`, with the `X-File-Name` header if any
    | ReplyError(error: Option<string>)   // not ok, with the JSON body's `error` if any
    | Unreadable(message: string)         // not ok, and the body is not JSON
    | FetchFailed(message: string)        // `fetch` rejects

  /** What the page sends: the files in list order and the output name. */
  datatype MergeRequest = MergeRequest(files: seq<PickedFile>, outputName: string)

  datatype SubmitResult =
    | Refused(alert: string)                          // no request is sent
    | Downloaded(request: MergeRequest, name: string) // the merged file is saved under `name`
    | Failed(request: MergeRequest, alert: string)

  /** `value || 'documento_combinado'`. */
  function RequestName(value: string): (r: string)
    ensures r != []
    ensures value != [] ==> r == value
  {
    if value == [] then DEFAULT_NAME else value
  }

  /** The outcome of a request that was sent. */
  function Outcome(request: MergeRequest, reply: MergeReply): (r: SubmitResult)
    ensures r.Downloaded? <==> reply.ReplyOk?
    ensures !r.Refused? && r.request == request
    ensures r.Downloaded? ==> r.name != []
    ensures r.Failed? ==> |r.alert| >= |FAILURE_ALERT| && r.alert[..|FAILURE_ALERT|] == FAILURE_ALERT
    ensures reply.ReplyError? ==> r.Failed? && |r.alert| > |FAILURE_ALERT|
  {
    match reply
    case ReplyOk(fileName) =>
      Downloaded(request, if fileName.None? || fileName.value == [] then FALLBACK_DOWNLOAD else fileName.value)
    case ReplyError(error) =>
      Failed(request, FAILURE_ALERT + if error.None? || error.value == [] then SERVER_ERROR else error.value)
    case Unreadable(message) => Failed(request, FAILURE_ALERT + message)
    case FetchFailed(message) => Failed(request, FAILURE_ALERT + message)
  }

  /** The page's state: the selected files, the index of the item being dragged, and
      whether the merge button is disabled. */
  class MergeForm {
    var selectedFiles: seq<PickedFile>
    var draggedIndex: Option<nat>
    var mergeDisabled: bool

    /** The page as loaded: nothing selected, nothing dragged, the button disabled. */
    constructor ()
      ensures selectedFiles == [] && draggedIndex == None && mergeDisabled
    {
      selectedFiles := [];
      draggedIndex := None;
      mergeDisabled := true;
    }

    /** The button state `displayFiles` sets: enabled exactly with two files or more. */
    predicate ButtonMatches()
      reads this
    {
      mergeDisabled == (|selectedFiles| < 2)
    }

    /** `displayFiles`: redraws the list and sets the button. */
    method Display()
      modifies this
      ensures ButtonMatches()
      ensures selectedFiles == old(selectedFiles) && draggedIndex == old(draggedIndex)
    {
      if |selectedFiles| == 0 {
        mergeDisabled := true;
        return;
      }
      mergeDisabled := |selectedFiles| < 2;
    }

    /** `handleFiles`: the PDFs of the batch are appended in arrival order; the
        others are named in an alert. */
    method HandleFiles(files: seq<PickedFile>) returns (alert: Option<string>)
      modifies this
      ensures alert == RejectionAlert(RejectedNames(files))
      ensures selectedFiles == old(selectedFiles) + Accepted(files)
      ensures Accepted(files) != [] ==> ButtonMatches()
      ensures Accepted(files) == [] ==> mergeDisabled == old(mergeDisabled)
      ensures draggedIndex == old(draggedIndex)
    {
      var valid, invalidNames := SplitPicks(files);
      alert := RejectionAlert(invalidNames);
      if |valid| > 0 {
        selectedFiles := selectedFiles + valid;
        Display();
      }
    }

    /** `removeFile(index)`: `splice(index, 1)`, which ignores an index past the end. */
    method RemoveFile(index: nat)
      modifies this
      ensures selectedFiles == if index < |old(selectedFiles)| then RemoveAt(old(selectedFiles), index) else old(selectedFiles)
      ensures ButtonMatches() && draggedIndex == old(draggedIndex)
    {
      if index < |selectedFiles| {
        selectedFiles := selectedFiles[..index] + selectedFiles[index + 1..];
      }
      Display();
    }

    /** `moveFileUp(index)`, called from the arrow of an existing row. */
    method MoveFileUp(index: nat)
      requires index < |selectedFiles|
      modifies this
      ensures index > 0 ==> selectedFiles == Swap(old(selectedFiles), index - 1, index) && ButtonMatches()
      ensures index == 0 ==> selectedFiles == old(selectedFiles) && mergeDisabled == old(mergeDisabled)
      ensures draggedIndex == old(draggedIndex)
    {
      if index > 0 {
        var temp := selectedFiles[index];
        selectedFiles := selectedFiles[index := selectedFiles[index - 1]];
        selectedFiles := selectedFiles[index - 1 := temp];
        Display();
      }
    }

    /** `moveFileDown(index)`: nothing happens on the last row or past it. */
    method MoveFileDown(index: nat)
      modifies this
      ensures index + 1 < |old(selectedFiles)| ==>
        selectedFiles == Swap(old(selectedFiles), index, index + 1) && ButtonMatches()
      ensures index + 1 >= |old(selectedFiles)| ==>
        selectedFiles == old(selectedFiles) && mergeDisabled == old(mergeDisabled)
      ensures draggedIndex == old(draggedIndex)
    {
      if index + 1 < |selectedFiles| {
        var temp := selectedFiles[index];
        selectedFiles := selectedFiles[index := selectedFiles[index + 1]];
        selectedFiles := selectedFiles[index + 1 := temp];
        Display();
      }
    }

    /** `handleDragStart` on the row at `index`. */
    method DragStart(index: nat)
      requires index < |selectedFiles|
      modifies this
      ensures draggedIndex == Some(index)
      ensures selectedFiles == old(selectedFiles) && mergeDisabled == old(mergeDisabled)
    {
      draggedIndex := Some(index);
    }

    /** `handleDragEnd`. */
    method DragEnd()
      modifies this
      ensures draggedIndex == None
      ensures selectedFiles == old(selectedFiles) && mergeDisabled == old(mergeDisabled)
    {
      draggedIndex := None;
    }

    /** `handleDrop` on the row at `dropIndex`: the dragged file is moved there; a
        drop on itself, or with nothing dragged, changes nothing. */
    method Drop(dropIndex: nat)
      requires draggedIndex.Some? ==> draggedIndex.value < |selectedFiles|
      modifies this
      ensures draggedIndex == old(draggedIndex)
      ensures draggedIndex.Some? && draggedIndex.value != dropIndex ==>
        selectedFiles == MoveTo(old(selectedFiles), draggedIndex.value, dropIndex) && ButtonMatches()
      ensures draggedIndex.None? || draggedIndex.value == dropIndex ==>
        selectedFiles == old(selectedFiles) && mergeDisabled == old(mergeDisabled)
    {
      if draggedIndex.Some? && draggedIndex.value != dropIndex {
        var from := draggedIndex.value;
        var draggedFile := selectedFiles[from];
        selectedFiles := selectedFiles[..from] + selectedFiles[from + 1..];
        var at := Clamp(dropIndex, |selectedFiles|);
        selectedFiles := selectedFiles[..at] + [draggedFile] + selectedFiles[at..];
        Display();
      }
    }

    /** The submit handler with the button restored from the list in its `finally`
        block, so that the button keeps matching the list. */
    method Submit(nameValue: string, reply: MergeReply) returns (r: SubmitResult)
      modifies this
      ensures |old(selectedFiles)| < 2 ==> r == Refused(TOO_FEW_ALERT)
      ensures |old(selectedFiles)| > MAX_FILES ==> r == Refused(TOO_MANY_ALERT)
      ensures r.Refused? ==> selectedFiles == old(selectedFiles) && mergeDisabled == old(mergeDisabled)
      ensures 2 <= |old(selectedFiles)| <= MAX_FILES ==>
        r == Outcome(MergeRequest(old(selectedFiles), RequestName(nameValue)), reply) &&
        selectedFiles == (if r.Downloaded? then [] else old(selectedFiles)) &&
        ButtonMatches()
      ensures draggedIndex == old(draggedIndex)
    {
      r := Send(nameValue, reply);
      if !r.Refused? {
        Display();
      }
    }

    /** The submit handler as written: its `finally` block enables the button
        whatever the list holds. */
    method SubmitAsWritten(nameValue: string, reply: MergeReply) returns (r: SubmitResult)
      modifies this
      ensures |old(selectedFiles)| < 2 ==> r == Refused(TOO_FEW_ALERT)
      ensures |old(selectedFiles)| > MAX_FILES ==> r == Refused(TOO_MANY_ALERT)
      ensures r.Refused? ==> selectedFiles == old(selectedFiles) && mergeDisabled == old(mergeDisabled)
      ensures 2 <= |old(selectedFiles)| <= MAX_FILES ==>
        r == Outcome(MergeRequest(old(selectedFiles), RequestName(nameValue)), reply) &&
        selectedFiles == (if r.Downloaded? then [] else old(selectedFiles)) &&
        !mergeDisabled
      ensures r.Downloaded? ==> selectedFiles == [] && !mergeDisabled && !ButtonMatches()
      ensures draggedIndex == old(draggedIndex)
    {
      r := Send(nameValue, reply);
      if !r.Refused? {
        mergeDisabled := false;
      }
    }

    /** The guards, the request and the reply, up to the `finally` block. */
    method Send(nameValue: string, reply: MergeReply) returns (r: SubmitResult)
      modifies this
      ensures |old(selectedFiles)| < 2 ==> r == Refused(TOO_FEW_ALERT)
      ensures |old(selectedFiles)| > MAX_FILES ==> r == Refused(TOO_MANY_ALERT)
      ensures r.Refused? <==> !(2 <= |old(selectedFiles)| <= MAX_FILES)
      ensures r.Refused? ==> selectedFiles == old(selectedFiles) && mergeDisabled == old(mergeDisabled)
      ensures !r.Refused? ==>
        r == Outcome(MergeRequest(old(selectedFiles), RequestName(nameValue)), reply) &&
        selectedFiles == (if r.Downloaded? then [] else old(selectedFiles))
      ensures draggedIndex == old(draggedIndex)
    {
      if |selectedFiles| < 2 {
        return Refused(TOO_FEW_ALERT);
      }
      if |selectedFiles| > MAX_FILES {
        return Refused(TOO_MANY_ALERT);
      }
      var request := MergeRequest(selectedFiles, RequestName(nameValue));
      mergeDisabled := true;
      r := Outcome(request, reply);
      if r.Downloaded? {
        selectedFiles := [];
        Display();
      }
    }
  }
}
