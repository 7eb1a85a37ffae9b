/** The conversion page's script (public/js/upload.js): a queue of PDFs, each
    pending, being processed, completed or failed, converted one at a time when the
    form is submitted, with a simulated progress bar driven by an interval timer.

    Rendering is reduced to the convert button's `disabled` flag. The server is an
    oracle: each request's reply is a parameter. */
module UploadPage {
  import opened Text
  import opened Optional
  import opened PickedFiles

  const NOTHING_PENDING := "No hay archivos pendientes para convertir."
  const NOT_OK_MESSAGE := "Error en la respuesta del servidor"
  const UNKNOWN_ERROR := "Error desconocido"
  const NO_URL := "#"

  datatype Status = Pending | Processing | Completed | Error

  /** An entry of `fileQueue`. */
  datatype QueueItem = QueueItem(id: nat, file: PickedFile, status: Status, progress: nat,
                                 error: Option<string>, downloadUrl: Option<string>)

  /** What a conversion request turns out to be. */
  datatype ConvertReply =
    | JsonOk(downloadUrl: Option<string>)  // `response.ok` and a JSON body, with its `downloadUrl` if any
    | UnreadableOk(message: string)        // `response.ok`, but the body is not JSON
    | NotOk                                // an error status
    | FetchFailed(message: string)         // `fetch` rejects

  /** `fileQueue.filter(f => f.status === s).length`. */
  function Count(q: seq<QueueItem>, s: Status): (n: nat)
    ensures n <= |q|
  {
    if q == [] then 0
    else Count(q[..|q| - 1], s) + if q[|q| - 1].status == s then 1 else 0
  }

  /** The four counts of the queue header add up to its total. */
  lemma {:induction false} CountsSum(q: seq<QueueItem>)
    ensures Count(q, Pending) + Count(q, Processing) + Count(q, Completed) + Count(q, Error) == |q|
  {
    if q != [] {
      CountsSum(q[..|q| - 1]);
    }
  }

  lemma {:induction false} CountAppend(a: seq<QueueItem>, b: seq<QueueItem>, s: Status)
    ensures Count(a + b, s) == Count(a, s) + Count(b, s)
    decreases |b|
  {
    if b == [] {
      assert a + b == a;
    } else {
      assert (a + b)[..|a + b| - 1] == a + b[..|b| - 1];
      CountAppend(a, b[..|b| - 1], s);
    }
  }

  /** An item with status `s` is counted. */
  lemma {:induction false} CountPositive(q: seq<QueueItem>, s: Status, i: nat)
    requires i < |q| && q[i].status == s
    ensures Count(q, s) > 0
  {
    if i < |q| - 1 {
      CountPositive(q[..|q| - 1], s, i);
    }
  }

  /** A queue with no item of status `s` counts none. */
  lemma {:induction false} CountNone(q: seq<QueueItem>, s: Status)
    requires forall i :: 0 <= i < |q| ==> q[i].status != s
    ensures Count(q, s) == 0
  {
    if q != [] {
      CountNone(q[..|q| - 1], s);
    }
  }

  /** The number of pending items before position `i`: the place of item `i` in
      the submit handler's snapshot of pending files. */
  function Rank(q: seq<QueueItem>, i: nat): (r: nat)
    requires i <= |q|
    ensures r <= i
    ensures i < |q| && q[i].status == Pending ==> r < Count(q, Pending)
  {
    if i < |q| && q[i].status == Pending then
      assert q == q[..i] + q[i..];
      CountAppend(q[..i], q[i..], Pending);
      CountPositive(q[i..], Pending, 0);
      Count(q[..i], Pending)
    else Count(q[..i], Pending)
  }

  lemma {:induction false} RankGrows(q: seq<QueueItem>, i: nat, j: nat)
    requires i < j <= |q| && q[i].status == Pending
    ensures Rank(q, i) < Rank(q, j)
    decreases j
  {
    assert q[..i + 1][..i] == q[..i];
    if j > i + 1 {
      assert q[..j][..j - 1] == q[..j - 1];
      RankGrows(q, i, j - 1);
    }
  }

  /** The snapshot `fileQueue.filter(f => f.status === 'pending')`, as positions. */
  function PendingIndices(q: seq<QueueItem>): (r: seq<nat>)
    ensures |r| == Count(q, Pending)
    ensures forall k :: 0 <= k < |r| ==> r[k] < |q| && q[r[k]].status == Pending && Rank(q, r[k]) == k
  {
    if q == [] then []
    else
      var prefix := q[..|q| - 1];
      var r := PendingIndices(prefix) + if q[|q| - 1].status == Pending then [|q| - 1] else [];
      assert forall k :: 0 <= k < |r| ==> q[..r[k]] == prefix[..r[k]];
      r
  }

  /** No two items share an id. */
  predicate DistinctIds(q: seq<QueueItem>) {
    forall i, j :: 0 <= i < j < |q| ==> q[i].id != q[j].id
  }

  /** The items `handleFiles` appends, one per accepted file, all pending. */
  function NewItems(files: seq<PickedFile>, ids: seq<nat>): (r: seq<QueueItem>)
    requires |ids| == |files|
    ensures |r| == |files|
    ensures forall k :: 0 <= k < |r| ==>
      r[k].id == ids[k] && r[k].file == files[k] && r[k].status == Pending && r[k].progress == 0 &&
      r[k].error == None && r[k].downloadUrl == None
  {
    seq(|files|, k requires 0 <= k < |files| => QueueItem(ids[k], files[k], Pending, 0, None, None))
  }

  /** `fileQueue.find(f => f.id === id)`, as a position. */
  function IndexOfId(q: seq<QueueItem>, id: nat): (r: Option<nat>)
    ensures r.None? <==> forall k :: 0 <= k < |q| ==> q[k].id != id
    ensures r.Some? ==> r.value < |q| && q[r.value].id == id &&
                        forall k :: 0 <= k < r.value ==> q[k].id != id
  {
    if q == [] then None
    else if q[0].id == id then Some(0)
    else
      match IndexOfId(q[1..], id)
      case None => None
      case Some(i) => Some(i + 1)
  }

  /** `fileQueue.filter(item => item.id !== id)`. */
  function WithoutId(q: seq<QueueItem>, id: nat): (r: seq<QueueItem>)
    ensures |r| <= |q|
    ensures forall x :: x in r <==> x in q && x.id != id
    ensures DistinctIds(q) ==> DistinctIds(r)
  {
    if q == [] then []
    else
      var rest := WithoutId(q[1..], id);
      if q[0].id == id then rest
      else
        assert forall x :: x in q <==> x == q[0] || x in q[1..];
        assert DistinctIds(q) ==> forall k :: 0 <= k < |rest| ==> rest[k].id != q[0].id by {
          if DistinctIds(q) {
            forall k | 0 <= k < |rest| ensures rest[k].id != q[0].id {
              assert rest[k] in q[1..];
              var j :| 0 <= j < |q[1..]| && q[1..][j] == rest[k];
              assert q[j + 1] == rest[k];
            }
          }
        }
        [q[0]] + rest
  }

  /** With distinct ids, removing a present id takes out exactly one item. */
  lemma {:induction false} WithoutIdLength(q: seq<QueueItem>, id: nat)
    requires DistinctIds(q)
    ensures |WithoutId(q, id)| == |q| - (if IndexOfId(q, id).Some? then 1 else 0)
  {
    if q != [] {
      WithoutIdLength(q[1..], id);
      if q[0].id == id {
        assert forall k :: 0 <= k < |q[1..]| ==> q[1..][k].id != id by {
          forall k | 0 <= k < |q[1..]| ensures q[1..][k].id != id {
            assert q[1..][k] == q[k + 1];
          }
        }
      }
    }
  }

  /** The item a request leaves behind: completed with a download link, or failed
      with a message and its bar back at zero. */
  function Processed(item: QueueItem, reply: ConvertReply): (r: QueueItem)
    ensures r.id == item.id && r.file == item.file
    ensures r.status == Completed <==> reply.JsonOk?
    ensures r.status == Completed || r.status == Error
    ensures r.status == Completed ==> r.progress == 100 && r.downloadUrl.Some? && r.downloadUrl.value != [] && r.error == item.error
    ensures r.status == Error ==> r.progress == 0 && r.error.Some? && r.error.value != [] && r.downloadUrl == item.downloadUrl
  {
    match reply
    case JsonOk(url) =>
      item.(status := Completed, progress := 100,
            downloadUrl := Some(if url.None? || url.value == [] then NO_URL else url.value))
    case UnreadableOk(message) => Failed(item, message)
    case NotOk => Failed(item, NOT_OK_MESSAGE)
    case FetchFailed(message) => Failed(item, message)
  }

  /** The `catch` block: `error.message || 'Error desconocido'`. */
  function Failed(item: QueueItem, message: string): QueueItem {
    item.(status := Error, progress := 0, error := Some(if message == [] then UNKNOWN_ERROR else message))
  }

  /** One firing of the progress interval on its item. */
  function Fire(item: QueueItem): (r: QueueItem)
    ensures r == item.(progress := r.progress)
    ensures item.progress <= r.progress <= item.progress + 10
    ensures r.progress != item.progress <==> item.progress < 90
  {
    if item.progress < 90 then item.(progress := item.progress + 10) else item
  }

  function FireTimes(item: QueueItem, k: nat): QueueItem {
    if k == 0 then item else Fire(FireTimes(item, k - 1))
  }

  /** The simulated bar climbs by ten per firing from zero and stops at 90, and
      firing never touches anything but the bar. */
  lemma {:induction false} FireTimesFromZero(item: QueueItem, k: nat)
    requires item.progress == 0
    ensures FireTimes(item, k) == item.(progress := if 10 * k < 90 then 10 * k else 90)
  {
    if k > 0 {
      FireTimesFromZero(item, k - 1);
    }
  }

  /** An interval left running on a failed item keeps moving its bar although the
      item is settled: nine firings take it from 0 to 90 while it stays failed. */
  lemma LeakedIntervalMovesFailedItem(item: QueueItem, message: string)
    ensures Processed(item, FetchFailed(message)).status == Error
    ensures FireTimes(Processed(item, FetchFailed(message)), 9).status == Error
    ensures FireTimes(Processed(item, FetchFailed(message)), 9).progress == 90
  {
    FireTimesFromZero(Processed(item, FetchFailed(message)), 9);
  }

  /** The alert shown when the whole batch is done. */
  function CompletionAlert(completed: nat, errors: nat): (r: string)
    ensures Contains(r, NatToString(completed))
    ensures errors > 0 ==> Contains(r, NatToString(errors))
  {
    if errors == 0 then
      Around("\U{2705} ¡Conversión completada!\n\n", NatToString(completed),
             (if completed > 1 then " archivos convertidos" else " archivo convertido") + " exitosamente.")
    else
      var failed := Around("\n\U{274C} Fallidos: ", NatToString(errors), "\n\nPuedes reintentar los archivos con error.");
      var r := Around("\U{26A0}\U{FE0F} Conversión finalizada\n\n\U{2705} Exitosos: ", NatToString(completed), failed);
      ContainsGrows(failed, NatToString(errors), "\U{26A0}\U{FE0F} Conversión finalizada\n\n\U{2705} Exitosos: " + NatToString(completed));
      r
  }

  /** Item `i` after the first `done` requests of a submission that started from `q`. */
  function AfterRequests(q: seq<QueueItem>, reply: nat -> ConvertReply, i: nat, done: nat): (r: QueueItem)
    requires i < |q|
    ensures r.id == q[i].id && r.file == q[i].file
    ensures r.status == Pending <==> q[i].status == Pending && Rank(q, i) >= done
  {
    if q[i].status == Pending && Rank(q, i) < done then Processed(q[i], reply(Rank(q, i))) else q[i]
  }

  /** The page's state: the queue, whether a submission is running, whether the
      convert button is enabled, and the items whose progress interval is running
      (an item may have several). */
  class UploadQueue {
    var queue: seq<QueueItem>
    var isProcessing: bool
    var convertEnabled: bool
    var timers: multiset<nat>

    /** The page as loaded. */
    constructor ()
      ensures queue == [] && !isProcessing && !convertEnabled && timers == multiset{}
      ensures Valid()
    {
      queue := [];
      isProcessing := false;
      convertEnabled := false;
      timers := multiset{};
    }

    /** Ids identify items: `Date.now() + Math.random()` is taken to never repeat. */
    predicate Valid()
      reads this
    {
      DistinctIds(queue)
    }

    /** The button state `updateConvertButton` sets. */
    predicate ButtonMatches()
      reads this
    {
      convertEnabled == (Count(queue, Pending) > 0 && !isProcessing)
    }

    /** `updateConvertButton`: enabled exactly when something is pending and no
        submission is running. */
    method UpdateConvertButton()
      modifies this
      ensures ButtonMatches()
      ensures queue == old(queue) && isProcessing == old(isProcessing) && timers == old(timers)
    {
      var pendingFiles := Count(queue, Pending);
      convertEnabled := pendingFiles > 0 && !isProcessing;
    }

    /** `handleFiles`: each accepted PDF becomes a pending item with a new id; the
        rejected files are named in an alert. */
    method HandleFiles(files: seq<PickedFile>, ids: seq<nat>) returns (alert: Option<string>)
      requires Valid()
      requires |ids| == |Accepted(files)|
      requires forall k, l :: 0 <= k < l < |ids| ==> ids[k] != ids[l]
      requires forall k, i :: 0 <= k < |ids| && 0 <= i < |queue| ==> ids[k] != queue[i].id
      modifies this
      ensures Valid()
      ensures alert == RejectionAlert(RejectedNames(files))
      ensures queue == old(queue) + NewItems(Accepted(files), ids)
      ensures Accepted(files) != [] ==> ButtonMatches() && (convertEnabled <==> !isProcessing)
      ensures Accepted(files) == [] ==> convertEnabled == old(convertEnabled)
      ensures isProcessing == old(isProcessing) && timers == old(timers)
    {
      var valid, invalidNames := SplitPicks(files);
      alert := RejectionAlert(invalidNames);
      if |valid| > 0 {
        var added := NewItems(valid, ids);
        queue := queue + added;
        CountPositive(queue, Pending, |queue| - 1);
        UpdateConvertButton();
      }
    }

    /** `removeFile(id)`: every item with that id leaves the queue. */
    method RemoveFile(id: nat)
      requires Valid()
      modifies this
      ensures Valid() && ButtonMatches()
      ensures queue == WithoutId(old(queue), id)
      ensures isProcessing == old(isProcessing) && timers == old(timers)
    {
      queue := WithoutId(queue, id);
      UpdateConvertButton();
    }

    /** `retryFile(id)`: the item goes back to pending with its bar and error
        cleared; an unknown id changes nothing. */
    method RetryFile(id: nat)
      requires Valid()
      modifies this
      ensures Valid()
      ensures IndexOfId(old(queue), id).None? ==> queue == old(queue) && convertEnabled == old(convertEnabled)
      ensures IndexOfId(old(queue), id).Some? ==>
        var i := IndexOfId(old(queue), id).value;
        queue == old(queue)[i := old(queue)[i].(status := Pending, progress := 0, error := None)] &&
        ButtonMatches() && (convertEnabled <==> !isProcessing)
      ensures isProcessing == old(isProcessing) && timers == old(timers)
    {
      var found := IndexOfId(queue, id);
      if found.Some? {
        var i := found.value;
        queue := queue[i := queue[i].(status := Pending, progress := 0, error := None)];
        CountPositive(queue, Pending, i);
        UpdateConvertButton();
      }
    }

    /** One firing of the interval started for item `id`. */
    method TimerFires(id: nat)
      requires id in timers
      modifies this
      ensures IndexOfId(old(queue), id).None? ==> queue == old(queue)
      ensures IndexOfId(old(queue), id).Some? ==>
        var i := IndexOfId(old(queue), id).value;
        queue == old(queue)[i := Fire(old(queue)[i])]
      ensures isProcessing == old(isProcessing) && convertEnabled == old(convertEnabled) && timers == old(timers)
    {
      var found := IndexOfId(queue, id);
      if found.Some? && queue[found.value].progress < 90 {
        var i := found.value;
        queue := queue[i := queue[i].(progress := queue[i].progress + 10)];
      }
    }

    /** `processFile(item)` with the interval cleared however the request ends: the
        item is settled and no interval is left running. */
    method ProcessFile(i: nat, reply: ConvertReply)
      requires Valid() && i < |queue|
      modifies this
      ensures Valid()
      ensures queue == old(queue)[i := Processed(old(queue)[i], reply)]
      ensures timers == old(timers)
      ensures isProcessing == old(isProcessing) && convertEnabled == old(convertEnabled)
    {
      var id := queue[i].id;
      queue := queue[i := queue[i].(status := Processing, progress := 0)];
      timers := timers + multiset{id};
      timers := timers - multiset{id};
      queue := queue[i := Processed(queue[i], reply)];
    }

    /** `processFile(item)` as written: `clearInterval` comes after the `await
        fetch`, so a request that fails to be sent leaves the interval running on
        the failed item. `FetchFailed` stands for any throw between `setInterval`
        and `clearInterval`, including reading the `_token` input's value when the
        page has no such input, which happens before `fetch` is called. */
    method ProcessFileAsWritten(i: nat, reply: ConvertReply)
      requires Valid() && i < |queue|
      modifies this
      ensures Valid()
      ensures queue == old(queue)[i := Processed(old(queue)[i], reply)]
      ensures timers == old(timers) + if reply.FetchFailed? then multiset{old(queue)[i].id} else multiset{}
      ensures reply.FetchFailed? ==> queue[i].status == Error && queue[i].id in timers
      ensures isProcessing == old(isProcessing) && convertEnabled == old(convertEnabled)
    {
      var id := queue[i].id;
      queue := queue[i := queue[i].(status := Processing, progress := 0)];
      timers := timers + multiset{id};
      if !reply.FetchFailed? {
        timers := timers - multiset{id};
      }
      queue := queue[i := Processed(queue[i], reply)];
    }

    /** The `for … of pendingFiles` loop: one request per item of the snapshot, in
        queue order, `reply(k)` answering the k-th. */
    method ProcessPending(pendingFiles: seq<nat>, reply: nat -> ConvertReply)
      requires Valid() && pendingFiles == PendingIndices(queue)
      modifies this
      ensures Valid() && |queue| == |old(queue)|
      ensures forall i :: 0 <= i < |queue| ==> queue[i] == AfterRequests(old(queue), reply, i, |pendingFiles|)
      ensures timers == old(timers) && isProcessing == old(isProcessing) && convertEnabled == old(convertEnabled)
    {
      ghost var q0 := queue;
      for k := 0 to |pendingFiles|
        invariant Valid() && |queue| == |q0| && timers == old(timers)
        invariant isProcessing == old(isProcessing) && convertEnabled == old(convertEnabled)
        invariant forall i :: 0 <= i < |queue| ==> queue[i] == AfterRequests(q0, reply, i, k)
      {
        var p := pendingFiles[k];
        ProcessFile(p, reply(k));
        forall i | 0 <= i < |queue| && i != p
          ensures AfterRequests(q0, reply, i, k + 1) == AfterRequests(q0, reply, i, k)
        {
          if q0[i].status == Pending && Rank(q0, i) == k {
            if i < p { RankGrows(q0, i, p); } else { RankGrows(q0, p, i); }
          }
        }
      }
    }

    /** The submit handler: the pending items, as they stand when the form is
        submitted, are converted one after the other (`reply(k)` answers the k-th
        request), then the button is reset and the totals of the whole queue are
        announced. */
    method Submit(reply: nat -> ConvertReply) returns (alert: string)
      requires Valid()
      modifies this
      ensures Valid()
      ensures Count(old(queue), Pending) == 0 ==>
        alert == NOTHING_PENDING && queue == old(queue) && isProcessing == old(isProcessing) &&
        convertEnabled == old(convertEnabled)
      ensures Count(old(queue), Pending) > 0 ==>
        Settled(old(queue), queue, reply) &&
        Count(queue, Pending) == 0 &&
        !isProcessing && !convertEnabled &&
        (Count(queue, Error) == 0 ==> Count(queue, Completed) > 0) &&
        alert == CompletionAlert(Count(queue, Completed), Count(queue, Error))
      ensures timers == old(timers)
    {
      var pendingFiles := PendingIndices(queue);
      if |pendingFiles| == 0 {
        return NOTHING_PENDING;
      }
      isProcessing := true;
      UpdateConvertButton();
      ProcessPending(pendingFiles, reply);
      SubmissionSettles(old(queue), queue, reply);
      isProcessing := false;
      UpdateConvertButton();
      var completed := Count(queue, Completed);
      var errors := Count(queue, Error);
      alert := CompletionAlert(completed, errors);
    }
  }

  /** `q` is `q0` after a submission: each item that was pending is settled by the
      reply to its own request, and every other item is as it was. */
  predicate Settled(q0: seq<QueueItem>, q: seq<QueueItem>, reply: nat -> ConvertReply) {
    |q| == |q0| &&
    forall i :: 0 <= i < |q| ==>
      q[i] == if q0[i].status == Pending then Processed(q0[i], reply(Rank(q0, i))) else q0[i]
  }

  /** Once every request of the snapshot is answered, every item that was pending
      is settled by its own reply, nothing else has changed, nothing is left
      pending, and a batch without failures has completed at least one file. */
  lemma SubmissionSettles(q0: seq<QueueItem>, q: seq<QueueItem>, reply: nat -> ConvertReply)
    requires Count(q0, Pending) > 0 && |q| == |q0|
    requires forall i :: 0 <= i < |q| ==> q[i] == AfterRequests(q0, reply, i, Count(q0, Pending))
    ensures Settled(q0, q, reply)
    ensures Count(q, Pending) == 0
    ensures Count(q, Error) == 0 ==> Count(q, Completed) > 0
  {
    forall i | 0 <= i < |q0| && q0[i].status == Pending
      ensures Rank(q0, i) < Count(q0, Pending)
    {
      RankGrows(q0, i, |q0|);
      assert q0[..|q0|] == q0;
    }
    CountNone(q, Pending);
    var first := PendingIndices(q0)[0];
    if q[first].status == Error {
      CountPositive(q, Error, first);
    } else {
      CountPositive(q, Completed, first);
    }
  }
}
