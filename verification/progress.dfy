/**
 * The `progress_hook` of run.py (lines 50-62). A process-wide handle
 * starts empty at module load; the first `downloading` event creates the
 * progress bar, every `downloading` event moves its counter to the bytes
 * downloaded so far, and `finished` closes it without clearing the handle.
 */
module Progress {
  import opened Wrappers

  /** The progress bar: its counter `n`, its `total`, and whether it was closed. */
  datatype Bar = Bar(n: int, total: int, closed: bool)

  /**
   * A status dictionary handed to the hook, by its `status` field.
   * `totalBytes == None` means the `total_bytes` key is absent.
   */
  datatype Event =
    | Downloading(downloadedBytes: int, totalBytes: Option<int>)
    | Finished
    | OtherStatus          // e.g. 'error': neither branch runs

  /** `progress_hook.pbar`: None until the first bar is made. */
  type Handle = Option<Bar>

  /** The handle as set once at module load (line 62). */
  const Initial: Handle := None

  /** One call of the hook. */
  function Hook(h: Handle, e: Event): (h': Handle)
    ensures e.Downloading? ==> h'.Some? && h'.value.n == e.downloadedBytes
    ensures e.Downloading? && h.None? ==> h'.value.total == e.totalBytes.GetOr(0) && !h'.value.closed
    ensures e.Downloading? && h.Some? ==> h'.value.total == h.value.total && h'.value.closed == h.value.closed
    ensures e.Finished? ==> h'.Some? == h.Some?
    ensures e.Finished? && h.Some? ==> h'.value == h.value.(closed := true)
    ensures e.OtherStatus? ==> h' == h
    ensures h.Some? ==> h'.Some?
  {
    match e
    case Downloading(downloaded, total) =>
      var bar := if h.None? then Bar(0, total.GetOr(0), false) else h.value;
      // pbar.update(downloaded_bytes - pbar.n)
      Some(bar.(n := bar.n + (downloaded - bar.n)))
    case Finished =>
      if h.Some? then Some(h.value.(closed := true)) else h
    case OtherStatus => h
  }

  /** The handle after a sequence of hook calls, starting from `h`. */
  function Run(h: Handle, es: seq<Event>): Handle
    decreases |es|
  {
    if es == [] then h else Hook(Run(h, es[..|es| - 1]), es[|es| - 1])
  }

  /** Position of the first `downloading` event, if any. */
  function FirstDownloading(es: seq<Event>): (r: Option<nat>)
    ensures r.Some? ==> r.value < |es| && es[r.value].Downloading?
    ensures r.Some? ==> forall j :: 0 <= j < r.value ==> !es[j].Downloading?
    ensures r.None? ==> forall j :: 0 <= j < |es| ==> !es[j].Downloading?
    decreases |es|
  {
    if es == [] then None
    else
      var f := FirstDownloading(es[..|es| - 1]);
      if f.Some? then f
      else if es[|es| - 1].Downloading? then Some(|es| - 1)
      else None
  }

  /** Position of the last `downloading` event, if any. */
  function LastDownloading(es: seq<Event>): (r: Option<nat>)
    ensures r.Some? ==> r.value < |es| && es[r.value].Downloading?
    ensures r.Some? ==> forall j :: r.value < j < |es| ==> !es[j].Downloading?
    ensures r.None? ==> forall j :: 0 <= j < |es| ==> !es[j].Downloading?
    decreases |es|
  {
    if es == [] then None
    else if es[|es| - 1].Downloading? then Some(|es| - 1)
    else LastDownloading(es[..|es| - 1])
  }

  /** Whether a `finished` event occurs after position `i`. */
  predicate FinishedAfter(es: seq<Event>, i: nat) {
    exists j :: i < j < |es| && es[j].Finished?
  }

  /** Once a bar exists the handle is never emptied again. */
  lemma {:induction false} NeverReset(h: Handle, es: seq<Event>)
    requires h.Some?
    ensures Run(h, es).Some?
    decreases |es|
  {
    if es != [] {
      NeverReset(h, es[..|es| - 1]);
    }
  }

  /** After any `downloading` event the counter equals the last such event's byte count. */
  lemma {:induction false} CounterTracksLastEvent(h: Handle, es: seq<Event>)
    requires LastDownloading(es).Some?
    ensures Run(h, es).Some?
    ensures Run(h, es).value.n == es[LastDownloading(es).value].downloadedBytes
    decreases |es|
  {
    if !es[|es| - 1].Downloading? {
      var init := es[..|es| - 1];
      assert LastDownloading(es) == LastDownloading(init);
      CounterTracksLastEvent(h, init);
      assert init[LastDownloading(init).value] == es[LastDownloading(es).value];
    }
  }

  /**
   * From the module-load state: a bar exists exactly when some `downloading`
   * event occurred; its total is that of the first such event (0 when
   * unknown); it is closed exactly when a `finished` event came after it.
   */
  lemma {:induction false} RunFromInitial(es: seq<Event>)
    ensures Run(Initial, es).Some? <==> FirstDownloading(es).Some?
    ensures FirstDownloading(es).Some? ==>
      Run(Initial, es).value.total == es[FirstDownloading(es).value].totalBytes.GetOr(0)
    ensures FirstDownloading(es).Some? ==>
      (Run(Initial, es).value.closed <==> FinishedAfter(es, FirstDownloading(es).value))
    decreases |es|
  {
    if es != [] {
      var init := es[..|es| - 1];
      var e := es[|es| - 1];
      RunFromInitial(init);
      var f := FirstDownloading(init);
      if f.Some? {
        assert init[f.value] == es[f.value];
        assert FinishedAfter(es, f.value) <==> FinishedAfter(init, f.value) || e.Finished? by {
          if FinishedAfter(init, f.value) {
            var j :| f.value < j < |init| && init[j].Finished?;
            assert es[j] == init[j];
          }
          if FinishedAfter(es, f.value) && !e.Finished? {
            var j :| f.value < j < |es| && es[j].Finished?;
            assert init[j] == es[j];
          }
        }
      } else if e.Downloading? {
        assert !FinishedAfter(es, |es| - 1);
      }
    }
  }

  /**
   * The handle outlives a download: a later download reuses the earlier
   * bar, so its total stays the one from the first download.
   */
  lemma HandleOutlivesDownload(first: seq<Event>, second: seq<Event>)
    requires FirstDownloading(first).Some?
    ensures Run(Initial, first).Some? && Run(Initial, first + second).Some?
    ensures Run(Initial, first + second).value.total == Run(Initial, first).value.total
  {
    var all := first + second;
    RunFromInitial(first);
    RunFromInitial(all);
    FirstIsStable(first, second);
  }

  /** Appending events does not move the first `downloading` event. */
  lemma {:induction false} FirstIsStable(first: seq<Event>, second: seq<Event>)
    requires FirstDownloading(first).Some?
    ensures FirstDownloading(first + second) == FirstDownloading(first)
    decreases |second|
  {
    if second != [] {
      var all := first + second;
      assert all[..|all| - 1] == first + second[..|second| - 1];
      FirstIsStable(first, second[..|second| - 1]);
    } else {
      assert first + second == first;
    }
  }
}
