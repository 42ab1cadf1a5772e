/**
 * The bohuno daemon's update downloads: a periodic scan of the update
 * server's listing appends new update URLs to a FIFO queue, and the front
 * of the queue is downloaded, imported and popped one at a time. HTTP
 * requests are effects the model names (the URL fetched, whether the scan
 * is rescheduled); their completions are the inputs.
 */
module Downloads {
  import opened Wrappers
  import opened Bytes
  import opened Hashes
  import Records
  import Store
  import Publisher

  const SCAN_INTERVAL: nat := 5 * 60
  const FIRST_SCAN_DELAY: nat := 5
  const HTTPS: string := "https://"
  const UPDATES_PATH: string := "/pyzor/updates/"

  // ------------------------------------------------------------ listing

  /**
   * The URL the listing pattern captures: https://, a host without '/',
   * /pyzor/updates/, then two ten-digit timestamps.
   */
  predicate IsUpdateUrl(u: string) {
    var n := |u|;
    n > |HTTPS| + |UPDATES_PATH| + 20
    && u[..|HTTPS|] == HTTPS
    && (forall i :: |HTTPS| <= i < n - 20 - |UPDATES_PATH| ==> u[i] != '/')
    && u[n - 20 - |UPDATES_PATH|..n - 20] == UPDATES_PATH
    && AllDigits(u[n - 20..])
  }

  /** The first timestamp of an update URL, as lexical_cast<uint32_t> reads it. */
  function MinOf(u: string): Result<u32, Publisher.CastError>
    requires IsUpdateUrl(u)
  {
    var d := u[|u| - 20..|u| - 10];
    assert forall i :: 0 <= i < |d| ==> d[i] == u[|u| - 20..][i];
    Publisher.CastU32(d)
  }

  /** An update worth downloading: it starts at or after the newest record held. */
  predicate Wanted(u: string, highest: u32)
    requires IsUpdateUrl(u)
  {
    MinOf(u).Success? && MinOf(u).value >= highest
  }

  predicate Distinct(q: seq<string>) {
    forall i, j :: 0 <= i < j < |q| ==> q[i] != q[j]
  }

  predicate UpdateUrls(urls: seq<string>) {
    forall i :: 0 <= i < |urls| ==> IsUpdateUrl(urls[i])
  }

  /**
   * The highest_timestamp of a scan: the update time of the last index
   * entry, or 0 with nothing stored.
   */
  function Highest(lp64: bool, s: Store.Store, idx: seq<Signature>): (h: u32)
    requires Store.IsIndexOf(lp64, s, idx)
    ensures forall k :: k in s ==> s[k].updated <= h
    ensures h == 0 || exists k :: k in s && s[k].updated == h
  {
    match Store.LookupLast(lp64, s, idx)
    case None => 0
    case Some(r) => r.updated
  }

  /** The scan's loop over the matches, in listing order; a cast that throws ends it. */
  datatype Scanned = Scanned(queue: seq<string>, threw: bool)

  function Enqueue(q: seq<string>, urls: seq<string>, highest: u32): (r: Scanned)
    requires UpdateUrls(urls)
    ensures |q| <= |r.queue| && r.queue[..|q|] == q
    ensures r.threw <==> exists i :: 0 <= i < |urls| && MinOf(urls[i]).Failure?
    decreases |urls|
  {
    if |urls| == 0 then Scanned(q, false)
    else
      var u := urls[0];
      match MinOf(u)
      case Failure(_) => Scanned(q, true)
      case Success(min) =>
        var q1 := if min >= highest && u !in q then q + [u] else q;
        assert forall i :: 1 <= i < |urls| ==> urls[1..][i - 1] == urls[i];
        Enqueue(q1, urls[1..], highest)
  }

  /** Appending skips what is queued already, so the queue never holds a URL twice. */
  lemma {:induction false} EnqueueDistinct(q: seq<string>, urls: seq<string>, highest: u32)
    requires UpdateUrls(urls) && Distinct(q)
    ensures Distinct(Enqueue(q, urls, highest).queue)
    decreases |urls|
  {
    if |urls| > 0 && MinOf(urls[0]).Success? {
      var u := urls[0];
      var q1 := if MinOf(u).value >= highest && u !in q then q + [u] else q;
      assert Distinct(q1);
      EnqueueDistinct(q1, urls[1..], highest);
    }
  }

  /**
   * A completed scan leaves exactly the URLs that were queued plus the
   * wanted ones from the listing.
   */
  lemma {:induction false} EnqueueSelects(q: seq<string>, urls: seq<string>, highest: u32, u: string)
    requires UpdateUrls(urls) && !Enqueue(q, urls, highest).threw
    ensures u in Enqueue(q, urls, highest).queue <==>
      u in q || exists i :: 0 <= i < |urls| && urls[i] == u && Wanted(urls[i], highest)
    decreases |urls|
  {
    if |urls| > 0 {
      var v := urls[0];
      var q1 := if MinOf(v).value >= highest && v !in q then q + [v] else q;
      EnqueueSelects(q1, urls[1..], highest, u);
      var r := Enqueue(q, urls, highest);
      if u in r.queue && u !in q && u !in q1 {
        var i :| 0 <= i < |urls[1..]| && urls[1..][i] == u && Wanted(urls[1..][i], highest);
        assert urls[i + 1] == u;
      }
      if u in r.queue && u !in q && u in q1 {
        assert u == v && Wanted(urls[0], highest);
      }
      if exists i :: 0 <= i < |urls| && urls[i] == u && Wanted(urls[i], highest) {
        var i :| 0 <= i < |urls| && urls[i] == u && Wanted(urls[i], highest);
        if i > 0 {
          assert urls[1..][i - 1] == u;
        }
      }
    }
  }

  // ------------------------------------------------------------ downloader

  /**
   * The queue of update URLs, whether a download of its front is in
   * progress, and the daemon's shutdown flag.
   */
  datatype Downloader = Downloader(queue: seq<string>, downloading: bool, shutdown: bool)

  /** A download is only ever of the front, so a download in progress means a non-empty queue. */
  predicate Consistent(d: Downloader) {
    Distinct(d.queue) && (d.downloading ==> |d.queue| > 0)
  }

  /** No update waits while the daemon is up: a download is in progress exactly when the queue is non-empty. */
  predicate Live(d: Downloader) {
    Consistent(d) && (!d.shutdown ==> (d.downloading <==> |d.queue| > 0))
  }

  function Initial(): (d: Downloader)
    ensures Live(d)
  {
    Downloader([], false, false)
  }

  /**
   * What a handler leads to: the new state, the URL fetched (if a download
   * starts), whether the scan is rescheduled, the data handed to
   * database::import, and whether the handler ended in an exception.
   */
  datatype Step = Step(d: Downloader, fetch: Option<string>, rescheduleScan: bool, imported: Option<seq<byte>>, threw: bool)

  /** handle_stop, posted by stop(): the shutdown flag. */
  function Stop(d: Downloader): (d': Downloader)
    ensures d'.shutdown && d'.queue == d.queue && d'.downloading == d.downloading
  {
    d.(shutdown := true)
  }

  /** start_update_download: fetch the front, unless shutting down or nothing is queued. */
  function Start(d: Downloader): (st: Step)
    requires Consistent(d) && !d.downloading
    ensures Consistent(st.d) && st.d.queue == d.queue && st.d.shutdown == d.shutdown
    ensures st.fetch.Some? <==> !d.shutdown && |d.queue| > 0
    ensures st.fetch.Some? ==> st.fetch.value == d.queue[0]
    ensures st.d.downloading <==> st.fetch.Some?
    ensures !st.rescheduleScan && st.imported.None? && !st.threw
  {
    if !d.shutdown && |d.queue| > 0 then Step(d.(downloading := true), Some(d.queue[0]), false, None, false)
    else Step(d, None, false, None, false)
  }

  /** handle_update_download_failure: the front stays and is fetched again at once. */
  function DownloadFailed(d: Downloader): (st: Step)
    requires Consistent(d) && d.downloading
    ensures st.d.queue == d.queue
    ensures st.fetch.Some? <==> !d.shutdown
    ensures st.fetch.Some? ==> st.fetch.value == d.queue[0]
  {
    Start(d.(downloading := false))
  }

  /** The queue after a finished download of its front. */
  function Popped(d: Downloader): (d': Downloader)
    requires Consistent(d) && d.downloading
    ensures Consistent(d') && !d'.downloading && d'.shutdown == d.shutdown
    ensures [d.queue[0]] + d'.queue == d.queue
  {
    assert forall i :: 1 <= i < |d.queue| ==> d.queue[1..][i - 1] == d.queue[i];
    Downloader(d.queue[1..], false, d.shutdown)
  }

  /**
   * handle_update_download_success as written: 401 stops without popping;
   * 200 pops, imports and starts the next; any other status pops and
   * starts nothing.
   */
  function DownloadDoneAsWritten(d: Downloader, status: nat, data: seq<byte>): (st: Step)
    requires Consistent(d) && d.downloading
    ensures Consistent(st.d)
  {
    if status == 401 then Step(Stop(d).(downloading := false), None, false, None, false)
    else if status == 200 then Start(Popped(d)).(imported := Some(data))
    else Step(Popped(d), None, false, None, false)
  }

  /** The same handler going on to the next update after one the server cannot deliver. */
  function DownloadDone(d: Downloader, status: nat, data: seq<byte>): (st: Step)
    requires Consistent(d) && d.downloading
    ensures Consistent(st.d)
    ensures status == 401 ==> st.d.shutdown && st.d.queue == d.queue && st.fetch.None?
    ensures status != 401 ==> [d.queue[0]] + st.d.queue == d.queue
    ensures st.imported.Some? <==> status == 200
    ensures st.imported.Some? ==> st.imported.value == data
    ensures st.fetch.Some? ==> |st.d.queue| > 0 && st.fetch.value == st.d.queue[0]
  {
    if status == 401 then Step(Stop(d).(downloading := false), None, false, None, false)
    else if status == 200 then Start(Popped(d)).(imported := Some(data))
    else Start(Popped(d))
  }

  /**
   * handle_updates_scan_success: 401 stops; a 2xx listing appends the
   * wanted URLs, starts a download if the queue was empty before, and
   * reschedules; any other status does neither.
   */
  function ScanDone(d: Downloader, status: nat, urls: seq<string>, highest: u32): (st: Step)
    requires Consistent(d) && UpdateUrls(urls)
    ensures Consistent(st.d)
    ensures st.rescheduleScan <==> 200 <= status <= 299 && !st.threw
    ensures |d.queue| <= |st.d.queue| && st.d.queue[..|d.queue|] == d.queue
    ensures st.fetch.Some? ==> |d.queue| == 0 && |st.d.queue| > 0 && st.fetch.value == st.d.queue[0]
    ensures st.d.shutdown <==> d.shutdown || status == 401
  {
    if status == 401 then Step(Stop(d), None, false, None, false)
    else if 200 <= status <= 299 then
      var wasEmpty := |d.queue| == 0;
      var r := Enqueue(d.queue, urls, highest);
      EnqueueDistinct(d.queue, urls, highest);
      var d1 := d.(queue := r.queue);
      if r.threw then Step(d1, None, false, None, true)
      else if wasEmpty then Start(d1).(rescheduleScan := true)
      else Step(d1, None, true, None, false)
    else Step(d, None, false, None, false)
  }

  /**
   * handle_updates_scan_failure: the listing could not be fetched; the scan
   * is rescheduled in SCAN_INTERVAL seconds and nothing else changes.
   */
  function ScanFailed(d: Downloader): (st: Step)
    requires Consistent(d)
    ensures st.d == d && st.rescheduleScan
    ensures st.fetch.None? && st.imported.None? && !st.threw
  {
    Step(d, None, true, None, false)
  }

  // ------------------------------------------------------------ properties

  /** A failed download keeps liveness: the same front is fetched again. */
  lemma DownloadFailedKeepsLive(d: Downloader)
    requires Live(d) && d.downloading
    ensures Live(DownloadFailed(d).d)
  {
  }

  lemma DownloadDoneKeepsLive(d: Downloader, status: nat, data: seq<byte>)
    requires Live(d) && d.downloading
    ensures Live(DownloadDone(d, status, data).d)
  {
  }

  /** A scan that does not throw keeps liveness, because a download is started exactly when none was running. */
  lemma ScanDoneKeepsLive(d: Downloader, status: nat, urls: seq<string>, highest: u32)
    requires Live(d) && UpdateUrls(urls)
    requires !ScanDone(d, status, urls, highest).threw
    ensures Live(ScanDone(d, status, urls, highest).d)
  {
  }

  /**
   * As written, an update the server answers with, say, 404 leaves the rest
   * of the queue waiting for good: nothing is downloading, and a later scan
   * starts nothing because the queue is not empty.
   */
  lemma DownloadDoneAsWrittenStalls(u1: string, u2: string, urls: seq<string>, highest: u32)
    requires u1 != u2 && UpdateUrls(urls)
    ensures var st := DownloadDoneAsWritten(Downloader([u1, u2], true, false), 404, []);
      st.d == Downloader([u2], false, false) && !Live(st.d)
      && ScanDone(st.d, 207, urls, highest).fetch.None?
  {
  }

  /** Handler completions in the order the event loop runs them. */
  datatype Event =
    | ScanCompleted(status: nat, urls: seq<string>, highest: u32)
    | ScanError
    | DownloadCompleted(status: nat, data: seq<byte>)
    | DownloadError
    | ShutdownRequested

  /** A download completion arrives only for a download in progress, and listings carry update URLs. */
  predicate Possible(d: Downloader, e: Event) {
    match e
    case ScanCompleted(_, urls, _) => UpdateUrls(urls)
    case ScanError => true
    case DownloadCompleted(_, _) => d.downloading
    case DownloadError => d.downloading
    case ShutdownRequested => true
  }

  /**
   * The handler an event runs, with the corrected DownloadDone in place of
   * handle_update_download_success as written.
   */
  function Apply(d: Downloader, e: Event): (st: Step)
    requires Consistent(d) && Possible(d, e)
    ensures Consistent(st.d)
    ensures st.imported.Some? <==> e.DownloadCompleted? && e.status == 200
    ensures st.imported.Some? ==> st.imported.value == e.data
    ensures st.threw ==> e.ScanCompleted?
    ensures st.rescheduleScan ==> e.ScanCompleted? || e.ScanError?
    ensures !e.ScanCompleted? ==>
      (st.d.shutdown <==> d.shutdown || e.ShutdownRequested? || (e.DownloadCompleted? && e.status == 401))
  {
    match e
    case ScanCompleted(status, urls, highest) => ScanDone(d, status, urls, highest)
    case ScanError => ScanFailed(d)
    case DownloadCompleted(status, data) => DownloadDone(d, status, data)
    case DownloadError => DownloadFailed(d)
    case ShutdownRequested => Step(Stop(d), None, false, None, false)
  }

  /** The state after a run, the updates imported in order, and whether a handler threw. */
  datatype Outcome = Outcome(d: Downloader, imported: seq<seq<byte>>, threw: bool)

  /** Runs the handlers in order, up to an impossible completion or one that throws. */
  function Run(d: Downloader, es: seq<Event>): (o: Outcome)
    requires Consistent(d)
    ensures Consistent(o.d)
    decreases |es|
  {
    if |es| == 0 || !Possible(d, es[0]) then Outcome(d, [], false)
    else
      var st := Apply(d, es[0]);
      if st.threw then Outcome(st.d, [], true)
      else
        var rest := Run(st.d, es[1..]);
        Outcome(rest.d, (if st.imported.Some? then [st.imported.value] else []) + rest.imported, rest.threw)
  }

  /** A download completion handle_update_download_success deals with as intended: 200 or 401. */
  predicate Delivered(e: Event) {
    e.DownloadCompleted? ==> e.status == 200 || e.status == 401
  }

  /** The handler an event runs, with handle_update_download_success as written. */
  function ApplyAsWritten(d: Downloader, e: Event): (st: Step)
    requires Consistent(d) && Possible(d, e)
    ensures Consistent(st.d)
    ensures Delivered(e) ==> st == Apply(d, e)
    ensures e.DownloadCompleted? ==> (st.fetch.Some? <==> e.status == 200 && !d.shutdown && |d.queue| > 1)
  {
    match e
    case DownloadCompleted(status, data) => DownloadDoneAsWritten(d, status, data)
    case _ => Apply(d, e)
  }

  /** Run with handle_update_download_success as written. */
  function RunAsWritten(d: Downloader, es: seq<Event>): (o: Outcome)
    requires Consistent(d)
    ensures Consistent(o.d)
    decreases |es|
  {
    if |es| == 0 || !Possible(d, es[0]) then Outcome(d, [], false)
    else
      var st := ApplyAsWritten(d, es[0]);
      if st.threw then Outcome(st.d, [], true)
      else
        var rest := RunAsWritten(st.d, es[1..]);
        Outcome(rest.d, (if st.imported.Some? then [st.imported.value] else []) + rest.imported, rest.threw)
  }

  /** The two runs agree as long as every download completes with 200 or 401. */
  lemma {:induction false} RunAsWrittenAgrees(d: Downloader, es: seq<Event>)
    requires Consistent(d)
    requires forall i :: 0 <= i < |es| ==> Delivered(es[i])
    ensures RunAsWritten(d, es) == Run(d, es)
    decreases |es|
  {
    if |es| > 0 && Possible(d, es[0]) {
      var st := Apply(d, es[0]);
      if !st.threw {
        assert forall i :: 0 <= i < |es[1..]| ==> es[1..][i] == es[i + 1];
        RunAsWrittenAgrees(st.d, es[1..]);
      }
    }
  }

  /**
   * One 404 is enough to tell the runs apart: from a live two-update queue
   * the corrected run goes on to the second update, the run as written
   * leaves it waiting with nothing downloading.
   */
  lemma RunAsWrittenStalls(u1: string, u2: string)
    requires u1 != u2
    ensures Live(Downloader([u1, u2], true, false))
    ensures Live(Run(Downloader([u1, u2], true, false), [DownloadCompleted(404, [])]).d)
    ensures !Live(RunAsWritten(Downloader([u1, u2], true, false), [DownloadCompleted(404, [])]).d)
  {
    var d := Downloader([u1, u2], true, false);
    var es: seq<Event> := [DownloadCompleted(404, [])];
    assert es[1..] == [];
  }

  /**
   * Over any run without an exception the queue keeps no duplicates and,
   * while the daemon is up, never waits idle.
   */
  lemma {:induction false} RunKeepsLive(d: Downloader, es: seq<Event>)
    requires Live(d)
    ensures !Run(d, es).threw ==> Live(Run(d, es).d)
    decreases |es|
  {
    if |es| > 0 && Possible(d, es[0]) {
      var st := Apply(d, es[0]);
      match es[0] {
        case ScanCompleted(status, urls, highest) =>
          if !st.threw {
            ScanDoneKeepsLive(d, status, urls, highest);
          }
        case ScanError =>
        case DownloadCompleted(status, data) => DownloadDoneKeepsLive(d, status, data);
        case DownloadError => DownloadFailedKeepsLive(d);
        case ShutdownRequested =>
      }
      if !st.threw {
        RunKeepsLive(st.d, es[1..]);
      }
    }
  }
}
