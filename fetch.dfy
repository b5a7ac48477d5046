/** `download_url`: up to RETRIES attempts at one URL, linear backoff after
    each failed attempt, the body streamed chunk by chunk into the output file.
    The network is an oracle `Net` that says, for a URL and an attempt number,
    what the server does; the effect of a call is the function `Download` on
    the `World` it starts from. */
module Fetch {
  import opened Store

  /** Number of attempts per URL. */
  const RETRIES: nat := 3

  /** Base backoff delay in seconds; after failed attempt k the fetcher sleeps BACKOFF * k. */
  const BACKOFF: nat := 2

  /** What one `requests.get(url, stream=True)` attempt meets.
      NoResponse: the request itself raised (connection error, timeout, bad URL).
      Response: a reply with an HTTP status; if the status check passes, the body
      arrives as `chunks`, and when `complete` is false the stream (or the write
      of the next chunk) raises after those chunks have been written. */
  datatype Reply =
    | NoResponse
    | Response(status: int, chunks: seq<Bytes>, complete: bool)

  /** The network: the reply to attempt `k` at `url`. */
  type Net = (Url, nat) -> Reply

  /** `raise_for_status` raises on a 4xx client error or a 5xx server error. */
  predicate RaisesForStatus(status: int) {
    400 <= status < 600
  }

  /** The attempt gets as far as `open(outpath, "wb")`, truncating the file. */
  predicate Opens(reply: Reply) {
    reply.Response? && !RaisesForStatus(reply.status)
  }

  /** The attempt completes: request, status check and the whole write succeed. */
  predicate Succeeds(reply: Reply) {
    Opens(reply) && reply.complete
  }

  /** The body as one byte string: the chunks in order. */
  function Concat(chunks: seq<Bytes>): Bytes {
    if chunks == [] then [] else chunks[0] + Concat(chunks[1..])
  }

  /** What the write loop leaves in the freshly truncated file after `chunks`:
      each chunk that is not empty is appended, in order. */
  function Written(chunks: seq<Bytes>): Bytes {
    if chunks == [] then []
    else
      var last := chunks[|chunks| - 1];
      Written(chunks[..|chunks| - 1]) + (if last == [] then [] else last)
  }

  lemma {:induction false} ConcatSnoc(chunks: seq<Bytes>, c: Bytes)
    ensures Concat(chunks + [c]) == Concat(chunks) + c
  {
    if chunks == [] {
      assert [] + [c] == [c];
    } else {
      assert (chunks + [c])[1..] == chunks[1..] + [c];
      ConcatSnoc(chunks[1..], c);
    }
  }

  /** Skipping the empty chunks loses nothing: the file holds the whole body. */
  lemma {:induction false} WrittenIsConcat(chunks: seq<Bytes>)
    ensures Written(chunks) == Concat(chunks)
  {
    if chunks != [] {
      var n := |chunks| - 1;
      WrittenIsConcat(chunks[..n]);
      ConcatSnoc(chunks[..n], chunks[n]);
      assert chunks[..n] + [chunks[n]] == chunks;
    }
  }

  /** The file store after one attempt: an error before `open` leaves it alone;
      otherwise `outpath` holds what was written before the attempt ended. */
  function AttemptFiles(reply: Reply, path: Path, files: map<Path, Bytes>): map<Path, Bytes> {
    if Opens(reply) then files[path := Written(reply.chunks)] else files
  }

  datatype Fetched = Fetched(ok: bool, world: World)

  /** Attempts `attempt`..RETRIES at `url`, writing to `path`, from world `w`.
      Each attempt is logged as a request; a failed one is followed by a sleep
      of BACKOFF * attempt, the last one included. */
  function DownloadFrom(net: Net, url: Url, path: Path, attempt: nat, w: World): (r: Fetched)
    requires 1 <= attempt
    ensures attempt <= RETRIES ==> |w.requests| < |r.world.requests|
    ensures |w.sleeps| <= |r.world.sleeps|
    decreases RETRIES + 1 - attempt
  {
    if attempt > RETRIES then Fetched(false, w)
    else
      var reply := net(url, attempt);
      var tried := World(AttemptFiles(reply, path, w.files), w.sleeps, w.requests + [Request(url, attempt)]);
      if Succeeds(reply) then Fetched(true, tried)
      else DownloadFrom(net, url, path, attempt + 1, tried.(sleeps := tried.sleeps + [BACKOFF * attempt]))
  }

  /** `download_url(url, outpath)` from world `w`. */
  function Download(net: Net, url: Url, path: Path, w: World): Fetched {
    DownloadFrom(net, url, path, 1, w)
  }

  /** Some attempt at `url` completes. */
  predicate Delivers(net: Net, url: Url) {
    exists k :: 1 <= k <= RETRIES && Succeeds(net(url, k))
  }

  /** The first attempt number from `from` on that completes, RETRIES + 1 if none does. */
  function FirstSuccess(net: Net, url: Url, from: nat): (k: nat)
    requires 1 <= from <= RETRIES + 1
    ensures from <= k <= RETRIES + 1
    ensures k <= RETRIES ==> Succeeds(net(url, k))
    ensures forall j :: from <= j < k ==> !Succeeds(net(url, j))
    decreases RETRIES + 1 - from
  {
    if from > RETRIES || Succeeds(net(url, from)) then from else FirstSuccess(net, url, from + 1)
  }

  /** The body a delivering `url` saves: that of its first completing attempt. */
  function Payload(net: Net, url: Url): Bytes {
    var k := FirstSuccess(net, url, 1);
    if k <= RETRIES then Concat(net(url, k).chunks) else []
  }

  /** Requests for attempts `from`..`to` - 1 at `url`. */
  function Attempts(url: Url, from: nat, to: nat): (rs: seq<Request>)
    requires from <= to
    ensures |rs| == to - from
    ensures forall i :: 0 <= i < to - from ==> rs[i] == Request(url, from + i)
  {
    seq(to - from, i requires 0 <= i < to - from => Request(url, from + i))
  }

  /** Sleeps after failed attempts `from`..`to` - 1. */
  function Backoffs(from: nat, to: nat): (ds: seq<nat>)
    requires from <= to
    ensures |ds| == to - from
    ensures forall i :: 0 <= i < to - from ==> ds[i] == BACKOFF * (from + i)
  {
    seq(to - from, i requires 0 <= i < to - from => BACKOFF * (from + i))
  }

  lemma AttemptsCons(url: Url, from: nat, to: nat)
    requires from < to
    ensures [Request(url, from)] + Attempts(url, from + 1, to) == Attempts(url, from, to)
  {
  }

  lemma BackoffsCons(from: nat, to: nat)
    requires from < to
    ensures [BACKOFF * from] + Backoffs(from + 1, to) == Backoffs(from, to)
  {
  }

  /** A failed attempt passes on to the next one, after a request and a sleep. */
  lemma DownloadFromFailed(net: Net, url: Url, path: Path, from: nat, w: World)
    requires 1 <= from <= RETRIES
    requires !Succeeds(net(url, from))
    ensures var tried := World(AttemptFiles(net(url, from), path, w.files), w.sleeps + [BACKOFF * from],
                               w.requests + [Request(url, from)]);
            && DownloadFrom(net, url, path, from, w) == DownloadFrom(net, url, path, from + 1, tried)
            && FirstSuccess(net, url, from) == FirstSuccess(net, url, from + 1)
  {
  }

  lemma {:induction false} DownloadFromOk(net: Net, url: Url, path: Path, from: nat, w: World)
    requires 1 <= from <= RETRIES + 1
    ensures DownloadFrom(net, url, path, from, w).ok == (FirstSuccess(net, url, from) <= RETRIES)
    decreases RETRIES + 1 - from
  {
    if from <= RETRIES && !Succeeds(net(url, from)) {
      var next := World(AttemptFiles(net(url, from), path, w.files), w.sleeps + [BACKOFF * from],
                        w.requests + [Request(url, from)]);
      DownloadFromFailed(net, url, path, from, w);
      DownloadFromOk(net, url, path, from + 1, next);
    }
  }

  lemma {:induction false} DownloadFromRequests(net: Net, url: Url, path: Path, from: nat, w: World)
    requires 1 <= from <= RETRIES + 1
    ensures var k := FirstSuccess(net, url, from);
            DownloadFrom(net, url, path, from, w).world.requests
              == w.requests + Attempts(url, from, if k <= RETRIES then k + 1 else RETRIES + 1)
    decreases RETRIES + 1 - from
  {
    if from <= RETRIES && !Succeeds(net(url, from)) {
      var next := World(AttemptFiles(net(url, from), path, w.files), w.sleeps + [BACKOFF * from],
                        w.requests + [Request(url, from)]);
      DownloadFromFailed(net, url, path, from, w);
      DownloadFromRequests(net, url, path, from + 1, next);
      var k := FirstSuccess(net, url, from + 1);
      AttemptsCons(url, from, if k <= RETRIES then k + 1 else RETRIES + 1);
    } else if from <= RETRIES {
      assert Attempts(url, from, from + 1) == [Request(url, from)];
    }
  }

  lemma {:induction false} DownloadFromSleeps(net: Net, url: Url, path: Path, from: nat, w: World)
    requires 1 <= from <= RETRIES + 1
    ensures var k := FirstSuccess(net, url, from);
            DownloadFrom(net, url, path, from, w).world.sleeps
              == w.sleeps + Backoffs(from, if k <= RETRIES then k else RETRIES + 1)
    decreases RETRIES + 1 - from
  {
    if from <= RETRIES && !Succeeds(net(url, from)) {
      var next := World(AttemptFiles(net(url, from), path, w.files), w.sleeps + [BACKOFF * from],
                        w.requests + [Request(url, from)]);
      DownloadFromFailed(net, url, path, from, w);
      DownloadFromSleeps(net, url, path, from + 1, next);
      var k := FirstSuccess(net, url, from + 1);
      BackoffsCons(from, if k <= RETRIES then k else RETRIES + 1);
    }
  }

  lemma DownloadFromLogs(net: Net, url: Url, path: Path, from: nat, w: World)
    requires 1 <= from <= RETRIES + 1
    ensures var d := DownloadFrom(net, url, path, from, w);
            var k := FirstSuccess(net, url, from);
            && d.ok == (k <= RETRIES)
            && d.world.requests == w.requests + Attempts(url, from, if d.ok then k + 1 else RETRIES + 1)
            && d.world.sleeps == w.sleeps + Backoffs(from, if d.ok then k else RETRIES + 1)
  {
    DownloadFromOk(net, url, path, from, w);
    DownloadFromRequests(net, url, path, from, w);
    DownloadFromSleeps(net, url, path, from, w);
  }

  /** `download_url` makes attempts 1, 2, ... in order, at most RETRIES of them;
      it returns True exactly when some attempt completes, and then it stops at
      the first that does; it returns False only after RETRIES failed attempts. */
  lemma DownloadStopsAtFirstSuccess(net: Net, url: Url, path: Path, w: World)
    ensures var d := Download(net, url, path, w);
            var made := d.world.requests[|w.requests|..];
            var n := |made|;
            && |w.requests| <= |d.world.requests|
            && d.world.requests[..|w.requests|] == w.requests
            && 1 <= n <= RETRIES
            && (forall i :: 0 <= i < n ==> made[i] == Request(url, i + 1))
            && (forall j :: 1 <= j < n ==> !Succeeds(net(url, j)))
            && (d.ok <==> Succeeds(net(url, n)))
            && (d.ok <==> Delivers(net, url))
            && (!d.ok ==> n == RETRIES)
  {
    DownloadFromLogs(net, url, path, 1, w);
    var d := Download(net, url, path, w);
    assert d.world.requests[..|w.requests|] == w.requests;
    if Delivers(net, url) {
      var k :| 1 <= k <= RETRIES && Succeeds(net(url, k));
      assert FirstSuccess(net, url, 1) <= k;
    }
  }

  /** After failed attempt k the fetcher sleeps BACKOFF * k, so the sleeps
      strictly grow; it sleeps after the last failed attempt too, so a download
      that fails logs exactly 2, 4 and 6 seconds, 12 in all. */
  lemma DownloadBackoff(net: Net, url: Url, path: Path, w: World)
    ensures var d := Download(net, url, path, w);
            var attempts := |d.world.requests| - |w.requests|;
            var slept := d.world.sleeps[|w.sleeps|..];
            && |w.sleeps| <= |d.world.sleeps|
            && d.world.sleeps[..|w.sleeps|] == w.sleeps
            && |slept| == (if d.ok then attempts - 1 else attempts)
            && (forall i :: 0 <= i < |slept| ==> slept[i] == BACKOFF * (i + 1))
            && (forall i, j :: 0 <= i < j < |slept| ==> slept[i] < slept[j])
            && (!d.ok ==> slept == [2, 4, 6] && slept[0] + slept[1] + slept[2] == 12)
  {
    DownloadFromLogs(net, url, path, 1, w);
    var d := Download(net, url, path, w);
    assert d.world.sleeps[..|w.sleeps|] == w.sleeps;
    assert d.world.sleeps[|w.sleeps|..] == Backoffs(1, if d.ok then FirstSuccess(net, url, 1) else RETRIES + 1);
  }

  lemma {:induction false} DownloadFromFiles(net: Net, url: Url, path: Path, from: nat, w: World)
    requires 1 <= from <= RETRIES + 1
    ensures var d := DownloadFrom(net, url, path, from, w);
            && d.world.files - {path} == w.files - {path}
            && (d.ok ==> path in d.world.files
                         && d.world.files[path] == Concat(net(url, FirstSuccess(net, url, from)).chunks))
            && ((forall k :: from <= k <= RETRIES ==> !Opens(net(url, k))) ==> d.world.files == w.files)
            && (from <= RETRIES && !d.ok && Opens(net(url, RETRIES)) ==>
                  path in d.world.files && d.world.files[path] == Concat(net(url, RETRIES).chunks))
    decreases RETRIES + 1 - from
  {
    if from <= RETRIES {
      var reply := net(url, from);
      var tried := World(AttemptFiles(reply, path, w.files), w.sleeps, w.requests + [Request(url, from)]);
      assert tried.files - {path} == w.files - {path};
      if Opens(reply) {
        WrittenIsConcat(reply.chunks);
      }
      if !Succeeds(reply) {
        var next := tried.(sleeps := tried.sleeps + [BACKOFF * from]);
        DownloadFromFiles(net, url, path, from + 1, next);
      }
    }
  }

  /** The download writes no file but `outpath`; when it returns True, `outpath`
      holds the whole body of the first completing attempt. */
  lemma DownloadSavesBody(net: Net, url: Url, path: Path, w: World)
    ensures var d := Download(net, url, path, w);
            && (forall p :: p != path ==> (p in d.world.files <==> p in w.files))
            && (forall p :: p != path && p in w.files ==> d.world.files[p] == w.files[p])
            && (d.ok ==> path in d.world.files && d.world.files[path] == Payload(net, url))
  {
    DownloadFromFiles(net, url, path, 1, w);
    var d := Download(net, url, path, w);
    forall p | p != path
      ensures (p in d.world.files <==> p in w.files)
      ensures p in w.files ==> d.world.files[p] == w.files[p]
    {
      assert p in d.world.files <==> p in d.world.files - {path};
      assert p in w.files <==> p in w.files - {path};
      if p in w.files {
        assert (d.world.files - {path})[p] == (w.files - {path})[p];
      }
    }
  }

  /** A failed status check (or no reply) fails the attempt before the file is
      opened: when no attempt gets that far, the download changes no file. */
  lemma DownloadUnopenedKeepsFiles(net: Net, url: Url, path: Path, w: World)
    requires forall k :: 1 <= k <= RETRIES ==> !Opens(net(url, k))
    ensures !Download(net, url, path, w).ok
    ensures Download(net, url, path, w).world.files == w.files
  {
    DownloadFromFiles(net, url, path, 1, w);
  }

  /** A download that fails may still leave a file behind: when the last
      attempt's stream breaks off after the status check, `outpath` holds the
      bytes written before the break, though `download_url` returns False. */
  lemma DownloadLeavesPartialFile(net: Net, url: Url, path: Path, w: World)
    requires forall k :: 1 <= k < RETRIES ==> !Succeeds(net(url, k))
    requires net(url, RETRIES).Response? && !RaisesForStatus(net(url, RETRIES).status)
    requires !net(url, RETRIES).complete
    ensures !Download(net, url, path, w).ok
    ensures path in Download(net, url, path, w).world.files
    ensures Download(net, url, path, w).world.files[path] == Concat(net(url, RETRIES).chunks)
  {
    DownloadFromLogs(net, url, path, 1, w);
    DownloadFromFiles(net, url, path, 1, w);
  }
}
