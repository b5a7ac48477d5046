/** The downloader as the program runs it: a file store that the downloads
    write into, with the sleeps and requests logged, and the three procedures
    `download_url`, `ensure_images` and the `__main__` report, each proved to
    do what the functions of Fetch, Orchestrate and Report say. */
module Engine {
  import opened Store
  import opened Fetch
  import opened Orchestrate
  import opened Report

  class Downloader {
    /** The network every request goes to. */
    const net: Net
    /** The file store: what each written path holds. */
    var files: map<Path, Bytes>
    /** The durations passed to `time.sleep`, in order. */
    ghost var sleeps: seq<nat>
    /** The requests issued, in order. */
    ghost var requests: seq<Request>

    ghost function State(): World
      reads this
    {
      World(files, sleeps, requests)
    }

    constructor (net: Net, files: map<Path, Bytes>)
      ensures this.net == net
      ensures State() == World(files, [], [])
    {
      this.net := net;
      this.files := files;
      sleeps := [];
      requests := [];
    }

    /** The body of `with open(outpath, "wb") as f`: truncate, then append
        each chunk that is not empty. */
    method WriteBody(outpath: Path, chunks: seq<Bytes>)
      modifies this`files
      ensures files == old(files)[outpath := Written(chunks)]
    {
      files := files[outpath := []];
      for j := 0 to |chunks|
        invariant files == old(files)[outpath := Written(chunks[..j])]
      {
        assert chunks[..j + 1][..j] == chunks[..j];
        assert Written(chunks[..j + 1]) == Written(chunks[..j]) + (if chunks[j] == [] then [] else chunks[j]);
        if chunks[j] != [] {
          files := files[outpath := files[outpath] + chunks[j]];
        } else {
          assert Written(chunks[..j + 1]) == Written(chunks[..j]);
        }
      }
      assert chunks[..|chunks|] == chunks;
    }

    /** `download_url(url, outpath)`. */
    method DownloadUrl(url: Url, outpath: Path) returns (ok: bool)
      modifies this
      ensures Fetched(ok, State()) == Download(net, url, outpath, old(State()))
    {
      for attempt := 1 to RETRIES + 1
        invariant DownloadFrom(net, url, outpath, attempt, State()) == Download(net, url, outpath, old(State()))
      {
        requests := requests + [Request(url, attempt)];
        var failed := true;
        match net(url, attempt) {
          case NoResponse =>
          case Response(status, chunks, complete) =>
            if !RaisesForStatus(status) {
              WriteBody(outpath, chunks);
              failed := !complete;
            }
        }
        if !failed {
          return true;
        }
        sleeps := sleeps + [BACKOFF * attempt];
      }
      return false;
    }

    /** One pass of the inner loop of `ensure_images`: download the `index`-th
        URL of `artist`; if that returns False, download the placeholder to the
        same path; give the summary entry. */
    method ResolveItem(artist: string, index: nat, url: Url, policy: Policy) returns (entry: Entry)
      modifies this
      ensures Resolved(entry, State()) == Resolve(net, policy, Item(artist, index, url), old(State()))
    {
      var outpath := ImagePath(artist, index);
      var ok := DownloadUrl(url, outpath);
      if !ok {
        var placed := DownloadUrl(PLACEHOLDER, outpath);
        var status := if policy == Checked && !placed then Missing else Placeholder;
        entry := Entry(artist, index, status);
      } else {
        entry := Entry(artist, index, Ok);
      }
    }

    /** The inner loop of `ensure_images` for one artist: `i` starts at 1 and
        goes up by one per URL; the entries are appended to `summary`. `done`
        are the items resolved before, from world `start`. */
    method DownloadArtist(artist: string, urls: seq<Url>, policy: Policy, summary0: seq<Entry>,
                          ghost done: seq<Item>, ghost start: World)
      returns (summary: seq<Entry>)
      requires Run(summary0, State()) == RunItems(net, policy, done, start)
      modifies this
      ensures Run(summary, State()) == RunItems(net, policy, done + ArtistItems(artist, urls), start)
    {
      summary := summary0;
      var i := 1;
      assert ArtistItems(artist, urls[..0]) == [];
      assert done + ArtistItems(artist, urls[..0]) == done;
      for j := 0 to |urls|
        invariant i == j + 1
        invariant Run(summary, State()) == RunItems(net, policy, done + ArtistItems(artist, urls[..j]), start)
      {
        ArtistStep(net, policy, done, artist, urls, j, start);
        var entry := ResolveItem(artist, i, urls[j], policy);
        summary := summary + [entry];
        i := i + 1;
      }
      assert urls[..|urls|] == urls;
    }

    /** `ensure_images()` over `catalog`; `policy` AsWritten is the code as it
        stands, Checked records "missing" when the placeholder also fails. */
    method EnsureImages(catalog: Catalog, policy: Policy) returns (summary: seq<Entry>)
      modifies this
      ensures Run(summary, State()) == RunItems(net, policy, Items(catalog), old(State()))
    {
      summary := [];
      for a := 0 to |catalog|
        invariant Run(summary, State()) == RunItems(net, policy, Items(catalog[..a]), old(State()))
      {
        var (artist, urls) := catalog[a];
        summary := DownloadArtist(artist, urls, policy, summary, Items(catalog[..a]), old(State()));
        ItemsSnoc(catalog, a);
      }
      assert catalog[..|catalog|] == catalog;
    }

    /** The `__main__` block: run `ensure_images`, fold the summary into
        counts, and give the three numbers the report prints. They add up to
        the number of catalogue URLs; as written, "missing" is always 0. */
    method DownloadAndReport(catalog: Catalog, policy: Policy) returns (ok: nat, placeholder: nat, missing: nat)
      modifies this
      ensures var r := RunItems(net, policy, Items(catalog), old(State()));
              && State() == r.world
              && ok == Occurrences(r.summary, Ok)
              && placeholder == Occurrences(r.summary, Placeholder)
              && missing == Occurrences(r.summary, Missing)
      ensures ok + placeholder + missing == TotalUrls(catalog)
      ensures policy == AsWritten ==> missing == 0
    {
      ghost var before := State();
      var results := EnsureImages(catalog, policy);
      var counts := CountStatuses(results);
      ok, placeholder, missing := Get(counts, Ok), Get(counts, Placeholder), Get(counts, Missing);
      SummaryFollowsCatalog(net, policy, catalog, before);
      CountsPartition(results);
      if policy == AsWritten {
        NeverMissing(net, catalog, before);
        AbsentStatusCountsZero(results, Missing);
      }
    }
  }
}
