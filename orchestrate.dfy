/** `ensure_images`: walk the artist -> URL catalogue in order, give each URL
    the next 1-based index within its artist, download it to
    `images/<artist>/<i>.jpg`, fall back to the placeholder URL on the same
    path when that fails, and record one (artist, i, status) entry per URL.
    The effect of a run is the function `RunItems` over the catalogue's items. */
module Orchestrate {
  import opened Store
  import opened Fetch

  /** The URL downloaded in place of an artwork that could not be fetched. */
  const PLACEHOLDER: Url := "https://picsum.photos/1200/800"

  /** The status strings "ok", "placeholder" and "missing". */
  datatype Status = Ok | Placeholder | Missing

  /** A summary tuple (artist, i, status). */
  datatype Entry = Entry(artist: string, index: nat, status: Status)

  /** How an item whose primary download failed is recorded.
      AsWritten: "placeholder" whatever the placeholder download returned, as
      the code does ("missing" only if that call raised, which it never does).
      Checked: "missing" when the placeholder download also returns False. */
  datatype Policy = AsWritten | Checked

  /** The artist -> URL list dictionary, in its insertion order. */
  type Catalog = seq<(string, seq<Url>)>

  /** The artists of a catalogue are its dictionary keys, no two alike, and
      each is a folder name, as every artist of the program's catalogue is. */
  predicate ArtistFolders(catalog: Catalog) {
    && (forall a :: 0 <= a < |catalog| ==> FolderName(catalog[a].0))
    && (forall a, b :: 0 <= a < b < |catalog| ==> catalog[a].0 != catalog[b].0)
  }

  /** One URL of the catalogue with the index it gets within its artist. */
  datatype Item = Item(artist: string, index: nat, url: Url) {
    function OutPath(): Path { ImagePath(artist, index) }
  }

  /** The items of one artist: URL k (from 0) gets index k + 1. */
  function ArtistItems(artist: string, urls: seq<Url>): seq<Item> {
    seq(|urls|, k requires 0 <= k < |urls| => Item(artist, k + 1, urls[k]))
  }

  /** The items of the whole catalogue, artist after artist. */
  function Items(catalog: Catalog): seq<Item> {
    if catalog == [] then []
    else
      var last := catalog[|catalog| - 1];
      Items(catalog[..|catalog| - 1]) + ArtistItems(last.0, last.1)
  }

  /** The sum of the lengths of the URL lists. */
  function TotalUrls(catalog: Catalog): nat {
    if catalog == [] then 0
    else TotalUrls(catalog[..|catalog| - 1]) + |catalog[|catalog| - 1].1|
  }

  datatype Resolved = Resolved(entry: Entry, world: World)

  /** One pass of the inner loop: the primary download, then, if it returned
      False, the placeholder download to the same path. */
  function Resolve(net: Net, policy: Policy, item: Item, w: World): Resolved {
    var path := item.OutPath();
    var primary := Download(net, item.url, path, w);
    if primary.ok then Resolved(Entry(item.artist, item.index, Ok), primary.world)
    else
      var fallback := Download(net, PLACEHOLDER, path, primary.world);
      var status := if policy == Checked && !fallback.ok then Missing else Placeholder;
      Resolved(Entry(item.artist, item.index, status), fallback.world)
  }

  datatype Run = Run(summary: seq<Entry>, world: World)

  /** Resolving `items` one after another from world `w`, appending an entry each. */
  function RunItems(net: Net, policy: Policy, items: seq<Item>, w: World): Run {
    if items == [] then Run([], w)
    else
      var before := RunItems(net, policy, items[..|items| - 1], w);
      var last := Resolve(net, policy, items[|items| - 1], before.world);
      Run(before.summary + [last.entry], last.world)
  }

  /** Running one more item resolves it from where the others left off. */
  lemma RunItemsSnoc(net: Net, policy: Policy, items: seq<Item>, item: Item, w: World)
    ensures var before := RunItems(net, policy, items, w);
            var last := Resolve(net, policy, item, before.world);
            RunItems(net, policy, items + [item], w) == Run(before.summary + [last.entry], last.world)
  {
    assert (items + [item])[..|items|] == items;
  }

  /** One more URL of an artist resolves the item with the next index. */
  lemma ArtistStep(net: Net, policy: Policy, done: seq<Item>, artist: string, urls: seq<Url>, j: nat, w: World)
    requires j < |urls|
    ensures var before := RunItems(net, policy, done + ArtistItems(artist, urls[..j]), w);
            var last := Resolve(net, policy, Item(artist, j + 1, urls[j]), before.world);
            RunItems(net, policy, done + ArtistItems(artist, urls[..j + 1]), w)
            == Run(before.summary + [last.entry], last.world)
  {
    var item := Item(artist, j + 1, urls[j]);
    var prefix := done + ArtistItems(artist, urls[..j]);
    assert ArtistItems(artist, urls[..j + 1]) == ArtistItems(artist, urls[..j]) + [item];
    assert done + ArtistItems(artist, urls[..j + 1]) == prefix + [item];
    RunItemsSnoc(net, policy, prefix, item, w);
  }

  /** One more artist appends that artist's items. */
  lemma ItemsSnoc(catalog: Catalog, a: nat)
    requires a < |catalog|
    ensures Items(catalog[..a + 1]) == Items(catalog[..a]) + ArtistItems(catalog[a].0, catalog[a].1)
  {
    assert catalog[..a + 1][..a] == catalog[..a];
  }

  /** The status an item whose primary URL is `url` ends with. */
  function Verdict(net: Net, policy: Policy, url: Url): Status {
    if Delivers(net, url) then Ok
    else if policy == Checked && !Delivers(net, PLACEHOLDER) then Missing
    else Placeholder
  }

  /** `after` differs from `before` at most at `path`. */
  ghost predicate KeepsAllBut(path: Path, before: map<Path, Bytes>, after: map<Path, Bytes>) {
    forall p :: p != path ==> (p in after <==> p in before) && (p in before ==> after[p] == before[p])
  }

  /** The file at the item's path holds the artwork's body when its URL is
      delivered, else the placeholder's body when that is delivered. */
  predicate HoldsOutcome(net: Net, item: Item, files: map<Path, Bytes>) {
    var path := item.OutPath();
    && (Delivers(net, item.url) ==> path in files && files[path] == Payload(net, item.url))
    && (!Delivers(net, item.url) && Delivers(net, PLACEHOLDER) ==>
          path in files && files[path] == Payload(net, PLACEHOLDER))
  }

  /** An item's status is "ok" iff its primary download returned True;
      otherwise the placeholder download runs on the same path. Only the item's
      own path is written; it ends holding the primary body when that was
      delivered, else the placeholder body when that was. */
  lemma ResolveItem(net: Net, policy: Policy, item: Item, w: World)
    ensures var r := Resolve(net, policy, item, w);
            && r.entry == Entry(item.artist, item.index, Verdict(net, policy, item.url))
            && KeepsAllBut(item.OutPath(), w.files, r.world.files)
            && HoldsOutcome(net, item, r.world.files)
  {
    var path := item.OutPath();
    var primary := Download(net, item.url, path, w);
    DownloadStopsAtFirstSuccess(net, item.url, path, w);
    DownloadSavesBody(net, item.url, path, w);
    if !primary.ok {
      DownloadStopsAtFirstSuccess(net, PLACEHOLDER, path, primary.world);
      DownloadSavesBody(net, PLACEHOLDER, path, primary.world);
    }
  }

  /** The run records exactly one entry per item, in item order, with the
      item's artist, index and status. */
  lemma {:induction false} RunSummary(net: Net, policy: Policy, items: seq<Item>, w: World)
    ensures var r := RunItems(net, policy, items, w);
            && |r.summary| == |items|
            && forall k :: 0 <= k < |items| ==>
                 r.summary[k] == Entry(items[k].artist, items[k].index, Verdict(net, policy, items[k].url))
  {
    if items != [] {
      var n := |items| - 1;
      RunSummary(net, policy, items[..n], w);
      ResolveItem(net, policy, items[n], RunItems(net, policy, items[..n], w).world);
    }
  }

  lemma SliceOfLeft<T>(xs: seq<T>, ys: seq<T>, i: nat, j: nat)
    requires i <= j <= |xs|
    ensures (xs + ys)[i..j] == xs[i..j]
  {
  }

  lemma {:induction false} ItemsLength(catalog: Catalog)
    ensures |Items(catalog)| == TotalUrls(catalog)
  {
    if catalog != [] {
      ItemsLength(catalog[..|catalog| - 1]);
    }
  }

  /** The items of artist `a` sit right after those of the artists before it. */
  lemma {:induction false} ItemsBlock(catalog: Catalog, a: nat)
    requires a < |catalog|
    ensures var start := TotalUrls(catalog[..a]);
            && start + |catalog[a].1| <= |Items(catalog)|
            && Items(catalog)[start..start + |catalog[a].1|] == ArtistItems(catalog[a].0, catalog[a].1)
  {
    var n := |catalog| - 1;
    var init := catalog[..n];
    ItemsLength(init);
    var last := ArtistItems(catalog[n].0, catalog[n].1);
    assert Items(catalog) == Items(init) + last;
    if a < n {
      ItemsBlock(init, a);
      assert init[..a] == catalog[..a];
      assert init[a] == catalog[a];
      var start := TotalUrls(catalog[..a]);
      SliceOfLeft(Items(init), last, start, start + |catalog[a].1|);
    } else {
      assert catalog[..a] == init;
    }
  }

  /** The catalogue has TotalUrls items, and artist a's URLs (from 0) occupy
      the block of items that starts after the URLs of the artists before it,
      as ArtistItems: within each artist the indices run 1, 2, ...
      consecutively, artists in catalogue order. */
  lemma ItemsOfCatalog(catalog: Catalog)
    ensures |Items(catalog)| == TotalUrls(catalog)
    ensures forall a :: 0 <= a < |catalog| ==>
              var start := TotalUrls(catalog[..a]);
              && start + |catalog[a].1| <= |Items(catalog)|
              && Items(catalog)[start..start + |catalog[a].1|] == ArtistItems(catalog[a].0, catalog[a].1)
  {
    ItemsLength(catalog);
    forall a | 0 <= a < |catalog|
      ensures var start := TotalUrls(catalog[..a]);
              && start + |catalog[a].1| <= |Items(catalog)|
              && Items(catalog)[start..start + |catalog[a].1|] == ArtistItems(catalog[a].0, catalog[a].1)
    {
      ItemsBlock(catalog, a);
    }
  }

  /** The entries of one artist: URL k (from 0) gets index k + 1 and the status
      its downloads earn. */
  function ArtistEntries(net: Net, policy: Policy, artist: string, urls: seq<Url>): seq<Entry> {
    seq(|urls|, k requires 0 <= k < |urls| => Entry(artist, k + 1, Verdict(net, policy, urls[k])))
  }

  lemma BlockEntries(net: Net, policy: Policy, items: seq<Item>, summary: seq<Entry>,
                     start: nat, artist: string, urls: seq<Url>)
    requires |summary| == |items|
    requires forall k :: 0 <= k < |items| ==>
               summary[k] == Entry(items[k].artist, items[k].index, Verdict(net, policy, items[k].url))
    requires start + |urls| <= |items|
    requires items[start..start + |urls|] == ArtistItems(artist, urls)
    ensures summary[start..start + |urls|] == ArtistEntries(net, policy, artist, urls)
  {
    forall k | 0 <= k < |urls|
      ensures summary[start + k] == Entry(artist, k + 1, Verdict(net, policy, urls[k]))
    {
      assert items[start + k] == items[start..start + |urls|][k];
    }
  }

  /** `ensure_images` returns one entry per catalogue URL, in catalogue order:
      the block of entries for artist a comes after those of the artists before
      it, and holds, for its URL k (from 0), that artist, index k + 1 and the
      status the URL's downloads earn. */
  lemma SummaryFollowsCatalog(net: Net, policy: Policy, catalog: Catalog, w: World)
    ensures var r := RunItems(net, policy, Items(catalog), w);
            && |r.summary| == TotalUrls(catalog)
            && forall a :: 0 <= a < |catalog| ==>
                 var start := TotalUrls(catalog[..a]);
                 && start + |catalog[a].1| <= |r.summary|
                 && r.summary[start..start + |catalog[a].1|] == ArtistEntries(net, policy, catalog[a].0, catalog[a].1)
  {
    ItemsOfCatalog(catalog);
    var items := Items(catalog);
    RunSummary(net, policy, items, w);
    var summary := RunItems(net, policy, items, w).summary;
    forall a | 0 <= a < |catalog|
      ensures var start := TotalUrls(catalog[..a]);
              && start + |catalog[a].1| <= |summary|
              && summary[start..start + |catalog[a].1|] == ArtistEntries(net, policy, catalog[a].0, catalog[a].1)
    {
      BlockEntries(net, policy, items, summary, TotalUrls(catalog[..a]), catalog[a].0, catalog[a].1);
    }
  }

  /** As written, no entry is ever "missing": `download_url` catches every
      Exception, so the `except` branch around the placeholder call is dead. */
  lemma NeverMissing(net: Net, catalog: Catalog, w: World)
    ensures var r := RunItems(net, AsWritten, Items(catalog), w);
            forall k :: 0 <= k < |r.summary| ==> r.summary[k].status != Missing
  {
    RunSummary(net, AsWritten, Items(catalog), w);
  }

  /** Items whose paths are pairwise distinct. */
  predicate DistinctPaths(items: seq<Item>) {
    forall k, l :: 0 <= k < l < |items| ==> items[k].OutPath() != items[l].OutPath()
  }

  lemma OutcomeKept(net: Net, item: Item, path: Path, before: map<Path, Bytes>, after: map<Path, Bytes>)
    requires HoldsOutcome(net, item, before)
    requires KeepsAllBut(path, before, after)
    requires item.OutPath() != path
    ensures HoldsOutcome(net, item, after)
  {
  }

  /** With distinct paths, after the run each item's file holds the primary
      body when the primary was delivered, else the placeholder body when that
      was: a later item never overwrites an earlier one's file. */
  lemma {:induction false} FinalFiles(net: Net, policy: Policy, items: seq<Item>, w: World)
    requires DistinctPaths(items)
    ensures forall k :: 0 <= k < |items| ==> HoldsOutcome(net, items[k], RunItems(net, policy, items, w).world.files)
  {
    if items != [] {
      var n := |items| - 1;
      var init := items[..n];
      assert DistinctPaths(init);
      FinalFiles(net, policy, init, w);
      var before := RunItems(net, policy, init, w);
      ResolveItem(net, policy, items[n], before.world);
      var after := RunItems(net, policy, items, w).world.files;
      assert after == Resolve(net, policy, items[n], before.world).world.files;
      forall k | 0 <= k < n
        ensures HoldsOutcome(net, items[k], after)
      {
        assert init[k] == items[k];
        OutcomeKept(net, items[k], items[n].OutPath(), before.world.files, after);
      }
    }
  }

  /** The run writes no file outside its items' paths. */
  lemma {:induction false} RunWritesOnlyItemPaths(net: Net, policy: Policy, items: seq<Item>, w: World)
    ensures var after := RunItems(net, policy, items, w).world.files;
            forall p :: (forall k :: 0 <= k < |items| ==> items[k].OutPath() != p) ==>
              (p in after <==> p in w.files) && (p in w.files ==> after[p] == w.files[p])
  {
    if items != [] {
      var n := |items| - 1;
      RunWritesOnlyItemPaths(net, policy, items[..n], w);
      var before := RunItems(net, policy, items[..n], w);
      ResolveItem(net, policy, items[n], before.world);
    }
  }

  /** The artists' names, in catalogue order. */
  function ArtistNames(catalog: Catalog): seq<string> {
    seq(|catalog|, a requires 0 <= a < |catalog| => catalog[a].0)
  }

  lemma {:induction false} ItemsHaveCatalogArtists(catalog: Catalog)
    ensures forall k :: 0 <= k < |Items(catalog)| ==> Items(catalog)[k].artist in ArtistNames(catalog)
  {
    if catalog != [] {
      var n := |catalog| - 1;
      ItemsHaveCatalogArtists(catalog[..n]);
      forall k | 0 <= k < |Items(catalog)|
        ensures Items(catalog)[k].artist in ArtistNames(catalog)
      {
        var m := |Items(catalog[..n])|;
        if k < m {
          var a :| 0 <= a < n && ArtistNames(catalog[..n])[a] == Items(catalog[..n])[k].artist;
          assert ArtistNames(catalog)[a] == catalog[a].0;
        } else {
          assert ArtistNames(catalog)[n] == catalog[n].0;
        }
      }
    }
  }

  /** Distinct artist folders give every catalogue URL its own output path. */
  lemma {:induction false} CatalogPathsDistinct(catalog: Catalog)
    requires ArtistFolders(catalog)
    ensures DistinctPaths(Items(catalog))
  {
    if catalog != [] {
      var n := |catalog| - 1;
      var init := catalog[..n];
      CatalogPathsDistinct(init);
      ItemsHaveCatalogArtists(init);
      var items := Items(catalog);
      var m := |Items(init)|;
      forall k, l | 0 <= k < l < |items|
        ensures items[k].OutPath() != items[l].OutPath()
      {
        if l >= m && k < m {
          var a :| 0 <= a < n && ArtistNames(init)[a] == items[k].artist;
          assert init[a].0 != catalog[n].0;
        }
      }
    }
  }

  /** Distinct artist folders give every catalogue URL its own file name:
      no two URLs of a run write the same file. */
  lemma CatalogFileNamesDistinct(catalog: Catalog)
    requires ArtistFolders(catalog)
    ensures var items := Items(catalog);
            forall k, l :: 0 <= k < l < |items| ==> items[k].OutPath().Name() != items[l].OutPath().Name()
  {
    CatalogPathsDistinct(catalog);
    var items := Items(catalog);
    forall k, l | 0 <= k < l < |items|
      ensures items[k].OutPath().Name() != items[l].OutPath().Name()
    {
      if items[k].OutPath().Name() == items[l].OutPath().Name() {
        NameIdentifiesPath(items[k].artist, items[k].index, items[l].artist, items[l].index);
      }
    }
  }

  /** When every primary URL is delivered (and none is the placeholder's),
      every entry is "ok" and the placeholder URL is never requested. */
  lemma {:induction false} FallbackUnusedWhenAllDelivered(net: Net, policy: Policy, items: seq<Item>, w: World)
    requires forall k :: 0 <= k < |items| ==> Delivers(net, items[k].url) && items[k].url != PLACEHOLDER
    ensures var r := RunItems(net, policy, items, w);
            && (forall k :: 0 <= k < |r.summary| ==> r.summary[k].status == Ok)
            && |w.requests| <= |r.world.requests|
            && r.world.requests[..|w.requests|] == w.requests
            && (forall i :: |w.requests| <= i < |r.world.requests| ==> r.world.requests[i].url != PLACEHOLDER)
  {
    RunSummary(net, policy, items, w);
    if items != [] {
      var n := |items| - 1;
      FallbackUnusedWhenAllDelivered(net, policy, items[..n], w);
      var before := RunItems(net, policy, items[..n], w);
      var item := items[n];
      DownloadStopsAtFirstSuccess(net, item.url, item.OutPath(), before.world);
      var r := RunItems(net, policy, items, w);
      assert r.world == Download(net, item.url, item.OutPath(), before.world).world;
      var b := |before.world.requests|;
      forall i | |w.requests| <= i < |r.world.requests|
        ensures r.world.requests[i].url != PLACEHOLDER
      {
        if i < b {
          assert r.world.requests[i] == r.world.requests[..b][i];
        } else {
          assert r.world.requests[i] == r.world.requests[b..][i - b];
        }
      }
      assert r.world.requests[..|w.requests|] == r.world.requests[..b][..|w.requests|];
    }
  }

  /** When no reply to a primary URL or to the placeholder gets past the
      status check, the run writes no file at all. */
  lemma {:induction false} NothingOpenedNothingWritten(net: Net, policy: Policy, items: seq<Item>, w: World)
    requires forall k, j :: 0 <= k < |items| && 1 <= j <= RETRIES ==> !Opens(net(items[k].url, j))
    requires forall j :: 1 <= j <= RETRIES ==> !Opens(net(PLACEHOLDER, j))
    ensures RunItems(net, policy, items, w).world.files == w.files
  {
    if items != [] {
      var n := |items| - 1;
      NothingOpenedNothingWritten(net, policy, items[..n], w);
      var before := RunItems(net, policy, items[..n], w);
      var item := items[n];
      DownloadUnopenedKeepsFiles(net, item.url, item.OutPath(), before.world);
      var primary := Download(net, item.url, item.OutPath(), before.world);
      DownloadUnopenedKeepsFiles(net, PLACEHOLDER, item.OutPath(), primary.world);
    }
  }

  /** A network on which no request gets an answer. */
  function Offline(url: Url, attempt: nat): Reply {
    NoResponse
  }

  /** As written, an item whose artwork and placeholder both fail is recorded
      as "placeholder" although nothing was saved at its path; the Checked
      policy records it as "missing". */
  lemma PlaceholderRecordedWithoutPlaceholder(w: World)
    requires ImagePath("van-gogh", 1) !in w.files
    ensures var catalog := [("van-gogh", ["https://example.org/starry-night.jpg"])];
            var asWritten := RunItems(Offline, AsWritten, Items(catalog), w);
            var checked := RunItems(Offline, Checked, Items(catalog), w);
            && asWritten.summary == [Entry("van-gogh", 1, Placeholder)]
            && ImagePath("van-gogh", 1) !in asWritten.world.files
            && checked.summary == [Entry("van-gogh", 1, Missing)]
  {
    var catalog := [("van-gogh", ["https://example.org/starry-night.jpg"])];
    var items := Items(catalog);
    assert catalog[..0] == [];
    assert ArtistItems("van-gogh", ["https://example.org/starry-night.jpg"])
        == [Item("van-gogh", 1, "https://example.org/starry-night.jpg")];
    assert items == [Item("van-gogh", 1, "https://example.org/starry-night.jpg")];
    RunSummary(Offline, AsWritten, items, w);
    RunSummary(Offline, Checked, items, w);
    NothingOpenedNothingWritten(Offline, AsWritten, items, w);
  }

  /** The entry says what is on disk for its item: "ok" means the artwork's
      body is at the item's path, "placeholder" means the placeholder's body
      is, and "missing" means neither was delivered. */
  predicate EntryMatchesFiles(net: Net, item: Item, entry: Entry, files: map<Path, Bytes>) {
    var path := item.OutPath();
    && (entry.status == Ok ==> path in files && files[path] == Payload(net, item.url))
    && (entry.status == Placeholder ==> path in files && files[path] == Payload(net, PLACEHOLDER))
    && (entry.status == Missing <==> !Delivers(net, item.url) && !Delivers(net, PLACEHOLDER))
  }

  /** Under the Checked policy, with distinct artists, every entry says what
      is on disk for its URL. */
  lemma CheckedEntriesMatchFiles(net: Net, catalog: Catalog, w: World)
    requires ArtistFolders(catalog)
    ensures var items := Items(catalog);
            var r := RunItems(net, Checked, items, w);
            && |r.summary| == |items|
            && forall k :: 0 <= k < |items| ==> EntryMatchesFiles(net, items[k], r.summary[k], r.world.files)
  {
    var items := Items(catalog);
    CatalogPathsDistinct(catalog);
    RunSummary(net, Checked, items, w);
    FinalFiles(net, Checked, items, w);
  }

  /** Running the catalogue a second time, on the same network and from what
      the first run left, records the same summary, and after either run
      every item's file holds the outcome its downloads earn. */
  lemma RerunSameOutcome(net: Net, policy: Policy, catalog: Catalog, w: World)
    requires ArtistFolders(catalog)
    ensures var items := Items(catalog);
            var first := RunItems(net, policy, items, w);
            var second := RunItems(net, policy, items, first.world);
            && second.summary == first.summary
            && forall k :: 0 <= k < |items| ==>
                 HoldsOutcome(net, items[k], first.world.files) && HoldsOutcome(net, items[k], second.world.files)
  {
    var items := Items(catalog);
    var first := RunItems(net, policy, items, w);
    CatalogPathsDistinct(catalog);
    RunSummary(net, policy, items, w);
    RunSummary(net, policy, items, first.world);
    FinalFiles(net, policy, items, w);
    FinalFiles(net, policy, items, first.world);
  }

  /** "u1" and "u3" answer their first attempt with the body [1]; "u2" never
      answers; the placeholder answers with the body [9]. */
  function ExampleNet(url: Url, attempt: nat): Reply {
    if url == "u2" then NoResponse
    else if url == PLACEHOLDER then Response(200, [[9]], true)
    else Response(200, [[1]], true)
  }

  lemma ExampleItems()
    ensures Items([("a", ["u1", "u2"]), ("b", ["u3"])]) == [Item("a", 1, "u1"), Item("a", 2, "u2"), Item("b", 1, "u3")]
  {
    var catalog := [("a", ["u1", "u2"]), ("b", ["u3"])];
    assert catalog[..1][..0] == [];
    assert catalog[..1] == [("a", ["u1", "u2"])];
    assert ArtistItems("a", ["u1", "u2"]) == [Item("a", 1, "u1"), Item("a", 2, "u2")];
    assert ArtistItems("b", ["u3"]) == [Item("b", 1, "u3")];
    assert Items(catalog[..1]) == [Item("a", 1, "u1"), Item("a", 2, "u2")];
  }

  lemma ExampleVerdicts(policy: Policy)
    ensures Verdict(ExampleNet, policy, "u1") == Ok
    ensures Verdict(ExampleNet, policy, "u2") == Placeholder
    ensures Verdict(ExampleNet, policy, "u3") == Ok
    ensures Payload(ExampleNet, "u1") == [1] && Payload(ExampleNet, "u3") == [1]
    ensures Payload(ExampleNet, PLACEHOLDER) == [9]
  {
    assert Succeeds(ExampleNet("u1", 1)) && Succeeds(ExampleNet("u3", 1)) && Succeeds(ExampleNet(PLACEHOLDER, 1));
    assert !Delivers(ExampleNet, "u2");
  }

  lemma ExampleSummary(policy: Policy, items: seq<Item>, w: World)
    requires items == [Item("a", 1, "u1"), Item("a", 2, "u2"), Item("b", 1, "u3")]
    ensures RunItems(ExampleNet, policy, items, w).summary
            == [Entry("a", 1, Ok), Entry("a", 2, Placeholder), Entry("b", 1, Ok)]
  {
    ExampleVerdicts(policy);
    RunSummary(ExampleNet, policy, items, w);
  }

  lemma ExampleFiles(policy: Policy, items: seq<Item>, w: World)
    requires items == [Item("a", 1, "u1"), Item("a", 2, "u2"), Item("b", 1, "u3")]
    ensures var files := RunItems(ExampleNet, policy, items, w).world.files;
            && ImagePath("a", 1) in files && files[ImagePath("a", 1)] == [1]
            && ImagePath("a", 2) in files && files[ImagePath("a", 2)] == [9]
            && ImagePath("b", 1) in files && files[ImagePath("b", 1)] == [1]
  {
    ExampleVerdicts(policy);
    assert DistinctPaths(items);
    FinalFiles(ExampleNet, policy, items, w);
    assert items[0].OutPath() == ImagePath("a", 1) && Delivers(ExampleNet, items[0].url);
    assert items[1].OutPath() == ImagePath("a", 2) && !Delivers(ExampleNet, items[1].url);
    assert items[2].OutPath() == ImagePath("b", 1) && Delivers(ExampleNet, items[2].url);
  }

  /** The catalogue {"a": ["u1", "u2"], "b": ["u3"]}: a/1 is ok, a/2 falls back
      to the placeholder, b/1 is ok, and the three files hold those bodies. */
  lemma ExampleRun(policy: Policy, w: World)
    ensures var catalog := [("a", ["u1", "u2"]), ("b", ["u3"])];
            var r := RunItems(ExampleNet, policy, Items(catalog), w);
            && r.summary == [Entry("a", 1, Ok), Entry("a", 2, Placeholder), Entry("b", 1, Ok)]
            && ImagePath("a", 1) in r.world.files && r.world.files[ImagePath("a", 1)] == [1]
            && ImagePath("a", 2) in r.world.files && r.world.files[ImagePath("a", 2)] == [9]
            && ImagePath("b", 1) in r.world.files && r.world.files[ImagePath("b", 1)] == [1]
  {
    ExampleItems();
    var items := Items([("a", ["u1", "u2"]), ("b", ["u3"])]);
    ExampleSummary(policy, items, w);
    ExampleFiles(policy, items, w);
  }
}
