# Resilient artwork downloader, modelled in Dafny

`download_art.py` fetches a catalogue of artworks. The catalogue is a
dictionary from artist to a list of image URLs. Each URL is saved as
`images/<artist>/<i>.jpg`, where `i` counts from 1 within its artist.

The program has three parts, and this project models all three:

- `download_url` makes up to `RETRIES = 3` attempts at a URL. After failed
  attempt *k* it sleeps `BACKOFF * k` seconds. A successful attempt streams
  the body into the output file, skipping empty chunks.
- `ensure_images` walks the catalogue. For each URL it calls `download_url`.
  When that returns False, it calls `download_url` again with the
  placeholder URL, on the same path. It appends one `(artist, i, status)`
  tuple per URL to the summary.
- The `__main__` report folds the summary into a status → count
  dictionary. It prints the counts of "ok", "placeholder" and "missing",
  with an absent status read as 0.

## How the model is built

- **The network is an oracle.** `Fetch.Net` gives the reply to attempt *k*
  at a URL:
  - `NoResponse` means the request raised.
  - `Response(status, chunks, complete)` is an HTTP reply.
  - `raise_for_status` fails statuses 400-599.
  - When `complete` is false, the stream raises after the listed chunks
    have been written.
- **The effects of a run form a `World`.** A `World` holds three things:
  - the file store, a map from `Path` to bytes;
  - the log of requested sleep durations;
  - the log of requests issued.
- **The specification functions** say what a run does:
  - `Fetch.Download` is one `download_url` call.
  - `Orchestrate.Resolve` is one item of `ensure_images`.
  - `Orchestrate.RunItems` is a whole run over `Orchestrate.Items(catalog)`.
- **The program itself is `Engine.Downloader`.** It is a class with:
  - the file store as a field;
  - the sleep and request logs as ghost fields;
  - one method per loop of `download_url` and `ensure_images`: the chunk
    loop, the attempt loop, the URL loop and the artist loop;
  - the `__main__` report as a method that runs `ensure_images` and then
    calls `Report.CountStatuses`, a method with the counting loop that sits
    outside the class because it touches no field.

  Each method is proved to produce exactly what the specification functions
  give. The lemmas in `Fetch`, `Orchestrate` and `Report` state what the
  source promises about those functions.

**Policy.** `Orchestrate.Policy` chooses how a failed fallback is recorded.
`AsWritten` is the code as it stands. `Checked` is the corrected behaviour
described under Findings.

**Behaviour of the code that the model keeps:**

- The code sleeps after the final failed attempt too.
- It records "placeholder" even when the placeholder download fails.
- It fails an attempt only on a 4xx or 5xx status. Any other status passes
  the check.

## Model

| member | source | states |
|---|---|---|
| Store.Path.Name | download_art.py:88-93 | The output path of item `i` of an artist is `images/`, then the artist's folder, then `/`, then digits that read back to `i`, then `.jpg`. |
| Store.DecimalRoundTrip | download_art.py:93 | The decimal text of the index in the file name reads back to the index. |
| Store.NameIdentifiesPath | download_art.py:88-93 | Under `Name`, two images get the same file name only when they have the same artist and the same index. |
| Store.Join | download_art.py:88-93 | `os.path.join` of two parts on POSIX: a part that starts with `/` replaces the path. Otherwise the result starts with the path and ends with the part. One `/` is added between them exactly when the path is non-empty and does not already end in `/`. |
| Store.JoinMatchesName | download_art.py:88-93 | For an artist that is a folder name (non-empty, no slash), joining `images`, the artist and `<i>.jpg` as lines 88 and 93 do gives exactly `Name`. |
| Store.TrailingSlashCollides | download_art.py:88-93 | The distinct artists "a" and "a/" both join to `images/a/1.jpg`. This is why artists are required to be folder names. |
| Fetch.WrittenIsConcat | download_art.py:76-78 | Writing the chunks while skipping empty ones leaves the in-order concatenation of all the chunks. |
| Fetch.FirstSuccess | download_art.py:70-79 | Gives the first attempt, from a starting one, whose request, status check and full write succeed. Every earlier attempt fails. |
| Fetch.DownloadFromLogs | download_art.py:70-83 | From any attempt on, a download succeeds exactly when some remaining attempt succeeds. It requests attempts up to and including the first success, or all of them, and sleeps BACKOFF·k after each failed attempt k. |
| Fetch.DownloadStopsAtFirstSuccess | download_art.py:69-83 | `download_url` requests attempts 1, 2, … in order, at most 3 of them. It returns True iff an attempt succeeds, and stops at the first success. It returns False only after exactly 3 failed attempts. |
| Fetch.DownloadBackoff | download_art.py:65-82 | After failed attempt k the sleep is 2·k, so the sleeps strictly increase. A failed download sleeps 2, 4 and 6 seconds, 12 in total; a successful one sleeps only after its earlier failed attempts. |
| Fetch.DownloadFromFiles | download_art.py:72-82 | No path other than the output path is touched. On success the file holds the first successful body. If no attempt passes the status check, no file changes. A broken last attempt leaves its partial body. |
| Fetch.DownloadSavesBody | download_art.py:72-79 | `download_url` writes no file other than its output path. When it returns True, that file holds the whole body of the first successful attempt. |
| Fetch.DownloadUnopenedKeepsFiles | download_art.py:72-75 | A failed status check or a missing reply fails the attempt before the file is opened. When every attempt fails that way, no file changes. |
| Fetch.DownloadLeavesPartialFile | download_art.py:75-83 | When the last attempt passes the status check but its stream breaks, `download_url` returns False and the output file keeps the bytes written before the break. |
| Orchestrate.ResolveItem | download_art.py:93-107 | The status is "ok" iff the primary download succeeds. Otherwise it is "placeholder" as written; under Checked it is "missing" when the placeholder also fails. Only the item's own path is written. It ends with the primary body, else the placeholder body when that was delivered. |
| Orchestrate.RunSummary | download_art.py:92-108 | A run records exactly one entry per item, in item order, carrying the item's artist, index and status. |
| Orchestrate.ItemsLength | download_art.py:87-92 | A catalogue has as many items as it has URLs in all. |
| Orchestrate.ItemsBlock | download_art.py:87-108 | The items of artist a come right after those of the artists before it. Its URL k gets index k + 1. |
| Orchestrate.ItemsOfCatalog | download_art.py:87-108 | The items are the artists' blocks in catalogue order, with indices 1, 2, … within each artist. |
| Orchestrate.SummaryFollowsCatalog | download_art.py:85-109 | The summary has one entry per catalogue URL, so its length is the sum of the list lengths. Artist a's block follows the blocks before it and holds (artist, k + 1, status of URL k). |
| Orchestrate.NeverMissing | download_art.py:99-105 | As written, no entry is "missing". |
| Orchestrate.FinalFiles | download_art.py:92-107 | With distinct paths, each item's file ends with its primary body when delivered, else the placeholder body when that was delivered. |
| Orchestrate.RunWritesOnlyItemPaths | download_art.py:92-107 | A run leaves every path that is not an item's path as it was. |
| Orchestrate.ItemsHaveCatalogArtists | download_art.py:87-93 | Every item's artist is one of the catalogue's artists. |
| Orchestrate.CatalogPathsDistinct | download_art.py:87-93 | Distinct artist folder names give every catalogue URL its own output path. |
| Orchestrate.CatalogFileNamesDistinct | download_art.py:87-93 | Distinct artist folder names give every catalogue URL its own file-name text. On a file system that compares names exactly, no two URLs of a run write the same file. |
| Orchestrate.FallbackUnusedWhenAllDelivered | download_art.py:95-107 | When every primary URL is delivered and none of them is the placeholder URL itself, every entry is "ok" and the placeholder URL is never requested. |
| Orchestrate.NothingOpenedNothingWritten | download_art.py:95-100 | When no reply to a primary URL or to the placeholder passes the status check, the run writes no file. |
| Orchestrate.PlaceholderRecordedWithoutPlaceholder | download_art.py:99-105 | As written, an artwork whose primary and placeholder downloads both fail is recorded "placeholder" and no file is saved. Checked records "missing". |
| Orchestrate.CheckedEntriesMatchFiles | download_art.py:95-107 | For a catalogue of distinct artist folder names, under Checked, "ok" means the artwork body is on disk and "placeholder" means the placeholder body is. "missing" holds iff neither was delivered. |
| Orchestrate.RerunSameOutcome | download_art.py:85-109 | Running the catalogue again on the same network, from the files the first run left, records the same summary. After either run, every item's file holds the outcome its downloads earn. |
| Orchestrate.ExampleRun | download_art.py:85-109 | With the catalogue {"a": [u1, u2], "b": [u3]} where u2 never answers: a/1 is ok, a/2 is placeholder, b/1 is ok, and the three files hold those bodies. |
| Report.CountStatuses | download_art.py:115-118 | After the fold, each status's count is its number of summary tuples, and a status is a key iff its count is positive. |
| Report.OccurrencesPositive | download_art.py:115-118 | A status's count is positive iff some summary tuple carries it, so `setdefault` creates exactly the statuses that occur. |
| Report.OccurrencesIsMultiplicity | download_art.py:115-118 | A status's count is its multiplicity among the tuples' statuses. |
| Report.CountsPartition | download_art.py:119-121 | The three printed counts add up to the number of tuples. |
| Report.AbsentStatusCountsZero | download_art.py:119-121 | A status that no tuple carries prints as 0. |
| Engine.Downloader.WriteBody | download_art.py:75-78 | The output file is truncated, then every non-empty chunk is appended in order. No other file changes. |
| Engine.Downloader.DownloadUrl | download_art.py:69-83 | The result and the new files, sleeps and requests are those of `Fetch.Download` from the old state. |
| Engine.Downloader.ResolveItem | download_art.py:93-107 | The entry and the new state are those of `Orchestrate.Resolve` for the item from the old state. |
| Engine.Downloader.DownloadArtist | download_art.py:91-108 | The inner loop extends the run by the artist's items, with indices 1, 2, … |
| Engine.Downloader.EnsureImages | download_art.py:85-109 | The summary and the new state are those of `Orchestrate.RunItems` over the catalogue's items. |
| Engine.Downloader.DownloadAndReport | download_art.py:111-121 | The three counts are the status counts of the run's summary. They add up to the number of catalogue URLs, and as written "missing" is 0. |

## Left out

- HTTP itself: `requests.get`, the User-Agent header, the 30-second timeout and the 8192-byte chunk size. They are replaced by the reply oracle, which is fixed per URL and attempt number.
- The oracle gives the same replies to every placeholder download in a run. So under `Checked`, whether the placeholder fails (and so whether an item is "missing") is the same for every item of the run. The real placeholder URL serves a fresh random image on each call, and its failures could differ from item to item.
- Store.Path.Name: artists are assumed to be folder names (non-empty, no slash), as every artist of the program's catalogue is. For other names `os.path.join` merges or drops separators, two dictionary keys can share one file (`TrailingSlashCollides`), and the file store keyed by (artist, index) would keep apart files the program merges. The catalogue lemmas therefore require `ArtistFolders`. The file store is a POSIX file system that compares names exactly (case-sensitive). On a case-insensitive file system (the macOS default, or Windows), the artists "Monet" and "monet" share one folder. On Windows, `\` is a separator too, so "a\\" shares "a"'s file. In both cases a later item overwrites an earlier one's file, which the model does not capture.
- `os.makedirs` for the output root and the artist folders: directories are not modelled, and a path is its artist and index.
- Failures of `open` or `write` other than a stream that breaks off. Such a failure fails its attempt like a broken stream would.
- Wall-clock time: `time.sleep` becomes an entry in the ghost sleep log.
- The literal 30-URL catalogue: the catalogue is a parameter, a sequence of (artist, URLs) pairs in dictionary order.
- All console output (`print`).
- Interrupts outside `Exception`, such as KeyboardInterrupt: they would stop the run, and the model has no such path.
- Idempotence of a re-run for the file store as a whole: `RerunSameOutcome` shows a second run records the same summary and leaves every delivered body in place. No lemma states that the two runs leave identical file stores, for example the partial files of broken downloads.

## Findings

| source | as written | input that shows it | evidently intended | confidence | as-written member | corrected member |
|---|---|---|---|---|---|---|
| download_art.py:99-105 | The placeholder call's False result is ignored, so "placeholder" is recorded even when the placeholder download fails. `download_url` catches every `Exception`, so the "missing" branch is dead. | A one-URL catalogue on a network where no request is answered: the summary is [("van-gogh", 1, "placeholder")] and no file is saved. | Record "missing" when the placeholder download also returns False, so the status says what is on disk. | not executed | Orchestrate.PlaceholderRecordedWithoutPlaceholder | Orchestrate.CheckedEntriesMatchFiles |
