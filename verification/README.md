# DICOM catalog engine — a Dafny model

This project models the catalog engine of the BlueLight DICOM viewer's index
sidebar. The engine exists twice:

- the browser indexer (`bluelight/scripts/indexer.js`) crawls directory
  listings, reads each file's header, and builds a Patient → Study → Series →
  Instance catalog. It caches the catalog by base path, can take a
  prebuilt index or manifest from the server, and lazily upgrades one patient
  at a time from its per-patient shard;
- the Node command-line builder (`tools/build-dicom-index.js`) walks a
  directory tree, parses every file it finds (a Part 10 prefix test is
  defined but never called), builds the same catalog with an instance count, and can split it into a `manifest.json` plus one
  `patients/<id>.json` shard per patient.

The model is purely functional. JavaScript objects are insertion-ordered
association lists (`Assoc`):

- assignment replaces an existing key in place or appends a new one;
- lookup returns the first match.

All I/O is a parameter:

- the web server is a finite map from URL to listing page;
- `parseDicom` with `ds.string`/`ds.intString` is a tag table whose accessors
  may throw or answer a falsy value;
- `fetch` is a function from URL (and `If-None-Match` value) to a reply record;
- `localStorage` is a map from base to cached index, plus a map of ETags;
- `encodeURIComponent`, `new URL(...)`, `path.*` and `Date.now()` are function
  parameters or plain values.

Modules, in dependency order:

- `Wrappers`, `Strings`, `Assoc`: Option/Result, the JavaScript string
  operations used, and ordered dictionaries.
- `Hierarchy`: records and catalog nodes.
- `Header`: `getTag`/`getInt`, `readMeta` and the record filter.
- `Catalog`: grouping (first record wins), the catalog invariants and the
  instance totals.
- `InstanceOrder`: the stable sort by instance number.
- `Discovery`: `listDirectory` link classification, `isDicomLike` and the
  breadth-first `crawl`.
- `FsWalk`: the Node tree walk and `isLikelyDicom`.
- `Builder`: the Node CLI — `parseArgs`, `toUrl`, `buildIndex`, the
  manifest/shard split and `main`.
- `BrowserIndex`: the browser's `buildIndex`, and agreement with the Node
  builder.
- `IndexCache`: the cache, base normalisation, `fetchServerIndex`,
  `fetchManifest`, and the partial index built from a manifest.
- `LazyLoad`: `ensurePatientLoaded`.
- `RoundTrip`: the Node split read back by the browser.
- `Collapse`: `setAllCollapsed`.
- `Summary`: the header counts and the static/cine split made during render.

Where the code and a plain reading of it differ, the model follows the code.
Node's `buf.toString('ascii', 128, 132)` clears each byte's high bit before
the comparison with `"DICM"`. `FsWalk.IsLikelyDicom` therefore compares
`byte % 128`, and `FsWalk.HighBitAccepted` exhibits a buffer accepted although
its bytes are not the four ASCII letters. `isDicomLike` is applied to whole
URLs, so a `.` anywhere in the URL rejects an extensionless file. The model
keeps this behaviour (`Discovery.DottedUrlRejectsExtensionless`).

The shard files are served by a static file server, which percent-decodes
the request path before it looks up the file (`LazyLoad.Serve`, with the
decoding as a parameter `decode` that undoes `encode`). The model keeps two
browsers: `AsWritten`, the code's, and `Corrected`, which fixes the two
defects listed under "## Findings".

## Model

| member | source | states |
|---|---|---|
| Discovery.Target | bluelight/scripts/indexer.js:39-42 | A link yields a URL iff it is not empty, `?…`, `#…` or `../`, it resolves to a non-empty URL, and that URL passes `sameBase`; the URL yielded is the resolved one |
| Discovery.Classify | bluelight/scripts/indexer.js:38-46 | Every listed dir and file passes `sameBase` and comes from a kept link. A dir is one whose link or URL ends in `/`, a file one where neither does. Every kept link lands in exactly the matching list |
| Discovery.ClassifyAppend | bluelight/scripts/indexer.js:38-46 | The lists keep page order and multiplicity: the listing of two runs of links is the listing of the first run followed by that of the second |
| Discovery.ClassifyOne | bluelight/scripts/indexer.js:43-45 | A single link contributes its target to the dirs, to the files, or to neither, by the trailing-`/` test |
| Discovery.IsDicomLike | bluelight/scripts/indexer.js:49-55 | True iff the lower-cased name ends in `.dcm` or `.mht`, or the name contains no `.` |
| Discovery.DottedUrlRejectsExtensionless | bluelight/scripts/indexer.js:68 | An extensionless file name is accepted on its own but rejected once the whole URL, which contains a `.`, is tested |
| Discovery.HarvestDicomLike | bluelight/scripts/indexer.js:68 | Every file the listings contribute passes `isDicomLike` |
| Discovery.FoundByListing | bluelight/scripts/indexer.js:66-67 | A directory is found iff one of the listings so far reported it |
| Discovery.Crawl | bluelight/scripts/indexer.js:57-74 | No URL is listed twice, and each listed URL after the start was found by an earlier listing. The result is the accepted files of each listing in order. Nothing is listed once the limit is reached, so only the last listing can overshoot it. Below the limit, every found directory was listed |
| Discovery.CrawlStep | bluelight/scripts/indexer.js:62-71 | One turn: a seen URL is dropped with nothing else changed. Otherwise it is listed, its unseen dirs are queued and its accepted files appended. The crawl invariants are kept, and either the unseen part of the finite URL universe or the queue shrinks |
| FsWalk.WalkExact | tools/build-dicom-index.js:27-36 | A path is returned iff it leads through visible directories to a visible non-directory entry |
| FsWalk.RefusedExact | tools/build-dicom-index.js:27-36 | The directories on which `readdirSync` throws during the walk are exactly the sealed ones reached through visible directories, themselves visible; a hidden one, or one inside a hidden directory, is never listed |
| FsWalk.WalkNoHidden | tools/build-dicom-index.js:30-32 | Every returned path is non-empty and none of its components starts with `.`, so hidden entries are skipped and hidden directories never entered |
| FsWalk.IsLikelyDicom | tools/build-dicom-index.js:38-41 | False for a missing buffer or one under 132 bytes. Otherwise true iff bytes 128..131, with the high bit cleared as `'ascii'` decoding does, spell `DICM`. The builder defines this test but never calls it: `buildIndex` parses every file |
| FsWalk.Part10Recognised | tools/build-dicom-index.js:40 | A buffer with the Part 10 prefix `DICM` at offset 128 is recognised |
| FsWalk.ShortRejected | tools/build-dicom-index.js:39 | A buffer shorter than preamble plus prefix is rejected |
| FsWalk.HighBitAccepted | tools/build-dicom-index.js:40 | The bytes C4 C9 C3 CD at offset 128 are accepted, though they differ from `DICM` |
| Header.GetTag | bluelight/scripts/indexer.js:76 | `''` iff the accessor throws or answers a falsy value, otherwise the accessor's string (the Node `get` is identical) |
| Header.GetInt | bluelight/scripts/indexer.js:77 | `0` iff the accessor throws or answers a falsy value, otherwise the accessor's integer (the Node `getInt` is identical) |
| Header.ReadMeta | bluelight/scripts/indexer.js:79-99 | A failed fetch or parse gives an error result, and only then. Otherwise the record holds the URL, each text field as `getTag` reads its tag (patient id and name, the three UIDs, study date, study and series descriptions) and each number as `getInt` reads it (instance number, number of frames) |
| Header.KeptRecords | bluelight/scripts/indexer.js:103-109 | A record is kept iff it has no error and non-empty study, series and SOP UIDs, in read order and never more records than reads |
| Catalog.GroupPatient | bluelight/scripts/indexer.js:113 | A patient node exists iff some kept record names it, and its name is that of the first such record |
| Catalog.GroupStudy | bluelight/scripts/indexer.js:114 | A study node exists iff some record names that patient and study, and its date and description come from the first such record |
| Catalog.GroupSeries | bluelight/scripts/indexer.js:115-116 | A series node exists iff some record names it. Its description comes from the first such record, and its instances are those of all its records in order, SOP duplicates included |
| Catalog.GroupTotal | bluelight/scripts/indexer.js:112-117 | Every kept record becomes exactly one instance |
| Catalog.GroupWellFormed | bluelight/scripts/indexer.js:111-117 | Upserting never duplicates a key at any level, and every node is stored under its own identifier |
| Catalog.SortAllAt | bluelight/scripts/indexer.js:118-127 | The sort pass changes nothing but the order of each series' instances |
| Catalog.SortAllKeepsTotal | bluelight/scripts/indexer.js:118-127 | Sorting keeps the instance total |
| Catalog.CatalogSeries | bluelight/scripts/indexer.js:111-127 | Each series of the finished catalog is the stable sort of exactly its records' instances |
| Catalog.CatalogFirstWins | bluelight/scripts/indexer.js:112-116 | Patient, study and series attributes of the finished catalog come from the first record for that node |
| Catalog.CatalogShape | tools/build-dicom-index.js:51-88 | The finished catalog holds one instance per kept record and is well formed |
| InstanceOrder.SortByInstNum | bluelight/scripts/indexer.js:124 | The result is non-decreasing by instance number and is a permutation of the input |
| InstanceOrder.SortStable | bluelight/scripts/indexer.js:124 | Instances sharing a number keep their input order |
| InstanceOrder.SortSorted | tools/build-dicom-index.js:84 | Sorting an already sorted series changes nothing |
| BrowserIndex.CollectMeta | bluelight/scripts/indexer.js:102-109 | The first loop collects exactly the kept records of the URLs in order |
| BrowserIndex.GroupMeta | bluelight/scripts/indexer.js:111-117 | The second loop yields the grouping of the kept records, with one instance per record |
| BrowserIndex.BuildIndex | bluelight/scripts/indexer.js:101-129 | The index is the sorted grouping of the kept records with the given time and base. It is well formed, and its instance total is the number of kept records, at most the number of URLs |
| BrowserIndex.IndexersAgree | tools/build-dicom-index.js:51-89 | When the browser fetches at each file's URL what the builder reads from that file, both indexers build the same catalog |
| Builder.ParseArgs | tools/build-dicom-index.js:10-25 | The index loop, which skips a flag's value, agrees with the reference reading of the arguments as a list of settings |
| Builder.LastOccurrenceWins | tools/build-dicom-index.js:13-19 | Each option keeps its default unless its flag appears, and then the last occurrence wins |
| Builder.UnknownIgnored | tools/build-dicom-index.js:13-19 | An argument that is not a flag, at any position where no flag waits for its value, can be removed without changing the parsed options |
| Builder.ConfigureShape | tools/build-dicom-index.js:12-20 | A successful parse has a base ending in `/`, and `/dicoms/` unless `--base` is given. With none of `--dir`, `--base`, `--out`, the options are the defaults, and there is a split directory only when `--splitDir` gives a non-empty one |
| Builder.ToUrl | tools/build-dicom-index.js:46-49 | The URL starts with `base` |
| Builder.ToUrlComponents | tools/build-dicom-index.js:47 | Splitting the part after `base` on `/` gives back the encoded path components, since the encoding escapes `/` |
| Builder.GroupReads | tools/build-dicom-index.js:54-79 | Files that fail to parse or lack a UID contribute nothing. Kept records are grouped in order, and `count` is the number of kept records |
| Builder.BuildIndex | tools/build-dicom-index.js:51-89 | The index is the catalog of the kept records, and `count` equals its total instances and is at most the number of files |
| Builder.SplitIndex | tools/build-dicom-index.js:107-114 | The manifest carries the index's base and time. It has one entry per patient key, in key order, with that patient's id and name, plus one shard per patient named by its encoded key |
| Builder.SplitFaithful | tools/build-dicom-index.js:107-114 | For a well-formed catalog, a patient is in the index iff the manifest lists it, and its shard holds exactly its studies |
| Builder.ShardNamesDistinct | tools/build-dicom-index.js:111 | Distinct patient keys give distinct shard file names when the encoding is injective |
| Builder.Run | tools/build-dicom-index.js:91-120 | An error iff `--dir` names nothing, names something that is not a listable directory (a regular file, a sealed directory), or the walk reaches a visible sealed directory. Otherwise the index is the catalog of the walked files with the configured base and the given time, the count is its instance total, and a split is made iff a split directory is given |
| IndexCache.LoadCache | bluelight/scripts/indexer.js:132 | The cached index under the base, or nothing when none is stored |
| IndexCache.SaveCache | bluelight/scripts/indexer.js:131 | The index is stored under its own base, and every other base is unchanged |
| IndexCache.NormaliseBase | bluelight/scripts/indexer.js:398-400 | The result starts and ends with `/`. The empty base becomes `/dicoms/`, an already normalised base is unchanged, and any other base gains only the `/` it lacks at its start and at its end |
| IndexCache.NormaliseIdempotent | bluelight/scripts/indexer.js:398-400 | Normalising twice is normalising once |
| IndexCache.Judge | bluelight/scripts/indexer.js:413-428 | A 304 returns the cached index iff one exists. An OK reply is returned iff its content type is empty or mentions `application/json` and its body parses to a value whose `patients` is truthy: an index, a manifest, or a stray value such as `{"patients": 1}`, returned as it is. Everything else is skipped |
| IndexCache.EtagAfter | bluelight/scripts/indexer.js:426-427 | The ETag of a parsed reply is remembered for its URL, and nothing else changes |
| IndexCache.EtagsElsewhere | bluelight/scripts/indexer.js:408-430 | ETags of URLs that are not candidates are never touched |
| IndexCache.FetchServerIndex | bluelight/scripts/indexer.js:397-435 | The result is the document of the first candidate whose reply is returned, with all earlier ones skipped, or nothing if every one is skipped. A result always has a truthy `patients`, though it need not be an index. The remembered ETags are those recorded by every candidate fetched, up to and including the one returned, each parsed reply recording its own; ETags of other URLs are unchanged |
| IndexCache.FetchManifest | bluelight/scripts/indexer.js:437-461 | The result is the document of the first acceptable candidate reply, or nothing; like the index fetch it accepts any value with a truthy `patients`. It has no 304 shortcut and no ETag |
| IndexCache.Stubs | bluelight/scripts/indexer.js:529 | A stub exists iff some manifest entry has that id. It has that id and an entry's name, no studies, and is not loaded |
| IndexCache.StubsLast | bluelight/scripts/indexer.js:529 | An identifier repeated in the manifest gets the stub of its last entry, since each assignment overwrites the previous one |
| IndexCache.PartialFromManifest | bluelight/scripts/indexer.js:528-529 | `createdAt` and `base` fall back to the clock and the configured base when missing, and the patients are exactly the manifest's ids |
| LazyLoad.ShardDir | bluelight/scripts/indexer.js:359 | The shard directory is the base with at most one character added, ends in `/`, and is the base itself when that already ends in `/` |
| LazyLoad.FirstShard | bluelight/scripts/indexer.js:362-376 | The body of the first candidate whose reply is OK and accepted, with all earlier ones refused, or nothing iff every candidate is refused |
| LazyLoad.LoadPatient | bluelight/scripts/indexer.js:351-377 | No change when nothing is cached, the patient is absent or already loaded, or no shard is taken. Otherwise the index is saved under its own base with the same keys and time, the patient gets the shard's studies (`{}` if absent) and is marked loaded, and every other patient is untouched |
| LazyLoad.LoadIdempotent | bluelight/scripts/indexer.js:354-355 | When the index is saved back under the base it was read from, a second call changes nothing |
| LazyLoad.Serve | tools/build-dicom-index.js:111-113 | A server that percent-decodes the request path below `patients/` answers only with the contents of one of the shard files |
| LazyLoad.ServeFinds | tools/build-dicom-index.js:111-113 | With distinct file names, a request below `patients/` whose decoded rest is a shard's file name is answered with that shard |
| RoundTrip.StubsMirror | bluelight/scripts/indexer.js:529 | The stubs built from the Node manifest have the catalog's keys in the catalog's order, each patient reduced to its stub |
| RoundTrip.StartPartway | bluelight/scripts/indexer.js:528-529 | The partial index read from the manifest is the catalog with no patient loaded, stored under the catalog's base |
| RoundTrip.ShardServed | bluelight/scripts/indexer.js:357-367 | For the corrected browser, or for a key that is non-empty and left unchanged by the encoding, the decoding server answers the patient's first candidate URL with that patient's own shard, and the loop takes it |
| RoundTrip.RequestNamesFile | bluelight/scripts/indexer.js:357-359 | The decoded first request names the file the builder wrote (`encode(pid) + ".json"`): always for the corrected request, and for the as-written one when the encoding leaves the key unchanged |
| RoundTrip.LoadRest | bluelight/scripts/indexer.js:362-373 | When every remaining patient's shard is served, loading the rest in key order finishes the upgrade |
| RoundTrip.ShardRoundTrip | bluelight/scripts/indexer.js:351-377 | Loading every patient into the partial index built from the manifest, from a decoding server, gives back the full patient map in the same key order, each patient marked loaded. It holds for the corrected browser, and for the browser as written when no key is empty or changed by the encoding |
| RoundTrip.RefusedAsWritten | bluelight/scripts/indexer.js:367 | A server whose shards all have an empty `patientId` is refused at every candidate by the source's test |
| RoundTrip.EmptyIdNeverLoads | bluelight/scripts/indexer.js:367 | Under the source's test, the patient with an empty id stays a stub without its study, although its shard is served |
| RoundTrip.UntakenStaysStub | bluelight/scripts/indexer.js:362-377 | When no candidate reply is taken, the patient keeps the stub the manifest gave it |
| RoundTrip.MissedAsWritten | bluelight/scripts/indexer.js:357-360 | For a key the encoding changes, the decoding server answers 404 to both as-written requests, since neither decoded path names the file the builder wrote |
| RoundTrip.EncodedIdNeverLoads | bluelight/scripts/indexer.js:357-367 | As written, a patient whose key the encoding changes (such as `John Doe`) stays a stub without its study, although its shard file exists |
| Collapse.PutAll | bluelight/scripts/indexer.js:601 | Each listed key is set to the flag, and every other key keeps its value |
| Collapse.SetAllCollapsed | bluelight/scripts/indexer.js:594-608 | No state without a cache. Otherwise a patient key is set to the flag iff it is a cached patient, a study key iff it is `pid + "|" + studyUID` for a cached patient and study, and nothing else is set |
| Collapse.RenderSeesFlag | bluelight/scripts/indexer.js:218 | After the call, every patient and study that the render draws from the cached index reads as the flag |
| Summary.StudyCounts | bluelight/scripts/indexer.js:271-273 | The study header shows its number of series and the instances over all of them |
| Summary.PatientCounts | bluelight/scripts/indexer.js:176-183 | The patient header shows its number of studies, the series over all studies, and the instances over all series |
| Summary.Frames | bluelight/scripts/indexer.js:318-319 | An instance is in the static half iff it is in the series with at most one frame, and in the cine half iff it has more than one frame |
| Summary.SplitPartition | bluelight/scripts/indexer.js:318-319 | The two halves together hold each instance exactly as often as the series does |
| Summary.FramesSorted | bluelight/scripts/indexer.js:318-319 | A series sorted by instance number stays sorted in both halves |
| Summary.FramesAppend | bluelight/scripts/indexer.js:318-319 | Each half keeps the series order: the halves of two consecutive runs of instances are the halves of each run, concatenated |

## Left out

- Property order of integer-like keys: JavaScript enumerates such keys first, in ascending order, and `Assoc` keeps plain insertion order.
- Inherited property names as identifiers: a patient id, study UID or series UID equal to `__proto__` or to any name inherited from `Object.prototype` (`constructor`, `toString`, `valueOf`, `hasOwnProperty`, ...) finds a truthy value in the plain object, and the next `.studies[...]`, `.series[...]` or `.instances.push` throws a `TypeError`. The model groups such a record like any other.
- BrowserIndex.IndexersAgree: holds only for records without such inherited names. With one, the browser's grouping (bluelight/scripts/indexer.js:112-117) throws and the whole build fails, while the Node loop's `catch` (tools/build-dicom-index.js:78) drops that record without counting it, so the two indexers diverge.
- `toLowerCase` beyond ASCII: `Strings.Lower` folds only `A`–`Z`, so non-ASCII case mappings are not modelled.
- `new URL(...)`, `path.join`, `path.relative` and `encodeURIComponent` are parameters, and `location.origin` is folded into the `toAbs` and `resolve` parameters, so their own behaviour is not modelled. `path.resolve` is dropped: `Builder.Configure` keeps `--dir`, `--out` and `--splitDir` as given. `encodeURIComponent` throwing `URIError` on lone surrogates is not modelled.
- `walk` returns paths as component lists relative to the root, instead of joined absolute paths.
- Concurrency and time: the `async` structure, `AbortController` and timeouts are not modelled. A timed-out fetch is a `NetworkError` reply.
- The DOM: element construction, styling, `filterIndex`, highlights, drawer and sidebar wiring, and `loadSeries` with its `setTimeout` staggering. Only the header counts, the static/cine split and the collapse-state construction are modelled.
- `bluelight/scripts/tools/measure.js`: UI event handling and floating-point geometry.
- `pushStudy` SOP de-duplication and the `haveSameInstanceNumber` flag: `patient.js` and `toolfunction.js` are not part of this model.
- The start-up composition and `runIndex` are not modelled as operations. Their pieces are: fetch the server index, else the manifest and the partial index, else nothing; then `crawl`, `buildIndex` and `saveCache`.
- JavaScript numbers: instance numbers and frame counts are unbounded integers. A `NaN` from `intString` is falsy, so `getInt` turns it into `0`; `Header.Probe.Missing` covers it. Fractions and `Infinity` are not modelled.
- A `manifest.json` whose `patients` is an object, not an array, makes the `for..of` of start-up throw. The partial index is built only from a manifest document.
- IndexCache.FetchServerIndex: a manifest-shaped document, or a stray value such as `{"patients": 1}`, served as `index.json` is returned as is, because its `patients` is truthy. What start-up then renders from a stray value is not modelled. The cache holds only full indexes, so saving such a document at start-up is not modelled.
- Exceptions thrown by `localStorage` when reading or writing ETags or the cache are not modelled. The stores are plain maps, and the `bl_index:` and `bl_index_etag:` key prefixes are left implicit.
- LazyLoad.LoadIdempotent: requires the cached index to sit under its own base. When it does not, the source saves the upgrade under a different key and a second call repeats the fetch.
- RoundTrip.ShardRoundTrip: requires an injective encoding, a decoding that undoes it, a non-empty index base, the configured base equal to the index's base, and either the corrected browser or keys that are non-empty and unchanged by the encoding. The server is a plain static server that percent-decodes request paths. A server that looks files up by the raw path is not modelled; with one, the as-written request would find every shard.
- Builder.Run: the outputs are returned, not written. A failing `writeFileSync` or `mkdirSync`, which would also reject `main`, is not modelled.
- Builder.ShardNamesDistinct: file names are compared case-sensitively. On a case-insensitive file system, keys such as `AB` and `ab` write the same shard file, and the later one wins.

## Findings

| source | as written | input that shows it | evidently intended | confidence | as-written member | corrected member |
|---|---|---|---|---|---|---|
| bluelight/scripts/indexer.js:357-359 | The shard is requested at `patients/` + `encodeURIComponent(pid)` + `.json`, the same text the builder uses as the file name (tools/build-dicom-index.js:111) | Patient key `John Doe`. The builder writes `patients/John%20Doe.json`. The request `…/patients/John%20Doe.json` decodes to `John Doe.json`, so both candidates answer 404 and the patient stays a stub | Request the file the builder wrote: encode its name once more (`John%2520Doe.json`), so that the decoded path is the file name | not executed | RoundTrip.EncodedIdNeverLoads | RoundTrip.ShardRoundTrip |
| bluelight/scripts/indexer.js:367 | A shard is taken only when `pjson.patientId` is truthy | A catalog built from files without a PatientID, whose patient key is `""`: the Node builder writes its shard (`patients/.json`, `patientId: ""`), but the browser refuses it at every candidate, so the patient stays a stub without studies | Take any parsed shard document, so that loading every shard reproduces the full catalog | not executed | RoundTrip.EmptyIdNeverLoads | RoundTrip.ShardRoundTrip |
