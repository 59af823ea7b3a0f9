/** Tree discovery in the browser: classifying the links of one directory
    listing page (`listDirectory`), the file-name heuristic (`isDicomLike`)
    and the breadth-first crawl (`crawl`). The web server is a finite map from
    URL to listing page; URL resolution and parsing are oracles. */
module Discovery {
  import opened Wrappers
  import opened Strings

  /** A fetched listing page: whether the response was OK, its final URL
      (`res.url`, the base for relative links) and the `href` attributes of
      its anchors in document order. */
  datatype Page = Page(ok: bool, url: string, hrefs: seq<string>)

  /** The server and the URL machinery the crawl depends on:
      `pages` answers every URL it holds (any other fetch fails);
      `resolve(base, href)` is `new URL(href, base).toString()`, `None` when it
      throws; `pathOf(url)` is the pathname of `new URL(url, origin)`, `None`
      when it throws. */
  datatype Site = Site(
    pages: map<string, Page>,
    resolve: (string, string) -> Option<string>,
    pathOf: string -> Option<string>)

  datatype Listing = Listing(dirs: seq<string>, files: seq<string>)

  /** `sameBase`: the URL parses and its pathname starts with `base`. */
  predicate SameBase(site: Site, url: string, base: string) {
    site.pathOf(url).Some? && StartsWith(site.pathOf(url).value, base)
  }

  /** Links the listing never follows: empty ones (dropped by the truthiness
      filter), query and fragment links, and the parent link. */
  predicate Ignored(href: string) {
    href == "" || StartsWith(href, "?") || StartsWith(href, "#") || href == "../"
  }

  /** A kept link is a directory when the link or its resolved URL ends in `/`. */
  predicate IsDirEntry(href: string, abs: string) {
    EndsWith(href, "/") || EndsWith(abs, "/")
  }

  /** The absolute URL a link contributes to a listing of page `pageUrl`, or
      `None` when the link is ignored, does not resolve, resolves to an empty
      string, or leaves the base path. */
  function Target(site: Site, pageUrl: string, href: string, base: string): (t: Option<string>)
    ensures t.Some? ==> !Ignored(href) && SameBase(site, t.value, base)
    ensures t.Some? <==>
      && !Ignored(href) && site.resolve(pageUrl, href).Some?
      && site.resolve(pageUrl, href).value != ""
      && SameBase(site, site.resolve(pageUrl, href).value, base)
    ensures t.Some? ==> t.value == site.resolve(pageUrl, href).value
  {
    if Ignored(href) then None
    else match site.resolve(pageUrl, href)
      case None => None
      case Some(abs) => if abs == "" || !SameBase(site, abs, base) then None else Some(abs)
  }

  /** What one link adds in front of the rest of the listing. */
  function Front(site: Site, pageUrl: string, h: string, base: string, rest: Listing): Listing {
    match Target(site, pageUrl, h, base)
    case None => rest
    case Some(abs) =>
      if IsDirEntry(h, abs) then Listing([abs] + rest.dirs, rest.files)
      else Listing(rest.dirs, [abs] + rest.files)
  }

  /** The loop of `listDirectory` over the page's links. */
  function Classify(site: Site, pageUrl: string, hrefs: seq<string>, base: string): (l: Listing)
    ensures |l.dirs| + |l.files| <= |hrefs|
    ensures forall d :: d in l.dirs ==>
      SameBase(site, d, base)
      && exists h :: h in hrefs && Target(site, pageUrl, h, base) == Some(d) && IsDirEntry(h, d)
    ensures forall f :: f in l.files ==>
      SameBase(site, f, base) && !EndsWith(f, "/")
      && exists h :: h in hrefs && Target(site, pageUrl, h, base) == Some(f) && !IsDirEntry(h, f)
    ensures forall h :: h in hrefs && Target(site, pageUrl, h, base).Some? ==>
      var abs := Target(site, pageUrl, h, base).value;
      if IsDirEntry(h, abs) then abs in l.dirs else abs in l.files
  {
    if |hrefs| == 0 then Listing([], [])
    else
      var rest := Classify(site, pageUrl, hrefs[1..], base);
      assert forall h :: h in hrefs[1..] ==> h in hrefs;
      Front(site, pageUrl, hrefs[0], base, rest)
  }

  lemma ClassifyHead(site: Site, pageUrl: string, hs: seq<string>, base: string)
    requires |hs| > 0
    ensures Classify(site, pageUrl, hs, base) == Front(site, pageUrl, hs[0], base, Classify(site, pageUrl, hs[1..], base))
  {
  }

  lemma FrontAppend(site: Site, pageUrl: string, h: string, base: string, r: Listing, ra: Listing, lb: Listing)
    requires r.dirs == ra.dirs + lb.dirs && r.files == ra.files + lb.files
    ensures Front(site, pageUrl, h, base, r).dirs == Front(site, pageUrl, h, base, ra).dirs + lb.dirs
    ensures Front(site, pageUrl, h, base, r).files == Front(site, pageUrl, h, base, ra).files + lb.files
  {
    match Target(site, pageUrl, h, base)
    case None =>
    case Some(abs) =>
      assert [abs] + (ra.dirs + lb.dirs) == ([abs] + ra.dirs) + lb.dirs;
      assert [abs] + (ra.files + lb.files) == ([abs] + ra.files) + lb.files;
  }

  /** The loop keeps page order and multiplicity: the listing of two runs
      of links is the listing of the first followed by that of the second. */
  lemma {:induction false} ClassifyAppend(site: Site, pageUrl: string, a: seq<string>, b: seq<string>, base: string)
    ensures var l, la, lb := Classify(site, pageUrl, a + b, base), Classify(site, pageUrl, a, base),
                             Classify(site, pageUrl, b, base);
      l.dirs == la.dirs + lb.dirs && l.files == la.files + lb.files
  {
    if |a| == 0 {
      assert a + b == b;
    } else {
      var h := a[0];
      assert (a + b)[0] == h && (a + b)[1..] == a[1..] + b;
      ClassifyHead(site, pageUrl, a + b, base);
      ClassifyHead(site, pageUrl, a, base);
      ClassifyAppend(site, pageUrl, a[1..], b, base);
      var r, ra, lb := Classify(site, pageUrl, a[1..] + b, base), Classify(site, pageUrl, a[1..], base),
                       Classify(site, pageUrl, b, base);
      FrontAppend(site, pageUrl, h, base, r, ra, lb);
    }
  }

  /** One link lands at the end of its list, or nowhere when it has no
      target. */
  lemma ClassifyOne(site: Site, pageUrl: string, h: string, base: string)
    ensures var l, t := Classify(site, pageUrl, [h], base), Target(site, pageUrl, h, base);
      && l.dirs == (if t.Some? && IsDirEntry(h, t.value) then [t.value] else [])
      && l.files == (if t.Some? && !IsDirEntry(h, t.value) then [t.value] else [])
  {
    ClassifyHead(site, pageUrl, [h], base);
    assert [h][1..] == [];
  }

  /** `listDirectory(url, base)`: `None` when the fetch fails or answers a
      non-OK status (the function throws). */
  function ListDirectory(site: Site, url: string, base: string): Option<Listing> {
    if url in site.pages && site.pages[url].ok
    then Some(Classify(site, site.pages[url].url, site.pages[url].hrefs, base))
    else None
  }

  /** `isDicomLike`: a `.dcm` or `.mht` suffix in any letter case, or no `.`
      at all. The crawl applies it to the whole absolute URL, so a `.`
      anywhere in the URL (a host name, a directory) excludes extensionless
      files. */
  function IsDicomLike(name: string): (r: bool)
    ensures r <==> EndsWith(Lower(name), ".dcm") || EndsWith(Lower(name), ".mht") || '.' !in name
  {
    var n := Lower(name);
    LowerKeepsDots(name);
    EndsWith(n, ".dcm") || EndsWith(n, ".mht") || '.' !in n
  }

  /** The quirk of applying the heuristic to whole URLs: once the URL holds a
      `.` anywhere (say in the host name), a file is accepted only for its
      `.dcm`/`.mht` suffix, so an extensionless file is rejected although its
      name alone would pass. */
  lemma DottedUrlRejectsExtensionless(url: string, name: string)
    requires '.' in url
    requires EndsWith(url, "/" + name) && '.' !in name && |name| > 0
    ensures IsDicomLike(name)
    ensures !IsDicomLike(url)
  {
    var n := Lower(url);
    var t := "/" + name;
    var m := if |name| >= 3 then 3 else |name|;
    var j := |url| - 1 - m;
    var o := 3 - m;
    assert url[|url| - |t|..] == t;
    assert url[j] == t[j - (|url| - |t|)];
    assert url[j] != '.';
    assert m < 3 ==> url[j] == '/';
    assert n[j] == LowerChar(url[j]);
    assert n[j] != ".dcm"[o] && n[j] != ".mht"[o];
    assert |n| >= 4 ==> n[|n| - 4..][o] == n[j];
  }

  /** The files a listing contributes to the crawl's result. */
  function DicomLike(fs: seq<string>): (r: seq<string>)
    ensures forall f :: f in r <==> f in fs && IsDicomLike(f)
    ensures |r| <= |fs|
  {
    if |fs| == 0 then []
    else (if IsDicomLike(fs[0]) then [fs[0]] else []) + DicomLike(fs[1..])
  }

  /** What the crawl sees of `listDirectory(u, base)`: it depends on the
      listing of each URL and on nothing else. */
  type Lister = string -> Option<Listing>

  function ListerOf(site: Site, base: string): Lister {
    u => ListDirectory(site, u, base)
  }

  function DirsOf(list: Lister, u: string): seq<string> {
    match list(u)
    case None => []
    case Some(l) => l.dirs
  }

  function FilesOf(list: Lister, u: string): seq<string> {
    match list(u)
    case None => []
    case Some(l) => DicomLike(l.files)
  }

  /** The files gathered by listing `us` in order; a failed listing adds none. */
  function Harvest(list: Lister, us: seq<string>): seq<string> {
    if |us| == 0 then []
    else Harvest(list, us[..|us| - 1]) + FilesOf(list, us[|us| - 1])
  }

  lemma {:induction false} HarvestDicomLike(list: Lister, us: seq<string>)
    ensures forall f :: f in Harvest(list, us) ==> IsDicomLike(f)
  {
    if |us| > 0 {
      HarvestDicomLike(list, us[..|us| - 1]);
    }
  }

  /** The directories found by listing `us` in order. */
  function Found(list: Lister, us: seq<string>): seq<string> {
    if |us| == 0 then []
    else Found(list, us[..|us| - 1]) + DirsOf(list, us[|us| - 1])
  }

  /** A directory is found exactly when one of the listings reported it. */
  lemma {:induction false} FoundByListing(list: Lister, us: seq<string>, d: string)
    ensures d in Found(list, us) <==> exists j :: 0 <= j < |us| && d in DirsOf(list, us[j])
  {
    if |us| > 0 {
      var init := us[..|us| - 1];
      FoundByListing(list, init, d);
      assert forall j :: 0 <= j < |init| ==> init[j] == us[j];
    }
  }

  predicate NoDuplicates(s: seq<string>) {
    forall i, j :: 0 <= i < j < |s| ==> s[i] != s[j]
  }

  /** A set of URLs that listing never leads out of. */
  ghost predicate Closed(list: Lister, universe: set<string>) {
    forall u, d :: u in universe && d in DirsOf(list, u) ==> d in universe
  }

  /** Every URL the crawl of a site can ever dequeue: the start and every
      directory of a page the server holds. Any other URL lists as nothing. */
  ghost function Universe(site: Site, start: string, base: string): set<string> {
    {start} + set u, d | u in site.pages.Keys && d in DirsOf(ListerOf(site, base), u) :: d
  }

  lemma UniverseClosed(site: Site, start: string, base: string)
    ensures Closed(ListerOf(site, base), Universe(site, start, base))
  {
    var list, universe := ListerOf(site, base), Universe(site, start, base);
    forall u, d | u in universe && d in DirsOf(list, u)
      ensures d in universe
    {
      assert u in site.pages.Keys;
    }
  }

  /** The loop of `crawl(baseUrl, limit)` against a server. `start` is
      `baseUrl` made absolute against the page origin. Besides the files it
      returns `listed`, the URLs it called `listDirectory` on, in order. */
  method Crawl(site: Site, start: string, base: string, limit: int)
    returns (files: seq<string>, listed: seq<string>)
    ensures limit <= 0 ==> files == [] && listed == []
    ensures limit > 0 ==> |listed| > 0 && listed[0] == start
    // each URL is listed at most once
    ensures NoDuplicates(listed)
    // only the start and directories found by an earlier listing are listed
    ensures forall i :: 0 < i < |listed| ==> listed[i] in Found(ListerOf(site, base), listed[..i])
    // the result is the accepted files of each listing, in listing order
    ensures files == Harvest(ListerOf(site, base), listed)
    ensures forall f :: f in files ==> IsDicomLike(f)
    // nothing is listed once the limit is reached, so only the last listing overshoots it
    ensures forall i :: 0 <= i < |listed| ==> |Harvest(ListerOf(site, base), listed[..i])| < limit
    // below the limit the crawl is complete: every directory found was listed
    ensures |files| < limit ==> forall d :: d in Found(ListerOf(site, base), listed) ==> d in listed
  {
    UniverseClosed(site, start, base);
    files, listed := CrawlWith(ListerOf(site, base), Universe(site, start, base), start, limit);
  }

  /** The crawl loop over any listing that stays inside a finite set of URLs. */
  method CrawlWith(list: Lister, ghost universe: set<string>, start: string, limit: int)
    returns (files: seq<string>, listed: seq<string>)
    requires start in universe && Closed(list, universe)
    ensures limit <= 0 ==> files == [] && listed == []
    ensures limit > 0 ==> |listed| > 0 && listed[0] == start
    ensures NoDuplicates(listed)
    ensures forall i :: 0 < i < |listed| ==> listed[i] in Found(list, listed[..i])
    ensures files == Harvest(list, listed)
    ensures forall f :: f in files ==> IsDicomLike(f)
    ensures forall i :: 0 <= i < |listed| ==> |Harvest(list, listed[..i])| < limit
    ensures |files| < limit ==> forall d :: d in Found(list, listed) ==> d in listed
  {
    var queue := [start];
    var seen: set<string> := {};
    files := [];
    listed := [];
    while |queue| > 0 && |files| < limit
      invariant ListedOk(list, start, limit, seen, files, listed)
      invariant QueueOk(list, universe, start, queue, seen, listed)
      decreases |universe - seen|, |queue|
    {
      queue, seen, files, listed := CrawlStep(list, universe, start, limit, queue, seen, files, listed);
    }
    HarvestDicomLike(list, listed);
  }

  /** One turn of the crawl loop: dequeue a URL and, unless already seen,
      list it, enqueue its unseen directories and keep its DICOM-like files. */
  method CrawlStep(list: Lister, ghost universe: set<string>, start: string, limit: int,
                   queue: seq<string>, seen: set<string>, files: seq<string>, listed: seq<string>)
    returns (queue': seq<string>, seen': set<string>, files': seq<string>, listed': seq<string>)
    requires ListedOk(list, start, limit, seen, files, listed)
    requires QueueOk(list, universe, start, queue, seen, listed)
    requires |queue| > 0 && |files| < limit
    ensures ListedOk(list, start, limit, seen', files', listed')
    ensures QueueOk(list, universe, start, queue', seen', listed')
    ensures queue[0] in seen ==> seen' == seen && files' == files && listed' == listed && queue' == queue[1..]
    ensures queue[0] !in seen ==>
      && listed' == listed + [queue[0]]
      && files' == files + FilesOf(list, queue[0])
      && queue' == queue[1..] + NewDirs(list, queue[0], seen')
    ensures |universe - seen'| < |universe - seen| || (seen' == seen && |queue'| < |queue|)
  {
    var url := queue[0];
    if url in seen {
      SkipKeeps(list, universe, start, queue, seen, listed);
      return queue[1..], seen, files, listed;
    }
    assert url == start || url in Found(list, listed);
    VisitListed(list, start, limit, seen, files, listed, url);
    VisitQueue(list, universe, start, queue, seen, listed);
    seen' := seen + {url};
    listed' := listed + [url];
    queue' := queue[1..] + NewDirs(list, url, seen');
    files' := files + FilesOf(list, url);
  }

  /** What the crawl keeps about the URLs it has listed so far. */
  ghost predicate ListedOk(list: Lister, start: string, limit: int,
                           seen: set<string>, files: seq<string>, listed: seq<string>) {
    && (forall u :: u in seen <==> u in listed)
    && NoDuplicates(listed)
    && files == Harvest(list, listed)
    && (forall i :: 0 <= i < |listed| ==> |Harvest(list, listed[..i])| < limit)
    && (|listed| == 0 ==> files == [])
    && (|listed| > 0 ==> listed[0] == start)
    && (forall i :: 0 < i < |listed| ==> listed[i] in Found(list, listed[..i]))
  }

  /** What the crawl keeps about its queue: it holds only the start and found
      directories, every found directory is listed or queued, and nothing
      leaves the universe. */
  ghost predicate QueueOk(list: Lister, universe: set<string>, start: string,
                          queue: seq<string>, seen: set<string>, listed: seq<string>) {
    && (|listed| == 0 ==> queue == [start])
    && (forall q :: q in queue ==> q == start || q in Found(list, listed))
    && (forall d :: d in Found(list, listed) ==> d in seen || d in queue)
    && seen <= universe
    && (forall q :: q in queue ==> q in universe)
    && Closed(list, universe)
  }

  /** The directories a visit of `url` enqueues. */
  function NewDirs(list: Lister, url: string, seen: set<string>): seq<string> {
    match list(url)
    case None => []
    case Some(l) => Unseen(l.dirs, seen)
  }

  lemma SkipKeeps(list: Lister, universe: set<string>, start: string,
                  queue: seq<string>, seen: set<string>, listed: seq<string>)
    requires QueueOk(list, universe, start, queue, seen, listed)
    requires |queue| > 0 && queue[0] in seen && |listed| > 0
    ensures QueueOk(list, universe, start, queue[1..], seen, listed)
  {
    assert queue == [queue[0]] + queue[1..];
  }

  lemma VisitListed(list: Lister, start: string, limit: int,
                    seen: set<string>, files: seq<string>, listed: seq<string>, url: string)
    requires ListedOk(list, start, limit, seen, files, listed)
    requires url !in seen && |files| < limit
    requires |listed| == 0 ==> url == start
    requires |listed| > 0 ==> url in Found(list, listed)
    ensures ListedOk(list, start, limit, seen + {url}, files + FilesOf(list, url), listed + [url])
  {
    NoDuplicatesSnoc(listed, url);
    SnocPrefixes(listed, url);
    HarvestSnoc(list, listed, url);
    FoundEarlierSnoc(list, listed, url);
  }

  lemma VisitQueue(list: Lister, universe: set<string>, start: string,
                   queue: seq<string>, seen: set<string>, listed: seq<string>)
    requires QueueOk(list, universe, start, queue, seen, listed)
    requires |queue| > 0 && queue[0] !in seen
    ensures var url := queue[0];
      QueueOk(list, universe, start, queue[1..] + NewDirs(list, url, seen + {url}), seen + {url}, listed + [url])
    ensures |universe - (seen + {queue[0]})| < |universe - seen|
  {
    var url := queue[0];
    FoundSnoc(list, listed, url);
    SmallerRemainder(universe, seen, url);
    assert queue == [url] + queue[1..];
  }

  lemma FoundEarlierSnoc(list: Lister, s: seq<string>, x: string)
    requires forall i :: 0 < i < |s| ==> s[i] in Found(list, s[..i])
    requires |s| > 0 ==> x in Found(list, s)
    ensures forall i :: 0 < i < |s| + 1 ==> (s + [x])[i] in Found(list, (s + [x])[..i])
  {
    forall i | 0 < i < |s| + 1
      ensures (s + [x])[i] in Found(list, (s + [x])[..i])
    {
      if i < |s| {
        assert (s + [x])[i] == s[i] && (s + [x])[..i] == s[..i];
      } else {
        assert (s + [x])[..i] == s;
      }
    }
  }

  lemma NoDuplicatesSnoc(s: seq<string>, x: string)
    requires NoDuplicates(s) && x !in s
    ensures NoDuplicates(s + [x])
  {
  }

  lemma SnocPrefixes(s: seq<string>, x: string)
    ensures forall i :: 0 <= i <= |s| ==> (s + [x])[..i] == s[..i]
    ensures (s + [x])[..|s|] == s
  {
  }

  lemma HarvestSnoc(list: Lister, us: seq<string>, u: string)
    ensures Harvest(list, us + [u]) == Harvest(list, us) + FilesOf(list, u)
  {
    assert (us + [u])[..|us|] == us;
  }

  lemma FoundSnoc(list: Lister, us: seq<string>, u: string)
    ensures Found(list, us + [u]) == Found(list, us) + DirsOf(list, u)
  {
    assert (us + [u])[..|us|] == us;
  }

  lemma SmallerRemainder(universe: set<string>, seen: set<string>, x: string)
    requires x in universe && x !in seen
    ensures |universe - (seen + {x})| < |universe - seen|
  {
    var rest := universe - (seen + {x});
    assert universe - seen == rest + {x};
    assert x !in rest;
  }

  /** The directories of a listing that are not yet seen, in order. */
  function Unseen(ds: seq<string>, seen: set<string>): (r: seq<string>)
    ensures forall d :: d in r <==> d in ds && d !in seen
  {
    if |ds| == 0 then []
    else (if ds[0] in seen then [] else [ds[0]]) + Unseen(ds[1..], seen)
  }
}
