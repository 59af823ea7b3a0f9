/** The browser's cached index and the server-index fetches: the cache
    (`localStorage` under `'bl_index:' + base`) is a map from base to index,
    `fetch` is an oracle from a URL and an `If-None-Match` value to a reply,
    and `toAbs` (resolution against the page origin) is an oracle too. */
module IndexCache {
  import opened Wrappers
  import opened Strings
  import opened Assoc
  import opened Hierarchy
  import Builder

  /** The cached indexes, by the base they were saved under. */
  type Store = map<string, Index>

  /** `loadCache(base)`. */
  function LoadCache(store: Store, base: string): (r: Option<Index>)
    ensures r.Some? <==> base in store
    ensures r.Some? ==> r.value == store[base]
  {
    if base in store then Some(store[base]) else None
  }

  /** `saveCache(index)`: stored under the index's own `base`. */
  function SaveCache(store: Store, index: Index): (r: Store)
    ensures LoadCache(r, index.base) == Some(index)
    ensures forall b :: b != index.base ==> LoadCache(r, b) == LoadCache(store, b)
  {
    store[index.base := index]
  }

  // ---------------------------------------------------------------------
  // Base normalisation

  /** `base || '/dicoms/'`, then a leading and a trailing `/` added when
      missing. */
  function NormaliseBase(base: string): (b: string)
    ensures StartsWith(b, "/") && EndsWith(b, "/")
    ensures base == "" ==> b == "/dicoms/"
    ensures StartsWith(base, "/") && EndsWith(base, "/") ==> b == base
    ensures base != "" ==>
      b == (if StartsWith(base, "/") then "" else "/") + base + (if EndsWith(base, "/") then "" else "/")
  {
    var b0 := if base == "" then "/dicoms/" else base;
    var b1 := if StartsWith(b0, "/") then b0 else "/" + b0;
    if EndsWith(b1, "/") then b1 else b1 + "/"
  }

  /** Normalising twice is normalising once. */
  lemma NormaliseIdempotent(base: string)
    ensures NormaliseBase(NormaliseBase(base)) == NormaliseBase(base)
  {
    var b := NormaliseBase(base);
    assert StartsWith(b, "/") && EndsWith(b, "/");
  }

  // ---------------------------------------------------------------------
  // Replies

  /** A parsed JSON body, as far as the indexer looks at it: a full index,
      a manifest, a per-patient shard without `patients` (`studies` may be
      absent), any other value whose `patients` is truthy (`{"patients": 1}`,
      say), or anything else (`null`, a number, an object with neither
      `patients` nor `patientId`). */
  datatype Json =
    | IndexDoc(index: Index)
    | ManifestDoc(manifest: Builder.Manifest)
    | ShardDoc(patientId: string, studies: Option<Assoc<Study>>)
    | StrayPatients
    | OtherJson

  /** `json && json.patients`: an index's `patients` is an object and a
      manifest's an array, both truthy even when empty; a stray value passes
      the same test although it is neither. */
  predicate HasPatients(j: Json) {
    j.IndexDoc? || j.ManifestDoc? || j.StrayPatients?
  }

  /** What one `fetch` yields: a thrown error (network failure, abort,
      unreadable body), or a response with its status, its `Content-Type`
      and `ETag` headers (`""` when absent) and its body, `None` when the
      text is not JSON. */
  datatype Reply =
    | NetworkError
    | Reply(status: int, contentType: string, etag: string, body: Option<Json>)

  /** `res.ok`. */
  predicate OkStatus(r: Reply) {
    r.Reply? && 200 <= r.status <= 299
  }

  /** An absent or empty content type is let through, any other must mention
      `application/json`. */
  predicate JsonType(contentType: string) {
    contentType == "" || Contains(contentType, "application/json")
  }

  /** An OK reply with a JSON content type whose body parses. */
  predicate Parsed(r: Reply) {
    OkStatus(r) && JsonType(r.contentType) && r.body.Some?
  }

  /** A reply whose document the fetch returns. */
  predicate Acceptable(r: Reply) {
    Parsed(r) && HasPatients(r.body.value)
  }

  datatype Verdict = Return(doc: Json) | Skip

  /** `fetchServerIndex`'s treatment of one candidate's reply; `cached` is
      `loadCache(base)`. A 304 answers with the cache when there is one and
      moves on otherwise; a non-OK reply, a non-JSON content type, an
      unparsable body or a document without `patients` moves on. */
  function Judge(r: Reply, cached: Option<Index>): (v: Verdict)
    ensures v.Return? <==> (r.Reply? && r.status == 304 && cached.Some?) || Acceptable(r)
    ensures r.Reply? && r.status == 304 && cached.Some? ==> v == Return(IndexDoc(cached.value))
    ensures Acceptable(r) ==> v == Return(r.body.value)
    ensures v.Return? ==> HasPatients(v.doc)
  {
    if r.Reply? && r.status == 304 then
      if cached.Some? then Return(IndexDoc(cached.value)) else Skip
    else if !OkStatus(r) || !JsonType(r.contentType) then Skip
    else if r.body.None? then Skip
    else if HasPatients(r.body.value) then Return(r.body.value)
    else Skip
  }

  /** The remembered ETags (`'bl_index_etag:' + url`) after a reply: a
      parsed reply with a non-empty `ETag` records it, whatever its body. */
  function EtagAfter(etags: map<string, string>, url: string, r: Reply): (e: map<string, string>)
    ensures forall u :: u != url ==> (u in e <==> u in etags) && (u in e ==> e[u] == etags[u])
    ensures Parsed(r) && r.etag != "" ==> url in e && e[url] == r.etag
    ensures !(Parsed(r) && r.etag != "") ==> e == etags
  {
    if Parsed(r) && r.etag != "" then etags[url := r.etag] else etags
  }

  /** The `If-None-Match` value sent for `url`; `""` sends none. */
  function IfNoneMatch(etags: map<string, string>, url: string): string {
    if url in etags then etags[url] else ""
  }

  /** The ETags when candidate `k` is fetched, all earlier ones skipped. */
  function EtagsBefore(urls: seq<string>, k: nat, etags: map<string, string>,
                       fetch: (string, string) -> Reply): map<string, string>
    requires k <= |urls|
  {
    if k == 0 then etags
    else
      var e := EtagsBefore(urls, k - 1, etags, fetch);
      EtagAfter(e, urls[k - 1], fetch(urls[k - 1], IfNoneMatch(e, urls[k - 1])))
  }

  /** The reply to candidate `k`. */
  function ReplyAt(urls: seq<string>, k: nat, etags: map<string, string>,
                   fetch: (string, string) -> Reply): Reply
    requires k < |urls|
  {
    var e := EtagsBefore(urls, k, etags, fetch);
    fetch(urls[k], IfNoneMatch(e, urls[k]))
  }

  /** ETags of URLs that are not candidates are never touched. */
  lemma {:induction false} EtagsElsewhere(urls: seq<string>, k: nat, etags: map<string, string>,
                                          fetch: (string, string) -> Reply, u: string)
    requires k <= |urls|
    requires u !in urls
    ensures var e := EtagsBefore(urls, k, etags, fetch);
      (u in e <==> u in etags) && (u in e ==> e[u] == etags[u])
  {
    if k > 0 {
      EtagsElsewhere(urls, k - 1, etags, fetch, u);
      assert u != urls[k - 1];
    }
  }

  function IndexCandidates(base: string, toAbs: string -> string): seq<string> {
    [toAbs(NormaliseBase(base) + "index.json"), toAbs("/dicoms.index.json")]
  }

  /** `fetchServerIndex(base)`: the document of the first candidate whose
      verdict is to return, `None` when every candidate is skipped, and the
      ETags remembered on the way. The 304 case consults the cache under the
      base as given, not the normalised one. */
  method FetchServerIndex(base: string, store: Store, etags: map<string, string>,
                          fetch: (string, string) -> Reply, toAbs: string -> string)
    returns (r: Option<Json>, etags': map<string, string>)
    ensures var urls := IndexCandidates(base, toAbs);
      var cached := LoadCache(store, base);
      && (r.None? <==> forall k :: 0 <= k < |urls| ==> Judge(ReplyAt(urls, k, etags, fetch), cached).Skip?)
      && (r.Some? ==> exists k :: (
            && 0 <= k < |urls|
            && Judge(ReplyAt(urls, k, etags, fetch), cached) == Return(r.value)
            && etags' == EtagsBefore(urls, k + 1, etags, fetch)
            && forall j :: 0 <= j < k ==> Judge(ReplyAt(urls, j, etags, fetch), cached).Skip?))
    ensures r.None? ==> etags' == EtagsBefore(IndexCandidates(base, toAbs), |IndexCandidates(base, toAbs)|, etags, fetch)
    ensures r.Some? ==> HasPatients(r.value)
    ensures forall u :: u !in IndexCandidates(base, toAbs) ==>
      (u in etags' <==> u in etags) && (u in etags' ==> etags'[u] == etags[u])
  {
    var urls := IndexCandidates(base, toAbs);
    var cached := LoadCache(store, base);
    etags', r := etags, None;
    var i := 0;
    while i < |urls| && r.None?
      invariant 0 <= i <= |urls|
      invariant etags' == EtagsBefore(urls, i, etags, fetch)
      invariant r.None? ==> forall j :: 0 <= j < i ==> Judge(ReplyAt(urls, j, etags, fetch), cached).Skip?
      invariant r.Some? ==> i > 0 && Judge(ReplyAt(urls, i - 1, etags, fetch), cached) == Return(r.value)
      invariant r.Some? ==> forall j :: 0 <= j < i - 1 ==> Judge(ReplyAt(urls, j, etags, fetch), cached).Skip?
    {
      var reply := fetch(urls[i], IfNoneMatch(etags', urls[i]));
      assert reply == ReplyAt(urls, i, etags, fetch);
      var v := Judge(reply, cached);
      etags' := EtagAfter(etags', urls[i], reply);
      if v.Return? {
        r := Some(v.doc);
      }
      i := i + 1;
    }
    EtagsElsewhereAll(urls, i, etags, fetch);
  }

  lemma EtagsElsewhereAll(urls: seq<string>, k: nat, etags: map<string, string>,
                          fetch: (string, string) -> Reply)
    requires k <= |urls|
    ensures var e := EtagsBefore(urls, k, etags, fetch);
      forall u :: u !in urls ==> (u in e <==> u in etags) && (u in e ==> e[u] == etags[u])
  {
    forall u | u !in urls
      ensures var e := EtagsBefore(urls, k, etags, fetch);
        (u in e <==> u in etags) && (u in e ==> e[u] == etags[u])
    {
      EtagsElsewhere(urls, k, etags, fetch, u);
    }
  }

  function ManifestCandidates(base: string, toAbs: string -> string): seq<string> {
    [toAbs(NormaliseBase(base) + "manifest.json"), toAbs("/dicoms.index/manifest.json")]
  }

  /** `fetchManifest(base)`: no `If-None-Match`, no 304 shortcut, no ETag;
      the document of the first acceptable reply. */
  method FetchManifest(base: string, fetch: (string, string) -> Reply, toAbs: string -> string)
    returns (r: Option<Json>)
    ensures var urls := ManifestCandidates(base, toAbs);
      && (r.None? <==> forall k :: 0 <= k < |urls| ==> !Acceptable(fetch(urls[k], "")))
      && (r.Some? ==> exists k :: (
            && 0 <= k < |urls|
            && Acceptable(fetch(urls[k], "")) && r.value == fetch(urls[k], "").body.value
            && forall j :: 0 <= j < k ==> !Acceptable(fetch(urls[j], ""))))
    ensures r.Some? ==> HasPatients(r.value)
  {
    var urls := ManifestCandidates(base, toAbs);
    var i := 0;
    while i < |urls|
      invariant 0 <= i <= |urls|
      invariant forall j :: 0 <= j < i ==> !Acceptable(fetch(urls[j], ""))
    {
      var reply := fetch(urls[i], "");
      if Judge(reply, None).Return? {
        return Some(reply.body.value);
      }
      i := i + 1;
    }
    r := None;
  }

  // ---------------------------------------------------------------------
  // The partial index built from a manifest

  function Stub(e: Builder.ManifestEntry): Patient {
    Patient(e.patientId, e.patientName, [], false)
  }

  /** One not-yet-loaded patient per manifest entry, keyed by `patientId`;
      for a repeated identifier the last entry wins (StubsLast). */
  function Stubs(es: seq<Builder.ManifestEntry>): (ps: Assoc<Patient>)
    ensures forall pid :: Find(ps, pid).Some? <==> exists k :: 0 <= k < |es| && es[k].patientId == pid
    ensures forall pid :: Find(ps, pid).Some? ==>
      var p := Find(ps, pid).value;
      p.patientId == pid && p.studies == [] && !p.loaded
      && exists k :: 0 <= k < |es| && es[k] == Builder.ManifestEntry(pid, p.patientName)
  {
    if |es| == 0 then []
    else
      var init, e := es[..|es| - 1], es[|es| - 1];
      var ps := Put(Stubs(init), e.patientId, Stub(e));
      assert forall k :: 0 <= k < |init| ==> es[k] == init[k];
      ps
  }

  /** Each identifier's stub comes from its last manifest entry. */
  lemma {:induction false} StubsLast(es: seq<Builder.ManifestEntry>, k: nat)
    requires k < |es|
    requires forall j :: k < j < |es| ==> es[j].patientId != es[k].patientId
    ensures Find(Stubs(es), es[k].patientId) == Some(Stub(es[k]))
  {
    var init, e := es[..|es| - 1], es[|es| - 1];
    assert Stubs(es) == Put(Stubs(init), e.patientId, Stub(e));
    if k < |es| - 1 {
      assert init[k] == es[k];
      StubsLast(init, k);
    }
  }

  /** The manifest branch of start-up: `createdAt` and `base` fall back to
      the clock and the configured base when missing (`0`, `""`). */
  function PartialFromManifest(m: Builder.Manifest, base: string, now: int): (idx: Index)
    ensures idx.createdAt == (if m.createdAt != 0 then m.createdAt else now)
    ensures idx.base == (if m.base != "" then m.base else base)
    ensures forall pid :: Find(idx.patients, pid).Some? <==>
      exists k :: 0 <= k < |m.patients| && m.patients[k].patientId == pid
  {
    Index(if m.createdAt != 0 then m.createdAt else now,
          if m.base != "" then m.base else base,
          Stubs(m.patients))
  }
}
