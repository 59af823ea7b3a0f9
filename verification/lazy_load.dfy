/** `ensurePatientLoaded(pid)`: upgrade one stub patient of the cached index
    with the studies of its per-patient shard. `fetch` answers a URL (no
    `If-None-Match` is sent here) and `encode` is `encodeURIComponent`.

    The source accepts a shard only when its `patientId` is truthy, so the
    shard of a patient whose identifier is empty is never taken. It also
    requests the encoded identifier as is, which a server that decodes the
    path maps back to the raw identifier. The browser's rule is a parameter
    so that both the code as written and the corrected browser can be
    stated. */
module LazyLoad {
  import opened Wrappers
  import opened Strings
  import opened Assoc
  import opened Hierarchy
  import opened IndexCache
  import Builder

  /** The browser's side of the shard exchange. `AsWritten` requests
      `encodeURIComponent(pid) + '.json'` and takes a body only when
      `pjson && pjson.patientId`. `Corrected` encodes that file name once
      more, so that a server which percent-decodes the request path finds
      the file the builder wrote, and takes any shard document. */
  datatype Rule = AsWritten | Corrected

  predicate Accepts(j: Json, rule: Rule) {
    j.ShardDoc? && (rule.Corrected? || j.patientId != "")
  }

  /** A reply the loop takes: OK and a parsed, accepted body. No content
      type check is made here. */
  predicate ShardFrom(r: Reply, rule: Rule) {
    OkStatus(r) && r.body.Some? && Accepts(r.body.value, rule)
  }

  /** `base` with a `/` appended unless it already ends with one. */
  function ShardDir(base: string): (d: string)
    ensures EndsWith(d, "/")
    ensures StartsWith(d, base) && |d| <= |base| + 1
    ensures EndsWith(base, "/") ==> d == base
  {
    if EndsWith(base, "/") then base else base + "/"
  }

  /** The file-name part of a shard request, without `.json`. */
  function ShardName(pid: string, encode: string -> string, rule: Rule): string {
    if rule.Corrected? then encode(encode(pid)) else encode(pid)
  }

  function ShardCandidates(base: string, pid: string, encode: string -> string, rule: Rule): seq<string> {
    [ShardDir(base) + "patients/" + ShardName(pid, encode, rule) + ".json",
     "/dicoms.index/patients/" + ShardName(pid, encode, rule) + ".json"]
  }

  /** The body of the first candidate whose reply is taken. */
  function FirstShard(urls: seq<string>, fetch: string -> Reply, rule: Rule): (r: Option<Json>)
    ensures r.None? <==> forall k :: 0 <= k < |urls| ==> !ShardFrom(fetch(urls[k]), rule)
    ensures r.Some? ==> exists k :: (
      && 0 <= k < |urls| && ShardFrom(fetch(urls[k]), rule) && r.value == fetch(urls[k]).body.value
      && forall j :: 0 <= j < k ==> !ShardFrom(fetch(urls[j]), rule))
    ensures r.Some? ==> Accepts(r.value, rule)
  {
    if |urls| == 0 then None
    else if ShardFrom(fetch(urls[0]), rule) then Some(fetch(urls[0]).body.value)
    else
      var r := FirstShard(urls[1..], fetch, rule);
      assert forall k :: 1 <= k < |urls| ==> urls[k] == urls[1..][k - 1];
      r
  }

  /** The patient once its shard has been taken: `studies` replaced (an
      absent `studies` counts as `{}`) and marked loaded. */
  function Upgrade(p: Patient, shard: Json): Patient
    requires shard.ShardDoc?
  {
    p.(studies := shard.studies.GetOr([]), loaded := true)
  }

  /** `ensurePatientLoaded(pid)` with `base` the configured base path: the
      cache under `base` is read, and the upgraded index is saved under the
      index's own `base`. */
  function LoadPatient(store: Store, base: string, pid: string, fetch: string -> Reply,
                       encode: string -> string, rule: Rule): (s: Store)
    ensures base !in store ==> s == store
    ensures base in store && Find(store[base].patients, pid).None? ==> s == store
    ensures base in store && Find(store[base].patients, pid).Some? && Find(store[base].patients, pid).value.loaded
            ==> s == store
    ensures FirstShard(ShardCandidates(base, pid, encode, rule), fetch, rule).None? ==> s == store
    ensures base in store && Find(store[base].patients, pid).Some? && !Find(store[base].patients, pid).value.loaded
            && FirstShard(ShardCandidates(base, pid, encode, rule), fetch, rule).Some? ==>
      var idx := store[base];
      var shard := FirstShard(ShardCandidates(base, pid, encode, rule), fetch, rule).value;
      && idx.base in s && s == SaveCache(store, s[idx.base])
      && s[idx.base].base == idx.base && s[idx.base].createdAt == idx.createdAt
      && Keys(s[idx.base].patients) == Keys(idx.patients)
      && Find(s[idx.base].patients, pid) == Some(Upgrade(Find(idx.patients, pid).value, shard))
      && forall q :: q != pid ==> Find(s[idx.base].patients, q) == Find(idx.patients, q)
  {
    if base !in store then store
    else
      var idx := store[base];
      var p := Find(idx.patients, pid);
      if p.None? || p.value.loaded then store
      else
        var shard := FirstShard(ShardCandidates(base, pid, encode, rule), fetch, rule);
        if shard.None? then store
        else
          var ps := Put(idx.patients, pid, Upgrade(p.value, shard.value));
          PutKeys(idx.patients, pid, Upgrade(p.value, shard.value));
          SaveCache(store, idx.(patients := ps))
  }

  /** When the index is saved back under the base it was read from, a second
      call changes nothing: the patient is loaded, or the same replies are
      refused again. */
  lemma LoadIdempotent(store: Store, base: string, pid: string, fetch: string -> Reply,
                       encode: string -> string, rule: Rule)
    requires base in store && store[base].base == base
    ensures var once := LoadPatient(store, base, pid, fetch, encode, rule);
      LoadPatient(once, base, pid, fetch, encode, rule) == once
  {
    var once := LoadPatient(store, base, pid, fetch, encode, rule);
    if once != store {
      assert Find(once[base].patients, pid).value.loaded;
    }
  }

  /** `ensurePatientLoaded` for each identifier in turn. */
  function LoadAll(store: Store, base: string, pids: seq<string>, fetch: string -> Reply,
                   encode: string -> string, rule: Rule): Store
    decreases |pids|
  {
    if |pids| == 0 then store
    else LoadAll(LoadPatient(store, base, pids[0], fetch, encode, rule), base, pids[1..], fetch, encode, rule)
  }

  // ---------------------------------------------------------------------
  // Serving the builder's split output

  /** The shard document `main` writes, as parsed by the browser. */
  function ShardJson(sh: Builder.Shard): Json {
    ShardDoc(sh.patientId, Some(sh.studies))
  }

  /** `decodeURIComponent` undoes `encodeURIComponent`, and the `.json`
      suffix has nothing to decode. */
  ghost predicate Decodes(encode: string -> string, decode: string -> string) {
    forall s :: decode(encode(s) + ".json") == s + ".json"
  }

  const NotFound := Reply(404, "", "", None)

  /** The shard file called `name`, if there is one. */
  function Lookup(shards: seq<(string, Builder.Shard)>, name: string): (r: Reply)
    ensures r.Reply? && r.body.Some? ==> exists k :: 0 <= k < |shards| && r.body.value == ShardJson(shards[k].1)
    ensures (forall k :: 0 <= k < |shards| ==> shards[k].0 != name) ==> r == NotFound
  {
    if |shards| == 0 then NotFound
    else if name == shards[0].0 then Reply(200, "application/json", "", Some(ShardJson(shards[0].1)))
    else
      var r := Lookup(shards[1..], name);
      assert forall k :: 1 <= k < |shards| ==> shards[k] == shards[1..][k - 1];
      r
  }

  /** A static server holding the shard files under `dir + "patients/"`. Like
      any static file server it percent-decodes the rest of the request path
      (`decode`) and answers the file of that name. */
  function Serve(shards: seq<(string, Builder.Shard)>, dir: string, decode: string -> string, url: string): (r: Reply)
    ensures r.Reply? && r.body.Some? ==> exists k :: 0 <= k < |shards| && r.body.value == ShardJson(shards[k].1)
  {
    var prefix := dir + "patients/";
    if StartsWith(url, prefix) then Lookup(shards, decode(url[|prefix|..])) else NotFound
  }

  lemma {:induction false} LookupFinds(shards: seq<(string, Builder.Shard)>, k: nat)
    requires k < |shards|
    requires Builder.DistinctNames(shards)
    ensures Lookup(shards, shards[k].0) == Reply(200, "application/json", "", Some(ShardJson(shards[k].1)))
  {
    if k > 0 {
      assert shards[0].0 != shards[k].0;
      assert shards[1..][k - 1] == shards[k];
      LookupFinds(shards[1..], k - 1);
    }
  }

  /** With distinct file names the server answers a request whose path,
      once decoded, names a shard's file with that shard. */
  lemma ServeFinds(shards: seq<(string, Builder.Shard)>, dir: string, decode: string -> string,
                   k: nat, tail: string)
    requires k < |shards|
    requires Builder.DistinctNames(shards)
    requires decode(tail) == shards[k].0
    ensures Serve(shards, dir, decode, dir + "patients/" + tail)
         == Reply(200, "application/json", "", Some(ShardJson(shards[k].1)))
  {
    var prefix := dir + "patients/";
    assert (prefix + tail)[..|prefix|] == prefix;
    assert (prefix + tail)[|prefix|..] == tail;
    LookupFinds(shards, k);
  }
}
