/** The split output of the Node builder read back by the browser: the
    manifest becomes a partial index of stub patients, and loading every
    patient's shard in turn upgrades each stub to the full patient. As
    written this fails for the patient whose identifier is empty, and, with a
    server that percent-decodes request paths, for every patient whose
    identifier `encodeURIComponent` changes; corrected, it holds for every
    catalog. */
module RoundTrip {
  import opened Wrappers
  import opened Assoc
  import opened Hierarchy
  import opened Catalog
  import opened IndexCache
  import opened LazyLoad
  import Builder

  /** A patient as the manifest describes it. */
  function StubOf(p: Patient): Patient {
    Patient(p.patientId, p.patientName, [], false)
  }

  function StubOpt(o: Option<Patient>): Option<Patient> {
    if o.Some? then Some(StubOf(o.value)) else None
  }

  function LoadedOpt(o: Option<Patient>): Option<Patient> {
    if o.Some? then Some(o.value.(loaded := true)) else None
  }

  /** Every patient is stored under its own identifier. */
  predicate Keyed(ps: Assoc<Patient>) {
    forall k :: 0 <= k < |ps| ==> ps[k].1.patientId == ps[k].0
  }

  /** The static server holding the builder's shard files under `dir`. */
  function ServerOf(out: Builder.SplitOutput, dir: string, decode: string -> string): string -> Reply {
    u => Serve(out.shards, dir, decode, u)
  }

  /** The `j`-th key does not occur among the first `j`. */
  lemma FreshKey(ps: Assoc<Patient>, j: nat)
    requires j < |ps| && UniqueKeys(ps)
    ensures Find(ps[..j], ps[j].0).None?
  {
    forall i | 0 <= i < j
      ensures ps[..j][i].0 != ps[j].0
    {
    }
  }

  /** Appending one patient to the catalog and its stub to the stubs keeps
      the stubs a mirror of the catalog. */
  lemma StubsStep(prev: Assoc<Patient>, qs: Assoc<Patient>, x: (string, Patient))
    requires Keys(prev) == Keys(qs)
    requires forall pid :: Find(prev, pid) == StubOpt(Find(qs, pid))
    requires Find(qs, x.0).None?
    ensures Keys(Put(prev, x.0, StubOf(x.1))) == Keys(qs + [x])
    ensures forall pid :: Find(Put(prev, x.0, StubOf(x.1)), pid) == StubOpt(Find(qs + [x], pid))
  {
    PutKeys(prev, x.0, StubOf(x.1));
    KeysSnoc(qs, x);
    forall pid
      ensures Find(Put(prev, x.0, StubOf(x.1)), pid) == StubOpt(Find(qs + [x], pid))
    {
      FindSnoc(qs, x, pid);
    }
  }

  /** The manifest's stubs mirror the catalog: same keys in the same order,
      each patient reduced to its stub. */
  lemma {:induction false} StubsMirror(ps: Assoc<Patient>, es: seq<Builder.ManifestEntry>, n: nat)
    requires n <= |ps| == |es|
    requires UniqueKeys(ps) && Keyed(ps)
    requires forall k :: 0 <= k < |ps| ==> es[k] == Builder.ManifestEntry(ps[k].1.patientId, ps[k].1.patientName)
    ensures Keys(Stubs(es[..n])) == Keys(ps[..n])
    ensures forall pid :: Find(Stubs(es[..n]), pid) == StubOpt(Find(ps[..n], pid))
  {
    if n > 0 {
      StubsMirror(ps, es, n - 1);
      var x := ps[n - 1];
      StubsLast(es, n);
      assert es[n - 1].patientId == x.0 && Stub(es[n - 1]) == StubOf(x.1);
      PrefixSnoc(ps, n);
      FreshKey(ps, n - 1);
      StubsStep(Stubs(es[..n - 1]), ps[..n - 1], x);
    }
  }

  lemma PrefixSnoc<T>(s: seq<T>, n: nat)
    requires 0 < n <= |s|
    ensures s[..n] == s[..n - 1] + [s[n - 1]]
  {
  }

  /** The stubs of a prefix one entry longer. */
  lemma StubsLast(es: seq<Builder.ManifestEntry>, n: nat)
    requires 0 < n <= |es|
    ensures Stubs(es[..n]) == Put(Stubs(es[..n - 1]), es[n - 1].patientId, Stub(es[n - 1]))
  {
    assert es[..n][..n - 1] == es[..n - 1];
  }

  /** After the first `j` identifiers have been loaded, the cache under
      `base` holds the catalog's keys with those patients loaded and the rest
      still stubs. */
  ghost predicate Partway(s: Store, base: string, ps: Assoc<Patient>, j: nat)
    requires j <= |ps|
  {
    && base in s && s[base].base == base
    && Keys(s[base].patients) == Keys(ps)
    && forall pid :: Find(s[base].patients, pid) ==
         if pid in Keys(ps)[..j] then LoadedOpt(Find(ps, pid)) else StubOpt(Find(ps, pid))
  }

  /** The manifest read back is the catalog with no patient loaded yet. */
  lemma StartPartway(index: Index, encode: string -> string, now: int)
    requires WellFormed(index.patients)
    requires index.base != ""
    ensures var partial := PartialFromManifest(Builder.SplitIndex(index, encode).manifest, index.base, now);
      Partway(map[partial.base := partial], index.base, index.patients, 0)
  {
    var ps := index.patients;
    var m := Builder.SplitIndex(index, encode).manifest;
    Builder.KeyedById(ps);
    MirrorAll(ps, m.patients);
    assert PartialFromManifest(m, index.base, now).patients == Stubs(m.patients);
  }

  /** `StubsMirror` for the whole manifest. */
  lemma MirrorAll(ps: Assoc<Patient>, es: seq<Builder.ManifestEntry>)
    requires |ps| == |es|
    requires UniqueKeys(ps) && Keyed(ps)
    requires forall k :: 0 <= k < |ps| ==> es[k] == Builder.ManifestEntry(ps[k].1.patientId, ps[k].1.patientName)
    ensures Keys(Stubs(es)) == Keys(ps)
    ensures forall pid :: Find(Stubs(es), pid) == StubOpt(Find(ps, pid))
  {
    StubsMirror(ps, es, |ps|);
    assert es[..|ps|] == es;
    assert ps[..|ps|] == ps;
  }

  /** Once every identifier has been loaded the cache holds the catalog, each
      patient marked loaded. */
  lemma EndPartway(s: Store, base: string, ps: Assoc<Patient>)
    requires Partway(s, base, ps, |ps|)
    ensures base in s
    ensures Keys(s[base].patients) == Keys(ps)
    ensures forall pid :: Find(s[base].patients, pid) == LoadedOpt(Find(ps, pid))
  {
    var ks := Keys(ps);
    assert ks[..|ps|] == ks;
    forall pid
      ensures Find(s[base].patients, pid) == LoadedOpt(Find(ps, pid))
    {
      if pid !in ks {
        assert Find(ps, pid).None?;
      }
    }
  }

  /** One `ensurePatientLoaded` changed only `pid`, which is now `p`. */
  ghost predicate Stepped(s: Store, next: Store, base: string, pid: string, p: Patient)
    requires base in s
  {
    && base in next && next[base].base == s[base].base
    && Keys(next[base].patients) == Keys(s[base].patients)
    && Find(next[base].patients, pid) == Some(p)
    && forall q :: q != pid ==> Find(next[base].patients, q) == Find(s[base].patients, q)
  }

  /** The browser reaches and takes every patient's shard: it is the
      corrected browser, or every patient key is non-empty (so that
      `pjson.patientId` is truthy) and left unchanged by `encodeURIComponent`
      (so that the decoded request names the file the builder wrote). */
  predicate Admits(ps: Assoc<Patient>, encode: string -> string, rule: Rule) {
    rule.Corrected? || forall k :: 0 <= k < |ps| ==> ps[k].0 != "" && encode(ps[k].0) == ps[k].0
  }

  /** A stub whose shard is taken becomes the full patient. */
  lemma TakeShard(s: Store, base: string, p: Patient, fetch: string -> Reply, encode: string -> string,
                  rule: Rule)
    requires base in s && s[base].base == base
    requires Find(s[base].patients, p.patientId) == Some(StubOf(p))
    requires FirstShard(ShardCandidates(base, p.patientId, encode, rule), fetch, rule)
      == Some(ShardDoc(p.patientId, Some(p.studies)))
    ensures Stepped(s, LoadPatient(s, base, p.patientId, fetch, encode, rule), base, p.patientId, p.(loaded := true))
  {
  }

  /** Marking the `j`-th patient loaded moves the cache one step on. */
  lemma PartwayStep(s: Store, next: Store, base: string, ps: Assoc<Patient>, j: nat)
    requires j < |ps| && UniqueKeys(ps)
    requires Partway(s, base, ps, j)
    requires Stepped(s, next, base, ps[j].0, ps[j].1.(loaded := true))
    ensures Partway(next, base, ps, j + 1)
  {
    var pid := ps[j].0;
    var ks := Keys(ps);
    FindUnique(ps, j);
    NextKey(ps, j);
    forall q
      ensures Find(next[base].patients, q) ==
        if q in ks[..j + 1] then LoadedOpt(Find(ps, q)) else StubOpt(Find(ps, q))
    {
      if q != pid {
        assert (q in ks[..j + 1]) == (q in ks[..j]);
      }
    }
  }

  /** The `j`-th key is new among the first `j` and extends them by one. */
  lemma NextKey(ps: Assoc<Patient>, j: nat)
    requires j < |ps| && UniqueKeys(ps)
    ensures ps[j].0 !in Keys(ps)[..j]
    ensures Keys(ps)[..j + 1] == Keys(ps)[..j] + [ps[j].0]
  {
    var ks := Keys(ps);
    forall i | 0 <= i < j
      ensures ks[i] != ps[j].0
    {
      assert ks[i] == ps[i].0;
    }
    NotInPrefix(ks, ps[j].0, j);
    PrefixSnoc(ks, j + 1);
  }

  lemma NotInPrefix(s: seq<string>, x: string, j: nat)
    requires j <= |s|
    requires forall i :: 0 <= i < j ==> s[i] != x
    ensures x !in s[..j]
  {
  }

  /** `fetch` answers the candidates of every patient from the `j`-th on
      with that patient's shard. */
  ghost predicate ServesFrom(ps: Assoc<Patient>, base: string, fetch: string -> Reply,
                             encode: string -> string, rule: Rule, j: nat)
  {
    forall k :: j <= k < |ps| ==>
      FirstShard(ShardCandidates(base, ps[k].0, encode, rule), fetch, rule)
        == Some(ShardDoc(ps[k].0, Some(ps[k].1.studies)))
  }

  /** The decoded first request for a patient names its shard file. */
  lemma RequestNamesFile(pid: string, encode: string -> string, decode: string -> string, rule: Rule)
    requires Decodes(encode, decode)
    requires rule.Corrected? || encode(pid) == pid
    ensures decode(ShardName(pid, encode, rule) + ".json") == encode(pid) + ".json"
  {
    if rule.Corrected? {
      assert decode(encode(encode(pid)) + ".json") == encode(pid) + ".json";
    } else {
      assert decode(encode(pid) + ".json") == pid + ".json";
    }
  }

  /** The server answers the first candidate URL for the `j`-th patient with
      that patient's shard, so the loop takes it. */
  lemma ShardServed(index: Index, encode: string -> string, decode: string -> string, rule: Rule, j: nat)
    requires UniqueKeys(index.patients) && Keyed(index.patients) && Admits(index.patients, encode, rule)
    requires forall a, b :: encode(a) == encode(b) ==> a == b
    requires Decodes(encode, decode)
    requires j < |index.patients|
    ensures var out := Builder.SplitIndex(index, encode);
      var ps := index.patients;
      FirstShard(ShardCandidates(index.base, ps[j].0, encode, rule), ServerOf(out, ShardDir(index.base), decode), rule)
        == Some(ShardDoc(ps[j].0, Some(ps[j].1.studies)))
  {
    var ps, base := index.patients, index.base;
    var pid := ps[j].0;
    var out := Builder.SplitIndex(index, encode);
    var fetch := ServerOf(out, ShardDir(base), decode);
    Builder.ShardNamesDistinct(index, encode);
    var dir := ShardDir(base);
    var urls := ShardCandidates(base, pid, encode, rule);
    var tail := ShardName(pid, encode, rule) + ".json";
    assert out.shards[j].0 == encode(pid) + ".json";
    assert urls[0] == dir + "patients/" + tail;
    RequestNamesFile(pid, encode, decode, rule);
    ServeFinds(out.shards, dir, decode, j, tail);
    assert fetch(urls[0]).body == Some(ShardDoc(pid, Some(ps[j].1.studies)));
    assert ShardFrom(fetch(urls[0]), rule);
  }

  /** The builder's shard server serves every patient. */
  lemma AllServed(index: Index, encode: string -> string, decode: string -> string, rule: Rule)
    requires UniqueKeys(index.patients) && Keyed(index.patients) && Admits(index.patients, encode, rule)
    requires forall a, b :: encode(a) == encode(b) ==> a == b
    requires Decodes(encode, decode)
    ensures ServesFrom(index.patients, index.base,
                       ServerOf(Builder.SplitIndex(index, encode), ShardDir(index.base), decode), encode, rule, 0)
  {
    forall k | 0 <= k < |index.patients|
      ensures FirstShard(ShardCandidates(index.base, index.patients[k].0, encode, rule),
                         ServerOf(Builder.SplitIndex(index, encode), ShardDir(index.base), decode), rule)
           == Some(ShardDoc(index.patients[k].0, Some(index.patients[k].1.studies)))
    {
      ShardServed(index, encode, decode, rule, k);
    }
  }

  /** Before the `j`-th identifier is loaded its patient is still a stub. */
  lemma StubAt(s: Store, base: string, ps: Assoc<Patient>, j: nat)
    requires j < |ps| && UniqueKeys(ps) && Keyed(ps)
    requires Partway(s, base, ps, j)
    ensures Find(s[base].patients, ps[j].1.patientId) == Some(StubOf(ps[j].1))
  {
    FindUnique(ps, j);
    NextKey(ps, j);
  }

  /** Loading the `j`-th identifier takes its served shard. */
  lemma LoadOne(s: Store, base: string, ps: Assoc<Patient>, j: nat, fetch: string -> Reply,
                encode: string -> string, rule: Rule)
    requires j < |ps| && UniqueKeys(ps) && Keyed(ps)
    requires Partway(s, base, ps, j)
    requires FirstShard(ShardCandidates(base, ps[j].0, encode, rule), fetch, rule)
      == Some(ShardDoc(ps[j].0, Some(ps[j].1.studies)))
    ensures Partway(LoadPatient(s, base, ps[j].0, fetch, encode, rule), base, ps, j + 1)
  {
    StubAt(s, base, ps, j);
    TakeShard(s, base, ps[j].1, fetch, encode, rule);
    PartwayStep(s, LoadPatient(s, base, ps[j].0, fetch, encode, rule), base, ps, j);
  }

  /** Loading the remaining identifiers, each of whose shards is served,
      finishes the round trip. */
  lemma {:induction false} LoadRest(s: Store, base: string, ps: Assoc<Patient>, j: nat,
                                    fetch: string -> Reply, encode: string -> string, rule: Rule)
    requires j <= |ps| && UniqueKeys(ps) && Keyed(ps)
    requires Partway(s, base, ps, j)
    requires ServesFrom(ps, base, fetch, encode, rule, j)
    ensures Partway(LoadAll(s, base, Keys(ps)[j..], fetch, encode, rule), base, ps, |ps|)
    decreases |ps| - j
  {
    var ks := Keys(ps);
    if j < |ps| {
      var next := LoadPatient(s, base, ks[j], fetch, encode, rule);
      LoadOne(s, base, ps, j, fetch, encode, rule);
      assert ServesFrom(ps, base, fetch, encode, rule, j + 1);
      LoadRest(next, base, ps, j + 1, fetch, encode, rule);
      assert ks[j..][0] == ks[j] && ks[j..][1..] == ks[j + 1..];
    } else {
      assert ks[j..] == [];
    }
  }

  /** Loading every patient's shard into the partial index built from the
      manifest gives back the catalog: the same patients in the same order,
      each with its full studies and marked loaded. `encodeURIComponent` is
      injective and undone by the server's decoding, the configured base is
      the one the index was built with, and the browser is the corrected one
      or no patient key is empty or changed by the encoding. */
  lemma ShardRoundTrip(index: Index, encode: string -> string, decode: string -> string, rule: Rule, now: int)
    requires WellFormed(index.patients)
    requires Admits(index.patients, encode, rule)
    requires forall a, b :: encode(a) == encode(b) ==> a == b
    requires Decodes(encode, decode)
    requires index.base != ""
    ensures var out := Builder.SplitIndex(index, encode);
      var partial := PartialFromManifest(out.manifest, index.base, now);
      var final := LoadAll(map[partial.base := partial], index.base, Keys(index.patients),
                           ServerOf(out, ShardDir(index.base), decode), encode, rule);
      && index.base in final
      && Keys(final[index.base].patients) == Keys(index.patients)
      && forall pid :: Find(final[index.base].patients, pid) == LoadedOpt(Find(index.patients, pid))
  {
    var out := Builder.SplitIndex(index, encode);
    var partial := PartialFromManifest(out.manifest, index.base, now);
    var fetch := ServerOf(out, ShardDir(index.base), decode);
    StartPartway(index, encode, now);
    Builder.KeyedById(index.patients);
    AllServed(index, encode, decode, rule);
    var s0 := map[partial.base := partial];
    LoadRest(s0, index.base, index.patients, 0, fetch, encode, rule);
    assert Keys(index.patients)[0..] == Keys(index.patients);
    EndPartway(LoadAll(s0, index.base, Keys(index.patients), fetch, encode, rule), index.base, index.patients);
  }

  // ---------------------------------------------------------------------
  // A patient whose shard is never taken

  /** The catalog of one patient, built under `/dicoms/`. */
  function Single(p: Patient): Index {
    Index(0, "/dicoms/", [(p.patientId, p)])
  }

  /** The browser's view of that catalog's split output. */
  function SingleServer(p: Patient, encode: string -> string, decode: string -> string): string -> Reply {
    ServerOf(Builder.SplitIndex(Single(p), encode), ShardDir("/dicoms/"), decode)
  }

  function SingleFinal(p: Patient, encode: string -> string, decode: string -> string, rule: Rule, now: int): Store {
    var partial := PartialFromManifest(Builder.SplitIndex(Single(p), encode).manifest, "/dicoms/", now);
    LoadAll(map["/dicoms/" := partial], "/dicoms/", [p.patientId], SingleServer(p, encode, decode), encode, rule)
  }

  /** When no candidate's reply is taken, loading leaves the manifest's
      stub in place. */
  lemma UntakenStaysStub(p: Patient, encode: string -> string, decode: string -> string, rule: Rule, now: int)
    requires FirstShard(ShardCandidates("/dicoms/", p.patientId, encode, rule), SingleServer(p, encode, decode), rule).None?
    ensures "/dicoms/" in SingleFinal(p, encode, decode, rule, now)
    ensures Find(SingleFinal(p, encode, decode, rule, now)["/dicoms/"].patients, p.patientId) == Some(StubOf(p))
  {
    var out := Builder.SplitIndex(Single(p), encode);
    var fetch := SingleServer(p, encode, decode);
    var partial := PartialFromManifest(out.manifest, "/dicoms/", now);
    var s0 := map["/dicoms/" := partial];
    assert LoadPatient(s0, "/dicoms/", p.patientId, fetch, encode, rule) == s0;
    assert [p.patientId][1..] == [];
    assert SingleFinal(p, encode, decode, rule, now) == LoadAll(s0, "/dicoms/", [], fetch, encode, rule) == s0;
    var e := Builder.ManifestEntry(p.patientId, p.patientName);
    assert out.manifest.patients == [e];
    assert [e][..0] == [];
    assert Stubs([e]) == Put([], p.patientId, Stub(e));
  }

  // ---------------------------------------------------------------------
  // The patient with an empty identifier

  /** A patient grouped from files without a PatientID. */
  const Anonymous := Patient("", "Anonymous", [("1.2.3", Study("1.2.3", "20240101", "CT", []))], false)

  /** A server whose only shard is the empty identifier's is refused at
      every candidate under the source's test. */
  lemma RefusedAsWritten(shards: seq<(string, Builder.Shard)>, dir: string, decode: string -> string,
                         urls: seq<string>, fetch: string -> Reply)
    requires forall k :: 0 <= k < |shards| ==> shards[k].1.patientId == ""
    requires forall u :: fetch(u) == Serve(shards, dir, decode, u)
    ensures FirstShard(urls, fetch, AsWritten).None?
  {
    forall k | 0 <= k < |urls| ensures !ShardFrom(fetch(urls[k]), AsWritten) {
      var r := Serve(shards, dir, decode, urls[k]);
      if r.Reply? && r.body.Some? {
        var i :| 0 <= i < |shards| && r.body.value == ShardJson(shards[i].1);
      }
    }
  }

  /** As written, the browser never takes the shard of the patient whose
      identifier is empty: after loading, it is still the manifest's stub,
      without its study, although the server has the shard. */
  lemma EmptyIdNeverLoads(encode: string -> string, decode: string -> string, now: int)
    ensures var final := SingleFinal(Anonymous, encode, decode, AsWritten, now);
      && "/dicoms/" in final
      && Find(final["/dicoms/"].patients, "") == Some(StubOf(Anonymous))
      && Find(final["/dicoms/"].patients, "") != Some(Anonymous.(loaded := true))
  {
    var out := Builder.SplitIndex(Single(Anonymous), encode);
    assert out.shards == [(encode("") + ".json", Builder.ShardOf("/dicoms/", Anonymous))];
    RefusedAsWritten(out.shards, "/dicoms/", decode, ShardCandidates("/dicoms/", "", encode, AsWritten),
                     SingleServer(Anonymous, encode, decode));
    UntakenStaysStub(Anonymous, encode, decode, AsWritten, now);
  }

  // ---------------------------------------------------------------------
  // An identifier the encoding changes

  /** A patient whose identifier `encodeURIComponent` changes, such as
      `"John Doe"`, which it writes as `"John%20Doe"`. */
  function Named(pid: string): Patient {
    Patient(pid, "Doe^John", [("1.2.3", Study("1.2.3", "20240101", "CT", []))], false)
  }

  lemma SuffixCancel(x: string, y: string, t: string)
    requires x + t == y + t
    ensures x == y
  {
    assert |x| == |y|;
    assert x == (x + t)[..|x|] && y == (y + t)[..|y|];
  }

  /** The decoded as-written request names the raw identifier's file, not
      the encoded one the builder wrote. */
  lemma DecodedMisses(pid: string, encode: string -> string, decode: string -> string)
    requires Decodes(encode, decode)
    requires encode(pid) != pid
    ensures decode(encode(pid) + ".json") != encode(pid) + ".json"
  {
    assert decode(encode(pid) + ".json") == pid + ".json";
    if pid + ".json" == encode(pid) + ".json" {
      SuffixCancel(pid, encode(pid), ".json");
    }
  }

  /** The first as-written request decodes to a name that is not the file. */
  lemma MissFirst(pid: string, encode: string -> string, decode: string -> string, sh: Builder.Shard)
    requires Decodes(encode, decode)
    requires encode(pid) != pid
    ensures Serve([(encode(pid) + ".json", sh)], "/dicoms/", decode,
                  ShardDir("/dicoms/") + "patients/" + encode(pid) + ".json") == NotFound
  {
    var tail := encode(pid) + ".json";
    var prefix := "/dicoms/patients/";
    DecodedMisses(pid, encode, decode);
    assert ShardDir("/dicoms/") + "patients/" + encode(pid) + ".json" == prefix + tail;
    assert (prefix + tail)[|prefix|..] == tail;
  }

  /** The second as-written request lies outside the shard directory. */
  lemma MissSecond(pid: string, encode: string -> string, decode: string -> string, sh: Builder.Shard)
    ensures Serve([(encode(pid) + ".json", sh)], "/dicoms/", decode,
                  "/dicoms.index/patients/" + encode(pid) + ".json") == NotFound
  {
    var u := "/dicoms.index/patients/" + encode(pid) + ".json";
    var prefix := "/dicoms/patients/";
    assert u[7] == '.' && prefix[7] == '/';
  }

  /** A decoding server answers neither of the as-written requests for `pid`
      when the only shard file is the one the builder wrote for it. */
  lemma MissedAsWritten(pid: string, encode: string -> string, decode: string -> string, sh: Builder.Shard)
    requires Decodes(encode, decode)
    requires encode(pid) != pid
    ensures forall u :: u in ShardCandidates("/dicoms/", pid, encode, AsWritten) ==>
      Serve([(encode(pid) + ".json", sh)], "/dicoms/", decode, u) == NotFound
  {
    MissFirst(pid, encode, decode, sh);
    MissSecond(pid, encode, decode, sh);
  }

  /** As written, with a server that percent-decodes request paths, the
      browser never loads a patient whose identifier `encodeURIComponent`
      changes: the request decodes to the raw identifier, while the builder
      named the file after the encoded one. The patient stays a stub. */
  lemma EncodedIdNeverLoads(pid: string, encode: string -> string, decode: string -> string, now: int)
    requires Decodes(encode, decode)
    requires encode(pid) != pid
    ensures var final := SingleFinal(Named(pid), encode, decode, AsWritten, now);
      && "/dicoms/" in final
      && Find(final["/dicoms/"].patients, pid) == Some(StubOf(Named(pid)))
      && Find(final["/dicoms/"].patients, pid) != Some(Named(pid).(loaded := true))
  {
    var out := Builder.SplitIndex(Single(Named(pid)), encode);
    var fetch := SingleServer(Named(pid), encode, decode);
    var urls := ShardCandidates("/dicoms/", pid, encode, AsWritten);
    var sh := Builder.ShardOf("/dicoms/", Named(pid));
    assert out.shards == [(encode(pid) + ".json", sh)];
    MissedAsWritten(pid, encode, decode, sh);
    forall k | 0 <= k < |urls| ensures !ShardFrom(fetch(urls[k]), AsWritten) {
      assert fetch(urls[k]) == NotFound;
    }
    UntakenStaysStub(Named(pid), encode, decode, AsWritten, now);
  }
}
