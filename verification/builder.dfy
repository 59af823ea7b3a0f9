/** The Node CLI builder, tools/build-dicom-index.js: command-line options,
    file URLs, the indexing loop with its instance count, and the split of a
    finished index into a manifest and one shard per patient. The file
    system is the tree of module FsWalk; reading and decoding a file is the
    oracle `read`; `encodeURIComponent` is the oracle `encode`. */
module Builder {
  import opened Wrappers
  import opened Strings
  import opened Assoc
  import opened Hierarchy
  import opened InstanceOrder
  import opened Catalog
  import opened Header
  import opened FsWalk

  // ---------------------------------------------------------------------
  // parseArgs

  /** The four flags `parseArgs` recognises; every other argument is skipped. */
  predicate IsFlag(a: string) {
    a == "--dir" || a == "--base" || a == "--out" || a == "--splitDir"
  }

  /** One recognised flag and the argument after it; `None` when the flag is
      the last argument, so that reading its value gives `undefined`. */
  datatype Setting = Setting(flag: string, value: Option<string>)

  /** The flags of an argument list in order. A flag consumes the next
      argument as its value whatever that argument is. */
  function Settings(args: seq<string>): (ss: seq<Setting>)
    ensures forall k :: 0 <= k < |ss| ==> IsFlag(ss[k].flag)
    decreases |args|
  {
    if |args| == 0 then []
    else if !IsFlag(args[0]) then Settings(args[1..])
    else if |args| == 1 then [Setting(args[0], None)]
    else [Setting(args[0], Some(args[1]))] + Settings(args[2..])
  }

  /** The option object while the loop runs: `None` is `undefined` (or the
      initial `null` of `splitDir`). */
  datatype Draft = Draft(dir: Option<string>, base: Option<string>, out: Option<string>, splitDir: Option<string>)

  const DefaultDraft := Draft(Some("./dicoms"), Some("/dicoms/"), Some("./dicoms.index.json"), None)

  function SetFlag(d: Draft, s: Setting): Draft {
    if s.flag == "--dir" then d.(dir := s.value)
    else if s.flag == "--base" then d.(base := s.value)
    else if s.flag == "--out" then d.(out := s.value)
    else if s.flag == "--splitDir" then d.(splitDir := s.value)
    else d
  }

  function ApplyAll(d: Draft, ss: seq<Setting>): Draft
    decreases |ss|
  {
    if |ss| == 0 then d else ApplyAll(SetFlag(d, ss[0]), ss[1..])
  }

  /** The options `main` works with. A split directory is used only when it
      is a non-empty string. */
  datatype Options = Options(dir: string, base: string, out: string, splitDir: Option<string>)

  /** The tail of `parseArgs`: a missing `base` makes `endsWith` throw and a
      missing `dir` or `out` makes `path.resolve` throw; `base` gains a
      trailing `/`. */
  function Finish(d: Draft): Result<Options> {
    if d.base.None? then Err("base is undefined")
    else if d.dir.None? then Err("dir is undefined")
    else if d.out.None? then Err("out is undefined")
    else
      var b := d.base.value;
      Ok(Options(
        d.dir.value,
        if EndsWith(b, "/") then b else b + "/",
        d.out.value,
        if d.splitDir == Some("") then None else d.splitDir))
  }

  /** The reference reading of an argument list. */
  function Configure(args: seq<string>): Result<Options> {
    Finish(ApplyAll(DefaultDraft, Settings(args)))
  }

  /** `parseArgs`: the index loop that skips a flag's value with `++i`. */
  method ParseArgs(args: seq<string>) returns (r: Result<Options>)
    ensures r == Configure(args)
  {
    var d := DefaultDraft;
    var i := 0;
    while i < |args|
      invariant 0 <= i <= |args|
      invariant ApplyAll(d, Settings(args[i..])) == ApplyAll(DefaultDraft, Settings(args))
      decreases |args| - i
    {
      var a := args[i];
      if IsFlag(a) {
        var v := if i + 1 < |args| then Some(args[i + 1]) else None;
        assert Settings(args[i..]) == [Setting(a, v)] + (if i + 1 < |args| then Settings(args[i + 2..]) else []);
        d := SetFlag(d, Setting(a, v));
        i := if i + 1 < |args| then i + 2 else i + 1;
      } else {
        assert Settings(args[i..]) == Settings(args[i + 1..]);
        i := i + 1;
      }
    }
    r := Finish(d);
  }

  /** The value the last setting of `flag` gives, if there is one. */
  function LastValue(ss: seq<Setting>, flag: string): Option<Option<string>> {
    if |ss| == 0 then None
    else if ss[|ss| - 1].flag == flag then Some(ss[|ss| - 1].value)
    else LastValue(ss[..|ss| - 1], flag)
  }

  function FieldOf(d: Draft, flag: string): Option<string> {
    if flag == "--dir" then d.dir
    else if flag == "--base" then d.base
    else if flag == "--out" then d.out
    else d.splitDir
  }

  /** Each option keeps its default until its flag appears; then the last
      occurrence wins. */
  lemma {:induction false} LastOccurrenceWins(d: Draft, ss: seq<Setting>, flag: string)
    requires IsFlag(flag)
    ensures FieldOf(ApplyAll(d, ss), flag)
            == match LastValue(ss, flag) case None => FieldOf(d, flag) case Some(v) => v
  {
    if |ss| > 0 {
      ApplyAllSnoc(d, ss[..|ss| - 1], ss[|ss| - 1]);
      assert ss == ss[..|ss| - 1] + [ss[|ss| - 1]];
      LastOccurrenceWins(d, ss[..|ss| - 1], flag);
    }
  }

  lemma {:induction false} ApplyAllSnoc(d: Draft, ss: seq<Setting>, s: Setting)
    ensures ApplyAll(d, ss + [s]) == SetFlag(ApplyAll(d, ss), s)
    decreases |ss|
  {
    if |ss| > 0 {
      assert (ss + [s])[1..] == ss[1..] + [s];
      ApplyAllSnoc(SetFlag(d, ss[0]), ss[1..], s);
    }
  }

  /** `args` ends where the loop of `parseArgs` would look at a new argument:
      no flag at its end is still waiting for its value. */
  predicate Boundary(args: seq<string>)
    decreases |args|
  {
    if |args| == 0 then true
    else if !IsFlag(args[0]) then Boundary(args[1..])
    else if |args| == 1 then false
    else Boundary(args[2..])
  }

  /** An argument that is not a flag, met where no flag awaits a value, is
      skipped: removing it changes none of the settings. */
  lemma {:induction false} SkipUnknown(xs: seq<string>, a: string, ys: seq<string>)
    requires Boundary(xs) && !IsFlag(a)
    ensures Settings(xs + [a] + ys) == Settings(xs + ys)
    decreases |xs|
  {
    var l, r := xs + [a] + ys, xs + ys;
    if |xs| == 0 {
      assert l[1..] == r;
    } else if !IsFlag(xs[0]) {
      assert l[0] == r[0] == xs[0];
      assert l[1..] == xs[1..] + [a] + ys && r[1..] == xs[1..] + ys;
      SkipUnknown(xs[1..], a, ys);
    } else {
      assert l[0] == r[0] == xs[0] && l[1] == r[1] == xs[1];
      assert l[2..] == xs[2..] + [a] + ys && r[2..] == xs[2..] + ys;
      SkipUnknown(xs[2..], a, ys);
    }
  }

  /** An argument that is not a flag and not consumed as a flag's value
      changes nothing, wherever it stands. */
  lemma UnknownIgnored(xs: seq<string>, a: string, ys: seq<string>)
    requires Boundary(xs) && !IsFlag(a)
    ensures Configure(xs + [a] + ys) == Configure(xs + ys)
  {
    SkipUnknown(xs, a, ys);
  }

  /** Whatever the arguments, a successful parse yields a base ending in `/`,
      and defaults survive for flags that never appear. */
  lemma ConfigureShape(args: seq<string>)
    ensures Configure(args).Ok? ==> EndsWith(Configure(args).value.base, "/")
    ensures LastValue(Settings(args), "--base").None? ==> Configure(args).Ok? ==> Configure(args).value.base == "/dicoms/"
    ensures LastValue(Settings(args), "--dir").None? && LastValue(Settings(args), "--base").None?
            && LastValue(Settings(args), "--out").None? ==>
            Configure(args) == Ok(Options("./dicoms", "/dicoms/", "./dicoms.index.json",
                                          match LastValue(Settings(args), "--splitDir")
                                          case None => None
                                          case Some(v) => if v == Some("") then None else v))
  {
    var ss := Settings(args);
    LastOccurrenceWins(DefaultDraft, ss, "--dir");
    LastOccurrenceWins(DefaultDraft, ss, "--base");
    LastOccurrenceWins(DefaultDraft, ss, "--out");
    LastOccurrenceWins(DefaultDraft, ss, "--splitDir");
    var d := ApplyAll(DefaultDraft, ss);
    if d.base.Some? {
      var b := d.base.value;
      assert EndsWith(b + "/", "/") by {
        assert (b + "/")[|b + "/"| - 1..] == "/";
      }
    }
  }

  // ---------------------------------------------------------------------
  // toUrl

  function MapEncode(parts: seq<string>, encode: string -> string): (r: seq<string>)
    ensures |r| == |parts|
    ensures forall k :: 0 <= k < |parts| ==> r[k] == encode(parts[k])
  {
    if |parts| == 0 then [] else [encode(parts[0])] + MapEncode(parts[1..], encode)
  }

  /** `toUrl(base, rootDir, filePath)` for a file found at component path
      `rel` below the root: the encoded components joined by `/` after the
      base. */
  function ToUrl(base: string, rel: Path, encode: string -> string): (url: string)
    ensures StartsWith(url, base)
  {
    var url := base + Join(MapEncode(rel, encode), '/');
    assert url[..|base|] == base;
    url
  }

  /** Since `encodeURIComponent` escapes `/`, the components come back from
      the URL: strip the base and split on `/`. */
  lemma ToUrlComponents(base: string, rel: Path, encode: string -> string)
    requires |rel| > 0
    requires forall s :: '/' !in encode(s)
    ensures Split(ToUrl(base, rel, encode)[|base|..], '/') == MapEncode(rel, encode)
  {
    var parts := MapEncode(rel, encode);
    assert ToUrl(base, rel, encode)[|base|..] == Join(parts, '/');
    SplitJoin(parts, '/');
  }

  // ---------------------------------------------------------------------
  // buildIndex

  /** What reading the walked files yields, in walk order: each file's record
      under its URL, or a failure when reading or decoding throws. */
  function Reads(files: seq<Path>, read: Path -> Option<DataSet>, base: string,
                 encode: string -> string): (rs: seq<ReadResult>)
    ensures |rs| == |files|
    ensures forall k :: 0 <= k < |files| ==> rs[k] == ReadMeta(ToUrl(base, files[k], encode), read(files[k]))
  {
    if |files| == 0 then []
    else [ReadMeta(ToUrl(base, files[0], encode), read(files[0]))] + Reads(files[1..], read, base, encode)
  }

  /** `buildIndex(allFiles, rootDir, base)` with `Date.now()` as `now`: the
      index and its `count`. */
  method BuildIndex(files: seq<Path>, read: Path -> Option<DataSet>, base: string,
                    encode: string -> string, now: int)
    returns (index: Index, count: nat)
    ensures var kept := KeptRecords(Reads(files, read, base, encode));
      && index == Index(now, base, Catalog.Catalog(kept))
      && count == |kept|
    ensures count == TotalInstances(index.patients)
    ensures count <= |files|
  {
    var rs := Reads(files, read, base, encode);
    var patients;
    patients, count := GroupReads(rs);
    index := Index(now, base, SortAll(patients));
    CatalogShape(KeptRecords(rs));
  }

  /** The loop of `buildIndex` over the reads: records that fail or lack a
      UID are skipped, the rest are grouped in read order. */
  method GroupReads(rs: seq<ReadResult>) returns (patients: Assoc<Patient>, count: nat)
    ensures patients == Group(KeptRecords(rs))
    ensures count == |KeptRecords(rs)|
  {
    patients := [];
    count := 0;
    var i := 0;
    while i < |rs|
      invariant 0 <= i <= |rs|
      invariant Grouped(rs[..i], patients, count)
    {
      GroupedStep(rs, i, patients, count);
      patients := GroupStep(patients, rs[i]);
      count := count + if Kept(rs[i]) then 1 else 0;
      i := i + 1;
    }
    assert rs[..|rs|] == rs;
  }

  /** The loop invariant of `buildIndex`: the records read so far are grouped
      and counted. */
  ghost predicate Grouped(rs: seq<ReadResult>, patients: Assoc<Patient>, count: int) {
    patients == Group(KeptRecords(rs)) && count == |KeptRecords(rs)|
  }

  lemma GroupedStep(rs: seq<ReadResult>, i: nat, patients: Assoc<Patient>, count: int)
    requires i < |rs| && Grouped(rs[..i], patients, count)
    ensures Grouped(rs[..i + 1], GroupStep(patients, rs[i]), count + if Kept(rs[i]) then 1 else 0)
  {
    BuildStep(rs, i);
  }

  /** One turn of the loop of `buildIndex`: a kept record is added to the
      grouping, any other read leaves it as it was. */
  function GroupStep(patients: Assoc<Patient>, r: ReadResult): Assoc<Patient> {
    if Kept(r) then AddRecord(patients, r.meta) else patients
  }

  lemma BuildStep(rs: seq<ReadResult>, i: nat)
    requires i < |rs|
    ensures KeptRecords(rs[..i + 1]) ==
      if Kept(rs[i]) then KeptRecords(rs[..i]) + [rs[i].meta] else KeptRecords(rs[..i])
    ensures Group(KeptRecords(rs[..i + 1])) == GroupStep(Group(KeptRecords(rs[..i])), rs[i])
  {
    assert rs[..i + 1] == rs[..i] + [rs[i]];
    KeptRecordsSnoc(rs[..i], rs[i]);
    assert KeptRecords(rs[..i]) + [] == KeptRecords(rs[..i]);
    if Kept(rs[i]) {
      GroupSnoc(KeptRecords(rs[..i]), rs[i].meta);
    }
  }

  // ---------------------------------------------------------------------
  // The split output of main

  datatype ManifestEntry = ManifestEntry(patientId: string, patientName: string)

  /** `manifest.json`. */
  datatype Manifest = Manifest(base: string, createdAt: int, patients: seq<ManifestEntry>)

  /** `patients/<encoded id>.json`. */
  datatype Shard = Shard(base: string, patientId: string, patientName: string, studies: Assoc<Study>)

  datatype SplitOutput = SplitOutput(manifest: Manifest, shards: seq<(string, Shard)>)

  function ShardOf(base: string, p: Patient): Shard {
    Shard(base, p.patientId, p.patientName, p.studies)
  }

  /** The loop of `main` over `Object.keys(index.patients)`: one manifest
      entry and one shard file per patient, in key order. */
  function SplitIndex(index: Index, encode: string -> string): (out: SplitOutput)
    ensures out.manifest.base == index.base && out.manifest.createdAt == index.createdAt
    ensures |out.manifest.patients| == |index.patients| == |out.shards|
    ensures forall k :: 0 <= k < |index.patients| ==>
      out.manifest.patients[k] == ManifestEntry(index.patients[k].1.patientId, index.patients[k].1.patientName)
    ensures forall k :: 0 <= k < |index.patients| ==>
      out.shards[k] == (encode(index.patients[k].0) + ".json", ShardOf(index.base, index.patients[k].1))
    decreases |index.patients|
  {
    if |index.patients| == 0 then SplitOutput(Manifest(index.base, index.createdAt, []), [])
    else
      var n := |index.patients| - 1;
      var rest := SplitIndex(index.(patients := index.patients[..n]), encode);
      var (pid, p) := index.patients[n];
      SplitOutput(
        rest.manifest.(patients := rest.manifest.patients + [ManifestEntry(p.patientId, p.patientName)]),
        rest.shards + [(encode(pid) + ".json", ShardOf(index.base, p))])
  }

  /** For a well-formed catalog the manifest lists every patient once, under
      the identifier it is keyed by, and each shard carries that patient's
      studies unchanged. */
  lemma SplitFaithful(index: Index, encode: string -> string, pid: string)
    requires WellFormed(index.patients)
    ensures Find(index.patients, pid).Some? <==> Lists(SplitIndex(index, encode).manifest, pid)
    ensures Find(index.patients, pid).Some? ==>
      HasShard(SplitIndex(index, encode).shards, encode(pid) + ".json", pid, Find(index.patients, pid).value.studies)
  {
    KeyedById(index.patients);
    SplitKeyed(index, encode, pid);
  }

  lemma SplitKeyed(index: Index, encode: string -> string, pid: string)
    requires forall k :: 0 <= k < |index.patients| ==> index.patients[k].1.patientId == index.patients[k].0
    ensures Find(index.patients, pid).Some? <==> Lists(SplitIndex(index, encode).manifest, pid)
    ensures Find(index.patients, pid).Some? ==>
      HasShard(SplitIndex(index, encode).shards, encode(pid) + ".json", pid, Find(index.patients, pid).value.studies)
  {
    var out := SplitIndex(index, encode);
    var ps := index.patients;
    assert forall k :: 0 <= k < |ps| ==> out.manifest.patients[k].patientId == ps[k].1.patientId == ps[k].0;
    ListedByKey(ps, out.manifest.patients, pid);
    if Find(ps, pid).Some? {
      var k := KeyPosition(ps, pid);
      assert out.shards[k].1.studies == ps[k].1.studies;
    }
  }

  /** The manifest has an entry for `pid`. */
  predicate Lists(m: Manifest, pid: string) {
    exists k :: 0 <= k < |m.patients| && m.patients[k].patientId == pid
  }

  /** Some shard file is called `name` and holds `studies` for `pid`. */
  predicate HasShard(shards: seq<(string, Shard)>, name: string, pid: string, studies: Assoc<Study>) {
    exists k :: 0 <= k < |shards| && shards[k].0 == name && shards[k].1.patientId == pid && shards[k].1.studies == studies
  }

  lemma ListedByKey(ps: Assoc<Patient>, entries: seq<ManifestEntry>, pid: string)
    requires |entries| == |ps|
    requires forall k :: 0 <= k < |ps| ==> entries[k].patientId == ps[k].0
    ensures Find(ps, pid).Some? <==> exists k :: 0 <= k < |entries| && entries[k].patientId == pid
  {
    if exists k :: 0 <= k < |entries| && entries[k].patientId == pid {
      var k :| 0 <= k < |entries| && entries[k].patientId == pid;
      assert ps[k].0 == pid;
    }
  }

  lemma KeyPosition(ps: Assoc<Patient>, pid: string) returns (k: nat)
    requires Find(ps, pid).Some?
    ensures k < |ps| && ps[k] == (pid, Find(ps, pid).value)
  {
    k :| 0 <= k < |ps| && ps[k] == (pid, Find(ps, pid).value);
  }

  /** In a well-formed catalog each patient is stored under its own identifier. */
  lemma KeyedById(ps: Assoc<Patient>)
    requires WellFormed(ps)
    ensures forall k :: 0 <= k < |ps| ==> ps[k].1.patientId == ps[k].0
  {
    forall k | 0 <= k < |ps|
      ensures ps[k].1.patientId == ps[k].0
    {
      assert ps[k] in ps;
    }
  }

  /** Distinct patient keys give distinct shard file names, since
      `encodeURIComponent` is injective. */
  lemma ShardNamesDistinct(index: Index, encode: string -> string)
    requires UniqueKeys(index.patients)
    requires forall a, b :: encode(a) == encode(b) ==> a == b
    ensures DistinctNames(SplitIndex(index, encode).shards)
  {
    var sh := SplitIndex(index, encode).shards;
    forall i, j | 0 <= i < j < |sh|
      ensures sh[i].0 != sh[j].0
    {
      var a, b := index.patients[i].0, index.patients[j].0;
      assert sh[i].0 == encode(a) + ".json" && sh[j].0 == encode(b) + ".json";
      SuffixCancel(encode(a), encode(b), ".json");
      assert a != b;
    }
  }

  /** No two shard files share a name. */
  predicate DistinctNames(shards: seq<(string, Shard)>) {
    forall i, j :: 0 <= i < j < |shards| ==> shards[i].0 != shards[j].0
  }

  lemma SuffixCancel(x: string, y: string, t: string)
    ensures x + t == y + t ==> x == y
  {
    if x + t == y + t {
      assert x == (x + t)[..|x|];
      assert y == (y + t)[..|y|];
    }
  }

  /** `main` after parsing. `root` is what `--dir` names: `None` when
      `existsSync` finds nothing there, which is reported as "Directory not
      found". A regular file passes that test, but `readdirSync` then throws,
      as it does on a sealed directory anywhere the walk reaches; the
      rejected promise makes `main` exit with status 1 before anything is
      written. Otherwise walk, index and, when a split directory is given,
      split. */
  method Run(options: Options, root: Option<Entry>, read: Path -> Option<DataSet>,
             encode: string -> string, now: int)
    returns (r: Result<(Index, nat, Option<SplitOutput>)>)
    ensures r.Err? <==> root.None? || !root.value.Dir? || |Refused(root.value.children)| > 0
    ensures r.Ok? ==>
      var (index, count, split) := r.value;
      && index.base == options.base && index.createdAt == now
      && index.patients == Catalog.Catalog(KeptRecords(Reads(Walk(root.value.children), read, options.base, encode)))
      && count == TotalInstances(index.patients)
      && (split.Some? <==> options.splitDir.Some?)
      && (split.Some? ==> split.value == SplitIndex(index, encode))
  {
    if root.None? {
      return Err("Directory not found");
    }
    if !root.value.Dir? {
      return Err("ENOTDIR or EACCES from readdirSync");
    }
    if |Refused(root.value.children)| > 0 {
      return Err("EACCES from readdirSync");
    }
    var files := Walk(root.value.children);
    var index, count := BuildIndex(files, read, options.base, encode, now);
    var split := if options.splitDir.Some? then Some(SplitIndex(index, encode)) else None;
    r := Ok((index, count, split));
  }
}
