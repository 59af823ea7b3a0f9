/** The Node builder's view of the file system: the recursive directory walk
    that skips hidden entries (`walk`) and the DICOM Part 10 signature test
    (`isLikelyDicom`) of tools/build-dicom-index.js. */
module FsWalk {
  import opened Wrappers

  /** A directory entry as `readdirSync(dir, {withFileTypes: true})` reports
      it: a directory with its own entries, a directory whose listing
      `readdirSync` refuses (no read permission, say), or anything else. */
  datatype Entry = Dir(name: string, children: seq<Entry>) | Sealed(name: string) | NonDir(name: string)

  /** A path below the walked root, one component per directory level. */
  type Path = seq<string>

  /** Names starting with `.` are skipped, files and directories alike. */
  predicate Hidden(name: string) {
    |name| > 0 && name[0] == '.'
  }

  /** `walk(dir)` over the entries of `dir`, in listing order: the
      non-directory entries found depth first, as paths relative to `dir`. */
  function Walk(es: seq<Entry>): seq<Path>
    decreases es
  {
    if |es| == 0 then [] else WalkEntry(es[0]) + Walk(es[1..])
  }

  function WalkEntry(e: Entry): seq<Path>
    decreases e
  {
    if Hidden(e.name) then []
    else match e
      case NonDir(n) => [[n]]
      case Sealed(_) => []
      case Dir(n, cs) => Prefixed(n, Walk(cs))
  }

  /** `path.join(dir, name)` applied to every path found below `name`. */
  function Prefixed(n: string, ps: seq<Path>): (r: seq<Path>)
    ensures |r| == |ps|
    ensures forall i :: 0 <= i < |ps| ==> r[i] == [n] + ps[i]
  {
    if |ps| == 0 then [] else [[n] + ps[0]] + Prefixed(n, ps[1..])
  }

  /** The reference: `p` leads through visible directories to a visible
      non-directory entry. */
  ghost predicate VisibleFile(es: seq<Entry>, p: Path)
    decreases es, 1
  {
    exists i :: 0 <= i < |es| && VisibleFileIn(es[i], p)
  }

  ghost predicate VisibleFileIn(e: Entry, p: Path)
    decreases e, 0
  {
    && |p| > 0
    && p[0] == e.name
    && !Hidden(e.name)
    && match e
       case NonDir(_) => |p| == 1
       case Sealed(_) => false
       case Dir(_, cs) => VisibleFile(cs, p[1..])
  }

  /** `walk` finds exactly the visible files, hence never a hidden entry and
      nothing inside a hidden directory. */
  lemma {:induction false} WalkExact(es: seq<Entry>, p: Path)
    ensures p in Walk(es) <==> VisibleFile(es, p)
    decreases es
  {
    if |es| > 0 {
      WalkEntryExact(es[0], p);
      WalkExact(es[1..], p);
      assert forall i :: 1 <= i < |es| ==> es[i] == es[1..][i - 1];
      if VisibleFile(es, p) && !VisibleFileIn(es[0], p) {
        var i :| 0 <= i < |es| && VisibleFileIn(es[i], p);
        assert VisibleFileIn(es[1..][i - 1], p);
      }
    }
  }

  lemma {:induction false} WalkEntryExact(e: Entry, p: Path)
    ensures p in WalkEntry(e) <==> VisibleFileIn(e, p)
    decreases e
  {
    match e
    case NonDir(n) =>
      if !Hidden(n) && |p| == 1 {
        assert p == [p[0]];
      }
    case Sealed(_) =>
    case Dir(n, cs) =>
      if !Hidden(n) {
        PrefixedHas(n, Walk(cs), p);
        if |p| > 0 {
          WalkExact(cs, p[1..]);
        }
      }
  }

  /** The visible sealed directories `walk(dir)` descends into, in listing
      order. `readdirSync` throws on the first of them, so `walk` completes
      iff there are none; a hidden one is skipped before it is listed. */
  function Refused(es: seq<Entry>): seq<Path>
    decreases es
  {
    if |es| == 0 then [] else RefusedEntry(es[0]) + Refused(es[1..])
  }

  function RefusedEntry(e: Entry): seq<Path>
    decreases e
  {
    if Hidden(e.name) then []
    else match e
      case NonDir(_) => []
      case Sealed(n) => [[n]]
      case Dir(n, cs) => Prefixed(n, Refused(cs))
  }

  /** The reference: `p` leads through visible directories to a visible
      sealed directory. */
  ghost predicate VisibleSealed(es: seq<Entry>, p: Path)
    decreases es, 1
  {
    exists i :: 0 <= i < |es| && VisibleSealedIn(es[i], p)
  }

  ghost predicate VisibleSealedIn(e: Entry, p: Path)
    decreases e, 0
  {
    && |p| > 0
    && p[0] == e.name
    && !Hidden(e.name)
    && match e
       case NonDir(_) => false
       case Sealed(_) => |p| == 1
       case Dir(_, cs) => VisibleSealed(cs, p[1..])
  }

  /** `walk` fails exactly on the visible sealed directories it reaches:
      one inside a hidden directory, or hidden itself, does not stop it. */
  lemma {:induction false} RefusedExact(es: seq<Entry>, p: Path)
    ensures p in Refused(es) <==> VisibleSealed(es, p)
    decreases es
  {
    if |es| > 0 {
      RefusedEntryExact(es[0], p);
      RefusedExact(es[1..], p);
      assert forall i :: 1 <= i < |es| ==> es[i] == es[1..][i - 1];
      if VisibleSealed(es, p) && !VisibleSealedIn(es[0], p) {
        var i :| 0 <= i < |es| && VisibleSealedIn(es[i], p);
        assert VisibleSealedIn(es[1..][i - 1], p);
      }
    }
  }

  lemma {:induction false} RefusedEntryExact(e: Entry, p: Path)
    ensures p in RefusedEntry(e) <==> VisibleSealedIn(e, p)
    decreases e
  {
    match e
    case NonDir(_) =>
    case Sealed(n) =>
      if !Hidden(n) && |p| == 1 {
        assert p == [p[0]];
      }
    case Dir(n, cs) =>
      if !Hidden(n) {
        PrefixedHas(n, Refused(cs), p);
        if |p| > 0 {
          RefusedExact(cs, p[1..]);
        }
      }
  }

  /** The paths below `n` are `n` followed by a path found inside it. */
  lemma PrefixedHas(n: string, ps: seq<Path>, p: Path)
    ensures p in Prefixed(n, ps) <==> |p| > 0 && p[0] == n && p[1..] in ps
  {
    var r := Prefixed(n, ps);
    if p in r {
      var i :| 0 <= i < |r| && r[i] == p;
      assert p[1..] == ps[i];
    }
    if |p| > 0 && p[0] == n && p[1..] in ps {
      var i :| 0 <= i < |ps| && ps[i] == p[1..];
      assert p == [n] + p[1..];
      assert r[i] == p;
    }
  }

  /** No component of a path `walk` returns is hidden, and no such path is empty. */
  lemma {:induction false} WalkNoHidden(es: seq<Entry>, p: Path)
    requires p in Walk(es)
    ensures |p| > 0
    ensures forall k :: 0 <= k < |p| ==> !Hidden(p[k])
    decreases es
  {
    WalkExact(es, p);
    VisibleNoHidden(es, p);
  }

  lemma {:induction false} VisibleNoHidden(es: seq<Entry>, p: Path)
    requires VisibleFile(es, p)
    ensures |p| > 0
    ensures forall k :: 0 <= k < |p| ==> !Hidden(p[k])
    decreases es
  {
    var i :| 0 <= i < |es| && VisibleFileIn(es[i], p);
    if es[i].Dir? && |p| > 1 {
      VisibleNoHidden(es[i].children, p[1..]);
      assert forall k :: 1 <= k < |p| ==> p[k] == p[1..][k - 1];
    }
  }

  // ---------------------------------------------------------------------
  // The Part 10 signature

  newtype byte = x: int | 0 <= x < 256

  /** The DICOM prefix "DICM" that follows the 128-byte preamble (section 7.1
      of DICOM PS3.10), as character codes. */
  const Prefix: seq<int> := [68, 73, 67, 77]

  const PreambleLength := 128

  /** `isLikelyDicom(buf)`: `None` is a missing buffer. The four bytes after
      the preamble are decoded with Node's `'ascii'` encoding, which clears
      the high bit of every byte before comparing with "DICM". */
  function IsLikelyDicom(buf: Option<seq<byte>>): (r: bool)
    ensures r <==>
      && buf.Some? && |buf.value| >= PreambleLength + 4
      && forall k :: 0 <= k < 4 ==> (buf.value[PreambleLength + k] as int) % 128 == Prefix[k]
  {
    match buf
    case None => false
    case Some(b) =>
      if |b| < PreambleLength + 4 then false
      else AsciiAt(b, PreambleLength) == Prefix
  }

  /** The `'ascii'` decoding of the four bytes at `at`. */
  function AsciiAt(b: seq<byte>, at: nat): (s: seq<int>)
    requires at + 4 <= |b|
    ensures |s| == 4
    ensures forall k :: 0 <= k < 4 ==> s[k] == (b[at + k] as int) % 128
  {
    seq(4, k requires 0 <= k < 4 => (b[at + k] as int) % 128)
  }

  /** A Part 10 file, whose bytes 128..131 are exactly "DICM", is recognised. */
  lemma Part10Recognised(b: seq<byte>)
    requires |b| >= 132
    requires forall k :: 0 <= k < 4 ==> b[128 + k] as int == Prefix[k]
    ensures IsLikelyDicom(Some(b))
  {
  }

  /** Anything shorter than preamble and prefix is rejected. */
  lemma ShortRejected(b: seq<byte>)
    requires |b| < 132
    ensures !IsLikelyDicom(Some(b))
  {
  }

  /** Because the high bit is cleared, the bytes 0xC4 0xC9 0xC3 0xCD after the
      preamble are accepted as well, although they are not "DICM". */
  lemma HighBitAccepted(b: seq<byte>)
    requires |b| >= 132
    requires b[128] == 0xC4 && b[129] == 0xC9 && b[130] == 0xC3 && b[131] == 0xCD
    ensures IsLikelyDicom(Some(b))
    ensures exists k :: 0 <= k < 4 && b[128 + k] as int != Prefix[k]
  {
    assert b[128] as int != Prefix[0];
  }
}
