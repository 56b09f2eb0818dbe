/**
 * The file system layout of `Fs`: a root with "storage" and "backup" folders and an
 * optional ingress folder, the search of the ingress for scans, the move of hashed
 * scans into storage, and the bottom-up removal of empty folders.
 */
module Layout {
  import opened Wrappers
  import opened Paths
  import opened Base64Url
  import Lifecycle
  import opened Scans
  import opened Tree

  /**
   * Why an `Fs` operation raises: there is no ingress folder, scan `position` has no hash,
   * or the move of scan `position` failed.
   */
  datatype FsError = NoIngressDir | NoHash(position: nat) | NotMoved(position: nat)

  /** The paths among `fs` that name a scan, in walk order. */
  function ScanPaths(fs: seq<Found>): (r: seq<Path>)
    ensures |r| <= |fs|
  {
    if |fs| == 0 then []
    else
      var init := ScanPaths(fs[..|fs| - 1]);
      var p := fs[|fs| - 1].path;
      if IsScanPath(p) then init + [p] else init
  }

  lemma ScanPathsStep(fs: seq<Found>, i: nat)
    requires i < |fs|
    ensures ScanPaths(fs[..i + 1]) == ScanPaths(fs[..i]) + (if IsScanPath(fs[i].path) then [fs[i].path] else [])
  {
    assert fs[..i + 1][..i] == fs[..i];
  }

  /** A path is kept exactly when a walked file carries it and it names a scan. */
  lemma {:induction false} ScanPathsMeaning(fs: seq<Found>)
    ensures forall p :: p in ScanPaths(fs) <==> IsScanPath(p) && exists k :: 0 <= k < |fs| && fs[k].path == p
    decreases |fs|
  {
    if |fs| > 0 {
      var init := fs[..|fs| - 1];
      ScanPathsMeaning(init);
      assert forall k :: 0 <= k < |init| ==> init[k] == fs[k];
      forall p | IsScanPath(p) && exists k :: 0 <= k < |fs| && fs[k].path == p
        ensures p in ScanPaths(fs)
      {
        var k :| 0 <= k < |fs| && fs[k].path == p;
        if k < |init| {
          assert init[k].path == p;
        }
      }
    }
  }

  /** Scans just built from `ps`: one per path, in order, unhashed and in the fresh state. */
  ghost predicate NewScans(scans: seq<Scan>, ps: seq<Path>)
    reads scans, set s | s in scans :: s.state, set s | s in scans :: s.state.flags
  {
    && |scans| == |ps|
    && forall k :: 0 <= k < |ps| ==>
      && scans[k].path == ps[k] && scans[k].filename == Basename(ps[k]) && scans[k].hash == None
      && scans[k].state.Shaped() && scans[k].state.flags[..] == Lifecycle.Fresh
  }

  /** What a storage run reads of a scan before it starts: its path, hash and file name. */
  datatype Listed = Listed(path: Path, hash: Option<string>, filename: string)

  /** The scans as a storage run finds them. */
  function ListingOf(scans: seq<Scan>): (ls: seq<Listed>)
    reads scans
    ensures |ls| == |scans|
  {
    if |scans| == 0 then []
    else
      var last := scans[|scans| - 1];
      ListingOf(scans[..|scans| - 1]) + [Listed(last.path, last.hash, last.filename)]
  }

  /** Each scan's entry in the listing holds its path, hash and file name. */
  lemma {:induction false} ListingAt(scans: seq<Scan>)
    ensures forall k :: 0 <= k < |scans| ==>
      ListingOf(scans)[k] == Listed(scans[k].path, scans[k].hash, scans[k].filename)
    decreases |scans|
  {
    if |scans| > 0 {
      var init := scans[..|scans| - 1];
      ListingAt(init);
      assert forall k :: 0 <= k < |init| ==> init[k] == scans[k];
    }
  }

  /** Scan `k`'s entry in the listing. */
  lemma ListedAt(scans: seq<Scan>, k: nat)
    requires k < |scans|
    ensures ListingOf(scans)[k] == Listed(scans[k].path, scans[k].hash, scans[k].filename)
  {
    ListingAt(scans);
  }

  /** The first `n` listed scans have a hash. */
  predicate HashedFirst(ls: seq<Listed>, n: nat)
    requires n <= |ls|
  {
    forall k :: 0 <= k < n ==> ls[k].hash.Some?
  }

  class Fs {
    const root: Path
    const ingressDir: Option<Path>
    const storageDir: Path
    const backupDir: Path
    /** The entries of the root folder. */
    var entries: seq<Node>
    /** The paths of the regular files the moves of scans see. */
    var files: set<Path>

    /** `__init__`: "storage" and "backup" sit directly in the root. */
    constructor (rootDir: Path, ingress: Option<Path>, listing: seq<Node>, present: set<Path>)
      ensures root == rootDir && ingressDir == ingress && entries == listing && files == present
      ensures storageDir == Join(rootDir, "storage") && backupDir == Join(rootDir, "backup")
    {
      root := rootDir;
      ingressDir := ingress;
      storageDir := Join(rootDir, "storage");
      backupDir := Join(rootDir, "backup");
      entries := listing;
      files := present;
    }

    /**
     * `get_valid_scans_from_ingress`, given the entries of the ingress folder: a new scan
     * for every regular file below it, recursively, whose path names a scan, in the order
     * the `rglob` of Python 3.11 and earlier reports the files. The paths are the folder's
     * text joined with the names; `pathlib` would also drop "." components and repeated
     * slashes from the folder's text.
     */
    method GetValidScansFromIngress(ingress: seq<Node>) returns (r: Result<seq<Scan>, FsError>)
      ensures r.Err? <==> ingressDir.None?
      ensures r.Err? ==> r.error == NoIngressDir
      ensures r.Ok? ==>
        && NewScans(r.value, ScanPaths(RglobFiles(ingress, ingressDir.value)))
        && forall s :: s in r.value ==> fresh(s) && fresh(s.state.flags)
    {
      if ingressDir.None? {
        return Err(NoIngressDir);
      }
      var found := RglobFiles(ingress, ingressDir.value);
      var scans: seq<Scan> := [];
      var i := 0;
      while i < |found|
        invariant 0 <= i <= |found|
        invariant NewScans(scans, ScanPaths(found[..i]))
        invariant forall s :: s in scans ==> fresh(s) && fresh(s.state.flags)
      {
        ScanPathsStep(found, i);
        scans := KeepIfValid(scans, ScanPaths(found[..i]), found[i].path);
        i := i + 1;
      }
      assert found[..i] == found;
      return Ok(scans);
    }

    /** One file of `get_valid_scans_from_ingress`: a new scan of it, kept when its path names a scan. */
    static method KeepIfValid(scans: seq<Scan>, ghost ps: seq<Path>, p: Path) returns (r: seq<Scan>)
      requires NewScans(scans, ps)
      ensures NewScans(r, ps + if IsScanPath(p) then [p] else [])
      ensures forall s :: s in r ==> s in scans || (fresh(s) && fresh(s.state.flags))
    {
      var scan := new Scan(p);
      if !scan.IsValid() {
        assert ps + [] == ps;
        return scans;
      }
      r := scans + [scan];
    }

    /**
     * `_add_scan_to_ingress`: adding a scan to the ingress means hashing it in place,
     * given the bytes at its path (None when no regular file is there); the value
     * `hash_scan` returns is dropped, and only its `ValueError` comes through.
     */
    method AddScanToIngress(scan: Scan, sha: Bytes -> Digest, content: Option<Bytes>) returns (r: Outcome<ScanError>)
      modifies scan`hash
      ensures r.Fail? <==> scan.IsValid() && content.None?
      ensures r.Fail? ==> r.error == NotAFile
      ensures scan.hash == if scan.IsValid() && content.Some? then Some(HashOf(sha, content.value)) else old(scan.hash)
    {
      var h := scan.HashScan(sha, content);
      if h.Err? {
        return Fail(h.error);
      }
      return Pass;
    }

    /** The storage folder of a hashed scan, named by its hash. */
    function HashFolder(s: Scan): Path
      reads s`hash
      requires s.hash.Some?
    {
      Join(storageDir, s.hash.value)
    }

    /** Where `add_scan_to_storage` points a hashed scan. */
    function StorageTarget(s: Scan): Path
      reads s`hash, s`filename
      requires s.hash.Some?
    {
      Join(HashFolder(s), s.filename)
    }

    /**
     * `add_scan_to_storage`: a hashed scan moves into the storage folder named by its hash.
     * A scan without a hash raises before anything moves; a failed move raises and leaves
     * the scan and the files as they were.
     */
    method AddScanToStorage(scan: Scan) returns (r: Outcome<FsError>)
      modifies this`files, scan`path
      ensures scan.hash.None? ==> r == Fail(NoHash(0)) && scan.path == old(scan.path) && files == old(files)
      ensures scan.hash.Some? ==> (r.Pass? <==> CanMove(old(files), old(scan.path), HashFolder(scan)))
      ensures scan.hash.Some? && r.Fail? ==> r == Fail(NotMoved(0)) && scan.path == old(scan.path) && files == old(files)
      ensures r.Pass? ==>
        && scan.hash.Some? && scan.path == StorageTarget(scan)
        && files == Moved(old(files), old(scan.path), HashFolder(scan))
    {
      if scan.hash.None? {
        return Fail(NoHash(0));
      }
      var dir := Join(storageDir, scan.hash.value);
      var src := scan.path;
      var moved := scan.Move(dir, files);
      if moved.Fail? {
        return Fail(NotMoved(0));
      }
      files := Moved(files, src, dir);
      return Pass;
    }

    /** The file a listed scan is recorded at once it is in storage. */
    function TargetOf(l: Listed): Path
      requires l.hash.Some?
    {
      Join(Join(storageDir, l.hash.value), l.filename)
    }

    /**
     * `now` lists the scans once the first `i` have moved to storage: those scans, and
     * every other listing of them, are recorded at their storage target; the rest are as
     * `ls` lists them.
     */
    predicate MovedFirst(scans: seq<Scan>, ls: seq<Listed>, now: seq<Listed>, i: nat)
      requires i <= |scans| == |ls| == |now|
    {
      forall k :: 0 <= k < |scans| ==>
        now[k] == if InFirst(scans, i, scans[k]) && ls[k].hash.Some? then ls[k].(path := TargetOf(ls[k])) else ls[k]
    }

    /**
     * The state of a storage run whose first `n` moves succeeded, from the listing `ls`
     * and the files `f0` it started with: those scans had a hash, `now` lists them at
     * their storage targets and the rest where they were, and the files are as those
     * moves left them.
     */
    predicate RanTo(scans: seq<Scan>, ls: seq<Listed>, f0: set<Path>, now: seq<Listed>, files: set<Path>, n: nat)
    {
      && n <= |scans| == |ls| == |now|
      && HashedFirst(ls, n)
      && MovedFirst(scans, ls, now, n)
      && files == FilesAfter(scans, ls, f0, n)
    }

    /** Where a storage run ended: at the scan that raised, or after the last one. */
    static function StopOf(r: Outcome<FsError>, n: nat): nat
    {
      if r.Fail? && !r.error.NoIngressDir? then r.error.position else n
    }

    /** Where scan `k` of a storage run starts from when its turn comes, every earlier move having succeeded. */
    function SourceOf(scans: seq<Scan>, ls: seq<Listed>, k: nat): Path
      requires k < |scans| == |ls| && ls[k].hash.Some?
    {
      if InFirst(scans, k, scans[k]) then TargetOf(ls[k]) else ls[k].path
    }

    /** The storage folder of a listed scan. */
    function FolderOf(l: Listed): Path
      requires l.hash.Some?
    {
      Join(storageDir, l.hash.value)
    }

    /** The regular files after the first `n` moves of a storage run, starting from `f0`. */
    function FilesAfter(scans: seq<Scan>, ls: seq<Listed>, f0: set<Path>, n: nat): set<Path>
      requires n <= |scans| == |ls| && HashedFirst(ls, n)
      decreases n
    {
      if n == 0 then f0
      else
        var before := FilesAfter(scans, ls, f0, n - 1);
        var src := SourceOf(scans, ls, n - 1);
        var dir := FolderOf(ls[n - 1]);
        if CanMove(before, src, dir) then Moved(before, src, dir) else before
    }

    /** Each of the first `n` moves of a storage run succeeds among the files the earlier ones left. */
    predicate MovesFit(scans: seq<Scan>, ls: seq<Listed>, f0: set<Path>, n: nat)
      requires n <= |scans| == |ls| && HashedFirst(ls, n)
      decreases n
    {
      n == 0 ||
        (MovesFit(scans, ls, f0, n - 1) &&
         CanMove(FilesAfter(scans, ls, f0, n - 1), SourceOf(scans, ls, n - 1), FolderOf(ls[n - 1])))
    }

    /**
     * How a storage run from the listing `ls` and the files `f0` ends, looking from scan
     * `i` on: it raises at the first scan without a hash, or at the first move the files
     * left by the earlier moves forbid, and passes when there is neither.
     */
    function RunFrom(scans: seq<Scan>, ls: seq<Listed>, f0: set<Path>, i: nat): Outcome<FsError>
      requires i <= |scans| == |ls| && HashedFirst(ls, i)
      decreases |scans| - i
    {
      if i == |scans| then Pass
      else if ls[i].hash.None? then Fail(NoHash(i))
      else if !CanMove(FilesAfter(scans, ls, f0, i), SourceOf(scans, ls, i), FolderOf(ls[i])) then Fail(NotMoved(i))
      else RunFrom(scans, ls, f0, i + 1)
    }

    /**
     * What a storage run's outcome says: it stops at a scan at or after `i`, every move
     * before it succeeded, and the scan it stops at has no hash or cannot move.
     */
    lemma {:induction false} RunFromMeaning(scans: seq<Scan>, ls: seq<Listed>, f0: set<Path>, i: nat)
      requires i <= |scans| == |ls| && HashedFirst(ls, i) && MovesFit(scans, ls, f0, i)
      ensures var r := RunFrom(scans, ls, f0, i); var stop := StopOf(r, |scans|);
        && (r.Fail? ==> (r.error.NoHash? || r.error.NotMoved?) && stop < |scans|)
        && i <= stop <= |scans| && HashedFirst(ls, stop) && MovesFit(scans, ls, f0, stop)
        && (r.Fail? && r.error.NoHash? ==> ls[stop].hash.None?)
        && (r.Fail? && r.error.NotMoved? ==>
              ls[stop].hash.Some? && !CanMove(FilesAfter(scans, ls, f0, stop), SourceOf(scans, ls, stop), FolderOf(ls[stop])))
      decreases |scans| - i
    {
      if i == |scans| {
        assert RunFrom(scans, ls, f0, i) == Pass;
      } else if ls[i].hash.None? {
        assert RunFrom(scans, ls, f0, i) == Fail(NoHash(i));
      } else if !CanMove(FilesAfter(scans, ls, f0, i), SourceOf(scans, ls, i), FolderOf(ls[i])) {
        assert RunFrom(scans, ls, f0, i) == Fail(NotMoved(i));
      } else {
        assert HashedFirst(ls, i + 1) && MovesFit(scans, ls, f0, i + 1);
        assert RunFrom(scans, ls, f0, i) == RunFrom(scans, ls, f0, i + 1);
        RunFromMeaning(scans, ls, f0, i + 1);
      }
    }

    /** A whole storage run passes exactly when every scan has a hash and every move fits. */
    lemma RunMeaning(scans: seq<Scan>, ls: seq<Listed>, f0: set<Path>)
      requires |scans| == |ls|
      ensures RunFrom(scans, ls, f0, 0).Pass? <==> HashedFirst(ls, |scans|) && MovesFit(scans, ls, f0, |scans|)
    {
      RunFromMeaning(scans, ls, f0, 0);
      var r := RunFrom(scans, ls, f0, 0);
      if r.Fail? && r.error.NotMoved? && HashedFirst(ls, |scans|) {
        FailureStaysFailed(scans, ls, f0, r.error.position, |scans|);
      }
    }

    /**
     * `add_scans_to_storage`: the scans move one after another. The first scan without a
     * hash, or whose move fails, raises; the scans after it stay where they are.
     */
    method AddScansToStorage(scans: seq<Scan>) returns (r: Outcome<FsError>)
      modifies this`files, scans`path
      ensures r == RunFrom(scans, old(ListingOf(scans)), old(files), 0)
      ensures RanTo(scans, old(ListingOf(scans)), old(files), ListingOf(scans), files, StopOf(r, |scans|))
    {
      ghost var ls := ListingOf(scans);
      ghost var f0 := files;
      var i := 0;
      while i < |scans|
        invariant 0 <= i <= |scans|
        invariant RanTo(scans, ls, f0, ListingOf(scans), files, i)
        invariant RunFrom(scans, ls, f0, 0) == RunFrom(scans, ls, f0, i)
      {
        if scans[i].hash.None? {
          ListedAt(scans, i);
          assert ls[i].hash.None?;
          assert RunFrom(scans, ls, f0, i) == Fail(NoHash(i));
          return Fail(NoHash(i));
        }
        var moved := MoveNext(scans, ls, f0, i);
        if moved.Fail? {
          return Fail(NotMoved(i));
        }
        i := i + 1;
      }
      assert RunFrom(scans, ls, f0, i) == Pass;
      return Pass;
    }

    /** One iteration of `add_scans_to_storage`: scan `i` moves when the files allow it, and so does every other listing of it. */
    method MoveNext(scans: seq<Scan>, ghost ls: seq<Listed>, ghost f0: set<Path>, i: nat) returns (r: Outcome<FsError>)
      requires i < |scans| && scans[i].hash.Some? && RanTo(scans, ls, f0, ListingOf(scans), files, i)
      modifies this`files, scans`path
      ensures HashedFirst(ls, i + 1)
      ensures r.Pass? <==> CanMove(old(files), SourceOf(scans, ls, i), FolderOf(ls[i]))
      ensures r.Fail? ==> files == old(files) && RanTo(scans, ls, f0, ListingOf(scans), files, i)
      ensures r.Pass? ==> RanTo(scans, ls, f0, ListingOf(scans), files, i + 1)
      ensures RunFrom(scans, ls, f0, i) == if r.Pass? then RunFrom(scans, ls, f0, i + 1) else Fail(NotMoved(i))
    {
      ghost var before := ListingOf(scans);
      ListingAt(scans);
      assert before[i].path == SourceOf(scans, ls, i) && FolderOf(before[i]) == FolderOf(ls[i]);
      RunStep(scans, ls, f0, i);
      r := MoveListed(scans, i);
      MovedFirstStep(scans, ls, before, ListingOf(scans), i, r.Pass?);
    }

    /**
     * `add_scan_to_storage` on scan `i` of a run, seen through the listing of the scans:
     * when the move succeeds, every listing of that scan now names its storage target,
     * and nothing else changes.
     */
    method MoveListed(scans: seq<Scan>, i: nat) returns (r: Outcome<FsError>)
      requires i < |scans| && scans[i].hash.Some?
      modifies this`files, scans`path
      ensures var before := old(ListingOf(scans));
        && before[i].hash.Some?
        && (r.Pass? <==> CanMove(old(files), before[i].path, FolderOf(before[i])))
        && files == (if r.Pass? then Moved(old(files), before[i].path, FolderOf(before[i])) else old(files))
        && Relisted(scans, i, before, ListingOf(scans), r.Pass?)
    {
      ListingAt(scans);
      r := AddScanToStorage(scans[i]);
      ListingAt(scans);
    }

    /** `after` is `before` with every listing of scan `i` pointed at its storage target when it `moved`. */
    predicate Relisted(scans: seq<Scan>, i: nat, before: seq<Listed>, after: seq<Listed>, moved: bool)
    {
      && i < |scans| == |before| == |after|
      && forall k :: 0 <= k < |scans| ==>
        if scans[k] == scans[i] && moved then before[k].hash.Some? && after[k] == before[k].(path := TargetOf(before[k]))
        else after[k] == before[k]
    }

    /** After the move of scan `i`, or its failure, every other scan is where it was. */
    lemma MovedFirstStep(scans: seq<Scan>, ls: seq<Listed>, before: seq<Listed>, after: seq<Listed>, i: nat, moved: bool)
      requires i < |scans| == |ls| == |before| && MovedFirst(scans, ls, before, i)
      requires Relisted(scans, i, before, after, moved)
      ensures MovedFirst(scans, ls, after, if moved then i + 1 else i)
    {
      forall k | 0 <= k < |scans|
        ensures after[k] == if InFirst(scans, if moved then i + 1 else i, scans[k]) && ls[k].hash.Some?
          then ls[k].(path := TargetOf(ls[k])) else ls[k]
      {
      }
    }

    /** Step `i` of a run with a hashed scan: the run goes on exactly when its move fits, and the move changes the files. */
    lemma RunStep(scans: seq<Scan>, ls: seq<Listed>, f0: set<Path>, i: nat)
      requires i < |scans| == |ls| && HashedFirst(ls, i) && ls[i].hash.Some?
      ensures HashedFirst(ls, i + 1)
      ensures var fits := CanMove(FilesAfter(scans, ls, f0, i), SourceOf(scans, ls, i), FolderOf(ls[i]));
        && RunFrom(scans, ls, f0, i) == (if fits then RunFrom(scans, ls, f0, i + 1) else Fail(NotMoved(i)))
        && FilesAfter(scans, ls, f0, i + 1)
           == if fits then Moved(FilesAfter(scans, ls, f0, i), SourceOf(scans, ls, i), FolderOf(ls[i]))
              else FilesAfter(scans, ls, f0, i)
    {
    }

    /** A move that fails at step `i` keeps every longer run from fitting. */
    lemma {:induction false} FailureStaysFailed(scans: seq<Scan>, ls: seq<Listed>, f0: set<Path>, i: nat, n: nat)
      requires i < n <= |scans| == |ls| && HashedFirst(ls, n)
      requires !CanMove(FilesAfter(scans, ls, f0, i), SourceOf(scans, ls, i), FolderOf(ls[i]))
      ensures !MovesFit(scans, ls, f0, n)
      decreases n
    {
      assert HashedFirst(ls, n - 1);
      if i < n - 1 {
        FailureStaysFailed(scans, ls, f0, i, n - 1);
      }
    }

    /**
     * A scan listed twice never gets through a storage run: at its second listing it is
     * already in its hash folder, so the source and the target of the move are one path.
     */
    lemma ListedTwiceStops(scans: seq<Scan>, ls: seq<Listed>, f0: set<Path>, i: nat, j: nat)
      requires i < j < |scans| == |ls| && scans[i] == scans[j] && '/' !in ls[j].filename
      requires HashedFirst(ls, j + 1)
      ensures !MovesFit(scans, ls, f0, j + 1)
      ensures !RunFrom(scans, ls, f0, 0).Pass?
    {
      assert scans[..j][i] == scans[j];
      InFirstMeaning(scans, j, scans[j]);
      assert HashedFirst(ls, j);
      MoveAgainFails(FilesAfter(scans, ls, f0, j), FolderOf(ls[j]), ls[j].filename);
      RunMeaning(scans, ls, f0);
      if HashedFirst(ls, |scans|) && MovesFit(scans, ls, f0, |scans|) {
        FitsPrefix(scans, ls, f0, j + 1, |scans|);
      }
    }

    /** Every shorter run of a fitting run fits. */
    lemma {:induction false} FitsPrefix(scans: seq<Scan>, ls: seq<Listed>, f0: set<Path>, m: nat, n: nat)
      requires m <= n <= |scans| == |ls| && HashedFirst(ls, n) && MovesFit(scans, ls, f0, n)
      ensures HashedFirst(ls, m) && MovesFit(scans, ls, f0, m)
      decreases n
    {
      if m < n {
        assert HashedFirst(ls, n - 1);
        FitsPrefix(scans, ls, f0, m, n - 1);
      }
    }

    /**
     * One folder's pass of the bottom-up walk of `remove_empty_folders`: the entries `cs`
     * of the folder at `dir`, each pruned below first and then deleted when it is an empty
     * removable folder. `failing` holds the folders whose `rmdir` raises.
     */
    method PruneEntries(cs: seq<Node>, dir: Path, failing: set<Path>) returns (r: seq<Node>)
      ensures r == PruneAll(cs, dir, backupDir, failing)
      decreases cs, 1
    {
      r := [];
      var i := 0;
      assert cs[0..] == cs;
      while i < |cs|
        invariant 0 <= i <= |cs|
        invariant PruneAll(cs, dir, backupDir, failing) == r + PruneAll(cs[i..], dir, backupDir, failing)
      {
        var c := PruneEntry(cs[i], dir, failing);
        var kept: seq<Node> := if Removable(c, Join(dir, c.name), backupDir, failing) then [] else [c];
        PruneAllFrom(cs, i, dir, backupDir, failing);
        Associates(r, kept, PruneAll(cs[i + 1..], dir, backupDir, failing));
        r := r + kept;
        i := i + 1;
      }
    }

    method PruneEntry(n: Node, dir: Path, failing: set<Path>) returns (r: Node)
      ensures r == Prune(n, dir, backupDir, failing)
      decreases n, 0
    {
      match n
      case File(_, _) =>
        return n;
      case Dir(name, cs) =>
        var pruned := PruneEntries(cs, Join(dir, name), failing);
        return Dir(name, pruned);
    }

    /**
     * `remove_empty_folders`: the bottom-up walk of the root; the root itself is never a
     * candidate, and a failing `rmdir` leaves its folder and the walk goes on.
     */
    method RemoveEmptyFolders(failing: set<Path>)
      modifies this`entries
      ensures entries == PruneAll(old(entries), root, backupDir, failing)
    {
      entries := PruneEntries(entries, root, failing);
    }
  }

  /** The walk over the entries from position `i` on: entry `i`, pruned and kept unless removable, then the rest. */
  lemma PruneAllFrom(cs: seq<Node>, i: nat, dir: Path, backup: Path, failing: set<Path>)
    requires i < |cs|
    ensures var c := Prune(cs[i], dir, backup, failing);
      PruneAll(cs[i..], dir, backup, failing)
      == (if Removable(c, Join(dir, c.name), backup, failing) then [] else [c]) + PruneAll(cs[i + 1..], dir, backup, failing)
  {
    assert cs[i..][1..] == cs[i + 1..];
  }

  lemma Associates(a: seq<Node>, b: seq<Node>, c: seq<Node>)
    ensures a + (b + c) == (a + b) + c
  {
  }

  /**
   * What the walk promises: the same files remain, no removable empty folder is left at
   * any depth, and the backup folder is kept.
   */
  lemma PruneMeaning(cs: seq<Node>, root: Path, failing: set<Path>)
    ensures FilesIn(PruneAll(cs, root, Join(root, "backup"), failing), root) == FilesIn(cs, root)
    ensures NoEmptyDirs(PruneAll(cs, root, Join(root, "backup"), failing), root, Join(root, "backup"), failing)
    ensures forall k :: 0 <= k < |cs| && cs[k].name == "backup" ==>
      Prune(cs[k], root, Join(root, "backup"), failing) in PruneAll(cs, root, Join(root, "backup"), failing)
  {
    var backup := Join(root, "backup");
    PruneAllKeepsFiles(cs, root, backup, failing);
    PruneAllLeavesNoEmpty(cs, root, backup, failing);
    forall k | 0 <= k < |cs| && cs[k].name == "backup"
      ensures Prune(cs[k], root, backup, failing) in PruneAll(cs, root, backup, failing)
    {
      PruneAllKeepsBackup(cs, root, backup, failing, k);
    }
  }
}
