/**
 * The content store (`filesystem/storage.py`): one folder per scan, named by the
 * scan's hash and holding the scan file; placement of new scans, the integrity
 * check with its renames, and the recovery of folders the catalog does not list.
 */
module ContentStore {
  import opened Wrappers
  import opened Base64Url
  import opened Paths
  import Lifecycle
  import opened Scans
  import Helpers
  import opened Tree
  import opened Listing

  /** Why `insert` raises: no hash, the folder is already there, or the state machine refused the step. */
  datatype StoreError = NotHashed | FolderExists(name: string) | StateFailed(error: Lifecycle.StateError)

  /** What `insert` looks at in a scan before it runs: hash, file name and lifecycle flags. */
  datatype Pending = Pending(hash: Option<string>, name: string, flags: seq<bool>)

  ghost function PendingOf(s: Scan): Pending
    reads s, s.state.flags
  {
    Pending(s.hash, Basename(s.path), s.state.flags[..])
  }

  ghost function Pendings(scans: seq<Scan>): (ps: seq<Pending>)
    reads scans, set s | s in scans :: s.state.flags
    ensures |ps| == |scans| && forall k :: 0 <= k < |scans| ==> ps[k] == PendingOf(scans[k])
  {
    seq(|scans|, k reads scans, set s | s in scans :: s.state.flags requires 0 <= k < |scans| => PendingOf(scans[k]))
  }

  /** What a run of inserts reads and changes in a scan: its path, its lifecycle flags and its hash. */
  datatype ScanView = ScanView(path: Path, flags: seq<bool>, hash: Option<string>)

  /** The scans' views, in order. */
  ghost function ViewOf(scans: seq<Scan>): (vs: seq<ScanView>)
    reads scans, set s | s in scans :: s.state.flags
    ensures |vs| == |scans|
  {
    if |scans| == 0 then []
    else
      var last := scans[|scans| - 1];
      assert forall s :: s in scans[..|scans| - 1] ==> s in scans;
      ViewOf(scans[..|scans| - 1]) + [ScanView(last.path, last.state.flags[..], last.hash)]
  }

  /** Each view holds its scan's fields. */
  lemma {:induction false} ViewAt(scans: seq<Scan>)
    ensures forall k :: 0 <= k < |scans| ==>
      ViewOf(scans)[k] == ScanView(scans[k].path, scans[k].state.flags[..], scans[k].hash)
    decreases |scans|
  {
    if |scans| > 0 {
      var n := |scans| - 1;
      ViewAt(scans[..n]);
      forall k | 0 <= k < n
        ensures ViewOf(scans)[k] == ScanView(scans[k].path, scans[k].state.flags[..], scans[k].hash)
      {
        assert scans[..n][k] == scans[k];
      }
    }
  }

  /** The view of scan `k` holds its fields. */
  lemma ViewedAt(scans: seq<Scan>, k: nat)
    requires k < |scans|
    ensures ViewOf(scans)[k] == ScanView(scans[k].path, scans[k].state.flags[..], scans[k].hash)
  {
    ViewAt(scans);
  }

  /** What `insert` looks at in a scan, from its view. */
  function PendingOfView(v: ScanView): Pending {
    Pending(v.hash, Basename(v.path), v.flags)
  }

  /** What `insert` looks at in each scan, from their views. */
  function Snapshot(vs: seq<ScanView>): (ps: seq<Pending>)
    ensures |ps| == |vs| && forall k :: 0 <= k < |vs| ==> ps[k] == PendingOfView(vs[k])
  {
    seq(|vs|, k requires 0 <= k < |vs| => PendingOfView(vs[k]))
  }

  /**
   * The views `after` once `insert` changed scan `i` to `w`: every listing of that scan
   * had the same view before and has `w` now, and every other scan's view is unchanged.
   */
  predicate ViewsAfter(scans: seq<Scan>, i: nat, before: seq<ScanView>, after: seq<ScanView>, w: ScanView) {
    && i < |scans| == |before| == |after|
    && forall k :: 0 <= k < |scans| ==>
      if scans[k] == scans[i] then before[k] == before[i] && after[k] == w else after[k] == before[k]
  }

  /** `insert` succeeds for the scan against a store whose entries carry `names`. */
  predicate Insertable(p: Pending, names: set<string>) {
    Helpers.Truthy(p.hash) && p.hash.value !in names
    && Lifecycle.TruePrefix(p.flags) && Lifecycle.Level(p.flags) < |p.flags|
  }

  /** The folder names a run of inserts creates. */
  function Claimed(ps: seq<Pending>): set<string> {
    set k | 0 <= k < |ps| && ps[k].hash.Some? :: ps[k].hash.value
  }

  /** Every insert of the run succeeds, each against the folders the earlier ones created. */
  predicate AllInsertable(ps: seq<Pending>, names: set<string>) {
    |ps| == 0 ||
      (AllInsertable(ps[..|ps| - 1], names) && Insertable(ps[|ps| - 1], names + Claimed(ps[..|ps| - 1])))
  }

  /** The folders a successful run of inserts appends, in order. */
  function Placed(ps: seq<Pending>, datas: seq<Bytes>): (r: seq<Node>)
    requires |datas| == |ps| && forall k :: 0 <= k < |ps| ==> ps[k].hash.Some?
    ensures |r| == |ps|
  {
    if |ps| == 0 then []
    else
      var n := |ps| - 1;
      Placed(ps[..n], datas[..n]) + [Folder(ps[n].hash.value, ps[n].name, datas[n])]
  }

  /** One more insert in the run: the placed folders and the claimed names grow by that scan's folder. */
  lemma InsertStep(ps: seq<Pending>, datas: seq<Bytes>, i: nat)
    requires i < |ps| && |datas| == |ps| && forall k :: 0 <= k <= i ==> ps[k].hash.Some?
    ensures Claimed(ps[..i + 1]) == Claimed(ps[..i]) + {ps[i].hash.value}
    ensures Placed(ps[..i + 1], datas[..i + 1]) == Placed(ps[..i], datas[..i]) + [Folder(ps[i].hash.value, ps[i].name, datas[i])]
  {
    assert ps[..i + 1][..i] == ps[..i];
    assert datas[..i + 1][..i] == datas[..i];
    var c := Claimed(ps[..i + 1]);
    forall x ensures x in c <==> x in Claimed(ps[..i]) + {ps[i].hash.value} {
      if x in Claimed(ps[..i]) {
        var k :| 0 <= k < i && ps[..i][k].hash.Some? && ps[..i][k].hash.value == x;
        assert ps[..i + 1][k] == ps[k];
      }
      if x == ps[i].hash.value {
        assert ps[..i + 1][i] == ps[i];
      }
    }
  }

  /** The listing after `insert` (or a run of inserts), and the error raised, if any. */
  datatype Placement = Placement(entries: seq<Node>, error: Option<StoreError>)

  function Raised(r: Outcome<StoreError>): Option<StoreError> {
    if r.Fail? then Some(r.error) else None
  }

  /**
   * `insert` on the listing: no hash and an existing folder raise before anything is
   * created; otherwise the folder is created and the file moved into it, and only then
   * can the state machine refuse to advance.
   */
  function Inserted(es: seq<Node>, p: Pending, data: Bytes): (r: Placement)
    ensures r.error.None? <==> Insertable(p, Names(es))
    ensures r.error.None? ==> r.entries == es + [Folder(p.hash.value, p.name, data)]
    ensures |es| <= |r.entries| && r.entries[..|es|] == es
  {
    if !Helpers.Truthy(p.hash) then Placement(es, Some(NotHashed))
    else if p.hash.value in Names(es) then Placement(es, Some(FolderExists(p.hash.value)))
    else
      var placed := es + [Folder(p.hash.value, p.name, data)];
      assert placed[..|es|] == es;
      if !Lifecycle.TruePrefix(p.flags) then Placement(placed, Some(StateFailed(Lifecycle.InvalidState)))
      else if Lifecycle.Level(p.flags) == |p.flags| then Placement(placed, Some(StateFailed(Lifecycle.AtMaximum)))
      else Placement(placed, None)
  }

  /** `insert` for a new hash: the folder is placed, and only the state machine can still refuse. */
  lemma InsertedNew(es: seq<Node>, p: Pending, data: Bytes)
    requires Helpers.Truthy(p.hash) && p.hash.value !in Names(es)
    ensures Inserted(es, p, data).entries == es + [Folder(p.hash.value, p.name, data)]
    ensures Inserted(es, p, data).error ==
      if !Lifecycle.TruePrefix(p.flags) then Some(StateFailed(Lifecycle.InvalidState))
      else if Lifecycle.Level(p.flags) == |p.flags| then Some(StateFailed(Lifecycle.AtMaximum))
      else None
  {
  }

  /** `insert_many` on the listing: the inserts in order, stopping at the first that raises. */
  function InsertedAll(es: seq<Node>, ps: seq<Pending>, datas: seq<Bytes>): Placement
    requires |datas| == |ps|
  {
    if |ps| == 0 then Placement(es, None)
    else
      var n := |ps| - 1;
      Then(InsertedAll(es, ps[..n], datas[..n]), ps[n], datas[n])
  }

  /** One insert of the run; nothing happens once one has raised. */
  function Then(prev: Placement, p: Pending, data: Bytes): Placement {
    if prev.error.Some? then prev else Inserted(prev.entries, p, data)
  }

  lemma InsertedAllStep(es: seq<Node>, ps: seq<Pending>, datas: seq<Bytes>, i: nat)
    requires i < |ps| == |datas|
    ensures InsertedAll(es, ps[..i + 1], datas[..i + 1]) == Then(InsertedAll(es, ps[..i], datas[..i]), ps[i], datas[i])
  {
    assert ps[..i + 1][..i] == ps[..i];
    assert datas[..i + 1][..i] == datas[..i];
  }

  /** One insert of the run, seen from the listing before it: the run grows by it, and ends with it if it raises. */
  lemma RunStep(es: seq<Node>, ps: seq<Pending>, datas: seq<Bytes>, i: nat, before: seq<Node>, after: Placement)
    requires i < |ps| == |datas|
    requires Placement(before, None) == InsertedAll(es, ps[..i], datas[..i])
    requires after == Inserted(before, ps[i], datas[i])
    ensures after == InsertedAll(es, ps[..i + 1], datas[..i + 1])
    ensures after.error.Some? ==> after == InsertedAll(es, ps, datas)
  {
    InsertedAllStep(es, ps, datas, i);
    if after.error.Some? {
      InsertedAllStops(es, ps, datas, i + 1);
    }
  }

  /** After an insert has raised, the rest of the run changes nothing. */
  lemma {:induction false} InsertedAllStops(es: seq<Node>, ps: seq<Pending>, datas: seq<Bytes>, i: nat)
    requires i <= |ps| == |datas| && InsertedAll(es, ps[..i], datas[..i]).error.Some?
    ensures InsertedAll(es, ps, datas) == InsertedAll(es, ps[..i], datas[..i])
    decreases |ps|
  {
    if i < |ps| {
      var n := |ps| - 1;
      assert ps[..n][..i] == ps[..i] && datas[..n][..i] == datas[..i];
      InsertedAllStops(es, ps[..n], datas[..n], i);
    } else {
      assert ps[..i] == ps && datas[..i] == datas;
    }
  }

  /** A run of inserts never removes an entry, whether or not one raises. */
  lemma {:induction false} InsertedAllExtends(es: seq<Node>, ps: seq<Pending>, datas: seq<Bytes>)
    requires |datas| == |ps|
    ensures var r := InsertedAll(es, ps, datas).entries;
      |es| <= |r| && r[..|es|] == es
    decreases |ps|
  {
    if |ps| > 0 {
      var n := |ps| - 1;
      var prev := InsertedAll(es, ps[..n], datas[..n]);
      InsertedAllExtends(es, ps[..n], datas[..n]);
      if prev.error.None? {
        var r := Inserted(prev.entries, ps[n], datas[n]).entries;
        assert r[..|es|] == r[..|prev.entries|][..|es|];
      }
    }
  }

  /**
   * A run of inserts raises nothing exactly when every insert of it is possible against
   * the folders before it; it then appends the placed folders.
   */
  lemma {:induction false} InsertedAllMeaning(es: seq<Node>, ps: seq<Pending>, datas: seq<Bytes>)
    requires |datas| == |ps|
    ensures var r := InsertedAll(es, ps, datas);
      && (r.error.None? <==> AllInsertable(ps, Names(es)))
      && (r.error.None? ==>
            && (forall k :: 0 <= k < |ps| ==> ps[k].hash.Some?)
            && r.entries == es + Placed(ps, datas)
            && Names(r.entries) == Names(es) + Claimed(ps))
    decreases |ps|
  {
    if |ps| > 0 {
      var n := |ps| - 1;
      InsertedAllMeaning(es, ps[..n], datas[..n]);
      InsertedAllLastRaises(es, ps, datas);
      assert forall k :: 0 <= k < n ==> ps[..n][k] == ps[k];
      InsertedAllLastPlaces(es, ps, datas);
    }
  }

  /** The last insert of a run raises nothing exactly when it is possible after the earlier ones. */
  lemma InsertedAllLastRaises(es: seq<Node>, ps: seq<Pending>, datas: seq<Bytes>)
    requires 0 < |ps| == |datas|
    requires var prev := InsertedAll(es, ps[..|ps| - 1], datas[..|ps| - 1]);
      && (prev.error.None? <==> AllInsertable(ps[..|ps| - 1], Names(es)))
      && (prev.error.None? ==> Names(prev.entries) == Names(es) + Claimed(ps[..|ps| - 1]))
    ensures InsertedAll(es, ps, datas).error.None? <==> AllInsertable(ps, Names(es))
  {
    var n := |ps| - 1;
    var prev := InsertedAll(es, ps[..n], datas[..n]);
    assert InsertedAll(es, ps, datas) == Then(prev, ps[n], datas[n]);
  }

  /** After a run without error, the last insert appends its folder and claims its name. */
  lemma InsertedAllLastPlaces(es: seq<Node>, ps: seq<Pending>, datas: seq<Bytes>)
    requires 0 < |ps| == |datas|
    requires var prev := InsertedAll(es, ps[..|ps| - 1], datas[..|ps| - 1]);
      prev.error.None? ==>
        && (forall k :: 0 <= k < |ps| - 1 ==> ps[k].hash.Some?)
        && prev.entries == es + Placed(ps[..|ps| - 1], datas[..|ps| - 1])
        && Names(prev.entries) == Names(es) + Claimed(ps[..|ps| - 1])
    ensures var r := InsertedAll(es, ps, datas);
      r.error.None? ==>
        && (forall k :: 0 <= k < |ps| ==> ps[k].hash.Some?)
        && r.entries == es + Placed(ps, datas)
        && Names(r.entries) == Names(es) + Claimed(ps)
  {
    var n := |ps| - 1;
    var prev := InsertedAll(es, ps[..n], datas[..n]);
    var r := InsertedAll(es, ps, datas);
    assert r == Then(prev, ps[n], datas[n]);
    if r.error.None? {
      var f := Folder(ps[n].hash.value, ps[n].name, datas[n]);
      assert r.entries == prev.entries + [f];
      InsertStep(ps, datas, n);
      assert ps[..n + 1] == ps && datas[..n + 1] == datas;
      NamesAppend(prev.entries, f);
    }
  }

  /** Appending an entry adds its name. */
  lemma NamesAppend(es: seq<Node>, x: Node)
    ensures Names(es + [x]) == Names(es) + {x.name}
    ensures UniqueNames(es) && x.name !in Names(es) ==> UniqueNames(es + [x])
  {
    var r := es + [x];
    forall y ensures y in Names(r) <==> y in Names(es) + {x.name} {
      if y in Names(es) {
        var k :| 0 <= k < |es| && es[k].name == y;
        assert r[k].name == y;
      }
      if y == x.name {
        assert r[|es|].name == y;
      }
    }
    if UniqueNames(es) && x.name !in Names(es) {
      forall i, j | 0 <= i < j < |r| ensures r[i].name != r[j].name {
        if j == |es| {
          assert r[i] == es[i];
        }
      }
    }
  }

  /** A storage folder that holds exactly one scan file, and that file. */
  datatype Candidate = Candidate(folder: string, file: Found)

  /** The candidate an entry of the store yields: a folder with exactly one scan file by the shallow walk. */
  function CandidateOf(e: Node, store: Path): (r: Option<Candidate>)
    ensures r.Some? ==> IsScanPath(r.value.file.path) && r.value.folder == e.name
    ensures r.Some? <==> e.Dir? && |ShallowScanFiles(e.children, Join(store, e.name))| == 1
  {
    if e.File? then None
    else
      var files := ShallowScanFiles(e.children, Join(store, e.name));
      if |files| == 1 then Some(Candidate(e.name, files[0])) else None
  }

  /**
   * The file the integrity check counts in a candidate folder is the file the top-down
   * search of `get_existing_slides` finds in it.
   */
  lemma CandidateFound(e: Node, store: Path)
    requires CandidateOf(e, store).Some?
    ensures e.Dir? && FirstScan(e.children, Join(store, e.name)) == Some(CandidateOf(e, store).value.file)
  {
    ShallowThenFirst(e.children, Join(store, e.name));
  }

  /** The folders the integrity check hashes (`scan_data`), in listing order. */
  function Candidates(es: seq<Node>, store: Path): (r: seq<Candidate>)
    ensures forall k :: 0 <= k < |r| ==> IsScanPath(r[k].file.path)
  {
    if |es| == 0 then []
    else
      var c := CandidateOf(es[|es| - 1], store);
      Candidates(es[..|es| - 1], store) + (if c.Some? then [c.value] else [])
  }

  /** Every folder of the store holds exactly one scan file by the integrity check's count. */
  predicate AllSingle(es: seq<Node>, store: Path) {
    forall k :: 0 <= k < |es| && es[k].Dir? ==> CandidateOf(es[k], store).Some?
  }

  /** One more entry of the folder walk. */
  lemma GatherStep(es: seq<Node>, store: Path, i: nat)
    requires i < |es|
    ensures var c := CandidateOf(es[i], store);
      Candidates(es[..i + 1], store) == Candidates(es[..i], store) + (if c.Some? then [c.value] else [])
    ensures AllSingle(es[..i + 1], store) <==> AllSingle(es[..i], store) && (es[i].Dir? ==> CandidateOf(es[i], store).Some?)
  {
    assert es[..i + 1][..i] == es[..i];
    AllSingleStep(es, store, i);
  }

  lemma AllSingleStep(es: seq<Node>, store: Path, i: nat)
    requires i < |es|
    ensures AllSingle(es[..i + 1], store) <==> AllSingle(es[..i], store) && (es[i].Dir? ==> CandidateOf(es[i], store).Some?)
  {
    var p, q := es[..i + 1], es[..i];
    if AllSingle(q, store) && (es[i].Dir? ==> CandidateOf(es[i], store).Some?) {
      forall k | 0 <= k < |p| && p[k].Dir? ensures CandidateOf(p[k], store).Some? {
        if k < i {
          assert p[k] == q[k];
        }
      }
    }
    if AllSingle(p, store) {
      forall k | 0 <= k < |q| && q[k].Dir? ensures CandidateOf(q[k], store).Some? {
        assert p[k] == q[k];
      }
      assert p[i] == es[i];
    }
  }

  /** The hash recomputed for each candidate. */
  function Recomputed(sha: Bytes -> Digest, cs: seq<Candidate>): (hs: seq<string>)
    ensures |hs| == |cs| && forall k :: 0 <= k < |cs| ==> hs[k] == HashOf(sha, cs[k].file.data)
  {
    seq(|cs|, k requires 0 <= k < |cs| => HashOf(sha, cs[k].file.data))
  }

  /**
   * Every recomputed hash is a name a folder can take: 44 characters, truthy, one path
   * component. Two candidates get the same hash only when their files have the same digest.
   */
  lemma RecomputedNames(sha: Bytes -> Digest, cs: seq<Candidate>)
    ensures forall k :: 0 <= k < |cs| ==>
      |Recomputed(sha, cs)[k]| == 44 && Recomputed(sha, cs)[k] != "" && '/' !in Recomputed(sha, cs)[k]
    ensures forall j, k :: 0 <= j < |cs| && 0 <= k < |cs| && Recomputed(sha, cs)[j] == Recomputed(sha, cs)[k] ==>
      sha(cs[j].file.data) == sha(cs[k].file.data)
  {
    var hs := Recomputed(sha, cs);
    forall k | 0 <= k < |cs| ensures |hs[k]| == 44 && hs[k] != "" && '/' !in hs[k] {
      HashOfShape(sha, cs[k].file.data);
    }
    forall j, k | 0 <= j < |cs| && 0 <= k < |cs| && hs[j] == hs[k]
      ensures sha(cs[j].file.data) == sha(cs[k].file.data)
    {
      HashOfInjective(sha, cs[j].file.data, cs[k].file.data);
    }
  }

  /** The renames the integrity check asks for: each candidate folder to its recomputed hash. */
  function Retitles(sha: Bytes -> Digest, cs: seq<Candidate>): (rs: seq<Retitle>)
    ensures |rs| == |cs| && forall k :: 0 <= k < |cs| ==> rs[k] == Retitle(cs[k].folder, HashOf(sha, cs[k].file.data))
  {
    seq(|cs|, k requires 0 <= k < |cs| => Retitle(cs[k].folder, HashOf(sha, cs[k].file.data)))
  }

  /** One more rename of the run. */
  lemma ReconcileStep(es: seq<Node>, rs: seq<Retitle>, i: nat)
    requires i < |rs|
    ensures Reconcile(es, rs[..i + 1]) == Apply(Reconcile(es, rs[..i]), rs[i])
  {
    assert rs[..i + 1][..i] == rs[..i];
  }

  /** One more lookup of the catalog comparison. */
  lemma CompareStep(table: set<string>, hs: seq<string>, i: nat)
    requires i < |hs|
    ensures var prev := Compare(table, hs[..i]);
      Compare(table, hs[..i + 1]) ==
        if hs[i] in prev.rest then Tally(prev.rest - {hs[i]}, prev.allFound) else Tally(prev.rest, false)
  {
    assert hs[..i + 1][..i] == hs[..i];
  }

  /** Once a rename has failed, the later ones are never attempted. */
  lemma {:induction false} ReconcileStops(es: seq<Node>, rs: seq<Retitle>, i: nat)
    requires i <= |rs| && Reconcile(es, rs[..i]).error.Some?
    ensures Reconcile(es, rs) == Reconcile(es, rs[..i])
    decreases |rs|
  {
    if i == |rs| {
      assert rs[..i] == rs;
    } else {
      assert rs[..|rs| - 1][..i] == rs[..i];
      ReconcileStops(es, rs[..|rs| - 1], i);
    }
  }

  /** The entries of the folder called `h` (none when there is no such folder). */
  function Contents(es: seq<Node>, h: string): seq<Node> {
    match Find(es, h)
    case None => []
    case Some(i) => if es[i].Dir? then es[i].children else []
  }

  /** The scan file `get_existing_slides` finds in folder `h`. */
  function ScanFileOf(es: seq<Node>, store: Path, h: string): Option<Found> {
    FirstScan(Contents(es, h), Join(store, h))
  }

  predicate AllFound(es: seq<Node>, store: Path, hs: set<string>) {
    forall h :: h in hs ==> ScanFileOf(es, store, h).Some?
  }

  /** Every folder in `hs` holds a scan file whose hash is the folder's name. */
  predicate AllMatch(es: seq<Node>, store: Path, hs: set<string>, sha: Bytes -> Digest) {
    forall h :: h in hs ==> ScanFileOf(es, store, h).Some? && HashOf(sha, ScanFileOf(es, store, h).value.data) == h
  }

  /** The candidates list each folder of `hs` exactly once. */
  predicate Enumerates(cs: seq<Candidate>, hs: set<string>) {
    && (forall i, j :: 0 <= i < j < |cs| ==> cs[i].folder != cs[j].folder)
    && (set k | 0 <= k < |cs| :: cs[k].folder) == hs
  }

  /** The scans `get_existing_slides` returns: one per folder of `hs`, named by it, at "storage". */
  ghost predicate Recovered(scans: seq<Scan>, es: seq<Node>, store: Path, hs: set<string>)
    reads scans, set s | s in scans :: s.state.flags
  {
    && (forall k :: 0 <= k < |scans| ==>
          scans[k].hash.Some? && scans[k].hash.value in hs
          && ScanFileOf(es, store, scans[k].hash.value).Some?
          && scans[k].path == ScanFileOf(es, store, scans[k].hash.value).value.path
          && scans[k].state.flags[..] == Lifecycle.FlagsAt(3))
    && (forall j, k :: 0 <= j < k < |scans| ==> scans[j].hash != scans[k].hash)
    && (forall h :: h in hs ==> exists k :: 0 <= k < |scans| && scans[k].hash == Some(h))
  }

  /** `get_existing_slides` gives up without writing: the integrity check failed, the catalog lists a missing folder, or a new folder holds no scan file. */
  predicate Aborts(before: seq<Node>, after: seq<Node>, store: Path, table: set<string>) {
    || !AllSingle(before, store)
    || !(table <= DirNames(after))
    || !AllFound(after, store, DirNames(after) - table)
  }

  lemma EnumeratesAppend(cs: seq<Candidate>, hs: set<string>, c: Candidate)
    requires Enumerates(cs, hs) && c.folder !in hs
    ensures Enumerates(cs + [c], hs + {c.folder})
  {
    var r := cs + [c];
    assert forall k :: 0 <= k < |cs| ==> r[k] == cs[k];
    assert r[|cs|] == c;
    assert (set k | 0 <= k < |r| :: r[k].folder) == (set k | 0 <= k < |cs| :: cs[k].folder) + {c.folder};
  }

  /** The candidates list each folder of `hs` once, each with the scan file the walk finds in it. */
  predicate Located(es: seq<Node>, store: Path, cs: seq<Candidate>, hs: set<string>) {
    && Enumerates(cs, hs)
    && forall k :: 0 <= k < |cs| ==> ScanFileOf(es, store, cs[k].folder) == Some(cs[k].file)
  }

  lemma LocatedAppend(es: seq<Node>, store: Path, cs: seq<Candidate>, hs: set<string>, h: string)
    requires Located(es, store, cs, hs) && h !in hs && ScanFileOf(es, store, h).Some?
    ensures Located(es, store, cs + [Candidate(h, ScanFileOf(es, store, h).value)], hs + {h})
  {
    var c := Candidate(h, ScanFileOf(es, store, h).value);
    var r := cs + [c];
    EnumeratesAppend(cs, hs, c);
    forall k | 0 <= k < |r| ensures ScanFileOf(es, store, r[k].folder) == Some(r[k].file) {
      if k < |cs| {
        assert r[k] == cs[k];
      }
    }
  }

  /** Locating every folder of `hs` means every one of them holds a scan file. */
  lemma LocatedAll(es: seq<Node>, store: Path, cs: seq<Candidate>, hs: set<string>)
    requires Located(es, store, cs, hs)
    ensures AllFound(es, store, hs)
  {
    forall h | h in hs ensures ScanFileOf(es, store, h).Some? {
      assert h in (set k | 0 <= k < |cs| :: cs[k].folder);
      var k :| 0 <= k < |cs| && cs[k].folder == h;
    }
  }

  /**
   * With each folder of `hs` enumerated once together with its scan file, every folder
   * matches its file's hash exactly when every enumerated pair does.
   */
  lemma MatchEnumerated(es: seq<Node>, store: Path, hs: set<string>, sha: Bytes -> Digest, data: seq<Candidate>)
    requires Enumerates(data, hs)
    requires forall k :: 0 <= k < |data| ==> ScanFileOf(es, store, data[k].folder) == Some(data[k].file)
    ensures AllMatch(es, store, hs, sha) <==> forall k :: 0 <= k < |data| ==> HashOf(sha, data[k].file.data) == data[k].folder
  {
    if forall k :: 0 <= k < |data| ==> HashOf(sha, data[k].file.data) == data[k].folder {
      forall h | h in hs
        ensures ScanFileOf(es, store, h).Some? && HashOf(sha, ScanFileOf(es, store, h).value.data) == h
      {
        assert h in (set k | 0 <= k < |data| :: data[k].folder);
        var k :| 0 <= k < |data| && data[k].folder == h;
      }
    }
    if AllMatch(es, store, hs, sha) {
      forall k | 0 <= k < |data| ensures HashOf(sha, data[k].file.data) == data[k].folder {
        assert data[k].folder in hs;
      }
    }
  }

  /** Two different scans never share their flags, as every scan the constructor builds has its own state. */
  predicate OwnStates(scans: seq<Scan>) {
    forall j, k :: 0 <= j < |scans| && 0 <= k < |scans| && scans[j] != scans[k] ==>
      scans[j].state.flags != scans[k].state.flags
  }

  /** Once a hash has its folder, `insert` of a scan with that hash raises, whatever its name and flags. */
  lemma InsertedByHash(es: seq<Node>, p: Pending, q: Pending, data: Bytes)
    requires p.hash == q.hash && p.hash.Some? && p.hash.value in Names(es)
    ensures Inserted(es, p, data) == Inserted(es, q, data)
    ensures Inserted(es, p, data).error.Some?
  {
  }

  /** Why `get_existing_slides` raises. */
  datatype SlidesError = RenameFailed(error: RenameError) | HashMismatch(folder: string)

  /** The storage folder and its current listing. */
  class Storage {
    const path: Path
    var entries: seq<Node>

    predicate Valid()
      reads this
    {
      UniqueNames(entries)
    }

    /** `Storage(path)`: the folder is created if missing and keeps what it already holds. */
    constructor (p: Path, listing: seq<Node>)
      requires UniqueNames(listing)
      ensures path == p && entries == listing && Valid()
    {
      path := p;
      entries := listing;
    }

    /**
     * `insert`: refuses a scan without a hash and a hash whose folder exists; otherwise
     * creates `<store>/<hash>`, moves the file `data` into it, points the scan there and
     * advances its state, whose refusal raises after the move.
     */
    method Insert(scan: Scan, data: Bytes) returns (r: Outcome<StoreError>)
      requires Valid() && scan.state.Shaped()
      modifies this`entries, scan`path, scan.state.flags
      ensures Valid()
      ensures Placement(entries, Raised(r)) == Inserted(old(entries), old(PendingOf(scan)), data)
      ensures scan.path ==
        if Helpers.Truthy(scan.hash) && scan.hash.value !in old(Names(entries))
        then Join(Join(path, scan.hash.value), old(Basename(scan.path)))
        else old(scan.path)
      ensures scan.state.flags[..] == if r.Pass? then Lifecycle.Advance(old(scan.state.flags[..])) else old(scan.state.flags[..])
    {
      var h := scan.hash;
      if !(h.Some? && h.value != "") {
        return Fail(NotHashed);
      }
      // `os.makedirs(target, exist_ok = False)`
      if Find(entries, h.value).Some? {
        return Fail(FolderExists(h.value));
      }
      r := Place(scan, data);
    }

    /** The part of `insert` after the checks: create the folder, move the file in, advance the state. */
    method Place(scan: Scan, data: Bytes) returns (r: Outcome<StoreError>)
      requires Valid() && scan.state.Shaped()
      requires Helpers.Truthy(scan.hash) && scan.hash.value !in Names(entries)
      modifies this`entries, scan`path, scan.state.flags
      ensures Valid()
      ensures Placement(entries, Raised(r)) == Inserted(old(entries), old(PendingOf(scan)), data)
      ensures scan.path == Join(Join(path, scan.hash.value), old(Basename(scan.path)))
      ensures scan.state.flags[..] == if r.Pass? then Lifecycle.Advance(old(scan.state.flags[..])) else old(scan.state.flags[..])
    {
      var h := scan.hash.value;
      var name := Basename(scan.path);
      InsertedNew(entries, PendingOf(scan), data);
      NamesAppend(entries, Folder(h, name, data));
      entries := entries + [Folder(h, name, data)];
      scan.path := Join(Join(path, h), name);
      var step := scan.state.MoveForward();
      r := if step.Fail? then Fail(StateFailed(step.error)) else Pass;
    }

    /** A scan's view once `insert` has placed it in its hash folder and advanced its state. */
    function Stored(v: ScanView): ScanView
      requires v.hash.Some?
    {
      ScanView(Join(Join(path, v.hash.value), Basename(v.path)), Lifecycle.Advance(v.flags), v.hash)
    }

    /**
     * A scan's view after `insert` against entries named `names`: the file moves when the
     * hash is set and has no folder yet, and the state advances when `insert` passed.
     */
    function AfterInsert(v: ScanView, names: set<string>, passed: bool): ScanView {
      ScanView(
        if Helpers.Truthy(v.hash) && v.hash.value !in names then Join(Join(path, v.hash.value), Basename(v.path)) else v.path,
        if passed then Lifecycle.Advance(v.flags) else v.flags,
        v.hash)
    }

    /**
     * `now` views the scans once the first `i` are inserted: those scans, at every listing
     * of them, are `Stored`; every other scan is as `v0` views it.
     */
    predicate InsertedFirst(scans: seq<Scan>, v0: seq<ScanView>, now: seq<ScanView>, i: nat)
      requires i <= |scans| == |v0| == |now|
    {
      forall k :: 0 <= k < |scans| ==>
        if InFirst(scans, i, scans[k]) then v0[k].hash.Some? && now[k] == Stored(v0[k]) else now[k] == v0[k]
    }

    /**
     * The state of `insert_many` after its first `i` inserts passed, from the views `v0` and
     * the entries `e0` it started with: the scans as `InsertedFirst` says, the entries as
     * `InsertedAll` says.
     */
    predicate InsertedUpTo(scans: seq<Scan>, datas: seq<Bytes>, v0: seq<ScanView>, e0: seq<Node>, now: seq<ScanView>, es: seq<Node>, i: nat)
    {
      && i <= |scans| == |datas| == |v0| == |now|
      && InsertedFirst(scans, v0, now, i)
      && Placement(es, None) == InsertedAll(e0, Snapshot(v0)[..i], datas[..i])
    }

    /**
     * `insert` of scan `i`, seen through the scans' views: every listing of that scan
     * changes as `insert` changes it, and no other scan changes.
     */
    method InsertViewed(scans: seq<Scan>, scan: Scan, i: nat, data: Bytes) returns (r: Outcome<StoreError>)
      requires Valid() && i < |scans| && scans[i] == scan && scan.state.Shaped() && OwnStates(scans)
      modifies this`entries, scan`path, scan.state.flags
      ensures Valid()
      ensures var before := old(ViewOf(scans));
        && Placement(entries, Raised(r)) == Inserted(old(entries), PendingOfView(before[i]), data)
        && ViewsAfter(scans, i, before, ViewOf(scans), AfterInsert(before[i], old(Names(entries)), r.Pass?))
    {
      ViewAt(scans);
      r := Insert(scan, data);
      ViewAt(scans);
      forall k | 0 <= k < |scans| && scans[k] != scan
        ensures scans[k].state.flags[..] == old(scans[k].state.flags[..])
      {
        var a := scans[k].state.flags;
        assert a != scan.state.flags;
        assert forall j :: 0 <= j < a.Length ==> a[j] == old(a[j]);
      }
    }

    /** After a first insert of scan `i` passed, the first `i + 1` scans are `Stored` and the rest unchanged. */
    lemma InsertedFirstStep(scans: seq<Scan>, v0: seq<ScanView>, before: seq<ScanView>, after: seq<ScanView>, i: nat, names: set<string>)
      requires i < |scans| == |v0| == |before| && InsertedFirst(scans, v0, before, i)
      requires !InFirst(scans, i, scans[i]) && Insertable(PendingOfView(before[i]), names)
      requires ViewsAfter(scans, i, before, after, AfterInsert(before[i], names, true))
      ensures InsertedFirst(scans, v0, after, i + 1)
    {
      forall k | 0 <= k < |scans|
        ensures if InFirst(scans, i + 1, scans[k]) then v0[k].hash.Some? && after[k] == Stored(v0[k]) else after[k] == v0[k]
      {
        if scans[k] == scans[i] {
          assert before[k] == v0[k] && before[i] == v0[i];
        }
      }
    }

    /**
     * One `insert` of `insert_many`, against the scans' views from before the loop. A scan
     * listed a second time finds its hash folder already there and raises.
     */
    method InsertNext(scans: seq<Scan>, scan: Scan, datas: seq<Bytes>, i: nat, ghost e0: seq<Node>, ghost v0: seq<ScanView>)
      returns (step: Outcome<StoreError>)
      requires Valid() && i < |scans| && scans[i] == scan && scan.state.Shaped() && OwnStates(scans)
      requires InsertedUpTo(scans, datas, v0, e0, ViewOf(scans), entries, i)
      modifies this`entries, scan`path, scan.state.flags
      ensures Valid()
      ensures Placement(entries, Raised(step)) == InsertedAll(e0, Snapshot(v0)[..i + 1], datas[..i + 1])
      ensures step.Pass? ==> InsertedUpTo(scans, datas, v0, e0, ViewOf(scans), entries, i + 1)
    {
      ghost var ps := Snapshot(v0);
      ghost var before := ViewOf(scans);
      ghost var names := Names(entries);
      InsertedAllMeaning(e0, ps[..i], datas[..i]);
      InsertedAllStep(e0, ps, datas, i);
      if InFirst(scans, i, scan) {
        InFirstMeaning(scans, i, scan);
        ghost var j :| 0 <= j < i && scans[..i][j] == scan;
        ViewedAt(scans, j);
        ViewedAt(scans, i);
        assert before[j] == before[i];
        assert ps[..i][j] == ps[j] && v0[j].hash == v0[i].hash;
        InsertedByHash(entries, PendingOfView(before[i]), ps[i], datas[i]);
        step := InsertViewed(scans, scan, i, datas[i]);
        return;
      }
      assert before[i] == v0[i];
      step := InsertViewed(scans, scan, i, datas[i]);
      if step.Pass? {
        InsertedFirstStep(scans, v0, before, ViewOf(scans), i, names);
      }
    }

    /** The loop of `insert_many`, against the scans' views from before it. */
    method InsertRun(scans: seq<Scan>, datas: seq<Bytes>) returns (step: Outcome<StoreError>)
      requires Valid() && |datas| == |scans|
      requires forall k :: 0 <= k < |scans| ==> scans[k].state.Shaped()
      requires OwnStates(scans)
      modifies this`entries, scans`path, set s | s in scans :: s.state.flags
      ensures Valid()
      ensures Placement(entries, Raised(step)) == InsertedAll(old(entries), Snapshot(old(ViewOf(scans))), datas)
      ensures step.Pass? ==> var v0 := old(ViewOf(scans)); var v := ViewOf(scans);
        forall k :: 0 <= k < |scans| ==> v0[k].hash.Some? && v[k] == Stored(v0[k])
    {
      ghost var e0 := entries;
      ghost var v0 := ViewOf(scans);
      assert Snapshot(v0)[..0] == [] && datas[..0] == [];
      var i := 0;
      while i < |scans|
        invariant 0 <= i <= |scans| && Valid()
        invariant InsertedUpTo(scans, datas, v0, e0, ViewOf(scans), entries, i)
      {
        step := InsertNext(scans, scans[i], datas, i, e0, v0);
        if step.Fail? {
          InsertedAllStops(e0, Snapshot(v0), datas, i + 1);
          return;
        }
        i := i + 1;
      }
      assert Snapshot(v0)[..i] == Snapshot(v0) && datas[..i] == datas;
      forall k | 0 <= k < |scans| ensures InFirst(scans, i, scans[k]) {
        assert scans[..i][k] == scans[k];
        InFirstMeaning(scans, i, scans[k]);
      }
      return Pass;
    }

    /**
     * `insert_many`: inserts the scans in order and stops at the first that raises; a scan
     * listed twice raises at its second listing, its hash folder being there by then.
     */
    method InsertMany(scans: seq<Scan>, datas: seq<Bytes>) returns (r: Result<seq<Scan>, StoreError>)
      requires Valid() && |datas| == |scans|
      requires forall k :: 0 <= k < |scans| ==> scans[k].state.Shaped()
      requires OwnStates(scans)
      modifies this`entries, scans`path, set s | s in scans :: s.state.flags
      ensures Valid()
      ensures Placement(entries, if r.Err? then Some(r.error) else None) == InsertedAll(old(entries), old(Pendings(scans)), datas)
      ensures r.Ok? <==> AllInsertable(old(Pendings(scans)), old(Names(entries)))
      ensures r.Ok? ==> r.value == scans
      ensures r.Ok? ==> forall k :: 0 <= k < |scans| ==>
        && scans[k].hash == old(scans[k].hash) && scans[k].hash.Some?
        && scans[k].path == Join(Join(path, scans[k].hash.value), old(Basename(scans[k].path)))
        && scans[k].state.flags[..] == Lifecycle.Advance(old(scans[k].state.flags[..]))
    {
      ghost var v0 := ViewOf(scans);
      ViewAt(scans);
      assert Snapshot(v0) == Pendings(scans);
      InsertedAllMeaning(entries, Snapshot(v0), datas);
      var step := InsertRun(scans, datas);
      if step.Fail? {
        return Err(step.error);
      }
      ViewAt(scans);
      return Ok(scans);
    }

    /** The folder walk of the integrity check: the candidates, and whether every folder qualified. */
    method GatherCandidates() returns (data: seq<Candidate>, single: bool)
      ensures data == Candidates(entries, path)
      ensures single <==> AllSingle(entries, path)
    {
      data := [];
      single := true;
      var i := 0;
      while i < |entries|
        invariant 0 <= i <= |entries|
        invariant data == Candidates(entries[..i], path)
        invariant single <==> AllSingle(entries[..i], path)
      {
        GatherStep(entries, path, i);
        var e := entries[i];
        if e.Dir? {
          var c := CandidateOf(e, path);
          if c.Some? {
            data := data + [c.value];
          } else {
            single := false;
          }
        }
        i := i + 1;
      }
      assert entries[..i] == entries;
    }

    /** The pool task of the integrity check: a fresh scan, one step forward, then its hash. */
    static method HashCandidate(c: Candidate, sha: Bytes -> Digest) returns (h: string)
      requires IsScanPath(c.file.path)
      ensures h == HashOf(sha, c.file.data)
    {
      var scan := new Scan(c.file.path);
      var _ := scan.state.MoveForward();
      var res := scan.HashScan(sha, Some(c.file.data));
      h := res.value.value;
    }

    static method HashCandidates(data: seq<Candidate>, sha: Bytes -> Digest) returns (results: seq<Retitle>)
      requires forall k :: 0 <= k < |data| ==> IsScanPath(data[k].file.path)
      ensures results == Retitles(sha, data)
    {
      results := [];
      var i := 0;
      while i < |data|
        invariant 0 <= i <= |data|
        invariant results == Retitles(sha, data[..i])
      {
        var h := HashCandidate(data[i], sha);
        results := results + [Retitle(data[i].folder, h)];
        i := i + 1;
      }
      assert data[..i] == data;
    }

    /** `os.rename(<store>/<folder>, <store>/<hash>)` when the two differ. */
    method RenameStep(rt: Retitle) returns (err: Option<RenameError>)
      requires Valid()
      modifies this`entries
      ensures Valid()
      ensures Apply(Reconciled(old(entries), None), rt) == Reconciled(entries, err)
    {
      if rt.hash != rt.folder {
        var renamed := Rename(entries, rt.folder, rt.hash);
        if renamed.Err? {
          return Some(renamed.error);
        }
        RenameMeaning(entries, rt.folder, rt.hash);
        entries := renamed.value;
      }
      return None;
    }

    /**
     * The comparison loop of `check_storage_integrity`: renames each folder whose name is
     * not its hash (a failing rename raises), and with `checkCatalog` looks each hash up
     * in the catalog's set, removing the ones it finds.
     */
    method RenameAndCompare(results: seq<Retitle>, ghost hs: seq<string>, table: set<string>, checkCatalog: bool)
      returns (err: Option<RenameError>, rest: set<string>, allFound: bool)
      requires Valid() && |hs| == |results| && forall k :: 0 <= k < |results| ==> hs[k] == results[k].hash
      modifies this`entries
      ensures Valid()
      ensures Reconcile(old(entries), results) == Reconciled(entries, err)
      ensures err.None? && checkCatalog ==> Compare(table, hs) == Tally(rest, allFound)
    {
      ghost var e0 := entries;
      // `existing_hashes` and `non_used_hashes` are one and the same set
      rest := table;
      allFound := true;
      var i := 0;
      while i < |results|
        invariant 0 <= i <= |results| && Valid()
        invariant Reconcile(e0, results[..i]) == Reconciled(entries, None)
        invariant checkCatalog ==> Compare(table, hs[..i]) == Tally(rest, allFound)
      {
        ReconcileStep(e0, results, i);
        CompareStep(table, hs, i);
        var rt := results[i];
        err := RenameStep(rt);
        if err.Some? {
          ReconcileStops(e0, results, i + 1);
          return;
        }
        if checkCatalog {
          if rt.hash !in rest {
            allFound := false;
          } else {
            rest := rest - {rt.hash};
          }
        }
        i := i + 1;
      }
      assert results[..i] == results && hs[..i] == hs;
      return None, rest, allFound;
    }

    /**
     * `check_storage_integrity`: false when a folder does not hold exactly one scan file;
     * a folder whose name is not its recomputed hash is renamed to it, and a failing
     * rename raises; with `checkCatalog`, false unless the recomputed hashes match the
     * catalog's hashes one for one.
     */
    method CheckStorageIntegrity(sha: Bytes -> Digest, table: set<string>, checkCatalog: bool)
      returns (r: Result<bool, RenameError>)
      requires Valid()
      modifies this`entries
      ensures Valid()
      ensures var run := Reconcile(old(entries), Retitles(sha, Candidates(old(entries), path)));
        && entries == run.entries
        && (r.Err? <==> run.error.Some?)
        && (r.Err? ==> r.error == run.error.value)
      ensures r.Ok? ==>
        (r.value <==> && AllSingle(old(entries), path)
                      && (checkCatalog ==> Distinct(Recomputed(sha, Candidates(old(entries), path)))
                                           && Elems(Recomputed(sha, Candidates(old(entries), path))) == table))
    {
      var data, single := GatherCandidates();
      var results := HashCandidates(data, sha);
      ghost var hs := Recomputed(sha, data);
      var err, rest, allFound := RenameAndCompare(results, hs, table, checkCatalog);
      if err.Some? {
        return Err(err.value);
      }
      if checkCatalog {
        CatalogAgrees(table, hs);
      }
      return Ok(single && (!checkCatalog || (allFound && rest == {})));
    }

    /**
     * The scan file search of `get_existing_slides`: for the folders of `toAdd`, in no
     * particular order, the first scan file of a top-down walk; None as soon as a folder has none.
     */
    method FindScanFiles(toAdd: set<string>) returns (data: Option<seq<Candidate>>)
      ensures data.None? <==> !AllFound(entries, path, toAdd)
      ensures data.Some? ==> Located(entries, path, data.value, toAdd)
    {
      var rest := toAdd;
      var found: seq<Candidate> := [];
      while rest != {}
        invariant rest <= toAdd && Located(entries, path, found, toAdd - rest)
        decreases rest
      {
        var h :| h in rest;
        var f := ScanFileOf(entries, path, h);
        if f.None? {
          return None;
        }
        LocatedAppend(entries, path, found, toAdd - rest, h);
        assert (toAdd - rest) + {h} == toAdd - (rest - {h});
        found := found + [Candidate(h, f.value)];
        rest := rest - {h};
      }
      assert toAdd - rest == toAdd;
      LocatedAll(entries, path, found, toAdd);
      return Some(found);
    }

    /** `process_scan` of `get_existing_slides`: a new scan of the file, hashed, and moved on to "storage". */
    static method RecoverScan(c: Candidate, sha: Bytes -> Digest) returns (scan: Scan)
      requires IsScanPath(c.file.path)
      ensures fresh(scan) && fresh(scan.state.flags)
      ensures scan.path == c.file.path && scan.hash == Some(HashOf(sha, c.file.data))
      ensures scan.state.Shaped() && scan.state.flags[..] == Lifecycle.FlagsAt(3)
    {
      scan := new Scan(c.file.path);
      var st := scan.state;
      Lifecycle.FlagsAtLevel(0);
      assert Lifecycle.Fresh == Lifecycle.FlagsAt(0);
      var _ := st.MoveForward();
      assert st.flags[..] == Lifecycle.FlagsAt(1);
      var _ := scan.HashScan(sha, Some(c.file.data));
      Lifecycle.FlagsAtLevel(1);
      var _ := st.MoveForward();
      assert st.flags[..] == Lifecycle.FlagsAt(2);
      Lifecycle.FlagsAtLevel(2);
      var _ := st.MoveForward();
    }

    static method RecoverScans(data: seq<Candidate>, sha: Bytes -> Digest) returns (scans: seq<Scan>)
      requires forall k :: 0 <= k < |data| ==> IsScanPath(data[k].file.path)
      ensures |scans| == |data|
      ensures forall k :: 0 <= k < |data| ==>
        && fresh(scans[k]) && fresh(scans[k].state.flags)
        && scans[k].path == data[k].file.path && scans[k].hash == Some(HashOf(sha, data[k].file.data))
        && scans[k].state.Shaped() && scans[k].state.flags[..] == Lifecycle.FlagsAt(3)
      ensures forall j, k :: 0 <= j < k < |scans| ==> scans[j] != scans[k] && scans[j].state.flags != scans[k].state.flags
    {
      scans := [];
      var i := 0;
      while i < |data|
        invariant 0 <= i <= |data| && |scans| == i
        invariant forall k :: 0 <= k < i ==>
          && fresh(scans[k]) && fresh(scans[k].state.flags)
          && scans[k].path == data[k].file.path && scans[k].hash == Some(HashOf(sha, data[k].file.data))
          && scans[k].state.Shaped() && scans[k].state.flags[..] == Lifecycle.FlagsAt(3)
        invariant forall j, k :: 0 <= j < k < i ==> scans[j] != scans[k] && scans[j].state.flags != scans[k].state.flags
      {
        var scan := RecoverScan(data[i], sha);
        scans := scans + [scan];
        i := i + 1;
      }
    }

    /** The comparison loop of `get_existing_slides`: the first scan whose hash is not its folder's name. */
    static method FirstMismatch(data: seq<Candidate>, scans: seq<Scan>) returns (m: Option<nat>)
      requires |scans| == |data|
      ensures m.None? <==> forall k :: 0 <= k < |data| ==> scans[k].hash == Some(data[k].folder)
      ensures m.Some? ==>
        && m.value < |data| && scans[m.value].hash != Some(data[m.value].folder)
        && forall k :: 0 <= k < m.value ==> scans[k].hash == Some(data[k].folder)
    {
      var i := 0;
      while i < |data|
        invariant 0 <= i <= |data|
        invariant forall k :: 0 <= k < i ==> scans[k].hash == Some(data[k].folder)
      {
        if scans[i].hash != Some(data[i].folder) {
          return Some(i);
        }
        i := i + 1;
      }
      return None;
    }

    /**
     * `get_existing_slides`: after the integrity check (without the catalog) and its renames,
     * recovers the folders the catalog does not list as scans at "storage". Gives up with
     * None when the check fails, the catalog lists a missing folder or a new folder holds no
     * scan file; raises when a recomputed hash differs from its folder's name.
     */
    method GetExistingSlides(sha: Bytes -> Digest, table: set<string>) returns (r: Result<Option<seq<Scan>>, SlidesError>)
      requires Valid()
      modifies this`entries
      ensures Valid()
      ensures var run := Reconcile(old(entries), Retitles(sha, Candidates(old(entries), path)));
        && entries == run.entries
        && (run.error.Some? <==> r.Err? && r.error.RenameFailed?)
        && (run.error.Some? ==> r == Err(RenameFailed(run.error.value)))
      ensures r == Ok(None) <==> (r.Ok? || r.error.HashMismatch?) && Aborts(old(entries), entries, path, table)
      ensures r.Err? && r.error.HashMismatch? <==>
        (r.Ok? || r.error.HashMismatch?) && !Aborts(old(entries), entries, path, table)
        && !AllMatch(entries, path, DirNames(entries) - table, sha)
      ensures r.Err? && r.error.HashMismatch? ==>
        var h := r.error.folder;
        && h in DirNames(entries) - table && ScanFileOf(entries, path, h).Some?
        && HashOf(sha, ScanFileOf(entries, path, h).value.data) != h
      ensures r.Ok? && r.value.Some? ==>
        && AllMatch(entries, path, DirNames(entries) - table, sha)
        && Recovered(r.value.value, entries, path, DirNames(entries) - table)
    {
      ghost var before := entries;
      var checked := CheckStorageIntegrity(sha, table, false);
      if checked.Err? {
        return Err(RenameFailed(checked.error));
      }
      if !checked.value {
        return Ok(None);
      }
      var dirs := DirNames(entries);
      if !(table <= dirs) {
        return Ok(None);
      }
      var toAdd := dirs - table;
      var data := FindScanFiles(toAdd);
      if data.None? {
        return Ok(None);
      }
      var cs := data.value;
      forall k | 0 <= k < |cs| ensures IsScanPath(cs[k].file.path) {
        FirstScanFinds(Contents(entries, cs[k].folder), Join(path, cs[k].folder));
      }
      var scans := RecoverScans(cs, sha);
      var m := FirstMismatch(cs, scans);
      MatchEnumerated(entries, path, toAdd, sha, cs);
      if m.Some? {
        assert cs[m.value].folder in toAdd;
        return Err(HashMismatch(cs[m.value].folder));
      }
      RecoveredFrom(scans, cs, toAdd, sha);
      return Ok(Some(scans));
    }

    /** The recovered scans are one per new folder, each at that folder's scan file and at "storage". */
    lemma RecoveredFrom(scans: seq<Scan>, cs: seq<Candidate>, hs: set<string>, sha: Bytes -> Digest)
      requires |scans| == |cs| && Enumerates(cs, hs)
      requires forall k :: 0 <= k < |cs| ==> ScanFileOf(entries, path, cs[k].folder) == Some(cs[k].file)
      requires forall k :: 0 <= k < |cs| ==>
        && scans[k].path == cs[k].file.path && scans[k].hash == Some(cs[k].folder)
        && scans[k].state.flags[..] == Lifecycle.FlagsAt(3)
      ensures Recovered(scans, entries, path, hs)
    {
      forall h | h in hs ensures exists k :: 0 <= k < |scans| && scans[k].hash == Some(h) {
        assert h in (set k | 0 <= k < |cs| :: cs[k].folder);
        var k :| 0 <= k < |cs| && cs[k].folder == h;
        assert scans[k].hash == Some(h);
      }
      forall k | 0 <= k < |scans| ensures scans[k].hash.value in hs {
        assert cs[k].folder in hs;
      }
    }
  }
}
