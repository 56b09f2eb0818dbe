/**
 * `IngressTable.write`: turn staging paths into scans, keep the valid and hashable
 * ones whose (hash, filepath, filename) row is not yet in `ingress`, insert those
 * rows and advance the scans to "hashed".
 */
module IngressTable {
  import opened Wrappers
  import opened Paths
  import opened Base64Url
  import Lifecycle
  import opened Scans
  import opened Catalog

  /** The row a path with content in `files` is recorded under. */
  function RowFor(sha: Bytes -> Digest, files: map<Path, Bytes>, p: Path): IngressRow
    requires p in files
  {
    IngressRow(Some(HashOf(sha, files[p])), p, Basename(p))
  }

  /** A path survives: valid ending, a regular file, and a row not already present. */
  predicate Admit(sha: Bytes -> Digest, files: map<Path, Bytes>, existing: set<IngressRow>, p: Path) {
    IsScanPath(p) && p in files && RowFor(sha, files, p) !in existing
  }

  /** The surviving paths, in input order. */
  function Admitted(sha: Bytes -> Digest, files: map<Path, Bytes>, existing: set<IngressRow>, ps: seq<Path>): (r: seq<Path>)
    ensures forall k :: 0 <= k < |r| ==> r[k] in files
  {
    if |ps| == 0 then []
    else
      var last := ps[|ps| - 1];
      Admitted(sha, files, existing, ps[..|ps| - 1]) + (if Admit(sha, files, existing, last) then [last] else [])
  }

  /** Extending the batch by one path extends the survivors by that path when it is admitted. */
  lemma AdmittedStep(sha: Bytes -> Digest, files: map<Path, Bytes>, existing: set<IngressRow>, ps: seq<Path>, i: nat)
    requires i < |ps|
    ensures Admitted(sha, files, existing, ps[..i + 1])
         == Admitted(sha, files, existing, ps[..i]) + (if Admit(sha, files, existing, ps[i]) then [ps[i]] else [])
  {
    assert ps[..i + 1][..i] == ps[..i];
  }

  /** A path is kept exactly when it is in the batch and passes every filter. */
  lemma {:induction false} AdmittedMembers(sha: Bytes -> Digest, files: map<Path, Bytes>, existing: set<IngressRow>, ps: seq<Path>)
    ensures forall p :: p in Admitted(sha, files, existing, ps) <==> p in ps && Admit(sha, files, existing, p)
    decreases |ps|
  {
    if |ps| > 0 {
      AdmittedMembers(sha, files, existing, ps[..|ps| - 1]);
      assert ps == ps[..|ps| - 1] + [ps[|ps| - 1]];
    }
  }

  /** The rows recorded for the given paths. */
  ghost function Rows(sha: Bytes -> Digest, files: map<Path, Bytes>, ps: seq<Path>): (rows: set<IngressRow>)
    requires forall k :: 0 <= k < |ps| ==> ps[k] in files
  {
    if |ps| == 0 then {}
    else Rows(sha, files, ps[..|ps| - 1]) + {RowFor(sha, files, ps[|ps| - 1])}
  }

  /** A row is recorded for the paths exactly when it is the row of one of them. */
  lemma {:induction false} RowsMembers(sha: Bytes -> Digest, files: map<Path, Bytes>, ps: seq<Path>)
    requires forall k :: 0 <= k < |ps| ==> ps[k] in files
    ensures forall r :: r in Rows(sha, files, ps) <==> exists k :: 0 <= k < |ps| && r == RowFor(sha, files, ps[k])
    decreases |ps|
  {
    if |ps| > 0 {
      var init := ps[..|ps| - 1];
      RowsMembers(sha, files, init);
      forall r | r in Rows(sha, files, ps)
        ensures exists k :: 0 <= k < |ps| && r == RowFor(sha, files, ps[k])
      {
        if r in Rows(sha, files, init) {
          var k :| 0 <= k < |init| && r == RowFor(sha, files, init[k]);
          assert init[k] == ps[k];
        } else {
          assert r == RowFor(sha, files, ps[|ps| - 1]);
        }
      }
      forall r | exists k :: 0 <= k < |ps| && r == RowFor(sha, files, ps[k])
        ensures r in Rows(sha, files, ps)
      {
        var k :| 0 <= k < |ps| && r == RowFor(sha, files, ps[k]);
        if k < |ps| - 1 {
          assert init[k] == ps[k];
        }
      }
    }
  }

  /** Every row the batch records was absent before: no existing row is written again. */
  lemma {:induction false} AdmittedRowsAreNew(sha: Bytes -> Digest, files: map<Path, Bytes>, existing: set<IngressRow>, ps: seq<Path>)
    ensures Rows(sha, files, Admitted(sha, files, existing, ps)) !! existing
  {
    var adm := Admitted(sha, files, existing, ps);
    RowsMembers(sha, files, adm);
    AdmittedMembers(sha, files, existing, ps);
    forall r | r in Rows(sha, files, adm)
      ensures r !in existing
    {
      var k :| 0 <= k < |adm| && r == RowFor(sha, files, adm[k]);
      assert adm[k] in adm;
    }
  }

  /**
   * The filter looks at whole (hash, path, filename) rows, so one content under two
   * paths is admitted twice, and so is a path the batch lists twice.
   */
  lemma SameContentTwice(sha: Bytes -> Digest, files: map<Path, Bytes>, p: Path, q: Path)
    requires IsScanPath(p) && IsScanPath(q) && p in files && q in files
    ensures Admitted(sha, files, {}, [p, q]) == [p, q]
  {
    assert [p][..0] == [];
    assert Admitted(sha, files, {}, [p]) == [p];
    assert [p, q][..1] == [p];
  }

  /** Facts about one scan built from path `p`: names, hash of its bytes, and its lifecycle level. */
  ghost predicate ScanFor(s: Scan, sha: Bytes -> Digest, files: map<Path, Bytes>, p: Path, level: nat)
    reads s, s.state.flags
  {
    && s.path == p && s.filename == Basename(p) && s.scanname == StripExt(Basename(p))
    && p in files && s.hash == Some(HashOf(sha, files[p]))
    && s.state.Shaped() && level <= 4 && s.state.flags[..] == Lifecycle.FlagsAt(level)
  }

  /**
   * The pool task `process_scan`: a valid scan moves to "valid" and is hashed; `hashed`
   * says whether it produced a hash (a task that raised is never looked at again).
   */
  method ProcessScan(p: Path, files: map<Path, Bytes>, sha: Bytes -> Digest) returns (scan: Scan, hashed: bool)
    ensures fresh(scan) && fresh(scan.state.flags)
    ensures hashed <==> IsScanPath(p) && p in files
    ensures hashed ==> ScanFor(scan, sha, files, p, 1)
  {
    scan := new Scan(p);
    hashed := false;
    if scan.IsValid() {
      Lifecycle.FlagsAtLevel(0);
      assert Lifecycle.Fresh == Lifecycle.FlagsAt(0);
      var _ := scan.state.MoveForward();
      var content := if p in files then Some(files[p]) else None;
      var h := scan.HashScan(sha, content);
      if p in files {
        HashOfShape(sha, files[p]);
      }
      hashed := h.Ok? && h.value.Some? && h.value.value != "";
    }
  }

  /** One task of the pool, then the filter: the scan of `p`, kept exactly when `p` is admitted. */
  method Consider(p: Path, files: map<Path, Bytes>, sha: Bytes -> Digest, existing: set<IngressRow>)
    returns (scan: Scan, keep: bool)
    ensures fresh(scan) && fresh(scan.state.flags)
    ensures keep <==> Admit(sha, files, existing, p)
    ensures keep ==> ScanFor(scan, sha, files, p, 1)
  {
    var hashed;
    scan, hashed := ProcessScan(p, files, sha);
    keep := hashed && IngressRow(scan.hash, scan.path, scan.filename) !in existing;
  }

  /** Each scan of `ss` has its own flags array. */
  predicate DistinctFlags(ss: seq<Scan>) {
    forall k, l :: 0 <= k < l < |ss| ==> ss[k].state.flags != ss[l].state.flags
  }

  lemma DistinctFlagsAppend(ss: seq<Scan>, s: Scan)
    requires DistinctFlags(ss) && forall k :: 0 <= k < |ss| ==> ss[k].state.flags != s.state.flags
    ensures DistinctFlags(ss + [s])
  {
  }

  /** One step of the hashing loop: the scan of `p` joins the survivors exactly when `p` is admitted. */
  method KeepIfAdmitted(valid: seq<Scan>, ghost adm: seq<Path>, p: Path, files: map<Path, Bytes>, sha: Bytes -> Digest, existing: set<IngressRow>)
    returns (valid': seq<Scan>, ghost adm': seq<Path>)
    requires |valid| == |adm|
    requires forall k :: 0 <= k < |valid| ==> ScanFor(valid[k], sha, files, adm[k], 1)
    requires DistinctFlags(valid)
    ensures adm' == adm + (if Admit(sha, files, existing, p) then [p] else []) && |valid'| == |adm'|
    ensures forall s :: s in valid' ==> s in valid || (fresh(s) && fresh(s.state.flags))
    ensures forall k :: 0 <= k < |valid'| ==> ScanFor(valid'[k], sha, files, adm'[k], 1)
    ensures DistinctFlags(valid')
  {
    var scan, keep := Consider(p, files, sha, existing);
    if keep {
      assert forall k :: 0 <= k < |valid| ==> valid[k].state.flags != scan.state.flags;
      DistinctFlagsAppend(valid, scan);
      valid' := valid + [scan];
      adm' := adm + [p];
    } else {
      valid' := valid;
      adm' := adm;
    }
  }

  /** The hashing phase of `write` and the filter against the rows read before it. */
  method HashAndFilter(considered: seq<Path>, files: map<Path, Bytes>, sha: Bytes -> Digest, existing: set<IngressRow>)
    returns (valid: seq<Scan>)
    ensures var adm := Admitted(sha, files, existing, considered);
      && |valid| == |adm|
      && (forall s :: s in valid ==> fresh(s) && fresh(s.state.flags))
      && (forall k :: 0 <= k < |valid| ==> ScanFor(valid[k], sha, files, adm[k], 1))
      && DistinctFlags(valid)
  {
    valid := [];
    ghost var adm: seq<Path> := [];
    var i := 0;
    while i < |considered|
      invariant 0 <= i <= |considered|
      invariant adm == Admitted(sha, files, existing, considered[..i]) && |valid| == |adm|
      invariant forall s :: s in valid ==> fresh(s) && fresh(s.state.flags)
      invariant forall k :: 0 <= k < |valid| ==> ScanFor(valid[k], sha, files, adm[k], 1)
      invariant DistinctFlags(valid)
    {
      AdmittedStep(sha, files, existing, considered, i);
      valid, adm := KeepIfAdmitted(valid, adm, considered[i], files, sha, existing);
      i := i + 1;
    }
    assert considered[..i] == considered;
  }

  /** One INSERT of the insert phase; the scan then moves from "valid" to "hashed". */
  method InsertOne(cat: Catalog, scan: Scan, ghost p: Path, files: map<Path, Bytes>, sha: Bytes -> Digest)
    requires ScanFor(scan, sha, files, p, 1)
    modifies cat`ingress, scan.state.flags
    ensures p in files && cat.ingress == old(cat.ingress) + {RowFor(sha, files, p)}
    ensures ScanFor(scan, sha, files, p, 2)
  {
    Lifecycle.FlagsAtLevel(1);
    // `INSERT INTO ingress`; a row that is already there raises IntegrityError, which is swallowed.
    cat.ingress := cat.ingress + {IngressRow(scan.hash, scan.path, scan.filename)};
    var _ := scan.state.MoveForward();
  }

  /** The insert phase of `write`: one INSERT per scan, then each scan moves to "hashed". */
  method InsertAll(cat: Catalog, valid: seq<Scan>, ghost adm: seq<Path>, files: map<Path, Bytes>, sha: Bytes -> Digest)
    requires |valid| == |adm| && forall k :: 0 <= k < |adm| ==> adm[k] in files
    requires forall k :: 0 <= k < |valid| ==> ScanFor(valid[k], sha, files, adm[k], 1)
    requires DistinctFlags(valid)
    modifies cat`ingress, set s | s in valid :: s.state.flags
    ensures cat.ingress == old(cat.ingress) + Rows(sha, files, adm)
    ensures forall k :: 0 <= k < |valid| ==> ScanFor(valid[k], sha, files, adm[k], 2)
  {
    var j := 0;
    assert InsertedUpTo(valid, adm, files, sha, 0);
    while j < |valid|
      invariant 0 <= j <= |valid|
      invariant cat.ingress == old(cat.ingress) + Rows(sha, files, adm[..j])
      invariant InsertedUpTo(valid, adm, files, sha, j)
    {
      InsertNext(cat, valid, adm, files, sha, j);
      j := j + 1;
    }
    assert adm[..j] == adm;
    assert InsertedUpTo(valid, adm, files, sha, |valid|);
  }

  /** The first `j` scans of the insert phase are at "hashed", the others still at "valid". */
  ghost predicate InsertedUpTo(valid: seq<Scan>, adm: seq<Path>, files: map<Path, Bytes>, sha: Bytes -> Digest, j: nat)
    reads set k | 0 <= k < |valid| :: valid[k]
    reads set k | 0 <= k < |valid| :: valid[k].state.flags
  {
    && |valid| == |adm|
    && forall k :: 0 <= k < |valid| ==> ScanFor(valid[k], sha, files, adm[k], if k < j then 2 else 1)
  }

  /** One iteration of the insert phase: row `j` is added and only scan `j` advances. */
  method InsertNext(cat: Catalog, valid: seq<Scan>, ghost adm: seq<Path>, files: map<Path, Bytes>, sha: Bytes -> Digest, j: nat)
    requires j < |valid| == |adm| && forall k :: 0 <= k < |adm| ==> adm[k] in files
    requires InsertedUpTo(valid, adm, files, sha, j)
    requires DistinctFlags(valid)
    modifies cat`ingress, valid[j].state.flags
    ensures cat.ingress == old(cat.ingress) + {RowFor(sha, files, adm[j])}
    ensures Rows(sha, files, adm[..j + 1]) == Rows(sha, files, adm[..j]) + {RowFor(sha, files, adm[j])}
    ensures InsertedUpTo(valid, adm, files, sha, j + 1)
  {
    assert adm[..j + 1][..j] == adm[..j];
    ghost var flags := valid[j].state.flags;
    InsertOne(cat, valid[j], adm[j], files, sha);
    forall k | 0 <= k < |valid| && k != j
      ensures ScanFor(valid[k], sha, files, adm[k], if k < j + 1 then 2 else 1)
    {
      assert valid[k].state.flags != flags;
    }
  }

  /**
   * `IngressTable.write`. The source hashes on a thread pool and collects the survivors in
   * completion order; the model runs the pool's tasks in input order. The SELECT on the
   * ingress table raises when the file holds no tables; the scans hashed before it are
   * then dropped, so the model refuses before hashing.
   */
  method Write(cat: Catalog, considered: seq<Path>, files: map<Path, Bytes>, sha: Bytes -> Digest)
    returns (r: Result<seq<Scan>, SelectError>)
    modifies cat`ingress
    ensures r.Err? <==> !cat.created
    ensures r.Err? ==> cat.ingress == old(cat.ingress)
    ensures r.Ok? ==> var valid := r.value; var adm := Admitted(sha, files, old(cat.ingress), considered);
      && |valid| == |adm|
      && (forall s :: s in valid ==> fresh(s))
      && (forall k :: 0 <= k < |valid| ==> ScanFor(valid[k], sha, files, adm[k], 2))
      && cat.ingress == old(cat.ingress) + Rows(sha, files, adm)
    ensures cat.storage == old(cat.storage)
  {
    if !cat.created {
      return Err(NoTables);
    }
    // `SELECT hash, filepath, filename FROM ingress`
    var existing := cat.ingress;
    var valid := HashAndFilter(considered, files, sha, existing);
    ghost var adm := Admitted(sha, files, existing, considered);
    InsertAll(cat, valid, adm, files, sha);
    return Ok(valid);
  }
}
