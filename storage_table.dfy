/**
 * `StorageTable.write`: record a batch of hashed scans in the `storage` table, one row
 * per new hash, without moving any file and without touching the scans.
 */
module StorageTable {
  import opened Wrappers
  import opened Paths
  import opened Scans
  import opened Catalog
  import opened Helpers

  /** Why `write` raises: a scan short of "hashed" (`ValueError`), or no tables to SELECT from. */
  datatype WriteError = Unhashed(position: nat) | NoTables

  /** The row recorded for hash `h`: the folder `storagePath/h`, the scan's file name, no scanname. */
  function RowOf(storagePath: Path, h: string, filename: string): StorageRow {
    StorageRow(Join(storagePath, h), filename, None)
  }

  /** A hash holds no '/', so its row's path names the folder `h` directly under `storagePath`. */
  lemma RowOfFolder(storagePath: Path, h: string, filename: string)
    requires '/' !in h
    ensures Basename(RowOf(storagePath, h, filename).filepath) == h
  {
    BasenameOfJoin(storagePath, h);
  }

  /** `scan.hash in existing_hashes`: a NULL hash is never among the stored keys. */
  predicate IsStored(stored: set<string>, h: Option<string>) {
    h.Some? && h.value in stored
  }

  /** The scans of `u` whose hash is not stored yet, in order. */
  ghost function Unstored(stored: set<string>, u: seq<Scan>): (r: seq<Scan>)
    reads u
    ensures forall s :: s in r ==> s in u && !IsStored(stored, s.hash)
  {
    if |u| == 0 then []
    else
      var last := u[|u| - 1];
      Unstored(stored, u[..|u| - 1]) + (if IsStored(stored, last.hash) then [] else [last])
  }

  /** Extending the batch by one scan extends the result by that scan when its hash is new. */
  lemma UnstoredStep(stored: set<string>, u: seq<Scan>, i: nat)
    requires i < |u|
    ensures Unstored(stored, u[..i + 1])
         == Unstored(stored, u[..i]) + (if IsStored(stored, u[i].hash) then [] else [u[i]])
  {
    assert u[..i + 1][..i] == u[..i];
  }

  /** Nothing unstored is filtered out. */
  lemma {:induction false} UnstoredComplete(stored: set<string>, u: seq<Scan>)
    ensures forall s :: s in u && !IsStored(stored, s.hash) ==> s in Unstored(stored, u)
  {
    if |u| > 0 {
      UnstoredComplete(stored, u[..|u| - 1]);
      assert u == u[..|u| - 1] + [u[|u| - 1]];
    }
  }

  /** Filtering hashed scans leaves hashed scans. */
  lemma UnstoredHashed(stored: set<string>, u: seq<Scan>)
    requires forall k :: 0 <= k < |u| ==> u[k].hash.Some?
    ensures var ins := Unstored(stored, u);
      forall k :: 0 <= k < |ins| ==> ins[k].hash.Some?
  {
    var ins := Unstored(stored, u);
    assert forall k :: 0 <= k < |ins| ==> ins[k] in u;
  }

  /** No two scans of `ss` carry the same hash. */
  ghost predicate DistinctHashes(ss: seq<Scan>)
    reads ss
  {
    forall k, l :: 0 <= k < l < |ss| ==> ss[k].hash != ss[l].hash
  }

  /** Filtering keeps hashes pairwise distinct. */
  lemma {:induction false} UnstoredDistinct(stored: set<string>, u: seq<Scan>)
    requires DistinctHashes(u)
    ensures DistinctHashes(Unstored(stored, u))
  {
    if |u| > 0 {
      var init := u[..|u| - 1];
      UnstoredDistinct(stored, init);
      var r := Unstored(stored, u);
      var r0 := Unstored(stored, init);
      assert r == r0 + (if IsStored(stored, u[|u| - 1].hash) then [] else [u[|u| - 1]]);
      forall k, l | 0 <= k < l < |r|
        ensures r[k].hash != r[l].hash
      {
        if l == |r| - 1 && |r| != |r0| {
          assert r[k] == r0[k] && r0[k] in init;
          var m :| 0 <= m < |init| && init[m] == r0[k];
          assert init[m] == u[m] && r[l] == u[|u| - 1];
        } else {
          assert r[k] == r0[k] && r[l] == r0[l];
        }
      }
    }
  }

  /** The (hash, filename) columns `write` sends for the scans in `ins`. */
  ghost function Columns(ins: seq<Scan>): (cols: seq<(string, string)>)
    reads ins
    requires forall k :: 0 <= k < |ins| ==> ins[k].hash.Some?
    ensures |cols| == |ins| && forall k :: 0 <= k < |ins| ==> cols[k] == (ins[k].hash.value, ins[k].filename)
  {
    seq(|ins|, k reads ins requires 0 <= k < |ins| && ins[k].hash.Some? => (ins[k].hash.value, ins[k].filename))
  }

  /** The rows added for the given (hash, filename) columns, one INSERT after another. */
  function Placed(storagePath: Path, cols: seq<(string, string)>): map<string, StorageRow> {
    if |cols| == 0 then map[]
    else
      var last := cols[|cols| - 1];
      Placed(storagePath, cols[..|cols| - 1])[last.0 := RowOf(storagePath, last.0, last.1)]
  }

  /** Only the hashes of the batch become keys. */
  lemma {:induction false} PlacedOnly(storagePath: Path, cols: seq<(string, string)>, h: string)
    requires h in Placed(storagePath, cols)
    ensures exists k :: 0 <= k < |cols| && cols[k].0 == h
  {
    var init := cols[..|cols| - 1];
    if h != cols[|cols| - 1].0 {
      PlacedOnly(storagePath, init, h);
      var k :| 0 <= k < |init| && init[k].0 == h;
      assert cols[k] == init[k];
    }
  }

  /** With pairwise-distinct hashes, scan `k` gets its row at `storagePath/hash` under its file name. */
  lemma {:induction false} PlacedAt(storagePath: Path, cols: seq<(string, string)>, k: nat)
    requires k < |cols| && forall i, j :: 0 <= i < j < |cols| ==> cols[i].0 != cols[j].0
    ensures cols[k].0 in Placed(storagePath, cols)
    ensures Placed(storagePath, cols)[cols[k].0] == RowOf(storagePath, cols[k].0, cols[k].1)
  {
    if k < |cols| - 1 {
      var init := cols[..|cols| - 1];
      assert cols[k] == init[k];
      PlacedAt(storagePath, init, k);
    }
  }

  /**
   * With pairwise-distinct hashes there is one new row per scan, at `storagePath/hash`
   * and under the scan's file name, and no other.
   */
  lemma PlacedRows(storagePath: Path, cols: seq<(string, string)>)
    requires forall k, l :: 0 <= k < l < |cols| ==> cols[k].0 != cols[l].0
    ensures forall h :: h in Placed(storagePath, cols) <==> exists k :: 0 <= k < |cols| && cols[k].0 == h
    ensures forall k :: 0 <= k < |cols| ==>
      cols[k].0 in Placed(storagePath, cols) && Placed(storagePath, cols)[cols[k].0] == RowOf(storagePath, cols[k].0, cols[k].1)
  {
    forall h | h in Placed(storagePath, cols) ensures exists k :: 0 <= k < |cols| && cols[k].0 == h {
      PlacedOnly(storagePath, cols, h);
    }
    forall k | 0 <= k < |cols|
      ensures cols[k].0 in Placed(storagePath, cols) && Placed(storagePath, cols)[cols[k].0] == RowOf(storagePath, cols[k].0, cols[k].1)
    {
      PlacedAt(storagePath, cols, k);
    }
  }

  /** Overriding one key after a union is overriding it in the right-hand map. */
  lemma UnionUpdate(a: map<string, StorageRow>, b: map<string, StorageRow>, h: string, v: StorageRow)
    ensures (a + b)[h := v] == a + b[h := v]
  {
  }

  /** The insert loop: one INSERT per scan into `storage`, given the batch's columns. */
  method InsertEach(cat: Catalog, storagePath: Path, ins: seq<Scan>, ghost cols: seq<(string, string)>)
    requires |cols| == |ins| && forall k :: 0 <= k < |ins| ==> ins[k].hash.Some? && cols[k] == (ins[k].hash.value, ins[k].filename)
    modifies cat`storage
    ensures cat.storage == old(cat.storage) + Placed(storagePath, cols)
  {
    var j := 0;
    while j < |ins|
      invariant 0 <= j <= |ins|
      invariant cat.storage == old(cat.storage) + Placed(storagePath, cols[..j])
    {
      var h := ins[j].hash.value;
      var row := RowOf(storagePath, h, ins[j].filename);
      assert cols[..j + 1][..j] == cols[..j] && cols[j] == (h, ins[j].filename);
      UnionUpdate(old(cat.storage), Placed(storagePath, cols[..j]), h, row);
      cat.storage := cat.storage[h := row];
      j := j + 1;
    }
    assert cols[..j] == cols;
  }

  /** The rows of a batch of hashed scans: only `storage` is written, and the scans are left alone. */
  method InsertRows(cat: Catalog, storagePath: Path, ins: seq<Scan>)
    requires forall k :: 0 <= k < |ins| ==> ins[k].hash.Some?
    modifies cat`storage
    ensures forall k :: 0 <= k < |ins| ==> ins[k].hash.Some?
    ensures cat.storage == old(cat.storage) + Placed(storagePath, Columns(ins))
  {
    ghost var cols := Columns(ins);
    InsertEach(cat, storagePath, ins, cols);
    assert cols == Columns(ins);
  }

  /** The list comprehension over the unique scans that drops hashes already stored. */
  method FilterUnstored(existing: set<string>, u: seq<Scan>) returns (toInsert: seq<Scan>)
    ensures toInsert == Unstored(existing, u)
  {
    toInsert := [];
    var i := 0;
    while i < |u|
      invariant 0 <= i <= |u|
      invariant toInsert == Unstored(existing, u[..i])
    {
      UnstoredStep(existing, u, i);
      if !IsStored(existing, u[i].hash) {
        toInsert := toInsert + [u[i]];
      }
      i := i + 1;
    }
    assert u[..i] == u;
  }

  /**
   * The part of `write` after deduplication: read the stored hashes, drop the scans whose
   * hash is among them, insert one row per remaining scan and return those scans.
   */
  method InsertUnstored(cat: Catalog, storagePath: Path, u: seq<Scan>) returns (ins: seq<Scan>)
    requires forall k :: 0 <= k < |u| ==> u[k].hash.Some?
    modifies cat`storage
    ensures ins == Unstored(old(cat.storage.Keys), u)
    ensures forall k :: 0 <= k < |ins| ==> ins[k].hash.Some?
    ensures cat.storage == old(cat.storage) + Placed(storagePath, Columns(ins))
  {
    // `SELECT hash FROM storage`
    ins := FilterUnstored(cat.storage.Keys, u);
    UnstoredHashed(cat.storage.Keys, u);
    InsertRows(cat, storagePath, ins);
  }

  /**
   * `StorageTable.write`. Fails, before the catalog is read, unless every scan has
   * reached "hashed"; then fails at the SELECT when the file holds no tables. Otherwise
   * keeps the first scan of each truthy hash, drops hashes already stored, adds one row
   * per remaining scan and returns those scans. Only the catalog is written: no scan is
   * moved or advanced.
   */
  method Write(cat: Catalog, storagePath: Path, scans: seq<Scan>) returns (r: Result<seq<Scan>, WriteError>)
    requires forall s :: s in scans ==> s.state.Shaped()
    modifies cat`storage
    ensures r.Err? <==> !AllHashed(scans) || !cat.created
    ensures !AllHashed(scans) ==> r.Err? && r.error.Unhashed?
    ensures AllHashed(scans) && !cat.created ==> r == Err(WriteError.NoTables)
    ensures r.Err? ==> cat.storage == old(cat.storage) && cat.ingress == old(cat.ingress)
    ensures r.Ok? ==> forall k :: 0 <= k < |r.value| ==> r.value[k].hash.Some?
    ensures r.Ok? ==> r.value == Unstored(old(cat.storage.Keys), Pick(scans, Kept(Hashes(scans), |scans|)))
    ensures r.Ok? ==> cat.storage == old(cat.storage) + Placed(storagePath, Columns(r.value)) && cat.ingress == old(cat.ingress)
  {
    var unique := GetUniqueScans(scans);
    if unique.Err? {
      return Err(Unhashed(unique.error.position));
    }
    UniqueScansFacts(scans);
    if !cat.created {
      return Err(WriteError.NoTables);
    }
    var ins := WriteUnique(cat, storagePath, unique.value);
    return Ok(ins);
  }

  /** `write` once the scans are known to be hashed and `u` is their deduplication. */
  method WriteUnique(cat: Catalog, storagePath: Path, u: seq<Scan>) returns (ins: seq<Scan>)
    requires forall s :: s in u ==> Truthy(s.hash)
    modifies cat`storage
    ensures ins == Unstored(old(cat.storage.Keys), u)
    ensures forall k :: 0 <= k < |ins| ==> ins[k].hash.Some?
    ensures cat.storage == old(cat.storage) + Placed(storagePath, Columns(ins)) && cat.ingress == old(cat.ingress)
  {
    assert forall k :: 0 <= k < |u| ==> u[k].hash.Some? by {
      assert forall k :: 0 <= k < |u| ==> u[k] in u;
    }
    ins := InsertUnstored(cat, storagePath, u);
  }

  /**
   * Rows for distinct hashes none of which is stored: each gets its row, rows stored
   * before are unchanged, and the only new keys are the batch's hashes.
   */
  lemma NewRows(before: map<string, StorageRow>, storagePath: Path, cols: seq<(string, string)>)
    requires forall k :: 0 <= k < |cols| ==> cols[k].0 !in before
    requires forall k, l :: 0 <= k < l < |cols| ==> cols[k].0 != cols[l].0
    ensures var after := before + Placed(storagePath, cols);
      && (forall k :: 0 <= k < |cols| ==> cols[k].0 in after && after[cols[k].0] == RowOf(storagePath, cols[k].0, cols[k].1))
      && (forall h :: h in before ==> h in after && after[h] == before[h])
      && (forall h :: h in after ==> h in before || exists k :: 0 <= k < |cols| && cols[k].0 == h)
  {
    PlacedRows(storagePath, cols);
  }

  /**
   * What a successful write promises: the returned scans carry pairwise-distinct hashes
   * none of which was stored, every unstored truthy hash of the batch is among them, each
   * gets its row at `storagePath/hash`, and every row stored before is unchanged.
   */
  lemma WriteFacts(before: map<string, StorageRow>, storagePath: Path, scans: seq<Scan>)
    ensures var ins := Unstored(before.Keys, Pick(scans, Kept(Hashes(scans), |scans|)));
      && DistinctHashes(ins)
      && (forall s :: s in ins ==> s in scans && Truthy(s.hash) && s.hash.value !in before)
      && (forall i :: 0 <= i < |scans| && Truthy(scans[i].hash) && scans[i].hash.value !in before ==>
            exists s :: s in ins && s.hash == scans[i].hash)
  {
    var u := Pick(scans, Kept(Hashes(scans), |scans|));
    UniqueScansFacts(scans);
    assert DistinctHashes(u);
    UnstoredComplete(before.Keys, u);
    UnstoredDistinct(before.Keys, u);
  }

  /** The rows of a successful write: one per returned scan, and the old rows untouched. */
  lemma WriteRows(before: map<string, StorageRow>, storagePath: Path, scans: seq<Scan>)
    ensures var ins := Unstored(before.Keys, Pick(scans, Kept(Hashes(scans), |scans|)));
      && (forall k :: 0 <= k < |ins| ==> ins[k].hash.Some?)
      && var after := before + Placed(storagePath, Columns(ins));
      && (forall s :: s in ins ==> s.hash.value in after && after[s.hash.value] == RowOf(storagePath, s.hash.value, s.filename))
      && (forall h :: h in before ==> h in after && after[h] == before[h])
  {
    WriteFacts(before, storagePath, scans);
    RowsOfBatch(before, storagePath, Unstored(before.Keys, Pick(scans, Kept(Hashes(scans), |scans|))));
  }

  /** Rows for a batch of scans with distinct, new hashes. */
  lemma RowsOfBatch(before: map<string, StorageRow>, storagePath: Path, ins: seq<Scan>)
    requires DistinctHashes(ins)
    requires forall s :: s in ins ==> s.hash.Some? && s.hash.value !in before
    ensures forall k :: 0 <= k < |ins| ==> ins[k].hash.Some?
    ensures var after := before + Placed(storagePath, Columns(ins));
      && (forall s :: s in ins ==> s.hash.value in after && after[s.hash.value] == RowOf(storagePath, s.hash.value, s.filename))
      && (forall h :: h in before ==> h in after && after[h] == before[h])
  {
    assert forall k :: 0 <= k < |ins| ==> ins[k] in ins;
    var cols := Columns(ins);
    NewRows(before, storagePath, cols);
    forall s | s in ins
      ensures s.hash.value in before + Placed(storagePath, cols)
      ensures (before + Placed(storagePath, cols))[s.hash.value] == RowOf(storagePath, s.hash.value, s.filename)
    {
      var k :| 0 <= k < |ins| && ins[k] == s;
      assert cols[k] == (s.hash.value, s.filename);
    }
  }
}
