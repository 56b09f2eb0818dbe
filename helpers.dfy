/** `get_unique_scans`: drop scans without a hash and keep the first scan of every hash. */
module Helpers {
  import opened Wrappers
  import Lifecycle
  import opened Scans

  /** Python's truth test on `scan.hash`: neither None nor the empty text. */
  predicate Truthy(h: Option<string>) {
    h.Some? && h.value != ""
  }

  /** Entry `i` is the first to carry its (truthy) hash. */
  predicate FirstOccurrence(hs: seq<Option<string>>, i: nat)
    requires i < |hs|
  {
    Truthy(hs[i]) && forall j :: 0 <= j < i ==> hs[j] != hs[i]
  }

  /** The positions among the first `n` entries that are first occurrences, in order. */
  function Kept(hs: seq<Option<string>>, n: nat): (r: seq<nat>)
    requires n <= |hs|
    ensures forall k :: 0 <= k < |r| ==> r[k] < n && FirstOccurrence(hs, r[k])
  {
    if n == 0 then []
    else Kept(hs, n - 1) + (if FirstOccurrence(hs, n - 1) then [n - 1] else [])
  }

  /** The kept positions are in input order, and every first occurrence is kept. */
  lemma {:induction false} KeptOrdered(hs: seq<Option<string>>, n: nat)
    requires n <= |hs|
    ensures var r := Kept(hs, n);
      && (forall k, l :: 0 <= k < l < |r| ==> r[k] < r[l])
      && (forall i :: 0 <= i < n && FirstOccurrence(hs, i) ==> i in r)
  {
    if n > 0 {
      KeptOrdered(hs, n - 1);
    }
  }

  /** Every truthy hash among the first `n` entries is carried by a kept position. */
  lemma {:induction false} KeptCovers(hs: seq<Option<string>>, n: nat, i: nat)
    requires i < n <= |hs| && Truthy(hs[i])
    ensures exists k :: 0 <= k < |Kept(hs, n)| && hs[Kept(hs, n)[k]] == hs[i]
    decreases i
  {
    if FirstOccurrence(hs, i) {
      KeptOrdered(hs, n);
      var r := Kept(hs, n);
      var k :| 0 <= k < |r| && r[k] == i;
    } else {
      var j :| 0 <= j < i && hs[j] == hs[i];
      KeptCovers(hs, n, j);
    }
  }

  ghost function Hashes(scans: seq<Scan>): (hs: seq<Option<string>>)
    reads scans
    ensures |hs| == |scans| && forall i :: 0 <= i < |scans| ==> hs[i] == scans[i].hash
  {
    seq(|scans|, i reads scans requires 0 <= i < |scans| => scans[i].hash)
  }

  /** The scans at the given positions. */
  function Pick(scans: seq<Scan>, idx: seq<nat>): (r: seq<Scan>)
    requires forall k :: 0 <= k < |idx| ==> idx[k] < |scans|
    ensures |r| == |idx| && forall k :: 0 <= k < |idx| ==> r[k] == scans[idx[k]]
  {
    if |idx| == 0 then [] else Pick(scans, idx[..|idx| - 1]) + [scans[idx[|idx| - 1]]]
  }

  /** What the kept scans are: hashed, pairwise distinct, and covering every truthy hash. */
  lemma UniqueScansFacts(scans: seq<Scan>)
    ensures var u := Pick(scans, Kept(Hashes(scans), |scans|));
      && (forall s :: s in u ==> s in scans && Truthy(s.hash))
      && (forall k, l :: 0 <= k < l < |u| ==> u[k].hash != u[l].hash)
      && (forall i :: 0 <= i < |scans| && Truthy(scans[i].hash) ==> exists s :: s in u && s.hash == scans[i].hash)
  {
    UniqueKept(scans);
    UniqueDistinct(scans);
    UniqueCovers(scans);
  }

  /** The kept scans come from the batch and carry a truthy hash. */
  lemma UniqueKept(scans: seq<Scan>)
    ensures var u := Pick(scans, Kept(Hashes(scans), |scans|));
      forall s :: s in u ==> s in scans && Truthy(s.hash)
  {
    var hs := Hashes(scans);
    var idx := Kept(hs, |scans|);
    var u := Pick(scans, idx);
    forall s | s in u ensures s in scans && Truthy(s.hash) {
      var k :| 0 <= k < |u| && u[k] == s;
      assert FirstOccurrence(hs, idx[k]);
    }
  }

  /** The kept scans carry pairwise-distinct hashes. */
  lemma UniqueDistinct(scans: seq<Scan>)
    ensures var u := Pick(scans, Kept(Hashes(scans), |scans|));
      forall k, l :: 0 <= k < l < |u| ==> u[k].hash != u[l].hash
  {
    var hs := Hashes(scans);
    var idx := Kept(hs, |scans|);
    var u := Pick(scans, idx);
    KeptOrdered(hs, |scans|);
    forall k, l | 0 <= k < l < |u| ensures u[k].hash != u[l].hash {
      assert idx[k] < idx[l] && FirstOccurrence(hs, idx[l]);
      assert u[k] == scans[idx[k]] && u[l] == scans[idx[l]];
    }
  }

  lemma UniqueCovers(scans: seq<Scan>)
    ensures var u := Pick(scans, Kept(Hashes(scans), |scans|));
      forall i :: 0 <= i < |scans| && Truthy(scans[i].hash) ==> exists s :: s in u && s.hash == scans[i].hash
  {
    var hs := Hashes(scans);
    var idx := Kept(hs, |scans|);
    var u := Pick(scans, idx);
    forall j | 0 <= j < |scans| && Truthy(scans[j].hash)
      ensures exists s :: s in u && s.hash == scans[j].hash
    {
      KeptCovers(hs, |scans|, j);
      var k :| 0 <= k < |idx| && hs[idx[k]] == hs[j];
      assert u[k] in u;
    }
  }

  /** The truthy hash values among the first `n` entries. */
  function SeenHashes(hs: seq<Option<string>>, n: nat): set<string>
    requires n <= |hs|
  {
    if n == 0 then {}
    else SeenHashes(hs, n - 1) + (if Truthy(hs[n - 1]) then {hs[n - 1].value} else {})
  }

  lemma {:induction false} SeenHashesMeaning(hs: seq<Option<string>>, n: nat)
    requires n < |hs|
    ensures Truthy(hs[n]) ==> (hs[n].value in SeenHashes(hs, n) <==> !FirstOccurrence(hs, n))
  {
    if Truthy(hs[n]) {
      SeenHashesHas(hs, n, hs[n].value);
    }
  }

  lemma {:induction false} SeenHashesHas(hs: seq<Option<string>>, n: nat, h: string)
    requires n <= |hs|
    ensures h in SeenHashes(hs, n) <==> exists j :: 0 <= j < n && hs[j] == Some(h) && h != ""
  {
    if n > 0 {
      SeenHashesHas(hs, n - 1, h);
    }
  }

  lemma PickAppend(scans: seq<Scan>, idx: seq<nat>, i: nat)
    requires i < |scans| && forall k :: 0 <= k < |idx| ==> idx[k] < |scans|
    ensures Pick(scans, idx + [i]) == Pick(scans, idx) + [scans[i]]
  {
    assert (idx + [i])[..|idx|] == idx;
  }

  /** One step of the dictionary loop: entry `i` is new exactly when it is a first occurrence. */
  lemma DedupStep(hs: seq<Option<string>>, i: nat)
    requires i < |hs|
    ensures SeenHashes(hs, i + 1) == SeenHashes(hs, i) + (if Truthy(hs[i]) then {hs[i].value} else {})
    ensures Truthy(hs[i]) && hs[i].value !in SeenHashes(hs, i) <==> FirstOccurrence(hs, i)
    ensures Kept(hs, i + 1) == Kept(hs, i) + (if FirstOccurrence(hs, i) then [i] else [])
  {
    SeenHashesMeaning(hs, i);
  }

  /** The position of the first scan that has not reached "hashed". */
  datatype HelperError = NotHashed(position: nat)

  ghost predicate AllHashed(scans: seq<Scan>)
    reads set s | s in scans :: s.state.flags
  {
    forall i :: 0 <= i < |scans| ==> Lifecycle.Reached(scans[i].state, 2)
  }

  /** The precondition loop of `get_unique_scans`: the first scan short of "hashed", if any. */
  method FirstUnhashed(scans: seq<Scan>) returns (r: Option<nat>)
    requires forall s :: s in scans ==> s.state.Shaped()
    ensures r.None? <==> AllHashed(scans)
    ensures r.Some? ==> r.value < |scans| && !Lifecycle.Reached(scans[r.value].state, 2)
  {
    var i := 0;
    while i < |scans|
      invariant 0 <= i <= |scans|
      invariant forall k :: 0 <= k < i ==> Lifecycle.Reached(scans[k].state, 2)
    {
      var has := scans[i].state.HasState(Lifecycle.Hashed);
      if has.Err? || !has.value {
        return Some(i);
      }
      i := i + 1;
    }
    return None;
  }

  /** The dictionary loop of `get_unique_scans`: the first scan of every truthy hash, in order. */
  method FirstOfEachHash(scans: seq<Scan>) returns (unique: seq<Scan>)
    ensures unique == Pick(scans, Kept(Hashes(scans), |scans|))
  {
    ghost var hs := Hashes(scans);
    var seen: set<string> := {};
    unique := [];
    ghost var idx: seq<nat> := [];
    var i := 0;
    while i < |scans|
      invariant 0 <= i <= |scans|
      invariant idx == Kept(hs, i) && unique == Pick(scans, idx)
      invariant seen == SeenHashes(hs, i)
    {
      var h := scans[i].hash;
      assert h == hs[i];
      DedupStep(hs, i);
      if h.Some? && h.value != "" && h.value !in seen {
        PickAppend(scans, idx, i);
        idx := idx + [i];
        unique := unique + [scans[i]];
        seen := seen + {h.value};
      }
      i := i + 1;
    }
  }

  /**
   * `get_unique_scans`: fails unless every scan has reached "hashed", checked before
   * anything else; otherwise the first scan of each truthy hash, in input order.
   */
  method GetUniqueScans(scans: seq<Scan>) returns (r: Result<seq<Scan>, HelperError>)
    requires forall s :: s in scans ==> s.state.Shaped()
    ensures r.Err? <==> !AllHashed(scans)
    ensures r.Err? ==> r.error.position < |scans| && !Lifecycle.Reached(scans[r.error.position].state, 2)
    ensures r.Ok? ==> r.value == Pick(scans, Kept(Hashes(scans), |scans|))
  {
    var bad := FirstUnhashed(scans);
    if bad.Some? {
      return Err(NotHashed(bad.value));
    }
    var unique := FirstOfEachHash(scans);
    return Ok(unique);
  }
}
