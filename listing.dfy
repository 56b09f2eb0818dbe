/**
 * One directory listing of the content store: entry names, `os.rename` on two
 * entries of it, the renames of an integrity check, and the bookkeeping the
 * integrity check does against the catalog's hashes.
 */
module Listing {
  import opened Wrappers
  import opened Base64Url
  import opened Tree

  /** The names of all entries. */
  function Names(es: seq<Node>): set<string> {
    set k | 0 <= k < |es| :: es[k].name
  }

  /** The names of the entries that are directories (`directory_hashes`). */
  function DirNames(es: seq<Node>): set<string> {
    set k | 0 <= k < |es| && es[k].Dir? :: es[k].name
  }

  /** A directory never holds two entries with one name. */
  predicate UniqueNames(es: seq<Node>) {
    forall i, j :: 0 <= i < j < |es| ==> es[i].name != es[j].name
  }

  /** The position of the entry called `name`. */
  function Find(es: seq<Node>, name: string): (r: Option<nat>)
    ensures r.Some? ==> r.value < |es| && es[r.value].name == name
    ensures r.None? <==> name !in Names(es)
  {
    if |es| == 0 then None
    else if es[0].name == name then Some(0)
    else
      var r := Find(es[1..], name);
      assert forall k :: 1 <= k < |es| ==> es[k] == es[1..][k - 1];
      assert Names(es) == {es[0].name} + Names(es[1..]);
      if r.Some? then Some(r.value + 1) else None
  }

  /** With unique names, the entry called `name` is the only one at its position. */
  lemma FindUnique(es: seq<Node>, name: string, k: nat)
    requires UniqueNames(es) && k < |es| && es[k].name == name
    ensures Find(es, name) == Some(k)
  {
    assert name in Names(es);
  }

  /** A storage folder as `insert` creates it: the folder `h` holding one file. */
  function Folder(h: string, filename: string, data: Bytes): Node {
    Dir(h, [File(filename, data)])
  }

  /** The same entry under another name. */
  function Retitled(n: Node, name: string): (r: Node)
    ensures r.name == name && r.Dir? == n.Dir?
  {
    match n
    case File(_, data) => File(name, data)
    case Dir(_, cs) => Dir(name, cs)
  }

  /** Why `os.rename` raises on POSIX. */
  datatype RenameError =
    | NoSuchEntry(name: string)
    | NotADirectory(name: string)
    | IsADirectory(name: string)
    | DirectoryNotEmpty(name: string)

  /**
   * `os.rename` of entry `from` to `to` within one directory: the source must exist; a
   * directory may replace an empty directory and a file may replace a file; any other
   * existing target raises.
   */
  function Rename(es: seq<Node>, from: string, to: string): Result<seq<Node>, RenameError> {
    match Find(es, from)
    case None => Err(NoSuchEntry(from))
    case Some(i) =>
      if from == to then Ok(es)
      else
        var moved := Retitled(es[i], to);
        match Find(es, to)
        case None => Ok(es[i := moved])
        case Some(j) =>
          if es[i].Dir? && es[j].File? then Err(NotADirectory(to))
          else if es[i].File? && es[j].Dir? then Err(IsADirectory(to))
          else if es[j].Dir? && |es[j].children| > 0 then Err(DirectoryNotEmpty(to))
          else Ok(Drop(es, j)[(if i < j then i else i - 1) := moved])
  }

  /** The listing without entry `j`. */
  function Drop(es: seq<Node>, j: nat): (r: seq<Node>)
    requires j < |es|
    ensures |r| == |es| - 1 && forall k :: 0 <= k < |r| ==> r[k] == (if k < j then es[k] else es[k + 1])
  {
    es[..j] + es[j + 1..]
  }

  /** Removing an entry removes exactly its name. */
  lemma DropNames(es: seq<Node>, j: nat)
    requires UniqueNames(es) && j < |es|
    ensures UniqueNames(Drop(es, j)) && Names(Drop(es, j)) == Names(es) - {es[j].name}
  {
    var r := Drop(es, j);
    forall x | x in Names(es) - {es[j].name} ensures x in Names(r) {
      DropKeeps(es, j, x);
    }
    forall x | x in Names(r) ensures x in Names(es) - {es[j].name} {
      var k :| 0 <= k < |r| && r[k].name == x;
      assert es[if k < j then k else k + 1].name == x;
    }
  }

  /** A name other than the dropped one survives the drop. */
  lemma DropKeeps(es: seq<Node>, j: nat, x: string)
    requires j < |es| && x in Names(es) && x != es[j].name
    ensures x in Names(Drop(es, j))
  {
    var k :| 0 <= k < |es| && es[k].name == x;
    assert Drop(es, j)[if k < j then k else k - 1].name == x;
  }

  /** Renaming entry `i` to a name not in use. */
  lemma RetitleInPlace(es: seq<Node>, i: nat, to: string)
    requires UniqueNames(es) && i < |es| && to !in Names(es)
    ensures var r := es[i := Retitled(es[i], to)];
      && UniqueNames(r)
      && Names(r) == Names(es) - {es[i].name} + {to}
  {
    var r := es[i := Retitled(es[i], to)];
    forall x ensures x in Names(r) <==> x in Names(es) - {es[i].name} + {to} {
      if x in Names(es) - {es[i].name} {
        var k :| 0 <= k < |es| && es[k].name == x;
        assert r[k].name == x;
      }
      if x == to {
        assert r[i].name == x;
      }
    }
  }

  /**
   * A rename that succeeds keeps names unique, swaps `from` for `to`, and carries the
   * renamed entry's content.
   */
  lemma RenameMeaning(es: seq<Node>, from: string, to: string)
    requires UniqueNames(es) && Rename(es, from, to).Ok? && from != to
    ensures var r := Rename(es, from, to).value;
      && UniqueNames(r)
      && Names(r) == Names(es) - {from} + {to}
      && Find(r, to).Some? && r[Find(r, to).value] == Retitled(es[Find(es, from).value], to)
  {
    var i := Find(es, from).value;
    var r := Rename(es, from, to).value;
    match Find(es, to)
    case None =>
      RetitleInPlace(es, i, to);
      FindUnique(r, to, i);
    case Some(j) =>
      DropNames(es, j);
      var m := if i < j then i else i - 1;
      assert Drop(es, j)[m] == es[i];
      RetitleInPlace(Drop(es, j), m, to);
      FindUnique(r, to, m);
  }

  /** One folder the integrity check would rename: its name and its recomputed hash. */
  datatype Retitle = Retitle(folder: string, hash: string)

  /** The listing after a run of renames, and the error that stopped the run, if any. */
  datatype Reconciled = Reconciled(entries: seq<Node>, error: Option<RenameError>)

  /**
   * The rename phase of `check_storage_integrity`: each folder whose name is not its
   * hash is renamed to the hash; the first failing rename raises and stops the rest.
   */
  function Reconcile(es: seq<Node>, rs: seq<Retitle>): Reconciled {
    if |rs| == 0 then Reconciled(es, None)
    else Apply(Reconcile(es, rs[..|rs| - 1]), rs[|rs| - 1])
  }

  /** One rename of the run; nothing happens after an error or when the folder already carries its hash. */
  function Apply(prev: Reconciled, rt: Retitle): Reconciled {
    if prev.error.Some? || rt.folder == rt.hash then prev
    else
      match Rename(prev.entries, rt.folder, rt.hash)
      case Err(e) => Reconciled(prev.entries, Some(e))
      case Ok(renamed) => Reconciled(renamed, None)
  }

  /** The renames keep the store's folder names unique, whether or not they all succeed. */
  lemma {:induction false} ReconcileKeepsUnique(es: seq<Node>, rs: seq<Retitle>)
    requires UniqueNames(es)
    ensures UniqueNames(Reconcile(es, rs).entries)
    decreases |rs|
  {
    if |rs| > 0 {
      var prev := Reconcile(es, rs[..|rs| - 1]);
      var last := rs[|rs| - 1];
      ReconcileKeepsUnique(es, rs[..|rs| - 1]);
      if prev.error.None? && last.folder != last.hash && Rename(prev.entries, last.folder, last.hash).Ok? {
        RenameMeaning(prev.entries, last.folder, last.hash);
      }
    }
  }

  /** A run in which every folder already carries its hash changes nothing. */
  lemma {:induction false} ReconcileNothingToDo(es: seq<Node>, rs: seq<Retitle>)
    requires forall k :: 0 <= k < |rs| ==> rs[k].folder == rs[k].hash
    ensures Reconcile(es, rs) == Reconciled(es, None)
    decreases |rs|
  {
    if |rs| > 0 {
      ReconcileNothingToDo(es, rs[..|rs| - 1]);
    }
  }

  /** The hash values of a sequence, as a set. */
  function Elems(hs: seq<string>): set<string> {
    set k | 0 <= k < |hs| :: hs[k]
  }

  predicate Distinct(hs: seq<string>) {
    forall i, j :: 0 <= i < j < |hs| ==> hs[i] != hs[j]
  }

  /** The state of the catalog comparison: the table hashes not yet matched, and whether every lookup succeeded. */
  datatype Tally = Tally(rest: set<string>, allFound: bool)

  /**
   * The catalog comparison of `check_storage_integrity`. `non_used_hashes` is the very
   * set `existing_hashes` names, so each lookup sees the hashes removed before it.
   */
  function Compare(table: set<string>, hs: seq<string>): Tally {
    if |hs| == 0 then Tally(table, true)
    else
      var prev := Compare(table, hs[..|hs| - 1]);
      var h := hs[|hs| - 1];
      if h in prev.rest then Tally(prev.rest - {h}, prev.allFound) else Tally(prev.rest, false)
  }

  lemma {:induction false} CompareMeaning(table: set<string>, hs: seq<string>)
    ensures Compare(table, hs).rest == table - Elems(hs)
    ensures Compare(table, hs).allFound <==> Distinct(hs) && Elems(hs) <= table
    decreases |hs|
  {
    if |hs| > 0 {
      var init := hs[..|hs| - 1];
      var h := hs[|hs| - 1];
      CompareMeaning(table, init);
      assert Elems(hs) == Elems(init) + {h} by {
        assert forall k :: 0 <= k < |init| ==> init[k] == hs[k];
      }
      assert Distinct(hs) <==> Distinct(init) && h !in Elems(init) by {
        if Distinct(init) && h !in Elems(init) {
          forall i, j | 0 <= i < j < |hs| ensures hs[i] != hs[j] {
            if j < |hs| - 1 {
              assert hs[i] == init[i] && hs[j] == init[j];
            } else {
              assert hs[i] == init[i];
            }
          }
        }
        if Distinct(hs) {
          assert forall i, j :: 0 <= i < j < |init| ==> init[i] == hs[i] && init[j] == hs[j];
        }
      }
    }
  }

  /**
   * The catalog part of the integrity check passes exactly when the recomputed hashes
   * are pairwise distinct and, as a set, equal the table's hashes.
   */
  lemma CatalogAgrees(table: set<string>, hs: seq<string>)
    ensures var t := Compare(table, hs);
      t.allFound && t.rest == {} <==> Distinct(hs) && Elems(hs) == table
  {
    CompareMeaning(table, hs);
  }
}
