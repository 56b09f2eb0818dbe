/**
 * Directory trees as the source walks them: each directory lists its entries in
 * `os.listdir` order, and a walk reaches an entry by joining its name onto the
 * path of the directory that holds it.
 */
module Tree {
  import opened Wrappers
  import opened Base64Url
  import opened Paths
  import opened Scans

  /** A regular file with its bytes, or a directory with its entries in listing order. */
  datatype Node = File(name: string, data: Bytes) | Dir(name: string, children: seq<Node>)

  /** A regular file a walk reports: its full path and its bytes. */
  datatype Found = Found(path: Path, data: Bytes)

  /** Every regular file below the entries `cs` of the directory at `dir`, depth first. */
  function FilesIn(cs: seq<Node>, dir: Path): seq<Found>
    decreases cs
  {
    if |cs| == 0 then [] else FilesOf(cs[0], dir) + FilesIn(cs[1..], dir)
  }

  /** The regular files of entry `n` of the directory at `dir`: itself, or everything below it. */
  function FilesOf(n: Node, dir: Path): seq<Found>
    decreases n
  {
    match n
    case File(name, data) => [Found(Join(dir, name), data)]
    case Dir(name, cs) => FilesIn(cs, Join(dir, name))
  }

  /** The regular files directly among the entries `cs` of the directory at `dir`, in listing order. */
  function OwnFiles(cs: seq<Node>, dir: Path): seq<Found> {
    if |cs| == 0 then []
    else (if cs[0].File? then [Found(Join(dir, cs[0].name), cs[0].data)] else []) + OwnFiles(cs[1..], dir)
  }

  /**
   * `Path(dir).rglob("*")` keeping the regular files, in the order of Python 3.11 and
   * earlier: a folder's own files come first, then those of each subfolder in listing
   * order, each subfolder walked the same way.
   */
  function RglobFiles(cs: seq<Node>, dir: Path): seq<Found>
    decreases cs, 1
  {
    OwnFiles(cs, dir) + SubfolderFiles(cs, dir)
  }

  /** The files below the subfolders among `cs`, subfolder by subfolder. */
  function SubfolderFiles(cs: seq<Node>, dir: Path): seq<Found>
    decreases cs, 0
  {
    if |cs| == 0 then []
    else
      (match cs[0]
       case File(_, _) => []
       case Dir(name, sub) => RglobFiles(sub, Join(dir, name))) + SubfolderFiles(cs[1..], dir)
  }

  /** The rglob walk reports the files of the depth-first walk, each as often: only the order differs. */
  lemma {:induction false} RglobSameFiles(cs: seq<Node>, dir: Path)
    ensures multiset(RglobFiles(cs, dir)) == multiset(FilesIn(cs, dir))
    decreases cs
  {
    if |cs| > 0 {
      RglobSameFiles(cs[1..], dir);
      match cs[0]
      case File(_, _) =>
      case Dir(name, sub) =>
        RglobSameFiles(sub, Join(dir, name));
    }
  }

  /** The files directly in the directory at `dir` whose name ends with an allowed extension. */
  function DirectScanFiles(cs: seq<Node>, dir: Path): (r: seq<Found>)
    ensures forall k :: 0 <= k < |r| ==> IsScanPath(r[k].path)
  {
    if |cs| == 0 then []
    else
      (match cs[0]
       case File(name, data) =>
         if IsScanPath(name) then ScanPathOfJoin(dir, name); [Found(Join(dir, name), data)] else []
       case Dir(_, _) => []) + DirectScanFiles(cs[1..], dir)
  }

  /** A directory with no entry of an allowed extension contributes no direct scan file. */
  lemma {:induction false} DirectScanFilesNone(cs: seq<Node>, dir: Path)
    requires forall j :: 0 <= j < |cs| && cs[j].File? ==> !IsScanPath(cs[j].name)
    ensures DirectScanFiles(cs, dir) == []
  {
    if |cs| > 0 {
      assert forall j :: 1 <= j < |cs| ==> cs[1..][j - 1] == cs[j];
      DirectScanFilesNone(cs[1..], dir);
    }
  }

  /** The first subdirectory in listing order, which `os.walk` enters first. */
  function FirstDir(cs: seq<Node>): (r: Option<nat>)
    ensures r.Some? ==> r.value < |cs| && cs[r.value].Dir? && forall j :: 0 <= j < r.value ==> cs[j].File?
    ensures r.None? ==> forall j :: 0 <= j < |cs| ==> cs[j].File?
  {
    if |cs| == 0 then None
    else if cs[0].Dir? then Some(0)
    else
      var r := FirstDir(cs[1..]);
      assert forall j :: 1 <= j < |cs| ==> cs[j] == cs[1..][j - 1];
      if r.Some? then Some(r.value + 1) else None
  }

  /**
   * The scan files the integrity check counts in a storage folder: the walk takes the
   * folder's own files, then the files of the first subdirectory, and stops there.
   */
  function ShallowScanFiles(cs: seq<Node>, dir: Path): (r: seq<Found>)
    ensures forall k :: 0 <= k < |r| ==> IsScanPath(r[k].path)
  {
    DirectScanFiles(cs, dir) +
      match FirstDir(cs)
      case None => []
      case Some(k) => DirectScanFiles(cs[k].children, Join(dir, cs[k].name))
  }

  /**
   * The scan file `get_existing_slides` picks: a top-down walk that looks at each
   * directory's own files before its subdirectories and stops at the first match.
   */
  function FirstScan(cs: seq<Node>, dir: Path): Option<Found>
    decreases cs, 1
  {
    var direct := DirectScanFiles(cs, dir);
    if |direct| > 0 then Some(direct[0]) else FirstInSubdirs(cs, dir)
  }

  /** The first match inside the subdirectories among `cs`, in listing order. */
  function FirstInSubdirs(cs: seq<Node>, dir: Path): Option<Found>
    decreases cs, 0
  {
    if |cs| == 0 then None
    else
      match cs[0]
      case File(_, _) => FirstInSubdirs(cs[1..], dir)
      case Dir(name, sub) =>
        var f := FirstScan(sub, Join(dir, name));
        if f.Some? then f else FirstInSubdirs(cs[1..], dir)
  }

  /** The subdirectory search skips the files ahead of the first subdirectory and succeeds there when it can. */
  lemma {:induction false} FirstInSubdirsAtFirstDir(cs: seq<Node>, dir: Path, k: nat)
    requires k < |cs| && cs[k].Dir? && forall j :: 0 <= j < k ==> cs[j].File?
    requires FirstScan(cs[k].children, Join(dir, cs[k].name)).Some?
    ensures FirstInSubdirs(cs, dir) == FirstScan(cs[k].children, Join(dir, cs[k].name))
    decreases k
  {
    if k > 0 {
      assert forall j :: 0 <= j < k - 1 ==> cs[1..][j] == cs[j + 1];
      assert cs[1..][k - 1] == cs[k];
      FirstInSubdirsAtFirstDir(cs[1..], dir, k - 1);
    }
  }

  /**
   * When a folder holds exactly one scan file by the integrity check's count, the
   * top-down search finds that same file.
   */
  lemma ShallowThenFirst(cs: seq<Node>, dir: Path)
    requires |ShallowScanFiles(cs, dir)| == 1
    ensures FirstScan(cs, dir) == Some(ShallowScanFiles(cs, dir)[0])
  {
    if |DirectScanFiles(cs, dir)| == 0 {
      var k := FirstDir(cs).value;
      FirstInSubdirsAtFirstDir(cs, dir, k);
      assert DirectScanFiles(cs[k].children, Join(dir, cs[k].name)) == ShallowScanFiles(cs, dir);
    }
  }

  /** A found file always has an allowed extension, and the search fails only when there is none. */
  lemma {:induction false} FirstScanFinds(cs: seq<Node>, dir: Path)
    ensures FirstScan(cs, dir).Some? ==> IsScanPath(FirstScan(cs, dir).value.path)
    decreases cs, 1
  {
    if |DirectScanFiles(cs, dir)| == 0 {
      FirstInSubdirsFinds(cs, dir);
    }
  }

  lemma {:induction false} FirstInSubdirsFinds(cs: seq<Node>, dir: Path)
    ensures FirstInSubdirs(cs, dir).Some? ==> IsScanPath(FirstInSubdirs(cs, dir).value.path)
    decreases cs, 0
  {
    if |cs| > 0 {
      match cs[0]
      case File(_, _) => FirstInSubdirsFinds(cs[1..], dir);
      case Dir(name, sub) =>
        FirstScanFinds(sub, Join(dir, name));
        FirstInSubdirsFinds(cs[1..], dir);
    }
  }

  /** A path ends with its last component, so the extension test on a name carries over. */
  lemma ScanPathOfJoin(dir: Path, name: string)
    requires IsScanPath(name)
    ensures IsScanPath(Join(dir, name))
  {
    var i :| 0 <= i < |ScanExtensions| && EndsWith(name, ScanExtensions[i]);
    JoinEndsWith(dir, name);
    EndsWithTrans(Join(dir, name), name, ScanExtensions[i]);
  }

  /** A directory that `remove_empty_folders` deletes: empty when checked, not the backup folder, and deletable. */
  predicate Removable(n: Node, path: Path, backup: Path, failing: set<Path>) {
    n.Dir? && |n.children| == 0 && path != backup && path !in failing
  }

  /**
   * The bottom-up walk on the entries `cs` of the directory at `dir`: every entry is
   * pruned first, then each entry that is now an empty removable directory is deleted.
   */
  function PruneAll(cs: seq<Node>, dir: Path, backup: Path, failing: set<Path>): seq<Node>
    decreases cs
  {
    if |cs| == 0 then []
    else
      var p := Join(dir, cs[0].name);
      var c := Prune(cs[0], dir, backup, failing);
      (if Removable(c, p, backup, failing) then [] else [c]) + PruneAll(cs[1..], dir, backup, failing)
  }

  /** Entry `n` of the directory at `dir` after the walk has pruned everything below it. */
  function Prune(n: Node, dir: Path, backup: Path, failing: set<Path>): (r: Node)
    decreases n
    ensures r.name == n.name && r.Dir? == n.Dir?
  {
    match n
    case File(_, _) => n
    case Dir(name, cs) => Dir(name, PruneAll(cs, Join(dir, name), backup, failing))
  }

  /** No file is deleted: the walk sees the same files, with the same paths and bytes, in the same order. */
  lemma {:induction false} PruneAllKeepsFiles(cs: seq<Node>, dir: Path, backup: Path, failing: set<Path>)
    ensures FilesIn(PruneAll(cs, dir, backup, failing), dir) == FilesIn(cs, dir)
    decreases cs
  {
    if |cs| > 0 {
      var c := Prune(cs[0], dir, backup, failing);
      PruneKeepsFiles(cs[0], dir, backup, failing);
      PruneAllKeepsFiles(cs[1..], dir, backup, failing);
      var rest := PruneAll(cs[1..], dir, backup, failing);
      if Removable(c, Join(dir, cs[0].name), backup, failing) {
        assert FilesOf(c, dir) == FilesIn([], Join(dir, c.name)) == [];
        assert PruneAll(cs, dir, backup, failing) == rest;
      } else {
        assert ([c] + rest)[1..] == rest;
      }
    }
  }

  lemma {:induction false} PruneKeepsFiles(n: Node, dir: Path, backup: Path, failing: set<Path>)
    ensures FilesOf(Prune(n, dir, backup, failing), dir) == FilesOf(n, dir)
    decreases n
  {
    if n.Dir? {
      PruneAllKeepsFiles(n.children, Join(dir, n.name), backup, failing);
    }
  }

  /**
   * After the walk no directory below `dir` is empty unless it is the backup folder or
   * its removal failed: nested chains of empty folders are gone.
   */
  predicate NoEmptyDirs(cs: seq<Node>, dir: Path, backup: Path, failing: set<Path>)
    decreases cs
  {
    forall k :: 0 <= k < |cs| ==> NoEmptyDir(cs[k], dir, backup, failing)
  }

  predicate NoEmptyDir(n: Node, dir: Path, backup: Path, failing: set<Path>)
    decreases n
  {
    n.Dir? ==>
      && !Removable(n, Join(dir, n.name), backup, failing)
      && NoEmptyDirs(n.children, Join(dir, n.name), backup, failing)
  }

  lemma {:induction false} PruneAllLeavesNoEmpty(cs: seq<Node>, dir: Path, backup: Path, failing: set<Path>)
    ensures NoEmptyDirs(PruneAll(cs, dir, backup, failing), dir, backup, failing)
    decreases cs
  {
    if |cs| > 0 {
      var c := Prune(cs[0], dir, backup, failing);
      PruneLeavesNoEmpty(cs[0], dir, backup, failing);
      PruneAllLeavesNoEmpty(cs[1..], dir, backup, failing);
      var rest := PruneAll(cs[1..], dir, backup, failing);
      var r := PruneAll(cs, dir, backup, failing);
      forall k | 0 <= k < |r| ensures NoEmptyDir(r[k], dir, backup, failing) {
        if !Removable(c, Join(dir, cs[0].name), backup, failing) && k > 0 {
          assert r[k] == rest[k - 1];
        }
      }
    }
  }

  lemma {:induction false} PruneLeavesNoEmpty(n: Node, dir: Path, backup: Path, failing: set<Path>)
    ensures n.Dir? ==> NoEmptyDirs(Prune(n, dir, backup, failing).children, Join(dir, n.name), backup, failing)
    decreases n
  {
    if n.Dir? {
      PruneAllLeavesNoEmpty(n.children, Join(dir, n.name), backup, failing);
    }
  }

  /** The backup folder survives the walk, whatever it holds. */
  lemma {:induction false} PruneAllKeepsBackup(cs: seq<Node>, dir: Path, backup: Path, failing: set<Path>, k: nat)
    requires k < |cs| && Join(dir, cs[k].name) == backup
    ensures Prune(cs[k], dir, backup, failing) in PruneAll(cs, dir, backup, failing)
    decreases cs
  {
    PruneAllHead(cs, dir, backup, failing);
    if k > 0 {
      assert cs[1..][k - 1] == cs[k];
      PruneAllKeepsBackup(cs[1..], dir, backup, failing, k - 1);
    }
  }

  /** One step of the walk over a directory's entries. */
  lemma PruneAllHead(cs: seq<Node>, dir: Path, backup: Path, failing: set<Path>)
    requires |cs| > 0
    ensures var c := Prune(cs[0], dir, backup, failing);
      PruneAll(cs, dir, backup, failing)
      == (if Removable(c, Join(dir, cs[0].name), backup, failing) then [] else [c]) + PruneAll(cs[1..], dir, backup, failing)
  {
  }
}
