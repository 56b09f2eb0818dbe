/**
 * A scan: one candidate or stored slide file, its names, its lifecycle state and
 * its content hash (base64url text of the SHA-256 digest of its bytes).
 */
module Scans {
  import opened Paths
  import opened Base64Url
  import Wrappers
  import Lifecycle

  /** The allow-list of scanner file endings; ".mrxs" is not on it. */
  const ScanExtensions: seq<string> := [".ndpi", ".svs", ".tif", ".tiff"]

  /** `Scan.is_valid`: the whole path ends with an allow-listed ending. */
  predicate IsScanPath(p: Path) {
    exists i :: 0 <= i < |ScanExtensions| && EndsWith(p, ScanExtensions[i])
  }

  lemma ScanPathCases(p: Path)
    ensures IsScanPath(p) <==>
      EndsWith(p, ".ndpi") || EndsWith(p, ".svs") || EndsWith(p, ".tif") || EndsWith(p, ".tiff")
  {
    if EndsWith(p, ".ndpi") { assert EndsWith(p, ScanExtensions[0]); }
    if EndsWith(p, ".svs") { assert EndsWith(p, ScanExtensions[1]); }
    if EndsWith(p, ".tif") { assert EndsWith(p, ScanExtensions[2]); }
    if EndsWith(p, ".tiff") { assert EndsWith(p, ScanExtensions[3]); }
  }

  /** No valid path ends with ".mrxs": the multi-file hashing branch cannot be reached. */
  lemma MrxsNeverValid(p: Path)
    ensures IsScanPath(p) ==> !EndsWith(p, ".mrxs")
  {
    if EndsWith(p, ".mrxs") {
      var n := |p|;
      assert p[n - 2] == 'x' && p[n - 1] == 's';
      assert p[n - 3..] == "mrxs"[1..];
      ScanPathCases(p);
    }
  }

  /** The hash text of a file's bytes. */
  function HashOf(sha: Bytes -> Digest, data: Bytes): string {
    Encode(sha(data))
  }

  /** A hash is 44 characters long, so never the empty (falsy) text, and holds no '/'. */
  lemma HashOfShape(sha: Bytes -> Digest, data: Bytes)
    ensures |HashOf(sha, data)| == 44 && HashOf(sha, data) != "" && '/' !in HashOf(sha, data)
  {
    DigestText(sha(data));
  }

  /** Equal hashes mean equal digests: the hash depends on nothing but the digest. */
  lemma HashOfInjective(sha: Bytes -> Digest, a: Bytes, b: Bytes)
    requires HashOf(sha, a) == HashOf(sha, b)
    ensures sha(a) == sha(b)
  {
    EncodeInjective(sha(a), sha(b));
  }

  const ChunkSize: nat := 65536

  function Concat(chunks: seq<Bytes>): Bytes {
    if |chunks| == 0 then [] else Concat(chunks[..|chunks| - 1]) + chunks[|chunks| - 1]
  }

  /**
   * `hash_file`: the file is read in chunks of at most 64 KiB and each chunk is fed
   * to the digest; the digest of everything fed is the digest of the content.
   */
  method HashFile(sha: Bytes -> Digest, content: Bytes) returns (d: Digest, ghost chunks: seq<Bytes>)
    ensures d == sha(content)
    ensures Concat(chunks) == content
    ensures forall i :: 0 <= i < |chunks| ==> 0 < |chunks[i]| <= ChunkSize
  {
    var fed: Bytes := [];
    var pos := 0;
    chunks := [];
    while pos < |content|
      invariant 0 <= pos <= |content|
      invariant fed == content[..pos] && Concat(chunks) == fed
      invariant forall i :: 0 <= i < |chunks| ==> 0 < |chunks[i]| <= ChunkSize
    {
      var n := if |content| - pos < ChunkSize then |content| - pos else ChunkSize;
      var data := content[pos..pos + n];
      fed := fed + data;
      chunks := chunks + [data];
      assert chunks[..|chunks| - 1] == chunks[..|chunks| - 1];
      pos := pos + n;
      assert fed == content[..pos];
    }
    assert content[..pos] == content;
    d := sha(fed);
  }

  /**
   * Why a scan operation raises: `hash_file` finds no regular file at the path
   * (`ValueError`), or `shutil.move` fails and `move` re-raises it (`RuntimeError`).
   */
  datatype ScanError = NotAFile | MoveError

  /**
   * `shutil.move(src, dir)` among the regular files `files`: it succeeds when a file is at
   * `src` and none is at `dir/basename(src)`, the name it would take.
   */
  predicate CanMove(files: set<Path>, src: Path, dir: Path) {
    src in files && Join(dir, Basename(src)) !in files
  }

  /** The regular files after `src` has moved into `dir`. */
  function Moved(files: set<Path>, src: Path, dir: Path): set<Path>
    requires CanMove(files, src, dir)
  {
    files - {src} + {Join(dir, Basename(src))}
  }

  /** A move renames one file: as many files as before, the source gone, the target there, the others untouched. */
  lemma MovedMeaning(files: set<Path>, src: Path, dir: Path)
    requires CanMove(files, src, dir)
    ensures var r := Moved(files, src, dir);
      && |r| == |files| && src !in r && Join(dir, Basename(src)) in r
      && forall p :: p != src && p != Join(dir, Basename(src)) ==> (p in r <==> p in files)
  {
    assert |files - {src}| == |files| - 1;
  }

  /** A file already at `dir/name` cannot move into `dir` again: source and target are the same path. */
  lemma MoveAgainFails(files: set<Path>, dir: Path, name: string)
    requires '/' !in name
    ensures !CanMove(files, Join(dir, name), dir)
  {
    BasenameOfJoin(dir, name);
  }

  class Scan {
    var path: Path
    var scanname: string
    var filename: string
    var hash: Wrappers.Option<string>
    /** Callers use `scan.state`; the model gives every scan its own state. */
    const state: Lifecycle.State

    constructor (p: Path)
      ensures path == p && filename == Basename(p) && scanname == StripExt(Basename(p))
      ensures hash == Wrappers.None
      ensures fresh(state) && fresh(state.flags) && state.Shaped() && state.flags[..] == Lifecycle.Fresh
    {
      path := p;
      scanname := StripExt(Basename(p));
      filename := Basename(p);
      hash := Wrappers.None;
      state := new Lifecycle.State();
    }

    predicate IsValid()
      reads this
    {
      IsScanPath(path)
    }

    /**
     * `hash_scan`, given the bytes at `path` (None when it is not a regular file):
     * None for an invalid path, `ValueError` for a missing file, else the hash,
     * which is also stored in `hash`.
     */
    method HashScan(sha: Bytes -> Digest, content: Wrappers.Option<Bytes>)
      returns (r: Wrappers.Result<Wrappers.Option<string>, ScanError>)
      modifies this`hash
      ensures !IsValid() ==> r == Wrappers.Ok(Wrappers.None) && hash == old(hash)
      ensures IsValid() && content.None? ==> r == Wrappers.Err(NotAFile) && hash == old(hash)
      ensures IsValid() && content.Some? ==>
        r == Wrappers.Ok(Wrappers.Some(HashOf(sha, content.value))) && hash == r.value
    {
      if !IsValid() {
        return Wrappers.Ok(Wrappers.None);
      }
      MrxsNeverValid(path);
      if EndsWith(path, ".mrxs") {
        assert false;
      }
      if content.None? {
        return Wrappers.Err(NotAFile);
      }
      var raw, _ := HashFile(sha, content.value);
      var h := Encode(raw);
      hash := Wrappers.Some(h);
      return Wrappers.Ok(Wrappers.Some(Encode(raw)));
    }

    /**
     * `move`, among the regular files `files`: the file goes into `targetDir` under its own
     * base name and the path becomes `targetDir/filename`; when `shutil.move` fails the
     * error is re-raised and the path stays.
     */
    method Move(targetDir: Path, files: set<Path>) returns (r: Wrappers.Outcome<ScanError>)
      modifies this`path
      ensures r.Pass? <==> CanMove(files, old(path), targetDir)
      ensures r.Fail? ==> r.error == MoveError && path == old(path)
      ensures r.Pass? ==> path == Join(targetDir, filename)
      ensures r.Pass? && '/' !in filename ==> Basename(path) == filename
    {
      if !CanMove(files, path, targetDir) {
        return Wrappers.Fail(MoveError);
      }
      path := Join(targetDir, filename);
      if '/' !in filename {
        BasenameOfJoin(targetDir, filename);
      }
      return Wrappers.Pass;
    }
  }
}
