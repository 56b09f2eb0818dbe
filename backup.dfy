/**
 * Backups of the catalog file: the name `create_backup` gives a copy, and the
 * retention rule of `cleanup_old_backups`, which keeps the newest copies.
 * The wall clock and the creation times the file system reports are parameters.
 */
module Backup {
  import opened Wrappers
  import opened Paths

  // ---------------------------------------------------------------------------
  // Names

  /** "_backup_" starts at position `i` of `name`. */
  predicate MarkerAt(name: string, i: int) {
    0 <= i && i + 8 <= |name| && name[i..i + 8] == "_backup_"
  }

  /** The glob `*_backup_*.db`: any text, "_backup_", any text, ".db". */
  predicate IsBackupName(name: string) {
    EndsWith(name, ".db") && exists i :: 0 <= i <= |name| - 11 && MarkerAt(name, i)
  }

  /** `PurePath.stem` of a final component: the text before the last '.', unless that dot is first or last. */
  function Stem(name: string): (r: string)
    ensures |r| <= |name| && name[..|r|] == r
  {
    var i := LastIndexOf(name, '.');
    if 0 < i < |name| - 1 then name[..i] else name
  }

  /** A date and time of `datetime`, to the second. */
  datatype DateTime = DateTime(year: nat, month: nat, day: nat, hour: nat, minute: nat, second: nat)
  {
    predicate Valid() {
      1 <= year <= 9999 && 1 <= month <= 12 && 1 <= day <= 31 && hour < 24 && minute < 60 && second < 60
    }
  }

  function Pow10(w: nat): nat {
    if w == 0 then 1 else 10 * Pow10(w - 1)
  }

  /** `n` in decimal, zero-padded to `w` digits. */
  function Digits(n: nat, w: nat): (r: string)
    ensures |r| == w && forall k :: 0 <= k < w ==> '0' <= r[k] <= '9'
  {
    if w == 0 then "" else Digits(n / 10, w - 1) + [('0' as int + n % 10) as char]
  }

  /** The number a string of decimal digits spells. */
  function Value(s: string): int {
    if |s| == 0 then 0 else 10 * Value(s[..|s| - 1]) + (s[|s| - 1] as int - '0' as int)
  }

  /** Padded digits read back as the number they came from. */
  lemma {:induction false} DigitsValue(n: nat, w: nat)
    requires n < Pow10(w)
    ensures Value(Digits(n, w)) == n
    decreases w
  {
    if w > 0 {
      assert n / 10 < Pow10(w - 1);
      DigitsValue(n / 10, w - 1);
      var d := Digits(n, w);
      assert d[..w - 1] == Digits(n / 10, w - 1);
    }
  }

  /** `strftime('%Y%m%d_%H%M%S')`. */
  function Stamp(t: DateTime): string {
    Digits(t.year, 4) + Digits(t.month, 2) + Digits(t.day, 2) + "_"
      + Digits(t.hour, 2) + Digits(t.minute, 2) + Digits(t.second, 2)
  }

  /** Equal texts cut at the same place give equal halves. */
  lemma SplitEq(a: string, b: string, c: string, d: string)
    requires a + b == c + d && |b| == |d|
    ensures a == c && b == d
  {
    assert a == (a + b)[..|a|] && c == (c + d)[..|c|];
    assert b == (a + b)[|a|..] && d == (c + d)[|c|..];
  }

  /** Two valid times to the second give two different stamps. */
  lemma StampInjective(t: DateTime, u: DateTime)
    requires t.Valid() && u.Valid() && Stamp(t) == Stamp(u)
    ensures t == u
  {
    var y, y' := Digits(t.year, 4), Digits(u.year, 4);
    var mo, mo' := y + Digits(t.month, 2), y' + Digits(u.month, 2);
    var d, d' := mo + Digits(t.day, 2), mo' + Digits(u.day, 2);
    var h, h' := d + "_" + Digits(t.hour, 2), d' + "_" + Digits(u.hour, 2);
    var mi, mi' := h + Digits(t.minute, 2), h' + Digits(u.minute, 2);
    SplitEq(mi, Digits(t.second, 2), mi', Digits(u.second, 2));
    SplitEq(h, Digits(t.minute, 2), h', Digits(u.minute, 2));
    SplitEq(d + "_", Digits(t.hour, 2), d' + "_", Digits(u.hour, 2));
    SplitEq(d, "_", d', "_");
    SplitEq(mo, Digits(t.day, 2), mo', Digits(u.day, 2));
    SplitEq(y, Digits(t.month, 2), y', Digits(u.month, 2));
    DigitsValue(t.year, 4); DigitsValue(u.year, 4);
    DigitsValue(t.month, 2); DigitsValue(u.month, 2);
    DigitsValue(t.day, 2); DigitsValue(u.day, 2);
    DigitsValue(t.hour, 2); DigitsValue(u.hour, 2);
    DigitsValue(t.minute, 2); DigitsValue(u.minute, 2);
    DigitsValue(t.second, 2); DigitsValue(u.second, 2);
  }

  /** The file name of a backup of `dbPath` taken at `now`: `<stem>_backup_<stamp>.db`. */
  function BackupName(dbPath: Path, now: DateTime): string {
    Stem(Basename(dbPath)) + "_backup_" + Stamp(now) + ".db"
  }

  /**
   * A backup's name matches the pattern the clean-up lists, holds no '/', so the path
   * `backup_dir/<name>` names it directly, and differs from the backup of another second.
   */
  lemma BackupNameMeaning(dbPath: Path, now: DateTime, later: DateTime, backupDir: Path)
    requires now.Valid() && later.Valid() && now != later
    ensures IsBackupName(BackupName(dbPath, now))
    ensures Basename(Join(backupDir, BackupName(dbPath, now))) == BackupName(dbPath, now)
    ensures BackupName(dbPath, now) != BackupName(dbPath, later)
  {
    var stem := Stem(Basename(dbPath));
    var name := BackupName(dbPath, now);
    assert MarkerAt(name, |stem|) by {
      assert name[|stem|..|stem| + 8] == "_backup_";
    }
    assert EndsWith(name, ".db") by {
      assert name[|name| - 3..] == ".db";
    }
    assert '/' !in stem by {
      assert forall k :: 0 <= k < |stem| ==> stem[k] == Basename(dbPath)[k];
    }
    assert '/' !in Stamp(now);
    BasenameOfJoin(backupDir, name);
    if name == BackupName(dbPath, later) {
      var a := Stamp(now);
      var b := Stamp(later);
      assert |a| == |b| == 15;
      assert a == name[|stem| + 8..|stem| + 23];
      assert b == BackupName(dbPath, later)[|stem| + 8..|stem| + 23];
      StampInjective(now, later);
    }
  }

  // ---------------------------------------------------------------------------
  // Folders of backups

  /** A file of the backup folder: its name and its creation time, `os.path.getctime`. */
  datatype Entry = Entry(name: string, ctime: int)

  function Names(es: seq<Entry>): set<string> {
    set k | 0 <= k < |es| :: es[k].name
  }

  /** A folder never holds two files with one name. */
  predicate UniqueNames(es: seq<Entry>) {
    forall i, j :: 0 <= i < j < |es| ==> es[i].name != es[j].name
  }

  /** The files the glob lists, in the folder's order. */
  function Candidates(es: seq<Entry>): (r: seq<Entry>)
    ensures |r| <= |es|
  {
    if |es| == 0 then []
    else Candidates(es[..|es| - 1]) + (if IsBackupName(es[|es| - 1].name) then [es[|es| - 1]] else [])
  }

  /** The folder after unlinking every file whose name is in `gone`. */
  function Without(es: seq<Entry>, gone: set<string>): (r: seq<Entry>)
    ensures |r| <= |es|
  {
    if |es| == 0 then []
    else Without(es[..|es| - 1], gone) + (if es[|es| - 1].name in gone then [] else [es[|es| - 1]])
  }

  lemma WithoutSnoc(w: seq<Entry>, x: Entry, gone: set<string>)
    ensures Without(w + [x], gone) == Without(w, gone) + (if x.name in gone then [] else [x])
  {
    assert (w + [x])[..|w|] == w;
  }

  lemma CandidatesSnoc(w: seq<Entry>, x: Entry)
    ensures Candidates(w + [x]) == Candidates(w) + (if IsBackupName(x.name) then [x] else [])
  {
    assert (w + [x])[..|w|] == w;
  }

  /** The glob lists exactly the files whose names match. */
  lemma {:induction false} CandidatesHas(es: seq<Entry>)
    ensures forall x :: x in Candidates(es) <==> x in es && IsBackupName(x.name)
    decreases |es|
  {
    if |es| > 0 {
      CandidatesHas(es[..|es| - 1]);
      assert es == es[..|es| - 1] + [es[|es| - 1]];
    }
  }

  /** Unlinking keeps exactly the files whose names are not gone. */
  lemma {:induction false} WithoutHas(es: seq<Entry>, gone: set<string>)
    ensures forall x :: x in Without(es, gone) <==> x in es && x.name !in gone
    decreases |es|
  {
    if |es| > 0 {
      WithoutHas(es[..|es| - 1], gone);
      assert es == es[..|es| - 1] + [es[|es| - 1]];
    }
  }

  /** Oldest first. */
  predicate ByCtime(s: seq<Entry>) {
    forall i, j :: 0 <= i < j < |s| ==> s[i].ctime <= s[j].ctime
  }

  /** Put `e` after every entry of `s` that is not newer than it. */
  function InsertByCtime(s: seq<Entry>, e: Entry): seq<Entry> {
    if |s| == 0 || s[|s| - 1].ctime <= e.ctime then s + [e]
    else InsertByCtime(s[..|s| - 1], e) + [s[|s| - 1]]
  }

  /** `sorted(..., key=os.path.getctime)`: a stable sort on the creation time. */
  function SortByCtime(es: seq<Entry>): seq<Entry> {
    if |es| == 0 then [] else InsertByCtime(SortByCtime(es[..|es| - 1]), es[|es| - 1])
  }

  lemma UniqueSnoc(s: seq<Entry>, x: Entry)
    requires UniqueNames(s) && x.name !in Names(s)
    ensures UniqueNames(s + [x]) && Names(s + [x]) == Names(s) + {x.name}
  {
    var t := s + [x];
    forall i, j | 0 <= i < j < |t| ensures t[i].name != t[j].name {
      if j < |s| {
        assert t[i] == s[i] && t[j] == s[j];
      } else {
        assert t[i] == s[i];
      }
    }
    assert forall k :: 0 <= k < |s| ==> t[k] == s[k];
    assert t[|s|] == x;
  }

  lemma NamesInit(s: seq<Entry>)
    requires |s| > 0
    ensures Names(s) == Names(s[..|s| - 1]) + {s[|s| - 1].name}
    ensures UniqueNames(s) ==> UniqueNames(s[..|s| - 1]) && s[|s| - 1].name !in Names(s[..|s| - 1])
  {
    var init := s[..|s| - 1];
    assert forall k :: 0 <= k < |init| ==> init[k] == s[k];
    assert s == init + [s[|s| - 1]];
  }

  /** Inserting adds exactly `e`. */
  lemma {:induction false} InsertHas(s: seq<Entry>, e: Entry)
    ensures |InsertByCtime(s, e)| == |s| + 1
    ensures forall x :: x in InsertByCtime(s, e) <==> x in s || x == e
    decreases |s|
  {
    if |s| > 0 && s[|s| - 1].ctime > e.ctime {
      InsertHas(s[..|s| - 1], e);
      assert s == s[..|s| - 1] + [s[|s| - 1]];
    }
  }

  /** Inserting keeps the order. */
  lemma {:induction false} InsertOrdered(s: seq<Entry>, e: Entry)
    requires ByCtime(s)
    ensures ByCtime(InsertByCtime(s, e))
    decreases |s|
  {
    var r := InsertByCtime(s, e);
    if |s| > 0 && s[|s| - 1].ctime > e.ctime {
      var init, last := s[..|s| - 1], s[|s| - 1];
      InsertOrdered(init, e);
      InsertHas(init, e);
      var m := InsertByCtime(init, e);
      assert forall k :: 0 <= k < |init| ==> init[k] == s[k];
      assert forall k :: 0 <= k < |m| ==> m[k].ctime <= last.ctime by {
        forall k | 0 <= k < |m| ensures m[k].ctime <= last.ctime {
          assert m[k] in init || m[k] == e;
        }
      }
      forall i, j | 0 <= i < j < |r| ensures r[i].ctime <= r[j].ctime {
        assert r[i] == m[i];
        if j < |m| {
          assert r[j] == m[j];
        }
      }
    }
  }

  /** Inserting a file with a new name keeps names unique. */
  lemma {:induction false} InsertUnique(s: seq<Entry>, e: Entry)
    requires UniqueNames(s) && e.name !in Names(s)
    ensures UniqueNames(InsertByCtime(s, e)) && Names(InsertByCtime(s, e)) == Names(s) + {e.name}
    decreases |s|
  {
    if |s| == 0 || s[|s| - 1].ctime <= e.ctime {
      UniqueSnoc(s, e);
    } else {
      var init, last := s[..|s| - 1], s[|s| - 1];
      NamesInit(s);
      InsertUnique(init, e);
      UniqueSnoc(InsertByCtime(init, e), last);
    }
  }

  /** The sort orders by creation time and neither loses nor adds a file. */
  lemma {:induction false} SortMeaning(es: seq<Entry>)
    ensures var r := SortByCtime(es);
      && ByCtime(r) && |r| == |es|
      && (forall x :: x in r <==> x in es)
    decreases |es|
  {
    if |es| > 0 {
      var init, last := es[..|es| - 1], es[|es| - 1];
      SortMeaning(init);
      InsertOrdered(SortByCtime(init), last);
      InsertHas(SortByCtime(init), last);
      assert es == init + [last];
    }
  }

  /** The sort keeps unique names unique, and keeps the names. */
  lemma {:induction false} SortUnique(es: seq<Entry>)
    requires UniqueNames(es)
    ensures UniqueNames(SortByCtime(es)) && Names(SortByCtime(es)) == Names(es)
    decreases |es|
  {
    if |es| > 0 {
      var init, last := es[..|es| - 1], es[|es| - 1];
      NamesInit(es);
      SortUnique(init);
      InsertUnique(SortByCtime(init), last);
    }
  }

  /** How many files `cleanup_old_backups` pops from `n` candidates: all of them when the limit is negative. */
  function Excess(n: nat, maxBackups: int): (k: nat)
    ensures k <= n
  {
    if maxBackups < 0 then n else if n > maxBackups then n - maxBackups else 0
  }

  /** The sorted candidates the clean-up unlinks: the oldest ones. */
  function Removed(es: seq<Entry>, maxBackups: int): seq<Entry> {
    var sorted := SortByCtime(Candidates(es));
    sorted[..Excess(|sorted|, maxBackups)]
  }

  /** The folder after `cleanup_old_backups`. */
  function Retained(es: seq<Entry>, maxBackups: int): seq<Entry> {
    Without(es, Names(Removed(es, maxBackups)))
  }

  /** Unlinking only removes files, and only ones the glob lists. */
  lemma RetainedOnlyCandidates(es: seq<Entry>, maxBackups: int)
    ensures forall x :: x in Retained(es, maxBackups) ==> x in es
    ensures forall x :: x in es && !IsBackupName(x.name) ==> x in Retained(es, maxBackups)
  {
    var rm := Removed(es, maxBackups);
    var sorted := SortByCtime(Candidates(es));
    SortMeaning(Candidates(es));
    CandidatesHas(es);
    WithoutHas(es, Names(rm));
    forall k | 0 <= k < |rm| ensures IsBackupName(rm[k].name) {
      assert rm[k] in sorted;
    }
  }

  /** With no more candidates than the limit, nothing is unlinked. */
  lemma NothingWhenFew(es: seq<Entry>, maxBackups: int)
    requires |Candidates(es)| <= maxBackups
    ensures Retained(es, maxBackups) == es
  {
    SortMeaning(Candidates(es));
    assert Names(Removed(es, maxBackups)) == {};
    WithoutNothing(es);
  }

  lemma {:induction false} WithoutNothing(es: seq<Entry>)
    ensures Without(es, {}) == es
    decreases |es|
  {
    if |es| > 0 {
      WithoutNothing(es[..|es| - 1]);
      assert es[..|es| - 1] + [es[|es| - 1]] == es;
    }
  }

  /** The candidates left behind are among the sorted candidates past the cut. */
  lemma LeftAfterCut(es: seq<Entry>, maxBackups: int)
    ensures var sorted := SortByCtime(Candidates(es));
      forall x :: x in Candidates(Retained(es, maxBackups)) ==> x in sorted[Excess(|sorted|, maxBackups)..]
  {
    var sorted := SortByCtime(Candidates(es));
    var k := Excess(|sorted|, maxBackups);
    var rm := sorted[..k];
    var left := Retained(es, maxBackups);
    SortMeaning(Candidates(es));
    CandidatesHas(es);
    CandidatesHas(left);
    WithoutHas(es, Names(rm));
    forall x | x in Candidates(left) ensures x in sorted[k..] {
      assert x in es && x.name !in Names(rm);
      PastCut(sorted, k, x);
    }
  }

  /** A file of the sorted list whose name is not among the first `k` lies past the cut. */
  lemma PastCut(sorted: seq<Entry>, k: nat, x: Entry)
    requires k <= |sorted| && x in sorted && x.name !in Names(sorted[..k])
    ensures x in sorted[k..]
  {
    forall q | 0 <= q < k ensures sorted[q] != x {
      assert sorted[..k][q] == sorted[q];
    }
    var p :| 0 <= p < |sorted| && sorted[p] == x;
    assert sorted[k..][p - k] == x;
  }

  /** Every backup left behind is at least as new as every backup unlinked. */
  lemma KeepsNewest(es: seq<Entry>, maxBackups: int)
    ensures forall x, y :: x in Candidates(Retained(es, maxBackups)) && y in Removed(es, maxBackups) ==> y.ctime <= x.ctime
  {
    var sorted := SortByCtime(Candidates(es));
    var k := Excess(|sorted|, maxBackups);
    LeftAfterCut(es, maxBackups);
    SortMeaning(Candidates(es));
    forall x, y | x in sorted[k..] && y in sorted[..k] ensures y.ctime <= x.ctime {
      var p :| 0 <= p < |sorted| - k && sorted[k..][p] == x;
      var q :| 0 <= q < k && sorted[..k][q] == y;
      assert sorted[k + p] == x && sorted[q] == y;
    }
  }

  /** A folder with unique names has as many names as files. */
  lemma {:induction false} UniqueCount(s: seq<Entry>)
    requires UniqueNames(s)
    ensures |Names(s)| == |s|
    decreases |s|
  {
    if |s| > 0 {
      NamesInit(s);
      UniqueCount(s[..|s| - 1]);
    }
  }

  /** Unlinking by name removes exactly those names and keeps the rest unique. */
  lemma {:induction false} WithoutNames(s: seq<Entry>, gone: set<string>)
    requires UniqueNames(s)
    ensures UniqueNames(Without(s, gone)) && Names(Without(s, gone)) == Names(s) - gone
    decreases |s|
  {
    if |s| > 0 {
      var init, last := s[..|s| - 1], s[|s| - 1];
      NamesInit(s);
      WithoutNames(init, gone);
      assert s == init + [last];
      WithoutSnoc(init, last, gone);
      if last.name !in gone {
        UniqueSnoc(Without(init, gone), last);
      } else {
        assert Without(s, gone) == Without(init, gone);
      }
    }
  }

  /** The glob keeps names unique. */
  lemma {:induction false} CandidatesUnique(s: seq<Entry>)
    requires UniqueNames(s)
    ensures UniqueNames(Candidates(s)) && Names(Candidates(s)) <= Names(s)
    decreases |s|
  {
    if |s| > 0 {
      var init, last := s[..|s| - 1], s[|s| - 1];
      NamesInit(s);
      CandidatesUnique(init);
      if IsBackupName(last.name) {
        UniqueSnoc(Candidates(init), last);
      }
    }
  }

  /** Listing the candidates commutes with unlinking. */
  lemma {:induction false} CandidatesWithout(s: seq<Entry>, gone: set<string>)
    ensures Candidates(Without(s, gone)) == Without(Candidates(s), gone)
    decreases |s|
  {
    if |s| > 0 {
      var init, last := s[..|s| - 1], s[|s| - 1];
      CandidatesWithout(init, gone);
      assert s == init + [last];
      WithoutSnoc(init, last, gone);
      CandidatesSnoc(init, last);
      CandidatesSnoc(Without(init, gone), last);
      WithoutSnoc(Candidates(init), last, gone);
      var w, c := Without(init, gone), Candidates(init);
      if last.name in gone {
        assert Without(s, gone) == w;
        if IsBackupName(last.name) {
          assert Without(Candidates(s), gone) == Without(c, gone) + [];
        } else {
          assert Candidates(s) == c;
        }
      } else if IsBackupName(last.name) {
        assert Candidates(Without(s, gone)) == Candidates(w) + [last];
        assert Without(Candidates(s), gone) == Without(c, gone) + [last];
      } else {
        assert Candidates(Without(s, gone)) == Candidates(w) + [];
        assert Candidates(s) == c;
      }
    }
  }

  /** Unique names: the first `k` entries carry `k` names, none of the rest. */
  lemma PrefixNames(s: seq<Entry>, k: nat)
    requires UniqueNames(s) && k <= |s|
    ensures |Names(s[..k])| == k && Names(s[..k]) <= Names(s)
  {
    assert UniqueNames(s[..k]);
    UniqueCount(s[..k]);
  }

  /** `|A - B| == |A| - |B|` for `B` inside `A`. */
  lemma DiffCard(a: set<string>, b: set<string>)
    requires b <= a
    ensures |a - b| == |a| - |b|
  {
    assert a == (a - b) + b;
  }

  /**
   * With a non-negative limit and unique names, exactly `min(n, maxBackups)` of the `n`
   * candidates are left.
   */
  lemma CountLeft(es: seq<Entry>, maxBackups: int)
    requires UniqueNames(es) && maxBackups >= 0
    ensures var n := |Candidates(es)|;
      |Candidates(Retained(es, maxBackups))| == if n <= maxBackups then n else maxBackups
  {
    var c := Candidates(es);
    var sorted := SortByCtime(c);
    var k := Excess(|sorted|, maxBackups);
    var gone := Names(sorted[..k]);
    CandidatesUnique(es);
    SortMeaning(c);
    SortUnique(c);
    PrefixNames(sorted, k);
    CandidatesWithout(es, gone);
    WithoutNames(c, gone);
    UniqueCount(Without(c, gone));
    UniqueCount(c);
    DiffCard(Names(c), gone);
  }

  /** Two files with the newest creation time at the end, the later one sorts last. */
  lemma {:induction false} NewestLast(s: seq<Entry>, e: Entry)
    requires forall x :: x in s ==> x.ctime <= e.ctime
    ensures SortByCtime(s + [e]) == SortByCtime(s) + [e]
  {
    SortMeaning(s);
    var t := SortByCtime(s);
    assert (s + [e])[..|s|] == s;
    if |t| > 0 {
      assert t[|t| - 1] in s;
    }
  }

  /**
   * A backup with a new name, no older than any file of the folder, survives the
   * clean-up that follows it whenever at least one backup is kept.
   */
  lemma NewestSurvives(es: seq<Entry>, e: Entry, maxBackups: int)
    requires maxBackups >= 1 && IsBackupName(e.name) && e.name !in Names(es)
    requires forall x :: x in es ==> x.ctime <= e.ctime
    ensures e in Retained(es + [e], maxBackups)
  {
    var c := Candidates(es);
    assert (es + [e])[..|es|] == es;
    assert Candidates(es + [e]) == c + [e];
    CandidatesHas(es);
    NewestLast(c, e);
    var sorted := SortByCtime(c) + [e];
    SortMeaning(c);
    var k := Excess(|sorted|, maxBackups);
    assert k < |sorted|;
    CandidatesHas(es + [e]);
    WithoutHas(es + [e], Names(sorted[..k]));
    forall j | 0 <= j < k ensures sorted[j].name != e.name {
      assert sorted[j] in c;
    }
  }

  /** Why `cleanup_old_backups` raises: `pop(0)` on the emptied list when the limit is negative. */
  datatype CleanupError = PopFromEmpty

  /** The backup folder: its files in the order the glob lists them. */
  class Folder {
    var entries: seq<Entry>

    constructor (listing: seq<Entry>)
      ensures entries == listing
    {
      entries := listing;
    }

    /**
     * `cleanup_old_backups`: sort the candidates oldest first and unlink from the front
     * while more than `maxBackups` remain.
     */
    method CleanupOldBackups(maxBackups: int) returns (r: Outcome<CleanupError>)
      modifies this`entries
      ensures r.Fail? <==> maxBackups < 0
      ensures entries == Retained(old(entries), maxBackups)
    {
      ghost var e0 := entries;
      var backups := SortByCtime(Candidates(entries));
      ghost var sorted := backups;
      ghost var popped := 0;
      WithoutNothing(e0);
      assert Names(sorted[..0]) == {};
      while |backups| > maxBackups
        invariant popped <= |sorted| && backups == sorted[popped..]
        invariant entries == Without(e0, Names(sorted[..popped]))
        invariant popped <= Excess(|sorted|, maxBackups)
        decreases |backups|
      {
        if |backups| == 0 {
          assert entries == Retained(e0, maxBackups);
          return Fail(PopFromEmpty);
        }
        var oldest := backups[0];
        backups := backups[1..];
        entries := Unlink(entries, oldest.name);
        UnlinkStep(e0, sorted, popped);
        popped := popped + 1;
      }
      return Pass;
    }
  }

  /** `unlink` of one file of the folder. */
  function Unlink(es: seq<Entry>, name: string): (r: seq<Entry>) {
    Without(es, {name})
  }

  lemma {:induction false} WithoutTwice(es: seq<Entry>, a: set<string>, b: set<string>)
    ensures Without(Without(es, a), b) == Without(es, a + b)
    decreases |es|
  {
    if |es| > 0 {
      var init, last := es[..|es| - 1], es[|es| - 1];
      WithoutTwice(init, a, b);
      assert es == init + [last];
      WithoutSnoc(init, last, a);
      WithoutSnoc(Without(init, a), last, b);
      WithoutSnoc(init, last, a + b);
      var w := Without(init, a);
      if last.name in a {
        assert Without(es, a) == w;
      } else if last.name in b {
        assert Without(Without(es, a), b) == Without(w, b) + [];
      }
    }
  }

  lemma UnlinkStep(e0: seq<Entry>, sorted: seq<Entry>, popped: nat)
    requires popped < |sorted|
    ensures Unlink(Without(e0, Names(sorted[..popped])), sorted[popped].name) == Without(e0, Names(sorted[..popped + 1]))
  {
    WithoutTwice(e0, Names(sorted[..popped]), {sorted[popped].name});
    NamesInit(sorted[..popped + 1]);
    assert sorted[..popped + 1][..popped] == sorted[..popped];
  }

  /**
   * `create_backup` with the catalog copied to `BackupName(dbPath, now)`, where the new
   * file gets creation time `ctime`: a missing catalog file returns False and writes
   * nothing; otherwise the copy is written (over a same-named file, if any) and the
   * clean-up runs, and any exception there also turns into False.
   */
  method CreateBackup(folder: Folder, dbPath: Path, dbExists: bool, maxBackups: int, now: DateTime, ctime: int)
    returns (ok: bool)
    modifies folder`entries
    ensures !dbExists ==> !ok && folder.entries == old(folder.entries)
    ensures dbExists ==> ok == (maxBackups >= 0)
    ensures dbExists ==> folder.entries == Retained(Saved(old(folder.entries), Entry(BackupName(dbPath, now), ctime)), maxBackups)
  {
    if !dbExists {
      return false;
    }
    folder.entries := Saved(folder.entries, Entry(BackupName(dbPath, now), ctime));
    var r := folder.CleanupOldBackups(maxBackups);
    return r.Pass?;
  }

  /** The folder after writing `e`: a file with that name is replaced in place, otherwise `e` comes last. */
  function Saved(es: seq<Entry>, e: Entry): (r: seq<Entry>)
    ensures e in r && forall x :: x in r ==> x == e || x in es
    ensures forall x :: x in es && x.name != e.name ==> x in r
  {
    if |es| == 0 then [e]
    else if es[0].name == e.name then [e] + es[1..]
    else [es[0]] + Saved(es[1..], e)
  }
}
