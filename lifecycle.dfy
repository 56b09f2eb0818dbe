/**
 * The scan lifecycle: four flags, in the order valid, hashed, storage, slide,
 * that must always be set as a prefix ("none" when no flag is set).
 */
module Lifecycle {
  import Wrappers

  /** The names `get_state` may return, "none" first. */
  datatype Status = None | Valid | Hashed | Storage | Slide

  /** `ValueError` for flags that are not a prefix; `Warning` when moving past "slide". */
  datatype StateError = InvalidState | AtMaximum

  /** Position of a status in the order none < valid < hashed < storage < slide. */
  function Rank(s: Status): (k: nat)
    ensures k <= 4
  {
    match s
    case None => 0
    case Valid => 1
    case Hashed => 2
    case Storage => 3
    case Slide => 4
  }

  function StatusAt(k: nat): (s: Status)
    requires k <= 4
    ensures Rank(s) == k
  {
    if k == 0 then None else if k == 1 then Valid else if k == 2 then Hashed
    else if k == 3 then Storage else Slide
  }

  /** Once a flag is false, every later flag is false. */
  predicate TruePrefix(flags: seq<bool>) {
    forall i, j :: 0 <= i < j < |flags| && flags[j] ==> flags[i]
  }

  /** The number of leading true flags. */
  function Level(flags: seq<bool>): (n: nat)
    ensures n <= |flags|
    ensures forall i :: 0 <= i < n ==> flags[i]
    ensures n < |flags| ==> !flags[n]
  {
    if |flags| == 0 || !flags[0] then 0 else 1 + Level(flags[1..])
  }

  /** The flags after setting the first false one; unchanged when all are set. */
  function Advance(flags: seq<bool>): seq<bool> {
    if Level(flags) < |flags| then flags[Level(flags) := true] else flags
  }

  const Fresh: seq<bool> := [false, false, false, false]

  /** The four flags of a state that has reached level `k` and nothing beyond. */
  function FlagsAt(k: nat): (f: seq<bool>)
    requires k <= 4
    ensures |f| == 4 && forall i :: 0 <= i < 4 ==> (f[i] <==> i < k)
  {
    seq(4, i => i < k)
  }

  /** Level `k` flags are a prefix of length `k`, and advancing them gives level `k + 1`. */
  lemma FlagsAtLevel(k: nat)
    requires k <= 4
    ensures TruePrefix(FlagsAt(k)) && Level(FlagsAt(k)) == k
    ensures k < 4 ==> Advance(FlagsAt(k)) == FlagsAt(k + 1)
  {
    LevelIs(FlagsAt(k), k);
    if k < 4 {
      assert Advance(FlagsAt(k)) == FlagsAt(k)[k := true];
    }
  }

  /** A prefix is exactly the flags below its level. */
  lemma PrefixIffLevel(flags: seq<bool>)
    ensures TruePrefix(flags) <==> forall i :: 0 <= i < |flags| ==> (flags[i] <==> i < Level(flags))
  {
  }

  /** The leading-true count is determined by where the first false flag is. */
  lemma {:induction false} LevelIs(flags: seq<bool>, n: nat)
    requires n <= |flags|
    requires forall i :: 0 <= i < n ==> flags[i]
    requires n < |flags| ==> !flags[n]
    ensures Level(flags) == n
    decreases n
  {
    if n > 0 {
      LevelIs(flags[1..], n - 1);
    }
  }

  /** Advancing a prefix sets exactly one more flag and keeps it a prefix. */
  lemma AdvanceStep(flags: seq<bool>)
    requires TruePrefix(flags) && Level(flags) < |flags|
    ensures TruePrefix(Advance(flags))
    ensures Level(Advance(flags)) == Level(flags) + 1
    ensures |Advance(flags)| == |flags|
    ensures forall i :: 0 <= i < |flags| && i != Level(flags) ==> Advance(flags)[i] == flags[i]
  {
    var n := Level(flags);
    var g := Advance(flags);
    PrefixIffLevel(flags);
    LevelIs(g, n + 1);
  }

  /** A fresh state is "none" and valid; one step makes it "valid" and not yet "hashed". */
  lemma FreshAndFirstStep()
    ensures TruePrefix(Fresh) && Level(Fresh) == 0 && StatusAt(Level(Fresh)) == None
    ensures var f := Advance(Fresh);
      TruePrefix(f) && StatusAt(Level(f)) == Valid && Rank(Valid) <= Level(f) && !(Rank(Hashed) <= Level(f))
  {
    LevelIs(Fresh, 0);
    AdvanceStep(Fresh);
  }

  class State {
    /** The flags valid, hashed, storage and slide, in that order. */
    const flags: array<bool>

    predicate Shaped() {
      flags.Length == 4
    }

    constructor ()
      ensures Shaped() && fresh(flags) && flags[..] == Fresh
    {
      flags := new bool[4](_ => false);
    }

    /** `is_valid`: scans the flags and fails on a true after a false. */
    method IsValid() returns (ok: bool)
      requires Shaped()
      ensures ok <==> TruePrefix(flags[..])
    {
      var foundFalse := false;
      var i := 0;
      while i < 4
        invariant 0 <= i <= 4
        invariant foundFalse <==> exists k :: 0 <= k < i && !flags[k]
        invariant TruePrefix(flags[..i])
      {
        if foundFalse && flags[i] {
          return false;
        }
        if !flags[i] {
          foundFalse := true;
        }
        i := i + 1;
      }
      assert flags[..i] == flags[..];
      return true;
    }

    /** `has_state`: has the scan reached at least `st`? */
    method HasState(st: Status) returns (r: Wrappers.Result<bool, StateError>)
      requires Shaped()
      ensures r.Err? <==> !TruePrefix(flags[..])
      ensures r.Err? ==> r.error == InvalidState
      ensures r.Ok? ==> (r.value <==> Rank(st) <= Level(flags[..]))
    {
      var ok := IsValid();
      if !ok {
        return Wrappers.Err(InvalidState);
      }
      PrefixIffLevel(flags[..]);
      if st == None {
        return Wrappers.Ok(true);
      }
      return Wrappers.Ok(flags[Rank(st) - 1]);
    }

    /** `get_state`: the last status of the prefix of true flags. */
    method GetState() returns (r: Wrappers.Result<Status, StateError>)
      requires Shaped()
      ensures r.Err? <==> !TruePrefix(flags[..])
      ensures r.Err? ==> r.error == InvalidState
      ensures r.Ok? ==> Rank(r.value) == Level(flags[..])
    {
      var ok := IsValid();
      if !ok {
        return Wrappers.Err(InvalidState);
      }
      var maxState := None;
      var i := 0;
      while i < 4
        invariant 0 <= i <= 4
        invariant forall k :: 0 <= k < i ==> flags[k]
        invariant Rank(maxState) == i
      {
        if flags[i] {
          maxState := StatusAt(i + 1);
        } else {
          break;
        }
        i := i + 1;
      }
      LevelIs(flags[..], i);
      return Wrappers.Ok(maxState);
    }

    /** `move_forward`: sets the first false flag, or fails and changes nothing. */
    method MoveForward() returns (r: Wrappers.Outcome<StateError>)
      requires Shaped()
      modifies flags
      ensures !old(TruePrefix(flags[..])) ==> r == Wrappers.Fail(InvalidState) && flags[..] == old(flags[..])
      ensures old(TruePrefix(flags[..])) && old(Level(flags[..])) == 4 ==>
        r == Wrappers.Fail(AtMaximum) && flags[..] == old(flags[..])
      ensures old(TruePrefix(flags[..])) && old(Level(flags[..])) < 4 ==>
        r == Wrappers.Pass && flags[..] == Advance(old(flags[..]))
        && TruePrefix(flags[..]) && Level(flags[..]) == old(Level(flags[..])) + 1
    {
      var ok := IsValid();
      if !ok {
        return Wrappers.Fail(InvalidState);
      }
      ghost var before := flags[..];
      var i := 0;
      while i < 4
        invariant 0 <= i <= 4
        invariant forall k :: 0 <= k < i ==> flags[k]
        invariant flags[..] == before
      {
        if !flags[i] {
          LevelIs(before, i);
          AdvanceStep(before);
          flags[i] := true;
          assert flags[..] == Advance(before);
          return Wrappers.Pass;
        }
        i := i + 1;
      }
      LevelIs(before, 4);
      return Wrappers.Fail(AtMaximum);
    }
  }

  /** The predicate callers test with `has_state`: valid flags at or beyond status `k`. */
  ghost predicate Reached(s: State, k: nat)
    reads s.flags
  {
    TruePrefix(s.flags[..]) && k <= Level(s.flags[..])
  }

  /** The lifecycle exercised on a fresh state: none, one step, then the queries. */
  method FreshThenForward() returns (before: Wrappers.Result<Status, StateError>, after: Wrappers.Result<Status, StateError>,
                                     hasValid: Wrappers.Result<bool, StateError>, hasHashed: Wrappers.Result<bool, StateError>)
    ensures before == Wrappers.Ok(None) && after == Wrappers.Ok(Valid)
    ensures hasValid == Wrappers.Ok(true) && hasHashed == Wrappers.Ok(false)
  {
    var s := new State();
    LevelIs(s.flags[..], 0);
    before := s.GetState();
    var step := s.MoveForward();
    after := s.GetState();
    hasValid := s.HasState(Valid);
    hasHashed := s.HasState(Hashed);
  }
}
