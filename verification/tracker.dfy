/** The access-recency tracker: a process-wide list of case numbers, most
    recently looked-up first, with move-to-front on access, mirrored to a JSON
    snapshot file after every change and read back once at start-up. */
module Tracker {
  import opened Basics
  import opened Seqs

  /** The snapshot file as loading finds it: absent, of length zero, not
      parseable as a list of strings, or holding a list written by a save. */
  datatype Snapshot = Missing | EmptyFile | Unreadable | Saved(ids: seq<string>)

  /** How writing the snapshot fares: it succeeds, it fails before the file
      is opened (the old file stays), or it fails after the file was opened
      for writing and truncated, leaving it empty or holding a cut-off list. */
  datatype WriteFault = NoWriteFault | FailsAtOpen | FailsMidWrite(leftEmpty: bool)

  /** The snapshot file after a save of `ids` over `before`. */
  function AfterSave(before: Snapshot, ids: seq<string>, fault: WriteFault): (r: Snapshot)
  {
    match fault
    case NoWriteFault => Saved(ids)
    case FailsAtOpen => before
    case FailsMidWrite(leftEmpty) => if leftEmpty then EmptyFile else Unreadable
  }

  /** The order after an access to `x`: its first occurrence is removed and
      `x` is put in front (`Deque.remove` followed by `addFirst`). */
  function MoveToFront(s: seq<string>, x: string): (r: seq<string>)
  {
    [x] + RemoveFirst(s, x)
  }

  /** The in-memory order after loading `snap` over `current`: a parsed list
      replaces the contents as it is (no de-duplication); every other snapshot
      leaves them alone. */
  function Loaded(current: seq<string>, snap: Snapshot): (r: seq<string>)
  {
    if snap.Saved? then snap.ids else current
  }

  /** What a later start-up finds after a save: the saved order when the
      write succeeded, what the old file held when it failed at open, and an
      empty history when a failure truncated the file. */
  lemma SaveThenLoad(before: Snapshot, ids: seq<string>, fault: WriteFault)
    ensures fault.NoWriteFault? ==> Loaded([], AfterSave(before, ids, fault)) == ids
    ensures fault.FailsAtOpen? ==> Loaded([], AfterSave(before, ids, fault)) == Loaded([], before)
    ensures fault.FailsMidWrite? ==> Loaded([], AfterSave(before, ids, fault)) == []
    ensures AfterSave(before, ids, fault).Saved? ==> fault.NoWriteFault? || before.Saved?
  {
  }

  /** After an access, `x` is in front; the length grows by one exactly when
      `x` was absent; disregarding `x`, the other ids keep their order. */
  lemma MoveToFrontSpec(s: seq<string>, x: string)
    ensures |MoveToFront(s, x)| == if x in s then |s| else |s| + 1
    ensures MoveToFront(s, x)[0] == x
    ensures Without(MoveToFront(s, x), x) == Without(s, x)
    ensures multiset(MoveToFront(s, x)) == multiset(s) - multiset{x} + multiset{x}
  {
    RemoveFirstCount(s, x);
    RemoveFirstKeepsOthers(s, x);
    assert MoveToFront(s, x)[1..] == RemoveFirst(s, x);
  }

  /** On a duplicate-free order an access keeps it duplicate-free, `x` occurs
      exactly once (at the front), and the rest is the old order without `x`. */
  lemma MoveToFrontNoDup(s: seq<string>, x: string)
    requires NoDup(s)
    ensures NoDup(MoveToFront(s, x))
    ensures x !in MoveToFront(s, x)[1..]
    ensures MoveToFront(s, x)[1..] == Without(s, x)
  {
    RemoveFirstNoDup(s, x);
    assert MoveToFront(s, x)[1..] == RemoveFirst(s, x);
  }

  /** Removal keeps a duplicate-free order duplicate-free and leaves the id out. */
  lemma RemoveKeepsNoDup(s: seq<string>, x: string)
    requires NoDup(s)
    ensures NoDup(RemoveFirst(s, x)) && x !in RemoveFirst(s, x)
  {
    RemoveFirstNoDup(s, x);
  }

  /** The order after a series of accesses, oldest first. */
  function Replay(s: seq<string>, accesses: seq<string>): seq<string>
  {
    if accesses == [] then s
    else MoveToFront(Replay(s, accesses[..|accesses| - 1]), accesses[|accesses| - 1])
  }

  /** Any series of accesses from a duplicate-free order leaves it
      duplicate-free, with the last accessed id in front. */
  lemma {:induction false} ReplayNoDup(s: seq<string>, accesses: seq<string>)
    requires NoDup(s)
    ensures NoDup(Replay(s, accesses))
    ensures accesses != [] ==> Replay(s, accesses)[0] == accesses[|accesses| - 1]
  {
    if accesses != [] {
      ReplayNoDup(s, accesses[..|accesses| - 1]);
      MoveToFrontNoDup(Replay(s, accesses[..|accesses| - 1]), accesses[|accesses| - 1]);
    }
  }

  /** Accessing "A", "B", then "A" again yields the order ["A", "B"]. */
  lemma ReplayExample()
    ensures Replay([], ["A", "B", "A"]) == ["A", "B"]
  {
    assert ["A", "B", "A"][..2] == ["A", "B"];
    assert ["A", "B"][..1] == ["A"];
    assert RemoveFirst(["A"], "B") == ["A"];
    assert RemoveFirst(["B", "A"], "A") == ["B"];
  }

  /** A loaded snapshot with a repeated id keeps the repetition, and an access
      then removes only the first copy: the no-duplicate property holds only
      for snapshots that were themselves duplicate-free. */
  lemma LoadedDuplicatesSurviveAccess()
    ensures Loaded([], Saved(["A", "A"])) == ["A", "A"]
    ensures MoveToFront(Loaded([], Saved(["A", "A"])), "A") == ["A", "A"]
  {
  }

  class CaseAccessTracker {
    /** The deque, front (most recent) first. */
    var cases: seq<string>
    /** The snapshot file. */
    var persisted: Snapshot
    /** How writing the snapshot file fares; a failure is logged and not
        raised. */
    var writeFault: WriteFault

    /** The recency invariant: at most one entry per id. */
    ghost predicate Valid()
      reads this
    {
      NoDup(cases)
    }

    /** Start-up: the deque starts empty and the snapshot is loaded into it. */
    constructor (snapshot: Snapshot, writeFault: WriteFault)
      ensures persisted == snapshot && this.writeFault == writeFault
      ensures cases == Loaded([], snapshot)
    {
      cases := [];
      persisted := snapshot;
      this.writeFault := writeFault;
      new;
      LoadFromFile();
    }

    /** Writes the current order to the snapshot file; the file is opened
        (and truncated) before the list is written out. */
    method SaveToFile()
      modifies this`persisted
      ensures persisted == AfterSave(old(persisted), cases, writeFault)
    {
      if writeFault.FailsAtOpen? {
        return;
      }
      persisted := EmptyFile;
      if writeFault.NoWriteFault? {
        persisted := Saved(cases);
      } else if !writeFault.leftEmpty {
        persisted := Unreadable;
      }
    }

    /** Replaces the contents with a parsed snapshot; a missing, empty or
        unreadable file leaves them unchanged and raises nothing. */
    method LoadFromFile()
      modifies this`cases
      ensures cases == Loaded(old(cases), persisted)
    {
      if persisted.Saved? {
        cases := [];
        cases := cases + persisted.ids;
      }
    }

    method AddCaseNumber(caseNumber: string)
      modifies this`cases, this`persisted
      ensures cases == MoveToFront(old(cases), caseNumber)
      ensures persisted == AfterSave(old(persisted), cases, writeFault)
      ensures old(Valid()) ==> Valid()
    {
      cases := RemoveFirst(cases, caseNumber);
      cases := [caseNumber] + cases;
      if old(Valid()) {
        MoveToFrontNoDup(old(cases), caseNumber);
      }
      SaveToFile();
    }

    /** A front-to-back copy of the order. */
    method GetAccessedCaseNumbers() returns (r: seq<string>)
      ensures r == cases
    {
      r := cases;
    }

    method ClearAccessedCases()
      modifies this`cases, this`persisted
      ensures cases == [] && Valid()
      ensures persisted == AfterSave(old(persisted), [], writeFault)
    {
      cases := [];
      SaveToFile();
    }

    method GetAccessedCasesCount() returns (n: nat)
      ensures n == |cases|
    {
      n := |cases|;
    }

    method ContainsCaseNumber(caseNumber: string) returns (b: bool)
      ensures b <==> caseNumber in cases
    {
      b := caseNumber in cases;
    }

    /** Removes the first occurrence; saves only when something was removed. */
    method RemoveCaseNumber(caseNumber: string) returns (removed: bool)
      modifies this`cases, this`persisted
      ensures removed <==> caseNumber in old(cases)
      ensures cases == RemoveFirst(old(cases), caseNumber)
      ensures persisted == if removed then AfterSave(old(persisted), cases, writeFault) else old(persisted)
      ensures old(Valid()) ==> Valid() && caseNumber !in cases
    {
      removed := caseNumber in cases;
      cases := RemoveFirst(cases, caseNumber);
      if old(Valid()) {
        RemoveKeepsNoDup(old(cases), caseNumber);
      }
      if removed {
        SaveToFile();
      }
    }

    /** The front id, or null when the list is empty. */
    method GetLastAccessedCaseNumber() returns (r: Option<string>)
      ensures cases == [] ==> r == None
      ensures cases != [] ==> r == Some(cases[0])
    {
      if cases == [] {
        r := None;
      } else {
        r := Some(cases[0]);
      }
    }

    /** The first `count` ids (all of them when there are fewer); a negative
        count makes `Stream.limit` throw. */
    method GetLastAccessedCaseNumbers(count: int) returns (r: Result<seq<string>>)
      ensures count < 0 ==> r == Err(IllegalArgumentException)
      ensures count >= 0 ==> r.Ok? && r.value == cases[..Min(count, |cases|)]
      ensures count >= 0 ==> |r.value| == Min(count, |cases|)
    {
      if count < 0 {
        r := Err(IllegalArgumentException);
      } else {
        r := Ok(cases[..Min(count, |cases|)]);
      }
    }

    method ForceSave()
      modifies this`persisted
      ensures persisted == AfterSave(old(persisted), cases, writeFault)
    {
      SaveToFile();
    }

    method ForceReload()
      modifies this`cases
      ensures cases == Loaded(old(cases), persisted)
    {
      LoadFromFile();
    }

    /** Shutdown: a final save. */
    method Cleanup()
      modifies this`persisted
      ensures persisted == AfterSave(old(persisted), cases, writeFault)
    {
      SaveToFile();
    }
  }

  /** A save followed by a fresh start-up reproduces the saved order exactly. */
  method SaveThenRestart(t: CaseAccessTracker) returns (restarted: CaseAccessTracker)
    requires t.writeFault.NoWriteFault?
    modifies t
    ensures restarted.cases == t.cases == old(t.cases)
  {
    t.ForceSave();
    restarted := new CaseAccessTracker(t.persisted, NoWriteFault);
  }
}
