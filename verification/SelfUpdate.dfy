/** Replacing the daemon's binary and rolling back. A run is the sequence of disks
    it passes through; stopping the process leaves one of them behind. What the
    machine does at each step, failures included, is given by a fate. */
module SelfUpdate {
  import opened Wrappers

  datatype Path = Self | Aside(n: nat) | Temp
  datatype Binary = Old | New | Partial | Stale
  datatype Verdict = NotOpened | NoDaemon | StillRunning | NotSwapped | NotHealthy | Updated
  type Disk = map<Path, Binary>

  /** Which calls succeed: `swept` the asides the sweep manages to remove, in turn,
      and `chunks` the writes of the copy. */
  datatype Fate = Fate(opens: bool, answered: bool, gone: bool, swept: seq<nat>,
                       tempMade: bool, chunks: nat, staged: bool, tempRemoved: bool,
                       statted: bool, movedAside: bool, putNew: bool, selfRemoved: bool, restored: bool,
                       started: bool, healthy: bool, killed: bool, restarted: bool, asideRemoved: bool)

  // ----------------------------------------------------------- disk operations

  function Remove(d: Disk, p: Path, ok: bool): Disk {
    if ok then d - {p} else d
  }

  /** A rename replaces its target in one step, or changes nothing. */
  function Rename(d: Disk, from: Path, to: Path, ok: bool): Disk {
    if ok && from in d then (d - {from})[to := d[from]] else d
  }

  function Last(trace: seq<Disk>): Disk {
    if trace == [] then map[] else trace[|trace| - 1]
  }

  function AsidesFrom(d: Disk, n: nat): set<Path> {
    set p | p in d && p.Aside? && p.n >= n
  }

  /** The first aside name from `n` upwards that no file has. */
  function FreeAside(d: Disk, n: nat): (free: nat)
    ensures free >= n && Aside(free) !in d && forall k :: n <= k < free ==> Aside(k) in d
    decreases AsidesFrom(d, n)
  {
    if Aside(n) !in d then n
    else
      assert AsidesFrom(d, n + 1) == AsidesFrom(d, n) - {Aside(n)};
      FreeAside(d, n + 1)
  }

  // ------------------------------------------------------------------ the runs

  function Swept(trace: seq<Disk>, asides: seq<nat>): seq<Disk>
    decreases |asides|
  {
    if asides == [] then trace
    else Swept(trace + [Remove(Last(trace), Aside(asides[0]), true)], asides[1..])
  }

  function Copied(trace: seq<Disk>, chunks: nat): seq<Disk>
    decreases chunks
  {
    if chunks == 0 then trace else Copied(trace + [Last(trace)[Temp := Partial]], chunks - 1)
  }

  function Staged(trace: seq<Disk>, f: Fate): seq<Disk> {
    if !f.tempMade then trace
    else
      var copied := Copied(trace, 1 + f.chunks);
      copied + [if f.staged then Last(copied)[Temp := New] else Remove(Last(copied), Temp, f.tempRemoved)]
  }

  /** Puts the aside binary back; the step in between has none at the self path. */
  function Restored(trace: seq<Disk>, aside: Option<nat>, f: Fate): seq<Disk> {
    if aside.None? then trace
    else
      var cleared := trace + [Remove(Last(trace), Self, f.selfRemoved)];
      cleared + [Rename(Last(cleared), Aside(aside.value), Self, f.restored)]
  }

  datatype Swap = Swap(trace: seq<Disk>, aside: Option<nat>, ok: bool)

  /** With the new binary staged: move the old one aside, put the new one in place. */
  function Exchanged(trace: seq<Disk>, f: Fate): Swap {
    var d := Last(trace);
    var aside := if f.statted && Self in d then Some(FreeAside(d, 1)) else None;
    if aside.Some? && !f.movedAside then Swap(trace + [d], None, false)
    else
      var moved := if aside.Some? then trace + [Rename(d, Self, Aside(aside.value), true)] else trace;
      var put := moved + [Rename(Last(moved), Temp, Self, f.putNew)];
      if f.putNew then Swap(put, aside, true) else Swap(Restored(put, aside, f), aside, false)
  }

  function Swapped(trace: seq<Disk>, f: Fate): Swap {
    var staged := Staged(Swept(trace, f.swept), f);
    if !f.tempMade || !f.staged then Swap(staged, None, false)
    else
      var done := Exchanged(staged, f);
      Swap(done.trace + [Remove(Last(done.trace), Temp, f.tempRemoved)], done.aside, done.ok)
  }

  /** The daemon that is running at the end, and a new one that was to be killed for
      not answering healthy but lived on. */
  datatype Run = Run(trace: seq<Disk>, verdict: Verdict, running: Option<Binary>, leftover: Option<Binary>)

  /** What is started from the self path, if anything is there to start. */
  function Launched(d: Disk, ok: bool): Option<Binary> {
    if ok && Self in d then Some(d[Self]) else None
  }

  function Upgraded(d: Disk, f: Fate): Run {
    if !f.opens then Run([d], NotOpened, Some(Old), None)
    else if !f.answered then Run([d], NoDaemon, Some(Old), None)
    else if !f.gone then Run([d], StillRunning, Some(Old), None)
    else
      var swap := Swapped([d], f);
      if !swap.ok then Run(swap.trace, NotSwapped, Launched(Last(swap.trace), f.restarted), None)
      else if !(f.started && Self in Last(swap.trace) && f.healthy) then
        var back := Restored(swap.trace, swap.aside, f);
        Run(back, NotHealthy, Launched(Last(back), f.restarted), Launched(Last(swap.trace), f.started && !f.killed))
      else
        var cleaned := if swap.aside.Some? then Remove(Last(swap.trace), Aside(swap.aside.value), f.asideRemoved)
                       else Last(swap.trace);
        Run(swap.trace + [cleaned], Updated, Launched(Last(swap.trace), true), None)
  }

  // -------------------------------------------------------------- the updater

  class Updater {
    var disk: Disk
    var running: Option<Binary>
    var leftover: Option<Binary>
    ghost var trace: seq<Disk>

    ghost predicate Valid()
      reads this
    {
      trace != [] && disk == Last(trace)
    }

    constructor (disk: Disk)
      ensures Valid() && this.disk == disk && trace == [disk] && running == Some(Old) && leftover == None
    {
      this.disk, running, leftover, trace := disk, Some(Old), None, [disk];
    }

    method Write(d: Disk)
      requires Valid()
      modifies this`disk, this`trace
      ensures Valid() && trace == old(trace) + [d]
    {
      disk, trace := d, trace + [d];
    }

    method SweepAsides(f: Fate)
      requires Valid()
      modifies this`disk, this`trace
      ensures Valid() && trace == Swept(old(trace), f.swept)
    {
      for i := 0 to |f.swept|
        invariant Valid() && Swept(old(trace), f.swept) == Swept(trace, f.swept[i..])
      {
        Write(disk - {Aside(f.swept[i])});
      }
    }

    method Stage(f: Fate) returns (ok: bool)
      requires Valid()
      modifies this`disk, this`trace
      ensures Valid() && trace == Staged(old(trace), f) && ok == (f.tempMade && f.staged)
    {
      if !f.tempMade {
        return false;
      }
      Write(disk[Temp := Partial]);
      var left := f.chunks;
      while left > 0
        invariant Valid() && Copied(old(trace), 1 + f.chunks) == Copied(trace, left)
      {
        Write(disk[Temp := Partial]);
        left := left - 1;
      }
      if !f.staged {
        Write(Remove(disk, Temp, f.tempRemoved));
        return false;
      }
      Write(disk[Temp := New]);
      return true;
    }

    method FindFreeAside() returns (n: nat)
      requires Valid()
      ensures n == FreeAside(disk, 1)
    {
      n := 1;
      while Aside(n) in disk
        invariant FreeAside(disk, 1) == FreeAside(disk, n)
        decreases AsidesFrom(disk, n)
      {
        assert AsidesFrom(disk, n + 1) == AsidesFrom(disk, n) - {Aside(n)};
        n := n + 1;
      }
    }

    method Restore(aside: Option<nat>, f: Fate)
      requires Valid()
      modifies this`disk, this`trace
      ensures Valid() && trace == Restored(old(trace), aside, f)
    {
      if aside.None? {
        return;
      }
      Write(Remove(disk, Self, f.selfRemoved));
      Write(Rename(disk, Aside(aside.value), Self, f.restored));
    }

    method Exchange(f: Fate) returns (aside: Option<nat>, ok: bool)
      requires Valid()
      modifies this`disk, this`trace
      ensures Valid() && Swap(trace, aside, ok) == Exchanged(old(trace), f)
    {
      aside := None;
      if f.statted && Self in disk {
        var n := FindFreeAside();
        Write(Rename(disk, Self, Aside(n), f.movedAside));
        if !f.movedAside {
          return None, false;
        }
        aside := Some(n);
      }
      Write(Rename(disk, Temp, Self, f.putNew));
      if !f.putNew {
        Restore(aside, f);
        return aside, false;
      }
      return aside, true;
    }

    method SwapIn(f: Fate) returns (aside: Option<nat>, ok: bool)
      requires Valid()
      modifies this`disk, this`trace
      ensures Valid() && Swap(trace, aside, ok) == Swapped(old(trace), f)
    {
      SweepAsides(f);
      var staged := Stage(f);
      if !staged {
        return None, false;
      }
      aside, ok := Exchange(f);
      Write(Remove(disk, Temp, f.tempRemoved));
    }

    /** The kill is best effort, and the wait for the process to go may time out. */
    method StartAndCheck(f: Fate) returns (ok: bool)
      requires Valid()
      modifies this`running, this`leftover
      ensures ok == (f.started && Self in disk && f.healthy)
      ensures running == (if ok then Launched(disk, true) else None)
      ensures leftover == if ok then None else Launched(disk, f.started && !f.killed)
    {
      running, leftover := None, None;
      if !f.started || Self !in disk {
        return false;
      }
      if !f.healthy {
        if !f.killed {
          leftover := Some(disk[Self]);
        }
        return false;
      }
      running := Some(disk[Self]);
      return true;
    }

    method Restart(f: Fate)
      requires Valid()
      modifies this`running
      ensures running == Launched(disk, f.restarted)
    {
      running := if f.restarted && Self in disk then Some(disk[Self]) else None;
    }

    method Update(f: Fate) returns (verdict: Verdict)
      requires Valid() && |trace| == 1 && running == Some(Old) && leftover == None
      modifies this
      ensures Valid() && Run(trace, verdict, running, leftover) == Upgraded(old(disk), f)
    {
      assert trace == [disk];
      if !f.opens {
        return NotOpened;
      }
      if !f.answered {
        return NoDaemon;
      }
      if !f.gone {
        return StillRunning;
      }
      var aside, swapped := SwapIn(f);
      if !swapped {
        Restart(f);
        return NotSwapped;
      }
      var healthy := StartAndCheck(f);
      if !healthy {
        Restore(aside, f);
        Restart(f);
        return NotHealthy;
      }
      Write(if aside.Some? then Remove(disk, Aside(aside.value), f.asideRemoved) else disk);
      return Updated;
    }
  }

  // ---------------------------------------------------------- what a disk keeps

  predicate OldAtSelf(d: Disk) {
    Self in d && d[Self] == Old
  }

  /** The old binary is complete at the self path or at an aside. */
  ghost predicate KeepsOld(d: Disk) {
    exists p :: p in d && p != Temp && d[p] == Old
  }

  predicate SelfIsWhole(d: Disk) {
    Self in d ==> d[Self] != Partial
  }

  ghost predicate AllKeepOld(trace: seq<Disk>) {
    forall i :: 0 <= i < |trace| ==> KeepsOld(trace[i])
  }

  ghost predicate AllSelfWhole(trace: seq<Disk>) {
    forall i :: 0 <= i < |trace| ==> SelfIsWhole(trace[i])
  }

  /** What holds until the exchange: nothing touches the self path. */
  ghost predicate Untouched(trace: seq<Disk>, self: Option<Binary>) {
    trace != [] && forall i :: 0 <= i < |trace| ==> Launched(trace[i], true) == self
  }

  lemma {:induction false} SweptUntouched(trace: seq<Disk>, asides: seq<nat>, self: Option<Binary>)
    requires Untouched(trace, self)
    ensures Untouched(Swept(trace, asides), self)
    decreases |asides|
  {
    if asides != [] {
      SweptUntouched(trace + [Remove(Last(trace), Aside(asides[0]), true)], asides[1..], self);
    }
  }

  lemma {:induction false} CopiedUntouched(trace: seq<Disk>, chunks: nat, self: Option<Binary>)
    requires Untouched(trace, self)
    ensures Untouched(Copied(trace, chunks), self)
    decreases chunks
  {
    if chunks > 0 {
      CopiedUntouched(trace + [Last(trace)[Temp := Partial]], chunks - 1, self);
    }
  }

  lemma StagedUntouched(trace: seq<Disk>, f: Fate, self: Option<Binary>)
    requires Untouched(trace, self)
    ensures Untouched(Staged(trace, f), self)
    ensures f.tempMade && f.staged ==> Temp in Last(Staged(trace, f)) && Last(Staged(trace, f))[Temp] == New
  {
    CopiedUntouched(trace, 1 + f.chunks, self);
  }

  // ------------------------------------------------------------- the exchange

  /** Where an exchange that saw the old binary leaves it. */
  lemma ExchangedKeeps(trace: seq<Disk>, f: Fate)
    requires trace != [] && AllKeepOld(trace) && OldAtSelf(Last(trace)) && f.statted
    requires Temp in Last(trace) && Last(trace)[Temp] == New
    ensures var s := Exchanged(trace, f);
            && s.trace != [] && AllKeepOld(s.trace) && s.ok == (f.movedAside && f.putNew)
            && (s.ok ==> s.aside.Some? && NewOver(Last(s.trace), s.aside.value))
            && (!s.ok ==> (OldAtSelf(Last(s.trace)) <==> (f.movedAside ==> f.restored)))
  {
    var d := Last(trace);
    var n := FreeAside(d, 1);
    if f.movedAside {
      var aside := Rename(d, Self, Aside(n), true);
      assert aside[Aside(n)] == Old;
      var put := Rename(aside, Temp, Self, f.putNew);
      assert put[Aside(n)] == Old;
      if !f.putNew {
        RestoredKeeps(trace + [aside] + [put], n, f);
      }
    }
  }

  /** The new binary is in place and the old one aside. */
  predicate NewOver(d: Disk, aside: nat) {
    Self in d && d[Self] == New && Aside(aside) in d && d[Aside(aside)] == Old
  }

  lemma RestoredKeeps(trace: seq<Disk>, aside: nat, f: Fate)
    requires trace != [] && AllKeepOld(trace)
    requires Aside(aside) in Last(trace) && Last(trace)[Aside(aside)] == Old
    requires Self in Last(trace) ==> Last(trace)[Self] != Old
    ensures var r := Restored(trace, Some(aside), f);
            r != [] && AllKeepOld(r) && (OldAtSelf(Last(r)) <==> f.restored)
  {
    var cleared := Remove(Last(trace), Self, f.selfRemoved);
    assert cleared[Aside(aside)] == Old;
    var back := Rename(cleared, Aside(aside), Self, f.restored);
    assert if f.restored then back[Self] == Old else back[Aside(aside)] == Old;
  }

  /** An exchange that did not see the old binary overwrites it. */
  lemma ExchangedBlindly(trace: seq<Disk>, f: Fate)
    requires trace != [] && OldAtSelf(Last(trace)) && !f.statted
    requires Temp in Last(trace) && Last(trace)[Temp] == New
    ensures var s := Exchanged(trace, f);
            && s.ok == f.putNew && s.aside.None?
            && s.trace == trace + [Rename(Last(trace), Temp, Self, f.putNew)]
  {
  }

  predicate Staging(f: Fate) {
    f.tempMade && f.staged
  }

  lemma StagedKeeps(d: Disk, f: Fate)
    requires OldAtSelf(d)
    ensures var staged := Staged(Swept([d], f.swept), f);
            && staged != [] && AllKeepOld(staged) && OldAtSelf(Last(staged))
            && (Staging(f) ==> Temp in Last(staged) && Last(staged)[Temp] == New)
  {
    SweptUntouched([d], f.swept, Some(Old));
    StagedUntouched(Swept([d], f.swept), f, Some(Old));
    var staged := Staged(Swept([d], f.swept), f);
    forall i | 0 <= i < |staged| ensures KeepsOld(staged[i]) {
      assert Launched(staged[i], true) == Some(Old);
      assert staged[i][Self] == Old;
    }
    assert Launched(staged[|staged| - 1], true) == Some(Old);
  }

  lemma TempDoesNotMatter(d: Disk, ok: bool)
    ensures KeepsOld(Remove(d, Temp, ok)) <==> KeepsOld(d)
    ensures Launched(Remove(d, Temp, ok), true) == Launched(d, true)
  {
    var e := Remove(d, Temp, ok);
    if KeepsOld(d) {
      var p :| p in d && p != Temp && d[p] == Old;
      assert p in e && e[p] == Old;
    }
    if KeepsOld(e) {
      var p :| p in e && p != Temp && e[p] == Old;
      assert p in d && d[p] == Old;
    }
  }

  /** What a swap that sees the old binary, or never gets to putting the new one in
      place, leaves. */
  lemma SwappedKeeps(d: Disk, f: Fate)
    requires OldAtSelf(d) && (Staging(f) ==> f.statted || !f.putNew)
    ensures var s := Swapped([d], f);
            && s.trace != [] && AllKeepOld(s.trace) && s.ok == (Staging(f) && f.statted && f.movedAside && f.putNew)
            && (s.ok ==> s.aside.Some? && NewOver(Last(s.trace), s.aside.value))
            && (!s.ok ==> (OldAtSelf(Last(s.trace)) <==> (Staging(f) && f.statted && f.movedAside ==> f.restored)))
  {
    StagedKeeps(d, f);
    var staged := Staged(Swept([d], f.swept), f);
    if Staging(f) {
      if f.statted {
        ExchangedKeeps(staged, f);
      } else {
        ExchangedBlindly(staged, f);
        assert AllKeepOld(Exchanged(staged, f).trace);
      }
      TempDoesNotMatter(Last(Exchanged(staged, f).trace), f.tempRemoved);
    }
  }

  // -------------------------------------------------------------- main results

  /** The run gets as far as putting the new binary over a self path it was told is
      empty. */
  predicate Overwrites(f: Fate) {
    f.opens && f.answered && f.gone && Staging(f) && !f.statted && f.putNew
  }

  /** Wherever the process is stopped and whatever fails, until the new daemon has
      answered healthy the old binary is complete at the self path or aside. */
  lemma OldBinarySurvives(d: Disk, f: Fate)
    requires OldAtSelf(d) && !Overwrites(f)
    ensures var r := Upgraded(d, f);
            AllKeepOld(if r.verdict.Updated? then r.trace[..|r.trace| - 1] else r.trace)
  {
    assert KeepsOld(d);
    if f.opens && f.answered && f.gone {
      SwappedKeeps(d, f);
      var s := Swapped([d], f);
      if s.ok {
        RestoredKeeps(s.trace, s.aside.value, f);
        assert (s.trace + [Last(Upgraded(d, f).trace)])[..|s.trace|] == s.trace;
      }
    }
  }

  /** The condition is exact: when asking whether there is a binary at the self path
      fails although there is, and the rename then works, the only copy is gone. */
  lemma BlindSwapLosesTheOldBinary(d: Disk, f: Fate)
    requires OldAtSelf(d) && (forall p :: p in d && d[p] == Old ==> p == Self)
    requires Overwrites(f)
    ensures var s := Swapped([d], f);
            s.ok && s.aside.None? && s.trace <= Upgraded(d, f).trace && !KeepsOld(Last(s.trace))
  {
    StagedKeeps(d, f);
    OnlySelfHolds([d], f);
    var staged := Staged(Swept([d], f.swept), f);
    ExchangedBlindly(staged, f);
    TempDoesNotMatter(Last(Exchanged(staged, f).trace), f.tempRemoved);
  }

  /** So, with no second copy lying about, survival has one condition. */
  lemma OldBinarySurvivesExactly(d: Disk, f: Fate)
    requires OldAtSelf(d) && (forall p :: p in d && d[p] == Old ==> p == Self)
    ensures var r := Upgraded(d, f);
            AllKeepOld(if r.verdict.Updated? then r.trace[..|r.trace| - 1] else r.trace) <==> !Overwrites(f)
  {
    if Overwrites(f) {
      BlindSwapLosesTheOldBinary(d, f);
      var s := Swapped([d], f).trace;
      assert Last(s) == s[|s| - 1] == Upgraded(d, f).trace[|s| - 1];
    } else {
      OldBinarySurvives(d, f);
    }
  }

  ghost predicate OnlyAtSelf(trace: seq<Disk>) {
    trace != [] && forall p :: p in Last(trace) && Last(trace)[p] == Old ==> p == Self
  }

  lemma OnlySelfHolds(trace: seq<Disk>, f: Fate)
    requires OnlyAtSelf(trace)
    ensures OnlyAtSelf(Staged(Swept(trace, f.swept), f))
  {
    SweptHolds(trace, f.swept);
    CopiedHolds(Swept(trace, f.swept), 1 + f.chunks);
  }

  lemma {:induction false} SweptHolds(trace: seq<Disk>, asides: seq<nat>)
    requires OnlyAtSelf(trace)
    ensures OnlyAtSelf(Swept(trace, asides))
    decreases |asides|
  {
    if asides != [] {
      SweptHolds(trace + [Remove(Last(trace), Aside(asides[0]), true)], asides[1..]);
    }
  }

  lemma {:induction false} CopiedHolds(trace: seq<Disk>, chunks: nat)
    requires OnlyAtSelf(trace)
    ensures OnlyAtSelf(Copied(trace, chunks))
    decreases chunks
  {
    if chunks > 0 {
      CopiedHolds(trace + [Last(trace)[Temp := Partial]], chunks - 1);
    }
  }

  /** An error leaves the old binary at the self path exactly when it was never moved
      or its restoring rename worked; then it is what a restart runs. It runs alone
      unless a new daemon was started and outlived its kill. */
  lemma FailureLeavesTheOldBinary(d: Disk, f: Fate)
    requires OldAtSelf(d) && !Overwrites(f) && !Upgraded(d, f).verdict.Updated?
    ensures var r := Upgraded(d, f);
            && (OldAtSelf(Last(r.trace)) <==>
                  (f.opens && f.answered && f.gone && Staging(f) && f.statted && f.movedAside ==> f.restored))
            && (OldAtSelf(Last(r.trace)) && f.restarted ==> r.running == Some(Old))
            && r.leftover == if RollsBack(f) && f.started && !f.killed then Some(New) else None
  {
    if f.opens && f.answered && f.gone {
      SwappedKeeps(d, f);
      var s := Swapped([d], f);
      if s.ok {
        RestoredKeeps(s.trace, s.aside.value, f);
      }
    }
  }

  /** Nothing is touched before the old daemon is known to be gone. */
  lemma NothingSwappedWhileRunning(d: Disk, f: Fate)
    requires !(f.opens && f.answered && f.gone)
    ensures var r := Upgraded(d, f);
            r.trace == [d] && r.running == Some(Old) && r.verdict in {NotOpened, NoDaemon, StillRunning}
  {
  }

  /** Nothing but a step that fails keeps an update from succeeding: it does so exactly
      when the new binary gets into place, which takes the old one moving aside if it
      was seen, and the new daemon starts and answers healthy. */
  lemma SucceedsExactly(d: Disk, f: Fate)
    requires OldAtSelf(d)
    ensures Upgraded(d, f).verdict.Updated? <==>
            && f.opens && f.answered && f.gone && f.tempMade && f.staged
            && (f.statted ==> f.movedAside) && f.putNew && f.started && f.healthy
    ensures Upgraded(d, f).verdict.NotHealthy? <==>
            && f.opens && f.answered && f.gone && f.tempMade && f.staged
            && (f.statted ==> f.movedAside) && f.putNew && !(f.started && f.healthy)
  {
    if f.opens && f.answered && f.gone && Staging(f) {
      SwapsExactly(d, f);
    }
  }

  lemma SwapsExactly(d: Disk, f: Fate)
    requires OldAtSelf(d) && Staging(f)
    ensures var s := Swapped([d], f);
            && s.ok == ((f.statted ==> f.movedAside) && f.putNew)
            && (s.ok ==> Self in Last(s.trace) && Last(s.trace)[Self] == New && s.aside.Some? == f.statted)
  {
    StagedKeeps(d, f);
    var staged := Staged(Swept([d], f.swept), f);
    if f.statted {
      ExchangedKeeps(staged, f);
    } else {
      ExchangedBlindly(staged, f);
    }
    TempDoesNotMatter(Last(Exchanged(staged, f).trace), f.tempRemoved);
  }

  /** A successful update tidies up: when the removals work neither the temporary file
      nor the old binary it moved aside is left. */
  lemma UpdateTidiesUp(d: Disk, f: Fate)
    requires OldAtSelf(d) && (forall p :: p in d && d[p] == Old ==> p == Self) && Upgraded(d, f).verdict.Updated?
    ensures var end := Last(Upgraded(d, f).trace);
            && (f.tempRemoved ==> Temp !in end)
            && (f.statted && f.asideRemoved ==> forall p :: p in end ==> end[p] != Old)
            && (f.statted && !f.asideRemoved ==> KeepsOld(end))
  {
    SucceedsExactly(d, f);
    SwapsExactly(d, f);
    var s := Swapped([d], f);
    if f.statted {
      SwappedKeeps(d, f);
      SwappedOnlyAside(d, f);
      if !f.asideRemoved {
        assert Last(s.trace)[Aside(s.aside.value)] == Old;
      }
    }
  }

  /** However a run ends, it leaves no temporary file where its removal works. */
  lemma NoTempIsLeft(d: Disk, f: Fate)
    requires Temp !in d && f.tempRemoved
    ensures Temp !in Last(Upgraded(d, f).trace)
  {
    if f.opens && f.answered && f.gone {
      SweptMakesNoTemp([d], f.swept);
      var s := Swapped([d], f);
      assert Temp !in Last(s.trace);
    }
  }

  lemma {:induction false} SweptMakesNoTemp(trace: seq<Disk>, asides: seq<nat>)
    requires trace != [] && Temp !in Last(trace)
    ensures Temp !in Last(Swept(trace, asides))
    decreases |asides|
  {
    if asides != [] {
      SweptMakesNoTemp(trace + [Remove(Last(trace), Aside(asides[0]), true)], asides[1..]);
    }
  }

  /** A successful update runs the complete new binary from the self path. */
  lemma UpdateRunsTheNewBinary(d: Disk, f: Fate)
    requires OldAtSelf(d) && Upgraded(d, f).verdict.Updated?
    ensures var r := Upgraded(d, f);
            Self in Last(r.trace) && Last(r.trace)[Self] == New && r.running == Some(New) && r.leftover == None
  {
    StagedKeeps(d, f);
    var staged := Staged(Swept([d], f.swept), f);
    if f.statted {
      ExchangedKeeps(staged, f);
    } else {
      ExchangedBlindly(staged, f);
    }
    TempDoesNotMatter(Last(Exchanged(staged, f).trace), f.tempRemoved);
  }

  /** The self path never holds a half-written binary, whatever fails. */
  lemma SelfIsNeverPartial(d: Disk, f: Fate)
    requires SelfIsWhole(d)
    ensures AllSelfWhole(Upgraded(d, f).trace)
  {
    if f.opens && f.answered && f.gone {
      SwappedWhole(d, f);
      var s := Swapped([d], f);
      if s.ok {
        RestoredWhole(s.trace, s.aside, f);
      }
    }
  }

  /** A binary moved aside is as whole as it was. */
  predicate AsideWhole(d: Disk, aside: Option<nat>) {
    aside.Some? && Aside(aside.value) in d ==> d[Aside(aside.value)] != Partial
  }

  lemma RestoredWhole(trace: seq<Disk>, aside: Option<nat>, f: Fate)
    requires trace != [] && AllSelfWhole(trace) && AsideWhole(Last(trace), aside)
    ensures Restored(trace, aside, f) != [] && AllSelfWhole(Restored(trace, aside, f))
  {
  }

  lemma SwappedWhole(d: Disk, f: Fate)
    requires SelfIsWhole(d)
    ensures var s := Swapped([d], f);
            s.trace != [] && AllSelfWhole(s.trace) && AsideWhole(Last(s.trace), s.aside)
  {
    var self := Launched(d, true);
    SweptUntouched([d], f.swept, self);
    StagedUntouched(Swept([d], f.swept), f, self);
    var staged := Staged(Swept([d], f.swept), f);
    forall i | 0 <= i < |staged| ensures SelfIsWhole(staged[i]) {
      assert Launched(staged[i], true) == self;
    }
    if Staging(f) {
      ExchangedWhole(staged, f);
    }
  }

  lemma ExchangedWhole(trace: seq<Disk>, f: Fate)
    requires trace != [] && AllSelfWhole(trace) && Temp in Last(trace) && Last(trace)[Temp] == New
    ensures var s := Exchanged(trace, f);
            s.trace != [] && AllSelfWhole(s.trace) && AsideWhole(Last(s.trace), s.aside)
  {
    var d := Last(trace);
    assert SelfIsWhole(d);
    if f.statted && Self in d && f.movedAside {
      var n := FreeAside(d, 1);
      var moved := trace + [Rename(d, Self, Aside(n), true)];
      var put := moved + [Rename(Last(moved), Temp, Self, f.putNew)];
      assert AllSelfWhole(put);
      RestoredWhole(put, Some(n), f);
    }
  }

  // ------------------------------------------------------- sweeping the asides

  /** A sweep is harmless exactly when the old binary is at the self path or at an
      aside the sweep does not take. */
  lemma {:induction false} SweepKeepsOld(trace: seq<Disk>, asides: seq<nat>)
    requires trace != []
    ensures KeepsOld(Last(Swept(trace, asides))) <==>
            OldAtSelf(Last(trace)) || exists n :: n !in asides && Aside(n) in Last(trace) && Last(trace)[Aside(n)] == Old
    decreases |asides|
  {
    var d := Last(trace);
    if asides == [] {
      if KeepsOld(d) {
        var p :| p in d && p != Temp && d[p] == Old;
        assert p == Self || p == Aside(p.n);
      }
    } else {
      var e := Remove(d, Aside(asides[0]), true);
      SweepKeepsOld(trace + [e], asides[1..]);
      assert OldAtSelf(e) <==> OldAtSelf(d);
      assert asides == [asides[0]] + asides[1..];
      forall n ensures (n !in asides && Aside(n) in d && d[Aside(n)] == Old) <==> (n !in asides[1..] && Aside(n) in e && e[Aside(n)] == Old) {
      }
    }
  }

  /** The swap went through and the new daemon did not come up. */
  predicate RollsBack(f: Fate) {
    && f.opens && f.answered && f.gone && Staging(f) && f.statted && f.movedAside && f.putNew
    && !(f.started && f.healthy)
  }

  /** A process stopped between the two halves of a rollback leaves the only copy of
      the old binary at the aside path, and the next update sweeps that path before
      it does anything else. */
  lemma StoppedRollbackThenUpdate(d: Disk, f: Fate, next: Fate)
    requires OldAtSelf(d) && (forall p :: p in d && d[p] == Old ==> p == Self)
    requires RollsBack(f) && f.selfRemoved
    requires next.opens && next.answered && next.gone
    ensures var s, r := Swapped([d], f), Upgraded(d, f);
            && s.aside.Some? && |s.trace| < |r.trace|
            && (next.swept == [s.aside.value] ==>
                  |Upgraded(r.trace[|s.trace|], next).trace| > 1 && !KeepsOld(Upgraded(r.trace[|s.trace|], next).trace[1]))
  {
    SwappedKeeps(d, f);
    SwappedOnlyAside(d, f);
    var s, r := Swapped([d], f), Upgraded(d, f);
    var stopped := Remove(Last(s.trace), Self, true);
    assert r.trace[|s.trace|] == stopped;
    if next.swept == [s.aside.value] {
      SweptFirst(stopped, next);
    }
  }

  lemma SwappedOnlyAside(d: Disk, f: Fate)
    requires OldAtSelf(d) && (forall p :: p in d && d[p] == Old ==> p == Self)
    requires Staging(f) && f.statted && f.movedAside && f.putNew
    ensures var s := Swapped([d], f);
            s.aside.Some? && forall p :: p in Last(s.trace) && Last(s.trace)[p] == Old ==> p == Aside(s.aside.value)
  {
    StagedKeeps(d, f);
    OnlySelfHolds([d], f);
  }

  lemma {:induction false} SweptFirst(d: Disk, f: Fate)
    requires f.opens && f.answered && f.gone && |f.swept| == 1
    ensures |Upgraded(d, f).trace| > 1 && Upgraded(d, f).trace[1] == d - {Aside(f.swept[0])}
  {
    var swept := [d] + [Remove(d, Aside(f.swept[0]), true)];
    assert Swept([d], f.swept) == Swept(swept, []) == swept;
    LongerStaged(swept, f);
    var s := Swapped([d], f);
    assert swept <= s.trace;
    assert s.trace <= Upgraded(d, f).trace;
    assert Upgraded(d, f).trace[1] == swept[1];
  }

  lemma LongerStaged(trace: seq<Disk>, f: Fate)
    ensures trace <= Staged(trace, f)
  {
    LongerCopied(trace, 1 + f.chunks);
  }

  lemma {:induction false} LongerCopied(trace: seq<Disk>, chunks: nat)
    ensures trace <= Copied(trace, chunks)
    decreases chunks
  {
    if chunks > 0 {
      LongerCopied(trace + [Last(trace)[Temp := Partial]], chunks - 1);
    }
  }
}
