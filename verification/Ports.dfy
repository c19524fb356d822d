/** Allocating ports from a read model that may lag the event store. The event
    store is the log of port events; what is live is what the log folds to. */
module Ports {
  import opened Wrappers

  datatype Protocol = Tcp | Udp | TcpUdp
  datatype Allocation = Allocation(port: int, protocol: Protocol, owner: string, forwarded: bool)
  datatype Event = Allocated(allocation: Allocation) | Deallocated(port: int)
  datatype Result = Port(port: int) | NoPortAvailable | PortOutOfRange | StoreFailed

  const MAX_ALLOCATE_ATTEMPTS: nat := 64

  // ---------------------------------------------------------- the event store

  function Live(events: seq<Event>): map<int, Allocation> {
    if events == [] then map[] else After(Live(events[..|events| - 1]), events[|events| - 1])
  }

  function After(live: map<int, Allocation>, e: Event): map<int, Allocation> {
    match e
    case Allocated(a) => live[a.port := a]
    case Deallocated(p) => live - {p}
  }

  function PortOf(e: Event): int {
    match e case Allocated(a) => a.port case Deallocated(p) => p
  }

  /** The event store accepts an allocation only of a port nobody holds. */
  ghost predicate Exclusive(events: seq<Event>) {
    events == [] ||
    (var front, last := events[..|events| - 1], events[|events| - 1];
     Exclusive(front) && (last.Allocated? ==> last.allocation.port !in Live(front)))
  }

  /** The ports the event store has ever seen. */
  function Seen(events: seq<Event>): set<int> {
    if events == [] then {} else Seen(events[..|events| - 1]) + {PortOf(events[|events| - 1])}
  }

  /** No port has two owners: between two allocations of a port lies its release. */
  lemma {:induction false} ExclusiveMeans(events: seq<Event>, i: nat, j: nat)
    requires Exclusive(events) && i < j < |events|
    requires events[i].Allocated? && events[j].Allocated? && PortOf(events[i]) == PortOf(events[j])
    ensures exists k :: i < k < j && events[k] == Deallocated(PortOf(events[i]))
  {
    var front := events[..|events| - 1];
    if j < |front| {
      ExclusiveMeans(front, i, j);
      var k :| i < k < j && front[k] == Deallocated(PortOf(front[i]));
      assert events[k] == Deallocated(PortOf(events[i]));
    } else {
      HeldUntilReleased(front, i);
      var k :| i < k < |front| && front[k] == Deallocated(PortOf(front[i]));
      assert events[k] == Deallocated(PortOf(events[i]));
    }
  }

  lemma {:induction false} HeldUntilReleased(events: seq<Event>, i: nat)
    requires i < |events| && events[i].Allocated? && PortOf(events[i]) !in Live(events)
    ensures exists k :: i < k < |events| && events[k] == Deallocated(PortOf(events[i]))
  {
    var front, last := events[..|events| - 1], events[|events| - 1];
    if last != Deallocated(PortOf(events[i])) {
      assert i < |front|;
      HeldUntilReleased(front, i);
      var k :| i < k < |front| && front[k] == Deallocated(PortOf(front[i]));
      assert events[k] == Deallocated(PortOf(events[i]));
    }
  }

  lemma LiveSnoc(events: seq<Event>, e: Event)
    ensures Live(events + [e]) == After(Live(events), e)
    ensures Seen(events + [e]) == Seen(events) + {PortOf(e)}
    ensures Exclusive(events) && (e.Allocated? ==> e.allocation.port !in Live(events)) ==> Exclusive(events + [e])
  {
    assert (events + [e])[..|events|] == events;
  }

  lemma {:induction false} LiveIsKeyedByPort(events: seq<Event>)
    ensures forall p :: p in Live(events) ==> Live(events)[p].port == p
  {
    if events != [] {
      LiveIsKeyedByPort(events[..|events| - 1]);
    }
  }

  // ----------------------------------------------------------------- choosing

  /** The ports a search tries: the preferred one, then the range upwards. */
  function Candidates(preferred: int, start: int, end: int): seq<int> {
    (if preferred > 0 then [preferred] else []) + Upwards(start, end)
  }

  function Upwards(from: int, to: int): seq<int>
    decreases to - from
  {
    if from > to then [] else [from] + Upwards(from + 1, to)
  }

  /** The first candidate that is not taken and that the system lets us bind. */
  function FirstFree(candidates: seq<int>, taken: set<int>, bindable: int -> bool): Option<int> {
    if candidates == [] then None
    else if candidates[0] !in taken && bindable(candidates[0]) then Some(candidates[0])
    else FirstFree(candidates[1..], taken, bindable)
  }

  /** The live allocations a search meets that its read model does not know. */
  function Unknown(candidates: seq<int>, known: set<int>, live: set<int>, bindable: int -> bool): set<int> {
    if candidates == [] then {}
    else
      var c := candidates[0];
      if !bindable(c) || c in known then Unknown(candidates[1..], known, live, bindable)
      else if c in live then {c} + Unknown(candidates[1..], known, live, bindable)
      else {}
  }

  predicate BadPreference(preferred: int) {
    preferred != 0 && (preferred < 1 || preferred > 65535)
  }

  /** What an allocation answers, as a function of the event store and of the read
      model as they were. */
  function Answer(candidates: seq<int>, known: set<int>, live: set<int>, bindable: int -> bool): Option<int> {
    if |Unknown(candidates, known, live, bindable)| < MAX_ALLOCATE_ATTEMPTS
    then FirstFree(candidates, known + live, bindable) else None
  }

  /** The one event an allocation adds. */
  ghost predicate Granted(before: seq<Event>, after: seq<Event>, port: int, protocol: Protocol, owner: string) {
    exists forwarded :: after == before + [Allocated(Allocation(port, protocol, owner, forwarded))]
  }

  function ToResult(answer: Option<int>): Result {
    match answer case Some(port) => Port(port) case None => NoPortAvailable
  }

  /** The read model forgot nothing, and learned only live allocations. */
  ghost predicate Grown(before: map<int, Allocation>, after: map<int, Allocation>, live: map<int, Allocation>) {
    && (forall p :: p in before ==> p in after && after[p] == before[p])
    && (forall p :: p in after && p !in before ==> p in live && after[p] == live[p])
  }

  // ------------------------------------------------------------- the service

  class Netbridge {
    const portStart: int
    const portEnd: int
    var events: seq<Event>
    var readModel: map<int, Allocation>

    /** The read model may lack allocations or keep released ones, but what it says
        about a live port is right. */
    ghost predicate Valid()
      reads this
    {
      && portStart >= 1 && Exclusive(events)
      && (forall p :: p in readModel ==> readModel[p].port == p && p in Seen(events))
      && (forall p :: p in readModel && p in Live(events) ==> readModel[p] == Live(events)[p])
    }

    constructor (portStart: int, portEnd: int, events: seq<Event>, readModel: map<int, Allocation>)
      requires portStart >= 1 && Exclusive(events)
      requires forall p :: p in readModel ==> p in Live(events) && readModel[p] == Live(events)[p]
      requires readModel.Keys <= Seen(events)
      ensures Valid() && this.events == events && this.readModel == readModel
      ensures this.portStart == portStart && this.portEnd == portEnd
    {
      this.portStart, this.portEnd, this.events, this.readModel := portStart, portEnd, events, readModel;
      new;
      LiveIsKeyedByPort(events);
    }

    /** Whether one call to a store succeeds: `answering` says that all do, and
        otherwise any may fail. */
    method Answers(answering: bool) returns (ok: bool)
      ensures answering ==> ok
    {
      var lucky: bool := *;
      return answering || lucky;
    }

    method FindAvailablePort(preferred: int, bindable: int -> bool, answering: bool) returns (r: Result)
      ensures r == PortOutOfRange <==> BadPreference(preferred)
      ensures r == StoreFailed ==> !answering
      ensures !BadPreference(preferred) && r != StoreFailed ==>
        r == ToResult(FirstFree(Candidates(preferred, portStart, portEnd), readModel.Keys, bindable))
    {
      if preferred != 0 && (preferred < 1 || preferred > 65535) {
        return PortOutOfRange;
      }
      ghost var all := Candidates(preferred, portStart, portEnd);
      var read := true;
      if preferred > 0 {
        assert all[1..] == Upwards(portStart, portEnd);
        read := Answers(answering);
        if !read {
          return StoreFailed;
        }
        if preferred !in readModel && bindable(preferred) {
          return Port(preferred);
        }
      }
      assert preferred <= 0 ==> all == Upwards(portStart, portEnd);
      var candidate := portStart;
      while candidate <= portEnd
        invariant FirstFree(all, readModel.Keys, bindable) == FirstFree(Upwards(candidate, portEnd), readModel.Keys, bindable)
        decreases portEnd - candidate
      {
        read := Answers(answering);
        if !read {
          return StoreFailed;
        }
        if candidate !in readModel && bindable(candidate) {
          return Port(candidate);
        }
        assert Upwards(candidate, portEnd)[1..] == Upwards(candidate + 1, portEnd);
        candidate := candidate + 1;
      }
      return NoPortAvailable;
    }

    /** Records in the read model a live allocation it did not know about; an event
        store that cannot be read, or a read model that cannot be written, counts as
        not claimed. */
    method AdoptIfClaimed(port: int, answering: bool) returns (adopted: bool)
      requires Valid()
      modifies this`readModel
      ensures Valid() && (adopted ==> port in Live(events)) && (answering && port in Live(events) ==> adopted)
      ensures readModel == if adopted then old(readModel)[port := Live(events)[port]] else old(readModel)
    {
      var live := Live(events);
      LiveIsKeyedByPort(events);
      var done := Answers(answering);
      if !done || port !in live {
        return false;
      }
      LiveIsSeen(events);
      readModel := readModel[port := live[port]];
      return true;
    }

    /** Sends the allocation, which the event store refuses for a live port. Whether a
        router forwards the port, and whether the projection reaches the read model,
        is left open. */
    method Record(owner: string, protocol: Protocol, port: int, answering: bool) returns (sent: bool)
      requires Valid() && port !in readModel
      modifies this
      ensures Valid() && (sent ==> port !in Live(old(events))) && (answering && port !in Live(old(events)) ==> sent)
      ensures !sent ==> events == old(events) && readModel == old(readModel)
      ensures sent ==> Granted(old(events), events, port, protocol, owner) && port in Live(events)
      ensures sent ==> readModel == old(readModel) || readModel == old(readModel)[port := Live(events)[port]]
    {
      var accepted := Answers(answering);
      if !accepted || port in Live(events) {
        return false;
      }
      var forwarded: bool := *;
      var allocation := Allocation(port, protocol, owner, forwarded);
      LiveSnoc(events, Allocated(allocation));
      events := events + [Allocated(allocation)];
      var projected: bool := *;
      if projected {
        readModel := readModel[port := allocation];
      }
      return true;
    }

    /** One attempt of an allocation: its answer, one more live port adopted, or, when
        a store fails, a port the event store may refuse. `before` is the read model
        before the first attempt, and `adoptions` what the earlier attempts added. */
    method Attempt(preferred: int, bindable: int -> bool, answering: bool,
                   ghost before: map<int, Allocation>, ghost adoptions: set<int>, ghost attempts: nat)
        returns (r: Result, adopted: bool)
      requires Valid() && attempts < MAX_ALLOCATE_ATTEMPTS
      requires Progress(before, readModel, Live(events), Candidates(preferred, portStart, portEnd), bindable, adoptions, attempts)
      modifies this`readModel
      ensures Valid()
      ensures r == PortOutOfRange <==> BadPreference(preferred)
      ensures answering ==> r != StoreFailed && (!adopted && r.Port? ==> r.port !in Live(events))
      ensures !adopted ==> readModel == old(readModel) && (r.Port? ==> r.port !in readModel)
      ensures !adopted && !BadPreference(preferred) && r != StoreFailed && (r.Port? ==> r.port !in Live(events)) ==>
        r == ToResult(Answer(Candidates(preferred, portStart, portEnd), before.Keys, Live(events).Keys, bindable))
      ensures adopted ==> r.Port?
      ensures adopted ==>
        Progress(before, readModel, Live(events), Candidates(preferred, portStart, portEnd), bindable, adoptions + {r.port}, attempts + 1)
    {
      adopted := false;
      r := FindAvailablePort(preferred, bindable, answering);
      ghost var candidates, now, live := Candidates(preferred, portStart, portEnd), readModel, Live(events);
      AttemptSettles(candidates, before.Keys, adoptions, live.Keys, bindable);
      if r.Port? {
        adopted := AdoptIfClaimed(r.port, answering);
        if adopted {
          OneMoreAdopted(before, now, live, candidates, bindable, adoptions, attempts, r.port);
        }
      }
    }

    /** The search of an allocation: looks again whenever the port it found turns
        out to be live in the event store. */
    method Choose(preferred: int, bindable: int -> bool, answering: bool) returns (r: Result)
      requires Valid()
      modifies this`readModel
      ensures Valid()
      ensures r == PortOutOfRange <==> BadPreference(preferred)
      ensures answering ==> r != StoreFailed && (r.Port? ==> r.port !in Live(events))
      ensures !BadPreference(preferred) && r != StoreFailed && (r.Port? ==> r.port !in Live(events)) ==>
        r == ToResult(Answer(Candidates(preferred, portStart, portEnd), old(readModel).Keys, Live(events).Keys, bindable))
      ensures r.Port? ==> r.port !in readModel
      ensures Grown(old(readModel), readModel, Live(events))
    {
      ghost var before, adoptions: set<int> := readModel, {};
      var attempt, adopted := 0, true;
      while attempt < MAX_ALLOCATE_ATTEMPTS
        invariant Valid() && attempt <= MAX_ALLOCATE_ATTEMPTS
        invariant Progress(before, readModel, Live(events), Candidates(preferred, portStart, portEnd), bindable, adoptions, attempt)
        invariant attempt > 0 ==> !BadPreference(preferred)
      {
        r, adopted := Attempt(preferred, bindable, answering, before, adoptions, attempt);
        if !adopted {
          return;
        }
        adoptions := adoptions + {r.port};
        attempt := attempt + 1;
      }
      AttemptsAreSpent(before, readModel, Live(events), Candidates(preferred, portStart, portEnd), bindable, adoptions);
      return NoPortAvailable;
    }

    /** `bindable` is what the system lets this call bind for its protocol. */
    method Allocate(
      owner: string, protocol: Protocol, preferred: int, bindable: int -> bool,
      answering: bool) returns (r: Result)
      requires Valid()
      modifies this
      ensures Valid()
      ensures r == PortOutOfRange <==> preferred != 0 && !(1 <= preferred <= 65535)
      ensures r == StoreFailed ==> !answering
      // what a search of both stores would answer, exactly when that search meets fewer
      // than 64 live ports the read model lacks or finds nothing free
      ensures !BadPreference(preferred) && r != StoreFailed ==>
        var candidates, known, live := Candidates(preferred, portStart, portEnd), old(readModel).Keys, Live(old(events)).Keys;
        var free := FirstFree(candidates, known + live, bindable);
        && (r == ToResult(free) <==> |Unknown(candidates, known, live, bindable)| < 64 || free.None?)
        && (r != ToResult(free) ==> r == NoPortAvailable)
      ensures r.Port? ==> r.port !in Live(old(events)) && Granted(old(events), events, r.port, protocol, owner)
      ensures !r.Port? ==> events == old(events)
      ensures Grown(old(readModel), readModel, Live(events))
    {
      r := Choose(preferred, bindable, answering);
      if r.Port? {
        var sent := Record(owner, protocol, r.port, answering);
        if !sent {
          r := StoreFailed;
        }
      }
    }

    /** Sends one release. The projection, if it arrives, drops the port the event
        store had live; for a port already released it drops nothing. */
    method Release(port: int, answering: bool) returns (sent: bool)
      requires Valid()
      modifies this
      ensures Valid() && (answering ==> sent)
      ensures Live(events) == if sent then Live(old(events)) - {port} else Live(old(events))
      ensures readModel == old(readModel) || (sent && readModel == old(readModel) - {port})
    {
      sent := Answers(answering);
      if !sent {
        return;
      }
      var wasLive := port in Live(events);
      LiveSnoc(events, Deallocated(port));
      events := events + [Deallocated(port)];
      var projected: bool := *;
      if projected && wasLive {
        readModel := readModel - {port};
      }
    }

    /** Releases every port the read model says the owner holds, or, when a store fails,
        some of them. */
    method DeallocateByOwner(owner: string, answering: bool) returns (ok: bool, ghost released: set<int>)
      requires Valid()
      modifies this
      ensures Valid() && (answering ==> ok)
      ensures Live(events) == Live(old(events)) - released && released <= HeldBy(old(readModel), owner)
      ensures ok ==> released == HeldBy(old(readModel), owner)
      // nobody else loses a port
      ensures forall p :: p in Live(old(events)) && Live(old(events))[p].owner != owner ==>
        p in Live(events) && Live(events)[p] == Live(old(events))[p]
      // and the owner keeps only what the read model did not know about
      ensures ok ==> forall p :: p in Live(events) && Live(events)[p].owner == owner ==> p !in old(readModel)
    {
      released := {};
      ok := Answers(answering);
      if !ok {
        return;
      }
      ghost var held := HeldBy(readModel, owner);
      var allocations := set p | p in readModel && readModel[p].owner == owner :: readModel[p];
      while allocations != {}
        invariant Valid() && released <= held
        invariant forall a :: a in allocations ==> a.port in held
        invariant forall p :: p in held && p !in released ==> old(readModel)[p] in allocations
        invariant Live(events) == Live(old(events)) - released
      {
        var alloc :| alloc in allocations;
        allocations := allocations - {alloc};
        ok := Release(alloc.port, answering);
        if !ok {
          return;
        }
        released := released + {alloc.port};
      }
      assert forall p :: p in held ==> p in released;
      ok := true;
    }
  }

  function HeldBy(readModel: map<int, Allocation>, owner: string): set<int> {
    set p | p in readModel && readModel[p].owner == owner
  }

  lemma {:induction false} LiveIsSeen(events: seq<Event>)
    ensures Live(events).Keys <= Seen(events)
  {
    if events != [] {
      LiveIsSeen(events[..|events| - 1]);
    }
  }

  lemma SubsetCount(a: set<int>, b: set<int>)
    requires a <= b
    ensures |a| <= |b|
  {
    assert b == a + (b - a);
  }

  // ------------------------------------------------------------ the search

  lemma {:induction false} FirstFreeIsFree(candidates: seq<int>, taken: set<int>, bindable: int -> bool)
    ensures var free := FirstFree(candidates, taken, bindable);
            free.Some? ==> free.value in candidates && free.value !in taken && bindable(free.value)
  {
    if candidates != [] {
      FirstFreeIsFree(candidates[1..], taken, bindable);
    }
  }

  /** A search over a read model that has adopted some of the live allocations it
      did not know either finds nothing where there is nothing, meets another
      unknown one, or finds what a search of the event store would find, having
      adopted every unknown allocation on the way. */
  lemma {:induction false} SearchMeetsLive(
    candidates: seq<int>, known: set<int>, adoptions: set<int>, live: set<int>, bindable: int -> bool)
    requires adoptions <= live
    ensures var found, unknown := FirstFree(candidates, known + adoptions, bindable), Unknown(candidates, known, live, bindable);
            && (found.None? ==> FirstFree(candidates, known + live, bindable) == None && unknown <= adoptions)
            && (found.Some? && found.value in live ==> found.value in unknown)
            && (found.Some? && found.value !in live ==>
                  FirstFree(candidates, known + live, bindable) == found && unknown <= adoptions)
  {
    if candidates != [] {
      SearchMeetsLive(candidates[1..], known, adoptions, live, bindable);
    }
  }

  /** So many attempts, each of which adopted one more live port the read model
      lacked. */
  ghost predicate Progress(before: map<int, Allocation>, now: map<int, Allocation>, live: map<int, Allocation>,
                           candidates: seq<int>, bindable: int -> bool, adoptions: set<int>, attempts: nat)
  {
    && Grown(before, now, live) && now.Keys == before.Keys + adoptions
    && adoptions <= Unknown(candidates, before.Keys, live.Keys, bindable) && |adoptions| == attempts
  }

  lemma OneMoreAdopted(before: map<int, Allocation>, now: map<int, Allocation>, live: map<int, Allocation>,
                       candidates: seq<int>, bindable: int -> bool, adoptions: set<int>, attempts: nat, port: int)
    requires Progress(before, now, live, candidates, bindable, adoptions, attempts)
    requires port in Unknown(candidates, before.Keys, live.Keys, bindable) && port !in now && port in live
    ensures Progress(before, now[port := live[port]], live, candidates, bindable, adoptions + {port}, attempts + 1)
  {
    StillGrown(before, now, live, port);
    OneMoreKey(before.Keys, now.Keys, adoptions, port);
    assert now[port := live[port]].Keys == now.Keys + {port};
  }

  lemma StillGrown(before: map<int, Allocation>, now: map<int, Allocation>, live: map<int, Allocation>, port: int)
    requires Grown(before, now, live) && port !in now && port in live
    ensures Grown(before, now[port := live[port]], live)
  {
  }

  lemma OneMoreKey(before: set<int>, now: set<int>, adoptions: set<int>, port: int)
    requires now == before + adoptions && port !in now
    ensures now + {port} == before + (adoptions + {port}) && |adoptions + {port}| == |adoptions| + 1
  {
  }

  lemma AttemptsAreSpent(before: map<int, Allocation>, now: map<int, Allocation>, live: map<int, Allocation>,
                         candidates: seq<int>, bindable: int -> bool, adoptions: set<int>)
    requires Progress(before, now, live, candidates, bindable, adoptions, MAX_ALLOCATE_ATTEMPTS)
    ensures Answer(candidates, before.Keys, live.Keys, bindable) == None
  {
    SubsetCount(adoptions, Unknown(candidates, before.Keys, live.Keys, bindable));
  }

  /** One attempt either answers what the whole allocation answers, or meets a live
      allocation not adopted yet. */
  lemma {:induction false} AttemptSettles(
    candidates: seq<int>, known: set<int>, adoptions: set<int>, live: set<int>, bindable: int -> bool)
    requires adoptions <= Unknown(candidates, known, live, bindable) && |adoptions| < MAX_ALLOCATE_ATTEMPTS
    ensures var found := FirstFree(candidates, known + adoptions, bindable);
            && (found.Some? ==> found.value !in known + adoptions)
            && (if found.Some? && found.value in live then found.value in Unknown(candidates, known, live, bindable)
                else Answer(candidates, known, live, bindable) == found)
  {
    UnknownIsUnknown(candidates, known, live, bindable);
    SearchMeetsLive(candidates, known, adoptions, live, bindable);
    FirstFreeIsFree(candidates, known + adoptions, bindable);
    var unknown := Unknown(candidates, known, live, bindable);
    if unknown <= adoptions {
      SubsetCount(unknown, adoptions);
    }
  }

  ghost predicate IsLowestFree(start: int, end: int, taken: set<int>, bindable: int -> bool, r: Option<int>) {
    && (r.Some? ==> start <= r.value <= end && r.value !in taken && bindable(r.value))
    && forall q :: start <= q <= end && (r.Some? ==> q < r.value) ==> q in taken || !bindable(q)
  }

  /** The search order spelled out: the preferred port when it is free, and otherwise
      the lowest free port of the range. */
  lemma FirstFreeMeans(preferred: int, start: int, end: int, taken: set<int>, bindable: int -> bool)
    ensures var r := FirstFree(Candidates(preferred, start, end), taken, bindable);
            if preferred > 0 && preferred !in taken && bindable(preferred) then r == Some(preferred)
            else IsLowestFree(start, end, taken, bindable, r)
  {
    var all := Candidates(preferred, start, end);
    assert all == (if preferred > 0 then [preferred] + Upwards(start, end) else Upwards(start, end));
    if preferred > 0 {
      assert all[1..] == Upwards(start, end);
    }
    LowestFree(start, end, taken, bindable);
  }

  lemma {:induction false} LowestFree(start: int, end: int, taken: set<int>, bindable: int -> bool)
    ensures IsLowestFree(start, end, taken, bindable, FirstFree(Upwards(start, end), taken, bindable))
    decreases end - start
  {
    if start <= end {
      assert Upwards(start, end)[1..] == Upwards(start + 1, end);
      LowestFree(start + 1, end, taken, bindable);
    }
  }

  /** With a read model that only lags, and that lacks fewer than 64 of the live
      allocations, an allocation answers as if it had read the event store. */
  lemma AnswersAsTheEventStore(candidates: seq<int>, known: set<int>, live: set<int>, bindable: int -> bool)
    requires known <= live && |live - known| < MAX_ALLOCATE_ATTEMPTS
    ensures Answer(candidates, known, live, bindable) == FirstFree(candidates, live, bindable)
  {
    UnknownIsUnknown(candidates, known, live, bindable);
    SubsetCount(Unknown(candidates, known, live, bindable), live - known);
    assert known + live == live;
  }

  lemma {:induction false} UnknownIsUnknown(
    candidates: seq<int>, known: set<int>, live: set<int>, bindable: int -> bool)
    ensures Unknown(candidates, known, live, bindable) <= live - known
  {
    if candidates != [] {
      UnknownIsUnknown(candidates[1..], known, live, bindable);
    }
  }

  /** What a search meets: the live ports the read model lacks, among the candidates
      it tries before one that is free for the event store too. */
  lemma {:induction false} UnknownMeans(
    candidates: seq<int>, known: set<int>, live: set<int>, bindable: int -> bool, p: int)
    ensures p in Unknown(candidates, known, live, bindable) <==>
            && p in live && p !in known && bindable(p)
            && exists i :: 0 <= i < |candidates| && candidates[i] == p && NoneFree(candidates[..i], known + live, bindable)
  {
    if candidates != [] {
      var c, rest := candidates[0], candidates[1..];
      UnknownMeans(rest, known, live, bindable, p);
      if i :| 0 <= i < |candidates| && candidates[i] == p && NoneFree(candidates[..i], known + live, bindable) {
        if i > 0 {
          assert candidates[..i][0] == c && candidates[..i][1..] == rest[..i - 1] && rest[i - 1] == p;
        }
      }
      if i :| 0 <= i < |rest| && rest[i] == p && NoneFree(rest[..i], known + live, bindable) {
        assert candidates[..i + 1] == [c] + rest[..i] && candidates[i + 1] == p;
        assert candidates[..i + 1][1..] == rest[..i];
      }
      assert candidates[..0] == [];
    }
  }

  predicate NoneFree(candidates: seq<int>, taken: set<int>, bindable: int -> bool) {
    candidates == [] || ((candidates[0] in taken || !bindable(candidates[0])) && NoneFree(candidates[1..], taken, bindable))
  }

  /** A read model that knows nothing of `n` live ports in a row before a free one. */
  lemma {:induction false} MeetsARow(from: int, n: nat, end: int, live: set<int>, bindable: int -> bool)
    requires from + n <= end && forall p :: from <= p <= end ==> bindable(p)
    requires (forall p :: from <= p < from + n ==> p in live) && from + n !in live
    ensures var unknown := Unknown(Upwards(from, end), {}, live, bindable);
            |unknown| == n && forall p :: p in unknown ==> p >= from
    ensures FirstFree(Upwards(from, end), live, bindable) == Some(from + n)
    decreases n
  {
    assert Upwards(from, end)[1..] == Upwards(from + 1, end);
    if n > 0 {
      MeetsARow(from + 1, n - 1, end, live, bindable);
      var rest := Unknown(Upwards(from + 1, end), {}, live, bindable);
      assert |{from} + rest| == 1 + |rest|;
    }
  }

  /** An allocation gives up after 64 adoptions although a port is free: over a read
      model that has lost everything, whenever 64 ports in a row or more are live
      before the first free one. */
  lemma GivesUpBeforeAFreePort(start: int, n: nat, end: int, live: set<int>, bindable: int -> bool)
    requires start + n <= end && forall p :: start <= p <= end ==> bindable(p)
    requires (forall p :: start <= p < start + n ==> p in live) && start + n !in live
    ensures FirstFree(Candidates(0, start, end), live, bindable) == Some(start + n)
    ensures Answer(Candidates(0, start, end), {}, live, bindable) == if n < MAX_ALLOCATE_ATTEMPTS then Some(start + n) else None
  {
    MeetsARow(start, n, end, live, bindable);
    assert Candidates(0, start, end) == Upwards(start, end);
    assert {} + live == live;
  }
}
