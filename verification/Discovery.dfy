/** The life of discovery jobs: items numbered under the registry's lock, a summary
    that outlives the pass by a grace, and passes given up when nobody listens.
    `due` counts the idle timers that have fired and whose check has not run yet:
    stopping a timer does not call those back. `doomed` counts the checks that found
    nobody and, the lock released, have yet to cancel. */
module Discovery {
  import opened Wrappers
  import Stitching

  type Item = Stitching.Item
  datatype Status = Running | Completed

  const JOB_GRACE: nat := 30
  const SUBSCRIBER_GRACE: nat := 5

  /** `idle` is when the armed timer fires, `finished` whether `done` is closed, and
      `cancelled` whether the pass was told to stop. */
  datatype Session = Session(
    query: string, status: Status, outcome: string, expiresAt: int,
    items: seq<Item>, finished: bool, subscribers: nat, idle: Option<int>, due: nat, doomed: nat, cancelled: bool)
  {
    function Emit(id: string, result: string): Session {
      this.(items := items + [Stitching.Item(id, |items| + 1, result)])
    }

    function Attach(): Session {
      this.(subscribers := subscribers + 1, idle := None)
    }

    function Detach(now: int): Session {
      if subscribers == 0 then this
      else if subscribers > 1 || status != Running then this.(subscribers := subscribers - 1)
      else this.(subscribers := 0, idle := Some(now + SUBSCRIBER_GRACE))
    }

    predicate Abandoned() {
      subscribers == 0 && status == Running
    }

    function Check(): Session {
      this.(due := if due > 0 then due - 1 else 0, doomed := if Abandoned() then doomed + 1 else doomed)
    }

    function GiveUp(): Session {
      this.(doomed := if doomed > 0 then doomed - 1 else 0, cancelled := true)
    }

    function Finish(outcome: string, now: int): Session {
      this.(status := Completed, outcome := outcome, expiresAt := now + JOB_GRACE, idle := None,
            finished := true, cancelled := true)
    }

    predicate Expired(now: int) {
      status == Completed && now >= expiresAt
    }
  }

  function Fresh(query: string, now: int): Session {
    Session(query, Running, "", now + JOB_GRACE, [], false, 0, None, 0, 0, false)
  }

  type Sessions = map<string, Session>

  function Swept(sessions: Sessions, now: int): Sessions {
    map id | id in sessions && !sessions[id].Expired(now) :: sessions[id]
  }

  // ------------------------------------------------------------- the registry

  class Registry {
    var sessions: Sessions

    constructor ()
      ensures sessions == map[]
    {
      sessions := map[];
    }

    method Sweep(now: int)
      modifies this
      ensures sessions == Swept(old(sessions), now)
    {
      var ids := sessions.Keys;
      while ids != {}
        invariant ids <= sessions.Keys <= old(sessions).Keys
        invariant forall id :: id in old(sessions) ==>
          (id in sessions <==> id in ids || !old(sessions)[id].Expired(now))
        invariant forall id :: id in sessions ==> sessions[id] == old(sessions)[id]
      {
        var id :| id in ids;
        ids := ids - {id};
        if sessions[id].Expired(now) {
          sessions := sessions - {id};
        }
      }
    }

    /** The id is a fresh UUID. */
    method Start(id: string, text: string, now: int) returns (accepted: bool)
      requires id !in sessions
      modifies this
      ensures accepted == (text != "")
      ensures sessions == if accepted then Apply(old(sessions), Begin(id, text, now)) else old(sessions)
    {
      if text == "" {
        return false;
      }
      Sweep(now);
      sessions := sessions[id := Fresh(text, now)];
      return true;
    }

    method Get(id: string, now: int) returns (job: Option<Session>)
      modifies this
      ensures sessions == Apply(old(sessions), Look(now))
      ensures job == if id in sessions then Some(sessions[id]) else None
    {
      Sweep(now);
      return if id in sessions then Some(sessions[id]) else None;
    }

    method Cancel(id: string)
      modifies this
      ensures sessions == Apply(old(sessions), Stop(id))
    {
      if id in sessions {
        sessions := sessions[id := sessions[id].(cancelled := true)];
      }
    }

    method Attach(id: string)
      modifies this
      ensures sessions == Apply(old(sessions), Join(id))
    {
      if id !in sessions {
        return;
      }
      var s := sessions[id];
      s := s.(subscribers := s.subscribers + 1);
      if s.idle.Some? {
        s := s.(idle := None);
      }
      sessions := sessions[id := s];
    }

    method Detach(id: string, now: int)
      modifies this
      ensures sessions == Apply(old(sessions), Leave(id, now))
    {
      if id !in sessions || sessions[id].subscribers == 0 {
        return;
      }
      var s := sessions[id];
      s := s.(subscribers := s.subscribers - 1);
      if s.subscribers == 0 && s.status == Running {
        s := s.(idle := Some(now + SUBSCRIBER_GRACE));
      }
      sessions := sessions[id := s];
    }

    /** The first half of what a fired timer runs; the lock is released after it. A job
        that has been swept meanwhile had completed. */
    method CheckAbandoned(id: string) returns (abandoned: bool)
      modifies this
      ensures sessions == Apply(old(sessions), Check(id))
      ensures abandoned == (id in old(sessions) && old(sessions)[id].Abandoned())
    {
      if id !in sessions {
        return false;
      }
      var s := sessions[id];
      abandoned := s.subscribers == 0 && s.status == Running;
      s := s.(due := if s.due > 0 then s.due - 1 else 0);
      if abandoned {
        s := s.(doomed := s.doomed + 1);
      }
      sessions := sessions[id := s];
    }

    /** The second half, for a check that found nobody: whoever attached in between
        comes too late. */
    method CancelAbandoned(id: string)
      modifies this
      ensures sessions == Apply(old(sessions), GiveUp(id))
    {
      if id in sessions {
        var s := sessions[id];
        sessions := sessions[id := s.(doomed := if s.doomed > 0 then s.doomed - 1 else 0, cancelled := true)];
      }
    }

    method CancelIfAbandoned(id: string)
      modifies this
      ensures var checked := Apply(old(sessions), Check(id));
              sessions == if id in old(sessions) && old(sessions)[id].Abandoned() then Apply(checked, GiveUp(id)) else checked
    {
      var abandoned := CheckAbandoned(id);
      if abandoned {
        CancelAbandoned(id);
      }
    }

    method Emit(id: string, result: string) returns (item: Item)
      requires id in sessions && sessions[id].status == Running
      modifies this
      ensures sessions == Apply(old(sessions), Emitted(id, result))
      ensures item == sessions[id].items[|old(sessions)[id].items|]
    {
      var s := sessions[id];
      item := Stitching.Item(id, |s.items| + 1, result);
      sessions := sessions[id := s.(items := s.items + [item])];
    }

    method Finish(id: string, outcome: string, now: int)
      requires id in sessions && sessions[id].status == Running
      modifies this
      ensures sessions == Apply(old(sessions), End(id, outcome, now))
    {
      var s := sessions[id];
      s := s.(status := Completed, outcome := outcome, expiresAt := now + JOB_GRACE);
      if s.idle.Some? {
        s := s.(idle := None);
      }
      s := s.(finished := true, cancelled := true);
      sessions := sessions[id := s];
    }

    method Replay(id: string) returns (items: seq<Item>)
      ensures items == if id in sessions then sessions[id].items else []
    {
      return if id in sessions then sessions[id].items else [];
    }

    /** Whether the channel handed out is closed already. */
    method Done(id: string) returns (closed: bool)
      ensures closed == (id in sessions ==> sessions[id].finished)
    {
      return if id in sessions then sessions[id].finished else true;
    }
  }

  function Touched(sessions: Sessions, id: string, f: Session -> Session): Sessions {
    if id in sessions then sessions[id := f(sessions[id])] else sessions
  }

  // ----------------------------------------------------------------- the runs

  datatype Op =
    | Begin(id: string, query: string, at: int)
    | Look(at: int)
    | Stop(id: string)
    | Join(id: string)
    | Leave(id: string, at: int)
    | Fire(id: string, at: int)
    | Check(id: string)
    | GiveUp(id: string)
    | Emitted(id: string, result: string)
    | End(id: string, outcome: string, at: int)

  function Apply(sessions: Sessions, op: Op): Sessions {
    match op
    case Begin(id, query, at) => Swept(sessions, at)[id := Fresh(query, at)]
    case Look(at) => Swept(sessions, at)
    case Stop(id) => Touched(sessions, id, (s: Session) => s.(cancelled := true))
    case Join(id) => Touched(sessions, id, (s: Session) => s.Attach())
    case Leave(id, at) => Touched(sessions, id, (s: Session) => s.Detach(at))
    case Fire(id, at) => Touched(sessions, id, (s: Session) => s.(idle := None, due := s.due + 1))
    case Check(id) => Touched(sessions, id, (s: Session) => s.Check())
    case GiveUp(id) => Touched(sessions, id, (s: Session) => s.GiveUp())
    case Emitted(id, result) => Touched(sessions, id, (s: Session) => s.Emit(id, result))
    case End(id, outcome, at) => Touched(sessions, id, (s: Session) => s.Finish(outcome, at))
  }

  function After(ops: seq<Op>): Sessions {
    if ops == [] then map[] else Apply(After(ops[..|ops| - 1]), ops[|ops| - 1])
  }

  predicate Enabled(sessions: Sessions, op: Op) {
    match op
    case Fire(id, at) => id in sessions && sessions[id].idle.Some? && at >= sessions[id].idle.value
    case Check(id) => id in sessions && sessions[id].due > 0
    case GiveUp(id) => id in sessions && sessions[id].doomed > 0
    case Emitted(id, _) => id in sessions && sessions[id].status == Running
    case End(id, _, _) => id in sessions && sessions[id].status == Running
    case _ => true
  }

  predicate Timed(op: Op) {
    op.Begin? || op.Look? || op.Leave? || op.Fire? || op.End?
  }

  /** A run the registry can take: ids are never reused and the clock never turns back. */
  predicate Possible(ops: seq<Op>) {
    ops == [] ||
    (var front, last := ops[..|ops| - 1], ops[|ops| - 1];
     && Possible(front) && Enabled(After(front), last)
     && (last.Begin? ==> !Begun(front, last.id))
     && (Timed(last) ==> NotAfter(front, last.at)))
  }

  predicate Begun(ops: seq<Op>, id: string) {
    exists i :: 0 <= i < |ops| && ops[i].Begin? && ops[i].id == id
  }

  predicate NotAfter(ops: seq<Op>, now: int) {
    forall i :: 0 <= i < |ops| && Timed(ops[i]) ==> ops[i].at <= now
  }

  /** When the pass of a job ended, if it has. */
  function EndOf(ops: seq<Op>, id: string): Option<int> {
    if ops == [] then None
    else
      var last := ops[|ops| - 1];
      if last.End? && last.id == id then Some(last.at) else EndOf(ops[..|ops| - 1], id)
  }

  // ------------------------------------------------------------ what a run keeps

  predicate Sound(id: string, s: Session) {
    && (forall i :: 0 <= i < |s.items| ==> s.items[i].job == id && s.items[i].number == i + 1)
    && (s.finished <==> s.status == Completed)
    && (s.idle.Some? ==> s.Abandoned())
  }

  /** Every job in every run: its items are numbered from 1 without gaps, its `done`
      is closed exactly when it has completed, and a timer runs only while the pass
      does and nobody listens. */
  lemma {:induction false} JobsAreSound(ops: seq<Op>, id: string)
    requires Possible(ops) && id in After(ops)
    ensures Sound(id, After(ops)[id]) && Begun(ops, id)
  {
    var front, last := ops[..|ops| - 1], ops[|ops| - 1];
    BegunSnoc(ops, id);
    if id in After(front) {
      JobsAreSound(front, id);
    }
    SoundStep(After(front), last, id);
  }

  lemma SoundStep(sessions: Sessions, op: Op, id: string)
    requires id in sessions ==> Sound(id, sessions[id])
    requires id in Apply(sessions, op)
    ensures Sound(id, Apply(sessions, op)[id])
    ensures id in sessions || (op.Begin? && op.id == id)
  {
  }

  /** A finished job is readable for exactly its grace, and a running one always: what
      a look-up answers depends on when the pass ended and on nothing in between. */
  lemma {:induction false} ReadableForItsGrace(ops: seq<Op>, id: string, now: int)
    requires Possible(ops) && NotAfter(ops, now)
    ensures id in Swept(After(ops), now) <==>
            Begun(ops, id) && (EndOf(ops, id).Some? ==> now < EndOf(ops, id).value + JOB_GRACE)
    ensures id in After(ops) ==>
            var s := After(ops)[id];
            if EndOf(ops, id).Some? then s.status == Completed && s.expiresAt == EndOf(ops, id).value + JOB_GRACE
            else s.status == Running
  {
    if ops != [] {
      var front, last := ops[..|ops| - 1], ops[|ops| - 1];
      assert NotAfter(front, now) by {
        assert forall i :: 0 <= i < |front| ==> front[i] == ops[i];
      }
      ReadableForItsGrace(front, id, now);
      ReadStep(After(front), last, id, now);
      BegunSnoc(ops, id);
      if last.Begin? && last.id == id {
        NotEndedBeforeBegin(front, id);
      } else if last.End? && last.id == id {
        JobsAreSound(front, id);
      }
    }
  }

  /** Starting and looking up leave no job whose grace has run out. */
  lemma {:induction false} NothingOverstays(ops: seq<Op>, id: string)
    requires Possible(ops) && ops != [] && (ops[|ops| - 1].Begin? || ops[|ops| - 1].Look?)
    ensures id in After(ops) && EndOf(ops, id).Some? ==> ops[|ops| - 1].at < EndOf(ops, id).value + JOB_GRACE
  {
    var front, last := ops[..|ops| - 1], ops[|ops| - 1];
    if id in After(ops) && EndOf(ops, id).Some? {
      assert EndOf(ops, id) == EndOf(front, id);
      if last.Begin? && last.id == id {
        NotEndedBeforeBegin(front, id);
      } else {
        ReadableForItsGrace(front, id, last.at);
        assert id in Swept(After(front), last.at);
      }
    }
  }

  /** What one step makes of what a look-up answers. */
  lemma ReadStep(sessions: Sessions, op: Op, id: string, now: int)
    requires Timed(op) ==> op.at <= now
    ensures id in Swept(Apply(sessions, op), now) <==>
            if op.Begin? && op.id == id then true
            else if op.End? && op.id == id then id in sessions && now < op.at + JOB_GRACE
            else id in Swept(sessions, now)
    ensures id in Apply(sessions, op) && !((op.Begin? || op.End?) && op.id == id) ==>
            && id in sessions && Apply(sessions, op)[id].status == sessions[id].status
            && Apply(sessions, op)[id].expiresAt == sessions[id].expiresAt
  {
  }

  lemma BegunSnoc(ops: seq<Op>, id: string)
    requires ops != []
    ensures var front, last := ops[..|ops| - 1], ops[|ops| - 1];
            Begun(ops, id) <==> Begun(front, id) || (last.Begin? && last.id == id)
  {
    var front, last := ops[..|ops| - 1], ops[|ops| - 1];
    if Begun(front, id) {
      var i :| 0 <= i < |front| && front[i].Begin? && front[i].id == id;
      assert ops[i].Begin? && ops[i].id == id;
    }
    if Begun(ops, id) && !(last.Begin? && last.id == id) {
      var i :| 0 <= i < |ops| && ops[i].Begin? && ops[i].id == id;
      assert front[i].Begin? && front[i].id == id;
    }
  }

  lemma {:induction false} NotEndedBeforeBegin(ops: seq<Op>, id: string)
    requires Possible(ops) && !Begun(ops, id)
    ensures EndOf(ops, id) == None && id !in After(ops)
  {
    if ops != [] {
      BegunSnoc(ops, id);
      NotEndedBeforeBegin(ops[..|ops| - 1], id);
    }
  }

  // ------------------------------------------- what a job owes to its history

  /** How often somebody joined the job while it was known, and left it. */
  function Joins(ops: seq<Op>, id: string): nat {
    if ops == [] then 0
    else
      var front, last := ops[..|ops| - 1], ops[|ops| - 1];
      Joins(front, id) + (if last == Join(id) && id in After(front) then 1 else 0)
  }

  function Leavings(ops: seq<Op>, id: string): nat {
    if ops == [] then 0
    else
      var front, last := ops[..|ops| - 1], ops[|ops| - 1];
      Leavings(front, id) + (if last.Leave? && last.id == id && id in After(front) then 1 else 0)
  }

  /** Nobody leaves who has not joined. */
  ghost predicate NoSpareLeaving(ops: seq<Op>, id: string) {
    forall n :: 0 <= n <= |ops| ==> Leavings(ops[..n], id) <= Joins(ops[..n], id)
  }

  /** The subscribers of a job are those who joined and have not left: at least so
      many, and exactly so many as long as nobody leaves who has not joined. */
  lemma {:induction false} SubscribersAreCounted(ops: seq<Op>, id: string)
    requires Possible(ops) && id in After(ops)
    ensures Joins(ops, id) - Leavings(ops, id) <= After(ops)[id].subscribers
    ensures NoSpareLeaving(ops, id) ==> After(ops)[id].subscribers == Joins(ops, id) - Leavings(ops, id)
  {
    var front, last := ops[..|ops| - 1], ops[|ops| - 1];
    if last.Begin? && last.id == id {
      NothingBeforeBegin(front, id);
    } else {
      SubscribersAreCounted(front, id);
      CountStep(After(front), last, id);
      if NoSpareLeaving(ops, id) {
        assert ops[..|ops|] == ops;
        assert forall n :: 0 <= n <= |front| ==> front[..n] == ops[..n];
      }
    }
  }

  lemma CountStep(sessions: Sessions, op: Op, id: string)
    requires id in sessions && id in Apply(sessions, op) && !(op.Begin? && op.id == id)
    ensures var before, after := sessions[id].subscribers, Apply(sessions, op)[id].subscribers;
            after == if op == Join(id) then before + 1
                     else if op.Leave? && op.id == id && before > 0 then before - 1
                     else before
  {
  }

  /** What the pass has emitted, in order. */
  function Emissions(ops: seq<Op>, id: string): seq<string> {
    if ops == [] then []
    else
      var front, last := ops[..|ops| - 1], ops[|ops| - 1];
      Emissions(front, id) + (if last.Emitted? && last.id == id then [last.result] else [])
  }

  function Outcome(ops: seq<Op>, id: string): string {
    if ops == [] then ""
    else
      var last := ops[|ops| - 1];
      if last.End? && last.id == id then last.outcome else Outcome(ops[..|ops| - 1], id)
  }

  function Asked(ops: seq<Op>, id: string): string {
    if ops == [] then ""
    else
      var last := ops[|ops| - 1];
      if last.Begin? && last.id == id then last.query else Asked(ops[..|ops| - 1], id)
  }

  /** A request, a check that found nobody, or its end told the pass to stop. */
  predicate Told(ops: seq<Op>, id: string) {
    ops != [] &&
    (var front, last := ops[..|ops| - 1], ops[|ops| - 1];
     Told(front, id) || ((last == Stop(id) || last == GiveUp(id) || (last.End? && last.id == id)) && id in After(front)))
  }

  /** In every run a job that is known holds the query it was begun with, what its pass
      emitted and the outcome it ended with, and its pass is told to stop exactly when
      a request, a check or its end said so. */
  lemma {:induction false} JobsKeepTheirHistory(ops: seq<Op>, id: string)
    requires Possible(ops) && id in After(ops)
    ensures HoldsHistory(After(ops)[id], ops, id)
  {
    var front, last := ops[..|ops| - 1], ops[|ops| - 1];
    if last.Begin? && last.id == id {
      NothingBeforeBegin(front, id);
    } else {
      JobsKeepTheirHistory(front, id);
      HistoryStep(After(front), last, id);
    }
  }

  ghost predicate HoldsHistory(s: Session, ops: seq<Op>, id: string) {
    && s.query == Asked(ops, id) && s.outcome == Outcome(ops, id)
    && |s.items| == |Emissions(ops, id)|
    && (forall i :: 0 <= i < |s.items| ==> s.items[i].result == Emissions(ops, id)[i])
    && (s.cancelled <==> Told(ops, id))
  }

  /** What one step makes of the history a job holds. */
  lemma HistoryStep(sessions: Sessions, op: Op, id: string)
    requires id in sessions && id in Apply(sessions, op) && !(op.Begin? && op.id == id)
    ensures var s, t := sessions[id], Apply(sessions, op)[id];
            && t.query == s.query
            && t.outcome == (if op.End? && op.id == id then op.outcome else s.outcome)
            && (if op.Emitted? && op.id == id then |t.items| == |s.items| + 1 && t.items[..|s.items|] == s.items
                  && t.items[|s.items|].result == op.result
                else t.items == s.items)
            && (t.cancelled <==> s.cancelled || op == Stop(id) || op == GiveUp(id) || (op.End? && op.id == id))
  {
  }

  lemma {:induction false} NothingBeforeBegin(ops: seq<Op>, id: string)
    requires Possible(ops) && !Begun(ops, id)
    ensures Joins(ops, id) == 0 && Leavings(ops, id) == 0
    ensures Emissions(ops, id) == [] && Outcome(ops, id) == "" && !Told(ops, id)
  {
    if ops != [] {
      BegunSnoc(ops, id);
      NotEndedBeforeBegin(ops[..|ops| - 1], id);
      NothingBeforeBegin(ops[..|ops| - 1], id);
    }
  }

  // --------------------------------------------------------- giving a pass up

  /** The last subscriber left at step `i`, and none has come since. */
  ghost predicate LeftAt(ops: seq<Op>, id: string, i: nat) {
    && i < |ops| && ops[i].Leave? && ops[i].id == id
    && id in After(ops[..i]) && After(ops[..i])[id].subscribers == 1 && After(ops[..i])[id].status == Running
  }

  predicate NobodyJoins(ops: seq<Op>, id: string, i: int, j: int) {
    forall k :: i < k < j && 0 <= k < |ops| ==> ops[k] != Join(id)
  }

  /** The timer armed at step `i` fired at step `j`, a whole grace later, with nobody
      having come in between. */
  ghost predicate GraceElapsed(ops: seq<Op>, id: string, i: nat, j: nat) {
    && LeftAt(ops, id, i) && i < j < |ops| && ops[j].Fire? && ops[j].id == id
    && ops[j].at >= ops[i].at + SUBSCRIBER_GRACE && NobodyJoins(ops, id, i, j)
  }

  ghost predicate GraceSince(ops: seq<Op>, id: string, i: nat) {
    exists j :: GraceElapsed(ops, id, i, j)
  }

  /** An armed timer remembers when the last subscriber left. */
  lemma {:induction false} TimerRemembers(ops: seq<Op>, id: string) returns (i: nat)
    requires Possible(ops) && id in After(ops) && After(ops)[id].idle.Some?
    ensures LeftAt(ops, id, i) && NobodyJoins(ops, id, i, |ops|)
    ensures After(ops)[id].idle == Some(ops[i].at + SUBSCRIBER_GRACE)
  {
    var front, last := ops[..|ops| - 1], ops[|ops| - 1];
    assert ops == front + [last];
    TimerStep(After(front), last, id);
    var s := After(front)[id];
    if last.Leave? && last.id == id && s.subscribers == 1 && s.status == Running {
      i := |front|;
      JustLeft(front, last, id);
    } else {
      i := TimerRemembers(front, id);
      StillLeft(front, last, id, i);
    }
  }

  lemma JustLeft(ops: seq<Op>, op: Op, id: string)
    requires op.Leave? && op.id == id && id in After(ops)
    requires After(ops)[id].subscribers == 1 && After(ops)[id].status == Running
    ensures LeftAt(ops + [op], id, |ops|) && NobodyJoins(ops + [op], id, |ops|, |ops + [op]|)
  {
    assert (ops + [op])[..|ops|] == ops;
  }

  lemma StillLeft(ops: seq<Op>, op: Op, id: string, i: nat)
    requires LeftAt(ops, id, i) && NobodyJoins(ops, id, i, |ops|) && op != Join(id)
    ensures LeftAt(ops + [op], id, i) && NobodyJoins(ops + [op], id, i, |ops + [op]|)
  {
    assert (ops + [op])[..i] == ops[..i];
  }

  /** A timer is armed by the last subscriber's leaving or was armed before. */
  lemma TimerStep(sessions: Sessions, op: Op, id: string)
    requires id in Apply(sessions, op) && Apply(sessions, op)[id].idle.Some?
    ensures id in sessions && op != Join(id)
    ensures var s, idle := sessions[id], Apply(sessions, op)[id].idle;
            if op.Leave? && op.id == id && s.subscribers == 1 && s.status == Running
            then idle == Some(op.at + SUBSCRIBER_GRACE) else idle == s.idle
  {
  }

  /** A check waits only because a whole grace once passed with nobody listening. */
  lemma {:induction false} ChecksFollowAGrace(ops: seq<Op>, id: string) returns (i: nat, j: nat)
    requires Possible(ops) && id in After(ops) && After(ops)[id].due > 0
    ensures GraceElapsed(ops, id, i, j)
  {
    var front, last := ops[..|ops| - 1], ops[|ops| - 1];
    assert ops == front + [last];
    if last.Fire? && last.id == id {
      i := TimerRemembers(front, id);
      j := |front|;
      assert ops[..i] == front[..i];
    } else {
      assert id in After(front) && After(front)[id].due > 0;
      i, j := ChecksFollowAGrace(front, id);
      StillElapsed(front, last, id, i, j);
    }
  }

  lemma StillElapsed(ops: seq<Op>, op: Op, id: string, i: nat, j: nat)
    requires GraceElapsed(ops, id, i, j)
    ensures GraceElapsed(ops + [op], id, i, j)
  {
    assert (ops + [op])[..i] == ops[..i];
  }

  /** A check that found nobody, a whole grace after somebody left nobody behind. */
  ghost predicate CheckedAt(ops: seq<Op>, id: string, i: nat, j: nat, k: nat) {
    && GraceElapsed(ops, id, i, j) && j < k < |ops| && ops[k] == Check(id)
    && id in After(ops[..k]) && After(ops[..k])[id].Abandoned()
  }

  lemma StillChecked(ops: seq<Op>, op: Op, id: string, i: nat, j: nat, k: nat)
    requires CheckedAt(ops, id, i, j, k)
    ensures CheckedAt(ops + [op], id, i, j, k)
  {
    StillElapsed(ops, op, id, i, j);
    assert (ops + [op])[..k] == ops[..k];
  }

  lemma {:induction false} DoomedByACheck(ops: seq<Op>, id: string) returns (i: nat, j: nat, k: nat)
    requires Possible(ops) && id in After(ops) && After(ops)[id].doomed > 0
    ensures CheckedAt(ops, id, i, j, k)
  {
    var front, last := ops[..|ops| - 1], ops[|ops| - 1];
    assert ops == front + [last];
    if last == Check(id) && After(front)[id].Abandoned() {
      i, j := ChecksFollowAGrace(front, id);
      k := |front|;
      StillElapsed(front, last, id, i, j);
    } else {
      assert id in After(front) && After(front)[id].doomed > 0;
      i, j, k := DoomedByACheck(front, id);
      StillChecked(front, last, id, i, j, k);
    }
  }

  /** A pass is given up only by a check that ran after a grace in which nobody
      listened, and that found that all who had joined had left. */
  lemma {:induction false} GivenUpOnlyAfterAGrace(ops: seq<Op>, id: string) returns (i: nat, j: nat, k: nat)
    requires Possible(ops) && id in After(ops) && After(ops)[id].cancelled
    requires EndOf(ops, id).None? && Stop(id) !in ops
    ensures CheckedAt(ops, id, i, j, k)
    ensures Joins(ops[..k], id) <= Leavings(ops[..k], id)
  {
    var front, last := ops[..|ops| - 1], ops[|ops| - 1];
    assert ops == front + [last];
    assert last != Stop(id) && id in After(front);
    if last == GiveUp(id) {
      i, j, k := DoomedByACheck(front, id);
    } else {
      assert After(front)[id].cancelled;
      i, j, k := GivenUpOnlyAfterAGrace(front, id);
    }
    StillChecked(front, last, id, i, j, k);
    PossibleBefore(ops, k);
    SubscribersAreCounted(ops[..k], id);
  }

  lemma {:induction false} PossibleBefore(ops: seq<Op>, k: nat)
    requires Possible(ops) && k <= |ops|
    ensures Possible(ops[..k])
  {
    if k < |ops| {
      assert ops[..|ops| - 1][..k] == ops[..k];
      PossibleBefore(ops[..|ops| - 1], k);
    } else {
      assert ops[..k] == ops;
    }
  }

  /** A pass everyone has left is being watched: a timer is armed, a check is waiting or
      about to cancel, or the pass has been told to stop. */
  lemma {:induction false} AbandonedIsWatched(ops: seq<Op>, id: string)
    requires Possible(ops) && id in After(ops) && After(ops)[id].Abandoned()
    ensures var s := After(ops)[id];
            s.idle.Some? || s.due > 0 || s.doomed > 0 || s.cancelled <== Heard(ops, id)
  {
    var front, last := ops[..|ops| - 1], ops[|ops| - 1];
    if last.Begin? && last.id == id {
      NothingHeardBefore(front, id);
    } else {
      assert id in After(front);
      if After(front)[id].Abandoned() {
        AbandonedIsWatched(front, id);
      }
    }
  }

  /** Somebody joined the job since it began. */
  predicate Heard(ops: seq<Op>, id: string) {
    ops != [] &&
    (var front, last := ops[..|ops| - 1], ops[|ops| - 1];
     Heard(front, id) || (last == Join(id) && id in After(front)))
  }

  lemma {:induction false} NothingHeardBefore(ops: seq<Op>, id: string)
    requires Possible(ops) && !Begun(ops, id)
    ensures !Heard(ops, id)
  {
    if ops != [] {
      BegunSnoc(ops, id);
      NotEndedBeforeBegin(ops[..|ops| - 1], id);
      NothingHeardBefore(ops[..|ops| - 1], id);
    }
  }

  /** A pass nobody ever listened to is never given up, however long it runs: only
      leaving arms the timer. */
  lemma NeverHeardNeverGivenUp(ops: seq<Op>, id: string)
    requires Possible(ops) && id in After(ops) && !Heard(ops, id)
    requires EndOf(ops, id).None? && Stop(id) !in ops
    ensures !After(ops)[id].cancelled
  {
    if After(ops)[id].cancelled {
      var i, _, _ := GivenUpOnlyAfterAGrace(ops, id);
      NobodyHere(ops, id, i);
    }
  }

  lemma {:induction false} NobodyHere(ops: seq<Op>, id: string, n: nat)
    requires Possible(ops) && !Heard(ops, id) && n <= |ops|
    ensures id in After(ops[..n]) ==> After(ops[..n])[id].subscribers == 0
  {
    if ops != [] {
      var front := ops[..|ops| - 1];
      if n < |ops| {
        assert ops[..n] == front[..n];
        NobodyHere(front, id, n);
      } else {
        assert ops[..n] == ops && front[..|front|] == front;
        NobodyHere(front, id, |front|);
      }
    }
  }

  // ------------------------------------------------- when the grace is granted

  /** No earlier timer's check is waiting, nor a cancellation one decided on. */
  predicate Unwatched(s: Session) {
    s.due == 0 && s.doomed == 0
  }

  /** Nobody is there, and the timer armed at step `i` is still armed with no check
      waiting, or has fired a whole grace later. */
  ghost predicate Waiting(ops: seq<Op>, id: string, i: nat) {
    && i < |ops| && ops[i].Leave? && id in After(ops) && After(ops)[id].subscribers == 0
    && (GraceSince(ops, id, i)
        || (After(ops)[id].idle == Some(ops[i].at + SUBSCRIBER_GRACE) && Unwatched(After(ops)[id])))
  }

  /** After a leaving with no check waiting the timer it armed is the only way to be
      given up. */
  lemma {:induction false} TimerOrGrace(ops: seq<Op>, id: string, i: nat)
    requires Possible(ops) && LeftAt(ops, id, i) && NobodyJoins(ops, id, i, |ops|)
    requires Unwatched(After(ops[..i])[id])
    requires id in After(ops) && After(ops)[id].status == Running
    ensures Waiting(ops, id, i)
  {
    var front, last := ops[..|ops| - 1], ops[|ops| - 1];
    assert ops == front + [last];
    if i < |front| {
      StillThere(front, last, id, i);
      assert ops[..i] == front[..i];
      FrontIsQuiet(front, last, id, i);
      TimerOrGrace(front, id, i);
      StillWaiting(front, last, id, i);
    } else {
      assert ops[..i] == front;
    }
  }

  lemma {:induction false} StillWaiting(ops: seq<Op>, op: Op, id: string, i: nat)
    requires Waiting(ops, id, i) && LeftAt(ops, id, i) && NobodyJoins(ops, id, i, |ops|)
    requires op != Join(id) && !(op.Begin? && op.id == id) && Enabled(After(ops), op)
    requires After(ops + [op]) == Apply(After(ops), op)
    requires id in After(ops + [op]) && After(ops + [op])[id].status == Running
    ensures Waiting(ops + [op], id, i)
  {
    QuietStep(After(ops), op, id);
    if GraceSince(ops, id, i) {
      StillSince(ops, op, id, i);
    } else if op.Fire? && op.id == id {
      SinceTheFiring(ops, op, id, i);
    }
  }

  lemma FrontIsQuiet(front: seq<Op>, last: Op, id: string, i: nat)
    requires i < |front| && NobodyJoins(front + [last], id, i, |front| + 1)
    ensures NobodyJoins(front, id, i, |front|) && last != Join(id)
  {
    assert (front + [last])[|front|] == last;
    assert forall k :: 0 <= k < |front| ==> (front + [last])[k] == front[k];
  }

  lemma StillSince(ops: seq<Op>, op: Op, id: string, i: nat)
    requires GraceSince(ops, id, i)
    ensures GraceSince(ops + [op], id, i)
  {
    var j :| GraceElapsed(ops, id, i, j);
    StillElapsed(ops, op, id, i, j);
  }

  lemma SinceTheFiring(ops: seq<Op>, op: Op, id: string, i: nat)
    requires LeftAt(ops, id, i) && NobodyJoins(ops, id, i, |ops|)
    requires op.Fire? && op.id == id && op.at >= ops[i].at + SUBSCRIBER_GRACE
    ensures GraceSince(ops + [op], id, i)
  {
    assert (ops + [op])[..i] == ops[..i];
    assert GraceElapsed(ops + [op], id, i, |ops|);
  }

  /** Nobody being there, a step that is no joining leaves the timer alone or fires it. */
  lemma QuietStep(sessions: Sessions, op: Op, id: string)
    requires id in sessions && op != Join(id) && !(op.Begin? && op.id == id) && Enabled(sessions, op)
    requires sessions[id].subscribers == 0 && id in Apply(sessions, op) && Apply(sessions, op)[id].status == Running
    ensures Apply(sessions, op)[id].subscribers == 0
    ensures op.Fire? && op.id == id ==> sessions[id].idle.Some? && op.at >= sessions[id].idle.value
    ensures !(op.Fire? && op.id == id) ==> Apply(sessions, op)[id].idle == sessions[id].idle
    ensures !(op.Fire? && op.id == id) && Unwatched(sessions[id]) ==> Unwatched(Apply(sessions, op)[id])
  {
  }

  /** A job that is running after a step past its beginning was running before it. */
  lemma {:induction false} StillThere(front: seq<Op>, last: Op, id: string, i: nat)
    requires Possible(front + [last]) && LeftAt(front + [last], id, i) && i < |front|
    requires id in After(front + [last]) && After(front + [last])[id].status == Running
    ensures Possible(front) && LeftAt(front, id, i) && id in After(front) && After(front)[id].status == Running
    ensures After(front + [last]) == Apply(After(front), last) && Enabled(After(front), last)
    ensures !(last.Begin? && last.id == id)
  {
    var ops := front + [last];
    assert ops[..|front|] == front && ops[..i] == front[..i];
    BegunByThen(front, id, i);
  }

  lemma {:induction false} BegunByThen(ops: seq<Op>, id: string, i: nat)
    requires Possible(ops) && i <= |ops| && id in After(ops[..i])
    ensures Begun(ops, id)
  {
    if i < |ops| {
      var front := ops[..|ops| - 1];
      assert front[..i] == ops[..i];
      BegunByThen(front, id, i);
      BegunSnoc(ops, id);
    } else {
      assert ops[..i] == ops;
      JobsAreSound(ops, id);
    }
  }

  /** `more` goes on from a leaving, with nobody joining, to giving the running pass up. */
  ghost predicate GoesOnToGiveUp(ops: seq<Op>, more: seq<Op>, id: string) {
    && more != [] && more[|more| - 1] == GiveUp(id)
    && Possible(ops + more) && NobodyJoins(ops + more, id, |ops| - 1, |ops + more|)
    && var before := After(ops + more[..|more| - 1]); id in before && before[id].status == Running
  }

  /** The grace is granted after a leaving exactly when no earlier timer's check was
      waiting and no earlier check was about to cancel: then no run gives the pass up
      before a whole grace has passed without a subscriber, and otherwise it may be
      given up at once. */
  lemma {:induction false} GraceIsGrantedExactly(ops: seq<Op>, id: string)
    requires Possible(ops) && ops != [] && LeftAt(ops, id, |ops| - 1)
    ensures Unwatched(After(ops[..|ops| - 1])[id]) <==>
            forall more :: GoesOnToGiveUp(ops, more, id) ==> GraceSince(ops + more, id, |ops| - 1)
  {
    if Unwatched(After(ops[..|ops| - 1])[id]) {
      forall more | GoesOnToGiveUp(ops, more, id) ensures GraceSince(ops + more, id, |ops| - 1) {
        GraceBeforeTheEnd(ops, more, id);
      }
    } else {
      var more := GivenUpAtOnce(ops, id);
    }
  }

  lemma {:induction false} GraceBeforeTheEnd(ops: seq<Op>, more: seq<Op>, id: string)
    requires ops != [] && LeftAt(ops, id, |ops| - 1) && Unwatched(After(ops[..|ops| - 1])[id])
    requires GoesOnToGiveUp(ops, more, id)
    ensures GraceSince(ops + more, id, |ops| - 1)
  {
    var i, last := |ops| - 1, GiveUp(id);
    var front := ops + more[..|more| - 1];
    assert ops + more == front + [last] && (ops + more)[..|front|] == front;
    assert front[..i] == ops[..i] && front[i] == ops[i];
    FrontIsQuiet(front, last, id, i);
    TimerOrGrace(front, id, i);
    StillSince(front, last, id, i);
  }

  lemma {:induction false} GivenUpAtOnce(ops: seq<Op>, id: string) returns (more: seq<Op>)
    requires Possible(ops) && ops != [] && LeftAt(ops, id, |ops| - 1) && !Unwatched(After(ops[..|ops| - 1])[id])
    ensures GoesOnToGiveUp(ops, more, id) && !GraceSince(ops + more, id, |ops| - 1)
  {
    LeavesNobody(ops, id);
    if After(ops)[id].doomed > 0 {
      more := [GiveUp(id)];
      assert ops + more[..0] == ops;
      GoesOn(ops, GiveUp(id));
    } else {
      more := [Check(id), GiveUp(id)];
      GoesOn(ops, Check(id));
      GoesOn(ops + [Check(id)], GiveUp(id));
      assert ops + more == ops + [Check(id)] + [GiveUp(id)] && more[..1] == [Check(id)];
    }
  }

  lemma {:induction false} LeavesNobody(ops: seq<Op>, id: string)
    requires Possible(ops) && ops != [] && LeftAt(ops, id, |ops| - 1)
    ensures id in After(ops) && After(ops)[id].Abandoned()
    ensures After(ops)[id].due == After(ops[..|ops| - 1])[id].due && After(ops)[id].doomed == After(ops[..|ops| - 1])[id].doomed
  {
  }

  lemma GoesOn(ops: seq<Op>, op: Op)
    requires Possible(ops) && Enabled(After(ops), op) && (op.Check? || op.GiveUp?)
    ensures Possible(ops + [op]) && After(ops + [op]) == Apply(After(ops), op)
  {
    assert (ops + [op])[..|ops|] == ops;
  }

  /** Such a check can be waiting: a timer that has fired is not called back by a
      subscriber who comes and goes before its check, and the pass is given up in the
      moment of that second leaving. */
  lemma StaleTimerCutsTheGrace(id: string, query: string) returns (ops: seq<Op>)
    ensures Possible(ops) && id in After(ops) && After(ops)[id].cancelled && Stop(id) !in ops && EndOf(ops, id).None?
    ensures |ops| > 3 && ops[|ops| - 3].Leave? && ops[|ops| - 3].id == id
    ensures ops[|ops| - 2] == Check(id) && ops[|ops| - 1] == GiveUp(id)
  {
    var left, s := LeftAgain(id, query);
    var checked, s1 := Longer(left, 5, id, s, Check(id), 5);
    var end, s2 := Longer(checked, 5, id, s1, GiveUp(id), 5);
    ops := end;
  }

  lemma LeftAgain(id: string, query: string) returns (ops: seq<Op>, s: Session)
    ensures Possible(ops) && After(ops) == map[id := s] && NotAfter(ops, 5) && Stop(id) !in ops && EndOf(ops, id).None?
    ensures s.Abandoned() && s.due == 1 && ops != [] && ops[|ops| - 1].Leave? && ops[|ops| - 1].id == id
  {
    var run, s0 := FiredTimer(id, query);
    var again, s1 := Longer(run, 5, id, s0, Join(id), 5);
    ops, s := Longer(again, 5, id, s1, Leave(id, 5), 5);
  }

  lemma FiredTimer(id: string, query: string) returns (ops: seq<Op>, s: Session)
    ensures Possible(ops) && After(ops) == map[id := s] && NotAfter(ops, 5)
    ensures s == Fresh(query, 0).(due := 1) && Stop(id) !in ops && EndOf(ops, id).None?
  {
    var none: seq<Op> := [];
    var begun := [Begin(id, query, 0)];
    assert begun[..0] == none && Possible(none) && !Begun(none, id) && NotAfter(none, 0) && NotAfter(begun, 0);
    var joined, s1 := Longer(begun, 0, id, Fresh(query, 0), Join(id), 0);
    var left, s2 := Longer(joined, 0, id, s1, Leave(id, 0), 0);
    ops, s := Longer(left, 0, id, s2, Fire(id, 5), 5);
  }

  /** What a step does to the job it names. */
  function Next(s: Session, op: Op): Session {
    if op.Join? then s.Attach()
    else if op.Leave? then s.Detach(op.at)
    else if op.Fire? then s.(idle := None, due := s.due + 1)
    else if op.Check? then s.Check()
    else s.GiveUp()
  }

  /** One more step of a run whose only job is `id`. */
  lemma Longer(ops: seq<Op>, now: int, id: string, s: Session, op: Op, at: int) returns (more: seq<Op>, t: Session)
    requires Possible(ops) && After(ops) == map[id := s] && NotAfter(ops, now) && now <= at
    requires Enabled(map[id := s], op) && (op.Join? || op.Leave? || op.Fire? || op.Check? || op.GiveUp?) && op.id == id
    requires Timed(op) ==> op.at == at
    ensures more == ops + [op] && Possible(more) && NotAfter(more, at)
    ensures After(more) == map[id := t] && t == Next(s, op)
    ensures EndOf(more, id) == EndOf(ops, id)
  {
    more := ops + [op];
    assert more[..|ops|] == ops;
    t := Next(s, op);
    assert map[id := s][id := t] == map[id := t];
  }
}
