/** The in-memory ring of the newest log records. The array holds them by
    sequence number modulo its length; the ghost `log` is every record ever
    appended, and every claim about a stream is a claim about that log. */
module LogRing {

  const CAPACITY: nat := 5000
  const LIVE_BUFFER: nat := 256
  const REPLAY_LAST: nat := 500

  /** `number` is the record's Seq: its position in the log, from 1. */
  datatype Record = Record(number: nat, level: int, text: string)

  function Max(a: int, b: int): int { if a < b then b else a }
  function Min(a: int, b: int): int { if a < b then a else b }

  /** The records logged at `level` or above, oldest first. */
  function AtLevel(log: seq<Record>, level: int): seq<Record> {
    if log == [] then []
    else
      var last := log[|log| - 1];
      AtLevel(log[..|log| - 1], level) + (if last.level < level then [] else [last])
  }

  /** `idx` lists the positions of the records of that level or above, in order, and
      `picked` is what is there. */
  ghost predicate Picks(idx: seq<nat>, log: seq<Record>, level: int, picked: seq<Record>) {
    && |idx| == |picked| && (forall j, k :: 0 <= j < k < |idx| ==> idx[j] < idx[k])
    && (forall k :: 0 <= k < |idx| ==> idx[k] < |log| && picked[k] == log[idx[k]])
    && (forall i: nat :: i in idx <==> i < |log| && log[i].level >= level)
  }

  /** Nothing but the records of that level or above, all of them, in their order. */
  lemma {:induction false} AtLevelMeans(log: seq<Record>, level: int) returns (idx: seq<nat>)
    ensures Picks(idx, log, level, AtLevel(log, level))
  {
    idx := [];
    if log != [] {
      var front, last := log[..|log| - 1], log[|log| - 1];
      var before := AtLevelMeans(front, level);
      assert log == front + [last];
      PicksNext(before, front, level, AtLevel(front, level), last);
      idx := if last.level < level then before else before + [|front|];
      assert AtLevel(front, level) + [] == AtLevel(front, level);
    }
  }

  lemma PicksNext(idx: seq<nat>, log: seq<Record>, level: int, picked: seq<Record>, last: Record)
    requires Picks(idx, log, level, picked)
    ensures if last.level < level then Picks(idx, log + [last], level, picked)
            else Picks(idx + [|log|], log + [last], level, picked + [last])
  {
    forall k | 0 <= k < |idx| ensures idx[k] < |log| {
      assert idx[k] in idx;
    }
  }

  /** How far back a replay goes: 500 records for a first session or one that is ahead
      of the log, and 5000 for one that resumes. */
  lemma ReplayStartIs(n: nat, since: nat)
    ensures since == 0 || since > n ==> ReplayStart(n, since) == n - Min(n, 500)
    ensures 0 < since <= n ==> ReplayStart(n, since) == Max(since, n - 5000)
  {
  }

  ghost predicate Numbered(log: seq<Record>) {
    forall i :: 0 <= i < |log| ==> log[i].number == i + 1
  }

  /** How many records a stream opened on a log of `n` records skips: what the
      caller already has, and what the replay limit leaves out. */
  function ReplayStart(n: nat, since: nat): (start: nat)
    ensures start <= n
  {
    var from := if since > n then 0 else since;
    var limit := if from == 0 then REPLAY_LAST else CAPACITY;
    Max(from, n - Min(n, limit))
  }

  lemma AtLevelSnoc(log: seq<Record>, rec: Record, start: nat, level: int)
    requires start <= |log|
    ensures AtLevel((log + [rec])[start..], level)
         == AtLevel(log[start..], level) + (if rec.level < level then [] else [rec])
  {
    var s := (log + [rec])[start..];
    assert s[..|s| - 1] == log[start..];
  }

  lemma {:induction false} AtLevelSplit(a: seq<Record>, b: seq<Record>, level: int)
    ensures AtLevel(a + b, level) == AtLevel(a, level) + AtLevel(b, level)
  {
    if b == [] {
      assert a + b == a;
    } else {
      AtLevelSplit(a, b[..|b| - 1], level);
      assert (a + b)[..|a + b| - 1] == a + b[..|b| - 1];
    }
  }

  // ------------------------------------------------------------ subscribers

  /** A stream's live channel. The ghost fields record the stream it serves:
      where its replay started, what the replay held, what the reader has taken
      from the channel, and how much of the log the stream stands for. */
  class Subscriber {
    const level: int
    var records: seq<Record>  // buffered in the channel
    var closed: bool
    ghost const start: nat
    ghost const replay: seq<Record>
    ghost var taken: seq<Record>
    ghost var end: nat
    ghost var overflowed: bool

    constructor (level: int, ghost start: nat, ghost replay: seq<Record>, ghost end: nat)
      ensures this.level == level && this.start == start && this.replay == replay && this.end == end
      ensures records == [] && taken == [] && !closed && !overflowed
    {
      this.level := level;
      records, closed := [], false;
      this.start, this.replay, this.end := start, replay, end;
      taken, overflowed := [], false;
    }

    /** Everything the stream has handed over or still holds for its reader. */
    ghost function Delivered(): seq<Record>
      reads this
    {
      replay + taken + records
    }

    /** The stream stands for exactly log[start..end]; while its channel is open
        that is everything since its start, and a stream that was dropped stops
        just before the record that did not fit. */
    ghost predicate Faithful(log: seq<Record>)
      reads this
    {
      && start <= end <= |log|
      && Delivered() == AtLevel(log[start..end], level)
      && |records| <= LIVE_BUFFER
      && (!closed ==> end == |log| && !overflowed)
      && (overflowed ==> end < |log| && log[end].level >= level)
    }

    predicate Wants(rec: Record) {
      rec.level >= level
    }

    ghost predicate HasRoomFor(rec: Record)
      reads this
    {
      Wants(rec) ==> |records| < LIVE_BUFFER
    }

    /** A send on the channel that gives up when its buffer is full. Sending on
        a closed channel would panic. */
    method Offer(rec: Record) returns (sent: bool)
      requires !closed
      modifies this`records
      ensures sent <==> old(|records|) < LIVE_BUFFER
      ensures records == if sent then old(records) + [rec] else old(records)
    {
      sent := |records| < LIVE_BUFFER;
      if sent {
        records := records + [rec];
      }
    }

    /** Closing a channel twice would panic. */
    method CloseRecords()
      requires !closed
      modifies this`closed
      ensures closed
    {
      closed := true;
    }
  }

  lemma AtLevelNext(log: seq<Record>, start: nat, k: nat, level: int)
    requires start < k <= |log|
    ensures AtLevel(log[start..k], level) ==
            AtLevel(log[start..k - 1], level) + (if log[k - 1].level < level then [] else [log[k - 1]])
  {
    AtLevelSnoc(log[..k - 1], log[k - 1], start, level);
    assert log[..k - 1] + [log[k - 1]] == log[..k];
    assert log[..k - 1][start..] == log[start..k - 1] && log[..k][start..] == log[start..k];
  }

  lemma WholeSuffix(log: seq<Record>, start: nat)
    requires start <= |log|
    ensures log[start..|log|] == log[start..]
  {
  }

  datatype OpenStream = OpenStream(subscriber: Subscriber, replay: seq<Record>, newest: nat, reset: bool)

  // --------------------------------------------------------------- the ring

  class RingBuffer {
    const records: array<Record>
    var newest: nat
    var subscribers: set<Subscriber>
    ghost var log: seq<Record>
    ghost var streams: set<Subscriber>  // of every stream ever opened

    /** The array holds the newest records of the log at their positions. */
    ghost predicate Refines()
      reads this, records
    {
      && records.Length == CAPACITY
      && newest == |log| && Numbered(log)
      && (forall k :: Max(1, newest - CAPACITY + 1) <= k <= newest ==> records[k % CAPACITY] == log[k - 1])
    }

    ghost predicate Valid()
      reads this, records, streams
    {
      Refines() && AllFaithful()
    }

    ghost predicate AllFaithful()
      reads this, streams
    {
      && subscribers <= streams
      && (forall s :: s in streams ==> s.Faithful(log) && (s in subscribers <==> !s.closed))
    }

    constructor ()
      ensures Valid() && log == [] && streams == {}
    {
      records := new Record[CAPACITY](_ => Record(0, 0, ""));
      newest, subscribers, log, streams := 0, {}, [], {};
    }

    method Stream(since: nat, level: int) returns (stream: OpenStream)
      requires Valid()
      modifies this
      ensures Valid() && log == old(log)
      ensures fresh(stream.subscriber) && streams == old(streams) + {stream.subscriber}
      ensures subscribers == old(subscribers) + {stream.subscriber}
      ensures stream.subscriber.level == level && stream.subscriber.start == ReplayStart(|log|, since)
      ensures stream.replay == stream.subscriber.replay == AtLevel(log[ReplayStart(|log|, since)..], level)
      // a first session, or one ahead of a log that began anew, gets the last 500 records;
      // any other gets those after `since` as far as the last 5000 go
      ensures since == 0 || since > |log| ==> stream.replay == AtLevel(log[|log| - Min(|log|, 500)..], level)
      ensures 0 < since <= |log| ==> stream.replay == AtLevel(log[Max(since, |log| - 5000)..], level)
      ensures stream.newest == |log| && stream.reset == (since > |log|)
      ensures stream.subscriber.records == [] && stream.subscriber.taken == []
    {
      var reset := since > newest;
      var from := if reset then 0 else since;
      var replay := Replay(from, level);
      var sub := new Subscriber(level, ReplayStart(|log|, since), replay, |log|);
      subscribers := subscribers + {sub};
      streams := streams + {sub};
      stream := OpenStream(sub, replay, newest, reset);
      assert log[..|log|] == log;
      ReplayStartIs(|log|, since);
    }

    method Replay(since: nat, level: int) returns (replay: seq<Record>)
      requires Refines() && since <= newest
      ensures replay == AtLevel(log[ReplayStart(|log|, since)..], level)
    {
      var limit := if since == 0 then REPLAY_LAST else CAPACITY;
      replay := [];
      ghost var start := ReplayStart(|log|, since);
      var k := Max(since + 1, newest - Min(newest, limit) + 1);
      while k <= newest
        invariant start + 1 <= k <= newest + 1
        invariant replay == AtLevel(log[start..k - 1], level)
      {
        replay := AppendAtLevel(replay, k, level);
        AtLevelNext(log, start, k, level);
        k := k + 1;
      }
      WholeSuffix(log, start);
    }

    method AppendAtLevel(replay: seq<Record>, k: nat, level: int) returns (longer: seq<Record>)
      requires Refines() && Max(1, newest - CAPACITY + 1) <= k <= newest
      ensures longer == replay + (if log[k - 1].level < level then [] else [log[k - 1]])
    {
      var rec := Read(k);
      longer := if rec.level < level then replay else replay + [rec];
    }

    /** The slot of position `k` holds its record while the ring has not forgotten it. */
    method Read(k: nat) returns (rec: Record)
      requires Refines() && Max(1, newest - CAPACITY + 1) <= k <= newest
      ensures rec == log[k - 1]
    {
      rec := records[k % CAPACITY];
    }

    /** Stores the record and hands it to every open stream that wants it. */
    method Append(rec: Record)
      requires Valid()
      modifies this, records, subscribers
      ensures Valid() && streams == old(streams) && subscribers <= old(subscribers)
      ensures log == old(log) + [rec.(number := |old(log)| + 1)]
      ensures subscribers == old(set s | s in subscribers && s.HasRoomFor(rec))
    {
      var numbered := rec.(number := newest + 1);
      ghost var kept := set s | s in subscribers && s.HasRoomFor(rec);
      Store(numbered);
      DeliverAll(numbered, old(log), kept);
    }

    /** The record has reached every stream but those of `todo`; `kept` are those that
        stay open. */
    ghost predicate Delivering(todo: set<Subscriber>, rec: Record, before: seq<Record>, kept: set<Subscriber>)
      reads this, streams
    {
      && log == before + [rec] && todo <= subscribers <= streams
      && (forall s :: s in streams ==> (s in subscribers <==> s in todo || s in kept)) && kept <= streams
      && (forall s :: s in todo ==> s.Faithful(before) && !s.closed && (s in kept <==> s.HasRoomFor(rec)))
      && (forall s :: s in streams && s !in todo ==> s.Faithful(log) && (s in kept <==> !s.closed))
    }

    method DeliverAll(rec: Record, ghost before: seq<Record>, ghost kept: set<Subscriber>)
      requires Delivering(subscribers, rec, before, kept)
      modifies this`subscribers, subscribers
      ensures AllFaithful() && subscribers == kept
    {
      var todo := subscribers;
      while todo != {}
        modifies this`subscribers, old(subscribers)
        invariant todo <= old(subscribers) && Delivering(todo, rec, before, kept)
      {
        todo := DeliverNext(todo, rec, before, kept);
      }
    }

    method DeliverNext(todo: set<Subscriber>, rec: Record, ghost before: seq<Record>, ghost kept: set<Subscriber>)
        returns (rest: set<Subscriber>)
      requires todo != {} && Delivering(todo, rec, before, kept)
      modifies this`subscribers, todo
      ensures rest < todo && Delivering(rest, rec, before, kept)
    {
      var sub :| sub in todo;
      rest := todo - {sub};
      var dropped := Deliver(sub, rec, before);
    }

    method Store(rec: Record)
      requires Refines() && rec.number == newest + 1
      modifies this`newest, this`log, records
      ensures Refines() && log == old(log) + [rec]
      ensures forall s: Subscriber :: s in streams && old(s.Faithful(log)) && s.closed ==> s.Faithful(log)
    {
      newest := newest + 1;
      records[rec.number % CAPACITY] := rec;
      log := log + [rec];
      forall s: Subscriber | s in streams && old(s.Faithful(log)) && s.closed ensures s.Faithful(log) {
        assert log[s.start..s.end] == old(log)[s.start..s.end];
      }
    }

    method Deliver(sub: Subscriber, rec: Record, ghost before: seq<Record>) returns (ghost dropped: bool)
      requires sub in subscribers && !sub.closed
      requires log == before + [rec] && sub.Faithful(before)
      modifies this`subscribers, sub
      ensures dropped <==> !old(sub.HasRoomFor(rec))
      ensures sub.Faithful(log) && sub.closed == dropped
      ensures subscribers == if dropped then old(subscribers) - {sub} else old(subscribers)
    {
      AtLevelSnoc(before, rec, sub.start, sub.level);
      assert log[sub.start..|log|] == log[sub.start..] && before[sub.start..|before|] == before[sub.start..];
      dropped := false;
      if !sub.Wants(rec) {
        sub.end := |log|;
        return;
      }
      var sent := sub.Offer(rec);
      if sent {
        sub.end := |log|;
      } else {
        assert log[sub.start..sub.end] == before[sub.start..sub.end];
        sub.overflowed := true;
        Remove(sub);
        dropped := true;
      }
    }

    method Unsubscribe(sub: Subscriber)
      requires Valid() && sub in streams
      modifies this`subscribers, sub`closed
      ensures Valid() && sub.closed && subscribers == old(subscribers) - {sub}
    {
      Remove(sub);
    }

    method Remove(sub: Subscriber)
      requires sub in subscribers ==> !sub.closed
      modifies this`subscribers, sub`closed
      ensures subscribers == old(subscribers) - {sub}
      ensures sub.closed <==> old(sub.closed) || sub in old(subscribers)
    {
      if sub !in subscribers {
        return;
      }
      subscribers := subscribers - {sub};
      sub.CloseRecords();
    }

    /** A reader that was dropped, or left, comes back with the number of the last
        record it received. Unless more than 5000 records were logged since, what
        it had and the new replay together are the whole log from its start. */
    method Reconnect(sub: Subscriber, since: nat) returns (stream: OpenStream)
      requires Valid() && sub in streams
      requires var got := sub.replay + sub.taken; got != [] && since == got[|got| - 1].number
      modifies this
      ensures Valid() && log == old(log) && stream.subscriber in subscribers && !stream.reset
      ensures |log| - since <= CAPACITY ==>
        sub.replay + sub.taken + stream.replay == AtLevel(log[sub.start..], sub.level)
    {
      assert sub.Faithful(log);
      ghost var got := sub.replay + sub.taken;
      assert got <= sub.Delivered();
      LastNumberIsTheCut(log, sub.start, sub.end, sub.level, got);
      ResumeIsLossless(log, sub.start, since, sub.level);
      stream := Stream(since, sub.level);
    }

    /** The reader takes the next record from a stream's channel. */
    method Receive(sub: Subscriber) returns (rec: Record)
      requires Valid() && sub in streams && sub.records != []
      modifies sub
      ensures Valid() && rec == old(sub.records)[0]
      ensures sub.taken == old(sub.taken) + [rec] && sub.records == old(sub.records)[1..]
    {
      rec := sub.records[0];
      sub.records := sub.records[1..];
      sub.taken := sub.taken + [rec];
    }
  }

  // --------------------------------------------------------------- resuming

  /** What a client has received of a stream is a prefix of what the stream
      stands for; the number of its last record says exactly how far it got. */
  lemma {:induction false} LastNumberIsTheCut(
    log: seq<Record>, start: nat, end: nat, level: int, got: seq<Record>)
    requires Numbered(log) && start <= end <= |log|
    requires got != [] && got <= AtLevel(log[start..end], level)
    ensures var cut := got[|got| - 1].number;
            start < cut <= end && got == AtLevel(log[start..cut], level)
  {
    var all := log[start..end];
    if start < end {
      assert all[..|all| - 1] == log[start..end - 1];
      var shorter := AtLevel(log[start..end - 1], level);
      if |got| <= |shorter| {
        assert got <= shorter;
        LastNumberIsTheCut(log, start, end - 1, level, got);
      } else {
        assert got == AtLevel(all, level);
        assert got[|got| - 1] == log[end - 1];
      }
    }
  }

  /** A client that has the log from `start` up to record `last` reconnects with
      since = last, on a log that has grown meanwhile. Both sessions together are
      the log from `start`, free of gaps and repeats, exactly when the ring has
      forgotten no record the client wants; a gap of at most 5000 is enough. */
  lemma ResumeIsLossless(log: seq<Record>, start: nat, last: nat, level: int)
    requires start <= last <= |log| && last != 0
    ensures var from := ReplayStart(|log|, last);
            var sessions := AtLevel(log[start..last], level) + AtLevel(log[from..], level);
            && last <= from
            && (sessions == AtLevel(log[start..], level) <==> AtLevel(log[last..from], level) == [])
            && (|log| - last <= CAPACITY ==> from == last)
  {
    var from := ReplayStart(|log|, last);
    AtLevelSplit3(log[start..last], log[last..from], log[from..], level);
    assert log[start..last] + log[last..from] + log[from..] == log[start..];
  }

  lemma AtLevelSplit3(had: seq<Record>, lost: seq<Record>, again: seq<Record>, level: int)
    ensures AtLevel(had, level) + AtLevel(again, level) == AtLevel(had + lost + again, level) <==> AtLevel(lost, level) == []
  {
    AtLevelSplit(had, lost, level);
    AtLevelSplit(had + lost, again, level);
    assert |AtLevel(had + lost + again, level)|
        == |AtLevel(had, level)| + |AtLevel(lost, level)| + |AtLevel(again, level)|;
    if AtLevel(lost, level) == [] {
      assert AtLevel(had, level) + [] == AtLevel(had, level);
    }
  }
}
