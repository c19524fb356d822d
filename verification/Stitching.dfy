/** How a discovery job's results reach one WebSocket subscriber: the job numbers
    items under a lock and pushes them after releasing it, while the subscriber
    registers, is sent a replay, and is then released to the live feed.

    `FilteredClient` is the object the broadcaster changes; its methods are
    proved to be the functions of `Client` values that the transition system
    below runs on. The transition system interleaves the goroutines freely. */
module Stitching {
  import opened Wrappers

  const SEND_BUFFER: nat := 64

  type Data = string

  /** `number` is the item's Seq. */
  datatype Item = Item(job: string, number: nat, result: string)

  datatype Frame = Frame(number: nat, data: Data)

  /** One subscription: the job it names, its platform filter, and the encoder. */
  datatype Subscription = Subscription(job: string, filter: string -> bool, serialize: string -> Option<Data>)
  {
    predicate Predicate(item: Item) {
      item.job == job && filter(item.result)
    }

    /** The frames an item becomes for this subscriber: one, or none. */
    function Encode(item: Item): (frames: seq<Data>)
      ensures |frames| <= 1
    {
      if Predicate(item) && serialize(item.result).Some? then [serialize(item.result).value] else []
    }
  }

  // ------------------------------------------------------------- the client

  /** `dropped` is history: the frames that did not fit the send buffer. */
  datatype Client = Client(
    send: seq<Data>, holding: bool, floor: nat, pending: seq<Frame>, kickAsked: bool, dropped: seq<Data>)
  {
    function Enqueue(data: Data): (r: Client)
      ensures r.holding == holding && r.floor == floor && r.pending == pending
    {
      if |send| < SEND_BUFFER then this.(send := send + [data])
      else this.(kickAsked := true, dropped := dropped + [data])
    }

    function Deliver(f: Frame): Client {
      if f.number != 0 && f.number <= floor then this
      else if holding then this.(pending := pending + [f])
      else Enqueue(f.data)
    }

    function EnqueueAbove(frames: seq<Frame>, floor: nat): (r: Client)
      ensures r.holding == holding && r.floor == this.floor && r.pending == pending
      decreases |frames|
    {
      if frames == [] then this
      else
        var last := frames[|frames| - 1];
        var before := EnqueueAbove(frames[..|frames| - 1], floor);
        if last.number == 0 || last.number > floor then before.Enqueue(last.data) else before
    }

    function Release(floor: nat): Client {
      this.(floor := floor, holding := false).EnqueueAbove(pending, floor).(pending := [])
    }
  }

  const FRESH := Client([], true, 0, [], false, [])

  /** The floor is for numbered frames: one without a number is held, enqueued, or
      dropped with a kick asked for, whatever the floor, and survives the release. */
  lemma {:induction false} UnnumberedFramesPass(c: Client, data: Data, floor: nat, k: nat)
    requires k < |c.pending|
    ensures var d := c.Deliver(Frame(0, data));
            if c.holding then d.pending == c.pending + [Frame(0, data)]
            else data in d.send || (data in d.dropped && d.kickAsked)
    ensures c.pending[k].number == 0 ==>
            c.pending[k].data in c.Release(floor).send || (c.pending[k].data in c.Release(floor).dropped && c.Release(floor).kickAsked)
  {
    if c.pending[k].number == 0 {
      EnqueuedAbove(c.(floor := floor, holding := false), c.pending, floor, k);
    }
  }

  lemma {:induction false} EnqueuedAbove(c: Client, frames: seq<Frame>, floor: nat, k: nat)
    requires k < |frames| && frames[k].number == 0
    ensures var r := c.EnqueueAbove(frames, floor);
            frames[k].data in r.send || (frames[k].data in r.dropped && r.kickAsked)
  {
    if k < |frames| - 1 {
      EnqueuedAbove(c, frames[..|frames| - 1], floor, k);
    }
  }

  class FilteredClient {
    var send: seq<Data>  // the buffered channel
    var holding: bool
    var floor: nat
    var pending: seq<Frame>
    var kickAsked: bool
    ghost var dropped: seq<Data>

    ghost function Value(): Client
      reads this
    {
      Client(send, holding, floor, pending, kickAsked, dropped)
    }

    constructor ()
      ensures Value() == FRESH
    {
      send, holding, floor, pending, kickAsked, dropped := [], true, 0, [], false, [];
    }

    method Enqueue(data: Data)
      modifies this
      ensures Value() == old(Value()).Enqueue(data)
    {
      if |send| < SEND_BUFFER {
        send := send + [data];
        return;
      }
      dropped := dropped + [data];
      kickAsked := true;
    }

    method Deliver(f: Frame)
      modifies this
      ensures Value() == old(Value()).Deliver(f)
    {
      if f.number != 0 && f.number <= floor {
        return;
      }
      if holding {
        pending := pending + [f];
        return;
      }
      Enqueue(f.data);
    }

    method Release(floor: nat)
      modifies this
      ensures Value() == old(Value()).Release(floor)
    {
      this.floor := floor;
      holding := false;
      ghost var start := Value();
      var i := 0;
      while i < |pending|
        invariant i <= |pending| && pending == old(pending)
        invariant Value() == start.EnqueueAbove(pending[..i], floor)
      {
        assert pending[..i + 1][..i] == pending[..i];
        var f := pending[i];
        if f.number == 0 || f.number > floor {
          Enqueue(f.data);
        }
        i := i + 1;
      }
      assert pending[..i] == pending;
      pending := [];
    }
  }

  // ------------------------------------------------- the transition system

  datatype Phase = Absent | Registered | Replaying | Released | Abandoned | Left
  datatype Close = Completed | SlowConsumer | ConnectionLost
  datatype Writer = Running | Flushing | Closed(why: Close)

  /** One job and one subscriber. `pushed` lists the items handed to the
      broadcaster, by position and in the order their pushes ran. `registeredAt`
      is how many of those pushes came before the subscriber registered,
      `missed` says that the job was already forgotten when the replay was
      asked for, and `leftEarly` that the peer hung up on an open stream. */
  datatype World = World(
    items: seq<Item>, pushed: seq<nat>, ended: bool, swept: bool,
    phase: Phase, registeredAt: nat, snapshot: seq<Item>, replayed: nat,
    client: Client, finishAsked: bool, writer: Writer, wire: seq<Data>,
    missed: bool, leftEarly: bool)

  const INITIAL := World([], [], false, false, Absent, 0, [], 0, FRESH, false, Running, [], false, false)

  datatype Step =
    | AppendItem(result: string)
    | PushItem(i: nat)
    | PushForeign(item: Item)
    | EndJob
    | SweepJob
    | Register
    | TakeSnapshot
    | SendReplay
    | AbandonReplay
    | ReleaseHeld
    | AskFinish
    | WritePop
    | WriteFinish
    | WriteFlush
    | WriteCompleted
    | WriteKick
    | WriteFails
    | Leave

  predicate Listening(w: World) {
    w.phase.Registered? || w.phase.Replaying? || w.phase.Released? || w.phase.Abandoned?
  }

  /** The writer's `select` may take any branch that is ready. */
  predicate Enabled(sub: Subscription, w: World, step: Step) {
    match step
    case AppendItem(_) => !w.ended
    case PushItem(i) => i < |w.items| && i !in w.pushed
    case PushForeign(item) => item.job != sub.job
    case EndJob => !w.ended && |w.pushed| == |w.items|
    case SweepJob => w.ended
    case Register => w.phase.Absent?
    case TakeSnapshot => w.phase.Registered?
    case SendReplay =>
      w.phase.Replaying? && w.replayed < |w.snapshot|
      && (sub.Encode(w.snapshot[w.replayed]) == [] || |w.client.send| < SEND_BUFFER)
    case AbandonReplay => w.phase.Replaying? && w.writer.Closed?
    case ReleaseHeld => w.phase.Replaying? && w.replayed == |w.snapshot|
    case AskFinish => (w.phase.Released? || w.phase.Abandoned? || w.phase.Left?) && w.ended
    case WritePop => w.writer.Running? && !w.phase.Absent? && w.client.send != []
    case WriteFinish => w.writer.Running? && w.finishAsked
    case WriteFlush => w.writer.Flushing? && w.client.send != []
    case WriteCompleted => w.writer.Flushing? && w.client.send == []
    case WriteKick => w.writer.Running? && w.client.kickAsked
    case WriteFails => !w.writer.Closed? && !w.phase.Absent?
    case Leave => w.phase.Released? || w.phase.Abandoned?
  }

  function PushTo(sub: Subscription, w: World, item: Item): Client {
    var frames := sub.Encode(item);
    if Listening(w) && frames != [] then w.client.Deliver(Frame(item.number, frames[0])) else w.client
  }

  /** The largest number in a replay, 0 when there is none. */
  function FloorOf(snapshot: seq<Item>): nat {
    if snapshot == [] then 0
    else
      var last := |snapshot| - 1;
      var before := FloorOf(snapshot[..last]);
      if before < snapshot[last].number then snapshot[last].number else before
  }

  function Pop(w: World): World
    requires w.client.send != []
  {
    w.(wire := w.wire + [w.client.send[0]], client := w.client.(send := w.client.send[1..]))
  }

  function Apply(sub: Subscription, w: World, step: Step): World
    requires Enabled(sub, w, step)
  {
    match step
    case AppendItem(result) => w.(items := w.items + [Item(sub.job, |w.items| + 1, result)])
    case PushItem(i) => w.(pushed := w.pushed + [i], client := PushTo(sub, w, w.items[i]))
    case PushForeign(item) => w.(client := PushTo(sub, w, item))
    case EndJob => w.(ended := true)
    case SweepJob => w.(swept := true)
    case Register => w.(phase := Registered, registeredAt := |w.pushed|)
    case TakeSnapshot =>
      w.(phase := Replaying, snapshot := if w.swept then [] else w.items, missed := w.swept)
    case SendReplay =>
      w.(replayed := w.replayed + 1,
         client := w.client.(send := w.client.send + sub.Encode(w.snapshot[w.replayed])))
    case AbandonReplay => w.(phase := Abandoned)
    case ReleaseHeld => w.(phase := Released, client := w.client.Release(FloorOf(w.snapshot)))
    case AskFinish => w.(finishAsked := true)
    case WritePop => Pop(w)
    case WriteFinish => w.(writer := Flushing)
    case WriteFlush => Pop(w)
    case WriteCompleted => w.(writer := Closed(Completed))
    case WriteKick => w.(writer := Closed(SlowConsumer))
    case WriteFails => w.(writer := Closed(ConnectionLost))
    case Leave => w.(phase := Left, leftEarly := !w.writer.Closed?)
  }

  /** Where an interleaving ends, if each of its steps was possible. */
  function Execute(sub: Subscription, steps: seq<Step>): Option<World> {
    if steps == [] then Some(INITIAL)
    else
      var before, last := Execute(sub, steps[..|steps| - 1]), steps[|steps| - 1];
      if before.Some? && Enabled(sub, before.value, last) then Some(Apply(sub, before.value, last)) else None
  }

  predicate Runs(sub: Subscription, steps: seq<Step>, w: World) {
    Execute(sub, steps) == Some(w)
  }

  // ------------------------------------------------------ what was promised

  /** The frames of the items at the given positions, in that order. */
  function FramesAt(sub: Subscription, items: seq<Item>, order: seq<nat>): seq<Data> {
    if order == [] then []
    else FramesAt(sub, items, order[..|order| - 1]) + FrameAt(sub, items, order[|order| - 1])
  }

  function FrameAt(sub: Subscription, items: seq<Item>, i: nat): (frames: seq<Data>)
    ensures |frames| <= 1
  {
    if i < |items| then sub.Encode(items[i]) else []
  }

  predicate Within(order: seq<nat>, n: nat) {
    forall k :: 0 <= k < |order| ==> order[k] < n
  }

  function Range(n: nat): (order: seq<nat>)
    ensures |order| == n && forall k :: 0 <= k < n ==> order[k] == k
  {
    seq(n, k => k)
  }

  /** The positions from `n` on, in the order given. */
  function NotBelow(order: seq<nat>, n: nat): seq<nat> {
    if order == [] then []
    else
      var last := order[|order| - 1];
      NotBelow(order[..|order| - 1], n) + (if last >= n then [last] else [])
  }

  /** The positions the subscriber is owed: its replay, then every later item
      pushed since it registered, in the order of the pushes. */
  function Owed(w: World): seq<nat> {
    Range(|w.snapshot|) + NotBelow(Heard(w), |w.snapshot|)
  }

  /** The pushes that found the subscriber registered. */
  function Heard(w: World): seq<nat> {
    if w.registeredAt <= |w.pushed| then w.pushed[w.registeredAt..] else []
  }

  ghost predicate NoDuplicates(order: seq<nat>) {
    forall j, k :: 0 <= j < k < |order| ==> order[j] != order[k]
  }

  // ---------------------------------------------------------- the invariant

  ghost predicate JobInvariant(sub: Subscription, w: World) {
    && (forall i :: 0 <= i < |w.items| ==> w.items[i].job == sub.job && w.items[i].number == i + 1)
    && Within(w.pushed, |w.items|) && NoDuplicates(w.pushed)
    && (w.ended ==> |w.pushed| == |w.items|)
    && w.registeredAt <= |w.pushed|
    && w.snapshot <= w.items && w.replayed <= |w.snapshot|
    && (w.missed || w.swept ==> w.ended)
    && (w.phase.Absent? || w.phase.Registered? ==> w.snapshot == [] && w.replayed == 0)
    && (!w.missed && !w.phase.Absent? && !w.phase.Registered? ==>
          Within(w.pushed[..w.registeredAt], |w.snapshot|))
  }

  /** What is held back before the release. */
  function HeldAt(sub: Subscription, items: seq<Item>, order: seq<nat>): seq<Frame> {
    if order == [] then []
    else
      var last := order[|order| - 1];
      var frames := FrameAt(sub, items, last);
      HeldAt(sub, items, order[..|order| - 1]) + (if frames == [] then [] else [Frame(last + 1, frames[0])])
  }

  ghost predicate Holding(sub: Subscription, w: World) {
    var c := w.client;
    && c.holding && c.floor == 0 && c.dropped == [] && !c.kickAsked
    && c.pending == HeldAt(sub, w.items, Heard(w))
    && w.wire + c.send == FramesAt(sub, w.items, Range(w.replayed))
  }

  /** `owed` is `kept` and `lost` merged, both in their own order. */
  ghost predicate Merged(kept: seq<Data>, lost: seq<Data>, owed: seq<Data>)
    decreases |owed|
  {
    if owed == [] then kept == [] && lost == []
    else
      var front, last := owed[..|owed| - 1], owed[|owed| - 1];
      || (kept != [] && kept[|kept| - 1] == last && Merged(kept[..|kept| - 1], lost, front))
      || (lost != [] && lost[|lost| - 1] == last && Merged(kept, lost[..|lost| - 1], front))
  }

  /** Nothing owed is lost, repeated or reordered: it was written, waits in the
      buffer, or was dropped, and a drop asks for a kick. */
  ghost predicate Balanced(wire: seq<Data>, c: Client, owed: seq<Data>) {
    && (c.kickAsked <==> c.dropped != [])
    && Merged(wire + c.send, c.dropped, owed)
  }

  ghost predicate Settled(sub: Subscription, w: World) {
    Balanced(w.wire, w.client, FramesAt(sub, w.items, Owed(w)))
  }

  ghost predicate Invariant(sub: Subscription, w: World) {
    && JobInvariant(sub, w)
    && (w.finishAsked ==> w.ended)
    && (w.writer.Flushing? || w.writer == Closed(Completed) ==> w.finishAsked)
    && match w.phase
       case Absent => w.client == FRESH && w.wire == [] && w.writer.Running? && !w.finishAsked
       case Registered => Holding(sub, w) && !w.finishAsked
       case Replaying => Holding(sub, w) && !w.finishAsked
       case Abandoned => w.writer.Closed? && w.writer != Closed(Completed)
       case Released =>
         && !w.client.holding && w.client.pending == [] && w.client.floor == |w.snapshot|
         && Settled(sub, w)
         && (w.writer == Closed(Completed) ==> w.client.send == [])
       case Left =>
         !w.leftEarly ==>
           && w.writer.Closed?
           && (w.writer == Closed(Completed) ==> w.client.send == [] && Settled(sub, w))
  }

  // ----------------------------------------------------- what the steps keep

  lemma {:induction false} FramesAtGrows(sub: Subscription, items: seq<Item>, item: Item, order: seq<nat>)
    requires Within(order, |items|)
    ensures FramesAt(sub, items + [item], order) == FramesAt(sub, items, order)
    ensures HeldAt(sub, items + [item], order) == HeldAt(sub, items, order)
  {
    if order != [] {
      FramesAtGrows(sub, items, item, order[..|order| - 1]);
    }
  }

  lemma {:induction false} FramesAtSplit(sub: Subscription, items: seq<Item>, a: seq<nat>, b: seq<nat>)
    ensures FramesAt(sub, items, a + b) == FramesAt(sub, items, a) + FramesAt(sub, items, b)
  {
    if b == [] {
      assert a + b == a;
    } else {
      var front, last := b[..|b| - 1], b[|b| - 1];
      assert (a + b)[..|a + b| - 1] == a + front;
      FramesAtSplit(sub, items, a, front);
      var x, y, z := FramesAt(sub, items, a), FramesAt(sub, items, front), FrameAt(sub, items, last);
      assert (x + y) + z == x + (y + z);
    }
  }

  lemma {:induction false} NotBelowMembers(order: seq<nat>, n: nat)
    ensures forall i :: i in NotBelow(order, n) <==> i in order && i >= n
  {
    if order != [] {
      var last, front := order[|order| - 1], order[..|order| - 1];
      assert order == front + [last];
      NotBelowMembers(front, n);
    }
  }

  lemma {:induction false} NotBelowSplit(a: seq<nat>, b: seq<nat>, n: nat)
    ensures NotBelow(a + b, n) == NotBelow(a, n) + NotBelow(b, n)
  {
    if b == [] {
      assert a + b == a;
    } else {
      NotBelowSplit(a, b[..|b| - 1], n);
      assert (a + b)[..|a + b| - 1] == a + b[..|b| - 1];
    }
  }

  lemma {:induction false} MergedAll(kept: seq<Data>)
    ensures Merged(kept, [], kept)
  {
    if kept != [] {
      MergedAll(kept[..|kept| - 1]);
    }
  }

  lemma {:induction false} MergedCounts(kept: seq<Data>, lost: seq<Data>, owed: seq<Data>)
    requires Merged(kept, lost, owed)
    ensures |owed| == |kept| + |lost|
    ensures lost == [] ==> kept == owed
    decreases |owed|
  {
    if owed != [] {
      var front, last := owed[..|owed| - 1], owed[|owed| - 1];
      if kept != [] && kept[|kept| - 1] == last && Merged(kept[..|kept| - 1], lost, front) {
        MergedCounts(kept[..|kept| - 1], lost, front);
      } else {
        MergedCounts(kept, lost[..|lost| - 1], front);
      }
    }
  }

  lemma {:induction false} EnqueueBalances(wire: seq<Data>, c: Client, owed: seq<Data>, data: Data)
    requires Balanced(wire, c, owed)
    ensures Balanced(wire, c.Enqueue(data), owed + [data])
  {
    if |c.send| < SEND_BUFFER {
      assert wire + (c.send + [data]) == wire + c.send + [data];
      MergedKept(wire + c.send, c.dropped, owed, data);
    } else {
      MergedLost(wire + c.send, c.dropped, owed, data);
    }
  }

  lemma {:induction false} MergedKept(kept: seq<Data>, lost: seq<Data>, owed: seq<Data>, data: Data)
    requires Merged(kept, lost, owed)
    ensures Merged(kept + [data], lost, owed + [data])
  {
    assert (kept + [data])[..|kept|] == kept && (owed + [data])[..|owed|] == owed;
  }

  lemma {:induction false} MergedLost(kept: seq<Data>, lost: seq<Data>, owed: seq<Data>, data: Data)
    requires Merged(kept, lost, owed)
    ensures Merged(kept, lost + [data], owed + [data])
  {
    assert (lost + [data])[..|lost|] == lost && (owed + [data])[..|owed|] == owed;
  }

  /** Releasing enqueues exactly the held frames the replay did not cover. */
  lemma {:induction false} EnqueueAboveHeld(
    sub: Subscription, items: seq<Item>, order: seq<nat>, n: nat, wire: seq<Data>, c: Client, owed: seq<Data>)
    requires Balanced(wire, c, owed)
    ensures var r := c.EnqueueAbove(HeldAt(sub, items, order), n);
            Balanced(wire, r, owed + FramesAt(sub, items, NotBelow(order, n)))
  {
    if order == [] {
      assert owed + [] == owed;
    } else {
      var last, front := order[|order| - 1], order[..|order| - 1];
      EnqueueAboveHeld(sub, items, front, n, wire, c, owed);
      NotBelowFramesSnoc(sub, items, order, n);
      var held, covered := HeldAt(sub, items, front), FramesAt(sub, items, NotBelow(front, n));
      var frames := FrameAt(sub, items, last);
      EnqueueHeldFrame(wire, c, owed, held, covered, last, frames, n);
      assert HeldAt(sub, items, order) == held + (if frames == [] then [] else [Frame(last + 1, frames[0])]);
      assert owed + FramesAt(sub, items, NotBelow(order, n))
          == owed + (covered + (if last >= n then frames else []));
    }
  }

  lemma NotBelowFramesSnoc(sub: Subscription, items: seq<Item>, order: seq<nat>, n: nat)
    requires order != []
    ensures var last, front := order[|order| - 1], order[..|order| - 1];
            FramesAt(sub, items, NotBelow(order, n))
            == FramesAt(sub, items, NotBelow(front, n)) + (if last >= n then FrameAt(sub, items, last) else [])
  {
    var last, front := order[|order| - 1], order[..|order| - 1];
    FramesAtSnoc(sub, items, NotBelow(front, n), last);
    assert NotBelow(front, n) + [] == NotBelow(front, n);
  }

  lemma EnqueueHeldFrame(
    wire: seq<Data>, c: Client, owed: seq<Data>, held: seq<Frame>, covered: seq<Data>,
    last: nat, frames: seq<Data>, n: nat)
    requires |frames| <= 1 && Balanced(wire, c.EnqueueAbove(held, n), owed + covered)
    ensures var more := held + (if frames == [] then [] else [Frame(last + 1, frames[0])]);
            Balanced(wire, c.EnqueueAbove(more, n), owed + (covered + (if last >= n then frames else [])))
  {
    assert held + [] == held && covered + [] == covered;
    if frames != [] {
      assert frames == [frames[0]] && owed + (covered + frames) == owed + covered + frames;
      EnqueueOneMore(c, held, last, frames[0], n);
      EnqueueBalances(wire, c.EnqueueAbove(held, n), owed + covered, frames[0]);
    }
  }

  lemma EnqueueOneMore(c: Client, held: seq<Frame>, last: nat, data: Data, n: nat)
    ensures c.EnqueueAbove(held + [Frame(last + 1, data)], n)
         == if last >= n then c.EnqueueAbove(held, n).Enqueue(data) else c.EnqueueAbove(held, n)
  {
    var more := held + [Frame(last + 1, data)];
    assert more[..|more| - 1] == held;
  }

  lemma FramesAtSnoc(sub: Subscription, items: seq<Item>, order: seq<nat>, last: nat)
    ensures FramesAt(sub, items, order + [last]) == FramesAt(sub, items, order) + FrameAt(sub, items, last)
  {
    assert (order + [last])[..|order|] == order;
  }

  lemma {:induction false} FloorIsLength(sub: Subscription, w: World, n: nat)
    requires JobInvariant(sub, w) && n <= |w.snapshot|
    ensures FloorOf(w.snapshot[..n]) == n
  {
    if n > 0 {
      assert w.snapshot[..n][..n - 1] == w.snapshot[..n - 1];
      assert w.snapshot[n - 1] == w.items[n - 1];
      FloorIsLength(sub, w, n - 1);
    }
  }

  /** Distinct positions below n, n of them, are all of them. */
  lemma {:induction false} AllBelow(order: seq<nat>, n: nat)
    requires NoDuplicates(order) && Within(order, n) && |order| == n
    ensures forall i :: 0 <= i < n ==> i in order
  {
    var seen, all := Members(order), Members(Range(n));
    DistinctCount(order);
    DistinctCount(Range(n));
    forall i | 0 <= i < n ensures i in order {
      assert Range(n)[i] == i && i in all;
      forall j | j in seen ensures j in all {
        assert Range(n)[j] == j;
      }
      assert |all - {i}| == n - 1;
      if i !in order {
        SubsetCount(seen, all - {i});
      }
    }
  }

  function Members(order: seq<nat>): set<nat> {
    set i | i in order
  }

  lemma {:induction false} DistinctCount(order: seq<nat>)
    requires NoDuplicates(order)
    ensures |Members(order)| == |order|
  {
    if order != [] {
      var last, front := order[|order| - 1], order[..|order| - 1];
      assert order == front + [last];
      DistinctCount(front);
      assert last !in Members(front);
      assert Members(order) == Members(front) + {last};
    }
  }

  lemma {:induction false} SubsetCount(a: set<nat>, b: set<nat>)
    requires a <= b
    ensures |a| <= |b|
  {
    if x :| x in a {
      SubsetCount(a - {x}, b - {x});
    }
  }

  lemma AppendKeeps(sub: Subscription, w: World, result: string)
    requires Invariant(sub, w) && !w.ended
    ensures Invariant(sub, Apply(sub, w, AppendItem(result)))
  {
    var v := Apply(sub, w, AppendItem(result));
    AppendKeepsJob(sub, w, result);
    AppendKeepsFrames(sub, w, v);
  }

  lemma AppendKeepsJob(sub: Subscription, w: World, result: string)
    requires JobInvariant(sub, w) && !w.ended
    ensures JobInvariant(sub, Apply(sub, w, AppendItem(result)))
  {
  }

  lemma AppendKeepsFrames(sub: Subscription, w: World, v: World)
    requires JobInvariant(sub, w) && |v.items| == |w.items| + 1 && v == w.(items := v.items) && w.items <= v.items
    ensures Holding(sub, w) ==> Holding(sub, v)
    ensures Settled(sub, w) ==> Settled(sub, v)
  {
    var item := v.items[|w.items|];
    assert v.items == w.items + [item];
    assert Heard(v) == Heard(w) && Owed(v) == Owed(w);
    FramesAtGrows(sub, w.items, item, Range(w.replayed));
    FramesAtGrows(sub, w.items, item, Heard(w));
    OwedIsWithin(sub, w);
    FramesAtGrows(sub, w.items, item, Owed(w));
  }

  lemma OwedIsWithin(sub: Subscription, w: World)
    requires JobInvariant(sub, w)
    ensures Within(Owed(w), |w.items|)
  {
    var later := NotBelow(Heard(w), |w.snapshot|);
    NotBelowMembers(Heard(w), |w.snapshot|);
    forall k | 0 <= k < |later| ensures later[k] < |w.items| {
      assert later[k] in later;
    }
  }

  lemma {:induction false} PushKeeps(sub: Subscription, w: World, i: nat)
    requires Invariant(sub, w) && i < |w.items| && i !in w.pushed
    ensures Invariant(sub, Apply(sub, w, PushItem(i)))
  {
    if w.ended {
      AllBelow(w.pushed, |w.items|);
    } else {
      PushKeepsJob(sub, w, i);
      PushIsPushed(sub, w, i);
      if w.phase.Released? {
        LivePushSettles(sub, w, i);
      } else if w.phase.Registered? || w.phase.Replaying? {
        HeldPushKeeps(sub, w, i);
      }
    }
  }

  lemma PushIsPushed(sub: Subscription, w: World, i: nat)
    requires JobInvariant(sub, w) && i < |w.items| && i !in w.pushed
    ensures Apply(sub, w, PushItem(i))
         == if Listening(w) then Pushed(w, i, FrameAt(sub, w.items, i)) else w.(pushed := w.pushed + [i])
  {
    assert w.items[i].number == i + 1;
  }

  lemma PushKeepsJob(sub: Subscription, w: World, i: nat)
    requires JobInvariant(sub, w) && i < |w.items| && i !in w.pushed && !w.ended
    ensures JobInvariant(sub, Apply(sub, w, PushItem(i)))
    ensures Heard(Apply(sub, w, PushItem(i))) == Heard(w) + [i]
  {
    var v := Apply(sub, w, PushItem(i));
    assert v.pushed[..w.registeredAt] == w.pushed[..w.registeredAt];
  }

  /** What one push does to a listening client. */
  function Pushed(w: World, i: nat, frames: seq<Data>): World {
    w.(pushed := w.pushed + [i],
       client := if frames == [] then w.client else w.client.Deliver(Frame(i + 1, frames[0])))
  }

  lemma HeldPushKeeps(sub: Subscription, w: World, i: nat)
    requires Holding(sub, w) && w.registeredAt <= |w.pushed|
    ensures Holding(sub, Pushed(w, i, FrameAt(sub, w.items, i)))
  {
    var v := Pushed(w, i, FrameAt(sub, w.items, i));
    assert Heard(v) == Heard(w) + [i];
    HeldSnoc(sub, w.items, Heard(w), i);
    assert w.client.pending + [] == w.client.pending;
  }

  lemma {:induction false} LivePushSettles(sub: Subscription, w: World, i: nat)
    requires Settled(sub, w) && w.registeredAt <= |w.pushed|
    requires !w.client.holding && w.client.pending == [] && w.client.floor == |w.snapshot|
    ensures Settled(sub, Pushed(w, i, FrameAt(sub, w.items, i)))
  {
    var frames, owed := FrameAt(sub, w.items, i), FramesAt(sub, w.items, Owed(w));
    OwedAfterPush(w, i, frames);
    if i >= |w.snapshot| {
      FramesAtSnoc(sub, w.items, Owed(w), i);
      if frames == [] {
        assert owed + frames == owed;
      } else {
        assert frames == [frames[0]];
        EnqueueBalances(w.wire, w.client, owed, frames[0]);
      }
    } else {
      assert Owed(w) + [] == Owed(w);
    }
  }

  lemma OwedAfterPush(w: World, i: nat, frames: seq<Data>)
    requires w.registeredAt <= |w.pushed|
    ensures Owed(Pushed(w, i, frames)) == Owed(w) + (if i >= |w.snapshot| then [i] else [])
  {
    assert Heard(Pushed(w, i, frames)) == Heard(w) + [i];
    NotBelowSplit(Heard(w), [i], |w.snapshot|);
    assert [i][..0] == [];
  }

  lemma HeldSnoc(sub: Subscription, items: seq<Item>, order: seq<nat>, last: nat)
    ensures var frames := FrameAt(sub, items, last);
            HeldAt(sub, items, order + [last])
            == HeldAt(sub, items, order) + (if frames == [] then [] else [Frame(last + 1, frames[0])])
  {
    assert (order + [last])[..|order|] == order;
  }

  lemma {:induction false} SendReplayKeeps(sub: Subscription, w: World)
    requires Invariant(sub, w) && Enabled(sub, w, SendReplay)
    ensures Invariant(sub, Apply(sub, w, SendReplay))
  {
    var frames := FrameAt(sub, w.items, w.replayed);
    assert w.snapshot[w.replayed] == w.items[w.replayed];
    SendReplayHolds(sub, w);
    assert Apply(sub, w, SendReplay)
        == w.(replayed := w.replayed + 1, client := w.client.(send := w.client.send + frames));
    ReplayKeepsJob(sub, w);
  }

  lemma ReplayKeepsJob(sub: Subscription, w: World)
    requires JobInvariant(sub, w) && Enabled(sub, w, SendReplay)
    ensures JobInvariant(sub, Apply(sub, w, SendReplay))
  {
  }

  lemma SendReplayHolds(sub: Subscription, w: World)
    requires Holding(sub, w)
    ensures var frames := FrameAt(sub, w.items, w.replayed);
            Holding(sub, w.(replayed := w.replayed + 1, client := w.client.(send := w.client.send + frames)))
  {
    var k, frames := w.replayed, FrameAt(sub, w.items, w.replayed);
    assert Range(k + 1) == Range(k) + [k];
    FramesAtSnoc(sub, w.items, Range(k), k);
    assert w.wire + (w.client.send + frames) == w.wire + w.client.send + frames;
  }

  lemma ReleaseKeeps(sub: Subscription, w: World)
    requires Invariant(sub, w) && Enabled(sub, w, ReleaseHeld)
    ensures Invariant(sub, Apply(sub, w, ReleaseHeld))
  {
    ReleaseSettles(sub, w);
  }

  lemma ReleaseSettles(sub: Subscription, w: World)
    requires JobInvariant(sub, w) && Holding(sub, w) && w.replayed == |w.snapshot|
    ensures var r := w.client.Release(FloorOf(w.snapshot));
            Settled(sub, w.(client := r, phase := Released)) && r.floor == |w.snapshot|
  {
    var n := |w.snapshot|;
    assert w.snapshot[..n] == w.snapshot;
    FloorIsLength(sub, w, n);
    var c := w.client.(floor := n, holding := false);
    var replay := FramesAt(sub, w.items, Range(n));
    MergedAll(replay);
    EnqueueAboveHeld(sub, w.items, Heard(w), n, w.wire, c, replay);
    FramesAtSplit(sub, w.items, Range(n), NotBelow(Heard(w), n));
    var v := w.(client := w.client.Release(n), phase := Released);
    assert Owed(v) == Owed(w);
  }

  lemma {:induction false} PopKeeps(sub: Subscription, w: World, step: Step)
    requires Invariant(sub, w) && (step.WritePop? || step.WriteFlush?) && Enabled(sub, w, step)
    ensures Invariant(sub, Apply(sub, w, step))
  {
    PopKeepsFrames(sub, w);
  }

  lemma PopKeepsFrames(sub: Subscription, w: World)
    requires w.client.send != []
    ensures Holding(sub, w) ==> Holding(sub, Pop(w))
    ensures Settled(sub, w) ==> Settled(sub, Pop(w))
  {
    var v := Pop(w);
    assert v.wire + v.client.send == w.wire + w.client.send;
    assert Owed(v) == Owed(w) && Heard(v) == Heard(w);
  }

  lemma {:induction false} StepKeeps(sub: Subscription, w: World, step: Step)
    requires Invariant(sub, w) && Enabled(sub, w, step)
    ensures Invariant(sub, Apply(sub, w, step))
  {
    match step
    case AppendItem(result) => AppendKeeps(sub, w, result);
    case PushItem(i) => PushKeeps(sub, w, i);
    case SendReplay => SendReplayKeeps(sub, w);
    case ReleaseHeld => ReleaseKeeps(sub, w);
    case WritePop => PopKeeps(sub, w, step);
    case WriteFlush => PopKeeps(sub, w, step);
    case PushForeign(item) => PushForeignKeeps(sub, w, item);
    case EndJob => EndJobKeeps(sub, w);
    case SweepJob => SweepJobKeeps(sub, w);
    case Register => RegisterKeeps(sub, w);
    case TakeSnapshot => TakeSnapshotKeeps(sub, w);
    case AbandonReplay => AbandonReplayKeeps(sub, w);
    case AskFinish => AskFinishKeeps(sub, w);
    case WriteFinish => WriteFinishKeeps(sub, w);
    case WriteCompleted => WriteCompletedKeeps(sub, w);
    case WriteKick => WriteKickKeeps(sub, w);
    case WriteFails => WriteFailsKeeps(sub, w);
    case Leave => LeaveKeeps(sub, w);
  }

  // ----------- steps that neither add an item, hand one over, nor move a frame

  lemma {:induction false} PushForeignKeeps(sub: Subscription, w: World, item: Item)
    requires Invariant(sub, w) && Enabled(sub, w, PushForeign(item))
    ensures Invariant(sub, Apply(sub, w, PushForeign(item)))
  {
  }

  lemma {:induction false} EndJobKeeps(sub: Subscription, w: World)
    requires Invariant(sub, w) && Enabled(sub, w, EndJob)
    ensures Invariant(sub, Apply(sub, w, EndJob))
  {
  }

  lemma {:induction false} SweepJobKeeps(sub: Subscription, w: World)
    requires Invariant(sub, w) && Enabled(sub, w, SweepJob)
    ensures Invariant(sub, Apply(sub, w, SweepJob))
  {
  }

  lemma {:induction false} RegisterKeeps(sub: Subscription, w: World)
    requires Invariant(sub, w) && Enabled(sub, w, Register)
    ensures Invariant(sub, Apply(sub, w, Register))
  {
    assert Heard(Apply(sub, w, Register)) == [] && Range(0) == [];
  }

  lemma {:induction false} TakeSnapshotKeeps(sub: Subscription, w: World)
    requires Invariant(sub, w) && Enabled(sub, w, TakeSnapshot)
    ensures Invariant(sub, Apply(sub, w, TakeSnapshot))
  {
  }

  lemma {:induction false} AbandonReplayKeeps(sub: Subscription, w: World)
    requires Invariant(sub, w) && Enabled(sub, w, AbandonReplay)
    ensures Invariant(sub, Apply(sub, w, AbandonReplay))
  {
  }

  lemma {:induction false} AskFinishKeeps(sub: Subscription, w: World)
    requires Invariant(sub, w) && Enabled(sub, w, AskFinish)
    ensures Invariant(sub, Apply(sub, w, AskFinish))
  {
  }

  lemma {:induction false} WriteFinishKeeps(sub: Subscription, w: World)
    requires Invariant(sub, w) && Enabled(sub, w, WriteFinish)
    ensures Invariant(sub, Apply(sub, w, WriteFinish))
  {
  }

  lemma {:induction false} WriteCompletedKeeps(sub: Subscription, w: World)
    requires Invariant(sub, w) && Enabled(sub, w, WriteCompleted)
    ensures Invariant(sub, Apply(sub, w, WriteCompleted))
  {
  }

  lemma {:induction false} WriteKickKeeps(sub: Subscription, w: World)
    requires Invariant(sub, w) && Enabled(sub, w, WriteKick)
    ensures Invariant(sub, Apply(sub, w, WriteKick))
  {
  }

  lemma {:induction false} WriteFailsKeeps(sub: Subscription, w: World)
    requires Invariant(sub, w) && Enabled(sub, w, WriteFails)
    ensures Invariant(sub, Apply(sub, w, WriteFails))
  {
  }

  lemma {:induction false} LeaveKeeps(sub: Subscription, w: World)
    requires Invariant(sub, w) && Enabled(sub, w, Leave)
    ensures Invariant(sub, Apply(sub, w, Leave))
  {
  }

  lemma {:induction false} InvariantHolds(sub: Subscription, steps: seq<Step>, w: World)
    requires Runs(sub, steps, w)
    ensures Invariant(sub, w)
    decreases |steps|
  {
    if steps != [] {
      var front, last := steps[..|steps| - 1], steps[|steps| - 1];
      var v := Execute(sub, front).value;
      InvariantHolds(sub, front, v);
      StepKeeps(sub, v, last);
    }
  }

  // ------------------------------------------------------------ main results

  /** The positions of a job with `n` items, each once, in some order. */
  ghost predicate EachOnce(order: seq<nat>, n: nat) {
    NoDuplicates(order) && Within(order, n) && |order| == n
  }

  lemma {:induction false} NotBelowIsDistinct(order: seq<nat>, n: nat)
    requires NoDuplicates(order)
    ensures NoDuplicates(NotBelow(order, n))
  {
    if order != [] {
      var last, front := order[|order| - 1], order[..|order| - 1];
      NotBelowIsDistinct(front, n);
      NotBelowMembers(front, n);
      var kept := NotBelow(front, n);
      forall k | 0 <= k < |kept| ensures kept[k] != last {
        assert kept[k] in kept;
      }
    }
  }

  lemma ReplayThenLive(order: seq<nat>, n: nat)
    requires NoDuplicates(order)
    ensures var all := Range(n) + NotBelow(order, n);
            NoDuplicates(all) && forall i: nat :: i in all <==> i < n || i in order
  {
    var later := NotBelow(order, n);
    NotBelowIsDistinct(order, n);
    NotBelowMembers(order, n);
    forall k | 0 <= k < |later| ensures later[k] >= n {
      assert later[k] in later;
    }
    forall i: nat | i < n ensures i in Range(n) {
      assert Range(n)[i] == i;
    }
  }

  lemma {:induction false} OrderedPushes(n: nat, m: nat)
    ensures Range(n) + NotBelow(Range(m), n) == Range(if n < m then m else n)
  {
    if m > 0 {
      OrderedPushes(n, m - 1);
      assert Range(m)[..m - 1] == Range(m - 1);
    }
  }

  lemma {:induction false} NotBelowNone(order: seq<nat>, n: nat)
    requires Within(order, n)
    ensures NotBelow(order, n) == []
  {
    if order != [] {
      NotBelowNone(order[..|order| - 1], n);
    }
  }

  /** What came before the registration was in the replay already. */
  lemma NothingOwedBefore(sub: Subscription, w: World)
    requires JobInvariant(sub, w) && !w.missed && !w.phase.Absent? && !w.phase.Registered?
    ensures NotBelow(w.pushed[..w.registeredAt], |w.snapshot|) == []
    ensures NotBelow(w.pushed, |w.snapshot|) == NotBelow(Heard(w), |w.snapshot|)
  {
    var early := w.pushed[..w.registeredAt];
    NotBelowNone(early, |w.snapshot|);
    assert w.pushed == early + Heard(w);
    NotBelowSplit(early, Heard(w), |w.snapshot|);
  }

  // ------------------------------- which results are sent, result by result

  /** The subscription is to hear of a result: its filter lets it through and the
      encoder can write it. */
  ghost predicate Hears(sub: Subscription, result: string) {
    sub.filter(result) && sub.serialize(result).Some?
  }

  /** `data` holds one frame for each position of `idx`, none twice: what the encoder
      writes for the result there, which the filter lets through. */
  ghost predicate Carries(sub: Subscription, items: seq<Item>, idx: seq<nat>, data: seq<Data>) {
    && NoDuplicates(idx) && Within(idx, |items|) && |data| == |idx|
    && forall k :: 0 <= k < |idx| ==>
         sub.filter(items[idx[k]].result) && sub.serialize(items[idx[k]].result) == Some(data[k])
  }

  ghost predicate Increasing(idx: seq<nat>) {
    forall j, k :: 0 <= j < k < |idx| ==> idx[j] < idx[k]
  }

  /** The positions of `order` that become a frame. */
  function Sent(sub: Subscription, items: seq<Item>, order: seq<nat>): seq<nat> {
    if order == [] then []
    else
      var last := order[|order| - 1];
      Sent(sub, items, order[..|order| - 1]) + (if FrameAt(sub, items, last) == [] then [] else [last])
  }

  lemma FrameIsHeard(sub: Subscription, items: seq<Item>, i: nat)
    requires i < |items| && items[i].job == sub.job
    ensures FrameAt(sub, items, i) != [] <==> Hears(sub, items[i].result)
    ensures FrameAt(sub, items, i) != [] ==> sub.serialize(items[i].result) == Some(FrameAt(sub, items, i)[0])
  {
  }

  ghost predicate AllOf(sub: Subscription, items: seq<Item>) {
    forall i :: 0 <= i < |items| ==> items[i].job == sub.job
  }

  ghost predicate SentAreHeard(sub: Subscription, items: seq<Item>, order: seq<nat>) {
    forall i: nat :: i in Sent(sub, items, order) <==> i in order && i < |items| && Hears(sub, items[i].result)
  }

  /** The frames of an order of positions are one for each result to be heard of. */
  lemma {:induction false} FramesCarry(sub: Subscription, items: seq<Item>, order: seq<nat>)
    requires NoDuplicates(order) && Within(order, |items|) && AllOf(sub, items)
    ensures Carries(sub, items, Sent(sub, items, order), FramesAt(sub, items, order))
    ensures SentAreHeard(sub, items, order)
    ensures Increasing(order) ==> Increasing(Sent(sub, items, order))
  {
    if order != [] {
      var last, front := order[|order| - 1], order[..|order| - 1];
      FramesCarry(sub, items, front);
      FrameIsHeard(sub, items, last);
      assert last !in front;
      CarriesOneMore(sub, items, front, last);
      assert order == front + [last];
      if Increasing(order) {
        LargestIsLast(sub, items, front, last);
      }
    }
  }

  lemma CarriesOneMore(sub: Subscription, items: seq<Item>, front: seq<nat>, last: nat)
    requires last !in front && last < |items| && AllOf(sub, items)
    requires SentAreHeard(sub, items, front)
    requires Carries(sub, items, Sent(sub, items, front), FramesAt(sub, items, front))
    ensures SentAreHeard(sub, items, front + [last])
    ensures Carries(sub, items, Sent(sub, items, front + [last]), FramesAt(sub, items, front + [last]))
  {
    var before, frames := Sent(sub, items, front), FrameAt(sub, items, last);
    SentSnoc(sub, items, front, last);
    FramesAtSnoc(sub, items, front, last);
    FrameIsHeard(sub, items, last);
    if frames == [] {
      assert FramesAt(sub, items, front) + [] == FramesAt(sub, items, front) && before + [] == before;
    } else {
      assert last !in before && frames == [frames[0]];
      CarriesAnother(sub, items, before, FramesAt(sub, items, front), last, frames[0]);
    }
  }

  lemma SentSnoc(sub: Subscription, items: seq<Item>, front: seq<nat>, last: nat)
    ensures Sent(sub, items, front + [last]) ==
            Sent(sub, items, front) + (if FrameAt(sub, items, last) == [] then [] else [last])
  {
    assert (front + [last])[..|front|] == front;
  }

  lemma CarriesAnother(sub: Subscription, items: seq<Item>, idx: seq<nat>, data: seq<Data>, last: nat, more: Data)
    requires Carries(sub, items, idx, data) && last !in idx && last < |items|
    requires sub.filter(items[last].result) && sub.serialize(items[last].result) == Some(more)
    ensures Carries(sub, items, idx + [last], data + [more])
  {
  }

  lemma LargestIsLast(sub: Subscription, items: seq<Item>, front: seq<nat>, last: nat)
    requires Increasing(front + [last]) && SentAreHeard(sub, items, front)
    requires Increasing(front) ==> Increasing(Sent(sub, items, front))
    ensures Increasing(Sent(sub, items, front + [last]))
  {
    var before, order := Sent(sub, items, front), front + [last];
    SentSnoc(sub, items, front, last);
    assert forall k :: 0 <= k < |front| ==> front[k] == order[k] && order[k] < order[|front|];
    forall k | 0 <= k < |before| ensures before[k] < last {
      assert before[k] in before;
    }
  }

  /** Exactly-once stitching. However appends, pushes, registration, replay and
      release interleave, a released subscriber that was never kicked has been
      sent each result of its replay and each one pushed so far that it is to hear
      of, exactly once and nothing else; and when no two pushes overlap, in the
      order of their numbers. */
  lemma ExactlyOnce(sub: Subscription, steps: seq<Step>, w: World)
    requires Runs(sub, steps, w) && w.phase.Released? && !w.client.kickAsked && !w.missed
    ensures w.snapshot <= w.items
    ensures exists idx ::
      && Carries(sub, w.items, idx, w.wire + w.client.send)
      && (forall i: nat :: i in idx <==>
            i < |w.items| && (i < |w.snapshot| || i in w.pushed)
            && sub.filter(w.items[i].result) && sub.serialize(w.items[i].result).Some?)
      && (w.pushed == Range(|w.pushed|) ==> Increasing(idx))
  {
    InvariantHolds(sub, steps, w);
    var order := SentInOrder(sub, w);
    FramesCarry(sub, w.items, order);
    TakenUpIsSent(sub, w.items, order, |w.snapshot|, w.pushed);
    var idx := Sent(sub, w.items, order);
    assert Carries(sub, w.items, idx, w.wire + w.client.send);
  }

  lemma TakenUpIsSent(sub: Subscription, items: seq<Item>, order: seq<nat>, n: nat, pushed: seq<nat>)
    requires SentAreHeard(sub, items, order)
    requires forall i: nat :: i in order <==> i < n || i in pushed
    ensures forall i: nat :: i in Sent(sub, items, order) <==>
              i < |items| && (i < n || i in pushed) && sub.filter(items[i].result) && sub.serialize(items[i].result).Some?
  {
  }

  /** The positions in the order in which they were taken up. */
  lemma SentInOrder(sub: Subscription, w: World) returns (order: seq<nat>)
    requires Invariant(sub, w) && w.phase.Released? && !w.client.kickAsked && !w.missed
    ensures w.wire + w.client.send == FramesAt(sub, w.items, order)
    ensures NoDuplicates(order) && Within(order, |w.items|) && AllOf(sub, w.items)
    ensures forall i: nat :: i in order <==> i < |w.snapshot| || i in w.pushed
    ensures w.pushed == Range(|w.pushed|) ==> order == Range(|order|) && Increasing(order)
  {
    var n := |w.snapshot|;
    order := Range(n) + NotBelow(w.pushed, n);
    NothingOwedBefore(sub, w);
    OwedIsWithin(sub, w);
    ReplayThenLive(w.pushed, n);
    OrderedPushes(n, |w.pushed|);
    MergedCounts(w.wire + w.client.send, [], FramesAt(sub, w.items, Owed(w)));
  }

  /** The frames written are one for each result the job emitted that the subscriber
      was to hear of. */
  ghost predicate Complete(sub: Subscription, w: World) {
    exists idx :: Carries(sub, w.items, idx, w.wire) && HoldsEach(sub, w.items, idx)
  }

  ghost predicate HoldsEach(sub: Subscription, items: seq<Item>, idx: seq<nat>) {
    forall i: nat :: i in idx <==> i < |items| && sub.filter(items[i].result) && sub.serialize(items[i].result).Some?
  }

  /** The items a subscriber was never told of, because the job was already
      forgotten when it asked for the replay. */
  function Forgotten(w: World): seq<nat> {
    if w.registeredAt <= |w.pushed| then NotBelow(w.pushed[..w.registeredAt], |w.snapshot|) else []
  }

  /** An order that holds each position once has a frame for each result to be heard
      of, and no complete transcript has another number of them. */
  lemma AllFramesCarry(sub: Subscription, items: seq<Item>, order: seq<nat>)
    requires EachOnce(order, |items|) && AllOf(sub, items)
    ensures Carries(sub, items, Sent(sub, items, order), FramesAt(sub, items, order))
    ensures HoldsEach(sub, items, Sent(sub, items, order))
    ensures forall idx, data :: Carries(sub, items, idx, data) && HoldsEach(sub, items, idx) ==>
      |data| == |FramesAt(sub, items, order)|
  {
    FramesCarry(sub, items, order);
    AllBelow(order, |items|);
    var sent := Sent(sub, items, order);
    forall i: nat | i in order ensures i < |items| {
      var k :| 0 <= k < |order| && order[k] == i;
    }
    forall idx, data | Carries(sub, items, idx, data) && HoldsEach(sub, items, idx)
      ensures |data| == |FramesAt(sub, items, order)|
    {
      DistinctCount(idx);
      DistinctCount(sent);
      assert Members(idx) == Members(sent);
    }
  }

  /** Once the job has ended, what is owed and what was forgotten are together
      every item, each once. */
  lemma {:induction false} OwedAndForgotten(sub: Subscription, w: World)
    requires JobInvariant(sub, w) && w.ended
    ensures EachOnce(Owed(w) + Forgotten(w), |w.items|)
  {
    var n, early, late := |w.snapshot|, w.pushed[..w.registeredAt], Heard(w);
    assert w.pushed == early + late;
    NotBelowMembers(early, n);
    NotBelowMembers(late, n);
    NotBelowIsDistinct(early, n);
    ReplayThenLive(late, n);
    AllBelow(w.pushed, |w.items|);
    OwedIsNotForgotten(w);
    forall i: nat | i < |w.items| ensures i in Owed(w) || i in Forgotten(w) {
      assert i in w.pushed;
      assert i in early || i in late;
    }
    forall k | 0 <= k < |Forgotten(w)| ensures Forgotten(w)[k] < |w.items| {
      assert Forgotten(w)[k] in Forgotten(w);
    }
    forall k | 0 <= k < |Owed(w)| ensures Owed(w)[k] < |w.items| {
      assert Owed(w)[k] in Owed(w);
    }
    TogetherEachOnce(Owed(w), Forgotten(w), |w.items|);
  }

  lemma {:induction false} OwedIsNotForgotten(w: World)
    requires w.registeredAt <= |w.pushed| && NoDuplicates(w.pushed)
    ensures forall k :: k in Owed(w) ==> k !in Forgotten(w)
  {
    var n, early, late := |w.snapshot|, w.pushed[..w.registeredAt], Heard(w);
    NotBelowMembers(early, n);
    NotBelowMembers(late, n);
    forall k | k in Owed(w) ensures k !in Forgotten(w) {
      EarlyIsNotLate(w.pushed, w.registeredAt, k);
    }
  }

  lemma {:induction false} TogetherEachOnce(a: seq<nat>, b: seq<nat>, n: nat)
    requires NoDuplicates(a) && NoDuplicates(b) && forall k :: k in a ==> k !in b
    requires Within(a, n) && Within(b, n) && forall i: nat :: i < n ==> i in a || i in b
    ensures EachOnce(a + b, n)
  {
    var all := a + b;
    assert NoDuplicates(all) by {
      forall j, k | 0 <= j < |a| && 0 <= k < |b| ensures a[j] != b[k] {
        assert a[j] in a && b[k] in b;
      }
    }
    DistinctCount(all);
    DistinctCount(Range(n));
    forall i: nat | i < n ensures i in all && i in Range(n) {
      assert Range(n)[i] == i;
    }
    forall i | i in all ensures i < n {
      var k :| 0 <= k < |all| && all[k] == i;
    }
    assert Members(all) == Members(Range(n));
  }

  lemma EarlyIsNotLate(pushed: seq<nat>, at: nat, i: nat)
    requires NoDuplicates(pushed) && at <= |pushed|
    ensures !(i in pushed[..at] && i in pushed[at..])
  {
  }

  /** Completed means complete. A socket closed as "completed" while its peer was
      still there carried every result the job ever emitted that the subscriber was
      to hear of, each exactly once, if and only if no frame was dropped and the job
      had not been forgotten before the replay with such results pushed before the
      registration; for a replay taken in time, if and only if the subscriber was
      never kicked. */
  lemma CompletedIsComplete(sub: Subscription, steps: seq<Step>, w: World)
    requires Runs(sub, steps, w) && w.writer == Closed(Completed) && !w.leftEarly
    ensures Complete(sub, w) <==> !w.client.kickAsked && !Missed(sub, w)
    ensures !w.missed ==> (Complete(sub, w) <==> !w.client.kickAsked)
    ensures !w.missed && !w.client.kickAsked && w.pushed == Range(|w.pushed|) ==>
      exists idx :: Carries(sub, w.items, idx, w.wire) && HoldsEach(sub, w.items, idx) && Increasing(idx)
  {
    CompletedBalances(sub, steps, w);
    CompleteMeansNothingLost(sub, w);
    ForgottenIsMissed(sub, w);
    if !w.missed {
      NothingOwedBefore(sub, w);
      InOrderWhenPushesAre(w);
      if !w.client.kickAsked && w.pushed == Range(|w.pushed|) {
        AllFramesCarry(sub, w.items, Range(|w.items|));
        FramesCarry(sub, w.items, Range(|w.items|));
        assert w.wire == FramesAt(sub, w.items, Range(|w.items|));
      }
    }
  }

  /** A result the subscriber was to hear of was pushed before it registered and is not
      in its replay. */
  ghost predicate Missed(sub: Subscription, w: World) {
    exists k :: 0 <= k < w.registeredAt && k < |w.pushed| && |w.snapshot| <= w.pushed[k] < |w.items|
             && Hears(sub, w.items[w.pushed[k]].result)
  }

  lemma {:induction false} ForgottenIsMissed(sub: Subscription, w: World)
    requires JobInvariant(sub, w)
    ensures FramesAt(sub, w.items, Forgotten(w)) != [] <==> Missed(sub, w)
  {
    var early := w.pushed[..w.registeredAt];
    NotBelowMembers(early, |w.snapshot|);
    SomeFrame(sub, w.items, Forgotten(w));
    if i :| i in Forgotten(w) && FrameAt(sub, w.items, i) != [] {
      var k :| 0 <= k < |early| && early[k] == i;
      FrameIsHeard(sub, w.items, i);
      assert Hears(sub, w.items[w.pushed[k]].result);
    }
    if Missed(sub, w) {
      var k :| 0 <= k < w.registeredAt && k < |w.pushed| && |w.snapshot| <= w.pushed[k] < |w.items|
            && Hears(sub, w.items[w.pushed[k]].result);
      assert early[k] == w.pushed[k];
      FrameIsHeard(sub, w.items, w.pushed[k]);
    }
  }

  lemma {:induction false} SomeFrame(sub: Subscription, items: seq<Item>, order: seq<nat>)
    ensures FramesAt(sub, items, order) != [] <==> exists i :: i in order && FrameAt(sub, items, i) != []
  {
    if order != [] {
      var last, front := order[|order| - 1], order[..|order| - 1];
      SomeFrame(sub, items, front);
      assert order == front + [last];
    }
  }

  lemma InOrderWhenPushesAre(w: World)
    requires NotBelow(w.pushed, |w.snapshot|) == NotBelow(Heard(w), |w.snapshot|)
    requires |w.snapshot| <= |w.pushed|
    ensures w.pushed == Range(|w.pushed|) ==> Owed(w) == Range(|w.pushed|)
  {
    OrderedPushes(|w.snapshot|, |w.pushed|);
  }

  lemma CompletedBalances(sub: Subscription, steps: seq<Step>, w: World)
    requires Runs(sub, steps, w) && w.writer == Closed(Completed) && !w.leftEarly
    ensures JobInvariant(sub, w) && w.ended && !w.phase.Absent? && !w.phase.Registered?
    ensures var owed := FramesAt(sub, w.items, Owed(w));
            && (w.client.kickAsked <==> w.client.dropped != [])
            && |owed| == |w.wire| + |w.client.dropped|
            && (w.client.dropped == [] ==> w.wire == owed)
  {
    InvariantHolds(sub, steps, w);
    assert w.wire + w.client.send == w.wire;
    MergedCounts(w.wire, w.client.dropped, FramesAt(sub, w.items, Owed(w)));
  }

  lemma CompleteMeansNothingLost(sub: Subscription, w: World)
    requires JobInvariant(sub, w) && w.ended
    requires var owed := FramesAt(sub, w.items, Owed(w));
             |owed| == |w.wire| + |w.client.dropped| && (w.client.dropped == [] ==> w.wire == owed)
    ensures Complete(sub, w) <==> w.client.dropped == [] && FramesAt(sub, w.items, Forgotten(w)) == []
  {
    var owed, lost := FramesAt(sub, w.items, Owed(w)), FramesAt(sub, w.items, Forgotten(w));
    var all := Owed(w) + Forgotten(w);
    OwedAndForgotten(sub, w);
    FramesAtSplit(sub, w.items, Owed(w), Forgotten(w));
    AllFramesCarry(sub, w.items, all);
    if w.client.dropped == [] && lost == [] {
      assert owed + lost == owed;
      assert w.wire == FramesAt(sub, w.items, all);
    }
  }

  // --------------------------------------- a completed close that is not one

  lemma RunOneMore(sub: Subscription, steps: seq<Step>, w: World, step: Step)
    requires Runs(sub, steps, w) && Enabled(sub, w, step)
    ensures Runs(sub, steps + [step], Apply(sub, w, step))
  {
    assert (steps + [step])[..|steps|] == steps;
  }

  /** A released subscriber whose writer stalls while `n` items are pushed. */
  lemma {:induction false} Flood(sub: Subscription, result: string, n: nat) returns (steps: seq<Step>, w: World)
    requires sub.filter(result) && sub.serialize(result).Some?
    ensures Runs(sub, steps, w) && w.phase.Released? && !w.ended && !w.missed && !w.leftEarly && w.writer.Running?
    ensures |w.items| == |w.pushed| == n && w.snapshot == [] && w.wire == []
    ensures !w.client.holding && w.client.floor == 0
    ensures |w.client.send| == (if n < SEND_BUFFER then n else SEND_BUFFER) && (w.client.kickAsked <==> n > SEND_BUFFER)
    ensures Within(w.pushed, n)
  {
    if n == 0 {
      var v0 := Apply(sub, INITIAL, Register);
      RunOneMore(sub, [], INITIAL, Register);
      var v1 := Apply(sub, v0, TakeSnapshot);
      RunOneMore(sub, [] + [Register], v0, TakeSnapshot);
      RunOneMore(sub, [] + [Register] + [TakeSnapshot], v1, ReleaseHeld);
      return [] + [Register] + [TakeSnapshot] + [ReleaseHeld], Apply(sub, v1, ReleaseHeld);
    }
    var before, v := Flood(sub, result, n - 1);
    var u := Apply(sub, v, AppendItem(result));
    RunOneMore(sub, before, v, AppendItem(result));
    assert sub.Encode(u.items[n - 1]) == [sub.serialize(result).value];
    RunOneMore(sub, before + [AppendItem(result)], u, PushItem(n - 1));
    return before + [AppendItem(result)] + [PushItem(n - 1)], Apply(sub, u, PushItem(n - 1));
  }

  lemma {:induction false} Flush(sub: Subscription, steps: seq<Step>, w: World) returns (more: seq<Step>, v: World)
    requires Runs(sub, steps, w) && w.writer.Flushing?
    ensures Runs(sub, more, v)
    ensures v == w.(wire := v.wire, client := w.client.(send := []))
    decreases |w.client.send|
  {
    if w.client.send == [] {
      return steps, w;
    }
    RunOneMore(sub, steps, w, WriteFlush);
    more, v := Flush(sub, steps + [WriteFlush], Apply(sub, w, WriteFlush));
  }

  /** A finish and a kick can be ready together, and the writer may choose either:
      for every subscription that matches anything at all there is a run that
      drops a frame and still closes its socket as "completed". */
  lemma CompletedCanLose(sub: Subscription, result: string)
    requires sub.filter(result) && sub.serialize(result).Some?
    ensures exists steps, w :: Runs(sub, steps, w) && w.writer == Closed(Completed) && !w.leftEarly && !w.missed
                            && w.client.kickAsked && !Complete(sub, w)
  {
    var steps, w := Flood(sub, result, SEND_BUFFER + 1);
    steps, w := Finish(sub, steps, w);
    CompletedIsComplete(sub, steps, w);
  }

  lemma Finish(sub: Subscription, steps: seq<Step>, w: World) returns (more: seq<Step>, v: World)
    requires Runs(sub, steps, w) && w.phase.Released? && w.writer.Running?
    requires !w.ended && |w.pushed| == |w.items|
    ensures Runs(sub, more, v) && v.writer == Closed(Completed)
    ensures v.leftEarly == w.leftEarly && v.missed == w.missed && v.client.kickAsked == w.client.kickAsked
  {
    RunOneMore(sub, steps, w, EndJob);
    more, v := steps + [EndJob], w.(ended := true);
    RunOneMore(sub, more, v, AskFinish);
    more, v := more + [AskFinish], v.(finishAsked := true);
    RunOneMore(sub, more, v, WriteFinish);
    more, v := more + [WriteFinish], v.(writer := Flushing);
    more, v := Flush(sub, more, v);
    RunOneMore(sub, more, v, WriteCompleted);
    more, v := more + [WriteCompleted], v.(writer := Closed(Completed));
  }
}
