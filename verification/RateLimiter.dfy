/** The fixed-window request counter that guards the pairing redeem endpoint.

    A clock reading is the number of ticks since the zero time, so the zero
    value of `resetsAt` is 0 and the very first request opens a window. */
module RateLimiting {

  datatype Config = Config(limit: int, window: int)
  datatype Counter = Counter(count: int, resetsAt: int)

  const FRESH := Counter(0, 0)

  /** The state one request at `now` leaves behind, and whether it is allowed. */
  function Step(cfg: Config, c: Counter, now: nat): (Counter, bool) {
    var current := if now >= c.resetsAt then Counter(0, now + cfg.window) else c;
    if current.count >= cfg.limit then (current, false)
    else (current.(count := current.count + 1), true)
  }

  class RateLimiter {
    const cfg: Config
    var count: int
    var resetsAt: int
    ghost var history: seq<nat>  // the clock reading of every request so far

    ghost predicate Valid()
      reads this
    {
      State() == After(cfg, history)
    }

    ghost function State(): Counter
      reads this
    {
      Counter(count, resetsAt)
    }

    constructor (limit: int, window: int)
      ensures Valid() && cfg == Config(limit, window) && history == []
    {
      cfg := Config(limit, window);
      count := 0;
      resetsAt := 0;
      history := [];
    }

    method Allow(now: nat) returns (allowed: bool)
      requires Valid()
      modifies this
      ensures Valid() && history == old(history) + [now]
      ensures allowed == Allowed(cfg, history, |history| - 1)
    {
      history := history + [now];
      assert history[..|history| - 1] == old(history);
      if now >= resetsAt {
        count := 0;
        resetsAt := now + cfg.window;
      }
      if count >= cfg.limit {
        return false;
      }
      count := count + 1;
      return true;
    }
  }

  // ---------------------------------------------------------------- runs

  /** A run is the clock reading of each request, in the order they arrive. */
  ghost predicate Monotone(run: seq<nat>) {
    forall i, j :: 0 <= i <= j < |run| ==> run[i] <= run[j]
  }

  function After(cfg: Config, run: seq<nat>): Counter {
    if run == [] then FRESH
    else Step(cfg, After(cfg, run[..|run| - 1]), run[|run| - 1]).0
  }

  predicate Allowed(cfg: Config, run: seq<nat>, i: nat)
    requires i < |run|
  {
    Step(cfg, After(cfg, run[..i]), run[i]).1
  }

  /** How many allowed requests of the run were read at a time in [from, to). */
  function AllowedIn(cfg: Config, run: seq<nat>, from: int, to: int): nat {
    if run == [] then 0
    else
      var last := |run| - 1;
      AllowedIn(cfg, run[..last], from, to)
      + (if from <= run[last] < to && Step(cfg, After(cfg, run[..last]), run[last]).1 then 1 else 0)
  }

  lemma {:induction false} SplitInterval(cfg: Config, run: seq<nat>, from: int, mid: int, to: int)
    requires from <= mid <= to
    ensures AllowedIn(cfg, run, from, to) == AllowedIn(cfg, run, from, mid) + AllowedIn(cfg, run, mid, to)
  {
    if run != [] {
      SplitInterval(cfg, run[..|run| - 1], from, mid, to);
    }
  }

  /** Nothing is read after the last request, so an interval may end anywhere past it. */
  lemma {:induction false} NothingLater(cfg: Config, run: seq<nat>, from: int, to: int)
    requires Monotone(run)
    requires run == [] || run[|run| - 1] < from
    ensures AllowedIn(cfg, run, from, to) == 0
  {
    if run != [] {
      NothingLater(cfg, run[..|run| - 1], from, to);
    }
  }

  /** What holds after every non-empty run: the open window began at `s`, its
      first request was allowed, its count is exact, and of the requests less
      than one window older than `s` at most limit - 1 were allowed. */
  ghost predicate WindowInvariant(cfg: Config, run: seq<nat>) {
    run != [] &&
    var c := After(cfg, run);
    var s := c.resetsAt - cfg.window;
    var now := run[|run| - 1];
    && s <= now < s + cfg.window
    && c.count == AllowedIn(cfg, run, s, now + 1) <= cfg.limit
    && AllowedIn(cfg, run, s, s + 1) >= 1
    && (forall a :: s - cfg.window < a <= s ==> AllowedIn(cfg, run, a, s) <= cfg.limit - 1)
  }

  lemma {:induction false} WindowInvariantHolds(cfg: Config, run: seq<nat>)
    requires cfg.limit >= 1 && cfg.window >= 1 && Monotone(run) && run != []
    ensures WindowInvariant(cfg, run)
  {
    if |run| > 1 {
      WindowInvariantHolds(cfg, run[..|run| - 1]);
    }
    OpenWindow(cfg, run);
    var s := After(cfg, run).resetsAt - cfg.window;
    forall a | s - cfg.window < a <= s ensures AllowedIn(cfg, run, a, s) <= cfg.limit - 1 {
      BeforeTheWindow(cfg, run, a);
    }
  }

  /** The counter counts the requests the open window let through, the one that opened
      it among them. */
  lemma {:induction false} OpenWindow(cfg: Config, run: seq<nat>)
    requires cfg.limit >= 1 && cfg.window >= 1 && Monotone(run) && run != []
    requires var prefix := run[..|run| - 1]; prefix != [] ==> WindowInvariant(cfg, prefix)
    ensures var c, now := After(cfg, run), run[|run| - 1];
            var s := c.resetsAt - cfg.window;
            && s <= now < s + cfg.window && c.count == AllowedIn(cfg, run, s, now + 1) <= cfg.limit
            && AllowedIn(cfg, run, s, s + 1) >= 1
  {
    var last := |run| - 1;
    var prefix, now := run[..last], run[last];
    var s := After(cfg, run).resetsAt - cfg.window;
    if prefix != [] {
      var earlier := prefix[last - 1];
      NothingLater(cfg, prefix, earlier + 1, now + 1);
      if now < After(cfg, prefix).resetsAt {
        SplitInterval(cfg, prefix, s, earlier + 1, now + 1);
      } else {
        NothingLater(cfg, prefix, now, now + 1);
      }
    }
  }

  /** What the windows before the open one let through, within one window's length. */
  lemma {:induction false} BeforeTheWindow(cfg: Config, run: seq<nat>, a: int)
    requires cfg.limit >= 1 && cfg.window >= 1 && Monotone(run) && run != []
    requires var prefix := run[..|run| - 1]; prefix != [] ==> WindowInvariant(cfg, prefix)
    requires var s := After(cfg, run).resetsAt - cfg.window; s - cfg.window < a <= s <= run[|run| - 1]
    ensures AllowedIn(cfg, run, a, After(cfg, run).resetsAt - cfg.window) <= cfg.limit - 1
  {
    var prefix, now, s := run[..|run| - 1], run[|run| - 1], After(cfg, run).resetsAt - cfg.window;
    assert AllowedIn(cfg, run, a, s) == AllowedIn(cfg, prefix, a, s);
    if prefix != [] && now >= After(cfg, prefix).resetsAt {
      ClosedWindow(cfg, prefix, a, s);
    }
  }

  /** Seen from a moment after its window opened, a window that has ended let
      through at most limit - 1 requests. */
  lemma {:induction false} ClosedWindow(cfg: Config, run: seq<nat>, a: int, to: int)
    requires Monotone(run) && WindowInvariant(cfg, run)
    requires After(cfg, run).resetsAt - cfg.window < a <= to
    requires run[|run| - 1] < to
    ensures AllowedIn(cfg, run, a, to) <= cfg.limit - 1
  {
    var s := After(cfg, run).resetsAt - cfg.window;
    var now := run[|run| - 1];
    NothingLater(cfg, run, now + 1, to);
    SplitInterval(cfg, run, s, now + 1, to);
    SplitInterval(cfg, run, s, s + 1, to);
    SplitInterval(cfg, run, s + 1, a, to);
  }

  // ------------------------------------------------------------ main results

  /** In every run, any half-open interval as long as the window holds fewer
      than twice the limit of allowed requests. */
  lemma {:induction false} SlidingBound(cfg: Config, run: seq<nat>, a: int)
    requires Monotone(run)
    ensures cfg.limit <= 0 ==> AllowedIn(cfg, run, a, a + cfg.window) == 0
    ensures cfg.limit >= 1 ==> AllowedIn(cfg, run, a, a + cfg.window) <= 2 * cfg.limit - 1
  {
    if run == [] {
    } else if cfg.limit <= 0 {
      CountNeverNegative(cfg, run[..|run| - 1]);
      SlidingBound(cfg, run[..|run| - 1], a);
    } else {
      var last := |run| - 1;
      SlidingBound(cfg, run[..last], a);
      var now, to := run[last], a + cfg.window;
      if a <= now < to {
        WindowInvariantHolds(cfg, run);
        var s := After(cfg, run).resetsAt - cfg.window;
        NothingLater(cfg, run, now + 1, to);
        SplitInterval(cfg, run, a, now + 1, to);
        if a <= s {
          SplitInterval(cfg, run, a, s, now + 1);
        } else {
          SplitInterval(cfg, run, s, a, now + 1);
        }
      }
    }
  }

  lemma {:induction false} CountNeverNegative(cfg: Config, run: seq<nat>)
    ensures After(cfg, run).count >= 0
  {
    if run != [] {
      CountNeverNegative(cfg, run[..|run| - 1]);
    }
  }

  /** The window a request falls into never lets through more than the limit,
      and the request is refused exactly when it already let through the limit. */
  lemma RefusedOnlyWhenSpent(cfg: Config, run: seq<nat>, now: nat)
    requires cfg.limit >= 1 && cfg.window >= 1 && run != [] && Monotone(run) && run[|run| - 1] == now
    ensures var s := After(cfg, run).resetsAt - cfg.window;
            var before := AllowedIn(cfg, run[..|run| - 1], s, now + 1);
            && s <= now < s + cfg.window
            && before <= cfg.limit
            && (Allowed(cfg, run, |run| - 1) <==> before < cfg.limit)
  {
    var last := |run| - 1;
    var prefix := run[..last];
    WindowInvariantHolds(cfg, run);
    var s := After(cfg, run).resetsAt - cfg.window;
    if prefix != [] {
      WindowInvariantHolds(cfg, prefix);
      var earlier := prefix[last - 1];
      if now >= After(cfg, prefix).resetsAt {
        NothingLater(cfg, prefix, s, now + 1);
      } else {
        NothingLater(cfg, prefix, earlier + 1, now + 1);
        SplitInterval(cfg, prefix, s, earlier + 1, now + 1);
      }
    }
  }

  // -------------------------------------------------------- the bound is met

  /** One request at 0, the rest of that window's budget on its last tick, and
      a whole new budget on the next tick. */
  function Burst(cfg: Config): seq<nat>
    requires cfg.limit >= 1 && cfg.window >= 2
  {
    [0] + Repeat(cfg.window - 1, cfg.limit - 1) + Repeat(cfg.window, cfg.limit)
  }

  function Repeat(t: nat, n: nat): (r: seq<nat>)
    ensures |r| == n && forall i :: 0 <= i < n ==> r[i] == t
  {
    seq(n, i => t)
  }

  /** A budget that is not yet spent lets through as many more as are left. */
  lemma {:induction false} SpendBudget(cfg: Config, run: seq<nat>, t: nat, n: nat, from: int, to: int)
    requires var c := After(cfg, run);
             t < c.resetsAt && c.count + n <= cfg.limit
    requires from <= t < to
    ensures After(cfg, run + Repeat(t, n)) == After(cfg, run).(count := After(cfg, run).count + n)
    ensures AllowedIn(cfg, run + Repeat(t, n), from, to) == AllowedIn(cfg, run, from, to) + n
  {
    if n == 0 {
      assert run + Repeat(t, n) == run;
    } else {
      SpendBudget(cfg, run, t, n - 1, from, to);
      var all := run + Repeat(t, n);
      assert all[..|all| - 1] == run + Repeat(t, n - 1);
    }
  }

  /** The sliding bound cannot be improved: this run meets it. */
  lemma {:induction false} SlidingBoundIsTight(cfg: Config)
    requires cfg.limit >= 1 && cfg.window >= 2
    ensures Monotone(Burst(cfg))
    ensures AllowedIn(cfg, Burst(cfg), cfg.window - 1, 2 * cfg.window - 1) == 2 * cfg.limit - 1
  {
    var w := cfg.window;
    var from, to := w - 1, 2 * w - 1;
    var spent := FirstWindow(cfg, from, to);
    var reopened := spent + [w];
    assert reopened[..|spent|] == spent;
    assert After(cfg, reopened) == Counter(1, 2 * w);
    SpendBudget(cfg, reopened, w, cfg.limit - 1, from, to);
    assert Burst(cfg) == reopened + Repeat(w, cfg.limit - 1);
  }

  lemma {:induction false} FirstWindow(cfg: Config, from: int, to: int) returns (spent: seq<nat>)
    requires cfg.limit >= 1 && cfg.window >= 2 && from == cfg.window - 1 && to == from + cfg.window
    ensures spent == [0] + Repeat(cfg.window - 1, cfg.limit - 1)
    ensures After(cfg, spent) == Counter(cfg.limit, cfg.window)
    ensures AllowedIn(cfg, spent, from, to) == cfg.limit - 1
  {
    var first: seq<nat> := [0];
    assert first[..0] == [];
    assert After(cfg, first) == Counter(1, cfg.window);
    assert AllowedIn(cfg, first[..0], from, to) == 0;
    SpendBudget(cfg, first, cfg.window - 1, cfg.limit - 1, from, to);
    spent := first + Repeat(cfg.window - 1, cfg.limit - 1);
  }
}
