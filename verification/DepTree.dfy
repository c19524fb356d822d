/** Resolving the transitive dependency order of a namespace by a three-state
    depth-first search with an explicit stack of the nodes in progress. */
module DepTree {

  type Namespace = string

  datatype NodeState = Unvisited | InProgress | Done

  /** What the caller's resolver answers for one namespace. */
  datatype Resolved = Deps(deps: seq<Namespace>) | ResolverError(message: string)

  datatype Outcome =
    | Ok
    | Cyclic(path: seq<Namespace>)
    | ResolverFailed(ns: Namespace, message: string)
    | Cancelled

  type Resolver = Namespace -> Resolved

  // ------------------------------------------------------ dependency graphs

  predicate Edge(resolver: Resolver, a: Namespace, b: Namespace) {
    resolver(a).Deps? && b in resolver(a).deps
  }

  ghost predicate IsPath(resolver: Resolver, p: seq<Namespace>) {
    forall i, j :: 0 <= i && j == i + 1 < |p| ==> Edge(resolver, p[i], p[j])
  }

  ghost predicate IsWalk(resolver: Resolver, p: seq<Namespace>, a: Namespace, b: Namespace) {
    p != [] && p[0] == a && p[|p| - 1] == b && IsPath(resolver, p)
  }

  ghost predicate Reaches(resolver: Resolver, a: Namespace, b: Namespace) {
    exists p :: IsWalk(resolver, p, a, b)
  }

  /** A closed walk of at least one edge. */
  ghost predicate IsCycle(resolver: Resolver, p: seq<Namespace>) {
    |p| >= 2 && IsWalk(resolver, p, p[0], p[0])
  }

  ghost predicate Closed(resolver: Resolver, universe: set<Namespace>) {
    forall n, d :: n in universe && Edge(resolver, n, d) ==> d in universe
  }

  ghost predicate NoDuplicates(s: seq<Namespace>) {
    forall i, j :: 0 <= i < j < |s| ==> s[i] != s[j]
  }

  /** Every entry was resolved, and each of its dependencies comes before it. */
  ghost predicate DependenciesFirst(resolver: Resolver, order: seq<Namespace>) {
    && (forall n :: n in order ==> resolver(n).Deps?)
    && (forall i, d :: 0 <= i < |order| && Edge(resolver, order[i], d) ==> d in order[..i])
  }

  lemma ReachesSelf(resolver: Resolver, a: Namespace)
    ensures Reaches(resolver, a, a)
  {
    assert IsWalk(resolver, [a], a, a);
  }

  lemma ReachesNext(resolver: Resolver, root: Namespace, a: Namespace, b: Namespace)
    requires Reaches(resolver, root, a) && Edge(resolver, a, b)
    ensures Reaches(resolver, root, b)
  {
    var p :| IsWalk(resolver, p, root, a);
    assert IsWalk(resolver, p + [b], root, b);
  }

  lemma TailIsPath(resolver: Resolver, p: seq<Namespace>)
    requires IsPath(resolver, p) && p != []
    ensures IsPath(resolver, p[1..])
  {
    forall i, j | 0 <= i && j == i + 1 < |p[1..]| ensures Edge(resolver, p[1..][i], p[1..][j]) {
      assert Edge(resolver, p[i + 1], p[j + 1]);
    }
  }

  /** A set of nodes closed under edges holds everything its members reach. */
  lemma {:induction false} ClosedUnderWalks(resolver: Resolver, order: seq<Namespace>, p: seq<Namespace>)
    requires DependenciesFirst(resolver, order)
    requires p != [] && IsPath(resolver, p) && p[0] in order
    ensures p[|p| - 1] in order
  {
    if |p| > 1 {
      assert Edge(resolver, p[0], p[1]);
      var i :| 0 <= i < |order| && order[i] == p[0];
      assert p[1] in order[..i];
      TailIsPath(resolver, p);
      ClosedUnderWalks(resolver, order, p[1..]);
    }
  }

  /** Along a walk the position in the order only goes down. */
  lemma {:induction false} WalksDescend(resolver: Resolver, order: seq<Namespace>, p: seq<Namespace>, i: nat)
    requires DependenciesFirst(resolver, order) && NoDuplicates(order)
    requires |p| >= 2 && IsPath(resolver, p) && i < |order| && order[i] == p[0]
    ensures p[|p| - 1] in order[..i]
  {
    assert Edge(resolver, p[0], p[1]);
    assert p[1] in order[..i];
    if |p| > 2 {
      var j :| 0 <= j < i && order[j] == p[1];
      TailIsPath(resolver, p);
      WalksDescend(resolver, order, p[1..], j);
    }
  }

  /** A dependency order that holds the root leaves no cycle within reach of it. */
  lemma OrderExcludesCycles(resolver: Resolver, order: seq<Namespace>, root: Namespace)
    requires DependenciesFirst(resolver, order) && NoDuplicates(order) && root in order
    ensures forall n :: Reaches(resolver, root, n) ==> n in order
    ensures !exists c :: IsCycle(resolver, c) && Reaches(resolver, root, c[0])
  {
    forall n | Reaches(resolver, root, n) ensures n in order {
      var p :| IsWalk(resolver, p, root, n);
      ClosedUnderWalks(resolver, order, p);
    }
    forall c | IsCycle(resolver, c) && Reaches(resolver, root, c[0]) ensures false {
      var i :| 0 <= i < |order| && order[i] == c[0];
      WalksDescend(resolver, order, c, i);
    }
  }

  // --------------------------------------------------------- the traversal

  /** What a traversal has done so far, as a value. */
  datatype Progress = Progress(
    state: map<Namespace, NodeState>,
    stack: seq<Namespace>,
    order: seq<Namespace>,
    asked: multiset<Namespace>)
  {
    function StateOf(ns: Namespace): NodeState {
      if ns in state then state[ns] else Unvisited
    }

    /** The nodes in progress are exactly the stack and the stack is a path; the
        finished nodes are exactly the order; each visited node was asked about once. */
    ghost predicate Valid(resolver: Resolver, root: Namespace) {
      && NoDuplicates(stack) && NoDuplicates(order)
      && IsPath(resolver, stack)
      && DependenciesFirst(resolver, order)
      && (forall n :: n in stack <==> StateOf(n) == InProgress)
      && (forall n :: n in order <==> StateOf(n) == Done)
      && (forall n :: asked[n] == if n in state then 1 else 0)
      && (forall n :: n in state ==> state[n] != Unvisited && Reaches(resolver, root, n))
    }

    function Start(ns: Namespace): Progress {
      Progress(state[ns := InProgress], stack + [ns], order, asked + multiset{ns})
    }

    function Finish(): Progress
      requires stack != []
    {
      var last := |stack| - 1;
      Progress(state[stack[last] := Done], stack[..last], order + [stack[last]], asked)
    }
  }

  lemma {:induction false} StartKeepsValid(resolver: Resolver, root: Namespace, p: Progress, ns: Namespace)
    requires p.Valid(resolver, root) && p.StateOf(ns) == Unvisited && Reaches(resolver, root, ns)
    requires p.stack != [] ==> Edge(resolver, p.stack[|p.stack| - 1], ns)
    ensures p.Start(ns).Valid(resolver, root)
  {
    assert ns !in p.state && ns !in p.stack;
  }

  lemma {:induction false} FinishKeepsValid(resolver: Resolver, root: Namespace, p: Progress)
    requires p.Valid(resolver, root) && p.stack != []
    requires var ns := p.stack[|p.stack| - 1];
             resolver(ns).Deps? && forall d :: d in resolver(ns).deps ==> d in p.order
    ensures p.Finish().Valid(resolver, root)
  {
    var q, ns := p.Finish(), p.stack[|p.stack| - 1];
    assert ns in p.stack && ns !in p.order;
    AppendKeepsOrder(resolver, p.order, ns);
    assert p.stack == q.stack + [ns] && ns !in q.stack;
    forall n ensures n in q.stack <==> q.StateOf(n) == InProgress {
      assert n in p.stack <==> n in q.stack || n == ns;
    }
  }

  lemma AppendKeepsOrder(resolver: Resolver, order: seq<Namespace>, ns: Namespace)
    requires DependenciesFirst(resolver, order)
    requires resolver(ns).Deps? && forall d :: d in resolver(ns).deps ==> d in order
    ensures DependenciesFirst(resolver, order + [ns])
  {
    var q := order + [ns];
    assert q[..|order|] == order;
    forall i, d | 0 <= i < |q| && Edge(resolver, q[i], d) ensures d in q[..i] {
      if i < |order| {
        assert q[i] == order[i] && q[..i] == order[..i];
      }
    }
  }

  ghost predicate NotDoneBefore(ctxDone: nat -> bool, n: nat) {
    n == 0 || (!ctxDone(n - 1) && NotDoneBefore(ctxDone, n - 1))
  }

  lemma {:induction false} EachPollNotDone(ctxDone: nat -> bool, n: nat)
    requires NotDoneBefore(ctxDone, n)
    ensures forall k: nat :: k < n ==> !ctxDone(k)
  {
    if n > 0 {
      EachPollNotDone(ctxDone, n - 1);
    }
  }

  /** A failure names a cycle or a resolver error within reach, or the poll that found
      the context done. */
  ghost predicate Explained(r: Outcome, resolver: Resolver, root: Namespace, ctxDone: nat -> bool, polls: nat) {
    match r
    case Ok => true
    case Cyclic(path) => IsCycle(resolver, path) && Reaches(resolver, root, path[0])
    case ResolverFailed(ns, message) => Reaches(resolver, root, ns) && resolver(ns) == ResolverError(message)
    case Cancelled => ctxDone(polls)
  }

  class Traversal {
    const resolver: Resolver
    const ctxDone: nat -> bool  // whether the context is found done at its k-th check
    var state: map<Namespace, NodeState>
    var stack: seq<Namespace>
    var order: seq<Namespace>
    ghost var asked: multiset<Namespace>  // how often the resolver was called for each namespace

    ghost function Sofar(): Progress
      reads this
    {
      Progress(state, stack, order, asked)
    }

    /** The context is polled once before each call of the resolver, and each of these
        polls found it not done. */
    ghost predicate Polled()
      reads this
    {
      |asked| == |state| && NotDoneBefore(ctxDone, |state|)
    }

    constructor (ctxDone: nat -> bool, resolver: Resolver)
      ensures this.resolver == resolver && this.ctxDone == ctxDone
      ensures state == map[] && stack == [] && order == [] && asked == multiset{}
    {
      this.resolver, this.ctxDone := resolver, ctxDone;
      state, stack, order, asked := map[], [], [], multiset{};
    }

    method Dfs(ns: Namespace, ghost root: Namespace, ghost universe: set<Namespace>) returns (r: Outcome)
      requires Sofar().Valid(resolver, root) && Reaches(resolver, root, ns)
      requires stack != [] ==> Edge(resolver, stack[|stack| - 1], ns)
      requires Closed(resolver, universe) && ns in universe && state.Keys <= universe && Polled()
      modifies this
      decreases universe - state.Keys, 1
      ensures Sofar().Valid(resolver, root) && old(state.Keys) <= state.Keys <= universe
      ensures r.Ok? ==>
        && stack == old(stack) && ns in order && (forall n :: n in old(order) ==> n in order)
        && (old(Sofar().StateOf(ns)) == Unvisited ==> order[|order| - 1] == ns)
      ensures Polled() && Explained(r, resolver, root, ctxDone, |state|)
      ensures !r.Cancelled? ==> ns in state
    {
      var mark := if ns in state then state[ns] else Unvisited;
      if mark == Done {
        return Ok;
      }
      if mark == InProgress {
        var path := BuildCycleError(ns, root);
        return Cyclic(path);
      }
      if ctxDone(|state|) {
        return Cancelled;
      }
      r := Visit(ns, root, universe);
    }

    /** What Dfs does with a node it has not seen, the context not being done. */
    method Visit(ns: Namespace, ghost root: Namespace, ghost universe: set<Namespace>) returns (r: Outcome)
      requires Sofar().Valid(resolver, root) && Reaches(resolver, root, ns) && Sofar().StateOf(ns) == Unvisited
      requires stack != [] ==> Edge(resolver, stack[|stack| - 1], ns)
      requires Closed(resolver, universe) && ns in universe && state.Keys <= universe && Polled() && !ctxDone(|state|)
      modifies this
      decreases universe - state.Keys, 0
      ensures Sofar().Valid(resolver, root) && old(state.Keys) <= state.Keys <= universe
      ensures r.Ok? ==>
        && stack == old(stack) && ns in order && (forall n :: n in old(order) ==> n in order)
        && order[|order| - 1] == ns
      ensures Polled() && Explained(r, resolver, root, ctxDone, |state|)
      ensures ns in state
    {
      Enter(ns, root);
      var answer := resolver(ns);
      if answer.ResolverError? {
        return ResolverFailed(ns, answer.message);
      }
      r := VisitAll(ns, answer.deps, root, universe);
      if r.Ok? {
        Leave(ns, root);
      }
    }

    /** The loop over the dependencies of the node on top of the stack. */
    method VisitAll(ns: Namespace, deps: seq<Namespace>, ghost root: Namespace, ghost universe: set<Namespace>)
      returns (r: Outcome)
      requires Sofar().Valid(resolver, root) && resolver(ns) == Deps(deps)
      requires ns in universe && stack != [] && stack[|stack| - 1] == ns
      requires Closed(resolver, universe) && state.Keys <= universe && Polled()
      modifies this
      decreases universe - state.Keys, 2
      ensures Sofar().Valid(resolver, root) && old(state.Keys) <= state.Keys <= universe
      ensures r.Ok? ==>
        stack == old(stack) && (forall n :: n in old(order) ==> n in order) && forall d :: d in deps ==> d in order
      ensures Polled() && Explained(r, resolver, root, ctxDone, |state|)
    {
      assert ns in stack && ns in state;
      var i := 0;
      while i < |deps|
        invariant i <= |deps|
        invariant Sofar().Valid(resolver, root) && stack == old(stack) && Polled()
        invariant forall n :: n in old(order) ==> n in order
        invariant old(state.Keys) <= state.Keys <= universe
        invariant forall d :: d in deps[..i] ==> d in order
      {
        assert deps[..i + 1] == deps[..i] + [deps[i]];
        ReachesNext(resolver, root, ns, deps[i]);
        r := Dfs(deps[i], root, universe);
        if !r.Ok? {
          return;
        }
        i := i + 1;
      }
      assert deps[..i] == deps;
      return Ok;
    }

    method Enter(ns: Namespace, ghost root: Namespace)
      requires Sofar().Valid(resolver, root) && Reaches(resolver, root, ns) && Sofar().StateOf(ns) == Unvisited
      requires stack != [] ==> Edge(resolver, stack[|stack| - 1], ns)
      requires Polled() && !ctxDone(|state|)
      modifies this
      ensures Polled() && Sofar() == old(Sofar()).Start(ns) && Sofar().Valid(resolver, root)
    {
      StartKeepsValid(resolver, root, Sofar(), ns);
      state := state[ns := InProgress];
      stack := stack + [ns];
      asked := asked + multiset{ns};
    }

    method Leave(ns: Namespace, ghost root: Namespace)
      requires Sofar().Valid(resolver, root) && stack != [] && stack[|stack| - 1] == ns
      requires resolver(ns).Deps? && (forall d :: d in resolver(ns).deps ==> d in order) && Polled()
      modifies this
      ensures Polled() && Sofar() == old(Sofar()).Finish() && Sofar().Valid(resolver, root)
    {
      FinishKeepsValid(resolver, root, Sofar());
      stack := stack[..|stack| - 1];
      state := state[ns := Done];
      order := order + [ns];
    }

    method BuildCycleError(ns: Namespace, ghost root: Namespace) returns (path: seq<Namespace>)
      requires Sofar().Valid(resolver, root) && ns in stack
      requires Edge(resolver, stack[|stack| - 1], ns)
      ensures IsCycle(resolver, path) && path[0] == ns && Reaches(resolver, root, ns)
    {
      var cycleStart := 0;
      var i := 0;
      while i < |stack|
        invariant 0 <= i <= |stack|
        invariant ns !in stack[..i] && cycleStart == 0
      {
        if stack[i] == ns {
          cycleStart := i;
          break;
        }
        i := i + 1;
      }
      path := stack[cycleStart..] + [ns];
    }
  }

  /** Runs to its end on every finite dependency graph. A success is a complete
      dependency order of what the root reaches; a reported cycle is a real one;
      and when neither the resolver nor the context fails, a cycle is reported
      exactly when the root reaches one. */
  method Resolve(ctxDone: nat -> bool, root: Namespace, resolver: Resolver, ghost universe: set<Namespace>)
    returns (r: Outcome, order: seq<Namespace>, ghost asked: multiset<Namespace>)
    requires root in universe && Closed(resolver, universe)
    ensures r.Ok? ==>
      && NoDuplicates(order) && DependenciesFirst(resolver, order)
      && (forall n :: n in order <==> Reaches(resolver, root, n))
      && order != [] && order[|order| - 1] == root
      && (forall n :: asked[n] == if n in order then 1 else 0)
    ensures r.Cyclic? ==> IsCycle(resolver, r.path) && Reaches(resolver, root, r.path[0])
    ensures r.ResolverFailed? ==>
      Reaches(resolver, root, r.ns) && resolver(r.ns) == ResolverError(r.message)
    // the resolver is called only while the context is found not done, and the poll that
    // finds it done is the last: one that is done from the start ends it at once
    ensures forall k: nat :: k < |asked| ==> !ctxDone(k)
    ensures r.Cancelled? ==> ctxDone(|asked|)
    ensures ctxDone(0) ==> r.Cancelled?
    ensures !r.Ok? ==> order == []
    ensures (forall n :: Reaches(resolver, root, n) ==> resolver(n).Deps?) && (forall k: nat :: !ctxDone(k)) ==>
      (r.Cyclic? <==> exists c :: IsCycle(resolver, c) && Reaches(resolver, root, c[0]))
    ensures (exists c :: IsCycle(resolver, c) && Reaches(resolver, root, c[0])) ==> !r.Ok?
  {
    var t := new Traversal(ctxDone, resolver);
    ReachesSelf(resolver, root);
    r := t.Dfs(root, root, universe);
    order, asked := [], t.asked;
    EachPollNotDone(ctxDone, |asked|);
    if r.Ok? {
      order := t.order;
      OrderExcludesCycles(resolver, order, root);
    }
  }
}
