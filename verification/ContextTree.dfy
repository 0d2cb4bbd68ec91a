/**
 * The cancellation tree of context/context.go as a step system.
 *
 * Any number of goroutines build contexts with WithCancel, WithDeadline and WithValue and cancel
 * them, each holding a stack of instructions still to run.  A step runs the top instruction:
 * entering a critical section blocks while another goroutine holds the node's mutex, and a
 * cancel keeps its node locked while it cancels the children one by one.
 *
 * The invariant ties three things together: the tree (a registered child that is not cancelled
 * is in its parent's children map), the mutexes (whoever holds one has its release on the
 * stack), and the cancellations under way (a node with an error whose children are not all
 * cancelled is locked by the goroutine that is cancelling them).
 */
module ContextTree {
  import opened Prelude

  // A stack may owe the cancellation of a node to a lower instruction of its own: a sweep of a
  // parent relies on the cancel it has pushed for a child.  `owed` collects these promises on
  // the way down a stack.
  //
  // The theorems come first; that every step keeps the invariant is proved after them, one kind
  // of instruction at a time.

  datatype Error = Canceled | DeadlineExceeded

  /** A Context value: Background and TODO, a cancelCtx or timerCtx, or a valueCtx. */
  datatype Context = Background | At(id: nat) | Value(parent: Context, key: int, val: int)

  /** parentCancelCtx: the nearest enclosing cancelCtx. */
  function ParentCancel(c: Context): Option<nat> {
    match c
    case Background => None
    case At(id) => Some(id)
    case Value(p, _, _) => ParentCancel(p)
  }

  datatype Kind = CancelKind | TimerKind

  datatype Chan = Absent | Open | Closed

  datatype Node = Node(
    parent: Option<nat>,
    kind: Kind,
    mu: Option<nat>,          // the goroutine holding the mutex
    done: Chan,
    children: set<nat>,
    err: Option<Error>,
    timer: bool,
    linked: bool,             // propagateCancel has dealt with this node
    swept: bool,              // its cancel has finished with the children
    removers: set<nat>,       // goroutines that took on removing it from its parent
    expired: bool)            // WithDeadline found its deadline past and has cancelled it

  /** What to do inside a critical section. */
  datatype Section =
    | MakeDone
    | Attach(kind: Kind)
    | Mark(rm: bool, e: Error)
    | Delete(c: nat)
    | StartTimer
    | StopTimer

  datatype Instr =
    | Enter(n: nat, section: Section)
    | Exit(n: nat)
    | Cancel(n: nat, rm: bool, e: Error)
    | CloseDone(n: nat, e: Error)
    | Sweep(n: nat, e: Error, todo: set<nat>)
    | Remove(n: nat)
    | Link(n: nat)
    | Deadline(n: nat)
    | Expire(n: nat)

  datatype Stack = Nil | Push(top: Instr, rest: Stack)

  datatype State = State(nodes: seq<Node>, threads: map<nat, Stack>)

  datatype Action =
    | With(t: nat, ctx: Context, kind: Kind)        // WithCancel or WithDeadline
    | CallCancel(t: nat, c: nat, rm: bool, e: Error) // a CancelFunc (Canceled) or a timer firing (DeadlineExceeded); rm is false only when WithDeadline cancelled
    | Step(t: nat, child: nat, expired: bool)        // `child` and `expired` resolve the map order and the clock

  function Init(): State {
    State([], map[])
  }

  function NewNode(parent: Option<nat>, kind: Kind, linked: bool): Node {
    Node(parent, kind, None, Absent, {}, None, false, linked, false, {}, false)
  }

  predicate Enabled(s: State, a: Action) {
    match a
    case With(t, ctx, _) =>
      t !in s.threads && (ParentCancel(ctx).Some? ==>
        ParentCancel(ctx).value < |s.nodes| && s.nodes[ParentCancel(ctx).value].linked)
    case CallCancel(t, c, rm, e) =>
      && t !in s.threads && c < |s.nodes| && s.nodes[c].linked && rm == !s.nodes[c].expired
      && (e.DeadlineExceeded? ==> s.nodes[c].timer)
    case Step(t, child, _) =>
      && t in s.threads && s.threads[t].Push?
      && match s.threads[t].top {
           case Enter(n, _) => n < |s.nodes| && s.nodes[n].mu == None
           case Sweep(n, _, todo) => n < |s.nodes| && (todo != {} ==> child in todo)
           case i => i.n < |s.nodes|
         }
  }

  /** The rest of WithDeadline once the node exists. */
  function AfterAttach(c: nat, kind: Kind, rest: Stack): Stack {
    if kind.TimerKind? then Push(Deadline(c), rest) else rest
  }

  function Apply(s: State, a: Action): State
    requires Enabled(s, a)
  {
    match a
    case With(t, ctx, kind) =>
      (match ParentCancel(ctx)
       case None =>
         State(s.nodes + [NewNode(None, kind, true)], s.threads[t := AfterAttach(|s.nodes|, kind, Nil)])
       case Some(p) =>
         s.(threads := s.threads[t := Push(Enter(p, MakeDone), Push(Enter(p, Attach(kind)), Nil))]))
    case CallCancel(t, c, rm, e) => s.(threads := s.threads[t := Push(Cancel(c, rm, e), Nil)])
    case Step(t, child, expired) =>
      var (nodes, k) := Exec(s.nodes, t, s.threads[t].top, s.threads[t].rest, child, expired);
      State(nodes, s.threads[t := k])
  }

  /** One instruction of goroutine `t`: the new nodes and the new stack. */
  function Exec(nodes: seq<Node>, t: nat, i: Instr, rest: Stack, child: nat, expired: bool): (seq<Node>, Stack)
    requires i.n < |nodes|
  {
    var n, x := i.n, nodes[i.n];
    match i
    case Enter(_, section) => ExecEnter(nodes, t, n, section, rest)
    case Exit(_) => (nodes[n := x.(mu := None)], rest)
    case Cancel(_, rm, e) =>
      if x.kind.CancelKind? then
        (nodes, Push(Enter(n, Mark(rm, e)), rest))
      else if rm then
        (nodes[n := x.(removers := x.removers + {t})],
         Push(Enter(n, Mark(false, e)), Push(Remove(n), Push(Enter(n, StopTimer), rest))))
      else
        (nodes, Push(Enter(n, Mark(false, e)), Push(Enter(n, StopTimer), rest)))
    case CloseDone(_, e) => (nodes[n := x.(done := Closed)], Push(Sweep(n, e, x.children), rest))
    case Sweep(_, e, todo) =>
      if todo == {} then (nodes[n := x.(children := {}, swept := true)], rest)
      else (nodes, Push(Cancel(child, false, e), Push(Sweep(n, e, todo - {child}), rest)))
    case Remove(_) =>
      if x.parent.Some? then (nodes, Push(Enter(x.parent.value, Delete(n)), rest)) else (nodes, rest)
    case Link(_) => (nodes[n := x.(linked := true)], rest)
    case Deadline(_) =>
      if expired then (nodes, Push(Cancel(n, true, DeadlineExceeded), Push(Expire(n), rest)))
      else (nodes, Push(Enter(n, StartTimer), rest))
    case Expire(_) => (nodes[n := x.(expired := true)], rest)
  }

  function ExecEnter(nodes: seq<Node>, t: nat, n: nat, section: Section, rest: Stack): (seq<Node>, Stack)
    requires n < |nodes|
  {
    var x := nodes[n].(mu := Some(t));
    match section
    case MakeDone => (nodes[n := if x.done == Absent then x.(done := Open) else x], Push(Exit(n), rest))
    case Attach(kind) =>
      var c := |nodes|;
      if x.err == None then
        (nodes[n := x.(children := x.children + {c})] + [NewNode(Some(n), kind, true)],
         Push(Exit(n), AfterAttach(c, kind, rest)))
      else
        (nodes[n := x] + [NewNode(Some(n), kind, false)],
         Push(Cancel(c, false, x.err.value), Push(Link(c), Push(Exit(n), AfterAttach(c, kind, rest)))))
    case Mark(rm, e) =>
      if x.err.Some? then (nodes[n := x], Push(Exit(n), rest))
      else
        var x' := x.(err := Some(e), removers := if rm then x.removers + {t} else x.removers);
        (nodes[n := x'], Push(CloseDone(n, e), Push(Exit(n), if rm then Push(Remove(n), rest) else rest)))
    case Delete(c) => (nodes[n := x.(children := x.children - {c})], Push(Exit(n), rest))
    case StartTimer => (nodes[n := if x.err == None then x.(timer := true) else x], Push(Exit(n), rest))
    case StopTimer => (nodes[n := x.(timer := false)], Push(Exit(n), rest))
  }

  ghost predicate Reaches(s: State, acts: seq<Action>, s': State)
    decreases |acts|
  {
    if acts == [] then s == s'
    else Enabled(s, acts[0]) && Reaches(Apply(s, acts[0]), acts[1..], s')
  }

  // ------------------------------------------------------------- the invariant

  /** The innermost mutex a stack still has to release. */
  function Inner(k: Stack): Option<nat> {
    match k
    case Nil => None
    case Push(Exit(n), _) => Some(n)
    case Push(_, rest) => Inner(rest)
  }

  /** The mutexes a stack holds. */
  function Held(k: Stack): set<nat> {
    match k
    case Nil => {}
    case Push(i, rest) => (if i.Exit? then {i.n} else {}) + Held(rest)
  }

  /** The nodes whose cancel is under way in a stack. */
  function Busy(k: Stack): set<nat> {
    match k
    case Nil => {}
    case Push(i, rest) => (if i.CloseDone? || i.Sweep? then {i.n} else {}) + Busy(rest)
  }

  /** The node that an instruction will leave completely cancelled. */
  function Promise(i: Instr): set<nat> {
    if i.Cancel? || i.CloseDone? || i.Sweep? || (i.Enter? && i.section.Mark?) then {i.n} else {}
  }

  /** Locks nest from a node to one of its own children only. */
  predicate Nested(nodes: seq<Node>, n: nat, inner: Option<nat>) {
    n < |nodes| && (inner.Some? ==> nodes[n].parent == inner)
  }

  ghost predicate Settled(nodes: seq<Node>, c: nat, owed: set<nat>) {
    c < |nodes| && (nodes[c].swept || c in owed)
  }

  ghost predicate InstrOk(nodes: seq<Node>, t: nat, i: Instr, rest: Stack, owed: set<nat>) {
    match i
    case Enter(n, section) =>
      && Nested(nodes, n, Inner(rest))
      && (match section
          case Attach(_) => Inner(rest) == None && nodes[n].linked
          case Mark(rm, _) => rm ==> Inner(rest) == None
          case Delete(c) => Inner(rest) == None && Settled(nodes, c, owed) && nodes[c].parent == Some(n)
          case _ => true)
    case Exit(n) => Nested(nodes, n, Inner(rest)) && nodes[n].mu == Some(t)
    case Cancel(n, rm, _) => Nested(nodes, n, Inner(rest)) && (rm ==> Inner(rest) == None)
    case CloseDone(n, _) =>
      && n < |nodes| && rest.Push? && rest.top == Exit(n)
      && nodes[n].err.Some? && !nodes[n].swept && nodes[n].done != Closed
    case Sweep(n, _, todo) =>
      && n < |nodes| && rest.Push? && rest.top == Exit(n) && todo <= nodes[n].children
      && nodes[n].err.Some? && !nodes[n].swept && nodes[n].done == Closed
      && (forall c :: c in nodes[n].children ==> c in todo || Settled(nodes, c, owed))
    case Remove(n) => Inner(rest) == None && Settled(nodes, n, owed)
    case Link(n) =>
      && Settled(nodes, n, owed) && nodes[n].parent.Some? && Inner(rest) == nodes[n].parent
    case Deadline(n) => Inner(rest) == None && n < |nodes|
    case Expire(n) => Inner(rest) == None && Settled(nodes, n, owed)
  }

  ghost predicate StackOk(nodes: seq<Node>, t: nat, k: Stack, owed: set<nat>)
    decreases k
  {
    k.Push? ==> InstrOk(nodes, t, k.top, k.rest, owed) && StackOk(nodes, t, k.rest, owed + Promise(k.top))
  }

  ghost predicate NodeOk(nodes: seq<Node>, n: nat)
    requires n < |nodes|
  {
    var x := nodes[n];
    && (x.parent.Some? ==> x.parent.value < n && nodes[x.parent.value].linked)
    && (x.parent == None ==> x.linked)
    && (x.swept ==> x.err.Some? && x.children == {} && x.done == Closed)
    && (x.expired ==> x.swept)
    && (x.err == None ==> x.done != Closed)
    && (forall c :: c in x.children ==> c < |nodes| && nodes[c].parent == Some(n))
    && (x.linked && x.parent.Some? && !x.swept ==> n in nodes[x.parent.value].children)
  }

  ghost predicate NodesOk(nodes: seq<Node>) {
    forall n {:trigger NodeOk(nodes, n)} :: 0 <= n < |nodes| ==> NodeOk(nodes, n)
  }

  ghost predicate StacksOk(s: State) {
    forall t {:trigger StackOk(s.nodes, t, s.threads[t], {})} :: t in s.threads ==> StackOk(s.nodes, t, s.threads[t], {})
  }

  ghost predicate MutexOk(s: State, n: nat)
    requires n < |s.nodes|
  {
    && (s.nodes[n].mu.Some? ==> s.nodes[n].mu.value in s.threads && n in Held(s.threads[s.nodes[n].mu.value]))
    && (s.nodes[n].err.Some? && !s.nodes[n].swept ==>
          s.nodes[n].mu.Some? && s.nodes[n].mu.value in s.threads && n in Busy(s.threads[s.nodes[n].mu.value]))
  }

  ghost predicate MutexesOk(s: State) {
    forall n {:trigger MutexOk(s, n)} :: 0 <= n < |s.nodes| ==> MutexOk(s, n)
  }

  ghost predicate Inv(s: State) {
    NodesOk(s.nodes) && StacksOk(s) && MutexesOk(s)
  }

  // ------------------------------------------------------------- the theorems

  /** `c` is `p` or one of its descendants. */
  ghost predicate Below(nodes: seq<Node>, p: nat, c: nat)
    decreases c
  {
    && c < |nodes|
    && (c == p || (nodes[c].parent.Some? && nodes[c].parent.value < c && Below(nodes, p, nodes[c].parent.value)))
  }

  lemma {:induction false} SweptBelow(nodes: seq<Node>, p: nat, c: nat)
    requires NodesOk(nodes) && p < |nodes| && nodes[p].swept && Below(nodes, p, c) && nodes[c].linked
    ensures nodes[c].swept && nodes[c].err.Some? && nodes[c].done == Closed
    decreases c
  {
    assert NodeOk(nodes, c);
    if c != p {
      SweptBelow(nodes, p, nodes[c].parent.value);
      assert NodeOk(nodes, nodes[c].parent.value);
    }
  }

  /**
   In every run, when a cancelled context's mutex is free, every registered
   descendant is already cancelled, with its done channel closed.
   */
  lemma CancelReachesDescendants(acts: seq<Action>, s: State, p: nat, c: nat)
    requires Reaches(Init(), acts, s)
    requires p < |s.nodes| && s.nodes[p].err.Some? && s.nodes[p].mu == None
    requires Below(s.nodes, p, c) && s.nodes[c].linked
    ensures s.nodes[c].err.Some? && s.nodes[c].done == Closed && s.nodes[c].children == {}
  {
    RunKeeps(Init(), acts, s);
    assert MutexOk(s, p) && NodeOk(s.nodes, c);
    SweptBelow(s.nodes, p, c);
  }

  /** Outside a node's critical section done is closed exactly when err is set; it is never closed twice. */
  lemma DoneMeansErr(acts: seq<Action>, s: State, n: nat)
    requires Reaches(Init(), acts, s) && n < |s.nodes|
    ensures s.nodes[n].done == Closed ==> s.nodes[n].err.Some?
    ensures s.nodes[n].mu == None ==> (s.nodes[n].done == Closed <==> s.nodes[n].err.Some?)
    ensures forall t, e, k :: t in s.threads && s.threads[t] == Push(CloseDone(n, e), k) ==> s.nodes[n].done != Closed
  {
    RunKeeps(Init(), acts, s);
    assert MutexOk(s, n) && NodeOk(s.nodes, n);
    forall t, e, k | t in s.threads && s.threads[t] == Push(CloseDone(n, e), k) ensures s.nodes[n].done != Closed {
      Unfold(s, t, CloseDone(n, e), k);
    }
  }

  lemma EnterGrows(nodes: seq<Node>, t: nat, n: nat, section: Section, rest: Stack)
    requires n < |nodes|
    ensures Grows(nodes, ExecEnter(nodes, t, n, section, rest).0)
  {
  }

  lemma ExecGrows(nodes: seq<Node>, t: nat, i: Instr, rest: Stack, child: nat, expired: bool)
    requires i.n < |nodes|
    ensures Grows(nodes, Exec(nodes, t, i, rest, child, expired).0)
  {
    if i.Enter? { EnterGrows(nodes, t, i.n, i.section, rest); }
  }

  lemma StepGrows(s: State, a: Action)
    requires Enabled(s, a)
    ensures Grows(s.nodes, Apply(s, a).nodes)
  {
    if a.Step? {
      ExecGrows(s.nodes, a.t, s.threads[a.t].top, s.threads[a.t].rest, a.child, a.expired);
    }
  }

  /** The first error stays: err is set at most once. */
  lemma {:induction false} ErrIsSetOnce(s: State, acts: seq<Action>, s': State, n: nat)
    requires Reaches(s, acts, s') && n < |s.nodes| && s.nodes[n].err.Some?
    ensures n < |s'.nodes| && s'.nodes[n].err == s.nodes[n].err
    decreases |acts|
  {
    if acts != [] {
      StepGrows(s, acts[0]);
      ErrIsSetOnce(Apply(s, acts[0]), acts[1..], s', n);
    }
  }

  /** A goroutine waits for a mutex only while holding ancestors of that node, parent by parent. */
  lemma LocksNestDownward(acts: seq<Action>, s: State, t: nat, n: nat, section: Section, rest: Stack)
    requires Reaches(Init(), acts, s) && t in s.threads && s.threads[t] == Push(Enter(n, section), rest)
    ensures n < |s.nodes|
    ensures Held(rest) != {} ==> s.nodes[n].parent.Some? && s.nodes[n].parent.value in Held(rest)
    ensures forall m :: m in Held(rest) ==> m < n && s.nodes[m].mu == Some(t)
  {
    RunKeeps(Init(), acts, s);
    assert StackOk(s.nodes, t, s.threads[t], {});
    Unfold(s, t, Enter(n, section), rest);
    HeldBound(s.nodes, t, rest, Promise(Enter(n, section)));
    assert NodeOk(s.nodes, n);
  }

  /** Whoever a goroutine waits for can move, or waits for someone deeper in the tree. */
  lemma {:induction false} SomeoneMoves(s: State, t: nat) returns (a: Action)
    requires Inv(s) && t in s.threads && s.threads[t].Push?
    ensures a.Step? && Enabled(s, a)
    decreases |s.nodes| - (if s.threads[t].top.Enter? then s.threads[t].top.n else |s.nodes|)
  {
    var i, rest := s.threads[t].top, s.threads[t].rest;
    assert StackOk(s.nodes, t, s.threads[t], {});
    Unfold(s, t, i, rest);
    if i.Enter? && s.nodes[i.n].mu.Some? {
      var u := s.nodes[i.n].mu.value;
      assert MutexOk(s, i.n);
      assert StackOk(s.nodes, u, s.threads[u], {});
      HeldBound(s.nodes, u, s.threads[u], {});
      if s.threads[u].top.Enter? {
        assert NodeOk(s.nodes, s.threads[u].top.n);
      }
      a := SomeoneMoves(s, u);
    } else {
      var child: nat := 0;
      if i.Sweep? && i.todo != {} {
        child :| child in i.todo;
      }
      a := Step(t, child, false);
    }
  }

  /** In every run, as long as some call has not returned, some goroutine can take a step. */
  lemma NoDeadlock(acts: seq<Action>, s: State, t: nat)
    requires Reaches(Init(), acts, s) && t in s.threads && s.threads[t] != Nil
    ensures exists a: Action :: a.Step? && Enabled(s, a)
  {
    RunKeeps(Init(), acts, s);
    var a := SomeoneMoves(s, t);
  }

  // ------------------------------------------------- removal from the parent

  /** The nodes a stack will still remove from their parents. */
  function Removing(k: Stack): set<nat> {
    match k
    case Nil => {}
    case Push(Remove(n), rest) => {n} + Removing(rest)
    case Push(Enter(_, Delete(c)), rest) => {c} + Removing(rest)
    case Push(_, rest) => Removing(rest)
  }

  ghost predicate Detached(nodes: seq<Node>, c: nat) {
    c < |nodes| && (nodes[c].parent.Some? ==> nodes[c].parent.value < |nodes| && c !in nodes[nodes[c].parent.value].children)
  }

  ghost predicate RemoverOk(s: State, c: nat)
    requires c < |s.nodes|
  {
    forall t :: t in s.nodes[c].removers ==> t in s.threads && (c in Removing(s.threads[t]) || Detached(s.nodes, c))
  }

  ghost predicate RemoversOk(s: State) {
    forall c {:trigger RemoverOk(s, c)} :: 0 <= c < |s.nodes| ==> RemoverOk(s, c)
  }

  /** What one instruction does to pending removals. */
  ghost predicate Progress(nodes: seq<Node>, nodes': seq<Node>, t: nat, k: Stack, k': Stack, c: nat)
    requires c < |nodes| <= |nodes'|
  {
    && (Detached(nodes, c) ==> Detached(nodes', c))
    && (c in Removing(k) ==> c in Removing(k') || Detached(nodes', c))
    && nodes[c].removers <= nodes'[c].removers <= nodes[c].removers + {t}
    && (t in nodes'[c].removers && t !in nodes[c].removers ==> c in Removing(k'))
  }

  lemma EnterProgress(s: State, t: nat, n: nat, section: Section, rest: Stack, c: nat)
    requires Running(s, t, Enter(n, section), rest) && c < |s.nodes|
    ensures var (nodes', k) := ExecEnter(s.nodes, t, n, section, rest); Progress(s.nodes, nodes', t, Push(Enter(n, section), rest), k, c)
  {
    Unfold(s, t, Enter(n, section), rest);
    assert NodeOk(s.nodes, c);
    var (nodes', k) := ExecEnter(s.nodes, t, n, section, rest);
    if section.Mark? && s.nodes[n].err == None {
      var k1 := if section.rm then Push(Remove(n), rest) else rest;
      assert Removing(Push(Exit(n), k1)) == Removing(k1);
    }
    if section.Attach? {
      var k1 := AfterAttach(|s.nodes|, section.kind, rest);
      assert Removing(k1) == Removing(rest);
      var k2 := Push(Exit(n), k1);
      assert Removing(k2) == Removing(k1) && Removing(Push(Link(|s.nodes|), k2)) == Removing(k2);
    }
  }

  lemma ExecProgress(s: State, t: nat, i: Instr, rest: Stack, child: nat, expired: bool, c: nat)
    requires Running(s, t, i, rest) && c < |s.nodes| && !i.Enter?
    ensures var (nodes', k) := Exec(s.nodes, t, i, rest, child, expired); Progress(s.nodes, nodes', t, Push(i, rest), k, c)
  {
    assert NodeOk(s.nodes, c);
    if i.Sweep? {
      var k1 := Push(Sweep(i.n, i.e, i.todo - {child}), rest);
      assert Removing(k1) == Removing(rest);
    }
    if i.Cancel? {
      var k1 := Push(Enter(i.n, StopTimer), rest);
      assert Removing(k1) == Removing(rest);
      assert Removing(Push(Remove(i.n), k1)) == {i.n} + Removing(k1);
    }
  }

  lemma StepKeepsRemovers(s: State, a: Action)
    requires Inv(s) && RemoversOk(s) && Enabled(s, a)
    ensures RemoversOk(Apply(s, a))
  {
    var s' := Apply(s, a);
    forall c | 0 <= c < |s'.nodes| ensures RemoverOk(s', c) {
      if c < |s.nodes| {
        assert RemoverOk(s, c) && NodeOk(s.nodes, c);
        if a.Step? {
          var i, rest := s.threads[a.t].top, s.threads[a.t].rest;
          if i.Enter? {
            EnterProgress(s, a.t, i.n, i.section, rest, c);
          } else {
            ExecProgress(s, a.t, i, rest, a.child, a.expired, c);
          }
        }
      }
    }
  }

  lemma {:induction false} RunKeepsRemovers(s: State, acts: seq<Action>, s': State)
    requires Inv(s) && RemoversOk(s) && Reaches(s, acts, s')
    ensures RemoversOk(s')
    decreases |acts|
  {
    if acts != [] {
      StepKeepsRemovers(s, acts[0]);
      RunKeeps(s, [acts[0]], Apply(s, acts[0]));
      RunKeepsRemovers(Apply(s, acts[0]), acts[1..], s');
    }
  }

  /**
   Once a CancelFunc that took on the removal (on a cancelCtx the call that set err,
   on a timerCtx any call) has returned, the context is in no children map.
   */
  lemma CancelFuncDetaches(acts: seq<Action>, s: State, t: nat, c: nat, p: nat)
    requires Reaches(Init(), acts, s) && c < |s.nodes| && t in s.nodes[c].removers
    requires t in s.threads && s.threads[t] == Nil && p < |s.nodes|
    ensures c !in s.nodes[p].children
  {
    RunKeeps(Init(), acts, s);
    RunKeepsRemovers(Init(), acts, s);
    assert RemoverOk(s, c) && NodeOk(s.nodes, p);
  }

  // ------------------------------------------- what a returned CancelFunc leaves

  /** Why a cancel that removes nothing may set the error: it is set, or the parent's is, or a removal follows. */
  ghost predicate Just(nodes: seq<Node>, t: nat, i: Instr, rest: Stack) {
    (i.Cancel? && !i.rm) || (i.Enter? && i.section.Mark? && !i.section.rm) ==>
      && i.n < |nodes|
      && (|| nodes[i.n].err.Some?
          || nodes[i.n].parent == None
          || (nodes[i.n].parent.value < |nodes| && nodes[nodes[i.n].parent.value].err.Some?)
          || (i.n in Removing(rest) && t in nodes[i.n].removers))
  }

  ghost predicate JustStack(nodes: seq<Node>, t: nat, k: Stack) {
    k.Push? ==> Just(nodes, t, k.top, k.rest) && JustStack(nodes, t, k.rest)
  }

  ghost predicate StacksJust(s: State) {
    forall t {:trigger JustStack(s.nodes, t, s.threads[t])} :: t in s.threads ==> JustStack(s.nodes, t, s.threads[t])
  }

  lemma {:induction false} JustGrows(nodes: seq<Node>, nodes': seq<Node>, t: nat, k: Stack)
    requires JustStack(nodes, t, k) && Grows(nodes, nodes')
    ensures JustStack(nodes', t, k)
  {
    if k.Push? { JustGrows(nodes, nodes', t, k.rest); }
  }

  lemma EnterKeepsJust(s: State, t: nat, n: nat, section: Section, rest: Stack)
    requires Running(s, t, Enter(n, section), rest) && JustStack(s.nodes, t, rest)
    ensures var (nodes', k) := ExecEnter(s.nodes, t, n, section, rest); JustStack(nodes', t, k)
  {
    var (nodes', k) := ExecEnter(s.nodes, t, n, section, rest);
    EnterGrows(s.nodes, t, n, section, rest);
    JustGrows(s.nodes, nodes', t, rest);
    if section.Attach? {
      var k1 := AfterAttach(|s.nodes|, section.kind, rest);
      assert JustStack(nodes', t, k1);
      assert JustStack(nodes', t, Push(Exit(n), k1));
      assert JustStack(nodes', t, Push(Link(|s.nodes|), Push(Exit(n), k1)));
    }
    if section.Mark? {
      assert JustStack(nodes', t, Push(Remove(n), rest));
      assert JustStack(nodes', t, Push(Exit(n), if section.rm then Push(Remove(n), rest) else rest));
    }
  }

  lemma CancelKeepsJust(s: State, t: nat, n: nat, rm: bool, e: Error, rest: Stack)
    requires Running(s, t, Cancel(n, rm, e), rest) && JustStack(s.nodes, t, Push(Cancel(n, rm, e), rest))
    ensures var (nodes', k) := Exec(s.nodes, t, Cancel(n, rm, e), rest, 0, false); JustStack(nodes', t, k)
  {
    var (nodes', k) := Exec(s.nodes, t, Cancel(n, rm, e), rest, 0, false);
    ExecGrows(s.nodes, t, Cancel(n, rm, e), rest, 0, false);
    JustGrows(s.nodes, nodes', t, rest);
    var k1 := Push(Enter(n, StopTimer), rest);
    assert JustStack(nodes', t, k1) && Removing(k1) == Removing(rest);
    assert JustStack(nodes', t, Push(Remove(n), k1)) && n in Removing(Push(Remove(n), k1));
  }

  lemma ExecKeepsJust(s: State, t: nat, i: Instr, rest: Stack, child: nat, expired: bool)
    requires Running(s, t, i, rest) && JustStack(s.nodes, t, Push(i, rest)) && !i.Enter? && !i.Cancel?
    requires i.Sweep? && i.todo != {} ==> child in i.todo
    ensures var (nodes', k) := Exec(s.nodes, t, i, rest, child, expired); JustStack(nodes', t, k)
  {
    var (nodes', k) := Exec(s.nodes, t, i, rest, child, expired);
    ExecGrows(s.nodes, t, i, rest, child, expired);
    JustGrows(s.nodes, nodes', t, rest);
    Unfold(s, t, i, rest);
    assert NodeOk(s.nodes, i.n);
    if i.Sweep? && i.todo != {} {
      assert JustStack(nodes', t, Push(Sweep(i.n, i.e, i.todo - {child}), rest));
    }
    if i.Deadline? { assert JustStack(nodes', t, Push(Expire(i.n), rest)); }
  }

  lemma StepKeepsJust(s: State, a: Action)
    requires Inv(s) && StacksJust(s) && Enabled(s, a)
    ensures StacksJust(Apply(s, a))
  {
    var s' := Apply(s, a);
    StepGrows(s, a);
    forall u | u in s'.threads ensures JustStack(s'.nodes, u, s'.threads[u]) {
      if u != a.t {
        assert JustStack(s.nodes, u, s.threads[u]);
        JustGrows(s.nodes, s'.nodes, u, s.threads[u]);
      } else if a.Step? {
        var i, rest := s.threads[u].top, s.threads[u].rest;
        assert JustStack(s.nodes, u, s.threads[u]) && Running(s, u, i, rest);
        if i.Enter? {
          EnterKeepsJust(s, u, i.n, i.section, rest);
        } else if i.Cancel? {
          CancelKeepsJust(s, u, i.n, i.rm, i.e, rest);
        } else {
          ExecKeepsJust(s, u, i, rest, a.child, a.expired);
        }
      } else {
        CallIsJust(s, a);
      }
    }
  }

  lemma CallIsJust(s: State, a: Action)
    requires Inv(s) && Enabled(s, a) && !a.Step?
    ensures JustStack(Apply(s, a).nodes, a.t, Apply(s, a).threads[a.t])
  {
    if a.CallCancel? { assert NodeOk(s.nodes, a.c); }
    var k := Apply(s, a).threads[a.t];
    assert k.Push? && k.rest.Push? ==> JustStack(Apply(s, a).nodes, a.t, k.rest);
  }

  /** A goroutine that took on removing `c` and has not done so yet. */
  ghost predicate Pending(s: State, c: nat, u: nat) {
    c < |s.nodes| && u in s.nodes[c].removers && u in s.threads && c in Removing(s.threads[u])
  }

  /** A cancelled child still listed is one whose parent is cancelled too, or whose removal is pending. */
  ghost predicate Answered(s: State, c: nat) {
    c < |s.nodes| && s.nodes[c].err.Some? && !Detached(s.nodes, c) && s.nodes[c].parent.value < |s.nodes| ==>
      s.nodes[s.nodes[c].parent.value].err.Some? || exists u :: Pending(s, c, u)
  }

  ghost predicate AllAnswered(s: State) {
    forall c {:trigger Answered(s, c)} :: 0 <= c < |s.nodes| ==> Answered(s, c)
  }

  /** The step that sets an error. */
  lemma MarkAnswers(s: State, a: Action, c: nat)
    requires Inv(s) && StacksJust(s) && Enabled(s, a) && a.Step? && c < |s.nodes|
    requires s.nodes[c].err == None && Apply(s, a).nodes[c].err.Some?
    ensures Answered(Apply(s, a), c)
  {
    var i, rest := s.threads[a.t].top, s.threads[a.t].rest;
    assert i.Enter? && i.n == c && i.section.Mark?;
    assert JustStack(s.nodes, a.t, s.threads[a.t]);
    var s' := Apply(s, a);
    var k1 := if i.section.rm then Push(Remove(c), rest) else rest;
    assert s'.threads[a.t] == Push(CloseDone(c, i.section.e), Push(Exit(c), k1));
    assert Removing(Push(Exit(c), k1)) == Removing(k1);
    if i.section.rm || c in Removing(rest) {
      assert c in Removing(s'.threads[a.t]);
      assert Pending(s', c, a.t) || a.t !in s'.nodes[c].removers;
    }
  }

  lemma StepAnswers(s: State, a: Action, c: nat)
    requires Inv(s) && StacksJust(s) && Enabled(s, a) && c < |s.nodes| && Answered(s, c)
    ensures Answered(Apply(s, a), c)
  {
    var s' := Apply(s, a);
    StepGrows(s, a);
    assert NodeOk(s.nodes, c);
    if a.Step? {
      var i, rest := s.threads[a.t].top, s.threads[a.t].rest;
      if s.nodes[c].err == None {
        if s'.nodes[c].err.Some? { MarkAnswers(s, a, c); }
      } else {
        StillAnswered(s, a, c);
      }
    } else if u :| Pending(s, c, u) {
      assert Pending(s', c, u);
    }
  }

  lemma StillAnswered(s: State, a: Action, c: nat)
    requires Inv(s) && Enabled(s, a) && a.Step? && c < |s.nodes| && Answered(s, c) && s.nodes[c].err.Some?
    requires Grows(s.nodes, Apply(s, a).nodes)
    ensures Answered(Apply(s, a), c)
  {
    var s' := Apply(s, a);
    var i, rest := s.threads[a.t].top, s.threads[a.t].rest;
    assert NodeOk(s.nodes, c) && Running(s, a.t, i, rest);
    if i.Enter? {
      EnterProgress(s, a.t, i.n, i.section, rest, c);
    } else {
      ExecProgress(s, a.t, i, rest, a.child, a.expired, c);
    }
    if u :| Pending(s, c, u) {
      assert Pending(s', c, u) || Detached(s'.nodes, c);
    }
  }

  lemma StepKeepsAnswers(s: State, a: Action)
    requires Inv(s) && StacksJust(s) && AllAnswered(s) && Enabled(s, a)
    ensures AllAnswered(Apply(s, a))
  {
    var s' := Apply(s, a);
    forall c | 0 <= c < |s'.nodes| ensures Answered(s', c) {
      if c < |s.nodes| {
        assert Answered(s, c);
        StepAnswers(s, a, c);
      }
    }
  }

  lemma {:induction false} RunKeepsAnswers(s: State, acts: seq<Action>, s': State)
    requires Inv(s) && StacksJust(s) && AllAnswered(s) && Reaches(s, acts, s')
    ensures Inv(s') && StacksJust(s') && AllAnswered(s')
    decreases |acts|
  {
    if acts != [] {
      RunKeeps(s, [acts[0]], Apply(s, acts[0]));
      StepKeepsJust(s, acts[0]);
      StepKeepsAnswers(s, acts[0]);
      RunKeepsAnswers(Apply(s, acts[0]), acts[1..], s');
    }
  }

  /** A parent that sweeps its children: its error is set, and the goroutine that holds its mutex is cancelling them. */
  ghost predicate Sweeping(s: State, p: nat) {
    p < |s.nodes| && s.nodes[p].err.Some? && s.nodes[p].mu.Some?
    && s.nodes[p].mu.value in s.threads && p in Busy(s.threads[s.nodes[p].mu.value])
  }

  /** A cancelled context is listed only by a parent in the middle of its own cancel, or before a removal under way. */
  lemma ListedOnlyMeanwhile(acts: seq<Action>, s: State, c: nat, p: nat)
    requires Reaches(Init(), acts, s) && c < |s.nodes| && p < |s.nodes| && s.nodes[c].err.Some?
    ensures c in s.nodes[p].children ==> Sweeping(s, p) || exists u :: Pending(s, c, u) && s.threads[u] != Nil
  {
    RunKeepsAnswers(Init(), acts, s);
    if c in s.nodes[p].children {
      assert NodeOk(s.nodes, p) && NodeOk(s.nodes, c) && Answered(s, c) && MutexOk(s, p);
      if u :| Pending(s, c, u) {
        assert s.threads[u] != Nil;
      }
    }
  }

  /** `c` is cancelled, or goroutine t will see to it. */
  ghost predicate Pledged(s: State, t: nat, c: nat) {
    c < |s.nodes| && t in s.threads && (s.nodes[c].err.Some? || c in Promised(s.threads[t]))
  }

  function Promised(k: Stack): set<nat> {
    match k case Nil => {} case Push(i, rest) => Promise(i) + Promised(rest)
  }

  /** A step drops no promise but one it keeps. */
  lemma StepKeepsPromises(s: State, t: nat, i: Instr, rest: Stack, child: nat, expired: bool, c: nat)
    requires Running(s, t, i, rest) && c in Promised(Push(i, rest)) && c < |s.nodes|
    ensures var (nodes', k) := Exec(s.nodes, t, i, rest, child, expired); nodes'[c].err.Some? || c in Promised(k)
  {
    Unfold(s, t, i, rest);
    var (nodes', k) := Exec(s.nodes, t, i, rest, child, expired);
    ExecGrows(s.nodes, t, i, rest, child, expired);
    if c in Promised(rest) {
      PromisesKept(s.nodes, t, i, rest, child, expired, c);
    } else {
      assert c == i.n;
    }
  }

  lemma PromisesKept(nodes: seq<Node>, t: nat, i: Instr, rest: Stack, child: nat, expired: bool, c: nat)
    requires i.n < |nodes| && c in Promised(rest)
    ensures c in Promised(Exec(nodes, t, i, rest, child, expired).1)
  {
    var k := Exec(nodes, t, i, rest, child, expired).1;
    assert k == rest || k.rest == rest || k.rest.rest == rest || k.rest.rest.rest == rest || k.rest.rest.rest.rest == rest;
    if k != rest {
      assert Promised(k.rest) <= Promised(k);
      if k.rest != rest {
        assert Promised(k.rest.rest) <= Promised(k.rest);
        if k.rest.rest != rest {
          assert Promised(k.rest.rest.rest) <= Promised(k.rest.rest);
        }
      }
    }
  }

  lemma {:induction false} PledgeHolds(s: State, acts: seq<Action>, s': State, t: nat, c: nat)
    requires Inv(s) && Reaches(s, acts, s') && Pledged(s, t, c)
    ensures Pledged(s', t, c)
    decreases |acts|
  {
    if acts != [] {
      var a := acts[0];
      RunKeeps(s, [a], Apply(s, a));
      StepGrows(s, a);
      if a.Step? && a.t == t && s.nodes[c].err == None {
        var i, rest := s.threads[t].top, s.threads[t].rest;
        assert Running(s, t, i, rest);
        StepKeepsPromises(s, t, i, rest, a.child, a.expired, c);
      }
      PledgeHolds(Apply(s, a), acts[1..], s', t, c);
    }
  }

  /**
   What any CancelFunc call leaves behind when it has returned: its context is cancelled, and
   listed by a parent only while that parent's own cancel is sweeping its children or while
   another goroutine that took on the removal has not returned.
   */
  lemma CancelFuncReturns(before: seq<Action>, s0: State, a: Action, after: seq<Action>, s: State, p: nat)
    requires Reaches(Init(), before, s0) && a.CallCancel? && Enabled(s0, a) && Reaches(Apply(s0, a), after, s)
    requires a.t in s.threads && s.threads[a.t] == Nil && p < |s.nodes|
    ensures a.c < |s.nodes| && s.nodes[a.c].err.Some?
    ensures a.c in s.nodes[p].children ==>
              Sweeping(s, p) || exists u :: u != a.t && Pending(s, a.c, u) && s.threads[u] != Nil
  {
    RunKeeps(Init(), before, s0);
    RunKeeps(s0, [a], Apply(s0, a));
    assert a.c in Promised(Apply(s0, a).threads[a.t]);
    PledgeHolds(Apply(s0, a), after, s, a.t, a.c);
    Join(Init(), before, s0, [a] + after, s);
    ListedOnlyMeanwhile(before + ([a] + after), s, a.c, p);
  }

  lemma {:induction false} Join(s: State, acts: seq<Action>, s': State, more: seq<Action>, s'': State)
    requires Reaches(s, acts, s') && Reaches(s', more, s'')
    ensures Reaches(s, acts + more, s'')
    decreases |acts|
  {
    if acts == [] {
      assert acts + more == more;
    } else {
      Join(Apply(s, acts[0]), acts[1..], s', more, s'');
      assert (acts + more)[1..] == acts[1..] + more;
    }
  }

  /** With every call returned, no cancelled context is in any children map. */
  lemma ReturnedCallsDetach(acts: seq<Action>, s: State, c: nat, p: nat)
    requires Reaches(Init(), acts, s) && c < |s.nodes| && p < |s.nodes| && s.nodes[c].err.Some?
    requires forall t :: t in s.threads ==> s.threads[t] == Nil
    ensures c !in s.nodes[p].children
  {
    ListedOnlyMeanwhile(acts, s, c, p);
  }

  // ---------------------------------------------------------- every call returns

  /** How many children a stack will still attach. */
  function Attaches(k: Stack): nat {
    match k case Nil => 0 case Push(i, rest) => (if i.Enter? && i.section.Attach? then 1 else 0) + Attaches(rest)
  }

  /** How many steps an instruction may lead to among `n` nodes, the first setting of an error aside. */
  function Cost(i: Instr, n: nat): nat {
    match i
    case Enter(_, Attach(_)) => 26
    case Enter(_, Mark(_, _)) => 4
    case Enter(_, _) => 2
    case Exit(_) => 1
    case Cancel(_, _, _) => 10
    case CloseDone(_, _) => 11 * n + 2
    case Sweep(_, _, todo) => 11 * |todo| + 1
    case Remove(_) => 3
    case Link(_) => 1
    case Deadline(_) => 12
    case Expire(_) => 1
  }

  function Effort(k: Stack, n: nat): nat {
    match k case Nil => 0 case Push(i, rest) => Cost(i, n) + Effort(rest, n)
  }

  /** The sum of `f` over all stacks. */
  ghost function Total(threads: map<nat, Stack>, f: Stack -> nat): nat
    decreases |threads|
  {
    if threads == map[] then 0
    else
      var t :| t in threads;
      f(threads[t]) + Total(threads - {t}, f)
  }

  lemma {:induction false} TotalPick(threads: map<nat, Stack>, f: Stack -> nat, t: nat)
    requires t in threads
    ensures Total(threads, f) == f(threads[t]) + Total(threads - {t}, f)
    decreases |threads|
  {
    var u :| u in threads && Total(threads, f) == f(threads[u]) + Total(threads - {u}, f);
    if u != t {
      TotalPick(threads - {u}, f, t);
      TotalPick(threads - {t}, f, u);
      assert threads - {u} - {t} == threads - {t} - {u};
    }
  }

  lemma TotalUpdate(threads: map<nat, Stack>, f: Stack -> nat, t: nat, k: Stack)
    requires t in threads
    ensures Total(threads[t := k], f) == Total(threads, f) - f(threads[t]) + f(k)
  {
    TotalPick(threads, f, t);
    TotalPick(threads[t := k], f, t);
    assert threads[t := k] - {t} == threads - {t};
  }

  /** How many nodes have no error. */
  function Alive(nodes: seq<Node>): nat {
    if nodes == [] then 0 else Alive(nodes[..|nodes| - 1]) + (if nodes[|nodes| - 1].err == None then 1 else 0)
  }

  lemma {:induction false} AliveUpdate(nodes: seq<Node>, n: nat, x: Node)
    requires n < |nodes|
    ensures Alive(nodes[n := x]) ==
            Alive(nodes) - (if nodes[n].err == None then 1 else 0) + (if x.err == None then 1 else 0)
  {
    var front := nodes[..|nodes| - 1];
    if n == |nodes| - 1 {
      assert nodes[n := x][..|nodes| - 1] == front;
    } else {
      AliveUpdate(front, n, x);
      assert nodes[n := x][..|nodes| - 1] == front[n := x];
    }
  }

  lemma AliveAppend(nodes: seq<Node>, x: Node)
    ensures Alive(nodes + [x]) == Alive(nodes) + (if x.err == None then 1 else 0)
  {
    assert (nodes + [x])[..|nodes|] == nodes;
  }

  lemma {:induction false} SmallSet(c: set<nat>, n: nat)
    requires forall x :: x in c ==> x < n
    ensures |c| <= n
    decreases n
  {
    if n > 0 {
      SmallSet(c - {n - 1}, n - 1);
      if n - 1 in c { assert c == (c - {n - 1}) + {n - 1}; } else { assert c - {n - 1} == c; }
    } else {
      assert c == {};
    }
  }

  function EffortOf(n: nat): Stack -> nat {
    k => Effort(k, n)
  }

  /** The nodes there are or will be. */
  ghost function Size(s: State): nat {
    |s.nodes| + Total(s.threads, Attaches)
  }

  /** Those of them without an error. */
  ghost function Fresh(s: State): nat {
    Alive(s.nodes) + Total(s.threads, Attaches)
  }

  function Times(u: nat, f: nat): nat {
    if u == 0 then 0 else f + Times(u - 1, f)
  }

  /** A bound on the steps all calls together can still take. */
  ghost function Work(s: State): nat {
    Times(Fresh(s), 11 * Size(s) + 8) + Total(s.threads, EffortOf(Size(s)))
  }

  lemma ExecAlive(nodes: seq<Node>, t: nat, i: Instr, rest: Stack, child: nat, expired: bool)
    requires i.n < |nodes| && !i.Enter?
    ensures var nodes' := Exec(nodes, t, i, rest, child, expired).0; |nodes'| == |nodes| && Alive(nodes') == Alive(nodes)
  {
    var nodes' := Exec(nodes, t, i, rest, child, expired).0;
    AliveUpdate(nodes, i.n, nodes'[i.n]);
    assert nodes' == nodes[i.n := nodes'[i.n]];
  }

  ghost predicate Cheaper(k: Stack, k': Stack, n: nat) {
    Attaches(k') == Attaches(k) && Effort(k', n) < Effort(k, n)
  }

  lemma CancelSpends(nodes: seq<Node>, t: nat, m: nat, rm: bool, e: Error, rest: Stack, n: nat)
    requires m < |nodes|
    ensures Cheaper(Push(Cancel(m, rm, e), rest), Exec(nodes, t, Cancel(m, rm, e), rest, 0, false).1, n)
  {
    var k1 := Push(Enter(m, StopTimer), rest);
    assert Effort(k1, n) == 2 + Effort(rest, n) && Attaches(k1) == Attaches(rest);
    var k2 := Push(Remove(m), k1);
    assert Effort(k2, n) == 3 + Effort(k1, n) && Attaches(k2) == Attaches(k1);
  }

  lemma SweepSpends(m: nat, e: Error, todo: set<nat>, child: nat, rest: Stack, n: nat)
    requires child in todo
    ensures Cheaper(Push(Sweep(m, e, todo), rest), Push(Cancel(child, false, e), Push(Sweep(m, e, todo - {child}), rest)), n)
  {
    var k1 := Push(Sweep(m, e, todo - {child}), rest);
    assert Effort(k1, n) == 11 * (|todo| - 1) + 1 + Effort(rest, n) && Attaches(k1) == Attaches(rest);
  }

  lemma ExecSpends(nodes: seq<Node>, t: nat, i: Instr, rest: Stack, child: nat, expired: bool, n: nat)
    requires i.n < |nodes| && !i.Enter? && (i.Sweep? && i.todo != {} ==> child in i.todo)
    requires i.CloseDone? ==> |nodes[i.n].children| <= n
    ensures Cheaper(Push(i, rest), Exec(nodes, t, i, rest, child, expired).1, n)
  {
    if i.Cancel? {
      CancelSpends(nodes, t, i.n, i.rm, i.e, rest, n);
    } else if i.Sweep? {
      if i.todo != {} { SweepSpends(i.n, i.e, i.todo, child, rest, n); }
    } else if i.Deadline? && expired {
      assert Effort(Push(Expire(i.n), rest), n) == 1 + Effort(rest, n) && Attaches(Push(Expire(i.n), rest)) == Attaches(rest);
    }
  }

  lemma EnterSpends(nodes: seq<Node>, t: nat, m: nat, section: Section, rest: Stack, n: nat)
    requires m < |nodes| && !section.Attach? && (section.Mark? ==> nodes[m].err.Some?)
    ensures var (nodes', k) := ExecEnter(nodes, t, m, section, rest);
            |nodes'| == |nodes| && Alive(nodes') == Alive(nodes)
            && Attaches(k) == Attaches(Push(Enter(m, section), rest)) && Effort(k, n) < Effort(Push(Enter(m, section), rest), n)
  {
    var (nodes', k) := ExecEnter(nodes, t, m, section, rest);
    AliveUpdate(nodes, m, nodes'[m]);
    assert nodes' == nodes[m := nodes'[m]];
  }

  lemma AttachAlive(nodes: seq<Node>, t: nat, m: nat, kind: Kind, rest: Stack)
    requires m < |nodes|
    ensures var nodes' := ExecEnter(nodes, t, m, Attach(kind), rest).0; |nodes'| == |nodes| + 1 && Alive(nodes') == Alive(nodes) + 1
  {
    var nodes' := ExecEnter(nodes, t, m, Attach(kind), rest).0;
    AliveUpdate(nodes, m, nodes'[m]);
    AliveAppend(nodes[m := nodes'[m]], nodes'[|nodes|]);
    assert nodes' == nodes[m := nodes'[m]] + [nodes'[|nodes|]];
  }

  lemma AttachSpends(c: nat, m: nat, kind: Kind, e: Error, rest: Stack, n: nat)
    ensures var k2 := Push(Exit(m), AfterAttach(c, kind, rest));
            var k4 := Push(Cancel(c, false, e), Push(Link(c), k2));
            Attaches(k2) == Attaches(k4) == Attaches(rest) && Effort(k2, n) < 26 + Effort(rest, n) && Effort(k4, n) < 26 + Effort(rest, n)
  {
    var k1 := AfterAttach(c, kind, rest);
    assert Effort(k1, n) <= 12 + Effort(rest, n) && Attaches(k1) == Attaches(rest);
    var k2 := Push(Exit(m), k1);
    assert Effort(k2, n) == 1 + Effort(k1, n) && Attaches(k2) == Attaches(k1);
    assert Effort(Push(Link(c), k2), n) == 1 + Effort(k2, n) && Attaches(Push(Link(c), k2)) == Attaches(k2);
  }

  lemma MarkSpends(nodes: seq<Node>, t: nat, m: nat, rm: bool, e: Error, rest: Stack, n: nat)
    requires m < |nodes| && nodes[m].err == None
    ensures var (nodes', k) := ExecEnter(nodes, t, m, Mark(rm, e), rest);
            |nodes'| == |nodes| && Alive(nodes') + 1 == Alive(nodes)
            && Attaches(k) == Attaches(Push(Enter(m, Mark(rm, e)), rest))
            && Effort(k, n) < Effort(Push(Enter(m, Mark(rm, e)), rest), n) + 11 * n + 8
  {
    var (nodes', k) := ExecEnter(nodes, t, m, Mark(rm, e), rest);
    AliveUpdate(nodes, m, nodes'[m]);
    assert nodes' == nodes[m := nodes'[m]];
    var k1 := if rm then Push(Remove(m), rest) else rest;
    assert Effort(k1, n) <= 3 + Effort(rest, n) && Attaches(k1) == Attaches(rest);
    assert Effort(Push(Exit(m), k1), n) == 1 + Effort(k1, n) && Attaches(Push(Exit(m), k1)) == Attaches(k1);
  }

  /** One goroutine's step spends effort, or a node without an error. */
  ghost predicate Spent(nodes: seq<Node>, k: Stack, nodes': seq<Node>, k': Stack, n: nat) {
    && |nodes'| + Attaches(k') == |nodes| + Attaches(k)
    && (|| (Alive(nodes') + Attaches(k') == Alive(nodes) + Attaches(k) && Effort(k', n) < Effort(k, n))
        || (Alive(nodes') + Attaches(k') + 1 == Alive(nodes) + Attaches(k) && Effort(k', n) < Effort(k, n) + 11 * n + 8))
  }

  lemma StepSpends(s: State, a: Action, n: nat)
    requires Inv(s) && Enabled(s, a) && a.Step? && |s.nodes| <= n
    ensures Spent(s.nodes, s.threads[a.t], Apply(s, a).nodes, Apply(s, a).threads[a.t], n)
  {
    var t, i, rest := a.t, s.threads[a.t].top, s.threads[a.t].rest;
    if i.Enter? {
      if i.section.Attach? {
        AttachAlive(s.nodes, t, i.n, i.section.kind, rest);
        AttachSpends(|s.nodes|, i.n, i.section.kind, if s.nodes[i.n].err == None then Canceled else s.nodes[i.n].err.value, rest, n);
      } else if i.section.Mark? && s.nodes[i.n].err == None {
        MarkSpends(s.nodes, t, i.n, i.section.rm, i.section.e, rest, n);
      } else {
        EnterSpends(s.nodes, t, i.n, i.section, rest, n);
      }
    } else {
      assert NodeOk(s.nodes, i.n);
      SmallSet(s.nodes[i.n].children, |s.nodes|);
      ExecAlive(s.nodes, t, i, rest, a.child, a.expired);
      ExecSpends(s.nodes, t, i, rest, a.child, a.expired, n);
    }
  }

  lemma SpentUsesWork(s: State, t: nat, nodes': seq<Node>, k: Stack)
    requires t in s.threads && Spent(s.nodes, s.threads[t], nodes', k, Size(s))
    ensures Work(State(nodes', s.threads[t := k])) < Work(s)
  {
    TotalUpdate(s.threads, Attaches, t, k);
    TotalUpdate(s.threads, EffortOf(Size(s)), t, k);
  }

  /** Every step uses up work. */
  lemma StepUsesWork(s: State, a: Action)
    requires Inv(s) && Enabled(s, a) && a.Step?
    ensures Work(Apply(s, a)) < Work(s)
  {
    StepSpends(s, a, Size(s));
    SpentUsesWork(s, a.t, Apply(s, a).nodes, Apply(s, a).threads[a.t]);
  }

  lemma {:induction false} RunsAreBounded(s: State, acts: seq<Action>, s': State)
    requires Inv(s) && Reaches(s, acts, s') && (forall i :: 0 <= i < |acts| ==> acts[i].Step?)
    ensures |acts| + Work(s') <= Work(s)
    decreases |acts|
  {
    if acts != [] {
      StepUsesWork(s, acts[0]);
      StepKeeps(s, acts[0]);
      RunsAreBounded(Apply(s, acts[0]), acts[1..], s');
    }
  }

  /** No step is possible. */
  ghost predicate Stuck(s: State) {
    forall a: Action :: a.Step? ==> !Enabled(s, a)
  }

  /**
   The calls already made return: any way of running them on takes at most `Work` steps, and
   nothing more can happen exactly when every one of them has returned.
   */
  lemma EveryCallReturns(acts: seq<Action>, s: State, more: seq<Action>, s': State)
    requires Reaches(Init(), acts, s) && Reaches(s, more, s') && (forall i :: 0 <= i < |more| ==> more[i].Step?)
    ensures |more| <= Work(s)
    ensures Stuck(s') <==> forall t :: t in s'.threads ==> s'.threads[t] == Nil
  {
    RunKeeps(Init(), acts, s);
    RunsAreBounded(s, more, s');
    Join(Init(), acts, s, more, s');
    if t :| t in s'.threads && s'.threads[t] != Nil {
      NoDeadlock(acts + more, s', t);
    }
  }

  // ------------------------------------------------------- a call that loses

  lemma {:induction false} Extend(s: State, acts: seq<Action>, s': State, a: Action)
    requires Reaches(s, acts, s') && Enabled(s', a)
    ensures Reaches(s, acts + [a], Apply(s', a))
    decreases |acts|
  {
    if acts == [] {
      assert acts + [a] == [a] && [a][1..] == [];
      assert Reaches(Apply(s, a), [], Apply(s', a));
    } else {
      Extend(Apply(s, acts[0]), acts[1..], s', a);
      assert (acts + [a])[1..] == acts[1..] + [a];
    }
  }

  function Root(children: set<nat>, mu: Option<nat>, done: Chan, err: Option<Error>, removers: set<nat>): Node {
    Node(None, CancelKind, mu, done, children, err, false, true, false, removers, false)
  }

  function Leaf(mu: Option<nat>, done: Chan, err: Option<Error>, swept: bool): Node {
    Node(Some(0), CancelKind, mu, done, {}, err, false, true, swept, {}, false)
  }

  /** A root with one child, and no call under way. */
  lemma Family() returns (acts: seq<Action>)
    ensures Reaches(Init(), acts, State([Root({1}, None, Open, None, {}), Leaf(None, Absent, None, false)], map[1 := Nil, 2 := Nil]))
  {
    var k := Push(Enter(0, Attach(CancelKind)), Nil);
    var s0 := State([Root({}, None, Absent, None, {})], map[1 := Nil]);
    assert Apply(Init(), With(1, Background, CancelKind)) == s0;
    Extend(Init(), [], Init(), With(1, Background, CancelKind));
    acts := [] + [With(1, Background, CancelKind)];
    var s1 := State(s0.nodes, map[1 := Nil, 2 := Push(Enter(0, MakeDone), k)]);
    assert Apply(s0, With(2, At(0), CancelKind)) == s1;
    Extend(Init(), acts, s0, With(2, At(0), CancelKind));
    acts := acts + [With(2, At(0), CancelKind)];
    var go := Step(2, 0, false);
    var s2 := State([Root({}, Some(2), Open, None, {})], map[1 := Nil, 2 := Push(Exit(0), k)]);
    assert Apply(s1, go) == s2;
    Extend(Init(), acts, s1, go);
    acts := acts + [go];
    var s3 := State([Root({}, None, Open, None, {})], map[1 := Nil, 2 := k]);
    assert Apply(s2, go) == s3;
    Extend(Init(), acts, s2, go);
    acts := acts + [go];
    var s4 := State([Root({1}, Some(2), Open, None, {}), Leaf(None, Absent, None, false)], map[1 := Nil, 2 := Push(Exit(0), Nil)]);
    assert s3.nodes[0].children + {1} == {1};
    assert Apply(s3, go) == s4;
    Extend(Init(), acts, s3, go);
    acts := acts + [go];
    assert Apply(s4, go) == State([Root({1}, None, Open, None, {}), Leaf(None, Absent, None, false)], map[1 := Nil, 2 := Nil]);
    Extend(Init(), acts, s4, go);
    acts := acts + [go];
  }

  function Quiet(stack3: Stack): map<nat, Stack> {
    map[1 := Nil, 2 := Nil, 3 := stack3]
  }

  /** Goroutine 3 has set the root's error. */
  lemma RootMarked() returns (acts: seq<Action>)
    ensures Reaches(Init(), acts, State(
              [Root({1}, Some(3), Open, Some(Canceled), {3}), Leaf(None, Absent, None, false)],
              Quiet(Push(CloseDone(0, Canceled), Push(Exit(0), Push(Remove(0), Nil))))))
  {
    acts := Family();
    var leaf, end := Leaf(None, Absent, None, false), Push(Exit(0), Push(Remove(0), Nil));
    var s0 := State([Root({1}, None, Open, None, {}), leaf], map[1 := Nil, 2 := Nil]);
    var call, go := CallCancel(3, 0, true, Canceled), Step(3, 1, false);
    var s1 := State(s0.nodes, Quiet(Push(Cancel(0, true, Canceled), Nil)));
    assert Apply(s0, call) == s1;
    Extend(Init(), acts, s0, call);
    acts := acts + [call];
    var s2 := State(s0.nodes, Quiet(Push(Enter(0, Mark(true, Canceled)), Nil)));
    assert Apply(s1, go) == s2;
    Extend(Init(), acts, s1, go);
    acts := acts + [go];
    assert s2.nodes[0].removers + {3} == {3};
    assert Apply(s2, go) == State([Root({1}, Some(3), Open, Some(Canceled), {3}), leaf], Quiet(Push(CloseDone(0, Canceled), end)));
    Extend(Init(), acts, s2, go);
    acts := acts + [go];
  }

  /** Goroutine 3 cancels the root and is in the middle of its children. */
  lemma RootSweeps() returns (acts: seq<Action>)
    ensures Reaches(Init(), acts, State(
              [Root({1}, Some(3), Closed, Some(Canceled), {3}), Leaf(None, Absent, None, false)],
              Quiet(Push(Cancel(1, false, Canceled), Push(Sweep(0, Canceled, {}), Push(Exit(0), Push(Remove(0), Nil)))))))
  {
    acts := RootMarked();
    var leaf, end, go := Leaf(None, Absent, None, false), Push(Exit(0), Push(Remove(0), Nil)), Step(3, 1, false);
    var s3 := State([Root({1}, Some(3), Open, Some(Canceled), {3}), leaf], Quiet(Push(CloseDone(0, Canceled), end)));
    var s4 := State([Root({1}, Some(3), Closed, Some(Canceled), {3}), leaf], Quiet(Push(Sweep(0, Canceled, {1}), end)));
    assert Apply(s3, go) == s4;
    Extend(Init(), acts, s3, go);
    acts := acts + [go];
    assert s4.threads[3].top.todo - {1} == {};
    assert Apply(s4, go) == State(s4.nodes, Quiet(Push(Cancel(1, false, Canceled), Push(Sweep(0, Canceled, {}), end))));
    Extend(Init(), acts, s4, go);
    acts := acts + [go];
  }

  /** The child is cancelled and unlocked while the root still sweeps. */
  lemma LeafCancelled() returns (acts: seq<Action>)
    ensures Reaches(Init(), acts, State(
              [Root({1}, Some(3), Closed, Some(Canceled), {3}), Leaf(None, Closed, Some(Canceled), true)],
              Quiet(Push(Sweep(0, Canceled, {}), Push(Exit(0), Push(Remove(0), Nil))))))
  {
    acts := RootSweeps();
    var root, go := Root({1}, Some(3), Closed, Some(Canceled), {3}), Step(3, 1, false);
    var k := Push(Sweep(0, Canceled, {}), Push(Exit(0), Push(Remove(0), Nil)));
    var s0 := State([root, Leaf(None, Absent, None, false)], Quiet(Push(Cancel(1, false, Canceled), k)));
    var s1 := State(s0.nodes, Quiet(Push(Enter(1, Mark(false, Canceled)), k)));
    assert Apply(s0, go) == s1;
    Extend(Init(), acts, s0, go);
    acts := acts + [go];
    var s2 := State([root, Leaf(Some(3), Absent, Some(Canceled), false)], Quiet(Push(CloseDone(1, Canceled), Push(Exit(1), k))));
    assert Apply(s1, go) == s2;
    Extend(Init(), acts, s1, go);
    acts := acts + [go];
    var s3 := State([root, Leaf(Some(3), Closed, Some(Canceled), false)], Quiet(Push(Sweep(1, Canceled, {}), Push(Exit(1), k))));
    assert Apply(s2, go) == s3;
    Extend(Init(), acts, s2, go);
    acts := acts + [go];
    var s4 := State([root, Leaf(Some(3), Closed, Some(Canceled), true)], Quiet(Push(Exit(1), k)));
    assert Apply(s3, go) == s4;
    Extend(Init(), acts, s3, go);
    acts := acts + [go];
    assert Apply(s4, go) == State([root, Leaf(None, Closed, Some(Canceled), true)], Quiet(k));
    Extend(Init(), acts, s4, go);
    acts := acts + [go];
  }

  /**
   A first CancelFunc call that finds its context already cancelled from above takes on no
   removal, and returns while the context is still in the children map of the sweeping parent.
   */
  lemma LosingCallLeavesChild() returns (acts: seq<Action>, s: State)
    ensures Reaches(Init(), acts, s)
    ensures |s.nodes| == 2 && 1 in s.nodes[0].children && 4 in s.threads && s.threads[4] == Nil && 4 !in s.nodes[1].removers
  {
    acts := LeafCancelled();
    var k := Push(Sweep(0, Canceled, {}), Push(Exit(0), Push(Remove(0), Nil)));
    var root, leaf := Root({1}, Some(3), Closed, Some(Canceled), {3}), Leaf(None, Closed, Some(Canceled), true);
    var s0 := State([root, leaf], Quiet(k));
    var call, go := CallCancel(4, 1, true, Canceled), Step(4, 0, false);
    var s1 := State(s0.nodes, Quiet(k)[4 := Push(Cancel(1, true, Canceled), Nil)]);
    assert Apply(s0, call) == s1;
    Extend(Init(), acts, s0, call);
    acts := acts + [call];
    var s2 := State(s0.nodes, Quiet(k)[4 := Push(Enter(1, Mark(true, Canceled)), Nil)]);
    assert Apply(s1, go) == s2;
    Extend(Init(), acts, s1, go);
    acts := acts + [go];
    var s3 := State([root, Leaf(Some(4), Closed, Some(Canceled), true)], Quiet(k)[4 := Push(Exit(1), Nil)]);
    assert Apply(s2, go) == s3;
    Extend(Init(), acts, s2, go);
    acts := acts + [go];
    Extend(Init(), acts, s3, go);
    acts := acts + [go];
    s := Apply(s3, go);
  }

  // --------------------------------------------------- stacks and their frames

  /** Held mutexes are ancestors of the innermost one, and every cancel under way holds its node. */
  lemma {:induction false} HeldBound(nodes: seq<Node>, t: nat, k: Stack, owed: set<nat>)
    requires NodesOk(nodes) && StackOk(nodes, t, k, owed)
    ensures forall m :: m in Held(k) ==> Inner(k).Some? && m <= Inner(k).value && m < |nodes| && nodes[m].mu == Some(t)
    ensures Busy(k) <= Held(k)
    ensures Inner(k).Some? ==> Inner(k).value in Held(k)
    decreases k
  {
    if k.Push? {
      HeldBound(nodes, t, k.rest, owed + Promise(k.top));
      if k.top.Exit? {
        assert NodeOk(nodes, k.top.n);
      }
    }
  }

  /** A mutex about to be entered, or just being released, is held by no deeper part of the stack. */
  lemma FreshLock(nodes: seq<Node>, t: nat, n: nat, k: Stack, owed: set<nat>)
    requires NodesOk(nodes) && StackOk(nodes, t, k, owed) && Nested(nodes, n, Inner(k))
    ensures n !in Held(k) && n !in Busy(k)
  {
    HeldBound(nodes, t, k, owed);
    assert NodeOk(nodes, n);
  }

  ghost predicate Grows(nodes: seq<Node>, nodes': seq<Node>) {
    && |nodes| <= |nodes'|
    && (forall m {:trigger nodes'[m]} {:trigger nodes[m]} :: 0 <= m < |nodes| ==>
          && nodes'[m].parent == nodes[m].parent && nodes'[m].kind == nodes[m].kind
          && (nodes[m].swept ==> nodes'[m].swept) && (nodes[m].linked ==> nodes'[m].linked)
          && (nodes[m].err.Some? ==> nodes'[m].err == nodes[m].err)
          && nodes[m].removers <= nodes'[m].removers)
  }

  predicate Protected(x: Node, y: Node) {
    y.mu == x.mu && y.done == x.done && y.children == x.children && y.err == x.err && y.swept == x.swept
  }

  lemma {:induction false} FrameStack(nodes: seq<Node>, nodes': seq<Node>, t: nat, k: Stack, owed: set<nat>, owed': set<nat>)
    requires StackOk(nodes, t, k, owed) && Grows(nodes, nodes')
    requires forall m :: m in Held(k) && m < |nodes| ==> nodes'[m].mu == nodes[m].mu
    requires forall m :: m in Busy(k) && m < |nodes| ==> Protected(nodes[m], nodes'[m])
    requires forall c :: c in owed && c < |nodes| ==> c in owed' || nodes'[c].swept
    ensures StackOk(nodes', t, k, owed')
    decreases k
  {
    if k.Push? {
      FrameInstr(nodes, nodes', t, k, owed, owed');
      FrameStack(nodes, nodes', t, k.rest, owed + Promise(k.top), owed' + Promise(k.top));
    }
  }

  lemma FrameInstr(nodes: seq<Node>, nodes': seq<Node>, t: nat, k: Stack, owed: set<nat>, owed': set<nat>)
    requires k.Push? && InstrOk(nodes, t, k.top, k.rest, owed) && Grows(nodes, nodes')
    requires k.top.Exit? ==> nodes'[k.top.n].mu == nodes[k.top.n].mu
    requires k.top.CloseDone? || k.top.Sweep? ==> Protected(nodes[k.top.n], nodes'[k.top.n])
    requires forall c :: c in owed && c < |nodes| ==> c in owed' || nodes'[c].swept
    ensures InstrOk(nodes', t, k.top, k.rest, owed')
  {
  }

  // --------------------------------------------------------- one step at a time

  /** What goroutine `t`, left with stack `k`, must account for at node `m`. */
  ghost predicate OwnMutex(nodes: seq<Node>, nodes': seq<Node>, t: nat, k: Stack, m: nat)
    requires m < |nodes'|
  {
    if nodes'[m].mu == None then
      nodes'[m].err.Some? ==> nodes'[m].swept
    else if nodes'[m].mu == Some(t) then
      m in Held(k) && (nodes'[m].err.Some? && !nodes'[m].swept ==> m in Busy(k))
    else
      m < |nodes| && Protected(nodes[m], nodes'[m])
  }

  /** A step leaves alone whatever another goroutine has locked. */
  ghost predicate Respects(nodes: seq<Node>, nodes': seq<Node>, t: nat) {
    && Grows(nodes, nodes')
    && (forall m {:trigger nodes'[m]} :: 0 <= m < |nodes| && nodes[m].mu.Some? && nodes[m].mu != Some(t) ==> Protected(nodes[m], nodes'[m]))
  }

  lemma OthersKeep(s: State, t: nat, nodes': seq<Node>, u: nat)
    requires Inv(s) && Respects(s.nodes, nodes', t) && u in s.threads && u != t
    ensures StackOk(nodes', u, s.threads[u], {})
  {
    assert StackOk(s.nodes, u, s.threads[u], {});
    HeldBound(s.nodes, u, s.threads[u], {});
    FrameStack(s.nodes, nodes', u, s.threads[u], {}, {});
  }

  lemma Commit(s: State, t: nat, nodes': seq<Node>, k': Stack)
    requires Inv(s) && Respects(s.nodes, nodes', t)
    requires NodesOk(nodes') && StackOk(nodes', t, k', {})
    requires forall m {:trigger OwnMutex(s.nodes, nodes', t, k', m)} :: 0 <= m < |nodes'| ==> OwnMutex(s.nodes, nodes', t, k', m)
    ensures Inv(State(nodes', s.threads[t := k']))
  {
    var s' := State(nodes', s.threads[t := k']);
    forall u | u in s'.threads ensures StackOk(s'.nodes, u, s'.threads[u], {}) {
      if u != t {
        OthersKeep(s, t, nodes', u);
      }
    }
    forall m | 0 <= m < |nodes'| ensures MutexOk(s', m) {
      assert OwnMutex(s.nodes, nodes', t, k', m);
      assert m < |s.nodes| ==> MutexOk(s, m);
    }
  }

  /** The nodes stay well formed when one of them changes. */
  lemma UpdateNode(nodes: seq<Node>, n: nat, x: Node)
    requires NodesOk(nodes) && n < |nodes|
    requires x.parent == nodes[n].parent && (nodes[n].linked ==> x.linked)
    requires NodeOk(nodes[n := x], n)
    requires forall m :: 0 <= m < |nodes| && nodes[m].parent == Some(n) && nodes[m].linked && !nodes[m].swept ==> m in x.children
    ensures NodesOk(nodes[n := x])
  {
    var nodes' := nodes[n := x];
    forall m | 0 <= m < |nodes'| ensures NodeOk(nodes', m) {
      assert NodeOk(nodes, m);
    }
  }

  /** A change of `mu`, `timer`, `removers` or an unclosed `done` alone. */
  lemma UpdateQuiet(nodes: seq<Node>, n: nat, x: Node)
    requires NodesOk(nodes) && n < |nodes|
    requires x.parent == nodes[n].parent && x.kind == nodes[n].kind && x.linked == nodes[n].linked && x.children == nodes[n].children
    requires x.removers >= nodes[n].removers && x.expired == nodes[n].expired
    requires x.err == nodes[n].err && x.swept == nodes[n].swept && (x.done == nodes[n].done || (x.done == Open && nodes[n].done == Absent))
    ensures NodesOk(nodes[n := x]) && Grows(nodes, nodes[n := x])
  {
    assert NodeOk(nodes, n);
    forall m | 0 <= m < |nodes| && nodes[m].parent == Some(n) && nodes[m].linked && !nodes[m].swept ensures m in x.children {
      assert NodeOk(nodes, m);
    }
    UpdateNode(nodes, n, x);
  }

  ghost predicate Running(s: State, t: nat, i: Instr, rest: Stack) {
    Inv(s) && t in s.threads && s.threads[t] == Push(i, rest) && i.n < |s.nodes|
  }

  lemma Unfold(s: State, t: nat, i: Instr, rest: Stack)
    requires Running(s, t, i, rest)
    ensures InstrOk(s.nodes, t, i, rest, {}) && StackOk(s.nodes, t, rest, Promise(i))
  {
    assert StackOk(s.nodes, t, s.threads[t], {});
    assert {} + Promise(i) == Promise(i);
  }

  /** Common end of every step that takes the mutex of `n`. */
  lemma CommitEnter(s: State, t: nat, n: nat, section: Section, rest: Stack, x: Node, k: Stack)
    requires Running(s, t, Enter(n, section), rest) && s.nodes[n].mu == None && x.mu == Some(t)
    requires Grows(s.nodes, s.nodes[n := x]) && NodesOk(s.nodes[n := x]) && StackOk(s.nodes[n := x], t, k, {})
    requires Held(k) == {n} + Held(rest) && Busy(rest) <= Busy(k) && (x.err.Some? && !x.swept ==> n in Busy(k))
    ensures Inv(State(s.nodes[n := x], s.threads[t := k]))
  {
    var nodes' := s.nodes[n := x];
    forall m | 0 <= m < |nodes'| ensures OwnMutex(s.nodes, nodes', t, k, m) {
      assert MutexOk(s, m);
    }
    Commit(s, t, nodes', k);
  }

  /** The children a node keeps through a step include every linked child not yet swept. */
  lemma ChildrenKept(nodes: seq<Node>, n: nat)
    requires NodesOk(nodes) && n < |nodes|
    ensures forall m :: 0 <= m < |nodes| && nodes[m].parent == Some(n) && nodes[m].linked && !nodes[m].swept ==> m in nodes[n].children
  {
    forall m | 0 <= m < |nodes| && nodes[m].parent == Some(n) && nodes[m].linked && !nodes[m].swept ensures m in nodes[n].children {
      assert NodeOk(nodes, m);
    }
  }

  /** Entering a section that only touches quiet fields. */
  lemma EnterQuiet(s: State, t: nat, n: nat, section: Section, rest: Stack, x: Node)
    requires Running(s, t, Enter(n, section), rest) && s.nodes[n].mu == None && !section.Mark?
    requires x.mu == Some(t) && x.parent == s.nodes[n].parent && x.kind == s.nodes[n].kind && x.linked == s.nodes[n].linked
    requires x.children == s.nodes[n].children && x.err == s.nodes[n].err && x.swept == s.nodes[n].swept
    requires x.removers == s.nodes[n].removers && x.expired == s.nodes[n].expired
    requires x.done == s.nodes[n].done || (x.done == Open && s.nodes[n].done == Absent)
    ensures Inv(State(s.nodes[n := x], s.threads[t := Push(Exit(n), rest)]))
  {
    Unfold(s, t, Enter(n, section), rest);
    UpdateQuiet(s.nodes, n, x);
    FreshLock(s.nodes, t, n, rest, {});
    var nodes', k := s.nodes[n := x], Push(Exit(n), rest);
    FrameStack(s.nodes, nodes', t, rest, {}, {});
    assert {} + Promise(Exit(n)) == {};
    assert MutexOk(s, n);
    CommitEnter(s, t, n, section, rest, x, k);
  }

  lemma EnterDelete(s: State, t: nat, n: nat, c: nat, rest: Stack)
    requires Running(s, t, Enter(n, Delete(c)), rest) && s.nodes[n].mu == None
    ensures Inv(State(s.nodes[n := s.nodes[n].(mu := Some(t), children := s.nodes[n].children - {c})], s.threads[t := Push(Exit(n), rest)]))
  {
    Unfold(s, t, Enter(n, Delete(c)), rest);
    var x := s.nodes[n].(mu := Some(t), children := s.nodes[n].children - {c});
    var nodes', k := s.nodes[n := x], Push(Exit(n), rest);
    assert NodeOk(s.nodes, n);
    ChildrenKept(s.nodes, n);
    UpdateNode(s.nodes, n, x);
    FreshLock(s.nodes, t, n, rest, {});
    FrameStack(s.nodes, nodes', t, rest, {}, {});
    assert {} + Promise(Exit(n)) == {};
    assert MutexOk(s, n);
    CommitEnter(s, t, n, Delete(c), rest, x, k);
  }

  lemma EnterMarkLate(s: State, t: nat, n: nat, rm: bool, e: Error, rest: Stack)
    requires Running(s, t, Enter(n, Mark(rm, e)), rest) && s.nodes[n].mu == None && s.nodes[n].err.Some?
    ensures Inv(State(s.nodes[n := s.nodes[n].(mu := Some(t))], s.threads[t := Push(Exit(n), rest)]))
  {
    Unfold(s, t, Enter(n, Mark(rm, e)), rest);
    var x := s.nodes[n].(mu := Some(t));
    var nodes', k := s.nodes[n := x], Push(Exit(n), rest);
    assert MutexOk(s, n);
    UpdateQuiet(s.nodes, n, x);
    FreshLock(s.nodes, t, n, rest, {n});
    FrameStack(s.nodes, nodes', t, rest, {n}, {});
    assert {} + Promise(Exit(n)) == {};
    CommitEnter(s, t, n, Mark(rm, e), rest, x, k);
  }

  /** The stack that setting an error leaves behind. */
  lemma MarkStack(nodes: seq<Node>, t: nat, n: nat, rm: bool, e: Error, rest: Stack)
    requires StackOk(nodes, t, rest, {n}) && n < |nodes| && Nested(nodes, n, Inner(rest)) && (rm ==> Inner(rest) == None)
    requires nodes[n].mu == Some(t) && nodes[n].err.Some? && !nodes[n].swept && nodes[n].done != Closed
    ensures var k := Push(CloseDone(n, e), Push(Exit(n), if rm then Push(Remove(n), rest) else rest));
            StackOk(nodes, t, k, {}) && Held(k) == {n} + Held(rest) && Busy(k) == {n} + Busy(rest)
  {
    assert {} + Promise(CloseDone(n, e)) == {n} && {n} + Promise(Exit(n)) == {n} && {n} + Promise(Remove(n)) == {n};
    var k1 := if rm then Push(Remove(n), rest) else rest;
    assert Held(k1) == Held(rest) && Busy(k1) == Busy(rest) && Inner(k1) == Inner(rest) && StackOk(nodes, t, k1, {n});
    var k2 := Push(Exit(n), k1);
    assert Held(k2) == {n} + Held(k1) && Busy(k2) == Busy(k1) && StackOk(nodes, t, k2, {n});
  }

  lemma EnterMarkFirst(s: State, t: nat, n: nat, rm: bool, e: Error, rest: Stack)
    requires Running(s, t, Enter(n, Mark(rm, e)), rest) && s.nodes[n].mu == None && s.nodes[n].err == None
    ensures var (nodes', k) := ExecEnter(s.nodes, t, n, Mark(rm, e), rest); Inv(State(nodes', s.threads[t := k]))
  {
    Unfold(s, t, Enter(n, Mark(rm, e)), rest);
    var (nodes', k) := ExecEnter(s.nodes, t, n, Mark(rm, e), rest);
    assert MutexOk(s, n) && NodeOk(s.nodes, n);
    ChildrenKept(s.nodes, n);
    UpdateNode(s.nodes, n, nodes'[n]);
    FreshLock(s.nodes, t, n, rest, {n});
    FrameStack(s.nodes, nodes', t, rest, {n}, {n});
    MarkStack(nodes', t, n, rm, e, rest);
    CommitEnter(s, t, n, Mark(rm, e), rest, nodes'[n], k);
  }

  // Attaching a new child.

  /** The nodes stay well formed when a child is appended under `n`. */
  lemma AppendNode(nodes: seq<Node>, n: nat, x: Node, kind: Kind, linked: bool)
    requires NodesOk(nodes) && n < |nodes| && nodes[n].linked
    requires x == nodes[n].(mu := x.mu, children := x.children)
    requires if linked then x.children == nodes[n].children + {|nodes|} && x.err == None else x.children == nodes[n].children
    ensures var nodes' := nodes[n := x] + [NewNode(Some(n), kind, linked)]; NodesOk(nodes') && Grows(nodes, nodes')
  {
    var nodes' := nodes[n := x] + [NewNode(Some(n), kind, linked)];
    assert NodeOk(nodes, n);
    forall m | 0 <= m < |nodes'| ensures NodeOk(nodes', m) {
      if m < |nodes| {
        assert NodeOk(nodes, m);
      }
    }
  }

  lemma CommitAttach(s: State, t: nat, n: nat, kind: Kind, rest: Stack, nodes': seq<Node>, k: Stack)
    requires Running(s, t, Enter(n, Attach(kind)), rest) && s.nodes[n].mu == None
    requires |nodes'| == |s.nodes| + 1 && nodes'[n].mu == Some(t) && nodes'[n].err == s.nodes[n].err && nodes'[n].swept == s.nodes[n].swept
    requires forall m :: 0 <= m < |s.nodes| && m != n ==> nodes'[m] == s.nodes[m]
    requires nodes'[|s.nodes|].mu == None && nodes'[|s.nodes|].err == None
    requires Grows(s.nodes, nodes') && NodesOk(nodes') && StackOk(nodes', t, k, {})
    requires Held(k) == {n} + Held(rest) && Busy(rest) <= Busy(k)
    ensures Inv(State(nodes', s.threads[t := k]))
  {
    forall m | 0 <= m < |nodes'| ensures OwnMutex(s.nodes, nodes', t, k, m) {
      if m < |s.nodes| {
        assert MutexOk(s, m);
      }
    }
    Commit(s, t, nodes', k);
  }

  /** The stack that Attach leaves behind. */
  lemma AttachStack(nodes: seq<Node>, t: nat, n: nat, c: nat, kind: Kind, err: Option<Error>, rest: Stack)
    requires StackOk(nodes, t, rest, {}) && Inner(rest) == None && n < |nodes| && c < |nodes|
    requires nodes[n].mu == Some(t) && nodes[c].parent == Some(n)
    ensures var k2 := Push(Exit(n), AfterAttach(c, kind, rest));
            var k := if err == None then k2 else Push(Cancel(c, false, err.value), Push(Link(c), k2));
            StackOk(nodes, t, k, {}) && Held(k) == {n} + Held(rest) && Busy(k) == Busy(rest)
  {
    var k1 := AfterAttach(c, kind, rest);
    assert {} + Promise(Deadline(c)) == {};
    assert Held(k1) == Held(rest) && Busy(k1) == Busy(rest) && Inner(k1) == None && StackOk(nodes, t, k1, {});
    var k2 := Push(Exit(n), k1);
    assert {} + Promise(Exit(n)) == {};
    assert Held(k2) == {n} + Held(k1) && Busy(k2) == Busy(k1) && Inner(k2) == Some(n) && StackOk(nodes, t, k2, {});
    if err.Some? {
      FrameStack(nodes, nodes, t, k2, {}, {c});
      var k3 := Push(Link(c), k2);
      assert {c} + Promise(Link(c)) == {c};
      assert Held(k3) == Held(k2) && Busy(k3) == Busy(k2) && Inner(k3) == Some(n) && StackOk(nodes, t, k3, {c});
      assert {} + Promise(Cancel(c, false, err.value)) == {c};
    }
  }

  lemma EnterAttach(s: State, t: nat, n: nat, kind: Kind, rest: Stack)
    requires Running(s, t, Enter(n, Attach(kind)), rest) && s.nodes[n].mu == None
    ensures var (nodes', k) := ExecEnter(s.nodes, t, n, Attach(kind), rest); Inv(State(nodes', s.threads[t := k]))
  {
    Unfold(s, t, Enter(n, Attach(kind)), rest);
    var (nodes', k) := ExecEnter(s.nodes, t, n, Attach(kind), rest);
    AppendNode(s.nodes, n, nodes'[n], kind, s.nodes[n].err == None);
    FreshLock(s.nodes, t, n, rest, {});
    FrameStack(s.nodes, nodes', t, rest, {}, {});
    AttachStack(nodes', t, n, |s.nodes|, kind, s.nodes[n].err, rest);
    CommitAttach(s, t, n, kind, rest, nodes', k);
  }

  // The remaining instructions.

  lemma StepExit(s: State, t: nat, n: nat, rest: Stack)
    requires Running(s, t, Exit(n), rest)
    ensures Inv(State(s.nodes[n := s.nodes[n].(mu := None)], s.threads[t := rest]))
  {
    Unfold(s, t, Exit(n), rest);
    var x := s.nodes[n].(mu := None);
    var nodes' := s.nodes[n := x];
    UpdateQuiet(s.nodes, n, x);
    FreshLock(s.nodes, t, n, rest, {});
    FrameStack(s.nodes, nodes', t, rest, {}, {});
    forall m | 0 <= m < |nodes'| ensures OwnMutex(s.nodes, nodes', t, rest, m) {
      assert MutexOk(s, m);
    }
    Commit(s, t, nodes', rest);
  }

  /** Common end of a step that touches no mutex. */
  lemma CommitQuiet(s: State, t: nat, i: Instr, rest: Stack, nodes': seq<Node>, k: Stack)
    requires Running(s, t, i, rest) && !i.Exit?
    requires |nodes'| == |s.nodes| && Grows(s.nodes, nodes') && NodesOk(nodes') && StackOk(nodes', t, k, {})
    requires forall m :: 0 <= m < |nodes'| ==> nodes'[m].mu == s.nodes[m].mu && nodes'[m].err == s.nodes[m].err
    requires forall m :: 0 <= m < |nodes'| && s.nodes[m].mu != Some(t) ==> Protected(s.nodes[m], nodes'[m])
    requires Held(k) == Held(rest) && Busy(rest) <= Busy(k)
    requires i.CloseDone? || i.Sweep? ==> i.n in Busy(k) || nodes'[i.n].swept
    ensures Inv(State(nodes', s.threads[t := k]))
  {
    forall m | 0 <= m < |nodes'| ensures OwnMutex(s.nodes, nodes', t, k, m) {
      assert MutexOk(s, m);
    }
    Commit(s, t, nodes', k);
  }

  /** The stack that the expansion of a cancel leaves behind. */
  lemma CancelStack(nodes: seq<Node>, t: nat, n: nat, rm: bool, e: Error, rest: Stack)
    requires StackOk(nodes, t, rest, {n}) && InstrOk(nodes, t, Cancel(n, rm, e), rest, {})
    ensures var (_, k) := Exec(nodes, t, Cancel(n, rm, e), rest, 0, false);
            StackOk(nodes, t, k, {}) && Held(k) == Held(rest) && Busy(k) == Busy(rest)
  {
    if nodes[n].kind.CancelKind? {
      assert {} + Promise(Enter(n, Mark(rm, e))) == {n};
    } else {
      var k1 := Push(Enter(n, StopTimer), rest);
      assert {n} + Promise(Enter(n, StopTimer)) == {n} && {n} + Promise(Remove(n)) == {n};
      assert Held(k1) == Held(rest) && Busy(k1) == Busy(rest) && Inner(k1) == Inner(rest) && StackOk(nodes, t, k1, {n});
      var k2 := if rm then Push(Remove(n), k1) else k1;
      assert Held(k2) == Held(k1) && Busy(k2) == Busy(k1) && Inner(k2) == Inner(k1) && StackOk(nodes, t, k2, {n});
      assert {} + Promise(Enter(n, Mark(false, e))) == {n};
    }
  }

  lemma StepCancel(s: State, t: nat, n: nat, rm: bool, e: Error, rest: Stack)
    requires Running(s, t, Cancel(n, rm, e), rest)
    ensures var (nodes', k) := Exec(s.nodes, t, Cancel(n, rm, e), rest, 0, false); Inv(State(nodes', s.threads[t := k]))
  {
    Unfold(s, t, Cancel(n, rm, e), rest);
    var (nodes', k) := Exec(s.nodes, t, Cancel(n, rm, e), rest, 0, false);
    UpdateQuiet(s.nodes, n, nodes'[n]);
    assert nodes' == s.nodes[n := nodes'[n]];
    CancelStack(s.nodes, t, n, rm, e, rest);
    FrameStack(s.nodes, nodes', t, k, {}, {});
    CommitQuiet(s, t, Cancel(n, rm, e), rest, nodes', k);
  }

  lemma StepCloseDone(s: State, t: nat, n: nat, e: Error, rest: Stack)
    requires Running(s, t, CloseDone(n, e), rest)
    ensures var (nodes', k) := Exec(s.nodes, t, CloseDone(n, e), rest, 0, false); Inv(State(nodes', s.threads[t := k]))
  {
    Unfold(s, t, CloseDone(n, e), rest);
    var (nodes', k) := Exec(s.nodes, t, CloseDone(n, e), rest, 0, false);
    assert NodeOk(s.nodes, n);
    ChildrenKept(s.nodes, n);
    UpdateNode(s.nodes, n, nodes'[n]);
    HeldBound(s.nodes, t, rest, {n});
    FreshLock(s.nodes, t, n, rest.rest, {n} + Promise(rest.top));
    FrameStack(s.nodes, nodes', t, rest, {n}, {n});
    assert {} + Promise(Sweep(n, e, s.nodes[n].children)) == {n};
    CommitQuiet(s, t, CloseDone(n, e), rest, nodes', k);
  }

  lemma StepSweepDone(s: State, t: nat, n: nat, e: Error, rest: Stack)
    requires Running(s, t, Sweep(n, e, {}), rest)
    ensures Inv(State(s.nodes[n := s.nodes[n].(children := {}, swept := true)], s.threads[t := rest]))
  {
    Unfold(s, t, Sweep(n, e, {}), rest);
    var x := s.nodes[n].(children := {}, swept := true);
    var nodes' := s.nodes[n := x];
    assert NodeOk(s.nodes, n);
    ChildrenKept(s.nodes, n);
    UpdateNode(s.nodes, n, x);
    HeldBound(s.nodes, t, rest, {n});
    FreshLock(s.nodes, t, n, rest.rest, {n} + Promise(rest.top));
    FrameStack(s.nodes, nodes', t, rest, {n}, {});
    CommitQuiet(s, t, Sweep(n, e, {}), rest, nodes', rest);
  }

  lemma StepSweepChild(s: State, t: nat, n: nat, e: Error, todo: set<nat>, c: nat, rest: Stack)
    requires Running(s, t, Sweep(n, e, todo), rest) && c in todo
    ensures Inv(s.(threads := s.threads[t := Push(Cancel(c, false, e), Push(Sweep(n, e, todo - {c}), rest))]))
  {
    Unfold(s, t, Sweep(n, e, todo), rest);
    assert NodeOk(s.nodes, n);
    FrameStack(s.nodes, s.nodes, t, rest, {n}, {c, n});
    var k1 := Push(Sweep(n, e, todo - {c}), rest);
    assert {c} + Promise(k1.top) == {c, n};
    assert Held(k1) == Held(rest) && Busy(k1) == {n} + Busy(rest) && Inner(k1) == Some(n) && StackOk(s.nodes, t, k1, {c});
    var k := Push(Cancel(c, false, e), k1);
    assert {} + Promise(k.top) == {c};
    CommitQuiet(s, t, Sweep(n, e, todo), rest, s.nodes, k);
  }

  lemma StepRemove(s: State, t: nat, n: nat, rest: Stack)
    requires Running(s, t, Remove(n), rest)
    ensures var (nodes', k) := Exec(s.nodes, t, Remove(n), rest, 0, false); Inv(State(nodes', s.threads[t := k]))
  {
    Unfold(s, t, Remove(n), rest);
    var (_, k) := Exec(s.nodes, t, Remove(n), rest, 0, false);
    assert NodeOk(s.nodes, n);
    if s.nodes[n].parent.Some? {
      assert {} + Promise(k.top) == {};
    }
    CommitQuiet(s, t, Remove(n), rest, s.nodes, k);
  }

  lemma StepLink(s: State, t: nat, n: nat, rest: Stack)
    requires Running(s, t, Link(n), rest)
    ensures Inv(State(s.nodes[n := s.nodes[n].(linked := true)], s.threads[t := rest]))
  {
    Unfold(s, t, Link(n), rest);
    var x := s.nodes[n].(linked := true);
    assert NodeOk(s.nodes, n);
    ChildrenKept(s.nodes, n);
    UpdateNode(s.nodes, n, x);
    FrameStack(s.nodes, s.nodes[n := x], t, rest, {}, {});
    CommitQuiet(s, t, Link(n), rest, s.nodes[n := x], rest);
  }

  lemma StepDeadline(s: State, t: nat, n: nat, expired: bool, rest: Stack)
    requires Running(s, t, Deadline(n), rest)
    ensures var (nodes', k) := Exec(s.nodes, t, Deadline(n), rest, 0, expired); Inv(State(nodes', s.threads[t := k]))
  {
    Unfold(s, t, Deadline(n), rest);
    var (_, k) := Exec(s.nodes, t, Deadline(n), rest, 0, expired);
    FrameStack(s.nodes, s.nodes, t, rest, {}, {n});
    if expired {
      var k1 := Push(Expire(n), rest);
      assert {n} + Promise(Expire(n)) == {n};
      assert Held(k1) == Held(rest) && Busy(k1) == Busy(rest) && Inner(k1) == Inner(rest) && StackOk(s.nodes, t, k1, {n});
    }
    assert {} + Promise(k.top) == if expired then {n} else {};
    CommitQuiet(s, t, Deadline(n), rest, s.nodes, k);
  }

  lemma StepExpire(s: State, t: nat, n: nat, rest: Stack)
    requires Running(s, t, Expire(n), rest)
    ensures Inv(State(s.nodes[n := s.nodes[n].(expired := true)], s.threads[t := rest]))
  {
    Unfold(s, t, Expire(n), rest);
    var x := s.nodes[n].(expired := true);
    assert NodeOk(s.nodes, n);
    ChildrenKept(s.nodes, n);
    UpdateNode(s.nodes, n, x);
    FrameStack(s.nodes, s.nodes[n := x], t, rest, {}, {});
    CommitQuiet(s, t, Expire(n), rest, s.nodes[n := x], rest);
  }

  lemma StepEnter(s: State, t: nat, n: nat, section: Section, rest: Stack)
    requires Running(s, t, Enter(n, section), rest) && s.nodes[n].mu == None
    ensures var (nodes', k) := ExecEnter(s.nodes, t, n, section, rest); Inv(State(nodes', s.threads[t := k]))
  {
    var (nodes', k) := ExecEnter(s.nodes, t, n, section, rest);
    match section
    case Attach(kind) => EnterAttach(s, t, n, kind, rest);
    case Mark(rm, e) =>
      if s.nodes[n].err.Some? {
        EnterMarkLate(s, t, n, rm, e, rest);
      } else {
        EnterMarkFirst(s, t, n, rm, e, rest);
      }
    case Delete(c) => EnterDelete(s, t, n, c, rest);
    case _ => EnterQuiet(s, t, n, section, rest, nodes'[n]);
  }

  lemma StepKeeps(s: State, a: Action)
    requires Inv(s) && Enabled(s, a) && a.Step?
    ensures Inv(Apply(s, a))
  {
    var t, i, rest := a.t, s.threads[a.t].top, s.threads[a.t].rest;
    assert Running(s, t, i, rest);
    match i
    case Enter(n, section) => StepEnter(s, t, n, section, rest);
    case Exit(n) => StepExit(s, t, n, rest);
    case Cancel(n, rm, e) => StepCancel(s, t, n, rm, e, rest);
    case CloseDone(n, e) => StepCloseDone(s, t, n, e, rest);
    case Sweep(n, e, todo) =>
      if todo == {} {
        StepSweepDone(s, t, n, e, rest);
      } else {
        StepSweepChild(s, t, n, e, todo, a.child, rest);
      }
    case Remove(n) => StepRemove(s, t, n, rest);
    case Link(n) => StepLink(s, t, n, rest);
    case Deadline(n) => StepDeadline(s, t, n, a.expired, rest);
    case Expire(n) => StepExpire(s, t, n, rest);
  }

  lemma CallKeeps(s: State, a: Action)
    requires Inv(s) && Enabled(s, a) && !a.Step?
    ensures Inv(Apply(s, a))
  {
    var s' := Apply(s, a);
    var k := s'.threads[a.t];
    if |s'.nodes| > |s.nodes| {
      forall m | 0 <= m < |s'.nodes| ensures NodeOk(s'.nodes, m) {
        assert m < |s.nodes| ==> NodeOk(s.nodes, m);
      }
    }
    forall m | 0 <= m < |s'.nodes| ensures OwnMutex(s.nodes, s'.nodes, a.t, k, m) {
      assert m < |s.nodes| ==> MutexOk(s, m);
    }
    assert k.Push? ==> k.rest == Nil || StackOk(s'.nodes, a.t, k.rest, {} + Promise(k.top));
    Commit(s, a.t, s'.nodes, k);
  }

  lemma {:induction false} RunKeeps(s: State, acts: seq<Action>, s': State)
    requires Inv(s) && Reaches(s, acts, s')
    ensures Inv(s')
    decreases |acts|
  {
    if acts != [] {
      if acts[0].Step? {
        StepKeeps(s, acts[0]);
      } else {
        CallKeeps(s, acts[0]);
      }
      RunKeeps(Apply(s, acts[0]), acts[1..], s');
    }
  }
}
