/** The timers of context/context.go: no cancelled context keeps one. */
module ContextTimers {
  import opened Prelude
  import opened ContextTree

  // ContextTree has the steps.  Its field `timer` says that a context holds a running timer:
  // WithDeadline starts it if the context is not cancelled by then, and timerCtx.cancel stops it
  // last of all.  Nothing here needs the invariant of the tree or of the mutexes.

  /** The nodes named by those instructions of a stack that `f` picks. */
  function Named(k: Stack, f: Instr -> bool): set<nat> {
    match k
    case Nil => {}
    case Push(i, rest) => (if f(i) then {i.n} else {}) + Named(rest, f)
  }

  predicate IsMark(i: Instr) {
    i.Enter? && i.section.Mark?
  }

  predicate IsStop(i: Instr) {
    i.Enter? && i.section.StopTimer?
  }

  /** An instruction that stops the timer of a timerCtx, or will push one that does. */
  predicate EndsTimer(i: Instr) {
    i.Cancel? || IsStop(i)
  }

  /** A step keeps what is below the instruction it executes. */
  lemma BelowStays(nodes: seq<Node>, t: nat, i: Instr, rest: Stack, child: nat, expired: bool, f: Instr -> bool)
    requires i.n < |nodes|
    ensures Named(rest, f) <= Named(Exec(nodes, t, i, rest, child, expired).1, f)
  {
    var k := Exec(nodes, t, i, rest, child, expired).1;
    assert k == rest || k.rest == rest || k.rest.rest == rest || k.rest.rest.rest == rest || k.rest.rest.rest.rest == rest;
    if k != rest && k.rest != rest {
      assert Named(k.rest.rest, f) <= Named(k.rest, f);
      if k.rest.rest != rest {
        assert Named(k.rest.rest.rest, f) <= Named(k.rest.rest, f);
      }
    }
  }

  predicate Timed(nodes: seq<Node>, n: nat) {
    n < |nodes| && nodes[n].kind.TimerKind?
  }

  /** An error is set before the timer is stopped, and a timer that may run is stopped after the error is set. */
  ghost predicate Fits(nodes: seq<Node>, i: Instr, rest: Stack, marked: set<nat>) {
    && (IsMark(i) ==> i.n < |nodes| && (Timed(nodes, i.n) ==> i.n in Named(rest, IsStop)))
    && (IsStop(i) ==> i.n < |nodes| && (nodes[i.n].err.Some? || i.n in marked))
    && (i.Deadline? || (i.Enter? && i.section.StartTimer?) ==> Timed(nodes, i.n))
  }

  function Marked(i: Instr, marked: set<nat>): set<nat> {
    if IsMark(i) then marked + {i.n} else marked
  }

  /** Every instruction fits; `marked` are the nodes whose errors will be set higher up the stack. */
  ghost predicate Orderly(nodes: seq<Node>, k: Stack, marked: set<nat>)
    decreases k
  {
    k.Push? ==> Fits(nodes, k.top, k.rest, marked) && Orderly(nodes, k.rest, Marked(k.top, marked))
  }

  lemma {:induction false} OrderlyGrows(nodes: seq<Node>, nodes': seq<Node>, k: Stack, marked: set<nat>, marked': set<nat>)
    requires Orderly(nodes, k, marked) && Grows(nodes, nodes')
    requires forall n :: n in marked ==> n in marked' || (n < |nodes'| && nodes'[n].err.Some?)
    ensures Orderly(nodes', k, marked')
    decreases k
  {
    if k.Push? {
      OrderlyGrows(nodes, nodes', k.rest, Marked(k.top, marked), Marked(k.top, marked'));
    }
  }

  lemma CancelIsOrderly(nodes: seq<Node>, t: nat, n: nat, rm: bool, e: Error, rest: Stack)
    requires n < |nodes| && Orderly(nodes, rest, {})
    ensures var (nodes', k) := Exec(nodes, t, Cancel(n, rm, e), rest, 0, false); Orderly(nodes', k, {})
  {
    var (nodes', k) := Exec(nodes, t, Cancel(n, rm, e), rest, 0, false);
    ExecGrows(nodes, t, Cancel(n, rm, e), rest, 0, false);
    OrderlyGrows(nodes, nodes', rest, {}, Marked(k.top, {}));
    var k1 := Push(Enter(n, StopTimer), rest);
    assert n in Named(k1, IsStop) && n in Named(Push(Remove(n), k1), IsStop);
    if nodes[n].kind.TimerKind? {
      assert Orderly(nodes', k1, Marked(k.top, {}));
      assert Orderly(nodes', Push(Remove(n), k1), Marked(k.top, {}));
    }
  }

  lemma EnterIsOrderly(nodes: seq<Node>, t: nat, n: nat, section: Section, rest: Stack)
    requires n < |nodes| && Orderly(nodes, Push(Enter(n, section), rest), {})
    ensures var (nodes', k) := ExecEnter(nodes, t, n, section, rest); Orderly(nodes', k, {})
  {
    var (nodes', k) := ExecEnter(nodes, t, n, section, rest);
    EnterGrows(nodes, t, n, section, rest);
    OrderlyGrows(nodes, nodes', rest, Marked(Enter(n, section), {}), {});
    assert Orderly(nodes', Push(Exit(n), rest), {});
    if section.Attach? {
      var k1 := AfterAttach(|nodes|, section.kind, rest);
      assert Orderly(nodes', k1, {});
      assert Orderly(nodes', Push(Exit(n), k1), {});
      assert Orderly(nodes', Push(Link(|nodes|), Push(Exit(n), k1)), {});
    }
    if section.Mark? && section.rm {
      assert Orderly(nodes', Push(Remove(n), rest), {});
      assert Orderly(nodes', Push(Exit(n), Push(Remove(n), rest)), {});
    }
  }

  lemma ExecIsOrderly(nodes: seq<Node>, t: nat, i: Instr, rest: Stack, child: nat, expired: bool)
    requires i.n < |nodes| && Orderly(nodes, Push(i, rest), {})
    ensures var (nodes', k) := Exec(nodes, t, i, rest, child, expired); Orderly(nodes', k, {})
  {
    if i.Enter? {
      EnterIsOrderly(nodes, t, i.n, i.section, rest);
    } else if i.Cancel? {
      CancelIsOrderly(nodes, t, i.n, i.rm, i.e, rest);
    } else {
      var (nodes', k) := Exec(nodes, t, i, rest, child, expired);
      ExecGrows(nodes, t, i, rest, child, expired);
      OrderlyGrows(nodes, nodes', rest, {}, {});
      if i.Sweep? && i.todo != {} {
        assert Orderly(nodes', Push(Sweep(i.n, i.e, i.todo - {child}), rest), {});
      }
      if i.Deadline? && expired { assert Orderly(nodes', Push(Expire(i.n), rest), {}); }
    }
  }

  // ------------------------------------------------------------- the invariant

  /** Goroutine t will stop the timer of `n`. */
  ghost predicate Stopping(s: State, n: nat, t: nat) {
    t in s.threads && n in Named(s.threads[t], IsStop)
  }

  ghost predicate TimerOk(s: State, n: nat)
    requires n < |s.nodes|
  {
    s.nodes[n].timer ==> s.nodes[n].kind.TimerKind? && (s.nodes[n].err.Some? ==> exists t :: Stopping(s, n, t))
  }

  ghost predicate TimersOk(s: State) {
    && (forall n {:trigger TimerOk(s, n)} :: 0 <= n < |s.nodes| ==> TimerOk(s, n))
    && (forall t {:trigger Orderly(s.nodes, s.threads[t], {})} :: t in s.threads ==> Orderly(s.nodes, s.threads[t], {}))
  }

  /** What a step of one goroutine does to the timer of `n`. */
  lemma StepKeepsTimer(s: State, a: Action, n: nat)
    requires Enabled(s, a) && a.Step? && n < |s.nodes| && TimerOk(s, n) && Orderly(s.nodes, s.threads[a.t], {})
    ensures TimerOk(Apply(s, a), n)
  {
    var s', i, rest := Apply(s, a), s.threads[a.t].top, s.threads[a.t].rest;
    BelowStays(s.nodes, a.t, i, rest, a.child, a.expired, IsStop);
    if s'.nodes[n].timer && s'.nodes[n].err.Some? {
      if s.nodes[n].timer && s.nodes[n].err.Some? {
        var u :| Stopping(s, n, u);
        if u == a.t {
          assert !(IsStop(i) && i.n == n);
        }
        assert Stopping(s', n, u);
      } else {
        assert IsMark(i) && i.n == n;
        assert Stopping(s', n, a.t);
      }
    }
  }

  lemma NewHasNoTimer(s: State, a: Action, n: nat)
    requires Enabled(s, a) && |s.nodes| <= n < |Apply(s, a).nodes|
    ensures !Apply(s, a).nodes[n].timer
  {
  }

  lemma CallKeepsTimer(s: State, a: Action, n: nat)
    requires Enabled(s, a) && !a.Step? && n < |s.nodes| && TimerOk(s, n)
    ensures TimerOk(Apply(s, a), n)
  {
    if s.nodes[n].timer && s.nodes[n].err.Some? {
      var u :| Stopping(s, n, u);
      assert Stopping(Apply(s, a), n, u);
    }
  }

  lemma CallIsOrderly(s: State, a: Action)
    requires Enabled(s, a) && !a.Step?
    ensures Orderly(Apply(s, a).nodes, Apply(s, a).threads[a.t], {})
  {
    var k := Apply(s, a).threads[a.t];
    assert k.Push? && k.rest.Push? ==> Orderly(Apply(s, a).nodes, k.rest, {});
  }

  lemma StepKeepsOrder(s: State, a: Action)
    requires TimersOk(s) && Enabled(s, a)
    ensures forall t {:trigger Orderly(Apply(s, a).nodes, Apply(s, a).threads[t], {})} :: t in Apply(s, a).threads ==>
              Orderly(Apply(s, a).nodes, Apply(s, a).threads[t], {})
  {
    var s' := Apply(s, a);
    StepGrows(s, a);
    forall u | u in s'.threads ensures Orderly(s'.nodes, s'.threads[u], {}) {
      if u != a.t {
        assert Orderly(s.nodes, s.threads[u], {});
        OrderlyGrows(s.nodes, s'.nodes, s.threads[u], {}, {});
      } else if a.Step? {
        assert Orderly(s.nodes, s.threads[u], {});
        ExecIsOrderly(s.nodes, u, s.threads[u].top, s.threads[u].rest, a.child, a.expired);
      } else {
        CallIsOrderly(s, a);
      }
    }
  }

  lemma StepKeepsTimers(s: State, a: Action)
    requires TimersOk(s) && Enabled(s, a)
    ensures TimersOk(Apply(s, a))
  {
    var s' := Apply(s, a);
    StepKeepsOrder(s, a);
    forall n | 0 <= n < |s'.nodes| ensures TimerOk(s', n) {
      if n >= |s.nodes| {
        NewHasNoTimer(s, a, n);
      } else {
        assert TimerOk(s, n);
        if a.Step? {
          assert Orderly(s.nodes, s.threads[a.t], {});
          StepKeepsTimer(s, a, n);
        } else {
          CallKeepsTimer(s, a, n);
        }
      }
    }
  }

  lemma {:induction false} RunKeepsTimers(s: State, acts: seq<Action>, s': State)
    requires TimersOk(s) && Reaches(s, acts, s')
    ensures TimersOk(s')
    decreases |acts|
  {
    if acts != [] {
      StepKeepsTimers(s, acts[0]);
      RunKeepsTimers(Apply(s, acts[0]), acts[1..], s');
    }
  }

  // -------------------------------------------------------------- the theorems

  /** A cancelled context whose timer still runs has a goroutine that is about to stop it. */
  lemma CancelledTimerIsStopped(acts: seq<Action>, s: State, n: nat)
    requires Reaches(Init(), acts, s) && n < |s.nodes| && s.nodes[n].err.Some? && s.nodes[n].timer
    ensures exists t :: Stopping(s, n, t) && s.threads[t] != Nil
  {
    RunKeepsTimers(Init(), acts, s);
    assert TimerOk(s, n);
    var t :| Stopping(s, n, t);
    assert s.threads[t] != Nil;
  }

  /** With every call returned, no cancelled context holds a timer. */
  lemma ReturnedCallsStopTimers(acts: seq<Action>, s: State, n: nat)
    requires Reaches(Init(), acts, s) && n < |s.nodes| && s.nodes[n].err.Some?
    requires forall t :: t in s.threads ==> s.threads[t] == Nil
    ensures !s.nodes[n].timer
  {
    if s.nodes[n].timer {
      CancelledTimerIsStopped(acts, s, n);
    }
  }

  /** The timer of `c` is stopped for good, or goroutine t will see to it. */
  ghost predicate Ending(s: State, t: nat, c: nat) {
    && c < |s.nodes| && t in s.threads
    && (|| s.nodes[c].kind.CancelKind?
        || (s.nodes[c].err.Some? && !s.nodes[c].timer)
        || c in Named(s.threads[t], EndsTimer))
  }

  lemma CancelStops(nodes: seq<Node>, t: nat, i: Instr, rest: Stack, child: nat, expired: bool)
    requires i.Cancel? && Timed(nodes, i.n)
    ensures i.n in Named(Exec(nodes, t, i, rest, child, expired).1, EndsTimer)
  {
    var k := Exec(nodes, t, i, rest, child, expired).1;
    assert i.n in Named(Push(Enter(i.n, StopTimer), rest), EndsTimer);
    assert i.n in Named(k.rest, EndsTimer);
  }

  lemma StepKeepsEnding(s: State, a: Action, t: nat, c: nat)
    requires Enabled(s, a) && Ending(s, t, c) && (a.Step? ==> Orderly(s.nodes, s.threads[a.t], {}))
    ensures Ending(Apply(s, a), t, c)
  {
    StepGrows(s, a);
    if a.Step? && a.t == t && c in Named(s.threads[t], EndsTimer) {
      var i, rest := s.threads[t].top, s.threads[t].rest;
      BelowStays(s.nodes, t, i, rest, a.child, a.expired, EndsTimer);
      if i.Cancel? && i.n == c && s.nodes[c].kind.TimerKind? {
        CancelStops(s.nodes, t, i, rest, a.child, a.expired);
      } else if IsStop(i) && i.n == c {
        assert !Apply(s, a).nodes[c].timer;
      }
    }
  }

  lemma {:induction false} RunKeepsEnding(s: State, acts: seq<Action>, s': State, t: nat, c: nat)
    requires TimersOk(s) && Reaches(s, acts, s') && Ending(s, t, c)
    ensures Ending(s', t, c)
    decreases |acts|
  {
    if acts != [] {
      StepKeepsTimers(s, acts[0]);
      assert acts[0].Step? ==> Orderly(s.nodes, s.threads[acts[0].t], {});
      StepKeepsEnding(s, acts[0], t, c);
      RunKeepsEnding(Apply(s, acts[0]), acts[1..], s', t, c);
    }
  }

  /** When any CancelFunc call has returned, the timer of its context is stopped, and stays so. */
  lemma CancelFuncStopsTimer(before: seq<Action>, s0: State, a: Action, after: seq<Action>, s: State)
    requires Reaches(Init(), before, s0) && a.CallCancel? && Enabled(s0, a) && Reaches(Apply(s0, a), after, s)
    requires a.t in s.threads && s.threads[a.t] == Nil
    ensures a.c < |s.nodes| && !s.nodes[a.c].timer
  {
    RunKeepsTimers(Init(), before, s0);
    StepKeepsTimers(s0, a);
    assert Ending(Apply(s0, a), a.t, a.c);
    RunKeepsEnding(Apply(s0, a), after, s, a.t, a.c);
    RunKeepsTimers(Apply(s0, a), after, s);
    assert TimerOk(s, a.c);
  }

  // ------------------------------------------------- a deadline is not forgotten

  /** An instruction that starts the timer of its node, or cancels the node. */
  predicate SeesToIt(i: Instr) {
    i.Deadline? || i.Cancel? || (i.Enter? && (i.section.StartTimer? || i.section.Mark?))
  }

  ghost predicate Seeing(s: State, n: nat, t: nat) {
    t in s.threads && n in Named(s.threads[t], SeesToIt)
  }

  ghost predicate Kept(s: State, n: nat)
    requires n < |s.nodes|
  {
    s.nodes[n].kind.TimerKind? && s.nodes[n].err == None ==> s.nodes[n].timer || exists t :: Seeing(s, n, t)
  }

  ghost predicate DeadlinesKept(s: State) {
    forall n {:trigger Kept(s, n)} :: 0 <= n < |s.nodes| ==> Kept(s, n)
  }

  /** The instruction on top passes its duty on, or has done it. */
  lemma TopSees(s: State, a: Action, n: nat)
    requires Enabled(s, a) && a.Step? && n < |s.nodes| && s.nodes[n].kind.TimerKind?
    requires SeesToIt(s.threads[a.t].top) && s.threads[a.t].top.n == n && Apply(s, a).nodes[n].err == None
    ensures Apply(s, a).nodes[n].timer || Seeing(Apply(s, a), n, a.t)
  {
    var k := Apply(s, a).threads[a.t];
    assert k.Push? ==> Named(k, SeesToIt) == (if SeesToIt(k.top) then {k.top.n} else {}) + Named(k.rest, SeesToIt);
  }

  lemma NewIsSeen(s: State, a: Action, n: nat)
    requires Enabled(s, a) && |s.nodes| <= n < |Apply(s, a).nodes| && Apply(s, a).nodes[n].kind.TimerKind?
    ensures Seeing(Apply(s, a), n, a.t)
  {
    var k := Apply(s, a).threads[a.t];
    if a.With? {
      assert k.top == Deadline(n);
    } else {
      var i, rest := s.threads[a.t].top, s.threads[a.t].rest;
      assert i.Enter? && i.section.Attach?;
      var k1 := AfterAttach(n, TimerKind, rest);
      assert n in Named(k1, SeesToIt);
      assert n in Named(Push(Exit(i.n), k1), SeesToIt);
    }
  }

  lemma TimerStays(s: State, a: Action, n: nat)
    requires Enabled(s, a) && n < |s.nodes| && s.nodes[n].timer && Apply(s, a).nodes[n].err == None
    requires a.Step? ==> Orderly(s.nodes, s.threads[a.t], {})
    ensures Apply(s, a).nodes[n].timer
  {
    if a.Step? {
      var i := s.threads[a.t].top;
      assert IsStop(i) ==> s.nodes[i.n].err.Some?;
    }
  }

  lemma StillKept(s: State, a: Action, n: nat)
    requires Enabled(s, a) && n < |s.nodes| && Kept(s, n)
    requires a.Step? ==> Orderly(s.nodes, s.threads[a.t], {})
    ensures Kept(Apply(s, a), n)
  {
    var s' := Apply(s, a);
    StepGrows(s, a);
    if s'.nodes[n].kind.TimerKind? && s'.nodes[n].err == None {
      if s.nodes[n].timer {
        TimerStays(s, a, n);
      } else {
        var u :| Seeing(s, n, u);
        if u != a.t {
          assert Seeing(s', n, u);
        } else {
          var i, rest := s.threads[u].top, s.threads[u].rest;
          if SeesToIt(i) && i.n == n {
            TopSees(s, a, n);
          } else {
            BelowStays(s.nodes, u, i, rest, a.child, a.expired, SeesToIt);
            assert Seeing(s', n, u);
          }
        }
      }
    }
  }

  lemma StepKeepsDeadlines(s: State, a: Action)
    requires TimersOk(s) && DeadlinesKept(s) && Enabled(s, a)
    ensures DeadlinesKept(Apply(s, a))
  {
    var s' := Apply(s, a);
    assert a.Step? ==> Orderly(s.nodes, s.threads[a.t], {});
    forall n | 0 <= n < |s'.nodes| ensures Kept(s', n) {
      if n < |s.nodes| {
        assert Kept(s, n);
        StillKept(s, a, n);
      } else if s'.nodes[n].kind.TimerKind? {
        NewIsSeen(s, a, n);
      }
    }
  }

  lemma {:induction false} RunKeepsDeadlines(s: State, acts: seq<Action>, s': State)
    requires TimersOk(s) && DeadlinesKept(s) && Reaches(s, acts, s')
    ensures DeadlinesKept(s')
    decreases |acts|
  {
    if acts != [] {
      StepKeepsTimers(s, acts[0]);
      StepKeepsDeadlines(s, acts[0]);
      RunKeepsDeadlines(Apply(s, acts[0]), acts[1..], s');
    }
  }

  /**
   A context with a deadline that is not cancelled holds its timer, or some goroutine has yet to
   start the timer or to cancel the context.
   */
  lemma DeadlineIsKept(acts: seq<Action>, s: State, n: nat)
    requires Reaches(Init(), acts, s) && n < |s.nodes| && s.nodes[n].kind.TimerKind? && s.nodes[n].err == None
    ensures s.nodes[n].timer || exists t :: Seeing(s, n, t) && s.threads[t] != Nil
  {
    RunKeepsDeadlines(Init(), acts, s);
    assert Kept(s, n);
    if !s.nodes[n].timer {
      var t :| Seeing(s, n, t);
      assert s.threads[t] != Nil;
    }
  }

  /** With every call returned, exactly the contexts with a deadline that are not cancelled hold a timer. */
  lemma ReturnedCallsKeepDeadlines(acts: seq<Action>, s: State, n: nat)
    requires Reaches(Init(), acts, s) && n < |s.nodes|
    requires forall t :: t in s.threads ==> s.threads[t] == Nil
    ensures s.nodes[n].timer <==> s.nodes[n].kind.TimerKind? && s.nodes[n].err == None
  {
    RunKeepsTimers(Init(), acts, s);
    assert TimerOk(s, n);
    if s.nodes[n].err.Some? {
      ReturnedCallsStopTimers(acts, s, n);
    } else if s.nodes[n].kind.TimerKind? {
      DeadlineIsKept(acts, s, n);
    }
  }
}
