/** Which error a cancelled context of context/context.go reports. */
module ContextErrors {
  import opened Prelude
  import opened ContextTree

  // An error comes from a call: a CancelFunc, a timer, or a WithDeadline that found its deadline
  // past.  From there cancel hands it down the tree.  Told says that everything a state holds or
  // passes on, an error set on a node or one that an instruction carries, came that way.

  /**
   Step k of the run, taken in state s0, cancelled `c` with the error `e`: a CancelFunc of `c`
   or its timer was called with `e`, or the WithDeadline of `c` found its deadline past.
   */
  ghost predicate Cause(acts: seq<Action>, k: nat, s0: State, c: nat, e: Error) {
    && k < |acts| && Reaches(Init(), acts[..k], s0) && Enabled(s0, acts[k])
    && match acts[k]
       case With(_, _, _) => false
       case CallCancel(_, c', _, e') => c' == c && e' == e
       case Step(t, _, expired) => expired && s0.threads[t].top == Deadline(c) && e == DeadlineExceeded
  }

  ghost predicate Caused(acts: seq<Action>, c: nat, e: Error) {
    exists k: nat, s0: State :: Cause(acts, k, s0, c, e)
  }

  /** The cancellations of a run, each with its context. */
  ghost function Causes(acts: seq<Action>): iset<(nat, Error)> {
    iset c: nat, e: Error | Caused(acts, c, e) :: (c, e)
  }

  /** `n` may report `e`: a context that is `n` or above it was cancelled with `e`. */
  ghost predicate Explained(from: iset<(nat, Error)>, nodes: seq<Node>, n: nat, e: Error) {
    exists c: nat :: (c, e) in from && Below(nodes, c, n)
  }

  ghost predicate InstrTold(from: iset<(nat, Error)>, nodes: seq<Node>, i: Instr) {
    match i
    case Cancel(n, _, e) => Explained(from, nodes, n, e)
    case CloseDone(n, e) => Explained(from, nodes, n, e)
    case Sweep(n, e, _) => Explained(from, nodes, n, e)
    case Enter(n, section) => section.Mark? ==> Explained(from, nodes, n, section.e)
    case _ => true
  }

  ghost predicate StackTold(from: iset<(nat, Error)>, nodes: seq<Node>, k: Stack) {
    k.Push? ==> InstrTold(from, nodes, k.top) && StackTold(from, nodes, k.rest)
  }

  ghost predicate NodeTold(from: iset<(nat, Error)>, nodes: seq<Node>, n: nat)
    requires n < |nodes|
  {
    nodes[n].err.Some? ==> Explained(from, nodes, n, nodes[n].err.value)
  }

  ghost predicate NodesTold(from: iset<(nat, Error)>, nodes: seq<Node>) {
    forall n {:trigger NodeTold(from, nodes, n)} :: 0 <= n < |nodes| ==> NodeTold(from, nodes, n)
  }

  ghost predicate Told(from: iset<(nat, Error)>, s: State) {
    && NodesTold(from, s.nodes)
    && (forall t {:trigger StackTold(from, s.nodes, s.threads[t])} :: t in s.threads ==> StackTold(from, s.nodes, s.threads[t]))
  }

  // ------------------------------------------------------- what a step passes on

  lemma {:induction false} BelowGrows(nodes: seq<Node>, nodes': seq<Node>, p: nat, c: nat)
    requires Below(nodes, p, c) && Grows(nodes, nodes')
    ensures Below(nodes', p, c)
    decreases c
  {
    if c != p { BelowGrows(nodes, nodes', p, nodes[c].parent.value); }
  }

  lemma ExplainedGrows(from: iset<(nat, Error)>, nodes: seq<Node>, from': iset<(nat, Error)>, nodes': seq<Node>, n: nat, e: Error)
    requires Explained(from, nodes, n, e) && from <= from' && Grows(nodes, nodes')
    ensures Explained(from', nodes', n, e)
  {
    var c: nat :| (c, e) in from && Below(nodes, c, n);
    BelowGrows(nodes, nodes', c, n);
  }

  lemma InstrGrows(from: iset<(nat, Error)>, nodes: seq<Node>, from': iset<(nat, Error)>, nodes': seq<Node>, i: Instr)
    requires InstrTold(from, nodes, i) && from <= from' && Grows(nodes, nodes')
    ensures InstrTold(from', nodes', i)
  {
    if i.Cancel? || i.CloseDone? || i.Sweep? {
      ExplainedGrows(from, nodes, from', nodes', i.n, i.e);
    } else if i.Enter? && i.section.Mark? {
      ExplainedGrows(from, nodes, from', nodes', i.n, i.section.e);
    }
  }

  lemma {:induction false} StackGrows(from: iset<(nat, Error)>, nodes: seq<Node>, from': iset<(nat, Error)>, nodes': seq<Node>, k: Stack)
    requires StackTold(from, nodes, k) && from <= from' && Grows(nodes, nodes')
    ensures StackTold(from', nodes', k)
  {
    if k.Push? {
      InstrGrows(from, nodes, from', nodes', k.top);
      StackGrows(from, nodes, from', nodes', k.rest);
    }
  }

  lemma ExplainedChild(from: iset<(nat, Error)>, nodes: seq<Node>, p: nat, c: nat, e: Error)
    requires Explained(from, nodes, p, e) && c < |nodes| && nodes[c].parent == Some(p) && p < c
    ensures Explained(from, nodes, c, e)
  {
    var b: nat :| (b, e) in from && Below(nodes, b, p);
    assert Below(nodes, b, c);
  }

  /** A node's error after entering a section is the one before or the one that a Mark carries. */
  lemma EnterTellsNodes(from: iset<(nat, Error)>, nodes: seq<Node>, t: nat, n: nat, section: Section, rest: Stack)
    requires n < |nodes| && NodesTold(from, nodes) && InstrTold(from, nodes, Enter(n, section))
    ensures NodesTold(from, ExecEnter(nodes, t, n, section, rest).0)
  {
    var nodes' := ExecEnter(nodes, t, n, section, rest).0;
    EnterGrows(nodes, t, n, section, rest);
    forall m | 0 <= m < |nodes'| ensures NodeTold(from, nodes', m) {
      if m < |nodes| {
        assert NodeTold(from, nodes, m);
        if nodes[m].err.Some? {
          ExplainedGrows(from, nodes, from, nodes', m, nodes[m].err.value);
        } else if nodes'[m].err.Some? {
          assert m == n && section.Mark? && nodes'[m].err == Some(section.e);
          ExplainedGrows(from, nodes, from, nodes', m, section.e);
        }
      }
    }
  }

  lemma EnterTellsStack(from: iset<(nat, Error)>, nodes: seq<Node>, t: nat, n: nat, section: Section, rest: Stack)
    requires n < |nodes| && NodesTold(from, nodes) && StackTold(from, nodes, Push(Enter(n, section), rest))
    ensures var (nodes', k) := ExecEnter(nodes, t, n, section, rest); StackTold(from, nodes', k)
  {
    var (nodes', k) := ExecEnter(nodes, t, n, section, rest);
    EnterGrows(nodes, t, n, section, rest);
    StackGrows(from, nodes, from, nodes', rest);
    if section.Mark? {
      ExplainedGrows(from, nodes, from, nodes', n, section.e);
      assert StackTold(from, nodes', Push(Remove(n), rest));
      assert StackTold(from, nodes', Push(Exit(n), if section.rm then Push(Remove(n), rest) else rest));
    } else if section.Attach? {
      var k1 := AfterAttach(|nodes|, section.kind, rest);
      assert StackTold(from, nodes', k1);
      assert StackTold(from, nodes', Push(Exit(n), k1));
      if nodes[n].err.Some? {
        assert NodeTold(from, nodes, n);
        ExplainedGrows(from, nodes, from, nodes', n, nodes[n].err.value);
        ExplainedChild(from, nodes', n, |nodes|, nodes[n].err.value);
        assert StackTold(from, nodes', Push(Link(|nodes|), Push(Exit(n), k1)));
      }
    }
  }

  lemma ExecTellsNodes(from: iset<(nat, Error)>, nodes: seq<Node>, t: nat, i: Instr, rest: Stack, child: nat, expired: bool)
    requires i.n < |nodes| && !i.Enter? && NodesTold(from, nodes)
    ensures NodesTold(from, Exec(nodes, t, i, rest, child, expired).0)
  {
    var nodes' := Exec(nodes, t, i, rest, child, expired).0;
    ExecGrows(nodes, t, i, rest, child, expired);
    forall m | 0 <= m < |nodes'| ensures NodeTold(from, nodes', m) {
      assert NodeTold(from, nodes, m) && nodes'[m].err == nodes[m].err;
      if nodes[m].err.Some? {
        ExplainedGrows(from, nodes, from, nodes', m, nodes[m].err.value);
      }
    }
  }

  lemma CancelTellsStack(from: iset<(nat, Error)>, nodes: seq<Node>, t: nat, n: nat, rm: bool, e: Error, rest: Stack, child: nat, expired: bool)
    requires n < |nodes| && StackTold(from, nodes, Push(Cancel(n, rm, e), rest))
    ensures var (nodes', k) := Exec(nodes, t, Cancel(n, rm, e), rest, child, expired); StackTold(from, nodes', k)
  {
    var (nodes', k) := Exec(nodes, t, Cancel(n, rm, e), rest, child, expired);
    ExecGrows(nodes, t, Cancel(n, rm, e), rest, child, expired);
    StackGrows(from, nodes, from, nodes', rest);
    ExplainedGrows(from, nodes, from, nodes', n, e);
    assert StackTold(from, nodes', Push(Enter(n, StopTimer), rest));
    assert StackTold(from, nodes', Push(Remove(n), Push(Enter(n, StopTimer), rest)));
  }

  lemma ExecTellsStack(from: iset<(nat, Error)>, nodes: seq<Node>, t: nat, i: Instr, rest: Stack, child: nat, expired: bool)
    requires i.n < |nodes| && !i.Enter? && !i.Cancel? && StackTold(from, nodes, Push(i, rest))
    requires i.Sweep? && i.todo != {} ==> child < |nodes| && nodes[child].parent == Some(i.n) && i.n < child
    requires i.Deadline? && expired ==> (i.n, DeadlineExceeded) in from
    ensures var (nodes', k) := Exec(nodes, t, i, rest, child, expired); StackTold(from, nodes', k)
  {
    var (nodes', k) := Exec(nodes, t, i, rest, child, expired);
    ExecGrows(nodes, t, i, rest, child, expired);
    StackGrows(from, nodes, from, nodes', rest);
    if i.CloseDone? {
      ExplainedGrows(from, nodes, from, nodes', i.n, i.e);
    } else if i.Sweep? && i.todo != {} {
      ExplainedChild(from, nodes, i.n, child, i.e);
      assert StackTold(from, nodes', Push(Sweep(i.n, i.e, i.todo - {child}), rest));
    } else if i.Deadline? && expired {
      assert Below(nodes', i.n, i.n);
      assert StackTold(from, nodes', Push(Expire(i.n), rest));
    }
  }

  /** The context that an action cancels of its own accord, and the error. */
  ghost predicate Begins(s: State, a: Action, c: nat, e: Error)
    requires Enabled(s, a)
  {
    match a
    case With(_, _, _) => false
    case CallCancel(_, c', _, e') => c' == c && e' == e
    case Step(t, _, expired) => expired && s.threads[t].top == Deadline(c) && e == DeadlineExceeded
  }

  /** The children that a sweep goes through are children. */
  lemma SweptChild(s: State, a: Action)
    requires Inv(s) && Enabled(s, a) && a.Step? && s.threads[a.t].top.Sweep? && s.threads[a.t].top.todo != {}
    ensures a.child < |s.nodes| && s.nodes[a.child].parent == Some(s.threads[a.t].top.n) && s.threads[a.t].top.n < a.child
  {
    var i, rest := s.threads[a.t].top, s.threads[a.t].rest;
    assert Running(s, a.t, i, rest);
    Unfold(s, a.t, i, rest);
    assert NodeOk(s.nodes, i.n) && NodeOk(s.nodes, a.child);
  }

  lemma StepTellsStack(from: iset<(nat, Error)>, s: State, a: Action)
    requires Inv(s) && Enabled(s, a) && a.Step? && NodesTold(from, s.nodes) && StackTold(from, s.nodes, s.threads[a.t])
    requires forall c: nat, e :: Begins(s, a, c, e) ==> (c, e) in from
    ensures StackTold(from, Apply(s, a).nodes, Apply(s, a).threads[a.t])
  {
    var i, rest := s.threads[a.t].top, s.threads[a.t].rest;
    if i.Enter? {
      EnterTellsStack(from, s.nodes, a.t, i.n, i.section, rest);
    } else if i.Cancel? {
      CancelTellsStack(from, s.nodes, a.t, i.n, i.rm, i.e, rest, a.child, a.expired);
    } else {
      if i.Sweep? && i.todo != {} { SweptChild(s, a); }
      if i.Deadline? && a.expired { assert Begins(s, a, i.n, DeadlineExceeded); }
      ExecTellsStack(from, s.nodes, a.t, i, rest, a.child, a.expired);
    }
  }

  lemma CallTellsStack(from: iset<(nat, Error)>, s: State, a: Action)
    requires Enabled(s, a) && !a.Step?
    requires forall c: nat, e :: Begins(s, a, c, e) ==> (c, e) in from
    ensures StackTold(from, Apply(s, a).nodes, Apply(s, a).threads[a.t])
  {
    var k := Apply(s, a).threads[a.t];
    if a.CallCancel? {
      assert Begins(s, a, a.c, a.e) && Below(s.nodes, a.c, a.c);
    }
    assert k.Push? && k.rest.Push? ==> StackTold(from, Apply(s, a).nodes, k.rest);
  }

  lemma StepTellsNodes(from: iset<(nat, Error)>, s: State, a: Action)
    requires Enabled(s, a) && NodesTold(from, s.nodes) && (a.Step? ==> StackTold(from, s.nodes, s.threads[a.t]))
    ensures NodesTold(from, Apply(s, a).nodes)
  {
    if a.Step? {
      var i, rest := s.threads[a.t].top, s.threads[a.t].rest;
      if i.Enter? {
        EnterTellsNodes(from, s.nodes, a.t, i.n, i.section, rest);
      } else {
        ExecTellsNodes(from, s.nodes, a.t, i, rest, a.child, a.expired);
      }
    } else {
      var s' := Apply(s, a);
      StepGrows(s, a);
      forall m | 0 <= m < |s'.nodes| ensures NodeTold(from, s'.nodes, m) {
        if m < |s.nodes| {
          assert NodeTold(from, s.nodes, m);
          if s.nodes[m].err.Some? {
            ExplainedGrows(from, s.nodes, from, s'.nodes, m, s.nodes[m].err.value);
          }
        }
      }
    }
  }

  lemma StepTells(from: iset<(nat, Error)>, s: State, a: Action)
    requires Inv(s) && Enabled(s, a) && Told(from, s)
    requires forall c: nat, e :: Begins(s, a, c, e) ==> (c, e) in from
    ensures Told(from, Apply(s, a))
  {
    var s' := Apply(s, a);
    StepGrows(s, a);
    assert a.Step? ==> StackTold(from, s.nodes, s.threads[a.t]);
    StepTellsNodes(from, s, a);
    forall u | u in s'.threads ensures StackTold(from, s'.nodes, s'.threads[u]) {
      if u != a.t {
        assert StackTold(from, s.nodes, s.threads[u]);
        StackGrows(from, s.nodes, from, s'.nodes, s.threads[u]);
      } else if a.Step? {
        StepTellsStack(from, s, a);
      } else {
        CallTellsStack(from, s, a);
      }
    }
  }

  lemma {:induction false} RunTells(from: iset<(nat, Error)>, done: seq<Action>, s: State, acts: seq<Action>, s': State)
    requires Reaches(Init(), done, s) && Reaches(s, acts, s') && Inv(s) && Told(from, s) && Causes(done + acts) == from
    ensures Told(from, s')
    decreases |acts|
  {
    if acts != [] {
      var a := acts[0];
      forall c: nat, e | Begins(s, a, c, e) ensures (c, e) in from {
        assert (done + acts)[..|done|] == done && (done + acts)[|done|] == a;
        assert Cause(done + acts, |done|, s, c, e);
      }
      StepTells(from, s, a);
      RunKeeps(s, [a], Apply(s, a));
      Extend(Init(), done, s, a);
      assert (done + [a]) + acts[1..] == done + acts;
      RunTells(from, done + [a], Apply(s, a), acts[1..], s');
    }
  }

  // -------------------------------------------------------------- the theorems

  /**
   Whatever error a context reports, it was given to a CancelFunc or the timer of that context
   or of one above it, or it is DeadlineExceeded and the WithDeadline of such a context found its
   deadline past.
   */
  lemma ErrorHasCause(acts: seq<Action>, s: State, n: nat, e: Error)
    requires Reaches(Init(), acts, s) && n < |s.nodes| && s.nodes[n].err == Some(e)
    ensures exists k: nat, s0: State, c: nat :: Cause(acts, k, s0, c, e) && Below(s.nodes, c, n)
  {
    assert Causes([] + acts) == Causes(acts) by { assert [] + acts == acts; }
    RunTells(Causes(acts), [], Init(), acts, s);
    assert NodeTold(Causes(acts), s.nodes, n);
    var c: nat :| (c, e) in Causes(acts) && Below(s.nodes, c, n);
    var k: nat, s0: State :| Cause(acts, k, s0, c, e);
  }

  /** Canceled comes from a CancelFunc only. */
  lemma CanceledByCall(acts: seq<Action>, s: State, n: nat)
    requires Reaches(Init(), acts, s) && n < |s.nodes| && s.nodes[n].err == Some(Canceled)
    ensures exists k: nat :: k < |acts| && acts[k].CallCancel? && acts[k].e == Canceled && Below(s.nodes, acts[k].c, n)
  {
    ErrorHasCause(acts, s, n, Canceled);
    var k: nat, s0: State, c: nat :| Cause(acts, k, s0, c, Canceled) && Below(s.nodes, c, n);
    assert acts[k].CallCancel?;
  }

  /** DeadlineExceeded comes from a deadline only: a WithDeadline that found it past, or the timer it started. */
  lemma DeadlineExceededByTime(acts: seq<Action>, s: State, n: nat)
    requires Reaches(Init(), acts, s) && n < |s.nodes| && s.nodes[n].err == Some(DeadlineExceeded)
    ensures exists k: nat, s0: State, c: nat :: Cause(acts, k, s0, c, DeadlineExceeded) && Below(s.nodes, c, n) &&
              (acts[k].Step? || (c < |s0.nodes| && s0.nodes[c].timer))
  {
    ErrorHasCause(acts, s, n, DeadlineExceeded);
  }
}
