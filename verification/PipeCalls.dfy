/** What the calls of io/pipe.go were asked, against what they do and return. */
module PipeCalls {
  import opened Prelude
  import opened Pipe

  // Pipe keeps the bytes in balance.  Here the state is held against the calls as they were
  // made, which only the action list knows: how much room a Read had, which bytes a Write was
  // given, and what error a Close.

  /** Every call made so far with what it asks. */
  function Asked(acts: seq<Action>): map<nat, Op> {
    if acts == [] then map[]
    else
      var last := acts[|acts| - 1];
      var before := Asked(acts[..|acts| - 1]);
      if last.Spawn? then before[last.t := last.op] else before
  }

  /** What a Close stores: the error it was given, or ErrClosedPipe from the reader and EOF from the writer. */
  function Meant(side: Side, err: Option<Error>): Error {
    if err.Some? then err.value else if side == ReadSide then ErrClosedPipe else EOF
  }

  /** `c` is where a call asked `op` may stand.  A read that leaves room has emptied the write it met. */
  ghost predicate Serves(s: State, c: Call, op: Op) {
    match op
    case Read(cap) =>
      (match c
       case ReadCheck(room) => room == cap
       case ReadSelect(room) => room == cap
       case ReadAck(data, w) =>
         |data| <= cap && (|data| < cap ==> w in s.calls && s.calls[w].WriteAwait? && s.calls[w].n + |data| == |s.calls[w].b|)
       case ReadDone(data, w, None) => |data| <= cap && (|data| < cap ==> w in s.calls && Emptied(s.calls[w]))
       case _ => c.ReadLoadR? || c.ReadLoadW? || c.ReadDone?)
    case Write(data) => IsWrite(c) && c.b == data
    case Close(side, err) =>
      || c == CloseStore(side, err)
      || ((c == CloseOnce(side) || c == CloseDone) && Meant(side, err) in Stored(s, side))
  }

  predicate Emptied(c: Call) {
    c.WriteDone? && c.n == |c.b| && c.wr == None
  }

  function Stored(s: State, side: Side): set<Error> {
    if side == ReadSide then s.rerrs else s.werrs
  }

  ghost predicate CallServes(s: State, asked: map<nat, Op>, t: nat)
    requires t in s.calls && t in asked
  {
    Serves(s, s.calls[t], asked[t])
  }

  /** A Close that is past its store meant `e`. */
  ghost predicate Given(s: State, asked: map<nat, Op>, side: Side, e: Error) {
    exists t, err ::
      t in asked && t in s.calls && asked[t] == Close(side, err) && !s.calls[t].CloseStore? && Meant(side, err) == e
  }

  ghost predicate Served(s: State, asked: map<nat, Op>) {
    && asked.Keys == s.calls.Keys
    && (forall t {:trigger CallServes(s, asked, t)} :: t in asked ==> CallServes(s, asked, t))
    && (forall side: Side, e {:trigger Given(s, asked, side, e)} :: e in Stored(s, side) ==> Given(s, asked, side, e))
  }

  // ------------------------------------------------------------- every step serves

  function AskedBy(asked: map<nat, Op>, a: Action): map<nat, Op> {
    if a.Spawn? then asked[a.t := a.op] else asked
  }

  /** The call that moves alone. */
  lemma MoverServes(s: State, a: Action, op: Op)
    requires Enabled(s, a) && OneMover(a) && a.t in s.calls && Serves(s, s.calls[a.t], op)
    ensures Serves(Apply(s, a), Apply(s, a).calls[a.t], op)
  {
  }

  predicate OneMover(a: Action) {
    !a.Offer? && !a.Reply?
  }

  /** A call that does not move stays in order when the write it met does not move, or is emptied. */
  lemma WaiterServes(s: State, s': State, c: Call, op: Op)
    requires Serves(s, c, op) && s.rerrs <= s'.rerrs && s.werrs <= s'.werrs
    requires c.ReadAck? && c.from in s.calls && s.calls[c.from].WriteAwait? ==> c.from in s'.calls && s'.calls[c.from] == s.calls[c.from]
    requires c.ReadDone? && c.from in s.calls && s.calls[c.from].WriteDone? ==> c.from in s'.calls && s'.calls[c.from] == s.calls[c.from]
    ensures Serves(s', c, op)
  {
  }

  lemma OneMoverServes(s: State, a: Action, asked: map<nat, Op>, t: nat)
    requires Enabled(s, a) && OneMover(a) && t in s.calls && t in asked && CallServes(s, asked, t) && asked.Keys == s.calls.Keys
    ensures CallServes(Apply(s, a), AskedBy(asked, a), t)
  {
    if t == a.t {
      MoverServes(s, a, asked[t]);
    } else {
      WaiterServes(s, Apply(s, a), s.calls[t], asked[t]);
    }
  }

  lemma OfferServes(s: State, a: Action, asked: map<nat, Op>, t: nat)
    requires Enabled(s, a) && a.Offer? && t in s.calls && t in asked && CallServes(s, asked, t)
    ensures CallServes(Apply(s, a), asked, t)
  {
    if t != a.w && t != a.r {
      WaiterServes(s, Apply(s, a), s.calls[t], asked[t]);
    }
  }

  lemma ReplyServes(s: State, a: Action, asked: map<nat, Op>, t: nat)
    requires LockOk(s) && CallsOk(s) && Enabled(s, a) && a.Reply? && t in s.calls && t in asked && CallServes(s, asked, t)
    ensures CallServes(Apply(s, a), asked, t)
  {
    PeersAgree(s, a.w, a.r);
    assert CallOk(s, t) && CallOk(s, a.w);
    if t != a.w && t != a.r {
      WaiterServes(s, Apply(s, a), s.calls[t], asked[t]);
    }
  }

  lemma StillGiven(s: State, a: Action, asked: map<nat, Op>, side: Side, e: Error)
    requires Enabled(s, a) && Given(s, asked, side, e)
    ensures Given(Apply(s, a), AskedBy(asked, a), side, e)
  {
    var t, err :|
      t in asked && t in s.calls && asked[t] == Close(side, err) && !s.calls[t].CloseStore? && Meant(side, err) == e;
    var s' := Apply(s, a);
    assert AskedBy(asked, a)[t] == Close(side, err) && t in s'.calls && !s'.calls[t].CloseStore?;
  }

  lemma StoreGives(s: State, a: Action, asked: map<nat, Op>, side: Side, e: Error)
    requires Enabled(s, a) && a.Store? && a.t in asked && CallServes(s, asked, a.t)
    requires e in Stored(Apply(s, a), side) && e !in Stored(s, side)
    ensures Given(Apply(s, a), asked, side, e)
  {
    var c := s.calls[a.t];
    assert asked[a.t] == Close(c.side, c.err);
    assert side == c.side && e == Meant(side, c.err);
    assert Apply(s, a).calls[a.t] == CloseOnce(side);
  }

  lemma StepGives(s: State, a: Action, asked: map<nat, Op>, side: Side, e: Error)
    requires Served(s, asked) && Enabled(s, a) && e in Stored(Apply(s, a), side)
    ensures Given(Apply(s, a), AskedBy(asked, a), side, e)
  {
    if e in Stored(s, side) {
      assert Given(s, asked, side, e);
      StillGiven(s, a, asked, side, e);
    } else {
      assert a.Store? && CallServes(s, asked, a.t);
      StoreGives(s, a, asked, side, e);
    }
  }

  lemma StepServes(s: State, a: Action, asked: map<nat, Op>)
    requires LockOk(s) && CallsOk(s) && Served(s, asked) && Enabled(s, a)
    ensures Served(Apply(s, a), AskedBy(asked, a))
  {
    var s', asked' := Apply(s, a), AskedBy(asked, a);
    forall t | t in asked' ensures CallServes(s', asked', t) {
      if t in asked {
        assert CallServes(s, asked, t);
        if a.Offer? {
          OfferServes(s, a, asked, t);
        } else if a.Reply? {
          ReplyServes(s, a, asked, t);
        } else {
          OneMoverServes(s, a, asked, t);
        }
      }
    }
    forall side: Side, e | e in Stored(s', side) ensures Given(s', asked', side, e) {
      StepGives(s, a, asked, side, e);
    }
  }

  lemma {:induction false} CutLast(s: State, acts: seq<Action>, s': State) returns (before: State)
    requires Reaches(s, acts, s') && acts != []
    ensures Reaches(s, acts[..|acts| - 1], before) && Enabled(before, acts[|acts| - 1]) && Apply(before, acts[|acts| - 1]) == s'
    decreases |acts|
  {
    if |acts| == 1 {
      before := s;
    } else {
      before := CutLast(Apply(s, acts[0]), acts[1..], s');
      assert acts[1..][..|acts| - 2] == acts[..|acts| - 1][1..];
    }
  }

  lemma {:induction false} AllServed(acts: seq<Action>, s: State)
    requires Reaches(Init(), acts, s)
    ensures Inv(s) && Served(s, Asked(acts))
    decreases |acts|
  {
    if acts != [] {
      var n := |acts| - 1;
      var before := CutLast(Init(), acts, s);
      AllServed(acts[..n], before);
      NextServes(before, acts[n], Asked(acts[..n]));
    }
  }

  lemma NextServes(s: State, a: Action, asked: map<nat, Op>)
    requires Inv(s) && Served(s, asked) && Enabled(s, a)
    ensures Inv(Apply(s, a)) && Served(Apply(s, a), AskedBy(asked, a))
  {
    StepServes(s, a, asked);
    StepKeeps(s, a);
  }

  lemma AskedKeys(acts: seq<Action>, s: State)
    requires Reaches(Init(), acts, s)
    ensures Asked(acts).Keys == s.calls.Keys
  {
    AllServed(acts, s);
  }

  lemma {:induction false} AskedWasSpawned(acts: seq<Action>, t: nat)
    requires t in Asked(acts)
    ensures Spawn(t, Asked(acts)[t]) in acts
    decreases |acts|
  {
    var n := |acts| - 1;
    if acts[n].Spawn? && acts[n].t == t {
      assert acts[n] in acts;
    } else {
      AskedWasSpawned(acts[..n], t);
    }
  }

  lemma {:induction false} SpawnedIsAsked(acts: seq<Action>, s: State, i: nat)
    requires Reaches(Init(), acts, s) && i < |acts| && acts[i].Spawn?
    ensures acts[i].t in Asked(acts) && Asked(acts)[acts[i].t] == acts[i].op
    decreases |acts|
  {
    var n := |acts| - 1;
    if i < n {
      var before := CutLast(Init(), acts, s);
      SpawnedIsAsked(acts[..n], before, i);
      AskedKeys(acts[..n], before);
    }
  }

  /** A call asks what its Spawn says: no call is made twice. */
  lemma AskedIsSpawned(acts: seq<Action>, s: State, t: nat, op: Op)
    requires Reaches(Init(), acts, s)
    ensures t in Asked(acts) && Asked(acts)[t] == op <==> Spawn(t, op) in acts
  {
    if t in Asked(acts) { AskedWasSpawned(acts, t); }
    if Spawn(t, op) in acts {
      var i :| 0 <= i < |acts| && acts[i] == Spawn(t, op);
      SpawnedIsAsked(acts, s, i);
    }
  }

  // -------------------------------------------------------------- the theorems

  /**
   A Read gets no more bytes than it has room for, and fewer only when they are the last of the
   Write it met.
   */
  lemma ReadFits(acts: seq<Action>, s: State, t: nat, cap: nat)
    requires Reaches(Init(), acts, s) && Spawn(t, Read(cap)) in acts
    ensures t in s.calls && (s.calls[t].ReadDone? ==> |s.calls[t].data| <= cap)
    ensures s.calls[t].ReadDone? && s.calls[t].rd == None && |s.calls[t].data| < cap ==>
              var w := s.calls[t].from;
              w in s.calls && s.calls[w].WriteDone? && s.calls[w].wr == None && s.calls[w].n == |s.calls[w].b|
  {
    AllServed(acts, s);
    AskedIsSpawned(acts, s, t, Read(cap));
    assert CallServes(s, Asked(acts), t) && CallOk(s, t);
  }

  /** A Write sends the bytes it was given. */
  lemma WriteSendsItsBytes(acts: seq<Action>, s: State, t: nat, data: seq<byte>)
    requires Reaches(Init(), acts, s) && Spawn(t, Write(data)) in acts
    ensures t in s.calls && IsWrite(s.calls[t]) && s.calls[t].b == data
  {
    AllServed(acts, s);
    AskedIsSpawned(acts, s, t, Write(data));
    assert CallServes(s, Asked(acts), t);
  }

  /**
   What has been stored on a side is what its Close calls were given: CloseRead without an error
   stores ErrClosedPipe and CloseWrite without one EOF.
   */
  lemma CloseStoresItsError(acts: seq<Action>, s: State, side: Side, e: Error)
    requires Reaches(Init(), acts, s)
    ensures e in (if side == ReadSide then s.rerrs else s.werrs) <==>
              exists t, err ::
                && Spawn(t, Close(side, err)) in acts && t in s.calls && !s.calls[t].CloseStore?
                && (err == Some(e) || (err == None && e == (if side == ReadSide then ErrClosedPipe else EOF)))
  {
    AllServed(acts, s);
    var asked := Asked(acts);
    if t, err :|
      && Spawn(t, Close(side, err)) in acts && t in s.calls && !s.calls[t].CloseStore?
      && (err == Some(e) || (err == None && e == (if side == ReadSide then ErrClosedPipe else EOF)))
    {
      AskedIsSpawned(acts, s, t, Close(side, err));
      assert CallServes(s, asked, t);
    }
    if e in Stored(s, side) {
      assert Given(s, asked, side, e);
      var t, err :|
        t in asked && t in s.calls && asked[t] == Close(side, err) && !s.calls[t].CloseStore? && Meant(side, err) == e;
      AskedIsSpawned(acts, s, t, Close(side, err));
    }
  }

  /** What the pipe may return for one of its ends: an error that a Close of the other end was given, or what none means. */
  ghost predicate FromClose(acts: seq<Action>, side: Side, e: Error) {
    || (exists t :: Spawn(t, Close(side, Some(e))) in acts)
    || (e == (if side == ReadSide then ErrClosedPipe else EOF) && exists t :: Spawn(t, Close(side, None)) in acts)
  }

  lemma StoredFromClose(acts: seq<Action>, s: State, side: Side, e: Error)
    requires Reaches(Init(), acts, s) && e in Stored(s, side)
    ensures FromClose(acts, side, e)
  {
    CloseStoresItsError(acts, s, side, e);
    var t, err :|
      && Spawn(t, Close(side, err)) in acts && t in s.calls && !s.calls[t].CloseStore?
      && (err == Some(e) || (err == None && e == (if side == ReadSide then ErrClosedPipe else EOF)));
    if err == None { assert Spawn(t, Close(side, None)) in acts; } else { assert Spawn(t, Close(side, Some(e))) in acts; }
  }

  /**
   Without a CloseRead, a Read that fails returns an error that a CloseWrite was given, or EOF
   if one was given none; so it returns EOF when none was given any.
   */
  lemma ReadErrorIsGiven(acts: seq<Action>, s: State, t: nat)
    requires Reaches(Init(), acts, s) && t in s.calls && s.calls[t].ReadDone? && s.calls[t].rd.Some?
    requires forall u, err :: Spawn(u, Close(ReadSide, err)) !in acts
    ensures FromClose(acts, WriteSide, s.calls[t].rd.value)
    ensures (forall u, e :: Spawn(u, Close(WriteSide, Some(e))) !in acts) ==> s.calls[t].rd.value == EOF
  {
    CloseErrorsAreStored(acts, s, t);
    AllServed(acts, s);
    if s.rerr.Some? { StoredFromClose(acts, s, ReadSide, s.rerr.value); }
    StoredFromClose(acts, s, WriteSide, s.calls[t].rd.value);
  }

  /** Without a CloseWrite, a Write that fails returns an error that a CloseRead was given, or ErrClosedPipe if one was given none. */
  lemma WriteErrorIsGiven(acts: seq<Action>, s: State, t: nat)
    requires Reaches(Init(), acts, s) && t in s.calls && s.calls[t].WriteDone? && s.calls[t].wr.Some?
    requires forall u, err :: Spawn(u, Close(WriteSide, err)) !in acts
    ensures FromClose(acts, ReadSide, s.calls[t].wr.value)
    ensures (forall u, e :: Spawn(u, Close(ReadSide, Some(e))) !in acts) ==> s.calls[t].wr.value == ErrClosedPipe
  {
    CloseErrorsAreStored(acts, s, t);
    AllServed(acts, s);
    if s.werr.Some? { StoredFromClose(acts, s, WriteSide, s.werr.value); }
    StoredFromClose(acts, s, ReadSide, s.calls[t].wr.value);
  }

  // ------------------------------------------------- calls made after a close

  /** Where a call may stand that was made when done was closed already; `r` and `w` say whose error was stored by then. */
  ghost predicate Late(c: Call, r: bool, w: bool) {
    match c
    case ReadCheck(_) => true
    case ReadLoadR => true
    case ReadLoadW(seen) => r ==> seen.Some?
    case ReadDone(data, _, rd) => data == [] && rd.Some? && (r ==> rd.value == ErrClosedPipe)
    case WriteCheck(_) => true
    case WriteLoadW(_, n, _) => n == 0
    case WriteLoadR(_, n, _, seen) => n == 0 && (w ==> seen.Some?)
    case WriteDone(_, n, wr) => n == 0 && wr.Some? && (w ==> wr.value == ErrClosedPipe)
    case _ => c.CloseStore? || c.CloseOnce? || c.CloseDone?
  }

  lemma StepKeepsLate(s: State, a: Action, t: nat, r: bool, w: bool)
    requires Enabled(s, a) && s.done && (r ==> s.rerr.Some?) && (w ==> s.werr.Some?)
    requires t in s.calls ==> Late(s.calls[t], r, w)
    ensures var s' := Apply(s, a);
            s'.done && (r ==> s'.rerr.Some?) && (w ==> s'.werr.Some?) && (t in s'.calls ==> Late(s'.calls[t], r, w))
  {
  }

  lemma {:induction false} RunKeepsLate(s: State, acts: seq<Action>, s': State, t: nat, r: bool, w: bool)
    requires Reaches(s, acts, s') && s.done && (r ==> s.rerr.Some?) && (w ==> s.werr.Some?)
    requires t in s.calls ==> Late(s.calls[t], r, w)
    ensures t in s'.calls ==> Late(s'.calls[t], r, w)
    decreases |acts|
  {
    if acts != [] {
      StepKeepsLate(s, acts[0], t, r, w);
      RunKeepsLate(Apply(s, acts[0]), acts[1..], s', t, r, w);
    }
  }

  /**
   A call made after the pipe was closed moves no bytes and fails; and it fails with
   ErrClosedPipe when its own end had been closed.
   */
  lemma LateCallsFail(s: State, acts: seq<Action>, s': State, t: nat)
    requires Reaches(s, acts, s') && s.done && t !in s.calls && t in s'.calls
    ensures s'.calls[t].ReadDone? ==>
              && s'.calls[t].data == [] && s'.calls[t].rd.Some?
              && (s.rerr.Some? ==> s'.calls[t].rd.value == ErrClosedPipe)
    ensures s'.calls[t].WriteDone? ==>
              && s'.calls[t].n == 0 && s'.calls[t].wr.Some?
              && (s.werr.Some? ==> s'.calls[t].wr.value == ErrClosedPipe)
  {
    RunKeepsLate(s, acts, s', t, s.rerr.Some?, s.werr.Some?);
  }
}
