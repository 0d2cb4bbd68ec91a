/**
 * The synchronous in-memory pipe of io/pipe.go as a step system: any number of calls, one atomic step of the source at a time.
 */
module Pipe {
  import opened Prelude

  // Each call is one entry of `calls`, whose constructor says where in the method body the call
  // stands; an action is a select arm, a rendezvous on a channel, a lock acquisition, an atomic
  // load or store.

  datatype Error = ErrClosedPipe | EOF | Other(id: int)

  datatype Side = ReadSide | WriteSide

  /** What a caller may ask of the pipe. */
  datatype Op =
    | Read(cap: nat)
    | Write(data: seq<byte>)
    | Close(side: Side, err: Option<Error>)

  /** Where a call stands.  `from` and `to` only record who the peer was. */
  datatype Call =
    | ReadCheck(cap: nat)
    | ReadSelect(cap: nat)
    | ReadAck(data: seq<byte>, from: nat)
    | ReadLoadR
    | ReadLoadW(seen: Option<Error>)
    | ReadDone(data: seq<byte>, from: nat, rd: Option<Error>)
    | WriteCheck(b: seq<byte>)
    | WriteLock(b: seq<byte>)
    | WriteSelect(b: seq<byte>, n: nat)
    | WriteAwait(b: seq<byte>, n: nat, to: nat)
    | WriteLoadW(b: seq<byte>, n: nat, locked: bool)
    | WriteLoadR(b: seq<byte>, n: nat, locked: bool, seen: Option<Error>)
    | WriteDone(b: seq<byte>, n: nat, wr: Option<Error>)
    | CloseStore(side: Side, err: Option<Error>)
    | CloseOnce(side: Side)
    | CloseDone

  datatype State = State(
    calls: map<nat, Call>,
    lock: Option<nat>,          // who holds wrMu
    done: bool,                 // the done channel is closed
    rerr: Option<Error>,
    werr: Option<Error>,
    readOrder: seq<nat>,        // reads in the order they received
    lockOrder: seq<nat>,        // writes in the order they took wrMu
    rerrs: set<Error>,          // every error ever stored by CloseRead
    werrs: set<Error>)          // every error ever stored by CloseWrite

  datatype Action =
    | Spawn(t: nat, op: Op)
    | Check(t: nat)             // the first select of Read and of Write
    | Acquire(t: nat)           // wrMu.Lock
    | Offer(w: nat, r: nat)     // rendezvous on wrCh
    | Reply(w: nat, r: nat)     // rendezvous on rdCh
    | SeeDone(t: nat)           // the done arm of a blocking select
    | Load(t: nat)              // one atomic load of readCloseError or writeCloseError
    | Store(t: nat)             // the atomic store of a Close
    | CloseChan(t: nat)         // once.Do(close(done))

  function Init(): State {
    State(map[], None, false, None, None, [], [], {}, {})
  }

  function Start(op: Op): Call {
    match op
    case Read(cap) => ReadCheck(cap)
    case Write(data) => WriteCheck(data)
    case Close(side, err) => CloseStore(side, err)
  }

  predicate Enabled(s: State, a: Action) {
    match a
    case Spawn(t, _) => t !in s.calls
    case Check(t) => t in s.calls && (s.calls[t].ReadCheck? || s.calls[t].WriteCheck?)
    case Acquire(t) => t in s.calls && s.calls[t].WriteLock? && s.lock == None
    case Offer(w, r) =>
      && w in s.calls && s.calls[w].WriteSelect? && s.calls[w].n <= |s.calls[w].b|
      && r in s.calls && s.calls[r].ReadSelect?
    case Reply(w, r) =>
      && w in s.calls && s.calls[w].WriteAwait?
      && r in s.calls && s.calls[r].ReadAck?
    case SeeDone(t) => t in s.calls && s.done && (s.calls[t].ReadSelect? || s.calls[t].WriteSelect?)
    case Load(t) =>
      && t in s.calls
      && var c := s.calls[t];
         c.ReadLoadR? || c.ReadLoadW? || c.WriteLoadW? || c.WriteLoadR?
    case Store(t) => t in s.calls && s.calls[t].CloseStore?
    case CloseChan(t) => t in s.calls && s.calls[t].CloseOnce?
  }

  function Apply(s: State, a: Action): State
    requires Enabled(s, a)
  {
    match a
    case Spawn(t, op) => s.(calls := s.calls[t := Start(op)])
    case Check(t) =>
      s.(calls := s.calls[t :=
        match s.calls[t]
        case ReadCheck(cap) => if s.done then ReadLoadR else ReadSelect(cap)
        case WriteCheck(b) => if s.done then WriteLoadW(b, 0, false) else WriteLock(b)])
    case Acquire(t) =>
      s.(calls := s.calls[t := WriteSelect(s.calls[t].b, 0)], lock := Some(t), lockOrder := s.lockOrder + [t])
    case Offer(w, r) =>
      var b, n := s.calls[w].b, s.calls[w].n;
      var nr := Min(s.calls[r].cap, |b| - n);
      s.(calls := s.calls[w := WriteAwait(b, n, r)][r := ReadAck(b[n..n + nr], w)], readOrder := s.readOrder + [r])
    case Reply(w, r) =>
      var b, data := s.calls[w].b, s.calls[r].data;
      var n := s.calls[w].n + |data|;
      s.(calls := s.calls[w := if n < |b| then WriteSelect(b, n) else WriteDone(b, n, None)][r := ReadDone(data, s.calls[r].from, None)],
         lock := if n < |b| then s.lock else None)
    case SeeDone(t) =>
      s.(calls := s.calls[t :=
        match s.calls[t]
        case ReadSelect(_) => ReadLoadR
        case WriteSelect(b, n) => WriteLoadW(b, n, true)])
    case Load(t) =>
      match s.calls[t] {
        case ReadLoadR => s.(calls := s.calls[t := ReadLoadW(s.rerr)])
        case ReadLoadW(rerr) =>
          s.(calls := s.calls[t := ReadDone([], t, Some(CloseError(rerr, s.werr)))])
        case WriteLoadW(b, n, locked) => s.(calls := s.calls[t := WriteLoadR(b, n, locked, s.werr)])
        case WriteLoadR(b, n, locked, werr) =>
          s.(calls := s.calls[t := WriteDone(b, n, Some(CloseError(werr, s.rerr)))],
             lock := if locked then None else s.lock)
      }
    case Store(t) =>
      (match s.calls[t].side
       case ReadSide =>
         var e := if s.calls[t].err == None then ErrClosedPipe else s.calls[t].err.value;
         s.(calls := s.calls[t := CloseOnce(ReadSide)], rerr := Some(e), rerrs := s.rerrs + {e})
       case WriteSide =>
         var e := if s.calls[t].err == None then EOF else s.calls[t].err.value;
         s.(calls := s.calls[t := CloseOnce(WriteSide)], werr := Some(e), werrs := s.werrs + {e}))
    case CloseChan(t) => s.(calls := s.calls[t := CloseDone], done := true)
  }

  /** readCloseError and writeCloseError: `own` is this end's stored error, `peer` the other end's. */
  function CloseError(own: Option<Error>, peer: Option<Error>): Error {
    if own == None && peer != None then peer.value else ErrClosedPipe
  }

  /** `s'` is reached from `s` by the actions `acts`, in order. */
  ghost predicate Reaches(s: State, acts: seq<Action>, s': State)
    decreases |acts|
  {
    if acts == [] then s == s'
    else Enabled(s, acts[0]) && Reaches(Apply(s, acts[0]), acts[1..], s')
  }

  // ---------------------------------------------------------------- invariant

  predicate Holds(c: Call) {
    c.WriteSelect? || c.WriteAwait? || (c.WriteLoadW? && c.locked) || (c.WriteLoadR? && c.locked)
  }

  /** Bytes a call has moved: a read what it copied, a write what was acknowledged. */
  function Piece(c: Call): seq<byte> {
    if c.ReadAck? || c.ReadDone? then c.data
    else if (c.WriteSelect? || c.WriteAwait? || c.WriteLoadW? || c.WriteLoadR? || c.WriteDone?) && c.n <= |c.b| then c.b[..c.n]
    else []
  }

  /** The pieces of the calls in `order`, one after the other. */
  function Gather(calls: map<nat, Call>, order: seq<nat>): seq<byte> {
    if order == [] then []
    else
      var last := order[|order| - 1];
      Gather(calls, order[..|order| - 1]) + (if last in calls then Piece(calls[last]) else [])
  }

  /** What the outstanding handshake has delivered but not yet acknowledged. */
  function InFlight(s: State): seq<byte> {
    if s.lock.Some? && s.lock.value in s.calls && s.calls[s.lock.value].WriteAwait? && s.calls[s.lock.value].to in s.calls
    then Piece(s.calls[s.calls[s.lock.value].to])
    else []
  }

  ghost predicate CallOk(s: State, t: nat)
    requires t in s.calls
  {
    match s.calls[t]
    case ReadAck(data, w) => w in s.calls && s.calls[w].WriteAwait? && s.calls[w].to == t
    case ReadLoadR => s.done
    case ReadLoadW(seen) => s.done && (if seen == None then s.werr.Some? else s.rerr.Some?)
    case ReadDone(data, _, rd) =>
      rd.Some? ==> data == [] && ((s.rerr.Some? && rd.value == ErrClosedPipe) || rd.value in s.werrs)
    case WriteSelect(b, n) => n == 0 || n < |b|
    case WriteAwait(b, n, r) =>
      && n <= |b| && r in s.calls && s.calls[r].ReadAck? && s.calls[r].from == t
      && |s.calls[r].data| <= |b| - n && s.calls[r].data == b[n..n + |s.calls[r].data|]
    case WriteLoadW(b, n, locked) => s.done && n <= |b| && (!locked ==> n == 0)
    case WriteLoadR(b, n, locked, seen) =>
      s.done && n <= |b| && (!locked ==> n == 0) && (if seen == None then s.rerr.Some? else s.werr.Some?)
    case WriteDone(b, n, wr) =>
      && n <= |b| && (wr == None ==> n == |b|)
      && (wr.Some? ==> (s.werr.Some? && wr.value == ErrClosedPipe) || wr.value in s.rerrs)
    case CloseOnce(side) => (side.ReadSide? ==> s.rerr.Some?) && (side.WriteSide? ==> s.werr.Some?)
    case _ => true
  }

  ghost predicate ErrorsOk(s: State) {
    && (s.done ==> s.rerr.Some? || s.werr.Some?)
    && (s.rerr.Some? ==> s.rerr.value in s.rerrs) && (s.werr.Some? ==> s.werr.value in s.werrs)
  }

  ghost predicate LockOk(s: State) {
    && (forall t :: t in s.calls ==> (Holds(s.calls[t]) <==> s.lock == Some(t)))
    && (s.lock.Some? ==> s.lock.value in s.calls && s.lockOrder != [] && s.lockOrder[|s.lockOrder| - 1] == s.lock.value)
  }

  /** A write enters the lock order exactly when it has taken wrMu, and once. */
  ghost predicate OrderOk(s: State) {
    && (forall i :: 0 <= i < |s.lockOrder| ==> s.lockOrder[i] in s.calls && Entered(s.calls[s.lockOrder[i]]))
    && (forall i, j :: 0 <= i < j < |s.lockOrder| ==> s.lockOrder[i] != s.lockOrder[j])
    && (forall i :: 0 <= i < |s.readOrder| ==>
          s.readOrder[i] in s.calls && Received(s.calls[s.readOrder[i]]) && s.calls[s.readOrder[i]].from in s.calls)
    && (forall i, j :: 0 <= i < j < |s.readOrder| ==> s.readOrder[i] != s.readOrder[j])
    && (forall t :: t in s.calls && Piece(s.calls[t]) != [] ==> t in s.readOrder || t in s.lockOrder)
  }

  predicate Received(c: Call) {
    c.ReadAck? || c.ReadDone?
  }

  predicate Entered(c: Call) {
    Holds(c) || c.WriteDone?
  }

  ghost predicate Inv(s: State) {
    LockOk(s) && ErrorsOk(s) && OrderOk(s) && CallsOk(s) && BytesOk(s) && SharesOk(s)
  }

  /** The pieces of the reads in `order` that came from the write `w`. */
  function Taken(calls: map<nat, Call>, order: seq<nat>, w: nat): seq<byte> {
    if order == [] then []
    else
      var last := order[|order| - 1];
      Taken(calls, order[..|order| - 1], w) + (if last in calls then PieceFrom(calls[last], w) else [])
  }

  function PieceFrom(c: Call, w: nat): seq<byte> {
    if (c.ReadAck? || c.ReadDone?) && c.from == w then c.data else []
  }

  /** What the write `w` is owed an acknowledgement for. */
  function Owed(s: State, w: nat): seq<byte>
    requires w in s.calls
  {
    if s.calls[w].WriteAwait? && s.calls[w].to in s.calls then Piece(s.calls[s.calls[w].to]) else []
  }

  predicate IsWrite(c: Call) {
    c.WriteCheck? || c.WriteLock? || c.WriteSelect? || c.WriteAwait? || c.WriteLoadW? || c.WriteLoadR? || c.WriteDone?
  }

  /** Every write has acknowledged exactly the bytes that reads took from it. */
  ghost predicate SharesOk(s: State) {
    forall w {:trigger ShareOk(s, w)} :: w in s.calls ==> ShareOk(s, w)
  }

  ghost predicate ShareOk(s: State, w: nat)
    requires w in s.calls
  {
    IsWrite(s.calls[w]) ==> Taken(s.calls, s.readOrder, w) == Piece(s.calls[w]) + Owed(s, w)
  }

  ghost predicate CallsOk(s: State) {
    forall t {:trigger CallOk(s, t)} :: t in s.calls ==> CallOk(s, t)
  }

  /** Reads in receive order got exactly what writes in lock order gave, plus the outstanding handshake. */
  ghost predicate BytesOk(s: State) {
    Gather(s.calls, s.readOrder) == Gather(s.calls, s.lockOrder) + InFlight(s)
  }

  // ------------------------------------------------------ the invariant holds

  lemma {:induction false} GatherFrame(calls: map<nat, Call>, calls': map<nat, Call>, order: seq<nat>)
    requires forall i :: 0 <= i < |order| ==>
               order[i] in calls && order[i] in calls' && Piece(calls[order[i]]) == Piece(calls'[order[i]])
    ensures Gather(calls, order) == Gather(calls', order)
  {
    if order != [] {
      GatherFrame(calls, calls', order[..|order| - 1]);
    }
  }

  lemma {:induction false} GatherSnoc(calls: map<nat, Call>, order: seq<nat>, t: nat)
    requires t in calls
    ensures Gather(calls, order + [t]) == Gather(calls, order) + Piece(calls[t])
  {
    assert (order + [t])[..|order|] == order;
  }

  lemma {:induction false} GatherLast(calls: map<nat, Call>, calls': map<nat, Call>, order: seq<nat>, w: nat, more: seq<byte>)
    requires order != [] && order[|order| - 1] == w && w in calls && w in calls'
    requires forall i :: 0 <= i < |order| - 1 ==>
               order[i] in calls && order[i] in calls' && Piece(calls[order[i]]) == Piece(calls'[order[i]])
    requires Piece(calls'[w]) == Piece(calls[w]) + more
    ensures Gather(calls', order) == Gather(calls, order) + more
  {
    var front := order[..|order| - 1];
    GatherFrame(calls, calls', front);
    Regroup(Gather(calls, front), Piece(calls[w]), more);
  }

  ghost predicate Monotone(s: State, s': State) {
    && (s.done ==> s'.done) && (s.rerr.Some? ==> s'.rerr.Some?) && (s.werr.Some? ==> s'.werr.Some?)
    && s.rerrs <= s'.rerrs && s.werrs <= s'.werrs
  }

  predicate Shaking(c: Call) {
    c.ReadAck? || c.WriteAwait?
  }

  /** A step of one call that moves no bytes and takes no part in a handshake. */
  ghost predicate Local(s: State, s': State, t: nat) {
    && t in s'.calls && s'.calls == s.calls[t := s'.calls[t]]
    && !Shaking(s'.calls[t])
    && (if t in s.calls then
          && !Shaking(s.calls[t]) && Piece(s'.calls[t]) == Piece(s.calls[t])
          && (Received(s.calls[t]) ==> s'.calls[t] == s.calls[t]) && (Entered(s.calls[t]) ==> Entered(s'.calls[t]))
          && (if Holds(s.calls[t]) && !Holds(s'.calls[t]) then s'.lock == None else s'.lock == s.lock)
          && (Holds(s'.calls[t]) ==> Holds(s.calls[t]))
        else
          Piece(s'.calls[t]) == [] && s'.lock == s.lock && !Holds(s'.calls[t]))
    && s'.readOrder == s.readOrder && s'.lockOrder == s.lockOrder
    && Monotone(s, s')
  }

  predicate OneCall(a: Action) {
    !a.Offer? && !a.Reply? && !a.Acquire?
  }

  lemma LocalShape(s: State, a: Action)
    requires Enabled(s, a) && OneCall(a) && (a.t in s.calls ==> CallOk(s, a.t))
    ensures Local(s, Apply(s, a), a.t)
  {
  }

  /** At most one handshake is outstanding, so an acknowledgement reaches the write whose bytes it counts. */
  lemma PeersAgree(s: State, w: nat, r: nat)
    requires LockOk(s) && CallsOk(s)
    requires w in s.calls && r in s.calls && s.calls[w].WriteAwait? && s.calls[r].ReadAck?
    ensures s.lock == Some(w) && s.calls[r].from == w && s.calls[w].to == r
    ensures s.calls[w].n <= |s.calls[w].b| && s.calls[r].data <= s.calls[w].b[s.calls[w].n..]
  {
    assert CallOk(s, r) && CallOk(s, w);
    assert Holds(s.calls[w]) && Holds(s.calls[s.calls[r].from]);
  }

  lemma KeepsLock(s: State, a: Action)
    requires LockOk(s) && Enabled(s, a) && !OneCall(a)
    ensures LockOk(Apply(s, a))
  {
    if a.Reply? {
      assert Holds(s.calls[a.w]);
    }
  }

  lemma LocalKeepsLock(s: State, s': State, t: nat)
    requires LockOk(s) && Local(s, s', t)
    ensures LockOk(s')
  {
  }

  lemma KeepsErrors(s: State, a: Action)
    requires ErrorsOk(s) && Enabled(s, a) && (a.CloseChan? ==> CallOk(s, a.t))
    ensures ErrorsOk(Apply(s, a)) && Monotone(s, Apply(s, a))
  {
  }

  predicate Peer(c: Call, t: nat) {
    (c.ReadAck? && c.from == t) || (c.WriteAwait? && c.to == t)
  }

  /** A call stays in order when neither it nor its handshake peer moved. */
  lemma Bystander(s: State, s': State, t: nat)
    requires t in s.calls && CallOk(s, t) && Monotone(s, s')
    requires t in s'.calls && s'.calls[t] == s.calls[t]
    requires forall u :: u in s.calls && Peer(s.calls[t], u) ==> u in s'.calls && s'.calls[u] == s.calls[u]
    ensures CallOk(s', t)
  {
  }

  lemma MoverOk(s: State, a: Action)
    requires ErrorsOk(s) && Enabled(s, a) && !a.Offer? && !a.Reply?
    requires a.t in s.calls ==> CallOk(s, a.t)
    ensures CallOk(Apply(s, a), a.t)
  {
  }

  lemma OneCallKeepsCalls(s: State, a: Action)
    requires ErrorsOk(s) && CallsOk(s) && Enabled(s, a) && !a.Offer? && !a.Reply?
    requires Monotone(s, Apply(s, a))
    ensures CallsOk(Apply(s, a))
  {
    var s' := Apply(s, a);
    MoverOk(s, a);
    assert a.t in s.calls ==> !Shaking(s.calls[a.t]);
    assert s'.calls == s.calls[a.t := s'.calls[a.t]];
    forall t | t in s'.calls && t != a.t ensures CallOk(s', t) {
      assert CallOk(s, t);
      Bystander(s, s', t);
    }
  }

  lemma OfferKeepsCalls(s: State, a: Action)
    requires CallsOk(s) && Enabled(s, a) && a.Offer?
    ensures CallsOk(Apply(s, a))
  {
    var s' := Apply(s, a);
    forall t | t in s'.calls && t != a.w && t != a.r ensures CallOk(s', t) {
      assert CallOk(s, t);
      Bystander(s, s', t);
    }
  }

  lemma ReplyKeepsCalls(s: State, a: Action)
    requires CallsOk(s) && LockOk(s) && Enabled(s, a) && a.Reply?
    ensures CallsOk(Apply(s, a))
  {
    var s' := Apply(s, a);
    PeersAgree(s, a.w, a.r);
    assert CallOk(s, a.w);
    forall t | t in s'.calls && t != a.w && t != a.r ensures CallOk(s', t) {
      assert CallOk(s, t);
      Bystander(s, s', t);
    }
  }

  lemma LocalKeepsOrder(s: State, s': State, t: nat)
    requires OrderOk(s) && Local(s, s', t)
    ensures OrderOk(s')
  {
  }

  lemma JointKeepsOrder(s: State, a: Action)
    requires OrderOk(s) && LockOk(s) && CallsOk(s) && Enabled(s, a) && !OneCall(a)
    ensures OrderOk(Apply(s, a))
  {
    var s' := Apply(s, a);
    match a
    case Acquire(t) =>
      assert t !in s.lockOrder;
    case Offer(w, r) =>
      assert r !in s.readOrder && w in s.lockOrder;
    case Reply(w, r) =>
      PeersAgree(s, w, r);
      assert CallOk(s, w);
      assert w in s.lockOrder;
  }

  lemma LocalKeepsBytes(s: State, s': State, t: nat)
    requires BytesOk(s) && OrderOk(s) && LockOk(s) && CallsOk(s) && Local(s, s', t)
    ensures BytesOk(s')
  {
    LocalFrame(s, s', t, s.readOrder);
    LocalFrame(s, s', t, s.lockOrder);
    LocalInFlight(s, s', t);
  }

  lemma LocalFrame(s: State, s': State, t: nat, order: seq<nat>)
    requires Local(s, s', t) && (forall i :: 0 <= i < |order| ==> order[i] in s.calls)
    ensures Gather(s'.calls, order) == Gather(s.calls, order)
  {
    GatherFrame(s.calls, s'.calls, order);
  }

  lemma LocalInFlight(s: State, s': State, t: nat)
    requires LockOk(s) && CallsOk(s) && Local(s, s', t)
    ensures InFlight(s') == InFlight(s)
  {
    if s.lock.Some? {
      assert CallOk(s, s.lock.value);
    }
  }

  lemma AcquireKeepsBytes(s: State, a: Action)
    requires BytesOk(s) && OrderOk(s) && Enabled(s, a) && a.Acquire?
    ensures BytesOk(Apply(s, a))
  {
    var s' := Apply(s, a);
    AcquireFrame(s, a, s.readOrder);
    AcquireFrame(s, a, s.lockOrder);
    GatherSnoc(s'.calls, s.lockOrder, a.t);
    AcquiredPiece(s.calls[a.t].b);
    assert InFlight(s) == [] && InFlight(s') == [];
  }

  lemma AcquiredPiece(b: seq<byte>)
    ensures Piece(WriteSelect(b, 0)) == [] == Piece(WriteLock(b))
  {
  }

  lemma AcquireFrame(s: State, a: Action, order: seq<nat>)
    requires Enabled(s, a) && a.Acquire? && (forall i :: 0 <= i < |order| ==> order[i] in s.calls)
    ensures Gather(Apply(s, a).calls, order) == Gather(s.calls, order)
  {
    AcquiredPiece(s.calls[a.t].b);
    Unmoved(s.calls, a.t, WriteSelect(s.calls[a.t].b, 0), order);
  }

  lemma Unmoved(calls: map<nat, Call>, t: nat, c: Call, order: seq<nat>)
    requires t in calls && Piece(c) == Piece(calls[t]) && (forall i :: 0 <= i < |order| ==> order[i] in calls)
    ensures Gather(calls[t := c], order) == Gather(calls, order)
  {
    GatherFrame(calls, calls[t := c], order);
  }

  /** What an offer changes: the two calls and the read order. */
  ghost predicate Offered(s: State, s': State, w: nat, r: nat) {
    && w in s.calls && r in s.calls && s.calls[w].WriteSelect? && s.calls[r].ReadSelect?
    && w in s'.calls && r in s'.calls && s'.calls[w].WriteAwait? && s'.calls[r].ReadAck?
    && s'.calls[w].b == s.calls[w].b && s'.calls[w].n == s.calls[w].n && s'.calls[w].to == r && s'.calls[r].from == w
    && s'.lock == s.lock && s'.lockOrder == s.lockOrder && s'.readOrder == s.readOrder + [r]
    && Others(s, s', w, r)
  }

  ghost predicate Others(s: State, s': State, w: nat, r: nat) {
    forall t {:trigger s.calls[t]} {:trigger s'.calls[t]} :: t != w && t != r && t in s.calls ==> t in s'.calls && s'.calls[t] == s.calls[t]
  }

  lemma OfferShape(s: State, a: Action)
    requires Enabled(s, a) && a.Offer?
    ensures Offered(s, Apply(s, a), a.w, a.r)
  {
  }

  lemma OfferKeepsBytes(s: State, a: Action)
    requires BytesOk(s) && OrderOk(s) && LockOk(s) && Enabled(s, a) && a.Offer?
    ensures BytesOk(Apply(s, a))
  {
    OfferShape(s, a);
    OfferedBytes(s, Apply(s, a), a.w, a.r);
  }

  lemma OfferedBytes(s: State, s': State, w: nat, r: nat)
    requires BytesOk(s) && OrderOk(s) && LockOk(s) && Offered(s, s', w, r)
    ensures BytesOk(s')
  {
    assert Holds(s.calls[w]);
    OfferedFrame(s, s', w, r, s.readOrder);
    OfferedFrame(s, s', w, r, s.lockOrder);
    GatherSnoc(s'.calls, s.readOrder, r);
  }

  lemma OfferedFrame(s: State, s': State, w: nat, r: nat, order: seq<nat>)
    requires Offered(s, s', w, r)
    requires forall i :: 0 <= i < |order| ==> order[i] in s.calls && order[i] != r
    ensures Gather(s'.calls, order) == Gather(s.calls, order)
  {
    GatherFrame(s.calls, s'.calls, order);
  }

  /** What an acknowledgement changes: the two calls, and perhaps the lock. */
  ghost predicate Replied(s: State, s': State, w: nat, r: nat) {
    && w in s.calls && r in s.calls && s.calls[w].WriteAwait? && s.calls[r].ReadAck?
    && w in s'.calls && r in s'.calls && s'.calls[r].ReadDone?
    && s'.calls[r].data == s.calls[r].data && s'.calls[r].from == s.calls[r].from
    && (s'.calls[w].WriteSelect? || s'.calls[w].WriteDone?)
    && s'.calls[w].b == s.calls[w].b && s'.calls[w].n == s.calls[w].n + |s.calls[r].data|
    && (s'.lock == s.lock || s'.lock == None) && s'.lockOrder == s.lockOrder && s'.readOrder == s.readOrder
    && Others(s, s', w, r)
  }

  lemma ReplyShape(s: State, a: Action)
    requires Enabled(s, a) && a.Reply?
    ensures Replied(s, Apply(s, a), a.w, a.r)
  {
  }

  lemma ReplyKeepsBytes(s: State, a: Action)
    requires BytesOk(s) && OrderOk(s) && LockOk(s) && CallsOk(s) && Enabled(s, a) && a.Reply?
    ensures BytesOk(Apply(s, a))
  {
    PeersAgree(s, a.w, a.r);
    assert CallOk(s, a.w);
    ReplyShape(s, a);
    RepliedBytes(s, Apply(s, a), a.w, a.r);
  }

  lemma RepliedBytes(s: State, s': State, w: nat, r: nat)
    requires BytesOk(s) && OrderOk(s) && LockOk(s) && Replied(s, s', w, r)
    requires s.calls[w].to == r && CallOk(s, w)
    ensures BytesOk(s')
  {
    assert Holds(s.calls[w]);
    GatherFrame(s.calls, s'.calls, s.readOrder);
    RepliedPiece(s, s', w, r);
    GatherLast(s.calls, s'.calls, s.lockOrder, w, s.calls[r].data);
  }

  /** The acknowledged bytes extend the writer's own. */
  lemma RepliedPiece(s: State, s': State, w: nat, r: nat)
    requires Replied(s, s', w, r) && s.calls[w].to == r && CallOk(s, w)
    ensures Piece(s'.calls[w]) == Piece(s.calls[w]) + s.calls[r].data
  {
    Extend(s.calls[w].b, s.calls[w].n, |s.calls[r].data|);
  }

  lemma Extend(b: seq<byte>, n: nat, k: nat)
    requires n + k <= |b|
    ensures b[..n + k] == b[..n] + b[n..n + k]
  {
  }

  // Each write's own share.

  lemma {:induction false} TakenFrame(calls: map<nat, Call>, calls': map<nat, Call>, order: seq<nat>, w: nat)
    requires forall i :: 0 <= i < |order| ==>
               order[i] in calls && order[i] in calls' && PieceFrom(calls[order[i]], w) == PieceFrom(calls'[order[i]], w)
    ensures Taken(calls, order, w) == Taken(calls', order, w)
  {
    if order != [] {
      TakenFrame(calls, calls', order[..|order| - 1], w);
    }
  }

  lemma {:induction false} TakenNothing(calls: map<nat, Call>, order: seq<nat>, w: nat)
    requires forall i :: 0 <= i < |order| && order[i] in calls ==> PieceFrom(calls[order[i]], w) == []
    ensures Taken(calls, order, w) == []
  {
    if order != [] {
      TakenNothing(calls, order[..|order| - 1], w);
    }
  }

  lemma LocalShare(s: State, s': State, t: nat, w: nat)
    requires OrderOk(s) && Local(s, s', t) && w in s.calls && w in s'.calls && CallOk(s, w) && ShareOk(s, w)
    requires IsWrite(s'.calls[w]) ==> IsWrite(s.calls[w])
    ensures ShareOk(s', w)
  {
    TakenFrame(s.calls, s'.calls, s.readOrder, w);
  }

  lemma NewShare(s: State, s': State, t: nat)
    requires OrderOk(s) && Local(s, s', t) && t !in s.calls
    ensures ShareOk(s', t)
  {
    TakenNothing(s'.calls, s'.readOrder, t);
  }

  lemma StaysWrite(s: State, a: Action, w: nat)
    requires Enabled(s, a) && OneCall(a) && w in s.calls && w in Apply(s, a).calls
    ensures IsWrite(Apply(s, a).calls[w]) ==> IsWrite(s.calls[w])
  {
  }

  lemma LocalKeepsShares(s: State, a: Action)
    requires SharesOk(s) && OrderOk(s) && CallsOk(s) && Enabled(s, a) && OneCall(a) && Local(s, Apply(s, a), a.t)
    ensures SharesOk(Apply(s, a))
  {
    forall w | w in Apply(s, a).calls ensures ShareOk(Apply(s, a), w) {
      if w in s.calls {
        assert CallOk(s, w) && ShareOk(s, w);
        StaysWrite(s, a, w);
        LocalShare(s, Apply(s, a), a.t, w);
      } else {
        NewShare(s, Apply(s, a), a.t);
      }
    }
  }

  lemma AcquireKeepsShares(s: State, a: Action)
    requires SharesOk(s) && OrderOk(s) && CallsOk(s) && Enabled(s, a) && a.Acquire?
    ensures SharesOk(Apply(s, a))
  {
    var s' := Apply(s, a);
    forall w | w in s'.calls ensures ShareOk(s', w) {
      assert CallOk(s, w) && ShareOk(s, w);
      AcquireShare(s, a, w);
    }
  }

  lemma AcquireShare(s: State, a: Action, w: nat)
    requires OrderOk(s) && Enabled(s, a) && a.Acquire? && w in s.calls && CallOk(s, w) && ShareOk(s, w)
    ensures ShareOk(Apply(s, a), w)
  {
    TakenFrame(s.calls, Apply(s, a).calls, s.readOrder, w);
  }

  lemma OfferShare(s: State, s': State, w: nat, r: nat, t: nat)
    requires OrderOk(s) && Offered(s, s', w, r) && t in s.calls && t in s'.calls && CallOk(s, t) && ShareOk(s, t)
    ensures ShareOk(s', t)
  {
    OfferedTaken(s, s', w, r, t);
    if t == w {
      assert Owed(s', w) == PieceFrom(s'.calls[r], w);
    } else if t != r {
      OfferOther(s, s', w, r, t);
    }
  }

  lemma OfferOther(s: State, s': State, w: nat, r: nat, t: nat)
    requires Offered(s, s', w, r) && t in s.calls && t in s'.calls && t != w && t != r && CallOk(s, t)
    ensures Owed(s', t) == Owed(s, t) && s'.calls[t] == s.calls[t] && PieceFrom(s'.calls[r], t) == []
  {
  }

  lemma OfferedTaken(s: State, s': State, w: nat, r: nat, t: nat)
    requires OrderOk(s) && Offered(s, s', w, r)
    ensures Taken(s'.calls, s'.readOrder, t) == Taken(s.calls, s.readOrder, t) + PieceFrom(s'.calls[r], t)
  {
    TakenFrame(s.calls, s'.calls, s.readOrder, t);
    assert s'.readOrder[..|s.readOrder|] == s.readOrder;
  }

  lemma ReplyShare(s: State, s': State, w: nat, r: nat)
    requires OrderOk(s) && Replied(s, s', w, r) && CallOk(s, w) && ShareOk(s, w)
    requires s.calls[w].to == r && s.calls[r].from == w
    ensures ShareOk(s', w)
  {
    TakenFrame(s.calls, s'.calls, s.readOrder, w);
    assert Owed(s, w) == s.calls[r].data && Owed(s', w) == [];
    RepliedPiece(s, s', w, r);
  }

  lemma ReplyOtherShare(s: State, s': State, w: nat, r: nat, t: nat)
    requires OrderOk(s) && Replied(s, s', w, r) && t in s.calls && t in s'.calls && CallOk(s, t) && ShareOk(s, t) && t != w
    requires s.calls[w].to == r && s.calls[r].from == w
    ensures ShareOk(s', t)
  {
    TakenFrame(s.calls, s'.calls, s.readOrder, t);
    if t != r {
      assert Owed(s', t) == Owed(s, t);
    }
  }

  lemma OfferKeepsShares(s: State, a: Action)
    requires SharesOk(s) && OrderOk(s) && CallsOk(s) && Enabled(s, a) && a.Offer?
    ensures SharesOk(Apply(s, a))
  {
    OfferShape(s, a);
    forall t | t in s.calls ensures ShareOk(Apply(s, a), t) {
      assert CallOk(s, t) && ShareOk(s, t);
      OfferShare(s, Apply(s, a), a.w, a.r, t);
    }
  }

  lemma ReplyKeepsShares(s: State, a: Action)
    requires SharesOk(s) && OrderOk(s) && CallsOk(s) && LockOk(s) && Enabled(s, a) && a.Reply?
    ensures SharesOk(Apply(s, a))
  {
    PeersAgree(s, a.w, a.r);
    ReplyShape(s, a);
    assert CallOk(s, a.w);
    forall t | t in s.calls ensures ShareOk(Apply(s, a), t) {
      assert CallOk(s, t) && ShareOk(s, t);
      if t == a.w {
        ReplyShare(s, Apply(s, a), a.w, a.r);
      } else {
        ReplyOtherShare(s, Apply(s, a), a.w, a.r, t);
      }
    }
  }

  lemma StepKeeps(s: State, a: Action)
    requires Inv(s) && Enabled(s, a)
    ensures Inv(Apply(s, a))
  {
    var s' := Apply(s, a);
    KeepsErrors(s, a);
    if OneCall(a) {
      LocalShape(s, a);
      LocalKeepsLock(s, s', a.t);
      LocalKeepsOrder(s, s', a.t);
      LocalKeepsBytes(s, s', a.t);
      LocalKeepsShares(s, a);
      OneCallKeepsCalls(s, a);
    } else {
      KeepsLock(s, a);
      JointKeepsOrder(s, a);
      match a
      case Acquire(_) => AcquireKeepsBytes(s, a); AcquireKeepsShares(s, a); OneCallKeepsCalls(s, a);
      case Offer(_, _) => OfferKeepsBytes(s, a); OfferKeepsShares(s, a); OfferKeepsCalls(s, a);
      case Reply(_, _) => ReplyKeepsBytes(s, a); ReplyKeepsShares(s, a); ReplyKeepsCalls(s, a);
    }
  }

  // ------------------------------------------------------------- the theorems

  lemma {:induction false} RunKeeps(s: State, acts: seq<Action>, s': State)
    requires Inv(s) && Reaches(s, acts, s')
    ensures Inv(s')
    decreases |acts|
  {
    if acts != [] {
      StepKeeps(s, acts[0]);
      RunKeeps(Apply(s, acts[0]), acts[1..], s');
    }
  }

  /** In every run at most one handshake is outstanding, and its acknowledgement goes to the right write. */
  lemma HandshakeIsExclusive(acts: seq<Action>, s: State, w: nat, w': nat, r: nat, r': nat)
    requires Reaches(Init(), acts, s)
    requires w in s.calls && w' in s.calls && s.calls[w].WriteAwait? && s.calls[w'].WriteAwait?
    requires r in s.calls && r' in s.calls && s.calls[r].ReadAck? && s.calls[r'].ReadAck?
    ensures w == w' && r == r' && s.calls[r].from == w && s.calls[w].to == r
    ensures s.calls[w].n <= |s.calls[w].b| && s.calls[r].data <= s.calls[w].b[s.calls[w].n..]
  {
    RunKeeps(Init(), acts, s);
    PeersAgree(s, w, r);
    PeersAgree(s, w', r);
    PeersAgree(s, w, r');
  }

  /**
   In every run the bytes handed to reads, in the order the reads received, are the
   bytes acknowledged to writes, in the order the writes took the lock, followed by
   the bytes of the outstanding handshake if there is one.  Both orders list every
   call that moved a byte, once.
   */
  lemma StreamIsPreserved(acts: seq<Action>, s: State)
    requires Reaches(Init(), acts, s)
    ensures Gather(s.calls, s.lockOrder) <= Gather(s.calls, s.readOrder)
    ensures (forall t :: t in s.calls ==> !s.calls[t].WriteAwait?) ==>
              Gather(s.calls, s.readOrder) == Gather(s.calls, s.lockOrder)
    ensures forall t :: t in s.calls && Piece(s.calls[t]) != [] ==> t in s.readOrder || t in s.lockOrder
    ensures forall i, j :: 0 <= i < j < |s.lockOrder| ==> s.lockOrder[i] != s.lockOrder[j]
    ensures forall i, j :: 0 <= i < j < |s.readOrder| ==> s.readOrder[i] != s.readOrder[j]
  {
    RunKeeps(Init(), acts, s);
  }

  /** A finished Write reports exactly the bytes reads took from it, all of them when it reports no error. */
  lemma WriteCountIsExact(acts: seq<Action>, s: State, w: nat)
    requires Reaches(Init(), acts, s) && w in s.calls && s.calls[w].WriteDone?
    ensures s.calls[w].n <= |s.calls[w].b|
    ensures Taken(s.calls, s.readOrder, w) == s.calls[w].b[..s.calls[w].n]
    ensures s.calls[w].wr == None ==> Taken(s.calls, s.readOrder, w) == s.calls[w].b
  {
    RunKeeps(Init(), acts, s);
    assert CallOk(s, w) && ShareOk(s, w);
    DoneShare(s, w);
  }

  lemma DoneShare(s: State, w: nat)
    requires w in s.calls && s.calls[w].WriteDone? && CallOk(s, w) && ShareOk(s, w)
    ensures s.calls[w].n <= |s.calls[w].b|
    ensures Taken(s.calls, s.readOrder, w) == s.calls[w].b[..s.calls[w].n]
  {
    assert Owed(s, w) == [];
  }

  /**
   A Read that fails gets no bytes, and its error is one a CloseWrite stored unless a
   CloseRead has stored too; symmetrically for Write.
   */
  lemma CloseErrorsAreStored(acts: seq<Action>, s: State, t: nat)
    requires Reaches(Init(), acts, s) && t in s.calls
    ensures s.calls[t].ReadDone? && s.calls[t].rd.Some? ==>
              s.calls[t].data == [] && (s.calls[t].rd.value in s.werrs || (s.rerr.Some? && s.calls[t].rd.value == ErrClosedPipe))
    ensures s.calls[t].WriteDone? && s.calls[t].wr.Some? ==>
              s.calls[t].wr.value in s.rerrs || (s.werr.Some? && s.calls[t].wr.value == ErrClosedPipe)
  {
    RunKeeps(Init(), acts, s);
    assert CallOk(s, t);
    ErrorOrigin(s, t);
  }

  lemma ErrorOrigin(s: State, t: nat)
    requires t in s.calls && CallOk(s, t)
    ensures s.calls[t].ReadDone? && s.calls[t].rd.Some? ==>
              s.calls[t].data == [] && (s.calls[t].rd.value in s.werrs || (s.rerr.Some? && s.calls[t].rd.value == ErrClosedPipe))
    ensures s.calls[t].WriteDone? && s.calls[t].wr.Some? ==>
              s.calls[t].wr.value in s.rerrs || (s.werr.Some? && s.calls[t].wr.value == ErrClosedPipe)
  {
  }

  // ---------------------------------------------------------------- liveness

  predicate Finished(c: Call) {
    c.ReadDone? || c.WriteDone? || c.CloseDone?
  }

  function Rank(c: Call): nat {
    match c
    case ReadCheck(_) => 20
    case ReadSelect(_) => 15
    case ReadAck(_, _) => 5
    case ReadLoadR => 4
    case ReadLoadW(_) => 3
    case ReadDone(_, _, _) => 0
    case WriteCheck(_) => 12
    case WriteLock(_) => 10
    case WriteSelect(_, _) => 8
    case WriteAwait(_, _, _) => 9
    case WriteLoadW(_, _, _) => 5
    case WriteLoadR(_, _, _, _) => 4
    case WriteDone(_, _, _) => 0
    case CloseStore(_, _) => 2
    case CloseOnce(_) => 1
    case CloseDone => 0
  }

  /** The work left in all calls together. */
  ghost function Work(calls: map<nat, Call>): nat
    decreases |calls|
  {
    if calls == map[] then 0
    else
      var t :| t in calls;
      Rank(calls[t]) + Work(calls - {t})
  }

  lemma {:induction false} WorkPick(calls: map<nat, Call>, t: nat)
    requires t in calls
    ensures Work(calls) == Rank(calls[t]) + Work(calls - {t})
    decreases |calls|
  {
    var u :| u in calls && Work(calls) == Rank(calls[u]) + Work(calls - {u});
    if u != t {
      WorkPick(calls - {u}, t);
      WorkPick(calls - {t}, u);
      assert calls - {u} - {t} == calls - {t} - {u};
    }
  }

  lemma WorkUpdate(calls: map<nat, Call>, t: nat, c: Call)
    requires t in calls
    ensures Work(calls[t := c]) == Work(calls) - Rank(calls[t]) + Rank(c)
  {
    WorkPick(calls, t);
    WorkPick(calls[t := c], t);
    assert calls[t := c] - {t} == calls - {t};
  }

  /** Every step other than a new call uses up work, so no call can run for ever. */
  lemma StepUsesWork(s: State, a: Action)
    requires Enabled(s, a) && !a.Spawn?
    ensures Work(Apply(s, a).calls) < Work(s.calls)
  {
    if a.Offer? || a.Reply? {
      HandshakeUsesWork(s, a);
    } else {
      var s' := Apply(s, a);
      assert s'.calls == s.calls[a.t := s'.calls[a.t]];
      WorkUpdate(s.calls, a.t, s'.calls[a.t]);
    }
  }

  lemma HandshakeUsesWork(s: State, a: Action)
    requires Enabled(s, a) && (a.Offer? || a.Reply?)
    ensures Work(Apply(s, a).calls) < Work(s.calls)
  {
    var s' := Apply(s, a);
    WorkUpdate(s.calls, a.w, s'.calls[a.w]);
    WorkUpdate(s.calls[a.w := s'.calls[a.w]], a.r, s'.calls[a.r]);
    assert s'.calls == s.calls[a.w := s'.calls[a.w]][a.r := s'.calls[a.r]];
  }

  lemma {:induction false} RunsAreBounded(s: State, acts: seq<Action>, s': State)
    requires Reaches(s, acts, s') && (forall i :: 0 <= i < |acts| ==> !acts[i].Spawn?)
    ensures |acts| + Work(s'.calls) <= Work(s.calls)
    decreases |acts|
  {
    if acts != [] {
      StepUsesWork(s, acts[0]);
      RunsAreBounded(Apply(s, acts[0]), acts[1..], s');
    }
  }

  /** The step that a call, or whoever holds the write lock in its way, can take once done is closed. */
  function Unblock(s: State, t: nat): Action
    requires t in s.calls
  {
    match s.calls[t]
    case ReadCheck(_) => Check(t)
    case WriteCheck(_) => Check(t)
    case ReadSelect(_) => SeeDone(t)
    case WriteSelect(_, _) => SeeDone(t)
    case ReadAck(_, w) => Reply(w, t)
    case WriteAwait(_, _, r) => Reply(t, r)
    case CloseStore(_, _) => Store(t)
    case CloseOnce(_) => CloseChan(t)
    case WriteLock(_) =>
      if s.lock == None || s.lock.value !in s.calls then Acquire(t)
      else (match s.calls[s.lock.value]
            case WriteSelect(_, _) => SeeDone(s.lock.value)
            case WriteAwait(_, _, r) => Reply(s.lock.value, r)
            case _ => Load(s.lock.value))
    case _ => Load(t)
  }

  lemma DoneUnblocks(s: State, t: nat)
    requires Inv(s) && s.done && t in s.calls && !Finished(s.calls[t])
    ensures Enabled(s, Unblock(s, t)) && !Unblock(s, t).Spawn?
  {
    assert CallOk(s, t);
    if s.calls[t].WriteLock? && s.lock.Some? {
      assert CallOk(s, s.lock.value) && Holds(s.calls[s.lock.value]);
    }
  }

  /** Nothing more can happen to the calls already made. */
  ghost predicate Stuck(s: State) {
    forall a: Action :: !a.Spawn? ==> !Enabled(s, a)
  }

  /** Every call has returned. */
  ghost predicate AllFinished(s: State) {
    forall t :: t in s.calls ==> Finished(s.calls[t])
  }

  lemma FinishedIsStuck(s: State, a: Action)
    requires AllFinished(s) && !a.Spawn?
    ensures !Enabled(s, a)
  {
    var t := if a.Offer? then a.w else if a.Reply? then a.w else a.t;
    if t in s.calls { assert Finished(s.calls[t]); }
  }

  /**
   Once done is closed no call stays blocked: any way of running the calls already
   made to the point where nothing more can happen takes at most `Work` steps, and
   there every one of them has returned.
   */
  lemma ClosingReleasesEveryCall(acts: seq<Action>, s: State, more: seq<Action>, s': State)
    requires Reaches(Init(), acts, s) && s.done
    requires Reaches(s, more, s') && (forall i :: 0 <= i < |more| ==> !more[i].Spawn?)
    ensures |more| <= Work(s.calls)
    ensures Stuck(s') <==> AllFinished(s')
  {
    RunKeeps(Init(), acts, s);
    Release(s, more, s');
  }

  lemma Release(s: State, more: seq<Action>, s': State)
    requires Inv(s) && s.done && Reaches(s, more, s') && (forall i :: 0 <= i < |more| ==> !more[i].Spawn?)
    ensures |more| <= Work(s.calls) && (Stuck(s') <==> AllFinished(s'))
  {
    RunKeeps(s, more, s');
    RunsAreBounded(s, more, s');
    DoneStays(s, more, s');
    StuckIffFinished(s');
  }

  lemma StuckIffFinished(s: State)
    requires Inv(s) && s.done
    ensures Stuck(s) <==> AllFinished(s)
  {
    if t :| t in s.calls && !Finished(s.calls[t]) {
      DoneUnblocks(s, t);
    } else {
      forall a: Action | !a.Spawn? ensures !Enabled(s, a) {
        FinishedIsStuck(s, a);
      }
    }
  }

  lemma {:induction false} DoneStays(s: State, acts: seq<Action>, s': State)
    requires Reaches(s, acts, s') && s.done
    ensures s'.done
    decreases |acts|
  {
    if acts != [] {
      DoneStays(Apply(s, acts[0]), acts[1..], s');
    }
  }

  // ---------------------------------------------------- before done is closed

  /** All that has not returned is reads that wait for a write. */
  ghost predicate OnlyReads(s: State) {
    forall t :: t in s.calls ==> Finished(s.calls[t]) || s.calls[t].ReadSelect?
  }

  /** All that has not returned is one write that waits for a read, and writes that wait for its lock. */
  ghost predicate OnlyWrites(s: State) {
    && s.lock.Some? && s.lock.value in s.calls && s.calls[s.lock.value].WriteSelect?
    && (forall t :: t in s.calls && t != s.lock.value ==> Finished(s.calls[t]) || s.calls[t].WriteLock?)
  }

  /** A call that waits, at a select or for the lock. */
  predicate Waits(c: Call) {
    c.ReadSelect? || c.WriteSelect? || c.WriteLock?
  }

  /** The step of whoever holds the lock, given a read that waits. */
  function HolderStep(s: State, r: nat, u: nat): Action
    requires u in s.calls
  {
    match s.calls[u]
    case WriteSelect(_, _) => Offer(u, r)
    case WriteAwait(_, _, to) => Reply(u, to)
    case _ => Load(u)
  }

  /** The step that a waiting read and a waiting write make possible: the lock's holder moves, or the write takes the lock. */
  function Meet(s: State, r: nat, w: nat): Action
    requires w in s.calls
  {
    if s.lock.Some? && s.lock.value in s.calls then HolderStep(s, r, s.lock.value)
    else Acquire(w)
  }

  /**
   A read at its select and a write at its select or at the lock never both stay
   blocked: the holder of the lock meets the read or goes on, and a free lock is taken.
   */
  lemma WaitersMeet(acts: seq<Action>, s: State, r: nat, w: nat)
    requires Reaches(Init(), acts, s)
    requires r in s.calls && s.calls[r].ReadSelect? && w in s.calls && (s.calls[w].WriteSelect? || s.calls[w].WriteLock?)
    ensures !Meet(s, r, w).Spawn? && Enabled(s, Meet(s, r, w))
    ensures s.lock.Some? && s.lock.value in s.calls && s.calls[s.lock.value].WriteSelect? ==>
              Meet(s, r, w) == Offer(s.lock.value, r)
  {
    RunKeepsCalls(acts, s);
    Meets(s, r, w);
  }

  lemma RunKeepsCalls(acts: seq<Action>, s: State)
    requires Reaches(Init(), acts, s)
    ensures LockOk(s) && CallsOk(s)
  {
    RunKeeps(Init(), acts, s);
  }

  lemma Meets(s: State, r: nat, w: nat)
    requires LockOk(s) && CallsOk(s)
    requires r in s.calls && s.calls[r].ReadSelect? && w in s.calls && (s.calls[w].WriteSelect? || s.calls[w].WriteLock?)
    ensures !Meet(s, r, w).Spawn? && Enabled(s, Meet(s, r, w))
    ensures s.lock.Some? && s.lock.value in s.calls && s.calls[s.lock.value].WriteSelect? ==>
              Meet(s, r, w) == Offer(s.lock.value, r)
  {
    if s.lock.Some? {
      assert CallOk(s, s.lock.value);
    }
  }

  /** A call that neither waits nor has returned can move, and so can the peer of a handshake. */
  lemma MovesOrWaits(s: State, t: nat)
    requires CallsOk(s) && t in s.calls && !Finished(s.calls[t]) && !Waits(s.calls[t])
    ensures Enabled(s, Unblock(s, t)) && !Unblock(s, t).Spawn?
  {
    assert CallOk(s, t);
  }

  lemma StuckWaits(s: State)
    requires LockOk(s) && CallsOk(s) && Stuck(s)
    ensures OnlyReads(s) || OnlyWrites(s)
  {
    forall t | t in s.calls && !Finished(s.calls[t]) ensures Waits(s.calls[t]) {
      if !Waits(s.calls[t]) {
        MovesOrWaits(s, t);
      }
    }
    if w :| w in s.calls && (s.calls[w].WriteSelect? || s.calls[w].WriteLock?) {
      if r :| r in s.calls && s.calls[r].ReadSelect? {
        Meets(s, r, w);
      }
      assert !Enabled(s, Acquire(w));
    }
  }

  lemma WaitingIsStuck(s: State, a: Action)
    requires !s.done && (OnlyReads(s) || OnlyWrites(s)) && !a.Spawn?
    ensures !Enabled(s, a)
  {
    if a.Offer? || a.Reply? {
      assert a.w in s.calls && a.r in s.calls ==> Finished(s.calls[a.w]) || Waits(s.calls[a.w]);
    } else {
      assert a.t in s.calls ==> Finished(s.calls[a.t]) || Waits(s.calls[a.t]);
    }
  }

  /**
   Before done is closed the pipe can come to rest in two ways only: every call that has
   not returned is a read that waits for a write, or they are one write that waits for a
   read and the writes queued behind it.
   */
  lemma OpenStuckIff(acts: seq<Action>, s: State)
    requires Reaches(Init(), acts, s) && !s.done
    ensures Stuck(s) <==> OnlyReads(s) || OnlyWrites(s)
  {
    RunKeepsCalls(acts, s);
    if Stuck(s) {
      StuckWaits(s);
    } else if OnlyReads(s) || OnlyWrites(s) {
      var a: Action :| !a.Spawn? && Enabled(s, a);
      WaitingIsStuck(s, a);
    }
  }
}
