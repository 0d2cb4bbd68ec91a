/**
 dialParallel of net/dial.go, the Happy Eyeballs race of section 4 of RFC 6555,
 as a step system: two racers, a timer, and the loop that waits for both.
 */
module Dial {
  import opened Prelude

  datatype Conn = Conn(id: int)

  datatype Error = Error(id: int)

  /** What dialSerial returned to a racer. */
  datatype Outcome = Connected(c: Conn) | Failed(e: Error)

  datatype Racer =
    | Idle                      // not started
    | Dialing                   // inside dialSerial
    | Ready(res: Outcome)       // at its select, offering res
    | Sent(res: Outcome)        // the loop received res
    | Dropped(res: Outcome)     // it saw `returned` closed and closed its connection, if any

  /** fallbackTimer: it may still fire, and its channel of capacity one may hold a tick. */
  datatype Timer = Timer(running: bool, tick: bool)

  /** Timer.Stop: whether the timer was running.  A tick already sent stays in the channel. */
  function Stop(t: Timer): (Timer, bool) {
    (t.(running := false), t.running)
  }

  /** Timer.Reset: the timer will fire, again or for the first time. */
  function Reset(t: Timer): Timer {
    t.(running := true)
  }

  /** The loop runs, then the deferred calls run one at a time, the last closing `returned`. */
  datatype Caller = Looping | Deferring(result: Outcome, left: nat) | Returned(result: Outcome)

  datatype State = State(
    caller: Caller,
    timer: Timer,
    primary: Racer,
    fallback: Racer,
    primaryErr: Option<Error>,  // the variable `primary`, once done
    fallbackErr: Option<Error>,
    starts: nat)                // how often the fallback racer was started

  datatype Action =
    | Dialed(isPrimary: bool, res: Outcome)   // dialSerial returns
    | Expire                                  // the timer fires
    | StartFallback                           // the loop receives from fallbackTimer.C
    | Receive(isPrimary: bool)                // rendezvous on results
    | Defer                                   // one deferred call of dialParallel
    | SeeReturned(isPrimary: bool)            // a racer's second select arm

  function Init(): State {
    State(Looping, Timer(true, false), Dialing, Idle, None, None, 0)
  }

  function RacerOf(s: State, isPrimary: bool): Racer {
    if isPrimary then s.primary else s.fallback
  }

  function WithRacer(s: State, isPrimary: bool, r: Racer): State {
    if isPrimary then s.(primary := r) else s.(fallback := r)
  }

  predicate Enabled(s: State, a: Action) {
    match a
    case Dialed(p, _) => RacerOf(s, p).Dialing?
    case Expire => s.timer.running
    case StartFallback => s.caller.Looping? && s.timer.tick
    case Receive(p) => s.caller.Looping? && RacerOf(s, p).Ready?
    case Defer => s.caller.Deferring?
    case SeeReturned(p) => s.caller.Returned? && RacerOf(s, p).Ready?
  }

  /** Deferred calls: fallbackCancel for each start, fallbackTimer.Stop, primaryCancel, close(returned). */
  function Return(s: State, result: Outcome): State {
    s.(caller := Deferring(result, 2 + s.starts))
  }

  function Apply(s: State, a: Action): State
    requires Enabled(s, a)
  {
    match a
    case Dialed(p, res) => WithRacer(s, p, Ready(res))
    case Expire => s.(timer := Timer(false, true))
    case StartFallback => s.(timer := s.timer.(tick := false), fallback := Dialing, starts := s.starts + 1)
    case Receive(p) => Received(WithRacer(s, p, Sent(RacerOf(s, p).res)), p, RacerOf(s, p).res)
    case Defer =>
      if s.caller.left == 0 then s.(caller := Returned(s.caller.result))
      else if s.caller.left == 2 then s.(caller := s.caller.(left := 1), timer := Stop(s.timer).0)
      else s.(caller := s.caller.(left := s.caller.left - 1))
    case SeeReturned(p) => WithRacer(s, p, Dropped(RacerOf(s, p).res))
  }

  /** A failed primary makes a timer that could still be stopped fire at once. */
  function Hurry(t: Timer): Timer {
    var (stopped, was) := Stop(t);
    if was then Reset(stopped) else stopped
  }

  /** The body of the loop's results arm. */
  function Received(s: State, p: bool, res: Outcome): State {
    match res
    case Connected(_) => Return(s, res)
    case Failed(e) =>
      var s1 := if p then s.(primaryErr := Some(e)) else s.(fallbackErr := Some(e));
      if s1.primaryErr.Some? && s1.fallbackErr.Some? then Return(s1, Failed(s1.primaryErr.value))
      else if p then s1.(timer := Hurry(s1.timer))
      else s1
  }

  ghost predicate Reaches(s: State, acts: seq<Action>, s': State)
    decreases |acts|
  {
    if acts == [] then s == s'
    else Enabled(s, acts[0]) && Reaches(Apply(s, acts[0]), acts[1..], s')
  }

  predicate Won(r: Racer) {
    r.Sent? && r.res.Connected?
  }

  function Result(c: Caller): Option<Outcome> {
    if c.Looping? then None else Some(c.result)
  }

  ghost predicate Inv(s: State) {
    && s.starts == (if s.fallback.Idle? then 0 else 1)
    && !(s.timer.running && s.timer.tick)
    && (s.caller.Looping? && s.fallback.Idle? ==> s.timer.running || s.timer.tick)
    && (!s.fallback.Idle? ==> !s.timer.running && !s.timer.tick)
    && !s.primary.Idle?
    && (s.primaryErr.Some? <==> s.primary.Sent? && s.primary.res.Failed?)
    && (s.fallbackErr.Some? <==> s.fallback.Sent? && s.fallback.res.Failed?)
    && (s.primaryErr.Some? ==> s.primary.res.e == s.primaryErr.value)
    && (s.fallbackErr.Some? ==> s.fallback.res.e == s.fallbackErr.value)
    && !(Won(s.primary) && Won(s.fallback))
    && (s.primary.Dropped? || s.fallback.Dropped? ==> s.caller.Returned?)
    && (match Result(s.caller)
        case None => !Won(s.primary) && !Won(s.fallback) && !(s.primaryErr.Some? && s.fallbackErr.Some?)
        case Some(Connected(c)) => s.primary == Sent(Connected(c)) || s.fallback == Sent(Connected(c))
        case Some(Failed(e)) => s.primaryErr == Some(e) && s.fallbackErr.Some?)
  }

  lemma StepKeeps(s: State, a: Action)
    requires Inv(s) && Enabled(s, a)
    ensures Inv(Apply(s, a))
  {
  }

  lemma {:induction false} RunKeeps(s: State, acts: seq<Action>, s': State)
    requires Inv(s) && Reaches(s, acts, s')
    ensures Inv(s')
    decreases |acts|
  {
    if acts != [] {
      StepKeeps(s, acts[0]);
      RunKeeps(Apply(s, acts[0]), acts[1..], s');
    }
  }

  /** A connection a racer established and did not hand over. */
  predicate Leaked(s: State, isPrimary: bool) {
    var r := RacerOf(s, isPrimary);
    (r.Ready? || r.Sent?) && r.res.Connected? && Result(s.caller) != Some(r.res)
  }

  /**
   Safety over every schedule: the fallback starts at most once; at most one racer's
   connection is taken by the loop, and then it is the one returned; an error return
   means both racers failed and carries the primary's error; a connection that is not
   returned is still with its racer, which has not been received from, or was closed by it.
   */
  lemma RaceIsSafe(acts: seq<Action>, s: State)
    requires Reaches(Init(), acts, s)
    ensures s.starts <= 1
    ensures !(Won(s.primary) && Won(s.fallback))
    ensures forall p :: Won(RacerOf(s, p)) ==> Result(s.caller) == Some(RacerOf(s, p).res)
    ensures Result(s.caller).Some? && Result(s.caller).value.Connected? ==>
              exists p :: RacerOf(s, p) == Sent(Result(s.caller).value)
    ensures Result(s.caller).Some? && Result(s.caller).value.Failed? ==>
              && s.primary == Sent(Result(s.caller).value)
              && s.fallback.Sent? && s.fallback.res.Failed?
    ensures forall p :: Leaked(s, p) ==> RacerOf(s, p).Ready?
  {
    RunKeeps(Init(), acts, s);
    if Result(s.caller).Some? && Result(s.caller).value.Connected? {
      assert RacerOf(s, true) == Sent(Result(s.caller).value) || RacerOf(s, false) == Sent(Result(s.caller).value);
    }
  }

  // ---------------------------------------------------------------- liveness

  function RacerWork(r: Racer): nat {
    match r
    case Idle => 4
    case Dialing => 3
    case Ready(_) => 2
    case _ => 0
  }

  function Work(s: State): nat {
    RacerWork(s.primary) + RacerWork(s.fallback)
    + (if s.timer.running then 2 else if s.timer.tick then 1 else 0)
    + (match s.caller case Looping => 6 case Deferring(_, left) => left + 1 case Returned(_) => 0)
  }

  lemma StepUsesWork(s: State, a: Action)
    requires Inv(s) && Enabled(s, a)
    ensures Work(Apply(s, a)) < Work(s)
  {
  }

  lemma {:induction false} RunsAreBounded(s: State, acts: seq<Action>, s': State)
    requires Inv(s) && Reaches(s, acts, s')
    ensures |acts| + Work(s') <= Work(s)
    decreases |acts|
  {
    if acts != [] {
      StepKeeps(s, acts[0]);
      StepUsesWork(s, acts[0]);
      RunsAreBounded(Apply(s, acts[0]), acts[1..], s');
    }
  }

  /** The step that brings a schedule closer to the return, and then to every racer being done. */
  function Advance(s: State, res: Outcome): Action {
    if s.caller.Deferring? then Defer
    else if s.primary.Dialing? then Dialed(true, res)
    else if s.primary.Ready? then (if s.caller.Returned? then SeeReturned(true) else Receive(true))
    else if s.fallback.Dialing? then Dialed(false, res)
    else if s.fallback.Ready? then (if s.caller.Returned? then SeeReturned(false) else Receive(false))
    else if s.timer.tick then StartFallback
    else Expire
  }

  /**
   No schedule is stuck before the return, every schedule ends within 15 steps, and at
   its end dialParallel has returned, no racer is running, and every connection that
   was established was either returned or closed by its racer.
   */
  lemma RaceEnds(acts: seq<Action>, s: State, res: Outcome)
    requires Reaches(Init(), acts, s)
    ensures |acts| <= 15
    ensures !s.caller.Returned? ==> Enabled(s, Advance(s, res))
    ensures (forall a: Action :: !Enabled(s, a)) ==>
              && s.caller.Returned?
              && (forall p :: !RacerOf(s, p).Dialing? && !RacerOf(s, p).Ready?)
              && (forall p :: !Leaked(s, p))
  {
    RunsAreBounded(Init(), acts, s);
    RunKeeps(Init(), acts, s);
    if forall a: Action :: !Enabled(s, a) {
      assert !Enabled(s, Advance(s, res));
      assert !Enabled(s, Dialed(true, res)) && !Enabled(s, Dialed(false, res));
      assert !Enabled(s, SeeReturned(true)) && !Enabled(s, SeeReturned(false));
    }
  }

  // ------------------------------------------------------------- dialSerial

  /** What happens when the loop of dialSerial reaches an address. */
  datatype Attempt = ContextDone(e: Error) | OutOfTime(e: Error) | Tried(res: Outcome)

  /** The first address that settles the whole dial, if any: a connection, a done context, or no time left. */
  function Settles(a: Attempt): bool {
    a.ContextDone? || a.OutOfTime? || a.res.Connected?
  }

  /**
   dialSerial over the outcomes of its addresses: a connection if the first address that
   settles the dial connects; otherwise the first error, except that a done context
   reports itself.
   */
  method DialSerial(attempts: seq<Attempt>, missing: Error) returns (r: Outcome)
    ensures r.Connected? <==>
              (exists i :: 0 <= i < |attempts| && attempts[i].Tried? && attempts[i].res.Connected? &&
                 (forall j :: 0 <= j < i ==> !Settles(attempts[j])))
    ensures forall i :: 0 <= i < |attempts| && Settles(attempts[i]) && (forall j :: 0 <= j < i ==> !Settles(attempts[j])) ==>
              match attempts[i]
              case Tried(res) => r == res
              case ContextDone(e) => r == Failed(e)
              case OutOfTime(e) => r == (if i == 0 then Failed(e) else attempts[0].res)
    ensures (forall i :: 0 <= i < |attempts| ==> !Settles(attempts[i])) ==>
              r == if attempts == [] then Failed(missing) else attempts[0].res
  {
    var firstErr: Option<Error> := None;
    for i := 0 to |attempts|
      invariant forall j :: 0 <= j < i ==> !Settles(attempts[j])
      invariant firstErr == if i == 0 then None else Some(attempts[0].res.e)
    {
      match attempts[i] {
        case ContextDone(e) =>
          return Failed(e);
        case OutOfTime(e) =>
          if firstErr == None {
            firstErr := Some(e);
          }
          break;
        case Tried(Connected(c)) =>
          return Connected(c);
        case Tried(Failed(e)) =>
          if firstErr == None {
            firstErr := Some(e);
          }
      }
    }
    return Failed(if firstErr == None then missing else firstErr.value);
  }

  const SANE_MINIMUM := 2_000_000_000   // two seconds in nanoseconds

  /** partialDeadline; None as a deadline is the zero time, None as a result is the timeout error. */
  function PartialDeadline(now: int, deadline: Option<int>, remaining: nat): (r: Option<Option<int>>)
    requires remaining > 0
    ensures deadline == None ==> r == Some(None)
    ensures deadline.Some? ==> (r == None <==> deadline.value <= now)
    ensures deadline.Some? && r.Some? ==>
              && r.value.Some? && now <= r.value.value <= deadline.value
              && r.value.value - now >= Min(SANE_MINIMUM, deadline.value - now)
              && (remaining == 1 ==> r.value.value == deadline.value)
              && (deadline.value - now) / remaining <= r.value.value - now <= Max((deadline.value - now) / remaining, 2_000_000_000)
  {
    match deadline
    case None => Some(None)
    case Some(d) =>
      var left := d - now;
      if left <= 0 then None
      else
        var share := left / remaining;
        DivBounds(left, remaining);
        var timeout := if share < SANE_MINIMUM then (if left < SANE_MINIMUM then left else SANE_MINIMUM) else share;
        Some(Some(now + timeout))
  }

  lemma DivBounds(a: nat, b: nat)
    requires b > 0
    ensures 0 <= a / b <= a && (b == 1 ==> a / b == a)
  {
    MulGrows(a / b, b);
  }

  lemma {:induction false} MulGrows(q: nat, b: nat)
    requires b > 0
    ensures q * b >= q
  {
    if b > 1 {
      MulGrows(q, b - 1);
      assert q * b == q * (b - 1) + q;
    }
  }
}
