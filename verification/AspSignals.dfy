/**
 The deferred signals of etc/afpd/afp_asp.c and the self-pipe of libatalk/util/sigpipe.c, as a state
 machine. Handlers run on the loop's own thread, so they interrupt it anywhere, may nest, and hold it
 up until they return.
 */
module AspSignals {
  /** What the handlers record: an exit, a shutdown notice, a reload, a server message. */
  datatype Signal = Die | Timedown | Reload | Message

  const ORDER: seq<Signal> := [Die, Timedown, Reload, Message]

  /** Where the loop stands. `Test(i, woken)` looks at the i-th flag next; `woken` tells the pass behind the drain. */
  datatype Pc =
    | Test(i: nat, woken: bool)
    | Clear(i: nat, woken: bool)
    | Act(i: nat, woken: bool)
    | Prepare
    | Poll
    | Drain
    | Hints
    | Serve
    | Ended

  /** `handlers` are the handlers that have set their flag and have not written to the pipe yet. */
  datatype State = State(pc: Pc, flags: set<Signal>, pipe: nat, handlers: seq<Signal>, unserved: set<Signal>)

  const PIPE_CAPACITY: nat := 65536
  const DRAIN_BUFFER: nat := 64

  const INIT := State(Test(0, false), {}, 0, [], {})

  datatype Action =
    | Arrive(s: Signal)               // a handler starts and sets its flag
    | Notify                          // the innermost handler writes its byte and returns
    | Loop(socket: bool, other: bool) // the loop takes a step; the arguments say which other events poll reports
    | Interrupt                       // poll returns with EINTR
    | Quit                            // an error or a close request ends the session

  function Advance(i: nat, woken: bool): (pc: Pc) {
    if i + 1 < |ORDER| then Test(i + 1, woken) else if woken then Hints else Prepare
  }

  predicate Enabled(s: State, a: Action) {
    match a
    case Arrive(_) => !s.pc.Ended?
    case Notify => s.handlers != []
    case Loop(socket, other) =>
      s.handlers == [] && !s.pc.Ended? && (s.pc.Poll? ==> s.pipe > 0 || socket || other)
    case Interrupt => s.handlers == [] && s.pc.Poll?
    case Quit => s.handlers == [] && (s.pc.Poll? || s.pc.Hints? || s.pc.Serve?)
  }

  function Next(s: State, a: Action): (s': State)
    requires Enabled(s, a)
  {
    match a
    case Arrive(sig) =>
      s.(flags := s.flags + {sig}, handlers := s.handlers + [sig], unserved := s.unserved + {sig})
    case Notify =>
      s.(handlers := s.handlers[..|s.handlers| - 1], pipe := if s.pipe < PIPE_CAPACITY then s.pipe + 1 else s.pipe)
    case Interrupt => s.(pc := Test(0, false))
    case Quit => s.(pc := Ended)
    case Loop(socket, _) =>
      match s.pc
      case Test(i, woken) =>
        if i < |ORDER| && ORDER[i] in s.flags then s.(pc := Clear(i, woken)) else s.(pc := Advance(i, woken))
      case Clear(i, woken) =>
        if i < |ORDER| then s.(pc := Act(i, woken), flags := s.flags - {ORDER[i]}) else s
      case Act(i, woken) =>
        if i >= |ORDER| then s
        else s.(pc := if ORDER[i].Die? then Ended else Advance(i, woken), unserved := s.unserved - {ORDER[i]})
      case Prepare => s.(pc := Poll)
      case Poll => s.(pc := if s.pipe > 0 then Drain else if socket then Serve else Hints)
      case Drain =>
        if s.pipe > 0 then s.(pipe := if s.pipe > DRAIN_BUFFER then s.pipe - DRAIN_BUFFER else 0)
        else s.(pc := Test(0, true))
      case Hints => s.(pc := if socket then Serve else Test(0, false))
      case Serve => s.(pc := Test(0, false))
      case Ended => s
  }

  ghost predicate IsRun(run: seq<Action>, states: seq<State>) {
    && |states| == |run| + 1 && states[0] == INIT
    && forall i :: 0 <= i < |run| ==> Enabled(states[i], run[i]) && states[i + 1] == Next(states[i], run[i])
  }

  /** The loop would sleep although a recorded signal has not been acted on. */
  predicate LostWakeUp(s: State) {
    s.pc.Poll? && s.handlers == [] && s.pipe == 0 && (s.flags != {} || s.unserved != {})
  }

  function Rank(sig: Signal): (k: nat)
    ensures k < |ORDER| && ORDER[k] == sig
  {
    match sig case Die => 0 case Timedown => 1 case Reload => 2 case Message => 3
  }

  /** The loop looks at this flag before it can sleep. A pass behind the drain is followed by another one. */
  predicate WillTest(pc: Pc, sig: Signal) {
    match pc
    case Test(i, woken) => woken || i <= Rank(sig)
    case Clear(i, woken) => woken || i <= Rank(sig)
    case Act(i, woken) => woken || i < Rank(sig)
    case Prepare => false
    case Poll => false
    case _ => true
  }

  /** What keeps a recorded signal from being slept over, at every point of every interleaving. */
  ghost predicate Inv(s: State) {
    && (forall f :: f in s.flags ==> s.pipe > 0 || f in s.handlers || WillTest(s.pc, f))
    && (forall f :: f in s.unserved ==> f in s.flags || (s.pc.Act? && s.pc.i == Rank(f)))
    && (s.pc.Test? || s.pc.Clear? || s.pc.Act? ==> s.pc.i < |ORDER|)
    && (s.pc.Clear? ==> ORDER[s.pc.i] in s.flags)
    && s.pipe <= PIPE_CAPACITY
  }

  lemma StepKeepsInv(s: State, a: Action)
    requires Inv(s) && Enabled(s, a)
    ensures Inv(Next(s, a))
  {
    var s' := Next(s, a);
    match a {
      case Arrive(sig) =>
        assert forall f :: f in s.handlers ==> f in s'.handlers;
        assert s'.handlers[|s.handlers|] == sig;
      case Notify =>
        assert s'.pipe > 0;
      case Interrupt =>
      case Quit =>
      case Loop(_, _) =>
        RanksAreOrder();
    }
  }

  lemma RanksAreOrder()
    ensures forall i :: 0 <= i < |ORDER| ==> Rank(ORDER[i]) == i
  {
  }

  lemma {:induction false} RunKeepsInv(run: seq<Action>, states: seq<State>, i: nat)
    requires IsRun(run, states) && i < |states|
    ensures Inv(states[i])
  {
    if i > 0 {
      RunKeepsInv(run, states, i - 1);
      StepKeepsInv(states[i - 1], run[i - 1]);
    }
  }

  /** In every interleaving of handlers and loop, poll never sleeps over a recorded signal. */
  lemma NoLostWakeUp(run: seq<Action>, states: seq<State>, i: nat)
    requires IsRun(run, states) && i < |states|
    ensures !LostWakeUp(states[i])
  {
    RunKeepsInv(run, states, i);
  }

  // ---- Service

  /** The steps from the start of a pass over the flags until this signal is acted on. */
  function Pass(sig: Signal): (n: nat) {
    3 * Rank(sig) + 3
  }

  /** The same from a drain of the pipe. */
  function Draining(pipe: nat, sig: Signal): (n: nat) {
    (pipe + DRAIN_BUFFER - 1) / DRAIN_BUFFER + 1 + Pass(sig)
  }

  /** The same from behind the last flag. */
  function NextPass(woken: bool, pipe: nat, sig: Signal): (n: nat) {
    if woken then 2 + Pass(sig) else 2 + Draining(pipe, sig)
  }

  /** At most this many steps of the loop are left until an unserved signal is acted on. */
  function Left(s: State, sig: Signal): (n: int) {
    var k := Rank(sig);
    match s.pc
    case Test(i, woken) => if i <= k then 3 * (k - i) + 3 else 3 * (|ORDER| - i) + NextPass(woken, s.pipe, sig)
    case Clear(i, woken) => if i <= k then 3 * (k - i) + 2 else 3 * (|ORDER| - i) - 1 + NextPass(woken, s.pipe, sig)
    case Act(i, woken) => if i <= k then 3 * (k - i) + 1 else 3 * (|ORDER| - i) - 2 + NextPass(woken, s.pipe, sig)
    case Prepare => 2 + Draining(s.pipe, sig)
    case Poll => 1 + Draining(s.pipe, sig)
    case Drain => Draining(s.pipe, sig)
    case Hints => 2 + Pass(sig)
    case Serve => 1 + Pass(sig)
    case Ended => 0
  }

  const SERVICE_BOUND: nat := 12 + 2 + PIPE_CAPACITY / DRAIN_BUFFER + 1 + 12

  lemma LeftIsBounded(s: State, sig: Signal)
    requires Inv(s)
    ensures 0 <= Left(s, sig) <= SERVICE_BOUND && (Left(s, sig) == 0 ==> s.pc.Ended?)
  {
  }

  /** Without further signals, every step of the loop brings an unserved signal nearer to service. */
  lemma StepServes(s: State, a: Action, sig: Signal)
    requires Inv(s) && s.handlers == [] && Enabled(s, a) && !a.Arrive? && sig in s.unserved
    ensures var s' := Next(s, a);
            s'.handlers == [] && (sig !in s'.unserved || s'.pc.Ended? || Left(s', sig) < Left(s, sig))
  {
    hide Draining;
    if s.pc.Test? || s.pc.Clear? || s.pc.Act? {
      PassStep(s, a, sig);
    } else if s.pc.Drain? {
      DrainStep(s.pipe, sig);
    } else {
      PassIsShorter(s.pipe, sig);
    }
  }

  lemma PassIsShorter(pipe: nat, sig: Signal)
    ensures Pass(sig) < Draining(pipe, sig)
  {
  }

  lemma PassStep(s: State, a: Action, sig: Signal)
    requires Inv(s) && s.handlers == [] && Enabled(s, a) && !a.Arrive? && sig in s.unserved
    requires s.pc.Test? || s.pc.Clear? || s.pc.Act?
    ensures var s' := Next(s, a);
            s'.handlers == [] && (sig !in s'.unserved || s'.pc.Ended? || Left(s', sig) < Left(s, sig))
  {
    hide Draining, Pass, Inv;
    Located(s, sig);
  }

  lemma Located(s: State, sig: Signal)
    requires Inv(s) && sig in s.unserved && (s.pc.Test? || s.pc.Clear? || s.pc.Act?)
    ensures s.pc.i < |ORDER| && (s.pc.i == Rank(sig) <==> ORDER[s.pc.i] == sig)
    ensures sig in s.flags || (s.pc.Act? && s.pc.i == Rank(sig))
  {
  }

  lemma DrainStep(pipe: nat, sig: Signal)
    ensures pipe > DRAIN_BUFFER ==> Draining(pipe - DRAIN_BUFFER, sig) < Draining(pipe, sig)
    ensures 0 < pipe <= DRAIN_BUFFER ==> Draining(0, sig) < Draining(pipe, sig)
    ensures Pass(sig) < Draining(pipe, sig)
  {
  }

  /** Once signals stop, each one that was recorded is acted on within a fixed number of steps, or the session ends. */
  lemma SignalsAreServed(run: seq<Action>, states: seq<State>, i: nat, j: nat, sig: Signal)
    requires IsRun(run, states) && i + SERVICE_BOUND <= j < |states| && states[i].handlers == []
    requires forall k :: i <= k < j ==> !run[k].Arrive?
    ensures sig !in states[j].unserved || states[j].pc.Ended?
  {
    RunKeepsInv(run, states, i);
    LeftIsBounded(states[i], sig);
    ServedBy(run, states, i, j, sig);
  }

  lemma {:induction false} ServedBy(run: seq<Action>, states: seq<State>, i: nat, j: nat, sig: Signal)
    requires IsRun(run, states) && i <= j < |states| && states[i].handlers == [] && Left(states[i], sig) <= j - i
    requires forall k :: i <= k < j ==> !run[k].Arrive?
    ensures sig !in states[j].unserved || states[j].pc.Ended?
    decreases j - i
  {
    RunKeepsInv(run, states, i);
    LeftIsBounded(states[i], sig);
    if i < j {
      assert states[i + 1] == Next(states[i], run[i]);
      RunKeepsInv(run, states, i + 1);
      if sig !in states[i].unserved || states[i].pc.Ended? {
        StaysServed(run, states, i, j, sig);
      } else {
        StepServes(states[i], run[i], sig);
        if sig !in states[i + 1].unserved || states[i + 1].pc.Ended? {
          StaysServed(run, states, i + 1, j, sig);
        } else {
          ServedBy(run, states, i + 1, j, sig);
        }
      }
    }
  }

  lemma {:induction false} StaysServed(run: seq<Action>, states: seq<State>, i: nat, j: nat, sig: Signal)
    requires IsRun(run, states) && i <= j < |states| && (sig !in states[i].unserved || states[i].pc.Ended?)
    requires forall k :: i <= k < j ==> !run[k].Arrive?
    ensures sig !in states[j].unserved || states[j].pc.Ended?
    decreases j - i
  {
    if i < j {
      assert states[i + 1] == Next(states[i], run[i]);
      StaysServed(run, states, i + 1, j, sig);
    }
  }

  // ---- Wake-ups

  /** A pass that a wake-up by the pipe has started. */
  predicate Awake(pc: Pc) {
    pc.Drain? || ((pc.Test? || pc.Clear? || pc.Act?) && pc.woken)
  }

  /** A pass on the way to poll. */
  predicate Heading(pc: Pc) {
    pc.Prepare? || ((pc.Test? || pc.Clear? || pc.Act?) && !pc.woken)
  }

  /** A woken loop stays in its pass, which starts with the pipe empty, until it looks at the hints or ends. */
  lemma AwakeStep(s: State, a: Action)
    requires Inv(s) && Enabled(s, a) && Awake(s.pc)
    ensures var pc := Next(s, a).pc; Awake(pc) || pc.Hints? || pc.Ended?
    ensures s.pc.Drain? && !Next(s, a).pc.Drain? ==> s.pipe == 0
  {
  }

  /** After a request the loop looks at the flags and goes on to poll. */
  lemma HeadingStep(s: State, a: Action)
    requires Inv(s) && Enabled(s, a) && (Heading(s.pc) || s.pc.Serve?)
    ensures var pc := Next(s, a).pc; Heading(pc) || pc.Poll? || pc.Ended? || (pc.Serve? && s.pc.Serve?)
  {
  }

  /** Between a wake-up and the next sleep the loop looks at what else poll has reported. */
  lemma {:induction false} WakeIsHandled(run: seq<Action>, states: seq<State>, i: nat, j: nat)
    requires IsRun(run, states) && i < j < |states| && Awake(states[i].pc) && states[j].pc.Poll?
    ensures exists k :: i < k < j && states[k].pc.Hints?
    decreases j - i
  {
    RunKeepsInv(run, states, i);
    AwakeStep(states[i], run[i]);
    assert states[i + 1] == Next(states[i], run[i]);
    if Awake(states[i + 1].pc) {
      WakeIsHandled(run, states, i + 1, j);
    } else if states[i + 1].pc.Ended? {
      StaysEnded(run, states, i + 1, j);
    }
  }

  lemma {:induction false} StaysEnded(run: seq<Action>, states: seq<State>, i: nat, j: nat)
    requires IsRun(run, states) && i <= j < |states| && states[i].pc.Ended?
    ensures states[j].pc.Ended?
    decreases j - i
  {
    if i < j {
      assert states[i + 1] == Next(states[i], run[i]);
      StaysEnded(run, states, i + 1, j);
    }
  }

  /** Every request that the loop serves has a poll of its own. */
  lemma {:induction false} OneRequestPerPoll(run: seq<Action>, states: seq<State>, i: nat, j: nat)
    requires IsRun(run, states) && i < j < |states| && states[j].pc.Serve?
    requires Heading(states[i].pc) || (states[i].pc.Serve? && exists k :: i < k < j && !states[k].pc.Serve?)
    ensures exists k :: i < k < j && states[k].pc.Poll?
    decreases j - i
  {
    RunKeepsInv(run, states, i);
    HeadingStep(states[i], run[i]);
    assert states[i + 1] == Next(states[i], run[i]);
    if states[i + 1].pc.Ended? {
      StaysEnded(run, states, i + 1, j);
    } else if !states[i + 1].pc.Poll? {
      OneRequestPerPoll(run, states, i + 1, j);
    }
  }

  /** The loop stands at a recorded exit, or has ended. */
  predicate Exiting(s: State) {
    s.pc.Ended? || ((s.pc.Clear? || s.pc.Act?) && s.pc.i == 0) || (s.pc.Test? && s.pc.i == 0 && Die in s.flags)
  }

  /** A recorded exit runs first in a pass and does not return: no other signal is acted on any more. */
  lemma {:induction false} ExitComesFirst(run: seq<Action>, states: seq<State>, i: nat, j: nat, sig: Signal)
    requires IsRun(run, states) && i <= j < |states| && Exiting(states[i])
    requires sig in states[i].unserved && sig != Die
    ensures Exiting(states[j]) && sig in states[j].unserved
    decreases j - i
  {
    if i < j {
      assert states[i + 1] == Next(states[i], run[i]);
      ExitComesFirst(run, states, i + 1, j, sig);
    }
  }
}
