/**
 The one-slot mailbox of a processor: any number of senders in RunAsync against its HandleWakeup, one
 store or load at a time.
*/
module Mailbox {

  /** A function pointer and its argument; 0 is NULL. */
  datatype Message = Message(func: nat, arg: nat)

  datatype Sender =
    | Quiet
    /** Holds the lock and has written nothing, the function, or both. */
    | Holding(message: Message)
    | WroteFunction(message: Message)
    | WroteBoth(message: Message)
    /** Has released the lock and not yet sent the interrupt. */
    | Sending

  datatype Handler =
    | Waiting
    | Entered
    | Seized
    | ReadFunction(func: nat)
    | ReadBoth(func: nat, arg: nat)
    | Cleared(func: nat, arg: nat)
    | Running(func: nat, arg: nat)

  datatype Owner = Nobody | Thread(i: nat) | Target

  datatype State = State(
    func: nat,
    arg: nat,
    lock: Owner,
    senders: seq<Sender>,
    handler: Handler,
    pending: bool,
    /** Every message stored so far, in order. */
    stored: seq<Message>,
    /** The numbers of those the handler has taken out. */
    taken: seq<nat>,
    /** What has been called. */
    called: seq<Message>)

  datatype Step =
    | SeizeLock(i: nat, message: Message)
    | StoreFunction(i: nat)
    | StoreArgument(i: nat)
    | ReleaseLock(i: nat)
    | SendInterrupt(i: nat)
    | TakeInterrupt
    | HandlerSeizes
    | HandlerReadsFunction
    | HandlerReadsArgument
    | HandlerClears
    | HandlerReleases
    | HandlerCalls

  predicate IsSender(s: State, i: nat) { i < |s.senders| }

  predicate Enabled(s: State, step: Step) {
    match step
    case SeizeLock(i, message) => IsSender(s, i) && s.senders[i].Quiet? && s.lock.Nobody? && message.func != 0
    case StoreFunction(i) => IsSender(s, i) && s.senders[i].Holding?
    case StoreArgument(i) => IsSender(s, i) && s.senders[i].WroteFunction?
    case ReleaseLock(i) => IsSender(s, i) && s.senders[i].WroteBoth?
    case SendInterrupt(i) => IsSender(s, i) && s.senders[i].Sending?
    case TakeInterrupt => s.handler.Waiting? && s.pending
    case HandlerSeizes => s.handler.Entered? && s.lock.Nobody?
    case HandlerReadsFunction => s.handler.Seized?
    case HandlerReadsArgument => s.handler.ReadFunction?
    case HandlerClears => s.handler.ReadBoth?
    case HandlerReleases => s.handler.Cleared?
    case HandlerCalls => s.handler.Running?
  }

  function Apply(s: State, step: Step): State
    requires Enabled(s, step)
  {
    match step
    case SeizeLock(i, message) => s.(lock := Thread(i), senders := s.senders[i := Holding(message)])
    case StoreFunction(i) =>
      s.(func := s.senders[i].message.func, senders := s.senders[i := WroteFunction(s.senders[i].message)])
    case StoreArgument(i) =>
      s.(arg := s.senders[i].message.arg, senders := s.senders[i := WroteBoth(s.senders[i].message)])
    case ReleaseLock(i) =>
      s.(lock := Nobody, senders := s.senders[i := Sending], stored := s.stored + [s.senders[i].message])
    case SendInterrupt(i) => s.(pending := true, senders := s.senders[i := Quiet])
    case TakeInterrupt => s.(pending := false, handler := Entered)
    case HandlerSeizes => s.(lock := Target, handler := Seized)
    case HandlerReadsFunction => s.(handler := ReadFunction(s.func))
    case HandlerReadsArgument => s.(handler := ReadBoth(s.handler.func, s.arg))
    case HandlerClears =>
      s.(func := 0, handler := Cleared(s.handler.func, s.handler.arg),
         taken := if s.handler.func != 0 && s.stored != [] then s.taken + [|s.stored| - 1] else s.taken)
    case HandlerReleases => s.(lock := Nobody, handler := Running(s.handler.func, s.handler.arg))
    case HandlerCalls =>
      s.(handler := Waiting,
         called := if s.handler.func == 0 then s.called else s.called + [Message(s.handler.func, s.handler.arg)])
  }

  ghost predicate Init(s: State) {
    && s.func == 0 && s.lock.Nobody? && s.handler.Waiting? && !s.pending
    && (forall i | 0 <= i < |s.senders| :: s.senders[i].Quiet?)
    && s.stored == [] && s.taken == [] && s.called == []
  }

  // ----- the invariant -----

  predicate HoldsLock(t: Sender) { t.Holding? || t.WroteFunction? || t.WroteBoth? }

  predicate HandlerHolds(h: Handler) { h.Seized? || h.ReadFunction? || h.ReadBoth? || h.Cleared? }

  /** The lock is held by the one thread that is inside its critical section. */
  ghost predicate LockOk(s: State) {
    && (forall i: nat | IsSender(s, i) :: HoldsLock(s.senders[i]) <==> s.lock == Thread(i))
    && (forall i: nat | IsSender(s, i) && HoldsLock(s.senders[i]) :: s.senders[i].message.func != 0)
    && (HandlerHolds(s.handler) <==> s.lock.Target?)
    && (s.lock.Thread? ==> IsSender(s, s.lock.i))
  }

  predicate IsLastTaken(s: State) {
    s.stored != [] && s.taken != [] && s.taken[|s.taken| - 1] == |s.stored| - 1
  }

  /** What the slot holds while no store is half done: nothing, or the last message, not yet taken. */
  predicate SlotIs(s: State) {
    if s.func == 0 then
      s.stored == [] || IsLastTaken(s)
    else
      s.stored != [] && Message(s.func, s.arg) == s.stored[|s.stored| - 1] && !IsLastTaken(s)
  }

  /** The same for the thread that is in the middle of its stores. */
  predicate SlotOk(s: State) {
    match s.lock
    case Nobody => SlotIs(s)
    case Target => SlotIs(s)
    case Thread(i) => IsSender(s, i) && match s.senders[i]
      case Holding(_) => SlotIs(s)
      case WroteFunction(m) => s.func == m.func
      case WroteBoth(m) => Message(s.func, s.arg) == m
      case _ => true
  }

  /** What the handler has read is what the slot holds. */
  predicate HandlerOk(s: State) {
    match s.handler
    case ReadFunction(f) => f == s.func
    case ReadBoth(f, a) => f == s.func && a == s.arg
    case Cleared(_, _) => s.func == 0
    case _ => true
  }

  /** Messages are taken in order, each at most once. */
  ghost predicate TakenOk(s: State) {
    && (forall k | 0 <= k < |s.taken| :: s.taken[k] < |s.stored|)
    && (forall j, k | 0 <= j < k < |s.taken| :: s.taken[j] < s.taken[k])
    && (forall k | 0 <= k < |s.stored| :: s.stored[k].func != 0)
  }

  /** The message taken out and not yet called. */
  function InFlight(h: Handler): seq<Message> {
    if (h.Cleared? || h.Running?) && h.func != 0 then [Message(h.func, h.arg)] else []
  }

  function TakenMessages(stored: seq<Message>, taken: seq<nat>): (r: seq<Message>)
    requires forall k | 0 <= k < |taken| :: taken[k] < |stored|
    ensures |r| == |taken| && forall k | 0 <= k < |taken| :: r[k] == stored[taken[k]]
  {
    seq(|taken|, k requires 0 <= k < |taken| => stored[taken[k]])
  }

  /** What was called, and what is about to be, are the messages taken, whole and in order. */
  ghost predicate CalledOk(s: State)
    requires TakenOk(s)
  {
    s.called + InFlight(s.handler) == TakenMessages(s.stored, s.taken)
  }

  predicate WillSend(t: Sender) { t.WroteFunction? || t.WroteBoth? || t.Sending? }

  /** A full slot has somebody coming for it. */
  ghost predicate WakeupOk(s: State) {
    s.func != 0 ==>
      || s.pending
      || (exists i: nat :: IsSender(s, i) && WillSend(s.senders[i]))
      || s.handler.Entered? || s.handler.Seized? || s.handler.ReadFunction? || s.handler.ReadBoth?
  }

  ghost predicate Inv(s: State) {
    LockOk(s) && SlotOk(s) && HandlerOk(s) && TakenOk(s) && CalledOk(s) && WakeupOk(s)
  }

  lemma InitIsInv(s: State)
    requires Init(s)
    ensures Inv(s)
  {
  }

  lemma StepKeepsLock(s: State, step: Step)
    requires LockOk(s) && Enabled(s, step)
    ensures LockOk(Apply(s, step))
  {
  }

  lemma StepKeepsSlot(s: State, step: Step)
    requires LockOk(s) && SlotOk(s) && HandlerOk(s) && TakenOk(s) && Enabled(s, step)
    ensures SlotOk(Apply(s, step))
  {
  }

  lemma StepKeepsHandler(s: State, step: Step)
    requires LockOk(s) && HandlerOk(s) && Enabled(s, step)
    ensures HandlerOk(Apply(s, step))
  {
  }

  lemma StepKeepsTaken(s: State, step: Step)
    requires LockOk(s) && SlotOk(s) && HandlerOk(s) && TakenOk(s) && Enabled(s, step)
    ensures TakenOk(Apply(s, step))
  {
  }

  /** The handler calls the message of one store, with the argument of the same store. */
  lemma StepKeepsCalled(s: State, step: Step)
    requires LockOk(s) && SlotOk(s) && HandlerOk(s) && TakenOk(s) && CalledOk(s) && Enabled(s, step)
    ensures TakenOk(Apply(s, step)) && CalledOk(Apply(s, step))
  {
    StepKeepsTaken(s, step);
    var s' := Apply(s, step);
    if step.ReleaseLock? {
      assert TakenMessages(s'.stored, s'.taken) == TakenMessages(s.stored, s.taken);
    } else if step.HandlerClears? && s.handler.func != 0 {
      assert TakenMessages(s'.stored, s'.taken) == TakenMessages(s.stored, s.taken) + [s.stored[|s.stored| - 1]];
    }
  }

  lemma StepKeepsWakeup(s: State, step: Step)
    requires LockOk(s) && HandlerOk(s) && WakeupOk(s) && Enabled(s, step)
    ensures WakeupOk(Apply(s, step))
  {
    var s' := Apply(s, step);
    if s'.func != 0 && s.func != 0 && exists i: nat :: IsSender(s, i) && WillSend(s.senders[i]) {
      var i: nat :| IsSender(s, i) && WillSend(s.senders[i]);
      assert IsSender(s', i);
    }
    if step.StoreFunction? { assert IsSender(s', step.i); }
  }

  lemma StepKeepsInv(s: State, step: Step)
    requires Inv(s) && Enabled(s, step)
    ensures Inv(Apply(s, step))
  {
    hide LockOk, SlotOk, HandlerOk, TakenOk, CalledOk, WakeupOk, Apply;
    StepKeepsLock(s, step);
    StepKeepsSlot(s, step);
    StepKeepsHandler(s, step);
    StepKeepsCalled(s, step);
    StepKeepsWakeup(s, step);
  }

  // ----- runs -----

  ghost predicate IsRun(s: State, steps: seq<Step>)
    decreases |steps|
  {
    steps == [] || (Enabled(s, steps[0]) && IsRun(Apply(s, steps[0]), steps[1..]))
  }

  ghost function After(s: State, steps: seq<Step>): State
    requires IsRun(s, steps)
    decreases |steps|
  {
    if steps == [] then s else After(Apply(s, steps[0]), steps[1..])
  }

  lemma {:induction false} RunKeepsInv(s: State, steps: seq<Step>)
    requires Inv(s) && IsRun(s, steps)
    ensures Inv(After(s, steps))
    decreases |steps|
  {
    hide Inv, Enabled, Apply;
    if steps != [] {
      StepKeepsInv(s, steps[0]);
      RunKeepsInv(Apply(s, steps[0]), steps[1..]);
    }
  }

  /** In every run, a full slot with a free lock has an interrupt pending, a sender about to send, or a handler about to look. */
  lemma NoLostWakeup(s: State, steps: seq<Step>)
    requires Init(s) && IsRun(s, steps)
    ensures var t := After(s, steps);
      t.func != 0 && t.lock.Nobody? ==>
        || t.pending || t.handler.Entered? || exists i: nat :: IsSender(t, i) && t.senders[i].Sending?
  {
    InitIsInv(s);
    RunKeepsInv(s, steps);
  }

  /** A sender has begun to store a later message. */
  predicate IsOverwriting(s: State) {
    s.lock.Thread? && IsSender(s, s.lock.i) && (s.senders[s.lock.i].WroteFunction? || s.senders[s.lock.i].WroteBoth?)
  }

  /** In every run each message is taken at most once, and is taken, overwritten by a later one, or still in the slot. */
  lemma TakenOrOverwritten(s: State, steps: seq<Step>, k: nat)
    requires Init(s) && IsRun(s, steps) && k < |After(s, steps).stored|
    ensures var t := After(s, steps);
      && (forall i, j | 0 <= i < j < |t.taken| :: t.taken[i] != t.taken[j])
      && (k in t.taken || k + 1 < |t.stored| || IsOverwriting(t) || Message(t.func, t.arg) == t.stored[k])
  {
    InitIsInv(s);
    RunKeepsInv(s, steps);
  }

  /** In every run the messages called are messages stored: the function and the argument come from one call of RunAsync. */
  lemma CalledAreStored(s: State, steps: seq<Step>, k: nat)
    requires Init(s) && IsRun(s, steps) && k < |After(s, steps).called|
    ensures var t := After(s, steps);
      k < |t.taken| && t.taken[k] < |t.stored| && t.called[k] == t.stored[t.taken[k]]
  {
    InitIsInv(s);
    RunKeepsInv(s, steps);
    var t := After(s, steps);
    assert t.called[k] == (t.called + InFlight(t.handler))[k];
  }

  // ----- what was asked for -----

  /** The messages that the calls of RunAsync in a run were given, in the order in which they got the lock. */
  ghost function Given(steps: seq<Step>): seq<Message>
    decreases |steps|
  {
    if steps == [] then [] else
    (if steps[0].SeizeLock? then [steps[0].message] else []) + Given(steps[1..])
  }

  /** The message of the sender that holds the lock. */
  function InProgress(s: State): seq<Message> {
    if s.lock.Thread? && IsSender(s, s.lock.i) && HoldsLock(s.senders[s.lock.i]) then [s.senders[s.lock.i].message] else []
  }

  lemma StepKeepsGiven(s: State, step: Step)
    requires LockOk(s) && Enabled(s, step)
    ensures Apply(s, step).stored + InProgress(Apply(s, step)) == s.stored + InProgress(s) + Given([step])
  {
    assert Given([step]) == if step.SeizeLock? then [step.message] else [];
  }

  /** What is stored, followed by what is being stored, are the messages given, none changed and none added. */
  lemma {:induction false} RunKeepsGiven(s: State, steps: seq<Step>)
    requires Inv(s) && IsRun(s, steps)
    ensures After(s, steps).stored + InProgress(After(s, steps)) == s.stored + InProgress(s) + Given(steps)
    decreases |steps|
  {
    hide Inv, Enabled, Apply, InProgress, Given;
    GivenIs(steps);
    if steps != [] {
      InvHasLock(s);
      StepKeepsGiven(s, steps[0]);
      StepKeepsInv(s, steps[0]);
      RunKeepsGiven(Apply(s, steps[0]), steps[1..]);
      Associates(s.stored + InProgress(s), Given([steps[0]]), Given(steps[1..]));
    } else {
      Associates(s.stored + InProgress(s), [], []);
    }
  }

  lemma GivenIs(steps: seq<Step>)
    ensures Given(steps) == if steps == [] then [] else Given([steps[0]]) + Given(steps[1..])
  {
  }

  lemma Associates(a: seq<Message>, b: seq<Message>, c: seq<Message>)
    ensures (a + b) + c == a + (b + c) && a + [] == a
  {
  }

  lemma InvHasLock(s: State)
    requires Inv(s)
    ensures LockOk(s)
  {
  }

  lemma StoredAreGiven(s: State, steps: seq<Step>)
    requires Init(s) && IsRun(s, steps)
    ensures After(s, steps).stored + InProgress(After(s, steps)) == Given(steps)
  {
    hide Init, Inv, IsRun, After, InProgress, Given;
    InitIsInv(s);
    InitHasNothing(s);
    RunKeepsGiven(s, steps);
    NothingBefore(Given(steps));
  }

  lemma InitHasNothing(s: State)
    requires Init(s)
    ensures s.stored == [] && InProgress(s) == []
  {
  }

  lemma NothingBefore(a: seq<Message>)
    ensures [] + [] + a == a
  {
  }

  /** What is called was given to a call of RunAsync, function and argument together, and in the order of the calls. */
  lemma CalledAreGiven(s: State, steps: seq<Step>, k: nat)
    requires Init(s) && IsRun(s, steps) && k < |After(s, steps).called|
    ensures var t := After(s, steps);
      k < |t.taken| && t.taken[k] < |Given(steps)| && t.called[k] == Given(steps)[t.taken[k]]
    ensures var t := After(s, steps); forall j | 0 <= j < k :: t.taken[j] < t.taken[k]
  {
    StoredAreGiven(s, steps);
    CalledAreStored(s, steps, k);
    InitIsInv(s);
    RunKeepsInv(s, steps);
  }

  // ----- delivery -----

  predicate IsQuiet(s: State) {
    s.handler.Waiting? && !s.pending && forall i | 0 <= i < |s.senders| :: s.senders[i].Quiet?
  }

  lemma QuietIsFree(s: State)
    requires Inv(s) && IsQuiet(s)
    ensures s.lock.Nobody?
  {
  }

  /** Once everything has come to rest, the last message stored has been called. */
  lemma LastIsDelivered(s: State)
    requires Inv(s) && IsQuiet(s) && s.stored != []
    ensures s.called != [] && s.called[|s.called| - 1] == s.stored[|s.stored| - 1]
  {
    QuietIsFree(s);
    assert s.called == TakenMessages(s.stored, s.taken);
  }

  /** So once a run has come to rest, the last message given to RunAsync has been called. */
  lemma LastGivenIsDelivered(s: State, steps: seq<Step>)
    requires Init(s) && IsRun(s, steps) && IsQuiet(After(s, steps)) && Given(steps) != []
    ensures var t := After(s, steps); t.called != [] && t.called[|t.called| - 1] == Given(steps)[|Given(steps)| - 1]
  {
    StoredAreGiven(s, steps);
    InitIsInv(s);
    RunKeepsInv(s, steps);
    var t := After(s, steps);
    QuietIsFree(t);
    assert t.stored == Given(steps);
    LastIsDelivered(t);
  }

  /** The steps a sender or the handler still has to take. */
  function SenderWork(t: Sender): nat {
    match t
    case Quiet => 0
    case Holding(_) => 11
    case WroteFunction(_) => 10
    case WroteBoth(_) => 9
    case Sending => 8
  }

  function HandlerWork(h: Handler): nat {
    match h
    case Waiting => 0
    case Entered => 6
    case Seized => 5
    case ReadFunction(_) => 4
    case ReadBoth(_, _) => 3
    case Cleared(_, _) => 2
    case Running(_, _) => 1
  }

  function SendersWork(l: seq<Sender>): nat {
    if l == [] then 0 else SenderWork(l[0]) + SendersWork(l[1..])
  }

  function Work(s: State): nat {
    SendersWork(s.senders) + (if s.pending then 7 else 0) + HandlerWork(s.handler)
  }

  lemma {:induction false} UpdateWork(l: seq<Sender>, i: nat, t: Sender)
    requires i < |l|
    ensures SendersWork(l[i := t]) == SendersWork(l) - SenderWork(l[i]) + SenderWork(t)
  {
    if i == 0 {
      assert l[0 := t][1..] == l[1..];
    } else {
      assert l[i := t][1..] == l[1..][i - 1 := t];
      UpdateWork(l[1..], i - 1, t);
    }
  }

  /** Every step but a new call brings the system closer to rest. */
  lemma StepDoesWork(s: State, step: Step)
    requires Enabled(s, step) && !step.SeizeLock?
    ensures Work(Apply(s, step)) < Work(s)
  {
    if step.StoreFunction? || step.StoreArgument? || step.ReleaseLock? || step.SendInterrupt? {
      UpdateWork(s.senders, step.i, Apply(s, step).senders[step.i]);
      assert Apply(s, step).senders == s.senders[step.i := Apply(s, step).senders[step.i]];
    }
  }

  /** Until then some such step is possible: nobody waits for ever. */
  lemma NoDeadlock(s: State) returns (step: Step)
    requires Inv(s) && !IsQuiet(s)
    ensures Enabled(s, step) && !step.SeizeLock?
  {
    match s.lock
    case Thread(i) =>
      var t := s.senders[i];
      step := if t.Holding? then StoreFunction(i) else if t.WroteFunction? then StoreArgument(i) else ReleaseLock(i);
    case Target =>
      var h := s.handler;
      step := if h.Seized? then HandlerReadsFunction else if h.ReadFunction? then HandlerReadsArgument
        else if h.ReadBoth? then HandlerClears else HandlerReleases;
    case Nobody =>
      if s.handler.Entered? {
        step := HandlerSeizes;
      } else if s.handler.Running? {
        step := HandlerCalls;
      } else if s.pending {
        step := TakeInterrupt;
      } else {
        var i: nat :| i < |s.senders| && !s.senders[i].Quiet?;
        assert !HoldsLock(s.senders[i]);
        step := SendInterrupt(i);
      }
  }

  /** From every state of a run, finishing what was begun delivers the last message stored. */
  lemma {:induction false} CanDeliver(s: State) returns (steps: seq<Step>)
    requires Inv(s)
    ensures |steps| <= Work(s) && IsRun(s, steps) && (forall i | 0 <= i < |steps| :: !steps[i].SeizeLock?)
    ensures IsQuiet(After(s, steps)) && Inv(After(s, steps))
    decreases Work(s)
  {
    hide Inv, Enabled, Apply, IsQuiet, Work;
    if IsQuiet(s) {
      return [];
    }
    var step := NoDeadlock(s);
    StepDoesWork(s, step);
    StepKeepsInv(s, step);
    var rest := CanDeliver(Apply(s, step));
    steps := [step] + rest;
    assert steps[1..] == rest;
  }
}
