/** The registration of a receive callback: the registering thread, the receive thread and the
    shutdown request as interleaved atomic steps. */
module Handshake {
  /** `register_callback`: assign, lock, notify, unlock. */
  datatype Registrar = BeforeAssign | Assigned | Locked | Notified | Returned

  /** `dpdk_rx_loop`: lock, test the predicate, sleep or go on, then test for shutdown and call. */
  datatype Receiver =
    | BeforeLock
    | TestQuit              // holds the mutex, about to read force_quit_
    | TestCallback          // holds the mutex, about to read rx_callback
    | AboutToSleep          // holds the mutex, the predicate was false
    | Asleep(woken: bool)   // waits on the condition variable, the mutex is released
    | PastWait              // holds the mutex, the predicate was true
    | LoopTest              // about to read force_quit_
    | InBurst               // about to invoke the callback for the buffers of a burst
    | Finished

  datatype System = System(registrar: Registrar, receiver: Receiver, callbackSet: bool, forceQuit: bool)

  const INITIAL := System(BeforeAssign, BeforeLock, false, false)

  predicate RegistrarHoldsMutex(s: System) {
    s.registrar.Locked? || s.registrar.Notified?
  }

  predicate ReceiverHoldsMutex(s: System) {
    s.receiver.TestQuit? || s.receiver.TestCallback? || s.receiver.AboutToSleep? || s.receiver.PastWait?
  }

  datatype Action = Register | Receive | SpuriousWakeUp | EmptyBurst | Quit

  predicate Enabled(s: System, a: Action) {
    match a
    case Register => s.registrar != Returned && (s.registrar.Assigned? ==> !ReceiverHoldsMutex(s))
    case Receive =>
      && s.receiver != Finished
      && (s.receiver.BeforeLock? ==> !RegistrarHoldsMutex(s))
      && (s.receiver.Asleep? ==> s.receiver.woken && !RegistrarHoldsMutex(s))
    case SpuriousWakeUp => s.receiver.Asleep?
    case EmptyBurst => s.receiver.InBurst?
    case Quit => true
  }

  /** Notifying wakes the receiver if it sleeps; otherwise it has no effect. */
  function Notify(r: Receiver): Receiver {
    if r.Asleep? then Asleep(true) else r
  }

  function Next(s: System, a: Action): System
    requires Enabled(s, a)
  {
    match a
    case Register =>
      (match s.registrar
       case BeforeAssign => s.(registrar := Assigned, callbackSet := true)
       case Assigned => s.(registrar := Locked)
       case Locked => s.(registrar := Notified, receiver := Notify(s.receiver))
       case Notified => s.(registrar := Returned)
       case Returned => s)
    case Receive =>
      (match s.receiver
       case BeforeLock => s.(receiver := TestQuit)
       case TestQuit => s.(receiver := if s.forceQuit then PastWait else TestCallback)
       case TestCallback => s.(receiver := if s.callbackSet then PastWait else AboutToSleep)
       case AboutToSleep => s.(receiver := Asleep(false))
       case Asleep(_) => s.(receiver := TestQuit)
       case PastWait => s.(receiver := LoopTest)
       case LoopTest => s.(receiver := if s.forceQuit then Finished else InBurst)
       case InBurst => s.(receiver := LoopTest)
       case Finished => s)
    case SpuriousWakeUp => s.(receiver := Asleep(true))
    case EmptyBurst => s.(receiver := LoopTest)
    case Quit => s.(forceQuit := true)
  }

  /** The states between the actions of a trace, from any first state on. */
  predicate Follows(trace: seq<Action>, states: seq<System>) {
    && |states| == |trace| + 1
    && forall i :: 0 <= i < |trace| ==> Enabled(states[i], trace[i]) && states[i + 1] == Next(states[i], trace[i])
  }

  predicate IsRun(trace: seq<Action>, states: seq<System>) {
    Follows(trace, states) && states[0] == INITIAL
  }

  ghost predicate Reachable(s: System) {
    exists trace, states :: IsRun(trace, states) && states[|trace|] == s
  }

  predicate Inv(s: System) {
    // the mutex has one holder
    && !(RegistrarHoldsMutex(s) && ReceiverHoldsMutex(s))
    // the callback is set by the first step of the registration and never cleared
    && (s.callbackSet <==> s.registrar != BeforeAssign)
    // nobody gets past the wait without a callback or a shutdown request
    && (s.receiver.PastWait? || s.receiver.LoopTest? ==> s.callbackSet || s.forceQuit)
    && (s.receiver.InBurst? ==> s.callbackSet)
    // only a shutdown request ends the loop
    && (s.receiver.Finished? ==> s.forceQuit)
    // whoever sleeps or is about to sleep un-notified is still ahead of the notification
    && (s.receiver.AboutToSleep? ==> s.registrar.BeforeAssign? || s.registrar.Assigned?)
    && (s.receiver == Asleep(false) ==> s.registrar.BeforeAssign? || s.registrar.Assigned? || s.registrar.Locked?)
  }

  lemma {:induction false} InvariantHolds(trace: seq<Action>, states: seq<System>, n: nat)
    requires Follows(trace, states) && Inv(states[0]) && n <= |trace|
    ensures Inv(states[n])
  {
    if n > 0 {
      InvariantHolds(trace, states, n - 1);
      InvariantStep(states[n - 1], trace[n - 1]);
    }
  }

  lemma InvariantStep(s: System, a: Action)
    requires Inv(s) && Enabled(s, a)
    ensures Inv(Next(s, a))
  {
  }

  lemma ReachableInv(s: System)
    requires Reachable(s)
    ensures Inv(s)
  {
    var trace, states :| IsRun(trace, states) && states[|trace|] == s;
    InvariantHolds(trace, states, |trace|);
  }

  /** In every interleaving, a callback that is invoked has been set. */
  lemma CallbackIsSetWhenInvoked(s: System)
    requires Reachable(s) && s.receiver.InBurst?
    ensures s.callbackSet
  {
    ReachableInv(s);
  }

  // ---------- Wake-ups ----------

  lemma ReachableNext(s: System, a: Action)
    requires Reachable(s) && Enabled(s, a)
    ensures Reachable(Next(s, a))
  {
    var trace, states :| IsRun(trace, states) && states[|trace|] == s;
    assert IsRun(trace + [a], states + [Next(s, a)]);
    assert (states + [Next(s, a)])[|trace + [a]|] == Next(s, a);
  }

  lemma SleepIsReachable()
    ensures Reachable(System(BeforeAssign, Asleep(false), false, false))
  {
    var none: seq<Action> := [];
    assert IsRun(none, [INITIAL]) && [INITIAL][|none|] == INITIAL;
    assert Reachable(INITIAL);
    ReachableNext(INITIAL, Receive);
    var s1 := Next(INITIAL, Receive);
    ReachableNext(s1, Receive);
    var s2 := Next(s1, Receive);
    ReachableNext(s2, Receive);
    var s3 := Next(s2, Receive);
    ReachableNext(s3, Receive);
  }

  /** The receive thread can be asleep without a wake-up on its way. */
  ghost predicate CanSleepUnnotified(r: Registrar, forceQuit: bool) {
    exists callbackSet :: Reachable(System(r, Asleep(false), callbackSet, forceQuit))
  }

  /** No wake-up is lost: an un-notified sleep is possible exactly while the registration still has
      its notification ahead of it. A shutdown request changes nothing about that, because it does
      not notify. */
  lemma SleepsOnlyBeforeNotification(r: Registrar, forceQuit: bool)
    ensures CanSleepUnnotified(r, forceQuit) <==> r.BeforeAssign? || r.Assigned? || r.Locked?
  {
    if callbackSet :| Reachable(System(r, Asleep(false), callbackSet, forceQuit)) {
      ReachableInv(System(r, Asleep(false), callbackSet, forceQuit));
    }
    SleepIsReachable();
    var s0 := System(BeforeAssign, Asleep(false), false, false);
    if forceQuit {
      ReachableNext(s0, Quit);
      s0 := Next(s0, Quit);
    }
    ReachableNext(s0, Register);
    var s1 := Next(s0, Register);
    ReachableNext(s1, Register);
    var s2 := Next(s1, Register);
    assert s0 == System(BeforeAssign, Asleep(false), false, forceQuit);
    assert s1 == System(Assigned, Asleep(false), true, forceQuit);
    assert s2 == System(Locked, Asleep(false), true, forceQuit);
  }

  /** How many steps of its own the receive thread needs to get past its wait, if nothing stops it. */
  function StepsToPass(r: Receiver): nat {
    match r
    case BeforeLock => 3
    case TestQuit => 2
    case TestCallback => 1
    case AboutToSleep => 4
    case Asleep(_) => 3
    case _ => 0
  }

  function ReceiveSteps(trace: seq<Action>, n: nat): nat
    requires n <= |trace|
  {
    if n == 0 then 0 else ReceiveSteps(trace, n - 1) + if trace[n - 1].Receive? then 1 else 0
  }

  lemma RegisteredStep(s: System, a: Action)
    requires Inv(s) && s.registrar.Returned? && Enabled(s, a)
    ensures Next(s, a).registrar.Returned?
    ensures StepsToPass(Next(s, a).receiver) <= StepsToPass(s.receiver)
    ensures a.Receive? && StepsToPass(s.receiver) > 0 ==> StepsToPass(Next(s, a).receiver) < StepsToPass(s.receiver)
  {
  }

  /** Once the registration has returned, and whatever shutdown requests, spurious wake-ups and empty
      bursts come in between: the receive thread can always take its next step until it is finished,
      no step leads back into the wait, and after three of its steps it is past it. */
  lemma {:induction false} RegisteredReceiverGoesOn(trace: seq<Action>, states: seq<System>, n: nat)
    requires Follows(trace, states) && Reachable(states[0]) && states[0].registrar.Returned? && n <= |trace|
    ensures Inv(states[n]) && states[n].registrar.Returned?
    ensures Enabled(states[n], Receive) <==> !states[n].receiver.Finished?
    ensures StepsToPass(states[n].receiver) == 0 || StepsToPass(states[n].receiver) + ReceiveSteps(trace, n) <= 3
  {
    if n == 0 {
      ReachableInv(states[0]);
    } else {
      RegisteredReceiverGoesOn(trace, states, n - 1);
      RegisteredStep(states[n - 1], trace[n - 1]);
      InvariantStep(states[n - 1], trace[n - 1]);
    }
  }

  // ---------- The registering thread ----------

  function RegistrarRest(r: Registrar): nat {
    match r
    case BeforeAssign => 4
    case Assigned => 3
    case Locked => 2
    case Notified => 1
    case Returned => 0
  }

  function RegisterSteps(trace: seq<Action>, n: nat): nat
    requires n <= |trace|
  {
    if n == 0 then 0 else RegisterSteps(trace, n - 1) + if trace[n - 1].Register? then 1 else 0
  }

  /** In every run the registration has returned exactly after four steps of its own. */
  lemma {:induction false} RegistrationTakesFourSteps(trace: seq<Action>, states: seq<System>, n: nat)
    requires IsRun(trace, states) && n <= |trace|
    ensures RegistrarRest(states[n].registrar) + RegisterSteps(trace, n) == 4
    ensures states[n].registrar.Returned? <==> RegisterSteps(trace, n) == 4
  {
    if n > 0 {
      RegistrationTakesFourSteps(trace, states, n - 1);
    }
  }

  /** How many steps of its own the receive thread takes before it releases the mutex. */
  function StepsToRelease(r: Receiver): nat {
    match r
    case TestQuit => 3
    case TestCallback => 2
    case AboutToSleep => 1
    case PastWait => 1
    case _ => 0
  }

  /** The registration waits only for the mutex, which the receive thread holds for at most three steps
      of its own, and it can always take them. */
  lemma RegistrationWaitsForMutexOnly(s: System, a: Action)
    requires Enabled(s, a)
    ensures Enabled(s, Register) || s.registrar.Returned? || StepsToRelease(s.receiver) > 0
    ensures StepsToRelease(s.receiver) > 0 ==> Enabled(s, Receive)
    ensures StepsToRelease(s.receiver) > 0 && a.Receive? ==>
      StepsToRelease(Next(s, a).receiver) < StepsToRelease(s.receiver)
    ensures StepsToRelease(s.receiver) > 0 && !a.Receive? ==> Next(s, a).receiver == s.receiver
  {
  }

  // ---------- Receiving and shutting down ----------

  /** How many steps of its own the receive thread needs to get to its next burst. */
  function StepsToBurst(r: Receiver): nat {
    match r
    case PastWait => 2
    case LoopTest => 1
    case InBurst => 0
    case Finished => 0
    case _ => 2 + StepsToPass(r)
  }

  lemma ServingStep(s: System, a: Action)
    requires Inv(s) && s.registrar.Returned? && !s.forceQuit && Enabled(s, a) && !s.receiver.InBurst?
    ensures Next(s, a).registrar.Returned?
    ensures StepsToBurst(Next(s, a).receiver) + (if a.Receive? then 1 else 0) == StepsToBurst(s.receiver)
  {
  }

  /** Without a shutdown request a registered receive thread never finishes, and in every interleaving
      the first five steps of its own bring it to a burst. */
  lemma {:induction false} RegisteredReceiverServes(trace: seq<Action>, states: seq<System>, n: nat)
    requires Follows(trace, states) && Reachable(states[0]) && states[0].registrar.Returned? && n <= |trace|
    requires forall i :: 0 <= i <= n ==> !states[i].forceQuit && !states[i].receiver.InBurst?
    ensures Inv(states[n]) && states[n].registrar.Returned? && !states[n].receiver.Finished?
    ensures ReceiveSteps(trace, n) + StepsToBurst(states[n].receiver) == StepsToBurst(states[0].receiver) <= 5
    ensures StepsToBurst(states[n].receiver) > 0
  {
    if n == 0 {
      ReachableInv(states[0]);
    } else {
      RegisteredReceiverServes(trace, states, n - 1);
      ServingStep(states[n - 1], trace[n - 1]);
      InvariantStep(states[n - 1], trace[n - 1]);
    }
  }

  /** How many steps of its own the receive thread takes after a shutdown request. */
  function StepsToFinish(r: Receiver): nat {
    match r
    case BeforeLock => 4
    case Asleep(_) => 4
    case TestQuit => 3
    case TestCallback => 3
    case AboutToSleep => 5
    case PastWait => 2
    case InBurst => 2
    case LoopTest => 1
    case Finished => 0
  }

  lemma ShutdownStep(s: System, a: Action)
    requires Inv(s) && s.registrar.Returned? && s.forceQuit && Enabled(s, a)
    ensures Next(s, a).registrar.Returned? && Next(s, a).forceQuit
    ensures StepsToFinish(Next(s, a).receiver) + (if a.Receive? || a.EmptyBurst? then 1 else 0)
         == StepsToFinish(s.receiver)
    ensures s.receiver.LoopTest? || s.receiver.Finished? ==> !Next(s, a).receiver.InBurst?
  {
  }

  /** Once the registration has returned and a shutdown has been requested, the receive thread is
      finished after at most four steps of its own in every interleaving, and until then it can always
      take the next one. */
  lemma {:induction false} ShutdownFinishesReceiver(trace: seq<Action>, states: seq<System>, n: nat)
    requires Follows(trace, states) && Reachable(states[0]) && n <= |trace|
    requires states[0].registrar.Returned? && states[0].forceQuit
    ensures Inv(states[n]) && states[n].registrar.Returned? && states[n].forceQuit
    ensures StepsToFinish(states[n].receiver) + ReceiveSteps(trace, n) <= 4
    ensures ReceiveSteps(trace, n) == 4 ==> states[n].receiver.Finished?
    ensures Enabled(states[n], Receive) <==> !states[n].receiver.Finished?
  {
    if n == 0 {
      ReachableInv(states[0]);
    } else {
      ShutdownFinishesReceiver(trace, states, n - 1);
      ShutdownStep(states[n - 1], trace[n - 1]);
      InvariantStep(states[n - 1], trace[n - 1]);
    }
  }

  /** After a shutdown request, a receive thread that has come to its loop test starts no other burst. */
  lemma {:induction false} NoBurstAfterShutdown(trace: seq<Action>, states: seq<System>, m: nat, n: nat)
    requires Follows(trace, states) && m <= n <= |trace|
    requires states[m].forceQuit && (states[m].receiver.LoopTest? || states[m].receiver.Finished?)
    ensures states[n].forceQuit && (states[n].receiver.LoopTest? || states[n].receiver.Finished?)
  {
    if m < n {
      NoBurstAfterShutdown(trace, states, m, n - 1);
    }
  }

  /** The thread has not gone to sleep, or has been woken. */
  predicate Awake(r: Receiver) {
    r != Asleep(false) && !r.TestCallback? && !r.AboutToSleep?
  }

  lemma AwakeStep(s: System, a: Action)
    requires s.forceQuit && Awake(s.receiver) && Enabled(s, a)
    ensures Next(s, a).forceQuit && Awake(Next(s, a).receiver)
    ensures StepsToFinish(Next(s, a).receiver) + (if a.Receive? || a.EmptyBurst? then 1 else 0)
         == StepsToFinish(s.receiver)
  {
  }

  /** After a shutdown request a receive thread that is awake finishes after at most four steps of its
      own in every interleaving, whether or not it has a callback. */
  lemma {:induction false} AwakeReceiverFinishes(trace: seq<Action>, states: seq<System>, n: nat)
    requires Follows(trace, states) && n <= |trace| && states[0].forceQuit && Awake(states[0].receiver)
    ensures states[n].forceQuit && Awake(states[n].receiver)
    ensures StepsToFinish(states[n].receiver) + ReceiveSteps(trace, n) <= 4
    ensures ReceiveSteps(trace, n) == 4 ==> states[n].receiver.Finished?
  {
    if n > 0 {
      AwakeReceiverFinishes(trace, states, n - 1);
      AwakeStep(states[n - 1], trace[n - 1]);
    }
  }

  /** What the environment can do: any sleeper can wake up spuriously, any burst can be empty, and a
      shutdown can be requested at any time. */
  lemma EnvironmentSteps(s: System)
    ensures Enabled(s, Quit) && Next(s, Quit) == s.(forceQuit := true)
    ensures s.receiver.Asleep? ==> Enabled(s, SpuriousWakeUp) && Awake(Next(s, SpuriousWakeUp).receiver)
    ensures s.receiver.InBurst? ==> Enabled(s, EmptyBurst) && Next(s, EmptyBurst) == Next(s, Receive)
  {
  }

  /** The receive loop ends only after a shutdown request. */
  lemma FinishedOnlyByShutdown(s: System)
    requires Reachable(s) && s.receiver.Finished?
    ensures s.forceQuit
  {
    ReachableInv(s);
  }

  // ---------- A thread that nobody registers ----------

  lemma UnregisteredStep(s: System, a: Action)
    requires s.registrar.BeforeAssign? && !s.callbackSet && !a.Register? && Enabled(s, a) && Inv(s)
    ensures Next(s, a).registrar.BeforeAssign? && !Next(s, a).callbackSet
    ensures !a.SpuriousWakeUp? && s.receiver != Asleep(true) ==> Next(s, a).receiver != Asleep(true)
    ensures !a.Quit? ==> Next(s, a).forceQuit == s.forceQuit
  {
  }

  /** In a run without a registration no callback is ever invoked; only a shutdown request gets the
      thread past its wait, and only a spurious wake-up ends its sleep. */
  lemma {:induction false} UnregisteredNeverReceives(trace: seq<Action>, states: seq<System>, n: nat)
    requires IsRun(trace, states) && n <= |trace|
    requires forall i :: 0 <= i < n ==> !trace[i].Register?
    ensures Inv(states[n]) && states[n].registrar.BeforeAssign? && !states[n].callbackSet
    ensures !states[n].receiver.InBurst?
    ensures (forall i :: 0 <= i < n ==> !trace[i].Quit?) ==> !states[n].forceQuit && StepsToPass(states[n].receiver) > 0
    ensures (forall i :: 0 <= i < n ==> !trace[i].SpuriousWakeUp?) ==> states[n].receiver != Asleep(true)
  {
    if n > 0 {
      UnregisteredNeverReceives(trace, states, n - 1);
      UnregisteredStep(states[n - 1], trace[n - 1]);
      InvariantStep(states[n - 1], trace[n - 1]);
    }
  }

  lemma UnregisteredSleepStep(s: System, a: Action)
    requires s.registrar.BeforeAssign? && s.receiver == Asleep(false) && Enabled(s, a)
    requires !a.Register? && !a.SpuriousWakeUp?
    ensures Next(s, a).registrar.BeforeAssign? && Next(s, a).receiver == Asleep(false)
  {
  }

  /** Once asleep, such a thread sleeps on, shutdown request or not, until a spurious wake-up. */
  lemma {:induction false} UnregisteredSleepsOn(trace: seq<Action>, states: seq<System>, m: nat, n: nat)
    requires Follows(trace, states) && m <= n <= |trace|
    requires states[m].registrar.BeforeAssign? && states[m].receiver == Asleep(false)
    requires forall i :: m <= i < n ==> !trace[i].Register? && !trace[i].SpuriousWakeUp?
    ensures states[n].registrar.BeforeAssign? && states[n].receiver == Asleep(false)
  {
    if m < n {
      UnregisteredSleepsOn(trace, states, m, n - 1);
      UnregisteredSleepStep(states[n - 1], trace[n - 1]);
    }
  }

  function StepsToSleep(r: Receiver): nat {
    match r
    case BeforeLock => 4
    case TestQuit => 3
    case TestCallback => 2
    case AboutToSleep => 1
    case _ => 0
  }

  /** Without registration, shutdown and spurious wake-up, the thread falls asleep after four steps. */
  lemma {:induction false} UnregisteredFallsAsleep(trace: seq<Action>, states: seq<System>, n: nat)
    requires IsRun(trace, states) && n <= |trace|
    requires forall i :: 0 <= i < n ==> trace[i].Receive? || trace[i].EmptyBurst?
    ensures states[n].registrar.BeforeAssign? && !states[n].callbackSet && !states[n].forceQuit
    ensures StepsToSleep(states[n].receiver) + n == 4
    ensures n == 4 ==> states[n].receiver == Asleep(false) && !Enabled(states[n], Receive)
  {
    if n > 0 {
      UnregisteredFallsAsleep(trace, states, n - 1);
      InvariantHolds(trace, states, n - 1);
    }
  }
}
