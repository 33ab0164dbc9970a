/** The dispatcher: a chain of threads, each of which starts the next one and later waits for it, step by step. */
module Dispatcher {
  import opened Memory

  type Status = int                                // an NTSTATUS as a signed number: failures are negative
  type ThreadId = nat                              // position in the order of creation

  const STATUS_INSUFFICIENT_RESOURCES: Status := 0xC000_009A - 0x1_0000_0000
  const THREAD_COUNT_MIN: nat := 2
  const DEFAULT_THREAD_COUNT_MIN: nat := 4
  const DEFAULT_THREAD_COUNT_MAX: nat := 16

  /** Where a dispatcher thread is. */
  datatype Pc =
    | Allocating | Deciding | Spawning             // starting up
    | Declaring                                    // telling the volume that a dispatcher is ready
    | Looping | Serving                            // getting requests and carrying them out
    | Recording(status: Status) | Signalling | Joining  // going down
    | Checking | Announcing | Ended

  datatype Thread = Thread(pc: Pc, child: Option<ThreadId>)

  /** Where the thread that starts and stops the dispatcher is. */
  datatype Control = Outside | Counted | Storing(first: ThreadId) | Marked | Waiting | Joined | Closed

  datatype State = State(
    control: Control,
    handle: Option<ThreadId>,                      // the stored handle of the first thread
    count: nat,
    stopping: bool,
    stopped: bool,                                 // the volume fails every request for more work
    result: Status,
    threads: seq<Thread>,
    hasCallback: bool,
    // history
    base: nat,                                     // the first thread of the current start
    wanted: nat,                                   // the number of threads it asked for
    failures: seq<Status>,                         // reported so far, in order
    announced: seq<(ThreadId, bool)>)              // calls of DispatcherStopped so far

  ghost predicate Init(s: State)
  {
    && s.control == Outside && s.handle.None? && !s.stopping && s.result == 0 && s.threads == [] && s.base == 0
    && s.count == s.wanted == THREAD_COUNT_MIN && s.failures == [] && s.announced == []
  }

  // ---------- the number of threads ----------

  ghost function SetBits(mask: nat): nat
  {
    if mask == 0 then 0 else mask % 2 + SetBits(mask / 2)
  }

  /** Each digit of a mask in base 2 that is 1 is counted. */
  lemma SetBitsIs(mask: nat, digit: nat)
    requires digit < 2
    ensures SetBits(0) == 0 && SetBits(2 * mask + digit) == SetBits(mask) + digit
  {
  }

  function Clamp(x: nat, least: nat, most: nat): nat
  {
    if x < least then least else if x > most then most else x
  }

  /** How many threads a start asks for; `affinity` is the process affinity mask, if it can be had. */
  method EffectiveCount(requested: nat, affinity: Option<nat>) returns (count: Option<nat>)
    ensures count.None? <==> requested == 0 && affinity.None?
    ensures requested > 0 ==> count == Some(if requested < 2 then 2 else requested)
    ensures requested == 0 && affinity.Some? ==>
              var n := SetBits(affinity.value); count == Some(if n < 4 then 4 else if n > 16 then 16 else n)
  {
    var threadCount := requested;
    if threadCount == 0 {
      if affinity.None? { return None; }
      var mask := affinity.value;
      while mask != 0
        invariant threadCount + SetBits(mask) == SetBits(affinity.value)
      {
        threadCount := threadCount + mask % 2;
        mask := mask / 2;
      }
      threadCount := Clamp(threadCount, DEFAULT_THREAD_COUNT_MIN, DEFAULT_THREAD_COUNT_MAX);
    }
    if threadCount < THREAD_COUNT_MIN { threadCount := THREAD_COUNT_MIN; }
    return Some(threadCount);
  }

  // ---------- steps ----------

  datatype ControlAction =
    | BeginStart(count: nat) | CreateFirst | CreateFirstFails | StoreHandle
    | BeginStop | StopVolume | WaitForFirst | CloseHandle | EndStop

  ghost predicate ControlStep(s: State, a: ControlAction, s': State)
  {
    match (a, s.control)
    case (BeginStart(count), Outside) =>           // with a handle stored the start is refused
      s.handle.None? && count >= THREAD_COUNT_MIN &&
      s' == s.(control := Counted, count := count, wanted := count, base := |s.threads|)
    case (CreateFirst, Counted) =>
      s' == s.(control := Storing(|s.threads|), threads := s.threads + [Thread(Allocating, None)])
    case (CreateFirstFails, Counted) =>
      s' == s.(control := Outside)
    case (StoreHandle, Storing(first)) =>
      s' == s.(control := Outside, handle := Some(first))
    case (BeginStop, Outside) =>                   // without a handle there is nothing to stop
      s.handle.Some? && s' == s.(control := Marked, stopping := true)
    case (StopVolume, Marked) =>
      s' == s.(control := Waiting, stopped := true)
    case (WaitForFirst, Waiting) =>
      s.handle.Some? && HasEnded(s, s.handle.value) && s' == s.(control := Joined)
    case (CloseHandle, Joined) =>
      s' == s.(control := Closed, handle := None)
    case (EndStop, Closed) =>
      s' == s.(control := Outside, stopping := false)
    case _ => false
  }

  datatype ThreadAction =
    | Allocate | AllocateFails | Decide | Spawn | SpawnFails(status: Status)
    | Declare | Receive | Respond | TransactFails(status: Status)
    | Record | Signal | Join | Check | Announce

  ghost predicate HasEnded(s: State, t: ThreadId)
  {
    t < |s.threads| && s.threads[t].pc == Ended
  }

  function At(s: State, t: ThreadId, pc: Pc): State
    requires t < |s.threads|
  {
    s.(threads := s.threads[t := s.threads[t].(pc := pc)])
  }

  /** Only the first failure is kept. */
  function WithResult(s: State, status: Status): State
  {
    if status >= 0 then s
    else s.(result := if s.result == 0 then status else s.result, failures := s.failures + [status])
  }

  /** A thread that starts up. */
  ghost predicate StartStep(s: State, t: ThreadId, a: ThreadAction, s': State)
  {
    t < |s.threads| &&
    match (a, s.threads[t].pc)
    case (Allocate, Allocating) => s' == At(s, t, Deciding)
    case (AllocateFails, Allocating) => s' == At(s, t, Recording(STATUS_INSUFFICIENT_RESOURCES))
    case (Decide, Deciding) =>
      s' == if 1 < s.count then At(s, t, Spawning).(count := s.count - 1) else At(s, t, Declaring)
    case (Spawn, Spawning) =>
      s' == s.(threads := s.threads[t := Thread(Declaring, Some(|s.threads|))] + [Thread(Allocating, None)])
    case (SpawnFails(status), Spawning) => s' == At(s, t, Recording(status))
    case _ => false
  }

  /** A thread that talks to the volume. */
  ghost predicate WorkStep(s: State, t: ThreadId, a: ThreadAction, s': State)
  {
    t < |s.threads| &&
    match (a, s.threads[t].pc)
    case (Declare, Declaring) => !s.stopped && s' == At(s, t, Looping)
    case (TransactFails(status), Declaring) => status < 0 && s' == At(s, t, Recording(status))
    case (Receive, Looping) => !s.stopped && s' == At(s, t, Serving)
    case (Respond, Serving) => s' == At(s, t, Looping)
    case (TransactFails(status), Looping) => status < 0 && s' == At(s, t, Recording(status))
    case _ => false
  }

  /** A thread that goes down. */
  ghost predicate EndStep(s: State, t: ThreadId, a: ThreadAction, s': State)
  {
    t < |s.threads| &&
    match (a, s.threads[t].pc)
    case (Record, Recording(status)) => s' == WithResult(At(s, t, Signalling), status)
    case (Signal, Signalling) => s' == At(s, t, Joining).(stopped := true)
    case (Join, Joining) =>
      (s.threads[t].child.None? || HasEnded(s, s.threads[t].child.value)) && s' == At(s, t, Checking)
    case (Check, Checking) => s' == At(s, t, if s.handle == Some(t) && s.hasCallback then Announcing else Ended)
    case (Announce, Announcing) => s' == At(s, t, Ended).(announced := s.announced + [(t, s.stopping)])
    case _ => false
  }

  ghost predicate ThreadStep(s: State, t: ThreadId, a: ThreadAction, s': State)
  {
    StartStep(s, t, a, s') || WorkStep(s, t, a, s') || EndStep(s, t, a, s')
  }

  /** Any other thread that sends a response and sees that fail. */
  datatype ResponderAction = ReportFailure(status: Status) | StopAfterFailure

  ghost predicate ResponderStep(s: State, a: ResponderAction, s': State)
  {
    match a
    case ReportFailure(status) => status < 0 && s' == WithResult(s, status)
    case StopAfterFailure => s' == s.(stopped := true)
  }

  ghost predicate CanStep(s: State, s': State)
  {
    || (exists a :: ControlStep(s, a, s'))
    || (exists t, a :: ThreadStep(s, t, a, s'))
    || (exists a :: ResponderStep(s, a, s'))
  }

  /** A run of any length: any number of starts and stops, with the threads' steps in any order. */
  ghost predicate Run(states: seq<State>)
  {
    && states != [] && Init(states[0])
    && forall i :: 0 <= i < |states| - 1 ==> CanStep(states[i], states[i + 1])
  }

  // ---------- the invariant ----------

  predicate Young(pc: Pc)
  {
    pc.Allocating? || pc.Deciding? || pc.Spawning?
  }

  predicate PastJoin(pc: Pc)
  {
    pc.Checking? || pc.Announcing? || pc.Ended?
  }

  predicate InStop(control: Control)
  {
    control.Marked? || control.Waiting? || control.Joined? || control.Closed?
  }

  ghost predicate AllEnded(s: State)
  {
    forall t: nat :: t < |s.threads| ==> s.threads[t].pc == Ended
  }

  ghost predicate ControlOk(s: State)
  {
    && (s.handle.Some? ==> s.handle.value == s.base < |s.threads|)
    && (s.control.Storing? ==> s.handle.None? && s.control.first == s.base < |s.threads|)
    && (s.control.Counted? ==> s.handle.None? && s.base == |s.threads|)
    && (s.control.Marked? || s.control.Waiting? || s.control.Joined? ==> s.handle.Some?)
    && (s.control.Closed? ==> s.handle.None?)
    && ((s.handle.None? && !s.control.Storing?) || s.control.Joined? ==> AllEnded(s))
    && (s.stopping <==> InStop(s.control))
    && (s.control.Waiting? || s.control.Joined? || s.control.Closed? ==> s.stopped)
  }

  /** A thread that is about to be created has been taken off the count already. */
  function Pending(pc: Pc): nat
  {
    if pc.Spawning? then 1 else 0
  }

  predicate Working(pc: Pc)
  {
    pc.Declaring? || pc.Looping? || pc.Serving?
  }

  /** The threads there are, those that are still to be created and the one that is about to be are as many as were
      asked for, as long as the last thread there is has not failed. */
  ghost predicate CountOk(s: State)
  {
    && 1 <= s.count && THREAD_COUNT_MIN <= s.wanted && s.base <= |s.threads|
    && (s.control.Counted? ==> s.count == s.wanted)
    && (s.base < |s.threads| ==>
          var last := s.threads[|s.threads| - 1].pc;
          var sum := |s.threads| - s.base + s.count - 1 + Pending(last);
          && sum <= s.wanted
          && (Young(last) ==> sum == s.wanted)
          && (Working(last) ==> sum == s.wanted && s.count == 1))
  }

  ghost predicate ThreadOk(s: State, t: ThreadId)
    requires t < |s.threads|
  {
    var th := s.threads[t];
    && (t < s.base ==> th.pc == Ended)
    && (t >= s.base ==> th.child == if t + 1 < |s.threads| then Some(t + 1) else None)
    && (Young(th.pc) ==> t == |s.threads| - 1)
    && (th.pc.Announcing? ==> s.handle == Some(t))
    && (th.pc.Joining? || PastJoin(th.pc) ==> s.stopped)
  }

  /** A thread is past its wait only after all the threads behind it have ended. */
  ghost predicate JoinOk(s: State, t: ThreadId, u: ThreadId)
    requires t < |s.threads| && u < |s.threads|
  {
    s.base <= t < u && PastJoin(s.threads[t].pc) ==> s.threads[u].pc == Ended
  }

  ghost predicate ResultOk(s: State)
  {
    && s.result == (if s.failures == [] then 0 else s.failures[0])
    && (forall i :: 0 <= i < |s.failures| ==> s.failures[i] < 0)
  }

  ghost predicate AnnouncedOk(s: State)
  {
    && (forall i :: 0 <= i < |s.announced| ==> HasEnded(s, s.announced[i].0))
    && (forall i, j :: 0 <= i < j < |s.announced| ==> s.announced[i].0 != s.announced[j].0)
  }

  ghost predicate LogOk(s: State)
  {
    ResultOk(s) && AnnouncedOk(s)
  }

  ghost predicate Inv(s: State)
  {
    && ControlOk(s) && CountOk(s) && LogOk(s)
    && (forall t: nat :: t < |s.threads| ==> ThreadOk(s, t))
    && (forall t: nat, u: nat :: t < |s.threads| && u < |s.threads| ==> JoinOk(s, t, u))
  }

  lemma InitInv(s: State)
    requires Init(s)
    ensures Inv(s)
  {
  }

  /** Once the first thread has ended, all have. */
  lemma FirstEndsLast(s: State)
    requires Inv(s) && s.base < |s.threads| && s.threads[s.base].pc == Ended
    ensures AllEnded(s)
  {
    forall t: nat | t < |s.threads| ensures s.threads[t].pc == Ended {
      assert ThreadOk(s, t) && JoinOk(s, s.base, t);
    }
  }

  lemma ControlKeepsControl(s: State, a: ControlAction, s': State)
    requires Inv(s) && ControlStep(s, a, s')
    ensures ControlOk(s') && CountOk(s')
  {
    hide LogOk, ThreadOk, JoinOk;
    if a.WaitForFirst? { FirstEndsLast(s); }
    if a.CreateFirst? && s.threads != [] { assert s.threads[|s.threads| - 1].pc == Ended; }
  }

  lemma ControlKeepsThreads(s: State, a: ControlAction, s': State, t: ThreadId, u: ThreadId)
    requires Inv(s) && ControlStep(s, a, s') && t < |s'.threads| && u < |s'.threads|
    ensures ThreadOk(s', t) && JoinOk(s', t, u)
  {
    hide LogOk, CountOk;
    if t < |s.threads| {
      assert ThreadOk(s, t) && (u < |s.threads| ==> JoinOk(s, t, u));
      assert AllEnded(s) ==> s.threads[t].pc == Ended;
    }
  }

  lemma ControlKeepsLog(s: State, a: ControlAction, s': State)
    requires LogOk(s) && ControlStep(s, a, s')
    ensures LogOk(s')
  {
    forall i | 0 <= i < |s.announced| ensures HasEnded(s', s.announced[i].0) { assert HasEnded(s, s.announced[i].0); }
  }

  lemma ControlKeepsInv(s: State, a: ControlAction, s': State)
    requires Inv(s) && ControlStep(s, a, s')
    ensures Inv(s')
  {
    hide ThreadOk, JoinOk, ControlStep, LogOk, ControlOk, CountOk;
    ControlKeepsControl(s, a, s');
    ControlKeepsLog(s, a, s');
    forall t: nat | t < |s'.threads| ensures ThreadOk(s', t) { ControlKeepsThreads(s, a, s', t, t); }
    forall t: nat, u: nat | t < |s'.threads| && u < |s'.threads| ensures JoinOk(s', t, u) {
      ControlKeepsThreads(s, a, s', t, u);
    }
  }

  lemma ResponderKeepsLog(s: State, a: ResponderAction, s': State)
    requires LogOk(s) && ResponderStep(s, a, s')
    ensures LogOk(s')
  {
    forall i | 0 <= i < |s.announced| ensures HasEnded(s', s.announced[i].0) { assert HasEnded(s, s.announced[i].0); }
  }

  lemma ResponderKeepsInv(s: State, a: ResponderAction, s': State)
    requires Inv(s) && ResponderStep(s, a, s')
    ensures Inv(s')
  {
    hide LogOk;
    ResponderKeepsLog(s, a, s');
    forall t: nat | t < |s'.threads| ensures ThreadOk(s', t) { assert ThreadOk(s, t); }
    forall t: nat, u: nat | t < |s'.threads| && u < |s'.threads| ensures JoinOk(s', t, u) { assert JoinOk(s, t, u); }
  }

  /** What a step of a dispatcher thread leaves alone, and what it needs. */
  ghost predicate Moved(s: State, t: ThreadId, s': State)
  {
    && t < |s.threads| <= |s'.threads| && s.threads[t].pc != Ended
    && s' == s.(threads := s'.threads, count := s'.count, stopped := s'.stopped, result := s'.result,
                failures := s'.failures, announced := s'.announced)
    && (s.stopped ==> s'.stopped) && 1 <= s'.count
    && var was, now := s.threads[t], s'.threads[t];
       if |s'.threads| == |s.threads| then
         && s'.threads == s.threads[t := Thread(now.pc, was.child)]
         && (Young(now.pc) ==> Young(was.pc)) && (now.pc.Announcing? ==> s.handle == Some(t))
         && (now.pc.Joining? ==> s'.stopped)
         && (PastJoin(now.pc) ==> was.pc.Joining? || PastJoin(was.pc))
         && (Young(now.pc) ==> s'.count + Pending(now.pc) == s.count + Pending(was.pc))
         && (!Young(was.pc) ==> s'.count == s.count)
         && (Working(now.pc) ==> (Working(was.pc) || (Young(was.pc) && Pending(was.pc) == 0 && s.count == 1)) &&
                                 s'.count == s.count)
         && (PastJoin(now.pc) ==> PastJoin(was.pc) || was.child.None? || HasEnded(s, was.child.value))
         && s'.count + Pending(now.pc) <= s.count + Pending(was.pc)
       else
         && was.pc.Spawning? && s'.count == s.count
         && s'.threads == s.threads[t := Thread(Declaring, Some(|s.threads|))] + [Thread(Allocating, None)]
  }

  lemma StepMoves(s: State, t: ThreadId, a: ThreadAction, s': State)
    requires ThreadStep(s, t, a, s') && 1 <= s.count
    ensures Moved(s, t, s')
  {
    hide Moved;
    if StartStep(s, t, a, s') { StartMoves(s, t, a, s'); }
    else if WorkStep(s, t, a, s') { WorkMoves(s, t, a, s'); }
    else { EndMoves(s, t, a, s'); }
  }

  lemma StartMoves(s: State, t: ThreadId, a: ThreadAction, s': State)
    requires StartStep(s, t, a, s') && 1 <= s.count
    ensures Moved(s, t, s')
  {
  }

  lemma WorkMoves(s: State, t: ThreadId, a: ThreadAction, s': State)
    requires WorkStep(s, t, a, s') && 1 <= s.count
    ensures Moved(s, t, s')
  {
  }

  lemma EndMoves(s: State, t: ThreadId, a: ThreadAction, s': State)
    requires EndStep(s, t, a, s') && 1 <= s.count
    ensures Moved(s, t, s')
  {
  }

  lemma StepKeepsControl(s: State, t: ThreadId, s': State)
    requires Inv(s) && Moved(s, t, s')
    ensures ControlOk(s') && CountOk(s')
  {
    hide LogOk, JoinOk;
    assert ThreadOk(s, t);
  }

  lemma StepKeepsThread(s: State, t: ThreadId, s': State, u: ThreadId)
    requires Inv(s) && Moved(s, t, s') && u < |s'.threads|
    ensures ThreadOk(s', u)
  {
    hide LogOk, AllEnded, CountOk, JoinOk;
    assert ThreadOk(s, t);
    if u < |s.threads| { assert ThreadOk(s, u); }
  }

  lemma StepKeepsJoin(s: State, t: ThreadId, s': State, u: ThreadId, v: ThreadId)
    requires Inv(s) && Moved(s, t, s') && u < |s'.threads| && v < |s'.threads|
    ensures JoinOk(s', u, v)
  {
    hide LogOk, AllEnded, ControlOk, CountOk;
    assert ThreadOk(s, t);
    if u < |s.threads| {
      assert ThreadOk(s, u) && JoinOk(s, u, t);
      if v < |s.threads| {
        assert JoinOk(s, u, v);
        if u == t && t + 1 < |s.threads| { assert JoinOk(s, t + 1, v); }
      }
    }
  }

  lemma StepMayAnnounce(s: State, t: ThreadId, a: ThreadAction, s': State)
    requires ThreadStep(s, t, a, s')
    ensures !HasEnded(s, t) && forall u :: u != t && HasEnded(s, u) ==> HasEnded(s', u)
    ensures s'.announced == s.announced || (s'.announced == s.announced + [(t, s.stopping)] && HasEnded(s', t))
  {
    hide StartStep, WorkStep, EndStep, HasEnded;
    if StartStep(s, t, a, s') { StartIsQuiet(s, t, a, s'); }
    else if WorkStep(s, t, a, s') { WorkIsQuiet(s, t, a, s'); }
    else { EndMayAnnounce(s, t, a, s'); }
  }

  lemma EndMayAnnounce(s: State, t: ThreadId, a: ThreadAction, s': State)
    requires EndStep(s, t, a, s')
    ensures !HasEnded(s, t) && forall u :: u != t && HasEnded(s, u) ==> HasEnded(s', u)
    ensures s'.announced == s.announced || (s'.announced == s.announced + [(t, s.stopping)] && HasEnded(s', t))
  {
  }

  /** While a thread starts up or works it reports nothing and has not ended. */
  lemma StartIsQuiet(s: State, t: ThreadId, a: ThreadAction, s': State)
    requires StartStep(s, t, a, s')
    ensures !HasEnded(s, t) && forall u :: u != t && HasEnded(s, u) ==> HasEnded(s', u)
    ensures s'.announced == s.announced && s'.result == s.result && s'.failures == s.failures
  {
  }

  lemma WorkIsQuiet(s: State, t: ThreadId, a: ThreadAction, s': State)
    requires WorkStep(s, t, a, s')
    ensures !HasEnded(s, t) && forall u :: u != t && HasEnded(s, u) ==> HasEnded(s', u)
    ensures s'.announced == s.announced && s'.result == s.result && s'.failures == s.failures
  {
  }

  lemma StepKeepsLog(s: State, t: ThreadId, a: ThreadAction, s': State)
    requires LogOk(s) && ThreadStep(s, t, a, s')
    ensures LogOk(s')
  {
    hide ThreadStep, ResultOk, AnnouncedOk;
    ThreadKeepsResult(s, t, a, s');
    StepMayAnnounce(s, t, a, s');
    ResultKept(s, s');
    AnnouncedKept(s, t, s');
  }

  lemma ResultKept(s: State, s': State)
    requires ResultOk(s)
    requires (s'.result == s.result && s'.failures == s.failures) || (exists st :: Reported(s, st, s'))
    ensures ResultOk(s')
  {
  }

  lemma AnnouncedKept(s: State, t: ThreadId, s': State)
    requires AnnouncedOk(s) && !HasEnded(s, t) && forall u :: u != t && HasEnded(s, u) ==> HasEnded(s', u)
    requires s'.announced == s.announced || (s'.announced == s.announced + [(t, s.stopping)] && HasEnded(s', t))
    ensures AnnouncedOk(s')
  {
    hide HasEnded;
    forall i | 0 <= i < |s.announced| ensures HasEnded(s', s.announced[i].0) && s.announced[i].0 != t {
      assert HasEnded(s, s.announced[i].0);
    }
  }

  lemma StepKeepsInv(s: State, t: ThreadId, a: ThreadAction, s': State)
    requires Inv(s) && ThreadStep(s, t, a, s')
    ensures Inv(s')
  {
    assert CountOk(s);
    StepMoves(s, t, a, s');
    StepKeepsLog(s, t, a, s');
    hide ThreadOk, JoinOk, ThreadStep, LogOk, ControlOk, CountOk, Moved;
    StepKeepsControl(s, t, s');
    forall u: nat | u < |s'.threads| ensures ThreadOk(s', u) { StepKeepsThread(s, t, s', u); }
    forall u: nat, v: nat | u < |s'.threads| && v < |s'.threads| ensures JoinOk(s', u, v) {
      StepKeepsJoin(s, t, s', u, v);
    }
  }

  lemma {:induction false} RunInv(states: seq<State>, i: nat)
    requires Run(states) && i < |states|
    ensures Inv(states[i])
  {
    if i == 0 {
      InitInv(states[0]);
    } else {
      RunInv(states, i - 1);
      var s, s' := states[i - 1], states[i - 1 + 1];
      assert CanStep(s, s');
      hide ControlStep, ThreadStep, ResponderStep, Inv;
      if a :| ControlStep(s, a, s') {
        ControlKeepsInv(s, a, s');
      } else if t, a :| ThreadStep(s, t, a, s') {
        StepKeepsInv(s, t, a, s');
      } else {
        var a :| ResponderStep(s, a, s');
        ResponderKeepsInv(s, a, s');
      }
    }
  }

  // ---------- what the dispatcher promises ----------

  /** A start leads to as many threads as it asked for, once the last one that there is is at work: none is left out
      unless it fails to start. */
  lemma AsManyAsWanted(states: seq<State>, i: nat)
    requires Run(states) && i < |states| && states[i].base < |states[i].threads|
    requires var last := states[i].threads[|states[i].threads| - 1].pc;
             last.Declaring? || last.Looping? || last.Serving?
    ensures |states[i].threads| - states[i].base == states[i].wanted
  {
    RunInv(states, i);
  }

  /** A start never leads to more threads than it asked for. */
  lemma AtMostWanted(states: seq<State>, i: nat)
    requires Run(states) && i < |states|
    ensures |states[i].threads| - states[i].base <= states[i].wanted
  {
    RunInv(states, i);
  }

  /** Outside of a start, and with no handle stored, no dispatcher thread runs: so none does when a stop returns. */
  lemma StopEndsAll(states: seq<State>, i: nat)
    requires Run(states) && i < |states|
    requires states[i].control.Joined? || (states[i].handle.None? && !states[i].control.Storing?)
    ensures AllEnded(states[i])
  {
    RunInv(states, i);
  }

  /** DispatcherStopped is called by the first thread of a start, once, when every other thread has ended. */
  lemma AnnouncedLast(states: seq<State>, i: nat, t: ThreadId, u: ThreadId)
    requires Run(states) && i < |states| && t < |states[i].threads| && states[i].threads[t].pc.Announcing?
    requires u < |states[i].threads| && u != t
    ensures t == states[i].base && states[i].threads[u].pc == Ended
    ensures forall k :: 0 <= k < |states[i].announced| ==> states[i].announced[k].0 != t
    ensures states[i].stopping <==> InStop(states[i].control)
  {
    RunInv(states, i);
    assert ThreadOk(states[i], t) && ThreadOk(states[i], u) && JoinOk(states[i], t, u);
    forall k | 0 <= k < |states[i].announced| ensures states[i].announced[k].0 != t {
      assert HasEnded(states[i], states[i].announced[k].0);
    }
  }

  lemma AnnouncedOnce(states: seq<State>, i: nat, j: nat, k: nat)
    requires Run(states) && i < |states| && j < k < |states[i].announced|
    ensures states[i].announced[j].0 != states[i].announced[k].0
  {
    RunInv(states, i);
  }

  /** The first thread of a start calls DispatcherStopped unless it gets there before its own handle is stored. */
  lemma AnnouncesUnlessEarly(states: seq<State>, i: nat, t: ThreadId, s': State)
    requires Run(states) && i < |states| && ThreadStep(states[i], t, Check, s')
    ensures s'.threads[t].pc.Announcing? <==>
            states[i].hasCallback && t == states[i].base && !states[i].control.Storing?
  {
    RunInv(states, i);
    assert ThreadOk(states[i], t);
    assert !HasEnded(states[i], t);
  }

  lemma RunGoesOn(states: seq<State>, s': State)
    requires Run(states) && CanStep(states[|states| - 1], s')
    ensures Run(states + [s'])
  {
    hide CanStep, Init;
    var longer := states + [s'];
    forall i | 0 <= i < |longer| - 1 ensures CanStep(longer[i], longer[i + 1]) {
      if i < |states| - 1 { assert CanStep(states[i], states[i + 1]); }
    }
  }

  /** A start that has not stored its handle yet, and whose first thread has been refused memory. */
  function Refused(pc: Pc, stopped: bool): State
  {
    State(Storing(0), None, 2, false, stopped, STATUS_INSUFFICIENT_RESOURCES, [Thread(pc, None)], true,
          0, 2, [STATUS_INSUFFICIENT_RESOURCES], [])
  }

  lemma MayBeRefused() returns (states: seq<State>)
    ensures Run(states) && states[|states| - 1] == Refused(Signalling, false)
  {
    hide Run, CanStep;
    var s := State(Outside, None, 2, false, false, 0, [], true, 0, 2, [], []);
    states := [s];
    OneStateRuns(s);
    var s' := s.(control := Counted);
    ControlGoesOn(states, s, BeginStart(2), s');
    states, s := states + [s'], s';
    s' := s.(control := Storing(0), threads := [Thread(Allocating, None)]);
    ControlGoesOn(states, s, CreateFirst, s');
    states, s := states + [s'], s';
    s' := At(s, 0, Recording(STATUS_INSUFFICIENT_RESOURCES));
    ThreadGoesOn(states, s, AllocateFails, s');
    states, s := states + [s'], s';
    s' := Refused(Signalling, false);
    ThreadGoesOn(states, s, Record, s');
    states := states + [s'];
  }

  /** A run in which it does get there before, so that DispatcherStopped is never called for this start. */
  lemma MayStaySilent() returns (states: seq<State>)
    ensures Run(states) && var s := states[|states| - 1];
            s.control == Outside && s.handle == Some(0) && s.hasCallback && AllEnded(s) && s.announced == []
  {
    hide Run, CanStep;
    states := MayBeRefused();
    ThreadGoesOn(states, Refused(Signalling, false), Signal, Refused(Joining, true));
    states := states + [Refused(Joining, true)];
    ThreadGoesOn(states, Refused(Joining, true), Join, Refused(Checking, true));
    states := states + [Refused(Checking, true)];
    ThreadGoesOn(states, Refused(Checking, true), Check, Refused(Ended, true));
    states := states + [Refused(Ended, true)];
    var s' := Refused(Ended, true).(control := Outside, handle := Some(0));
    ControlGoesOn(states, Refused(Ended, true), StoreHandle, s');
    states := states + [s'];
  }

  lemma OneStateRuns(s: State)
    requires Init(s)
    ensures Run([s])
  {
  }

  lemma ControlGoesOn(states: seq<State>, s: State, a: ControlAction, s': State)
    requires Run(states) && s == states[|states| - 1] && ControlStep(s, a, s')
    ensures Run(states + [s'])
  {
    hide Run, ControlStep;
    RunGoesOn(states, s');
  }

  lemma ThreadGoesOn(states: seq<State>, s: State, a: ThreadAction, s': State)
    requires Run(states) && s == states[|states| - 1] && ThreadStep(s, 0, a, s')
    ensures Run(states + [s'])
  {
    hide Run, ThreadStep;
    RunGoesOn(states, s');
  }

  lemma StepKeepsResult(s: State, s': State)
    requires CanStep(s, s') && s.result != 0
    ensures s'.result == s.result
  {
    hide ThreadStep;
    if t, a :| ThreadStep(s, t, a, s') { ThreadKeepsResult(s, t, a, s'); }
  }

  lemma ThreadKeepsResult(s: State, t: ThreadId, a: ThreadAction, s': State)
    requires ThreadStep(s, t, a, s')
    ensures (s'.result == s.result && s'.failures == s.failures) || (exists st :: Reported(s, st, s'))
    ensures s.result != 0 ==> s'.result == s.result
  {
    hide StartStep, WorkStep, EndStep;
    if StartStep(s, t, a, s') { StartIsQuiet(s, t, a, s'); }
    else if WorkStep(s, t, a, s') { WorkIsQuiet(s, t, a, s'); }
    else { EndKeepsResult(s, t, a, s'); }
  }

  lemma EndKeepsResult(s: State, t: ThreadId, a: ThreadAction, s': State)
    requires EndStep(s, t, a, s')
    ensures (s'.result == s.result && s'.failures == s.failures) || (exists st :: Reported(s, st, s'))
    ensures s.result != 0 ==> s'.result == s.result
  {
    if a.Record? { assert Reported(s, s.threads[t].pc.status, s'); }
  }

  ghost predicate Reported(s: State, status: Status, s': State)
  {
    s'.result == WithResult(s, status).result && s'.failures == WithResult(s, status).failures
  }

  /** A thread that ends reports what it ends with, if that is a failure, and then stops the volume; so does any other
      thread whose response fails. */
  lemma FailureIsReported(s: State, t: ThreadId, a: ThreadAction, s': State)
    requires ThreadStep(s, t, a, s') && s.threads[t].pc.Recording?
    ensures var status := s.threads[t].pc.status;
            && s'.threads[t].pc == Signalling && s'.failures == s.failures + (if status < 0 then [status] else [])
            && s'.result == if s.result == 0 && status < 0 then status else s.result
  {
  }

  lemma RefusedMemoryIsReported(s: State, t: ThreadId, s': State)
    requires ThreadStep(s, t, AllocateFails, s')
    ensures s'.threads[t].pc == Recording(-0x3FFF_FF66)
  {
  }

  /** Work ends with failures only. */
  lemma WorkEndsWithFailure(s: State, t: ThreadId, status: Status, s': State)
    requires ThreadStep(s, t, TransactFails(status), s')
    ensures status < 0 && s'.threads[t].pc == Recording(status)
  {
  }

  lemma ResponderReports(s: State, status: Status, s': State)
    requires ResponderStep(s, ReportFailure(status), s')
    ensures status < 0 && CanStep(s, s')
    ensures s'.failures == s.failures + [status] && s'.result == if s.result == 0 then status else s.result
    ensures ResponderStep(s', StopAfterFailure, s'.(stopped := true))
  {
  }

  /** Once a thread waits for another one, or is past that, the volume is stopped, so all the others wind down too. */
  lemma OneEndsAll(states: seq<State>, i: nat, t: ThreadId)
    requires Run(states) && i < |states| && t < |states[i].threads|
    requires states[i].threads[t].pc.Joining? || PastJoin(states[i].threads[t].pc)
    ensures states[i].stopped
  {
    RunInv(states, i);
    assert ThreadOk(states[i], t);
  }

  lemma ResultIsFirst(states: seq<State>, i: nat)
    requires Run(states) && i < |states|
    ensures states[i].result == if states[i].failures == [] then 0 else states[i].failures[0]
  {
    RunInv(states, i);
  }

  /** The recorded result is the first failure reported, and never changes. */
  lemma {:induction false} FirstFailureStays(states: seq<State>, i: nat, j: nat)
    requires Run(states) && i <= j < |states|
    ensures states[i].result == if states[i].failures == [] then 0 else states[i].failures[0]
    ensures states[i].result != 0 ==> states[j].result == states[i].result
  {
    hide Inv, CanStep, Init;
    ResultIsFirst(states, i);
    if i < j {
      FirstFailureStays(states, i, j - 1);
      assert CanStep(states[j - 1], states[j - 1 + 1]);
      if states[i].result != 0 { StepKeepsResult(states[j - 1], states[j]); }
    }
  }

  // ---------- a stop returns ----------

  function Rank(pc: Pc): nat
  {
    match pc
    case Allocating => 11
    case Deciding => 10
    case Spawning => 25
    case Declaring => 9
    case Serving => 8
    case Looping => 7
    case Recording(_) => 6
    case Signalling => 5
    case Joining => 4
    case Checking => 3
    case Announcing => 2
    case Ended => 0
  }

  function Ranks(threads: seq<Thread>): nat
  {
    if threads == [] then 0 else Rank(threads[0].pc) + Ranks(threads[1..])
  }

  /** How many steps the dispatcher threads can take at most once the volume is stopped. */
  function StepsLeft(s: State): nat
  {
    20 * s.count + Ranks(s.threads)
  }

  lemma {:induction false} RanksAreBounded(threads: seq<Thread>)
    ensures Ranks(threads) <= 25 * |threads|
  {
    if threads != [] { RanksAreBounded(threads[1..]); }
  }

  lemma {:induction false} RanksUpdate(threads: seq<Thread>, t: nat, th: Thread)
    requires t < |threads|
    ensures Ranks(threads[t := th]) == Ranks(threads) - Rank(threads[t].pc) + Rank(th.pc)
  {
    if t > 0 {
      assert threads[t := th][1..] == threads[1..][t - 1 := th];
      RanksUpdate(threads[1..], t - 1, th);
    } else {
      assert threads[t := th][1..] == threads[1..];
    }
  }

  lemma {:induction false} RanksAppend(threads: seq<Thread>, th: Thread)
    ensures Ranks(threads + [th]) == Ranks(threads) + Rank(th.pc)
  {
    if threads == [] {
      assert threads + [th] == [th];
    } else {
      assert (threads + [th])[1..] == threads[1..] + [th];
      RanksAppend(threads[1..], th);
    }
  }

  lemma StoppedServesNothing(s: State, t: ThreadId, a: ThreadAction, s': State)
    requires s.stopped && ThreadStep(s, t, a, s')
    ensures !a.Declare? && !a.Receive?
  {
  }

  /** After the volume is stopped no dispatcher thread gets another request, and every step of one leads nearer to the
      end, */
  lemma StoppedWindsDown(s: State, t: ThreadId, a: ThreadAction, s': State)
    requires s.stopped && ThreadStep(s, t, a, s')
    ensures s'.stopped && StepsLeft(s') < StepsLeft(s) && !a.Declare? && !a.Receive?
  {
    hide StepsLeft;
    StoppedServesNothing(s, t, a, s');
    hide StartStep, WorkStep, EndStep;
    if StartStep(s, t, a, s') { StartWindsDown(s, t, a, s'); }
    else if WorkStep(s, t, a, s') { WorkWindsDown(s, t, a, s'); }
    else { EndWindsDown(s, t, a, s'); }
  }

  lemma StartWindsDown(s: State, t: ThreadId, a: ThreadAction, s': State)
    requires s.stopped && StartStep(s, t, a, s')
    ensures s'.stopped && StepsLeft(s') < StepsLeft(s)
  {
    hide Ranks;
    RanksUpdate(s.threads, t, if a.Spawn? then Thread(Declaring, Some(|s.threads|)) else s'.threads[t]);
    if a.Spawn? {
      RanksAppend(s.threads[t := Thread(Declaring, Some(|s.threads|))], Thread(Allocating, None));
    }
  }

  lemma WorkWindsDown(s: State, t: ThreadId, a: ThreadAction, s': State)
    requires s.stopped && WorkStep(s, t, a, s')
    ensures s'.stopped && StepsLeft(s') < StepsLeft(s)
  {
    hide Ranks;
    RanksUpdate(s.threads, t, s'.threads[t]);
  }

  lemma EndWindsDown(s: State, t: ThreadId, a: ThreadAction, s': State)
    requires s.stopped && EndStep(s, t, a, s')
    ensures s'.stopped && StepsLeft(s') < StepsLeft(s)
  {
    hide Ranks;
    RanksUpdate(s.threads, t, s'.threads[t]);
  }

  ghost predicate CanGoOn(s: State, t: ThreadId)
  {
    exists a, s' :: ThreadStep(s, t, a, s')
  }

  lemma InvThread(s: State, t: ThreadId)
    requires Inv(s) && t < |s.threads|
    ensures ThreadOk(s, t)
  {
  }

  lemma StartingGoesOn(s: State, t: ThreadId)
    requires t < |s.threads| && Young(s.threads[t].pc)
    ensures CanGoOn(s, t)
  {
    match s.threads[t].pc
    case Allocating => assert ThreadStep(s, t, Allocate, At(s, t, Deciding));
    case Deciding =>
      assert ThreadStep(s, t, Decide, if 1 < s.count then At(s, t, Spawning).(count := s.count - 1)
                                    else At(s, t, Declaring));
    case Spawning => assert ThreadStep(s, t, SpawnFails(-1), At(s, t, Recording(-1)));
  }

  lemma WorkingGoesOn(s: State, t: ThreadId)
    requires t < |s.threads| && (s.threads[t].pc.Declaring? || s.threads[t].pc.Looping? || s.threads[t].pc.Serving?)
    ensures CanGoOn(s, t)
  {
    if s.threads[t].pc.Serving? {
      assert ThreadStep(s, t, Respond, At(s, t, Looping));
    } else {
      assert ThreadStep(s, t, TransactFails(-1), At(s, t, Recording(-1)));
    }
  }

  lemma EndingGoesOn(s: State, t: ThreadId)
    requires t < |s.threads| && (s.threads[t].pc.Recording? || s.threads[t].pc.Signalling?)
    ensures CanGoOn(s, t)
  {
    match s.threads[t].pc
    case Recording(status) => assert ThreadStep(s, t, Record, WithResult(At(s, t, Signalling), status));
    case Signalling => assert ThreadStep(s, t, Signal, At(s, t, Joining).(stopped := true));
  }

  lemma JoinerGoesOn(s: State, t: ThreadId)
    requires t < |s.threads| && s.threads[t].pc.Joining?
    requires s.threads[t].child.None? || HasEnded(s, s.threads[t].child.value)
    ensures CanGoOn(s, t)
  {
    assert ThreadStep(s, t, Join, At(s, t, Checking));
  }

  lemma JoinedGoesOn(s: State, t: ThreadId)
    requires t < |s.threads| && (s.threads[t].pc.Checking? || s.threads[t].pc.Announcing?)
    ensures CanGoOn(s, t)
  {
    if s.threads[t].pc.Checking? {
      assert ThreadStep(s, t, Check, At(s, t, if s.handle == Some(t) && s.hasCallback then Announcing else Ended));
    } else {
      assert ThreadStep(s, t, Announce, At(s, t, Ended).(announced := s.announced + [(t, s.stopping)]));
    }
  }

  /** and while there is a thread that has not ended, some thread can go on. */
  lemma {:induction false} SomeThreadGoesOn(s: State, t: ThreadId) returns (u: ThreadId)
    requires Inv(s) && t < |s.threads| && s.threads[t].pc != Ended
    ensures t <= u < |s.threads| && CanGoOn(s, u)
    decreases |s.threads| - t
  {
    hide Inv, CanGoOn;
    InvThread(s, t);
    u := t;
    match s.threads[t].pc
    case Joining =>
      if t + 1 < |s.threads| && s.threads[t + 1].pc != Ended {
        u := SomeThreadGoesOn(s, t + 1);
      } else {
        JoinerGoesOn(s, t);
      }
    case Allocating => StartingGoesOn(s, t);
    case Deciding => StartingGoesOn(s, t);
    case Spawning => StartingGoesOn(s, t);
    case Recording(_) => EndingGoesOn(s, t);
    case Signalling => EndingGoesOn(s, t);
    case Checking => JoinedGoesOn(s, t);
    case Announcing => JoinedGoesOn(s, t);
    case _ => WorkingGoesOn(s, t);
  }

  /** While a stop waits, either its wait is over or some dispatcher thread can go on. */
  lemma StopGoesOn(states: seq<State>, i: nat) returns (u: ThreadId)
    requires Run(states) && i < |states| && states[i].control.Waiting?
    ensures HasEnded(states[i], states[i].base) || (u < |states[i].threads| && CanGoOn(states[i], u))
    ensures states[i].stopped && states[i].handle == Some(states[i].base)
  {
    RunInv(states, i);
    hide Run, CanGoOn;
    u := 0;
    if !HasEnded(states[i], states[i].base) { u := SomeThreadGoesOn(states[i], states[i].base); }
  }

  ghost predicate ThreadMoves(s: State, s': State)
  {
    exists t, a :: ThreadStep(s, t, a, s')
  }

  /** How many steps the dispatcher threads take between two states of a run. */
  ghost function Moves(states: seq<State>, i: nat, j: nat): nat
    requires i <= j < |states|
  {
    if i == j then 0 else Moves(states, i, j - 1) + if ThreadMoves(states[j - 1], states[j]) then 1 else 0
  }

  lemma WaitingWindsDown(s: State, s': State)
    requires CanStep(s, s') && s.stopped && s.control.Waiting? && s'.control.Waiting?
    ensures StepsLeft(s') + (if ThreadMoves(s, s') then 1 else 0) <= StepsLeft(s)
  {
    hide ThreadStep, StepsLeft;
    if t, a :| ThreadStep(s, t, a, s') {
      StoppedWindsDown(s, t, a, s');
    } else {
      assert s'.threads == s.threads && s'.count == s.count;
      SameStepsLeft(s, s');
    }
  }

  lemma SameStepsLeft(s: State, s': State)
    requires s'.threads == s.threads && s'.count == s.count
    ensures StepsLeft(s') == StepsLeft(s)
  {
  }

  lemma {:induction false} WaitIsFinite(states: seq<State>, i: nat, j: nat)
    requires Run(states) && i <= j < |states| && forall k :: i <= k <= j ==> states[k].control.Waiting?
    ensures Moves(states, i, j) + StepsLeft(states[j]) <= StepsLeft(states[i])
    decreases j
  {
    hide CanStep, ThreadMoves, StepsLeft, Init;
    if i < j {
      WaitIsFinite(states, i, j - 1);
      assert CanStep(states[j - 1], states[j - 1 + 1]);
      var u := StopGoesOn(states, j - 1);
      WaitingWindsDown(states[j - 1], states[j]);
    }
  }

  /** A stop always returns: while it waits the dispatcher threads take a bounded number of steps, whatever else goes
      on, and when none of them can take another one the wait is over. */
  lemma StopReturns(states: seq<State>, i: nat, j: nat)
    requires Run(states) && i <= j < |states| && forall k :: i <= k <= j ==> states[k].control.Waiting?
    ensures Moves(states, i, j) <= StepsLeft(states[i]) <= 20 * states[i].count + 25 * |states[i].threads|
    ensures (forall u: nat :: u < |states[j].threads| ==> !CanGoOn(states[j], u)) ==>
              ControlStep(states[j], WaitForFirst, states[j].(control := Joined))
  {
    RanksAreBounded(states[i].threads);
    assert StepsLeft(states[i]) <= 20 * states[i].count + 25 * |states[i].threads|;
    hide Run, CanGoOn, StepsLeft, Moves;
    WaitIsFinite(states, i, j);
    var u := StopGoesOn(states, j);
  }
}
