/** The guard around file system operations: which lock mode each request takes, and what that rules out, step by
    step. */
module OperationGuard {
  type Thread = nat

  datatype Strategy = Fine | Coarse

  /** A request, as far as the guard looks at it. */
  datatype Request =
    | Create(options: nat)                         // the disposition is in bits 24 to 31
    | Overwrite
    | Cleanup(delete: bool)
    | SetInformation(infoClass: nat)
    | SetVolumeInformation
    | FlushBuffers(context: nat, context2: nat)
    | QueryDirectory
    | QueryVolumeInformation
    | Other(kind: nat)

  datatype Mode = Unguarded | SharedMode | ExclusiveMode

  const FILE_OPEN: nat := 1
  const FILE_RENAME_INFORMATION: nat := 10
  const FILE_RENAME_INFORMATION_EX: nat := 65
  const FILE_DISPOSITION_INFORMATION: nat := 13
  const FILE_DISPOSITION_INFORMATION_EX: nat := 64

  function Disposition(options: nat): nat
  {
    options / 0x100_0000 % 0x100
  }

  /** The mode that entering acquires. */
  function Acquired(strategy: Strategy, req: Request): Mode
  {
    match strategy
    case Fine =>
      if || (req.Create? && FILE_OPEN != Disposition(req.options))
         || req.Overwrite?
         || (req.Cleanup? && req.delete)
         || (req.SetInformation? &&
            (req.infoClass == FILE_RENAME_INFORMATION || req.infoClass == FILE_RENAME_INFORMATION_EX))
         || req.SetVolumeInformation?
         || (req.FlushBuffers? && 0 == req.context && 0 == req.context2)
      then ExclusiveMode
      else if || req.Create?
              || (req.SetInformation? && (req.infoClass == FILE_DISPOSITION_INFORMATION ||
                                          req.infoClass == FILE_DISPOSITION_INFORMATION_EX))
              || req.QueryDirectory?
              || req.QueryVolumeInformation?
      then SharedMode
      else Unguarded
    case Coarse => ExclusiveMode
  }

  /** The mode that leaving releases, which is decided anew. */
  function Released(strategy: Strategy, req: Request): Mode
  {
    match strategy
    case Fine =>
      if || (req.Create? && FILE_OPEN != Disposition(req.options))
         || req.Overwrite?
         || (req.Cleanup? && req.delete)
         || (req.SetInformation? &&
            (req.infoClass == FILE_RENAME_INFORMATION || req.infoClass == FILE_RENAME_INFORMATION_EX))
         || req.SetVolumeInformation?
         || (req.FlushBuffers? && 0 == req.context && 0 == req.context2)
      then ExclusiveMode
      else if || req.Create?
              || (req.SetInformation? && (req.infoClass == FILE_DISPOSITION_INFORMATION ||
                                          req.infoClass == FILE_DISPOSITION_INFORMATION_EX))
              || req.QueryDirectory?
              || req.QueryVolumeInformation?
      then SharedMode
      else Unguarded
    case Coarse => ExclusiveMode
  }

  // ---------- the documented table ----------

  predicate IsOpen(req: Request)
  {
    req.Create? && Disposition(req.options) == FILE_OPEN
  }

  predicate IsRename(req: Request)
  {
    req.SetInformation? && req.infoClass in {FILE_RENAME_INFORMATION, FILE_RENAME_INFORMATION_EX}
  }

  predicate IsDisposition(req: Request)
  {
    req.SetInformation? && req.infoClass in {FILE_DISPOSITION_INFORMATION, FILE_DISPOSITION_INFORMATION_EX}
  }

  /** Flushing with no file named flushes the volume. */
  predicate IsVolumeFlush(req: Request)
  {
    req == FlushBuffers(0, 0)
  }

  /** The table in the documentation. */
  function Documented(req: Request): Mode
  {
    match req
    case Create(_) => if IsOpen(req) then SharedMode else ExclusiveMode
    case Cleanup(delete) => if delete then ExclusiveMode else Unguarded
    case SetInformation(_) =>
      if IsRename(req) then ExclusiveMode else if IsDisposition(req) then SharedMode else Unguarded
    case SetVolumeInformation => ExclusiveMode
    case FlushBuffers(_, _) => if IsVolumeFlush(req) then ExclusiveMode else Unguarded
    case QueryDirectory => SharedMode
    case QueryVolumeInformation => SharedMode
    case _ => Unguarded
  }

  /** The fine strategy is the documented table except that overwriting is exclusive too. */
  lemma FineIsDocumented(req: Request)
    ensures Acquired(Fine, req) == Documented(req) <==> !req.Overwrite?
    ensures Acquired(Fine, Overwrite) == ExclusiveMode
  {
  }

  /** The table in numbers: option words of 32 bits whose top byte is 1 open a file and share the lock, and of the
      information classes 10 and 65 rename and 13 and 64 delete. */
  lemma TableInNumbers(req: Request)
    ensures Acquired(Coarse, req) == ExclusiveMode
    ensures req.Create? && req.options < 0x1_0000_0000 ==>
              Acquired(Fine, req) == if 0x100_0000 <= req.options < 0x200_0000 then SharedMode else ExclusiveMode
    ensures req.SetInformation? ==>
              (Acquired(Fine, req) == ExclusiveMode <==> req.infoClass == 10 || req.infoClass == 65) &&
              (Acquired(Fine, req) == SharedMode <==> req.infoClass == 13 || req.infoClass == 64)
    ensures req.FlushBuffers? ==>
              Acquired(Fine, req) == if req.context == 0 && req.context2 == 0 then ExclusiveMode else Unguarded
    ensures req.Overwrite? || req.SetVolumeInformation? || req == Cleanup(true) ==> Acquired(Fine, req) == ExclusiveMode
    ensures req.QueryDirectory? || req.QueryVolumeInformation? ==> Acquired(Fine, req) == SharedMode
    ensures req.Other? || req == Cleanup(false) ==> Acquired(Fine, req) == Unguarded
  {
  }

  lemma ReleasedIsAcquired(strategy: Strategy, req: Request)
    ensures Released(strategy, req) == Acquired(strategy, req)
  {
  }

  // ---------- steps ----------

  /** A slim lock does not know its owners: it only counts.  Releasing what is not held breaks it. */
  datatype Lock = Free | Exclusive | Shared(readers: nat) | Broken

  datatype Pc = Idle | Entering(req: Request) | Inside(req: Request)

  datatype State = State(strategy: Strategy, lock: Lock, pcs: map<Thread, Pc>)

  ghost predicate Init(s: State)
  {
    s.lock == Free && forall t :: t in s.pcs ==> s.pcs[t] == Idle
  }

  ghost predicate CanAcquire(lock: Lock, mode: Mode)
  {
    match mode
    case Unguarded => true
    case SharedMode => lock.Free? || lock.Shared?
    case ExclusiveMode => lock.Free?
  }

  function AfterAcquire(lock: Lock, mode: Mode): Lock
  {
    match mode
    case Unguarded => lock
    case SharedMode => Shared(if lock.Shared? then lock.readers + 1 else 1)
    case ExclusiveMode => Exclusive
  }

  function AfterRelease(lock: Lock, mode: Mode): Lock
  {
    match mode
    case Unguarded => lock
    case SharedMode =>
      if !lock.Shared? || lock.readers == 0 then Broken
      else if lock.readers == 1 then Free
      else Shared(lock.readers - 1)
    case ExclusiveMode => if lock.Exclusive? then Free else Broken
  }

  datatype Action = Receive(req: Request) | Enter | Leave

  ghost predicate Step(s: State, t: Thread, a: Action, s': State)
  {
    t in s.pcs &&
    match (a, s.pcs[t])
    case (Receive(req), Idle) => s' == s.(pcs := s.pcs[t := Entering(req)])
    case (Enter, Entering(req)) =>
      var mode := Acquired(s.strategy, req);
      CanAcquire(s.lock, mode) && s' == s.(lock := AfterAcquire(s.lock, mode), pcs := s.pcs[t := Inside(req)])
    case (Leave, Inside(req)) =>
      s' == s.(lock := AfterRelease(s.lock, Released(s.strategy, req)), pcs := s.pcs[t := Idle])
    case _ => false
  }

  ghost predicate CanStep(s: State, s': State)
  {
    exists t, a :: Step(s, t, a, s')
  }

  /** A run of any length, by any threads in any order, under one strategy. */
  ghost predicate Run(states: seq<State>)
  {
    && states != [] && Init(states[0])
    && forall i :: 0 <= i < |states| - 1 ==> CanStep(states[i], states[i + 1])
  }

  // ---------- the invariant ----------

  /** The threads that carry out an operation under the given mode. */
  ghost function Holders(s: State, mode: Mode): set<Thread>
  {
    set t | t in s.pcs && s.pcs[t].Inside? && Acquired(s.strategy, s.pcs[t].req) == mode
  }

  ghost predicate Inv(s: State)
  {
    match s.lock
    case Free => Holders(s, SharedMode) == {} && Holders(s, ExclusiveMode) == {}
    case Exclusive => Holders(s, SharedMode) == {} && |Holders(s, ExclusiveMode)| == 1
    case Shared(readers) => readers > 0 && |Holders(s, SharedMode)| == readers && Holders(s, ExclusiveMode) == {}
    case Broken => false
  }

  lemma StepMovesHolders(s: State, t: Thread, a: Action, s': State, mode: Mode)
    requires Step(s, t, a, s')
    ensures Holders(s', mode) == match a
                                 case Receive(_) => Holders(s, mode)
                                 case Enter => if Acquired(s.strategy, s.pcs[t].req) == mode
                                               then Holders(s, mode) + {t} else Holders(s, mode)
                                 case Leave => Holders(s, mode) - {t}
    ensures t in Holders(s, mode) <==> a.Leave? && Acquired(s.strategy, s.pcs[t].req) == mode
  {
    hide Acquired, Released;
  }

  lemma SingleHolder(holders: set<Thread>, t: Thread)
    requires t in holders && |holders| == 1
    ensures holders == {t}
  {
    assert holders == {t} + (holders - {t});
    assert |holders - {t}| == 0;
  }

  lemma StepKeepsInv(s: State, t: Thread, a: Action, s': State)
    requires Inv(s) && Step(s, t, a, s')
    ensures Inv(s')
  {
    hide Holders, Acquired, Released, Inv;
    if a.Enter? {
      EnterKeepsInv(s, t, s');
    } else if a.Leave? {
      LeaveKeepsInv(s, t, s');
    } else {
      StepMovesHolders(s, t, a, s', SharedMode);
      StepMovesHolders(s, t, a, s', ExclusiveMode);
      SameHolders(s, s');
    }
  }

  lemma SameHolders(s: State, s': State)
    requires Inv(s) && s'.lock == s.lock
    requires Holders(s', SharedMode) == Holders(s, SharedMode) &&
             Holders(s', ExclusiveMode) == Holders(s, ExclusiveMode)
    ensures Inv(s')
  {
    hide Holders;
  }

  lemma EnterKeepsInv(s: State, t: Thread, s': State)
    requires Inv(s) && Step(s, t, Enter, s')
    ensures Inv(s')
  {
    hide Holders, Acquired, Released;
    StepMovesHolders(s, t, Enter, s', SharedMode);
    StepMovesHolders(s, t, Enter, s', ExclusiveMode);
  }

  lemma LeaveKeepsInv(s: State, t: Thread, s': State)
    requires Inv(s) && Step(s, t, Leave, s')
    ensures Inv(s')
  {
    hide Holders, Acquired, Released;
    StepMovesHolders(s, t, Leave, s', SharedMode);
    StepMovesHolders(s, t, Leave, s', ExclusiveMode);
    ReleasedIsAcquired(s.strategy, s.pcs[t].req);
    if s.lock.Exclusive? && t in Holders(s, ExclusiveMode) { SingleHolder(Holders(s, ExclusiveMode), t); }
  }

  lemma {:induction false} RunInv(states: seq<State>, i: nat)
    requires Run(states) && i < |states|
    ensures Inv(states[i])
  {
    if i > 0 {
      RunInv(states, i - 1);
      assert CanStep(states[i - 1], states[i - 1 + 1]);
      hide Step, Inv;
      var t, a :| Step(states[i - 1], t, a, states[i]);
      StepKeepsInv(states[i - 1], t, a, states[i]);
    }
  }

  // ---------- what the guard promises ----------

  /** Two threads carry out operations at the same time only if one of them is unguarded or both are shared. */
  lemma Overlap(states: seq<State>, i: nat, t: Thread, u: Thread)
    requires Run(states) && i < |states| && t in states[i].pcs && u in states[i].pcs && t != u
    requires states[i].pcs[t].Inside? && states[i].pcs[u].Inside?
    ensures var m, n := Acquired(states[i].strategy, states[i].pcs[t].req),
                        Acquired(states[i].strategy, states[i].pcs[u].req);
            m == Unguarded || n == Unguarded || (m == SharedMode && n == SharedMode)
  {
    RunInv(states, i);
    var s := states[i];
    hide Acquired, Run;
    var m, n := Acquired(s.strategy, s.pcs[t].req), Acquired(s.strategy, s.pcs[u].req);
    assert t in Holders(s, m) && u in Holders(s, n);
    if m == ExclusiveMode && n == ExclusiveMode {
      SingleHolder(Holders(s, ExclusiveMode), t);
    }
  }

  /** A thread can enter exactly if no operation under way excludes it: a shared operation waits for exclusive ones
      only, an exclusive one for all that are guarded, and an unguarded one for none. */
  lemma EntersUnlessExcluded(states: seq<State>, i: nat, t: Thread)
    requires Run(states) && i < |states| && t in states[i].pcs && states[i].pcs[t].Entering?
    ensures var s := states[i];
            var mode := Acquired(s.strategy, s.pcs[t].req);
            CanEnter(s, t) <==>
              forall u :: u in s.pcs && s.pcs[u].Inside? ==>
                var other := Acquired(s.strategy, s.pcs[u].req);
                mode == Unguarded || other == Unguarded || (mode == SharedMode && other == SharedMode)
  {
    RunInv(states, i);
    var s := states[i];
    hide Acquired, Run, Released;
    var mode := Acquired(s.strategy, s.pcs[t].req);
    if CanAcquire(s.lock, mode) {
      assert Step(s, t, Enter, s.(lock := AfterAcquire(s.lock, mode), pcs := s.pcs[t := Inside(s.pcs[t].req)]));
    }
    forall u | u in s.pcs && s.pcs[u].Inside? ensures u in Holders(s, Acquired(s.strategy, s.pcs[u].req)) {}
    if s.lock.Exclusive? { var u :| u in Holders(s, ExclusiveMode); }
    if s.lock.Shared? { var u :| u in Holders(s, SharedMode); }
  }

  ghost predicate CanEnter(s: State, t: Thread)
  {
    exists s' :: Step(s, t, Enter, s')
  }

  /** Under the coarse strategy no two operations overlap. */
  lemma CoarseIsMutualExclusion(states: seq<State>, i: nat, t: Thread, u: Thread)
    requires Run(states) && i < |states| && t in states[i].pcs && u in states[i].pcs
    requires states[i].strategy == Coarse && states[i].pcs[t].Inside? && states[i].pcs[u].Inside?
    ensures t == u
  {
    if t != u { Overlap(states, i, t, u); }
  }

  /** Nothing is released that is not held, and when no operation is under way the lock is free. */
  lemma LockIsSound(states: seq<State>, i: nat)
    requires Run(states) && i < |states|
    ensures !states[i].lock.Broken?
    ensures (forall t :: t in states[i].pcs ==> !states[i].pcs[t].Inside?) ==> states[i].lock.Free?
  {
    RunInv(states, i);
  }

  ghost predicate CanGoOn(s: State, t: Thread)
  {
    exists a, s' :: Step(s, t, a, s') && !a.Receive?
  }

  /** While a thread is entering or inside, some thread can go on. */
  lemma NoDeadlock(states: seq<State>, i: nat, t: Thread) returns (u: Thread)
    requires Run(states) && i < |states| && t in states[i].pcs && !states[i].pcs[t].Idle?
    ensures u in states[i].pcs && CanGoOn(states[i], u)
  {
    RunInv(states, i);
    var s := states[i];
    hide Acquired, Released, Run;
    u := t;
    if s.pcs[t].Entering? {
      if s.lock.Free? {
        var req := s.pcs[t].req;
        assert Step(s, t, Enter,
               s.(lock := AfterAcquire(s.lock, Acquired(s.strategy, req)), pcs := s.pcs[t := Inside(req)]));
        return;
      }
      var holders := if s.lock.Exclusive? then Holders(s, ExclusiveMode) else Holders(s, SharedMode);
      assert |holders| > 0;
      u :| u in holders;
    }
    assert Step(s, u, Leave,
           s.(lock := AfterRelease(s.lock, Released(s.strategy, s.pcs[u].req)), pcs := s.pcs[u := Idle]));
  }

  /** The strategy must not change under way: a lone operation gives the lock back exactly if both strategies agree on
      it. */
  lemma StrategyMustStay(before: Strategy, after: Strategy, req: Request)
    ensures AfterRelease(AfterAcquire(Free, Acquired(before, req)), Released(after, req)) == Free
            <==> Acquired(before, req) == Acquired(after, req)
  {
    hide Acquired, Released;
    ReleasedIsAcquired(after, req);
  }
}
