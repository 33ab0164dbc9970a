/** Threads that create, reset, fill, release and read one shared directory buffer, step by step. */
module DirectoryLocking {
  import opened Memory
  import opened FileNames
  import opened RecordPacking
  import opened DirectoryIndex
  import opened DirectoryBuffers

  type Thread = nat
  type BufferId = nat

  datatype Lock = Free | Exclusive(owner: Thread) | Shared(readers: set<Thread>)

  /** A buffer: its lock and what its index denotes. */
  datatype Buffer = Buffer(lock: Lock, listing: seq<Option<Record>>)

  /** Where a thread is. */
  datatype Pc =
    | Idle
    | NoneSeen(reset: bool)                        // acquire: has loaded a null pointer
    | Created(own: BufferId, reset: bool)          // has a new buffer, exclusively locked
    | Creating(own: BufferId, reset: bool)         // holds the create lock as well
    | Lost(own: BufferId, seen: BufferId, reset: bool)  // somebody else was first; own buffer still to be freed
    | Resetting(id: BufferId)                      // acquire: about to lock an existing buffer
    | Filling(id: BufferId)                        // acquired: may fill and invalidate
    | Releasing(id: BufferId)                      // has compacted and sorted, still to unlock
    | Waiting(id: BufferId)                        // read: about to lock
    | Reading(id: BufferId)                        // read: holds the lock shared

  datatype State = State(
    published: Option<BufferId>,
    createLock: Option<Thread>,
    buffers: map<BufferId, Buffer>,
    used: set<BufferId>,                           // identities handed out so far
    pcs: map<Thread, Pc>)

  ghost predicate IsReady(listing: seq<Option<Record>>)
  {
    (forall k :: 0 <= k < |listing| ==> listing[k].Some?) && Ordered(Present(listing))
  }

  ghost predicate Init(s: State)
  {
    && s.published.None? && s.createLock.None? && s.buffers == map[] && s.used == {}
    && forall t :: t in s.pcs ==> s.pcs[t] == Idle
  }

  // ---------- steps ----------

  datatype Action =
    | BeginAcquire(reset: bool)
    | Create(id: BufferId)
    | OutOfMemory
    | LockCreation
    | PublishOrLose
    | DiscardOwn
    | LockForReset
    | Change(listing: seq<Option<Record>>)         // one fill, or one invalidation
    | CompactAndSort(listing: seq<Option<Record>>)
    | Unlock
    | BeginRead
    | LockShared
    | UnlockShared

  function At(s: State, t: Thread, pc: Pc): State
  {
    s.(pcs := s.pcs[t := pc])
  }

  function WithBuffer(s: State, id: BufferId, b: Buffer): State
  {
    s.(buffers := s.buffers[id := b])
  }

  /** Acquire on a pointer that is not null: lock it if it is to be reset, else leave it alone. */
  function Found(s: State, t: Thread, id: BufferId, reset: bool): State
  {
    At(s, t, if reset then Resetting(id) else Idle)
  }

  /** Acquire, up to the point where there is a buffer to use. */
  ghost predicate AcquireStep(s: State, t: Thread, a: Action, s': State)
  {
    t in s.pcs &&
    match (a, s.pcs[t])
    case (BeginAcquire(reset), Idle) =>
      s' == if s.published.None? then At(s, t, NoneSeen(reset)) else Found(s, t, s.published.value, reset)
    case (OutOfMemory, NoneSeen(_)) =>
      s' == At(s, t, Idle)
    case (Create(id), NoneSeen(reset)) =>
      id !in s.used &&
        s' == At(WithBuffer(s, id, Buffer(Exclusive(t), [])), t, Created(id, reset)).(used := s.used + {id})
    case (LockCreation, Created(own, reset)) =>
      s.createLock.None? && s' == At(s, t, Creating(own, reset)).(createLock := Some(t))
    case (PublishOrLose, Creating(own, reset)) =>
      if s.published.None? then s' == At(s, t, Filling(own)).(published := Some(own), createLock := None)
      else s' == At(s, t, Lost(own, s.published.value, reset)).(createLock := None)
    case (DiscardOwn, Lost(own, seen, reset)) =>
      s' == Found(s.(buffers := s.buffers - {own}), t, seen, reset)
    case _ => false
  }

  /** What a thread does that holds a buffer, or is about to, up to its release. */
  ghost predicate HoldStep(s: State, t: Thread, a: Action, s': State)
  {
    t in s.pcs &&
    match (a, s.pcs[t])
    case (LockForReset, Resetting(id)) =>
      id in s.buffers && s.buffers[id].lock.Free? &&
      s' == At(WithBuffer(s, id, Buffer(Exclusive(t), [])), t, Filling(id))
    case (Change(listing), Filling(id)) =>
      id in s.buffers && ChangesTo(s.buffers[id].listing, listing) &&
      s' == WithBuffer(s, id, s.buffers[id].(listing := listing))
    case (CompactAndSort(listing), Filling(id)) =>
      id in s.buffers && IsReady(listing) && multiset(Present(listing)) == multiset(Present(s.buffers[id].listing)) &&
      s' == At(WithBuffer(s, id, s.buffers[id].(listing := listing)), t, Releasing(id))
    case (Unlock, Releasing(id)) =>
      id in s.buffers && s' == At(WithBuffer(s, id, s.buffers[id].(lock := Free)), t, Idle)
    case _ => false
  }

  ghost predicate ReadStep(s: State, t: Thread, a: Action, s': State)
  {
    t in s.pcs &&
    match (a, s.pcs[t])
    case (BeginRead, Idle) =>
      s' == if s.published.None? then s else At(s, t, Waiting(s.published.value))
    case (LockShared, Waiting(id)) =>
      id in s.buffers && !s.buffers[id].lock.Exclusive? &&
      var readers := if s.buffers[id].lock.Shared? then s.buffers[id].lock.readers else {};
      s' == At(WithBuffer(s, id, s.buffers[id].(lock := Shared(readers + {t}))), t, Reading(id))
    case (UnlockShared, Reading(id)) =>
      id in s.buffers && s.buffers[id].lock.Shared? &&
      var readers := s.buffers[id].lock.readers - {t};
      s' == At(WithBuffer(s, id, s.buffers[id].(lock := if readers == {} then Free else Shared(readers))), t, Idle)
    case _ => false
  }

  ghost predicate Step(s: State, t: Thread, a: Action, s': State)
  {
    AcquireStep(s, t, a, s') || HoldStep(s, t, a, s') || ReadStep(s, t, a, s')
  }

  /** One call of fill, which adds a record in front if it succeeds, or one invalidation of an entry. */
  ghost predicate ChangesTo(before: seq<Option<Record>>, after: seq<Option<Record>>)
  {
    || after == before
    || (after != [] && after[0].Some? && after[1..] == before)
    || (exists k :: InvalidatedAt(before, k, after))
  }

  ghost predicate InvalidatedAt(before: seq<Option<Record>>, k: int, after: seq<Option<Record>>)
  {
    0 <= k < |before| && after == before[k := None]
  }

  // ---------- the steps are those of the buffer ----------

  /** A fill is a change, whether it succeeds or not. */
  method FillIsChange(buffer: DirectoryBuffer, dirInfo: Option<Record>, allocate: nat -> bool)
    requires buffer.Valid() && (dirInfo.Some? ==> SelfSized(dirInfo.value) && |dirInfo.value| >= DIR_INFO_SIZE)
    requires forall n: nat :: allocate(n) ==> n <= INT_MAX
    modifies buffer, buffer.buffer
    ensures buffer.Valid() && ChangesTo(old(buffer.Listing()), buffer.Listing())
  {
    hide *;
    ghost var before := buffer.Listing();
    var ok, status := buffer.Fill(dirInfo, allocate);
    OneMore(before, dirInfo, ok);
  }

  lemma OneMore(before: seq<Option<Record>>, dirInfo: Option<Record>, ok: bool)
    requires ok ==> dirInfo.Some?
    ensures ChangesTo(before, if ok then [dirInfo] + before else before)
  {
    assert ([dirInfo] + before)[1..] == before;
  }

  method InvalidateIsChange(buffer: DirectoryBuffer, k: nat)
    requires buffer.Valid() && k < |buffer.Listing()|
    modifies buffer.buffer
    ensures buffer.Valid() && ChangesTo(old(buffer.Listing()), buffer.Listing())
  {
    hide *;
    ghost var before := buffer.Listing();
    buffer.Invalidate(k);
    OneLess(before, k);
  }

  lemma OneLess(before: seq<Option<Record>>, k: nat)
    requires k < |before|
    ensures ChangesTo(before, before[k := None])
  {
    assert InvalidatedAt(before, k, before[k := None]);
  }

  /** A release compacts and sorts. */
  method ReleaseIsCompactAndSort(buffer: DirectoryBuffer)
    requires buffer.Valid()
    modifies buffer`hiMark, buffer.buffer
    ensures buffer.Ready() && IsReady(buffer.Listing())
    ensures multiset(Present(buffer.Listing())) == old(multiset(Present(buffer.Listing())))
  {
    hide *;
    buffer.Release();
    ListingIsReady(buffer);
  }

  /** The listing of a buffer that is ready is what readers may see. */
  lemma ListingIsReady(buffer: DirectoryBuffer)
    requires buffer.Ready()
    ensures IsReady(buffer.Listing())
  {
  }

  ghost predicate CanStep(s: State, s': State)
  {
    exists t, a :: Step(s, t, a, s')
  }

  /** A run of any length, by any threads in any order. */
  ghost predicate Run(states: seq<State>)
  {
    && states != [] && Init(states[0])
    && forall i :: 0 <= i < |states| - 1 ==> CanStep(states[i], states[i + 1])
  }

  // ---------- the invariant ----------

  /** The buffer a thread holds exclusively, if any. */
  function Held(pc: Pc): Option<BufferId>
  {
    match pc
    case Created(own, _) => Some(own)
    case Creating(own, _) => Some(own)
    case Lost(own, _, _) => Some(own)
    case Filling(id) => Some(id)
    case Releasing(id) => Some(id)
    case _ => None
  }

  /** The buffer a thread has found at the published pointer, if any. */
  function Seen(pc: Pc): Option<BufferId>
  {
    match pc
    case Lost(_, seen, _) => Some(seen)
    case Resetting(id) => Some(id)
    case Filling(id) => Some(id)
    case Releasing(id) => Some(id)
    case Waiting(id) => Some(id)
    case Reading(id) => Some(id)
    case _ => None
  }

  predicate Unpublished(pc: Pc)
  {
    pc.Created? || pc.Creating? || pc.Lost?
  }

  ghost predicate ThreadOk(s: State, t: Thread, pc: Pc)
  {
    && (Held(pc).Some? ==> Held(pc).value in s.buffers && s.buffers[Held(pc).value].lock == Exclusive(t))
    && (pc.Created? || pc.Creating? ==> s.buffers[pc.own].listing == [])
    && (Seen(pc).Some? ==> s.published == Seen(pc))
    && (Unpublished(pc) ==> s.published != Held(pc))
    && (pc.Creating? <==> s.createLock == Some(t))
    && (pc.Releasing? ==> IsReady(s.buffers[pc.id].listing))
    && (pc.Reading? ==> pc.id in s.buffers && s.buffers[pc.id].lock.Shared? && t in s.buffers[pc.id].lock.readers)
  }

  ghost predicate BufferOk(s: State, id: BufferId, b: Buffer)
  {
    && id in s.used
    && (!b.lock.Exclusive? ==> IsReady(b.listing) && s.published == Some(id))
    && (b.lock.Exclusive? ==> b.lock.owner in s.pcs && Held(s.pcs[b.lock.owner]) == Some(id))
    && (b.lock.Shared? ==>
          b.lock.readers != {} && forall r :: r in b.lock.readers ==> r in s.pcs && s.pcs[r] == Reading(id))
  }

  ghost predicate Inv(s: State)
  {
    && (forall t :: t in s.pcs ==> ThreadOk(s, t, s.pcs[t]))
    && (forall id :: id in s.buffers ==> BufferOk(s, id, s.buffers[id]))
    && (s.published.Some? ==> s.published.value in s.buffers)
    && (s.createLock.Some? ==> s.createLock.value in s.pcs)
  }

  lemma InitInv(s: State)
    requires Init(s)
    ensures Inv(s)
  {
  }

  lemma FreshIsNew(s: State, id: BufferId)
    requires Inv(s)
    ensures id in s.buffers ==> id in s.used
  {
    if id in s.buffers { assert BufferOk(s, id, s.buffers[id]); }
  }

  lemma ThreadIsOk(s: State, t: Thread)
    requires Inv(s) && t in s.pcs
    ensures ThreadOk(s, t, s.pcs[t])
  {
  }

  lemma PublishedIsThere(s: State)
    requires Inv(s)
    ensures s.published.Some? ==> s.published.value in s.buffers
  {
  }

  lemma AcquireKeepsActor(s: State, t: Thread, a: Action, s': State)
    requires Inv(s) && AcquireStep(s, t, a, s')
    ensures ThreadOk(s', t, s'.pcs[t])
  {
    hide IsReady, Present, ChangesTo, Inv;
    if a.Create? { FreshIsNew(s, a.id); }
    PublishedIsThere(s);
    ThreadIsOk(s, t);
  }

  lemma AcquireKeepsOther(s: State, t: Thread, a: Action, s': State, u: Thread)
    requires Inv(s) && AcquireStep(s, t, a, s') && u in s'.pcs && u != t
    ensures ThreadOk(s', u, s'.pcs[u])
  {
    hide IsReady, Present, ChangesTo, Inv;
    if a.Create? { FreshIsNew(s, a.id); }
    ThreadIsOk(s, t);
    ThreadIsOk(s, u);
    assert s'.pcs[u] == s.pcs[u];
  }

  lemma OwnKeepsBuffer(s: State, t: Thread, a: Action, s': State, id: BufferId)
    requires Inv(s) && AcquireStep(s, t, a, s') && id in s'.buffers && (a.Create? || a.DiscardOwn?)
    ensures BufferOk(s', id, s'.buffers[id])
  {
    hide Present, ChangesTo, IsReady;
    assert ThreadOk(s, t, s.pcs[t]);
    if id in s.buffers { assert BufferOk(s, id, s.buffers[id]); }
  }

  lemma PublishKeepsBuffer(s: State, t: Thread, a: Action, s': State, id: BufferId)
    requires Inv(s) && AcquireStep(s, t, a, s') && id in s'.buffers && (a.LockCreation? || a.PublishOrLose?)
    ensures BufferOk(s', id, s'.buffers[id])
  {
    hide Present, ChangesTo, IsReady;
    assert ThreadOk(s, t, s.pcs[t]) && BufferOk(s, id, s.buffers[id]);
  }

  lemma AcquireKeepsBuffer(s: State, t: Thread, a: Action, s': State, id: BufferId)
    requires Inv(s) && AcquireStep(s, t, a, s') && id in s'.buffers
    ensures BufferOk(s', id, s'.buffers[id])
  {
    hide Present, ChangesTo, IsReady;
    if a.Create? || a.DiscardOwn? {
      OwnKeepsBuffer(s, t, a, s', id);
    } else if a.LockCreation? || a.PublishOrLose? {
      PublishKeepsBuffer(s, t, a, s', id);
    } else {
      assert BufferOk(s, id, s.buffers[id]);
    }
  }

  lemma AcquireKeepsGlobals(s: State, t: Thread, a: Action, s': State)
    requires Inv(s) && AcquireStep(s, t, a, s')
    ensures (s'.published.Some? ==> s'.published.value in s'.buffers) &&
            (s'.createLock.Some? ==> s'.createLock.value in s'.pcs)
  {
    hide IsReady, Present, ChangesTo, BufferOk;
    assert ThreadOk(s, t, s.pcs[t]);
  }

  lemma HoldKeepsActor(s: State, t: Thread, a: Action, s': State)
    requires Inv(s) && HoldStep(s, t, a, s')
    ensures ThreadOk(s', t, s'.pcs[t])
  {
    hide IsReady, Present, ChangesTo, BufferOk;
    assert ThreadOk(s, t, s.pcs[t]);
  }

  lemma HoldKeepsOther(s: State, t: Thread, a: Action, s': State, u: Thread)
    requires Inv(s) && HoldStep(s, t, a, s') && u in s'.pcs && u != t
    ensures ThreadOk(s', u, s'.pcs[u])
  {
    hide IsReady, Present, ChangesTo, BufferOk;
    assert ThreadOk(s, t, s.pcs[t]) && ThreadOk(s, u, s.pcs[u]) && s'.pcs[u] == s.pcs[u];
  }

  lemma HoldKeepsBuffer(s: State, t: Thread, a: Action, s': State, id: BufferId)
    requires Inv(s) && HoldStep(s, t, a, s') && id in s'.buffers
    ensures BufferOk(s', id, s'.buffers[id])
  {
    hide Present, ChangesTo, IsReady;
    assert ThreadOk(s, t, s.pcs[t]);
    if id in s.buffers { assert BufferOk(s, id, s.buffers[id]); }
  }

  lemma HoldKeepsGlobals(s: State, t: Thread, a: Action, s': State)
    requires Inv(s) && HoldStep(s, t, a, s')
    ensures (s'.published.Some? ==> s'.published.value in s'.buffers) &&
            (s'.createLock.Some? ==> s'.createLock.value in s'.pcs)
  {
    hide IsReady, Present, ChangesTo, BufferOk;
    assert ThreadOk(s, t, s.pcs[t]);
  }

  lemma ReadKeepsActor(s: State, t: Thread, a: Action, s': State)
    requires Inv(s) && ReadStep(s, t, a, s')
    ensures ThreadOk(s', t, s'.pcs[t])
  {
    hide IsReady, Present, ChangesTo, BufferOk;
    assert ThreadOk(s, t, s.pcs[t]);
  }

  lemma ReadKeepsOther(s: State, t: Thread, a: Action, s': State, u: Thread)
    requires Inv(s) && ReadStep(s, t, a, s') && u in s'.pcs && u != t
    ensures ThreadOk(s', u, s'.pcs[u])
  {
    hide IsReady, Present, ChangesTo, BufferOk;
    assert ThreadOk(s, t, s.pcs[t]) && ThreadOk(s, u, s.pcs[u]) && s'.pcs[u] == s.pcs[u];
  }

  lemma LockKeepsBuffer(s: State, t: Thread, s': State, id: BufferId)
    requires Inv(s) && ReadStep(s, t, LockShared, s') && id in s'.buffers
    ensures BufferOk(s', id, s'.buffers[id])
  {
    hide Present, ChangesTo, IsReady;
    assert ThreadOk(s, t, s.pcs[t]) && BufferOk(s, id, s.buffers[id]);
  }

  lemma UnlockKeepsBuffer(s: State, t: Thread, s': State, id: BufferId)
    requires Inv(s) && ReadStep(s, t, UnlockShared, s') && id in s'.buffers
    ensures BufferOk(s', id, s'.buffers[id])
  {
    hide Present, ChangesTo, IsReady;
    assert ThreadOk(s, t, s.pcs[t]) && BufferOk(s, id, s.buffers[id]);
  }

  lemma ReadKeepsBuffer(s: State, t: Thread, a: Action, s': State, id: BufferId)
    requires Inv(s) && ReadStep(s, t, a, s') && id in s'.buffers
    ensures BufferOk(s', id, s'.buffers[id])
  {
    hide Present, ChangesTo, IsReady;
    if a.LockShared? {
      LockKeepsBuffer(s, t, s', id);
    } else if a.UnlockShared? {
      UnlockKeepsBuffer(s, t, s', id);
    } else {
      assert BufferOk(s, id, s.buffers[id]);
    }
  }

  lemma ReadKeepsGlobals(s: State, t: Thread, a: Action, s': State)
    requires Inv(s) && ReadStep(s, t, a, s')
    ensures (s'.published.Some? ==> s'.published.value in s'.buffers) &&
            (s'.createLock.Some? ==> s'.createLock.value in s'.pcs)
  {
    hide IsReady, Present, ChangesTo, BufferOk;
    assert ThreadOk(s, t, s.pcs[t]);
  }

  lemma StepKeepsThread(s: State, t: Thread, a: Action, s': State, u: Thread)
    requires Inv(s) && Step(s, t, a, s') && u in s'.pcs
    ensures ThreadOk(s', u, s'.pcs[u])
  {
    hide Inv, AcquireStep, HoldStep, ReadStep, ThreadOk;
    if AcquireStep(s, t, a, s') {
      if u == t { AcquireKeepsActor(s, t, a, s'); } else { AcquireKeepsOther(s, t, a, s', u); }
    } else if HoldStep(s, t, a, s') {
      if u == t { HoldKeepsActor(s, t, a, s'); } else { HoldKeepsOther(s, t, a, s', u); }
    } else {
      if u == t { ReadKeepsActor(s, t, a, s'); } else { ReadKeepsOther(s, t, a, s', u); }
    }
  }

  lemma StepKeepsBuffer(s: State, t: Thread, a: Action, s': State, id: BufferId)
    requires Inv(s) && Step(s, t, a, s') && id in s'.buffers
    ensures BufferOk(s', id, s'.buffers[id])
  {
    hide Inv, AcquireStep, HoldStep, ReadStep, BufferOk;
    if AcquireStep(s, t, a, s') { AcquireKeepsBuffer(s, t, a, s', id); }
    else if HoldStep(s, t, a, s') { HoldKeepsBuffer(s, t, a, s', id); }
    else { ReadKeepsBuffer(s, t, a, s', id); }
  }

  lemma StepKeepsInv(s: State, t: Thread, a: Action, s': State)
    requires Inv(s) && Step(s, t, a, s')
    ensures Inv(s')
  {
    hide AcquireStep, HoldStep, ReadStep, ThreadOk, BufferOk;
    forall u | u in s'.pcs ensures ThreadOk(s', u, s'.pcs[u]) { StepKeepsThread(s, t, a, s', u); }
    forall id | id in s'.buffers ensures BufferOk(s', id, s'.buffers[id]) { StepKeepsBuffer(s, t, a, s', id); }
    if AcquireStep(s, t, a, s') { AcquireKeepsGlobals(s, t, a, s'); }
    else if HoldStep(s, t, a, s') { HoldKeepsGlobals(s, t, a, s'); }
    else { ReadKeepsGlobals(s, t, a, s'); }
  }

  lemma {:induction false} RunInv(states: seq<State>, i: nat)
    requires Run(states) && i < |states|
    ensures Inv(states[i])
  {
    if i == 0 {
      InitInv(states[0]);
    } else {
      RunInv(states, i - 1);
      assert CanStep(states[i - 1], states[i - 1 + 1]);
      var t, a :| Step(states[i - 1], t, a, states[i]);
      StepKeepsInv(states[i - 1], t, a, states[i]);
    }
  }

  // ---------- what the protocol promises ----------

  /** At most one buffer is ever published: once there, it stays. */
  lemma {:induction false} PublishedOnce(states: seq<State>, i: nat, j: nat)
    requires Run(states) && i <= j < |states| && states[i].published.Some?
    ensures states[j].published == states[i].published
  {
    if i < j {
      PublishedOnce(states, i, j - 1);
      assert CanStep(states[j - 1], states[j - 1 + 1]);
      var t, a :| Step(states[j - 1], t, a, states[j]);
      hide Present, ChangesTo, IsReady;
    }
  }

  /** A buffer is exclusively locked by the thread that publishes it, which may fill it at once. */
  lemma PublishedLocked(states: seq<State>, i: nat)
    requires Run(states) && i + 1 < |states|
    requires states[i].published.None? && states[i + 1].published.Some?
    ensures var s, id := states[i + 1], states[i + 1].published.value;
            id in s.buffers && exists t :: t in s.pcs && s.buffers[id].lock == Exclusive(t) && s.pcs[t] == Filling(id)
  {
    RunInv(states, i + 1);
    assert CanStep(states[i], states[i + 1]);
    hide Step;
    var t, a :| Step(states[i], t, a, states[i + 1]);
    WhoPublishes(states[i], t, a, states[i + 1]);
    hide Present, ChangesTo, IsReady, BufferOk;
    assert ThreadOk(states[i + 1], t, states[i + 1].pcs[t]);
  }

  lemma WhoPublishes(s: State, t: Thread, a: Action, s': State)
    requires Step(s, t, a, s') && s.published.None? && s'.published.Some?
    ensures t in s'.pcs && s'.pcs[t] == Filling(s'.published.value)
  {
    hide Present, ChangesTo, IsReady;
  }

  // ---------- which acquires succeed ----------

  /** A thread is in the middle of an acquire that was called with `reset`. */
  predicate InAcquire(pc: Pc, reset: bool)
  {
    match pc
    case NoneSeen(b) => b == reset
    case Created(_, b) => b == reset
    case Creating(_, b) => b == reset
    case Lost(_, _, b) => b == reset
    case Resetting(_) => reset
    case _ => false
  }

  /** How a step of an acquire that ends it does so: with the buffer, empty and locked, if it is to be reset or was not
      there before; without one if it is not to be reset, or if there is no memory. */
  ghost predicate EndsAcquire(s: State, t: Thread, reset: bool, a: Action, s': State)
  {
    t in s'.pcs && match s'.pcs[t]
                   case Filling(id) =>
                     && s'.published == Some(id) && id in s'.buffers && s'.buffers[id] == Buffer(Exclusive(t), [])
                     && (reset || s.published.None?)
                   case Idle => a.OutOfMemory? || (!reset && s.published.Some?)
                   case _ => false
  }

  predicate AtAcquire(pc: Pc, reset: bool, a: Action)
  {
    InAcquire(pc, reset) || (pc == Idle && a == BeginAcquire(reset))
  }

  lemma AcquireMoves(s: State, t: Thread, reset: bool, a: Action, s': State)
    requires t in s.pcs && AtAcquire(s.pcs[t], reset, a) && Inv(s) && Step(s, t, a, s')
    ensures t in s'.pcs && (InAcquire(s'.pcs[t], reset) || EndsAcquire(s, t, reset, a, s'))
  {
    OnlyAcquires(s, t, reset, a, s');
    ThreadIsOk(s, t);
    hide IsReady, Present, ChangesTo, Inv, HoldStep, ReadStep, Step;
    if a.LockForReset? { LocksForReset(s, t, a, s'); }
  }

  /** It leaves every buffer alone but the one it makes, and, if it is to reset it, the one it finds. */
  lemma AcquireLeavesAlone(s: State, t: Thread, reset: bool, a: Action, s': State, id: BufferId)
    requires t in s.pcs && AtAcquire(s.pcs[t], reset, a) && Inv(s) && Step(s, t, a, s')
    requires id in s.buffers && Held(s.pcs[t]) != Some(id) && (reset ==> s.published != Some(id))
    ensures id in s'.buffers && s'.buffers[id] == s.buffers[id]
  {
    OnlyAcquires(s, t, reset, a, s');
    ThreadIsOk(s, t);
    hide IsReady, Present, ChangesTo, Inv, HoldStep, ReadStep, Step;
    if a.Create? { FreshIsNew(s, a.id); }
    if a.LockForReset? { LocksForReset(s, t, a, s'); }
  }

  lemma OnlyAcquires(s: State, t: Thread, reset: bool, a: Action, s': State)
    requires t in s.pcs && AtAcquire(s.pcs[t], reset, a) && Step(s, t, a, s')
    ensures if a.LockForReset? then HoldStep(s, t, a, s') && s.pcs[t].Resetting? else AcquireStep(s, t, a, s')
  {
    hide IsReady, Present, ChangesTo;
  }

  lemma LocksForReset(s: State, t: Thread, a: Action, s': State)
    requires t in s.pcs && s.pcs[t].Resetting? && a.LockForReset? && HoldStep(s, t, a, s')
    ensures var id := s.pcs[t].id; s' == At(WithBuffer(s, id, Buffer(Exclusive(t), [])), t, Filling(id))
  {
    hide IsReady, Present, ChangesTo;
  }

  lemma OthersStay(s: State, u: Thread, a: Action, s': State, t: Thread)
    requires Step(s, u, a, s') && t != u && t in s.pcs
    ensures t in s'.pcs && s'.pcs[t] == s.pcs[t]
  {
    hide IsReady, Present, ChangesTo;
  }

  lemma StepOfRun(states: seq<State>, j: nat)
    requires Run(states) && 0 < j < |states|
    ensures CanStep(states[j - 1], states[j])
  {
    hide CanStep, Init;
    assert CanStep(states[j - 1], states[j - 1 + 1]);
  }

  lemma StepIsTaken(s: State, s': State) returns (t: Thread, a: Action)
    requires CanStep(s, s')
    ensures Step(s, t, a, s')
  {
    hide Step;
    t, a :| Step(s, t, a, s');
  }

  /** Every acquire that comes to an end in a run ends so: one that is to reset the buffer gets it, unless there is no
      memory for the first one, and one that is not gets it only if it has published it itself. */
  lemma AcquireEnds(states: seq<State>, i: nat, j: nat, t: Thread, reset: bool) returns (a: Action)
    requires Run(states) && i < j < |states| && t in states[i].pcs && states[i].pcs[t] == Idle
    requires Step(states[i], t, BeginAcquire(reset), states[i + 1])
    requires forall k :: i < k < j ==> t in states[k].pcs && InAcquire(states[k].pcs[t], reset)
    requires t in states[j].pcs && !InAcquire(states[j].pcs[t], reset)
    ensures Step(states[j - 1], t, a, states[j]) && EndsAcquire(states[j - 1], t, reset, a, states[j])
    ensures states[j].pcs[t].Filling? || states[j].pcs[t] == Idle
  {
    hide Step, Inv, Run, CanStep, EndsAcquire;
    RunInv(states, j - 1);
    StepOfRun(states, j);
    if i == j - 1 {
      a := BeginAcquire(reset);
    } else {
      var u, b := StepIsTaken(states[j - 1], states[j]);
      if u != t { OthersStay(states[j - 1], u, b, states[j], t); }
      a := b;
    }
    AcquireMoves(states[j - 1], t, reset, a, states[j]);
    EndedIs(states[j - 1], t, reset, a, states[j]);
  }

  lemma EndedIs(s: State, t: Thread, reset: bool, a: Action, s': State)
    requires EndsAcquire(s, t, reset, a, s')
    ensures t in s'.pcs && (s'.pcs[t].Filling? || s'.pcs[t] == Idle)
  {
  }

  // ---------- what readers see ----------

  /** What a step makes of a listing: only the thread that holds the buffer exclusively changes it, and a release keeps
      its records. */
  lemma ListingMoves(s: State, t: Thread, a: Action, s': State, id: BufferId)
    requires Inv(s) && Step(s, t, a, s') && id in s.buffers && id in s'.buffers
    ensures var was, now := s.buffers[id].listing, s'.buffers[id].listing;
            if a.Change? && s.pcs[t] == Filling(id) then ChangesTo(was, now)
            else if a.CompactAndSort? && s.pcs[t] == Filling(id) then
              IsReady(now) && multiset(Present(now)) == multiset(Present(was))
            else if a.LockForReset? && s.pcs[t] == Resetting(id) then s.buffers[id].lock.Free? && now == []
            else now == was
    ensures s.pcs[t] == Filling(id) ==> s.buffers[id].lock == Exclusive(t)
  {
    hide IsReady, Present, ChangesTo, BufferOk;
    assert ThreadOk(s, t, s.pcs[t]);
    if a.Create? { FreshIsNew(s, a.id); }
  }

  /** From one state of a run to another, while a thread reads, the listing that it reads stays as it is. */
  lemma {:induction false} ReadIsStable(states: seq<State>, i: nat, j: nat, t: Thread, id: BufferId)
    requires Run(states) && i <= j < |states|
    requires forall k :: i <= k <= j ==> t in states[k].pcs && states[k].pcs[t] == Reading(id)
    ensures id in states[i].buffers && id in states[j].buffers
    ensures states[j].buffers[id].listing == states[i].buffers[id].listing && IsReady(states[i].buffers[id].listing)
    decreases j
  {
    hide Run, Inv, Step, CanStep, Present, ChangesTo, IsReady;
    RunInv(states, j);
    ThreadIsOk(states[j], t);
    ReadersSeeSorted(states, j, id);
    if i < j {
      ReadIsStable(states, i, j - 1, t, id);
      RunInv(states, j - 1);
      ThreadIsOk(states[j - 1], t);
      StepOfRun(states, j);
      var u, a := StepIsTaken(states[j - 1], states[j]);
      ListingMoves(states[j - 1], u, a, states[j], id);
    }
  }

  /** A thread that waits to read gets the lock exactly if nobody holds it exclusively: readers share it. */
  lemma ReadersShare(s: State, t: Thread, id: BufferId)
    requires t in s.pcs && s.pcs[t] == Waiting(id) && id in s.buffers
    ensures (exists s' :: Step(s, t, LockShared, s')) <==> !s.buffers[id].lock.Exclusive?
  {
    hide IsReady, Present, ChangesTo;
    var readers := if s.buffers[id].lock.Shared? then s.buffers[id].lock.readers else {};
    if !s.buffers[id].lock.Exclusive? {
      var s' := At(WithBuffer(s, id, s.buffers[id].(lock := Shared(readers + {t}))), t, Reading(id));
      assert Step(s, t, LockShared, s');
    }
  }

  /** Whenever a shared lock can be taken, or is held, the index is compacted and sorted. */
  lemma ReadersSeeSorted(states: seq<State>, i: nat, id: BufferId)
    requires Run(states) && i < |states| && id in states[i].buffers && !states[i].buffers[id].lock.Exclusive?
    ensures IsReady(states[i].buffers[id].listing)
    ensures var listing := states[i].buffers[id].listing;
            (forall k :: 0 <= k < |listing| ==> listing[k].Some?) && Ordered(Present(listing))
  {
    RunInv(states, i);
    assert BufferOk(states[i], id, states[i].buffers[id]);
  }

  /** While a thread reads nobody fills or resets, and while a thread fills nobody else does and nobody reads. */
  lemma WritersExclude(states: seq<State>, i: nat, t: Thread, u: Thread)
    requires Run(states) && i < |states| && t in states[i].pcs && u in states[i].pcs && t != u
    requires states[i].pcs[t].Filling? || states[i].pcs[t].Releasing?
    ensures !states[i].pcs[u].Filling? && !states[i].pcs[u].Releasing? && !states[i].pcs[u].Reading?
  {
    RunInv(states, i);
    assert ThreadOk(states[i], t, states[i].pcs[t]) && ThreadOk(states[i], u, states[i].pcs[u]);
  }

  /** A buffer that a thread refers to is there, so the loser of a race frees nobody else's buffer. */
  lemma NoDanglingBuffer(states: seq<State>, i: nat, t: Thread)
    requires Run(states) && i < |states| && t in states[i].pcs
    ensures Held(states[i].pcs[t]).Some? ==> Held(states[i].pcs[t]).value in states[i].buffers
    ensures Seen(states[i].pcs[t]).Some? ==> Seen(states[i].pcs[t]).value in states[i].buffers
  {
    RunInv(states, i);
    assert ThreadOk(states[i], t, states[i].pcs[t]);
  }

  // ---------- nobody waits forever for nothing ----------

  function Inserted(r: Record, recs: seq<Record>): seq<Record>
  {
    if recs == [] || !NameLess(NameIn(recs[0]), NameIn(r)) then [r] + recs else [recs[0]] + Inserted(r, recs[1..])
  }

  lemma {:induction false} InsertedIs(r: Record, recs: seq<Record>)
    ensures multiset(Inserted(r, recs)) == multiset{r} + multiset(recs)
  {
    hide NameLess, NameIn;
    if recs != [] && NameLess(NameIn(recs[0]), NameIn(r)) {
      InsertedIs(r, recs[1..]);
      assert recs == [recs[0]] + recs[1..];
    }
  }

  lemma {:induction false} InsertedOrdered(r: Record, recs: seq<Record>)
    requires Ordered(recs)
    ensures Ordered(Inserted(r, recs))
  {
    hide NameLess, NameIn;
    NamesAreTotal(NameIn(r), NameIn(r));
    if recs != [] {
      NamesAreTotal(NameIn(recs[0]), NameIn(r));
      if NameLess(NameIn(recs[0]), NameIn(r)) {
        var t := Inserted(r, recs[1..]);
        InsertedOrdered(r, recs[1..]);
        InsertedIs(r, recs[1..]);
        forall b | 0 <= b < |t| ensures !NameLess(NameIn(t[b]), NameIn(recs[0])) {
          assert t[b] in multiset(t);
          assert t[b] == r || t[b] in recs[1..];
        }
      } else {
        forall b | 0 <= b < |recs| ensures !NameLess(NameIn(recs[b]), NameIn(r)) {
          if b > 0 { NamesAreTransitive(NameIn(r), NameIn(recs[0]), NameIn(recs[b])); }
        }
      }
    }
  }

  /** A listing of nothing but the given records. */
  function Whole(recs: seq<Record>): seq<Option<Record>>
  {
    seq(|recs|, k requires 0 <= k < |recs| => Some(recs[k]))
  }

  lemma WholeIs(recs: seq<Record>)
    ensures Present(Whole(recs)) == recs && (Ordered(recs) ==> IsReady(Whole(recs)))
  {
    hide Ordered;
    PresentOfWhole(Whole(recs));
  }

  lemma PresentOfFirst(listing: seq<Option<Record>>)
    requires listing != []
    ensures Present(listing) == (if listing[0].Some? then [listing[0].value] else []) + Present(listing[1..])
  {
  }

  lemma NothingIsReady()
    ensures IsReady([]) && Present<Record>([]) == []
  {
  }

  lemma ReadyIsOrdered(listing: seq<Option<Record>>)
    requires IsReady(listing)
    ensures Ordered(Present(listing))
  {
  }

  /** Every listing has a sorted form, so a release can always be carried out. */
  lemma {:induction false} SortedFormExists(listing: seq<Option<Record>>) returns (sorted: seq<Option<Record>>)
    ensures IsReady(sorted) && multiset(Present(sorted)) == multiset(Present(listing))
  {
    hide *;
    if listing == [] {
      sorted := [];
      NothingIsReady();
    } else {
      sorted := SortedFormExists(listing[1..]);
      PresentOfFirst(listing);
      if listing[0].Some? {
        var r, recs := listing[0].value, Present(sorted);
        ReadyIsOrdered(sorted);
        InsertedOrdered(r, recs);
        InsertedIs(r, recs);
        sorted := Whole(Inserted(r, recs));
        WholeIs(Inserted(r, recs));
      }
    }
  }

  /** A thread can take a step that leads out of its call. */
  ghost predicate CanGoOn(s: State, t: Thread)
  {
    exists a, s' :: Step(s, t, a, s') && !a.BeginAcquire? && !a.BeginRead? && !a.Change?
  }

  lemma HolderGoesOn(s: State, u: Thread)
    requires Inv(s) && u in s.pcs && (s.pcs[u].Filling? || s.pcs[u].Releasing?)
    ensures CanGoOn(s, u)
  {
    ThreadIsOk(s, u);
    hide Inv, IsReady, Present, ChangesTo, Step, CanGoOn;
    var id := s.pcs[u].id;
    if s.pcs[u].Filling? {
      var sorted := SortedFormExists(s.buffers[id].listing);
      FillerGoesOn(s, u, id, sorted);
    } else {
      ReleaserGoesOn(s, u, id);
    }
  }

  lemma FillerGoesOn(s: State, u: Thread, id: BufferId, sorted: seq<Option<Record>>)
    requires u in s.pcs && s.pcs[u] == Filling(id) && id in s.buffers && IsReady(sorted)
    requires multiset(Present(sorted)) == multiset(Present(s.buffers[id].listing))
    ensures CanGoOn(s, u)
  {
    hide IsReady, Present, ChangesTo;
    assert Step(s, u, CompactAndSort(sorted),
           At(WithBuffer(s, id, s.buffers[id].(listing := sorted)), u, Releasing(id)));
  }

  lemma ReleaserGoesOn(s: State, u: Thread, id: BufferId)
    requires u in s.pcs && s.pcs[u] == Releasing(id) && id in s.buffers
    ensures CanGoOn(s, u)
  {
    hide IsReady, Present, ChangesTo;
    assert Step(s, u, Unlock, At(WithBuffer(s, id, s.buffers[id].(lock := Free)), u, Idle));
  }

  lemma ReadersGoOn(s: State, id: BufferId, readers: set<Thread>) returns (u: Thread)
    requires Inv(s) && id in s.buffers && s.buffers[id].lock == Shared(readers)
    ensures u in s.pcs && CanGoOn(s, u)
  {
    hide IsReady, Present, AcquireStep, HoldStep, ThreadOk;
    assert BufferOk(s, id, s.buffers[id]);
    u :| u in readers;
    var rest := readers - {u};
    var s' := At(WithBuffer(s, id, s.buffers[id].(lock := if rest == {} then Free else Shared(rest))), u, Idle);
    assert Step(s, u, UnlockShared, s');
  }

  lemma FreeGoesOn(s: State, t: Thread, id: BufferId)
    requires t in s.pcs && (s.pcs[t] == Resetting(id) || s.pcs[t] == Waiting(id)) && id in s.buffers &&
             s.buffers[id].lock.Free?
    ensures CanGoOn(s, t)
  {
    hide IsReady, Present, AcquireStep;
    if s.pcs[t].Resetting? {
      assert Step(s, t, LockForReset, At(WithBuffer(s, id, Buffer(Exclusive(t), [])), t, Filling(id)));
    } else {
      var s' := At(WithBuffer(s, id, s.buffers[id].(lock := Shared({} + {t}))), t, Reading(id));
      assert ReadStep(s, t, LockShared, s');
      assert Step(s, t, LockShared, s');
    }
  }

  /** Of the threads that hold or wait for the published buffer, one can go on. */
  lemma BufferGoesOn(s: State, t: Thread, id: BufferId) returns (u: Thread)
    requires Inv(s) && t in s.pcs && (s.pcs[t] == Resetting(id) || s.pcs[t] == Waiting(id) || s.pcs[t] == Reading(id))
    ensures u in s.pcs && CanGoOn(s, u)
  {
    hide IsReady, Present, CanGoOn;
    assert ThreadOk(s, t, s.pcs[t]) && BufferOk(s, id, s.buffers[id]);
    match s.buffers[id].lock
    case Exclusive(owner) =>
      u := owner;
      assert ThreadOk(s, u, s.pcs[u]);
      HolderGoesOn(s, u);
    case Shared(readers) =>
      u := ReadersGoOn(s, id, readers);
    case Free =>
      u := t;
      FreeGoesOn(s, t, id);
  }

  lemma CreatorGoesOn(s: State, t: Thread) returns (u: Thread)
    requires Inv(s) && t in s.pcs && (s.pcs[t].NoneSeen? || Unpublished(s.pcs[t]))
    ensures u in s.pcs && CanGoOn(s, u)
  {
    hide IsReady, Present;
    u := t;
    match s.pcs[t]
    case NoneSeen(_) =>
      assert Step(s, t, OutOfMemory, At(s, t, Idle));
    case Lost(own, seen, reset) =>
      assert Step(s, t, DiscardOwn, Found(s.(buffers := s.buffers - {own}), t, seen, reset));
    case Created(own, reset) =>
      if s.createLock.None? {
        assert Step(s, t, LockCreation, At(s, t, Creating(own, reset)).(createLock := Some(t)));
      } else {
        u := s.createLock.value;
        assert ThreadOk(s, u, s.pcs[u]);
        PublisherGoesOn(s, u);
      }
    case Creating(_, _) =>
      PublisherGoesOn(s, u);
  }

  lemma PublisherGoesOn(s: State, u: Thread)
    requires u in s.pcs && s.pcs[u].Creating?
    ensures CanGoOn(s, u)
  {
    var own, reset := s.pcs[u].own, s.pcs[u].reset;
    assert Step(s, u, PublishOrLose,
                if s.published.None? then At(s, u, Filling(own)).(published := Some(own), createLock := None)
                else At(s, u, Lost(own, s.published.value, reset)).(createLock := None));
  }

  /** While a thread is in the middle of a call, some thread can go on with its own: the locks cannot deadlock. */
  lemma NoDeadlock(states: seq<State>, i: nat, t: Thread) returns (u: Thread)
    requires Run(states) && i < |states| && t in states[i].pcs && !states[i].pcs[t].Idle?
    ensures u in states[i].pcs && CanGoOn(states[i], u)
  {
    var s := states[i];
    RunInv(states, i);
    hide Inv, CanGoOn, Run;
    match s.pcs[t]
    case Resetting(id) => u := BufferGoesOn(s, t, id);
    case Waiting(id) => u := BufferGoesOn(s, t, id);
    case Reading(id) => u := BufferGoesOn(s, t, id);
    case Filling(_) => u := t; HolderGoesOn(s, t);
    case Releasing(_) => u := t; HolderGoesOn(s, t);
    case _ => u := CreatorGoesOn(s, t);
  }
}
