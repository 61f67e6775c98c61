/** Workspace leases (reflectlog/infrastructure/storage_coordinator.py): a re-entrant
    reader/writer lock inside each coordinator instance over one OS file lock that all
    instances share. */
module StorageCoordinator {
  import opened Common

  // `Attempt` is one pass through the wait loop of `acquire`, `Drop` the release callback.
  // `LeaseState` performs both in place; the step system below lets any number of threads
  // and instances interleave them.

  datatype Thread = Thread(ident: nat)
  datatype Instance = Instance(n: nat)
  datatype Mode = Shared | Exclusive

  /** `drop_shared` removes a holder at zero, so every stored count is positive and
      the shared depth is positive exactly when there is a holder. */
  type Count = n: nat | n > 0 witness 1

  /** `_WorkspaceLeaseState`. */
  datatype State = State(
    osLock: Option<Mode>, exclusiveDepth: nat, exclusiveOwner: Option<Thread>, sharedHolders: map<Thread, Count>)

  const Idle := State(None, 0, None, map[])

  /** The lock file: who holds it and how (portalocker, LOCK_NB). */
  type OsLock = map<Instance, Mode>

  predicate OsGrants(os: OsLock, me: Instance, mode: Mode) {
    if mode.Exclusive? then os.Keys <= {me} else forall i :: i in os && i != me ==> os[i].Shared?
  }

  datatype Verdict = Granted | Waits | LockTimeout

  predicate OwnsExclusive(s: State, owner: Thread) {
    s.exclusiveDepth > 0 && s.exclusiveOwner == Some(owner)
  }

  /** A SHARED-only owner asking for EXCLUSIVE is refused before it ever waits. */
  predicate UpgradeForbidden(s: State, owner: Thread, mode: Mode) {
    mode.Exclusive? && owner in s.sharedHolders && !OwnsExclusive(s, owner)
  }

  function SharedCount(state: State, t: Thread): nat {
    if t in state.sharedHolders then state.sharedHolders[t] else 0
  }

  function AddShared(s: State, owner: Thread): State {
    s.(sharedHolders := s.sharedHolders[owner := SharedCount(s, owner) + 1])
  }

  function DropShared(s: State, owner: Thread): State {
    var held: int := SharedCount(s, owner);
    var remaining: int := held - 1;
    if remaining <= 0 then s.(sharedHolders := s.sharedHolders - {owner})
    else s.(sharedHolders := s.sharedHolders[owner := remaining])
  }

  /** What one pass decides, without the OS lock: grant at once, wait, or ask the OS. */
  datatype Pass = Nested(s: State) | Blocked | NeedsOs(s: State)

  function OnePass(s: State, owner: Thread, mode: Mode): Pass {
    if mode.Exclusive? then
      if OwnsExclusive(s, owner) then Nested(s.(exclusiveDepth := s.exclusiveDepth + 1))
      else if s.exclusiveDepth > 0 then Blocked
      else if exists t :: t in s.sharedHolders && t != owner then Blocked
      else
        var granted := s.(exclusiveDepth := 1, exclusiveOwner := Some(owner));
        if s.osLock.None? then NeedsOs(granted.(osLock := Some(Exclusive))) else Nested(granted)
    else if s.exclusiveDepth > 0 then
      if s.exclusiveOwner == Some(owner) then Nested(AddShared(s, owner)) else Blocked
    else if s.sharedHolders != map[] && s.osLock.Some? then Nested(AddShared(s, owner))
    else NeedsOs(AddShared(s, owner).(osLock := Some(Shared)))
  }

  /** One pass including `_take_os_lock`; a lock that cannot be had raises a timeout. */
  function Attempt(s: State, os: OsLock, me: Instance, owner: Thread, mode: Mode): (Verdict, State, OsLock) {
    match OnePass(s, owner, mode)
    case Nested(s') => (Granted, s', os)
    case Blocked => (Waits, s, os)
    case NeedsOs(s') =>
      if OsGrants(os, me, mode) then (Granted, s', os[me := mode]) else (LockTimeout, s, os)
  }

  /** The release callback, with its `max(0, depth - 1)` clamp. */
  function Drop(s: State, os: OsLock, me: Instance, owner: Thread, mode: Mode): (State, OsLock) {
    var less :=
      if mode.Exclusive? then
        var depth := if s.exclusiveDepth == 0 then 0 else s.exclusiveDepth - 1;
        s.(exclusiveDepth := depth, exclusiveOwner := if depth == 0 then None else s.exclusiveOwner)
      else DropShared(s, owner);
    if less.exclusiveDepth == 0 && less.sharedHolders == map[] then
      (less.(osLock := None), if less.osLock.Some? then os - {me} else os)
    else (less, os)
  }

  // ----- The state object ----------------------------------------------------------

  class LockFile {
    var holders: OsLock

    constructor ()
      ensures holders == map[]
    {
      holders := map[];
    }

    method TryLock(me: Instance, mode: Mode) returns (ok: bool)
      modifies this
      ensures ok <==> OsGrants(old(holders), me, mode)
      ensures holders == if ok then old(holders)[me := mode] else old(holders)
    {
      ok := OsGrants(holders, me, mode);
      if ok {
        holders := holders[me := mode];
      }
    }

    method Unlock(me: Instance)
      modifies this
      ensures holders == old(holders) - {me}
    {
      holders := holders - {me};
    }
  }

  class LeaseState {
    const me: Instance
    const file: LockFile
    var osLock: Option<Mode>
    var exclusiveDepth: nat
    var exclusiveOwner: Option<Thread>
    var sharedHolders: map<Thread, Count>

    constructor (me: Instance, file: LockFile)
      ensures this.me == me && this.file == file && Value() == Idle
    {
      this.me, this.file := me, file;
      osLock, exclusiveDepth, exclusiveOwner, sharedHolders := None, 0, None, map[];
    }

    function Value(): State
      reads this
    {
      State(osLock, exclusiveDepth, exclusiveOwner, sharedHolders)
    }

    method AddSharedHolder(owner: Thread)
      modifies this`sharedHolders
      ensures Value() == AddShared(old(Value()), owner)
    {
      var count := if owner in sharedHolders then sharedHolders[owner] else 0;
      sharedHolders := sharedHolders[owner := count + 1];
    }

    method DropSharedHolder(owner: Thread)
      modifies this`sharedHolders
      ensures Value() == DropShared(old(Value()), owner)
    {
      var held: int := if owner in sharedHolders then sharedHolders[owner] else 0;
      var remaining: int := held - 1;
      if remaining <= 0 {
        sharedHolders := sharedHolders - {owner};
      } else {
        sharedHolders := sharedHolders[owner := remaining];
      }
    }

    /** `sum(count for other threads) > 0`. */
    method OthersShare(owner: Thread) returns (shared: bool)
      ensures shared <==> exists t :: t in sharedHolders && t != owner
    {
      var left := sharedHolders.Keys;
      shared := false;
      while left != {}
        invariant left <= sharedHolders.Keys
        invariant shared ==> exists t :: t in sharedHolders && t != owner
        invariant !shared ==> forall t :: t in sharedHolders && t !in left ==> t == owner
        decreases left
      {
        var t :| t in left;
        if t != owner {
          shared := true;
        }
        left := left - {t};
      }
    }

    /** One pass of the loop in `acquire`. */
    method AttemptOnce(owner: Thread, mode: Mode) returns (verdict: Verdict)
      modifies this, file
      ensures (verdict, Value(), file.holders) == Attempt(old(Value()), old(file.holders), me, owner, mode)
    {
      if mode.Exclusive? {
        if exclusiveDepth > 0 && exclusiveOwner == Some(owner) {
          exclusiveDepth := exclusiveDepth + 1;
          return Granted;
        }
        if exclusiveDepth > 0 {
          return Waits;
        }
        var othersShare := OthersShare(owner);
        if othersShare {
          return Waits;
        }
        if osLock.None? {
          var locked := file.TryLock(me, Exclusive);
          if !locked {
            return LockTimeout;
          }
          osLock := Some(Exclusive);
        }
        exclusiveDepth := 1;
        exclusiveOwner := Some(owner);
        return Granted;
      }
      if exclusiveDepth > 0 {
        if exclusiveOwner == Some(owner) {
          AddSharedHolder(owner);
          return Granted;
        }
        return Waits;
      }
      if sharedHolders != map[] && osLock.Some? {
        AddSharedHolder(owner);
        return Granted;
      }
      var locked := file.TryLock(me, Shared);
      if !locked {
        return LockTimeout;
      }
      osLock := Some(Shared);
      AddSharedHolder(owner);
      return Granted;
    }

    method OnRelease(owner: Thread, mode: Mode)
      modifies this, file
      ensures (Value(), file.holders) == Drop(old(Value()), old(file.holders), me, owner, mode)
    {
      if mode.Exclusive? {
        exclusiveDepth := if exclusiveDepth == 0 then 0 else exclusiveDepth - 1;
        if exclusiveDepth == 0 {
          exclusiveOwner := None;
        }
      } else {
        DropSharedHolder(owner);
      }
      if exclusiveDepth == 0 && sharedHolders == map[] {
        if osLock.Some? {
          osLock := None;
          file.Unlock(me);
        }
      }
    }
  }

  // ----- Threads and instances, interleaved ------------------------------------------

  datatype Lease = Lease(at: Instance, owner: Thread, mode: Mode)
  datatype Request = Request(at: Instance, mode: Mode)

  /** `outstanding` are the leases not yet released; a thread waits in one `acquire`. */
  datatype Sys = Sys(
    states: map<Instance, State>, os: OsLock, outstanding: multiset<Lease>, waiting: map<Thread, Request>)

  datatype Action =
    | Acquire(at: Instance, thread: Thread, mode: Mode)
    | Retry(thread: Thread)
    | GiveUp(thread: Thread)
    | Release(lease: Lease)

  const Init := Sys(map[], map[], multiset{}, map[])

  function StateAt(s: Sys, i: Instance): State {
    if i in s.states then s.states[i] else Idle
  }

  function TryGrant(s: Sys, i: Instance, t: Thread, mode: Mode): Sys {
    var (verdict, state, os) := Attempt(StateAt(s, i), s.os, i, t, mode);
    match verdict
    case Granted =>
      Sys(s.states[i := state], os, s.outstanding + multiset{Lease(i, t, mode)}, s.waiting - {t})
    case Waits => s.(waiting := s.waiting[t := Request(i, mode)])
    case LockTimeout => s.(waiting := s.waiting - {t})
  }

  function Step(s: Sys, a: Action): Sys {
    match a
    case Acquire(i, t, mode) =>
      // A waiting thread is blocked; an upgrade raises without touching anything.
      if t in s.waiting || UpgradeForbidden(StateAt(s, i), t, mode) then s else TryGrant(s, i, t, mode)
    case Retry(t) =>
      if t in s.waiting then TryGrant(s, s.waiting[t].at, t, s.waiting[t].mode) else s
    case GiveUp(t) => s.(waiting := s.waiting - {t})
    case Release(lease) =>
      // `_released` makes a second release a no-op.
      if lease !in s.outstanding then s
      else
        var (state, os) := Drop(StateAt(s, lease.at), s.os, lease.at, lease.owner, lease.mode);
        Sys(s.states[lease.at := state], os, s.outstanding - multiset{lease}, s.waiting)
  }

  function Run(s: Sys, actions: seq<Action>): Sys {
    if actions == [] then s else Step(Run(s, actions[..|actions| - 1]), actions[|actions| - 1])
  }

  // ----- Invariant ---------------------------------------------------------------------

  function ExclusiveCount(state: State, t: Thread): nat {
    if state.exclusiveOwner == Some(t) then state.exclusiveDepth else 0
  }

  ghost predicate StateOk(state: State) {
    && (state.exclusiveDepth > 0 <==> state.exclusiveOwner.Some?)
    && (state.exclusiveDepth > 0 ==>
          state.osLock == Some(Exclusive) && forall t :: t in state.sharedHolders ==> state.exclusiveOwner == Some(t))
    && (state.osLock.Some? <==> state.exclusiveDepth > 0 || state.sharedHolders != map[])
  }

  /** Depth counters equal the numbers of unreleased leases. */
  ghost predicate Counted(s: Sys, i: Instance) {
    forall t ::
      && s.outstanding[Lease(i, t, Shared)] == SharedCount(StateAt(s, i), t)
      && s.outstanding[Lease(i, t, Exclusive)] == ExclusiveCount(StateAt(s, i), t)
  }

  ghost predicate InstanceInv(s: Sys, i: Instance) {
    && StateOk(StateAt(s, i))
    && Counted(s, i)
    && (i in s.os <==> StateAt(s, i).osLock.Some?)
    && (i in s.os ==> StateAt(s, i).osLock == Some(s.os[i]))
  }

  ghost predicate WaitInv(s: Sys, t: Thread) {
    t in s.waiting && s.waiting[t].mode.Exclusive? ==> t !in StateAt(s, s.waiting[t].at).sharedHolders
  }

  ghost predicate Inv(s: Sys) {
    && (forall i :: InstanceInv(s, i))
    && (forall i, j :: i in s.os && j in s.os && i != j ==> s.os[i].Shared?)
    && (forall t :: WaitInv(s, t))
  }

  lemma TryGrantKeeps(s: Sys, i: Instance, t: Thread, mode: Mode)
    requires Inv(s)
    requires t in s.waiting ==> s.waiting[t] == Request(i, mode)
    requires t !in s.waiting ==> !UpgradeForbidden(StateAt(s, i), t, mode)
    ensures Inv(TryGrant(s, i, t, mode))
  {
    assert InstanceInv(s, i) && WaitInv(s, t);
    GrantKeepsWaits(s, i, t, mode);
    if Attempt(StateAt(s, i), s.os, i, t, mode).0.Granted? {
      GrantKeepsInstances(s, i, t, mode);
    } else {
      SameStatesKeep(s, TryGrant(s, i, t, mode));
    }
  }

  /** Only the waiting table changed. */
  lemma SameStatesKeep(s: Sys, s': Sys)
    requires Inv(s) && s' == s.(waiting := s'.waiting)
    requires forall t :: WaitInv(s', t)
    ensures Inv(s')
  {
    forall j
      ensures InstanceInv(s', j)
    {
      assert InstanceInv(s, j) && Counted(s, j);
    }
  }

  lemma GrantKeepsWaits(s: Sys, i: Instance, t: Thread, mode: Mode)
    requires Inv(s)
    requires t in s.waiting ==> s.waiting[t] == Request(i, mode)
    requires t !in s.waiting ==> !UpgradeForbidden(StateAt(s, i), t, mode)
    ensures forall u :: WaitInv(TryGrant(s, i, t, mode), u)
  {
    var s' := TryGrant(s, i, t, mode);
    assert forall u :: u != t && u in StateAt(s', i).sharedHolders ==> u in StateAt(s, i).sharedHolders;
    forall u
      ensures WaitInv(s', u)
    {
      assert WaitInv(s, u);
    }
  }

  lemma GrantKeepsInstances(s: Sys, i: Instance, t: Thread, mode: Mode)
    requires Inv(s)
    requires var state := StateAt(s, i);
             var (verdict, state', _) := Attempt(state, s.os, i, t, mode);
             && verdict.Granted? && StateOk(state')
             && (forall u :: SharedCount(state', u) == SharedCount(state, u) + if u == t && mode.Shared? then 1 else 0)
             && (forall u :: ExclusiveCount(state', u) == ExclusiveCount(state, u) + if u == t && mode.Exclusive? then 1 else 0)
    ensures forall j :: InstanceInv(TryGrant(s, i, t, mode), j)
  {
    var s' := TryGrant(s, i, t, mode);
    forall j
      ensures InstanceInv(s', j)
    {
      assert InstanceInv(s, j) && InstanceInv(s, i);
      GrantCounts(s, i, t, mode, j);
    }
  }

  lemma GrantCounts(s: Sys, i: Instance, t: Thread, mode: Mode, j: Instance)
    requires Counted(s, j)
    requires var state := StateAt(s, i);
             var (verdict, state', _) := Attempt(state, s.os, i, t, mode);
             && verdict.Granted?
             && (forall u :: SharedCount(state', u) == SharedCount(state, u) + if u == t && mode.Shared? then 1 else 0)
             && (forall u :: ExclusiveCount(state', u) == ExclusiveCount(state, u) + if u == t && mode.Exclusive? then 1 else 0)
    ensures Counted(TryGrant(s, i, t, mode), j)
  {
    var s' := TryGrant(s, i, t, mode);
    forall u
      ensures s'.outstanding[Lease(j, u, Shared)] == SharedCount(StateAt(s', j), u)
      ensures s'.outstanding[Lease(j, u, Exclusive)] == ExclusiveCount(StateAt(s', j), u)
    {
      assert s.outstanding[Lease(j, u, Shared)] == SharedCount(StateAt(s, j), u);
      assert s.outstanding[Lease(j, u, Exclusive)] == ExclusiveCount(StateAt(s, j), u);
    }
  }

  lemma ReleaseKeeps(s: Sys, lease: Lease)
    requires Inv(s) && lease in s.outstanding
    ensures Inv(Step(s, Release(lease)))
  {
    LeaseCounted(s, lease);
    ReleaseKeepsInstances(s, lease);
    var s' := Step(s, Release(lease));
    forall u
      ensures WaitInv(s', u)
    {
      assert WaitInv(s, u);
      assert u in StateAt(s', lease.at).sharedHolders ==> u in StateAt(s, lease.at).sharedHolders;
    }
  }

  /** An unreleased lease is counted in the state of its instance. */
  lemma LeaseCounted(s: Sys, lease: Lease)
    requires InstanceInv(s, lease.at) && lease in s.outstanding
    ensures var state := StateAt(s, lease.at);
            if lease.mode.Exclusive? then ExclusiveCount(state, lease.owner) == s.outstanding[lease] > 0
            else SharedCount(state, lease.owner) == s.outstanding[lease] > 0
  {
    assert Counted(s, lease.at);
    match lease.mode
    case Shared => assert lease == Lease(lease.at, lease.owner, Shared);
    case Exclusive => assert lease == Lease(lease.at, lease.owner, Exclusive);
  }

  lemma ReleaseKeepsInstances(s: Sys, lease: Lease)
    requires Inv(s) && lease in s.outstanding
    requires var state := StateAt(s, lease.at);
             var state' := Drop(state, s.os, lease.at, lease.owner, lease.mode).0;
             && StateOk(state')
             && (forall u :: SharedCount(state', u) == SharedCount(state, u) - if u == lease.owner && lease.mode.Shared? then 1 else 0)
             && (forall u :: ExclusiveCount(state', u) == ExclusiveCount(state, u) - if u == lease.owner && lease.mode.Exclusive? then 1 else 0)
    ensures forall j :: InstanceInv(Step(s, Release(lease)), j)
  {
    var s' := Step(s, Release(lease));
    forall j
      ensures InstanceInv(s', j)
    {
      assert InstanceInv(s, j) && InstanceInv(s, lease.at);
      assert Counted(s, j);
      forall u
        ensures s'.outstanding[Lease(j, u, Shared)] == SharedCount(StateAt(s', j), u)
        ensures s'.outstanding[Lease(j, u, Exclusive)] == ExclusiveCount(StateAt(s', j), u)
      {
        assert s.outstanding[Lease(j, u, Shared)] == SharedCount(StateAt(s, j), u);
        assert s.outstanding[Lease(j, u, Exclusive)] == ExclusiveCount(StateAt(s, j), u);
      }
    }
  }

  lemma StepKeeps(s: Sys, a: Action)
    requires Inv(s)
    ensures Inv(Step(s, a))
  {
    match a
    case Acquire(i, t, mode) =>
      if !(t in s.waiting || UpgradeForbidden(StateAt(s, i), t, mode)) {
        TryGrantKeeps(s, i, t, mode);
      }
    case Retry(t) =>
      if t in s.waiting {
        TryGrantKeeps(s, s.waiting[t].at, t, s.waiting[t].mode);
      }
    case GiveUp(t) => GiveUpKeeps(s, t);
    case Release(lease) =>
      if lease in s.outstanding {
        ReleaseKeeps(s, lease);
      }
  }

  lemma GiveUpKeeps(s: Sys, t: Thread)
    requires Inv(s)
    ensures Inv(Step(s, GiveUp(t)))
  {
    var s' := Step(s, GiveUp(t));
    forall u
      ensures WaitInv(s', u)
    {
      assert WaitInv(s, u);
    }
    SameStatesKeep(s, s');
  }

  lemma {:induction false} RunKeeps(actions: seq<Action>)
    ensures Inv(Run(Init, actions))
  {
    if actions == [] {
    } else {
      RunKeeps(actions[..|actions| - 1]);
      StepKeeps(Run(Init, actions[..|actions| - 1]), actions[|actions| - 1]);
    }
  }

  // ----- Theorems ------------------------------------------------------------------------

  /** Some interleaving of any threads and instances leads here. */
  ghost predicate Reachable(s: Sys) {
    exists actions :: Run(Init, actions) == s
  }

  lemma ReachableInv(s: Sys)
    requires Reachable(s)
    ensures Inv(s)
  {
    var actions :| Run(Init, actions) == s;
    RunKeeps(actions);
  }

  /** While any thread holds an EXCLUSIVE lease, every outstanding lease in every
      instance belongs to that thread in that instance. */
  lemma ExclusiveExcludes(s: Sys, held: Lease, other: Lease)
    requires Reachable(s) && held in s.outstanding && other in s.outstanding
    requires held.mode.Exclusive?
    ensures other.at == held.at && other.owner == held.owner
  {
    ReachableInv(s);
    ExclusiveAlone(s, held, other);
  }

  lemma ExclusiveAlone(s: Sys, held: Lease, other: Lease)
    requires Inv(s) && held in s.outstanding && other in s.outstanding && held.mode.Exclusive?
    ensures other.at == held.at && other.owner == held.owner
  {
    LeaseHoldsOs(s, held);
    LeaseHoldsOs(s, other);
    LeaseCounted(s, held);
    LeaseCounted(s, other);
    assert InstanceInv(s, held.at);
  }

  lemma LeaseHoldsOs(s: Sys, lease: Lease)
    requires Inv(s) && lease in s.outstanding
    ensures InstanceInv(s, lease.at)
    ensures lease.at in s.os && (lease.mode.Exclusive? ==> s.os[lease.at].Exclusive?)
  {
    assert InstanceInv(s, lease.at);
    LeaseCounted(s, lease);
    var state := StateAt(s, lease.at);
    assert lease.owner in state.sharedHolders ==> state.sharedHolders != map[];
  }

  /** An instance holds the OS lock exactly while it has an unreleased lease. */
  lemma OsLockExactlyWhileHeld(s: Sys, i: Instance)
    requires Reachable(s)
    ensures i in s.os <==> exists lease :: lease in s.outstanding && lease.at == i
    ensures i !in s.os ==> StateAt(s, i) == Idle
  {
    ReachableInv(s);
    assert InstanceInv(s, i);
    if i in s.os {
      HolderHasLease(s, i);
    }
    if lease :| lease in s.outstanding && lease.at == i {
      LeaseHoldsOs(s, lease);
    }
  }

  /** Releasing an outstanding lease never clips the depth at zero and never drops a
      shared holder that is not there. */
  lemma ClampNeverClips(s: Sys, lease: Lease)
    requires Reachable(s) && lease in s.outstanding
    ensures var state := StateAt(s, lease.at);
            if lease.mode.Exclusive? then
              state.exclusiveOwner == Some(lease.owner) && state.exclusiveDepth == s.outstanding[lease] > 0
            else lease.owner in state.sharedHolders && state.sharedHolders[lease.owner] == s.outstanding[lease]
  {
    ReachableInv(s);
    assert InstanceInv(s, lease.at);
    LeaseCounted(s, lease);
  }

  /** `is_held`. */
  predicate IsHeld(state: State, owner: Thread, mode: Option<Mode>) {
    var ownsExclusive := OwnsExclusive(state, owner);
    var ownsShared := owner in state.sharedHolders;
    match mode
    case None => ownsExclusive || ownsShared
    case Some(Exclusive) => ownsExclusive
    case Some(Shared) => ownsShared || ownsExclusive
  }

  /** `is_held` reports exactly the calling thread's unreleased leases. */
  lemma IsHeldExact(s: Sys, i: Instance, t: Thread)
    requires Reachable(s)
    ensures IsHeld(StateAt(s, i), t, Some(Exclusive)) <==> Lease(i, t, Exclusive) in s.outstanding
    ensures IsHeld(StateAt(s, i), t, None) <==> Lease(i, t, Exclusive) in s.outstanding || Lease(i, t, Shared) in s.outstanding
    ensures IsHeld(StateAt(s, i), t, Some(Shared)) <==> IsHeld(StateAt(s, i), t, None)
  {
    ReachableInv(s);
    assert InstanceInv(s, i) && Counted(s, i);
    assert s.outstanding[Lease(i, t, Shared)] == SharedCount(StateAt(s, i), t);
    assert s.outstanding[Lease(i, t, Exclusive)] == ExclusiveCount(StateAt(s, i), t);
  }

  /** A legal EXCLUSIVE request is granted exactly when nobody else holds a lease. */
  lemma ExclusiveGrantedExactlyWhenAlone(s: Sys, i: Instance, t: Thread)
    requires Reachable(s) && t !in s.waiting && !UpgradeForbidden(StateAt(s, i), t, Exclusive)
    ensures Attempt(StateAt(s, i), s.os, i, t, Exclusive).0.Granted? <==>
            forall lease :: lease in s.outstanding ==> lease.at == i && lease.owner == t
  {
    ReachableInv(s);
    if Attempt(StateAt(s, i), s.os, i, t, Exclusive).0.Granted? {
      var after := Step(s, Acquire(i, t, Exclusive));
      StepKeeps(s, Acquire(i, t, Exclusive));
      assert Lease(i, t, Exclusive) in after.outstanding;
      forall lease | lease in s.outstanding
        ensures lease.at == i && lease.owner == t
      {
        ExclusiveAlone(after, Lease(i, t, Exclusive), lease);
      }
    } else {
      SomeoneElse(s, i, t);
    }
  }

  lemma SomeoneElse(s: Sys, i: Instance, t: Thread)
    requires Inv(s) && !UpgradeForbidden(StateAt(s, i), t, Exclusive)
    requires !Attempt(StateAt(s, i), s.os, i, t, Exclusive).0.Granted?
    ensures exists lease :: lease in s.outstanding && !(lease.at == i && lease.owner == t)
  {
    var state := StateAt(s, i);
    assert InstanceInv(s, i) && Counted(s, i);
    if state.exclusiveDepth > 0 {
      var u := state.exclusiveOwner.value;
      assert s.outstanding[Lease(i, u, Exclusive)] == ExclusiveCount(state, u);
      assert Lease(i, u, Exclusive) in s.outstanding;
    } else if u :| u in state.sharedHolders && u != t {
      assert s.outstanding[Lease(i, u, Shared)] == SharedCount(state, u);
      assert Lease(i, u, Shared) in s.outstanding;
    } else {
      var j :| j in s.os && j != i;
      HolderHasLease(s, j);
    }
  }

  /** Every EXCLUSIVE lease of the instance is the thread's own. */
  ghost predicate NoForeignExclusive(s: Sys, i: Instance, t: Thread) {
    forall lease :: lease in s.outstanding && lease.at == i && lease.mode.Exclusive? ==> lease.owner == t
  }

  /** No other instance holds the file exclusively. */
  ghost predicate OthersHoldShared(s: Sys, i: Instance) {
    forall j :: j in s.os && j != i ==> s.os[j].Shared?
  }

  lemma ExclusiveOwnerIs(s: Sys, i: Instance, t: Thread)
    requires Inv(s)
    ensures NoForeignExclusive(s, i, t) <==> StateAt(s, i).exclusiveDepth == 0 || StateAt(s, i).exclusiveOwner == Some(t)
  {
    var state := StateAt(s, i);
    assert InstanceInv(s, i) && Counted(s, i);
    if state.exclusiveDepth > 0 {
      var u := state.exclusiveOwner.value;
      assert s.outstanding[Lease(i, u, Exclusive)] == ExclusiveCount(state, u);
      assert Lease(i, u, Exclusive) in s.outstanding;
    }
    forall lease | lease in s.outstanding && lease.at == i && lease.mode.Exclusive?
      ensures state.exclusiveDepth > 0 && state.exclusiveOwner == Some(lease.owner)
    {
      LeaseCounted(s, lease);
    }
  }

  /** A SHARED request is granted at once exactly when nobody else's EXCLUSIVE lease is in
      the way: it waits for one of the same instance, and times out on another instance's. */
  lemma SharedGrantedExactly(s: Sys, i: Instance, t: Thread)
    requires Reachable(s)
    ensures var verdict := Attempt(StateAt(s, i), s.os, i, t, Shared).0;
            && (verdict.Granted? <==> NoForeignExclusive(s, i, t) && OthersHoldShared(s, i))
            && (verdict.Waits? <==> !NoForeignExclusive(s, i, t))
            && (verdict.LockTimeout? <==> NoForeignExclusive(s, i, t) && !OthersHoldShared(s, i))
  {
    ReachableInv(s);
    assert InstanceInv(s, i);
    ExclusiveOwnerIs(s, i, t);
  }

  /** An EXCLUSIVE request waits exactly for other threads of its instance; when only other
      instances are in the way it times out on the file. */
  lemma ExclusiveWaitsExactly(s: Sys, i: Instance, t: Thread)
    requires Reachable(s) && !UpgradeForbidden(StateAt(s, i), t, Exclusive)
    ensures var verdict := Attempt(StateAt(s, i), s.os, i, t, Exclusive).0;
            && (verdict.Waits? <==> exists lease :: lease in s.outstanding && lease.at == i && lease.owner != t)
            && (verdict.LockTimeout? ==> exists lease :: lease in s.outstanding && lease.at != i)
  {
    ReachableInv(s);
    var state := StateAt(s, i);
    assert InstanceInv(s, i) && Counted(s, i);
    var verdict := Attempt(state, s.os, i, t, Exclusive).0;
    if lease :| lease in s.outstanding && lease.at == i && lease.owner != t {
      LeaseCounted(s, lease);
    }
    if verdict.Waits? {
      var u := if state.exclusiveDepth > 0 then state.exclusiveOwner.value else var u :| u in state.sharedHolders && u != t; u;
      assert s.outstanding[Lease(i, u, Exclusive)] == ExclusiveCount(state, u);
      assert s.outstanding[Lease(i, u, Shared)] == SharedCount(state, u);
      assert Lease(i, u, Exclusive) in s.outstanding || Lease(i, u, Shared) in s.outstanding;
    }
    if verdict.LockTimeout? {
      var j :| j in s.os && j != i;
      HolderHasLease(s, j);
    }
  }

  /** An upgrade is refused exactly to a thread whose only leases here are SHARED. */
  lemma UpgradeExactly(s: Sys, i: Instance, t: Thread, mode: Mode)
    requires Reachable(s)
    ensures UpgradeForbidden(StateAt(s, i), t, mode) <==>
            mode.Exclusive? && Lease(i, t, Shared) in s.outstanding && Lease(i, t, Exclusive) !in s.outstanding
  {
    ReachableInv(s);
    assert InstanceInv(s, i) && Counted(s, i);
    assert s.outstanding[Lease(i, t, Shared)] == SharedCount(StateAt(s, i), t);
    assert s.outstanding[Lease(i, t, Exclusive)] == ExclusiveCount(StateAt(s, i), t);
  }

  /** A request that is not granted takes nothing; one that is granted adds its own lease. */
  lemma AttemptTakes(s: Sys, i: Instance, t: Thread, mode: Mode)
    requires t !in s.waiting && !UpgradeForbidden(StateAt(s, i), t, mode)
    ensures var after := Step(s, Acquire(i, t, mode));
            var verdict := Attempt(StateAt(s, i), s.os, i, t, mode).0;
            && after.outstanding == s.outstanding + (if verdict.Granted? then multiset{Lease(i, t, mode)} else multiset{})
            && (!verdict.Granted? ==> after.states == s.states && after.os == s.os)
            && (t in after.waiting <==> verdict.Waits?)
  {
  }

  /** A waiting thread leaves the queue when it gives up; a release ends exactly its lease. */
  lemma LeavingTakes(s: Sys, t: Thread, lease: Lease)
    ensures Step(s, GiveUp(t)) == s.(waiting := s.waiting - {t})
    ensures var after := Step(s, Release(lease));
            after.outstanding == s.outstanding - multiset{lease} && after.waiting == s.waiting
  {
  }

  /** A waiting thread that wakes up is treated as if it asked anew: it gets its lease exactly
      when nobody is in the way any more. */
  lemma RetryGrantedExactly(s: Sys, t: Thread)
    requires Reachable(s) && t in s.waiting
    ensures var Request(i, mode) := s.waiting[t];
            var after := Step(s, Retry(t));
            && (after.outstanding == s.outstanding + multiset{Lease(i, t, mode)} && t !in after.waiting <==>
                if mode.Exclusive? then forall lease :: lease in s.outstanding ==> lease.at == i && lease.owner == t
                else NoForeignExclusive(s, i, t) && OthersHoldShared(s, i))
  {
    var Request(i, mode) := s.waiting[t];
    ReachableInv(s);
    assert WaitInv(s, t) && InstanceInv(s, i);
    if mode.Exclusive? {
      var actions :| Run(Init, actions) == s;
      var gone := Step(s, GiveUp(t));
      assert (actions + [GiveUp(t)])[..|actions|] == actions;
      assert Run(Init, actions + [GiveUp(t)]) == gone;
      ExclusiveGrantedExactlyWhenAlone(gone, i, t);
    } else {
      SharedGrantedExactly(s, i, t);
    }
  }

  /** The lock file is touched only by an instance that does not hold it yet. */
  lemma GrantTouchesFile(s: Sys, i: Instance, t: Thread, mode: Mode)
    requires Reachable(s) && t !in s.waiting && !UpgradeForbidden(StateAt(s, i), t, mode)
    requires Attempt(StateAt(s, i), s.os, i, t, mode).0.Granted?
    ensures Step(s, Acquire(i, t, mode)).os == if i in s.os then s.os else s.os[i := mode]
  {
    ReachableInv(s);
    assert InstanceInv(s, i);
  }

  lemma HolderHasLease(s: Sys, j: Instance)
    requires Inv(s) && j in s.os
    ensures exists lease :: lease in s.outstanding && lease.at == j
  {
    var state := StateAt(s, j);
    assert InstanceInv(s, j) && Counted(s, j);
    if state.exclusiveDepth > 0 {
      var u := state.exclusiveOwner.value;
      assert s.outstanding[Lease(j, u, Exclusive)] == ExclusiveCount(state, u);
      assert Lease(j, u, Exclusive) in s.outstanding;
    } else {
      var u :| u in state.sharedHolders;
      assert s.outstanding[Lease(j, u, Shared)] == SharedCount(state, u);
      assert Lease(j, u, Shared) in s.outstanding;
    }
  }
}
