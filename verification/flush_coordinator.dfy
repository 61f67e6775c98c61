/** Shared flush writes with authority per caller
    (integrations/openclaw/src/flush-coordinator.ts), over the ledger. */
module FlushCoordinator {
  import opened Common
  import L = FlushLedger

  datatype Waiter = Waiter(n: nat)

  /** What the callers' guards say at one instant. */
  datatype Guards = Guards(aborted: set<Waiter>, revoked: set<Waiter>)

  predicate Current(g: Guards, w: Waiter) {
    w !in g.aborted && w !in g.revoked
  }

  function CurrentOf(g: Guards, ws: set<Waiter>): set<Waiter> {
    set w | w in ws && Current(g, w)
  }

  datatype State = State(ledger: L.State, waiters: map<L.Ref, set<Waiter>>)

  datatype Action =
    | Join(w: Waiter, key: string, now: int, guards: Guards)
    | BeforeDispatch(ref: L.Ref, guards: Guards)
    | Leave(w: Waiter, ref: L.Ref)
    | Succeed(ref: L.Ref, value: string, now: int)
    | Fail(ref: L.Ref)
    | Dispose

  function WaitersOf(s: State, ref: L.Ref): set<Waiter> {
    if ref in s.waiters then s.waiters[ref] else {}
  }

  /** The entry a reply attaches its caller to. */
  function Attach(s: State, reply: L.Reply, w: Waiter): State {
    match reply
    case Joined(ref) => s.(waiters := s.waiters[ref := WaitersOf(s, ref) + {w}])
    case Started(ref) => s.(waiters := s.waiters[ref := WaitersOf(s, ref) + {w}])
    case _ => s
  }

  function Swept(waiters: map<L.Ref, set<Waiter>>, ref: L.Ref, kept: set<Waiter>): map<L.Ref, set<Waiter>> {
    if ref in waiters then waiters[ref := kept] else waiters
  }

  /** Dispatch for the callers that are left, or give the entry up. */
  function Decide(s: L.State, ref: L.Ref, kept: set<Waiter>, limits: L.Limits): L.State
    requires ref in s.flights
  {
    if kept == {} then L.Next(s, L.Abandon(ref), limits) else L.Next(s, L.MarkDispatched(ref), limits)
  }

  ghost predicate Enabled(s: State, a: Action) {
    match a
    case Join(_, _, _, _) => true
    case Dispose => true
    case Leave(_, _) => true
    case _ => a.ref in s.ledger.flights
  }

  function Next(s: State, a: Action, limits: L.Limits): State
    requires Enabled(s, a)
  {
    match a
    case Join(w, key, now, guards) =>
      if !Current(guards, w) then s
      else
        var (t, reply) := L.RunStep(s.ledger, key, limits, now);
        Attach(s.(ledger := t), reply, w)
    case BeforeDispatch(ref, guards) =>
      var kept := CurrentOf(guards, WaitersOf(s, ref));
      State(Decide(s.ledger, ref, kept, limits), Swept(s.waiters, ref, kept))
    case Leave(w, ref) =>
      if ref in s.waiters then s.(waiters := s.waiters[ref := s.waiters[ref] - {w}]) else s
    case Succeed(ref, value, now) => s.(ledger := L.Next(s.ledger, L.Succeed(ref, value, now), limits))
    case Fail(ref) => s.(ledger := L.Next(s.ledger, L.Fail(ref), limits))
    case Dispose => s.(ledger := L.Next(s.ledger, L.Dispose, limits))
  }

  // ----- Authority ---------------------------------------------------------------------------

  datatype Moment = Moment(before: State, action: Action)

  ghost predicate IsRun(run: seq<Moment>, limits: L.Limits, last: State) {
    if run == [] then last == State(L.Initial(), map[])
    else
      var m := run[|run| - 1];
      IsRun(run[..|run| - 1], limits, m.before) && Enabled(m.before, m.action) && last == Next(m.before, m.action, limits)
  }

  /** The moment checked the callers of `ref` and found a current one. */
  ghost predicate Authorises(m: Moment, ref: L.Ref) {
    && m.action.BeforeDispatch? && m.action.ref == ref
    && exists w :: w in WaitersOf(m.before, ref) && w !in m.action.guards.aborted && w !in m.action.guards.revoked
  }

  /** A check that finds a current waiter lets the write go: nobody who is left is ignored. */
  lemma AuthorityDispatches(s: State, ref: L.Ref, guards: Guards, limits: L.Limits)
    requires ref in s.ledger.flights && Authorises(Moment(s, BeforeDispatch(ref, guards)), ref)
    ensures var t := Next(s, BeforeDispatch(ref, guards), limits).ledger;
            t == s.ledger.(flights := s.ledger.flights[ref := s.ledger.flights[ref].(dispatched := true)])
  {
    var w :| w in WaitersOf(s, ref) && w !in guards.aborted && w !in guards.revoked;
    assert w in CurrentOf(guards, WaitersOf(s, ref));
  }

  /** Only a check that finds a current waiter marks a write dispatched. */
  lemma StepAuthority(s: State, a: Action, limits: L.Limits, ref: L.Ref)
    requires L.Inv(s.ledger, limits) && Enabled(s, a)
    requires ref in Next(s, a, limits).ledger.flights && Next(s, a, limits).ledger.flights[ref].dispatched
    requires ref in s.ledger.flights ==> !s.ledger.flights[ref].dispatched
    ensures Authorises(Moment(s, a), ref)
  {
    match a
    case Join(w, key, now, guards) =>
      if Current(guards, w) {
        JoinFlights(s.ledger, key, limits, now);
      }
    case BeforeDispatch(r, guards) =>
    case Leave(_, _) =>
    case Succeed(_, _, _) =>
    case Fail(_) =>
    case Dispose =>
  }

  lemma JoinFlights(s: L.State, key: string, limits: L.Limits, now: int)
    requires L.Inv(s, limits)
    ensures var (t, reply) := L.RunStep(s, key, limits, now);
            t.flights == if reply.Started? then s.flights[reply.ref := L.Flight(key, false, None)] else s.flights
  {
    if L.RunStep(s, key, limits, now).1.Started? {
      L.StartsOnlyAfter(s, key, limits, now);
    }
  }

  lemma StepLedgerInv(s: State, a: Action, limits: L.Limits)
    requires L.Inv(s.ledger, limits) && Enabled(s, a)
    ensures L.Inv(Next(s, a, limits).ledger, limits)
  {
    match a
    case Join(w, key, now, guards) =>
      if Current(guards, w) {
        L.StepKeeps(s.ledger, L.Run(key, now), limits);
      }
    case BeforeDispatch(ref, _) =>
      L.StepKeeps(s.ledger, L.Abandon(ref), limits);
      L.StepKeeps(s.ledger, L.MarkDispatched(ref), limits);
    case Succeed(ref, value, now) => L.StepKeeps(s.ledger, L.Succeed(ref, value, now), limits);
    case Fail(ref) => L.StepKeeps(s.ledger, L.Fail(ref), limits);
    case Dispose => L.StepKeeps(s.ledger, L.Dispose, limits);
    case Leave(_, _) =>
  }

  /** Every write that was ever marked dispatched was marked at an instant when one of its
      attached callers was un-aborted and current. */
  lemma {:induction false} DispatchedUnderAuthority(run: seq<Moment>, limits: L.Limits, last: State)
    requires limits.maxEntries >= 1 && IsRun(run, limits, last)
    ensures L.Inv(last.ledger, limits)
    ensures forall ref :: ref in last.ledger.flights && last.ledger.flights[ref].dispatched ==>
              exists m :: m in run && Authorises(m, ref)
  {
    if run != [] {
      var rest, m := run[..|run| - 1], run[|run| - 1];
      DispatchedUnderAuthority(rest, limits, m.before);
      StepLedgerInv(m.before, m.action, limits);
      forall ref | ref in last.ledger.flights && last.ledger.flights[ref].dispatched
        ensures exists x :: x in run && Authorises(x, ref)
      {
        if ref in m.before.ledger.flights && m.before.ledger.flights[ref].dispatched {
          var x :| x in rest && Authorises(x, ref);
          assert x in run;
        } else {
          StepAuthority(m.before, m.action, limits, ref);
          assert m == Moment(m.before, m.action) && m in run;
        }
      }
    }
  }

  // ----- Who is attached ---------------------------------------------------------------------------

  /** The caller joins or starts the write with its authority intact. */
  ghost predicate Joins(m: Moment, limits: L.Limits, w: Waiter, ref: L.Ref) {
    && m.action.Join? && m.action.w == w && w !in m.action.guards.aborted && w !in m.action.guards.revoked
    && L.RunStep(m.before.ledger, m.action.key, limits, m.action.now).1 in {L.Joined(ref), L.Started(ref)}
  }

  /** The caller leaves the write, or a check finds it aborted or revoked. */
  ghost predicate Detaches(a: Action, w: Waiter, ref: L.Ref) {
    || a == Leave(w, ref)
    || (a.BeforeDispatch? && a.ref == ref && (w in a.guards.aborted || w in a.guards.revoked))
  }

  lemma StepAttaches(s: State, a: Action, limits: L.Limits, w: Waiter, ref: L.Ref)
    requires Enabled(s, a)
    ensures w in WaitersOf(Next(s, a, limits), ref) <==>
            Joins(Moment(s, a), limits, w, ref) || (w in WaitersOf(s, ref) && !Detaches(a, w, ref))
  {
  }

  ghost predicate AttachedSince(run: seq<Moment>, limits: L.Limits, w: Waiter, ref: L.Ref, k: nat) {
    k < |run| && Joins(run[k], limits, w, ref) && forall j :: k < j < |run| ==> !Detaches(run[j].action, w, ref)
  }

  /** In every run the callers attached to a write are exactly those that joined it with
      authority and have neither left nor been found without since. */
  lemma {:induction false} AttachedExactly(run: seq<Moment>, limits: L.Limits, last: State, w: Waiter, ref: L.Ref)
    requires IsRun(run, limits, last)
    ensures w in WaitersOf(last, ref) <==> exists k: nat :: AttachedSince(run, limits, w, ref, k)
  {
    if run != [] {
      var rest, m := run[..|run| - 1], run[|run| - 1];
      AttachedExactly(rest, limits, m.before, w, ref);
      StepAttaches(m.before, m.action, limits, w, ref);
      if k: nat :| AttachedSince(run, limits, w, ref, k) {
        assert k < |rest| ==> AttachedSince(rest, limits, w, ref, k);
      }
      if k: nat :| AttachedSince(rest, limits, w, ref, k) {
        assert !Detaches(m.action, w, ref) ==> AttachedSince(run, limits, w, ref, k);
      }
      assert Joins(m, limits, w, ref) ==> AttachedSince(run, limits, w, ref, |rest|);
    }
  }

  // ----- Nobody left -------------------------------------------------------------------------------

  /** With no current waiter the pending key is freed exactly when nothing was dispatched
      yet; otherwise the write keeps its place. */
  lemma NobodyLeft(s: State, ref: L.Ref, guards: Guards, limits: L.Limits)
    requires L.Inv(s.ledger, limits) && ref in s.ledger.flights && s.ledger.flights[ref].outcome.None?
    requires CurrentOf(guards, WaitersOf(s, ref)) == {}
    ensures var t := Next(s, BeforeDispatch(ref, guards), limits).ledger;
            var key := s.ledger.flights[ref].key;
            && (L.Lookup(t.entries, key) == None <==> !s.ledger.flights[ref].dispatched)
            && (!s.ledger.flights[ref].dispatched ==> t.flights[ref].outcome == Some(L.NotSent))
            && (s.ledger.flights[ref].dispatched ==> t == s.ledger)
  {
    var key := s.ledger.flights[ref].key;
    assert L.FlightOk(s.ledger, ref);
    L.Removed(s.ledger.entries, L.IndexOf(s.ledger.entries, key));
  }

  // ----- Detaching -------------------------------------------------------------------------------------

  /** Two ledgers that answer every caller alike: they may differ only in whether a settled
      write is still marked dispatched. */
  ghost predicate SameAnswers(a: L.State, b: L.State) {
    && a.entries == b.entries && a.gone == b.gone && a.nextRef == b.nextRef && a.disposed == b.disposed
    && a.flights.Keys == b.flights.Keys
    && forall r :: r in a.flights ==>
         && a.flights[r].key == b.flights[r].key && a.flights[r].outcome == b.flights[r].outcome
         && (a.flights[r].outcome.None? ==> a.flights[r] == b.flights[r])
  }

  ghost predicate SameBut(a: set<Waiter>, b: set<Waiter>, w: Waiter) {
    forall x :: x != w ==> (x in a <==> x in b)
  }

  /** The states differ at most in whether `w` is attached to `ref`. */
  ghost predicate UpTo(a: State, b: State, w: Waiter, ref: L.Ref) {
    && SameAnswers(a.ledger, b.ledger)
    && a.waiters.Keys == b.waiters.Keys
    && forall r :: r in a.waiters ==>
         if r == ref then SameBut(a.waiters[r], b.waiters[r], w) else a.waiters[r] == b.waiters[r]
  }

  /** The caller has no say any more: its guard fails, or its write is settled. */
  ghost predicate Silent(s: State, a: Action, w: Waiter, ref: L.Ref) {
    && (a.BeforeDispatch? && a.ref == ref ==>
          !Current(a.guards, w) || (ref in s.ledger.flights && s.ledger.flights[ref].outcome.Some?))
    && (a.Join? ==> a.w != w)
  }

  lemma RoomSame(a: L.State, b: L.State, limits: L.Limits, now: int)
    requires SameAnswers(a, b)
    ensures L.MakeRoom(a, limits, now).1 == L.MakeRoom(b, limits, now).1
    ensures SameAnswers(L.MakeRoom(a, limits, now).0, L.MakeRoom(b, limits, now).0)
  {
    var ta, tb := L.ForgetExpired(a, now), L.ForgetExpired(b, now);
    assert ta.gone == tb.gone;
    var i := L.FirstSuccess(ta.entries);
    if i < |ta.entries| {
      ForgetSame(ta, tb, i, L.Evicted);
    }
  }

  lemma ForgetSame(a: L.State, b: L.State, i: nat, why: L.Drop)
    requires SameAnswers(a, b) && i < |a.entries|
    ensures SameAnswers(L.Forget(a, i, why), L.Forget(b, i, why))
  {
    assert L.Forget(a, i, why).gone == L.Forget(b, i, why).gone;
  }

  lemma ReserveSame(a: L.State, b: L.State, key: string, limits: L.Limits, now: int)
    requires SameAnswers(a, b)
    ensures L.Reserve(a, key, limits, now).1 == L.Reserve(b, key, limits, now).1
    ensures SameAnswers(L.Reserve(a, key, limits, now).0, L.Reserve(b, key, limits, now).0)
  {
    RoomSame(a, b, limits, now);
  }

  lemma RunSame(a: L.State, b: L.State, key: string, limits: L.Limits, now: int)
    requires SameAnswers(a, b)
    ensures L.RunStep(a, key, limits, now).1 == L.RunStep(b, key, limits, now).1
    ensures SameAnswers(L.RunStep(a, key, limits, now).0, L.RunStep(b, key, limits, now).0)
  {
    var i := L.IndexOf(a.entries, key);
    if !a.disposed {
      if i == |a.entries| {
        ReserveSame(a, b, key, limits, now);
      } else if a.entries[i].entry.Success? && a.entries[i].entry.expiresAt <= now {
        var why := L.Expired(a.entries[i].entry.expiresAt, now);
        ForgetSame(a, b, i, why);
        ReserveSame(L.Forget(a, i, why), L.Forget(b, i, why), key, limits, now);
      }
    }
  }

  lemma SucceedSame(a: L.State, b: L.State, ref: L.Ref, value: string, now: int, limits: L.Limits)
    requires SameAnswers(a, b) && ref in a.flights
    ensures SameAnswers(L.SucceedStep(a, ref, value, limits, now), L.SucceedStep(b, ref, value, limits, now))
  {
  }

  lemma FailSame(a: L.State, b: L.State, ref: L.Ref)
    requires SameAnswers(a, b) && ref in a.flights
    ensures SameAnswers(L.FailStep(a, ref), L.FailStep(b, ref))
  {
  }

  /** Marking or abandoning a settled write answers nobody. */
  lemma IdleVerdict(a: L.State, b: L.State, r: L.Ref, limits: L.Limits)
    requires SameAnswers(a, b) && r in a.flights
    ensures SameAnswers(L.Next(a, L.Abandon(r), limits), L.Next(b, L.Abandon(r), limits))
    ensures a.flights[r].outcome.Some? ==>
              && SameAnswers(L.Next(a, L.MarkDispatched(r), limits), L.Next(b, L.Abandon(r), limits))
              && SameAnswers(L.Next(a, L.Abandon(r), limits), L.Next(b, L.MarkDispatched(r), limits))
  {
    FailSame(a, b, r);
  }

  lemma DecideSame(a: L.State, b: L.State, r: L.Ref, ka: set<Waiter>, kb: set<Waiter>, limits: L.Limits)
    requires SameAnswers(a, b) && r in a.flights && (a.flights[r].outcome.None? ==> ka == kb)
    ensures SameAnswers(Decide(a, r, ka, limits), Decide(b, r, kb, limits))
  {
    IdleVerdict(a, b, r, limits);
  }

  lemma BeforeDispatchSame(a: State, b: State, r: L.Ref, guards: Guards, w: Waiter, ref: L.Ref, limits: L.Limits)
    requires UpTo(a, b, w, ref) && r in a.ledger.flights
    requires Silent(a, BeforeDispatch(r, guards), w, ref)
    ensures UpTo(Next(a, BeforeDispatch(r, guards), limits), Next(b, BeforeDispatch(r, guards), limits), w, ref)
  {
    var ka, kb := CurrentOf(guards, WaitersOf(a, r)), CurrentOf(guards, WaitersOf(b, r));
    DecideSame(a.ledger, b.ledger, r, ka, kb, limits);
  }

  lemma StepSame(a: State, b: State, act: Action, w: Waiter, ref: L.Ref, limits: L.Limits)
    requires UpTo(a, b, w, ref) && Enabled(a, act) && Silent(a, act, w, ref)
    ensures Enabled(b, act) && UpTo(Next(a, act, limits), Next(b, act, limits), w, ref)
  {
    match act
    case Join(x, key, now, guards) =>
      RunSame(a.ledger, b.ledger, key, limits, now);
    case BeforeDispatch(r, guards) => BeforeDispatchSame(a, b, r, guards, w, ref, limits);
    case Leave(x, r) =>
    case Succeed(r, value, now) => SucceedSame(a.ledger, b.ledger, r, value, now, limits);
    case Fail(r) => FailSame(a.ledger, b.ledger, r);
    case Dispose =>
  }

  ghost predicate Follows(s: State, actions: seq<Action>, limits: L.Limits, w: Waiter, ref: L.Ref)
    decreases |actions|
  {
    actions != [] ==>
      && Enabled(s, actions[0]) && Silent(s, actions[0], w, ref)
      && Follows(Next(s, actions[0], limits), actions[1..], limits, w, ref)
  }

  function After(s: State, actions: seq<Action>, limits: L.Limits, w: Waiter, ref: L.Ref): State
    requires Follows(s, actions, limits, w, ref)
    decreases |actions|
  {
    if actions == [] then s else After(Next(s, actions[0], limits), actions[1..], limits, w, ref)
  }

  lemma {:induction false} RunsSame(a: State, b: State, actions: seq<Action>, w: Waiter, ref: L.Ref, limits: L.Limits)
    requires UpTo(a, b, w, ref) && Follows(a, actions, limits, w, ref)
    ensures Follows(b, actions, limits, w, ref)
    ensures UpTo(After(a, actions, limits, w, ref), After(b, actions, limits, w, ref), w, ref)
    decreases |actions|
  {
    if actions != [] {
      StepSame(a, b, actions[0], w, ref, limits);
      RunsSame(Next(a, actions[0], limits), Next(b, actions[0], limits), actions[1..], w, ref, limits);
    }
  }

  /** A caller that was cancelled, revoked or answered may be detached at once or never:
      whatever follows, every other caller gets the same answers. */
  lemma DetachingIsInvisible(s: State, actions: seq<Action>, w: Waiter, ref: L.Ref, limits: L.Limits)
    requires Follows(s, actions, limits, w, ref)
    ensures var left := Next(s, Leave(w, ref), limits);
            && Follows(left, actions, limits, w, ref)
            && SameAnswers(After(s, actions, limits, w, ref).ledger, After(left, actions, limits, w, ref).ledger)
  {
    RunsSame(s, Next(s, Leave(w, ref), limits), actions, w, ref, limits);
  }

  // ----- The coordinator ---------------------------------------------------------------------------------------

  class Coordinator {
    const ledger: L.Ledger
    var waiters: map<L.Ref, set<Waiter>>

    constructor (maxEntries: nat, ttl: int)
      requires maxEntries >= 1
      ensures Valid() && fresh(ledger) && Abs() == State(L.Initial(), map[])
      ensures ledger.limits == L.Limits(maxEntries, ttl)
    {
      ledger := new L.Ledger(maxEntries, ttl);
      waiters := map[];
    }

    ghost function Abs(): State
      reads this, ledger
    {
      State(ledger.Abs(), waiters)
    }

    ghost predicate Valid()
      reads this, ledger
    {
      ledger.Valid()
    }

    /** A caller without authority is turned away before it can touch the ledger. */
    method Run(w: Waiter, key: string, now: int, guards: Guards) returns (reply: Option<L.Reply>)
      requires Valid()
      modifies this, ledger
      ensures Valid() && Abs() == Next(old(Abs()), Join(w, key, now, guards), ledger.limits)
      ensures reply == if Current(guards, w) then Some(L.RunStep(old(ledger.Abs()), key, ledger.limits, now).1) else None
    {
      if w in guards.aborted || w in guards.revoked {
        return None;
      }
      var r := ledger.Run(key, now);
      match r {
        case Joined(ref) => AttachTo(ref, w);
        case Started(ref) => AttachTo(ref, w);
        case _ =>
      }
      reply := Some(r);
    }

    method AttachTo(ref: L.Ref, w: Waiter)
      modifies this`waiters
      ensures waiters == old(waiters)[ref := (if ref in old(waiters) then old(waiters)[ref] else {}) + {w}]
    {
      if ref !in waiters {
        waiters := waiters[ref := {}];
      }
      waiters := waiters[ref := waiters[ref] + {w}];
    }

    /** Sweep the callers of an entry, dropping those that are aborted or revoked. */
    method HasCurrentWaiter(ref: L.Ref, guards: Guards) returns (found: bool)
      modifies this`waiters
      ensures found <==> CurrentOf(guards, if ref in old(waiters) then old(waiters)[ref] else {}) != {}
      ensures waiters == if ref in old(waiters) then old(waiters)[ref := CurrentOf(guards, old(waiters)[ref])] else old(waiters)
    {
      if ref !in waiters {
        return false;
      }
      var todo, current := waiters[ref], 0;
      ghost var all := waiters[ref];
      while todo != {}
        invariant ref in waiters && todo <= all
        invariant waiters == old(waiters)[ref := waiters[ref]]
        invariant forall x :: x in waiters[ref] <==> x in all && (x in todo || Current(guards, x))
        invariant current > 0 <==> exists x :: x in all - todo && Current(guards, x)
        invariant current >= 0
        decreases |todo|
      {
        var w :| w in todo;
        todo := todo - {w};
        if w in guards.aborted {
          waiters := waiters[ref := waiters[ref] - {w}];
        } else if w !in guards.revoked {
          assert w in all - todo && Current(guards, w);
          current := current + 1;
        } else {
          waiters := waiters[ref := waiters[ref] - {w}];
        }
      }
      found := current > 0;
      assert waiters[ref] == CurrentOf(guards, all);
    }

    /** Veto the dispatch, and free the key if nothing was sent, unless a caller is current. */
    method BeforeDispatchNow(ref: L.Ref, guards: Guards) returns (go: bool)
      requires Valid() && ref in ledger.flights
      modifies this, ledger
      ensures Valid() && Abs() == Next(old(Abs()), BeforeDispatch(ref, guards), ledger.limits)
      ensures go <==> CurrentOf(guards, WaitersOf(old(Abs()), ref)) != {}
    {
      go := HasCurrentWaiter(ref, guards);
      if !go {
        ledger.AbandonNow(ref);
        return;
      }
      ledger.MarkDispatchedNow(ref);
    }

    /** Once the write is settled the caller's authority is checked again before it is told:
        a value only reaches a caller that is un-aborted and current, an error one that was
        not revoked. Either way the caller is detached. */
    method Deliver(w: Waiter, ref: L.Ref, guards: Guards) returns (answer: Option<L.Outcome>)
      requires Valid() && ref in ledger.flights && ledger.flights[ref].outcome.Some?
      modifies this`waiters
      ensures Valid() && Abs() == Next(old(Abs()), Leave(w, ref), ledger.limits)
      ensures answer.Some? ==> answer == ledger.flights[ref].outcome && w !in guards.revoked
      ensures answer.Some? && answer.value.Confirmed? ==> Current(guards, w)
      ensures Current(guards, w) ==> answer.Some?
    {
      var outcome := ledger.flights[ref].outcome.value;
      answer := if w in guards.revoked || (outcome.Confirmed? && w in guards.aborted) then None else Some(outcome);
      LeaveNow(w, ref);
    }

    method LeaveNow(w: Waiter, ref: L.Ref)
      requires Valid()
      modifies this`waiters
      ensures Valid() && Abs() == Next(old(Abs()), Leave(w, ref), ledger.limits)
    {
      if ref in waiters {
        waiters := waiters[ref := waiters[ref] - {w}];
      }
    }
  }
}
