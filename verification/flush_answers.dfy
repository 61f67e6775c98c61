/** What a caller of the ledger is told, and when: each reply of a run is traced back to the
    step of that run that settled the write. */
module FlushAnswers {
  import opened Common
  import opened FlushLedger

  // ----- Where slots come from ------------------------------------------------------------------

  /** `t` has no settled slot that `s` lacks, and what it keeps is not forgotten. */
  ghost predicate Keeps(s: State, t: State) {
    && (forall x :: x in t.entries && !x.entry.Pending? ==> x in s.entries)
    && (forall r :: r in s.flights ==> r in t.flights && t.flights[r] == s.flights[r])
    && (forall x, r :: x in t.entries && !x.entry.Pending? && r in s.flights && r !in s.gone && s.flights[r].key == x.key ==>
                         r !in t.gone)
  }

  lemma ExpiryKeeps(s: State, now: int)
    requires DistinctKeys(s.entries)
    ensures Keeps(s, ForgetExpired(s, now))
  {
    var t := ForgetExpired(s, now);
    UnexpiredKeeps(s.entries, now);
    forall x, r | x in t.entries && r in s.flights && r !in s.gone && s.flights[r].key == x.key
      ensures r !in t.gone
    {
      LookupOf(s.entries, x.key, x.entry);
    }
  }

  lemma ForgettingKeeps(s: State, i: nat, why: Drop)
    requires DistinctKeys(s.entries) && i < |s.entries|
    ensures Keeps(s, Forget(s, i, why))
  {
    Removed(s.entries, i);
    var t := Forget(s, i, why);
    forall x, r | x in t.entries && r in s.flights && r !in s.gone && s.flights[r].key == x.key
      ensures r !in t.gone
    {
      LookupOf(t.entries, x.key, x.entry);
    }
  }

  lemma KeepsOn(s: State, t: State, u: State)
    requires Keeps(s, t) && Keeps(t, u)
    ensures Keeps(s, u)
  {
  }

  lemma ReservingKeeps(s: State, key: string, limits: Limits, now: int)
    requires Inv(s, limits) && !s.disposed
    ensures Keeps(s, Reserve(s, key, limits, now).0)
  {
    ExpiryKeeps(s, now);
    UnexpiredKeeps(s.entries, now);
    var t := ForgetExpired(s, now);
    var i := FirstSuccess(t.entries);
    if i < |t.entries| {
      ForgettingKeeps(t, i, Evicted);
      KeepsOn(s, t, Forget(t, i, Evicted));
    }
    var (u, ok) := MakeRoom(s, limits, now);
    assert Keeps(s, u) && u.nextRef == s.nextRef;
  }

  lemma RunningKeeps(s: State, key: string, limits: Limits, now: int)
    requires Inv(s, limits)
    ensures Keeps(s, RunStep(s, key, limits, now).0)
  {
    var i := IndexOf(s.entries, key);
    if !s.disposed {
      if i == |s.entries| {
        ReservingKeeps(s, key, limits, now);
      } else if s.entries[i].entry.Success? && s.entries[i].entry.expiresAt <= now {
        var why := Expired(s.entries[i].entry.expiresAt, now);
        ForgettingKeeps(s, i, why);
        ForgetKeeps(s, limits, i, why);
        var t := Forget(s, i, why);
        ReservingKeeps(t, key, limits, now);
        KeepsOn(s, t, Reserve(t, key, limits, now).0);
      }
    }
  }

  /** A settled slot is an old one, or the one that this step's success or failure made. */
  lemma SlotFrom(s: State, a: Action, limits: Limits, x: Slot)
    requires Inv(s, limits) && Enabled(s, a) && x in Next(s, a, limits).entries && !x.entry.Pending?
    ensures || x in s.entries
            || (a.Succeed? && s.flights[a.ref].outcome.None? && x == Slot(s.flights[a.ref].key, Success(a.value, a.now + limits.ttl)))
            || (a.Fail? && s.flights[a.ref].outcome.None? && s.flights[a.ref].dispatched && x == Slot(s.flights[a.ref].key, Indeterminate))
  {
    match a
    case Run(key, now) => RunningKeeps(s, key, limits, now);
    case _ =>
  }

  /** A write that is forgotten takes its slot along. */
  lemma GoneTakesSlot(s: State, a: Action, limits: Limits, x: Slot, r: Ref)
    requires Inv(s, limits) && Enabled(s, a) && r in s.flights && r !in s.gone && s.flights[r].key == x.key
    requires x in Next(s, a, limits).entries && !x.entry.Pending?
    ensures r !in Next(s, a, limits).gone
  {
    match a
    case Run(key, now) => RunningKeeps(s, key, limits, now);
    case _ =>
  }

  // ----- Settling -----------------------------------------------------------------------------

  /** What one step does to a write that is not settled: a success confirms it with that
      value, a failure or the end of the ledger leaves it unconfirmed exactly if it was
      dispatched, and nothing else settles it. */
  function OutcomeAfter(f: Flight, r: Ref, a: Action): Option<Outcome> {
    if f.outcome.Some? then f.outcome
    else
      match a
      case Succeed(ref, value, _) => if ref == r then Some(Confirmed(value)) else None
      case Fail(ref) => if ref != r then None else if f.dispatched then Some(Unconfirmed) else Some(NotSent)
      case Abandon(ref) => if ref == r && !f.dispatched then Some(NotSent) else None
      case Dispose => if f.dispatched then Some(Unconfirmed) else Some(NotSent)
      case _ => None
  }

  lemma RunSettles(s: State, key: string, limits: Limits, now: int, r: Ref)
    requires Inv(s, limits) && r in s.flights
    ensures var t := RunStep(s, key, limits, now).0; r in t.flights && t.flights[r] == s.flights[r]
  {
    RunningKeeps(s, key, limits, now);
  }

  lemma SuccessSettles(s: State, ref: Ref, value: string, limits: Limits, now: int)
    requires ref in s.flights
    ensures var f := s.flights[ref];
            SucceedStep(s, ref, value, limits, now).flights ==
            if f.outcome.Some? then s.flights else s.flights[ref := f.(outcome := Some(Confirmed(value)))]
  {
  }

  lemma FailSettles(s: State, ref: Ref)
    requires ref in s.flights
    ensures var f := s.flights[ref];
            FailStep(s, ref).flights ==
            if f.outcome.Some? then s.flights
            else s.flights[ref := f.(outcome := Some(if f.dispatched then Unconfirmed else NotSent))]
  {
  }

  lemma MarkSettles(s: State, ref: Ref, limits: Limits)
    requires ref in s.flights
    ensures Next(s, MarkDispatched(ref), limits).flights == s.flights[ref := s.flights[ref].(dispatched := true)]
  {
  }

  lemma DisposeSettles(s: State, limits: Limits, r: Ref)
    requires Inv(s, limits) && r in s.flights
    ensures var f, t := s.flights[r], Next(s, Dispose, limits);
            && r in t.flights
            && t.flights[r] ==
               if f.outcome.Some? then f else f.(outcome := Some(if f.dispatched then Unconfirmed else NotSent))
  {
  }

  /** Every write is settled as its own fate says, and marked only by its own dispatch. */
  lemma SettlesHonestly(s: State, a: Action, limits: Limits, r: Ref)
    requires Inv(s, limits) && Enabled(s, a) && r in s.flights
    ensures r in Next(s, a, limits).flights
    ensures Next(s, a, limits).flights[r] ==
            Flight(s.flights[r].key, s.flights[r].dispatched || a == MarkDispatched(r), OutcomeAfter(s.flights[r], r, a))
  {
    match a
    case Run(key, now) => RunSettles(s, key, limits, now, r);
    case MarkDispatched(ref) => MarkSettles(s, ref, limits);
    case Abandon(ref) => FailSettles(s, ref);
    case Succeed(ref, value, now) => SuccessSettles(s, ref, value, limits, now);
    case Fail(ref) => FailSettles(s, ref);
    case Dispose => DisposeSettles(s, limits, r);
  }

  // ----- Every slot has its write ---------------------------------------------------------------

  /** Step `k` of the run confirmed the write `r` with `value` at time `at`. */
  ghost predicate ConfirmedAt(run: seq<Moment>, k: nat, r: Ref, value: string, at: int) {
    && k < |run| && run[k].action == Succeed(r, value, at)
    && r in Last(run[..k]).flights && Last(run[..k]).flights[r].outcome.None?
  }

  lemma ConfirmedStill(rest: seq<Moment>, m: Moment, k: nat, r: Ref, value: string, at: int)
    requires ConfirmedAt(rest, k, r, value, at)
    ensures ConfirmedAt(rest + [m], k, r, value, at)
  {
    assert (rest + [m])[..k] == rest[..k];
  }

  ghost predicate SuccessBacked(run: seq<Moment>, limits: Limits, key: string, value: string, expiresAt: int, k: nat, r: Ref) {
    var s := Last(run);
    && ConfirmedAt(run, k, r, value, expiresAt - limits.ttl)
    && r in s.flights && r !in s.gone && s.flights[r].key == key && s.flights[r].outcome == Some(Confirmed(value))
  }

  ghost predicate UnknownBacked(s: State, key: string, r: Ref) {
    r in s.flights && s.flights[r].key == key && s.flights[r].outcome == Some(Unconfirmed)
  }

  ghost predicate Backed(run: seq<Moment>, limits: Limits, x: Slot) {
    match x.entry
    case Pending(_) => true
    case Success(value, expiresAt) => exists k: nat, r :: SuccessBacked(run, limits, x.key, value, expiresAt, k, r)
    case Indeterminate => exists r :: UnknownBacked(Last(run), x.key, r)
  }

  lemma StillBacked(rest: seq<Moment>, m: Moment, limits: Limits, x: Slot)
    requires Inv(Last(rest), limits) && Enabled(Last(rest), m.action) && m.after == Next(Last(rest), m.action, limits)
    requires x in Last(rest).entries && x in m.after.entries && !x.entry.Pending? && Backed(rest, limits, x)
    ensures Backed(rest + [m], limits, x)
  {
    var s, run := Last(rest), rest + [m];
    assert Last(run) == m.after;
    match x.entry
    case Success(value, expiresAt) =>
      var k: nat, r :| SuccessBacked(rest, limits, x.key, value, expiresAt, k, r);
      SettlesHonestly(s, m.action, limits, r);
      GoneTakesSlot(s, m.action, limits, x, r);
      ConfirmedStill(rest, m, k, r, value, expiresAt - limits.ttl);
      assert SuccessBacked(run, limits, x.key, value, expiresAt, k, r);
    case Indeterminate =>
      var r :| UnknownBacked(s, x.key, r);
      SettlesHonestly(s, m.action, limits, r);
      assert UnknownBacked(m.after, x.key, r);
  }

  lemma NewlyBacked(rest: seq<Moment>, m: Moment, limits: Limits, x: Slot)
    requires Inv(Last(rest), limits) && Enabled(Last(rest), m.action) && m.after == Next(Last(rest), m.action, limits)
    requires x in m.after.entries && x !in Last(rest).entries && !x.entry.Pending?
    ensures Backed(rest + [m], limits, x)
  {
    var s, run := Last(rest), rest + [m];
    assert Last(run) == m.after && run[..|rest|] == rest && run[|rest|] == m;
    SlotFrom(s, m.action, limits, x);
    var r := m.action.ref;
    SettlesHonestly(s, m.action, limits, r);
    if m.action.Succeed? {
      assert r !in s.gone;
      assert SuccessBacked(run, limits, x.key, m.action.value, x.entry.expiresAt, |rest|, r);
    } else {
      assert UnknownBacked(m.after, x.key, r);
    }
  }

  ghost predicate AllBacked(run: seq<Moment>, limits: Limits) {
    forall x :: x in Last(run).entries ==> Backed(run, limits, x)
  }

  /** In every run each cached success is the value that some step of the run confirmed a
      write of that key with, counted from then, and each pinned key has its failed write. */
  lemma {:induction false} EverySlotIsBacked(run: seq<Moment>, limits: Limits)
    requires limits.maxEntries >= 1 && IsRun(run, limits)
    ensures AllBacked(run, limits)
  {
    if run != [] {
      var rest, m := run[..|run| - 1], run[|run| - 1];
      assert run == rest + [m];
      EverySlotIsBacked(rest, limits);
      AtMostOncePerKey(rest, limits);
      forall x | x in Last(run).entries && !x.entry.Pending?
        ensures Backed(run, limits, x)
      {
        if x in Last(rest).entries {
          StillBacked(rest, m, limits, x);
        } else {
          NewlyBacked(rest, m, limits, x);
        }
      }
    }
  }

  /** A write is confirmed by one step only. */
  lemma ConfirmedOnce(run: seq<Moment>, limits: Limits, k1: nat, k2: nat, r: Ref, v1: string, v2: string, at1: int, at2: int)
    requires limits.maxEntries >= 1 && IsRun(run, limits)
    requires ConfirmedAt(run, k1, r, v1, at1) && ConfirmedAt(run, k2, r, v2, at2)
    ensures k1 == k2
  {
    if k1 < k2 {
      SettledFrom(run, limits, k1, r, v1, at1, k2);
    } else if k2 < k1 {
      SettledFrom(run, limits, k2, r, v2, at2, k1);
    }
  }

  lemma {:induction false} Prefixes(run: seq<Moment>, limits: Limits, n: nat)
    requires IsRun(run, limits) && n <= |run|
    ensures IsRun(run[..n], limits)
    decreases |run|
  {
    if n == |run| {
      assert run[..n] == run;
    } else {
      assert run[..|run| - 1][..n] == run[..n];
      Prefixes(run[..|run| - 1], limits, n);
    }
  }

  /** From the step that confirms a write on, it stays confirmed with that value. */
  lemma SettledFrom(run: seq<Moment>, limits: Limits, k: nat, r: Ref, value: string, at: int, n: nat)
    requires limits.maxEntries >= 1 && IsRun(run, limits) && ConfirmedAt(run, k, r, value, at) && k < n <= |run|
    ensures r in Last(run[..n]).flights && Last(run[..n]).flights[r].outcome == Some(Confirmed(value))
    ensures Last(run[..n]).flights[r].key == Last(run[..k]).flights[r].key
  {
    Prefixes(run, limits, n);
    Prefixes(run, limits, k + 1);
    Prefixes(run, limits, k);
    AtMostOncePerKey(run[..k], limits);
    assert run[..k + 1][..k] == run[..k] && run[..k + 1][k] == run[k];
    SettlesHonestly(Last(run[..k]), run[k].action, limits, r);
    assert run[..n][..k + 1] == run[..k + 1];
    CarriedAlong(run[..n], k + 1, limits, r);
  }

  // ----- Replies ----------------------------------------------------------------------------------

  /** Step `k` confirmed a write of the key with `value`, and it is neither expired at `now`
      nor forgotten. */
  ghost predicate Fresh(run: seq<Moment>, limits: Limits, key: string, value: string, now: int, k: nat, r: Ref, at: int) {
    && ConfirmedAt(run, k, r, value, at) && r !in Last(run).gone
    && r in Last(run).flights && Last(run).flights[r].key == key
    && now < at + limits.ttl
  }

  /** A caller is answered from the cache exactly with the value of a confirmed write of its
      key that is less than the time to live old and was not evicted. */
  lemma CachedExactly(run: seq<Moment>, limits: Limits, key: string, now: int, value: string)
    requires limits.maxEntries >= 1 && IsRun(run, limits)
    ensures var s := Last(run);
            RunStep(s, key, limits, now).1 == Cached(value) <==>
            !s.disposed && exists k: nat, r, at :: Fresh(run, limits, key, value, now, k, r, at)
  {
    var s := Last(run);
    AtMostOncePerKey(run, limits);
    EverySlotIsBacked(run, limits);
    if RunStep(s, key, limits, now).1 == Cached(value) {
      CachedIsFresh(run, limits, key, value, now);
    }
    if !s.disposed {
      if k: nat, r, at :| Fresh(run, limits, key, value, now, k, r, at) {
        FreshIsCached(run, limits, key, value, now, k, r, at);
      }
    }
  }

  lemma CachedIsFresh(run: seq<Moment>, limits: Limits, key: string, value: string, now: int)
    requires RunStep(Last(run), key, limits, now).1 == Cached(value)
    requires AllBacked(run, limits)
    ensures exists k: nat, r, at :: Fresh(run, limits, key, value, now, k, r, at)
  {
    var s := Last(run);
    var x := s.entries[IndexOf(s.entries, key)];
    assert x.entry.value == value && x.entry.expiresAt > now;
    assert Backed(run, limits, x);
    var k: nat, r :| SuccessBacked(run, limits, key, value, x.entry.expiresAt, k, r);
    assert Fresh(run, limits, key, value, now, k, r, x.entry.expiresAt - limits.ttl);
  }

  lemma FreshIsCached(run: seq<Moment>, limits: Limits, key: string, value: string, now: int, k: nat, r: Ref, at: int)
    requires limits.maxEntries >= 1 && IsRun(run, limits) && !Last(run).disposed
    requires Inv(Last(run), limits) && OneLive(Last(run)) && AllBacked(run, limits)
    requires Fresh(run, limits, key, value, now, k, r, at)
    ensures RunStep(Last(run), key, limits, now).1 == Cached(value)
  {
    var s := Last(run);
    assert run[..|run|] == run;
    SettledFrom(run, limits, k, r, value, at, |run|);
    var x := LiveSlot(s, limits, r);
    assert Backed(run, limits, x);
    var k', r' :| SuccessBacked(run, limits, key, x.entry.value, x.entry.expiresAt, k', r');
    LiveAlone(s, r, r');
    ConfirmedOnce(run, limits, k, k', r, value, x.entry.value, at, x.entry.expiresAt - limits.ttl);
  }

  lemma LiveSlot(s: State, limits: Limits, r: Ref) returns (x: Slot)
    requires Inv(s, limits) && !s.disposed && r in s.flights && r !in s.gone
    requires s.flights[r].outcome.Some? && s.flights[r].outcome.value.Confirmed?
    ensures x in s.entries && x.key == s.flights[r].key && x.entry.Success?
    ensures Lookup(s.entries, x.key) == Some(x.entry)
  {
    assert FlightOk(s, r);
    x := s.entries[IndexOf(s.entries, s.flights[r].key)];
  }

  lemma LiveAlone(s: State, r: Ref, q: Ref)
    requires OneLive(s) && r in s.flights && q in s.flights && s.flights[r].key == s.flights[q].key
    requires !Over(s, r) && !Over(s, q)
    ensures r == q
  {
    assert r.n != q.n || r == q;
  }

  /** When a caller joins, is told that the outcome is unknown, or is turned away; and none
      of these replies, nor a cached one, changes anything. */
  lemma RepliesExactly(run: seq<Moment>, limits: Limits, key: string, now: int)
    requires limits.maxEntries >= 1 && IsRun(run, limits)
    ensures var s := Last(run);
            var (t, reply) := RunStep(s, key, limits, now);
            && (reply == Rejected <==> s.disposed)
            && (forall r :: reply == Joined(r) <==>
                  !s.disposed && r in s.flights && s.flights[r].key == key && s.flights[r].outcome.None?)
            && (reply == Unknown <==> !s.disposed && exists r :: UnknownBacked(s, key, r))
            && (reply.Rejected? || reply.Joined? || reply.Unknown? || reply.Cached? ==> t == s)
  {
    var s := Last(run);
    AtMostOncePerKey(run, limits);
    EverySlotIsBacked(run, limits);
    var reply := RunStep(s, key, limits, now).1;
    var i := IndexOf(s.entries, key);
    forall r
      ensures reply == Joined(r) <==>
              !s.disposed && r in s.flights && s.flights[r].key == key && s.flights[r].outcome.None?
    {
      if !s.disposed && r in s.flights {
        assert FlightOk(s, r);
      }
      if reply == Joined(r) {
        assert Lookup(s.entries, key) == Some(Pending(r));
      }
    }
    if reply == Unknown {
      assert Backed(run, limits, s.entries[i]);
    }
    if !s.disposed {
      if r :| UnknownBacked(s, key, r) {
        assert FlightOk(s, r);
      }
    }
  }

  // ----- Forgetting -------------------------------------------------------------------------------

  /** What is newly forgotten had a cached success, and is recorded as expired only then. */
  ghost predicate Drops(s: State, t: State) {
    forall r :: r in t.gone && r !in s.gone ==>
      && r in s.flights && s.flights[r].outcome.Some? && s.flights[r].outcome.value.Confirmed?
      && exists x :: DroppedSlot(s, x, s.flights[r].key, t.gone[r])
  }

  ghost predicate DroppedSlot(s: State, x: Slot, key: string, why: Drop) {
    && x in s.entries && x.key == key && x.entry.Success?
    && (why.Expired? ==> why.expiresAt == x.entry.expiresAt <= why.now)
  }

  lemma ExpiryDrops(s: State, now: int)
    requires DistinctKeys(s.entries)
    ensures Drops(s, ForgetExpired(s, now))
  {
    var t := ForgetExpired(s, now);
    forall r | r in t.gone && r !in s.gone
      ensures exists x :: DroppedSlot(s, x, s.flights[r].key, t.gone[r])
    {
      var x := s.entries[IndexOf(s.entries, s.flights[r].key)];
      assert DroppedSlot(s, x, s.flights[r].key, t.gone[r]);
    }
  }

  lemma ForgettingDrops(s: State, i: nat, why: Drop)
    requires i < |s.entries| && s.entries[i].entry.Success?
    requires why.Expired? ==> why.expiresAt == s.entries[i].entry.expiresAt <= why.now
    ensures Drops(s, Forget(s, i, why))
  {
    var t := Forget(s, i, why);
    forall r | r in t.gone && r !in s.gone
      ensures exists x :: DroppedSlot(s, x, s.flights[r].key, t.gone[r])
    {
      assert DroppedSlot(s, s.entries[i], s.flights[r].key, why);
    }
  }

  lemma DropsOn(s: State, t: State, u: State)
    requires Keeps(s, t) && Drops(s, t) && Drops(t, u) && t.flights == s.flights
    requires forall r :: r in t.gone && r in u.gone ==> u.gone[r] == t.gone[r]
    ensures Drops(s, u)
  {
    forall r | r in u.gone && r !in s.gone
      ensures r in s.flights && s.flights[r].outcome.Some? && s.flights[r].outcome.value.Confirmed?
      ensures exists x :: DroppedSlot(s, x, s.flights[r].key, u.gone[r])
    {
      if r !in t.gone {
        var x :| DroppedSlot(t, x, t.flights[r].key, u.gone[r]);
        assert DroppedSlot(s, x, s.flights[r].key, u.gone[r]);
      }
    }
  }

  lemma RoomDrops(s: State, limits: Limits, now: int)
    requires DistinctKeys(s.entries)
    ensures Drops(s, MakeRoom(s, limits, now).0)
  {
    ExpiryDrops(s, now);
    ExpiryKeeps(s, now);
    var t := ForgetExpired(s, now);
    var i := FirstSuccess(t.entries);
    if i < |t.entries| {
      ForgettingDrops(t, i, Evicted);
      DropsOn(s, t, Forget(t, i, Evicted));
    }
  }

  lemma ReserveDrops(s: State, key: string, limits: Limits, now: int)
    requires DistinctKeys(s.entries)
    ensures Drops(s, Reserve(s, key, limits, now).0)
  {
    RoomDrops(s, limits, now);
    assert Reserve(s, key, limits, now).0.gone == MakeRoom(s, limits, now).0.gone;
  }

  lemma RoomKeepsGone(s: State, limits: Limits, now: int)
    ensures forall r :: r in s.gone ==> r in MakeRoom(s, limits, now).0.gone && MakeRoom(s, limits, now).0.gone[r] == s.gone[r]
  {
  }

  /** An expired success goes before room is made for its key's next write. */
  lemma ExpiredDrops(s: State, key: string, limits: Limits, now: int, i: nat)
    requires DistinctKeys(s.entries) && i < |s.entries| && IsExpired(s.entries[i].entry, now)
    ensures Drops(s, Reserve(Forget(s, i, Expired(s.entries[i].entry.expiresAt, now)), key, limits, now).0)
  {
    var why := Expired(s.entries[i].entry.expiresAt, now);
    var t := Forget(s, i, why);
    ForgettingDrops(s, i, why);
    ForgettingKeeps(s, i, why);
    Removed(s.entries, i);
    ReserveDrops(t, key, limits, now);
    RoomKeepsGone(t, limits, now);
    assert Reserve(t, key, limits, now).0.gone == MakeRoom(t, limits, now).0.gone;
    DropsOn(s, t, Reserve(t, key, limits, now).0);
  }

  lemma RunDrops(s: State, key: string, limits: Limits, now: int)
    requires Inv(s, limits)
    ensures Drops(s, RunStep(s, key, limits, now).0)
  {
    var i := IndexOf(s.entries, key);
    if !s.disposed {
      if i == |s.entries| {
        ReserveDrops(s, key, limits, now);
      } else if IsExpired(s.entries[i].entry, now) {
        ExpiredDrops(s, key, limits, now, i);
      }
    }
  }

  lemma StepDrops(s: State, a: Action, limits: Limits)
    requires Inv(s, limits) && Enabled(s, a)
    ensures Drops(s, Next(s, a, limits))
  {
    match a
    case Run(key, now) => RunDrops(s, key, limits, now);
    case _ =>
  }

  /** A forgotten write was confirmed by step `k`; recorded as expired, its time to live had
      run out when it was dropped. */
  ghost predicate ForgottenFor(run: seq<Moment>, limits: Limits, r: Ref, k: nat, value: string, at: int)
    requires r in Last(run).gone
  {
    var why := Last(run).gone[r];
    ConfirmedAt(run, k, r, value, at) && (why.Expired? ==> why.expiresAt == at + limits.ttl <= why.now)
  }

  /** In every run a write is forgotten only after it was confirmed, and as expired only
      once its time to live, counted from that step, was over. */
  lemma {:induction false} ForgottenInTime(run: seq<Moment>, limits: Limits)
    requires limits.maxEntries >= 1 && IsRun(run, limits)
    ensures forall r :: r in Last(run).gone ==> exists k: nat, value, at :: ForgottenFor(run, limits, r, k, value, at)
  {
    if run != [] {
      var rest, m := run[..|run| - 1], run[|run| - 1];
      assert run == rest + [m];
      ForgottenInTime(rest, limits);
      AtMostOncePerKey(rest, limits);
      EverySlotIsBacked(rest, limits);
      StepDrops(Last(rest), m.action, limits);
      forall r | r in m.after.gone
        ensures exists k: nat, value, at :: ForgottenFor(run, limits, r, k, value, at)
      {
        if r in Last(rest).gone {
          OutcomeFinal(Last(rest), m.action, limits, r);
          var k: nat, value, at :| ForgottenFor(rest, limits, r, k, value, at);
          ConfirmedStill(rest, m, k, r, value, at);
          assert ForgottenFor(run, limits, r, k, value, at);
        } else {
          NewlyForgotten(rest, m, limits, r);
        }
      }
    }
  }

  lemma SlotDropped(s: State, t: State, r: Ref) returns (x: Slot)
    requires Drops(s, t) && r in t.gone && r !in s.gone
    ensures r in s.flights && !Over(s, r) && DroppedSlot(s, x, s.flights[r].key, t.gone[r])
  {
    x :| DroppedSlot(s, x, s.flights[r].key, t.gone[r]);
  }

  lemma WriteBehind(run: seq<Moment>, limits: Limits, x: Slot) returns (k: nat, r: Ref)
    requires AllBacked(run, limits) && x in Last(run).entries && x.entry.Success?
    ensures SuccessBacked(run, limits, x.key, x.entry.value, x.entry.expiresAt, k, r)
  {
    assert Backed(run, limits, x);
    k, r :| SuccessBacked(run, limits, x.key, x.entry.value, x.entry.expiresAt, k, r);
  }

  lemma NewlyForgotten(rest: seq<Moment>, m: Moment, limits: Limits, r: Ref)
    requires OneLive(Last(rest)) && AllBacked(rest, limits)
    requires Drops(Last(rest), m.after) && r in m.after.gone && r !in Last(rest).gone
    ensures exists k: nat, value, at :: ForgottenFor(rest + [m], limits, r, k, value, at)
  {
    var x := SlotDropped(Last(rest), m.after, r);
    var k, q := WriteBehind(rest, limits, x);
    LiveAlone(Last(rest), r, q);
    ConfirmedStill(rest, m, k, r, x.entry.value, x.entry.expiresAt - limits.ttl);
    assert ForgottenFor(rest + [m], limits, r, k, x.entry.value, x.entry.expiresAt - limits.ttl);
  }
}
