/** The write-deduplication ledger (integrations/openclaw/src/flush-ledger.ts): one bounded,
    insertion-ordered table of pending, successful and unconfirmed writes. */
module FlushLedger {
  import opened Common

  /** Identity of one pending entry. */
  datatype Ref = Ref(n: nat)

  datatype Entry =
    | Pending(ref: Ref)
    | Success(value: string, expiresAt: int)
    | Indeterminate

  datatype Slot = Slot(key: string, entry: Entry)

  datatype Outcome =
    | Confirmed(value: string)
    | NotSent
    | Unconfirmed

  /** One invocation of `start`, and what its waiters were told. */
  datatype Flight = Flight(key: string, dispatched: bool, outcome: Option<Outcome>)

  /** Why a cached success was forgotten. */
  datatype Drop = Expired(expiresAt: int, now: int) | Evicted

  datatype State = State(
    entries: seq<Slot>,
    flights: map<Ref, Flight>,
    gone: map<Ref, Drop>,
    nextRef: nat,
    disposed: bool)

  datatype Limits = Limits(maxEntries: nat, ttl: int)

  datatype Reply =
    | Rejected
    | NoCapacity
    | Joined(ref: Ref)
    | Cached(value: string)
    | Unknown
    | Started(ref: Ref)

  datatype Action =
    | Run(key: string, now: int)
    | MarkDispatched(ref: Ref)
    | Abandon(ref: Ref)
    | Succeed(ref: Ref, value: string, now: int)
    | Fail(ref: Ref)
    | Dispose

  // ----- The table ------------------------------------------------------------------------

  function IndexOf(entries: seq<Slot>, key: string): (i: nat)
    ensures i <= |entries|
    ensures i < |entries| ==> entries[i].key == key
    ensures forall j :: 0 <= j < i ==> entries[j].key != key
  {
    if entries == [] || entries[0].key == key then 0 else 1 + IndexOf(entries[1..], key)
  }

  function Lookup(entries: seq<Slot>, key: string): Option<Entry> {
    var i := IndexOf(entries, key);
    if i < |entries| then Some(entries[i].entry) else None
  }

  function RemoveAt(entries: seq<Slot>, i: nat): seq<Slot>
    requires i < |entries|
  {
    entries[..i] + entries[i + 1..]
  }

  ghost predicate DistinctKeys(entries: seq<Slot>) {
    forall i, j :: 0 <= i < j < |entries| ==> entries[i].key != entries[j].key
  }

  lemma Found(entries: seq<Slot>, i: nat)
    requires DistinctKeys(entries) && i < |entries|
    ensures IndexOf(entries, entries[i].key) == i && Lookup(entries, entries[i].key) == Some(entries[i].entry)
  {
    assert forall j :: 0 <= j < i ==> entries[j].key != entries[i].key;
  }

  lemma Absent(entries: seq<Slot>, key: string)
    requires forall i :: 0 <= i < |entries| ==> entries[i].key != key
    ensures Lookup(entries, key) == None
  {
  }

  lemma LookupOf(entries: seq<Slot>, key: string, e: Entry)
    requires DistinctKeys(entries)
    ensures Lookup(entries, key) == Some(e) <==> Slot(key, e) in entries
  {
    if Slot(key, e) in entries {
      var i :| 0 <= i < |entries| && entries[i] == Slot(key, e);
      Found(entries, i);
    }
  }

  lemma Removed(entries: seq<Slot>, i: nat)
    requires DistinctKeys(entries) && i < |entries|
    ensures DistinctKeys(RemoveAt(entries, i))
    ensures forall s :: s in RemoveAt(entries, i) <==> s in entries && s != entries[i]
    ensures forall k :: Lookup(RemoveAt(entries, i), k) == if k == entries[i].key then None else Lookup(entries, k)
  {
    var out := RemoveAt(entries, i);
    forall s | s in entries && s != entries[i]
      ensures s in out
    {
      var j :| 0 <= j < |entries| && entries[j] == s;
      assert out[if j < i then j else j - 1] == s;
    }
    forall k
      ensures Lookup(out, k) == if k == entries[i].key then None else Lookup(entries, k)
    {
      if k == entries[i].key || Lookup(entries, k) == None {
        Absent(out, k);
      } else {
        var e := Lookup(entries, k).value;
        LookupOf(entries, k, e);
        LookupOf(out, k, e);
      }
    }
  }

  lemma Appended(entries: seq<Slot>, key: string, e: Entry)
    requires DistinctKeys(entries) && Lookup(entries, key) == None
    ensures DistinctKeys(entries + [Slot(key, e)])
    ensures forall k :: Lookup(entries + [Slot(key, e)], k) == if k == key then Some(e) else Lookup(entries, k)
  {
    var out := entries + [Slot(key, e)];
    assert IndexOf(entries, key) == |entries|;
    assert DistinctKeys(out);
    forall k
      ensures Lookup(out, k) == if k == key then Some(e) else Lookup(entries, k)
    {
      if k == key {
        assert out[|entries|] == Slot(key, e);
        Found(out, |entries|);
      } else if Lookup(entries, k) == None {
        assert IndexOf(entries, k) == |entries|;
        Absent(out, k);
      } else {
        var i := IndexOf(entries, k);
        assert out[i] == entries[i];
        Found(out, i);
      }
    }
  }

  lemma Replaced(entries: seq<Slot>, i: nat, e: Entry)
    requires DistinctKeys(entries) && i < |entries|
    ensures DistinctKeys(entries[i := Slot(entries[i].key, e)])
    ensures forall k :: Lookup(entries[i := Slot(entries[i].key, e)], k) ==
                        if k == entries[i].key then Some(e) else Lookup(entries, k)
  {
    var out := entries[i := Slot(entries[i].key, e)];
    assert forall j :: 0 <= j < |out| ==> out[j].key == entries[j].key;
    forall k
      ensures Lookup(out, k) == if k == entries[i].key then Some(e) else Lookup(entries, k)
    {
      if k == entries[i].key {
        Found(out, i);
      } else if Lookup(entries, k) == None {
        assert IndexOf(entries, k) == |entries|;
        Absent(out, k);
      } else {
        Found(out, IndexOf(entries, k));
      }
    }
  }

  // ----- Making room ---------------------------------------------------------------------------

  predicate IsExpired(e: Entry, now: int) {
    e.Success? && e.expiresAt <= now
  }

  function Unexpired(entries: seq<Slot>, now: int): seq<Slot> {
    if entries == [] then []
    else
      var last := entries[|entries| - 1];
      Unexpired(entries[..|entries| - 1], now) + if IsExpired(last.entry, now) then [] else [last]
  }

  function FirstSuccess(entries: seq<Slot>): (i: nat)
    ensures i <= |entries|
    ensures i < |entries| ==> entries[i].entry.Success?
    ensures forall j :: 0 <= j < i ==> !entries[j].entry.Success?
  {
    if entries == [] || entries[0].entry.Success? then 0 else 1 + FirstSuccess(entries[1..])
  }

  lemma {:induction false} UnexpiredKeeps(entries: seq<Slot>, now: int)
    requires DistinctKeys(entries)
    ensures DistinctKeys(Unexpired(entries, now)) && |Unexpired(entries, now)| <= |entries|
    ensures forall s :: s in Unexpired(entries, now) <==> s in entries && !IsExpired(s.entry, now)
  {
    if entries != [] {
      var rest, last := entries[..|entries| - 1], entries[|entries| - 1];
      UnexpiredKeeps(rest, now);
      assert entries == rest + [last];
      forall i | 0 <= i < |Unexpired(rest, now)|
        ensures Unexpired(rest, now)[i].key != last.key
      {
        assert Unexpired(rest, now)[i] in rest;
      }
    }
  }

  lemma UnexpiredLookup(entries: seq<Slot>, now: int, key: string)
    requires DistinctKeys(entries)
    ensures DistinctKeys(Unexpired(entries, now))
    ensures var e := Lookup(entries, key);
            Lookup(Unexpired(entries, now), key) == if e.Some? && IsExpired(e.value, now) then None else e
  {
    UnexpiredKeeps(entries, now);
    var e := Lookup(entries, key);
    if e.Some? {
      LookupOf(entries, key, e.value);
      LookupOf(Unexpired(entries, now), key, e.value);
    }
    var e' := Lookup(Unexpired(entries, now), key);
    if e'.Some? {
      LookupOf(Unexpired(entries, now), key, e'.value);
      LookupOf(entries, key, e'.value);
    }
  }

  // ----- Steps ------------------------------------------------------------------------------------

  /** Record why the confirmed writes of the dropped keys are no longer cached. */
  function ForgetExpired(s: State, now: int): State {
    var lost := map r | r in s.flights && r !in s.gone && s.flights[r].outcome.Some? &&
                        s.flights[r].outcome.value.Confirmed? &&
                        (var e := Lookup(s.entries, s.flights[r].key); e.Some? && IsExpired(e.value, now))
                      :: Expired(Lookup(s.entries, s.flights[r].key).value.expiresAt, now);
    s.(entries := Unexpired(s.entries, now), gone := s.gone + lost)
  }

  function Forget(s: State, i: nat, why: Drop): State
    requires i < |s.entries|
  {
    var lost := map r | r in s.flights && r !in s.gone && s.flights[r].outcome.Some? &&
                        s.flights[r].outcome.value.Confirmed? && s.flights[r].key == s.entries[i].key
                      :: why;
    s.(entries := RemoveAt(s.entries, i), gone := s.gone + lost)
  }

  /** Drop the expired, then the oldest success; None when nothing can be dropped. */
  function MakeRoom(s: State, limits: Limits, now: int): (State, bool) {
    var t := ForgetExpired(s, now);
    if |t.entries| < limits.maxEntries then (t, true)
    else
      var i := FirstSuccess(t.entries);
      if i == |t.entries| then (t, false) else (Forget(t, i, Evicted), true)
  }

  function Reserve(s: State, key: string, limits: Limits, now: int): (State, Reply) {
    var (t, ok) := MakeRoom(s, limits, now);
    if !ok then (t, NoCapacity)
    else
      var ref := Ref(t.nextRef);
      (t.(entries := t.entries + [Slot(key, Pending(ref))],
          flights := t.flights[ref := Flight(key, false, None)],
          nextRef := t.nextRef + 1), Started(ref))
  }

  function RunStep(s: State, key: string, limits: Limits, now: int): (State, Reply) {
    if s.disposed then (s, Rejected)
    else
      var i := IndexOf(s.entries, key);
      if i == |s.entries| then Reserve(s, key, limits, now)
      else
        match s.entries[i].entry
        case Pending(ref) => (s, Joined(ref))
        case Indeterminate => (s, Unknown)
        case Success(value, expiresAt) =>
          if expiresAt > now then (s, Cached(value))
          else Reserve(Forget(s, i, Expired(expiresAt, now)), key, limits, now)
  }

  function Settle(s: State, ref: Ref, outcome: Outcome): State
    requires ref in s.flights
  {
    s.(flights := s.flights[ref := s.flights[ref].(outcome := Some(outcome))])
  }

  function SucceedStep(s: State, ref: Ref, value: string, limits: Limits, now: int): State
    requires ref in s.flights
  {
    var f := s.flights[ref];
    if f.outcome.Some? then s
    else
      var t := Settle(s, ref, Confirmed(value));
      var i := IndexOf(s.entries, f.key);
      if i < |s.entries| && s.entries[i].entry == Pending(ref) then
        t.(entries := RemoveAt(s.entries, i) + [Slot(f.key, Success(value, now + limits.ttl))])
      else t
  }

  function FailStep(s: State, ref: Ref): State
    requires ref in s.flights
  {
    var f := s.flights[ref];
    if f.outcome.Some? then s
    else
      var i := IndexOf(s.entries, f.key);
      var mine := i < |s.entries| && s.entries[i].entry == Pending(ref);
      if !f.dispatched then
        Settle(s, ref, NotSent).(entries := if mine then RemoveAt(s.entries, i) else s.entries)
      else
        Settle(s, ref, Unconfirmed).(
          entries := if mine then s.entries[i := Slot(f.key, Indeterminate)] else s.entries)
  }

  function SettledByDispose(f: Flight): Flight {
    f.(outcome := Some(if f.dispatched then Unconfirmed else NotSent))
  }

  function DisposeStep(s: State): State {
    if s.disposed then s
    else
      s.(disposed := true, entries := [],
         flights := map r | r in s.flights ::
           if s.flights[r].outcome.None? then SettledByDispose(s.flights[r]) else s.flights[r])
  }

  ghost predicate Enabled(s: State, a: Action) {
    match a
    case Run(_, _) => true
    case Dispose => true
    case _ => a.ref in s.flights
  }

  function Next(s: State, a: Action, limits: Limits): State
    requires Enabled(s, a)
  {
    match a
    case Run(key, now) => RunStep(s, key, limits, now).0
    case MarkDispatched(ref) => s.(flights := s.flights[ref := s.flights[ref].(dispatched := true)])
    case Abandon(ref) => if s.flights[ref].dispatched then s else FailStep(s, ref)
    case Succeed(ref, value, now) => SucceedStep(s, ref, value, limits, now)
    case Fail(ref) => FailStep(s, ref)
    case Dispose => DisposeStep(s)
  }

  // ----- What every step keeps -----------------------------------------------------------------------

  ghost predicate FlightOk(s: State, r: Ref)
    requires r in s.flights
  {
    var e := Lookup(s.entries, s.flights[r].key);
    match s.flights[r].outcome
    case None => e == Some(Pending(r))
    case Some(Confirmed(_)) => r in s.gone || (e.Some? && e.value.Success?)
    case Some(NotSent) => true
    case Some(Unconfirmed) => e == Some(Indeterminate)
  }

  ghost predicate PendingOk(s: State) {
    forall r, k :: Lookup(s.entries, k) == Some(Pending(r)) ==>
      r in s.flights && s.flights[r].key == k && s.flights[r].outcome.None?
  }

  /** A success is forgotten as expired only once it has expired. */
  ghost predicate GoneOk(s: State) {
    forall r :: r in s.gone ==>
      && r in s.flights && s.flights[r].outcome.Some? && s.flights[r].outcome.value.Confirmed?
      && (s.gone[r].Expired? ==> s.gone[r].expiresAt <= s.gone[r].now)
  }

  ghost predicate Inv(s: State, limits: Limits) {
    && limits.maxEntries >= 1
    && |s.entries| <= limits.maxEntries
    && DistinctKeys(s.entries)
    && PendingOk(s) && GoneOk(s)
    && (forall r :: r in s.flights ==> r.n < s.nextRef)
    && (s.disposed ==> s.entries == [] && forall r :: r in s.flights ==> s.flights[r].outcome.Some?)
    && (!s.disposed ==> forall r :: r in s.flights ==> FlightOk(s, r))
  }

  lemma ForgetExpiredKeeps(s: State, limits: Limits, now: int)
    requires Inv(s, limits) && !s.disposed
    ensures Inv(ForgetExpired(s, now), limits)
  {
    var t := ForgetExpired(s, now);
    UnexpiredKeeps(s.entries, now);
    forall k
      ensures var e := Lookup(s.entries, k);
              Lookup(t.entries, k) == if e.Some? && IsExpired(e.value, now) then None else e
    {
      UnexpiredLookup(s.entries, now, k);
    }
    forall r | r in t.flights
      ensures FlightOk(t, r)
    {
      assert FlightOk(s, r);
    }
  }

  lemma ForgetKeeps(s: State, limits: Limits, i: nat, why: Drop)
    requires Inv(s, limits) && !s.disposed && i < |s.entries| && s.entries[i].entry.Success?
    requires why.Expired? ==> why.expiresAt <= why.now
    ensures Inv(Forget(s, i, why), limits)
    ensures Lookup(Forget(s, i, why).entries, s.entries[i].key) == None
  {
    var t := Forget(s, i, why);
    Removed(s.entries, i);
    Found(s.entries, i);
    forall r | r in t.flights
      ensures FlightOk(t, r)
    {
      assert FlightOk(s, r);
    }
  }

  lemma MakeRoomKeeps(s: State, limits: Limits, now: int)
    requires Inv(s, limits) && !s.disposed
    ensures var (t, ok) := MakeRoom(s, limits, now);
            && Inv(t, limits) && !t.disposed && t.flights == s.flights && t.nextRef == s.nextRef
            && (ok ==> |t.entries| < limits.maxEntries)
  {
    ForgetExpiredKeeps(s, limits, now);
    var t := ForgetExpired(s, now);
    var i := FirstSuccess(t.entries);
    if |t.entries| >= limits.maxEntries && i < |t.entries| {
      ForgetKeeps(t, limits, i, Evicted);
    }
  }

  /** Making room never brings a key back. */
  lemma MakeRoomOnlyDrops(s: State, limits: Limits, now: int, key: string)
    requires DistinctKeys(s.entries)
    ensures var t := MakeRoom(s, limits, now).0;
            Lookup(t.entries, key) == Lookup(s.entries, key) || Lookup(t.entries, key) == None
  {
    UnexpiredLookup(s.entries, now, key);
    var t := ForgetExpired(s, now);
    var i := FirstSuccess(t.entries);
    if i < |t.entries| {
      Removed(t.entries, i);
    }
  }

  lemma ReserveKeeps(s: State, key: string, limits: Limits, now: int)
    requires Inv(s, limits) && !s.disposed && Lookup(s.entries, key) == None
    ensures Inv(Reserve(s, key, limits, now).0, limits)
  {
    var (t, ok) := MakeRoom(s, limits, now);
    MakeRoomKeeps(s, limits, now);
    MakeRoomOnlyDrops(s, limits, now, key);
    if ok {
      var ref := Ref(t.nextRef);
      var u := Reserve(s, key, limits, now).0;
      Appended(t.entries, key, Pending(ref));
      forall r | r in u.flights
        ensures FlightOk(u, r)
      {
        if r != ref {
          assert FlightOk(t, r);
        }
      }
    }
  }

  lemma RunKeeps(s: State, key: string, limits: Limits, now: int)
    requires Inv(s, limits)
    ensures Inv(RunStep(s, key, limits, now).0, limits)
  {
    var i := IndexOf(s.entries, key);
    if !s.disposed {
      if i == |s.entries| {
        ReserveKeeps(s, key, limits, now);
      } else if s.entries[i].entry.Success? && s.entries[i].entry.expiresAt <= now {
        var why := Expired(s.entries[i].entry.expiresAt, now);
        ForgetKeeps(s, limits, i, why);
        ReserveKeeps(Forget(s, i, why), key, limits, now);
      }
    }
  }

  lemma SettleKeeps(s: State, limits: Limits, ref: Ref, outcome: Outcome, entries: seq<Slot>, e: Option<Entry>)
    requires Inv(s, limits) && !s.disposed && ref in s.flights && s.flights[ref].outcome.None?
    requires DistinctKeys(entries) && |entries| <= limits.maxEntries
    requires forall k :: Lookup(entries, k) == if k == s.flights[ref].key then e else Lookup(s.entries, k)
    requires match outcome
             case Confirmed(_) => e.Some? && e.value.Success?
             case NotSent => e == None
             case Unconfirmed => e == Some(Indeterminate)
    ensures Inv(Settle(s, ref, outcome).(entries := entries), limits)
  {
    var t := Settle(s, ref, outcome).(entries := entries);
    assert FlightOk(s, ref);
    forall r | r in t.flights
      ensures FlightOk(t, r)
    {
      assert FlightOk(s, r);
    }
  }

  lemma MovedToEnd(entries: seq<Slot>, i: nat, e: Entry)
    requires DistinctKeys(entries) && i < |entries|
    ensures DistinctKeys(RemoveAt(entries, i) + [Slot(entries[i].key, e)])
    ensures forall k :: Lookup(RemoveAt(entries, i) + [Slot(entries[i].key, e)], k) ==
                        if k == entries[i].key then Some(e) else Lookup(entries, k)
  {
    Removed(entries, i);
    Appended(RemoveAt(entries, i), entries[i].key, e);
  }

  lemma SucceedIs(s: State, ref: Ref, value: string, limits: Limits, now: int, i: nat)
    requires ref in s.flights && s.flights[ref].outcome.None?
    requires i == IndexOf(s.entries, s.flights[ref].key) < |s.entries| && s.entries[i].entry == Pending(ref)
    ensures SucceedStep(s, ref, value, limits, now) ==
            Settle(s, ref, Confirmed(value)).(
              entries := RemoveAt(s.entries, i) + [Slot(s.flights[ref].key, Success(value, now + limits.ttl))])
  {
  }

  lemma SucceedKeeps(s: State, ref: Ref, value: string, limits: Limits, now: int)
    requires Inv(s, limits) && ref in s.flights
    ensures Inv(SucceedStep(s, ref, value, limits, now), limits)
  {
    var f := s.flights[ref];
    if f.outcome.None? {
      assert FlightOk(s, ref);
      var i := IndexOf(s.entries, f.key);
      var e := Success(value, now + limits.ttl);
      MovedToEnd(s.entries, i, e);
      SettleKeeps(s, limits, ref, Confirmed(value), RemoveAt(s.entries, i) + [Slot(f.key, e)], Some(e));
      SucceedIs(s, ref, value, limits, now, i);
    }
  }

  lemma FailKeeps(s: State, ref: Ref, limits: Limits)
    requires Inv(s, limits) && ref in s.flights
    ensures Inv(FailStep(s, ref), limits)
  {
    var f := s.flights[ref];
    if f.outcome.None? {
      assert FlightOk(s, ref);
      var i := IndexOf(s.entries, f.key);
      if !f.dispatched {
        Removed(s.entries, i);
        SettleKeeps(s, limits, ref, NotSent, RemoveAt(s.entries, i), None);
      } else {
        Replaced(s.entries, i, Indeterminate);
        SettleKeeps(s, limits, ref, Unconfirmed, s.entries[i := Slot(f.key, Indeterminate)], Some(Indeterminate));
      }
    }
  }

  lemma StepKeeps(s: State, a: Action, limits: Limits)
    requires Inv(s, limits) && Enabled(s, a)
    ensures Inv(Next(s, a, limits), limits)
  {
    match a
    case Run(key, now) => RunKeeps(s, key, limits, now);
    case MarkDispatched(ref) =>
      var t := Next(s, a, limits);
      forall r | r in t.flights && !t.disposed
        ensures FlightOk(t, r)
      {
        assert FlightOk(s, r);
      }
    case Abandon(ref) => FailKeeps(s, ref, limits);
    case Succeed(ref, value, now) => SucceedKeeps(s, ref, value, limits, now);
    case Fail(ref) => FailKeeps(s, ref, limits);
    case Dispose =>
  }

  // ----- Runs ---------------------------------------------------------------------------------------------

  function Initial(): State {
    State([], map[], map[], 0, false)
  }

  datatype Moment = Moment(action: Action, after: State)

  function Last(run: seq<Moment>): State {
    if run == [] then Initial() else run[|run| - 1].after
  }

  ghost predicate IsRun(run: seq<Moment>, limits: Limits) {
    run == [] ||
    (var rest, m := run[..|run| - 1], run[|run| - 1];
     IsRun(rest, limits) && Enabled(Last(rest), m.action) && m.after == Next(Last(rest), m.action, limits))
  }

  /** An invocation that no longer blocks its key: it provably sent nothing, or its
      confirmed result has expired or been evicted. */
  ghost predicate Over(s: State, r: Ref)
    requires r in s.flights
  {
    s.flights[r].outcome.Some? &&
    (s.flights[r].outcome.value.NotSent? || (s.flights[r].outcome.value.Confirmed? && r in s.gone))
  }

  /** `start` is invoked again for a key only once every earlier invocation is over. */
  lemma StartsOnlyAfter(s: State, key: string, limits: Limits, now: int)
    requires Inv(s, limits) && RunStep(s, key, limits, now).1.Started?
    ensures var (t, reply) := RunStep(s, key, limits, now);
            && reply.ref !in s.flights
            && t.flights == s.flights[reply.ref := Flight(key, false, None)]
            && forall r :: r in s.flights && s.flights[r].key == key ==> Over(t, r)
  {
    var (t, reply) := RunStep(s, key, limits, now);
    forall r | r in s.flights && s.flights[r].key == key
      ensures Over(t, r)
    {
      assert FlightOk(s, r);
    }
  }

  /** What an invocation's waiters were told, and that it is over, carries from `s` to `t`. */
  ghost predicate Carries(s: State, t: State, r: Ref)
    requires r in s.flights
  {
    && r in t.flights && t.flights[r].key == s.flights[r].key
    && (s.flights[r].outcome.Some? ==> t.flights[r].outcome == s.flights[r].outcome)
    && (r in s.gone ==> r in t.gone && t.gone[r] == s.gone[r])
  }

  lemma RoomCarries(s: State, limits: Limits, now: int, r: Ref)
    requires r in s.flights
    ensures Carries(s, MakeRoom(s, limits, now).0, r)
    ensures MakeRoom(s, limits, now).0.flights == s.flights
  {
  }

  lemma ReserveCarries(s: State, key: string, limits: Limits, now: int, r: Ref)
    requires r in s.flights && Ref(s.nextRef) !in s.flights
    ensures Carries(s, Reserve(s, key, limits, now).0, r)
  {
    RoomCarries(s, limits, now, r);
    assert MakeRoom(s, limits, now).0.nextRef == s.nextRef;
  }

  lemma RunCarries(s: State, key: string, limits: Limits, now: int, r: Ref)
    requires r in s.flights && Ref(s.nextRef) !in s.flights
    ensures Carries(s, RunStep(s, key, limits, now).0, r)
  {
    var i := IndexOf(s.entries, key);
    if i == |s.entries| {
      ReserveCarries(s, key, limits, now, r);
    } else if s.entries[i].entry.Success? && s.entries[i].entry.expiresAt <= now {
      var t := Forget(s, i, Expired(s.entries[i].entry.expiresAt, now));
      assert Carries(s, t, r);
      ReserveCarries(t, key, limits, now, r);
    }
  }

  lemma FailCarries(s: State, ref: Ref, r: Ref)
    requires r in s.flights && ref in s.flights
    ensures Carries(s, FailStep(s, ref), r)
  {
  }

  /** What an invocation's waiters were told, and that it is over, never changes. */
  lemma OutcomeFinal(s: State, a: Action, limits: Limits, r: Ref)
    requires Inv(s, limits) && Enabled(s, a) && r in s.flights
    ensures Carries(s, Next(s, a, limits), r)
  {
    match a
    case Run(key, now) =>
      assert Ref(s.nextRef) !in s.flights;
      RunCarries(s, key, limits, now, r);
    case Succeed(ref, value, now) =>
    case Abandon(ref) => FailCarries(s, ref, r);
    case Fail(ref) => FailCarries(s, ref, r);
    case MarkDispatched(_) =>
    case Dispose =>
  }

  lemma OverStays(s: State, t: State, r: Ref)
    requires r in s.flights && Carries(s, t, r) && Over(s, r)
    ensures Over(t, r)
  {
  }

  ghost predicate OneLive(s: State) {
    forall r1, r2 :: r1 in s.flights && r2 in s.flights && s.flights[r1].key == s.flights[r2].key && r1.n < r2.n ==>
      Over(s, r1)
  }

  lemma StepKeepsOneLive(s: State, a: Action, limits: Limits)
    requires Inv(s, limits) && OneLive(s) && Enabled(s, a)
    ensures OneLive(Next(s, a, limits))
  {
    var t := Next(s, a, limits);
    forall r1, r2 | r1 in t.flights && r2 in t.flights && t.flights[r1].key == t.flights[r2].key && r1.n < r2.n
      ensures Over(t, r1)
    {
      if r2 in s.flights {
        assert r1 in s.flights;
        OutcomeFinal(s, a, limits, r1);
        OutcomeFinal(s, a, limits, r2);
        OverStays(s, t, r1);
      } else {
        StartsOnlyAfter(s, a.key, limits, a.now);
      }
    }
  }

  /** In every run the table stays within its bound, holds each key once, keeps a slot for
      every write that is pending or unconfirmed, and forgets a success only by expiry or
      eviction; and at most the newest invocation for a key is not over. */
  lemma {:induction false} AtMostOncePerKey(run: seq<Moment>, limits: Limits)
    requires limits.maxEntries >= 1 && IsRun(run, limits)
    ensures Inv(Last(run), limits) && OneLive(Last(run))
  {
    if run != [] {
      var rest, m := run[..|run| - 1], run[|run| - 1];
      AtMostOncePerKey(rest, limits);
      StepKeeps(Last(rest), m.action, limits);
      StepKeepsOneLive(Last(rest), m.action, limits);
    }
  }

  /** The key's invocations are those of `before`, and `r` stays unconfirmed. */
  ghost predicate Pinned(before: State, s: State, key: string, r: Ref) {
    && r in s.flights && s.flights[r].key == key && s.flights[r].outcome == Some(Unconfirmed)
    && forall q :: q in s.flights && s.flights[q].key == key ==> q in before.flights
  }

  lemma StepPins(before: State, s: State, a: Action, limits: Limits, key: string, r: Ref)
    requires Inv(s, limits) && Enabled(s, a) && Pinned(before, s, key, r)
    ensures Pinned(before, Next(s, a, limits), key, r)
  {
    var t := Next(s, a, limits);
    OutcomeFinal(s, a, limits, r);
    forall q | q in t.flights && t.flights[q].key == key
      ensures q in before.flights
    {
      if q in s.flights {
        OutcomeFinal(s, a, limits, q);
      } else {
        StartsOnlyAfter(s, a.key, limits, a.now);
      }
    }
  }

  lemma {:induction false} PinnedAlong(run: seq<Moment>, n: nat, limits: Limits, key: string, r: Ref)
    requires limits.maxEntries >= 1 && IsRun(run, limits) && n <= |run|
    requires Pinned(Last(run[..n]), Last(run[..n]), key, r)
    ensures Pinned(Last(run[..n]), Last(run), key, r)
    decreases |run| - n
  {
    if n == |run| {
      assert run[..n] == run;
    } else {
      var rest, m := run[..|run| - 1], run[|run| - 1];
      assert rest[..n] == run[..n];
      PinnedAlong(rest, n, limits, key, r);
      AtMostOncePerKey(rest, limits);
      StepPins(Last(run[..n]), Last(rest), m.action, limits, key, r);
    }
  }

  lemma {:induction false} CarriedAlong(run: seq<Moment>, n: nat, limits: Limits, r: Ref)
    requires limits.maxEntries >= 1 && IsRun(run, limits) && n <= |run| && r in Last(run[..n]).flights
    ensures Carries(Last(run[..n]), Last(run), r)
    decreases |run| - n
  {
    if n == |run| {
      assert run[..n] == run;
    } else {
      var rest, m := run[..|run| - 1], run[|run| - 1];
      assert rest[..n] == run[..n];
      CarriedAlong(rest, n, limits, r);
      AtMostOncePerKey(rest, limits);
      OutcomeFinal(Last(rest), m.action, limits, r);
    }
  }

  /** Some run of the ledger passes through `s` and later through `t`. */
  ghost predicate Leads(limits: Limits, s: State, t: State) {
    exists run, n: nat :: n <= |run| && IsRun(run, limits) && Last(run[..n]) == s && Last(run) == t
  }

  /** After a failure that may have been sent, `start` never runs again for the key. */
  lemma NeverAgain(limits: Limits, s: State, t: State, key: string, r: Ref)
    requires limits.maxEntries >= 1 && Leads(limits, s, t)
    requires r in s.flights && s.flights[r].key == key && s.flights[r].outcome == Some(Unconfirmed)
    ensures forall q :: q in t.flights && t.flights[q].key == key ==> q in s.flights
  {
    var run, n: nat :| n <= |run| && IsRun(run, limits) && Last(run[..n]) == s && Last(run) == t;
    PinnedAlong(run, n, limits, key, r);
  }

  /** What the waiters of a write were told never changes, nor does why it was forgotten. */
  lemma AnswersNeverChange(limits: Limits, s: State, t: State, r: Ref)
    requires limits.maxEntries >= 1 && Leads(limits, s, t) && r in s.flights
    ensures r in t.flights && t.flights[r].key == s.flights[r].key
    ensures s.flights[r].outcome.Some? ==> t.flights[r].outcome == s.flights[r].outcome
    ensures r in s.gone ==> r in t.gone && t.gone[r] == s.gone[r]
  {
    var run, n: nat :| n <= |run| && IsRun(run, limits) && Last(run[..n]) == s && Last(run) == t;
    CarriedAlong(run, n, limits, r);
  }

  // ----- Capacity and eviction -----------------------------------------------------------------------------

  /** A new key is turned away exactly when the table is full of pending and unconfirmed
      writes, and then nothing at all is dropped. */
  lemma CapacityExact(s: State, key: string, limits: Limits, now: int)
    requires Inv(s, limits)
    ensures RunStep(s, key, limits, now).1 == NoCapacity <==>
            && !s.disposed && Lookup(s.entries, key) == None
            && |s.entries| == limits.maxEntries
            && forall x :: x in s.entries ==> !x.entry.Success?
    ensures RunStep(s, key, limits, now).1 == NoCapacity ==> RunStep(s, key, limits, now).0.entries == s.entries
  {
    if !s.disposed {
      var i := IndexOf(s.entries, key);
      if i == |s.entries| {
        RoomExact(s, limits, now);
      } else if s.entries[i].entry.Success? && s.entries[i].entry.expiresAt <= now {
        var why := Expired(s.entries[i].entry.expiresAt, now);
        ForgetKeeps(s, limits, i, why);
        RoomExact(Forget(s, i, why), limits, now);
        assert s.entries[i] in s.entries;
      }
    }
  }

  lemma {:induction false} UnexpiredShorter(entries: seq<Slot>, now: int)
    ensures |Unexpired(entries, now)| <= |entries|
  {
    if entries != [] {
      var rest, last := entries[..|entries| - 1], entries[|entries| - 1];
      UnexpiredShorter(rest, now);
      assert entries == rest + [last];
    }
  }

  lemma {:induction false} NothingExpired(entries: seq<Slot>, now: int)
    requires |Unexpired(entries, now)| == |entries|
    ensures Unexpired(entries, now) == entries
  {
    if entries != [] {
      var rest, last := entries[..|entries| - 1], entries[|entries| - 1];
      assert entries == rest + [last];
      UnexpiredShorter(rest, now);
      NothingExpired(rest, now);
    }
  }

  lemma RoomExact(s: State, limits: Limits, now: int)
    requires Inv(s, limits) && !s.disposed
    ensures var (t, ok) := MakeRoom(s, limits, now);
            && (!ok <==> |s.entries| == limits.maxEntries && forall x :: x in s.entries ==> !x.entry.Success?)
            && (!ok ==> t.entries == s.entries)
  {
    UnexpiredShorter(s.entries, now);
    var u := Unexpired(s.entries, now);
    if |u| == limits.maxEntries {
      NothingExpired(s.entries, now);
    } else if |s.entries| == limits.maxEntries {
      if forall x :: x in s.entries ==> !x.entry.Success? {
        NoneExpired(s.entries, now);
        assert false;
      }
    }
  }

  lemma {:induction false} NoneExpired(entries: seq<Slot>, now: int)
    requires forall x :: x in entries ==> !x.entry.Success?
    ensures Unexpired(entries, now) == entries
  {
    if entries != [] {
      var rest, last := entries[..|entries| - 1], entries[|entries| - 1];
      assert entries == rest + [last] && last in entries;
      assert forall x :: x in rest ==> x in entries;
      NoneExpired(rest, now);
    }
  }

  /** Successes sit in the order in which they expire. */
  ghost predicate Ordered(entries: seq<Slot>) {
    forall i, j :: 0 <= i < j < |entries| && entries[i].entry.Success? && entries[j].entry.Success? ==>
      entries[i].entry.expiresAt <= entries[j].entry.expiresAt
  }

  /** No cached success outlives the time to live, counted from `clock`. */
  ghost predicate Timely(s: State, limits: Limits, clock: int) {
    && Ordered(s.entries)
    && forall x :: x in s.entries && x.entry.Success? ==> x.entry.expiresAt <= clock + limits.ttl
  }

  lemma {:induction false} UnexpiredOrdered(entries: seq<Slot>, now: int)
    requires Ordered(entries)
    ensures Ordered(Unexpired(entries, now))
    ensures forall x :: x in Unexpired(entries, now) ==> x in entries && !IsExpired(x.entry, now)
  {
    if entries != [] {
      var rest, last := entries[..|entries| - 1], entries[|entries| - 1];
      UnexpiredOrdered(rest, now);
      forall x | x in rest && x.entry.Success? && last.entry.Success?
        ensures x.entry.expiresAt <= last.entry.expiresAt
      {
        var i :| 0 <= i < |rest| && rest[i] == x;
        assert entries[i] == x;
      }
      var u := Unexpired(rest, now);
      assert forall i :: 0 <= i < |u| ==> u[i] in u;
    }
  }

  lemma RemovedOrdered(entries: seq<Slot>, i: nat)
    requires Ordered(entries) && i < |entries|
    ensures Ordered(RemoveAt(entries, i))
    ensures forall x :: x in RemoveAt(entries, i) ==> x in entries
  {
    var out := RemoveAt(entries, i);
    assert forall j :: 0 <= j < |out| ==> out[j] == entries[if j < i then j else j + 1];
  }

  lemma MakeRoomTimely(s: State, limits: Limits, now: int, clock: int)
    requires Timely(s, limits, clock)
    ensures Timely(MakeRoom(s, limits, now).0, limits, clock)
  {
    UnexpiredOrdered(s.entries, now);
    var u := Unexpired(s.entries, now);
    var i := FirstSuccess(u);
    if i < |u| {
      RemovedOrdered(u, i);
    }
  }

  lemma RunTimely(s: State, key: string, limits: Limits, now: int, clock: int)
    requires Timely(s, limits, clock)
    ensures Timely(RunStep(s, key, limits, now).0, limits, clock)
  {
    var i := IndexOf(s.entries, key);
    if i == |s.entries| {
      MakeRoomTimely(s, limits, now, clock);
    } else if s.entries[i].entry.Success? && s.entries[i].entry.expiresAt <= now {
      RemovedOrdered(s.entries, i);
      MakeRoomTimely(Forget(s, i, Expired(s.entries[i].entry.expiresAt, now)), limits, now, clock);
    }
  }

  /** With a clock that never runs backwards, every step keeps the successes in order. */
  lemma StepTimely(s: State, a: Action, limits: Limits, clock: int)
    requires Inv(s, limits) && Enabled(s, a) && Timely(s, limits, clock)
    requires a.Run? || a.Succeed? ==> a.now >= clock
    ensures Timely(Next(s, a, limits), limits, if a.Run? || a.Succeed? then a.now else clock)
  {
    match a
    case Run(key, now) => RunTimely(s, key, limits, now, clock);
    case Succeed(ref, value, now) => SucceedTimely(s, ref, value, limits, now, clock);
    case MarkDispatched(_) =>
    case Abandon(ref) => FailTimely(s, ref, limits, clock);
    case Fail(ref) => FailTimely(s, ref, limits, clock);
    case Dispose =>
  }

  lemma SucceedTimely(s: State, ref: Ref, value: string, limits: Limits, now: int, clock: int)
    requires ref in s.flights && Timely(s, limits, clock) && now >= clock
    ensures Timely(SucceedStep(s, ref, value, limits, now), limits, now)
  {
    var i := IndexOf(s.entries, s.flights[ref].key);
    if i < |s.entries| {
      RemovedOrdered(s.entries, i);
      AppendedOrdered(RemoveAt(s.entries, i), Slot(s.flights[ref].key, Success(value, now + limits.ttl)));
    }
  }

  lemma AppendedOrdered(entries: seq<Slot>, last: Slot)
    requires Ordered(entries) && last.entry.Success?
    requires forall x :: x in entries && x.entry.Success? ==> x.entry.expiresAt <= last.entry.expiresAt
    ensures Ordered(entries + [last])
  {
    assert forall i :: 0 <= i < |entries| ==> entries[i] in entries;
  }

  lemma FailTimely(s: State, ref: Ref, limits: Limits, clock: int)
    requires ref in s.flights && Timely(s, limits, clock)
    ensures Timely(FailStep(s, ref), limits, clock)
  {
    var i := IndexOf(s.entries, s.flights[ref].key);
    if i < |s.entries| {
      RemovedOrdered(s.entries, i);
    }
  }

  lemma FirstIsEarliest(entries: seq<Slot>, i: nat)
    requires Ordered(entries) && i < |entries| && i == FirstSuccess(entries)
    ensures forall y :: y in entries && y.entry.Success? ==> entries[i].entry.expiresAt <= y.entry.expiresAt
  {
    forall y | y in entries && y.entry.Success?
      ensures entries[i].entry.expiresAt <= y.entry.expiresAt
    {
      var j :| 0 <= j < |entries| && entries[j] == y;
    }
  }

  /** `t` is the table `u` without the success that expires first. */
  ghost predicate DropsEarliest(u: seq<Slot>, t: seq<Slot>) {
    var i := FirstSuccess(u);
    && i < |u| && t == RemoveAt(u, i)
    && (forall x :: x in t <==> x in u && x != u[i])
    && (forall y :: y in u && y.entry.Success? ==> u[i].entry.expiresAt <= y.entry.expiresAt)
  }

  lemma FirstDropsEarliest(u: seq<Slot>)
    requires Ordered(u) && DistinctKeys(u) && FirstSuccess(u) < |u|
    ensures DropsEarliest(u, RemoveAt(u, FirstSuccess(u)))
  {
    Removed(u, FirstSuccess(u));
    FirstIsEarliest(u, FirstSuccess(u));
  }

  /** The table that `MakeRoom` leaves. */
  function RoomIn(entries: seq<Slot>, maxEntries: nat, now: int): seq<Slot> {
    var u := Unexpired(entries, now);
    if |u| < maxEntries || FirstSuccess(u) == |u| then u else RemoveAt(u, FirstSuccess(u))
  }

  lemma RoomDropsEarliest(entries: seq<Slot>, maxEntries: nat, now: int)
    requires DistinctKeys(entries) && Ordered(entries) && |entries| <= maxEntries
    ensures var t, u := RoomIn(entries, maxEntries, now), Unexpired(entries, now);
            t == u || (u == entries && |u| == maxEntries && DropsEarliest(u, t))
  {
    var u := Unexpired(entries, now);
    UnexpiredKeeps(entries, now);
    if |u| >= maxEntries && FirstSuccess(u) < |u| {
      NothingExpired(entries, now);
      UnexpiredOrdered(entries, now);
      FirstDropsEarliest(u);
    }
  }

  /** Making room drops the expired successes; when the table is still full it drops exactly
      one more, the one that would expire first. Pending and unconfirmed writes stay. */
  lemma EvictsEarliest(s: State, limits: Limits, now: int, clock: int)
    requires Inv(s, limits) && !s.disposed && Timely(s, limits, clock)
    ensures var t, u := MakeRoom(s, limits, now).0.entries, Unexpired(s.entries, now);
            && (forall x :: x in u <==> x in s.entries && !IsExpired(x.entry, now))
            && (t == u || (u == s.entries && |u| == limits.maxEntries && DropsEarliest(u, t)))
  {
    UnexpiredKeeps(s.entries, now);
    RoomDropsEarliest(s.entries, limits.maxEntries, now);
  }

  function ClockOf(a: Action, clock: int): int {
    if a.Run? || a.Succeed? then a.now else clock
  }

  function Clock(run: seq<Moment>, start: int): int {
    if run == [] then start else ClockOf(run[|run| - 1].action, Clock(run[..|run| - 1], start))
  }

  ghost predicate Monotone(run: seq<Moment>, start: int) {
    run == [] ||
    (Monotone(run[..|run| - 1], start) &&
     ClockOf(run[|run| - 1].action, Clock(run[..|run| - 1], start)) >= Clock(run[..|run| - 1], start))
  }

  /** In every run on a clock that never runs backwards the successes sit in the order in
      which they expire, so `EvictsEarliest` applies throughout. */
  lemma {:induction false} AlwaysTimely(run: seq<Moment>, limits: Limits, start: int)
    requires limits.maxEntries >= 1 && IsRun(run, limits) && Monotone(run, start)
    ensures Timely(Last(run), limits, Clock(run, start))
  {
    if run != [] {
      var rest, m := run[..|run| - 1], run[|run| - 1];
      AlwaysTimely(rest, limits, start);
      AtMostOncePerKey(rest, limits);
      StepTimely(Last(rest), m.action, limits, Clock(rest, start));
    }
  }

  // ----- The ledger ------------------------------------------------------------------------------------------

  class Ledger {
    const limits: Limits
    var entries: seq<Slot>
    var flights: map<Ref, Flight>
    var nextRef: nat
    var disposed: bool
    ghost var gone: map<Ref, Drop>

    constructor (maxEntries: nat, ttl: int)
      requires maxEntries >= 1
      ensures limits == Limits(maxEntries, ttl) && Abs() == Initial() && Valid()
    {
      limits := Limits(maxEntries, ttl);
      entries, flights, nextRef, disposed, gone := [], map[], 0, false, map[];
    }

    ghost function Abs(): State
      reads this
    {
      State(entries, flights, gone, nextRef, disposed)
    }

    ghost predicate Valid()
      reads this
    {
      Inv(Abs(), limits)
    }

    /** The first loop of the room maker: drop what has expired, in place. */
    method DropExpired(now: int)
      modifies this`entries, this`gone
      ensures Abs() == ForgetExpired(old(Abs()), now)
    {
      ghost var orig, n := entries, 0;
      var i := 0;
      while i < |entries|
        invariant i <= |entries| && n <= |orig|
        invariant entries[..i] == Unexpired(orig[..n], now)
        invariant entries[i..] == orig[n..]
        decreases |entries| - i
      {
        assert entries[i] == entries[i..][0] == orig[n];
        assert orig[..n + 1][..n] == orig[..n];
        assert entries[i..][1..] == entries[i + 1..];
        if IsExpired(entries[i].entry, now) {
          entries := entries[..i] + entries[i + 1..];
        } else {
          assert entries[..i + 1] == entries[..i] + [entries[i]];
          i := i + 1;
        }
        n := n + 1;
      }
      assert entries[i..] == [] && n == |orig|;
      assert orig[..n] == orig && entries[..i] == entries;
      gone := ForgetExpired(old(Abs()), now).gone;
    }

    method OldestSuccess() returns (i: nat)
      ensures i == FirstSuccess(entries)
    {
      i := 0;
      while i < |entries| && !entries[i].entry.Success?
        invariant i <= |entries|
        invariant forall j :: 0 <= j < i ==> !entries[j].entry.Success?
      {
        i := i + 1;
      }
    }

    /** Free one slot; false when nothing may be dropped. */
    method FreeSlot(now: int) returns (ok: bool)
      requires |entries| <= limits.maxEntries && limits.maxEntries >= 1
      modifies this`entries, this`gone
      ensures (Abs(), ok) == MakeRoom(old(Abs()), limits, now)
      ensures ok ==> |entries| < limits.maxEntries
    {
      UnexpiredShorter(entries, now);
      DropExpired(now);
      ghost var t := Abs();
      var evicted := false;
      while |entries| >= limits.maxEntries
        invariant !evicted ==> Abs() == t
        invariant evicted ==>
                    |entries| < limits.maxEntries <= |t.entries| && FirstSuccess(t.entries) < |t.entries| &&
                    Abs() == Forget(t, FirstSuccess(t.entries), Evicted)
        decreases |entries|
      {
        var oldest := OldestSuccess();
        if oldest == |entries| {
          return false;
        }
        gone := Forget(Abs(), oldest, Evicted).gone;
        entries := RemoveAt(entries, oldest);
        evicted := true;
      }
      ok := true;
    }

    method Find(key: string) returns (i: nat)
      ensures i == IndexOf(entries, key)
    {
      i := 0;
      while i < |entries| && entries[i].key != key
        invariant i <= |entries|
        invariant forall j :: 0 <= j < i ==> entries[j].key != key
      {
        i := i + 1;
      }
    }

    /** The synchronous part of `run`: join, answer from the table, or reserve and start. */
    method Run(key: string, now: int) returns (reply: Reply)
      requires Valid()
      modifies this
      ensures Valid() && (Abs(), reply) == RunStep(old(Abs()), key, limits, now)
    {
      RunKeeps(Abs(), key, limits, now);
      if disposed {
        return Rejected;
      }
      var i := Find(key);
      if i < |entries| {
        match entries[i].entry {
          case Pending(ref) => return Joined(ref);
          case Indeterminate => return Unknown;
          case Success(value, expiresAt) =>
            if expiresAt > now {
              return Cached(value);
            }
            gone := Forget(Abs(), i, Expired(expiresAt, now)).gone;
            entries := RemoveAt(entries, i);
        }
      }
      reply := ReserveNow(key, now);
    }

    method ReserveNow(key: string, now: int) returns (reply: Reply)
      requires |entries| <= limits.maxEntries && limits.maxEntries >= 1
      modifies this
      ensures (Abs(), reply) == Reserve(old(Abs()), key, limits, now)
    {
      var ok := FreeSlot(now);
      if !ok {
        return NoCapacity;
      }
      var ref := Ref(nextRef);
      entries := entries + [Slot(key, Pending(ref))];
      flights := flights[ref := Flight(key, false, None)];
      nextRef := nextRef + 1;
      reply := Started(ref);
    }

    method MarkDispatchedNow(ref: Ref)
      requires Valid() && ref in flights
      modifies this`flights
      ensures Valid() && Abs() == Next(old(Abs()), MarkDispatched(ref), limits)
    {
      StepKeeps(Abs(), MarkDispatched(ref), limits);
      flights := flights[ref := flights[ref].(dispatched := true)];
    }

    method SettleSuccess(ref: Ref, value: string, now: int)
      requires Valid() && ref in flights
      modifies this`flights, this`entries
      ensures Valid() && Abs() == SucceedStep(old(Abs()), ref, value, limits, now)
    {
      SucceedKeeps(Abs(), ref, value, limits, now);
      Confirm(ref, value, now);
    }

    method Confirm(ref: Ref, value: string, now: int)
      requires ref in flights
      modifies this`flights, this`entries
      ensures Abs() == SucceedStep(old(Abs()), ref, value, limits, now)
    {
      if flights[ref].outcome.Some? {
        return;
      }
      var key := flights[ref].key;
      flights := flights[ref := flights[ref].(outcome := Some(Confirmed(value)))];
      var i := Find(key);
      if i < |entries| && entries[i].entry == Pending(ref) {
        entries := RemoveAt(entries, i);
        entries := entries + [Slot(key, Success(value, now + limits.ttl))];
      }
    }

    method SettleFailure(ref: Ref)
      requires Valid() && ref in flights
      modifies this`flights, this`entries
      ensures Abs() == FailStep(old(Abs()), ref)
      ensures Valid()
    {
      FailKeeps(Abs(), ref, limits);
      if flights[ref].outcome.Some? {
        return;
      }
      var key := flights[ref].key;
      var i := Find(key);
      var mine := i < |entries| && entries[i].entry == Pending(ref);
      if !flights[ref].dispatched {
        flights := flights[ref := flights[ref].(outcome := Some(NotSent))];
        if mine {
          entries := RemoveAt(entries, i);
        }
        return;
      }
      flights := flights[ref := flights[ref].(outcome := Some(Unconfirmed))];
      if mine {
        entries := entries[i := Slot(key, Indeterminate)];
      }
    }

    method AbandonNow(ref: Ref)
      requires Valid() && ref in flights
      modifies this`flights, this`entries
      ensures Valid() && Abs() == Next(old(Abs()), Abandon(ref), limits)
    {
      if !flights[ref].dispatched {
        SettleFailure(ref);
      }
    }

    method DisposeNow()
      requires Valid()
      modifies this`flights, this`entries, this`disposed
      ensures Valid() && Abs() == Next(old(Abs()), Dispose, limits)
    {
      StepKeeps(Abs(), Dispose, limits);
      if disposed {
        return;
      }
      ghost var s := Abs();
      disposed := true;
      var dropped := entries;
      entries := [];
      for i := 0 to |dropped|
        invariant entries == [] && disposed && flights.Keys == s.flights.Keys
        invariant forall r :: r in s.flights ==>
                    flights[r] == (if Slot(s.flights[r].key, Pending(r)) in dropped[..i]
                                   then SettledByDispose(s.flights[r]) else s.flights[r])
      {
        assert dropped[..i + 1] == dropped[..i] + [dropped[i]];
        if dropped[i].entry.Pending? {
          var ref := dropped[i].entry.ref;
          Found(s.entries, i);
          assert Lookup(s.entries, dropped[i].key) == Some(Pending(ref));
          if flights[ref].outcome.None? {
            flights := flights[ref := SettledByDispose(flights[ref])];
          }
        }
      }
      assert dropped[..|dropped|] == dropped;
      forall r | r in s.flights
        ensures flights[r] == DisposeStep(s).flights[r]
      {
        assert FlightOk(s, r);
        LookupOf(s.entries, s.flights[r].key, Pending(r));
      }
      assert flights == DisposeStep(s).flights;
    }
  }
}
