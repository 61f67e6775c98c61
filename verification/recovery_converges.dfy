/** Restart recovery can always finish: from every crash state that opens, one engine
    has a run of guarded actions after which no intent is pending and the ids of the
    rows are exactly the keys of the published vectors
    (application/memory/replacement_recovery.py).

    The run takes the rows of the journal in their order and removes an old id before it makes
    a new text present. The pass as coded does it the other way round, in `RecoveryPass`, and
    does not always finish. */
module RecoveryConverges {
  import opened Common
  import opened IndexIntegrity
  import opened MemoryStore
  import opened CrashRecovery

  ghost predicate Leads(s: Sys, s': Sys) {
    exists actions :: Run(s, actions, Strict) == s'
  }

  /** One more action of a run that keeps the invariant. */
  lemma Then(s0: Sys, s: Sys, a: Action) returns (s': Sys)
    requires Leads(s0, s) && StrictInv(s)
    ensures s' == Step(s, a, Strict) && Leads(s0, s') && StrictInv(s')
  {
    var actions :| Run(s0, actions, Strict) == s;
    assert (actions + [a])[..|actions|] == actions;
    s' := Step(s, a, Strict);
    assert Run(s0, actions + [a], Strict) == s';
    StepKeeps(s, a);
  }

  lemma LeadsSelf(s: Sys)
    ensures Leads(s, s)
  {
    assert Run(s, [], Strict) == s;
  }

  /** The recovering engine holds the lease and is up to date. */
  ghost predicate Ready(s: Sys, e: EngineId) {
    StrictInv(s) && s.lease == Some(e) && Current(s, EngineOf(s, e))
  }

  ghost predicate Clean(s: Sys, e: EngineId) {
    Ready(s, e) && !EngineOf(s, e).dirty
  }

  lemma Save(s0: Sys, s: Sys, e: EngineId) returns (s': Sys)
    requires Leads(s0, s) && Ready(s, e)
    ensures Leads(s0, s') && Clean(s', e) && s'.db == s.db
    ensures EngineOf(s', e).mem == EngineOf(s, e).mem
  {
    s' := s;
    if EngineOf(s, e).dirty {
      s' := Then(s0, s, Publish(e));
    }
  }

  /** `_remove_recorded_old`: the recorded id leaves SQLite, the index and the disk. */
  lemma RemoveOld(s0: Sys, s: Sys, e: EngineId, k: nat) returns (s': Sys)
    requires Leads(s0, s) && Clean(s, e)
    requires k < |s.db.journal| && s.db.journal[k].status.Pending? && !s.db.journal[k].kind.Add?
    ensures Leads(s0, s') && Clean(s', e) && s'.db.journal == s.db.journal
    ensures OldGone(s', EngineOf(s', e).mem, s.db.journal[k])
  {
    var id := s.db.journal[k].oldId;
    assert JournalRowOk(s.db, s.db.journal[k]);
    assert NamesOld(s.db.journal[k], id);
    s' := DropOldRow(s0, s, e, id);
    if id in EngineOf(s', e).mem {
      s' := Then(s0, s', RemoveVector(e, id));
    }
    s' := Save(s0, s', e);
  }

  lemma DropOldRow(s0: Sys, s: Sys, e: EngineId, id: Id) returns (s': Sys)
    requires Leads(s0, s) && Clean(s, e) && PendingOld(s.db.journal, id)
    ensures Leads(s0, s') && Clean(s', e) && s'.db.journal == s.db.journal && id !in s'.db.rows
  {
    s' := s;
    if id in s'.db.rows {
      s' := Then(s0, s', Action.DeleteRow(e, id));
    }
  }

  /** `_ensure_replacement_present`: the new text gets a row and a published vector. */
  lemma EnsureNew(s0: Sys, s: Sys, e: EngineId, k: nat) returns (s': Sys)
    requires Leads(s0, s) && Clean(s, e)
    requires k < |s.db.journal| && AddAuthority(s.db.journal, s.db.journal[k].newContent, k)
    ensures Leads(s0, s') && Clean(s', e) && s'.db.journal == s.db.journal
    ensures NewLive(s', EngineOf(s', e).mem, s.db.journal[k])
    ensures forall id :: id !in s.db.rows && id !in EngineOf(s, e).mem && id.n < s.db.nextId ==>
                           id !in s'.db.rows && id !in EngineOf(s', e).mem
  {
    var content := s.db.journal[k].newContent;
    s' := s;
    if NewLive(s, EngineOf(s, e).mem, s.db.journal[k]) {
      return;
    }
    if id :| Holds(s.db, id, content) {
      s' := DropUnindexed(s0, s, e, id, k);
    }
    s' := InsertNew(s0, s', e, content);
    assert Holds(s'.db, Id(s'.db.nextId - 1), content);
  }

  /** `_reindex_if_vector_missing` drops a row whose vector was not committed. */
  lemma DropUnindexed(s0: Sys, s: Sys, e: EngineId, id: Id, k: nat) returns (s': Sys)
    requires Leads(s0, s) && Clean(s, e)
    requires k < |s.db.journal| && AddAuthority(s.db.journal, s.db.journal[k].newContent, k)
    requires Holds(s.db, id, s.db.journal[k].newContent) && id !in EngineOf(s, e).mem
    ensures Leads(s0, s') && Clean(s', e) && s'.db == MemoryStore.DeleteRow(s.db, id) && EngineOf(s', e) == EngineOf(s, e)
    ensures !HasContent(s'.db, s.db.journal[k].newContent)
  {
    assert PendingNew(s.db.journal, s.db.rows[id]);
    s' := Then(s0, s, Reindex(e, id));
    assert forall other :: Holds(s.db, other, s.db.journal[k].newContent) ==> other == id;
    assert forall other :: !Holds(s'.db, other, s.db.journal[k].newContent);
  }

  lemma InsertNew(s0: Sys, s: Sys, e: EngineId, content: string) returns (s': Sys)
    requires Leads(s0, s) && Clean(s, e)
    requires !HasContent(s.db, content) && HasAddAuthority(s.db.journal, content)
    ensures Leads(s0, s') && Clean(s', e) && s'.db == InsertRow(s.db, content)
    ensures EngineOf(s', e).mem == EngineOf(s, e).mem + {Id(s.db.nextId)}
  {
    var id := Id(s.db.nextId);
    s' := Then(s0, s, Insert(e, content));
    assert EngineInv(s, e);
    assert id !in EngineOf(s, e).mem;
    s' := Then(s0, s', AddVector(e, id));
    s' := Save(s0, s', e);
  }

  /** Everything `apply_pending_transition` does to one row before it completes it. */
  lemma Converge(s0: Sys, s: Sys, e: EngineId, k: nat) returns (s': Sys)
    requires Leads(s0, s) && Clean(s, e)
    requires k < |s.db.journal| && s.db.journal[k].status.Pending?
    ensures Leads(s0, s') && Clean(s', e) && s'.db.journal == s.db.journal
    ensures Converged(s', EngineOf(s', e).mem, k)
  {
    var row := s.db.journal[k];
    s' := s;
    if !row.kind.Add? {
      s' := RemoveOld(s0, s', e, k);
      assert JournalRowOk(s'.db, row);
    }
    if !row.kind.Delete? && !HasLater(s.db.journal, row.newContent, k) {
      s' := EnsureNew(s0, s', e, k);
    }
  }

  /** `apply_pending_transition` on one row. */
  lemma ApplyRow(s0: Sys, s: Sys, e: EngineId, k: nat) returns (s': Sys)
    requires Leads(s0, s) && Clean(s, e)
    requires k < |s.db.journal| && s.db.journal[k].status.Pending?
    ensures Leads(s0, s') && Clean(s', e)
    ensures s'.db.journal == MarkCompleted(s.db.journal, k)
  {
    s' := Converge(s0, s, e, k);
    s' := Then(s0, s', Finish(e, k));
  }

  /** One pass over the journal in the order of its rows, from row `k` on. */
  lemma {:induction false} ApplyFrom(s0: Sys, s: Sys, e: EngineId, k: nat) returns (s': Sys)
    requires Leads(s0, s) && Clean(s, e) && k <= |s.db.journal|
    requires forall i :: 0 <= i < k ==> s.db.journal[i].status.Completed?
    ensures Leads(s0, s') && Clean(s', e)
    ensures forall i :: 0 <= i < |s'.db.journal| ==> s'.db.journal[i].status.Completed?
    decreases |s.db.journal| - k
  {
    s' := s;
    if k < |s.db.journal| {
      if s.db.journal[k].status.Pending? {
        s' := ApplyRow(s0, s, e, k);
      }
      s' := ApplyFrom(s0, s', e, k + 1);
    }
  }

  /** Every crash state that opens can be recovered completely. */
  lemma RecoveryFinishes(workspace: string, s: Sys, e: EngineId) returns (s': Sys)
    requires Reachable(workspace, s, Strict)
    requires s.lease.None? && EngineOf(s, e).Unloaded? && Openable(s)
    ensures Leads(s, s') && OpenAccepts(s')
    ensures s'.db.rows.Keys == Keys(s')
    ensures forall k :: 0 <= k < |s'.db.journal| ==> s'.db.journal[k].status.Completed?
  {
    ReachableOpens(workspace, s);
    ReachableInv(workspace, s);
    LeadsSelf(s);
    s' := Then(s, s, Action.Open(e));
    s' := Then(s, s', Acquire(e));
    s' := ApplyFrom(s, s', e, 0);
    AllDone(s');
  }

  lemma AllDone(s: Sys)
    requires Inv(s) && forall k :: 0 <= k < |s.db.journal| ==> s.db.journal[k].status.Completed?
    ensures s.db.rows.Keys == Keys(s) && OpenAccepts(s)
  {
    forall id | id in s.db.rows
      ensures id in Keys(s)
    {
      assert !Covered(s.db.journal, s.db.rows[id], id);
    }
    forall id | id in Keys(s)
      ensures id in s.db.rows
    {
      assert !PendingOld(s.db.journal, id);
    }
    InvAccepted(s);
    assert s.db.rows.Keys == Keys(s);
    if Keys(s) == {} {
      assert s.db.rows == map[];
    } else {
      assert s.db.rows != map[];
    }
  }
}
