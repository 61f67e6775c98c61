/** What the guards of the write protocol let through: whole operations of the manager
    (application/memory/manager.py) run to their end from any state that keeps the invariant,
    and a crash is possible at any moment. */
module CrashOperations {
  import opened Common
  import opened IndexIntegrity
  import opened MemoryStore
  import opened CrashRecovery

  /** An operation begins: the lease is held and the engine is clean and up to date. */
  ghost predicate Begins(s: Sys, e: EngineId) {
    Inv(s) && s.lease == Some(e) && Current(s, EngineOf(s, e)) && !EngineOf(s, e).dirty
  }

  lemma HoldsFile(s: Sys, e: EngineId)
    requires Begins(s, e)
    ensures EngineOf(s, e).mem == Keys(s) && Id(s.db.nextId) !in Keys(s) && Id(s.db.nextId) !in s.db.rows
  {
    assert EngineInv(s, e);
  }

  // ----- Adding -------------------------------------------------------------------------------

  /** Intent, row, vector. */
  ghost function Staged(s: Sys, e: EngineId, content: string, rules: Rules): Sys {
    var t := Step(s, BeginAdd(e, content), rules);
    Step(Step(t, Insert(e, content), rules), AddVector(e, Id(t.db.nextId)), rules)
  }

  /** The intent that a text's add works under. */
  lemma AddIntent(db: Db, content: string) returns (k: nat)
    requires JournalOk(db.journal)
    ensures var j := MemoryStore.BeginAdd(db, content).journal;
            k < |j| && IsPendingAdd(j[k], content) && !HasLater(j, content, k)
  {
    BeginAddRecords(db, content);
    var j := MemoryStore.BeginAdd(db, content).journal;
    if m :| 0 <= m < |db.journal| && IsPendingAdd(db.journal[m], content) && !HasLater(db.journal, content, m) {
      k := m;
    } else {
      k := |db.journal|;
    }
  }

  lemma BeginsAdd(s: Sys, e: EngineId, content: string, rules: Rules)
    requires Begins(s, e) && !HasContent(s.db, content)
    ensures var t, db := Step(s, BeginAdd(e, content), rules), MemoryStore.BeginAdd(s.db, content);
            t == s.(db := db) && db == s.db.(journal := db.journal) && !HasContent(db, content) && HasAddAuthority(db.journal, content)
  {
    BeginAddRecords(s.db, content);
    var db := MemoryStore.BeginAdd(s.db, content);
    assert forall id :: Holds(db, id, content) ==> Holds(s.db, id, content);
  }

  lemma InsertsAdd(s: Sys, e: EngineId, content: string, rules: Rules)
    requires Working(s, e) && !HasContent(s.db, content) && HasAddAuthority(s.db.journal, content)
    ensures Step(s, Insert(e, content), rules) ==
            s.(db := InsertRow(s.db, content), batch := s.batch + {Id(s.db.nextId)})
  {
  }

  lemma StagesAdd(s: Sys, e: EngineId, content: string, rules: Rules)
    requires Begins(s, e) && !HasContent(s.db, content)
    ensures var t, id := Staged(s, e, content, rules), Id(s.db.nextId);
            t == SetEngine(s.(db := InsertRow(MemoryStore.BeginAdd(s.db, content), content), batch := s.batch + {id}),
                           e, Loaded(Keys(s) + {id}, true, Identity(s)))
  {
    HoldsFile(s, e);
    BeginsAdd(s, e, content, rules);
    InsertsAdd(Step(s, BeginAdd(e, content), rules), e, content, rules);
  }

  lemma Publishes(s: Sys, e: EngineId, mem: set<Id>, rules: Rules)
    requires s.lease == Some(e) && EngineOf(s, e) == Loaded(mem, true, Identity(s))
    ensures var t := Step(s, Publish(e), rules);
            && t.db == s.db && t.lease == s.lease && Keys(t) == mem && EngineOf(t, e) == Loaded(mem, false, Identity(t))
  {
    assert MayPublish(s, e);
  }

  lemma FinishesAdd(s: Sys, e: EngineId, k: nat, id: Id, rules: Rules)
    requires s.lease == Some(e) && EngineOf(s, e).Loaded? && !EngineOf(s, e).dirty && Current(s, EngineOf(s, e))
    requires k < |s.db.journal| && s.db.journal[k].kind.Add? && s.db.journal[k].status.Pending?
    requires Holds(s.db, id, s.db.journal[k].newContent) && id in EngineOf(s, e).mem
    ensures Step(s, Finish(e, k), rules) == s.(db := Complete(s.db, k))
  {
    assert NewLive(s, EngineOf(s, e).mem, s.db.journal[k]);
  }

  /** An add runs through: the row and its vector are there, on disk too, and the intent can
      be closed. */
  lemma AddCompletes(s: Sys, e: EngineId, content: string, rules: Rules) returns (k: nat)
    requires Begins(s, e) && !HasContent(s.db, content)
    ensures var id := Id(s.db.nextId);
            var t := Step(Step(Staged(s, e, content, rules), Publish(e), rules), Finish(e, k), rules);
            && t.db.rows == s.db.rows[id := content] && Keys(t) == Keys(s) + {id}
            && EngineOf(t, e) == Loaded(Keys(t), false, Identity(t))
            && k < |t.db.journal| && t.db.journal[k].newContent == content && t.db.journal[k].status.Completed?
  {
    BeginsAdd(s, e, content, rules);
    StagesAdd(s, e, content, rules);
    k := AddIntent(s.db, content);
    var t, id := Staged(s, e, content, rules), Id(s.db.nextId);
    Publishes(t, e, Keys(s) + {id}, rules);
    FinishesAdd(Step(t, Publish(e), rules), e, k, id, rules);
  }

  lemma TakesVector(s: Sys, e: EngineId, id: Id, rules: Rules)
    requires Working(s, e) && id in EngineOf(s, e).mem && (id !in s.db.rows || id in s.batch)
    ensures Step(s, RemoveVector(e, id), rules) ==
            SetEngine(s, e, Loaded(EngineOf(s, e).mem - {id}, true, EngineOf(s, e).seen))
  {
  }

  lemma RollsBack(s: Sys, e: EngineId, id: Id, rules: Rules)
    requires Working(s, e) && id in s.db.rows && id in s.batch && id !in EngineOf(s, e).mem
    ensures Step(s, RollbackRow(e, id), rules) == s.(db := MemoryStore.DeleteRow(s.db, id))
  {
  }

  lemma InsertedRowGone(db: Db, content: string)
    requires Id(db.nextId) !in db.rows
    ensures InsertRow(MemoryStore.BeginAdd(db, content), content).rows - {Id(db.nextId)} == db.rows
    ensures MemoryStore.BeginAdd(db, content).rows == db.rows && MemoryStore.BeginAdd(db, content).nextId == db.nextId
  {
  }

  /** An add that fails is taken back: rows and vectors are as before, only the intent stays. */
  lemma RollbackRestores(s: Sys, e: EngineId, content: string, rules: Rules)
    requires Begins(s, e) && !HasContent(s.db, content)
    ensures var id := Id(s.db.nextId);
            var t := Step(Step(Staged(s, e, content, rules), RemoveVector(e, id), rules), RollbackRow(e, id), rules);
            && t.db.rows == s.db.rows && EngineOf(t, e).mem == Keys(s) && t.disk == s.disk && t.db.nextId == s.db.nextId + 1
            && t.db.journal == MemoryStore.BeginAdd(s.db, content).journal
  {
    HoldsFile(s, e);
    StagesAdd(s, e, content, rules);
    var t, id := Staged(s, e, content, rules), Id(s.db.nextId);
    TakesVector(t, e, id, rules);
    var u := Step(t, RemoveVector(e, id), rules);
    assert EngineOf(u, e).mem == Keys(s) by {
      assert Keys(s) + {id} - {id} == Keys(s);
    }
    RollsBack(u, e, id, rules);
    InsertedRowGone(s.db, content);
  }

  // ----- Deleting ------------------------------------------------------------------------------

  /** Intent, row, vector, commit. */
  ghost function Deleted(s: Sys, e: EngineId, id: Id, rules: Rules): Sys {
    var t := Step(Step(s, BeginDelete(e, id), rules), Action.DeleteRow(e, id), rules);
    Step(Step(t, RemoveVector(e, id), rules), Publish(e), rules)
  }

  /** A delete runs through: the row and its vector are gone, from disk too, and the intent
      can be closed. */
  lemma DeleteCompletes(s: Sys, e: EngineId, id: Id, rules: Rules) returns (k: nat)
    requires Begins(s, e) && id in s.db.rows
    ensures var t := Step(Deleted(s, e, id, rules), Finish(e, k), rules);
            && t.db.rows == s.db.rows - {id} && Keys(t) == Keys(s) - {id}
            && k < |t.db.journal| && t.db.journal[k].kind.Delete? && t.db.journal[k].oldId == id
            && t.db.journal[k].status.Completed?
  {
    HoldsFile(s, e);
    k := DeleteIntent(s, e, id, rules);
    var s1 := Step(s, BeginDelete(e, id), rules);
    DropsRow(s1, e, id, k, rules);
    var s2 := Step(s1, Action.DeleteRow(e, id), rules);
    if id in Keys(s) {
      TakesVector(s2, e, id, rules);
      Publishes(Step(s2, RemoveVector(e, id), rules), e, Keys(s) - {id}, rules);
    } else {
      StaysClean(s2, e, id, rules);
      assert Keys(s) - {id} == Keys(s);
    }
    FinishesDelete(Deleted(s, e, id, rules), e, k, rules);
  }

  lemma DropsRow(s: Sys, e: EngineId, id: Id, k: nat, rules: Rules)
    requires Working(s, e) && id in s.db.rows && id.n >= 1
    requires k < |s.db.journal| && s.db.journal[k].kind.Delete? && s.db.journal[k].oldId == id && s.db.journal[k].status.Pending?
    ensures Step(s, Action.DeleteRow(e, id), rules) == s.(db := MemoryStore.DeleteRow(s.db, id))
  {
    assert NamesOld(s.db.journal[k], id);
  }

  /** There is no vector to take, and nothing to publish. */
  lemma StaysClean(s: Sys, e: EngineId, id: Id, rules: Rules)
    requires EngineOf(s, e).Loaded? && !EngineOf(s, e).dirty && id !in EngineOf(s, e).mem
    ensures Step(Step(s, RemoveVector(e, id), rules), Publish(e), rules) == s
  {
  }

  lemma FinishesDelete(s: Sys, e: EngineId, k: nat, rules: Rules)
    requires Working(s, e) && !EngineOf(s, e).dirty
    requires k < |s.db.journal| && s.db.journal[k].kind.Delete? && s.db.journal[k].status.Pending?
    requires s.db.journal[k].oldId !in s.db.rows && s.db.journal[k].oldId !in EngineOf(s, e).mem
    ensures Step(s, Finish(e, k), rules) == s.(db := Complete(s.db, k))
  {
    assert OldGone(s, EngineOf(s, e).mem, s.db.journal[k]);
  }

  lemma DeleteIntent(s: Sys, e: EngineId, id: Id, rules: Rules) returns (k: nat)
    requires Begins(s, e) && id in s.db.rows
    ensures var t := Step(s, BeginDelete(e, id), rules);
            && t == s.(db := t.db) && t.db.rows == s.db.rows && t.db.nextId == s.db.nextId && t.db.workspace == s.db.workspace
            && k < |t.db.journal| && t.db.journal[k].kind.Delete? && t.db.journal[k].oldId == id
            && t.db.journal[k].status.Pending? && 1 <= id.n
  {
    BeginOldRefuses(s.db, Removal(Delete, id, s.db.rows[id], ""));
    var t := Step(s, BeginDelete(e, id), rules);
    k :| k < |t.db.journal| && StandsFor(t.db.journal[k], Removal(Delete, id, s.db.rows[id], ""));
    if k < |s.db.journal| {
      assert JournalRowOk(s.db, s.db.journal[k]);
    }
  }

  // ----- Steps that need no operation -------------------------------------------------------------

  /** A clean engine that was overtaken catches up whenever the file can be read and is
      accepted; nothing else changes. */
  lemma RefreshCatchesUp(s: Sys, e: EngineId, rules: Rules)
    requires Inv(s) && EngineOf(s, e).Loaded? && !EngineOf(s, e).dirty
    requires s.disk.Some? && CanRead(s, e) && VerifyAccepts(s)
    ensures var t := Step(s, Refresh(e), rules);
            && EngineOf(t, e) == Loaded(Keys(s), false, Identity(s))
            && t == s.(engines := t.engines) && forall o :: o != e ==> EngineOf(t, o) == EngineOf(s, o)
  {
    assert EngineInv(s, e);
  }

  /** Any engine may crash at any moment. It loses its memory and its lease, and nothing else
      is lost. */
  lemma CrashLosesMemoryOnly(s: Sys, e: EngineId, rules: Rules)
    ensures var t := Step(s, Crash(e), rules);
            && t.db == s.db && t.disk == s.disk && t.published == s.published
            && EngineOf(t, e).Unloaded? && (forall o :: o != e ==> EngineOf(t, o) == EngineOf(s, o))
            && t.lease == if s.lease == Some(e) then None else s.lease
  {
  }

  /** An ADD that a later removal has overtaken can be closed by any working engine, with
      unpublished vectors or without. */
  lemma OvertakenFinishes(s: Sys, e: EngineId, k: nat, rules: Rules)
    requires Working(s, e) && k < |s.db.journal| && s.db.journal[k].status.Pending? && OvertakenAdd(s.db.journal, k)
    ensures Step(s, Finish(e, k), rules) == s.(db := Complete(s.db, k))
  {
  }
}
