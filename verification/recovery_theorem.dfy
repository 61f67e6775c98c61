/** When a recovery pass converges (replacement_recovery.py). */
module RecoveryTheorem {
  import opened Common
  import opened IndexIntegrity
  import opened MemoryStore
  import opened CrashRecovery
  import opened RecoveryPass
  import opened RecoveryRows
  import RecoveryConverges
  import CrashLockouts

  // ----- Theorems --------------------------------------------------------------------------------

  /** For whatever texts a vector could be computed, and when full-text writes succeed: a pass
      over the journal recovers the workspace exactly when no row is stuck and none leaves a
      row over. */
  lemma PassConvergesExactly(s: Sys, e: EngineId, vectors: set<string>)
    requires Clean(s, e)
    ensures Recovered(Pass(s, e, vectors)) <==> NoneFails(s, e, 0, vectors)
    ensures Recovered(Pass(s, e, vectors)) ==> Inv(Pass(s, e, vectors)) && OpenAccepts(Pass(s, e, vectors))
  {
    AlongStart(s, e, vectors);
    PassFromExactly(s, s, e, 0, vectors);
  }

  lemma {:induction false} PassFromExactly(s: Sys, t: Sys, e: EngineId, i: nat, vectors: set<string>)
    requires Clean(s, e) && Along(s, t, e, i, vectors)
    ensures var u := PassFrom(t, e, i, |s.db.journal|, vectors);
            && (Recovered(u) <==> NoneFails(s, e, i, vectors))
            && (Recovered(u) ==> Inv(u) && OpenAccepts(u))
    decreases |s.db.journal| - i
  {
    if i == |s.db.journal| {
      AlongEnds(s, t, e, vectors);
    } else if Stuck(s, e, i, vectors) || Leftover(s, i) {
      FailingRow(s, t, e, i, vectors);
    } else {
      AlongStep(s, t, e, i, vectors);
      NextTurn(t, e, i, |s.db.journal|, vectors);
      PassFromExactly(s, Applied(t, e, i, vectors), e, i + 1, vectors);
    }
  }

  lemma AlongEnds(s: Sys, t: Sys, e: EngineId, vectors: set<string>)
    requires Along(s, t, e, |s.db.journal|, vectors)
    ensures Recovered(t) && Inv(t) && OpenAccepts(t) && PassFrom(t, e, |s.db.journal|, |s.db.journal|, vectors) == t
  {
    RecoveryConverges.AllDone(t);
  }

  lemma NextTurn(t: Sys, e: EngineId, i: nat, n: nat, vectors: set<string>)
    requires i < n && i < |t.db.journal|
    ensures PassFrom(t, e, i, n, vectors) == PassFrom(Applied(t, e, i, vectors), e, i + 1, n, vectors)
  {
  }

  lemma FailingRow(s: Sys, t: Sys, e: EngineId, k: nat, vectors: set<string>)
    requires Clean(s, e) && Along(s, t, e, k, vectors)
    requires k < |s.db.journal| && (Stuck(s, e, k, vectors) || Leftover(s, k))
    ensures !Recovered(PassFrom(t, e, k, |s.db.journal|, vectors))
  {
    var id, content := RowDoomed(s, t, e, k, vectors);
    NextTurn(t, e, k, |s.db.journal|, vectors);
    HopelessEnds(Applied(t, e, k, vectors), e, k + 1, |s.db.journal|, vectors, k, id, content);
  }

  lemma RowDoomed(s: Sys, t: Sys, e: EngineId, k: nat, vectors: set<string>) returns (id: Id, content: string)
    requires Clean(s, e) && Along(s, t, e, k, vectors)
    requires k < |s.db.journal| && (Stuck(s, e, k, vectors) || Leftover(s, k))
    ensures k < |t.db.journal| && Doomed(Applied(t, e, k, vectors), e, k, id, content)
  {
    id, content := Id(0), "";
    assert ClosedBefore(s.db.journal, k) <==> ClosedBy(s.db.journal, k, k);
    FailsExactly(s, t, e, k, vectors);
    if Stuck(s, e, k, vectors) {
      FailsWaits(t, e, k, vectors);
    } else {
      id :| LeftoverId(s, k, id);
      content := t.db.journal[k].oldContent;
      assert LeftoverId(t, k, id);
      LeftoverLost(t, e, k, vectors, id);
    }
  }

  /** From any state that keeps the invariant and opens, for an engine that comes up. */
  lemma RestartIsClean(s: Sys, e: EngineId)
    requires Inv(s) && s.lease.None? && EngineOf(s, e).Unloaded? && Openable(s)
    ensures var t := Do(Do(s, Open(e)), Acquire(e));
            Clean(t, e) && t.db == s.db && Keys(t) == Keys(s)
  {
    InvOpens(s);
    DoKeeps(s, Open(e));
    DoKeeps(Do(s, Open(e)), Acquire(e));
  }

  // ----- Runs that show it ----------------------------------------------------------------------------

  /** Stuck although every text that was not live before the pass could be embedded. */
  ghost predicate StuckAnyway(s: Sys, e: EngineId, k: nat) {
    k < |s.db.journal| && forall vectors :: Precomputed(s, e, vectors) ==> Stuck(s, e, k, vectors)
  }

  /** A text is being removed and added again: it is live before the pass, so no vector is
      computed even when embedding works, and gone when its ADD has its turn. */
  lemma ReAddIsStuck(workspace: string)
    ensures exists s, e :: Reachable(workspace, s, AsCoded) && Clean(s, e) && StuckAnyway(s, e, 2)
  {
    CrashLockouts.ReachStored(workspace);
    var s := CrashLockouts.Then(workspace, CrashLockouts.Stored(workspace), BeginDelete(CrashLockouts.A, Id(1)), Strict);
    assert s.db.journal == CrashLockouts.Emptied(workspace).db.journal;
    s := CrashLockouts.Then(workspace, s, Action.BeginAdd(CrashLockouts.A, "a"), Strict);
    ReachableInv(workspace, s);
    StrictIsAsCoded(workspace, s);
    forall vectors | Precomputed(s, CrashLockouts.A, vectors)
      ensures Stuck(s, CrashLockouts.A, 2, vectors)
    {
      StuckHere(s, CrashLockouts.A, vectors);
    }
    assert StuckAnyway(s, CrashLockouts.A, 2);
  }

  lemma StuckHere(s: Sys, e: EngineId, vectors: set<string>)
    requires s.db.journal == [AddRow(s.db.workspace, "a").(status := Completed),
                              Transition(s.db.workspace, Delete, Id(1), "a", "", Pending), AddRow(s.db.workspace, "a")]
    requires s.db.rows == map[Id(1) := "a"] && Mem(s, e) == {Id(1)} && Precomputed(s, e, vectors)
    ensures Stuck(s, e, 2, vectors)
  {
    assert Holds(s.db, Id(1), "a") && LiveText(s, e, "a");
    assert Holds(s.db, s.db.journal[1].oldId, "a");
    assert GoesFirst(s, 2);
  }

  /** The state of `LeftoverAddLocksOut`. */
  lemma ReplacedIsLeftOver(workspace: string)
    ensures exists s, e :: Reachable(workspace, s, AsCoded) && Clean(s, e) && 2 < |s.db.journal| && Leftover(s, 2)
  {
    var s0 := CrashLockouts.ReachLeftOver(workspace);
    assert Id(2) in s0.db.rows && Id(2) in Keys(s0);
    var s := CrashLockouts.Restart(workspace, s0);
    assert LeftoverId(s, 2, Id(3)) && Leftover(s, 2) && Clean(s, CrashLockouts.A);
  }
}
