/** Runs of the write protocol that end in a workspace no engine will open. They show that
    the conditions of `OpensExactlyWhen` are needed, and, with the code's own guards, each
    part of `Settled`.

    A run is put together from a few stages, each of which gives its state in full: one row,
    two rows, a replaced row, a lease given back with a vector unpublished. Two engines, A and
    B, are enough. */
module CrashLockouts {
  import opened Common
  import opened IndexIntegrity
  import opened MemoryStore
  import opened CrashRecovery

  const A := EngineId(0)
  const B := EngineId(1)

  // ----- The runs ------------------------------------------------------------------------------

  /** Crashing after the only row was deleted and before the publish: the journal
      accounts for the orphan vector, but the file is refused over an empty store. */
  lemma LastDeleteLocksOut(workspace: string)
    ensures exists s :: Reachable(workspace, s, Strict) && DriftAccepts(s) && !OpenAccepts(s) && Keys(s) != {}
  {
    ReachStored(workspace);
    var s := Then(workspace, Stored(workspace), BeginDelete(A, Id(1)), Strict);
    assert s.db.journal[1] == Transition(workspace, Delete, Id(1), "a", "", Pending);
    assert NamesOld(s.db.journal[1], Id(1));
    s := Then(workspace, s, Action.DeleteRow(A, Id(1)), Strict);
    assert s.db.rows == map[];
    s := Then(workspace, s, Crash(A), Strict);
    assert Id(1) in Keys(s);
    ReachableAccepted(workspace, s);
  }

  /** Crashing after the first re-add to an emptied index: the journal accounts for
      the row, but an empty file is refused over a populated store. */
  lemma FirstReAddLocksOut(workspace: string)
    ensures exists s :: Reachable(workspace, s, Strict) && DriftAccepts(s) && !OpenAccepts(s) &&
                        s.db.rows != map[] && s.disk.Some?
  {
    ReachEmptied(workspace);
    var s := Then(workspace, Emptied(workspace), Action.BeginAdd(A, "b"), Strict);
    assert s.db.journal == Emptied(workspace).db.journal + [AddRow(workspace, "b")];
    assert AddAuthority(s.db.journal, "b", 2);
    assert !HasContent(s.db, "b");
    s := Then(workspace, s, Insert(A, "b"), Strict);
    s := Then(workspace, s, Crash(A), Strict);
    assert Id(2) in s.db.rows;
    ReachableAccepted(workspace, s);
  }

  /** Before the first publish a pending DELETE withdraws the bootstrap of a missing index. */
  lemma DeleteBeforeFirstPublishLocksOut(workspace: string)
    ensures exists s :: Reachable(workspace, s, Strict) && DriftAccepts(s) && !OpenAccepts(s) && s.disk.None?
  {
    ReachStaged(workspace, Strict);
    var s := Then(workspace, Staged(workspace), Crash(A), Strict);
    s := Then(workspace, s, Acquire(A), Strict);
    s := Then(workspace, s, BeginDelete(A, Id(1)), Strict);
    assert s.db.journal[1] == Transition(workspace, Delete, Id(1), "a", "", Pending);
    s := Then(workspace, s, Crash(A), Strict);
    assert s.db.rows != map[] by { assert Id(1) in s.db.rows; }
    assert s.db.journal[1].status.Pending? && !s.db.journal[1].kind.Add?;
    ReachableOpens(workspace, s);
    ReachableAccepted(workspace, s);
  }

  /** A full-text error before the commit: A gives its lease back with an unpublished vector,
      B deletes that row and finishes both intents, and A then publishes an orphan. */
  lemma DirtyReleaseLocksOut(workspace: string)
    ensures exists s, e :: Reachable(workspace, s, AsCoded) && Inv(s) && Enabled(s, Publish(e), AsCoded) &&
                           !DriftAccepts(Step(s, Publish(e), AsCoded))
  {
    var s := ReachDirty(workspace);
    s := BDeletes(workspace, s);
    s := BFinishes(workspace, s);
    s := ThenKept(workspace, s, Acquire(A));
    assert !PendingOld(s.db.journal, Id(1)) && Id(1) in EngineOf(s, A).mem;
    PublishAccepted(s, Publish(A));
  }

  /** A holds an unpublished vector and no lease while B adds a text and publishes; A does
      not see B's vector, takes its row for unindexed and drops it, and the vector on disk is
      an orphan without an intent. */
  lemma OvertakenReindexLocksOut(workspace: string)
    ensures exists s, e, id :: Reachable(workspace, s, AsCoded) && Inv(s) && Stranded(s, e) &&
                               Enabled(s, Reindex(e, id), AsCoded) && !DriftAccepts(Step(s, Reindex(e, id), AsCoded))
  {
    var s := ReachDirty(workspace);
    s := BAdds(workspace, s);
    s := ThenKept(workspace, s, Acquire(A));
    RowOnDiskOnly(s);
    ReindexAccepted(s, Reindex(A, Id(2)));
  }

  /** The first publish raises behind the replace: the vector is on file, and A can never
      publish again. */
  lemma TornPublishStrands(workspace: string)
    ensures exists s, e :: Reachable(workspace, s, AsCoded) && Inv(s) && Stranded(s, e) && Keys(s) == {Id(1)} == s.db.rows.Keys
  {
    ReachStaged(workspace, Strict);
    var s := StagedVector(workspace, Strict);
    ReachableInv(workspace, s);
    StrictIsAsCoded(workspace, s);
    TornStrands(s, A);
    s := ThenKept(workspace, s, PublishTorn(A));
    assert s.db.rows == map[Id(1) := "a"];
  }

  /** A replacement left pending by a failed recovery, its old text added again, a crash
      before the publish: when recovery finishes the replacement it closes the leftover add
      of the old text, and row 3 has neither a vector nor an intent. */
  lemma LeftoverAddLocksOut(workspace: string)
    ensures exists s, e :: Reachable(workspace, s, AsCoded) && DriftAccepts(s) &&
                           2 < |s.db.journal| && s.db.journal[2].kind.Replace? && EngineOf(s, e).Loaded? &&
                           Converged(s, EngineOf(s, e).mem, 2) &&
                           Enabled(s, CloseAdds(e, "a"), AsCoded) && !DriftAccepts(Step(s, CloseAdds(e, "a"), AsCoded))
  {
    var s0 := ReachLeftOver(workspace);
    assert Id(2) in s0.db.rows && Id(2) in Keys(s0);
    var s := Restart(workspace, s0);
    InvAccepted(s);
    ClosingLeavesRow(workspace, s);
    CloseAddsAccepted(s, "a");
  }

  /** Row 1 was left without a vector by a crash; adding its text again with deduplication
      off inserts nothing, and closing the add then leaves it without an intent. */
  lemma ReAddLocksOut(workspace: string)
    ensures exists s, e :: Reachable(workspace, s, AsCoded) && DriftAccepts(s) &&
                           Enabled(s, CloseAdds(e, "a"), AsCoded) && !DriftAccepts(Step(s, CloseAdds(e, "a"), AsCoded))
  {
    ReachStaged(workspace, AsCoded);
    FirstAddsOpen(workspace);
    var s := Then(workspace, Staged(workspace), Crash(A), AsCoded);
    s := Then(workspace, s, Open(A), AsCoded);
    s := Then(workspace, s, Acquire(A), AsCoded);
    assert Holds(s.db, Id(1), "a");
    assert Authorises(s.db.journal[0], workspace) && NamesMissing(s.db.journal[0], s.db.rows, Id(1));
    assert DriftAccepts(s);
    var s' := Step(s, CloseAdds(A, "a"), AsCoded);
    assert Id(1) in s'.db.rows && !MissingAllowed(workspace, s'.db.rows, s'.db.journal, Id(1));
  }

  /** A delete that crashed before the publish: deleting the text again finds no row and
      closes the intent, and the vector on disk is an orphan without one. */
  lemma OrphanDeleteLocksOut(workspace: string)
    ensures exists s, e :: Reachable(workspace, s, AsCoded) && DriftAccepts(s) &&
                           Enabled(s, CloseDeletes(e, "a"), AsCoded) && !DriftAccepts(Step(s, CloseDeletes(e, "a"), AsCoded))
  {
    var s := ReachHalfDeleted(workspace);
    ReachableAccepted(workspace, s);
    assert Id(2) in s.db.rows && Id(1) in Keys(s);
    s := Restart(workspace, s);
    assert !HasContent(s.db, "a");
    var s' := Step(s, CloseDeletes(A, "a"), AsCoded);
    assert Id(1) in Keys(s') && Id(1) !in s'.db.rows;
    assert !OrphanAllowed(workspace, s'.db.journal, Id(1));
  }

  // ----- Their stages ----------------------------------------------------------------------------

  lemma Then(workspace: string, s: Sys, a: Action, rules: Rules) returns (s': Sys)
    requires Reachable(workspace, s, rules)
    ensures s' == Step(s, a, rules) && Reachable(workspace, s', rules)
  {
    var actions :| Run(Init(workspace), actions, rules) == s;
    assert (actions + [a])[..|actions|] == actions;
    s' := Step(s, a, rules);
    assert Run(Init(workspace), actions + [a], rules) == s';
  }

  /** The same for a settled step as coded, which keeps the invariant. */
  lemma ThenKept(workspace: string, s: Sys, a: Action) returns (s': Sys)
    requires Reachable(workspace, s, AsCoded) && Inv(s) && Enabled(s, a, AsCoded) && Settled(s, a)
    ensures s' == Step(s, a, AsCoded) && Reachable(workspace, s', AsCoded) && Inv(s')
  {
    StepKeepsExactlyWhen(s, a);
    s' := Then(workspace, s, a, AsCoded);
  }

  /** Engine A has stored row 1 under its lease and holds no vector yet. */
  function Staged(workspace: string): Sys {
    Sys(Db(workspace, map[Id(1) := "a"], 2, [AddRow(workspace, "a")]),
        None, 0, map[A := Loaded({}, false, None)], Some(A), {Id(1)})
  }

  /** Row 1 and its vector are both durable and its intent is closed. */
  function Stored(workspace: string): Sys {
    Sys(Db(workspace, map[Id(1) := "a"], 2, [AddRow(workspace, "a").(status := Completed)]),
        Some(IndexFile({Id(1)}, 1)), 1, map[A := Loaded({Id(1)}, false, Some(1))], Some(A), {})
  }

  lemma ReachStarted(workspace: string, rules: Rules) returns (s: Sys)
    ensures Reachable(workspace, s, rules)
    ensures s == Sys(EmptyDb(workspace), None, 0, map[A := Loaded({}, false, None)], Some(A), {})
  {
    s := Init(workspace);
    assert Run(s, [], rules) == s;
    s := Then(workspace, s, Open(A), rules);
    s := Then(workspace, s, Acquire(A), rules);
  }

  lemma ReachStaged(workspace: string, rules: Rules)
    ensures Reachable(workspace, Staged(workspace), rules)
    ensures HasAddAuthority([AddRow(workspace, "a")], "a")
  {
    var s := ReachStarted(workspace, rules);
    s := Then(workspace, s, Action.BeginAdd(A, "a"), rules);
    assert s.db.journal == [AddRow(workspace, "a")];
    assert AddAuthority(s.db.journal, "a", 0);
    assert !HasContent(s.db, "a");
    s := Then(workspace, s, Insert(A, "a"), rules);
    assert s == Staged(workspace);
  }

  lemma StagedVector(workspace: string, rules: Rules) returns (s: Sys)
    requires Reachable(workspace, Staged(workspace), rules)
    ensures s == Staged(workspace).(engines := map[A := Loaded({Id(1)}, true, None)])
    ensures Reachable(workspace, s, rules)
  {
    s := Then(workspace, Staged(workspace), AddVector(A, Id(1)), rules);
    assert {} + {Id(1)} == {Id(1)};
    assert s == Staged(workspace).(engines := map[A := Loaded({Id(1)}, true, None)]);
  }

  lemma ReachStored(workspace: string)
    ensures Reachable(workspace, Stored(workspace), Strict)
  {
    ReachStaged(workspace, Strict);
    var s := StagedVector(workspace, Strict);
    s := Then(workspace, s, Publish(A), Strict);
    assert s.disk == Some(IndexFile({Id(1)}, 1)) && EngineOf(s, A) == Loaded({Id(1)}, false, Some(1));
    assert Holds(s.db, Id(1), "a");
    assert NewLive(s, {Id(1)}, s.db.journal[0]);
    s := Then(workspace, s, Finish(A, 0), Strict);
    assert s == Stored(workspace);
  }

  function Removal(workspace: string): Transition {
    Transition(workspace, Delete, Id(1), "a", "", Pending)
  }

  /** The last row was deleted and the empty index was published. */
  function Emptied(workspace: string): Sys {
    Sys(Db(workspace, map[], 2, [AddRow(workspace, "a").(status := Completed), Removal(workspace)]),
        Some(IndexFile({}, 2)), 2, map[A := Loaded({}, false, Some(2))], Some(A), {})
  }

  /** A removes one row with its vector, and publishes. */
  lemma DropRow(workspace: string, s: Sys, id: Id) returns (s': Sys)
    requires Reachable(workspace, s, Strict) && s.lease == Some(A) && s.disk.Some?
    requires EngineOf(s, A) == Loaded(Keys(s), false, Identity(s))
    requires id in s.db.rows && id in Keys(s) && PendingOld(s.db.journal, id)
    ensures Reachable(workspace, s', Strict) && s'.db == s.db.(rows := s.db.rows - {id}) && s'.lease == s.lease
    ensures s'.engines == s.engines[A := Loaded(Keys(s) - {id}, false, Some(s.published + 1))] && s'.batch == {}
    ensures s'.published == s.published + 1 && s'.disk == Some(IndexFile(Keys(s) - {id}, s.published + 1))
  {
    s' := Then(workspace, s, Action.DeleteRow(A, id), Strict);
    s' := Then(workspace, s', RemoveVector(A, id), Strict);
    s' := Then(workspace, s', Publish(A), Strict);
  }

  lemma ReachEmptied(workspace: string)
    ensures Reachable(workspace, Emptied(workspace), Strict)
  {
    ReachStored(workspace);
    var s := Then(workspace, Stored(workspace), BeginDelete(A, Id(1)), Strict);
    assert s.db.journal == Emptied(workspace).db.journal;
    assert NamesOld(s.db.journal[1], Id(1));
    s := DropRow(workspace, s, Id(1));
    assert {Id(1)} - {Id(1)} == {} && s.db.rows == map[];
    assert s == Emptied(workspace);
  }

  // ----- Vectors published after the lease was given back, as coded ------------------------------

  /** Row 1 and its vector are A's, unpublished, and nobody holds the lease. */
  function Dirty(workspace: string): Sys {
    Staged(workspace).(engines := map[A := Loaded({Id(1)}, true, None)], lease := None, batch := {})
  }

  lemma ReachDirty(workspace: string) returns (s: Sys)
    ensures Reachable(workspace, s, AsCoded) && s == Dirty(workspace) && Inv(s)
  {
    ReachStaged(workspace, Strict);
    s := StagedVector(workspace, Strict);
    ReachableInv(workspace, s);
    StrictIsAsCoded(workspace, s);
    s := ThenKept(workspace, s, Release(A));
  }

  /** B holds the lease; row 1 is gone from SQLite, A still has its vector in memory. */
  function Deleted(workspace: string): Sys {
    Sys(Db(workspace, map[], 2, [AddRow(workspace, "a"), Removal(workspace)]),
        None, 0, map[A := Loaded({Id(1)}, true, None), B := Loaded({}, false, None)], Some(B), {})
  }

  lemma BOpens(workspace: string, s0: Sys) returns (s: Sys)
    requires Reachable(workspace, s0, AsCoded) && Inv(s0) && s0 == Dirty(workspace)
    ensures Reachable(workspace, s, AsCoded) && Inv(s)
    ensures s == s0.(engines := map[A := Loaded({Id(1)}, true, None), B := Loaded({}, false, None)], lease := Some(B))
  {
    FirstAddsOpen(workspace);
    s := ThenKept(workspace, s0, Open(B));
    s := ThenKept(workspace, s, Acquire(B));
    assert s.engines == map[A := Loaded({Id(1)}, true, None), B := Loaded({}, false, None)];
  }

  lemma BDeletes(workspace: string, s0: Sys) returns (s: Sys)
    requires Reachable(workspace, s0, AsCoded) && Inv(s0) && s0 == Dirty(workspace)
    ensures Reachable(workspace, s, AsCoded) && Inv(s) && s == Deleted(workspace)
  {
    s := BOpens(workspace, s0);
    s := ThenKept(workspace, s, BeginDelete(B, Id(1)));
    assert s.db.journal == Deleted(workspace).db.journal;
    assert NamesOld(s.db.journal[1], Id(1));
    s := ThenKept(workspace, s, Action.DeleteRow(B, Id(1)));
    assert s.db.rows == map[];
    assert s.engines == Deleted(workspace).engines;
  }

  lemma BFinishes(workspace: string, s0: Sys) returns (s: Sys)
    requires Reachable(workspace, s0, AsCoded) && Inv(s0) && s0 == Deleted(workspace)
    ensures Reachable(workspace, s, AsCoded) && Inv(s)
    ensures s.disk == None && s.published == 0 && s.lease == None && s.db.workspace == workspace && s.db.rows == map[]
    ensures EngineOf(s, A) == Loaded({Id(1)}, true, None)
    ensures forall k :: 0 <= k < |s.db.journal| ==> s.db.journal[k].status.Completed?
  {
    assert Removes(s0.db.journal[1], "a") && HasLater(s0.db.journal, "a", 0);
    s := ThenKept(workspace, s0, Finish(B, 0));
    assert s.db.journal == [AddRow(workspace, "a").(status := Completed), Removal(workspace)];
    s := ThenKept(workspace, s, Finish(B, 1));
    s := ThenKept(workspace, s, Release(B));
  }

  lemma RowOnDiskOnly(s: Sys)
    requires s.lease == Some(A) && EngineOf(s, A) == Loaded({Id(1)}, true, None)
    requires s.db.rows == map[Id(1) := "a", Id(2) := "b"] && s.disk == Some(IndexFile({Id(2)}, 1)) && s.published == 1
    requires s.db.journal == [AddRow(s.db.workspace, "a"), AddRow(s.db.workspace, "b")]
    ensures Enabled(s, Reindex(A, Id(2)), AsCoded) && Stranded(s, A)
    ensures Id(2) in Keys(s) && !PendingOld(s.db.journal, Id(2))
  {
    assert s.db.journal[1].status.Pending? && s.db.journal[1].newContent == s.db.rows[Id(2)];
  }

  lemma BAdds(workspace: string, s0: Sys) returns (s: Sys)
    requires Reachable(workspace, s0, AsCoded) && Inv(s0) && s0 == Dirty(workspace)
    ensures Reachable(workspace, s, AsCoded) && Inv(s) && s.lease == None && EngineOf(s, A) == Loaded({Id(1)}, true, None)
    ensures s.db.journal == [AddRow(workspace, "a"), AddRow(workspace, "b")] && s.db.rows == map[Id(1) := "a", Id(2) := "b"]
    ensures s.disk == Some(IndexFile({Id(2)}, 1)) && s.published == 1
  {
    s := BOpens(workspace, s0);
    s := ThenKept(workspace, s, Action.BeginAdd(B, "b"));
    assert s.db.journal == [AddRow(workspace, "a"), AddRow(workspace, "b")];
    assert AddAuthority(s.db.journal, "b", 1);
    assert !HasContent(s.db, "b");
    s := ThenKept(workspace, s, Insert(B, "b"));
    s := BPublishes(workspace, s);
  }

  lemma BPublishes(workspace: string, s0: Sys) returns (s: Sys)
    requires Reachable(workspace, s0, AsCoded) && Inv(s0) && s0.lease == Some(B) && s0.disk == None && s0.published == 0
    requires s0.engines == map[A := Loaded({Id(1)}, true, None), B := Loaded({}, false, None)] && Id(2) in s0.db.rows
    ensures Reachable(workspace, s, AsCoded) && Inv(s) && s.lease == None && EngineOf(s, A) == Loaded({Id(1)}, true, None)
    ensures s.db == s0.db && s.disk == Some(IndexFile({Id(2)}, 1)) && s.published == 1
  {
    s := ThenKept(workspace, s0, AddVector(B, Id(2)));
    assert {} + {Id(2)} == {Id(2)};
    s := ThenKept(workspace, s, Publish(B));
    s := ThenKept(workspace, s, Release(B));
  }

  lemma FirstAddsOpen(workspace: string)
    ensures FirstAddsOnly(Snapshot(workspace, map[Id(1) := "a"], PendingRows([AddRow(workspace, "a")]), 0, 0))
  {
    var j := [AddRow(workspace, "a")];
    assert j[..0] == [];
    assert PendingRows(j) == j;
    assert Authorises(j[0], workspace) && j[0].newContent == "a";
    assert Id(1) in map[Id(1) := "a"];
  }

  // ----- Intents closed by text, as coded --------------------------------------------------------

  /** Rows 1 and 2 and their vectors are durable. */
  function TwoRows(workspace: string): Sys {
    Sys(Db(workspace, map[Id(1) := "a", Id(2) := "b"], 3, [AddRow(workspace, "a").(status := Completed), AddRow(workspace, "b")]),
        Some(IndexFile({Id(1), Id(2)}, 2)), 2, map[A := Loaded({Id(1), Id(2)}, false, Some(2))], Some(A), {})
  }

  lemma ReachSecondRow(workspace: string) returns (s: Sys)
    ensures Reachable(workspace, s, Strict)
    ensures s == Stored(workspace).(db := TwoRows(workspace).db, batch := {Id(2)})
  {
    ReachStored(workspace);
    s := Then(workspace, Stored(workspace), Action.BeginAdd(A, "b"), Strict);
    assert s.db.journal == TwoRows(workspace).db.journal;
    assert AddAuthority(s.db.journal, "b", 1);
    assert !HasContent(s.db, "b");
    s := Then(workspace, s, Insert(A, "b"), Strict);
    assert s.db.rows == TwoRows(workspace).db.rows;
  }

  lemma ReachTwoRows(workspace: string)
    ensures Reachable(workspace, TwoRows(workspace), Strict)
  {
    var s := ReachSecondRow(workspace);
    s := Then(workspace, s, AddVector(A, Id(2)), Strict);
    assert {Id(1)} + {Id(2)} == {Id(1), Id(2)};
    assert EngineOf(s, A) == Loaded({Id(1), Id(2)}, true, Some(1));
    s := Then(workspace, s, Publish(A), Strict);
    assert s.engines == TwoRows(workspace).engines;
    assert s == TwoRows(workspace);
  }

  /** A crashes, and is back with the index open and the lease. */
  lemma Restart(workspace: string, s0: Sys) returns (s: Sys)
    requires Reachable(workspace, s0, Strict) && s0.lease == Some(A) && s0.disk.Some? && Keys(s0) != {} && s0.db.rows != map[]
    ensures Reachable(workspace, s, AsCoded) && Inv(s) && s.db == s0.db && s.disk == s0.disk
    ensures Working(s, A) && EngineOf(s, A) == Loaded(Keys(s0), false, Identity(s0))
  {
    s := Then(workspace, s0, Crash(A), Strict);
    ReachableOpens(workspace, s);
    s := Then(workspace, s, Open(A), Strict);
    s := Then(workspace, s, Acquire(A), Strict);
    ReachableInv(workspace, s);
    StrictIsAsCoded(workspace, s);
  }

  /** An id was replaced and is gone, the replacement is still pending, and its text came
      back as row 3 without a vector. */
  function LeftOver(workspace: string): Db {
    Db(workspace, map[Id(2) := "b", Id(3) := "a"], 4,
       [AddRow(workspace, "a").(status := Completed), AddRow(workspace, "b"),
        Transition(workspace, Replace, Id(1), "a", "b", Pending), AddRow(workspace, "a")])
  }

  lemma ReachReplaced(workspace: string) returns (s: Sys)
    ensures Reachable(workspace, s, Strict)
    ensures s.db == Db(workspace, map[Id(2) := "b"], 3, LeftOver(workspace).journal[..3])
    ensures s.disk == Some(IndexFile({Id(2)}, 3)) && s.lease == Some(A) && EngineOf(s, A) == Loaded({Id(2)}, false, Some(3))
  {
    ReachTwoRows(workspace);
    s := Then(workspace, TwoRows(workspace), BeginReplace(A, Id(1), "b"), Strict);
    assert s.db.journal == LeftOver(workspace).journal[..3];
    assert NamesOld(s.db.journal[2], Id(1));
    s := DropRow(workspace, s, Id(1));
    assert s.db.rows == map[Id(2) := "b"];
    assert {Id(1), Id(2)} - {Id(1)} == {Id(2)};
  }

  lemma ReachLeftOver(workspace: string) returns (s: Sys)
    ensures Reachable(workspace, s, Strict) && s.db == LeftOver(workspace)
    ensures s.disk == Some(IndexFile({Id(2)}, 3)) && s.lease == Some(A)
  {
    s := ReachReplaced(workspace);
    s := Then(workspace, s, Action.BeginAdd(A, "a"), Strict);
    assert s.db.journal == LeftOver(workspace).journal;
    assert AddAuthority(s.db.journal, "a", 3);
    assert !HasContent(s.db, "a");
    s := Then(workspace, s, Insert(A, "a"), Strict);
    assert s.db.rows == LeftOver(workspace).rows;
  }

  lemma ClosingLeavesRow(workspace: string, s: Sys)
    requires s.db == LeftOver(workspace) && Keys(s) == {Id(2)} && Working(s, A) && EngineOf(s, A) == Loaded({Id(2)}, false, Identity(s))
    ensures Converged(s, {Id(2)}, 2) && Enabled(s, CloseAdds(A, "a"), AsCoded)
    ensures Holds(s.db, Id(3), "a") && Id(3) !in Keys(s)
    ensures !PendingOld(s.db.journal, Id(3)) && !PendingReplaceTo(s.db.journal, "a")
  {
    assert Holds(s.db, Id(2), "b") && NewLive(s, {Id(2)}, s.db.journal[2]);
    assert Holds(s.db, Id(3), "a");
  }

  lemma ReachHalfDeleted(workspace: string) returns (s: Sys)
    ensures Reachable(workspace, s, Strict) && s.lease == Some(A) && s.disk == Some(IndexFile({Id(1), Id(2)}, 2))
    ensures s.db == Db(workspace, map[Id(2) := "b"], 3, TwoRows(workspace).db.journal + [Removal(workspace)])
  {
    ReachTwoRows(workspace);
    s := Then(workspace, TwoRows(workspace), BeginDelete(A, Id(1)), Strict);
    assert s.db.journal == TwoRows(workspace).db.journal + [Removal(workspace)];
    assert s.db.journal[2] == Removal(workspace) && NamesOld(s.db.journal[2], Id(1));
    s := Then(workspace, s, Action.DeleteRow(A, Id(1)), Strict);
    assert s.db.rows == map[Id(2) := "b"];
  }
}
