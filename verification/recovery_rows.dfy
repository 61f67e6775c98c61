/** What one row of a recovery pass does (replacement_recovery.py), from a clean engine: the
    exact rows, vectors and journal after each stage when it succeeds; that a row which
    converges keeps the invariant and what is said of the later rows; that a row fails at its
    turn exactly when that could be told before the pass; and that a pending row of which the
    turn has passed, or a row of a text that nothing in the journal speaks for any more, is as
    it was after every later turn. `RecoveryTheorem` puts these together over the whole
    journal; they are stated on values as far as possible, since each of them is used at
    every turn. */
module RecoveryRows {
  import opened Common
  import opened IndexIntegrity
  import opened MemoryStore
  import opened CrashRecovery
  import opened RecoveryPass

  lemma {:induction false} LoopKeeps(turn: (Sys, nat) -> Sys, p: Sys -> bool, s: Sys, i: nat, n: nat)
    requires p(s) && forall t, m: nat :: i <= m < n && p(t) ==> p(turn(t, m))
    ensures p(Loop(turn, s, i, n))
    decreases n - i
  {
    if i < n {
      LoopKeeps(turn, p, turn(s, i), i + 1, n);
    }
  }

  // ----- What each stage does -----------------------------------------------------------------

  /** Another settled step. */
  lemma DoKeeps(s: Sys, a: Action)
    requires Inv(s) && Enabled(s, a, AsCoded) && Settled(s, a)
    ensures Do(s, a) == Effect(s, a, AsCoded) && Inv(Do(s, a))
  {
    StepKeepsExactlyWhen(s, a);
  }

  lemma CleanKeys(s: Sys, e: EngineId)
    requires Clean(s, e)
    ensures Mem(s, e) == Keys(s)
  {
    assert EngineInv(s, e);
  }

  /** Rows and vectors once the text has been ensured. */
  ghost function RowsWith(db: Db, content: string): map<Id, string> {
    (db.rows - Holders(db, content))[Id(db.nextId) := content]
  }

  lemma HoldersOne(db: Db, id: Id, content: string)
    requires RowsOk(db) && Holds(db, id, content)
    ensures Holders(db, content) == {id}
  {
    assert id in Holders(db, content);
    assert forall other :: other in Holders(db, content) ==> other == id;
  }

  lemma EnsuredFresh(s: Sys, e: EngineId, k: nat, vectors: set<string>)
    requires Clean(s, e) && k < |s.db.journal| && s.db.journal[k].status.Pending? && Ensuring(s.db.journal, k)
    requires !LiveText(s, e, s.db.journal[k].newContent) && s.db.journal[k].newContent in vectors
    ensures var c := s.db.journal[k].newContent;
            var t := Ensured(s, e, c, vectors);
            && Ready(t, e) && t.db == s.db.(rows := RowsWith(s.db, c), nextId := s.db.nextId + 1)
            && t.disk == s.disk && Mem(t, e) == Mem(s, e) + {Id(s.db.nextId)} && EngineOf(t, e).dirty && LiveText(t, e, c)
  {
    var c := s.db.journal[k].newContent;
    if id :| Holds(s.db, id, c) {
      DroppedFirst(s, e, k, id);
      Inserted(Do(s, Reindex(e, id)), e, k);
    } else {
      assert forall x :: x in Holders(s.db, c) ==> Holds(s.db, x, c);
      assert s.db.rows - Holders(s.db, c) == s.db.rows;
      Inserted(s, e, k);
    }
  }

  lemma DroppedFirst(s: Sys, e: EngineId, k: nat, id: Id)
    requires Clean(s, e) && k < |s.db.journal| && s.db.journal[k].status.Pending? && Ensuring(s.db.journal, k)
    requires Holds(s.db, id, s.db.journal[k].newContent) && !LiveText(s, e, s.db.journal[k].newContent)
    ensures var c := s.db.journal[k].newContent;
            var t := Do(s, Reindex(e, id));
            && Clean(t, e) && t.db == s.db.(rows := s.db.rows - Holders(s.db, c)) && t.disk == s.disk
            && Mem(t, e) == Mem(s, e) && !HasContent(t.db, c)
            && (forall x :: Holds(s.db, x, c) ==> x == id)
  {
    var c := s.db.journal[k].newContent;
    CleanKeys(s, e);
    HoldersOne(s.db, id, c);
    assert PendingNew(s.db.journal, s.db.rows[id]);
    DoKeeps(s, Reindex(e, id));
    assert forall x :: Holds(s.db, x, c) ==> x in Holders(s.db, c);
  }

  lemma Inserted(s: Sys, e: EngineId, k: nat)
    requires Clean(s, e) && k < |s.db.journal| && s.db.journal[k].status.Pending? && Ensuring(s.db.journal, k)
    requires !HasContent(s.db, s.db.journal[k].newContent)
    ensures var c, id := s.db.journal[k].newContent, Id(s.db.nextId);
            var t := Do(Do(s, Insert(e, c)), AddVector(e, id));
            && Ready(t, e) && t.db == InsertRow(s.db, c)
            && t.disk == s.disk && Mem(t, e) == Mem(s, e) + {id} && EngineOf(t, e).dirty && LiveText(t, e, c)
  {
    var c, id := s.db.journal[k].newContent, Id(s.db.nextId);
    assert AddAuthority(s.db.journal, c, k);
    DoKeeps(s, Insert(e, c));
    assert EngineInv(s, e);
    var u := Do(s, Insert(e, c));
    DoKeeps(u, AddVector(e, id));
    assert Holds(Do(u, AddVector(e, id)).db, id, c);
  }

  /** Every vector that is not on disk yet has its row. */
  ghost predicate NewHaveRows(s: Sys, e: EngineId) {
    forall id :: id in Mem(s, e) && id !in Keys(s) ==> id in s.db.rows
  }

  lemma SavedExact(s: Sys, e: EngineId)
    requires Ready(s, e) && NewHaveRows(s, e)
    ensures var u := Saved(s, e);
            Clean(u, e) && u.db == s.db && Mem(u, e) == Mem(s, e) && Keys(u) == Mem(s, e)
  {
    if EngineOf(s, e).dirty {
      DoKeeps(s, Publish(e));
    } else {
      CleanKeys(s, e);
    }
  }

  lemma RemovedExact(s: Sys, e: EngineId, k: nat)
    requires Ready(s, e) && NewHaveRows(s, e)
    requires k < |s.db.journal| && s.db.journal[k].status.Pending? && !s.db.journal[k].kind.Add?
    ensures var id := s.db.journal[k].oldId;
            var u := Saved(Removed(s, e, id), e);
            && Clean(u, e) && u.db == s.db.(rows := s.db.rows - {id})
            && Mem(u, e) == Mem(s, e) - {id} && Keys(u) == Mem(u, e)
  {
    var id := s.db.journal[k].oldId;
    assert JournalRowOk(s.db, s.db.journal[k]) && NamesOld(s.db.journal[k], id);
    var t := Do(s, Action.DeleteRow(e, id));
    if id in s.db.rows {
      DoKeeps(s, Action.DeleteRow(e, id));
    } else {
      assert s.db.rows - {id} == s.db.rows;
    }
    if id in Mem(t, e) {
      DoKeeps(t, RemoveVector(e, id));
    } else {
      assert Mem(s, e) - {id} == Mem(s, e);
    }
    SavedExact(Removed(s, e, id), e);
  }

  lemma FinishExact(s: Sys, e: EngineId, k: nat)
    requires Clean(s, e) && k < |s.db.journal| && s.db.journal[k].status.Pending? && Converged(s, Mem(s, e), k)
    ensures var t := Do(s, Finish(e, k));
            Clean(t, e) && t == s.(db := s.db.(journal := MarkCompleted(s.db.journal, k)))
  {
    DoKeeps(s, Finish(e, k));
  }

  // ----- One row that converges ---------------------------------------------------------------

  ghost predicate Fails(s: Sys, e: EngineId, k: nat, vectors: set<string>)
    requires k < |s.db.journal|
  {
    var row := s.db.journal[k];
    && row.status.Pending? && Ensuring(s.db.journal, k)
    && if LiveText(s, e, row.newContent) then row.kind.Replace? && Holds(s.db, row.oldId, row.newContent)
       else row.newContent !in vectors
  }

  /** Journals that differ in statuses only, and only towards completion. */
  ghost predicate Later(j: seq<Transition>, j': seq<Transition>) {
    && |j'| == |j|
    && (forall m :: 0 <= m < |j| ==> j'[m].(status := Pending) == j[m].(status := Pending))
    && (forall m :: 0 <= m < |j| && j'[m].status.Pending? ==> j[m].status.Pending?)
  }

  lemma LaterSame(j: seq<Transition>, j': seq<Transition>)
    requires Later(j, j')
    ensures forall m :: 0 <= m < |j| ==>
              j'[m].kind == j[m].kind && j'[m].newContent == j[m].newContent && j'[m].oldContent == j[m].oldContent &&
              j'[m].oldId == j[m].oldId && j'[m].workspace == j[m].workspace
    ensures forall c, after :: HasLater(j', c, after) <==> HasLater(j, c, after)
    ensures forall m :: 0 <= m < |j| ==> (Ensuring(j', m) <==> Ensuring(j, m))
    ensures forall id :: PendingOld(j', id) ==> PendingOld(j, id)
    ensures forall c :: ReplaceAuthority(j', c) ==> ReplaceAuthority(j, c)
  {
    forall m | 0 <= m < |j|
      ensures j'[m].kind == j[m].kind && j'[m].newContent == j[m].newContent && j'[m].oldContent == j[m].oldContent &&
              j'[m].oldId == j[m].oldId && j'[m].workspace == j[m].workspace
    {
      assert j'[m].(status := Pending) == j[m].(status := Pending);
    }
    forall c, after
      ensures HasLater(j', c, after) <==> HasLater(j, c, after)
    {
      assert forall m :: 0 <= m < |j| ==> (Removes(j'[m], c) <==> Removes(j[m], c));
    }
    forall id | PendingOld(j', id)
      ensures PendingOld(j, id)
    {
      var m :| 0 <= m < |j'| && j'[m].status.Pending? && NamesOld(j'[m], id);
      assert j[m].status.Pending? && NamesOld(j[m], id);
    }
    forall c | ReplaceAuthority(j', c)
      ensures ReplaceAuthority(j, c)
    {
      var m :| AddAuthority(j', c, m) && j'[m].kind.Replace?;
      assert AddAuthority(j, c, m) && j[m].kind.Replace?;
    }
  }

  /** What a converging row `i` does to the journal: it is completed, and with it only the
      ADDs it closes. */
  ghost predicate Closing(j: seq<Transition>, j': seq<Transition>, i: nat)
    requires i < |j|
  {
    && Later(j, j') && j'[i].status.Completed?
    && forall m :: 0 <= m < |j| && m != i && j[m].status.Pending? ==> (j'[m].status.Completed? <==> Closes(j, i, m))
  }

  /** What it does to rows and vectors. */
  ghost predicate Moves(db: Db, keys: set<Id>, db': Db, keys': set<Id>, i: nat)
    requires i < |db.journal|
  {
    var row := db.journal[i];
    var c, ensuring := row.newContent, Ensuring(db.journal, i);
    && db.nextId <= db'.nextId
    && (forall id :: id in db.rows && (!row.kind.Add? ==> id != row.oldId) && (id in keys || db.rows[id] != c || !ensuring) ==>
          Holds(db', id, db.rows[id]) && (id in keys ==> id in keys'))
    && (forall id :: id in db'.rows ==>
          Holds(db, id, db'.rows[id]) || (id in keys' && id.n >= db.nextId && db'.rows[id] == c && ensuring && !Live(db, keys, c)))
    && (forall id :: id in keys' ==> id in keys || id.n >= db.nextId)
    && (ensuring ==> Live(db', keys', c))
  }

  ghost predicate Went(s: Sys, t: Sys, e: EngineId, i: nat)
    requires i < |s.db.journal|
  {
    Clean(t, e) && Closing(s.db.journal, t.db.journal, i) && Moves(s.db, Keys(s), t.db, Keys(t), i)
  }

  lemma FinishCloses(j: seq<Transition>, i: nat)
    requires i < |j| && !(j[i].kind.Replace? && Ensuring(j, i))
    ensures Closing(j, MarkCompleted(j, i), i)
  {
  }

  lemma MovesAway(db: Db, keys: set<Id>, db': Db, keys': set<Id>, i: nat)
    requires i < |db.journal| && !Ensuring(db.journal, i) && db'.nextId == db.nextId
    requires if db.journal[i].kind.Add? then db'.rows == db.rows && keys' == keys
             else db'.rows == db.rows - {db.journal[i].oldId} && keys' == keys - {db.journal[i].oldId}
    ensures Moves(db, keys, db', keys', i)
  {
  }

  /** A row whose text is not to be there: it is overtaken, or a removal. */
  lemma WentAway(s: Sys, e: EngineId, i: nat, vectors: set<string>)
    requires Clean(s, e) && i < |s.db.journal| && s.db.journal[i].status.Pending? && !Ensuring(s.db.journal, i)
    ensures Went(s, Applied(s, e, i, vectors), e, i)
  {
    var t := Applied(s, e, i, vectors);
    if s.db.journal[i].kind.Add? {
      FinishExact(s, e, i);
    } else {
      AwayDone(s, e, i);
    }
    FinishCloses(s.db.journal, i);
    MovesAway(s.db, Keys(s), t.db, Keys(t), i);
  }

  lemma AwayDone(s: Sys, e: EngineId, i: nat)
    requires Clean(s, e) && i < |s.db.journal| && s.db.journal[i].status.Pending? && !s.db.journal[i].kind.Add?
    requires !Ensuring(s.db.journal, i)
    ensures var id := s.db.journal[i].oldId;
            var t := Do(Saved(Removed(s, e, id), e), Finish(e, i));
            && Clean(t, e) && t.db == s.db.(rows := s.db.rows - {id}, journal := MarkCompleted(s.db.journal, i))
            && Keys(t) == Keys(s) - {id}
  {
    CleanKeys(s, e);
    RemovedExact(s, e, i);
    FinishExact(Saved(Removed(s, e, s.db.journal[i].oldId), e), e, i);
  }

  // ----- A row whose text is to be there --------------------------------------------------------

  ghost function With(db: Db, keys: set<Id>, content: string): Db {
    if Live(db, keys, content) then db else db.(rows := RowsWith(db, content), nextId := db.nextId + 1)
  }

  ghost function KeysWith(db: Db, keys: set<Id>, content: string): set<Id> {
    if Live(db, keys, content) then keys else keys + {Id(db.nextId)}
  }

  lemma WithMoves(db: Db, keys: set<Id>, db': Db, keys': set<Id>, i: nat, gone: set<Id>)
    requires RowsOk(db) && i < |db.journal| && Ensuring(db.journal, i)
    requires gone == if db.journal[i].kind.Add? then {} else {db.journal[i].oldId}
    requires forall id :: id in keys || id in gone ==> id.n < db.nextId
    requires var c := db.journal[i].newContent;
             && (Live(db, keys, c) && db.journal[i].kind.Replace? ==> !Holds(db, db.journal[i].oldId, c))
             && db'.rows == With(db, keys, c).rows - gone && keys' == KeysWith(db, keys, c) - gone
             && db'.nextId == With(db, keys, c).nextId
    ensures Moves(db, keys, db', keys', i)
  {
    var c := db.journal[i].newContent;
    if id :| Holds(db, id, c) && id in keys {
      assert id !in gone;
      assert Holds(db', id, c) && id in keys';
    } else {
      FreshMoves(db, keys, db', keys', i, gone);
    }
  }

  lemma FreshMoves(db: Db, keys: set<Id>, db': Db, keys': set<Id>, i: nat, gone: set<Id>)
    requires RowsOk(db) && i < |db.journal| && Ensuring(db.journal, i)
    requires gone == if db.journal[i].kind.Add? then {} else {db.journal[i].oldId}
    requires forall id :: id in keys || id in gone ==> id.n < db.nextId
    requires !Live(db, keys, db.journal[i].newContent)
    requires db'.rows == RowsWith(db, db.journal[i].newContent) - gone && db'.nextId == db.nextId + 1
    requires keys' == keys + {Id(db.nextId)} - gone
    ensures Moves(db, keys, db', keys', i)
  {
    var c := db.journal[i].newContent;
    assert Holds(db', Id(db.nextId), c) && Id(db.nextId) in keys';
    assert forall id :: id in Holders(db, c) ==> Holds(db, id, c);
  }

  lemma EnsuredReady(s: Sys, e: EngineId, i: nat, vectors: set<string>)
    requires Clean(s, e) && i < |s.db.journal| && s.db.journal[i].status.Pending? && Ensuring(s.db.journal, i)
    requires LiveText(s, e, s.db.journal[i].newContent) || s.db.journal[i].newContent in vectors
    ensures var c := s.db.journal[i].newContent;
            var t := Ensured(s, e, c, vectors);
            && Ready(t, e) && NewHaveRows(t, e) && LiveText(t, e, c)
            && t.db == With(s.db, Keys(s), c) && Mem(t, e) == KeysWith(s.db, Keys(s), c)
  {
    CleanKeys(s, e);
    if !LiveText(s, e, s.db.journal[i].newContent) {
      EnsuredFresh(s, e, i, vectors);
    }
  }

  lemma AddDone(s: Sys, e: EngineId, i: nat, vectors: set<string>)
    requires Clean(s, e) && i < |s.db.journal| && s.db.journal[i].status.Pending? && Ensuring(s.db.journal, i)
    requires s.db.journal[i].kind.Add? && !Fails(s, e, i, vectors)
    ensures var c := s.db.journal[i].newContent;
            var t := Applied(s, e, i, vectors);
            && Clean(t, e) && Keys(t) == KeysWith(s.db, Keys(s), c)
            && t.db == With(s.db, Keys(s), c).(journal := MarkCompleted(s.db.journal, i))
  {
    var c := s.db.journal[i].newContent;
    EnsuredReady(s, e, i, vectors);
    var t := Ensured(s, e, c, vectors);
    SavedExact(t, e);
    assert LiveText(Saved(t, e), e, c);
    FinishExact(Saved(t, e), e, i);
  }

  lemma KeysBelow(s: Sys, i: nat)
    requires Inv(s) && i < |s.db.journal|
    ensures RowsOk(s.db) && forall id :: id in Keys(s) ==> id.n < s.db.nextId
    ensures !s.db.journal[i].kind.Add? ==> s.db.journal[i].oldId.n < s.db.nextId && NamesOld(s.db.journal[i], s.db.journal[i].oldId)
  {
    assert JournalRowOk(s.db, s.db.journal[i]);
  }

  lemma WentAdd(s: Sys, e: EngineId, i: nat, vectors: set<string>)
    requires Clean(s, e) && i < |s.db.journal| && s.db.journal[i].status.Pending? && Ensuring(s.db.journal, i)
    requires s.db.journal[i].kind.Add? && !Fails(s, e, i, vectors)
    ensures Went(s, Applied(s, e, i, vectors), e, i)
  {
    AddDone(s, e, i, vectors);
    FinishCloses(s.db.journal, i);
    KeysBelow(s, i);
    var t := Applied(s, e, i, vectors);
    assert t.db.rows - {} == t.db.rows && Keys(t) - {} == Keys(t);
    WithMoves(s.db, Keys(s), t.db, Keys(t), i, {});
  }

  /** The stages of a replacement up to the point where it has converged. */
  lemma ReplaceStages(s: Sys, e: EngineId, i: nat, vectors: set<string>)
    requires Clean(s, e) && i < |s.db.journal| && s.db.journal[i].status.Pending? && Ensuring(s.db.journal, i)
    requires s.db.journal[i].kind.Replace? && !Fails(s, e, i, vectors)
    ensures var row := s.db.journal[i];
            var t := Ensured(s, e, row.newContent, vectors);
            var u := Saved(Removed(t, e, row.oldId), e);
            var db := With(s.db, Keys(s), row.newContent);
            && LiveText(t, e, row.newContent) && Clean(u, e)
            && u.db == db.(rows := db.rows - {row.oldId})
            && Keys(u) == KeysWith(s.db, Keys(s), row.newContent) - {row.oldId} && Mem(u, e) == Keys(u)
  {
    EnsuredReady(s, e, i, vectors);
    RemovedExact(Ensured(s, e, s.db.journal[i].newContent, vectors), e, i);
  }

  lemma ReplaceConverged(s: Sys, e: EngineId, i: nat, u: Sys)
    requires Clean(s, e) && i < |s.db.journal| && s.db.journal[i].status.Pending? && Ensuring(s.db.journal, i)
    requires s.db.journal[i].kind.Replace?
    requires var row := s.db.journal[i];
             var db := With(s.db, Keys(s), row.newContent);
             && (Live(s.db, Keys(s), row.newContent) ==> !Holds(s.db, row.oldId, row.newContent))
             && u.db == db.(rows := db.rows - {row.oldId})
             && Keys(u) == KeysWith(s.db, Keys(s), row.newContent) - {row.oldId} && Mem(u, e) == Keys(u)
    ensures Converged(u, Mem(u, e), i) && Moves(s.db, Keys(s), u.db, Keys(u), i)
  {
    var row := s.db.journal[i];
    KeysBelow(s, i);
    WithMoves(s.db, Keys(s), u.db, Keys(u), i, {row.oldId});
    assert Live(u.db, Keys(u), row.newContent);
    assert NewLive(u, Mem(u, e), row);
  }

  /** Every row of the old text is on disk, or a removal or a replacement speaks for it. */
  lemma ClosingSettled(s: Sys, u: Sys, i: nat)
    requires Inv(s) && i < |s.db.journal| && s.db.journal[i].status.Pending? && Ensuring(s.db.journal, i)
    requires s.db.journal[i].kind.Replace? && s.db.journal[i].oldContent != "" && !Leftover(s, i)
    requires u.db.journal == s.db.journal && Moves(s.db, Keys(s), u.db, Keys(u), i)
    ensures AddsSettled(u, s.db.journal[i].oldContent)
  {
    var text := s.db.journal[i].oldContent;
    forall id | id in u.db.rows && u.db.rows[id] == text
      ensures id in Keys(u) || PendingOld(u.db.journal, id) || ReplaceAuthority(u.db.journal, text)
    {
      assert !LeftoverId(s, i, id);
      if Holds(s.db, id, text) && id in Keys(s) && id == s.db.journal[i].oldId {
        KeysBelow(s, i);
        assert PendingOld(s.db.journal, id);
      }
    }
  }

  lemma ClosedDone(u: Sys, e: EngineId, i: nat)
    requires Clean(u, e) && i < |u.db.journal| && u.db.journal[i].status.Pending? && Ensuring(u.db.journal, i)
    requires u.db.journal[i].kind.Replace? && Converged(u, Mem(u, e), i)
    requires u.db.journal[i].oldContent != "" ==> AddsSettled(u, u.db.journal[i].oldContent)
    ensures var v := Closed(u, e, i, u.db.journal[i].oldContent);
            && Clean(v, e) && v.db.rows == u.db.rows && v.db.nextId == u.db.nextId && Keys(v) == Keys(u)
            && Closing(u.db.journal, v.db.journal, i)
  {
    var text := u.db.journal[i].oldContent;
    ClosingBoth(u.db.journal, i);
    if text == "" {
      FinishExact(u, e, i);
    } else {
      AddsClosed(u, e, i);
      ClosedClean(u, e, i);
      FinishExact(Do(u, Action.CloseAdds(e, text)), e, i);
    }
  }

  lemma ClosedClean(u: Sys, e: EngineId, i: nat)
    requires Clean(u, e) && i < |u.db.journal|
    requires var a := Action.CloseAdds(e, u.db.journal[i].oldContent); Enabled(u, a, AsCoded) && Settled(u, a)
    ensures Clean(Do(u, Action.CloseAdds(e, u.db.journal[i].oldContent)), e)
  {
    DoKeeps(u, Action.CloseAdds(e, u.db.journal[i].oldContent));
  }

  lemma ClosingBoth(j: seq<Transition>, i: nat)
    requires i < |j| && j[i].status.Pending? && j[i].kind.Replace? && Ensuring(j, i)
    ensures var text := j[i].oldContent;
            Closing(j, MarkCompleted(if text == "" then j else MemoryStore.CloseAdds(j, text), i), i)
  {
  }

  /** A converged replacement may close the ADDs of its old text, and stays converged. */
  lemma AddsClosed(u: Sys, e: EngineId, i: nat)
    requires Clean(u, e) && i < |u.db.journal| && u.db.journal[i].status.Pending? && u.db.journal[i].kind.Replace?
    requires Converged(u, Mem(u, e), i)
    ensures var a := Action.CloseAdds(e, u.db.journal[i].oldContent);
            var w := Do(u, a);
            && Enabled(u, a, AsCoded) && w == u.(db := u.db.(journal := MemoryStore.CloseAdds(u.db.journal, a.content)))
            && w.db.journal[i] == u.db.journal[i] && Converged(w, Mem(w, e), i)
  {
    var text := u.db.journal[i].oldContent;
    assert Replaced(u, Mem(u, e), text);
    CloseAddsCovers(u.db.journal, text);
  }

  /** The state in which a replacement has converged. */
  ghost function ReplacedBy(s: Sys, e: EngineId, row: Transition, vectors: set<string>): Sys {
    Saved(Removed(Ensured(s, e, row.newContent, vectors), e, row.oldId), e)
  }

  lemma ReplaceReached(s: Sys, e: EngineId, i: nat, vectors: set<string>)
    requires Clean(s, e) && i < |s.db.journal| && s.db.journal[i].status.Pending? && Ensuring(s.db.journal, i)
    requires s.db.journal[i].kind.Replace? && !Fails(s, e, i, vectors)
    ensures var row := s.db.journal[i];
            var u := ReplacedBy(s, e, row, vectors);
            && u.db.journal == s.db.journal && Clean(u, e) && Converged(u, Mem(u, e), i) && Mem(u, e) == Keys(u)
            && Moves(s.db, Keys(s), u.db, Keys(u), i)
            && Applied(s, e, i, vectors) == Closed(u, e, i, row.oldContent)
  {
    CleanKeys(s, e);
    ReplaceStages(s, e, i, vectors);
    ReplaceConverged(s, e, i, ReplacedBy(s, e, s.db.journal[i], vectors));
  }

  lemma WentReplace(s: Sys, e: EngineId, i: nat, vectors: set<string>)
    requires Clean(s, e) && i < |s.db.journal| && s.db.journal[i].status.Pending? && Ensuring(s.db.journal, i)
    requires s.db.journal[i].kind.Replace? && !Fails(s, e, i, vectors) && !Leftover(s, i)
    ensures Went(s, Applied(s, e, i, vectors), e, i)
  {
    ReplaceReached(s, e, i, vectors);
    var u := ReplacedBy(s, e, s.db.journal[i], vectors);
    if s.db.journal[i].oldContent != "" {
      ClosingSettled(s, u, i);
    }
    ReplaceFinishes(s, u, e, i);
  }

  lemma ReplaceFinishes(s: Sys, u: Sys, e: EngineId, i: nat)
    requires Clean(u, e) && i < |s.db.journal| && s.db.journal == u.db.journal && Moves(s.db, Keys(s), u.db, Keys(u), i)
    requires s.db.journal[i].status.Pending? && Ensuring(s.db.journal, i) && s.db.journal[i].kind.Replace?
    requires Converged(u, Mem(u, e), i) && (s.db.journal[i].oldContent != "" ==> AddsSettled(u, s.db.journal[i].oldContent))
    ensures Went(s, Closed(u, e, i, s.db.journal[i].oldContent), e, i)
  {
    var v := Closed(u, e, i, s.db.journal[i].oldContent);
    ClosedDone(u, e, i);
    MovesSame(s.db, Keys(s), u.db, v.db, Keys(u), i);
  }

  lemma MovesSame(db: Db, keys: set<Id>, db': Db, db'': Db, keys': set<Id>, i: nat)
    requires i < |db.journal| && Moves(db, keys, db', keys', i) && db''.rows == db'.rows && db''.nextId == db'.nextId
    ensures Moves(db, keys, db'', keys', i)
  {
    forall c
      ensures Live(db', keys', c) <==> Live(db'', keys', c)
    {
      assert forall id :: Holds(db', id, c) <==> Holds(db'', id, c);
    }
  }

  lemma WentOn(s: Sys, e: EngineId, i: nat, vectors: set<string>)
    requires Clean(s, e) && i < |s.db.journal| && s.db.journal[i].status.Pending?
    requires !Fails(s, e, i, vectors) && !Leftover(s, i)
    ensures Went(s, Applied(s, e, i, vectors), e, i)
  {
    if !Ensuring(s.db.journal, i) {
      WentAway(s, e, i, vectors);
    } else if s.db.journal[i].kind.Add? {
      WentAdd(s, e, i, vectors);
    } else {
      WentReplace(s, e, i, vectors);
    }
  }

  // ----- Along the pass -----------------------------------------------------------------------------

  ghost predicate ClosedBy(journal: seq<Transition>, n: nat, k: nat)
    requires n <= |journal| && k < |journal|
  {
    exists m :: 0 <= m < n && Closes(journal, m, k)
  }

  ghost predicate JournalAlong(j: seq<Transition>, j': seq<Transition>, n: nat)
    requires n <= |j|
  {
    && Later(j, j')
    && (forall k :: 0 <= k < n ==> j'[k].status.Completed?)
    && (forall k :: n <= k < |j| && j[k].status.Pending? ==> (j'[k].status.Completed? <==> ClosedBy(j, n, k)))
  }

  ghost predicate RowsAlong(db: Db, keys: set<Id>, db': Db, keys': set<Id>, n: nat, vectors: set<string>)
    requires n <= |db.journal|
  {
    && db.nextId <= db'.nextId
    && (forall id :: id in db.rows && id in keys && !RemovedBy(db.journal, n, id) ==> Holds(db', id, db.rows[id]) && id in keys')
    && (forall id :: id in db'.rows ==> Holds(db, id, db'.rows[id]) || (id in keys' && id.n >= db.nextId && db'.rows[id] in vectors))
    && (forall id :: id in keys' ==> id in keys || id.n >= db.nextId)
  }

  /** The first `n` rows have converged: the journal, the rows and the vectors, and what is
      still left over. */
  ghost predicate Along(s: Sys, t: Sys, e: EngineId, n: nat, vectors: set<string>) {
    && n <= |s.db.journal| && Clean(t, e) && JournalAlong(s.db.journal, t.db.journal, n)
    && RowsAlong(s.db, Keys(s), t.db, Keys(t), n, vectors)
    && (forall k, id :: n <= k < |s.db.journal| ==> (LeftoverId(t, k, id) <==> LeftoverId(s, k, id)))
  }

  lemma JournalStep(j: seq<Transition>, t: seq<Transition>, t': seq<Transition>, n: nat)
    requires n < |j| && JournalAlong(j, t, n) && t[n].status.Pending? && Closing(t, t', n)
    ensures JournalAlong(j, t', n + 1)
  {
    LaterSame(j, t);
    forall k | n + 1 <= k < |j| && j[k].status.Pending?
      ensures t'[k].status.Completed? <==> ClosedBy(j, n + 1, k)
    {
      assert Closes(t, n, k) <==> Closes(j, n, k);
      assert ClosedBy(j, n + 1, k) <==> ClosedBy(j, n, k) || Closes(j, n, k);
      if t[k].status.Completed? {
        assert t'[k].status.Completed?;
      }
    }
  }

  lemma JournalSkip(j: seq<Transition>, t: seq<Transition>, n: nat)
    requires n < |j| && JournalAlong(j, t, n) && t[n].status.Completed?
    ensures JournalAlong(j, t, n + 1) && (j[n].status.Pending? ==> j[n].kind.Add?)
  {
    forall k | n + 1 <= k < |j|
      ensures ClosedBy(j, n + 1, k) <==> ClosedBy(j, n, k)
    {
      assert !Closes(j, n, k);
    }
  }

  lemma RowsStep(db: Db, keys: set<Id>, t: Db, tk: set<Id>, t': Db, tk': set<Id>, n: nat, vectors: set<string>)
    requires n < |db.journal| && |t.journal| == |db.journal| && RowsAlong(db, keys, t, tk, n, vectors) && Moves(t, tk, t', tk', n)
    requires t.journal[n].(status := Pending) == db.journal[n].(status := Pending) && db.journal[n].status.Pending?
    requires !t.journal[n].kind.Add? ==> t.journal[n].oldId !in t'.rows
    requires Ensuring(t.journal, n) && !Live(t, tk, t.journal[n].newContent) ==> t.journal[n].newContent in vectors
    ensures RowsAlong(db, keys, t', tk', n + 1, vectors)
  {
    var row := db.journal[n];
    assert t.journal[n].kind == row.kind && t.journal[n].oldId == row.oldId && t.journal[n].newContent == row.newContent;
    forall id | id in db.rows && id in keys && !RemovedBy(db.journal, n + 1, id)
      ensures Holds(t', id, db.rows[id]) && id in tk'
    {
      assert !RemovedBy(db.journal, n, id);
      assert !row.kind.Add? ==> id != row.oldId;
    }
  }

  lemma RowsSkip(db: Db, keys: set<Id>, t: Db, tk: set<Id>, n: nat, vectors: set<string>)
    requires n < |db.journal| && RowsAlong(db, keys, t, tk, n, vectors)
    requires db.journal[n].status.Pending? ==> db.journal[n].kind.Add?
    ensures RowsAlong(db, keys, t, tk, n + 1, vectors)
  {
    forall id | !RemovedBy(db.journal, n + 1, id)
      ensures !RemovedBy(db.journal, n, id)
    {
    }
  }

  lemma LeftoverBack(t: Sys, t': Sys, e: EngineId, i: nat, k: nat, id: Id)
    requires Inv(t) && i < k < |t.db.journal| && t.db.journal[i].status.Pending? && Went(t, t', e, i)
    requires k < |t'.db.journal| && LeftoverId(t', k, id)
    ensures LeftoverId(t, k, id)
  {
    var j, j', c := t.db.journal, t'.db.journal, t.db.journal[k].oldContent;
    LaterSame(j, j');
    assert JournalRowOk(t'.db, j'[i]);
    assert Holds(t.db, id, c);
    LiveHolder(t'.db, Keys(t'), id, c);
    ClosingKeeps(j, j', i);
  }

  /** Only row `i` itself stops naming an id, or promising a text as a replacement. */
  lemma ClosingKeeps(j: seq<Transition>, j': seq<Transition>, i: nat)
    requires i < |j| && j[i].status.Pending? && Closing(j, j', i)
    ensures forall id :: PendingOld(j, id) ==> PendingOld(j', id) || NamesOld(j[i], id)
    ensures forall c :: ReplaceAuthority(j, c) ==> ReplaceAuthority(j', c) || (Ensuring(j, i) && j[i].newContent == c)
  {
    LaterSame(j, j');
    forall id | PendingOld(j, id)
      ensures PendingOld(j', id) || NamesOld(j[i], id)
    {
      var m :| 0 <= m < |j| && j[m].status.Pending? && NamesOld(j[m], id);
      assert m != i ==> j'[m].status.Pending? && NamesOld(j'[m], id);
    }
    forall c | ReplaceAuthority(j, c)
      ensures ReplaceAuthority(j', c) || (Ensuring(j, i) && j[i].newContent == c)
    {
      var m :| AddAuthority(j, c, m) && j[m].kind.Replace?;
      assert m != i ==> AddAuthority(j', c, m) && j'[m].kind.Replace?;
    }
  }

  lemma LiveHolder(db: Db, keys: set<Id>, id: Id, content: string)
    requires RowsOk(db) && Holds(db, id, content)
    ensures Live(db, keys, content) <==> id in keys
  {
  }

  lemma ItselfExactly(s: Sys, t: Sys, e: EngineId, n: nat, vectors: set<string>)
    requires Clean(s, e) && Along(s, t, e, n, vectors) && n < |s.db.journal| && s.db.journal[n].kind.Replace?
    ensures var c, id := s.db.journal[n].newContent, s.db.journal[n].oldId;
            Live(t.db, Keys(t), c) && Holds(t.db, id, c) <==>
            Live(s.db, Keys(s), c) && Holds(s.db, id, c) && !RemovedBy(s.db.journal, n, id)
  {
    var j, c, id := s.db.journal, s.db.journal[n].newContent, s.db.journal[n].oldId;
    LaterSame(j, t.db.journal);
    KeysBelow(s, n);
    if Holds(s.db, id, c) {
      LiveHolder(s.db, Keys(s), id, c);
    }
    if Holds(t.db, id, c) {
      LiveHolder(t.db, Keys(t), id, c);
    }
    forall m | 0 <= m < n && j[m].status.Pending? && !j[m].kind.Add?
      ensures j[m].oldId !in t.db.rows
    {
      assert JournalRowOk(t.db, t.db.journal[m]);
    }
  }

  lemma WasLive(s: Sys, t: Sys, e: EngineId, n: nat, vectors: set<string>, id: Id)
    requires Clean(s, e) && Along(s, t, e, n, vectors) && n < |s.db.journal| && s.db.journal[n].status.Pending?
    requires Holds(s.db, id, s.db.journal[n].newContent) && id in Keys(s) && s.db.journal[n].newContent !in vectors
    ensures var c := s.db.journal[n].newContent;
            && (Live(t.db, Keys(t), c) <==> !RemovedBy(s.db.journal, n, id))
            && (GoesFirst(s, n) <==> RemovedBy(s.db.journal, n + 1, id))
            && (Live(t.db, Keys(t), c) ==> (Holds(t.db, s.db.journal[n].oldId, c) <==> s.db.journal[n].oldId == id))
  {
    var j, c := s.db.journal, s.db.journal[n].newContent;
    LaterSame(j, t.db.journal);
    if m :| 0 <= m < n && j[m].status.Pending? && !j[m].kind.Add? && j[m].oldId == id {
      assert JournalRowOk(t.db, t.db.journal[m]);
      assert id !in t.db.rows;
      assert forall x :: !Holds(t.db, x, c);
    } else {
      assert Holds(t.db, id, c) && id in Keys(t);
    }
    forall m | 0 <= m <= n && j[m].status.Pending? && !j[m].kind.Add?
      ensures Holds(s.db, j[m].oldId, c) <==> j[m].oldId == id
    {
    }
  }

  lemma NotLive(s: Sys, t: Sys, e: EngineId, n: nat, vectors: set<string>)
    requires Clean(s, e) && Along(s, t, e, n, vectors) && n < |s.db.journal|
    requires !Live(s.db, Keys(s), s.db.journal[n].newContent) && s.db.journal[n].newContent !in vectors
    ensures !Live(t.db, Keys(t), s.db.journal[n].newContent)
  {
    KeysBelow(s, n);
  }

  lemma AlongStep(s: Sys, t: Sys, e: EngineId, n: nat, vectors: set<string>)
    requires Clean(s, e) && Along(s, t, e, n, vectors)
    requires n < |s.db.journal| && !Stuck(s, e, n, vectors) && !Leftover(s, n)
    ensures Along(s, Applied(t, e, n, vectors), e, n + 1, vectors)
  {
    if t.db.journal[n].status.Completed? {
      JournalSkip(s.db.journal, t.db.journal, n);
      RowsSkip(s.db, Keys(s), t.db, Keys(t), n, vectors);
    } else {
      FailsExactly(s, t, e, n, vectors);
      assert !Leftover(t, n) by {
        assert forall id :: LeftoverId(t, n, id) <==> LeftoverId(s, n, id);
      }
      WentOn(t, e, n, vectors);
      AlongWent(s, t, Applied(t, e, n, vectors), e, n, vectors);
    }
  }

  lemma AlongWent(s: Sys, t: Sys, t': Sys, e: EngineId, n: nat, vectors: set<string>)
    requires Along(s, t, e, n, vectors) && n < |s.db.journal| && t.db.journal[n].status.Pending?
    requires !Fails(t, e, n, vectors) && Went(t, t', e, n)
    ensures Along(s, t', e, n + 1, vectors)
  {
    CleanKeys(t, e);
    LaterSame(s.db.journal, t.db.journal);
    LaterSame(t.db.journal, t'.db.journal);
    JournalStep(s.db.journal, t.db.journal, t'.db.journal, n);
    assert JournalRowOk(t'.db, t'.db.journal[n]);
    RowsStep(s.db, Keys(s), t.db, Keys(t), t'.db, Keys(t'), n, vectors);
    forall k, id | n + 1 <= k < |s.db.journal|
      ensures LeftoverId(t', k, id) <==> LeftoverId(s, k, id)
    {
      LeftoverSame(t, t', e, n, k, id);
    }
  }

  lemma AlongStart(s: Sys, e: EngineId, vectors: set<string>)
    requires Clean(s, e)
    ensures Along(s, s, e, 0, vectors)
  {
  }

  // ----- A row that does not converge -------------------------------------------------------------------

  /** The steps a pass is made of. */
  predicate PassStep(a: Action, e: EngineId) {
    a.e == e && (a.Finish? || a.CloseAdds? || a.Reindex? || a.Insert? || a.AddVector? || a.DeleteRow? || a.RemoveVector? || a.Publish?)
  }

  /** Row `k` is pending, and no later row removes its text. */
  ghost predicate Waiting(s: Sys, k: nat) {
    k < |s.db.journal| && s.db.journal[k].status.Pending? && Ensuring(s.db.journal, k)
  }

  /** A row without its vector that nothing in the journal speaks for any more. */
  ghost predicate Lost(s: Sys, e: EngineId, id: Id, content: string) {
    && Holds(s.db, id, content) && id !in Mem(s, e) && id !in Keys(s) && id.n < s.db.nextId
    && !PendingOld(s.db.journal, id)
    && forall m :: 0 <= m < |s.db.journal| && s.db.journal[m].status.Pending? && Ensuring(s.db.journal, m) ==>
                     s.db.journal[m].newContent != content
  }

  /** What one row cannot change: `k` waits if it waited, and a lost row stays lost. */
  ghost predicate Hopeless(s: Sys, t: Sys, e: EngineId, k: nat, id: Id, content: string) {
    Later(s.db.journal, t.db.journal) && (Waiting(s, k) ==> Waiting(t, k)) && (Lost(s, e, id, content) ==> Lost(t, e, id, content))
  }

  lemma HopelessThen(s: Sys, t: Sys, u: Sys, e: EngineId, k: nat, id: Id, content: string)
    requires Hopeless(s, t, e, k, id, content) && Hopeless(t, u, e, k, id, content)
    ensures Hopeless(s, u, e, k, id, content)
  {
    LaterSame(s.db.journal, t.db.journal);
    LaterSame(t.db.journal, u.db.journal);
  }

  lemma DoHopeless(s: Sys, a: Action, e: EngineId, k: nat, id: Id, content: string)
    requires PassStep(a, e)
    requires Waiting(s, k) ==> a != Finish(e, k) && (a.CloseAdds? ==> a.content != s.db.journal[k].newContent || !s.db.journal[k].kind.Add?)
    requires Lost(s, e, id, content) ==> a != Reindex(e, id) && a != AddVector(e, id)
    ensures Hopeless(s, Do(s, a), e, k, id, content)
  {
    var t := Do(s, a);
    assert Later(s.db.journal, t.db.journal);
    LaterSame(s.db.journal, t.db.journal);
  }

  lemma DroppedHopeless(s: Sys, e: EngineId, c: string, k: nat, id: Id, content: string)
    requires Lost(s, e, id, content) ==> c != content
    ensures Hopeless(s, Dropped(s, e, c), e, k, id, content)
  {
    if x :| Holds(s.db, x, c) {
      var y := (var y :| Holds(s.db, y, c); y);
      DoHopeless(s, Reindex(e, y), e, k, id, content);
    } else {
      assert Later(s.db.journal, s.db.journal);
    }
  }

  lemma InsertedHopeless(t: Sys, e: EngineId, c: string, k: nat, id: Id, content: string)
    ensures Hopeless(t, Do(Do(t, Insert(e, c)), AddVector(e, Id(t.db.nextId))), e, k, id, content)
  {
    var u := Do(t, Insert(e, c));
    DoHopeless(t, Insert(e, c), e, k, id, content);
    DoHopeless(u, AddVector(e, Id(t.db.nextId)), e, k, id, content);
    HopelessThen(t, u, Do(u, AddVector(e, Id(t.db.nextId))), e, k, id, content);
  }

  lemma EnsuredHopeless(s: Sys, e: EngineId, i: nat, vectors: set<string>, k: nat, id: Id, content: string)
    requires Waiting(s, i)
    ensures Hopeless(s, Ensured(s, e, s.db.journal[i].newContent, vectors), e, k, id, content)
  {
    var c := s.db.journal[i].newContent;
    DroppedHopeless(s, e, c, k, id, content);
    var t := Dropped(s, e, c);
    InsertedHopeless(t, e, c, k, id, content);
    HopelessThen(s, t, Do(Do(t, Insert(e, c)), AddVector(e, Id(t.db.nextId))), e, k, id, content);
  }

  lemma RemovedHopeless(s: Sys, e: EngineId, text: Id, k: nat, id: Id, content: string)
    ensures Hopeless(s, Saved(Removed(s, e, text), e), e, k, id, content)
  {
    var t := Do(s, Action.DeleteRow(e, text));
    var u := Do(t, RemoveVector(e, text));
    DoHopeless(s, Action.DeleteRow(e, text), e, k, id, content);
    DoHopeless(t, RemoveVector(e, text), e, k, id, content);
    DoHopeless(u, Publish(e), e, k, id, content);
    HopelessThen(s, t, u, e, k, id, content);
    HopelessThen(s, u, Do(u, Publish(e)), e, k, id, content);
  }

  lemma ClosedHopeless(s: Sys, e: EngineId, i: nat, k: nat, id: Id, content: string)
    requires i < |s.db.journal| && !s.db.journal[i].kind.Add? && k < i
    ensures Hopeless(s, Closed(s, e, i, s.db.journal[i].oldContent), e, k, id, content)
  {
    var text := s.db.journal[i].oldContent;
    if text == "" {
      DoHopeless(s, Finish(e, i), e, k, id, content);
    } else {
      var t := Do(s, Action.CloseAdds(e, text));
      assert Removes(s.db.journal[i], text);
      DoHopeless(s, Action.CloseAdds(e, text), e, k, id, content);
      DoHopeless(t, Finish(e, i), e, k, id, content);
      HopelessThen(s, t, Do(t, Finish(e, i)), e, k, id, content);
    }
  }

  lemma EnsuredJournal(s: Sys, e: EngineId, content: string, vectors: set<string>)
    ensures Ensured(s, e, content, vectors).db.journal == s.db.journal
  {
    var t := Dropped(s, e, content);
    assert t.db.journal == s.db.journal;
    assert Do(t, Insert(e, content)).db.journal == t.db.journal;
  }

  /** No later row helps. */
  lemma AppliedHopeless(s: Sys, e: EngineId, i: nat, vectors: set<string>, k: nat, id: Id, content: string)
    requires k < i < |s.db.journal|
    ensures Hopeless(s, Applied(s, e, i, vectors), e, k, id, content)
  {
    var row := s.db.journal[i];
    if row.status.Pending? {
      if !Ensuring(s.db.journal, i) {
        var u := if row.kind.Add? then s else Saved(Removed(s, e, row.oldId), e);
        RemovedHopeless(s, e, row.oldId, k, id, content);
        DoHopeless(u, Finish(e, i), e, k, id, content);
        HopelessThen(s, u, Do(u, Finish(e, i)), e, k, id, content);
      } else {
        EnsuredHopeless(s, e, i, vectors, k, id, content);
        EnsuredJournal(s, e, row.newContent, vectors);
        ConcludedOn(s, Ensured(s, e, row.newContent, vectors), e, i, k, id, content);
      }
    }
  }

  lemma ConcludedOn(s: Sys, t: Sys, e: EngineId, i: nat, k: nat, id: Id, content: string)
    requires k < i && Waiting(s, i) && Hopeless(s, t, e, k, id, content) && (i < |t.db.journal| ==> t.db.journal[i] == s.db.journal[i])
    ensures Hopeless(s, Concluded(t, e, i, s.db.journal[i]), e, k, id, content)
  {
    ConcludedHopeless(t, e, i, k, id, content);
    HopelessThen(s, t, Concluded(t, e, i, s.db.journal[i]), e, k, id, content);
  }

  lemma ConcludedHopeless(t: Sys, e: EngineId, i: nat, k: nat, id: Id, content: string)
    requires k < i < |t.db.journal|
    ensures Hopeless(t, Concluded(t, e, i, t.db.journal[i]), e, k, id, content)
  {
    if !LiveText(t, e, t.db.journal[i].newContent) {
      HopelessSelf(t, e, k, id, content);
    } else if t.db.journal[i].kind.Add? {
      AddOnHopeless(t, e, i, k, id, content);
    } else {
      ReplaceOnHopeless(t, e, i, k, id, content);
    }
  }

  lemma AddOnHopeless(t: Sys, e: EngineId, i: nat, k: nat, id: Id, content: string)
    requires k < i
    ensures Hopeless(t, Do(Saved(t, e), Finish(e, i)), e, k, id, content)
  {
    var u := Saved(t, e);
    DoHopeless(t, Publish(e), e, k, id, content);
    DoHopeless(u, Finish(e, i), e, k, id, content);
    HopelessThen(t, u, Do(u, Finish(e, i)), e, k, id, content);
  }

  lemma ReplaceOnHopeless(t: Sys, e: EngineId, i: nat, k: nat, id: Id, content: string)
    requires k < i < |t.db.journal| && !t.db.journal[i].kind.Add?
    ensures var u := Saved(Removed(t, e, t.db.journal[i].oldId), e);
            && Hopeless(t, u, e, k, id, content)
            && Hopeless(t, Closed(u, e, i, t.db.journal[i].oldContent), e, k, id, content)
  {
    var row := t.db.journal[i];
    var u := Saved(Removed(t, e, row.oldId), e);
    RemovedHopeless(t, e, row.oldId, k, id, content);
    LaterSame(t.db.journal, u.db.journal);
    ClosedHopeless(u, e, i, k, id, content);
    HopelessThen(t, u, Closed(u, e, i, row.oldContent), e, k, id, content);
  }

  ghost predicate Doomed(s: Sys, e: EngineId, k: nat, id: Id, content: string) {
    Waiting(s, k) || Lost(s, e, id, content)
  }

  lemma AppliedDoomed(s: Sys, e: EngineId, i: nat, vectors: set<string>, k: nat, id: Id, content: string)
    requires k < i < |s.db.journal| && Doomed(s, e, k, id, content)
    ensures Doomed(Applied(s, e, i, vectors), e, k, id, content)
  {
    AppliedHopeless(s, e, i, vectors, k, id, content);
  }

  lemma DoomedNever(s: Sys, e: EngineId, k: nat, id: Id, content: string)
    requires Doomed(s, e, k, id, content)
    ensures !Recovered(s)
  {
    if Lost(s, e, id, content) {
      assert id in s.db.rows.Keys && id !in Keys(s);
    }
  }

  /** Once a row waits or is lost, the pass does not recover the workspace. */
  lemma HopelessEnds(s: Sys, e: EngineId, i: nat, n: nat, vectors: set<string>, k: nat, id: Id, content: string)
    requires k < i && Doomed(s, e, k, id, content)
    ensures !Recovered(PassFrom(s, e, i, n, vectors))
  {
    var turn, p := Turn(e, vectors), (t: Sys) => Doomed(t, e, k, id, content);
    forall t: Sys, m: nat | i <= m < n && p(t)
      ensures p(turn(t, m))
    {
      if m < |t.db.journal| {
        AppliedDoomed(t, e, m, vectors, k, id, content);
      }
    }
    LoopKeeps(turn, p, s, i, n);
    DoomedNever(Loop(turn, s, i, n), e, k, id, content);
  }

  lemma HopelessSelf(s: Sys, e: EngineId, k: nat, id: Id, content: string)
    ensures Hopeless(s, s, e, k, id, content)
  {
  }

  /** A row that fails at its turn stays pending. */
  lemma FailsWaits(t: Sys, e: EngineId, k: nat, vectors: set<string>)
    requires Clean(t, e) && k < |t.db.journal| && Fails(t, e, k, vectors)
    ensures Waiting(Applied(t, e, k, vectors), k)
  {
    var row := t.db.journal[k];
    if LiveText(t, e, row.newContent) {
      CleanKeys(t, e);
      RemovedExact(t, e, k);
      var u := Saved(Removed(t, e, row.oldId), e);
      assert forall id :: Holds(t.db, id, row.newContent) ==> id == row.oldId;
      assert !NewLive(u, Mem(u, e), row);
    }
  }

  /** A leftover row is lost when its turn comes. */
  lemma LeftoverLost(t: Sys, e: EngineId, k: nat, vectors: set<string>, id: Id)
    requires Clean(t, e) && k < |t.db.journal| && !Fails(t, e, k, vectors) && LeftoverId(t, k, id)
    ensures Lost(Applied(t, e, k, vectors), e, id, t.db.journal[k].oldContent)
  {
    var row, j := t.db.journal[k], t.db.journal;
    ReplaceReached(t, e, k, vectors);
    var u := ReplacedBy(t, e, row, vectors);
    KeysBelow(t, k);
    assert row.newContent != row.oldContent by {
      assert row.newContent == row.oldContent ==> AddAuthority(j, row.oldContent, k);
    }
    assert Holds(u.db, id, row.oldContent);
    ClosedLoses(u, e, k, id);
  }

  lemma ClosedLoses(u: Sys, e: EngineId, k: nat, id: Id)
    requires Clean(u, e) && k < |u.db.journal| && u.db.journal[k].status.Pending? && u.db.journal[k].kind.Replace?
    requires u.db.journal[k].oldContent != "" && Converged(u, Mem(u, e), k) && Mem(u, e) == Keys(u)
    requires Holds(u.db, id, u.db.journal[k].oldContent) && id !in Keys(u)
    requires !PendingOld(u.db.journal, id) && !ReplaceAuthority(u.db.journal, u.db.journal[k].oldContent)
    ensures Lost(Closed(u, e, k, u.db.journal[k].oldContent), e, id, u.db.journal[k].oldContent)
  {
    var c, j := u.db.journal[k].oldContent, u.db.journal;
    AddsClosed(u, e, k);
    var v := Do(u, Action.CloseAdds(e, c));
    var w := Do(v, Finish(e, k));
    assert Later(j, w.db.journal);
    LaterSame(j, w.db.journal);
    forall m | 0 <= m < |j| && w.db.journal[m].status.Pending? && Ensuring(w.db.journal, m)
      ensures w.db.journal[m].newContent != c
    {
      assert v.db.journal[m].status.Pending?;
      assert j[m].newContent == c ==> AddAuthority(j, c, m);
    }
  }

  /** A row fails at its turn exactly when it was stuck from the start. */
  lemma FailsExactly(s: Sys, t: Sys, e: EngineId, n: nat, vectors: set<string>)
    requires Clean(s, e) && Along(s, t, e, n, vectors)
    requires n < |s.db.journal| && t.db.journal[n].status.Pending?
    ensures Fails(t, e, n, vectors) <==> Stuck(s, e, n, vectors)
  {
    var j, c := s.db.journal, s.db.journal[n].newContent;
    CleanKeys(s, e);
    CleanKeys(t, e);
    LaterSame(j, t.db.journal);
    assert !ClosedBefore(j, n) by {
      assert !ClosedBy(j, n, n);
    }
    if c in vectors {
      if j[n].kind.Replace? {
        ItselfExactly(s, t, e, n, vectors);
      }
    } else if id :| Holds(s.db, id, c) && id in Keys(s) {
      WasLive(s, t, e, n, vectors, id);
    } else {
      NotLive(s, t, e, n, vectors);
    }
  }

  /** What is left over for a later row is neither made nor mended by row `i`. */
  lemma LeftoverSame(t: Sys, t': Sys, e: EngineId, i: nat, k: nat, id: Id)
    requires Inv(t) && i < k < |t.db.journal| && t.db.journal[i].status.Pending? && Went(t, t', e, i)
    ensures LeftoverId(t', k, id) <==> LeftoverId(t, k, id)
  {
    var j, row := t.db.journal, t.db.journal[i];
    LaterSame(j, t'.db.journal);
    KeysBelow(t, i);
    if LeftoverId(t, k, id) {
      assert Removes(j[k], j[k].oldContent);
      assert HasLater(j, j[k].oldContent, i);
      assert !Closes(j, i, k);
    }
    if LeftoverId(t', k, id) {
      LeftoverBack(t, t', e, i, k, id);
    }
  }
}
