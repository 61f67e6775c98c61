/** The write protocol as a step system (usearch_engine.py, memory_store.py,
    application/memory/manager.py, replacement_recovery.py). */
module CrashRecovery {
  import opened Common
  import opened IndexIntegrity
  import opened MemoryStore

  // SQLite rows are durable at once, vectors live in an engine's memory until an atomic
  // publish, and the intent journal authorises the differences a crash can leave behind. A
  // run is any sequence of actions by any number of engines; an action whose guard fails is
  // refused and changes nothing.

  /** The live HNSW file. `version` stands for (mtime_ns, size): fresh per publish. */
  datatype IndexFile = IndexFile(keys: set<Id>, version: nat)

  datatype Engine = Unloaded | Loaded(mem: set<Id>, dirty: bool, seen: Option<nat>)

  datatype EngineId = EngineId(n: nat)

  /** `batch` holds the ids inserted under the current lease and not yet published. */
  datatype Sys = Sys(
    db: Db, disk: Option<IndexFile>, published: nat,
    engines: map<EngineId, Engine>, lease: Option<EngineId>, batch: set<Id>)

  /** Which guards the engines keep. `AsCoded`: what the code checks. `Strict`: besides, a
      lease is never given back with unpublished vectors, and no intent is closed by text
      before rows and vectors have settled. */
  datatype Rules = Strict | AsCoded

  datatype Action =
    | Open(e: EngineId) | Refresh(e: EngineId) | Crash(e: EngineId)
    | Acquire(e: EngineId) | Release(e: EngineId)
    | BeginAdd(e: EngineId, content: string)
    | BeginDelete(e: EngineId, id: Id)
    | BeginReplace(e: EngineId, id: Id, content: string)
    | Insert(e: EngineId, content: string)
    | AddVector(e: EngineId, id: Id) | RemoveVector(e: EngineId, id: Id)
    | DeleteRow(e: EngineId, id: Id) | RollbackRow(e: EngineId, id: Id) | Reindex(e: EngineId, id: Id)
    | Publish(e: EngineId) | PublishTorn(e: EngineId)
    | Finish(e: EngineId, k: nat)
    | CloseAdds(e: EngineId, content: string)
    | CloseDeletes(e: EngineId, content: string)

  // ----- What an engine sees ---------------------------------------------------

  function Keys(s: Sys): set<Id> {
    if s.disk.Some? then s.disk.value.keys else {}
  }

  /** `_index_file_identity`. */
  function Identity(s: Sys): Option<nat> {
    if s.disk.Some? then Some(s.disk.value.version) else None
  }

  function EngineOf(s: Sys, e: EngineId): Engine {
    if e in s.engines then s.engines[e] else Unloaded
  }

  function SetEngine(s: Sys, e: EngineId, engine: Engine): Sys {
    s.(engines := s.engines[e := engine])
  }

  predicate Current(s: Sys, engine: Engine) {
    engine.Loaded? && engine.seen == Identity(s)
  }

  /** Inside an operation: the lease is held, the index was opened, and unless it is dirty
      it was refreshed. */
  predicate Working(s: Sys, e: EngineId) {
    s.lease == Some(e) && EngineOf(s, e).Loaded? && (EngineOf(s, e).dirty || Current(s, EngineOf(s, e)))
  }

  /** A shared lease can be taken: nobody else holds the exclusive one. */
  predicate CanRead(s: Sys, e: EngineId) {
    s.lease.None? || s.lease == Some(e)
  }

  // ----- Opening the index -------------------------------------------------------

  /** The drift check on the on-disk pair. */
  ghost predicate DriftAccepts(s: Sys) {
    Accounted(s.db.workspace, s.db.rows, Keys(s), s.db.journal)
  }

  /** `_verify_candidate` on the live file: the empty/populated refusals come first
      and never look at the journal; an empty file over no rows is accepted. */
  ghost predicate VerifyAccepts(s: Sys) {
    CandidateAccepted(s.db, Keys(s))
  }

  ghost predicate CandidateAccepted(db: Db, keys: set<Id>) {
    if keys == {} then db.rows == map[]
    else db.rows != map[] && Accounted(db.workspace, db.rows, keys, db.journal)
  }

  ghost predicate BootstrapAllowed(db: Db) {
    FirstAddsOnly(Snapshot(db.workspace, db.rows, PendingRows(db.journal), 0, 0))
  }

  function PendingRows(journal: seq<Transition>): seq<Transition> {
    if journal == [] then []
    else
      var rest := PendingRows(journal[..|journal| - 1]);
      if journal[|journal| - 1].status.Pending? then rest + [journal[|journal| - 1]] else rest
  }

  /** `_open_index`: verify a live file; without one, start empty unless rows exist
      that are not all first ADDs. */
  ghost predicate OpenAccepts(s: Sys) {
    if s.disk.Some? then VerifyAccepts(s)
    else s.db.rows == map[] || BootstrapAllowed(s.db)
  }

  // ----- Guards and effects --------------------------------------------------------

  ghost predicate PendingOld(journal: seq<Transition>, id: Id) {
    exists k :: 0 <= k < |journal| && journal[k].status.Pending? && NamesOld(journal[k], id)
  }

  ghost predicate PendingNew(journal: seq<Transition>, content: string) {
    exists k :: 0 <= k < |journal| && journal[k].status.Pending? && !journal[k].kind.Delete? &&
                journal[k].newContent == content
  }

  /** `_old_id_gone`: read from SQLite by content and from the in-memory index. */
  ghost predicate OldGone(s: Sys, mem: set<Id>, row: Transition) {
    !Holds(s.db, row.oldId, row.oldContent) && row.oldId !in mem
  }

  ghost predicate NewLive(s: Sys, mem: set<Id>, row: Transition) {
    exists id :: Holds(s.db, id, row.newContent) && id in mem
  }

  /** `_add_converged`, `_delete_converged`, `replacement_converged`, or superseded. */
  ghost predicate Converged(s: Sys, mem: set<Id>, k: nat)
    requires k < |s.db.journal|
  {
    var row := s.db.journal[k];
    && (!row.kind.Delete? ==> HasLater(s.db.journal, row.newContent, k) || NewLive(s, mem, row))
    && (!row.kind.Add? ==> OldGone(s, mem, row))
  }

  /** An old text whose recorded id is gone: the replacement leaves its ADDs over. */
  ghost predicate Replaced(s: Sys, mem: set<Id>, content: string) {
    exists k :: 0 <= k < |s.db.journal| && s.db.journal[k].kind.Replace? && s.db.journal[k].oldContent == content &&
                OldGone(s, mem, s.db.journal[k])
  }

  /** A REPLACE still promises this text. */
  ghost predicate ReplaceAuthority(journal: seq<Transition>, content: string) {
    exists k :: AddAuthority(journal, content, k) && journal[k].kind.Replace?
  }

  /** Every row that holds the text has its vector on disk or another intent. */
  ghost predicate AddsSettled(s: Sys, content: string) {
    forall id :: id in s.db.rows && s.db.rows[id] == content ==>
      id in Keys(s) || PendingOld(s.db.journal, id) || ReplaceAuthority(s.db.journal, content)
  }

  /** Every id whose pending DELETE names the text is gone from SQLite and from disk. */
  ghost predicate DeletesSettled(s: Sys, content: string) {
    forall k :: 0 <= k < |s.db.journal| && IsPendingDelete(s.db.journal[k], content) ==>
      s.db.journal[k].oldId !in s.db.rows && s.db.journal[k].oldId !in Keys(s)
  }

  /** What the code looks at before `_complete_matching_delete_intents`: the text has no row,
      or, after a commit, an id that some pending removal of the text names is gone. */
  ghost predicate OrphanDelete(s: Sys, engine: Engine, content: string)
    requires engine.Loaded?
  {
    || !HasContent(s.db, content)
    || (!engine.dirty &&
        exists k :: 0 <= k < |s.db.journal| && s.db.journal[k].status.Pending? && !s.db.journal[k].kind.Add? &&
                    s.db.journal[k].oldContent == content &&
                    s.db.journal[k].oldId !in s.db.rows && s.db.journal[k].oldId !in engine.mem)
  }

  /** A later removal of its text has overtaken this ADD; it is closed without a commit. */
  ghost predicate OvertakenAdd(journal: seq<Transition>, k: nat)
    requires k < |journal|
  {
    journal[k].kind.Add? && HasLater(journal, journal[k].newContent, k)
  }

  /** `commit`: there is something to publish and nobody has published since. */
  predicate MayPublish(s: Sys, e: EngineId) {
    var engine := EngineOf(s, e);
    s.lease == Some(e) && engine.Loaded? && engine.dirty && (s.disk.None? || Current(s, engine))
  }

  ghost predicate Enabled(s: Sys, a: Action, rules: Rules) {
    var engine := EngineOf(s, a.e);
    match a
    case Open(e) => engine.Unloaded? && CanRead(s, e) && OpenAccepts(s)
    case Refresh(e) =>
      engine.Loaded? && !engine.dirty && s.disk.Some? && !Current(s, engine) && CanRead(s, e) && VerifyAccepts(s)
    case Crash(e) => true
    case Acquire(e) => s.lease.None?
    case Release(e) => s.lease == Some(e) && (rules.Strict? && engine.Loaded? ==> !engine.dirty)
    case BeginAdd(e, content) => s.lease == Some(e)
    case BeginDelete(e, id) => s.lease == Some(e) && id in s.db.rows
    case BeginReplace(e, id, content) =>
      s.lease == Some(e) && id in s.db.rows && BeginOld(s.db, Replace, id, s.db.rows[id], content).Some?
    case Insert(e, content) =>
      Working(s, e) && !HasContent(s.db, content) && HasAddAuthority(s.db.journal, content)
    case AddVector(e, id) => Working(s, e) && id in s.db.rows && id !in engine.mem
    case RemoveVector(e, id) => Working(s, e) && id in engine.mem && (id !in s.db.rows || id in s.batch)
    case DeleteRow(e, id) => Working(s, e) && id in s.db.rows && PendingOld(s.db.journal, id)
    case RollbackRow(e, id) => Working(s, e) && id in s.db.rows && id in s.batch && id !in engine.mem
    case Reindex(e, id) =>
      Working(s, e) && id in s.db.rows && id !in engine.mem && PendingNew(s.db.journal, s.db.rows[id])
    case Publish(e) => MayPublish(s, e)
    case PublishTorn(e) => MayPublish(s, e)
    case Finish(e, k) =>
      Working(s, e) && k < |s.db.journal| && s.db.journal[k].status.Pending? && Converged(s, engine.mem, k) &&
      (engine.dirty ==> OvertakenAdd(s.db.journal, k))
    case CloseAdds(e, content) =>
      Working(s, e) && !engine.dirty && (HasContent(s.db, content) || Replaced(s, engine.mem, content)) &&
      (rules.Strict? ==> AddsSettled(s, content))
    case CloseDeletes(e, content) =>
      Working(s, e) && OrphanDelete(s, engine, content) &&
      (rules.Strict? ==> !engine.dirty && DeletesSettled(s, content))
  }

  ghost function Effect(s: Sys, a: Action, rules: Rules): Sys
    requires Enabled(s, a, rules)
  {
    var engine := EngineOf(s, a.e);
    match a
    case Open(e) => SetEngine(s, e, Loaded(Keys(s), false, Identity(s)))
    case Refresh(e) => SetEngine(s, e, Loaded(Keys(s), false, Identity(s)))
    case Crash(e) =>
      var down := SetEngine(s, e, Unloaded);
      if s.lease == Some(e) then down.(lease := None, batch := {}) else down
    case Acquire(e) => s.(lease := Some(e), batch := {})
    case Release(e) => s.(lease := None, batch := {})
    case BeginAdd(e, content) => s.(db := MemoryStore.BeginAdd(s.db, content))
    case BeginDelete(e, id) => s.(db := BeginOld(s.db, Delete, id, s.db.rows[id], "").value)
    case BeginReplace(e, id, content) => s.(db := BeginOld(s.db, Replace, id, s.db.rows[id], content).value)
    case Insert(e, content) => s.(db := InsertRow(s.db, content), batch := s.batch + {Id(s.db.nextId)})
    case AddVector(e, id) => SetEngine(s, e, engine.(mem := engine.mem + {id}, dirty := true))
    case RemoveVector(e, id) => SetEngine(s, e, engine.(mem := engine.mem - {id}, dirty := true))
    case DeleteRow(e, id) => s.(db := MemoryStore.DeleteRow(s.db, id))
    case RollbackRow(e, id) => s.(db := MemoryStore.DeleteRow(s.db, id))
    case Reindex(e, id) => s.(db := MemoryStore.DeleteRow(s.db, id))
    case Publish(e) =>
      var version := s.published + 1;
      SetEngine(s, e, Loaded(engine.mem, false, Some(version)))
        .(disk := Some(IndexFile(engine.mem, version)), published := version, batch := {})
    case PublishTorn(e) =>
      // The file was replaced, and a call after that raised.
      var version := s.published + 1;
      s.(disk := Some(IndexFile(engine.mem, version)), published := version, batch := {})
    case Finish(e, k) => s.(db := Complete(s.db, k))
    case CloseAdds(e, content) => s.(db := s.db.(journal := MemoryStore.CloseAdds(s.db.journal, content)))
    case CloseDeletes(e, content) => s.(db := s.db.(journal := MemoryStore.CloseDeletes(s.db.journal, content)))
  }

  ghost function Step(s: Sys, a: Action, rules: Rules): Sys {
    if Enabled(s, a, rules) then Effect(s, a, rules) else s
  }

  ghost function Run(s: Sys, actions: seq<Action>, rules: Rules): Sys {
    if actions == [] then s
    else Step(Run(s, actions[..|actions| - 1], rules), actions[|actions| - 1], rules)
  }

  function Init(workspace: string): Sys {
    Sys(EmptyDb(workspace), None, 0, map[], None, {})
  }

  // ----- Invariant -----------------------------------------------------------------

  ghost predicate DbInv(db: Db) {
    && RowsOk(db)
    && JournalOk(db.journal)
    && forall k :: 0 <= k < |db.journal| ==> JournalRowOk(db, db.journal[k])
  }

  ghost predicate JournalRowOk(db: Db, row: Transition) {
    && row.workspace == db.workspace
    && (!row.kind.Add? ==>
          && 1 <= row.oldId.n < db.nextId
          && (row.oldId in db.rows ==> db.rows[row.oldId] == row.oldContent)
          // No live id has a completed DELETE or REPLACE row.
          && (row.status.Completed? ==> row.oldId !in db.rows))
  }

  ghost predicate Covered(journal: seq<Transition>, content: string, id: Id) {
    HasAddAuthority(journal, content) || PendingOld(journal, id)
  }

  ghost predicate RowsCovered(db: Db, keys: set<Id>) {
    forall id :: id in db.rows && id !in keys ==> Covered(db.journal, db.rows[id], id)
  }

  /** Every vector has a row or a pending removal, and none belongs to a finished one. */
  ghost predicate KeysCovered(db: Db, keys: set<Id>) {
    && (forall id :: id in keys ==> id.n < db.nextId)
    && (forall id :: id in keys && id !in db.rows ==> PendingOld(db.journal, id))
    && (forall k :: 0 <= k < |db.journal| && !db.journal[k].kind.Add? && db.journal[k].status.Completed? ==>
                      db.journal[k].oldId !in keys)
  }

  ghost predicate EngineInv(s: Sys, e: EngineId) {
    var engine := EngineOf(s, e);
    engine.Loaded? ==>
      && (engine.seen.Some? ==> engine.seen.value <= s.published && s.disk.Some?)
      && (!engine.dirty && Current(s, engine) ==> engine.mem == Keys(s))
      && (forall id :: id in engine.mem ==> id.n < s.db.nextId)
      && (Current(s, engine) ==> forall id :: id in s.db.rows && id in Keys(s) ==> id in engine.mem)
  }

  ghost predicate Inv(s: Sys) {
    && DbInv(s.db)
    && RowsCovered(s.db, Keys(s)) && KeysCovered(s.db, Keys(s))
    && (s.disk.Some? ==> s.disk.value.version <= s.published)
    && (s.lease.None? ==> s.batch == {})
    && (forall id :: id in s.batch ==> id !in Keys(s) && id.n < s.db.nextId)
    && (forall e :: EngineInv(s, e))
  }

  /** What the strict guards add: unpublished vectors are the lease holder's, and each of
      them may be published. */
  ghost predicate HeldBy(s: Sys, e: EngineId) {
    var engine := EngineOf(s, e);
    engine.Loaded? && engine.dirty ==>
      && s.lease == Some(e) && KeysCovered(s.db, engine.mem)
      && (forall id :: id in s.db.rows && id in Keys(s) ==> id in engine.mem)
  }

  ghost predicate StrictInv(s: Sys) {
    Inv(s) && forall e :: HeldBy(s, e)
  }

  // ----- Steps and runs -----------------------------------------------------------------------

  /** Every vector this publish adds to the file has its row, or is still to be removed. */
  ghost predicate PublishSettled(s: Sys, e: EngineId)
    requires EngineOf(s, e).Loaded?
  {
    forall id :: id in EngineOf(s, e).mem && id !in Keys(s) && id !in s.db.rows ==>
      PendingOld(s.db.journal, id) && NoneDone(s.db, id)
  }

  /** No finished removal names the id. */
  predicate NoneDone(db: Db, id: Id) {
    forall k :: 0 <= k < |db.journal| && !db.journal[k].kind.Add? && db.journal[k].status.Completed? ==>
                  db.journal[k].oldId != id
  }

  /** Where the code's guards are not enough: intents closed by text, vectors published after
      the lease was given back, and a row dropped by an engine that has not seen the file. */
  ghost predicate Settled(s: Sys, a: Action)
    requires Enabled(s, a, AsCoded)
  {
    match a
    case CloseAdds(_, content) => AddsSettled(s, content)
    case CloseDeletes(_, content) => DeletesSettled(s, content)
    case Publish(e) => PublishSettled(s, e)
    case PublishTorn(e) => PublishSettled(s, e)
    case Reindex(_, id) => id !in Keys(s) || PendingOld(s.db.journal, id)
    case _ => true
  }

  /** With the code's own guards a step keeps the invariant exactly when it is settled. */
  lemma StepKeepsExactlyWhen(s: Sys, a: Action)
    requires Inv(s) && Enabled(s, a, AsCoded)
    ensures Inv(Step(s, a, AsCoded)) <==> Settled(s, a)
  {
    match a
    case Open(_) => EngineStepKeeps(s, a);
    case Refresh(_) => EngineStepKeeps(s, a);
    case Crash(_) => EngineStepKeeps(s, a);
    case Acquire(_) => EngineStepKeeps(s, a);
    case Release(_) => EngineStepKeeps(s, a);
    case BeginAdd(_, _) => BeginAddKeeps(s, a);
    case BeginDelete(_, _) => BeginOldKeeps(s, a);
    case BeginReplace(_, _, _) => BeginOldKeeps(s, a);
    case Insert(_, _) => InsertKeeps(s, a);
    case AddVector(_, _) => EngineStepKeeps(s, a);
    case RemoveVector(_, _) => EngineStepKeeps(s, a);
    case DeleteRow(_, id) => DropRowExact(s, id);
    case RollbackRow(_, id) => DropRowExact(s, id);
    case Reindex(_, id) => DropRowExact(s, id);
    case Publish(_) => PublishExact(s, a);
    case PublishTorn(_) => PublishExact(s, a);
    case Finish(_, _) => FinishKeeps(s, a);
    case CloseAdds(_, content) => CloseAddsExact(s, content);
    case CloseDeletes(_, content) => CloseDeletesExact(s, content);
  }

  /** As coded, a run keeps the invariant throughout exactly when each of its steps is settled. */
  lemma {:induction false} RunKeepsExactlyWhen(workspace: string, actions: seq<Action>)
    ensures KeptThroughout(workspace, actions) <==> forall k :: 0 <= k < |actions| ==> SettledAt(workspace, actions, k)
  {
    if actions == [] {
      assert actions[..0] == [] && Run(Init(workspace), [], AsCoded) == Init(workspace);
    } else {
      var rest, a := actions[..|actions| - 1], actions[|actions| - 1];
      RunKeepsExactlyWhen(workspace, rest);
      PrefixesSame(workspace, actions);
      KeptOneMore(workspace, actions);
      var s := Run(Init(workspace), rest, AsCoded);
      if Inv(s) && Enabled(s, a, AsCoded) {
        StepKeepsExactlyWhen(s, a);
      }
    }
  }

  ghost predicate KeptThroughout(workspace: string, actions: seq<Action>) {
    forall k :: 0 <= k <= |actions| ==> Inv(Run(Init(workspace), actions[..k], AsCoded))
  }

  /** The `k`-th action of the run is refused, or settled where it happens. */
  ghost predicate SettledAt(workspace: string, actions: seq<Action>, k: nat)
    requires k < |actions|
  {
    var s := Run(Init(workspace), actions[..k], AsCoded);
    Enabled(s, actions[k], AsCoded) ==> Settled(s, actions[k])
  }

  lemma KeptOneMore(workspace: string, actions: seq<Action>)
    requires actions != []
    ensures var rest := actions[..|actions| - 1];
            && (KeptThroughout(workspace, rest) ==> Inv(Run(Init(workspace), rest, AsCoded)))
            && (KeptThroughout(workspace, actions) <==>
                KeptThroughout(workspace, rest) && Inv(Step(Run(Init(workspace), rest, AsCoded), actions[|actions| - 1], AsCoded)))
  {
    var rest := actions[..|actions| - 1];
    assert rest[..|rest|] == rest && actions[..|actions|] == actions;
    assert forall k :: 0 <= k <= |rest| ==> rest[..k] == actions[..k];
  }

  lemma PrefixesSame(workspace: string, actions: seq<Action>)
    requires actions != []
    ensures var rest := actions[..|actions| - 1];
            (forall k :: 0 <= k < |actions| ==> SettledAt(workspace, actions, k)) <==>
            (forall k :: 0 <= k < |rest| ==> SettledAt(workspace, rest, k)) && SettledAt(workspace, actions, |rest|)
  {
    var rest := actions[..|actions| - 1];
    forall k | 0 <= k < |rest|
      ensures SettledAt(workspace, rest, k) <==> SettledAt(workspace, actions, k)
    {
      assert rest[..k] == actions[..k] && rest[k] == actions[k];
    }
  }

  lemma SettledRunKeeps(workspace: string, actions: seq<Action>)
    requires forall k :: 0 <= k < |actions| ==> SettledAt(workspace, actions, k)
    ensures Inv(Run(Init(workspace), actions, AsCoded)) && DriftAccepts(Run(Init(workspace), actions, AsCoded))
  {
    RunKeepsExactlyWhen(workspace, actions);
    assert actions[..|actions|] == actions;
    InvAccepted(Run(Init(workspace), actions, AsCoded));
  }

  /** Under the strict guards every step is settled. */
  lemma StrictSettled(s: Sys, a: Action)
    requires StrictInv(s) && Enabled(s, a, Strict)
    ensures Enabled(s, a, AsCoded) && Settled(s, a) && Step(s, a, AsCoded) == Step(s, a, Strict)
  {
    assert HeldBy(s, a.e) && EngineInv(s, a.e);
  }

  lemma StepKeeps(s: Sys, a: Action)
    requires StrictInv(s)
    ensures StrictInv(Step(s, a, Strict))
  {
    if Enabled(s, a, Strict) {
      StrictSettled(s, a);
      StepKeepsExactlyWhen(s, a);
      HeldKeeps(s, a);
    }
  }

  lemma {:induction false} RunKeeps(workspace: string, actions: seq<Action>)
    ensures StrictInv(Run(Init(workspace), actions, Strict))
  {
    if actions != [] {
      var rest := actions[..|actions| - 1];
      RunKeeps(workspace, rest);
      StepKeeps(Run(Init(workspace), rest, Strict), actions[|actions| - 1]);
    }
  }

  // ----- Theorems ------------------------------------------------------------------------

  lemma InvAccepted(s: Sys)
    requires Inv(s)
    ensures DriftAccepts(s)
  {
    var j, rows, keys := s.db.journal, s.db.rows, Keys(s);
    forall id | id in rows && id !in keys
      ensures MissingAllowed(s.db.workspace, rows, j, id)
    {
      assert Covered(j, rows[id], id);
      if HasAddAuthority(j, rows[id]) {
        var k :| AddAuthority(j, rows[id], k);
        assert JournalRowOk(s.db, j[k]);
        assert Authorises(j[k], s.db.workspace) && NamesMissing(j[k], rows, id);
      } else {
        var k :| 0 <= k < |j| && j[k].status.Pending? && NamesOld(j[k], id);
        assert JournalRowOk(s.db, j[k]);
        assert Authorises(j[k], s.db.workspace) && NamesMissing(j[k], rows, id);
      }
    }
    forall id | id in keys && id !in rows
      ensures OrphanAllowed(s.db.workspace, j, id)
    {
      var k :| 0 <= k < |j| && j[k].status.Pending? && NamesOld(j[k], id);
      assert JournalRowOk(s.db, j[k]);
      assert Authorises(j[k], s.db.workspace) && NamesOld(j[k], id);
    }
  }

  /** Every crash point of every run leaves rows and vectors whose every
      difference a pending journal row accounts for. */
  lemma DriftAlwaysAccepted(workspace: string, actions: seq<Action>)
    ensures DriftAccepts(Run(Init(workspace), actions, Strict))
  {
    RunKeeps(workspace, actions);
    InvAccepted(Run(Init(workspace), actions, Strict));
  }

  ghost predicate Reachable(workspace: string, s: Sys, rules: Rules) {
    exists actions :: Run(Init(workspace), actions, rules) == s
  }

  /** A run under the strict guards is also a run as coded. */
  lemma StrictIsAsCoded(workspace: string, s: Sys)
    requires Reachable(workspace, s, Strict)
    ensures Reachable(workspace, s, AsCoded)
  {
    var actions :| Run(Init(workspace), actions, Strict) == s;
    StrictRunAsCoded(workspace, actions);
  }

  lemma {:induction false} StrictRunAsCoded(workspace: string, actions: seq<Action>)
    ensures Reachable(workspace, Run(Init(workspace), actions, Strict), AsCoded)
  {
    if actions == [] {
      assert Run(Init(workspace), [], AsCoded) == Init(workspace);
    } else {
      var rest, a := actions[..|actions| - 1], actions[|actions| - 1];
      StrictRunAsCoded(workspace, rest);
      var s := Run(Init(workspace), rest, Strict);
      var coded :| Run(Init(workspace), coded, AsCoded) == s;
      if Enabled(s, a, Strict) {
        StrictStepAsCoded(s, a);
        RunOn(workspace, coded, a);
      }
    }
  }

  lemma StrictStepAsCoded(s: Sys, a: Action)
    requires Enabled(s, a, Strict)
    ensures Step(s, a, AsCoded) == Step(s, a, Strict)
  {
  }

  lemma RunOn(workspace: string, actions: seq<Action>, a: Action)
    ensures Run(Init(workspace), actions + [a], AsCoded) == Step(Run(Init(workspace), actions, AsCoded), a, AsCoded)
  {
    assert (actions + [a])[..|actions|] == actions;
  }

  lemma ReachableAccepted(workspace: string, s: Sys)
    requires Reachable(workspace, s, Strict)
    ensures DriftAccepts(s)
  {
    var actions :| Run(Init(workspace), actions, Strict) == s;
    DriftAlwaysAccepted(workspace, actions);
  }

  lemma {:induction false} PendingRowsExact(journal: seq<Transition>)
    ensures forall k :: 0 <= k < |journal| && journal[k].status.Pending? ==> journal[k] in PendingRows(journal)
    ensures forall row :: row in PendingRows(journal) ==> row.status.Pending? && row in journal
  {
    if journal == [] {
    } else {
      PendingRowsExact(journal[..|journal| - 1]);
    }
  }

  lemma ReachableInv(workspace: string, s: Sys)
    requires Reachable(workspace, s, Strict)
    ensures StrictInv(s)
  {
    var actions :| Run(Init(workspace), actions, Strict) == s;
    RunKeeps(workspace, actions);
  }

  /** Both empty or both populated; without a file, nothing but first ADDs. */
  predicate Openable(s: Sys) {
    if s.disk.Some? then Keys(s) == {} <==> s.db.rows == map[]
    else s.db.rows == map[] ||
         forall k :: 0 <= k < |s.db.journal| && s.db.journal[k].status.Pending? ==> s.db.journal[k].kind.Add?
  }

  /** When a workspace that keeps the invariant opens: with a live file, exactly when rows and
      vectors are both empty or both non-empty; without one, exactly when there are no rows
      or every pending intent is an ADD. */
  lemma InvOpens(s: Sys)
    requires Inv(s)
    ensures OpenAccepts(s) <==> Openable(s)
  {
    InvAccepted(s);
    if s.disk.None? && s.db.rows != map[] {
      MissingFileOpens(s);
    }
  }

  lemma OpensExactlyWhen(workspace: string, actions: seq<Action>)
    ensures var s := Run(Init(workspace), actions, Strict);
            OpenAccepts(s) <==> Openable(s)
  {
    RunKeeps(workspace, actions);
    InvOpens(Run(Init(workspace), actions, Strict));
  }

  lemma ReachableOpens(workspace: string, s: Sys)
    requires Reachable(workspace, s, Strict)
    ensures OpenAccepts(s) <==> Openable(s)
  {
    ReachableInv(workspace, s);
    InvOpens(s);
  }

  ghost predicate AddPending(pending: seq<Transition>, db: Db, id: Id)
    requires id in db.rows
  {
    exists p :: 0 <= p < |pending| && Authorises(pending[p], db.workspace) && pending[p].newContent == db.rows[id]
  }

  lemma RowHasPendingAdd(s: Sys, id: Id)
    requires Inv(s) && s.disk.None? && id in s.db.rows
    requires forall k :: 0 <= k < |s.db.journal| && s.db.journal[k].status.Pending? ==> s.db.journal[k].kind.Add?
    ensures AddPending(PendingRows(s.db.journal), s.db, id)
  {
    var j, pending := s.db.journal, PendingRows(s.db.journal);
    PendingRowsExact(j);
    assert Covered(j, s.db.rows[id], id);
    var k :| AddAuthority(j, s.db.rows[id], k);
    assert JournalRowOk(s.db, j[k]);
    assert j[k] in pending;
    var p :| 0 <= p < |pending| && pending[p] == j[k];
    assert Authorises(pending[p], s.db.workspace) && pending[p].newContent == s.db.rows[id];
  }

  lemma MissingFileOpens(s: Sys)
    requires Inv(s) && s.disk.None? && s.db.rows != map[]
    ensures BootstrapAllowed(s.db) <==>
            forall k :: 0 <= k < |s.db.journal| && s.db.journal[k].status.Pending? ==> s.db.journal[k].kind.Add?
  {
    var j, pending := s.db.journal, PendingRows(s.db.journal);
    PendingRowsExact(j);
    if forall k :: 0 <= k < |j| && j[k].status.Pending? ==> j[k].kind.Add? {
      forall id | id in s.db.rows
        ensures exists p :: 0 <= p < |pending| && Authorises(pending[p], s.db.workspace) &&
                            pending[p].newContent == s.db.rows[id]
      {
        RowHasPendingAdd(s, id);
        assert AddPending(pending, s.db, id);
      }
      var id :| id in s.db.rows;
      assert AddPending(pending, s.db, id);
      assert exists p :: 0 <= p < |pending| && Authorises(pending[p], s.db.workspace) &&
                            pending[p].newContent == s.db.rows[id];
    }
  }

  // ----- Closing intents by text -----------------------------------------------------------

  /** Only adds of the text lose their standing. */
  lemma CloseAddsCovers(journal: seq<Transition>, content: string)
    ensures var j' := MemoryStore.CloseAdds(journal, content);
            && (forall c, after :: HasLater(j', c, after) <==> HasLater(journal, c, after))
            && (forall id :: PendingOld(j', id) <==> PendingOld(journal, id))
            && (forall c, k :: AddAuthority(j', c, k) <==>
                  AddAuthority(journal, c, k) && !(journal[k].kind.Add? && c == content))
  {
    var j' := MemoryStore.CloseAdds(journal, content);
    forall c, after
      ensures HasLater(j', c, after) <==> HasLater(journal, c, after)
    {
      assert forall m :: 0 <= m < |journal| ==> (Removes(j'[m], c) <==> Removes(journal[m], c));
    }
    assert forall m, id :: 0 <= m < |journal| && NamesOld(journal[m], id) ==> j'[m] == journal[m];
    assert forall m, id :: 0 <= m < |journal| && NamesOld(j'[m], id) ==> j'[m] == journal[m];
  }

  /** Closing the pending adds of a text keeps the invariant exactly when every row that
      holds the text is on disk, is being removed, or is promised by a replacement. */
  lemma CloseAddsExact(s: Sys, content: string)
    requires Inv(s)
    ensures Inv(s.(db := s.db.(journal := MemoryStore.CloseAdds(s.db.journal, content)))) <==> AddsSettled(s, content)
  {
    var db := s.db.(journal := MemoryStore.CloseAdds(s.db.journal, content));
    CloseAddsCovers(s.db.journal, content);
    forall k | 0 <= k < |db.journal|
      ensures JournalRowOk(db, db.journal[k])
    {
      assert JournalRowOk(s.db, s.db.journal[k]);
    }
    forall id | id in db.rows
      ensures Covered(db.journal, db.rows[id], id) <==>
              if db.rows[id] == content then PendingOld(s.db.journal, id) || ReplaceAuthority(s.db.journal, content)
              else Covered(s.db.journal, db.rows[id], id)
    {
      CoveredWithoutAdds(s.db.journal, content, db.rows[id], id);
    }
    if AddsSettled(s, content) {
      CloseAddsKeeps(s, db);
    }
  }

  lemma CoveredWithoutAdds(journal: seq<Transition>, content: string, text: string, id: Id)
    ensures Covered(MemoryStore.CloseAdds(journal, content), text, id) <==>
            if text == content then PendingOld(journal, id) || ReplaceAuthority(journal, content)
            else Covered(journal, text, id)
  {
    var j' := MemoryStore.CloseAdds(journal, content);
    CloseAddsCovers(journal, content);
    if k :| AddAuthority(j', text, k) {
      assert AddAuthority(journal, text, k);
    }
    if k :| AddAuthority(journal, text, k) && !(journal[k].kind.Add? && text == content) {
      assert AddAuthority(j', text, k);
    }
  }

  lemma CloseAddsKeeps(s: Sys, db: Db)
    requires Inv(s) && JournalOk(db.journal) && RowsCovered(db, Keys(s))
    requires db.rows == s.db.rows && db.nextId == s.db.nextId && db.workspace == s.db.workspace
    requires |db.journal| == |s.db.journal|
    requires forall k :: 0 <= k < |db.journal| ==>
               if s.db.journal[k].kind.Add? then db.journal[k].kind.Add? && db.journal[k].workspace == s.db.workspace
               else db.journal[k] == s.db.journal[k]
    ensures Inv(s.(db := db))
  {
    var s' := s.(db := db);
    forall k | 0 <= k < |db.journal|
      ensures JournalRowOk(db, db.journal[k])
    {
      assert JournalRowOk(s.db, s.db.journal[k]);
    }
    forall id
      ensures PendingOld(s.db.journal, id) <==> PendingOld(db.journal, id)
    {
      assert forall m :: 0 <= m < |db.journal| && NamesOld(db.journal[m], id) ==> db.journal[m] == s.db.journal[m];
      assert forall m :: 0 <= m < |db.journal| && NamesOld(s.db.journal[m], id) ==> db.journal[m] == s.db.journal[m];
    }
    forall e
      ensures EngineInv(s', e)
    {
      assert EngineInv(s, e);
    }
  }

  /** Closing the pending deletes of a text keeps the invariant exactly when every id they
      name is gone from SQLite and from disk. */
  lemma CloseDeletesExact(s: Sys, content: string)
    requires Inv(s)
    ensures Inv(s.(db := s.db.(journal := MemoryStore.CloseDeletes(s.db.journal, content)))) <==> DeletesSettled(s, content)
  {
    var j, j' := s.db.journal, MemoryStore.CloseDeletes(s.db.journal, content);
    var s' := s.(db := s.db.(journal := j'));
    if Inv(s') {
      forall k | 0 <= k < |j| && IsPendingDelete(j[k], content)
        ensures j[k].oldId !in s.db.rows && j[k].oldId !in Keys(s)
      {
        assert JournalRowOk(s'.db, j'[k]);
        assert j'[k].status.Completed? && !j'[k].kind.Add?;
      }
    }
    if DeletesSettled(s, content) {
      CloseDeletesKeeps(s, content);
    }
  }

  lemma CloseDeletesKeeps(s: Sys, content: string)
    requires Inv(s) && DeletesSettled(s, content)
    ensures Inv(s.(db := s.db.(journal := MemoryStore.CloseDeletes(s.db.journal, content))))
  {
    var j, j' := s.db.journal, MemoryStore.CloseDeletes(s.db.journal, content);
    var s' := s.(db := s.db.(journal := j'));
    forall k | 0 <= k < |j'|
      ensures JournalRowOk(s'.db, j'[k])
      ensures !j'[k].kind.Add? && j'[k].status.Completed? ==> j'[k].oldId !in Keys(s)
    {
      assert JournalRowOk(s.db, j[k]);
    }
    forall c, k | AddAuthority(j, c, k)
      ensures AddAuthority(j', c, k)
    {
      assert forall m :: 0 <= m < |j| ==> (Removes(j'[m], c) <==> Removes(j[m], c));
    }
    forall id | PendingOld(j, id) && (id in s.db.rows || id in Keys(s))
      ensures PendingOld(j', id)
    {
      var m :| 0 <= m < |j| && j[m].status.Pending? && NamesOld(j[m], id);
      assert j'[m] == j[m];
    }
    forall e
      ensures EngineInv(s', e)
    {
      assert EngineInv(s, e);
    }
  }

  /** After closing the pending adds of a text the drift check accepts exactly when every
      row that holds it is on disk, is being removed, or is what a replacement asked for. */
  lemma CloseAddsAccepted(s: Sys, content: string)
    requires Inv(s)
    ensures DriftAccepts(s.(db := s.db.(journal := MemoryStore.CloseAdds(s.db.journal, content)))) <==>
            forall id :: id in s.db.rows && s.db.rows[id] == content && id !in Keys(s) ==>
              PendingOld(s.db.journal, id) || PendingReplaceTo(s.db.journal, content)
  {
    var j, j' := s.db.journal, MemoryStore.CloseAdds(s.db.journal, content);
    InvAccepted(s);
    forall id | id in s.db.rows && id !in Keys(s)
      ensures MissingAllowed(s.db.workspace, s.db.rows, j', id) <==>
              (s.db.rows[id] == content ==> PendingOld(j, id) || PendingReplaceTo(j, content))
    {
      MissingWithoutAdds(s, content, id);
    }
    forall id | id in Keys(s) && id !in s.db.rows
      ensures OrphanAllowed(s.db.workspace, j', id)
    {
      var k :| 0 <= k < |j| && Authorises(j[k], s.db.workspace) && NamesOld(j[k], id);
      assert j'[k] == j[k];
    }
  }

  ghost predicate PendingReplaceTo(journal: seq<Transition>, content: string) {
    exists k :: 0 <= k < |journal| && journal[k].status.Pending? && journal[k].kind.Replace? && journal[k].newContent == content
  }

  lemma MissingWithoutAdds(s: Sys, content: string, id: Id)
    requires Inv(s) && id in s.db.rows && id !in Keys(s)
    ensures MissingAllowed(s.db.workspace, s.db.rows, MemoryStore.CloseAdds(s.db.journal, content), id) <==>
            (s.db.rows[id] == content ==> PendingOld(s.db.journal, id) || PendingReplaceTo(s.db.journal, content))
  {
    var j, j' := s.db.journal, MemoryStore.CloseAdds(s.db.journal, content);
    forall k | 0 <= k < |j|
      ensures JournalRowOk(s.db, j[k])
    {
    }
    if s.db.rows[id] != content {
      InvAccepted(s);
      var k :| 0 <= k < |j| && Authorises(j[k], s.db.workspace) && NamesMissing(j[k], s.db.rows, id);
      assert j'[k] == j[k];
    } else {
      if k :| 0 <= k < |j'| && Authorises(j'[k], s.db.workspace) && NamesMissing(j'[k], s.db.rows, id) {
        assert j'[k] == j[k];
      }
      if k :| 0 <= k < |j| && j[k].status.Pending? && NamesOld(j[k], id) {
        assert Authorises(j'[k], s.db.workspace) && NamesMissing(j'[k], s.db.rows, id);
      }
      if k :| 0 <= k < |j| && j[k].status.Pending? && j[k].kind.Replace? && j[k].newContent == content {
        assert Authorises(j'[k], s.db.workspace) && NamesMissing(j'[k], s.db.rows, id);
      }
    }
  }

  // ----- Publishing as coded -------------------------------------------------------------------

  /** After a publish, torn or not, the drift check accepts exactly when every vector that is
      new on disk has its row or a pending removal. */
  lemma PublishAccepted(s: Sys, a: Action)
    requires Inv(s) && Enabled(s, a, AsCoded) && (a.Publish? || a.PublishTorn?)
    ensures DriftAccepts(Step(s, a, AsCoded)) <==>
            forall id :: id in EngineOf(s, a.e).mem && id !in Keys(s) && id !in s.db.rows ==> PendingOld(s.db.journal, id)
  {
    InvAccepted(s);
    var mem, j := EngineOf(s, a.e).mem, s.db.journal;
    assert EngineInv(s, a.e);
    forall id | id in mem && id !in s.db.rows
      ensures OrphanAllowed(s.db.workspace, j, id) <==> PendingOld(j, id)
    {
      OrphanExactly(s, id);
    }
    forall id | id in s.db.rows && id !in mem
      ensures MissingAllowed(s.db.workspace, s.db.rows, j, id)
    {
      assert id !in Keys(s);
    }
  }

  lemma OrphanExactly(s: Sys, id: Id)
    requires Inv(s)
    ensures OrphanAllowed(s.db.workspace, s.db.journal, id) <==> PendingOld(s.db.journal, id)
  {
    var j := s.db.journal;
    if k :| 0 <= k < |j| && j[k].status.Pending? && NamesOld(j[k], id) {
      assert JournalRowOk(s.db, j[k]);
      assert Authorises(j[k], s.db.workspace) && NamesOld(j[k], id);
    }
  }

  /** After an engine dropped a row whose vector it did not find, the drift check accepts
      exactly when the vector is not on disk either, or is to be removed. */
  lemma ReindexAccepted(s: Sys, a: Action)
    requires Inv(s) && Enabled(s, a, AsCoded) && a.Reindex?
    ensures DriftAccepts(Step(s, a, AsCoded)) <==> a.id !in Keys(s) || PendingOld(s.db.journal, a.id)
  {
    OrphanExactly(s, a.id);
    if a.id !in Keys(s) || PendingOld(s.db.journal, a.id) {
      DropRowExact(s, a.id);
      InvAccepted(Step(s, a, AsCoded));
    }
  }

  /** A dirty engine behind the live file: it was overtaken, or its own publish was torn. */
  predicate Stranded(s: Sys, e: EngineId) {
    var engine := EngineOf(s, e);
    && engine.Loaded? && engine.dirty
    && s.disk.Some? && s.disk.value.version <= s.published
    && (engine.seen.Some? ==> engine.seen.value < s.disk.value.version)
  }

  /** A torn publish strands its own engine. */
  lemma TornStrands(s: Sys, e: EngineId)
    requires Inv(s) && Enabled(s, PublishTorn(e), AsCoded)
    ensures Stranded(Step(s, PublishTorn(e), AsCoded), e)
    ensures Keys(Step(s, PublishTorn(e), AsCoded)) == EngineOf(s, e).mem
  {
    assert EngineInv(s, e);
  }

  /** Nothing a stranded engine does is ever published, whatever anybody does, until its
      process ends. */
  lemma {:induction false} StrandedForGood(s: Sys, actions: seq<Action>, e: EngineId)
    requires Stranded(s, e) && forall k :: 0 <= k < |actions| ==> actions[k] != Crash(e)
    ensures var t := Run(s, actions, AsCoded);
            && Stranded(t, e)
            && !Enabled(t, Publish(e), AsCoded) && !Enabled(t, PublishTorn(e), AsCoded) && !Enabled(t, Refresh(e), AsCoded)
  {
    if actions != [] {
      var rest, a := actions[..|actions| - 1], actions[|actions| - 1];
      StrandedForGood(s, rest, e);
      assert a != Crash(e);
      StrandedStep(Run(s, rest, AsCoded), a, e);
    }
  }

  lemma StrandedStep(s: Sys, a: Action, e: EngineId)
    requires Stranded(s, e) && a != Crash(e)
    ensures Stranded(Step(s, a, AsCoded), e)
  {
  }

  // ----- The journal keeps covering what it covered ----------------------------------

  /** `j'` covers whatever `j` covered, for every row and every id. */
  ghost predicate CoversMore(j: seq<Transition>, j': seq<Transition>) {
    && (forall content :: HasAddAuthority(j, content) ==> HasAddAuthority(j', content))
    && (forall id :: PendingOld(j, id) ==> PendingOld(j', id))
  }

  lemma BeginAddCovers(db: Db, content: string)
    requires JournalOk(db.journal)
    ensures CoversMore(db.journal, MemoryStore.BeginAdd(db, content).journal)
  {
    var j, j' := db.journal, MemoryStore.BeginAdd(db, content).journal;
    BeginAddRecords(db, content);
    BeginAddKeepsAuthority(db, content);
    forall id | PendingOld(j, id)
      ensures PendingOld(j', id)
    {
      var k :| 0 <= k < |j| && j[k].status.Pending? && NamesOld(j[k], id);
      assert j'[k] == j[k];
    }
  }

  /** A removal of `oldId` supersedes adds of its text only, and names the id instead. */
  lemma BeginOldCovers(db: Db, kind: Kind, oldId: Id, newContent: string)
    requires DbInv(db) && kind != Add && oldId in db.rows
    requires BeginOld(db, kind, oldId, db.rows[oldId], newContent).Some?
    ensures var j' := BeginOld(db, kind, oldId, db.rows[oldId], newContent).value.journal;
            && JournalOk(j') && db.journal <= j'
            && PendingOld(j', oldId)
            && (forall c :: HasAddAuthority(db.journal, c) && c != db.rows[oldId] ==> HasAddAuthority(j', c))
            && (forall id :: PendingOld(db.journal, id) ==> PendingOld(j', id))
            && (forall k :: |db.journal| <= k < |j'| ==>
                              j'[k] == Transition(db.workspace, kind, oldId, db.rows[oldId], newContent, Pending))
  {
    var j := db.journal;
    forall k | 0 <= k < |j| && IsOldRow(j[k], kind, oldId)
      ensures j[k].status.Pending?
    {
      assert JournalRowOk(db, j[k]);
    }
    BeginOldRecords(db, kind, oldId, db.rows[oldId], newContent);
    var j' := BeginOld(db, kind, oldId, db.rows[oldId], newContent).value.journal;
    var p :| 0 <= p < |j'| && IsOldRow(j'[p], kind, oldId) && j'[p].status.Pending?;
    assert NamesOld(j'[p], oldId);
    forall c | HasAddAuthority(j, c) && c != db.rows[oldId]
      ensures HasAddAuthority(j', c)
    {
      var k :| AddAuthority(j, c, k);
      forall m | 0 <= m < |j'| && k < m
        ensures !Removes(j'[m], c)
      {
        if m < |j| {
          assert !Removes(j[m], c);
        }
      }
      assert AddAuthority(j', c, k);
    }
    forall id | PendingOld(j, id)
      ensures PendingOld(j', id)
    {
      var k :| 0 <= k < |j| && j[k].status.Pending? && NamesOld(j[k], id);
      assert j'[k] == j[k];
    }
  }

  /** Completing row `k` keeps every other authority. */
  lemma CompleteCovers(journal: seq<Transition>, k: nat)
    requires k < |journal|
    ensures var j' := MarkCompleted(journal, k);
            && (forall c, i :: AddAuthority(journal, c, i) && i != k ==> AddAuthority(j', c, i))
            && (forall id :: PendingOld(journal, id) && !NamesOld(journal[k], id) ==> PendingOld(j', id))
  {
    var j' := MarkCompleted(journal, k);
    forall c, i | AddAuthority(journal, c, i) && i != k
      ensures AddAuthority(j', c, i)
    {
      forall m | 0 <= m < |j'| && i < m
        ensures !Removes(j'[m], c)
      {
        assert !Removes(journal[m], c);
      }
    }
    forall id | PendingOld(journal, id) && !NamesOld(journal[k], id)
      ensures PendingOld(j', id)
    {
      var m :| 0 <= m < |journal| && journal[m].status.Pending? && NamesOld(journal[m], id);
      assert j'[m] == journal[m];
    }
  }

  // ----- Each step keeps the invariant -------------------------------------------------

  /** Actions that touch one engine or the lease but neither rows nor file. */
  lemma EngineStepKeeps(s: Sys, a: Action)
    requires Inv(s) && Enabled(s, a, AsCoded)
    requires a.Open? || a.Refresh? || a.Crash? || a.Acquire? || a.Release? || a.AddVector? || a.RemoveVector?
    ensures Inv(Effect(s, a, AsCoded))
  {
    var s' := Effect(s, a, AsCoded);
    forall e
      ensures EngineInv(s', e)
    {
      assert EngineInv(s, e);
      assert EngineInv(s, a.e);
    }
  }

  /** Journal steps: the engines and the file only see a journal that covers more. */
  lemma JournalStepKeeps(s: Sys, db: Db)
    requires Inv(s) && DbInv(db)
    requires db.rows == s.db.rows && db.nextId == s.db.nextId
    requires forall id :: id in db.rows && Covered(s.db.journal, db.rows[id], id) ==> Covered(db.journal, db.rows[id], id)
    requires forall id :: PendingOld(s.db.journal, id) ==> PendingOld(db.journal, id)
    requires forall k :: 0 <= k < |db.journal| && !db.journal[k].kind.Add? && db.journal[k].status.Completed? ==>
                           k < |s.db.journal| && db.journal[k] == s.db.journal[k]
    ensures Inv(s.(db := db))
    ensures forall e :: HeldBy(s, e) ==> HeldBy(s.(db := db), e)
  {
    var s' := s.(db := db);
    forall e
      ensures EngineInv(s', e)
    {
      assert EngineInv(s, e);
    }
  }

  lemma BeginAddKeeps(s: Sys, a: Action)
    requires Inv(s) && Enabled(s, a, AsCoded) && a.BeginAdd?
    ensures Inv(Effect(s, a, AsCoded))
    ensures forall e :: HeldBy(s, e) ==> HeldBy(Effect(s, a, AsCoded), e)
  {
    var db := MemoryStore.BeginAdd(s.db, a.content);
    BeginAddRecords(s.db, a.content);
    BeginAddCovers(s.db, a.content);
    forall k | 0 <= k < |db.journal|
      ensures JournalRowOk(db, db.journal[k])
    {
      if k < |s.db.journal| {
        assert JournalRowOk(s.db, s.db.journal[k]);
      }
    }
    JournalStepKeeps(s, db);
  }

  lemma BeginOldKeeps(s: Sys, a: Action)
    requires Inv(s) && Enabled(s, a, AsCoded)
    requires a.BeginDelete? || a.BeginReplace?
    ensures Inv(Effect(s, a, AsCoded))
    ensures forall e :: HeldBy(s, e) ==> HeldBy(Effect(s, a, AsCoded), e)
  {
    if a.BeginDelete? {
      BeginOldDbKeeps(s, Delete, a.id, "");
    } else {
      BeginOldDbKeeps(s, Replace, a.id, a.content);
    }
  }

  lemma BeginOldDbKeeps(s: Sys, kind: Kind, id: Id, newContent: string)
    requires Inv(s) && kind != Add && id in s.db.rows
    requires BeginOld(s.db, kind, id, s.db.rows[id], newContent).Some?
    ensures var s' := s.(db := BeginOld(s.db, kind, id, s.db.rows[id], newContent).value);
            Inv(s') && forall e :: HeldBy(s, e) ==> HeldBy(s', e)
  {
    BeginOldCovers(s.db, kind, id, newContent);
    var db := BeginOld(s.db, kind, id, s.db.rows[id], newContent).value;
    forall k | 0 <= k < |db.journal|
      ensures JournalRowOk(db, db.journal[k])
    {
      if k < |s.db.journal| {
        assert JournalRowOk(s.db, s.db.journal[k]);
      }
    }
    forall i | i in db.rows && Covered(s.db.journal, db.rows[i], i)
      ensures Covered(db.journal, db.rows[i], i)
    {
    }
    JournalStepKeeps(s, db);
  }

  lemma InsertKeeps(s: Sys, a: Action)
    requires Inv(s) && Enabled(s, a, AsCoded) && a.Insert?
    ensures Inv(Effect(s, a, AsCoded))
  {
    var s' := Effect(s, a, AsCoded);
    InsertRowKeeps(s.db, a.content);
    forall e
      ensures EngineInv(s', e)
    {
      assert EngineInv(s, e);
    }
  }

  /** A row may go exactly when its vector is not on disk or has a pending removal. */
  lemma DropRowExact(s: Sys, id: Id)
    requires Inv(s) && id in s.db.rows
    ensures Inv(s.(db := MemoryStore.DeleteRow(s.db, id))) <==> id !in Keys(s) || PendingOld(s.db.journal, id)
  {
    var s' := s.(db := MemoryStore.DeleteRow(s.db, id));
    if id !in Keys(s) || PendingOld(s.db.journal, id) {
      forall e
        ensures EngineInv(s', e)
      {
        assert EngineInv(s, e);
      }
    }
  }

  lemma PublishExact(s: Sys, a: Action)
    requires Inv(s) && Enabled(s, a, AsCoded) && (a.Publish? || a.PublishTorn?)
    ensures Inv(Effect(s, a, AsCoded)) <==> PublishSettled(s, a.e)
  {
    var s' := Effect(s, a, AsCoded);
    assert EngineInv(s, a.e);
    forall e
      ensures EngineInv(s', e)
    {
      assert EngineInv(s, e);
    }
    if PublishSettled(s, a.e) {
      PublishedCovered(s, a.e);
    }
  }

  lemma PublishedCovered(s: Sys, e: EngineId)
    requires Inv(s) && MayPublish(s, e) && PublishSettled(s, e)
    ensures RowsCovered(s.db, EngineOf(s, e).mem) && KeysCovered(s.db, EngineOf(s, e).mem)
  {
    assert EngineInv(s, e);
    var mem, j := EngineOf(s, e).mem, s.db.journal;
    forall k | 0 <= k < |j| && !j[k].kind.Add? && j[k].status.Completed?
      ensures j[k].oldId !in mem
    {
      assert JournalRowOk(s.db, j[k]);
    }
  }

  lemma FinishKeeps(s: Sys, a: Action)
    requires Inv(s) && Enabled(s, a, AsCoded) && a.Finish?
    ensures Inv(Effect(s, a, AsCoded))
  {
    var s' := Effect(s, a, AsCoded);
    assert EngineInv(s, a.e);
    CompleteKeeps(s.db.journal, a.k);
    CompleteCovers(s.db.journal, a.k);
    forall e
      ensures EngineInv(s', e)
    {
      assert EngineInv(s, e);
    }
  }

  // ----- What the strict guards add --------------------------------------------------------------

  lemma HeldKeeps(s: Sys, a: Action)
    requires StrictInv(s) && Enabled(s, a, Strict)
    ensures forall e :: HeldBy(Effect(s, a, Strict), e)
  {
    if a.BeginAdd? {
      BeginAddKeeps(s, a);
    } else if a.BeginDelete? || a.BeginReplace? {
      BeginOldKeeps(s, a);
    } else {
      forall e
        ensures HeldBy(Effect(s, a, Strict), e)
      {
        HeldStep(s, a, e);
      }
    }
  }

  lemma HeldStep(s: Sys, a: Action, e: EngineId)
    requires StrictInv(s) && Enabled(s, a, Strict)
    requires !a.BeginAdd? && !a.BeginDelete? && !a.BeginReplace?
    ensures HeldBy(Effect(s, a, Strict), e)
  {
    if a.Finish? {
      HeldFinish(s, a, e);
    } else if a.AddVector? || a.RemoveVector? {
      HeldVector(s, a, e);
    } else {
      assert HeldBy(s, e) && HeldBy(s, a.e) && EngineInv(s, a.e);
    }
  }

  lemma HeldVector(s: Sys, a: Action, e: EngineId)
    requires StrictInv(s) && Enabled(s, a, Strict) && (a.AddVector? || a.RemoveVector?)
    ensures HeldBy(Effect(s, a, Strict), e)
  {
    assert HeldBy(s, e) && EngineInv(s, a.e);
  }

  lemma HeldFinish(s: Sys, a: Action, e: EngineId)
    requires StrictInv(s) && Enabled(s, a, Strict) && a.Finish?
    ensures HeldBy(Effect(s, a, Strict), e)
  {
    assert HeldBy(s, e);
    CompleteCovers(s.db.journal, a.k);
  }
}
