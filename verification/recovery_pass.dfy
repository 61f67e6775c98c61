/** One recovery pass as coded (replacement_recovery.py). */
module RecoveryPass {
  import opened Common
  import opened IndexIntegrity
  import opened MemoryStore
  import opened CrashRecovery

  // A pass takes the journal's rows in their order. Each row makes its new text present,
  // takes its old id away, commits, and is closed if the engines agree by then; a replacement
  // also closes the ADDs of its old text, whether or not their rows have vectors. A text that
  // is not live can only be made present if its vector was computed before the pass.

  // ----- The pass ----------------------------------------------------------------------------

  ghost function Do(s: Sys, a: Action): Sys {
    Step(s, a, AsCoded)
  }

  function Mem(s: Sys, e: EngineId): set<Id> {
    if EngineOf(s, e).Loaded? then EngineOf(s, e).mem else {}
  }

  /** The text has a row and its vector. */
  ghost predicate Live(db: Db, keys: set<Id>, content: string) {
    exists id :: Holds(db, id, content) && id in keys
  }

  ghost predicate LiveText(s: Sys, e: EngineId, content: string) {
    Live(s.db, Mem(s, e), content)
  }

  ghost function Holders(db: Db, content: string): set<Id> {
    set id | id in db.rows && db.rows[id] == content
  }

  /** `_ensure_replacement_present` and `_stage_pending_add`: a text that is not live is
      inserted, a row without its vector being dropped first, if its vector was computed
      before the pass. */
  ghost function Ensured(s: Sys, e: EngineId, content: string, vectors: set<string>): Sys {
    if LiveText(s, e, content) || content !in vectors then s
    else
      var t := Dropped(s, e, content);
      Do(Do(t, Insert(e, content)), AddVector(e, Id(t.db.nextId)))
  }

  ghost function Dropped(s: Sys, e: EngineId, content: string): Sys {
    if id :| Holds(s.db, id, content) then Do(s, Reindex(e, id)) else s
  }

  /** `_remove_recorded_old`. */
  ghost function Removed(s: Sys, e: EngineId, id: Id): Sys {
    Do(Do(s, Action.DeleteRow(e, id)), RemoveVector(e, id))
  }

  /** `commit`. */
  ghost function Saved(s: Sys, e: EngineId): Sys {
    Do(s, Publish(e))
  }

  /** `_complete_converged_intent` of a replacement: the leftover ADDs of its old text first. */
  ghost function Closed(s: Sys, e: EngineId, k: nat, oldText: string): Sys {
    if oldText == "" then Do(s, Finish(e, k)) else Do(Do(s, Action.CloseAdds(e, oldText)), Finish(e, k))
  }

  /** The text of row `k` is to be there at the end: nobody removed it later. */
  ghost predicate Ensuring(journal: seq<Transition>, k: nat)
    requires k < |journal|
  {
    !journal[k].kind.Delete? && !HasLater(journal, journal[k].newContent, k)
  }

  /** `apply_pending_transition` on row `k`, with every full-text write succeeding. */
  ghost function Applied(s: Sys, e: EngineId, k: nat, vectors: set<string>): Sys
    requires k < |s.db.journal|
  {
    var row := s.db.journal[k];
    if row.status.Completed? then s
    else if !Ensuring(s.db.journal, k) then
      Do(if row.kind.Add? then s else Saved(Removed(s, e, row.oldId), e), Finish(e, k))
    else Concluded(Ensured(s, e, row.newContent, vectors), e, k, row)
  }

  /** The rest, once the text was ensured or could not be. */
  ghost function Concluded(t: Sys, e: EngineId, k: nat, row: Transition): Sys {
    if !LiveText(t, e, row.newContent) then t
    else if row.kind.Add? then Do(Saved(t, e), Finish(e, k))
    else
      var u := Saved(Removed(t, e, row.oldId), e);
      if k < |u.db.journal| && Converged(u, Mem(u, e), k) then Closed(u, e, k, row.oldContent) else u
  }

  /** One turn after another, from `i` up to `n`. */
  ghost function Loop(turn: (Sys, nat) -> Sys, s: Sys, i: nat, n: nat): Sys
    decreases n - i
  {
    if i < n then Loop(turn, turn(s, i), i + 1, n) else s
  }

  ghost function Turn(e: EngineId, vectors: set<string>): (Sys, nat) -> Sys {
    (s: Sys, i: nat) => if i < |s.db.journal| then Applied(s, e, i, vectors) else s
  }

  /** The rows of the journal in their order, from row `i` up to row `n`. */
  ghost function PassFrom(s: Sys, e: EngineId, i: nat, n: nat, vectors: set<string>): Sys {
    Loop(Turn(e, vectors), s, i, n)
  }

  ghost function Pass(s: Sys, e: EngineId, vectors: set<string>): Sys {
    PassFrom(s, e, 0, |s.db.journal|, vectors)
  }

  /** `_precompute_add_vectors`, when embedding succeeds: the texts to be there that are not
      live before the pass. */
  ghost predicate Precomputed(s: Sys, e: EngineId, vectors: set<string>) {
    forall c :: c in vectors <==> c != "" && !LiveText(s, e, c) && Wanted(s.db.journal, c)
  }

  ghost predicate Wanted(journal: seq<Transition>, content: string) {
    exists k :: 0 <= k < |journal| && journal[k].status.Pending? && !journal[k].kind.Delete? && journal[k].newContent == content
  }

  // ----- When a row does not converge ---------------------------------------------------------

  /** An earlier replacement of the text closes this ADD before its turn. */
  ghost predicate ClosedBefore(journal: seq<Transition>, k: nat)
    requires k < |journal|
  {
    exists m :: 0 <= m < k && Closes(journal, m, k)
  }

  ghost predicate Closes(journal: seq<Transition>, m: nat, k: nat)
    requires m < |journal| && k < |journal|
  {
    && journal[m].status.Pending? && journal[m].kind.Replace? && Ensuring(journal, m)
    && journal[k].kind.Add? && journal[k].newContent == journal[m].oldContent != ""
  }

  /** A pending removal up to row `k` names the id that has the text of row `k`. */
  ghost predicate GoesFirst(s: Sys, k: nat)
    requires k < |s.db.journal|
  {
    exists m :: 0 <= m <= k && s.db.journal[m].status.Pending? && !s.db.journal[m].kind.Add? &&
                Holds(s.db, s.db.journal[m].oldId, s.db.journal[k].newContent)
  }

  ghost predicate RemovedBy(journal: seq<Transition>, n: nat, id: Id)
    requires n <= |journal|
  {
    exists m :: 0 <= m < n && journal[m].status.Pending? && !journal[m].kind.Add? && journal[m].oldId == id
  }

  /** Row `k` replaces a live text by itself, and is the first to remove it. */
  ghost predicate ReplacesItself(s: Sys, e: EngineId, k: nat)
    requires k < |s.db.journal|
  {
    var row := s.db.journal[k];
    && LiveText(s, e, row.newContent) && row.kind.Replace? && Holds(s.db, row.oldId, row.newContent)
    && !RemovedBy(s.db.journal, k, row.oldId)
  }

  /** Row `k` finds neither its text nor a vector for it, or undoes its own text. */
  ghost predicate Stuck(s: Sys, e: EngineId, k: nat, vectors: set<string>)
    requires k < |s.db.journal|
  {
    var row := s.db.journal[k];
    && row.status.Pending? && Ensuring(s.db.journal, k) && !ClosedBefore(s.db.journal, k)
    && if row.newContent in vectors then ReplacesItself(s, e, k) else !LiveText(s, e, row.newContent) || GoesFirst(s, k)
  }

  /** Row `k` replaces a text that is back under another id without a vector, and no removal
      and no other replacement speaks for that row: closing its ADD leaves nothing. */
  ghost predicate Leftover(s: Sys, k: nat)
    requires k < |s.db.journal|
  {
    exists id :: LeftoverId(s, k, id)
  }

  ghost predicate LeftoverId(s: Sys, k: nat, id: Id)
    requires k < |s.db.journal|
  {
    var row := s.db.journal[k];
    && row.status.Pending? && row.kind.Replace? && Ensuring(s.db.journal, k) && row.oldContent != ""
    && Holds(s.db, id, row.oldContent) && id !in Keys(s)
    && !PendingOld(s.db.journal, id) && !ReplaceAuthority(s.db.journal, row.oldContent)
  }

  /** No row from `i` on is stuck, and none leaves a row over. */
  ghost predicate NoneFails(s: Sys, e: EngineId, i: nat, vectors: set<string>) {
    forall k :: i <= k < |s.db.journal| ==> !Stuck(s, e, k, vectors) && !Leftover(s, k)
  }

  // ----- Before and after ----------------------------------------------------------------------

  ghost predicate Ready(s: Sys, e: EngineId) {
    Inv(s) && s.lease == Some(e) && Current(s, EngineOf(s, e))
  }

  ghost predicate Clean(s: Sys, e: EngineId) {
    Ready(s, e) && !EngineOf(s, e).dirty
  }

  /** Nothing is pending, and the rows are exactly the published vectors. */
  ghost predicate Recovered(s: Sys) {
    s.db.rows.Keys == Keys(s) && forall k :: 0 <= k < |s.db.journal| ==> s.db.journal[k].status.Completed?
  }
}
