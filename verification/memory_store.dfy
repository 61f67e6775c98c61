/** The SQLite side of the index: memory rows, AUTOINCREMENT ids and the intent
    journal (reflectlog/infrastructure/memory_store.py).

    `Db` is one workspace's database file. The functions give the effect of one
    committed transaction; the class at the end performs it in place. */
module MemoryStore {
  import opened Common
  import opened IndexIntegrity

  datatype Db = Db(workspace: string, rows: map<Id, string>, nextId: nat, journal: seq<Transition>)

  function EmptyDb(workspace: string): Db {
    Db(workspace, map[], 1, [])
  }

  // ----- Rows ----------------------------------------------------------------

  /** `get_id_by_content`: the holder, unique by the UNIQUE index. */
  ghost predicate Holds(db: Db, id: Id, content: string) {
    id in db.rows && db.rows[id] == content
  }

  ghost predicate HasContent(db: Db, content: string) {
    exists id :: Holds(db, id, content)
  }

  function InsertRow(db: Db, content: string): Db {
    db.(rows := db.rows[Id(db.nextId) := content], nextId := db.nextId + 1)
  }

  function DeleteRow(db: Db, id: Id): Db {
    db.(rows := db.rows - {id})
  }

  /** UNIQUE(workspace_id, content), and every id ever handed out is below `nextId`. */
  ghost predicate RowsOk(db: Db) {
    && db.nextId >= 1
    && UniqueContents(db.rows)
    && forall id :: id in db.rows ==> 1 <= id.n < db.nextId
  }

  lemma InsertRowKeeps(db: Db, content: string)
    requires RowsOk(db) && !HasContent(db, content)
    ensures RowsOk(InsertRow(db, content))
    ensures Id(db.nextId) !in db.rows && Holds(InsertRow(db, content), Id(db.nextId), content)
  {
    var db' := InsertRow(db, content);
    forall i, j | i in db'.rows && j in db'.rows && db'.rows[i] == db'.rows[j]
      ensures i == j
    {
      if i != j {
        var other := if i == Id(db.nextId) then j else i;
        assert i != Id(db.nextId) ==> i in db.rows;
        assert j != Id(db.nextId) ==> j in db.rows;
        if i == Id(db.nextId) || j == Id(db.nextId) {
          assert Holds(db, other, content);
        }
      }
    }
  }

  // ----- Journal ---------------------------------------------------------------

  datatype Removal = Removal(kind: Kind, oldId: Id, oldContent: string, newContent: string)

  function AddRow(workspace: string, content: string): Transition {
    Transition(workspace, Add, Id(0), "", content, Pending)
  }

  predicate IsPendingAdd(row: Transition, content: string) {
    row.kind.Add? && row.status.Pending? && row.newContent == content
  }

  predicate IsOldRow(row: Transition, kind: Kind, oldId: Id) {
    row.kind == kind && row.oldId == oldId
  }

  /** `has_later_intent(kind=DELETE)`: a later delete or replace of this text, of any status. */
  predicate HasLater(journal: seq<Transition>, content: string, after: int) {
    exists k :: 0 <= k < |journal| && after < k && Removes(journal[k], content)
  }

  predicate Removes(row: Transition, content: string) {
    !row.kind.Add? && row.oldContent == content
  }

  function FindPendingAdd(journal: seq<Transition>, content: string): (r: Option<nat>)
    ensures r.Some? ==> r.value < |journal| && IsPendingAdd(journal[r.value], content)
    ensures r.None? ==> forall k :: 0 <= k < |journal| ==> !IsPendingAdd(journal[k], content)
  {
    if journal == [] then None
    else
      var last := |journal| - 1;
      if IsPendingAdd(journal[last], content) then Some(last) else FindPendingAdd(journal[..last], content)
  }

  function FindOld(journal: seq<Transition>, kind: Kind, oldId: Id): (r: Option<nat>)
    ensures r.Some? ==> r.value < |journal| && IsOldRow(journal[r.value], kind, oldId)
    ensures r.None? ==> forall k :: 0 <= k < |journal| ==> !IsOldRow(journal[k], kind, oldId)
  {
    if journal == [] then None
    else
      var last := |journal| - 1;
      if IsOldRow(journal[last], kind, oldId) then Some(last) else FindOld(journal[..last], kind, oldId)
  }

  function MarkCompleted(journal: seq<Transition>, k: nat): seq<Transition>
    requires k < |journal|
  {
    journal[k := journal[k].(status := Completed)]
  }

  /** One content of `begin_add_intents`: a stale pending add is closed first. */
  function BeginAdd(db: Db, content: string): Db {
    var existing := FindPendingAdd(db.journal, content);
    if existing.None? then db.(journal := db.journal + [AddRow(db.workspace, content)])
    else if HasLater(db.journal, content, existing.value) then
      db.(journal := MarkCompleted(db.journal, existing.value) + [AddRow(db.workspace, content)])
    else db
  }

  /** `_insert_transition_row` for DELETE and REPLACE; None is the StorageError. */
  function BeginOld(db: Db, kind: Kind, oldId: Id, oldContent: string, newContent: string): Option<Db>
    requires kind != Add
  {
    match FindOld(db.journal, kind, oldId)
    case Some(k) =>
      if kind == Replace && db.journal[k].newContent != newContent then None else Some(db)
    case None =>
      Some(db.(journal := db.journal + [Transition(db.workspace, kind, oldId, oldContent, newContent, Pending)]))
  }

  function Complete(db: Db, k: nat): Db
    requires k < |db.journal|
  {
    db.(journal := MarkCompleted(db.journal, k))
  }

  /** Close every pending add of a text: `_complete_pending_adds_of`,
      `_complete_add_intents_for_contents`, and `_complete_add_intents` for one text. */
  function CloseAdds(journal: seq<Transition>, content: string): (j: seq<Transition>)
    ensures |j| == |journal|
    ensures forall k :: 0 <= k < |j| ==>
              j[k] == if IsPendingAdd(journal[k], content) then journal[k].(status := Completed) else journal[k]
  {
    seq(|journal|, k requires 0 <= k < |journal| =>
      if IsPendingAdd(journal[k], content) then journal[k].(status := Completed) else journal[k])
  }

  predicate IsPendingDelete(row: Transition, content: string) {
    row.kind.Delete? && row.status.Pending? && row.oldContent == content
  }

  /** Close every pending delete of a text: `_complete_matching_delete_intents`. */
  function CloseDeletes(journal: seq<Transition>, content: string): (j: seq<Transition>)
    ensures |j| == |journal|
    ensures forall k :: 0 <= k < |j| ==>
              j[k] == if IsPendingDelete(journal[k], content) then journal[k].(status := Completed) else journal[k]
  {
    seq(|journal|, k requires 0 <= k < |journal| =>
      if IsPendingDelete(journal[k], content) then journal[k].(status := Completed) else journal[k])
  }

  /** The three partial UNIQUE indexes of replacement_transitions. */
  ghost predicate JournalOk(journal: seq<Transition>) {
    && (forall a, b :: 0 <= a < b < |journal| && journal[a].kind.Add? && journal[b].kind.Add? &&
                       journal[a].newContent == journal[b].newContent ==>
                       journal[a].status.Completed? || journal[b].status.Completed?)
    && (forall a, b :: 0 <= a < b < |journal| && !journal[a].kind.Add? && journal[a].kind == journal[b].kind ==>
                       journal[a].oldId != journal[b].oldId)
  }

  /** A text's add is live: recorded, pending and not overtaken by a later removal. */
  ghost predicate AddAuthority(journal: seq<Transition>, content: string, k: int) {
    && 0 <= k < |journal|
    && journal[k].status.Pending? && !journal[k].kind.Delete?
    && journal[k].newContent == content
    && !HasLater(journal, content, k)
  }

  ghost predicate HasAddAuthority(journal: seq<Transition>, content: string) {
    exists k :: AddAuthority(journal, content, k)
  }

  /** An intent is recorded before the mutation: after `begin_add_intents` the
      text has a pending add that no later delete or replace supersedes, every
      pending removal is still pending, and the uniqueness indexes hold. A live add
      is kept; otherwise one row is appended and an overtaken add is closed. */
  lemma BeginAddRecords(db: Db, content: string)
    requires JournalOk(db.journal)
    ensures var j := BeginAdd(db, content).journal;
            && JournalOk(j) && HasAddAuthority(j, content)
            && |db.journal| <= |j| <= |db.journal| + 1
            && (forall k :: 0 <= k < |db.journal| && !IsPendingAdd(db.journal[k], content) ==> j[k] == db.journal[k])
            && (forall k :: 0 <= k < |db.journal| ==> j[k].(status := Pending) == db.journal[k].(status := Pending))
            && (if exists k :: 0 <= k < |db.journal| && IsPendingAdd(db.journal[k], content) && !HasLater(db.journal, content, k)
                then j == db.journal
                else
                  && |j| == |db.journal| + 1
                  && j[|db.journal|] == Transition(db.workspace, Add, Id(0), "", content, Pending)
                  && forall k :: 0 <= k < |db.journal| && IsPendingAdd(db.journal[k], content) ==> j[k].status.Completed?)
  {
    var j := BeginAdd(db, content).journal;
    var existing := FindPendingAdd(db.journal, content);
    if existing.None? || HasLater(db.journal, content, existing.value) {
      assert j[|j| - 1] == AddRow(db.workspace, content);
      assert AddAuthority(j, content, |j| - 1);
    } else {
      assert AddAuthority(j, content, existing.value);
    }
  }

  /** Recording one text never takes another text's live add away. */
  lemma BeginAddKeepsAuthority(db: Db, content: string)
    requires JournalOk(db.journal)
    ensures forall c :: HasAddAuthority(db.journal, c) ==> HasAddAuthority(BeginAdd(db, content).journal, c)
  {
    var j, j' := db.journal, BeginAdd(db, content).journal;
    BeginAddRecords(db, content);
    forall c | HasAddAuthority(j, c)
      ensures HasAddAuthority(j', c)
    {
      var k :| AddAuthority(j, c, k);
      if c != content {
        assert j'[k] == j[k];
        forall m | 0 <= m < |j'| && k < m
          ensures !Removes(j'[m], c)
        {
          if m < |j| {
            assert !Removes(j[m], c);
          }
        }
        assert AddAuthority(j', c, k);
      }
    }
  }

  /** The row contradicts the replacement: same old id, other new text. */
  ghost predicate Contradicts(row: Transition, r: Removal) {
    r.kind == Replace && row.kind == Replace && row.oldId == r.oldId && row.newContent != r.newContent
  }

  /** Some row of the journal stands for the removal. */
  ghost predicate Recorded(journal: seq<Transition>, r: Removal) {
    exists k :: 0 <= k < |journal| && StandsFor(journal[k], r)
  }

  ghost predicate StandsFor(row: Transition, r: Removal) {
    row.kind == r.kind && row.oldId == r.oldId && (r.kind == Replace ==> row.newContent == r.newContent)
  }

  function RemovalRow(workspace: string, r: Removal): Transition {
    Transition(workspace, r.kind, r.oldId, r.oldContent, r.newContent, Pending)
  }

  /** One removal is refused exactly when a row contradicts it; otherwise a row stands for it. */
  lemma BeginOldRefuses(db: Db, r: Removal)
    requires JournalOk(db.journal) && r.kind != Add
    ensures var next := BeginOld(db, r.kind, r.oldId, r.oldContent, r.newContent);
            && (next.None? <==> exists k :: 0 <= k < |db.journal| && Contradicts(db.journal[k], r))
            && (next.Some? ==>
                  && Recorded(next.value.journal, r)
                  && next.value == db.(journal := next.value.journal)
                  && (next.value.journal == db.journal || next.value.journal == db.journal + [RemovalRow(db.workspace, r)]))
  {
    match FindOld(db.journal, r.kind, r.oldId)
    case Some(k) =>
      assert IsOldRow(db.journal[k], r.kind, r.oldId);
      if j :| 0 <= j < |db.journal| && Contradicts(db.journal[j], r) {
        assert j == k;
      }
      assert r.kind != Replace || db.journal[k].newContent == r.newContent ==> StandsFor(db.journal[k], r);
    case None =>
      assert forall j :: 0 <= j < |db.journal| ==> !IsOldRow(db.journal[j], r.kind, r.oldId);
      assert StandsFor((db.journal + [RemovalRow(db.workspace, r)])[|db.journal|], r);
  }

  /** Recording a removal: the old id has one row of its kind afterwards; an existing row
      comes back as it is, pending or completed, and only a new one is surely pending. */
  lemma BeginOldRecords(db: Db, kind: Kind, oldId: Id, oldContent: string, newContent: string)
    requires JournalOk(db.journal) && kind != Add
    ensures var r := BeginOld(db, kind, oldId, oldContent, newContent);
            r.Some? ==>
              && JournalOk(r.value.journal)
              && db.journal <= r.value.journal
              && (if exists k :: 0 <= k < |db.journal| && IsOldRow(db.journal[k], kind, oldId) then r.value == db
                  else |r.value.journal| == |db.journal| + 1 &&
                       r.value.journal[|db.journal|] == Transition(db.workspace, kind, oldId, oldContent, newContent, Pending))
  {
    match FindOld(db.journal, kind, oldId)
    case Some(k) =>
    case None =>
      var j := db.journal + [Transition(db.workspace, kind, oldId, oldContent, newContent, Pending)];
      assert IsOldRow(j[|db.journal|], kind, oldId);
  }

  /** Two removals of one transaction that cannot both be recorded. */
  ghost predicate Clash(q: Removal, r: Removal) {
    q.kind == Replace && r.kind == Replace && q.oldId == r.oldId && q.newContent != r.newContent
  }

  /** What stands against a transaction of removals: a row of the journal, or each other. */
  ghost predicate Refused(journal: seq<Transition>, removals: seq<Removal>) {
    || (exists r, k :: r in removals && 0 <= k < |journal| && Contradicts(journal[k], r))
    || (exists q, r :: q in removals && r in removals && Clash(q, r))
  }

  /** The rows that a transaction of removals adds are its own, and each is stood for. */
  ghost predicate AllRecorded(db: Db, d: Db, removals: seq<Removal>) {
    && d == db.(journal := d.journal) && JournalOk(d.journal) && db.journal <= d.journal
    && (forall r :: r in removals ==> Recorded(d.journal, r))
    && (forall k :: |db.journal| <= k < |d.journal| ==> exists r :: r in removals && d.journal[k] == RemovalRow(db.workspace, r))
  }

  /** A transaction of removals is refused exactly when one of them is contradicted, by the
      journal or by another of them; otherwise each has its row. */
  lemma {:induction false} RemovalsRecord(db: Db, removals: seq<Removal>)
    requires JournalOk(db.journal) && forall r :: r in removals ==> r.kind != Add
    ensures BeginRemovals(db, removals).None? <==> Refused(db.journal, removals)
    ensures BeginRemovals(db, removals).Some? ==> AllRecorded(db, BeginRemovals(db, removals).value, removals)
  {
    if removals != [] {
      var init, last := removals[..|removals| - 1], removals[|removals| - 1];
      assert removals == init + [last] && last in removals;
      RemovalsRecord(db, init);
      match BeginRemovals(db, init)
      case None => StillRefused(db.journal, init, last);
      case Some(d) =>
        BeginOldRefuses(d, last);
        BeginOldRecords(d, last.kind, last.oldId, last.oldContent, last.newContent);
        if BeginRemovals(db, removals).Some? {
          OneMoreRecorded(db, d, BeginRemovals(db, removals).value, init, last);
          RecordedNotRefused(db, BeginRemovals(db, removals).value, removals);
        } else {
          LastRefused(db, d, init, last);
        }
    }
  }

  lemma OneMoreRecorded(db: Db, d: Db, e: Db, init: seq<Removal>, last: Removal)
    requires AllRecorded(db, d, init) && Recorded(e.journal, last) && JournalOk(e.journal) && e == d.(journal := e.journal)
    requires e.journal == d.journal || e.journal == d.journal + [RemovalRow(d.workspace, last)]
    ensures AllRecorded(db, e, init + [last])
  {
    forall r | r in init + [last]
      ensures Recorded(e.journal, r)
    {
      if r in init {
        var k :| 0 <= k < |d.journal| && StandsFor(d.journal[k], r);
        assert e.journal[k] == d.journal[k];
      }
    }
    forall k | |db.journal| <= k < |e.journal|
      ensures exists r :: r in init + [last] && e.journal[k] == RemovalRow(db.workspace, r)
    {
      if k < |d.journal| {
        var r :| r in init && d.journal[k] == RemovalRow(db.workspace, r);
        assert r in init + [last];
      } else {
        assert last in init + [last];
      }
    }
  }

  lemma StillRefused(journal: seq<Transition>, init: seq<Removal>, last: Removal)
    requires Refused(journal, init)
    ensures Refused(journal, init + [last])
  {
    assert forall r :: r in init ==> r in init + [last];
  }

  /** The journal has one replacement per old id, so none contradicts one that is recorded. */
  lemma RecordedAlone(journal: seq<Transition>, r: Removal, k: nat)
    requires JournalOk(journal) && Recorded(journal, r) && k < |journal|
    ensures !Contradicts(journal[k], r)
  {
    var j :| 0 <= j < |journal| && StandsFor(journal[j], r);
    assert j == k || !Contradicts(journal[k], r);
  }

  lemma RecordedNotRefused(db: Db, d: Db, removals: seq<Removal>)
    requires AllRecorded(db, d, removals)
    ensures !Refused(db.journal, removals)
  {
    forall r, k | r in removals && 0 <= k < |db.journal|
      ensures !Contradicts(db.journal[k], r)
    {
      RecordedAlone(d.journal, r, k);
      assert d.journal[k] == db.journal[k];
    }
    forall q, r | q in removals && r in removals
      ensures !Clash(q, r)
    {
      var i: nat :| i < |d.journal| && StandsFor(d.journal[i], q);
      RecordedAlone(d.journal, r, i);
    }
  }

  lemma LastRefused(db: Db, d: Db, init: seq<Removal>, last: Removal)
    requires AllRecorded(db, d, init)
    requires exists k :: 0 <= k < |d.journal| && Contradicts(d.journal[k], last)
    ensures Refused(db.journal, init + [last])
  {
    var k :| 0 <= k < |d.journal| && Contradicts(d.journal[k], last);
    assert last in init + [last];
    if k < |db.journal| {
      assert db.journal[k] == d.journal[k];
    } else {
      var q :| q in init && d.journal[k] == RemovalRow(db.workspace, q);
      assert q in init + [last] && Clash(q, last);
    }
  }

  lemma CompleteKeeps(journal: seq<Transition>, k: nat)
    requires JournalOk(journal) && k < |journal|
    ensures JournalOk(MarkCompleted(journal, k))
    ensures forall content, after :: HasLater(MarkCompleted(journal, k), content, after) <==> HasLater(journal, content, after)
  {
    var j := MarkCompleted(journal, k);
    forall content, after
      ensures HasLater(j, content, after) <==> HasLater(journal, content, after)
    {
      forall i | 0 <= i < |j|
        ensures Removes(j[i], content) <==> Removes(journal[i], content)
      {
      }
    }
  }

  // ----- Whole transactions --------------------------------------------------------

  function BeginAdds(db: Db, contents: seq<string>): Db {
    if contents == [] then db
    else BeginAdd(BeginAdds(db, contents[..|contents| - 1]), contents[|contents| - 1])
  }

  lemma BeginAddsSnoc(db: Db, contents: seq<string>, i: nat)
    requires i < |contents|
    ensures BeginAdds(db, contents[..i + 1]) == BeginAdd(BeginAdds(db, contents[..i]), contents[i])
  {
    assert contents[..i + 1][..i] == contents[..i];
  }

  /** One transaction of delete or replace intents: all rows or a StorageError. */
  function BeginRemovals(db: Db, removals: seq<Removal>): Option<Db>
    requires forall r :: r in removals ==> r.kind != Add
  {
    if removals == [] then Some(db)
    else
      var last := removals[|removals| - 1];
      match BeginRemovals(db, removals[..|removals| - 1])
      case None => None
      case Some(d) => BeginOld(d, last.kind, last.oldId, last.oldContent, last.newContent)
  }

  /** `insert_many`: duplicates are skipped, the rest get consecutive ids. */
  function InsertAll(db: Db, contents: seq<string>): (r: (Db, seq<(string, Id)>)) {
    if contents == [] then (db, [])
    else
      var (d, inserted) := InsertAll(db, contents[..|contents| - 1]);
      var last := contents[|contents| - 1];
      if last in d.rows.Values then (d, inserted)
      else (InsertRow(d, last), inserted + [(last, Id(d.nextId))])
  }

  function Ids(inserted: seq<(string, Id)>): set<Id> {
    set p | p in inserted :: p.1
  }

  lemma ValuesHaveContent(db: Db, content: string)
    ensures content in db.rows.Values <==> HasContent(db, content)
  {
    if content in db.rows.Values {
      var id :| id in db.rows && db.rows[id] == content;
      assert Holds(db, id, content);
    }
    if id :| Holds(db, id, content) {
      assert db.rows[id] in db.rows.Values;
    }
  }

  /** What a batch insert does: every old row stays, the new ids were never used
      before, each new row holds its text, and afterwards every text has a row. */
  lemma {:induction false} InsertAllAdds(db: Db, contents: seq<string>)
    requires RowsOk(db)
    ensures var (d, inserted) := InsertAll(db, contents);
            && RowsOk(d) && d.journal == db.journal && d.workspace == db.workspace
            && d.nextId == db.nextId + |inserted|
            && d.rows.Keys == db.rows.Keys + Ids(inserted)
            && (forall id :: id in db.rows ==> d.rows[id] == db.rows[id])
            && (forall i :: 0 <= i < |inserted| ==>
                  inserted[i].1 == Id(db.nextId + i) && inserted[i].0 in contents && Holds(d, inserted[i].1, inserted[i].0))
            && (forall c :: c in contents ==> HasContent(d, c))
            && (forall i :: 0 <= i < |inserted| ==> !HasContent(db, inserted[i].0))
  {
    if contents == [] {
      assert Ids([]) == {};
      assert db.rows.Keys + {} == db.rows.Keys;
    } else {
      var init, last := contents[..|contents| - 1], contents[|contents| - 1];
      InsertAllAdds(db, init);
      var (d0, ins0) := InsertAll(db, init);
      ValuesHaveContent(d0, last);
      if last in d0.rows.Values {
        forall c | c in contents
          ensures HasContent(d0, c)
        {
          assert c in init || c == last;
        }
      } else {
        InsertOneMore(db, init, d0, ins0, last);
      }
    }
  }

  lemma InsertOneMore(db: Db, init: seq<string>, d0: Db, ins0: seq<(string, Id)>, last: string)
    requires RowsOk(db) && RowsOk(d0) && !HasContent(d0, last)
    requires d0.rows.Keys == db.rows.Keys + Ids(ins0)
    requires forall id :: id in db.rows ==> d0.rows[id] == db.rows[id]
    requires forall i :: 0 <= i < |ins0| ==> Holds(d0, ins0[i].1, ins0[i].0)
    requires forall c :: c in init ==> HasContent(d0, c)
    ensures var d, ins := InsertRow(d0, last), ins0 + [(last, Id(d0.nextId))];
            && RowsOk(d)
            && d.rows.Keys == db.rows.Keys + Ids(ins)
            && (forall id :: id in db.rows ==> d.rows[id] == db.rows[id])
            && (forall i :: 0 <= i < |ins| ==> Holds(d, ins[i].1, ins[i].0))
            && (forall c :: c in init + [last] ==> HasContent(d, c))
            && !HasContent(db, last)
  {
    var d, ins := InsertRow(d0, last), ins0 + [(last, Id(d0.nextId))];
    InsertRowKeeps(d0, last);
    IdsSnoc(ins0, (last, Id(d0.nextId)));
    assert d.rows.Keys == d0.rows.Keys + {Id(d0.nextId)};
    assert d.rows.Keys == db.rows.Keys + Ids(ins);
    forall c | c in init + [last]
      ensures HasContent(d, c)
    {
      if c in init {
        var id :| Holds(d0, id, c);
        assert Holds(d, id, c);
      } else {
        assert Holds(d, Id(d0.nextId), c);
      }
    }
    forall id
      ensures !Holds(db, id, last)
    {
      assert Holds(db, id, last) ==> Holds(d0, id, last);
    }
  }

  lemma IdsSnoc(inserted: seq<(string, Id)>, p: (string, Id))
    ensures Ids(inserted + [p]) == Ids(inserted) + {p.1}
  {
    var all := inserted + [p];
    assert forall q :: q in all <==> q in inserted || q == p;
    forall id | id in Ids(all)
      ensures id in Ids(inserted) + {p.1}
    {
      var q :| q in all && q.1 == id;
    }
    forall id | id in Ids(inserted) + {p.1}
      ensures id in Ids(all)
    {
      if id in Ids(inserted) {
        var q :| q in inserted && q.1 == id;
        assert q in all;
      } else {
        assert p in all;
      }
    }
  }

  // ----- The store ---------------------------------------------------------------------

  class Store {
    const workspace: string
    var rows: map<Id, string>
    var nextId: nat
    var journal: seq<Transition>

    constructor (workspace: string)
      ensures Value() == EmptyDb(workspace) && Valid()
    {
      this.workspace := workspace;
      rows, nextId, journal := map[], 1, [];
    }

    function Value(): Db
      reads this
    {
      Db(workspace, rows, nextId, journal)
    }

    ghost predicate Valid()
      reads this
    {
      RowsOk(Value()) && JournalOk(journal)
    }

    /** None is the "Duplicate memory" StorageError. */
    method Insert(content: string) returns (id: Option<Id>)
      requires Valid()
      modifies this
      ensures Valid()
      ensures id.None? <==> HasContent(old(Value()), content)
      ensures Value() == if id.None? then old(Value()) else InsertRow(old(Value()), content)
      ensures id.Some? ==> id.value == Id(old(nextId)) && rows == old(rows)[id.value := content] && nextId == old(nextId) + 1
    {
      ValuesHaveContent(Value(), content);
      if content in rows.Values {
        return None;
      }
      InsertRowKeeps(Value(), content);
      id := Some(Id(nextId));
      rows := rows[Id(nextId) := content];
      nextId := nextId + 1;
    }

    method InsertMany(contents: seq<string>) returns (inserted: seq<(string, Id)>)
      requires Valid()
      modifies this
      ensures Valid()
      ensures (Value(), inserted) == InsertAll(old(Value()), contents)
    {
      inserted := [];
      ghost var db0 := Value();
      for i := 0 to |contents|
        invariant Valid() && journal == old(journal)
        invariant (Value(), inserted) == InsertAll(db0, contents[..i])
      {
        assert contents[..i + 1][..i] == contents[..i];
        var id := Insert(contents[i]);
        ValuesHaveContent(InsertAll(db0, contents[..i]).0, contents[i]);
        if id.Some? {
          inserted := inserted + [(contents[i], id.value)];
        }
      }
      assert contents[..|contents|] == contents;
    }

    method Delete(id: Id) returns (deleted: bool)
      requires Valid()
      modifies this
      ensures Valid()
      ensures deleted <==> id in old(rows)
      ensures Value() == DeleteRow(old(Value()), id)
      ensures rows == old(rows) - {id} && nextId == old(nextId) && journal == old(journal)
    {
      deleted := id in rows;
      rows := rows - {id};
    }

    /** True when a later add, removal or replacement of the text was recorded. */
    method HasLaterIntent(kind: Kind, content: string, after: int) returns (found: bool)
      ensures kind == Add ==> (found <==> exists k :: 0 <= k < |journal| && after < k && journal[k].kind == Add &&
                                                      journal[k].newContent == content)
      ensures kind == Kind.Delete ==> (found <==> HasLater(journal, content, after))
      ensures kind == Kind.Delete ==>
                (found <==> exists k :: 0 <= k < |journal| && after < k && journal[k].kind != Add && journal[k].oldContent == content)
      ensures kind == Replace ==> (found <==> exists k :: 0 <= k < |journal| && after < k && journal[k].kind == Replace &&
                                                          journal[k].oldContent == content)
    {
      for k := 0 to |journal|
        invariant forall m :: 0 <= m < k && after < m ==>
                    && (kind == Add ==> !(journal[m].kind == Add && journal[m].newContent == content))
                    && (kind == Kind.Delete ==> !Removes(journal[m], content))
                    && (kind == Replace ==> !(journal[m].kind == Replace && journal[m].oldContent == content))
      {
        var row := journal[k];
        var hit := match kind
          case Add => row.kind == Add && row.newContent == content
          case Delete => Removes(row, content)
          case Replace => row.kind == Replace && row.oldContent == content;
        if after < k && hit {
          return true;
        }
      }
      return false;
    }

    /** `_insert_add_intent_row`: a pending add overtaken by a removal is closed first. */
    method BeginAddIntent(content: string)
      requires Valid()
      modifies this`journal
      ensures Valid() && Value() == BeginAdd(old(Value()), content)
    {
      BeginAddRecords(Value(), content);
      var existing := FindPendingAdd(journal, content);
      if existing.None? {
        journal := journal + [AddRow(workspace, content)];
        return;
      }
      var stale := HasLaterIntent(Kind.Delete, content, existing.value);
      if stale {
        journal := MarkCompleted(journal, existing.value) + [AddRow(workspace, content)];
      }
    }

    method BeginAddIntents(contents: seq<string>)
      requires Valid()
      modifies this`journal
      ensures Valid()
      ensures Value() == BeginAdds(old(Value()), Distinct(contents))
    {
      var unique := Distinct(contents);
      ghost var db0 := Value();
      for i := 0 to |unique|
        invariant Valid() && Value() == BeginAdds(db0, unique[..i])
      {
        BeginAddsSnoc(db0, unique, i);
        BeginAddIntent(unique[i]);
      }
      assert unique[..|unique|] == unique;
    }

    /** `_insert_transition_row`; false is the StorageError. */
    method RecordRemoval(r: Removal) returns (ok: bool)
      requires Valid() && r.kind != Add
      modifies this`journal
      ensures Valid()
      ensures var next := BeginOld(old(Value()), r.kind, r.oldId, r.oldContent, r.newContent);
              ok == next.Some? && Value() == if ok then next.value else old(Value())
      ensures ok <==> r.kind != Replace || forall k :: 0 <= k < |old(journal)| && IsOldRow(old(journal)[k], Replace, r.oldId) ==>
                                                          old(journal)[k].newContent == r.newContent
      ensures ok ==> exists k :: 0 <= k < |journal| && IsOldRow(journal[k], r.kind, r.oldId) &&
                       (r.kind == Replace ==> journal[k].newContent == r.newContent)
      ensures journal == old(journal) ||
              journal == old(journal) + [Transition(workspace, r.kind, r.oldId, r.oldContent, r.newContent, Pending)]
    {
      BeginOldRefuses(Value(), r);
      var existing := FindOld(journal, r.kind, r.oldId);
      if existing.Some? {
        return !(r.kind == Replace && journal[existing.value].newContent != r.newContent);
      }
      journal := journal + [Transition(workspace, r.kind, r.oldId, r.oldContent, r.newContent, Pending)];
      return true;
    }

    /** `begin_delete_intents` and `begin_replacement_transitions`: one transaction,
        rolled back whole when an old id already has another replacement. */
    method RecordRemovals(removals: seq<Removal>) returns (ok: bool)
      requires Valid() && forall r :: r in removals ==> r.kind != Add
      modifies this`journal
      ensures Valid()
      ensures ok <==> BeginRemovals(old(Value()), removals).Some?
      ensures ok <==> !Refused(old(journal), removals)
      ensures if ok then AllRecorded(old(Value()), Value(), removals) else journal == old(journal)
      ensures Value() == if ok then BeginRemovals(old(Value()), removals).value else old(Value())
    {
      ghost var db0 := Value();
      RemovalsRecord(db0, removals);
      var before := journal;
      for i := 0 to |removals|
        invariant Valid() && BeginRemovals(db0, removals[..i]) == Some(Value())
      {
        assert removals[..i + 1][..i] == removals[..i];
        var recorded := RecordRemoval(removals[i]);
        if !recorded {
          assert BeginRemovals(db0, removals[..i + 1]).None?;
          FailedPrefix(db0, removals, i + 1);
          journal := before;
          return false;
        }
      }
      assert removals[..|removals|] == removals;
      return true;
    }

    method CompleteTransition(k: nat) returns (ok: bool)
      requires Valid()
      modifies this`journal
      ensures Valid()
      ensures ok <==> k < old(|journal|)
      ensures Value() == if ok then Complete(old(Value()), k) else old(Value())
      ensures ok ==> journal == old(journal)[k := old(journal)[k].(status := Completed)]
    {
      if k >= |journal| {
        return false;
      }
      CompleteKeeps(journal, k);
      journal := MarkCompleted(journal, k);
      return true;
    }
  }

  lemma {:induction false} FailedPrefix(db: Db, removals: seq<Removal>, n: nat)
    requires forall r :: r in removals ==> r.kind != Add
    requires n <= |removals| && BeginRemovals(db, removals[..n]).None?
    ensures BeginRemovals(db, removals).None?
    decreases |removals| - n
  {
    if n == |removals| {
      assert removals[..n] == removals;
    } else {
      assert removals[..n + 1][..n] == removals[..n];
      FailedPrefix(db, removals, n + 1);
    }
  }

  /** A batch of add intents leaves every text with a live pending add. */
  lemma {:induction false} BeginAddsRecord(db: Db, contents: seq<string>)
    requires JournalOk(db.journal)
    ensures JournalOk(BeginAdds(db, contents).journal)
    ensures forall c :: c in contents ==> HasAddAuthority(BeginAdds(db, contents).journal, c)
  {
    if contents != [] {
      var init, last := contents[..|contents| - 1], contents[|contents| - 1];
      BeginAddsRecord(db, init);
      var d := BeginAdds(db, init);
      BeginAddRecords(d, last);
      BeginAddKeepsAuthority(d, last);
      assert forall c :: c in contents ==> c in init || c == last;
    }
  }
}
