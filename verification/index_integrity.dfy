/** Id-set comparison between memory rows and vector keys
    (reflectlog/infrastructure/index_integrity.py).

    `Accounted` is the documented table stated over ids. `EvaluateIndexIntegrity`
    is the loop that fills the two allowance sets; its contract ties the report
    to the table in both directions. */
module IndexIntegrity {

  /** A memory row id, which is also its vector key. */
  datatype Id = Id(n: int)

  datatype Kind = Add | Delete | Replace
  datatype Status = Pending | Completed

  /** A journal row. Its id is its position in the journal. */
  datatype Transition = Transition(
    workspace: string, kind: Kind, oldId: Id, oldContent: string, newContent: string, status: Status)

  datatype Report = Report(
    sqliteCount: nat, vectorCount: nat,
    missing: set<Id>, orphans: set<Id>,
    allowedMissing: set<Id>, allowedOrphans: set<Id>)
  {
    function UnexplainedMissing(): set<Id> { missing - allowedMissing }
    function UnexplainedOrphans(): set<Id> { orphans - allowedOrphans }
    predicate IsConsistent() { UnexplainedMissing() == {} && UnexplainedOrphans() == {} }
  }

  /** The UNIQUE(workspace_id, content) index of the memories table. */
  ghost predicate UniqueContents(rows: map<Id, string>) {
    forall i, j :: i in rows && j in rows && rows[i] == rows[j] ==> i == j
  }

  predicate Authorises(row: Transition, workspace: string) {
    row.status.Pending? && row.workspace == workspace
  }

  // ----- The documented table ------------------------------------------------

  predicate NamesNew(row: Transition, rows: map<Id, string>, id: Id) {
    row.kind != Delete && id in rows && rows[id] == row.newContent
  }

  predicate NamesOld(row: Transition, id: Id) {
    row.kind != Add && row.oldId.n > 0 && row.oldId == id
  }

  predicate NamesMissing(row: Transition, rows: map<Id, string>, id: Id) {
    || NamesNew(row, rows, id)
    || (NamesOld(row, id) && id in rows && rows[id] == row.oldContent)
  }

  ghost predicate MissingAllowed(workspace: string, rows: map<Id, string>, pending: seq<Transition>, id: Id) {
    exists k :: 0 <= k < |pending| && Authorises(pending[k], workspace) && NamesMissing(pending[k], rows, id)
  }

  ghost predicate OrphanAllowed(workspace: string, pending: seq<Transition>, id: Id) {
    exists k :: 0 <= k < |pending| && Authorises(pending[k], workspace) && NamesOld(pending[k], id)
  }

  /** Every difference between rows and vector keys is named by a pending row. */
  ghost predicate Accounted(workspace: string, rows: map<Id, string>, keys: set<Id>, pending: seq<Transition>) {
    && (forall id :: id in rows && id !in keys ==> MissingAllowed(workspace, rows, pending, id))
    && (forall id :: id in keys && id !in rows ==> OrphanAllowed(workspace, pending, id))
  }

  // ----- The loop --------------------------------------------------------------

  /** `id_by_content.get(content)`: contents are unique, so the holder is too. */
  method FindByContent(rows: map<Id, string>, content: string) returns (found: bool, id: Id)
    requires UniqueContents(rows)
    ensures found ==> id in rows && rows[id] == content
    ensures !found ==> forall i :: i in rows ==> rows[i] != content
  {
    var left := rows.Keys;
    while left != {}
      invariant left <= rows.Keys
      invariant forall i :: i in rows && i !in left ==> rows[i] != content
      decreases left
    {
      var i :| i in left;
      if rows[i] == content {
        return true, i;
      }
      left := left - {i};
    }
    return false, Id(0);
  }

  method EvaluateIndexIntegrity(
    workspace: string, rows: map<Id, string>, keys: set<Id>, pending: seq<Transition>)
    returns (report: Report)
    requires UniqueContents(rows)
    ensures report.sqliteCount == |rows| && report.vectorCount == |keys|
    ensures report.missing == rows.Keys - keys && report.orphans == keys - rows.Keys
    ensures forall id :: id in report.allowedMissing <==>
                           id in report.missing && MissingAllowed(workspace, rows, pending, id)
    ensures forall id :: id in report.allowedOrphans <==>
                           id in report.orphans && OrphanAllowed(workspace, pending, id)
    ensures report.IsConsistent() <==> Accounted(workspace, rows, keys, pending)
  {
    var missing := rows.Keys - keys;
    var orphans := keys - rows.Keys;
    var allowedMissing, allowedOrphans := CollectAllowances(workspace, rows, pending);
    report := Report(|rows.Keys|, |keys|, missing, orphans, missing * allowedMissing, orphans * allowedOrphans);
    ConsistentIffAccounted(workspace, rows, keys, pending, report);
  }

  lemma ConsistentIffAccounted(
    workspace: string, rows: map<Id, string>, keys: set<Id>, pending: seq<Transition>, report: Report)
    requires report.missing == rows.Keys - keys && report.orphans == keys - rows.Keys
    requires forall id :: id in report.allowedMissing <==>
                            id in report.missing && MissingAllowed(workspace, rows, pending, id)
    requires forall id :: id in report.allowedOrphans <==>
                            id in report.orphans && OrphanAllowed(workspace, pending, id)
    ensures report.IsConsistent() <==> Accounted(workspace, rows, keys, pending)
  {
    DifferenceEmpty(report.missing, report.allowedMissing);
    DifferenceEmpty(report.orphans, report.allowedOrphans);
  }

  lemma DifferenceEmpty(a: set<Id>, b: set<Id>)
    ensures a - b == {} <==> forall id :: id in a ==> id in b
  {
    if a - b == {} {
      forall id | id in a
        ensures id in b
      {
        assert id !in a - b;
      }
    } else {
      var id :| id in a - b;
    }
  }

  /** `allowed_missing` and `allowed_orphan` after scanning the pending rows. */
  ghost predicate Collected(
    workspace: string, rows: map<Id, string>, pending: seq<Transition>, m: set<Id>, o: set<Id>)
  {
    && (forall id :: id in m <==> MissingAllowed(workspace, rows, pending, id))
    && (forall id :: id in o <==> OrphanAllowed(workspace, pending, id))
  }

  method CollectAllowances(workspace: string, rows: map<Id, string>, pending: seq<Transition>)
    returns (m: set<Id>, o: set<Id>)
    requires UniqueContents(rows)
    ensures Collected(workspace, rows, pending, m, o)
  {
    m, o := {}, {};
    for k := 0 to |pending|
      invariant Collected(workspace, rows, pending[..k], m, o)
    {
      var row := pending[k];
      ghost var m0, o0 := m, o;
      if row.status.Pending? && row.workspace == workspace {
        if row.kind != Delete {
          m := AllowNewContent(row, rows, m);
        }
        if row.kind != Add {
          m, o := AllowOldId(row, rows, m, o);
        }
      }
      CollectedSnoc(workspace, rows, pending[..k], row, m0, o0, m, o);
      assert pending[..k + 1] == pending[..k] + [row];
    }
    assert pending[..|pending|] == pending;
  }

  lemma CollectedSnoc(
    workspace: string, rows: map<Id, string>, before: seq<Transition>, row: Transition,
    m0: set<Id>, o0: set<Id>, m: set<Id>, o: set<Id>)
    requires Collected(workspace, rows, before, m0, o0)
    requires forall id :: id in m <==> id in m0 || (Authorises(row, workspace) && NamesMissing(row, rows, id))
    requires forall id :: id in o <==> id in o0 || (Authorises(row, workspace) && NamesOld(row, id))
    ensures Collected(workspace, rows, before + [row], m, o)
  {
    AllowedSnoc(workspace, rows, before, row);
  }

  method AllowNewContent(row: Transition, rows: map<Id, string>, allowedMissing: set<Id>)
    returns (r: set<Id>)
    requires UniqueContents(rows) && row.kind != Delete
    ensures forall id :: id in r <==> id in allowedMissing || (id in rows && rows[id] == row.newContent)
  {
    var found, current := FindByContent(rows, row.newContent);
    r := if found then allowedMissing + {current} else allowedMissing;
  }

  method AllowOldId(
    row: Transition, rows: map<Id, string>, allowedMissing: set<Id>, allowedOrphans: set<Id>)
    returns (m: set<Id>, o: set<Id>)
    requires row.kind != Add
    ensures forall id :: id in o <==> id in allowedOrphans || (id == row.oldId && id.n > 0)
    ensures forall id :: id in m <==>
                           id in allowedMissing || (id == row.oldId && id.n > 0 && id in rows && rows[id] == row.oldContent)
  {
    m, o := allowedMissing, allowedOrphans;
    if row.oldId.n <= 0 {
      return;
    }
    o := o + {row.oldId};
    if row.oldId in rows && rows[row.oldId] == row.oldContent {
      m := m + {row.oldId};
    }
  }

  lemma AllowedSnoc(workspace: string, rows: map<Id, string>, before: seq<Transition>, row: Transition)
    ensures forall id :: MissingAllowed(workspace, rows, before + [row], id) <==>
                         MissingAllowed(workspace, rows, before, id) ||
                         (Authorises(row, workspace) && NamesMissing(row, rows, id))
    ensures forall id :: OrphanAllowed(workspace, before + [row], id) <==>
                         OrphanAllowed(workspace, before, id) || (Authorises(row, workspace) && NamesOld(row, id))
  {
    var all := before + [row];
    assert all[|before|] == row;
    assert forall k :: 0 <= k < |before| ==> all[k] == before[k];
  }

  // ----- Bounded authorisation ---------------------------------------------------

  /** How many differing ids one row can explain: ADD 1, DELETE 1, REPLACE 2. */
  function Weight(row: Transition): nat {
    if row.kind == Replace then 2 else 1
  }

  function TotalWeight(pending: seq<Transition>): nat {
    if pending == [] then 0 else TotalWeight(pending[..|pending| - 1]) + Weight(pending[|pending| - 1])
  }

  /** A non-empty journal is never a blanket exemption: an accepted difference has
      at most #ADD + #DELETE + 2 * #REPLACE ids. */
  lemma BoundedAuthorisation(workspace: string, rows: map<Id, string>, keys: set<Id>, pending: seq<Transition>)
    requires UniqueContents(rows) && Accounted(workspace, rows, keys, pending)
    ensures |rows.Keys - keys| + |keys - rows.Keys| <= TotalWeight(pending)
  {
    var diff := (rows.Keys - keys) + (keys - rows.Keys);
    forall id | id in diff
      ensures Named(rows, pending, id)
    {
      if id in rows {
        assert MissingAllowed(workspace, rows, pending, id);
      } else {
        assert OrphanAllowed(workspace, pending, id);
      }
    }
    NamedBound(rows, pending, diff);
  }

  /** One row of each kind that explains as many differing ids as it can. */
  lemma BoundIsReached(kind: Kind)
    ensures exists rows: map<Id, string>, keys: set<Id>, row: Transition ::
              && UniqueContents(rows) && row.kind == kind && Accounted("w", rows, keys, [row])
              && |rows.Keys - keys| + |keys - rows.Keys| == TotalWeight([row])
  {
    var row := Transition("w", kind, Id(1), "old", "new", Pending);
    var rows: map<Id, string> := if kind == Delete then map[] else map[Id(2) := "new"];
    var keys := if kind == Add then {} else {Id(1)};
    assert rows.Keys - keys == if kind == Delete then {} else {Id(2)};
    assert keys - rows.Keys == keys;
    assert [row][..0] == [] && TotalWeight([row]) == Weight(row);
    assert [row][0] == row;
    assert kind != Delete ==> NamesMissing(row, rows, Id(2));
    assert kind != Add ==> NamesOld(row, Id(1));
  }

  ghost predicate Named(rows: map<Id, string>, pending: seq<Transition>, id: Id) {
    exists k :: 0 <= k < |pending| && (NamesNew(pending[k], rows, id) || NamesOld(pending[k], id))
  }

  lemma {:induction false} NamedBound(rows: map<Id, string>, pending: seq<Transition>, ids: set<Id>)
    requires UniqueContents(rows)
    requires forall id :: id in ids ==> Named(rows, pending, id)
    ensures |ids| <= TotalWeight(pending)
  {
    if pending == [] {
      assert forall id :: id in ids ==> !Named(rows, pending, id);
      assert ids == {};
    } else {
      var rest, row := pending[..|pending| - 1], pending[|pending| - 1];
      var explained := set id | id in ids && (NamesNew(row, rows, id) || NamesOld(row, id));
      forall id | id in ids - explained
        ensures Named(rows, rest, id)
      {
        var k :| 0 <= k < |pending| && (NamesNew(pending[k], rows, id) || NamesOld(pending[k], id));
        assert rest[k] == pending[k];
      }
      NamedBound(rows, rest, ids - explained);
      RowBound(rows, row, explained);
      UnionBound(ids - explained, explained);
      assert ids == (ids - explained) + explained;
    }
  }

  lemma RowBound(rows: map<Id, string>, row: Transition, ids: set<Id>)
    requires UniqueContents(rows)
    requires forall id :: id in ids ==> NamesNew(row, rows, id) || NamesOld(row, id)
    ensures |ids| <= Weight(row)
  {
    var fromOld := ids * {row.oldId};
    var fromNew := ids - {row.oldId};
    AtMostOne(fromOld);
    AtMostOne(fromNew);
    UnionBound(fromOld, fromNew);
    assert ids == fromOld + fromNew;
    if row.kind == Add {
      AtMostOne(ids);
    } else if row.kind == Delete {
      assert ids == fromOld;
    }
  }

  lemma UnionBound(a: set<Id>, b: set<Id>)
    ensures |a + b| <= |a| + |b|
  {
    assert a + b == a + (b - a);
    assert |b - a| + |a * b| == |b| by { assert b == (b - a) + (a * b); }
  }

  lemma AtMostOne(s: set<Id>)
    requires forall i, j :: i in s && j in s ==> i == j
    ensures |s| <= 1
  {
    if s != {} {
      var i :| i in s;
      assert s == {i};
    }
  }

  // ----- Missing index -------------------------------------------------------------

  datatype Snapshot = Snapshot(
    workspace: string, rows: map<Id, string>, pending: seq<Transition>,
    unrecognised: nat, foreign: nat)

  /** Every row is a pending first ADD: nothing else may hide behind a missing file. */
  ghost predicate FirstAddsOnly(s: Snapshot) {
    && s.rows != map[]
    && s.unrecognised == 0 && s.foreign == 0
    && s.pending != []
    && (forall k :: 0 <= k < |s.pending| ==> s.pending[k].kind == Add)
    && (forall id :: id in s.rows ==>
          exists k :: 0 <= k < |s.pending| && Authorises(s.pending[k], s.workspace) &&
                      s.pending[k].newContent == s.rows[id])
  }

  method CanBootstrapMissingIndex(s: Snapshot) returns (ok: bool)
    requires UniqueContents(s.rows)
    ensures ok <==> FirstAddsOnly(s)
  {
    if s.rows == map[] || s.unrecognised != 0 || s.foreign != 0 || s.pending == [] {
      return false;
    }
    for k := 0 to |s.pending|
      invariant forall j :: 0 <= j < k ==> s.pending[j].kind == Add
    {
      if s.pending[k].kind != Add {
        return false;
      }
    }
    var report := EvaluateIndexIntegrity(s.workspace, s.rows, {}, s.pending);
    ok := report.IsConsistent();
    AccountedFirstAdds(s);
  }

  lemma AccountedFirstAdds(s: Snapshot)
    requires s.rows != map[] && s.unrecognised == 0 && s.foreign == 0 && s.pending != []
    requires forall k :: 0 <= k < |s.pending| ==> s.pending[k].kind == Add
    ensures Accounted(s.workspace, s.rows, {}, s.pending) <==> FirstAddsOnly(s)
  {
    if Accounted(s.workspace, s.rows, {}, s.pending) {
      forall id | id in s.rows
        ensures exists k :: 0 <= k < |s.pending| && Authorises(s.pending[k], s.workspace) &&
                            s.pending[k].newContent == s.rows[id]
      {
        assert MissingAllowed(s.workspace, s.rows, s.pending, id);
        var k :| 0 <= k < |s.pending| && Authorises(s.pending[k], s.workspace) && NamesMissing(s.pending[k], s.rows, id);
      }
    }
    if FirstAddsOnly(s) {
      forall id | id in s.rows
        ensures MissingAllowed(s.workspace, s.rows, s.pending, id)
      {
        var k :| 0 <= k < |s.pending| && Authorises(s.pending[k], s.workspace) && s.pending[k].newContent == s.rows[id];
        assert NamesMissing(s.pending[k], s.rows, id);
      }
    }
  }
}
