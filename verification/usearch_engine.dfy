/** The engine itself (usearch_engine.py): lazy open with verification, reload of a
    newer file, atomic publish, and add / add_batch / delete with rollback.

    Failures of the embedder and of the index are parameters. Every method runs
    under the workspace lease its caller holds. Vectors are lists of numbers of
    which only emptiness matters here. */
module USearchEngine {
  import opened Common
  import opened IndexIntegrity
  import opened MemoryStore
  import opened CrashRecovery
  import opened IndexPublication

  type Vector = seq<real>

  /** Where a publish raises, if it does: before the live file is replaced, or after. */
  datatype PublishFault = NoFault | Before | After

  datatype Outcome = Success | InitializationError | RuntimeError | StaleRefused

  class LiveFile {
    var live: Option<IndexFile>
    var published: nat

    constructor ()
      ensures live == None && published == 0
    {
      live, published := None, 0;
    }
  }

  class Engine {
    const store: Store
    const file: LiveFile
    var index: Option<set<Id>>
    var dirty: bool
    var seen: Option<nat>
    var unpublishedBootstrap: bool
    /** The engine's own additions and removals since it last agreed with the file. */
    ghost var own: Delta

    constructor (store: Store, file: LiveFile)
      requires store.Valid() && (file.live.Some? ==> file.live.value.version <= file.published)
      requires forall id :: id in (if file.live.Some? then file.live.value.keys else {}) ==> id.n < store.nextId
      ensures this.store == store && this.file == file && index == None && !dirty && Valid()
    {
      this.store, this.file := store, file;
      index, dirty, seen, unpublishedBootstrap, own := None, false, None, false, NoDelta;
    }

    function FileKeys(): set<Id>
      reads this, file
    {
      if file.live.Some? then file.live.value.keys else {}
    }

    function FileIdentity(): Option<nat>
      reads this, file
    {
      if file.live.Some? then Some(file.live.value.version) else None
    }

    ghost predicate Valid()
      reads this, store, file
    {
      && store.Valid()
      && (file.live.Some? ==> file.live.value.version <= file.published)
      && (forall id :: id in FileKeys() ==> id.n < store.nextId)
      && (dirty ==> index.Some?)
      && (index.Some? ==>
            && (forall id :: id in index.value ==> id.n < store.nextId)
            && (seen.Some? ==> file.live.Some? && seen.value <= file.published)
            && (!dirty ==> own == NoDelta)
            && own.added !! own.removed
            && (seen == FileIdentity() ==> index.value == Apply(FileKeys(), own)))
    }

    /** The vectors an operation starts from, once opened and refreshed. */
    function BaseKeys(): set<Id>
      reads this, file
    {
      if index.None? then FileKeys()
      else if dirty || file.live.None? || FileIdentity() == seen then index.value
      else FileKeys()
    }

    /** The file can be opened, or a clean engine already holds what is on disk. */
    ghost predicate Openable()
      reads this, store, file
    {
      if index.None? then
        if file.live.Some? then CandidateAccepted(store.Value(), FileKeys())
        else store.rows == map[] || BootstrapAllowed(store.Value())
      else dirty || file.live.None? || FileIdentity() == seen || CandidateAccepted(store.Value(), FileKeys())
    }

    /** SQLite ids equal index keys. */
    ghost predicate InStep()
      reads this, store, file
    {
      store.rows.Keys == BaseKeys()
    }

    // ----- Opening and publishing --------------------------------------------------

    /** `_reject_populated_hnsw_without_db`, then the drift check. */
    method VerifyCandidate(keys: set<Id>) returns (ok: bool)
      requires store.Valid()
      ensures ok <==> CandidateAccepted(store.Value(), keys)
    {
      if keys == {} {
        return store.rows == map[];
      }
      if store.rows == map[] {
        return false;
      }
      var report := EvaluateIndexIntegrity(store.workspace, store.rows, keys, store.journal);
      return report.IsConsistent();
    }

    method EnsureOpen() returns (r: Outcome)
      requires Valid()
      modifies this
      ensures Valid() && BaseKeys() == old(BaseKeys())
      ensures r == Success || r == InitializationError
      ensures r == Success <==>
              old(index.Some?) ||
              (if file.live.Some? then CandidateAccepted(store.Value(), FileKeys())
               else store.rows == map[] || BootstrapAllowed(store.Value()))
      ensures r == Success ==> index.Some? && (old(index.Some?) ==> index == old(index) && dirty == old(dirty) && seen == old(seen))
      ensures r == Success && old(index.None?) ==> index == Some(FileKeys()) && !dirty && seen == FileIdentity()
      ensures r == Success && old(index.None?) && file.live.None? && store.rows != map[] ==> unpublishedBootstrap
      ensures r != Success ==> index.None? && dirty == old(dirty) && unpublishedBootstrap == old(unpublishedBootstrap)
    {
      if index.Some? {
        return Success;
      }
      if file.live.Some? {
        var ok := VerifyCandidate(file.live.value.keys);
        if !ok {
          return InitializationError;
        }
        index := Some(file.live.value.keys);
      } else {
        if store.rows != map[] {
          var ok := CanBootstrapMissingIndex(
            Snapshot(store.workspace, store.rows, PendingRows(store.journal), 0, 0));
          if !ok {
            return InitializationError;
          }
          unpublishedBootstrap := true;
        }
        index := Some({});
      }
      dirty, seen, own := false, FileIdentity(), NoDelta;
      return Success;
    }

    method MaybeReload(refuseStale: bool) returns (r: Outcome)
      requires Valid() && index.Some?
      modifies this
      ensures Valid() && index.Some? && dirty == old(dirty) && BaseKeys() == old(BaseKeys())
      ensures r == StaleRefused <==> refuseStale && old(dirty) && file.live.Some? && FileIdentity() != old(seen)
      ensures r == InitializationError <==>
              !old(dirty) && file.live.Some? && FileIdentity() != old(seen) && !CandidateAccepted(store.Value(), FileKeys())
      ensures r == Success || r == StaleRefused || r == InitializationError
      ensures r == Success ==> index.value == BaseKeys() && (dirty || FileIdentity() == seen || file.live.None?)
      ensures r != Success || old(dirty) ==> unchanged(this)
    {
      if dirty {
        if refuseStale && file.live.Some? && FileIdentity() != seen {
          return StaleRefused;
        }
        return Success;
      }
      if file.live.None? || FileIdentity() == seen {
        return Success;
      }
      var ok := VerifyCandidate(file.live.value.keys);
      if !ok {
        return InitializationError;
      }
      index, unpublishedBootstrap, seen, own := Some(file.live.value.keys), false, FileIdentity(), NoDelta;
      return Success;
    }

    /** Save, validate and fsync a temp file, then replace. An error before the replace leaves
        the live file alone; after one behind it, the file has the vectors, and the engine
        is dirty and has not seen its own file. */
    method PublishIndex(fault: PublishFault) returns (r: Outcome)
      requires Valid() && index.Some? && dirty && (file.live.None? || FileIdentity() == seen)
      modifies this, file
      ensures Valid() && index == old(index)
      ensures fault.Before? ==> r == RuntimeError && unchanged(this) && unchanged(file)
      ensures !fault.Before? ==>
                && file.live == Some(IndexFile(index.value, old(file.published) + 1))
                && file.published == old(file.published) + 1 && !unpublishedBootstrap
      ensures fault.After? ==> r == RuntimeError && dirty && own == old(own) && seen == old(seen) && seen != FileIdentity()
      ensures fault.NoFault? ==> r == Success && !dirty && seen == FileIdentity()
    {
      if fault.Before? {
        return RuntimeError;
      }
      var version := file.published + 1;
      file.live, file.published := Some(IndexFile(index.value, version)), version;
      unpublishedBootstrap := false;
      if fault.After? {
        return RuntimeError;
      }
      dirty, seen, own := false, Some(version), NoDelta;
      return Success;
    }

    /** A commit that gets to the file writes the current file plus this engine's own
        additions minus its own removals, even if it then raises; a stale engine is refused
        and nothing changes. */
    method Commit(fault: PublishFault) returns (r: Outcome)
      requires Valid()
      modifies this, file
      ensures Valid()
      ensures !old(dirty) ==> r == Success && unchanged(file) && index == old(index)
      ensures old(dirty) && old(file.live.Some?) && old(FileIdentity()) != old(seen) ==>
                r == StaleRefused && unchanged(this) && unchanged(file)
      ensures old(dirty) && (old(file.live.None?) || old(FileIdentity()) == old(seen)) ==>
                match fault
                case Before => r == RuntimeError && unchanged(this) && unchanged(file)
                case After =>
                  && r == RuntimeError && dirty && index == old(index) && FileKeys() == Apply(old(FileKeys()), old(own))
                  && file.live.Some? && seen != FileIdentity()
                case NoFault => r == Success && !dirty && index == old(index) && FileKeys() == Apply(old(FileKeys()), old(own))
    {
      if index.None? || !dirty {
        return Success;
      }
      r := MaybeReload(true);
      if r != Success {
        return;
      }
      r := PublishIndex(fault);
    }

    // ----- Add ---------------------------------------------------------------------

    method Add(content: string, embedded: Option<seq<Vector>>, indexFails: bool) returns (r: Outcome)
      requires Valid()
      modifies this, store
      ensures Valid() && r != StaleRefused
      ensures r == Success <==>
              || old(HasContent(store.Value(), content))
              || (embedded.Some? && |embedded.value| == 1 && embedded.value[0] != [] && old(Openable()) && !indexFails)
      ensures r == InitializationError <==>
              && !old(HasContent(store.Value(), content))
              && embedded.Some? && |embedded.value| == 1 && embedded.value[0] != [] && !old(Openable())
      ensures old(InStep()) ==> InStep()
      ensures r != Success ==> store.rows == old(store.rows) && BaseKeys() == old(BaseKeys())
      ensures r == Success ==> HasContent(store.Value(), content)
      ensures store.journal == old(store.journal)
      ensures old(HasContent(store.Value(), content)) ==>
                r == Success && store.rows == old(store.rows) && BaseKeys() == old(BaseKeys())
      ensures r == Success && !old(HasContent(store.Value(), content)) ==>
                var id := Id(old(store.nextId));
                store.Value() == InsertRow(old(store.Value()), content) && BaseKeys() == old(BaseKeys()) + {id} && dirty
    {
      ValuesHaveContent(store.Value(), content);
      if content in store.rows.Values {
        return Success;
      }
      assert !HasContent(store.Value(), content);
      if embedded.None? || |embedded.value| != 1 || embedded.value[0] == [] {
        return RuntimeError;
      }
      r := EnsureOpen();
      if r != Success {
        return;
      }
      r := MaybeReload(false);
      if r != Success {
        return;
      }
      r := AddUnlocked(content, embedded.value[0], indexFails);
    }

    method AddUnlocked(content: string, vector: Vector, indexFails: bool) returns (r: Outcome)
      requires Valid() && index.Some? && index.value == BaseKeys()
      modifies this, store
      ensures Valid() && index.Some? && index.value == BaseKeys()
      ensures r == Success || r == RuntimeError
      ensures store.journal == old(store.journal)
      ensures old(HasContent(store.Value(), content)) ==>
                r == Success && unchanged(this) && store.Value() == old(store.Value())
      ensures r == Success ==> HasContent(store.Value(), content)
      ensures !old(HasContent(store.Value(), content)) ==>
                (r == Success <==> vector != [] && !indexFails) && store.nextId == old(store.nextId) + 1
      ensures r != Success ==> store.rows == old(store.rows) && index == old(index) && dirty == old(dirty)
      ensures r == Success && !old(HasContent(store.Value(), content)) ==>
                store.Value() == InsertRow(old(store.Value()), content) &&
                index.value == old(index.value) + {Id(old(store.nextId))} && dirty
    {
      var id := store.Insert(content);
      if id.None? {
        return Success;
      }
      assert store.rows - {id.value} == old(store.rows);
      if vector == [] {
        var _ := store.Delete(id.value);
        return RuntimeError;
      }
      if indexFails {
        var _ := store.Delete(id.value);
        return RuntimeError;
      }
      IndexAdd(id.value);
      dirty := true;
      assert Holds(store.Value(), id.value, content);
      return Success;
    }

    /** `index.add` on a key the index does not hold. */
    method IndexAdd(key: Id)
      requires index.Some? && key !in index.value
      modifies this`index, this`own
      ensures index == Some(old(index.value) + {key})
      ensures own == Delta(old(own).added + {key}, old(own).removed - {key})
    {
      index := Some(index.value + {key});
      own := Delta(own.added + {key}, own.removed - {key});
    }

    method IndexRemove(key: Id)
      requires index.Some? && key in index.value
      modifies this`index, this`own
      ensures index == Some(old(index.value) - {key})
      ensures own == Delta(old(own).added - {key}, old(own).removed + {key})
    {
      index := Some(index.value - {key});
      own := Delta(own.added - {key}, own.removed + {key});
    }

    method Delete(id: Id) returns (r: Outcome)
      requires Valid()
      modifies this, store
      ensures Valid() && (r == Success || r == InitializationError)
      ensures old(InStep()) ==> InStep()
      ensures store.journal == old(store.journal)
      ensures r == Success <==> old(Openable())
      ensures r != Success ==> store.rows == old(store.rows) && BaseKeys() == old(BaseKeys())
      ensures store.nextId == old(store.nextId)
      ensures r == Success ==> store.rows == old(store.rows) - {id} && index == Some(old(BaseKeys()) - {id})
      ensures r == Success && id in old(BaseKeys()) ==> dirty
    {
      r := EnsureOpen();
      if r != Success {
        return;
      }
      r := MaybeReload(false);
      if r != Success {
        return;
      }
      var _ := store.Delete(id);
      if id in index.value {
        IndexRemove(id);
        dirty := true;
      } else {
        assert index.value - {id} == index.value;
      }
    }

    // ----- Batch add -----------------------------------------------------------------

    method AddBatch(contents: seq<string>, vectors: Option<seq<Vector>>, embedded: Option<seq<Vector>>, failAt: nat)
      returns (r: Outcome, added: seq<string>)
      requires Valid()
      modifies this, store
      ensures Valid() && r != StaleRefused
      ensures store.journal == old(store.journal)
      ensures old(InStep()) ==> InStep()
      ensures var p := if vectors.Some? then vectors else if OneEach(contents, embedded) then embedded else None;
              && (r == Success <==>
                    contents == [] || (p.Some? && old(Openable()) && BatchGoesIn(old(store.Value()), contents, p.value, failAt)))
              && (r == InitializationError <==> contents != [] && p.Some? && !old(Openable()))
      ensures r != Success ==> store.rows == old(store.rows) && BaseKeys() == old(BaseKeys()) && added == []
      ensures r == Success && contents == [] ==> store.Value() == old(store.Value()) && added == []
      ensures r == Success && contents != [] ==>
                var (d, inserted) := InsertAll(old(store.Value()), contents);
                store.Value() == d && BaseKeys() == old(BaseKeys()) + Ids(inserted) && added == NewTexts(old(store.Value()), contents)
    {
      added := [];
      if contents == [] {
        return Success, [];
      }
      var prepared := [];
      if vectors.Some? {
        prepared := vectors.value;
      } else {
        if embedded.None? || |embedded.value| != |contents| || [] in embedded.value {
          return RuntimeError, [];
        }
        prepared := embedded.value;
      }
      r := EnsureOpen();
      if r != Success {
        return;
      }
      r := MaybeReload(false);
      if r != Success {
        return;
      }
      InsertAllAdds(store.Value(), contents);
      GoesInExactly(store.Value(), contents, prepared, failAt);
      InsertedTexts(store.Value(), contents);
      r, added := AddBatchUnlocked(contents, prepared, failAt);
    }

    /** All or nothing: any failure leaves rows and vectors as they were. */
    method AddBatchUnlocked(contents: seq<string>, vectors: seq<Vector>, failAt: nat)
      returns (r: Outcome, added: seq<string>)
      requires Valid() && index.Some? && index.value == BaseKeys()
      modifies this, store
      ensures Valid() && index.Some? && index.value == BaseKeys()
      ensures store.journal == old(store.journal)
      ensures var (d, inserted) := InsertAll(old(store.Value()), contents);
              && (r == Success || r == RuntimeError)
              && (r == Success <==> inserted == [] || (Computed(contents, vectors, inserted) && failAt >= |inserted|))
              && (r == Success ==>
                    && store.Value() == d && index.value == old(index.value) + Ids(inserted)
                    && added == Texts(inserted) && (inserted != [] ==> dirty))
      ensures r != Success ==> store.rows == old(store.rows) && index == old(index) && dirty == old(dirty) && added == []
    {
      ghost var db0 := store.Value();
      InsertAllAdds(db0, contents);
      var inserted := store.InsertMany(contents);
      if inserted == [] {
        assert Ids([]) == {} && index.value + {} == index.value;
        return Success, [];
      }
      var ok := IndexOrUndo(db0, contents, vectors, inserted, failAt);
      if !ok {
        return RuntimeError, [];
      }
      return Success, Texts(inserted);
    }

    /** Index the inserted rows, or take rows and vectors back to where they were. */
    method IndexOrUndo(ghost db0: Db, contents: seq<string>, vectors: seq<Vector>, inserted: seq<(string, Id)>, failAt: nat)
      returns (ok: bool)
      requires RowsOk(db0) && (store.Value(), inserted) == InsertAll(db0, contents) && inserted != []
      requires Valid() && index.Some? && index.value == BaseKeys() && forall id :: id in index.value ==> id.n < db0.nextId
      modifies this, store
      ensures Valid() && index.Some? && index.value == BaseKeys() && store.journal == old(store.journal)
      ensures ok <==> Computed(contents, vectors, inserted) && failAt >= |inserted|
      ensures ok ==> store.Value() == old(store.Value()) && index.value == old(index.value) + Ids(inserted) && dirty
      ensures !ok ==> store.rows == db0.rows && index == old(index) && dirty == old(dirty)
    {
      InsertAllAdds(db0, contents);
      NewIdsAreNew(db0, contents, index.value);
      ok := IndexInserted(contents, vectors, inserted, failAt);
      if !ok {
        RollbackRows(db0, contents, inserted);
        return;
      }
      dirty := true;
    }

    /** Index every inserted row, or leave the index as it was. */
    method IndexInserted(contents: seq<string>, vectors: seq<Vector>, inserted: seq<(string, Id)>, failAt: nat)
      returns (ok: bool)
      requires index.Some?
      requires forall i :: 0 <= i < |inserted| ==> inserted[i].1 !in index.value
      requires forall i, j :: 0 <= i < j < |inserted| ==> inserted[i].1 != inserted[j].1
      modifies this`index, this`own
      ensures ok <==> Computed(contents, vectors, inserted) && failAt >= |inserted|
      ensures !ok ==> index == old(index) && own == old(own)
      ensures ok ==> index == Some(old(index.value) + Ids(inserted))
      ensures ok ==> own == Delta(old(own).added + Ids(inserted), old(own).removed - Ids(inserted))
    {
      ghost var own0 := own;
      var usable := HasVectors(contents, vectors, inserted);
      if !usable {
        return false;
      }
      var indexed := IndexVectors(inserted, failAt);
      if indexed < |inserted| {
        RollbackVectors(inserted, indexed, old(index.value));
        own := own0;
        return false;
      }
      assert inserted[..indexed] == inserted;
      return true;
    }

    method RollbackRows(ghost db0: Db, ghost contents: seq<string>, inserted: seq<(string, Id)>)
      requires RowsOk(db0) && store.Valid() && (store.Value(), inserted) == InsertAll(db0, contents)
      modifies store
      ensures store.Valid() && store.rows == db0.rows && store.journal == old(store.journal)
      ensures store.nextId == old(store.nextId)
    {
      var rows0 := store.rows;
      assert Ids(inserted[..0]) == {} && rows0 - {} == rows0;
      for i := 0 to |inserted|
        invariant store.Valid() && store.journal == old(store.journal) && store.nextId == old(store.nextId)
        invariant store.rows == rows0 - Ids(inserted[..i])
      {
        var _ := store.Delete(inserted[i].1);
        assert inserted[..i + 1] == inserted[..i] + [inserted[i]];
        IdsSnoc(inserted[..i], inserted[i]);
      }
      assert inserted[..|inserted|] == inserted;
      InsertedRowsGone(db0, contents);
    }

    method IndexVectors(inserted: seq<(string, Id)>, failAt: nat) returns (indexed: nat)
      requires index.Some?
      requires forall i :: 0 <= i < |inserted| ==> inserted[i].1 !in index.value
      requires forall i, j :: 0 <= i < j < |inserted| ==> inserted[i].1 != inserted[j].1
      modifies this`index, this`own
      ensures indexed == (if failAt < |inserted| then failAt else |inserted|)
      ensures index == Some(old(index.value) + Ids(inserted[..indexed]))
      ensures own.added == old(own.added) + Ids(inserted[..indexed])
      ensures own.removed == old(own.removed) - Ids(inserted[..indexed])
    {
      ghost var base := index.value;
      assert Ids(inserted[..0]) == {} && base + {} == base && own.added + {} == own.added && own.removed - {} == own.removed;
      indexed := 0;
      while indexed < |inserted| && indexed != failAt
        invariant indexed <= |inserted| && indexed <= failAt
        invariant index == Some(base + Ids(inserted[..indexed]))
        invariant own.added == old(own.added) + Ids(inserted[..indexed])
        invariant own.removed == old(own.removed) - Ids(inserted[..indexed])
      {
        var key := inserted[indexed].1;
        assert inserted[..indexed + 1] == inserted[..indexed] + [inserted[indexed]];
        IdsSnoc(inserted[..indexed], inserted[indexed]);
        assert key !in Ids(inserted[..indexed]);
        IndexAdd(key);
        assert index.value == base + Ids(inserted[..indexed + 1]);
        assert own.added == old(own.added) + Ids(inserted[..indexed + 1]);
        assert own.removed == old(own.removed) - Ids(inserted[..indexed + 1]);
        indexed := indexed + 1;
      }
    }

    method RollbackVectors(inserted: seq<(string, Id)>, indexed: nat, ghost base: set<Id>)
      requires indexed <= |inserted|
      requires index == Some(base + Ids(inserted[..indexed]))
      requires forall i :: 0 <= i < |inserted| ==> inserted[i].1 !in base
      requires forall i, j :: 0 <= i < j < |inserted| ==> inserted[i].1 != inserted[j].1
      modifies this`index, this`own
      ensures index == Some(base)
    {
      ghost var all := base + Ids(inserted[..indexed]);
      assert Ids(inserted[..0]) == {} && all - {} == all;
      for i := 0 to indexed
        invariant index == Some(all - Ids(inserted[..i]))
      {
        assert inserted[..i + 1] == inserted[..i] + [inserted[i]];
        IdsSnoc(inserted[..i], inserted[i]);
        assert inserted[..indexed][i] == inserted[i];
        assert inserted[i].1 in all && inserted[i].1 !in Ids(inserted[..i]);
        IndexRemove(inserted[i].1);
        assert index.value == all - Ids(inserted[..i + 1]);
      }
      assert all - Ids(inserted[..indexed]) == base;
    }
  }

  // ----- What the batch methods rely on ------------------------------------------------

  function Texts(inserted: seq<(string, Id)>): seq<string> {
    seq(|inserted|, i requires 0 <= i < |inserted| => inserted[i].0)
  }

  predicate OneEach(contents: seq<string>, embedded: Option<seq<Vector>>) {
    embedded.Some? && |embedded.value| == |contents| && forall v :: v in embedded.value ==> v != []
  }

  /** The texts that have no row yet, each once, in order of first appearance. */
  ghost function NewTexts(db: Db, contents: seq<string>): seq<string> {
    if contents == [] then []
    else
      var rest, last := NewTexts(db, contents[..|contents| - 1]), contents[|contents| - 1];
      if HasContent(db, last) || last in rest then rest else rest + [last]
  }

  lemma {:induction false} NewTextsAre(db: Db, contents: seq<string>)
    ensures forall c :: c in NewTexts(db, contents) <==> c in contents && !HasContent(db, c)
    ensures forall i, j :: 0 <= i < j < |NewTexts(db, contents)| ==> NewTexts(db, contents)[i] != NewTexts(db, contents)[j]
  {
    if contents != [] {
      var init, last := contents[..|contents| - 1], contents[|contents| - 1];
      NewTextsAre(db, init);
      assert forall c :: c in contents <==> c in init || c == last;
    }
  }

  /** The rows inserted are for the new texts, in that order. */
  lemma {:induction false} InsertedTexts(db: Db, contents: seq<string>)
    requires RowsOk(db)
    ensures Texts(InsertAll(db, contents).1) == NewTexts(db, contents)
  {
    if contents != [] {
      var init, last := contents[..|contents| - 1], contents[|contents| - 1];
      InsertedTexts(db, init);
      InsertAllAdds(db, init);
      NewTextsAre(db, init);
      var (d, inserted) := InsertAll(db, init);
      ValuesHaveContent(d, last);
      HasAfter(db, init, last);
    }
  }

  /** After a batch a text has a row exactly if it had one or was in the batch. */
  lemma HasAfter(db: Db, contents: seq<string>, content: string)
    requires RowsOk(db)
    ensures HasContent(InsertAll(db, contents).0, content) <==> HasContent(db, content) || content in contents
  {
    InsertAllAdds(db, contents);
    var (d, inserted) := InsertAll(db, contents);
    if id :| Holds(db, id, content) {
      assert Holds(d, id, content);
    }
    if id :| Holds(d, id, content) {
      if id in db.rows {
        assert Holds(db, id, content);
      } else {
        var p :| p in inserted && p.1 == id;
        var i :| 0 <= i < |inserted| && inserted[i] == p;
        assert inserted[i].0 in contents;
      }
    }
  }

  predicate NotAgain(contents: seq<string>, i: nat)
    requires i < |contents|
  {
    forall k :: i < k < |contents| ==> contents[k] != contents[i]
  }

  /** Each new text has a vector at its last place in the batch, and the index takes them all. */
  ghost predicate BatchGoesIn(db: Db, contents: seq<string>, vectors: seq<Vector>, failAt: nat) {
    var news := NewTexts(db, contents);
    && (news != [] ==> |vectors| == |contents|)
    && (news != [] ==> failAt >= |news|)
    && forall i :: 0 <= i < |contents| && i < |vectors| && contents[i] in news && NotAgain(contents, i) ==>
                     vectors[i] != []
  }

  lemma {:induction false} LastVector(contents: seq<string>, vectors: seq<Vector>, i: nat)
    requires i < |contents| == |vectors| && NotAgain(contents, i)
    ensures VectorFor(contents, vectors, contents[i]) == vectors[i]
  {
    if i < |contents| - 1 {
      assert contents[|contents| - 1] != contents[i];
      LastVector(contents[..|contents| - 1], vectors[..|vectors| - 1], i);
    }
  }

  lemma {:induction false} LastPlace(contents: seq<string>, content: string) returns (i: nat)
    requires content in contents
    ensures i < |contents| && contents[i] == content && NotAgain(contents, i)
  {
    i := |contents| - 1;
    if contents[i] != content {
      i := LastPlace(contents[..i], content);
    }
  }

  /** What the batch code tests row by row, said of the texts and vectors it was given. */
  lemma GoesInExactly(db: Db, contents: seq<string>, vectors: seq<Vector>, failAt: nat)
    requires RowsOk(db)
    ensures var inserted := InsertAll(db, contents).1;
            inserted == [] || (Computed(contents, vectors, inserted) && failAt >= |inserted|) <==>
            BatchGoesIn(db, contents, vectors, failAt)
  {
    var inserted := InsertAll(db, contents).1;
    InsertedTexts(db, contents);
    NewTextsAre(db, contents);
    var news := NewTexts(db, contents);
    assert |news| == |inserted| && forall i :: 0 <= i < |news| ==> news[i] == inserted[i].0;
    if Computed(contents, vectors, inserted) {
      forall i | 0 <= i < |contents| && contents[i] in news && NotAgain(contents, i)
        ensures vectors[i] != []
      {
        LastVector(contents, vectors, i);
        var j :| 0 <= j < |news| && news[j] == contents[i];
        assert inserted[j] in inserted;
      }
    }
    if BatchGoesIn(db, contents, vectors, failAt) && inserted != [] {
      forall p | p in inserted
        ensures VectorFor(contents, vectors, p.0) != []
      {
        var j :| 0 <= j < |inserted| && inserted[j] == p;
        assert news[j] == p.0 && p.0 in news;
        var i := LastPlace(contents, p.0);
        LastVector(contents, vectors, i);
      }
    }
  }

  /** `dict(zip(contents, vectors))`: the last vector given for a text wins. */
  function VectorFor(contents: seq<string>, vectors: seq<Vector>, content: string): Vector
    requires |contents| == |vectors|
  {
    if contents == [] then []
    else if contents[|contents| - 1] == content then vectors[|vectors| - 1]
    else VectorFor(contents[..|contents| - 1], vectors[..|vectors| - 1], content)
  }

  predicate Computed(contents: seq<string>, vectors: seq<Vector>, inserted: seq<(string, Id)>) {
    |contents| == |vectors| && forall p :: p in inserted ==> VectorFor(contents, vectors, p.0) != []
  }

  method HasVectors(contents: seq<string>, vectors: seq<Vector>, inserted: seq<(string, Id)>) returns (ok: bool)
    ensures ok <==> Computed(contents, vectors, inserted)
  {
    if |contents| != |vectors| {
      return false;
    }
    for i := 0 to |inserted|
      invariant forall j :: 0 <= j < i ==> VectorFor(contents, vectors, inserted[j].0) != []
    {
      if VectorFor(contents, vectors, inserted[i].0) == [] {
        return false;
      }
    }
    return true;
  }

  lemma NewIdsAreNew(db: Db, contents: seq<string>, keys: set<Id>)
    requires RowsOk(db) && forall id :: id in keys ==> id.n < db.nextId
    ensures var inserted := InsertAll(db, contents).1;
            && (forall i :: 0 <= i < |inserted| ==> inserted[i].1 !in keys && inserted[i].1 !in db.rows)
            && (forall i, j :: 0 <= i < j < |inserted| ==> inserted[i].1 != inserted[j].1)
            && (forall id :: id in Ids(inserted) ==> db.nextId <= id.n < db.nextId + |inserted|)
  {
    InsertAllAdds(db, contents);
    var inserted := InsertAll(db, contents).1;
    forall id | id in Ids(inserted)
      ensures db.nextId <= id.n < db.nextId + |inserted|
    {
      var p :| p in inserted && p.1 == id;
      var i :| 0 <= i < |inserted| && inserted[i] == p;
    }
  }

  lemma InsertedRowsGone(db: Db, contents: seq<string>)
    requires RowsOk(db)
    ensures var (d, inserted) := InsertAll(db, contents);
            d.rows - Ids(inserted) == db.rows
  {
    InsertAllAdds(db, contents);
    NewIdsAreNew(db, contents, {});
    var (d, inserted) := InsertAll(db, contents);
    var rest := d.rows - Ids(inserted);
    forall id
      ensures id in rest <==> id in db.rows
    {
      if id in Ids(inserted) {
        assert id.n >= db.nextId;
      }
    }
    assert rest.Keys == db.rows.Keys;
  }
}
