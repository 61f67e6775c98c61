/** The meaning of the tombstone index (reflectlog/infrastructure/tantivy_engine.py):
    documents form a multiset, a text is visible iff its live copies outnumber its
    tombstones, and every write is a step on the committed documents. */
module Tombstones {

  datatype Doc = Doc(workspace: string, content: string, deleted: bool)

  function Live(docs: seq<Doc>, w: string, c: string): nat {
    multiset(docs)[Doc(w, c, false)]
  }

  function Tomb(docs: seq<Doc>, w: string, c: string): nat {
    multiset(docs)[Doc(w, c, true)]
  }

  /** `needed` in the delete paths, `surplus` in compaction. */
  function Surplus(docs: seq<Doc>, w: string, c: string): int {
    Live(docs, w, c) as int - Tomb(docs, w, c) as int
  }

  function Texts(contents: seq<string>): set<string> {
    set c | c in contents
  }

  function Copies(surplus: int): nat {
    if surplus > 0 then surplus else 0
  }

  predicate Visible(docs: seq<Doc>, w: string, c: string) {
    Surplus(docs, w, c) > 0
  }

  function VisibleSet(docs: seq<Doc>, w: string): set<string> {
    set d | d in docs && d.workspace == w && Visible(docs, w, d.content) :: d.content
  }

  lemma InVisibleSet(docs: seq<Doc>, w: string, c: string)
    ensures c in VisibleSet(docs, w) <==> Visible(docs, w, c)
  {
    if Visible(docs, w, c) {
      assert Doc(w, c, false) in multiset(docs);
      assert Doc(w, c, false) in docs;
    }
  }

  /** Tombstones never outnumber live copies. */
  ghost predicate Balanced(docs: seq<Doc>) {
    forall w, c :: Surplus(docs, w, c) >= 0
  }

  // ----- Writes ----------------------------------------------------------------------

  function LiveDocs(w: string, contents: seq<string>): seq<Doc> {
    if contents == [] then []
    else LiveDocs(w, contents[..|contents| - 1]) + [Doc(w, contents[|contents| - 1], false)]
  }

  function TombstoneDocs(w: string, c: string, n: nat): seq<Doc> {
    if n == 0 then [] else TombstoneDocs(w, c, n - 1) + [Doc(w, c, true)]
  }

  /** Plant one tombstone per surplus copy counted in the reader's `snapshot`. */
  function SoftDelete(docs: seq<Doc>, snapshot: seq<Doc>, w: string, c: string): seq<Doc> {
    docs + TombstoneDocs(w, c, Copies(Surplus(snapshot, w, c)))
  }

  function SoftDeleteAll(docs: seq<Doc>, snapshot: seq<Doc>, w: string, unique: seq<string>): seq<Doc> {
    if unique == [] then docs
    else
      SoftDelete(SoftDeleteAll(docs, snapshot, w, unique[..|unique| - 1]), snapshot, w, unique[|unique| - 1])
  }

  /** How many of the texts are visible in the snapshot. */
  function VisibleCount(snapshot: seq<Doc>, w: string, unique: seq<string>): nat {
    if unique == [] then 0
    else
      VisibleCount(snapshot, w, unique[..|unique| - 1]) + if Visible(snapshot, w, unique[|unique| - 1]) then 1 else 0
  }

  /** The documents that survive a rewrite which drops `(w, c)` when `drop` is set. */
  ghost predicate IsRewrite(docs: seq<Doc>, drop: bool, w: string, c: string, out: seq<Doc>) {
    forall d: Doc :: multiset(out)[d] ==
      if d.deleted || (drop && d.workspace == w && d.content == c) then 0
      else Copies(Surplus(docs, d.workspace, d.content))
  }

  ghost predicate IsCompaction(docs: seq<Doc>, out: seq<Doc>) {
    IsRewrite(docs, false, "", "", out)
  }

  // ----- Counting lemmas --------------------------------------------------------------

  lemma {:induction false} TombstoneCount(w: string, c: string, n: nat)
    ensures forall d :: multiset(TombstoneDocs(w, c, n))[d] == if d == Doc(w, c, true) then n else 0
  {
    if n > 0 {
      TombstoneCount(w, c, n - 1);
    }
  }

  function Occurrences(contents: seq<string>, c: string): nat {
    multiset(contents)[c]
  }

  lemma {:induction false} LiveDocsCount(w: string, contents: seq<string>)
    ensures forall d :: multiset(LiveDocs(w, contents))[d] ==
              if d.workspace == w && !d.deleted then Occurrences(contents, d.content) else 0
  {
    if contents != [] {
      var rest := contents[..|contents| - 1];
      LiveDocsCount(w, rest);
      assert contents == rest + [contents[|contents| - 1]];
    }
  }

  lemma SoftDeleteCounts(docs: seq<Doc>, snapshot: seq<Doc>, w: string, c: string)
    ensures forall d :: multiset(SoftDelete(docs, snapshot, w, c))[d] ==
              multiset(docs)[d] + if d == Doc(w, c, true) then Copies(Surplus(snapshot, w, c)) else 0
  {
    TombstoneCount(w, c, Copies(Surplus(snapshot, w, c)));
  }

  lemma {:induction false} SoftDeleteAllCounts(docs: seq<Doc>, snapshot: seq<Doc>, w: string, unique: seq<string>)
    requires forall i, j :: 0 <= i < j < |unique| ==> unique[i] != unique[j]
    ensures forall d :: multiset(SoftDeleteAll(docs, snapshot, w, unique))[d] ==
              multiset(docs)[d] +
              if d.workspace == w && d.deleted && d.content in unique then Copies(Surplus(snapshot, w, d.content)) else 0
  {
    if unique != [] {
      var rest, last := unique[..|unique| - 1], unique[|unique| - 1];
      SoftDeleteAllCounts(docs, snapshot, w, rest);
      SoftDeleteCounts(SoftDeleteAll(docs, snapshot, w, rest), snapshot, w, last);
      assert forall x :: x in unique <==> x in rest || x == last;
    }
  }

  // ----- Steps --------------------------------------------------------------------------

  datatype Op =
    | AddOp(w: string, contents: seq<string>)
    | DeleteOp(w: string, unique: seq<string>)
    | RebuildDeleteOp(w: string, c: string)
    | CompactOp

  /** One committed write by a fresh reader; `answer` counts the texts found and deleted. */
  ghost predicate Step(docs: seq<Doc>, op: Op, docs': seq<Doc>, answer: nat) {
    match op
    case AddOp(w, contents) => docs' == docs + LiveDocs(w, contents) && answer == 0
    case DeleteOp(w, unique) =>
      && (forall i, j :: 0 <= i < j < |unique| ==> unique[i] != unique[j])
      && docs' == SoftDeleteAll(docs, docs, w, unique)
      && answer == VisibleCount(docs, w, unique)
    case RebuildDeleteOp(w, c) =>
      if Visible(docs, w, c) then IsRewrite(docs, true, w, c, docs') && answer == 1
      else docs' == docs && answer == 0
    case CompactOp => IsCompaction(docs, docs') && answer == 0
  }

  /** The plain set a step stands for. */
  function SetStep(s: set<string>, op: Op, w: string): set<string> {
    match op
    case AddOp(v, contents) => if v == w then s + Texts(contents) else s
    case DeleteOp(v, unique) => if v == w then s - Texts(unique) else s
    case RebuildDeleteOp(v, c) => if v == w then s - {c} else s
    case CompactOp => s
  }

  lemma VisibleSets(docs: seq<Doc>, w: string, s: set<string>)
    requires forall c :: c in s <==> Visible(docs, w, c)
    ensures VisibleSet(docs, w) == s
  {
    forall c
      ensures c in VisibleSet(docs, w) <==> c in s
    {
      InVisibleSet(docs, w, c);
    }
  }

  /** Every write acts on the visible texts as it would on a plain set, in every
      workspace, and keeps tombstones from outnumbering live copies. */
  lemma StepRefines(docs: seq<Doc>, op: Op, docs': seq<Doc>, answer: nat, w: string)
    requires Balanced(docs) && Step(docs, op, docs', answer)
    ensures Balanced(docs')
    ensures VisibleSet(docs', w) == SetStep(VisibleSet(docs, w), op, w)
  {
    match op {
      case AddOp(v, contents) =>
        LiveDocsCount(v, contents);
        assert forall c :: c in contents <==> Occurrences(contents, c) > 0;
      case DeleteOp(v, unique) =>
        SoftDeleteAllCounts(docs, docs, v, unique);
      case RebuildDeleteOp(v, c) =>
      case CompactOp =>
    }
    forall v, c
      ensures Surplus(docs', v, c) >= 0
      ensures Visible(docs', v, c) <==> c in SetStep(VisibleSet(docs, v), op, v)
    {
      assert Surplus(docs, v, c) >= 0;
      InVisibleSet(docs, v, c);
    }
    VisibleSets(docs', w, SetStep(VisibleSet(docs, w), op, w));
  }

  lemma OneMoreText(rest: seq<string>, last: string, s: set<string>)
    requires last !in rest
    ensures |Texts(rest + [last]) * s| == |Texts(rest) * s| + if last in s then 1 else 0
  {
    var before, after := Texts(rest) * s, Texts(rest + [last]) * s;
    if last in s {
      assert after == before + {last};
    } else {
      assert after == before;
    }
  }

  /** The answer counts the requested texts that were in the set. */
  lemma {:induction false} AnswerExact(docs: seq<Doc>, w: string, unique: seq<string>)
    requires forall i, j :: 0 <= i < j < |unique| ==> unique[i] != unique[j]
    ensures VisibleCount(docs, w, unique) == |Texts(unique) * VisibleSet(docs, w)|
  {
    if unique == [] {
      assert Texts(unique) * VisibleSet(docs, w) == {};
    } else {
      var rest, last := unique[..|unique| - 1], unique[|unique| - 1];
      AnswerExact(docs, w, rest);
      InVisibleSet(docs, w, last);
      assert unique == rest + [last] && last !in rest;
      OneMoreText(rest, last, VisibleSet(docs, w));
    }
  }

  // ----- Runs ------------------------------------------------------------------------------

  datatype Event = Event(op: Op, docs: seq<Doc>, answer: nat)

  function Last(run: seq<Event>): seq<Doc> {
    if run == [] then [] else run[|run| - 1].docs
  }

  /** Committed writes by fresh readers, starting from an empty index. */
  ghost predicate IsRun(run: seq<Event>) {
    run == [] ||
    (var rest, e := run[..|run| - 1], run[|run| - 1];
     IsRun(rest) && Step(Last(rest), e.op, e.docs, e.answer))
  }

  function SetRun(run: seq<Event>, w: string): set<string> {
    if run == [] then {} else SetStep(SetRun(run[..|run| - 1], w), run[|run| - 1].op, w)
  }

  /** The index is a set: after any run the visible texts of a workspace are exactly
      those added and not since deleted, and each delete answered how many of its
      texts the set held. */
  lemma {:induction false} RunRefinesSet(run: seq<Event>, w: string)
    requires IsRun(run)
    ensures Balanced(Last(run))
    ensures VisibleSet(Last(run), w) == SetRun(run, w)
    ensures run != [] && run[|run| - 1].op.DeleteOp? ==>
              var e := run[|run| - 1];
              e.answer == |Texts(e.op.unique) * SetRun(run[..|run| - 1], e.op.w)|
  {
    if run == [] {
      VisibleSets([], w, {});
    } else {
      var rest, e := run[..|run| - 1], run[|run| - 1];
      RunRefinesSet(rest, w);
      StepRefines(Last(rest), e.op, e.docs, e.answer, w);
      if e.op.DeleteOp? {
        RunRefinesSet(rest, e.op.w);
        AnswerExact(Last(rest), e.op.w, e.op.unique);
      }
    }
  }

  // ----- Two ways to delete, and compaction ---------------------------------------------------

  /** Soft delete then compaction leaves the same documents as the hard-delete rebuild
      (or, when the text is absent, as compaction alone). */
  lemma DeletesAgree(docs: seq<Doc>, w: string, c: string, soft: seq<Doc>, hard: seq<Doc>)
    requires IsCompaction(SoftDelete(docs, docs, w, c), soft)
    requires if Visible(docs, w, c) then IsRewrite(docs, true, w, c, hard) else IsCompaction(docs, hard)
    ensures multiset(soft) == multiset(hard)
  {
    SoftDeleteCounts(docs, docs, w, c);
    forall d: Doc
      ensures multiset(soft)[d] == multiset(hard)[d]
    {
      var after := SoftDelete(docs, docs, w, c);
      assert Surplus(after, d.workspace, d.content) ==
             Surplus(docs, d.workspace, d.content) -
             if d.workspace == w && d.content == c then Copies(Surplus(docs, w, c)) else 0;
    }
  }

  /** Compaction keeps every visible text visible, leaves no tombstone, and a second
      compaction changes nothing. */
  lemma CompactionKeepsMeaning(docs: seq<Doc>, out: seq<Doc>, again: seq<Doc>, w: string)
    requires IsCompaction(docs, out) && IsCompaction(out, again)
    ensures VisibleSet(out, w) == VisibleSet(docs, w)
    ensures forall v, c :: Tomb(out, v, c) == 0 && Live(out, v, c) == Copies(Surplus(docs, v, c))
    ensures multiset(again) == multiset(out)
  {
    forall c
      ensures c in VisibleSet(docs, w) <==> Visible(out, w, c)
    {
      InVisibleSet(docs, w, c);
    }
    VisibleSets(out, w, VisibleSet(docs, w));
  }

  /** A delete through a reader that may be behind the committed documents: the text
      disappears, and tombstones stay within bounds, exactly when the reader sees the
      same surplus as the committed documents (an absent text counts as zero). */
  lemma StaleDeleteExact(docs: seq<Doc>, snapshot: seq<Doc>, w: string, c: string)
    requires Balanced(docs)
    ensures var after := SoftDelete(docs, snapshot, w, c);
            && (!Visible(after, w, c) <==> Copies(Surplus(snapshot, w, c)) >= Surplus(docs, w, c))
            && (Balanced(after) <==> Copies(Surplus(snapshot, w, c)) <= Surplus(docs, w, c))
            && (!Visible(after, w, c) && Balanced(after) <==> Copies(Surplus(snapshot, w, c)) == Surplus(docs, w, c))
  {
    var after := SoftDelete(docs, snapshot, w, c);
    SoftDeleteCounts(docs, snapshot, w, c);
    assert Surplus(after, w, c) == Surplus(docs, w, c) - Copies(Surplus(snapshot, w, c));
    if Surplus(after, w, c) >= 0 {
      forall v, x
        ensures Surplus(after, v, x) >= 0
      {
        assert Surplus(docs, v, x) >= 0;
      }
    }
  }

  /** A reader one deletion behind plants a second tombstone, and the next add of the
      text stays invisible. */
  lemma StaleDeleteHidesReAdd()
    ensures exists docs, snapshot, w, c ::
              Balanced(docs) && !Visible(docs, w, c) &&
              !Visible(SoftDelete(docs, snapshot, w, c) + LiveDocs(w, [c]), w, c)
  {
    var w, c := "w", "c";
    var snapshot := [Doc(w, c, false)];
    var docs := [Doc(w, c, false), Doc(w, c, true)];
    var after := SoftDelete(docs, snapshot, w, c);
    SoftDeleteCounts(docs, snapshot, w, c);
    LiveDocsCount(w, [c]);
    assert Live(after + LiveDocs(w, [c]), w, c) == 2 && Tomb(after + LiveDocs(w, [c]), w, c) == 2;
  }

  // ----- Rewriting through a stale reader ------------------------------------------------------------

  /** The texts are gone from their workspace and nothing else changed. */
  ghost predicate Gone(docs: seq<Doc>, w: string, texts: set<string>, out: seq<Doc>) {
    forall v, x :: Visible(out, v, x) <==> Visible(docs, v, x) && !(v == w && x in texts)
  }

  /** Apart from the texts, a reader of `a` and a reader of `b` see the same. */
  ghost predicate SameOutside(a: seq<Doc>, b: seq<Doc>, w: string, texts: set<string>) {
    forall v, x :: !(v == w && x in texts) ==> (Visible(a, v, x) <==> Visible(b, v, x))
  }

  /** A hard delete that rewrites the reader's snapshot removes exactly the text from the
      committed index if and only if the snapshot is up to date on every other text. */
  lemma StaleRebuildExact(docs: seq<Doc>, snapshot: seq<Doc>, w: string, c: string, out: seq<Doc>)
    requires IsRewrite(snapshot, true, w, c, out)
    ensures Gone(snapshot, w, {c}, out)
    ensures Gone(docs, w, {c}, out) <==> SameOutside(snapshot, docs, w, {c})
  {
    forall v, x
      ensures Visible(out, v, x) <==> Visible(snapshot, v, x) && !(v == w && x in {c})
    {
      assert Live(out, v, x) == if v == w && x == c then 0 else Copies(Surplus(snapshot, v, x));
      assert Tomb(out, v, x) == 0;
    }
    StaleBatchExact(docs, snapshot, w, {c}, out);
  }

  /** The same down to the number of copies: the rewrite is the one of the committed
      documents if and only if the snapshot has the committed surplus of every other text. */
  lemma StaleRebuildCopies(docs: seq<Doc>, snapshot: seq<Doc>, w: string, c: string, out: seq<Doc>)
    requires IsRewrite(snapshot, true, w, c, out)
    ensures IsRewrite(docs, true, w, c, out) <==>
            forall v, x :: !(v == w && x == c) ==> Copies(Surplus(snapshot, v, x)) == Copies(Surplus(docs, v, x))
  {
    if IsRewrite(docs, true, w, c, out) {
      forall v, x | !(v == w && x == c)
        ensures Copies(Surplus(snapshot, v, x)) == Copies(Surplus(docs, v, x))
      {
        assert multiset(out)[Doc(v, x, false)] == Copies(Surplus(docs, v, x));
        assert multiset(out)[Doc(v, x, false)] == Copies(Surplus(snapshot, v, x));
      }
    }
  }

  /** A batch of such rewrites, each of what the one before left. */
  lemma StaleBatchExact(docs: seq<Doc>, snapshot: seq<Doc>, w: string, texts: set<string>, out: seq<Doc>)
    requires Gone(snapshot, w, texts, out)
    ensures Gone(docs, w, texts, out) <==> SameOutside(snapshot, docs, w, texts)
  {
    if Gone(docs, w, texts, out) {
      forall v, x | !(v == w && x in texts)
        ensures Visible(snapshot, v, x) <==> Visible(docs, v, x)
      {
        assert Visible(out, v, x) <==> Visible(snapshot, v, x);
      }
    }
  }

  /** A reader that has not seen the add of `b` deletes `a`, and `b` is lost. */
  lemma StaleRebuildLoses()
    ensures exists docs, snapshot, w, c, out, b ::
              IsRewrite(snapshot, true, w, c, out) && b != c && Visible(docs, w, b) && !Visible(out, w, b)
  {
    var w, a, b := "w", "a", "b";
    var snapshot := [Doc(w, a, false)];
    var docs := [Doc(w, a, false), Doc(w, b, false)];
    forall d: Doc
      ensures multiset([])[d] ==
              if d.deleted || (d.workspace == w && d.content == a) then 0 else Copies(Surplus(snapshot, d.workspace, d.content))
    {
      assert !(d.workspace == w && d.content == a) ==> Live(snapshot, d.workspace, d.content) == 0;
    }
    assert IsRewrite(snapshot, true, w, a, []);
    assert Live(docs, w, b) == 1 && Tomb(docs, w, b) == 0;
    assert b != a && Visible(docs, w, b) && !Visible([], w, b);
  }
}
