/** The full-text engine (reflectlog/infrastructure/tantivy_engine.py) as its methods run
    under a coordinator: every write is finalised before the lease is given back.

    What a read answers depends on the reader's snapshot and on the cached dead texts, so
    every method states what it does to both. */
module TantivyEngine {
  import opened Common
  import opened Tombstones

  /** The index directory and its generation sidecar, shared by every engine. */
  class Directory {
    var committed: seq<Doc>
    var generation: nat

    constructor ()
      ensures committed == [] && generation == 0
    {
      committed, generation := [], 0;
    }
  }

  // ----- Main results on the cache; their notions are below ------------------------------------

  /** In every run of this engine's moves and of writes published by others, from any
      directory: the cache never exceeds its size, no workspace is cached twice, and once
      the engine has looked, every cached set is a full scan of the committed documents. */
  lemma {:induction false} CacheAlwaysCoherent(u: Setup, docs: seq<Doc>, generation: nat, moves: seq<Move>)
    requires u.cacheMax > 0 && Legal(u, View(docs, generation, docs, [], 0), moves)
    ensures var s := After(u, View(docs, generation, docs, [], 0), moves);
            && ViewOk(u, s) && |s.cache| <= u.cacheMax && s.seen <= s.generation
            && (forall i, j :: 0 <= i < j < |s.cache| ==> s.cache[i].workspace != s.cache[j].workspace)
            && (s.seen == s.generation ==>
                  s.reader == s.committed &&
                  forall e, c :: e in s.cache && Tracks(u, e.workspace) ==> (c in e.dead <==> IsDead(s.committed, e.workspace, c)))
  {
    if moves != [] {
      CacheAlwaysCoherent(u, docs, generation, moves[..|moves| - 1]);
      MoveKeeps(u, After(u, View(docs, generation, docs, [], 0), moves[..|moves| - 1]), moves[|moves| - 1]);
    }
  }

  /** An empty workspace id under a configured one: the commit drops the configured
      workspace's entry, and a set cached for the empty id goes on hiding a text that was
      added again. */
  lemma EmptyIdGoesStale()
    ensures exists u, s, docs, dirty, e ::
              && ViewOk(u, s) && s.seen == s.generation && Allowed(u, s, Commit(docs, dirty))
              && docs == s.committed + LiveDocs("", ["x"]) && dirty == {u.configWorkspace}
              && e in Moved(u, s, Commit(docs, dirty)).cache && "x" in e.dead && Visible(docs, e.workspace, "x")
  {
    var u, e := Setup("ws", 1), Cached("", {"x"});
    var before := [Doc("", "x", false), Doc("", "x", true)];
    var s, docs := View(before, 0, before, [e], 0), before + LiveDocs("", ["x"]);
    EmptyIdVisible(before);
    EmptyIdAgrees(before);
    KeepSingle(e, {"ws"});
    assert Moved(u, s, Commit(docs, {"ws"})).cache == [e];
    assert e in [e];
  }

  lemma EmptyIdAgrees(docs: seq<Doc>)
    ensures forall w :: w != "" ==> Agree(docs, docs + LiveDocs("", ["x"]), w)
  {
    LiveDocsCount("", ["x"]);
  }

  lemma EmptyIdVisible(docs: seq<Doc>)
    requires docs == [Doc("", "x", false), Doc("", "x", true)]
    ensures Visible(docs + LiveDocs("", ["x"]), "", "x")
  {
    LiveDocsCount("", ["x"]);
    assert Live(docs + LiveDocs("", ["x"]), "", "x") == 2 && Tomb(docs + LiveDocs("", ["x"]), "", "x") == 1;
  }

  /** A cached set stays right over somebody's write exactly when `LeavesRight` says so. */
  lemma DeadAfter(docs: seq<Doc>, op: Op, docs': seq<Doc>, answer: nat, e: Cached)
    requires IsDeadSet(docs, e.workspace, e.dead) && Step(docs, op, docs', answer)
    ensures IsDeadSet(docs', e.workspace, e.dead) <==> LeavesRight(docs, op, e)
  {
    match op
    case AddOp(v, contents) => DeadAfterAdd(docs, v, contents, e);
    case DeleteOp(v, unique) => DeadAfterDelete(docs, v, unique, e);
    case RebuildDeleteOp(v, c) =>
      if Visible(docs, v, c) {
        DeadAfterRewrite(docs, true, v, c, docs', e);
      }
    case CompactOp => DeadAfterRewrite(docs, false, "", "", docs', e);
  }

  // ----- Scans ---------------------------------------------------------------------------

  function Get<K>(m: map<K, nat>, k: K): nat {
    if k in m then m[k] else 0
  }

  /** The texts whose tombstones are at least as many as their live copies. */
  ghost predicate IsDead(docs: seq<Doc>, w: string, c: string) {
    Tomb(docs, w, c) > 0 && Tomb(docs, w, c) >= Live(docs, w, c)
  }

  ghost predicate IsDeadSet(docs: seq<Doc>, w: string, dead: set<string>) {
    forall c :: c in dead <==> IsDead(docs, w, c)
  }

  lemma Snoc(docs: seq<Doc>, i: nat)
    requires i < |docs|
    ensures multiset(docs[..i + 1]) == multiset(docs[..i]) + multiset{docs[i]}
  {
    assert docs[..i + 1] == docs[..i] + [docs[i]];
  }

  lemma SnocCounts(docs: seq<Doc>, i: nat)
    requires i < |docs|
    ensures forall w, c :: Live(docs[..i + 1], w, c) == Live(docs[..i], w, c) + if docs[i] == Doc(w, c, false) then 1 else 0
    ensures forall w, c :: Tomb(docs[..i + 1], w, c) == Tomb(docs[..i], w, c) + if docs[i] == Doc(w, c, true) then 1 else 0
  {
    Snoc(docs, i);
  }

  lemma Whole(docs: seq<Doc>)
    ensures docs[..|docs|] == docs
  {
  }

  /** The counting scan behind the tombstone cache. */
  method ScanDead(docs: seq<Doc>, w: string) returns (dead: set<string>)
    ensures IsDeadSet(docs, w, dead)
  {
    var live: map<string, nat>, tombs: map<string, nat> := map[], map[];
    for i := 0 to |docs|
      invariant forall c :: Get(live, c) == Live(docs[..i], w, c)
      invariant forall c :: Get(tombs, c) == Tomb(docs[..i], w, c)
    {
      var d := docs[i];
      SnocCounts(docs, i);
      if d.workspace == w {
        if d.deleted {
          tombs := tombs[d.content := Get(tombs, d.content) + 1];
        } else {
          live := live[d.content := Get(live, d.content) + 1];
        }
      }
    }
    Whole(docs);
    dead := set c | c in tombs && tombs[c] > 0 && tombs[c] >= Get(live, c);
    forall c
      ensures c in dead <==> IsDead(docs, w, c)
    {
      assert Get(tombs, c) == Tomb(docs, w, c) && Get(live, c) == Live(docs, w, c);
    }
  }

  method CountLiveAndTomb(docs: seq<Doc>, w: string, c: string) returns (live: nat, tomb: nat)
    ensures live == Live(docs, w, c) && tomb == Tomb(docs, w, c)
  {
    live, tomb := 0, 0;
    for i := 0 to |docs|
      invariant live == Live(docs[..i], w, c) && tomb == Tomb(docs[..i], w, c)
    {
      Snoc(docs, i);
      var d := docs[i];
      if d.workspace == w && d.content == c {
        if d.deleted {
          tomb := tomb + 1;
        } else {
          live := live + 1;
        }
      }
    }
    Whole(docs);
  }

  predicate NoRepeats(s: seq<string>) {
    forall i, j :: 0 <= i < j < |s| ==> s[i] != s[j]
  }

  /** Live, not dead, each text once. */
  method LiveContents(docs: seq<Doc>, w: string, dead: set<string>) returns (results: seq<string>)
    ensures NoRepeats(results)
    ensures forall c :: c in results <==> Doc(w, c, false) in docs && c !in dead
  {
    results := [];
    var seen: set<string> := {};
    for i := 0 to |docs|
      invariant NoRepeats(results)
      invariant forall c :: c in results <==> c in seen
      invariant forall c :: c in seen <==> Doc(w, c, false) in docs[..i] && c !in dead
    {
      var d := docs[i];
      assert docs[..i + 1] == docs[..i] + [d];
      if d.workspace == w && !d.deleted && d.content !in dead && d.content !in seen {
        results := results + [d.content];
        seen := seen + {d.content};
      }
    }
    Whole(docs);
  }

  lemma LiveNotDead(docs: seq<Doc>, w: string, dead: set<string>, c: string)
    requires IsDeadSet(docs, w, dead)
    ensures Doc(w, c, false) in docs && c !in dead <==> Visible(docs, w, c)
  {
    assert c in dead <==> IsDead(docs, w, c);
    assert Doc(w, c, false) in multiset(docs) <==> Live(docs, w, c) > 0;
  }

  // ----- Compaction ------------------------------------------------------------------------

  datatype Key = Key(workspace: string, content: string)

  function AsDocs(keys: seq<Key>): seq<Doc> {
    seq(|keys|, i requires 0 <= i < |keys| => Doc(keys[i].workspace, keys[i].content, false))
  }

  lemma AsDocsSnoc(keys: seq<Key>, k: Key)
    ensures AsDocs(keys + [k]) == AsDocs(keys) + [Doc(k.workspace, k.content, false)]
  {
  }

  function Min(a: nat, b: nat): nat {
    if a < b then a else b
  }

  /** `needs_compaction`: a count, or a ratio of tombstones to documents. */
  predicate Due(docs: seq<Doc>, maxTombstones: nat, ratio: real) {
    var tombstones, total := TombstoneTotal(docs), |docs|;
    tombstones >= maxTombstones || (total > 0 && tombstones as real / total as real >= ratio)
  }

  /** As the comment describes it: strictly above the ratio. */
  predicate Above(docs: seq<Doc>, ratio: real) {
    |docs| > 0 && TombstoneTotal(docs) as real / |docs| as real > ratio
  }

  predicate AtRatio(docs: seq<Doc>, ratio: real) {
    |docs| > 0 && TombstoneTotal(docs) as real / |docs| as real == ratio
  }

  predicate AboveCount(docs: seq<Doc>, maxTombstones: nat) {
    TombstoneTotal(docs) > maxTombstones
  }

  /** Compaction is due where the comment says it is, and also exactly at a threshold. */
  lemma DueExactly(docs: seq<Doc>, maxTombstones: nat, ratio: real)
    ensures Due(docs, maxTombstones, ratio) <==>
            || AboveCount(docs, maxTombstones) || Above(docs, ratio)
            || TombstoneTotal(docs) == maxTombstones || AtRatio(docs, ratio)
  {
  }

  /** One text, added and deleted: half of the documents are tombstones, not more. */
  lemma DueAtHalf()
    ensures exists docs :: Due(docs, 10, 0.5) && !AboveCount(docs, 10) && !Above(docs, 0.5)
  {
    var docs := [Doc("w", "a", false), Doc("w", "a", true)];
    assert docs[..1] == [docs[0]] && docs[..1][..0] == [];
    assert TombstoneTotal(docs[..1]) == 0 && TombstoneTotal(docs) == 1;
    assert Due(docs, 10, 0.5) && !AboveCount(docs, 10) && !Above(docs, 0.5);
  }

  /** How many of the documents are tombstones. */
  function TombstoneTotal(docs: seq<Doc>): nat {
    if docs == [] then 0
    else TombstoneTotal(docs[..|docs| - 1]) + if docs[|docs| - 1].deleted then 1 else 0
  }

  /** The two counters hold the copies of every key. */
  ghost predicate Counted(docs: seq<Doc>, live: map<Key, nat>, tombs: map<Key, nat>) {
    && (forall k: Key :: Get(live, k) == Live(docs, k.workspace, k.content))
    && (forall k: Key :: Get(tombs, k) == Tomb(docs, k.workspace, k.content))
  }

  function Bump(m: map<Key, nat>, k: Key): map<Key, nat> {
    m[k := Get(m, k) + 1]
  }

  lemma CountedStep(docs: seq<Doc>, i: nat, live: map<Key, nat>, tombs: map<Key, nat>)
    requires i < |docs| && Counted(docs[..i], live, tombs)
    ensures var key := Key(docs[i].workspace, docs[i].content);
            if docs[i].deleted then Counted(docs[..i + 1], live, Bump(tombs, key))
            else Counted(docs[..i + 1], Bump(live, key), tombs)
  {
    SnocCounts(docs, i);
  }

  lemma CountedSurplus(docs: seq<Doc>, live: map<Key, nat>, tombs: map<Key, nat>, k: Key)
    requires Counted(docs, live, tombs)
    ensures Get(live, k) as int - Get(tombs, k) as int == Surplus(docs, k.workspace, k.content)
  {
  }

  /** What a keeping loop has kept once it has gone through the documents `seen`. */
  ghost predicate KeptOf(docs: seq<Doc>, seen: multiset<Doc>, kept: map<Key, nat>, keep: seq<Key>) {
    && (forall k: Key :: Get(kept, k) ==
         Min(seen[Doc(k.workspace, k.content, false)], Copies(Surplus(docs, k.workspace, k.content))))
    && (forall k: Key :: Get(kept, k) == multiset(AsDocs(keep))[Doc(k.workspace, k.content, false)])
  }

  lemma KeptAll(docs: seq<Doc>, seen: multiset<Doc>, kept: map<Key, nat>, keep: seq<Key>)
    requires KeptOf(docs, seen, kept, keep)
    requires forall d: Doc :: !d.deleted ==> seen[d] == multiset(docs)[d]
    ensures IsCompaction(docs, AsDocs(keep))
  {
    forall d: Doc
      ensures multiset(AsDocs(keep))[d] == if d.deleted then 0 else Copies(Surplus(docs, d.workspace, d.content))
    {
      if !d.deleted {
        var k := Key(d.workspace, d.content);
        assert d == Doc(k.workspace, k.content, false);
        assert Get(kept, k) == multiset(AsDocs(keep))[d];
      }
    }
  }

  /** Skipping a document leaves the kept counts in place. */
  lemma KeepSkips(docs: seq<Doc>, seen: multiset<Doc>, kept: map<Key, nat>, keep: seq<Key>, d: Doc)
    requires KeptOf(docs, seen, kept, keep)
    requires d.deleted || Get(kept, Key(d.workspace, d.content)) >= Copies(Surplus(docs, d.workspace, d.content))
    ensures KeptOf(docs, seen + multiset{d}, kept, keep)
  {
  }

  lemma KeepTakes(docs: seq<Doc>, seen: multiset<Doc>, kept: map<Key, nat>, keep: seq<Key>, k: Key)
    requires KeptOf(docs, seen, kept, keep)
    requires Get(kept, k) < Copies(Surplus(docs, k.workspace, k.content))
    ensures KeptOf(docs, seen + multiset{Doc(k.workspace, k.content, false)}, Bump(kept, k), keep + [k])
  {
    AsDocsSnoc(keep, k);
  }

  /** Keep the surplus live copies of every text; the counters account for every document. */
  method CollectActiveDocs(docs: seq<Doc>)
    returns (keep: seq<Key>, removedTombstones: nat, removedOriginals: nat)
    ensures IsCompaction(docs, AsDocs(keep))
    ensures removedTombstones == TombstoneTotal(docs)
    ensures removedTombstones + removedOriginals + |keep| == |docs|
  {
    var live: map<Key, nat>, tombs: map<Key, nat> := map[], map[];
    for i := 0 to |docs|
      invariant Counted(docs[..i], live, tombs)
    {
      CountedStep(docs, i, live, tombs);
      var key := Key(docs[i].workspace, docs[i].content);
      if docs[i].deleted {
        tombs := Bump(tombs, key);
      } else {
        live := Bump(live, key);
      }
    }
    Whole(docs);
    keep, removedTombstones, removedOriginals := KeepActive(docs, live, tombs);
  }

  lemma KeepDoc(docs: seq<Doc>, i: nat, kept: map<Key, nat>, keep: seq<Key>, surplus: int)
    requires i < |docs| && KeptOf(docs, multiset(docs[..i]), kept, keep)
    requires surplus == Surplus(docs, docs[i].workspace, docs[i].content)
    ensures var key := Key(docs[i].workspace, docs[i].content);
            if docs[i].deleted || surplus <= 0 || Get(kept, key) >= surplus
            then KeptOf(docs, multiset(docs[..i + 1]), kept, keep)
            else KeptOf(docs, multiset(docs[..i + 1]), Bump(kept, key), keep + [key])
  {
    var key := Key(docs[i].workspace, docs[i].content);
    Snoc(docs, i);
    if docs[i].deleted || surplus <= 0 || Get(kept, key) >= surplus {
      KeepSkips(docs, multiset(docs[..i]), kept, keep, docs[i]);
    } else {
      KeepTakes(docs, multiset(docs[..i]), kept, keep, key);
    }
  }

  lemma TombstoneTotalSnoc(docs: seq<Doc>, i: nat)
    requires i < |docs|
    ensures TombstoneTotal(docs[..i + 1]) == TombstoneTotal(docs[..i]) + if docs[i].deleted then 1 else 0
  {
    assert docs[..i + 1][..i] == docs[..i];
  }

  method KeepActive(docs: seq<Doc>, live: map<Key, nat>, tombs: map<Key, nat>)
    returns (keep: seq<Key>, removedTombstones: nat, removedOriginals: nat)
    requires Counted(docs, live, tombs)
    ensures IsCompaction(docs, AsDocs(keep))
    ensures removedTombstones == TombstoneTotal(docs)
    ensures removedTombstones + removedOriginals + |keep| == |docs|
  {
    keep, removedTombstones, removedOriginals := [], 0, 0;
    var kept: map<Key, nat> := map[];
    for i := 0 to |docs|
      invariant KeptOf(docs, multiset(docs[..i]), kept, keep)
      invariant removedTombstones == TombstoneTotal(docs[..i])
      invariant removedTombstones + removedOriginals + |keep| == i
    {
      var d := docs[i];
      var key := Key(d.workspace, d.content);
      TombstoneTotalSnoc(docs, i);
      CountedSurplus(docs, live, tombs, key);
      KeepDoc(docs, i, kept, keep, Get(live, key) as int - Get(tombs, key) as int);
      if d.deleted {
        removedTombstones := removedTombstones + 1;
        continue;
      }
      var surplus: int := Get(live, key) as int - Get(tombs, key) as int;
      if surplus <= 0 || Get(kept, key) >= surplus {
        removedOriginals := removedOriginals + 1;
        continue;
      }
      kept := Bump(kept, key);
      keep := keep + [key];
    }
    Whole(docs);
    KeptAll(docs, multiset(docs), kept, keep);
  }

  /** The live documents among `docs`, as the rebuild lists them. */
  ghost predicate ListsLive(docs: seq<Doc>, live: seq<Key>) {
    forall d: Doc :: !d.deleted ==> multiset(AsDocs(live))[d] == multiset(docs)[d]
  }

  lemma ListsLiveStep(docs: seq<Doc>, i: nat, live: seq<Key>)
    requires i < |docs| && ListsLive(docs[..i], live)
    ensures ListsLive(docs[..i + 1], if docs[i].deleted then live else live + [Key(docs[i].workspace, docs[i].content)])
  {
    Snoc(docs, i);
    AsDocsSnoc(live, Key(docs[i].workspace, docs[i].content));
  }

  /** The rebuild's own collection of the surviving documents: one pass lists and counts,
      a second keeps; it agrees with compaction. */
  method AllDocs(docs: seq<Doc>) returns (kept: seq<Key>)
    ensures IsCompaction(docs, AsDocs(kept))
  {
    var live: seq<Key> := [];
    var liveCounts: map<Key, nat>, tombCounts: map<Key, nat> := map[], map[];
    for i := 0 to |docs|
      invariant Counted(docs[..i], liveCounts, tombCounts)
      invariant ListsLive(docs[..i], live)
    {
      CountedStep(docs, i, liveCounts, tombCounts);
      ListsLiveStep(docs, i, live);
      var key := Key(docs[i].workspace, docs[i].content);
      if docs[i].deleted {
        tombCounts := Bump(tombCounts, key);
        continue;
      }
      live := live + [key];
      liveCounts := Bump(liveCounts, key);
    }
    Whole(docs);
    kept := KeepSurplus(docs, live, liveCounts, tombCounts);
  }

  lemma KeepStep(docs: seq<Doc>, live: seq<Key>, i: nat, kept: map<Key, nat>, keep: seq<Key>, surplus: int)
    requires i < |live| && KeptOf(docs, multiset(AsDocs(live[..i])), kept, keep)
    requires surplus == Surplus(docs, live[i].workspace, live[i].content)
    ensures if surplus <= 0 || Get(kept, live[i]) >= surplus
            then KeptOf(docs, multiset(AsDocs(live[..i + 1])), kept, keep)
            else KeptOf(docs, multiset(AsDocs(live[..i + 1])), Bump(kept, live[i]), keep + [live[i]])
  {
    var item, seen := live[i], multiset(AsDocs(live[..i]));
    assert live[..i + 1] == live[..i] + [item];
    AsDocsSnoc(live[..i], item);
    if surplus <= 0 || Get(kept, item) >= surplus {
      KeepSkips(docs, seen, kept, keep, Doc(item.workspace, item.content, false));
    } else {
      KeepTakes(docs, seen, kept, keep, item);
    }
  }

  /** The rebuild's keeping pass: one copy after another, up to the surplus of each key. */
  method KeepSurplus(docs: seq<Doc>, live: seq<Key>, liveCounts: map<Key, nat>, tombCounts: map<Key, nat>)
    returns (kept: seq<Key>)
    requires ListsLive(docs, live) && Counted(docs, liveCounts, tombCounts)
    ensures IsCompaction(docs, AsDocs(kept))
  {
    kept := [];
    var keptLive: map<Key, nat> := map[];
    for i := 0 to |live|
      invariant KeptOf(docs, multiset(AsDocs(live[..i])), keptLive, kept)
    {
      var item := live[i];
      CountedSurplus(docs, liveCounts, tombCounts, item);
      var surplus: int := Get(liveCounts, item) as int - Get(tombCounts, item) as int;
      KeepStep(docs, live, i, keptLive, kept, surplus);
      if surplus <= 0 || Get(keptLive, item) >= surplus {
        continue;
      }
      keptLive := Bump(keptLive, item);
      kept := kept + [item];
    }
    assert live[..|live|] == live;
    KeptAll(docs, multiset(AsDocs(live)), keptLive, kept);
  }

  // ----- The tombstone cache -------------------------------------------------------------------

  datatype Cached = Cached(workspace: string, dead: set<string>)

  ghost predicate DistinctKeys(cache: seq<Cached>) {
    forall i, j :: 0 <= i < j < |cache| ==> cache[i].workspace != cache[j].workspace
  }

  ghost predicate CacheHas(cache: seq<Cached>, w: string) {
    exists e :: e in cache && e.workspace == w
  }

  function Without(cache: seq<Cached>, w: string): seq<Cached> {
    if cache == [] then []
    else Without(cache[..|cache| - 1], w) + if cache[|cache| - 1].workspace == w then [] else [cache[|cache| - 1]]
  }

  lemma {:induction false} WithoutKeeps(cache: seq<Cached>, w: string)
    ensures forall e :: e in Without(cache, w) <==> e in cache && e.workspace != w
    ensures |Without(cache, w)| <= |cache|
    ensures CacheHas(cache, w) ==> |Without(cache, w)| < |cache|
    ensures DistinctKeys(cache) ==> DistinctKeys(Without(cache, w))
  {
    if cache != [] {
      var rest, last := cache[..|cache| - 1], cache[|cache| - 1];
      WithoutKeeps(rest, w);
      assert cache == rest + [last];
      if DistinctKeys(cache) && last.workspace != w {
        forall i | 0 <= i < |Without(rest, w)|
          ensures Without(rest, w)[i].workspace != last.workspace
        {
          assert Without(rest, w)[i] in rest;
        }
      }
    }
  }

  /** The entries of all other workspaces, in order. */
  function Keep(cache: seq<Cached>, dirty: set<string>): seq<Cached> {
    if cache == [] then []
    else Keep(cache[..|cache| - 1], dirty) + if cache[|cache| - 1].workspace in dirty then [] else [cache[|cache| - 1]]
  }

  /** Entries are kept or dropped one by one, in their order. */
  lemma {:induction false} KeepParts(a: seq<Cached>, b: seq<Cached>, dirty: set<string>)
    ensures Keep(a + b, dirty) == Keep(a, dirty) + Keep(b, dirty)
  {
    if b == [] {
      assert a + b == a;
    } else {
      var rest, last := b[..|b| - 1], b[|b| - 1];
      KeepParts(a, rest, dirty);
      assert a + b == (a + rest) + [last];
      KeepSnoc(a + rest, last, dirty);
    }
  }

  lemma KeepSingle(e: Cached, dirty: set<string>)
    ensures Keep([e], dirty) == if e.workspace in dirty then [] else [e]
  {
    KeepSnoc([], e, dirty);
    assert [] + [e] == [e];
  }

  lemma {:induction false} KeepNothing(cache: seq<Cached>)
    ensures Keep(cache, {}) == cache
  {
    if cache != [] {
      KeepNothing(cache[..|cache| - 1]);
      assert cache == cache[..|cache| - 1] + [cache[|cache| - 1]];
    }
  }

  lemma {:induction false} KeepOne(cache: seq<Cached>, w: string)
    ensures Keep(cache, {w}) == Without(cache, w)
  {
    if cache != [] {
      KeepOne(cache[..|cache| - 1], w);
    }
  }

  lemma KeepSnoc(rest: seq<Cached>, last: Cached, dirty: set<string>)
    ensures Keep(rest + [last], dirty) == Keep(rest, dirty) + if last.workspace in dirty then [] else [last]
  {
    assert (rest + [last])[..|rest|] == rest;
  }

  lemma {:induction false} KeepAfterWithout(cache: seq<Cached>, w: string, dirty: set<string>)
    ensures Keep(Without(cache, w), dirty) == Keep(cache, dirty + {w})
  {
    if cache != [] {
      var rest, last := cache[..|cache| - 1], cache[|cache| - 1];
      KeepAfterWithout(rest, w, dirty);
      if last.workspace == w {
        assert Without(rest, w) + [] == Without(rest, w);
      } else {
        KeepSnoc(Without(rest, w), last, dirty);
      }
    }
  }

  lemma {:induction false} KeepKeeps(cache: seq<Cached>, dirty: set<string>)
    ensures forall e :: e in Keep(cache, dirty) <==> e in cache && e.workspace !in dirty
    ensures |Keep(cache, dirty)| <= |cache|
    ensures DistinctKeys(cache) ==> DistinctKeys(Keep(cache, dirty))
  {
    if cache != [] {
      var rest, last := cache[..|cache| - 1], cache[|cache| - 1];
      KeepKeeps(rest, dirty);
      assert cache == rest + [last];
      if DistinctKeys(cache) && last.workspace !in dirty {
        KeptApart(rest, last, Keep(rest, dirty));
      }
    }
  }

  lemma KeptApart(rest: seq<Cached>, last: Cached, kept: seq<Cached>)
    requires DistinctKeys(rest + [last]) && DistinctKeys(kept) && forall e :: e in kept ==> e in rest
    ensures DistinctKeys(kept + [last])
  {
    forall i | 0 <= i < |kept|
      ensures kept[i].workspace != last.workspace
    {
      assert kept[i] in rest;
      var j :| 0 <= j < |rest| && rest[j] == kept[i];
      assert (rest + [last])[j] == kept[i] && (rest + [last])[|rest|] == last;
    }
  }

  /** Two indexes hold the same documents of a workspace. */
  ghost predicate Agree(a: seq<Doc>, b: seq<Doc>, w: string) {
    forall d: Doc :: d.workspace == w ==> multiset(a)[d] == multiset(b)[d]
  }

  lemma AgreeSameDead(a: seq<Doc>, b: seq<Doc>, w: string, dead: set<string>)
    requires Agree(a, b, w) && IsDeadSet(a, w, dead)
    ensures IsDeadSet(b, w, dead)
  {
    forall c
      ensures IsDead(a, w, c) == IsDead(b, w, c)
    {
      assert Live(a, w, c) == Live(b, w, c) && Tomb(a, w, c) == Tomb(b, w, c);
    }
  }

  // ----- The cache over runs ----------------------------------------------------------------------

  /** What the answers of one engine depend on: the shared directory, and the engine's
      reader, cache and last generation seen. */
  datatype View = View(committed: seq<Doc>, generation: nat, reader: seq<Doc>, cache: seq<Cached>, seen: nat)

  datatype Setup = Setup(configWorkspace: string, cacheMax: nat)

  /** Workspaces whose cache entry is dropped when they are written: an empty id is filed
      under the configured workspace. */
  predicate Tracks(u: Setup, w: string) {
    w != "" || u.configWorkspace == ""
  }

  ghost predicate Coherent(u: Setup, cache: seq<Cached>, docs: seq<Doc>) {
    forall e :: e in cache && Tracks(u, e.workspace) ==> IsDeadSet(docs, e.workspace, e.dead)
  }

  ghost predicate CacheOk(u: Setup, cache: seq<Cached>) {
    0 < u.cacheMax && |cache| <= u.cacheMax && DistinctKeys(cache)
  }

  /** While no other engine has published since the last look, the reader is the committed
      index and every cached set is a full scan of it. */
  ghost predicate ViewOk(u: Setup, s: View) {
    && CacheOk(u, s.cache) && s.seen <= s.generation
    && (s.seen == s.generation ==> s.reader == s.committed && Coherent(u, s.cache, s.committed))
  }

  /** One move of this engine, or a write that another engine commits and publishes. */
  datatype Move =
    | Refresh
    | Lookup(w: string, dead: set<string>)
    | Commit(docs: seq<Doc>, dirty: set<string>)
    | Rewrite(docs: seq<Doc>)
    | Foreign(docs: seq<Doc>)

  /** The cache after a lookup: a hit moves to the end; a miss comes in at the end, and
      pushes the least recently used entry out of a full cache. */
  function Touched(cache: seq<Cached>, cacheMax: nat, w: string, dead: set<string>): seq<Cached> {
    if Cached(w, dead) in cache then Without(cache, w) + [Cached(w, dead)]
    else (if |cache| >= cacheMax && cache != [] then cache[1..] else cache) + [Cached(w, dead)]
  }

  /** A lookup follows a refresh, and scans only what is not cached; a commit only touches
      workspaces marked dirty. */
  ghost predicate Allowed(u: Setup, s: View, m: Move) {
    match m
    case Lookup(w, dead) =>
      s.seen == s.generation &&
      if CacheHas(s.cache, w) then Cached(w, dead) in s.cache else IsDeadSet(s.reader, w, dead)
    case Commit(docs, dirty) => forall w :: Tracks(u, w) && w !in dirty ==> Agree(s.committed, docs, w)
    case _ => true
  }

  function Moved(u: Setup, s: View, m: Move): View {
    match m
    case Refresh =>
      View(s.committed, s.generation, s.committed, if s.generation != s.seen then [] else s.cache, s.generation)
    case Lookup(w, dead) => s.(cache := Touched(s.cache, u.cacheMax, w, dead))
    case Commit(docs, dirty) =>
      View(docs, s.generation, docs, Keep(s.cache, if dirty == {} then {u.configWorkspace} else dirty), s.seen)
    case Rewrite(docs) => View(docs, s.generation, docs, [], s.seen)
    case Foreign(docs) => s.(committed := docs, generation := s.generation + 1)
  }

  lemma TouchedOk(u: Setup, cache: seq<Cached>, w: string, dead: set<string>)
    requires CacheOk(u, cache) && (CacheHas(cache, w) ==> Cached(w, dead) in cache)
    ensures CacheOk(u, Touched(cache, u.cacheMax, w, dead))
    ensures forall e :: e in Touched(cache, u.cacheMax, w, dead) ==> e in cache || e == Cached(w, dead)
  {
    WithoutKeeps(cache, w);
    if Cached(w, dead) in cache {
      assert CacheHas(cache, w);
      forall i | 0 <= i < |Without(cache, w)|
        ensures Without(cache, w)[i].workspace != w
      {
        assert Without(cache, w)[i] in Without(cache, w);
      }
    } else {
      forall i | 0 <= i < |cache|
        ensures cache[i].workspace != w
      {
        assert cache[i] in cache;
      }
    }
  }

  lemma MoveKeeps(u: Setup, s: View, m: Move)
    requires ViewOk(u, s) && Allowed(u, s, m)
    ensures ViewOk(u, Moved(u, s, m))
  {
    match m
    case Lookup(w, dead) => TouchedOk(u, s.cache, w, dead);
    case Commit(docs, dirty) =>
      KeepKeeps(s.cache, if dirty == {} then {u.configWorkspace} else dirty);
      if s.seen == s.generation {
        forall e | e in Moved(u, s, m).cache && Tracks(u, e.workspace)
          ensures IsDeadSet(docs, e.workspace, e.dead)
        {
          AgreeSameDead(s.committed, docs, e.workspace, e.dead);
        }
      }
    case _ =>
  }

  function After(u: Setup, s: View, moves: seq<Move>): View {
    if moves == [] then s else Moved(u, After(u, s, moves[..|moves| - 1]), moves[|moves| - 1])
  }

  ghost predicate Legal(u: Setup, s: View, moves: seq<Move>) {
    moves == [] ||
    (Legal(u, s, moves[..|moves| - 1]) && Allowed(u, After(u, s, moves[..|moves| - 1]), moves[|moves| - 1]))
  }

  /** An engine call is a legal run of the engine's own moves. */
  ghost predicate Serves(u: Setup, s: View, t: View) {
    exists moves :: OwnRun(u, s, moves, t)
  }

  ghost predicate OwnRun(u: Setup, s: View, moves: seq<Move>, t: View) {
    Legal(u, s, moves) && (forall m: Move :: m in moves ==> !m.Foreign?) && After(u, s, moves) == t
  }

  lemma ServesSelf(u: Setup, s: View)
    ensures Serves(u, s, s)
  {
    assert OwnRun(u, s, [], s);
  }

  lemma ServesMove(u: Setup, s: View, t: View, m: Move)
    requires Serves(u, s, t) && Allowed(u, t, m) && !m.Foreign?
    ensures Serves(u, s, Moved(u, t, m))
  {
    var moves :| OwnRun(u, s, moves, t);
    var more := moves + [m];
    assert more[..|more| - 1] == moves;
    assert OwnRun(u, s, more, Moved(u, t, m));
  }

  lemma {:induction false} RunsOn(u: Setup, s: View, first: seq<Move>, second: seq<Move>)
    requires Legal(u, s, first) && Legal(u, After(u, s, first), second)
    ensures Legal(u, s, first + second) && After(u, s, first + second) == After(u, After(u, s, first), second)
  {
    if second == [] {
      assert first + second == first;
    } else {
      var rest := second[..|second| - 1];
      RunsOn(u, s, first, rest);
      assert (first + second)[..|first + second| - 1] == first + rest;
    }
  }

  lemma ServesThen(u: Setup, s: View, mid: View, t: View)
    requires Serves(u, s, mid) && Serves(u, mid, t)
    ensures Serves(u, s, t)
  {
    var first :| OwnRun(u, s, first, mid);
    var second :| OwnRun(u, mid, second, t);
    RunsOn(u, s, first, second);
    assert OwnRun(u, s, first + second, t);
  }

  // ----- Commits that are not published --------------------------------------------------------------

  /** A cached set that another engine's commit leaves right, told from the write alone: an
      add that does not outnumber the tombstones of a cached dead text, a delete that finds
      none of its texts in the cached workspace, a rewrite when nothing cached is dead. */
  ghost predicate LeavesRight(docs: seq<Doc>, op: Op, e: Cached) {
    match op
    case AddOp(v, contents) =>
      v == e.workspace ==>
        forall c :: c in contents && c in e.dead ==> Surplus(docs, v, c) + Occurrences(contents, c) <= 0
    case DeleteOp(v, unique) => v == e.workspace ==> forall c :: c in unique ==> !Visible(docs, v, c)
    case RebuildDeleteOp(v, c) => Visible(docs, v, c) ==> e.dead == {}
    case CompactOp => e.dead == {}
  }

  lemma DeadAfterAdd(docs: seq<Doc>, v: string, contents: seq<string>, e: Cached)
    requires IsDeadSet(docs, e.workspace, e.dead)
    ensures IsDeadSet(docs + LiveDocs(v, contents), e.workspace, e.dead) <==> LeavesRight(docs, AddOp(v, contents), e)
  {
    var docs' := docs + LiveDocs(v, contents);
    LiveDocsCount(v, contents);
    forall c
      ensures IsDead(docs', e.workspace, c) <==>
              c in e.dead && (v == e.workspace ==> Surplus(docs, v, c) + Occurrences(contents, c) <= 0)
      ensures c !in contents ==> Occurrences(contents, c) == 0
    {
      assert c in e.dead <==> IsDead(docs, e.workspace, c);
    }
    if IsDeadSet(docs', e.workspace, e.dead) && v == e.workspace {
      forall c | c in contents && c in e.dead
        ensures Surplus(docs, v, c) + Occurrences(contents, c) <= 0
      {
        assert IsDead(docs', e.workspace, c);
      }
    }
  }

  lemma DeadAfterDelete(docs: seq<Doc>, v: string, unique: seq<string>, e: Cached)
    requires IsDeadSet(docs, e.workspace, e.dead) && NoRepeats(unique)
    ensures IsDeadSet(SoftDeleteAll(docs, docs, v, unique), e.workspace, e.dead) <==> LeavesRight(docs, DeleteOp(v, unique), e)
  {
    var docs' := SoftDeleteAll(docs, docs, v, unique);
    SoftDeleteAllCounts(docs, docs, v, unique);
    forall c
      ensures IsDead(docs', e.workspace, c) <==> c in e.dead || (v == e.workspace && c in unique && Visible(docs, v, c))
    {
      assert c in e.dead <==> IsDead(docs, e.workspace, c);
    }
    if IsDeadSet(docs', e.workspace, e.dead) && v == e.workspace {
      forall c | c in unique
        ensures !Visible(docs, v, c)
      {
        assert c in e.dead <==> IsDead(docs, e.workspace, c);
        assert c in e.dead <==> IsDead(docs', e.workspace, c);
      }
    }
  }

  lemma DeadAfterRewrite(docs: seq<Doc>, drop: bool, v: string, c: string, docs': seq<Doc>, e: Cached)
    requires IsRewrite(docs, drop, v, c, docs')
    ensures IsDeadSet(docs', e.workspace, e.dead) <==> e.dead == {}
  {
    assert forall x :: Tomb(docs', e.workspace, x) == 0;
    assert forall x :: !IsDead(docs', e.workspace, x);
    if IsDeadSet(docs', e.workspace, e.dead) {
      assert forall x :: x !in e.dead;
    }
  }

  // ----- Writes and their meaning -----------------------------------------------------------------

  lemma AppendAgrees(docs: seq<Doc>, extra: seq<Doc>, w: string)
    requires forall d :: d in extra ==> d.workspace != w
    ensures Agree(docs, docs + extra, w)
  {
    forall d: Doc | d.workspace == w
      ensures multiset(docs)[d] == multiset(docs + extra)[d]
    {
      assert d !in multiset(extra);
    }
  }

  lemma Reassociate(docs: seq<Doc>, extra: seq<Doc>, d: Doc)
    ensures docs + extra + [d] == docs + (extra + [d])
  {
  }

  lemma {:induction false} LiveDocsIn(w: string, contents: seq<string>)
    ensures forall d :: d in LiveDocs(w, contents) ==> d.workspace == w
  {
    if contents != [] {
      LiveDocsIn(w, contents[..|contents| - 1]);
    }
  }

  lemma {:induction false} TombstoneDocsIn(w: string, c: string, n: nat)
    ensures forall d :: d in TombstoneDocs(w, c, n) ==> d.workspace == w
  {
    if n > 0 {
      TombstoneDocsIn(w, c, n - 1);
    }
  }

  lemma SoftBatchAgrees(docs: seq<Doc>, snapshot: seq<Doc>, w: string, unique: seq<string>, v: string)
    requires NoRepeats(unique) && v != w
    ensures Agree(docs, SoftDeleteAll(docs, snapshot, w, unique), v)
  {
    SoftDeleteAllCounts(docs, snapshot, w, unique);
  }

  /** The texts are gone from their workspace and every other visible text stays. */
  ghost predicate Removes(docs: seq<Doc>, w: string, texts: set<string>, docs': seq<Doc>) {
    && Balanced(docs')
    && forall v :: VisibleSet(docs', v) == if v == w then VisibleSet(docs, v) - texts else VisibleSet(docs, v)
  }

  lemma SoftBatchRemoves(docs: seq<Doc>, w: string, contents: seq<string>)
    requires Balanced(docs)
    ensures Step(docs, DeleteOp(w, Distinct(contents)), SoftDeleteAll(docs, docs, w, Distinct(contents)),
                 VisibleCount(docs, w, Distinct(contents)))
    ensures Removes(docs, w, Texts(contents), SoftDeleteAll(docs, docs, w, Distinct(contents)))
    ensures VisibleCount(docs, w, Distinct(contents)) == |Texts(contents) * VisibleSet(docs, w)|
  {
    var unique := Distinct(contents);
    var docs' := SoftDeleteAll(docs, docs, w, unique);
    AnswerExact(docs, w, unique);
    assert Texts(contents) == Texts(unique);
    forall v
      ensures Balanced(docs')
      ensures VisibleSet(docs', v) ==
              if v == w then VisibleSet(docs, v) - Texts(contents) else VisibleSet(docs, v)
    {
      StepRefines(docs, DeleteOp(w, unique), docs', VisibleCount(docs, w, unique), v);
    }
  }

  lemma SoftOneRemoves(docs: seq<Doc>, w: string, c: string)
    requires Balanced(docs)
    ensures Removes(docs, w, {c}, Tombstones.SoftDelete(docs, docs, w, c))
    ensures !Visible(docs, w, c) ==> Tombstones.SoftDelete(docs, docs, w, c) == docs
  {
    var one := [c];
    assert one[..|one| - 1] == [] && Distinct(one) == one && Texts(one) == {c};
    SoftBatchRemoves(docs, w, one);
    assert SoftDeleteAll(docs, docs, w, one) == Tombstones.SoftDelete(docs, docs, w, c);
  }

  lemma RebuildRemoves(docs: seq<Doc>, w: string, c: string, docs': seq<Doc>)
    requires Balanced(docs)
    requires if Visible(docs, w, c) then IsRewrite(docs, true, w, c, docs') else docs' == docs
    ensures Removes(docs, w, {c}, docs')
  {
    forall v
      ensures Balanced(docs')
      ensures VisibleSet(docs', v) == if v == w then VisibleSet(docs, v) - {c} else VisibleSet(docs, v)
    {
      StepRefines(docs, RebuildDeleteOp(w, c), docs', if Visible(docs, w, c) then 1 else 0, v);
    }
  }

  lemma RemovesThen(docs: seq<Doc>, w: string, first: set<string>, mid: seq<Doc>, c: string, docs': seq<Doc>)
    requires Removes(docs, w, first, mid) && Removes(mid, w, {c}, docs')
    ensures Removes(docs, w, first + {c}, docs')
  {
    forall v
      ensures VisibleSet(docs', v) == if v == w then VisibleSet(docs, v) - (first + {c}) else VisibleSet(docs, v)
    {
      assert VisibleSet(docs, v) - first - {c} == VisibleSet(docs, v) - (first + {c});
    }
  }

  lemma RemovesGone(docs: seq<Doc>, w: string, texts: set<string>, docs': seq<Doc>)
    requires Removes(docs, w, texts, docs')
    ensures Gone(docs, w, texts, docs')
  {
    forall v, x
      ensures Visible(docs', v, x) <==> Visible(docs, v, x) && !(v == w && x in texts)
    {
      InVisibleSet(docs, v, x);
      InVisibleSet(docs', v, x);
    }
  }

  /** What a batch of rebuilds did to the committed index, given what it did to the reader. */
  lemma BatchExact(base: seq<Doc>, committed: seq<Doc>, w: string, contents: seq<string>, after: seq<Doc>, reader: seq<Doc>,
      deleted: nat)
    requires Removes(base, w, Texts(contents), reader)
    requires if deleted > 0 then after == reader else after == committed
    ensures Gone(committed, w, Texts(contents), after) <==>
            if deleted > 0 then SameOutside(base, committed, w, Texts(contents))
            else forall c :: c in contents ==> !Visible(committed, w, c)
  {
    if deleted > 0 {
      RemovesGone(base, w, Texts(contents), reader);
      StaleBatchExact(committed, base, w, Texts(contents), after);
    } else if Gone(committed, w, Texts(contents), committed) {
      forall c | c in contents
        ensures !Visible(committed, w, c)
      {
        assert c in Texts(contents);
      }
    }
  }

  lemma TextsOne(contents: seq<string>, i: nat)
    requires i < |contents|
    ensures Texts(contents[..i + 1]) == Texts(contents[..i]) + {contents[i]}
  {
    assert contents[..i + 1] == contents[..i] + [contents[i]];
  }

  lemma RemovesNothing(docs: seq<Doc>, w: string)
    requires Balanced(docs)
    ensures Removes(docs, w, {}, docs)
  {
    assert forall v :: VisibleSet(docs, v) - {} == VisibleSet(docs, v);
  }

  lemma CountOneMore(done: set<string>, s: set<string>, c: string)
    ensures |(done + {c}) * s| == |done * s| + if c in s - done then 1 else 0
  {
    if c in s - done {
      assert (done + {c}) * s == done * s + {c};
    } else {
      assert (done + {c}) * s == done * s;
    }
  }

  /** One more rebuild in a batch: one more text gone, counted if it was there. */
  lemma RebuildStep(base: seq<Doc>, w: string, done: set<string>, deleted: nat, mid: seq<Doc>, c: string, docs': seq<Doc>)
    requires Removes(base, w, done, mid) && deleted == |done * VisibleSet(base, w)|
    requires if Visible(mid, w, c) then IsRewrite(mid, true, w, c, docs') else docs' == mid
    ensures Removes(base, w, done + {c}, docs')
    ensures |(done + {c}) * VisibleSet(base, w)| == deleted + if Visible(mid, w, c) then 1 else 0
  {
    InVisibleSet(mid, w, c);
    RebuildRemoves(mid, w, c, docs');
    RemovesThen(base, w, done, mid, c, docs');
    CountOneMore(done, VisibleSet(base, w), c);
  }

  /** The live and tombstone copies of the requested texts, absent ones left out. */
  ghost predicate RequestCounts(docs: seq<Doc>, w: string, requested: set<string>, counts: map<string, (nat, nat)>) {
    && (forall c :: c in counts ==> c in requested && counts[c] == (Live(docs, w, c), Tomb(docs, w, c)))
    && (forall c :: c in requested && c !in counts ==> Live(docs, w, c) == 0 && Tomb(docs, w, c) == 0)
  }

  function CountOne(counts: map<string, (nat, nat)>, d: Doc): map<string, (nat, nat)> {
    var copies := if d.content in counts then counts[d.content] else (0, 0);
    counts[d.content := if d.deleted then (copies.0, copies.1 + 1) else (copies.0 + 1, copies.1)]
  }

  lemma RequestCountsStep(docs: seq<Doc>, i: nat, w: string, requested: set<string>, counts: map<string, (nat, nat)>)
    requires i < |docs| && RequestCounts(docs[..i], w, requested, counts)
    ensures RequestCounts(docs[..i + 1], w, requested,
                          if docs[i].workspace != w || docs[i].content !in requested then counts else CountOne(counts, docs[i]))
  {
    SnocCounts(docs, i);
  }

  lemma DistinctStep(contents: seq<string>, i: nat)
    requires i < |contents|
    ensures Distinct(contents[..i + 1]) ==
            if contents[i] in Distinct(contents[..i]) then Distinct(contents[..i]) else Distinct(contents[..i]) + [contents[i]]
  {
    assert contents[..i + 1][..i] == contents[..i];
  }

  lemma SoftDeleteAllStep(docs: seq<Doc>, snapshot: seq<Doc>, w: string, unique: seq<string>, c: string)
    ensures SoftDeleteAll(docs, snapshot, w, unique + [c]) ==
            SoftDeleteAll(docs, snapshot, w, unique) + TombstoneDocs(w, c, Copies(Surplus(snapshot, w, c)))
    ensures VisibleCount(snapshot, w, unique + [c]) ==
            VisibleCount(snapshot, w, unique) + if Visible(snapshot, w, c) then 1 else 0
  {
    assert (unique + [c])[..|unique|] == unique;
  }

  lemma InAsDocs(keys: seq<Key>, k: Key)
    ensures k in keys <==> multiset(AsDocs(keys))[Doc(k.workspace, k.content, false)] > 0
  {
    var docs := AsDocs(keys);
    if k in keys {
      var i :| 0 <= i < |keys| && keys[i] == k;
      assert docs[i] == Doc(k.workspace, k.content, false);
    }
    assert Doc(k.workspace, k.content, false) in docs <==> Doc(k.workspace, k.content, false) in multiset(docs);
  }

  /** `keep` is what is left of `all` without the key. */
  ghost predicate FilteredOf(all: seq<Key>, k: Key, keep: seq<Key>) {
    forall d: Doc :: multiset(AsDocs(keep))[d] ==
      if d.workspace == k.workspace && d.content == k.content then 0 else multiset(AsDocs(all))[d]
  }

  lemma FilterStep(all: seq<Key>, k: Key, keep: seq<Key>, next: Key)
    requires FilteredOf(all, k, keep)
    ensures FilteredOf(all + [next], k, if next == k then keep else keep + [next])
  {
    AsDocsSnoc(all, next);
    AsDocsSnoc(keep, next);
  }

  method AnyKey(all: seq<Key>, k: Key) returns (found: bool)
    ensures found <==> multiset(AsDocs(all))[Doc(k.workspace, k.content, false)] > 0
  {
    found := false;
    for i := 0 to |all|
      invariant found <==> k in all[..i]
    {
      assert all[..i + 1] == all[..i] + [all[i]];
      found := found || all[i] == k;
    }
    assert all[..|all|] == all;
    InAsDocs(all, k);
  }

  method OtherKeys(all: seq<Key>, k: Key) returns (keep: seq<Key>)
    ensures FilteredOf(all, k, keep)
  {
    keep := [];
    for i := 0 to |all|
      invariant FilteredOf(all[..i], k, keep)
    {
      assert all[..i + 1] == all[..i] + [all[i]];
      FilterStep(all[..i], k, keep, all[i]);
      if all[i] != k {
        keep := keep + [all[i]];
      }
    }
    assert all[..|all|] == all;
  }

  // ----- The engine ---------------------------------------------------------------------------------

  class Engine {
    const dir: Directory
    const configWorkspace: string
    const cacheMax: nat
    const softDelete: bool
    const compactionMaxTombstones: nat
    const compactionRatio: real
    var reader: seq<Doc>
    var writer: Option<seq<Doc>>
    var cache: seq<Cached>
    var dirty: set<string>
    var seen: nat

    constructor (dir: Directory, configWorkspace: string, cacheMax: nat, softDelete: bool,
        compactionMaxTombstones: nat, compactionRatio: real)
      requires cacheMax > 0
      ensures Valid() && this.dir == dir && writer == None && cache == []
      ensures this.configWorkspace == configWorkspace && this.cacheMax == cacheMax && this.softDelete == softDelete
    {
      this.dir, this.configWorkspace, this.cacheMax, this.softDelete := dir, configWorkspace, cacheMax, softDelete;
      this.compactionMaxTombstones, this.compactionRatio := compactionMaxTombstones, compactionRatio;
      reader, writer, cache, dirty, seen := dir.committed, None, [], {}, 0;
    }

    function Own(): Setup {
      Setup(configWorkspace, cacheMax)
    }

    predicate Tracked(w: string) {
      Tracks(Own(), w)
    }

    ghost function Now(): View
      reads this, dir
    {
      View(dir.committed, dir.generation, reader, cache, seen)
    }

    ghost predicate Valid()
      reads this, dir
    {
      ViewOk(Own(), Now())
    }

    /** Uncommitted documents only touch workspaces marked dirty. */
    ghost predicate Staged()
      reads this, dir
    {
      writer.Some? && forall w :: Tracked(w) && w !in dirty ==> Agree(dir.committed, writer.value, w)
    }

    // ----- Cache maintenance ---------------------------------------------------------------------

    method Invalidate(w: string)
      modifies this`cache
      ensures cache == Without(old(cache), w)
    {
      cache := Without(cache, w);
    }

    method MarkWorkspaceDirty(w: string)
      modifies this`dirty
      ensures dirty == old(dirty) + {if w != "" then w else configWorkspace}
    {
      dirty := dirty + {if w != "" then w else configWorkspace};
    }

    method InvalidateDirty()
      modifies this`cache, this`dirty
      ensures dirty == {}
      ensures cache == Keep(old(cache), if old(dirty) == {} then {configWorkspace} else old(dirty))
    {
      if dirty == {} {
        KeepOne(cache, configWorkspace);
        Invalidate(configWorkspace);
        return;
      }
      ghost var all := dirty;
      while dirty != {}
        invariant Keep(cache, dirty) == Keep(old(cache), all)
        decreases |dirty|
      {
        var w :| w in dirty;
        KeepAfterWithout(cache, w, dirty - {w});
        assert dirty - {w} + {w} == dirty;
        dirty := dirty - {w};
        Invalidate(w);
      }
      KeepNothing(cache);
    }

    /** Reload; a generation published elsewhere drops the whole cache. */
    method RefreshReader()
      requires Valid()
      modifies this
      ensures Valid() && seen == dir.generation && reader == dir.committed
      ensures writer == old(writer) && dirty == old(dirty)
      ensures cache == if old(seen) == dir.generation then old(cache) else []
      ensures Now() == Moved(Own(), old(Now()), Refresh)
    {
      MoveKeeps(Own(), Now(), Refresh);
      var changed := dir.generation != seen;
      reader := dir.committed;
      if changed {
        cache := [];
        seen := dir.generation;
      }
    }

    /** Commit, give the writer up, reload, and drop what the commit may have made stale. */
    method FinalizeWriter(invalidateAll: bool)
      requires Valid() && writer.Some?
      requires invalidateAll || Staged()
      modifies this, dir`committed
      ensures Valid() && writer == None && dirty == {} && seen == old(seen)
      ensures dir.committed == old(writer.value) && reader == dir.committed
      ensures Now() == Moved(Own(), old(Now()), if invalidateAll then Rewrite(old(writer.value))
                                                else Move.Commit(old(writer.value), old(dirty)))
      ensures Serves(Own(), old(Now()), Now())
    {
      ghost var before, m := Now(), if invalidateAll then Rewrite(writer.value) else Move.Commit(writer.value, dirty);
      MoveKeeps(Own(), before, m);
      ServesSelf(Own(), before);
      ServesMove(Own(), before, before, m);
      dir.committed := writer.value;
      writer := None;
      reader := dir.committed;
      if invalidateAll {
        cache, dirty := [], {};
      } else {
        InvalidateDirty();
      }
    }

    /** Look a workspace up, scanning and evicting the least recently used on a miss. */
    method TombstonedMemories(w: string) returns (dead: set<string>)
      requires Valid() && seen == dir.generation
      modifies this`cache
      ensures Valid()
      ensures Tracked(w) || !CacheHas(old(cache), w) ==> IsDeadSet(dir.committed, w, dead)
      ensures Allowed(Own(), old(Now()), Lookup(w, dead)) && Now() == Moved(Own(), old(Now()), Lookup(w, dead))
      ensures cache != [] && cache[|cache| - 1] == Cached(w, dead)
      ensures CacheHas(old(cache), w) ==> Cached(w, dead) in old(cache)
      ensures cache[..|cache| - 1] ==
              if CacheHas(old(cache), w) then Without(old(cache), w)
              else if |old(cache)| >= cacheMax then old(cache)[1..] else old(cache)
    {
      var i := FindCached(w);
      if i < |cache| {
        assert cache[i] in cache;
        dead := cache[i].dead;
        assert cache[i] == Cached(w, dead) && CacheHas(cache, w);
        MoveKeeps(Own(), Now(), Lookup(w, dead));
        cache := Without(cache, w) + [cache[i]];
        return;
      }
      assert !CacheHas(cache, w);
      dead := ScanDead(reader, w);
      MoveKeeps(Own(), Now(), Lookup(w, dead));
      assert Cached(w, dead) !in cache;
      if |cache| >= cacheMax {
        cache := cache[1..];
      }
      cache := cache + [Cached(w, dead)];
    }

    method FindCached(w: string) returns (i: nat)
      ensures i <= |cache| && forall j :: 0 <= j < i ==> cache[j].workspace != w
      ensures i < |cache| ==> cache[i].workspace == w
    {
      i := 0;
      while i < |cache| && cache[i].workspace != w
        invariant i <= |cache|
        invariant forall j :: 0 <= j < i ==> cache[j].workspace != w
      {
        i := i + 1;
      }
    }

    // ----- Reads ------------------------------------------------------------------------------------

    /** The visible texts of the committed index, each once, whatever other engines did. */
    method GetAll(w: string) returns (results: seq<string>)
      requires Valid()
      modifies this
      ensures Valid() && seen == dir.generation && reader == dir.committed
      ensures writer == old(writer) && dirty == old(dirty)
      ensures NoRepeats(results)
      ensures Tracked(w) || old(seen) != dir.generation || !CacheHas(old(cache), w) ==>
                forall c :: c in results <==> Visible(dir.committed, w, c)
      ensures Serves(Own(), old(Now()), Now())
    {
      ServesSelf(Own(), Now());
      ServesMove(Own(), Now(), Now(), Refresh);
      RefreshReader();
      ghost var looked, start := Now(), old(Now());
      var dead := TombstonedMemories(w);
      ServesMove(Own(), start, looked, Lookup(w, dead));
      results := LiveContents(reader, w, dead);
      if Tracked(w) || old(seen) != dir.generation || !CacheHas(old(cache), w) {
        forall c
          ensures c in results <==> Visible(dir.committed, w, c)
        {
          LiveNotDead(reader, w, dead, c);
        }
      }
    }

    method FindByExactMatch(w: string, c: string) returns (matches: seq<string>)
      requires Valid()
      modifies this
      ensures Valid() && seen == dir.generation && reader == dir.committed
      ensures writer == old(writer) && dirty == old(dirty)
      ensures Tracked(w) || old(seen) != dir.generation || !CacheHas(old(cache), w) ==>
                matches == if Visible(dir.committed, w, c) then [c] else []
      ensures Serves(Own(), old(Now()), Now())
    {
      var all := GetAll(w);
      matches := [];
      for i := 0 to |all|
        invariant matches == if c in all[..i] then [c] else []
      {
        assert all[..i + 1] == all[..i] + [all[i]];
        if all[i] == c {
          matches := matches + [all[i]];
        }
      }
      assert all[..|all|] == all;
    }

    // ----- Adds ---------------------------------------------------------------------------------------

    method EnsureWriter()
      modifies this`writer
      ensures writer.Some? && writer == if old(writer).Some? then old(writer) else Some(dir.committed)
    {
      if writer.None? {
        writer := Some(dir.committed);
      }
    }

    method AddDocument(d: Doc)
      requires writer.Some?
      modifies this`writer
      ensures writer == Some(old(writer.value) + [d])
    {
      writer := Some(writer.value + [d]);
    }

    method Add(w: string, c: string)
      requires Valid() && writer == None
      modifies this, dir`committed
      ensures Valid() && writer == None && reader == dir.committed && seen == old(seen)
      ensures Step(old(dir.committed), AddOp(w, [c]), dir.committed, 0)
      ensures Serves(Own(), old(Now()), Now())
    {
      EnsureWriter();
      AddDocument(Doc(w, c, false));
      MarkWorkspaceDirty(w);
      assert LiveDocs(w, [c]) == [Doc(w, c, false)];
      StagedAppend([Doc(w, c, false)], w);
      FinalizeWriter(false);
    }

    method AddBatch(w: string, contents: seq<string>)
      requires Valid() && writer == None
      modifies this, dir`committed
      ensures Valid() && writer == None && seen == old(seen)
      ensures contents != [] ==> reader == dir.committed
      ensures Step(old(dir.committed), AddOp(w, contents), dir.committed, 0)
      ensures Serves(Own(), old(Now()), Now())
    {
      ServesSelf(Own(), Now());
      if contents == [] {
        return;
      }
      EnsureWriter();
      assert dir.committed + [] == dir.committed;
      for i := 0 to |contents|
        invariant writer == Some(dir.committed + LiveDocs(w, contents[..i]))
        invariant Valid() && Now() == old(Now())
      {
        AddDocument(Doc(w, contents[i], false));
        assert contents[..i + 1][..i] == contents[..i];
        Reassociate(dir.committed, LiveDocs(w, contents[..i]), Doc(w, contents[i], false));
      }
      assert contents[..|contents|] == contents;
      MarkWorkspaceDirty(w);
      LiveDocsIn(w, contents);
      StagedAppend(LiveDocs(w, contents), w);
      FinalizeWriter(false);
    }

    lemma StagedAppend(extra: seq<Doc>, w: string)
      requires writer == Some(dir.committed + extra)
      requires forall d :: d in extra ==> d.workspace == w
      requires (if w != "" then w else configWorkspace) in dirty
      ensures Staged()
    {
      forall v | Tracked(v) && v !in dirty
        ensures Agree(dir.committed, writer.value, v)
      {
        AppendAgrees(dir.committed, extra, v);
      }
    }

    // ----- Soft deletes ---------------------------------------------------------------------------------

    method AddTombstoneDocs(w: string, c: string, count: nat)
      modifies this`writer, this`dirty
      ensures writer == Some((if old(writer).Some? then old(writer.value) else dir.committed) + TombstoneDocs(w, c, count))
      ensures dirty == old(dirty) + {if w != "" then w else configWorkspace}
    {
      EnsureWriter();
      ghost var start := writer.value;
      assert start + [] == start;
      for i := 0 to count
        invariant dirty == old(dirty)
        invariant writer == Some(start + TombstoneDocs(w, c, i))
      {
        AddDocument(Doc(w, c, true));
        Reassociate(start, TombstoneDocs(w, c, i), Doc(w, c, true));
      }
      MarkWorkspaceDirty(w);
    }

    /** Plants the surplus the reader shows as tombstones; `verifyExists` looks first, and
        looking refreshes the reader. */
    method SoftDelete(w: string, c: string, verifyExists: bool) returns (found: bool)
      requires Valid() && writer == None
      modifies this, dir`committed
      ensures Valid() && writer == None
      ensures var snapshot := if verifyExists then old(dir.committed) else old(reader);
              && (found ==> dir.committed == Tombstones.SoftDelete(old(dir.committed), snapshot, w, c))
              && (found ==> reader == dir.committed)
              && (!found ==> dir.committed == old(dir.committed))
              && (found ==> Visible(snapshot, w, c))
              && (Tracked(w) || !verifyExists ==> (found <==> Visible(snapshot, w, c)))
      ensures (verifyExists && Tracked(w)) || (!verifyExists && old(reader) == old(dir.committed)) ==>
                Step(old(dir.committed), DeleteOp(w, [c]), dir.committed, if found then 1 else 0)
      ensures Serves(Own(), old(Now()), Now())
    {
      ServesSelf(Own(), Now());
      if verifyExists {
        var existing := FindByExactMatch(w, c);
        if existing == [] {
          found := false;
          SoftDeleteOne(dir.committed, w, c);
          return;
        }
      }
      SoftDeleteOne(dir.committed, w, c);
      var live, tomb := CountLiveAndTomb(reader, w, c);
      var needed: int := live as int - tomb as int;
      if needed <= 0 {
        return false;
      }
      AddTombstoneDocs(w, c, needed);
      TombstoneDocsIn(w, c, needed);
      StagedAppend(TombstoneDocs(w, c, needed), w);
      ghost var looked := Now();
      FinalizeWriter(false);
      ServesThen(Own(), old(Now()), looked, Now());
      found := true;
    }

    lemma SoftDeleteOne(docs: seq<Doc>, w: string, c: string)
      ensures SoftDeleteAll(docs, docs, w, [c]) == Tombstones.SoftDelete(docs, docs, w, c)
      ensures !Visible(docs, w, c) ==> Tombstones.SoftDelete(docs, docs, w, c) == docs
      ensures VisibleCount(docs, w, [c]) == if Visible(docs, w, c) then 1 else 0
    {
      var one := [c];
      assert one[..|one| - 1] == [];
    }

    method Commit()
      requires Valid() && (writer.Some? ==> Staged())
      modifies this, dir`committed
      ensures Valid() && writer == None && seen == old(seen)
      ensures old(writer).Some? ==> dir.committed == old(writer).value && reader == dir.committed
      ensures old(writer).None? ==> dir.committed == old(dir.committed) && reader == old(reader)
      ensures Serves(Own(), old(Now()), Now())
    {
      ServesSelf(Own(), Now());
      if writer.Some? {
        FinalizeWriter(false);
      }
    }

    method CountRequested(w: string, requested: set<string>) returns (counts: map<string, (nat, nat)>)
      ensures RequestCounts(reader, w, requested, counts)
    {
      counts := map[];
      for i := 0 to |reader|
        invariant RequestCounts(reader[..i], w, requested, counts)
      {
        var d := reader[i];
        RequestCountsStep(reader, i, w, requested, counts);
        if d.workspace != w || d.content !in requested {
          continue;
        }
        counts := CountOne(counts, d);
      }
      Whole(reader);
    }

    ghost predicate Planted(w: string, unique: seq<string>, deleted: nat)
      reads this, dir
    {
      && (if writer.Some? then writer.value else dir.committed) == SoftDeleteAll(dir.committed, reader, w, unique)
      && (writer.Some? <==> deleted > 0)
      && (writer.Some? ==> (if w != "" then w else configWorkspace) in dirty)
      && deleted == VisibleCount(reader, w, unique)
    }

    /** Plant what one text needs, if it is visible in the snapshot. */
    method PlantOne(w: string, c: string, copies: (nat, nat), deleted: nat, ghost unique: seq<string>)
      returns (total: nat)
      requires Planted(w, unique, deleted)
      requires copies == (Live(reader, w, c), Tomb(reader, w, c))
      modifies this`writer, this`dirty
      ensures Planted(w, unique + [c], total)
    {
      SoftDeleteAllStep(dir.committed, reader, w, unique, c);
      var needed: int := copies.0 as int - copies.1 as int;
      if needed <= 0 {
        return deleted;
      }
      AddTombstoneDocs(w, c, needed);
      total := deleted + 1;
    }

    method PlantAll(w: string, contents: seq<string>, counts: map<string, (nat, nat)>) returns (deleted: nat)
      requires writer == None && RequestCounts(reader, w, Texts(contents), counts)
      modifies this`writer, this`dirty
      ensures Planted(w, Distinct(contents), deleted)
    {
      deleted := 0;
      var seenTexts: set<string> := {};
      ghost var unique: seq<string> := [];
      for i := 0 to |contents|
        invariant unique == Distinct(contents[..i])
        invariant forall c :: c in seenTexts <==> c in unique
        invariant Planted(w, unique, deleted)
      {
        var c := contents[i];
        DistinctStep(contents, i);
        if c in seenTexts {
          continue;
        }
        seenTexts := seenTexts + {c};
        assert c in Texts(contents);
        deleted := PlantOne(w, c, if c in counts then counts[c] else (0, 0), deleted, unique);
        unique := unique + [c];
      }
      assert contents[..|contents|] == contents;
    }

    /** One scan, one commit: the same documents as deleting each distinct text in turn
        against the one snapshot. */
    method SoftDeleteBatch(w: string, contents: seq<string>, verifyExists: bool) returns (deleted: nat)
      requires Valid() && writer == None
      modifies this, dir`committed
      ensures Valid() && writer == None
      ensures var snapshot := if verifyExists then old(dir.committed) else old(reader);
              && dir.committed == SoftDeleteAll(old(dir.committed), snapshot, w, Distinct(contents))
              && deleted == VisibleCount(snapshot, w, Distinct(contents))
      ensures Serves(Own(), old(Now()), Now())
    {
      ServesSelf(Own(), Now());
      if verifyExists {
        ServesMove(Own(), Now(), Now(), Refresh);
        RefreshReader();
      }
      ghost var looked := Now();
      var counts := CountRequested(w, Texts(contents));
      deleted := PlantAll(w, contents, counts);
      if writer.Some? {
        StagedBatch(reader, w, Distinct(contents));
      }
      Commit();
      ServesThen(Own(), old(Now()), looked, Now());
    }

    lemma StagedBatch(snapshot: seq<Doc>, w: string, unique: seq<string>)
      requires NoRepeats(unique)
      requires writer == Some(SoftDeleteAll(dir.committed, snapshot, w, unique))
      requires (if w != "" then w else configWorkspace) in dirty
      ensures Staged()
    {
      forall v | Tracked(v) && v !in dirty
        ensures Agree(dir.committed, writer.value, v)
      {
        SoftBatchAgrees(dir.committed, snapshot, w, unique, v);
      }
    }

    // ----- Rewrites -----------------------------------------------------------------------------------------

    method RewriteInPlace(keep: seq<Key>)
      requires Valid() && writer == None
      modifies this, dir`committed
      ensures Valid() && writer == None && seen == old(seen)
      ensures dir.committed == AsDocs(keep) && reader == dir.committed
      ensures Serves(Own(), old(Now()), Now())
    {
      EnsureWriter();
      writer := Some([]);
      assert AsDocs(keep[..0]) == [];
      for i := 0 to |keep|
        invariant writer == Some(AsDocs(keep[..i]))
        invariant Valid() && Now() == old(Now())
      {
        assert keep[..i + 1] == keep[..i] + [keep[i]];
        AsDocsSnoc(keep[..i], keep[i]);
        AddDocument(Doc(keep[i].workspace, keep[i].content, false));
      }
      assert keep[..|keep|] == keep;
      FinalizeWriter(true);
    }

    /** Hard delete: rewrite the reader's surviving documents without the text. */
    method DeleteViaRebuild(w: string, c: string) returns (found: bool)
      requires Valid() && writer == None
      modifies this, dir`committed
      ensures Valid() && writer == None && seen == old(seen)
      ensures found <==> Visible(old(reader), w, c)
      ensures found ==> IsRewrite(old(reader), true, w, c, dir.committed) && reader == dir.committed
      ensures !found ==> dir.committed == old(dir.committed) && reader == old(reader)
      ensures Gone(old(dir.committed), w, {c}, dir.committed) <==>
              if Visible(old(reader), w, c) then SameOutside(old(reader), old(dir.committed), w, {c})
              else !Visible(old(dir.committed), w, c)
      ensures Serves(Own(), old(Now()), Now())
    {
      ServesSelf(Own(), Now());
      ghost var docs, snapshot := dir.committed, reader;
      var all := AllDocs(reader);
      found := AnyKey(all, Key(w, c));
      if !found {
        return;
      }
      var keep := OtherKeys(all, Key(w, c));
      RewriteInPlace(keep);
      StaleRebuildExact(docs, snapshot, w, c, dir.committed);
    }

    /** One text, by either way of deleting. */
    method Delete(w: string, c: string, verifyExists: bool) returns (found: bool)
      requires Valid() && writer == None
      modifies this, dir`committed
      ensures Valid() && writer == None
      ensures Tracked(w) && Balanced(old(dir.committed)) &&
              (old(reader) == old(dir.committed) || (softDelete && verifyExists)) ==>
                && (found <==> Visible(old(dir.committed), w, c))
                && Removes(old(dir.committed), w, {c}, dir.committed)
      ensures !found ==> dir.committed == old(dir.committed)
      ensures softDelete ==>
                var snapshot := if verifyExists then old(dir.committed) else old(reader);
                && (found ==> Visible(snapshot, w, c) && dir.committed == Tombstones.SoftDelete(old(dir.committed), snapshot, w, c))
                && (Tracked(w) || !verifyExists ==> (found <==> Visible(snapshot, w, c)))
      ensures !softDelete ==>
                (found <==> Visible(old(reader), w, c)) && (found ==> IsRewrite(old(reader), true, w, c, dir.committed))
      ensures Serves(Own(), old(Now()), Now())
    {
      ghost var base, current := dir.committed, reader == dir.committed;
      if softDelete {
        if Balanced(base) {
          SoftOneRemoves(base, w, c);
        }
        found := SoftDelete(w, c, verifyExists);
        if found {
          ghost var deleted := Now();
          Commit();
          ServesThen(Own(), old(Now()), deleted, Now());
        }
        return;
      }
      found := DeleteViaRebuild(w, c);
      if Balanced(base) && current {
        RebuildRemoves(base, w, c, dir.committed);
      }
    }

    /** Both ways of deleting, against a reader that is up to date, remove exactly the
        requested texts and answer how many of them were there. */
    method DeleteBatch(w: string, contents: seq<string>, verifyExists: bool) returns (deleted: nat)
      requires Valid() && writer == None
      modifies this, dir`committed
      ensures Valid() && writer == None
      ensures Balanced(old(dir.committed)) && (old(reader) == old(dir.committed) || (softDelete && verifyExists)) ==>
                && Removes(old(dir.committed), w, Texts(contents), dir.committed)
                && deleted == |Texts(contents) * VisibleSet(old(dir.committed), w)|
      ensures softDelete ==>
                var snapshot := if verifyExists then old(dir.committed) else old(reader);
                && dir.committed == SoftDeleteAll(old(dir.committed), snapshot, w, Distinct(contents))
                && deleted == VisibleCount(snapshot, w, Distinct(contents))
      ensures !softDelete ==> Rebuilt(old(reader), old(dir.committed), w, Texts(contents), deleted)
      ensures Serves(Own(), old(Now()), Now())
    {
      ServesSelf(Own(), Now());
      ghost var base := dir.committed;
      if contents == [] {
        if Balanced(base) {
          RemovesNothing(base, w);
        }
        if Balanced(reader) {
          RemovesNothing(reader, w);
        }
        assert Texts(contents) == {};
        return 0;
      }
      if softDelete {
        if Balanced(base) {
          SoftBatchRemoves(base, w, contents);
        }
        deleted := SoftDeleteBatch(w, contents, verifyExists);
        return;
      }
      deleted := HardDeleteBatch(w, contents);
    }

    /** The reader holds what is left of `base` once `done` is deleted. */
    ghost predicate Rebuilt(base: seq<Doc>, committed: seq<Doc>, w: string, done: set<string>, deleted: nat)
      reads this, dir
    {
      && (deleted > 0 ==> dir.committed == reader)
      && (deleted == 0 ==> dir.committed == committed && reader == base)
      && (Balanced(base) ==> Removes(base, w, done, reader) && deleted == |done * VisibleSet(base, w)|)
    }

    method RebuildOne(w: string, c: string, deleted: nat, ghost base: seq<Doc>, ghost committed: seq<Doc>, ghost done: set<string>)
      returns (total: nat)
      requires Valid() && writer == None && Rebuilt(base, committed, w, done, deleted)
      modifies this, dir`committed
      ensures Valid() && writer == None && Rebuilt(base, committed, w, done + {c}, total)
      ensures Serves(Own(), old(Now()), Now())
    {
      ghost var mid := reader;
      var found := DeleteViaRebuild(w, c);
      if Balanced(base) {
        RebuildStep(base, w, done, deleted, mid, c, reader);
      }
      total := if found then deleted + 1 else deleted;
    }

    /** The rebuild never looks at the committed index, only at the reader: what it leaves
        is the reader's documents without the texts. */
    method HardDeleteBatch(w: string, contents: seq<string>) returns (deleted: nat)
      requires Valid() && writer == None
      modifies this, dir`committed
      ensures Valid() && writer == None
      ensures Rebuilt(old(reader), old(dir.committed), w, Texts(contents), deleted)
      ensures Balanced(old(reader)) ==>
                (Gone(old(dir.committed), w, Texts(contents), dir.committed) <==>
                 if deleted > 0 then SameOutside(old(reader), old(dir.committed), w, Texts(contents))
                 else forall c :: c in contents ==> !Visible(old(dir.committed), w, c))
      ensures Serves(Own(), old(Now()), Now())
    {
      ghost var base, committed := reader, dir.committed;
      deleted := RebuildEach(w, contents);
      if Balanced(base) {
        BatchExact(base, committed, w, contents, dir.committed, reader, deleted);
      }
    }

    method RebuildEach(w: string, contents: seq<string>) returns (deleted: nat)
      requires Valid() && writer == None
      modifies this, dir`committed
      ensures Valid() && writer == None
      ensures Rebuilt(old(reader), old(dir.committed), w, Texts(contents), deleted)
      ensures Serves(Own(), old(Now()), Now())
    {
      ServesSelf(Own(), Now());
      ghost var base, committed := reader, dir.committed;
      deleted := 0;
      if Balanced(base) {
        RemovesNothing(base, w);
      }
      assert Texts(contents[..0]) == {};
      for i := 0 to |contents|
        invariant Valid() && writer == None && Serves(Own(), old(Now()), Now())
        invariant Rebuilt(base, committed, w, Texts(contents[..i]), deleted)
      {
        ghost var mid := Now();
        deleted := RebuildOne(w, contents[i], deleted, base, committed, Texts(contents[..i]));
        ServesThen(Own(), old(Now()), mid, Now());
        TextsOne(contents, i);
      }
      assert contents[..|contents|] == contents;
    }

    /** Compaction refreshes first, so it rewrites the committed documents; the threshold
        is a count, or a ratio of tombstones to documents. */
    method Compact(force: bool)
      returns (compacted: bool, removedTombstones: nat, removedOriginals: nat, remaining: nat)
      requires Valid() && writer == None
      modifies this, dir`committed
      ensures Valid() && writer == None
      ensures compacted <==> force || NeedsCompaction(old(dir.committed))
      ensures compacted ==>
                && Step(old(dir.committed), CompactOp, dir.committed, 0)
                && removedTombstones == TombstoneTotal(old(dir.committed))
                && remaining == |dir.committed|
                && removedTombstones + removedOriginals + remaining == |old(dir.committed)|
      ensures !compacted ==>
                dir.committed == old(dir.committed) && removedTombstones == removedOriginals == remaining == 0
      ensures Serves(Own(), old(Now()), Now())
    {
      ServesSelf(Own(), Now());
      compacted, removedTombstones, removedOriginals, remaining := false, 0, 0, 0;
      if !force {
        ServesMove(Own(), Now(), Now(), Refresh);
        RefreshReader();
        if !NeedsCompaction(reader) {
          return;
        }
      }
      ServesMove(Own(), old(Now()), Now(), Refresh);
      RefreshReader();
      ghost var looked := Now();
      var keep;
      keep, removedTombstones, removedOriginals := CollectActiveDocs(reader);
      RewriteInPlace(keep);
      ServesThen(Own(), old(Now()), looked, Now());
      compacted, remaining := true, |keep|;
    }

    predicate NeedsCompaction(docs: seq<Doc>) {
      Due(docs, compactionMaxTombstones, compactionRatio)
    }

    // ----- Other engines -----------------------------------------------------------------------------------

    /** Another engine commits and then publishes a new generation, both under its lease. */
    method OtherEngineWrites(docs: seq<Doc>)
      requires Valid()
      modifies dir
      ensures Valid() && Now() == Moved(Own(), old(Now()), Foreign(docs))
    {
      MoveKeeps(Own(), Now(), Foreign(docs));
      dir.committed := docs;
      dir.generation := dir.generation + 1;
    }

    /** Another engine commits a write and stops before it publishes; this engine reloads.
        Its cache stays right exactly when the write leaves every cached set right. */
    method OtherEngineStops(op: Op, docs: seq<Doc>, ghost answer: nat)
      requires Valid() && seen == dir.generation && Step(dir.committed, op, docs, answer)
      modifies this`reader, dir`committed
      ensures dir.committed == reader == docs
      ensures Valid() <==> forall e :: e in cache && Tracked(e.workspace) ==> LeavesRight(old(dir.committed), op, e)
    {
      forall e | e in cache && Tracked(e.workspace)
        ensures IsDeadSet(docs, e.workspace, e.dead) <==> LeavesRight(dir.committed, op, e)
      {
        DeadAfter(dir.committed, op, docs, answer, e);
      }
      dir.committed := docs;
      reader := docs;
    }
  }
}
