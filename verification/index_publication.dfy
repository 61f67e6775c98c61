/** Several engines over one HNSW file, without any lease: a dirty engine whose seen
    identity is stale refuses to publish, so no published vector is ever lost
    (usearch_engine.py, `_maybe_reload_external`, `_publish_index`, `commit`). */
module IndexPublication {
  import opened Common
  import opened IndexIntegrity
  import opened CrashRecovery

  /** What one publish contributed: the engine's own additions and removals since it
      last agreed with the file. */
  datatype Delta = Delta(added: set<Id>, removed: set<Id>)

  datatype Handle =
    | Closed
    | Opened(mem: set<Id>, dirty: bool, seen: Option<nat>, own: Delta)

  datatype World = World(live: Option<IndexFile>, published: nat, handles: map<EngineId, Handle>, history: seq<Delta>)

  datatype Action =
    | Load(e: EngineId) | Put(e: EngineId, id: Id) | Drop(e: EngineId, id: Id)
    | Reload(e: EngineId) | Commit(e: EngineId) | CommitTorn(e: EngineId) | Close(e: EngineId)

  const NoDelta := Delta({}, {})

  function LiveKeys(w: World): set<Id> {
    if w.live.Some? then w.live.value.keys else {}
  }

  function LiveIdentity(w: World): Option<nat> {
    if w.live.Some? then Some(w.live.value.version) else None
  }

  function HandleOf(w: World, e: EngineId): Handle {
    if e in w.handles then w.handles[e] else Closed
  }

  function SetHandle(w: World, e: EngineId, h: Handle): World {
    w.(handles := w.handles[e := h])
  }

  /** `_maybe_reload_external`: a dirty engine keeps its memory. */
  function Reloaded(w: World, h: Handle): Handle
    requires h.Opened?
  {
    if h.dirty || w.live.None? || LiveIdentity(w) == h.seen then h
    else Opened(LiveKeys(w), false, LiveIdentity(w), NoDelta)
  }

  /** `commit` with refuse_stale: a live file this engine has not seen stops it. */
  predicate Refuses(w: World, h: Handle)
    requires h.Opened?
  {
    h.dirty && w.live.Some? && LiveIdentity(w) != h.seen
  }

  predicate Publishes(w: World, e: EngineId) {
    var h := HandleOf(w, e);
    h.Opened? && h.dirty && !Refuses(w, h)
  }

  function Step(w: World, a: Action): World {
    var h := HandleOf(w, a.e);
    match a
    case Load(e) =>
      if h.Closed? then SetHandle(w, e, Opened(LiveKeys(w), false, LiveIdentity(w), NoDelta)) else w
    case Put(e, id) =>
      if h.Closed? then w
      else
        var r := Reloaded(w, h);
        SetHandle(w, e, Opened(r.mem + {id}, true, r.seen, Delta(r.own.added + {id}, r.own.removed - {id})))
    case Drop(e, id) =>
      if h.Closed? then w
      else
        var r := Reloaded(w, h);
        if id !in r.mem then SetHandle(w, e, r)
        else SetHandle(w, e, Opened(r.mem - {id}, true, r.seen, Delta(r.own.added - {id}, r.own.removed + {id})))
    case Reload(e) => if h.Closed? then w else SetHandle(w, e, Reloaded(w, h))
    case Commit(e) =>
      if !Publishes(w, e) then w
      else
        var version := w.published + 1;
        SetHandle(w, e, Opened(h.mem, false, Some(version), NoDelta))
          .(live := Some(IndexFile(h.mem, version)), published := version, history := w.history + [h.own])
    case CommitTorn(e) =>
      // The file was replaced, and a call after that raised.
      if !Publishes(w, e) then w
      else
        var version := w.published + 1;
        w.(live := Some(IndexFile(h.mem, version)), published := version, history := w.history + [h.own])
    case Close(e) => SetHandle(w, e, Closed)
  }

  function Run(w: World, actions: seq<Action>): World {
    if actions == [] then w else Step(Run(w, actions[..|actions| - 1]), actions[|actions| - 1])
  }

  const Start := World(None, 0, map[], [])

  function Apply(keys: set<Id>, d: Delta): set<Id> {
    (keys + d.added) - d.removed
  }

  /** The key set obtained by replaying every published contribution in order. */
  function Replay(history: seq<Delta>): set<Id> {
    if history == [] then {} else Apply(Replay(history[..|history| - 1]), history[|history| - 1])
  }

  ghost predicate HandleInv(w: World, h: Handle) {
    h.Opened? ==>
      && (h.seen.Some? ==> h.seen.value <= w.published && w.live.Some?)
      && h.own.added !! h.own.removed
      && (!h.dirty ==> h.own == NoDelta)
      && (h.seen == LiveIdentity(w) ==> h.mem == Apply(LiveKeys(w), h.own))
  }

  ghost predicate WorldInv(w: World) {
    && (w.live.Some? ==> w.live.value.version <= w.published)
    && LiveKeys(w) == Replay(w.history)
    && forall e :: HandleInv(w, HandleOf(w, e))
  }

  lemma ReloadedKeeps(w: World, h: Handle)
    requires h.Opened? && WorldInv(w) && HandleInv(w, h)
    ensures HandleInv(w, Reloaded(w, h))
  {
    assert Apply(LiveKeys(w), NoDelta) == LiveKeys(w);
  }

  /** A step on one engine's memory leaves the file and every other engine alone. */
  lemma HandleStepKeeps(w: World, e: EngineId, h: Handle)
    requires WorldInv(w) && HandleInv(w, h)
    ensures WorldInv(SetHandle(w, e, h))
  {
    var w' := SetHandle(w, e, h);
    forall e'
      ensures HandleInv(w', HandleOf(w', e'))
    {
      assert HandleInv(w, HandleOf(w, e'));
    }
  }

  lemma PutKeeps(w: World, r: Handle, id: Id)
    requires r.Opened? && HandleInv(w, r)
    ensures HandleInv(w, Opened(r.mem + {id}, true, r.seen, Delta(r.own.added + {id}, r.own.removed - {id})))
  {
    var d := Delta(r.own.added + {id}, r.own.removed - {id});
    if r.seen == LiveIdentity(w) {
      assert r.mem + {id} == Apply(LiveKeys(w), d);
    }
  }

  lemma DropKeeps(w: World, r: Handle, id: Id)
    requires r.Opened? && HandleInv(w, r) && id in r.mem
    ensures HandleInv(w, Opened(r.mem - {id}, true, r.seen, Delta(r.own.added - {id}, r.own.removed + {id})))
  {
    var d := Delta(r.own.added - {id}, r.own.removed + {id});
    if r.seen == LiveIdentity(w) {
      assert r.mem - {id} == Apply(LiveKeys(w), d);
    }
  }

  /** What a publishing engine holds is the file plus its own contribution. */
  lemma PublisherHolds(w: World, e: EngineId)
    requires WorldInv(w) && Publishes(w, e)
    ensures HandleOf(w, e).mem == Apply(LiveKeys(w), HandleOf(w, e).own)
  {
    assert HandleInv(w, HandleOf(w, e));
    assert HandleOf(w, e).seen == LiveIdentity(w);
  }

  /** A handle of another engine is behind the freshly published file. */
  lemma OthersFallBehind(w: World, w': World, h: Handle)
    requires HandleInv(w, h) && w'.published == w.published + 1
    requires w'.live.Some? && w'.live.value.version == w'.published
    ensures HandleInv(w', h)
  {
  }

  lemma CommitKeeps(w: World, e: EngineId, a: Action)
    requires WorldInv(w) && Publishes(w, e) && (a == Commit(e) || a == CommitTorn(e))
    ensures WorldInv(Step(w, a))
  {
    var h, w' := HandleOf(w, e), Step(w, a);
    PublisherHolds(w, e);
    assert w'.history == w.history + [h.own] && w'.history[..|w'.history| - 1] == w.history;
    assert LiveKeys(w') == h.mem == Replay(w'.history);
    forall e'
      ensures HandleInv(w', HandleOf(w', e'))
    {
      if e' == e && a.Commit? {
        assert Apply(h.mem, NoDelta) == h.mem;
      } else {
        assert HandleInv(w, HandleOf(w, e'));
        OthersFallBehind(w, w', HandleOf(w, e'));
      }
    }
  }

  lemma StepKeepsWorld(w: World, a: Action)
    requires WorldInv(w)
    ensures WorldInv(Step(w, a))
  {
    var h := HandleOf(w, a.e);
    assert HandleInv(w, h);
    assert Apply(LiveKeys(w), NoDelta) == LiveKeys(w);
    if h.Opened? {
      ReloadedKeeps(w, h);
    }
    match a
    case Load(e) =>
      if h.Closed? {
        HandleStepKeeps(w, e, Opened(LiveKeys(w), false, LiveIdentity(w), NoDelta));
      }
    case Put(e, id) =>
      if h.Opened? {
        var r := Reloaded(w, h);
        PutKeeps(w, r, id);
        HandleStepKeeps(w, e, Opened(r.mem + {id}, true, r.seen, Delta(r.own.added + {id}, r.own.removed - {id})));
      }
    case Drop(e, id) =>
      if h.Opened? {
        var r := Reloaded(w, h);
        if id in r.mem {
          DropKeeps(w, r, id);
          HandleStepKeeps(w, e, Opened(r.mem - {id}, true, r.seen, Delta(r.own.added - {id}, r.own.removed + {id})));
        } else {
          HandleStepKeeps(w, e, r);
        }
      }
    case Reload(e) =>
      if h.Opened? {
        HandleStepKeeps(w, e, Reloaded(w, h));
      }
    case Commit(e) =>
      if Publishes(w, e) {
        CommitKeeps(w, e, a);
      }
    case CommitTorn(e) =>
      if Publishes(w, e) {
        CommitKeeps(w, e, a);
      }
    case Close(e) => HandleStepKeeps(w, e, Closed);
  }

  lemma {:induction false} RunKeepsWorld(actions: seq<Action>)
    ensures WorldInv(Run(Start, actions))
  {
    if actions == [] {
    } else {
      RunKeepsWorld(actions[..|actions| - 1]);
      StepKeepsWorld(Run(Start, actions[..|actions| - 1]), actions[|actions| - 1]);
    }
  }

  /** No lost update. In every run the file holds exactly the replay of all published
      contributions, and a publish writes the current keys plus the engine's own
      additions minus its own removals. */
  lemma NoLostUpdate(actions: seq<Action>, e: EngineId)
    ensures var w := Run(Start, actions);
            && LiveKeys(w) == Replay(w.history)
            && (Publishes(w, e) ==>
                  LiveKeys(Step(w, Commit(e))) == LiveKeys(Step(w, CommitTorn(e))) == Apply(LiveKeys(w), HandleOf(w, e).own))
  {
    RunKeepsWorld(actions);
    var w := Run(Start, actions);
    assert HandleInv(w, HandleOf(w, e));
  }

  /** A dirty engine is refused exactly when somebody published since it last agreed
      with the file; a refused commit changes nothing. */
  lemma RefusedExactlyWhenOvertaken(actions: seq<Action>, later: seq<Action>, e: EngineId)
    requires var w := Run(Start, actions);
             var h := HandleOf(w, e);
             h.Opened? && h.seen == LiveIdentity(w)
    requires forall k :: 0 <= k < |later| ==>
               !(later[k] == Commit(e)) && !(later[k] == CommitTorn(e)) && !(later[k] == Close(e))
    requires HandleOf(Run(Start, actions), e).dirty
    ensures var w := Run(Start, actions);
            var w' := Run(Start, actions + later);
            var h := HandleOf(w', e);
            && h.Opened? && h.dirty
            && (Refuses(w', h) <==> w'.published > w.published)
            && (Refuses(w', h) ==> Step(w', Commit(e)) == w')
  {
    RunKeepsWorld(actions);
    Overtaken(actions, later, e);
  }

  lemma {:induction false} Overtaken(actions: seq<Action>, later: seq<Action>, e: EngineId)
    requires WorldInv(Run(Start, actions))
    requires var h := HandleOf(Run(Start, actions), e);
             h.Opened? && h.dirty && h.seen == LiveIdentity(Run(Start, actions))
    requires forall k :: 0 <= k < |later| ==>
               !(later[k] == Commit(e)) && !(later[k] == CommitTorn(e)) && !(later[k] == Close(e))
    ensures var w := Run(Start, actions);
            var w' := Run(Start, actions + later);
            var h := HandleOf(w', e);
            && WorldInv(w')
            && h.Opened? && h.dirty && h.seen == LiveIdentity(w)
            && w'.published >= w.published
            && (w'.published == w.published ==> w'.live == w.live)
            && (w'.published > w.published ==> w'.live.Some? && w'.live.value.version > w.published)
  {
    if later == [] {
      assert actions + later == actions;
    } else {
      var rest := later[..|later| - 1];
      assert (actions + later)[..|actions + later| - 1] == actions + rest;
      Overtaken(actions, rest, e);
      StepKeepsWorld(Run(Start, actions + rest), later[|later| - 1]);
      StaysDirty(Run(Start, actions + rest), e, later[|later| - 1]);
    }
  }

  /** A dirty engine stays as it is under whatever is not its own commit or end; the file only
      ever gets newer. */
  lemma StaysDirty(w: World, e: EngineId, a: Action)
    requires WorldInv(w) && HandleOf(w, e).Opened? && HandleOf(w, e).dirty
    requires a != Commit(e) && a != CommitTorn(e) && a != Close(e)
    ensures var w', h := Step(w, a), HandleOf(Step(w, a), e);
            && h.Opened? && h.dirty && h.seen == HandleOf(w, e).seen
            && if w'.published == w.published then w'.live == w.live
               else w'.published == w.published + 1 && w'.live.Some? && w'.live.value.version == w'.published
  {
  }

  /** The keys an opened engine works on: its own while it has unpublished changes or the
      file has not moved, and the file's otherwise. */
  function Basis(w: World, e: EngineId): set<Id> {
    match HandleOf(w, e)
    case Closed => LiveKeys(w)
    case Opened(mem, dirty, seen, _) => if dirty || w.live.None? || LiveIdentity(w) == seen then mem else LiveKeys(w)
  }

  /** The file is the one this engine last agreed with, or there is none. */
  predicate UpToDate(w: World, e: EngineId) {
    HandleOf(w, e).Opened? && (w.live.None? || LiveIdentity(w) == HandleOf(w, e).seen)
  }

  /** What an engine holds after each of its own actions; the file and the others stay. */
  lemma HoldsAfter(w: World, e: EngineId, id: Id)
    ensures HandleOf(Step(w, Load(e)), e).Opened? && Basis(Step(w, Load(e)), e) == Basis(w, e)
    ensures HandleOf(w, e).Opened? ==>
              && HandleOf(Step(w, Put(e, id)), e).mem == Basis(w, e) + {id} && HandleOf(Step(w, Put(e, id)), e).dirty
              && HandleOf(Step(w, Drop(e, id)), e).mem == Basis(w, e) - {id}
              && HandleOf(Step(w, Reload(e)), e).mem == Basis(w, e)
    ensures HandleOf(Step(w, Close(e)), e).Closed?
    ensures forall a: Action :: a.e == e && !a.Commit? && !a.CommitTorn? ==>
              Step(w, a) == w.(handles := Step(w, a).handles) && forall o :: o != e ==> HandleOf(Step(w, a), o) == HandleOf(w, o)
  {
  }

  /** A commit publishes exactly if the engine has changes and nobody has overtaken it. */
  lemma CommitsExactly(w: World, e: EngineId)
    requires WorldInv(w)
    ensures var h, w' := HandleOf(w, e), Step(w, Commit(e));
            if UpToDate(w, e) && h.dirty then
              && LiveKeys(w') == h.mem && w'.history == w.history + [h.own] && w'.published == w.published + 1
              && HandleOf(w', e) == Opened(h.mem, false, LiveIdentity(w'), NoDelta)
            else w' == w
  {
  }

  /** A vector that an engine puts and commits is in the file then, unless it was overtaken
      with unpublished changes, and that refusal leaves the file as it was. */
  lemma PutIsPublished(actions: seq<Action>, e: EngineId, id: Id)
    requires HandleOf(Run(Start, actions), e).Opened?
    ensures var w := Run(Start, actions);
            var w' := Step(Step(w, Put(e, id)), Commit(e));
            if HandleOf(w, e).dirty && !UpToDate(w, e) then w'.live == w.live && w'.history == w.history
            else LiveKeys(w') == Basis(w, e) + {id} && |w'.history| == |w.history| + 1
  {
    RunKeepsWorld(actions);
    var w := Run(Start, actions);
    assert HandleInv(w, HandleOf(w, e));
    HoldsAfter(w, e, id);
  }

  /** After a torn commit every commit of that engine is refused, whatever anybody does,
      until it is closed; what it held is on file. */
  lemma {:induction false} TornIsRefusedForGood(actions: seq<Action>, e: EngineId, later: seq<Action>)
    requires Publishes(Run(Start, actions), e) && forall k :: 0 <= k < |later| ==> later[k] != Close(e)
    ensures var w := Run(Start, actions);
            var w' := Run(Step(w, CommitTorn(e)), later);
            && LiveKeys(Step(w, CommitTorn(e))) == HandleOf(w, e).mem
            && HandleOf(w', e).Opened? && Refuses(w', HandleOf(w', e)) && Step(w', Commit(e)) == Step(w', CommitTorn(e)) == w'
  {
    RunKeepsWorld(actions);
    TornAlong(Run(Start, actions), e, later);
  }

  lemma {:induction false} TornAlong(w: World, e: EngineId, later: seq<Action>)
    requires WorldInv(w) && Publishes(w, e) && forall k :: 0 <= k < |later| ==> later[k] != Close(e)
    ensures Behind(Run(Step(w, CommitTorn(e)), later), e)
  {
    assert HandleInv(w, HandleOf(w, e));
    if later != [] {
      TornAlong(w, e, later[..|later| - 1]);
      BehindStays(Run(Step(w, CommitTorn(e)), later[..|later| - 1]), e, later[|later| - 1]);
    }
  }

  /** A dirty engine that has not seen the live file. */
  predicate Behind(w: World, e: EngineId) {
    var h := HandleOf(w, e);
    && h.Opened? && h.dirty && w.live.Some? && w.live.value.version <= w.published
    && (h.seen.Some? ==> h.seen.value < w.live.value.version)
  }

  lemma BehindStays(w: World, e: EngineId, a: Action)
    requires Behind(w, e) && a != Close(e)
    ensures Behind(Step(w, a), e)
  {
  }
}
