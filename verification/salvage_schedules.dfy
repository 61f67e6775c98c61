/** What decides whether a bundle export keeps its promises: exact conditions on the faults
    and on the arrivals of other processes' files (reflectlog/infrastructure/salvage_publication.py). */
module SalvageSchedules {
  import opened Common
  import opened SalvagePublication

  predicate Quiet(z: Schedule, s: nat, t: nat) {
    forall u: nat :: s <= u < t ==> z.faults(u).NoFault?
  }

  /** The call has its effect, whatever it says. */
  predicate Effective(z: Schedule, u: nat) {
    z.faults(u).NoFault? || z.faults(u).late
  }

  predicate Late(z: Schedule, u: nat) {
    z.faults(u).Fault? && z.faults(u).late
  }

  ghost predicate Comes(z: Schedule, n: Name, s: nat, t: nat) {
    exists u: nat :: s <= u < t && n in z.arrives(u)
  }

  /** The call that creates the manifest, when every call before it succeeds. */
  function ManifestStep(b: Bundle): nat {
    8 + |b.records|
  }

  // ----- Filling and writing one file --------------------------------------------------------

  ghost function Drift(z: Schedule, w: Who, n: Name, s: nat, t: nat): Who {
    if w == Nobody && Comes(z, n, s, t) then Stray else w
  }

  /** From step `s` to `t` only arrivals changed the directory. */
  ghost predicate Drifts(z: Schedule, d: Dir, d': Dir, s: nat, t: nat) {
    && s <= t
    && d'.marker == Drift(z, d.marker, Marker, s, t)
    && d'.records == Drift(z, d.records, Records, s, t)
    && d'.manifest == Drift(z, d.manifest, Manifest, s, t)
  }

  lemma DriftFirst(z: Schedule, d: Dir, d': Dir, s: nat, t: nat)
    requires Drifts(z, Arrived(d, z.arrives(s)), d', s + 1, t)
    ensures Drifts(z, d, d', s, t)
  {
  }

  lemma NextDrifts(z: Schedule, l: Line)
    ensures Drifts(z, l.d, Next(z, l).d, l.s, l.s + 1)
  {
    DriftFirst(z, l.d, Next(z, l).d, l.s, l.s + 1);
  }

  lemma {:induction false} FillFacts(z: Schedule, n: nat, raises: Option<Kind>, l: Line)
    requires l.d.marker != Nobody
    ensures var w := FillRun(z, n, raises, l);
            && w.known && w.l.bad == l.bad && w.l.lost == l.lost && l.s < w.l.s <= l.s + n + 2
            && Drifts(z, l.d, w.l.d, l.s, w.l.s)
            && (w.error.None? <==> raises.None? && Quiet(z, l.s, l.s + n + 2))
            && (w.error.None? ==> w.l.s == l.s + n + 2)
    decreases n
  {
    var f, l1, w := z.faults(l.s), Next(z, l), FillRun(z, n, raises, l);
    if n == 0 && raises.Some? {
      NextDrifts(z, l);
    } else if f.Fault? || n == 0 {
      NextDrifts(z, l1);
      DriftFirst(z, l.d, w.l.d, l.s, w.l.s);
    } else {
      FillFacts(z, n - 1, raises, l1);
      DriftFirst(z, l.d, w.l.d, l.s, w.l.s);
    }
  }

  /** Somebody else's file has the name when this run wants to create it. */
  ghost predicate Blocked(z: Schedule, name: Name, l: Line) {
    Slot(l.d, name) != Nobody || name in z.arrives(l.s)
  }

  /** What became of the name itself. */
  ghost function Landed(z: Schedule, name: Name, l: Line): Who {
    if Blocked(z, name, l) then (if Slot(l.d, name) != Nobody then Slot(l.d, name) else Stray)
    else if z.faults(l.s).NoFault? then Mine
    else if !z.faults(l.s).late then Nobody
    else if name == Manifest then Stray
    else Mine
  }

  /** Writing one file: what it takes to succeed, and what it leaves. */
  lemma WriteFacts(z: Schedule, name: Name, n: nat, raises: Option<Kind>, l: Line)
    requires name in Protocol && (name == Marker || l.d.marker != Nobody)
    ensures var w, free := WriteRun(z, name, n, raises, l), !Blocked(z, name, l);
            && w.l.bad == (l.bad || Bad(Next(z, l).d)) && w.l.lost == l.lost && l.s < w.l.s <= l.s + n + 3
            && (w.error.None? <==> free && raises.None? && Quiet(z, l.s, l.s + n + 3))
            && (w.error.None? ==> w.l.s == l.s + n + 3)
            && (w.known <==> free && z.faults(l.s).NoFault?)
            && (if w.known then w.l.s > l.s + 1 else w.l.s == l.s + 1)
            && Slot(w.l.d, name) == Landed(z, name, l)
            && (name != Marker ==> w.l.d.marker == Drift(z, l.d.marker, Marker, l.s, w.l.s))
            && (name != Records ==> w.l.d.records == Drift(z, l.d.records, Records, l.s, w.l.s))
            && (name != Manifest ==> w.l.d.manifest == Drift(z, l.d.manifest, Manifest, l.s, w.l.s))
  {
    var f, l1, w := z.faults(l.s), Next(z, l), WriteRun(z, name, n, raises, l);
    NextDrifts(z, l);
    if Slot(l1.d, name) == Nobody && f.NoFault? {
      var l2 := Turn(l1, name, Mine);
      FillFacts(z, n, raises, l2);
      DriftFirst(z, SetSlot(l.d, name, Mine), w.l.d, l.s, w.l.s);
    }
  }

  // ----- Where publishing stops ----------------------------------------------------------------

  ghost predicate MarkerWritten(z: Schedule) {
    Marker !in z.arrives(1) && Quiet(z, 1, 5)
  }

  /** The manifest is about to be created. */
  ghost predicate ReachesManifest(z: Schedule, b: Bundle) {
    && Marker !in z.arrives(1) && !Comes(z, Records, 1, 6)
    && b.recordsRaise.None? && b.manifestRaises.None? && Quiet(z, 1, ManifestStep(b))
  }

  /** The marker is about to be taken away. */
  ghost predicate ReachesUnlink(z: Schedule, b: Bundle) {
    ReachesManifest(z, b) && !Comes(z, Manifest, 1, ManifestStep(b) + 1) && Quiet(z, 1, ManifestStep(b) + 5)
  }

  /** The call that takes the marker away raises after doing it. */
  ghost predicate LateUnlink(z: Schedule, b: Bundle) {
    ReachesUnlink(z, b) && Late(z, ManifestStep(b) + 5)
  }

  predicate AllMine(created: seq<Name>, d: Dir) {
    forall n :: n in created ==> Slot(d, n) == Mine
  }

  /** A manifest was there before the run created its own, or its creation raised late. */
  ghost predicate StrayManifest(z: Schedule, b: Bundle, s: nat) {
    var m := ManifestStep(b);
    Comes(z, Manifest, 1, if s <= m then s else m + 1) || (s == m + 1 && Late(z, m))
  }

  lemma ComesSplit(z: Schedule, n: Name, s: nat, t: nat, u: nat)
    requires s <= t <= u
    ensures Comes(z, n, s, u) <==> Comes(z, n, s, t) || Comes(z, n, t, u)
  {
    if Comes(z, n, s, u) && !Comes(z, n, s, t) {
      var k: nat :| s <= k < u && n in z.arrives(k);
      assert t <= k;
    }
  }

  lemma QuietSplit(z: Schedule, s: nat, t: nat, u: nat)
    requires s <= t <= u
    ensures Quiet(z, s, u) <==> Quiet(z, s, t) && Quiet(z, t, u)
  {
  }

  /** The marker and the records. */
  lemma FirstTwo(z: Schedule, b: Bundle)
    requires MarkerWritten(z)
    ensures var w1 := WriteRun(z, Marker, 1, None, Start);
            var w2 := WriteRun(z, Records, |b.records|, b.recordsRaise, w1.l);
            && w1.error.None? && w1.l.s == 5 && 5 < w2.l.s <= ManifestStep(b) && w2.l.lost == {} && w2.l.d.marker == Mine
            && (w2.l.bad <==> Manifest in z.arrives(1))
            && w2.l.d.manifest == Drift(z, Nobody, Manifest, 1, w2.l.s)
            && (w2.known ==> w2.l.d.records == Mine)
            && (w2.error.None? <==> !Comes(z, Records, 1, 6) && b.recordsRaise.None? && Quiet(z, 1, ManifestStep(b)))
            && (w2.error.None? ==> w2.known && w2.l.s == ManifestStep(b))
  {
    WriteFacts(z, Marker, 1, None, Start);
    var w1 := WriteRun(z, Marker, 1, None, Start);
    var w2 := WriteRun(z, Records, |b.records|, b.recordsRaise, w1.l);
    WriteFacts(z, Records, |b.records|, b.recordsRaise, w1.l);
    ComesSplit(z, Manifest, 1, 5, w2.l.s);
    ComesSplit(z, Records, 1, 5, 6);
    QuietSplit(z, 1, 5, ManifestStep(b));
    assert Comes(z, Records, 5, 6) <==> Records in z.arrives(5);
  }

  /** Sync, unlink, sync, from a directory that holds the three files. */
  lemma CompleteFacts(z: Schedule, l: Line)
    requires l.d.marker == Mine && l.d.records == Mine && l.d.manifest == Mine
    ensures var st := CompleteRun(z, l);
            && st.l.bad == l.bad && st.l.lost == l.lost && l.s < st.l.s <= l.s + 3
            && st.l.d.records == Mine && st.l.d.manifest == Mine
            && (st.removed <==> Quiet(z, l.s, l.s + 2))
            && st.created == (if st.removed then [Records, Manifest] else [Marker, Records, Manifest])
            && (st.removed ==> st.l.s == l.s + 3 && st.l.d.marker == if Comes(z, Marker, l.s + 2, l.s + 3) then Stray else Nobody)
            && (st.error.None? <==> Quiet(z, l.s, l.s + 3))
            && (!st.removed ==> st.l.d.marker == if z.faults(l.s).NoFault? && Late(z, l.s + 1) then Nobody else Mine)
            && (!st.removed && st.l.d.marker == Nobody ==> st.l.s == l.s + 2)
  {
  }

  lemma StopEarly(z: Schedule, b: Bundle)
    requires !ReachesManifest(z, b)
    ensures var st := StepsRun(z, b);
            && st.error.Some? && !st.removed && st.created in {[], [Marker], [Marker, Records]}
            && (st.l.bad <==> Manifest in z.arrives(1) && Marker !in z.arrives(1))
            && st.l.lost == {} && 1 < st.l.s <= ManifestStep(b) && AllMine(st.created, st.l.d)
            && (st.created == [] ==> st.l.s == 2) && (st.created != [] ==> Marker !in z.arrives(1))
            && st.l.d.manifest == Drift(z, Nobody, Manifest, 1, st.l.s)
  {
    WriteFacts(z, Marker, 1, None, Start);
    if MarkerWritten(z) {
      FirstTwo(z, b);
    }
  }

  lemma StopLate(z: Schedule, b: Bundle)
    requires ReachesManifest(z, b)
    ensures var st, m := StepsRun(z, b), ManifestStep(b);
            && (st.l.bad <==> Manifest in z.arrives(1)) && st.l.lost == {} && m < st.l.s <= m + 7
            && (st.l.s == m + 1 <==> Comes(z, Manifest, 1, m + 1) || z.faults(m).Fault?)
            && (st.l.s == m + 1 ==>
                  && st.created == [Marker, Records] && !st.removed && st.error.Some? && AllMine(st.created, st.l.d)
                  && (st.l.d.manifest == Stray <==> Comes(z, Manifest, 1, m + 1) || Late(z, m))
                  && st.l.d.manifest != Mine)
            && (st.l.s > m + 1 ==>
                  && st.l.d.manifest == Mine
                  && st.created == (if st.removed then [Records, Manifest] else [Marker, Records, Manifest])
                  && (st.removed <==> Quiet(z, 1, m + 6)) && (st.error.None? <==> Quiet(z, 1, m + 7))
                  && (st.removed ==> st.l.s == m + 7 && st.l.d.marker == if Comes(z, Marker, m + 6, m + 7) then Stray else Nobody)
                  && (AllMine(st.created, st.l.d) <==> !LateUnlink(z, b))
                  && (LateUnlink(z, b) ==> st.l.s == m + 6 && st.l.d.marker == Nobody && st.l.d.records == Mine))
  {
    var m := ManifestStep(b);
    QuietSplit(z, 1, 5, m);
    FirstTwo(z, b);
    var w1 := WriteRun(z, Marker, 1, None, Start);
    var w2 := WriteRun(z, Records, |b.records|, b.recordsRaise, w1.l);
    LastThree(z, b, w2.l);
  }

  /** The manifest and what follows it, from a directory with the marker and the records. */
  lemma LastThree(z: Schedule, b: Bundle, l: Line)
    requires ReachesManifest(z, b) && l.s == ManifestStep(b) && l.d.marker == Mine && l.d.records == Mine
    requires l.d.manifest == Drift(z, Nobody, Manifest, 1, l.s)
    ensures var st, m := ManifestRun(z, l), ManifestStep(b);
            && st.l.bad == l.bad && st.l.lost == l.lost && m < st.l.s <= m + 7
            && (st.l.s == m + 1 <==> Comes(z, Manifest, 1, m + 1) || z.faults(m).Fault?)
            && (st.l.s == m + 1 ==>
                  && st.created == [Marker, Records] && !st.removed && st.error.Some? && AllMine(st.created, st.l.d)
                  && (st.l.d.manifest == Stray <==> Comes(z, Manifest, 1, m + 1) || Late(z, m))
                  && st.l.d.manifest != Mine)
            && (st.l.s > m + 1 ==>
                  && st.l.d.manifest == Mine
                  && st.created == (if st.removed then [Records, Manifest] else [Marker, Records, Manifest])
                  && (st.removed <==> Quiet(z, 1, m + 6)) && (st.error.None? <==> Quiet(z, 1, m + 7))
                  && (st.removed ==> st.l.s == m + 7 && st.l.d.marker == if Comes(z, Marker, m + 6, m + 7) then Stray else Nobody)
                  && (AllMine(st.created, st.l.d) <==> !LateUnlink(z, b))
                  && (LateUnlink(z, b) ==> st.l.s == m + 6 && st.l.d.marker == Nobody && st.l.d.records == Mine))
  {
    var m := ManifestStep(b);
    var w := WriteRun(z, Manifest, 1, None, l);
    WriteFacts(z, Manifest, 1, None, l);
    ComesSplit(z, Manifest, 1, m, m + 1);
    assert Comes(z, Manifest, m, m + 1) <==> Manifest in z.arrives(m);
    QuietSplit(z, 1, m, m + 4);
    if w.error.None? {
      AfterManifest(z, b, w.l);
    }
  }

  /** The three calls after the manifest. */
  lemma AfterManifest(z: Schedule, b: Bundle, l: Line)
    requires ReachesManifest(z, b) && Quiet(z, 1, l.s) && l.s == ManifestStep(b) + 4
    requires !Comes(z, Manifest, 1, ManifestStep(b) + 1)
    requires l.d.marker == Mine && l.d.records == Mine && l.d.manifest == Mine
    ensures var st, m := CompleteRun(z, l), ManifestStep(b);
            && st.l.bad == l.bad && st.l.lost == l.lost && m + 4 < st.l.s <= m + 7 && st.l.d.manifest == Mine
            && st.created == (if st.removed then [Records, Manifest] else [Marker, Records, Manifest])
            && (st.removed <==> Quiet(z, 1, m + 6)) && (st.error.None? <==> Quiet(z, 1, m + 7))
            && (st.removed ==> st.l.s == m + 7 && st.l.d.marker == if Comes(z, Marker, m + 6, m + 7) then Stray else Nobody)
            && (AllMine(st.created, st.l.d) <==> !LateUnlink(z, b))
            && (LateUnlink(z, b) ==> st.l.s == m + 6 && st.l.d.marker == Nobody && st.l.d.records == Mine)
  {
    var m := ManifestStep(b);
    QuietSplit(z, 1, m + 4, m + 5);
    QuietSplit(z, 1, m + 4, m + 6);
    QuietSplit(z, 1, m + 4, m + 7);
    CompleteFacts(z, l);
    var st := CompleteRun(z, l);
    assert LateUnlink(z, b) <==> !st.removed && st.l.d.marker == Nobody;
    assert !st.removed ==> Marker in st.created;
  }

  // ----- Looking complete early ------------------------------------------------------------------

  ghost predicate NeverComes(z: Schedule, n: Name, s: nat) {
    forall u: nat :: s <= u ==> n !in z.arrives(u)
  }

  /** The clean-up gets as far as the marker, and takes it away. */
  ghost predicate TakesMarker(z: Schedule, created: seq<Name>, s: nat) {
    created != [] && Quiet(z, s, s + |created| - 1) && Effective(z, s + |created| - 1)
  }

  lemma {:induction false} CleanKnown(z: Schedule, left: seq<Name>, l: Line)
    requires NeverComes(z, Manifest, l.s) && l.d.manifest != Stray
    ensures CleanRun(z, left, l).l.bad == l.bad
    decreases |left|
  {
    if left != [] {
      var l1, n, rest := Next(z, l), left[|left| - 1], left[..|left| - 1];
      CleanKnown(z, rest, l1);
      CleanKnown(z, rest, Turn(l1, n, Nobody));
    }
  }

  /** With every manifest known, cleaning up never looks complete early. */
  lemma RollbackKnown(z: Schedule, created: seq<Name>, removed: bool, l: Line)
    requires NeverComes(z, Manifest, l.s) && l.d.manifest != Stray
    ensures RollbackRun(z, created, removed, l).l.bad == l.bad
  {
    if removed {
      WriteFacts(z, Marker, 1, None, l);
      var w := WriteRun(z, Marker, 1, None, l);
      CleanKnown(z, if w.known then [Marker] + created else created, w.l);
    } else {
      CleanKnown(z, created, l);
    }
  }

  /** Publishing itself never does: only a manifest that another process puts there before
      the marker can be seen too early. */
  lemma StepsNeverEarly(z: Schedule, b: Bundle)
    ensures StepsRun(z, b).l.bad <==> Manifest in z.arrives(1) && Marker !in z.arrives(1)
    ensures PublishRun(z, b).report == Published ==> !PublishRun(z, b).l.bad
  {
    if ReachesManifest(z, b) {
      StopLate(z, b);
    } else {
      StopEarly(z, b);
    }
  }

  /** There are two ways only: a manifest from another process, or one of this run whose
      creation raised after taking effect. Any other faults and arrivals are harmless. */
  lemma OnlyTwoWays(z: Schedule, b: Bundle)
    requires NeverComes(z, Manifest, 1) && !Late(z, ManifestStep(b))
    ensures !PublishRun(z, b).l.bad
  {
    StepsNeverEarly(z, b);
    StopManifest(z, b);
    var st := StepsRun(z, b);
    RollbackKnown(z, st.created, st.removed, st.l);
  }

  /** Whether publishing stops beside a manifest this run does not know of. */
  lemma StopManifest(z: Schedule, b: Bundle)
    ensures var st := StepsRun(z, b);
            && st.l.s > 1 && (st.l.d.manifest == Stray <==> StrayManifest(z, b, st.l.s))
            && (st.l.d.manifest == Stray ==>
                  !st.removed && st.created in {[], [Marker], [Marker, Records]} && AllMine(st.created, st.l.d)
                  && (st.created == [] ==> st.l.s == 2))
  {
    if ReachesManifest(z, b) {
      StopLate(z, b);
    } else {
      StopEarly(z, b);
    }
  }

  /** An unknown manifest meets the clean-up without the marker: the clean-up takes the marker
      away, and the manifest was there, comes by then, or comes before the directory is
      tried. The removal of a manifest this run knows of takes the first call. */
  ghost predicate Uncovers(z: Schedule, created: seq<Name>, stray: bool, s: nat) {
    && TakesMarker(z, created, s)
    && var u := s + |created| - 1;
       || stray || Comes(z, Manifest, if Manifest in created then s + 1 else s, u + 1)
       || (z.faults(u).NoFault? && Manifest in z.arrives(u + 1) && Marker !in z.arrives(u + 1))
  }

  lemma ManifestLast(left: seq<Name>)
    requires left != [] && left <= [Marker, Records, Manifest]
    ensures Manifest !in left[..|left| - 1] && (left[|left| - 1] == Manifest <==> Manifest in left)
  {
    assert left == left[..|left| - 1] + [left[|left| - 1]];
    assert left[..|left| - 1] <= [Marker, Records];
  }

  lemma {:induction false} CleanUncovers(z: Schedule, left: seq<Name>, l: Line)
    requires left != [] && left <= [Marker, Records, Manifest] && AllMine(left, l.d) && !l.bad
    requires l.d.manifest == Mine ==> Manifest in left
    ensures CleanRun(z, left, l).l.bad <==> Uncovers(z, left, l.d.manifest == Stray, l.s)
    decreases |left|
  {
    var l1, n, rest, u := Next(z, l), left[|left| - 1], left[..|left| - 1], l.s + |left| - 1;
    assert left[0] == Marker && Slot(l.d, left[0]) == Mine;
    AllMineStep(z, left, l);
    assert l1.d.marker == Mine && !l1.bad;
    if |left| == 1 {
      assert left == [Marker];
    } else if z.faults(l.s).NoFault? {
      var l2 := Turn(l1, n, Nobody);
      CleanUncovers(z, rest, l2);
      assert CleanRun(z, left, l) == CleanRun(z, rest, l2);
      assert TakesMarker(z, left, l.s) <==> TakesMarker(z, rest, l2.s) by {
        QuietSplit(z, l.s, l.s + 1, u);
      }
      ManifestLast(left);
      assert n == Manifest ==> l2.d.manifest == Nobody && l.d.manifest == Mine;
      assert n != Manifest ==> (l2.d.manifest == Stray <==> l.d.manifest == Stray || Manifest in z.arrives(l.s));
    } else {
      assert n != Marker && !Quiet(z, l.s, u);
    }
  }

  /** A manifest and no marker came since call `s`, which took the run's own manifest away. */
  ghost predicate Exposed(z: Schedule, s: nat, t: nat) {
    Comes(z, Manifest, s + 1, t + 1) && !Comes(z, Marker, s, t + 1)
  }

  /** The same when the marker is gone already: the run's own manifest goes first, then its
      records, and then, if it is still `listed`, a marker that may be another process's. */
  ghost predicate UncoversBare(z: Schedule, listed: bool, s: nat) {
    z.faults(s).NoFault?
    && (Exposed(z, s, s + 1)
        || (z.faults(s + 1).NoFault?
            && (Exposed(z, s, s + 2) || (listed && Effective(z, s + 2) && UncoversListed(z, s)))))
  }

  ghost predicate UncoversListed(z: Schedule, s: nat) {
    || (Comes(z, Marker, s, s + 3) && Comes(z, Manifest, s + 1, s + 3))
    || ((z.faults(s + 2).NoFault? || !Comes(z, Marker, s, s + 3)) && Comes(z, Manifest, s + 1, s + 4) && Marker !in z.arrives(s + 3))
  }

  lemma CleanBare(z: Schedule, listed: bool, l: Line)
    requires l.d.marker == Nobody && l.d.records == Mine && l.d.manifest == Mine && !l.bad
    ensures CleanRun(z, if listed then [Marker, Records, Manifest] else [Records, Manifest], l).l.bad
            <==> UncoversBare(z, listed, l.s)
  {
    var all := if listed then [Marker, Records, Manifest] else [Records, Manifest];
    var rest := if listed then [Marker, Records] else [Records];
    assert all[..|all| - 1] == rest;
    if z.faults(l.s).NoFault? {
      var l1 := Turn(Next(z, l), Manifest, Nobody);
      assert CleanRun(z, all, l) == CleanRun(z, rest, l1);
      CleanBareRecords(z, listed, l1, l.s);
    }
  }

  /** Only the records, and perhaps the marker, are still to go. */
  lemma CleanBareRecords(z: Schedule, listed: bool, l: Line, s: nat)
    requires l.s == s + 1 && l.d.marker == (if Marker in z.arrives(s) then Stray else Nobody)
    requires l.d.records == Mine && l.d.manifest == Nobody && !l.bad
    ensures CleanRun(z, if listed then [Marker, Records] else [Records], l).l.bad
            <==> Exposed(z, s, s + 1)
                 || (z.faults(s + 1).NoFault?
                     && (Exposed(z, s, s + 2) || (listed && Effective(z, s + 2) && UncoversListed(z, s))))
  {
    var all, rest: seq<Name> := if listed then [Marker, Records] else [Records], if listed then [Marker] else [];
    assert all[..|all| - 1] == rest;
    BareSteps(z, s);
    var l1 := Next(z, l);
    assert Bad(l1.d) <==> Exposed(z, s, s + 1);
    if z.faults(s + 1).NoFault? {
      var l2 := Turn(l1, Records, Nobody);
      assert CleanRun(z, all, l) == CleanRun(z, rest, l2);
      assert Bad(Next(z, l2).d) <==> Exposed(z, s, s + 2);
      if listed {
        CleanBareLast(z, l2);
      }
    }
  }

  /** The first instants one by one. */
  lemma BareSteps(z: Schedule, s: nat)
    ensures Comes(z, Marker, s, s + 2) <==> Marker in z.arrives(s) || Marker in z.arrives(s + 1)
    ensures Comes(z, Marker, s, s + 3) <==> Comes(z, Marker, s, s + 2) || Marker in z.arrives(s + 2)
    ensures Comes(z, Manifest, s + 1, s + 2) <==> Manifest in z.arrives(s + 1)
    ensures Comes(z, Manifest, s + 1, s + 3) <==> Manifest in z.arrives(s + 1) || Manifest in z.arrives(s + 2)
    ensures Comes(z, Manifest, s + 1, s + 4) <==> Comes(z, Manifest, s + 1, s + 3) || Manifest in z.arrives(s + 3)
  {
    ComesThrice(z, Marker, s);
    ComesThrice(z, Manifest, s + 1);
  }

  lemma CleanBareLast(z: Schedule, l: Line)
    requires l.d.marker != Mine && l.d.manifest != Mine && (Bad(l.d) ==> l.bad)
    ensures var marked, manifest := l.d.marker == Stray || Marker in z.arrives(l.s), l.d.manifest == Stray || Manifest in z.arrives(l.s);
            CleanRun(z, [Marker], l).l.bad
            <==> l.bad || (manifest && !marked)
                 || (Effective(z, l.s)
                     && ((marked && manifest)
                         || ((z.faults(l.s).NoFault? || !marked) && (manifest || Manifest in z.arrives(l.s + 1)) && Marker !in z.arrives(l.s + 1))))
  {
    assert [Marker][..0] == [];
  }

  /** The clean-up after the marker was taken away and the last sync failed: it goes on
      without a marker when creating one fails and no other process has made one. */
  ghost predicate UncoversRestored(z: Schedule, s: nat)
    requires s > 0
  {
    !Comes(z, Marker, s - 1, s + 1)
    && if z.faults(s).Fault? then z.faults(s).kind == Os && !z.faults(s).late && UncoversBare(z, false, s + 1)
       else
         var w := CloseOf(z, s + 1);
         w.error != Some(Interrupt) && Uncovers(z, [Marker, Records, Manifest], false, w.l.s)
  }

  /** How writing the marker ends, once it is created. */
  function CloseOf(z: Schedule, s: nat): Wrote {
    FillRun(z, 1, None, Line(Empty, s, false, {}))
  }

  lemma {:induction false} FillSame(z: Schedule, n: nat, raises: Option<Kind>, l: Line, k: Line)
    requires l.s == k.s
    ensures FillRun(z, n, raises, l).error == FillRun(z, n, raises, k).error
    ensures FillRun(z, n, raises, l).l.s == FillRun(z, n, raises, k).l.s
    decreases n
  {
    if n > 0 {
      FillSame(z, n - 1, raises, Next(z, l), Next(z, k));
    }
  }

  lemma RollbackRestored(z: Schedule, l: Line)
    requires l.s > 0 && l.d.marker == (if Comes(z, Marker, l.s - 1, l.s) then Stray else Nobody)
    requires l.d.records == Mine && l.d.manifest == Mine && !l.bad
    ensures RollbackRun(z, [Records, Manifest], true, l).l.bad <==> UncoversRestored(z, l.s)
  {
    var w, f := WriteRun(z, Marker, 1, None, l), z.faults(l.s);
    WriteFacts(z, Marker, 1, None, l);
    Restored(z, l);
    ComesSplit(z, Marker, l.s - 1, l.s, l.s + 1);
    assert [Marker] + [Records, Manifest] == [Marker, Records, Manifest];
    if Blocked(z, Marker, l) || (f.Fault? && f.late) {
      CleanGuarded(z, [Records, Manifest], w.l);
    } else if f.NoFault? {
      FillSame(z, 1, None, Turn(Next(z, l), Marker, Mine), Line(Empty, l.s + 1, false, {}));
      CleanUncovers(z, [Marker, Records, Manifest], w.l);
    } else {
      assert w == Wrote(Some(f.kind), false, Next(z, l)) && w.l.s == l.s + 1;
      CleanBare(z, false, w.l);
    }
  }

  lemma {:induction false} CleanGuarded(z: Schedule, left: seq<Name>, l: Line)
    requires Marker !in left && l.d.marker != Nobody && !l.bad
    ensures !CleanRun(z, left, l).l.bad
    decreases |left|
  {
    if left != [] {
      var n, rest := left[|left| - 1], left[..|left| - 1];
      assert n in left;
      CleanGuarded(z, rest, Next(z, l));
      CleanGuarded(z, rest, Turn(Next(z, l), n, Nobody));
    }
  }

  /** For every schedule: the directory looks complete early exactly when another process puts
      a manifest there before any marker, or the clean-up uncovers one that was there before
      the run's own, that the run's own creation left behind unknown, or that comes while the
      clean-up is at work. */
  lemma SeenTooEarlyExactly(z: Schedule, b: Bundle)
    ensures var st := StepsRun(z, b);
            PublishRun(z, b).l.bad
            <==> z.faults(0).NoFault? && Marker !in z.arrives(1)
                 && (Manifest in z.arrives(1) || (st.error.Some? && CleanUpUncovers(z, b, st)))
  {
    StepsNeverEarly(z, b);
    if z.faults(0).NoFault? {
      if Manifest in z.arrives(1) && Marker !in z.arrives(1) {
        BeforeTheMarker(z, b);
      } else if StepsRun(z, b).error.Some? {
        RollbackUncovers(z, b);
      }
    }
  }

  ghost predicate CleanUpUncovers(z: Schedule, b: Bundle, st: Stop) {
    if st.created == [] then !Late(z, 1) && Manifest in z.arrives(2) && Marker !in z.arrives(2)
    else if LateUnlink(z, b) then UncoversBare(z, true, st.l.s)
    else if st.removed then st.l.s > 0 && UncoversRestored(z, st.l.s)
    else Uncovers(z, st.created, StrayManifest(z, b, st.l.s), st.l.s)
  }

  lemma RollbackUncovers(z: Schedule, b: Bundle)
    requires StepsRun(z, b).error.Some? && (Manifest in z.arrives(1) ==> Marker in z.arrives(1))
    ensures var st := StepsRun(z, b);
            RollbackRun(z, st.created, st.removed, st.l).l.bad
            <==> Marker !in z.arrives(1) && CleanUpUncovers(z, b, st)
  {
    StepsNeverEarly(z, b);
    var st := StepsRun(z, b);
    if LateUnlink(z, b) {
      UnlinkedStop(z, b);
      CleanBare(z, true, st.l);
    } else {
      KnownStop(z, b);
      if st.created == [] {
        NothingKnown(z, b);
      } else if st.removed {
        assert Records in st.created && Manifest in st.created;
        RemovedStop(z, b);
        RollbackRestored(z, st.l);
      } else {
        assert st.created[0] == Marker;
        StopMine(z, b);
        StopManifest(z, b);
        CleanUncovers(z, st.created, st.l);
      }
    }
  }

  lemma RemovedStop(z: Schedule, b: Bundle)
    requires StepsRun(z, b).removed
    ensures var st := StepsRun(z, b);
            && st.l.s > 1 && Marker !in z.arrives(1)
            && st.l.d.marker == if Comes(z, Marker, st.l.s - 1, st.l.s) then Stray else Nobody
  {
    if ReachesManifest(z, b) {
      StopLate(z, b);
    } else {
      StopEarly(z, b);
    }
  }

  lemma NothingKnown(z: Schedule, b: Bundle)
    requires (Manifest in z.arrives(1) ==> Marker in z.arrives(1)) && StepsRun(z, b).created == []
    ensures var st := StepsRun(z, b);
            && st.error.Some? && !st.removed
            && (RollbackRun(z, [], false, st.l).l.bad
                <==> !Late(z, 1) && Manifest in z.arrives(2) && Marker !in z.arrives(2) && Marker !in z.arrives(1))
  {
    WriteFacts(z, Marker, 1, None, Start);
    StepsNeverEarly(z, b);
    if ReachesManifest(z, b) {
      StopLate(z, b);
    } else {
      StopEarly(z, b);
    }
  }

  lemma StopMine(z: Schedule, b: Bundle)
    requires Marker in StepsRun(z, b).created
    ensures var st := StepsRun(z, b);
            && st.error.Some? && !st.removed && (st.l.d.manifest == Mine ==> Manifest in st.created)
            && Marker !in z.arrives(1)
  {
    if ReachesManifest(z, b) {
      StopLate(z, b);
    } else {
      StopEarly(z, b);
    }
  }

  /** A run that gets to its manifest: it goes wrong exactly when another process was there
      first or the creation raises late, and the clean-up then takes the records and the
      marker away. */
  lemma AtTheManifestExactly(z: Schedule, b: Bundle)
    requires z.faults(0).NoFault? && ReachesManifest(z, b)
    requires Manifest !in z.arrives(1) && NeverComes(z, Manifest, ManifestStep(b) + 1)
    ensures var m := ManifestStep(b);
            PublishRun(z, b).l.bad
            <==> (Comes(z, Manifest, 2, m + 1) || Late(z, m)) && z.faults(m + 1).NoFault? && Effective(z, m + 2)
  {
    var m := ManifestStep(b);
    StopLate(z, b);
    StepsNeverEarly(z, b);
    var st := StepsRun(z, b);
    if st.l.s == m + 1 {
      SeenTooEarlyExactly(z, b);
      assert Quiet(z, m + 1, m + 2) <==> z.faults(m + 1).NoFault?;
      assert !Comes(z, Manifest, m + 1, m + 3) && Manifest !in z.arrives(m + 3);
    } else if st.error.Some? {
      RollbackKnown(z, st.created, st.removed, st.l);
    }
  }

  /** Faults alone, with nobody else in the directory. */
  lemma FaultsAloneExactly(z: Schedule, b: Bundle)
    requires NeverComes(z, Marker, 1) && NeverComes(z, Records, 1) && NeverComes(z, Manifest, 1)
    ensures var m := ManifestStep(b);
            PublishRun(z, b).l.bad
            <==> && Quiet(z, 0, m) && b.recordsRaise.None? && b.manifestRaises.None?
                 && Late(z, m) && z.faults(m + 1).NoFault? && Effective(z, m + 2)
  {
    var m := ManifestStep(b);
    QuietSplit(z, 0, 1, m);
    assert Quiet(z, 0, 1) <==> z.faults(0).NoFault?;
    if z.faults(0).NoFault? {
      if ReachesManifest(z, b) {
        AtTheManifestExactly(z, b);
      } else {
        StopEarly(z, b);
        var st := StepsRun(z, b);
        RollbackKnown(z, st.created, st.removed, st.l);
      }
    }
  }

  // ----- Other processes' files ------------------------------------------------------------------

  lemma AllMineStep(z: Schedule, left: seq<Name>, l: Line)
    requires left != [] && (left <= [Marker, Records, Manifest] || left <= [Records, Manifest]) && AllMine(left, l.d)
    ensures var n, rest, l1 := left[|left| - 1], left[..|left| - 1], Next(z, l);
            && Slot(l1.d, n) == Mine && (rest <= [Marker, Records, Manifest] || rest <= [Records, Manifest])
            && AllMine(left, l1.d) && AllMine(rest, Turn(l1, n, Nobody).d)
            && (rest != [] ==> rest[0] == left[0])
  {
    var n, rest := left[|left| - 1], left[..|left| - 1];
    assert left == rest + [n] && n in left;
    assert n !in rest && forall k :: k in rest ==> k in left;
    forall k | k in left
      ensures Slot(Next(z, l).d, k) == Mine && (k != n ==> Slot(Turn(Next(z, l), n, Nobody).d, k) == Mine)
    {
      assert Slot(l.d, k) == Mine;
    }
    assert left <= [Marker, Records, Manifest] ==> rest <= [Marker, Records, Manifest];
    assert left <= [Records, Manifest] ==> rest <= [Records, Manifest];
  }

  lemma {:induction false} CleanLosesNothing(z: Schedule, left: seq<Name>, l: Line)
    requires (left <= [Marker, Records, Manifest] || left <= [Records, Manifest]) && AllMine(left, l.d)
    ensures CleanRun(z, left, l).l.lost == l.lost
    decreases |left|
  {
    if left != [] {
      AllMineStep(z, left, l);
      CleanLosesNothing(z, left[..|left| - 1], Turn(Next(z, l), left[|left| - 1], Nobody));
    }
  }

  lemma ComesThrice(z: Schedule, n: Name, s: nat)
    ensures Comes(z, n, s, s + 3) <==> n in z.arrives(s) || n in z.arrives(s + 1) || n in z.arrives(s + 2)
  {
  }

  lemma CleanLosesMarker(z: Schedule, l: Line)
    requires l.d.marker == Nobody && l.d.records == Mine && l.d.manifest == Mine && l.lost == {}
    ensures var c := CleanRun(z, [Marker, Records, Manifest], l);
            c.l.lost == if Quiet(z, l.s, l.s + 2) && Comes(z, Marker, l.s, l.s + 3) && Effective(z, l.s + 2) then {Marker} else {}
  {
    var all := [Marker, Records, Manifest];
    assert all[..2] == [Marker, Records] && all[..2][..1] == [Marker] && [Marker][..0] == [];
    assert [Marker, Records][..1] == [Marker];
    ComesThrice(z, Marker, l.s);
    QuietSplit(z, l.s, l.s + 1, l.s + 2);
    if z.faults(l.s).NoFault? {
      var l1 := Turn(Next(z, l), Manifest, Nobody);
      if z.faults(l1.s).NoFault? {
        var l2 := Turn(Next(z, l1), Records, Nobody);
        CleanLosesLast(z, l2);
      }
    }
  }

  lemma CleanLosesLast(z: Schedule, l: Line)
    requires l.d.marker != Mine && l.lost == {}
    ensures var stray := l.d.marker == Stray || Marker in z.arrives(l.s);
            CleanRun(z, [Marker], l).l.lost == if stray && Effective(z, l.s) then {Marker} else {}
  {
    assert [Marker][..0] == [];
    CleanLosesNothing(z, [], Next(z, l));
    CleanLosesNothing(z, [], Turn(Next(z, l), Marker, Nobody));
  }

  lemma UnlinkedStop(z: Schedule, b: Bundle)
    requires LateUnlink(z, b)
    ensures var st := StepsRun(z, b);
            && st.error.Some? && !st.removed && st.created == [Marker, Records, Manifest] && st.l.s == ManifestStep(b) + 6
            && st.l.lost == {} && st.l.d.marker == Nobody && st.l.d.records == Mine && st.l.d.manifest == Mine
  {
    StopLate(z, b);
    assert z.faults(ManifestStep(b)).NoFault?;
  }

  /** Otherwise everything the run knows of is there and its own. */
  lemma KnownStop(z: Schedule, b: Bundle)
    requires !LateUnlink(z, b)
    ensures var st := StepsRun(z, b);
            && AllMine(st.created, st.l.d) && st.l.lost == {}
            && (if st.removed then st.created == [Records, Manifest] && st.l.s == ManifestStep(b) + 7
                else st.created <= [Marker, Records, Manifest])
  {
    if ReachesManifest(z, b) {
      StopLate(z, b);
    } else {
      StopEarly(z, b);
    }
  }

  lemma Restored(z: Schedule, l: Line)
    requires l.d.records == Mine && l.d.manifest == Mine
    ensures var w := WriteRun(z, Marker, 1, None, l);
            && w.l.lost == l.lost && (w.error.None? ==> w.known && w.l.s == l.s + 4)
            && AllMine(if w.known then [Marker, Records, Manifest] else [Records, Manifest], w.l.d)
  {
    WriteFacts(z, Marker, 1, None, l);
  }

  lemma RollbackLosesNothing(z: Schedule, st: Stop)
    requires AllMine(st.created, st.l.d)
    requires if st.removed then st.created == [Records, Manifest] else st.created <= [Marker, Records, Manifest]
    ensures RollbackRun(z, st.created, st.removed, st.l).l.lost == st.l.lost
  {
    if st.removed {
      assert Records in st.created && Manifest in st.created;
      Restored(z, st.l);
      var w := WriteRun(z, Marker, 1, None, st.l);
      assert [Marker] + [Records, Manifest] == [Marker, Records, Manifest];
      CleanLosesNothing(z, if w.known then [Marker] + st.created else st.created, w.l);
    } else {
      CleanLosesNothing(z, st.created, st.l);
    }
  }

  /** Clean-up removes another process's file exactly when the run's own marker went with a
      late exception, that process then made a marker, and the clean-up got to it. */
  lemma LosesTheirsExactly(z: Schedule, b: Bundle)
    ensures var m := ManifestStep(b);
            PublishRun(z, b).l.lost
            == if && z.faults(0).NoFault? && LateUnlink(z, b) && Quiet(z, m + 6, m + 8)
                  && Comes(z, Marker, m + 6, m + 9) && Effective(z, m + 8)
               then {Marker} else {}
  {
    var m, st := ManifestStep(b), StepsRun(z, b);
    if LateUnlink(z, b) {
      UnlinkedStop(z, b);
      CleanLosesMarker(z, st.l);
    } else {
      KnownStop(z, b);
      RollbackLosesNothing(z, st);
    }
  }

  // ----- Left marked ------------------------------------------------------------------------------

  lemma {:induction false} CleanMarks(z: Schedule, left: seq<Name>, l: Line)
    requires left != [] && left <= [Marker, Records, Manifest] && AllMine(left, l.d)
    requires Marker in CleanRun(z, left, l).left
    ensures CleanRun(z, left, l).l.d.marker == Nobody
            <==> Quiet(z, l.s, l.s + |left| - 1) && Late(z, l.s + |left| - 1)
    decreases |left|
  {
    var l1, n, rest := Next(z, l), left[|left| - 1], left[..|left| - 1];
    AllMineStep(z, left, l);
    assert Marker in left && l1.d.marker == Mine;
    if |left| > 1 && z.faults(l.s).NoFault? {
      CleanMarks(z, rest, Turn(l1, n, Nobody));
      QuietSplit(z, l.s, l.s + 1, l.s + |left| - 1);
    } else if |left| == 1 {
      assert rest == [];
    }
  }

  /** The marker is gone before the clean-up: up to the call that stops it no other one came,
      or that call took it away. */
  ghost predicate StaysUnmarked(z: Schedule, s: nat) {
    if z.faults(s).Fault? then !Comes(z, Marker, s, s + 1)
    else if z.faults(s + 1).Fault? then !Comes(z, Marker, s, s + 2)
    else Late(z, s + 2) || !Comes(z, Marker, s, s + 3)
  }

  lemma CleanUnmarked(z: Schedule, l: Line)
    requires l.d.marker == Nobody && l.d.records == Mine && l.d.manifest == Mine
    requires Marker in CleanRun(z, [Marker, Records, Manifest], l).left
    ensures CleanRun(z, [Marker, Records, Manifest], l).l.d.marker == Nobody <==> StaysUnmarked(z, l.s)
  {
    var all := [Marker, Records, Manifest];
    assert all[..2] == [Marker, Records];
    if z.faults(l.s).NoFault? {
      var l1 := Turn(Next(z, l), Manifest, Nobody);
      assert CleanRun(z, all, l) == CleanRun(z, [Marker, Records], l1);
      CleanUnmarkedRecords(z, l1, l.s);
    }
  }

  lemma CleanUnmarkedRecords(z: Schedule, l: Line, s: nat)
    requires l.s == s + 1 && l.d.marker == (if Marker in z.arrives(s) then Stray else Nobody) && l.d.records == Mine
    requires Marker in CleanRun(z, [Marker, Records], l).left
    ensures CleanRun(z, [Marker, Records], l).l.d.marker == Nobody
            <==> if z.faults(s + 1).Fault? then !Comes(z, Marker, s, s + 2) else Late(z, s + 2) || !Comes(z, Marker, s, s + 3)
  {
    assert [Marker, Records][..1] == [Marker];
    BareSteps(z, s);
    if z.faults(l.s).NoFault? {
      var l2 := Turn(Next(z, l), Records, Nobody);
      assert CleanRun(z, [Marker, Records], l) == CleanRun(z, [Marker], l2);
      CleanUnmarkedLast(z, l2);
    }
  }

  lemma CleanUnmarkedLast(z: Schedule, l: Line)
    requires Marker in CleanRun(z, [Marker], l).left
    ensures CleanRun(z, [Marker], l).l.d.marker == Nobody
            <==> Late(z, l.s) || (l.d.marker == Nobody && Marker !in z.arrives(l.s))
  {
    assert [Marker][..0] == [];
  }

  /** The removal of the marker that the clean-up would come to, were nothing to fail. */
  function MarkerRemoval(st: Stop): nat {
    if st.removed then st.l.s + 6 else if st.created == [] then st.l.s else st.l.s + |st.created| - 1
  }

  /** The report that the directory is left marked is wrong exactly when the call that took
      the marker away, in publishing or in the clean-up, raised after doing so, and no other
      process put one in its place. */
  lemma LeftMarkedExactly(z: Schedule, b: Bundle)
    requires PublishRun(z, b).report == LeftMarked
    ensures var st := StepsRun(z, b);
            PublishRun(z, b).l.d.marker == Nobody
            <==> if LateUnlink(z, b) then StaysUnmarked(z, st.l.s)
                 else Quiet(z, if st.removed then st.l.s + 4 else st.l.s, MarkerRemoval(st)) && Late(z, MarkerRemoval(st))
  {
    var st := StepsRun(z, b);
    StopManifest(z, b);
    if LateUnlink(z, b) {
      UnlinkedStop(z, b);
      CleanUnmarked(z, st.l);
    } else {
      KnownStop(z, b);
      RollbackMarks(z, st);
    }
  }

  lemma RollbackMarks(z: Schedule, st: Stop)
    requires AllMine(st.created, st.l.d)
    requires if st.removed then st.created == [Records, Manifest] else st.created <= [Marker, Records, Manifest]
    requires RollbackRun(z, st.created, st.removed, st.l).report == LeftMarked
    ensures RollbackRun(z, st.created, st.removed, st.l).l.d.marker == Nobody
            <==> Quiet(z, if st.removed then st.l.s + 4 else st.l.s, MarkerRemoval(st)) && Late(z, MarkerRemoval(st))
  {
    if st.removed {
      assert Records in st.created && Manifest in st.created;
      Restored(z, st.l);
      var w := WriteRun(z, Marker, 1, None, st.l);
      assert [Marker] + [Records, Manifest] == [Marker, Records, Manifest];
      CleanMarks(z, [Marker, Records, Manifest], w.l);
    } else {
      CleanLeft(z, st.created, st.l);
      CleanMarks(z, st.created, st.l);
    }
  }

  lemma {:induction false} CleanLeft(z: Schedule, left: seq<Name>, l: Line)
    ensures CleanRun(z, left, l).left <= left
    decreases |left|
  {
    if left != [] {
      CleanLeft(z, left[..|left| - 1], Next(z, l));
      CleanLeft(z, left[..|left| - 1], Turn(Next(z, l), left[|left| - 1], Nobody));
    }
  }

  // ----- Before the marker -----------------------------------------------------------------------

  lemma {:induction false} CleanStaysBad(z: Schedule, left: seq<Name>, l: Line)
    requires l.bad
    ensures CleanRun(z, left, l).l.bad
    decreases |left|
  {
    if left != [] {
      CleanStaysBad(z, left[..|left| - 1], Next(z, l));
      CleanStaysBad(z, left[..|left| - 1], Turn(Next(z, l), left[|left| - 1], Nobody));
    }
  }

  lemma RollbackStaysBad(z: Schedule, st: Stop)
    requires st.l.bad
    ensures RollbackRun(z, st.created, st.removed, st.l).l.bad
  {
    if st.removed {
      WriteFacts(z, Marker, 1, None, st.l);
      var w := WriteRun(z, Marker, 1, None, st.l);
      CleanStaysBad(z, if w.known then [Marker] + st.created else st.created, w.l);
    } else {
      CleanStaysBad(z, st.created, st.l);
    }
  }

  /** A manifest that another process puts in the new directory before the marker is seen as
      a complete export, whatever else happens. */
  lemma BeforeTheMarker(z: Schedule, b: Bundle)
    requires z.faults(0).NoFault? && Manifest in z.arrives(1) && Marker !in z.arrives(1)
    ensures PublishRun(z, b).l.bad
  {
    StepsNeverEarly(z, b);
    RollbackStaysBad(z, StepsRun(z, b));
  }

  // ----- Runs that show it ------------------------------------------------------------------------

  const Bare := Bundle([], None, "m", None)

  function At(s: nat, f: Fault): nat -> Fault {
    (u: nat) => if u == s then f else NoFault
  }

  function NobodyComes(): nat -> Files {
    (u: nat) => map[]
  }

  function Somebody(s: nat, n: Name): nat -> Files {
    (u: nat) => if u == s then map[n := "theirs"] else map[]
  }

  /** The open of the manifest is interrupted after creating it. */
  lemma LateManifestIsSeen()
    ensures var z := Schedule(At(8, Fault(Os, true, 0)), NobodyComes());
            PublishRun(z, Bare).l.bad
  {
    var z := Schedule(At(8, Fault(Os, true, 0)), NobodyComes());
    FaultsAloneExactly(z, Bare);
  }

  /** Another process writes a manifest while the marker is being written; nothing fails. */
  lemma ForeignManifestIsSeen()
    ensures PublishRun(Schedule(At(0, NoFault), Somebody(3, Manifest)), Bare).l.bad
  {
    var z := Schedule(At(0, NoFault), Somebody(3, Manifest));
    assert Manifest in z.arrives(3);
    AtTheManifestExactly(z, Bare);
  }

  /** Writing the marker fails, and so does removing it, after it is gone. */
  lemma LeftMarkedIsWrong()
    ensures var z := Schedule((u: nat) => if u == 2 then Fault(Os, false, 0) else if u == 4 then Fault(Os, true, 0) else NoFault, NobodyComes());
            PublishRun(z, Bare).report == LeftMarked && PublishRun(z, Bare).l.d.marker == Nobody
  {
  }

  lemma LostWhen(z: Schedule, theirs: Files)
    requires Late(z, 13) && (forall u: nat :: u != 13 ==> z.faults(u).NoFault?)
    requires Marker in theirs && z.arrives(14) == theirs && (forall u: nat :: u != 14 ==> z.arrives(u) == map[])
    ensures PublishRun(z, Bare).l.lost == {Marker}
  {
    assert ManifestStep(Bare) == 8 && LateUnlink(z, Bare);
    LosesTheirsExactly(z, Bare);
  }

  /** The unlink of the marker reports failure, another process marks the directory, and the
      clean-up takes that marker away. */
  lemma TheirMarkerIsLost()
    ensures PublishRun(Schedule(At(13, Fault(Os, true, 0)), Somebody(14, Marker)), Bare).l.lost == {Marker}
  {
    var z := Schedule(At(13, Fault(Os, true, 0)), Somebody(14, Marker));
    LostWhen(z, map[Marker := "theirs"]);
  }
}
