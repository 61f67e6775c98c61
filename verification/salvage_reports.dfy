/** What a publication reports, told from its schedule
    (reflectlog/infrastructure/salvage_publication.py): which exception ends it, and what
    the clean-up makes of that. */
module SalvageReports {
  import opened Common
  import opened SalvagePublication
  import opened SalvageSchedules

  // ----- Which exception ends it --------------------------------------------------------------

  /** Of the calls from `s` to `t`, call `k` is the last that raises. */
  ghost predicate LastFault(z: Schedule, s: nat, t: nat, k: nat) {
    s <= k < t && z.faults(k).Fault? && Quiet(z, k + 1, t)
  }

  /** The exception in force after those calls: the last one raised, and `otherwise` if
      none was. */
  ghost predicate EndsWith(z: Schedule, s: nat, t: nat, error: Option<Kind>, otherwise: Option<Kind>) {
    && (forall k: nat :: LastFault(z, s, t, k) ==> error == Some(z.faults(k).kind))
    && (Quiet(z, s, t) ==> error == otherwise)
  }

  lemma OneLast(z: Schedule, s: nat, t: nat, k: nat, j: nat)
    requires LastFault(z, s, t, k) && LastFault(z, s, t, j)
    ensures k == j
  {
    assert k < j ==> z.faults(j).NoFault?;
    assert j < k ==> z.faults(k).NoFault?;
  }

  /** Calls before that raise nothing leave the exception as it is. */
  lemma QuietFirst(z: Schedule, r: nat, s: nat, t: nat, error: Option<Kind>, otherwise: Option<Kind>)
    requires r <= s <= t && Quiet(z, r, s) && EndsWith(z, s, t, error, otherwise)
    ensures EndsWith(z, r, t, error, otherwise)
  {
    QuietSplit(z, r, s, t);
    assert forall k: nat :: LastFault(z, r, t, k) ==> LastFault(z, s, t, k);
  }

  lemma {:induction false} FillEnds(z: Schedule, n: nat, raises: Option<Kind>, l: Line)
    ensures var w := FillRun(z, n, raises, l); l.s < w.l.s && EndsWith(z, l.s, w.l.s, w.error, raises)
    decreases n
  {
    var f, l1, w := z.faults(l.s), Next(z, l), FillRun(z, n, raises, l);
    if n > 0 && f.NoFault? {
      FillEnds(z, n - 1, raises, l1);
      QuietFirst(z, l.s, l.s + 1, w.l.s, w.error, raises);
    }
  }

  /** Writing a file ends with its last exception; a name that is taken counts as an OS error. */
  lemma WriteEnds(z: Schedule, name: Name, n: nat, raises: Option<Kind>, l: Line)
    ensures var w := WriteRun(z, name, n, raises, l);
            l.s < w.l.s && EndsWith(z, l.s, w.l.s, w.error, if Slot(Next(z, l).d, name) != Nobody then Some(Os) else raises)
  {
    var f, l1, w := z.faults(l.s), Next(z, l), WriteRun(z, name, n, raises, l);
    if Slot(l1.d, name) == Nobody && f.NoFault? {
      FillEnds(z, n, raises, Turn(l1, name, Mine));
      QuietFirst(z, l.s, l.s + 1, w.l.s, w.error, raises);
    }
  }

  /** What stops publishing when no call raises: a name that is taken, or the bundle itself. */
  ghost function Obstacle(z: Schedule, b: Bundle): Option<Kind> {
    if Marker in z.arrives(1) || Comes(z, Records, 1, 6) then Some(Os)
    else if b.recordsRaise.Some? then b.recordsRaise
    else if b.manifestRaises.Some? then b.manifestRaises
    else if Comes(z, Manifest, 1, ManifestStep(b) + 1) then Some(Os)
    else None
  }

  lemma CompleteEnds(z: Schedule, l: Line)
    ensures var st := CompleteRun(z, l); l.s < st.l.s <= l.s + 3 && EndsWith(z, l.s, st.l.s, st.error, None)
  {
    var st := CompleteRun(z, l);
    forall k: nat | LastFault(z, l.s, st.l.s, k)
      ensures st.error == Some(z.faults(k).kind)
    {
      assert k == st.l.s - 1;
    }
  }

  /** Publishing ends with the last exception of its calls, or with the obstacle. */
  lemma StepsEnd(z: Schedule, b: Bundle)
    ensures var st := StepsRun(z, b); 1 < st.l.s && EndsWith(z, 1, st.l.s, st.error, Obstacle(z, b))
  {
    WriteEnds(z, Marker, 1, None, Start);
    WriteFacts(z, Marker, 1, None, Start);
    if MarkerWritten(z) {
      RecordsEnd(z, b);
    } else {
      assert WriteRun(z, Marker, 1, None, Start).error.Some?;
    }
  }

  lemma RecordsEnd(z: Schedule, b: Bundle)
    requires MarkerWritten(z)
    ensures var st := StepsRun(z, b); 1 < st.l.s && EndsWith(z, 1, st.l.s, st.error, Obstacle(z, b))
  {
    WriteFacts(z, Marker, 1, None, Start);
    FirstTwo(z, b);
    var st, m := StepsRun(z, b), ManifestStep(b);
    var w1 := WriteRun(z, Marker, 1, None, Start);
    var w2 := WriteRun(z, Records, |b.records|, b.recordsRaise, w1.l);
    WriteEnds(z, Records, |b.records|, b.recordsRaise, w1.l);
    ComesSplit(z, Records, 1, 5, 6);
    assert Comes(z, Records, 5, 6) <==> Records in z.arrives(5);
    assert Slot(Next(z, w1.l).d, Records) != Nobody <==> Comes(z, Records, 1, 6);
    if w2.error.Some? {
      QuietFirst(z, 1, 5, st.l.s, st.error, Obstacle(z, b));
    } else if b.manifestRaises.None? {
      ManifestEnds(z, b, w2.l);
      QuietFirst(z, 1, m, st.l.s, st.error, Obstacle(z, b));
    }
  }

  lemma ManifestEnds(z: Schedule, b: Bundle, l: Line)
    requires l.s == ManifestStep(b) && l.d.manifest == Drift(z, Nobody, Manifest, 1, l.s) && l.d.marker != Nobody
    ensures var st := ManifestRun(z, l);
            && l.s < st.l.s
            && EndsWith(z, l.s, st.l.s, st.error, if Comes(z, Manifest, 1, ManifestStep(b) + 1) then Some(Os) else None)
  {
    var st, m, w := ManifestRun(z, l), ManifestStep(b), WriteRun(z, Manifest, 1, None, l);
    WriteEnds(z, Manifest, 1, None, l);
    WriteFacts(z, Manifest, 1, None, l);
    ComesSplit(z, Manifest, 1, m, m + 1);
    assert Comes(z, Manifest, m, m + 1) <==> Manifest in z.arrives(m);
    assert Slot(Next(z, l).d, Manifest) != Nobody <==> Comes(z, Manifest, 1, m + 1);
    if w.error.None? {
      CompleteEnds(z, w.l);
      QuietFirst(z, m, w.l.s, st.l.s, st.error, None);
    }
  }

  // ----- Published -------------------------------------------------------------------------------

  /** A publication succeeds exactly if nothing raises and no name is taken. */
  lemma PublishedExactly(z: Schedule, b: Bundle)
    ensures PublishRun(z, b).report == Published <==> Quiet(z, 0, ManifestStep(b) + 7) && Obstacle(z, b).None?
  {
    var m := ManifestStep(b);
    QuietSplit(z, 0, 1, m + 7);
    QuietSplit(z, 1, m, m + 7);
    assert Quiet(z, 0, 1) <==> z.faults(0).NoFault?;
    if ReachesManifest(z, b) {
      StopLate(z, b);
      assert z.faults(m).Fault? ==> !Quiet(z, m, m + 7);
    } else {
      StopEarly(z, b);
    }
  }

  // ----- The clean-up ------------------------------------------------------------------------------

  /** The clean-up is done exactly if its last call does not raise and leaves nothing; it is
      interrupted exactly if that call is; and each call before the last took one name off. */
  lemma {:induction false} CleanEnds(z: Schedule, left: seq<Name>, l: Line)
    ensures l.s < CleanRun(z, left, l).l.s
    ensures var c := CleanRun(z, left, l);
            var last := z.faults(c.l.s - 1);
            && |c.left| == |left| + 1 + l.s - c.l.s && c.left <= left
            && (c.done <==> last.NoFault? && c.l.d == Empty)
            && (c.escaped <==> last.Fault? && last.kind == Interrupt)
    decreases |left|
  {
    if left != [] {
      var l1, n, rest := Next(z, l), left[|left| - 1], left[..|left| - 1];
      CleanEnds(z, rest, l1);
      CleanEnds(z, rest, Turn(l1, n, Nobody));
    }
  }

  // ----- The report --------------------------------------------------------------------------------

  /** What the clean-up of `created`, started at call `s` and ended before call `t`, is
      reported as; the marker comes first in `created` if the run knows of one. */
  function CleanReport(z: Schedule, d: Dir, created: seq<Name>, s: nat, t: nat, marked: bool): Report
    requires s < t
  {
    var last := z.faults(t - 1);
    if last.Fault? && last.kind == Interrupt then Interrupted
    else if last.NoFault? && d == Empty then RolledBack
    else if marked && t <= s + |created| then LeftMarked
    else MustDelete
  }

  lemma CleanReported(z: Schedule, created: seq<Name>, l: Line, marked: bool)
    requires marked && created != [] ==> created[0] == Marker
    ensures var c := CleanRun(z, created, l);
            l.s < c.l.s && ReportOf(c, marked) == CleanReport(z, c.l.d, created, l.s, c.l.s, marked)
  {
    CleanEnds(z, created, l);
    var c := CleanRun(z, created, l);
    if marked && created != [] && c.left != [] {
      assert c.left[0] == created[0];
    }
  }

  /** The marker is written again: no call raises, and no other process has made one. */
  lemma MarkerBack(z: Schedule, l: Line)
    ensures var w := WriteRun(z, Marker, 1, None, l);
            && (w.error.None? <==> Quiet(z, l.s, l.s + 4) && !Blocked(z, Marker, l))
            && (w.error.None? ==> w.l.s == l.s + 4 && w.known)
            && EndsWith(z, l.s, w.l.s, w.error, if Blocked(z, Marker, l) then Some(Os) else None)
  {
    WriteFacts(z, Marker, 1, None, l);
    WriteEnds(z, Marker, 1, None, l);
  }

  /** What the names known before the clean-up are. */
  lemma KnownNames(z: Schedule, b: Bundle)
    ensures var st := StepsRun(z, b);
            if st.removed then st.created == [Records, Manifest]
            else st.created <= [Marker, Records, Manifest]
  {
    if ReachesManifest(z, b) {
      StopLate(z, b);
    } else {
      StopEarly(z, b);
    }
  }

  /** A failed publication that still has its marker: an interrupt in publishing or as the last
      call is passed on; otherwise the export is rolled back if the clean-up got through, left
      marked if it stopped at a file, and to be deleted if it stopped at the directory. */
  lemma ReportBeforeUnlink(z: Schedule, b: Bundle)
    requires z.faults(0).NoFault? && StepsRun(z, b).error.Some? && !StepsRun(z, b).removed
    ensures var st, o := StepsRun(z, b), PublishRun(z, b);
            if st.error == Some(Interrupt) then o.report == Interrupted
            else st.l.s < o.l.s && o.report == CleanReport(z, o.l.d, st.created, st.l.s, o.l.s, true)
  {
    var st := StepsRun(z, b);
    KnownNames(z, b);
    CleanReported(z, st.created, st.l, true);
  }

  lemma RollbackReported(z: Schedule, l: Line)
    ensures var o, w := RollbackRun(z, [Records, Manifest], true, l), WriteRun(z, Marker, 1, None, l);
            if w.error == Some(Interrupt) then o == Outcome(Interrupted, w.l)
            else
              && w.l.s < o.l.s
              && var all := if w.known then [Marker, Records, Manifest] else [Records, Manifest];
                 o.report == CleanReport(z, o.l.d, all, w.l.s, o.l.s, w.error.None?)
  {
    MarkerBack(z, l);
    var w := WriteRun(z, Marker, 1, None, l);
    assert [Marker] + [Records, Manifest] == [Marker, Records, Manifest];
    CleanReported(z, if w.known then [Marker, Records, Manifest] else [Records, Manifest], w.l, w.error.None?);
  }

  /** One that has taken its marker away puts it back first. If that is interrupted, so is the
      publication; if it fails otherwise, what the clean-up cannot remove must be deleted. An
      interrupt in publishing is passed on only if the clean-up gets through. */
  lemma ReportAfterUnlink(z: Schedule, b: Bundle)
    requires z.faults(0).NoFault? && StepsRun(z, b).error.Some? && StepsRun(z, b).removed
    ensures var st, o := StepsRun(z, b), PublishRun(z, b);
            var w := WriteRun(z, Marker, 1, None, st.l);
            if w.error == Some(Interrupt) then o.report == Interrupted && o.l == w.l
            else
              && w.l.s < o.l.s
              && var all := if w.known then [Marker, Records, Manifest] else [Records, Manifest];
                 var report := CleanReport(z, o.l.d, all, w.l.s, o.l.s, w.error.None?);
                 o.report == if report == RolledBack && st.error == Some(Interrupt) then Interrupted else report
  {
    KnownNames(z, b);
    RollbackReported(z, StepsRun(z, b).l);
  }

  /** Nothing was created: the first call failed. */
  lemma ReportAtOnce(z: Schedule, b: Bundle)
    requires z.faults(0).Fault?
    ensures PublishRun(z, b).report == if z.faults(0).kind == Os then CannotCreate else Interrupted
  {
  }
}
