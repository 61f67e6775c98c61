/** Crash-visible publication of an export bundle
    (reflectlog/infrastructure/salvage_publication.py) against a file system in which any
    call may fail, before or after it took effect, with an OS error or an interrupt, and in
    which other processes may create files in the output directory at any time. */
module SalvagePublication {
  import opened Common

  datatype Name = Marker | Records | Manifest | Other(n: nat)

  datatype Kind = Os | Interrupt

  /** `late`: the effect happened although the call raised. `part`: how much of a failed
      write reached the file. */
  datatype Fault = NoFault | Fault(kind: Kind, late: bool, part: nat)

  type Files = map<Name, string>

  /** What happens at each call: its fault, and the files other processes created since the
      call before it. They never replace a file that is there. */
  datatype Schedule = Schedule(faults: nat -> Fault, arrives: nat -> Files)

  datatype Res = Done | NotFound | Raised(kind: Kind)

  /** What the records iterator yields, and where it raises instead of yielding more. */
  datatype Bundle = Bundle(records: seq<string>, recordsRaise: Option<Kind>, manifest: string, manifestRaises: Option<Kind>)

  const Protocol: set<Name> := {Marker, Records, Manifest}

  /** The directory at one instant. `theirs`: the files other processes put there, with
      their bytes. `orphan`: the manifest is this run's, from a call that raised. */
  datatype Snap = Snap(files: Files, theirs: Files, orphan: bool)

  // ----- Looking complete -------------------------------------------------------------------

  predicate Own(s: Snap, n: Name) {
    n in s.files && n !in s.theirs
  }

  /** To a reader of the directory the export is complete. */
  predicate LooksComplete(s: Snap) {
    Manifest in s.files && Marker !in s.files
  }

  /** Both files are this run's and hold all their bytes. */
  predicate IsFull(s: Snap, b: Bundle) {
    && Own(s, Manifest) && s.files[Manifest] == b.manifest
    && Own(s, Records) && s.files[Records] == Concat(b.records)
  }

  predicate Safe(s: Snap, b: Bundle) {
    LooksComplete(s) ==> IsFull(s, b)
  }

  ghost predicate AllSafe(trace: seq<Snap>, b: Bundle) {
    forall i :: 0 <= i < |trace| ==> Safe(trace[i], b)
  }

  // ----- The schedule alone -------------------------------------------------------------------

  /** Whose file has a name: nobody's, one this run knows of, or one it does not. */
  datatype Who = Nobody | Mine | Stray

  /** What a schedule does to the directory, contents aside. */
  datatype Dir = Dir(marker: Who, records: Who, manifest: Who, others: bool)

  const Empty := Dir(Nobody, Nobody, Nobody, false)

  function Slot(d: Dir, n: Name): Who {
    match n
    case Marker => d.marker
    case Records => d.records
    case Manifest => d.manifest
    case Other(_) => Nobody
  }

  function SetSlot(d: Dir, n: Name, w: Who): Dir {
    match n
    case Marker => d.(marker := w)
    case Records => d.(records := w)
    case Manifest => d.(manifest := w)
    case Other(_) => d.(others := true)
  }

  function Arrived(d: Dir, a: Files): Dir {
    Dir(if d.marker == Nobody && Marker in a then Stray else d.marker,
        if d.records == Nobody && Records in a then Stray else d.records,
        if d.manifest == Nobody && Manifest in a then Stray else d.manifest,
        d.others || a.Keys - Protocol != {})
  }

  /** A manifest this run does not vouch for, and no marker. */
  predicate Bad(d: Dir) {
    d.manifest == Stray && d.marker == Nobody
  }

  /** Where a run stands as far as the schedule decides it. `bad`: at some instant the
      directory looked complete without being so. `lost`: names of other processes' files
      that this run removed. */
  datatype Line = Line(d: Dir, s: nat, bad: bool, lost: set<Name>)

  /** Another call: the arrivals before it. */
  function Next(z: Schedule, l: Line): Line {
    var d := Arrived(l.d, z.arrives(l.s));
    Line(d, l.s + 1, l.bad || Bad(d), l.lost)
  }

  /** One name changes hands. */
  function Turn(l: Line, n: Name, w: Who): Line {
    var d := SetSlot(l.d, n, w);
    Line(d, l.s, l.bad || Bad(d), l.lost + if w == Nobody && Slot(l.d, n) == Stray then {n} else {})
  }

  datatype Wrote = Wrote(error: Option<Kind>, known: bool, l: Line)

  function CloseRun(z: Schedule, error: Option<Kind>, l: Line): Wrote {
    Wrote(if z.faults(l.s).Fault? then Some(z.faults(l.s).kind) else error, true, Next(z, l))
  }

  /** `n` writes, a sync and a close; the close happens on every path. */
  function FillRun(z: Schedule, n: nat, raises: Option<Kind>, l: Line): Wrote
    decreases n
  {
    var f := z.faults(l.s);
    if n == 0 && raises.Some? then CloseRun(z, raises, l)
    else if f.Fault? then CloseRun(z, Some(f.kind), Next(z, l))
    else if n == 0 then CloseRun(z, None, Next(z, l))
    else FillRun(z, n - 1, raises, Next(z, l))
  }

  function WriteRun(z: Schedule, name: Name, n: nat, raises: Option<Kind>, l: Line): Wrote {
    var f, l1 := z.faults(l.s), Next(z, l);
    if Slot(l1.d, name) != Nobody || (f.Fault? && !f.late) then
      Wrote(Some(if f.Fault? then f.kind else Os), false, l1)
    else if f.Fault? then
      Wrote(Some(f.kind), false, Turn(l1, name, if name == Manifest then Stray else Mine))
    else FillRun(z, n, raises, Turn(l1, name, Mine))
  }

  /** Where the publishing sequence stops, and what it knows it has created. */
  datatype Stop = Stop(error: Option<Kind>, created: seq<Name>, removed: bool, l: Line)

  /** Sync, take the marker away, sync again. */
  function CompleteRun(z: Schedule, l: Line): Stop {
    var all := [Marker, Records, Manifest];
    var f1, l1 := z.faults(l.s), Next(z, l);
    if f1.Fault? then Stop(Some(f1.kind), all, false, l1)
    else
      var f2, l2 := z.faults(l1.s), Next(z, l1);
      if f2.Fault? then Stop(Some(f2.kind), all, false, if f2.late then Turn(l2, Marker, Nobody) else l2)
      else
        var l3 := Turn(l2, Marker, Nobody);
        var f3 := z.faults(l3.s);
        Stop(if f3.Fault? then Some(f3.kind) else None, [Records, Manifest], true, Next(z, l3))
  }

  const Start := Line(Empty, 1, false, {})

  /** The manifest, once the records are written. */
  function ManifestRun(z: Schedule, l: Line): Stop {
    var w := WriteRun(z, Manifest, 1, None, l);
    if w.error.Some? then Stop(w.error, if w.known then [Marker, Records, Manifest] else [Marker, Records], false, w.l)
    else CompleteRun(z, w.l)
  }

  /** The records, once the marker is written. */
  function RecordsRun(z: Schedule, b: Bundle, l: Line): Stop {
    var w := WriteRun(z, Records, |b.records|, b.recordsRaise, l);
    if w.error.Some? then Stop(w.error, if w.known then [Marker, Records] else [Marker], false, w.l)
    else if b.manifestRaises.Some? then Stop(b.manifestRaises, [Marker, Records], false, w.l)
    else ManifestRun(z, w.l)
  }

  function StepsRun(z: Schedule, b: Bundle): Stop {
    var w := WriteRun(z, Marker, 1, None, Start);
    if w.error.Some? then Stop(w.error, if w.known then [Marker] else [], false, w.l)
    else RecordsRun(z, b, w.l)
  }

  datatype Clean = Clean(done: bool, escaped: bool, left: seq<Name>, l: Line)

  /** Removing what was created, newest first, and then the directory. */
  function CleanRun(z: Schedule, left: seq<Name>, l: Line): Clean
    decreases |left|
  {
    var f, l1 := z.faults(l.s), Next(z, l);
    if left == [] then
      var done := f.NoFault? && l1.d == Empty;
      Clean(done, !done && f.Fault? && f.kind == Interrupt, [], l1)
    else
      var n, rest := left[|left| - 1], left[..|left| - 1];
      if f.Fault? && !f.late then Clean(false, f.kind == Interrupt, left, l1)
      else if Slot(l1.d, n) == Nobody then CleanRun(z, rest, l1)
      else if f.Fault? then Clean(false, f.kind == Interrupt, left, Turn(l1, n, Nobody))
      else CleanRun(z, rest, Turn(l1, n, Nobody))
  }

  datatype Report =
    | Published
    | AlreadyExists
    | CannotCreate
    | RolledBack
    | LeftMarked
    | MustDelete
    | Interrupted

  datatype Outcome = Outcome(report: Report, l: Line)

  function ReportOf(c: Clean, restored: bool): Report {
    if c.escaped then Interrupted else if c.done then RolledBack
    else if restored && Marker in c.left then LeftMarked else MustDelete
  }

  function RollbackRun(z: Schedule, created: seq<Name>, removed: bool, l: Line): Outcome {
    if !removed then
      var c := CleanRun(z, created, l);
      Outcome(ReportOf(c, true), c.l)
    else
      var w := WriteRun(z, Marker, 1, None, l);
      if w.error == Some(Interrupt) then Outcome(Interrupted, w.l)
      else
        var c := CleanRun(z, if w.known then [Marker] + created else created, w.l);
        Outcome(ReportOf(c, w.error.None?), c.l)
  }

  /** What a schedule decides about one run on a new directory. */
  function PublishRun(z: Schedule, b: Bundle): Outcome {
    var f := z.faults(0);
    if f.Fault? then Outcome(if f.kind == Os then CannotCreate else Interrupted, Start)
    else
      var st := StepsRun(z, b);
      if st.error.None? then Outcome(Published, st.l)
      else
        var r := RollbackRun(z, st.created, st.removed, st.l);
        if st.error == Some(Interrupt) && !(st.removed && r.report in {LeftMarked, MustDelete}) then r.(report := Interrupted)
        else r
  }

  // ----- The directory -------------------------------------------------------------------------

  function WhoIs(s: Snap, n: Name): Who {
    if n !in s.files then Nobody
    else if n in s.theirs || (n == Manifest && s.orphan) then Stray
    else Mine
  }

  function DirOf(s: Snap): Dir {
    Dir(WhoIs(s, Marker), WhoIs(s, Records), WhoIs(s, Manifest), s.files.Keys - Protocol != {})
  }

  /** What the order of the calls keeps: other processes' files have their own bytes, a
      manifest this run knows of is without the marker only when everything is in place, and
      one it does not know of only when its records are not. */
  predicate Kept(s: Snap, b: Bundle) {
    && s.theirs.Keys <= s.files.Keys && (forall n :: n in s.theirs ==> s.files[n] == s.theirs[n])
    && (s.orphan ==> Own(s, Manifest))
    && (LooksComplete(s) && Own(s, Manifest) ==> if s.orphan then !Own(s, Records) else IsFull(s, b))
  }

  /** So the bytes are wrong exactly when the schedule says so. */
  lemma SafeExactly(s: Snap, b: Bundle)
    requires Kept(s, b)
    ensures Safe(s, b) <==> !Bad(DirOf(s))
  {
  }

  lemma EmptyExactly(s: Snap)
    ensures DirOf(s) == Empty <==> s.files == map[]
  {
    if DirOf(s) == Empty {
      assert forall n :: n in s.files.Keys ==> n in Protocol || n in s.files.Keys - Protocol;
      assert Marker !in s.files && Records !in s.files && Manifest !in s.files;
      assert s.files.Keys == {};
    }
  }

  function Come(s: Snap, a: Files): Snap {
    var added := a - s.files.Keys;
    Snap(s.files + added, s.theirs + added, s.orphan)
  }

  function Made(s: Snap, n: Name, raised: bool): Snap {
    Snap(s.files[n := ""], s.theirs, s.orphan || (raised && n == Manifest))
  }

  function Put(s: Snap, n: Name, chunk: string): Snap
    requires n in s.files
  {
    s.(files := s.files[n := s.files[n] + chunk])
  }

  function Gone(s: Snap, n: Name): Snap {
    Snap(s.files - {n}, s.theirs - {n}, s.orphan && n != Manifest)
  }

  /** Removing `n` does not uncover a manifest of this run over missing records. */
  predicate MayRemove(s: Snap, n: Name, b: Bundle) {
    && n in Protocol && (n == Manifest ==> !s.orphan)
    && (n == Marker && Own(s, Manifest) ==> if s.orphan then !Own(s, Records) else IsFull(s, b))
    && (n == Records && Own(s, Manifest) ==> Marker in s.files)
  }

  lemma PutBeside(s: Snap, a: Files, n: Name, chunk: string)
    requires Own(s, n)
    ensures Own(Come(s, a), n) && Come(s, a).files[n] == s.files[n]
    ensures var p := Put(Come(s, a), n, chunk);
            Beside(s, p, n) && Own(p, n) && p.files[n] == s.files[n] + chunk
  {
  }

  /** Apart from `n`, what was there is unchanged and what is new is somebody else's. */
  predicate Beside(before: Snap, now: Snap, n: Name) {
    && (forall k :: k in before.files && k != n ==>
          k in now.files && now.files[k] == before.files[k] && (k in now.theirs <==> k in before.theirs))
    && (forall k :: k in now.files && k !in before.files && k != n ==> k in now.theirs)
  }

  predicate Untouched(before: Files, now: Files, n: Name) {
    n in before && n in now && now[n] == before[n]
  }

  /** The names of which `now` no longer has the file it was. */
  function Taken(before: Files, now: Files): set<Name> {
    set n | n in before && !Untouched(before, now, n)
  }

  /** The line of a directory `s`, recorded after `t`. */
  function LineAt(s: Snap, t: Snap, l: Line): Line {
    Line(DirOf(s), l.s, l.bad || Bad(DirOf(s)), l.lost + Taken(t.theirs, s.theirs))
  }

  lemma GoneLine(s: Snap, n: Name, l: Line, b: Bundle)
    requires Kept(s, b) && MayRemove(s, n, b) && n in s.files && l.d == DirOf(s)
    ensures LineAt(Gone(s, n), s, l) == Turn(l, n, Nobody)
  {
    assert Taken(s.theirs, Gone(s, n).theirs) == if Slot(l.d, n) == Stray then {n} else {};
  }

  lemma MadeLine(s: Snap, n: Name, raised: bool, l: Line, b: Bundle)
    requires Kept(s, b) && n in Protocol && n !in s.files && (n != Marker ==> Marker in s.files) && l.d == DirOf(s)
    ensures LineAt(Made(s, n, raised), s, l) == Turn(l, n, if raised && n == Manifest then Stray else Mine)
  {
    assert Taken(s.theirs, Made(s, n, raised).theirs) == {};
  }

  // ----- The instants of a run --------------------------------------------------------------------

  ghost predicate AllKept(trace: seq<Snap>, b: Bundle) {
    trace == [] || (AllKept(trace[..|trace| - 1], b) && Kept(trace[|trace| - 1], b))
  }

  predicate Tainted(trace: seq<Snap>) {
    trace != [] && (Tainted(trace[..|trace| - 1]) || Bad(DirOf(trace[|trace| - 1])))
  }

  /** Names under which other processes' files were there and then were not, or not the same. */
  function Lost(trace: seq<Snap>): set<Name> {
    if |trace| < 2 then {}
    else Lost(trace[..|trace| - 1]) + Taken(trace[|trace| - 2].theirs, trace[|trace| - 1].theirs)
  }

  lemma {:induction false} SafeExactlyAll(trace: seq<Snap>, b: Bundle)
    requires AllKept(trace, b)
    ensures AllSafe(trace, b) <==> !Tainted(trace)
  {
    if trace != [] {
      var rest, last := trace[..|trace| - 1], trace[|trace| - 1];
      assert trace == rest + [last];
      SafeExactlyAll(rest, b);
      SafeExactly(last, b);
      SafeOneMore(rest, last, b);
    }
  }

  lemma SafeOneMore(trace: seq<Snap>, s: Snap, b: Bundle)
    ensures AllSafe(trace + [s], b) <==> AllSafe(trace, b) && Safe(s, b)
  {
    assert (trace + [s])[|trace|] == s;
    assert forall i :: 0 <= i < |trace| ==> (trace + [s])[i] == trace[i];
  }

  lemma OneMore(trace: seq<Snap>, s: Snap, b: Bundle)
    ensures AllKept(trace + [s], b) <==> AllKept(trace, b) && Kept(s, b)
    ensures Tainted(trace + [s]) <==> Tainted(trace) || Bad(DirOf(s))
    ensures trace != [] ==> Lost(trace + [s]) == Lost(trace) + Taken(trace[|trace| - 1].theirs, s.theirs)
  {
    assert (trace + [s])[..|trace|] == trace;
  }

  lemma FirstInstant(s: Snap)
    ensures Lost([s]) == {}
    ensures s.files == map[] ==> DirOf(s) == Empty && !Tainted([s])
  {
    EmptyExactly(s);
    assert [s][..0] == [];
  }

  lemma {:induction false} TheirsStay(trace: seq<Snap>, i: nat, n: Name)
    requires i < |trace| && n in trace[i].theirs
    ensures Untouched(trace[i].theirs, trace[|trace| - 1].theirs, n) || n in Lost(trace)
    decreases |trace|
  {
    if i < |trace| - 1 {
      var rest := trace[..|trace| - 1];
      assert rest[i] == trace[i];
      TheirsStay(rest, i, n);
    }
  }

  /** Whatever another process ever put there is there with its bytes, `lost` names aside. */
  ghost predicate TheirsKept(trace: seq<Snap>, files: Files, lost: set<Name>) {
    forall i, n :: 0 <= i < |trace| && n in trace[i].theirs && n !in lost ==> Untouched(trace[i].theirs, files, n)
  }

  lemma AllTheirsStay(trace: seq<Snap>, b: Bundle)
    requires trace != [] && AllKept(trace, b)
    ensures TheirsKept(trace, trace[|trace| - 1].files, Lost(trace))
  {
    forall i, n | 0 <= i < |trace| && n in trace[i].theirs && n !in Lost(trace)
      ensures Untouched(trace[i].theirs, trace[|trace| - 1].files, n)
    {
      TheirsStay(trace, i, n);
    }
  }

  /** The output directory, and the schedule that drives it. */
  class FileSystem {
    const z: Schedule
    /** The bundle whose publication the instants are judged by. */
    ghost const goal: Bundle
    var step: nat
    var dir: bool
    var now: Snap
    /** Every instant of the directory. */
    ghost var trace: seq<Snap>

    ghost function L(): Line
      reads this
    {
      Line(DirOf(now), step, Tainted(trace), Lost(trace))
    }

    ghost predicate Ok()
      reads this
    {
      && trace != [] && now == trace[|trace| - 1] && AllKept(trace, goal)
      && (!dir ==> now.files == map[])
    }

    /** A directory that is there is somebody else's. */
    constructor (z: Schedule, ghost goal: Bundle, dir: bool, there: Files)
      requires dir || there == map[]
      ensures this.z == z && this.goal == goal && this.dir == dir && now == Snap(there, there, false)
      ensures Ok() && step == 0 && trace == [now]
    {
      OneMore([], Snap(there, there, false), goal);
      this.z, this.goal, this.dir, now := z, goal, dir, Snap(there, there, false);
      step, trace := 0, [] + [Snap(there, there, false)];
    }

    /** The directory becomes `s`; the instant is recorded. */
    method Become(s: Snap)
      requires Ok() && dir && Kept(s, goal)
      modifies this`now, this`trace
      ensures Ok() && now == s && trace == old(trace) + [s]
      ensures L() == LineAt(s, old(now), old(L()))
    {
      OneMore(trace, s, goal);
      now, trace := s, trace + [s];
    }

    /** Another call: other processes' files turn up first. */
    method Tick() returns (f: Fault)
      requires Ok() && dir
      modifies this`step, this`now, this`trace
      ensures Ok() && f == z.faults(old(step)) && L() == Next(z, old(L()))
      ensures now == Come(old(now), z.arrives(old(step))) && trace == old(trace) + [now]
    {
      var a := z.arrives(step);
      Become(Come(now, a));
      f := z.faults(step);
      step := step + 1;
    }

    /** The first call; an existing directory is somebody else's and stays as it is. */
    method MakeDirectory() returns (r: Res, existed: bool)
      requires Ok() && step == 0
      modifies this`step, this`dir
      ensures Ok() && step == 1
      ensures old(dir) ==> dir && r.Raised?
      ensures !old(dir) ==> (dir <==> z.faults(0).NoFault? || z.faults(0).late)
      ensures existed <==> old(dir) && (z.faults(0).Fault? ==> z.faults(0).late)
      ensures old(dir) && !existed ==> r == Raised(z.faults(0).kind)
      ensures !old(dir) ==> r == if z.faults(0).Fault? then Raised(z.faults(0).kind) else Done
    {
      var f := z.faults(step);
      step := step + 1;
      if f.Fault? && !f.late {
        return Raised(f.kind), false;
      }
      if dir {
        return Raised(Os), true;
      }
      dir := true;
      r, existed := if f.Fault? then Raised(f.kind) else Done, false;
    }

    /** Exclusive creation: a file that is there is never opened. */
    method CreateFile(n: Name) returns (r: Res)
      requires Ok() && dir && n in Protocol && (n != Marker ==> Marker in now.files)
      modifies this`step, this`now, this`trace
      ensures Ok() && Beside(old(now), now, n)
      ensures var c, l, f := Come(old(now), z.arrives(old(step))), Next(z, old(L())), z.faults(old(step));
              if Slot(l.d, n) != Nobody || (f.Fault? && !f.late) then
                && r == Raised(if f.Fault? then f.kind else Os)
                && now == c && trace == old(trace) + [c] && L() == l
              else
                && r == (if f.Fault? then Raised(f.kind) else Done)
                && now == Made(c, n, f.Fault?) && trace == old(trace) + [c] + [now]
                && L() == Turn(l, n, if f.Fault? && n == Manifest then Stray else Mine)
    {
      var f := Tick();
      if (f.Fault? && !f.late) || n in now.files {
        return if f.Fault? then Raised(f.kind) else Raised(Os);
      }
      MadeLine(now, n, f.Fault?, L(), goal);
      Become(Made(now, n, f.Fault?));
      r := if f.Fault? then Raised(f.kind) else Done;
    }

    /** More bytes of an open file of this run. */
    method Append(n: Name, got: string)
      requires Ok() && dir && Own(now, n) && Marker in now.files
      modifies this`now, this`trace
      ensures Ok() && L() == old(L()) && now == Put(old(now), n, got) && trace == old(trace) + [now]
    {
      assert Taken(now.theirs, Put(now, n, got).theirs) == {};
      Become(Put(now, n, got));
    }

    /** A failed write may have put some of its bytes there. */
    method WriteAll(n: Name, chunk: string) returns (r: Res)
      requires Ok() && dir && Own(now, n) && Marker in now.files
      modifies this`step, this`now, this`trace
      ensures Ok() && L() == Next(z, old(L()))
      ensures r == if z.faults(old(step)).Fault? then Raised(z.faults(old(step)).kind) else Done
      ensures Own(now, n) && Beside(old(now), now, n) && now.orphan == old(now.orphan)
      ensures r.Done? ==> now.files[n] == old(now.files[n]) + chunk
      ensures trace == old(trace) + [Come(old(now), z.arrives(old(step)))] + [now]
    {
      ghost var start := now;
      var f := Tick();
      var got := if f.Fault? && f.part < |chunk| then chunk[..f.part] else chunk;
      PutBeside(start, z.arrives(old(step)), n, got);
      Append(n, got);
      r := if f.Fault? then Raised(f.kind) else Done;
    }

    /** Syncing and closing change nothing a reader can see. */
    method Sync() returns (r: Res)
      requires Ok() && dir
      modifies this`step, this`now, this`trace
      ensures Ok() && L() == Next(z, old(L()))
      ensures r == if z.faults(old(step)).Fault? then Raised(z.faults(old(step)).kind) else Done
      ensures now == Come(old(now), z.arrives(old(step))) && trace == old(trace) + [now]
    {
      var f := Tick();
      r := if f.Fault? then Raised(f.kind) else Done;
    }

    /** A file that is absent, whether or not the call then fails late, is not found. */
    method RemoveFile(n: Name) returns (r: Res)
      requires Ok() && dir && MayRemove(now, n, goal)
      modifies this`step, this`now, this`trace
      ensures Ok()
      ensures var c, l, f := Come(old(now), z.arrives(old(step))), Next(z, old(L())), z.faults(old(step));
              if (f.Fault? && !f.late) || Slot(l.d, n) == Nobody then
                && r == (if f.Fault? && !f.late then Raised(f.kind) else NotFound)
                && now == c && trace == old(trace) + [c] && L() == l
              else
                && r == (if f.Fault? then Raised(f.kind) else Done)
                && now == Gone(c, n) && trace == old(trace) + [c] + [now] && L() == Turn(l, n, Nobody)
    {
      var f := Tick();
      if f.Fault? && !f.late {
        return Raised(f.kind);
      }
      if n !in now.files {
        return NotFound;
      }
      GoneLine(now, n, L(), goal);
      Become(Gone(now, n));
      r := if f.Fault? then Raised(f.kind) else Done;
    }

    /** Only an empty directory goes. */
    method RemoveDirectory() returns (r: Res)
      requires Ok() && dir
      modifies this`step, this`now, this`trace, this`dir
      ensures Ok() && L() == Next(z, old(L()))
      ensures var f := z.faults(old(step));
              && (dir <==> L().d != Empty || (f.Fault? && !f.late))
              && r == if f.NoFault? && L().d == Empty then Done else Raised(if f.Fault? then f.kind else Os)
      ensures now == Come(old(now), z.arrives(old(step))) && trace == old(trace) + [now]
    {
      var f := Tick();
      EmptyExactly(now);
      if (f.Fault? && !f.late) || now.files != map[] {
        return if f.Fault? then Raised(f.kind) else Raised(Os);
      }
      dir := false;
      r := if f.Fault? then Raised(f.kind) else Done;
    }
  }

  // ----- The publisher --------------------------------------------------------------------------

  /** What is known to be created, newest last, as the publishing sequence leaves it: a
      manifest of this run that is not known stands only over known records and a marker. */
  predicate Tidy(created: seq<Name>, now: Snap) {
    && (created <= [Marker, Records, Manifest] || created <= [Records, Manifest])
    && (Own(now, Manifest) && !now.orphan ==> Manifest in created)
    && (now.orphan ==> Manifest !in created && (Own(now, Records) ==> Records in created)
                       && (Records in created ==> Marker in now.files))
  }

  lemma TidyMayRemove(left: seq<Name>, s: Snap, b: Bundle)
    requires Tidy(left, s) && left != []
    ensures MayRemove(s, left[|left| - 1], b)
  {
    assert left[|left| - 1] in left;
    assert left[|left| - 1] == Marker ==> left == [Marker];
    assert left[|left| - 1] == Records ==> Manifest !in left;
  }

  /** Writing the next file keeps the knowledge tidy, whether or not it is known to exist. */
  lemma TidyWrite(before: Snap, now: Snap, n: Name, created: seq<Name>, known: bool, b: Bundle)
    requires Tidy(created, before) && Beside(before, now, n) && Kept(now, b) && created + [n] <= [Marker, Records, Manifest]
    requires !before.orphan && (forall k :: k in created ==> Own(before, k))
    requires known ==> Own(now, n)
    requires known || n != Manifest ==> !now.orphan
    requires !known && n == Manifest && Own(now, Manifest) ==> now.orphan || Own(before, Manifest)
    ensures Tidy(if known then created + [n] else created, now)
    ensures forall k :: k in created ==> Own(now, k)
  {
    var all := created + [n];
    assert created == all[..|created|] && n == all[|created|];
    assert n != Manifest ==> Manifest !in created;
    assert n == Manifest ==> |created| == 2 && created[1] == Records;
  }

  lemma ConcatOne(payload: seq<string>, i: nat)
    requires i < |payload|
    ensures Concat(payload[..i + 1]) == Concat(payload[..i]) + payload[i]
  {
    assert payload[..i + 1][..i] == payload[..i];
  }

  class Publisher {
    const fs: FileSystem

    constructor (fs: FileSystem)
      ensures this.fs == fs
    {
      this.fs := fs;
    }

    /** The chunk at `i`. */
    method WriteOne(name: Name, payload: seq<string>, i: nat, ghost raises: Option<Kind>, ghost start: Snap)
      returns (error: Option<Kind>)
      requires fs.Ok() && fs.dir && Own(fs.now, name) && Marker in fs.now.files && Beside(start, fs.now, name)
      requires i < |payload| && fs.now.files[name] == Concat(payload[..i])
      modifies fs`step, fs`now, fs`trace
      ensures fs.Ok() && Own(fs.now, name) && Marker in fs.now.files && Beside(start, fs.now, name)
      ensures fs.now.orphan == old(fs.now.orphan)
      ensures FillRun(fs.z, |payload| - i, raises, old(fs.L()))
              == if error.Some? then CloseRun(fs.z, error, fs.L()) else FillRun(fs.z, |payload| - i - 1, raises, fs.L())
      ensures error.None? ==> fs.now.files[name] == Concat(payload[..i + 1])
    {
      ConcatOne(payload, i);
      var r := fs.WriteAll(name, payload[i]);
      error := if r.Raised? then Some(r.kind) else None;
    }

    /** The chunks, up to the first one that raises. */
    method WriteChunks(name: Name, payload: seq<string>, ghost raises: Option<Kind>) returns (error: Option<Kind>)
      requires fs.Ok() && fs.dir && Own(fs.now, name) && Marker in fs.now.files && fs.now.files[name] == ""
      modifies fs`step, fs`now, fs`trace
      ensures fs.Ok() && Own(fs.now, name) && Beside(old(fs.now), fs.now, name) && fs.now.orphan == old(fs.now.orphan)
      ensures FillRun(fs.z, |payload|, raises, old(fs.L()))
              == if error.Some? then CloseRun(fs.z, error, fs.L()) else FillRun(fs.z, 0, raises, fs.L())
      ensures error.None? ==> fs.now.files[name] == Concat(payload)
    {
      ghost var start, total := fs.now, FillRun(fs.z, |payload|, raises, fs.L());
      for i := 0 to |payload|
        invariant fs.Ok() && Own(fs.now, name) && Marker in fs.now.files && Beside(start, fs.now, name)
        invariant fs.now.orphan == start.orphan
        invariant fs.now.files[name] == Concat(payload[..i])
        invariant total == FillRun(fs.z, |payload| - i, raises, fs.L())
      {
        error := WriteOne(name, payload, i, raises, start);
        if error.Some? {
          return;
        }
      }
      assert payload[..|payload|] == payload;
      error := None;
    }

    /** Sync or close: files of this run stay as they are. */
    method Settle(ghost name: Name, error: Option<Kind>) returns (error': Option<Kind>)
      requires fs.Ok() && fs.dir && Own(fs.now, name)
      modifies fs`step, fs`now, fs`trace
      ensures fs.Ok() && Own(fs.now, name) && Beside(old(fs.now), fs.now, name)
      ensures fs.now.orphan == old(fs.now.orphan) && fs.now.files[name] == old(fs.now.files[name])
      ensures CloseRun(fs.z, error, old(fs.L())) == Wrote(error', true, fs.L())
    {
      var r := fs.Sync();
      error' := if r.Raised? then Some(r.kind) else error;
    }

    /** Fill an open file and close it, whatever happens. */
    method Fill(name: Name, payload: seq<string>, raises: Option<Kind>) returns (error: Option<Kind>)
      requires fs.Ok() && fs.dir && Own(fs.now, name) && Marker in fs.now.files && fs.now.files[name] == ""
      modifies fs`step, fs`now, fs`trace
      ensures fs.Ok() && Own(fs.now, name) && Beside(old(fs.now), fs.now, name) && fs.now.orphan == old(fs.now.orphan)
      ensures FillRun(fs.z, |payload|, raises, old(fs.L())) == Wrote(error, true, fs.L())
      ensures error.None? ==> fs.now.files[name] == Concat(payload)
    {
      error := WriteChunks(name, payload, raises);
      if error.None? {
        error := raises;
        if error.None? {
          error := Settle(name, None);
        }
      }
      error := Settle(name, error);
    }

    /** Create one file exclusively, fill it and close it. */
    method Write(name: Name, payload: seq<string>, raises: Option<Kind>) returns (error: Option<Kind>, known: bool)
      requires fs.Ok() && fs.dir && name in Protocol && (name != Marker ==> Marker in fs.now.files)
      modifies fs`step, fs`now, fs`trace
      ensures fs.Ok() && Beside(old(fs.now), fs.now, name)
      ensures WriteRun(fs.z, name, |payload|, raises, old(fs.L())) == Wrote(error, known, fs.L())
      ensures known ==> Own(fs.now, name)
      ensures error.None? ==> known && fs.now.files[name] == Concat(payload)
      ensures known || name != Manifest ==> fs.now.orphan == old(fs.now.orphan)
      ensures !known && name == Manifest && Own(fs.now, Manifest) ==> fs.now.orphan || Own(old(fs.now), Manifest)
    {
      var r := fs.CreateFile(name);
      if r.Raised? {
        return Some(r.kind), false;
      }
      known := true;
      error := Fill(name, payload, raises);
    }

    /** Remove what was created, newest first, stopping at the first failure, so the marker
        outlives every file that could not be removed. */
    method Abandon(created: seq<Name>) returns (done: bool, escaped: bool, left: seq<Name>)
      requires fs.Ok() && fs.dir && Tidy(created, fs.now)
      modifies fs`step, fs`now, fs`trace, fs`dir
      ensures fs.Ok() && (done ==> !fs.dir)
      ensures CleanRun(fs.z, created, old(fs.L())) == Clean(done, escaped, left, fs.L())
    {
      left := created;
      done, escaped := false, false;
      while left != []
        invariant fs.Ok() && fs.dir && Tidy(left, fs.now)
        invariant CleanRun(fs.z, created, old(fs.L())) == CleanRun(fs.z, left, fs.L())
        decreases |left|
      {
        TidyMayRemove(left, fs.now, fs.goal);
        var r := fs.RemoveFile(left[|left| - 1]);
        if r.Raised? {
          escaped := r.kind == Interrupt;
          return;
        }
        left := left[..|left| - 1];
      }
      var r := fs.RemoveDirectory();
      if r.Raised? {
        escaped := r.kind == Interrupt;
        return;
      }
      done := true;
    }

    /** Sync, take the marker away, sync again. */
    method Complete(b: Bundle) returns (error: Option<Kind>, created: seq<Name>, removed: bool)
      requires fs.Ok() && fs.dir && fs.goal == b
      requires Own(fs.now, Marker) && IsFull(fs.now, b) && !fs.now.orphan
      modifies fs`step, fs`now, fs`trace
      ensures fs.Ok() && CompleteRun(fs.z, old(fs.L())) == Stop(error, created, removed, fs.L())
      ensures created == if removed then [Records, Manifest] else [Marker, Records, Manifest]
      ensures Tidy(created, fs.now) && IsFull(fs.now, b)
      ensures error.None? ==> removed && !Own(fs.now, Marker)
    {
      created, removed, error := [Marker, Records, Manifest], false, None;
      var r := fs.Sync();
      if r.Raised? {
        return Some(r.kind), created, removed;
      }
      r := fs.RemoveFile(Marker);
      if r.Raised? {
        return Some(r.kind), created, removed;
      }
      removed := true;
      created := [Records, Manifest];
      r := fs.Sync();
      if r.Raised? {
        error := Some(r.kind);
      }
    }

    /** The manifest over full records, then the marker away. */
    method FromManifest(b: Bundle) returns (error: Option<Kind>, created: seq<Name>, removed: bool)
      requires fs.Ok() && fs.dir && fs.goal == b && Tidy([Marker, Records], fs.now) && !fs.now.orphan
      requires Own(fs.now, Marker) && Own(fs.now, Records) && fs.now.files[Records] == Concat(b.records)
      modifies fs`step, fs`now, fs`trace
      ensures fs.Ok() && ManifestRun(fs.z, old(fs.L())) == Stop(error, created, removed, fs.L())
      ensures Tidy(created, fs.now) && (removed ==> created == [Records, Manifest])
      ensures error.None? ==> removed && IsFull(fs.now, b) && !Own(fs.now, Marker)
    {
      ghost var mid := fs.now;
      removed := false;
      var known;
      error, known := Write(Manifest, [b.manifest], None);
      created := if known then [Marker, Records, Manifest] else [Marker, Records];
      TidyWrite(mid, fs.now, Manifest, [Marker, Records], known, b);
      if error.Some? {
        return;
      }
      ConcatOne([b.manifest], 0);
      error, created, removed := Complete(b);
    }

    /** The records behind the marker, then the rest. */
    method FromRecords(b: Bundle) returns (error: Option<Kind>, created: seq<Name>, removed: bool)
      requires fs.Ok() && fs.dir && fs.goal == b && Tidy([Marker], fs.now) && !fs.now.orphan && Own(fs.now, Marker)
      modifies fs`step, fs`now, fs`trace
      ensures fs.Ok() && RecordsRun(fs.z, b, old(fs.L())) == Stop(error, created, removed, fs.L())
      ensures Tidy(created, fs.now) && (removed ==> created == [Records, Manifest])
      ensures error.None? ==> removed && IsFull(fs.now, b) && !Own(fs.now, Marker)
    {
      ghost var mid := fs.now;
      removed := false;
      var known;
      error, known := Write(Records, b.records, b.recordsRaise);
      created := if known then [Marker, Records] else [Marker];
      TidyWrite(mid, fs.now, Records, [Marker], known, b);
      if error.Some? {
        return;
      }
      if b.manifestRaises.Some? {
        error := b.manifestRaises;
        return;
      }
      error, created, removed := FromManifest(b);
    }

    /** The marker first, the records, the manifest, then the marker away. */
    method Steps(b: Bundle) returns (error: Option<Kind>, created: seq<Name>, removed: bool)
      requires fs.Ok() && fs.dir && fs.goal == b && fs.L() == Start && fs.now == Snap(map[], map[], false)
      modifies fs`step, fs`now, fs`trace
      ensures fs.Ok() && StepsRun(fs.z, b) == Stop(error, created, removed, fs.L())
      ensures Tidy(created, fs.now) && (removed ==> created == [Records, Manifest])
      ensures error.None? ==> removed && IsFull(fs.now, b) && !Own(fs.now, Marker)
    {
      ghost var mid := fs.now;
      removed := false;
      var known;
      error, known := Write(Marker, ["reflectlog salvage export is incomplete\n"], None);
      created := if known then [Marker] else [];
      TidyWrite(mid, fs.now, Marker, [], known, b);
      if error.Some? {
        return;
      }
      error, created, removed := FromRecords(b);
    }

    /** Restore the completion guard, then clean up; say what may be left. */
    method Rollback(created: seq<Name>, removed: bool) returns (report: Report)
      requires fs.Ok() && fs.dir && Tidy(created, fs.now) && (removed ==> created == [Records, Manifest])
      modifies fs`step, fs`now, fs`trace, fs`dir
      ensures fs.Ok() && (report == RolledBack ==> !fs.dir)
      ensures RollbackRun(fs.z, created, removed, old(fs.L())) == Outcome(report, fs.L())
    {
      var all, restored := created, !removed;
      if removed {
        var error, known := Write(Marker, ["reflectlog salvage export is incomplete\n"], None);
        if error == Some(Interrupt) {
          return Interrupted;
        }
        restored := error.None?;
        all := if known then [Marker] + created else created;
      }
      var done, escaped, left := Abandon(all);
      report := if escaped then Interrupted else if done then RolledBack
                else if restored && Marker in left then LeftMarked else MustDelete;
    }

    /** The calls of one publication, against the schedule's. */
    method TryPublish(b: Bundle) returns (report: Report)
      requires fs.Ok() && fs.goal == b && fs.step == 0 && fs.trace == [fs.now]
      requires fs.now == Snap(fs.now.files, fs.now.files, false)
      modifies fs`step, fs`now, fs`trace, fs`dir
      ensures fs.Ok()
      ensures !old(fs.dir) ==> PublishRun(fs.z, b) == Outcome(report, fs.L())
      ensures report == Published ==> fs.dir && IsFull(fs.now, b) && !Own(fs.now, Marker)
      ensures report == RolledBack ==> !fs.dir
      ensures old(fs.dir) ==>
                report == if fs.z.faults(0).NoFault? || fs.z.faults(0).late then AlreadyExists
                          else if fs.z.faults(0).kind == Os then CannotCreate else Interrupted
      ensures old(fs.dir) || report == AlreadyExists ==> fs.dir == old(fs.dir) && fs.now == old(fs.now) && fs.trace == old(fs.trace)
    {
      FirstInstant(fs.now);
      var r, existed := fs.MakeDirectory();
      if r.Raised? {
        return if existed then AlreadyExists else if r.kind == Os then CannotCreate else Interrupted;
      }
      var error, created, removed := Steps(b);
      if error.None? {
        return Published;
      }
      report := Rollback(created, removed);
      if error == Some(Interrupt) && !(removed && report in {LeftMarked, MustDelete}) {
        report := Interrupted;
      }
    }

    /** One run does what its schedule decides: the report, whose the names are at the end,
        whether the directory ever looked complete early, and which files of others it
        removed. Theirs are otherwise untouched, and so is a directory that was there. */
    method Publish(b: Bundle) returns (report: Report)
      requires fs.Ok() && fs.goal == b && fs.step == 0 && fs.trace == [fs.now]
      requires fs.now == Snap(fs.now.files, fs.now.files, false)
      modifies fs
      ensures fs.Ok()
      ensures !old(fs.dir) ==> PublishRun(fs.z, b) == Outcome(report, fs.L())
      ensures !old(fs.dir) ==> (AllSafe(fs.trace, b) <==> !PublishRun(fs.z, b).l.bad)
      ensures TheirsKept(fs.trace, fs.now.files, if old(fs.dir) then {} else PublishRun(fs.z, b).l.lost)
      ensures report == Published ==> fs.dir && IsFull(fs.now, b) && !Own(fs.now, Marker)
      ensures report == RolledBack ==> !fs.dir
      ensures old(fs.dir) ==>
                report == if fs.z.faults(0).NoFault? || fs.z.faults(0).late then AlreadyExists
                          else if fs.z.faults(0).kind == Os then CannotCreate else Interrupted
      ensures old(fs.dir) || report == AlreadyExists ==> fs.dir == old(fs.dir) && fs.now == old(fs.now) && fs.trace == old(fs.trace)
    {
      FirstInstant(fs.now);
      report := TryPublish(b);
      SafeExactlyAll(fs.trace, b);
      assert Lost(fs.trace) == if old(fs.dir) then {} else PublishRun(fs.z, b).l.lost;
      AllTheirsStay(fs.trace, b);
    }
  }
}
