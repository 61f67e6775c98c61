/** Where a Markdown file is cut (integrations/openclaw/src/importer.ts), said without the
    loop: fences by their opening and closing lines, entries by what they may hold and what
    must come after them. */
module ImporterCuts {
  import opened Common
  import opened Importer

  // ----- Fences -------------------------------------------------------------------------------

  /** A marker line that is neither heading nor blank opens a fence, unless it is inside one. */
  ghost predicate OpensFence(lines: seq<Line>, from: nat, o: nat)
    requires from <= o < |lines|
  {
    lines[o].marker.Some? && lines[o].heading.None? && !lines[o].blank && !Fenced(lines, from, o)
  }

  /** The same character, at least as often, and nothing after it. */
  predicate ClosesFence(m: Marker, l: Line) {
    l.marker.Some? && l.marker.value.ch == m.ch && l.marker.value.length >= m.length && l.marker.value.bare
  }

  ghost predicate OpenSince(lines: seq<Line>, from: nat, o: nat, i: nat, m: Marker)
    requires from <= o < i <= |lines|
  {
    OpensFence(lines, from, o) && lines[o].marker == Some(m) && forall k :: o < k < i ==> !ClosesFence(m, lines[k])
  }

  /** A line is inside a fence exactly if one was opened before it and not closed since. */
  lemma {:induction false} FencedExactly(lines: seq<Line>, from: nat, i: nat, m: Marker)
    requires from <= i <= |lines| && AllWellFormed(lines)
    ensures FenceBefore(lines, from, i) == Some(m) <==> exists o: nat :: from <= o < i && OpenSince(lines, from, o, i, m)
    decreases i
  {
    if i > from {
      var last := i - 1;
      FencedExactly(lines, from, last, m);
      if o: nat :| from <= o < last && OpenSince(lines, from, o, last, m) {
        assert !ClosesFence(m, lines[last]) ==> OpenSince(lines, from, o, i, m);
      }
      if o: nat :| from <= o < i && OpenSince(lines, from, o, i, m) {
        assert o < last ==> OpenSince(lines, from, o, last, m);
      }
      if FenceBefore(lines, from, last).None? && lines[last].marker == Some(m) {
        assert WellFormed(lines[last]);
        assert OpenSince(lines, from, last, i, m);
      }
    }
  }

  /** There is no body exactly if front matter is opened and no later line closes it; the body
      starts behind the first that does. */
  lemma BodyExactly(lines: seq<Line>)
    requires lines != []
    ensures BodyStart(lines).None? <==> lines[0].opens && forall k :: 0 < k < |lines| ==> !lines[k].closes
    ensures BodyStart(lines).Some? && lines[0].opens ==>
              var n := BodyStart(lines).value - 1;
              0 < n < |lines| && lines[n].closes && forall k :: 0 < k < n ==> !lines[k].closes
    ensures !lines[0].opens ==> BodyStart(lines) == Some(0)
  {
  }

  // ----- Entries ------------------------------------------------------------------------------------

  /** The first line from `k` on that is not blank. */
  ghost predicate Filled(lines: seq<Line>, k: nat, f: nat) {
    k <= f < |lines| && !lines[f].blank && forall j :: k <= j < f ==> lines[j].blank
  }

  /** From line `k` on the text first goes deeper than `indent`, or there is none. */
  ghost predicate Deeper(lines: seq<Line>, k: nat, indent: nat) {
    exists f: nat :: Filled(lines, k, f) && lines[f].indent > indent
  }

  /** Line `k` may be in the entry from `start`: fenced; in a list item, deeper text or blank
      lines before deeper text; otherwise text that begins no list item. Never a heading. */
  ghost predicate Belongs(lines: seq<Line>, from: nat, start: nat, k: nat)
    requires from <= start < k < |lines|
  {
    || Fenced(lines, from, k)
    || (lines[k].heading.None? &&
        match lines[start].item
        case Some(indent) => Deeper(lines, k, indent)
        case None => !lines[k].blank && lines[k].item.None?)
  }

  /** All lines of the entry belong to it, and the next one does not. */
  ghost predicate WellCut(lines: seq<Line>, from: nat, e: Entry)
    requires from <= |lines| && AllWellFormed(lines) && IsEntry(lines, from, e)
  {
    var end := e.start + |e.body|;
    && (forall k :: e.start < k < end ==> Belongs(lines, from, e.start, k))
    && (end < |lines| ==> !Belongs(lines, from, e.start, end))
  }

  /** One entry after another, every line in its place, each cut where it has to be. */
  ghost predicate IsSplit(lines: seq<Line>, from: nat, i: nat, es: seq<Entry>)
    requires from <= i <= |lines| && AllWellFormed(lines)
  {
    Laid(lines, from, i, es) && Complete(lines, from, i, es) && AllCut(lines, from, es)
  }

  ghost predicate AllCut(lines: seq<Line>, from: nat, es: seq<Entry>)
    requires from <= |lines| && AllWellFormed(lines)
  {
    forall e :: e in es ==> IsEntry(lines, from, e) && WellCut(lines, from, e)
  }

  lemma FilledIsNext(lines: seq<Line>, k: nat, f: nat)
    requires k <= |lines|
    ensures Filled(lines, k, f) <==> f == NextFilled(lines, k) < |lines|
  {
  }

  lemma BelongsContinues(lines: seq<Line>, from: nat, start: nat, k: nat)
    requires from <= start < k < |lines| && AllWellFormed(lines)
    ensures Belongs(lines, from, start, k) <==> Continues(lines, from, start, k)
  {
    assert WellFormed(lines[k]);
    if lines[start].item.Some? {
      var n := NextFilled(lines, k);
      assert NextFilled(lines, k) == if lines[k].blank then NextFilled(lines, k + 1) else k;
      forall f: nat
        ensures Filled(lines, k, f) <==> f == n < |lines|
      {
        FilledIsNext(lines, k, f);
      }
    }
  }

  lemma EndIsCut(lines: seq<Line>, from: nat, e: Entry)
    requires from <= |lines| && AllWellFormed(lines) && IsEntry(lines, from, e)
    ensures WellCut(lines, from, e) <==> e.start + |e.body| == End(lines, from, e.start, e.start + 1)
  {
    var end := e.start + |e.body|;
    forall k | e.start < k < |lines|
      ensures Belongs(lines, from, e.start, k) <==> Continues(lines, from, e.start, k)
    {
      BelongsContinues(lines, from, e.start, k);
    }
  }

  lemma OneMoreCut(lines: seq<Line>, from: nat, i: nat, rest: seq<Entry>)
    requires from <= i < |lines| && AllWellFormed(lines) && IsText(lines, from, i) && AllCut(lines, from, rest)
    ensures AllCut(lines, from, [EntryAt(lines, from, i)] + rest)
  {
    EndIsCut(lines, from, EntryAt(lines, from, i));
  }

  lemma {:induction false} SegmentsCut(lines: seq<Line>, from: nat, i: nat)
    requires from <= i <= |lines| && AllWellFormed(lines)
    ensures AllCut(lines, from, Segments(lines, from, i))
    decreases |lines| - i
  {
    if i < |lines| {
      if !IsText(lines, from, i) {
        SegmentsCut(lines, from, i + 1);
      } else {
        SegmentsCut(lines, from, End(lines, from, i, i + 1));
        OneMoreCut(lines, from, i, Segments(lines, from, End(lines, from, i, i + 1)));
      }
    }
  }

  lemma {:induction false} Ascending(lines: seq<Line>, from: nat, i: nat, es: seq<Entry>, a: nat)
    requires from <= i <= |lines| && AllWellFormed(lines) && Laid(lines, from, i, es) && a < |es|
    ensures i + a <= es[a].start < |lines|
  {
    assert es[a] in es && IsEntry(lines, from, es[a]);
    if a > 0 {
      Ascending(lines, from, i, es, a - 1);
      assert es[a - 1] in es && IsEntry(lines, from, es[a - 1]);
    }
  }

  lemma LaidFits(lines: seq<Line>, from: nat, i: nat, es: seq<Entry>)
    requires from <= i <= |lines| && AllWellFormed(lines) && Laid(lines, from, i, es)
    ensures |es| <= |lines| - i
  {
    if es != [] {
      Ascending(lines, from, i, es, |es| - 1);
    }
  }

  /** The entry that covers a text line where none is open starts there, and comes first. */
  lemma FirstEntry(lines: seq<Line>, from: nat, i: nat, es: seq<Entry>)
    requires from <= i < |lines| && AllWellFormed(lines) && IsText(lines, from, i) && IsSplit(lines, from, i, es)
    ensures es != [] && es[0] == EntryAt(lines, from, i)
  {
    assert Placed(lines, from, es, i);
    var e :| e in es && Covers(e, i);
    var a :| 0 <= a < |es| && es[a] == e;
    Ascending(lines, from, i, es, a);
    EndIsCut(lines, from, e);
  }

  lemma RestIsLaid(lines: seq<Line>, from: nat, i: nat, end: nat, es: seq<Entry>)
    requires from <= i <= end <= |lines| && AllWellFormed(lines) && Laid(lines, from, i, es) && es != []
    requires end == es[0].start + |es[0].body|
    ensures Laid(lines, from, end, es[1..])
  {
    var rest := es[1..];
    forall e | e in rest
      ensures IsEntry(lines, from, e) && end <= e.start
    {
      var b :| 0 <= b < |rest| && rest[b] == e;
      assert es[b + 1] == e && e in es;
    }
  }

  lemma RestIsSplit(lines: seq<Line>, from: nat, i: nat, es: seq<Entry>)
    requires from <= i < |lines| && AllWellFormed(lines) && IsText(lines, from, i) && IsSplit(lines, from, i, es)
    requires es != [] && es[0] == EntryAt(lines, from, i)
    ensures IsSplit(lines, from, End(lines, from, i, i + 1), es[1..])
  {
    var end, rest := End(lines, from, i, i + 1), es[1..];
    assert es[0].start + |es[0].body| == end;
    RestIsLaid(lines, from, i, end, es);
    assert forall e :: e in rest ==> e in es;
    forall k | end <= k < |lines|
      ensures Placed(lines, from, rest, k)
    {
      assert Placed(lines, from, es, k);
      assert es == [es[0]] + rest && !Covers(es[0], k);
    }
  }

  lemma SkipIsSplit(lines: seq<Line>, from: nat, i: nat, es: seq<Entry>)
    requires from <= i < |lines| && AllWellFormed(lines) && !IsText(lines, from, i) && IsSplit(lines, from, i, es)
    ensures IsSplit(lines, from, i + 1, es)
  {
    forall k | i + 1 <= k < |lines|
      ensures Placed(lines, from, es, k)
    {
      assert Placed(lines, from, es, k);
    }
  }

  lemma {:induction false} OnlySegments(lines: seq<Line>, from: nat, i: nat, es: seq<Entry>)
    requires from <= i <= |lines| && AllWellFormed(lines) && IsSplit(lines, from, i, es)
    requires i < |lines| ==> !Fenced(lines, from, i)
    ensures es == Segments(lines, from, i)
    decreases |lines| - i
  {
    if i == |lines| {
      LaidFits(lines, from, i, es);
    } else if !IsText(lines, from, i) {
      SkipIsSplit(lines, from, i, es);
      OnlySegments(lines, from, i + 1, es);
    } else {
      FirstEntry(lines, from, i, es);
      RestIsSplit(lines, from, i, es);
      OnlySegments(lines, from, End(lines, from, i, i + 1), es[1..]);
      assert es == [es[0]] + es[1..];
    }
  }

  /** The entries of a file are the only way to lay its body out in entries that hold what
      belongs to them and end where it ends. */
  lemma CutsExactly(lines: seq<Line>, es: seq<Entry>)
    requires lines != [] && AllWellFormed(lines) && BodyStart(lines).Some?
    ensures es == Entries(lines) <==> IsSplit(lines, BodyStart(lines).value, BodyStart(lines).value, es)
  {
    var from := BodyStart(lines).value;
    SegmentsPartition(lines, from, from);
    SegmentsCut(lines, from, from);
    if IsSplit(lines, from, from, es) {
      OnlySegments(lines, from, from, es);
    }
  }
}
