/** Splitting a Markdown file into memories (integrations/openclaw/src/importer.ts,
    `splitMarkdownMemories`). A line is what the source's patterns say of it. */
module Importer {
  import opened Common

  datatype Marker = Marker(ch: char, length: nat, bare: bool)

  datatype Heading = Heading(level: nat, text: string)

  /** `opens`: exactly three dashes. `closes`: three dashes or dots, then white space.
      `bare`: nothing follows the fence marker. */
  datatype Line = Line(
    text: string, blank: bool, opens: bool, closes: bool, indent: nat,
    item: Option<nat>, heading: Option<Heading>, marker: Option<Marker>)

  /** What the patterns imply of one another. */
  predicate WellFormed(l: Line) {
    && (l.blank ==> l.item.None? && l.heading.None? && l.marker.None?)
    && (l.item.Some? ==> l.item.value == l.indent)
    && (l.heading.Some? ==> 1 <= l.heading.value.level <= 6 && l.marker.None?)
  }

  ghost predicate AllWellFormed(lines: seq<Line>) {
    forall i :: 0 <= i < |lines| ==> WellFormed(lines[i])
  }

  // ----- Fences, headings, text ----------------------------------------------------------

  function Toggle(fence: Option<Marker>, l: Line): Option<Marker> {
    match fence
    case Some(open) =>
      if l.marker.Some? && l.marker.value.ch == open.ch && l.marker.value.length >= open.length && l.marker.value.bare
      then None else fence
    case None => if l.heading.Some? || l.blank then None else l.marker
  }

  /** The code fence that is open before line `i`. */
  function FenceBefore(lines: seq<Line>, from: nat, i: nat): Option<Marker>
    requires from <= i <= |lines|
    decreases i
  {
    if i == from then None else Toggle(FenceBefore(lines, from, i - 1), lines[i - 1])
  }

  predicate Fenced(lines: seq<Line>, from: nat, i: nat)
    requires from <= i < |lines|
  {
    FenceBefore(lines, from, i).Some?
  }

  predicate IsHeading(lines: seq<Line>, from: nat, i: nat)
    requires from <= i < |lines|
  {
    !Fenced(lines, from, i) && lines[i].heading.Some?
  }

  predicate IsText(lines: seq<Line>, from: nat, i: nat)
    requires from <= i < |lines|
  {
    !Fenced(lines, from, i) && lines[i].heading.None? && !lines[i].blank
  }

  // ----- Heading paths ------------------------------------------------------------------------

  type Path = seq<Option<string>>

  /** Cut or pad to the new level, then set its last slot. */
  function Enter(path: Path, h: Heading): (p: Path)
    requires h.level >= 1
    ensures |p| == h.level
  {
    var n := h.level;
    var kept := if |path| >= n then path[..n - 1] else path + seq(n - 1 - |path|, _ => None);
    kept[..n - 1] + [Some(h.text)]
  }

  function PathBefore(lines: seq<Line>, from: nat, i: nat): Path
    requires from <= i <= |lines| && AllWellFormed(lines)
    decreases i
  {
    if i == from then []
    else if IsHeading(lines, from, i - 1) then Enter(PathBefore(lines, from, i - 1), lines[i - 1].heading.value)
    else PathBefore(lines, from, i - 1)
  }

  /** Heading `h` is still in force at line `i`: no later heading is as high. */
  ghost predicate InForce(lines: seq<Line>, from: nat, h: nat, i: nat)
    requires from <= i <= |lines| && AllWellFormed(lines)
  {
    && from <= h < i && IsHeading(lines, from, h)
    && forall k :: h < k < i && IsHeading(lines, from, k) ==> lines[k].heading.value.level > lines[h].heading.value.level
  }

  ghost predicate SomeInForce(lines: seq<Line>, from: nat, i: nat, level: nat, text: string)
    requires from <= i <= |lines| && AllWellFormed(lines)
  {
    exists h: nat :: InForce(lines, from, h, i) && lines[h].heading.value == Heading(level, text)
  }

  predicate SlotHolds(path: Path, level: nat, text: string) {
    1 <= level <= |path| && path[level - 1] == Some(text)
  }

  /** The truncated array is the declarative ancestor path: a level holds a text exactly
      when the latest heading of that level is still in force and has that text. */
  lemma {:induction false} PathIsAncestors(lines: seq<Line>, from: nat, i: nat, level: nat, text: string)
    requires from <= i <= |lines| && AllWellFormed(lines)
    ensures SlotHolds(PathBefore(lines, from, i), level, text) <==> SomeInForce(lines, from, i, level, text)
    decreases i
  {
    if i > from {
      PathIsAncestors(lines, from, i - 1, level, text);
      if IsHeading(lines, from, i - 1) {
        ForceOverHeading(lines, from, i, level, text);
      } else {
        ForceOverText(lines, from, i, level, text);
      }
    }
  }

  lemma ForceOverText(lines: seq<Line>, from: nat, i: nat, level: nat, text: string)
    requires from < i <= |lines| && AllWellFormed(lines) && !IsHeading(lines, from, i - 1)
    ensures SomeInForce(lines, from, i, level, text) <==> SomeInForce(lines, from, i - 1, level, text)
  {
    forall h: nat
      ensures InForce(lines, from, h, i) <==> InForce(lines, from, h, i - 1)
    {
    }
  }

  lemma ForceOverHeading(lines: seq<Line>, from: nat, i: nat, level: nat, text: string)
    requires from < i <= |lines| && AllWellFormed(lines) && IsHeading(lines, from, i - 1)
    ensures var last := lines[i - 1].heading.value;
            SomeInForce(lines, from, i, level, text) <==>
            (level < last.level && SomeInForce(lines, from, i - 1, level, text)) || last == Heading(level, text)
  {
    forall h: nat | h != i - 1
      ensures InForce(lines, from, h, i) <==>
              InForce(lines, from, h, i - 1) && lines[i - 1].heading.value.level > lines[h].heading.value.level
    {
    }
    assert InForce(lines, from, i - 1, i);
  }

  // ----- Segments -----------------------------------------------------------------------------------

  /** The first line after `i` that is not blank. */
  function NextFilled(lines: seq<Line>, i: nat): (n: nat)
    requires i <= |lines|
    ensures i <= n <= |lines|
    ensures n < |lines| ==> !lines[n].blank
    ensures forall k :: i <= k < n ==> lines[k].blank
    decreases |lines| - i
  {
    if i == |lines| || !lines[i].blank then i else NextFilled(lines, i + 1)
  }

  /** Line `i` belongs to the entry that starts at `start`: it is fenced; or a blank line of
      a list item whose next line is indented deeper; or text that neither ends the item's
      indentation nor, outside an item, begins one. */
  predicate Continues(lines: seq<Line>, from: nat, start: nat, i: nat)
    requires from <= start < i < |lines|
  {
    var item := lines[start].item;
    if Fenced(lines, from, i) then true
    else if lines[i].heading.Some? then false
    else if lines[i].blank then
      item.Some? && (var n := NextFilled(lines, i + 1); n < |lines| && lines[n].indent > item.value)
    else if item.Some? then lines[i].indent > item.value
    else lines[i].item.None?
  }

  /** Where the entry that starts at `start` ends, if its lines up to `i` belong to it. */
  function End(lines: seq<Line>, from: nat, start: nat, i: nat): (e: nat)
    requires from <= start < i <= |lines|
    ensures i <= e <= |lines|
    ensures forall k :: i <= k < e ==> Continues(lines, from, start, k)
    ensures e < |lines| ==> !Continues(lines, from, start, e)
    decreases |lines| - i
  {
    if i < |lines| && Continues(lines, from, start, i) then End(lines, from, start, i + 1) else i
  }

  datatype Entry = Entry(start: nat, body: seq<Line>, path: Path)

  function EntryAt(lines: seq<Line>, from: nat, start: nat): Entry
    requires from <= start < |lines| && AllWellFormed(lines)
  {
    Entry(start, lines[start..End(lines, from, start, start + 1)], PathBefore(lines, from, start))
  }

  /** The entries from line `i` on, `i` being where no entry is open. */
  function Segments(lines: seq<Line>, from: nat, i: nat): seq<Entry>
    requires from <= i <= |lines| && AllWellFormed(lines)
    decreases |lines| - i
  {
    if i == |lines| then []
    else if !IsText(lines, from, i) then Segments(lines, from, i + 1)
    else [EntryAt(lines, from, i)] + Segments(lines, from, End(lines, from, i, i + 1))
  }

  /** After front matter; None when it is never closed. */
  function BodyStart(lines: seq<Line>): Option<nat>
    requires lines != []
  {
    if !lines[0].opens then Some(0)
    else
      var n := FirstCloser(lines, 1);
      if n == |lines| then None else Some(n + 1)
  }

  function FirstCloser(lines: seq<Line>, i: nat): (n: nat)
    requires i <= |lines|
    ensures i <= n <= |lines|
    ensures n < |lines| ==> lines[n].closes
    ensures forall k :: i <= k < n ==> !lines[k].closes
    decreases |lines| - i
  {
    if i == |lines| || lines[i].closes then i else FirstCloser(lines, i + 1)
  }

  function Entries(lines: seq<Line>): seq<Entry>
    requires lines != [] && AllWellFormed(lines)
  {
    match BodyStart(lines)
    case None => []
    case Some(from) => Segments(lines, from, from)
  }

  // ----- The partition ---------------------------------------------------------------------------------

  predicate Covers(e: Entry, i: nat) {
    e.start <= i < e.start + |e.body|
  }

  /** One contiguous range that starts at a text line and carries that line's path. */
  ghost predicate IsEntry(lines: seq<Line>, from: nat, e: Entry)
    requires from <= |lines| && AllWellFormed(lines)
  {
    && from <= e.start && e.body != [] && e.start + |e.body| <= |lines|
    && e.body == lines[e.start..e.start + |e.body|]
    && IsText(lines, from, e.start) && e.path == PathBefore(lines, from, e.start)
  }

  /** From line `i` on, one entry after another. */
  ghost predicate Laid(lines: seq<Line>, from: nat, i: nat, es: seq<Entry>)
    requires from <= i <= |lines| && AllWellFormed(lines)
  {
    && (forall e :: e in es ==> IsEntry(lines, from, e) && i <= e.start)
    && (forall a, b :: 0 <= a < b < |es| ==> es[a].start + |es[a].body| <= es[b].start)
  }

  /** Line `k` is in an entry if it is text or fenced, and in none if it is a heading. */
  ghost predicate Placed(lines: seq<Line>, from: nat, es: seq<Entry>, k: nat)
    requires from <= k < |lines|
  {
    && (IsText(lines, from, k) || Fenced(lines, from, k) ==> exists e :: e in es && Covers(e, k))
    && (IsHeading(lines, from, k) ==> forall e :: e in es ==> !Covers(e, k))
  }

  ghost predicate Complete(lines: seq<Line>, from: nat, i: nat, es: seq<Entry>)
    requires from <= i <= |lines|
  {
    forall k :: i <= k < |lines| ==> Placed(lines, from, es, k)
  }

  lemma LaidStep(lines: seq<Line>, from: nat, i: nat, e: nat, rest: seq<Entry>)
    requires from <= i < |lines| && AllWellFormed(lines) && IsText(lines, from, i)
    requires e == End(lines, from, i, i + 1) && Laid(lines, from, e, rest)
    ensures Laid(lines, from, i, [EntryAt(lines, from, i)] + rest)
  {
    var first := EntryAt(lines, from, i);
    assert first.start + |first.body| == e;
    forall x | x in [first] + rest
      ensures IsEntry(lines, from, x) && i <= x.start
    {
      assert x == first || x in rest;
    }
  }

  lemma PlacedStep(lines: seq<Line>, from: nat, i: nat, e: nat, rest: seq<Entry>, k: nat)
    requires from <= i <= k < |lines| && AllWellFormed(lines) && IsText(lines, from, i)
    requires e == End(lines, from, i, i + 1) && Laid(lines, from, e, rest)
    requires k >= e ==> Placed(lines, from, rest, k)
    ensures Placed(lines, from, [EntryAt(lines, from, i)] + rest, k)
  {
    var first := EntryAt(lines, from, i);
    var es := [first] + rest;
    assert first in es && forall x :: x in es <==> x == first || x in rest;
    if k < e {
      assert Covers(first, k);
      assert k > i ==> Continues(lines, from, i, k);
    } else {
      assert !Covers(first, k);
    }
  }

  lemma {:induction false} SegmentsPartition(lines: seq<Line>, from: nat, i: nat)
    requires from <= i <= |lines| && AllWellFormed(lines)
    requires i < |lines| ==> !Fenced(lines, from, i)
    ensures Laid(lines, from, i, Segments(lines, from, i))
    ensures Complete(lines, from, i, Segments(lines, from, i))
    decreases |lines| - i
  {
    if i < |lines| {
      if !IsText(lines, from, i) {
        SegmentsPartition(lines, from, i + 1);
      } else {
        var e := End(lines, from, i, i + 1);
        var rest := Segments(lines, from, e);
        SegmentsPartition(lines, from, e);
        LaidStep(lines, from, i, e, rest);
        forall k | i <= k < |lines|
          ensures Placed(lines, from, [EntryAt(lines, from, i)] + rest, k)
        {
          PlacedStep(lines, from, i, e, rest, k);
        }
      }
    }
  }

  /** No line is in two entries. */
  lemma CoveredOnce(lines: seq<Line>, from: nat, es: seq<Entry>, a: nat, b: nat, k: nat)
    requires from <= |lines| && AllWellFormed(lines) && Laid(lines, from, from, es)
    requires a < |es| && b < |es| && Covers(es[a], k) && Covers(es[b], k)
    ensures a == b
  {
  }

  /** The split is a partition: disjoint increasing ranges, covering every non-blank,
      non-heading line after terminated front matter exactly once. */
  lemma SplitIsPartition(lines: seq<Line>)
    requires lines != [] && AllWellFormed(lines)
    ensures BodyStart(lines).None? ==> Entries(lines) == []
    ensures BodyStart(lines).Some? ==>
              var from := BodyStart(lines).value;
              Laid(lines, from, from, Entries(lines)) && Complete(lines, from, from, Entries(lines))
  {
    if BodyStart(lines).Some? {
      SegmentsPartition(lines, BodyStart(lines).value, BodyStart(lines).value);
    }
  }

  // ----- The splitter ---------------------------------------------------------------------------------------

  /** What the loop still owes: nothing open, or the entry from `start` on. */
  ghost predicate Owes(lines: seq<Line>, from: nat, i: nat, entries: seq<Entry>, body: seq<Line>, start: nat,
      listIndent: Option<nat>)
    requires from <= i <= |lines| && AllWellFormed(lines)
  {
    if body == [] then
      && entries + Segments(lines, from, i) == Segments(lines, from, from) && listIndent == None
      && FenceBefore(lines, from, i).None?
    else
      && from <= start < i && body == lines[start..i] && listIndent == lines[start].item
      && IsText(lines, from, start) && PathBefore(lines, from, i) == PathBefore(lines, from, start)
      && End(lines, from, start, start + 1) == End(lines, from, start, i)
      && entries + [EntryAt(lines, from, start)] + Segments(lines, from, End(lines, from, start, i)) ==
         Segments(lines, from, from)
  }

  lemma PushOwes(lines: seq<Line>, from: nat, i: nat, entries: seq<Entry>, body: seq<Line>, start: nat, listIndent: Option<nat>)
    requires from <= i < |lines| && AllWellFormed(lines) && Owes(lines, from, i, entries, body, start, listIndent)
    requires body != [] && Continues(lines, from, start, i)
    ensures Owes(lines, from, i + 1, entries, body + [lines[i]], start, listIndent)
  {
    assert lines[start..i + 1] == lines[start..i] + [lines[i]];
  }

  lemma StartOwes(lines: seq<Line>, from: nat, i: nat, entries: seq<Entry>, start: nat)
    requires from <= i < |lines| && AllWellFormed(lines) && Owes(lines, from, i, entries, [], start, None)
    requires IsText(lines, from, i)
    ensures Owes(lines, from, i + 1, entries, [lines[i]], i, lines[i].item)
  {
    assert lines[i..i + 1] == [lines[i]];
    var e := End(lines, from, i, i + 1);
    assert entries + ([EntryAt(lines, from, i)] + Segments(lines, from, e)) ==
           entries + [EntryAt(lines, from, i)] + Segments(lines, from, e);
  }

  predicate AllBlank(body: seq<Line>) {
    forall i :: 0 <= i < |body| ==> body[i].blank
  }

  /** Closing the open body, where its entry ends, owes nothing for it any more. */
  lemma FlushOwes(lines: seq<Line>, from: nat, i: nat, entries: seq<Entry>, body: seq<Line>, start: nat, listIndent: Option<nat>)
    requires from <= i <= |lines| && AllWellFormed(lines) && Owes(lines, from, i, entries, body, start, listIndent)
    requires FenceBefore(lines, from, i).None?
    requires body != [] && i < |lines| ==> !Continues(lines, from, start, i)
    ensures Owes(lines, from, i,
                 entries + if AllBlank(body) then [] else [Entry(start, body, PathBefore(lines, from, i))], [], start, None)
  {
    if body == [] {
      assert entries + [] == entries;
    } else {
      assert End(lines, from, start, i) == i;
      assert body[0] == lines[start] && !AllBlank(body);
    }
  }

  class Splitter {
    var entries: seq<Entry>
    var headings: Path
    var body: seq<Line>
    var start: nat
    var listIndent: Option<nat>
    var fence: Option<Marker>

    constructor ()
      ensures entries == [] && headings == [] && body == [] && start == 0 && listIndent == None && fence == None
    {
      entries, headings, body, start, listIndent, fence := [], [], [], 0, None, None;
    }

    /** Everything before line `i` is accounted for. */
    ghost predicate At(lines: seq<Line>, from: nat, i: nat)
      reads this
    {
      && from <= i <= |lines| && AllWellFormed(lines)
      && fence == FenceBefore(lines, from, i) && headings == PathBefore(lines, from, i)
      && Owes(lines, from, i, entries, body, start, listIndent)
    }

    /** Close the open body; only a body with text becomes an entry. */
    method Flush()
      modifies this`entries, this`body, this`listIndent
      ensures body == [] && listIndent == None
      ensures entries == old(entries) + if AllBlank(old(body)) then [] else [Entry(start, old(body), headings)]
    {
      if !AllBlank(body) {
        entries := entries + [Entry(start, body, headings)];
      }
      body := [];
      listIndent := None;
    }

    method FlushAt(ghost lines: seq<Line>, ghost from: nat, ghost i: nat)
      requires At(lines, from, i) && fence.None?
      requires body != [] && i < |lines| ==> !Continues(lines, from, start, i)
      modifies this`entries, this`body, this`listIndent
      ensures At(lines, from, i) && body == [] && listIndent == None
    {
      FlushOwes(lines, from, i, entries, body, start, listIndent);
      Flush();
    }

    method FindFilled(lines: seq<Line>, i: nat) returns (n: nat)
      requires i <= |lines|
      ensures n == NextFilled(lines, i)
    {
      n := i;
      while n < |lines| && lines[n].blank
        invariant i <= n <= |lines| && NextFilled(lines, i) == NextFilled(lines, n)
      {
        n := n + 1;
      }
    }

    /** A blank line keeps a list item open when deeper text follows. */
    method Blank(lines: seq<Line>, ghost from: nat, i: nat)
      requires i < |lines| && At(lines, from, i) && fence.None? && lines[i].blank
      modifies this`entries, this`body, this`listIndent
      ensures At(lines, from, i + 1)
    {
      assert WellFormed(lines[i]);
      if listIndent.Some? {
        var n := FindFilled(lines, i + 1);
        if n < |lines| && lines[n].indent > listIndent.value {
          PushOwes(lines, from, i, entries, body, start, listIndent);
          body := body + [lines[i]];
          return;
        }
      }
      FlushAt(lines, from, i);
    }

    method Text(lines: seq<Line>, ghost from: nat, i: nat)
      requires i < |lines| && At(lines, from, i) && fence.None? && IsText(lines, from, i)
      modifies this
      ensures At(lines, from, i + 1)
    {
      var line := lines[i];
      assert WellFormed(line);
      if line.item.Some? && (listIndent.None? || line.item.value <= listIndent.value) {
        FlushAt(lines, from, i);
        StartOwes(lines, from, i, entries, start);
        listIndent := line.item;
      } else if listIndent.Some? && line.indent <= listIndent.value {
        FlushAt(lines, from, i);
        StartOwes(lines, from, i, entries, start);
      } else if body == [] {
        StartOwes(lines, from, i, entries, start);
      } else {
        PushOwes(lines, from, i, entries, body, start, listIndent);
      }
      if body == [] {
        start := i;
      }
      body := body + [line];
      if line.marker.Some? {
        fence := line.marker;
      }
    }

    method SplitFrom(lines: seq<Line>, from: nat) returns (all: seq<Entry>)
      requires from <= |lines| && AllWellFormed(lines)
      requires entries == [] && headings == [] && body == [] && listIndent == None && fence == None
      modifies this
      ensures all == Segments(lines, from, from)
    {
      assert [] + Segments(lines, from, from) == Segments(lines, from, from);
      for i := from to |lines|
        invariant At(lines, from, i)
      {
        Next(lines, from, i);
      }
      Flush();
      all := entries;
    }

    method Next(lines: seq<Line>, ghost from: nat, i: nat)
      requires i < |lines| && At(lines, from, i)
      modifies this
      ensures At(lines, from, i + 1)
    {
      var line := lines[i];
      assert WellFormed(line);
      if fence.Some? {
        PushOwes(lines, from, i, entries, body, start, listIndent);
        body := body + [line];
        if line.marker.Some? && line.marker.value.ch == fence.value.ch &&
           line.marker.value.length >= fence.value.length && line.marker.value.bare {
          fence := None;
        }
        return;
      }
      if line.heading.Some? {
        FlushAt(lines, from, i);
        headings := Enter(headings, line.heading.value);
        return;
      }
      if line.blank {
        Blank(lines, from, i);
      } else {
        Text(lines, from, i);
      }
    }
  }

  method FrontMatterEnd(lines: seq<Line>) returns (n: nat)
    requires lines != []
    ensures n == FirstCloser(lines, 1)
  {
    n := 1;
    while n < |lines| && !lines[n].closes
      invariant 1 <= n <= |lines| && FirstCloser(lines, 1) == FirstCloser(lines, n)
    {
      n := n + 1;
    }
  }

  /** One pass over the lines yields exactly the segments. */
  method SplitMarkdownMemories(lines: seq<Line>) returns (entries: seq<Entry>)
    requires lines != [] && AllWellFormed(lines)
    ensures entries == Entries(lines)
  {
    var offset := 0;
    if lines[0].opens {
      var end := FrontMatterEnd(lines);
      if end == |lines| {
        return [];
      }
      offset := end + 1;
    }
    var s := new Splitter();
    entries := s.SplitFrom(lines, offset);
  }
}
