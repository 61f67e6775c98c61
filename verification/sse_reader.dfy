/** The chunk-driven reply reader (integrations/hermes/core/client.py, `_read_stream`).
    Decoding one message is the parameter `parse`. Event framing follows section 9.2.6 of
    the WHATWG HTML Living Standard, except that a lone CR does not end a line. */
module SseReader {
  import opened Common

  newtype byte = x: int | 0 <= x < 256
  type Bytes = seq<byte>

  const LF: byte := 10
  const CR: byte := 13
  const SPACE: byte := 32
  const DATA: Bytes := [100, 97, 116, 97, 58]

  /** One decoded message: for another request, the awaited one, or unreadable. */
  datatype Msg<T> = Other | Match(value: T) | Bad

  datatype Outcome<T> = Got(value: T) | Malformed

  // ----- Whole-input specification ---------------------------------------------------------

  /** The lines ended by LF, and what follows the last LF, which is not a line. */
  datatype Cut = Cut(lines: seq<Bytes>, tail: Bytes)

  function Split(b: Bytes): Cut {
    if b == [] then Cut([], [])
    else
      var c, x := Split(b[..|b| - 1]), b[|b| - 1];
      if x == LF then Cut(c.lines + [c.tail], []) else Cut(c.lines, c.tail + [x])
  }

  function StripCr(line: Bytes): Bytes {
    if line != [] && line[|line| - 1] == CR then StripCr(line[..|line| - 1]) else line
  }

  function DataValue(line: Bytes): Bytes
    requires DATA <= line
  {
    var value := line[|DATA|..];
    if [SPACE] <= value then value[1..] else value
  }

  function Join(data: seq<Bytes>): Bytes {
    if data == [] then []
    else if |data| == 1 then data[0]
    else Join(data[..|data| - 1]) + [LF] + data[|data| - 1]
  }

  /** Finished blocks, and the data lines of the block being read. */
  datatype Fold = Fold(blocks: seq<Bytes>, data: seq<Bytes>)

  function Feed(f: Fold, raw: Bytes): Fold {
    var line := StripCr(raw);
    if DATA <= line then f.(data := f.data + [DataValue(line)])
    else if line == [] && f.data != [] then Fold(f.blocks + [Join(f.data)], [])
    else f
  }

  function FoldLines(lines: seq<Bytes>): Fold {
    if lines == [] then Fold([], []) else Feed(FoldLines(lines[..|lines| - 1]), lines[|lines| - 1])
  }

  function Blocks(b: Bytes): seq<Bytes> {
    FoldLines(Split(b).lines).blocks
  }

  /** The first block that is not for somebody else. */
  function First<T>(blocks: seq<Bytes>, parse: Bytes -> Msg<T>): Option<Outcome<T>> {
    if blocks == [] then None
    else
      match parse(blocks[0])
      case Other => First(blocks[1..], parse)
      case Match(value) => Some(Got(value))
      case Bad => Some(Malformed)
  }

  /** How many leading chunks arrive before the total passes the limit. */
  function Within(chunks: seq<Bytes>, limit: nat): (n: nat)
    ensures n <= |chunks|
  {
    if chunks == [] then 0
    else
      var n := Within(chunks[..|chunks| - 1], limit);
      if n == |chunks| - 1 && |Concat(chunks)| <= limit then |chunks| else n
  }

  function Read<T>(sse: bool, bytes: Bytes, parse: Bytes -> Msg<T>): Outcome<T> {
    if sse then
      match First(Blocks(bytes), parse)
      case Some(o) => o
      case None => Malformed
    else
      match parse(bytes)
      case Match(value) => Got(value)
      case _ => Malformed
  }

  // ----- Lines of a growing input ------------------------------------------------------------

  lemma {:induction false} NoLf(b: Bytes)
    requires LF !in b
    ensures Split(b) == Cut([], b)
  {
    if b != [] {
      NoLf(b[..|b| - 1]);
      assert b == b[..|b| - 1] + [b[|b| - 1]];
    }
  }

  lemma {:induction false} TailHasNoLf(b: Bytes)
    ensures LF !in Split(b).tail
  {
    if b != [] {
      TailHasNoLf(b[..|b| - 1]);
    }
  }

  lemma SplitSnoc(b: Bytes, x: byte)
    ensures Split(b + [x]) ==
            if x == LF then Cut(Split(b).lines + [Split(b).tail], []) else Cut(Split(b).lines, Split(b).tail + [x])
  {
    assert (b + [x])[..|b|] == b;
  }

  /** Only the unfinished tail matters for what later bytes add. */
  lemma {:induction false} SplitAppend(a: Bytes, b: Bytes)
    ensures Split(a + b).lines == Split(a).lines + Split(Split(a).tail + b).lines
    ensures Split(a + b).tail == Split(Split(a).tail + b).tail
  {
    var t := Split(a).tail;
    if b == [] {
      TailHasNoLf(a);
      NoLf(t);
      assert a + b == a && t + b == t;
    } else {
      var rest, x := b[..|b| - 1], b[|b| - 1];
      SplitAppend(a, rest);
      assert a + b == (a + rest) + [x] && t + b == (t + rest) + [x];
      SplitSnoc(a + rest, x);
      SplitSnoc(t + rest, x);
    }
  }

  /** The first line comes off the front. */
  lemma SplitFirst(line: Bytes, rest: Bytes)
    requires LF !in line
    ensures Split(line + [LF] + rest).lines == [line] + Split(rest).lines
    ensures Split(line + [LF] + rest).tail == Split(rest).tail
  {
    NoLf(line);
    SplitSnoc(line, LF);
    assert Split(line + [LF]) == Cut([line], []);
    SplitAppend(line + [LF], rest);
    assert [] + rest == rest;
  }

  lemma {:induction false} BlocksGrow(a: seq<Bytes>, b: seq<Bytes>)
    ensures FoldLines(a).blocks <= FoldLines(a + b).blocks
    decreases |b|
  {
    if b == [] {
      assert a + b == a;
    } else {
      BlocksGrow(a, b[..|b| - 1]);
      assert (a + b)[..|a + b| - 1] == a + b[..|b| - 1];
    }
  }

  lemma {:induction false} FirstAfter<T>(a: seq<Bytes>, b: seq<Bytes>, parse: Bytes -> Msg<T>)
    ensures First(a, parse).Some? ==> First(a + b, parse) == First(a, parse)
    ensures First(a, parse).None? ==> First(a + b, parse) == First(b, parse)
  {
    if a == [] {
      assert a + b == b;
    } else {
      assert (a + b)[1..] == a[1..] + b;
      FirstAfter(a[1..], b, parse);
    }
  }

  /** An answer is never taken back by bytes that arrive later. */
  lemma AnswersStand<T>(a: Bytes, b: Bytes, parse: Bytes -> Msg<T>)
    requires First(Blocks(a), parse).Some?
    ensures First(Blocks(a + b), parse) == First(Blocks(a), parse)
  {
    SplitAppend(a, b);
    BlocksGrow(Split(a).lines, Split(Split(a).tail + b).lines);
    var more := Blocks(a + b)[|Blocks(a)|..];
    assert Blocks(a + b) == Blocks(a) + more;
    FirstAfter(Blocks(a), more, parse);
  }

  lemma {:induction false} ConcatGrows(chunks: seq<Bytes>, k: nat)
    requires k <= |chunks|
    ensures Concat(chunks[..k]) <= Concat(chunks)
    decreases |chunks|
  {
    if k == |chunks| {
      assert chunks[..k] == chunks;
    } else {
      var rest := chunks[..|chunks| - 1];
      assert rest[..k] == chunks[..k];
      ConcatGrows(rest, k);
    }
  }

  /** The chunks that count are those up to which the total stays within the limit. */
  lemma {:induction false} WithinExactly(chunks: seq<Bytes>, limit: nat)
    ensures forall k :: 0 < k <= Within(chunks, limit) ==> |Concat(chunks[..k])| <= limit
    ensures Within(chunks, limit) < |chunks| ==> |Concat(chunks[..Within(chunks, limit) + 1])| > limit
  {
    if chunks != [] {
      var rest := chunks[..|chunks| - 1];
      WithinExactly(rest, limit);
      assert chunks[..|chunks|] == chunks;
      assert forall k :: 0 <= k <= |rest| ==> chunks[..k] == rest[..k];
    }
  }

  lemma {:induction false} AllWithin(chunks: seq<Bytes>, limit: nat)
    requires |Concat(chunks)| <= limit
    ensures Within(chunks, limit) == |chunks|
  {
    if chunks != [] {
      AllWithin(chunks[..|chunks| - 1], limit);
    }
  }

  /** Through the first chunk that breaks the limit the prefix stays put. */
  lemma {:induction false} WithinStays(chunks: seq<Bytes>, limit: nat, k: nat)
    requires k < |chunks| && Within(chunks[..k], limit) == k && |Concat(chunks[..k + 1])| > limit
    ensures Within(chunks, limit) == k
    decreases |chunks|
  {
    var rest := chunks[..|chunks| - 1];
    if k + 1 == |chunks| {
      assert chunks[..k + 1] == chunks && rest == chunks[..k];
    } else {
      assert rest[..k] == chunks[..k] && rest[..k + 1] == chunks[..k + 1];
      WithinStays(rest, limit, k);
    }
  }

  /** What the reader answers for a chunked reply: the whole-input answer over the chunks
      within the limit, if those decide it, and a malformed reply otherwise. */
  function ReadChunks<T>(sse: bool, chunks: seq<Bytes>, limit: nat, parse: Bytes -> Msg<T>): Outcome<T> {
    var n := Within(chunks, limit);
    if sse || n == |chunks| then Read(sse, Concat(chunks[..n]), parse) else Malformed
  }

  /** Within the limit the answer depends only on the bytes, not on how they were cut. */
  lemma ChunkIndependence<T>(sse: bool, a: seq<Bytes>, b: seq<Bytes>, limit: nat, parse: Bytes -> Msg<T>)
    requires Concat(a) == Concat(b) && |Concat(a)| <= limit
    ensures ReadChunks(sse, a, limit, parse) == ReadChunks(sse, b, limit, parse) == Read(sse, Concat(a), parse)
  {
    AllWithin(a, limit);
    AllWithin(b, limit);
    assert a[..|a|] == a && b[..|b|] == b;
  }

  /** Past the limit an event stream yields what the whole input would, or nothing: it is
      never a different answer. */
  lemma OverLimitNeverDiffers<T>(chunks: seq<Bytes>, limit: nat, parse: Bytes -> Msg<T>)
    ensures ReadChunks(true, chunks, limit, parse) in {Read(true, Concat(chunks), parse), Malformed}
  {
    var n := Within(chunks, limit);
    ConcatGrows(chunks, n);
    var head, all := Concat(chunks[..n]), Concat(chunks);
    assert all == head + all[|head|..];
    if First(Blocks(head), parse).Some? {
      AnswersStand(head, all[|head|..], parse);
    }
  }

  // ----- Round trip --------------------------------------------------------------------------------

  /** No LF, and no CR at its end. */
  predicate Plain(line: Bytes) {
    LF !in line && (line != [] ==> line[|line| - 1] != CR)
  }

  /** What a server writes on a line: a data value, with or without the optional space, or
      a comment or another field, which the client ignores. */
  datatype Field = Data(value: Bytes, spaced: bool) | Note(text: Bytes)

  predicate Writable(f: Field) {
    match f
    case Data(value, spaced) => Plain(value) && (!spaced ==> !([SPACE] <= value))
    case Note(text) => Plain(text) && text != [] && !(DATA <= text)
  }

  /** A field and the CRs before its LF; an event is its lines and a blank one. */
  datatype Line = Line(field: Field, crs: nat)
  datatype Event = Event(lines: seq<Line>, crs: nat)

  function Text(f: Field): Bytes {
    match f
    case Data(value, spaced) => DATA + (if spaced then [SPACE] + value else value)
    case Note(text) => text
  }

  function Crs(n: nat): (c: Bytes)
    ensures |c| == n && forall i :: 0 <= i < n ==> c[i] == CR
  {
    seq(n, _ => CR)
  }

  function EncodeLines(lines: seq<Line>): Bytes {
    if lines == [] then []
    else
      var last := lines[|lines| - 1];
      EncodeLines(lines[..|lines| - 1]) + (Text(last.field) + Crs(last.crs) + [LF])
  }

  function Encode(events: seq<Event>): Bytes {
    if events == [] then []
    else
      var last := events[|events| - 1];
      Encode(events[..|events| - 1]) + EncodeLines(last.lines) + (Crs(last.crs) + [LF])
  }

  /** The data values of an event, and the payloads of the events that have any. */
  function Values(lines: seq<Line>): seq<Bytes> {
    if lines == [] then []
    else
      var last := lines[|lines| - 1].field;
      Values(lines[..|lines| - 1]) + if last.Data? then [last.value] else []
  }

  function Payloads(events: seq<Event>): seq<Bytes> {
    if events == [] then []
    else
      var values := Values(events[|events| - 1].lines);
      Payloads(events[..|events| - 1]) + if values == [] then [] else [Join(values)]
  }

  predicate WritableLines(lines: seq<Line>) {
    forall l :: l in lines ==> Writable(l.field)
  }

  lemma {:induction false} CrsStripped(line: Bytes, n: nat)
    requires line == [] || line[|line| - 1] != CR
    ensures StripCr(line + Crs(n)) == line
  {
    var raw := line + Crs(n);
    if n == 0 {
      assert raw == line;
    } else {
      assert raw[|raw| - 1] == CR && raw[..|raw| - 1] == line + Crs(n - 1);
      CrsStripped(line, n - 1);
    }
  }

  lemma TextStripped(f: Field, n: nat)
    requires Writable(f)
    ensures LF !in Text(f) + Crs(n) && StripCr(Text(f) + Crs(n)) == Text(f)
  {
    var text := Text(f);
    assert f.Data? ==> forall i :: 0 <= i < |DATA| ==> text[i] == DATA[i];
    assert f.Data? && f.value != [] ==> text[|text| - 1] == f.value[|f.value| - 1];
    CrsStripped(text, n);
  }

  /** What one line adds: its data value, or nothing. */
  lemma FieldRead(blocks: seq<Bytes>, data: seq<Bytes>, f: Field, n: nat)
    requires Writable(f)
    ensures Feed(Fold(blocks, data), Text(f) + Crs(n)) == Fold(blocks, if f.Data? then data + [f.value] else data)
  {
    TextStripped(f, n);
    if f.Data? {
      assert Text(f)[|DATA|..] == if f.spaced then [SPACE] + f.value else f.value;
    }
  }

  /** At a line boundary, one more line is one more fold step. */
  lemma LineAdds(b: Bytes, raw: Bytes)
    requires Split(b).tail == [] && LF !in raw
    ensures Split(b + (raw + [LF])).tail == []
    ensures FoldLines(Split(b + (raw + [LF])).lines) == Feed(FoldLines(Split(b).lines), raw)
  {
    SplitAppend(b, raw + [LF]);
    assert [] + (raw + [LF]) == raw + [LF];
    NoLf(raw);
    SplitSnoc(raw, LF);
  }

  lemma Associates(a: Bytes, b: Bytes, c: Bytes)
    ensures a + (b + c) == a + b + c
  {
  }

  lemma {:induction false} LinesRead(b: Bytes, blocks: seq<Bytes>, lines: seq<Line>)
    requires Split(b).tail == [] && FoldLines(Split(b).lines) == Fold(blocks, []) && WritableLines(lines)
    ensures Split(b + EncodeLines(lines)).tail == []
    ensures FoldLines(Split(b + EncodeLines(lines)).lines) == Fold(blocks, Values(lines))
  {
    if lines == [] {
      assert b + [] == b;
    } else {
      var rest, last := lines[..|lines| - 1], lines[|lines| - 1];
      assert last in lines && forall l :: l in rest ==> l in lines;
      LinesRead(b, blocks, rest);
      Associates(b, EncodeLines(rest), Text(last.field) + Crs(last.crs) + [LF]);
      TextStripped(last.field, last.crs);
      LineAdds(b + EncodeLines(rest), Text(last.field) + Crs(last.crs));
      FieldRead(blocks, Values(rest), last.field, last.crs);
    }
  }

  lemma BlankRead(f: Fold, n: nat)
    ensures Feed(f, Crs(n)) == if f.data == [] then f else Fold(f.blocks + [Join(f.data)], [])
  {
    CrsStripped([], n);
    assert [] + Crs(n) == Crs(n);
  }

  lemma {:induction false} EventsRead(events: seq<Event>)
    requires forall e :: e in events ==> WritableLines(e.lines)
    ensures Split(Encode(events)).tail == []
    ensures FoldLines(Split(Encode(events)).lines) == Fold(Payloads(events), [])
  {
    if events != [] {
      var rest, last := events[..|events| - 1], events[|events| - 1];
      assert last in events && forall e :: e in rest ==> e in events;
      EventsRead(rest);
      LinesRead(Encode(rest), Payloads(rest), last.lines);
      LineAdds(Encode(rest) + EncodeLines(last.lines), Crs(last.crs));
      BlankRead(Fold(Payloads(rest), Values(last.lines)), last.crs);
    }
  }

  /** Block `k` is the first that is not for somebody else. */
  ghost predicate Deciding<T>(blocks: seq<Bytes>, parse: Bytes -> Msg<T>, k: nat) {
    k < |blocks| && parse(blocks[k]) != Other && forall i :: 0 <= i < k ==> parse(blocks[i]) == Other
  }

  lemma {:induction false} FirstExactly<T>(blocks: seq<Bytes>, parse: Bytes -> Msg<T>)
    ensures First(blocks, parse).None? <==> forall i :: 0 <= i < |blocks| ==> parse(blocks[i]) == Other
    ensures forall k: nat :: Deciding(blocks, parse, k) ==>
              First(blocks, parse) == Some(match parse(blocks[k]) case Match(value) => Got(value) case _ => Malformed)
  {
    if blocks != [] {
      var rest := blocks[1..];
      FirstExactly(rest, parse);
      assert forall i :: 0 < i < |blocks| ==> blocks[i] == rest[i - 1];
      assert forall i :: 0 <= i < |rest| ==> rest[i] == blocks[i + 1];
      forall k: nat | Deciding(blocks, parse, k)
        ensures First(blocks, parse) == Some(match parse(blocks[k]) case Match(value) => Got(value) case _ => Malformed)
      {
        if k > 0 {
          assert Deciding(rest, parse, k - 1);
        }
      }
    }
  }

  lemma WholeRead(events: seq<Event>, unfinished: seq<Line>, partial: Bytes)
    requires (forall e :: e in events ==> WritableLines(e.lines)) && WritableLines(unfinished) && LF !in partial
    ensures Blocks(Encode(events) + EncodeLines(unfinished) + partial) == Payloads(events)
  {
    EventsRead(events);
    LinesRead(Encode(events), Payloads(events), unfinished);
    var whole := Encode(events) + EncodeLines(unfinished);
    SplitAppend(whole, partial);
    assert [] + partial == partial;
    NoLf(partial);
    assert Split(whole + partial).lines == Split(whole).lines + [] == Split(whole).lines;
  }

  /** Round trip: what a server encodes is read back, event by event, whatever the chunks, the
      line ends, the optional spaces and the comments: the first payload that is not for another
      request decides. An event that is cut off is not read. */
  lemma RoundTrip<T>(events: seq<Event>, unfinished: seq<Line>, partial: Bytes, chunks: seq<Bytes>, limit: nat,
      parse: Bytes -> Msg<T>)
    requires (forall e :: e in events ==> WritableLines(e.lines)) && WritableLines(unfinished) && LF !in partial
    requires Concat(chunks) == Encode(events) + EncodeLines(unfinished) + partial && |Concat(chunks)| <= limit
    ensures forall k: nat :: Deciding(Payloads(events), parse, k) ==>
              ReadChunks(true, chunks, limit, parse) ==
              match parse(Payloads(events)[k]) case Match(value) => Got(value) case _ => Malformed
    ensures (forall i :: 0 <= i < |Payloads(events)| ==> parse(Payloads(events)[i]) == Other) ==>
              ReadChunks(true, chunks, limit, parse) == Malformed
  {
    WholeRead(events, unfinished, partial);
    FirstExactly(Payloads(events), parse);
    ChunkIndependence(true, chunks, chunks, limit, parse);
  }

  /** Joining keeps the data lines apart: cutting the payload again gives them back. */
  lemma {:induction false} JoinKeepsLines(data: seq<Bytes>)
    requires data != [] && forall line :: line in data ==> LF !in line
    ensures Split(Join(data) + [LF]).lines == data
  {
    var rest, last := data[..|data| - 1], data[|data| - 1];
    assert data == rest + [last];
    if rest == [] {
      SplitFirst(last, []);
      assert last + [LF] + [] == last + [LF];
    } else {
      assert forall line :: line in rest ==> line in data;
      JoinKeepsLines(rest);
      var head := Join(rest) + [LF];
      assert Join(data) + [LF] == head + (last + [LF]);
      SplitSnoc(Join(rest), LF);
      assert Split(head).tail == [];
      SplitAppend(head, last + [LF]);
      SplitFirst(last, []);
      assert [] + (last + [LF]) == last + [LF] + [];
    }
  }

  // ----- The reader -------------------------------------------------------------------------------

  method RStripCr(raw: Bytes) returns (line: Bytes)
    ensures line == StripCr(raw)
  {
    line := raw;
    while line != [] && line[|line| - 1] == CR
      invariant StripCr(line) == StripCr(raw)
      decreases |line|
    {
      line := line[..|line| - 1];
    }
  }

  method FindLf(b: Bytes) returns (i: nat)
    ensures i <= |b| && LF !in b[..i]
    ensures i < |b| ==> b[i] == LF
  {
    i := 0;
    while i < |b| && b[i] != LF
      invariant i <= |b| && LF !in b[..i]
    {
      assert b[..i + 1] == b[..i] + [b[i]];
      i := i + 1;
    }
  }

  /** The lines `done` have been taken out of `seen`; `buffer` is still to be split. */
  ghost predicate Ahead(seen: Bytes, done: seq<Bytes>, buffer: Bytes) {
    Split(seen).lines == done + Split(buffer).lines && Split(seen).tail == Split(buffer).tail
  }

  ghost predicate Folded<T>(done: seq<Bytes>, f: Fold, parse: Bytes -> Msg<T>) {
    FoldLines(done) == f && First(f.blocks, parse).None?
  }

  lemma AheadLine(seen: Bytes, done: seq<Bytes>, buffer: Bytes, i: nat)
    requires Ahead(seen, done, buffer) && i < |buffer| && buffer[i] == LF && LF !in buffer[..i]
    ensures Ahead(seen, done + [buffer[..i]], buffer[i + 1..])
  {
    SplitFirst(buffer[..i], buffer[i + 1..]);
    assert buffer == buffer[..i] + [LF] + buffer[i + 1..];
    assert done + ([buffer[..i]] + Split(buffer[i + 1..]).lines) == done + [buffer[..i]] + Split(buffer[i + 1..]).lines;
  }

  lemma AheadChunk(seen: Bytes, done: seq<Bytes>, buffer: Bytes, chunk: Bytes)
    requires Ahead(seen, done, buffer) && LF !in buffer
    ensures Ahead(seen + chunk, done, buffer + chunk)
  {
    NoLf(buffer);
    SplitAppend(seen, chunk);
    assert done + [] == done;
  }

  lemma AllTaken<T>(seen: Bytes, done: seq<Bytes>, buffer: Bytes, f: Fold, parse: Bytes -> Msg<T>)
    requires Ahead(seen, done, buffer) && LF !in buffer && Folded(done, f, parse)
    ensures First(Blocks(seen), parse).None?
  {
    NoLf(buffer);
    assert done + [] == done;
  }

  /** A block that decides the answer decides it for the whole input. */
  lemma Decides<T>(seen: Bytes, done: seq<Bytes>, rest: seq<Bytes>, blocks: seq<Bytes>, b: Bytes, parse: Bytes -> Msg<T>)
    requires Split(seen).lines == done + rest && FoldLines(done).blocks == blocks + [b]
    requires First(blocks, parse).None? && parse(b) != Other
    ensures First(Blocks(seen), parse) == Some(if parse(b).Match? then Got(parse(b).value) else Malformed)
  {
    BlocksGrow(done, rest);
    var more := Blocks(seen)[|blocks| + 1..];
    assert Blocks(seen) == blocks + ([b] + more);
    FirstAfter(blocks, [b] + more, parse);
  }

  method ReadStream<T>(sse: bool, chunks: seq<Bytes>, limit: nat, parse: Bytes -> Msg<T>) returns (o: Outcome<T>)
    ensures o == ReadChunks(sse, chunks, limit, parse)
    ensures !sse ==>
              o == if |Concat(chunks)| <= limit && parse(Concat(chunks)).Match? then Got(parse(Concat(chunks)).value)
                   else Malformed
  {
    assert chunks[..|chunks|] == chunks;
    WithinExactly(chunks, limit);
    if |Concat(chunks)| <= limit {
      AllWithin(chunks, limit);
    }
    var buffer: Bytes := [];
    var data: seq<Bytes> := [];
    var size := 0;
    ghost var done: seq<Bytes> := [];
    ghost var blocks: seq<Bytes> := [];
    for i := 0 to |chunks|
      invariant size == |Concat(chunks[..i])| && Within(chunks[..i], limit) == i
      invariant sse ==> Ahead(Concat(chunks[..i]), done, buffer) && LF !in buffer && Folded(done, Fold(blocks, data), parse)
      invariant !sse ==> buffer == Concat(chunks[..i])
    {
      assert chunks[..i + 1][..i] == chunks[..i];
      size := size + |chunks[i]|;
      if size > limit {
        WithinStays(chunks, limit, i);
        if sse {
          AllTaken(Concat(chunks[..i]), done, buffer, Fold(blocks, data), parse);
        }
        return Malformed;
      }
      if sse {
        AheadChunk(Concat(chunks[..i]), done, buffer, chunks[i]);
      }
      buffer := buffer + chunks[i];
      if !sse {
        continue;
      }
      var answer;
      answer, buffer, data, done, blocks := TakeLines(Concat(chunks[..i + 1]), buffer, data, parse, done, blocks);
      if answer.Some? {
        AnswerWithin(chunks, limit, i + 1, parse);
        return answer.value;
      }
    }
    assert chunks[..|chunks|] == chunks;
    if sse {
      AllTaken(Concat(chunks), done, buffer, Fold(blocks, data), parse);
    } else {
      match parse(buffer) {
        case Match(value) => return Got(value);
        case _ =>
      }
    }
    o := Malformed;
  }

  lemma AnswerWithin<T>(chunks: seq<Bytes>, limit: nat, k: nat, parse: Bytes -> Msg<T>)
    requires k <= |chunks| && Within(chunks[..k], limit) == k && First(Blocks(Concat(chunks[..k])), parse).Some?
    ensures ReadChunks(true, chunks, limit, parse) == First(Blocks(Concat(chunks[..k])), parse).value
  {
    var n := Within(chunks, limit);
    WithinGrows(chunks, limit, k);
    ConcatGrows(chunks[..n], k);
    assert chunks[..n][..k] == chunks[..k];
    var head, all := Concat(chunks[..k]), Concat(chunks[..n]);
    assert all == head + all[|head|..];
    AnswersStand(head, all[|head|..], parse);
  }

  lemma {:induction false} WithinGrows(chunks: seq<Bytes>, limit: nat, k: nat)
    requires k <= |chunks| && Within(chunks[..k], limit) == k
    ensures Within(chunks, limit) >= k
    decreases |chunks|
  {
    if k == |chunks| {
      assert chunks[..k] == chunks;
    } else {
      var rest := chunks[..|chunks| - 1];
      assert rest[..k] == chunks[..k];
      WithinGrows(rest, limit, k);
    }
  }

  /** The inner loop: take every complete line out of the buffer, stopping at an answer. */
  method TakeLines<T>(ghost seen: Bytes, buffer0: Bytes, data0: seq<Bytes>, parse: Bytes -> Msg<T>,
      ghost done0: seq<Bytes>, ghost blocks0: seq<Bytes>)
    returns (answer: Option<Outcome<T>>, buffer: Bytes, data: seq<Bytes>, ghost done: seq<Bytes>, ghost blocks: seq<Bytes>)
    requires Ahead(seen, done0, buffer0) && Folded(done0, Fold(blocks0, data0), parse)
    ensures answer.None? ==> Ahead(seen, done, buffer) && LF !in buffer && Folded(done, Fold(blocks, data), parse)
    ensures answer.Some? ==> First(Blocks(seen), parse) == answer
  {
    answer, buffer, data, done, blocks := None, buffer0, data0, done0, blocks0;
    while true
      invariant Ahead(seen, done, buffer) && Folded(done, Fold(blocks, data), parse)
      decreases |buffer|
    {
      var i := FindLf(buffer);
      if i == |buffer| {
        return;
      }
      AheadLine(seen, done, buffer, i);
      var raw := buffer[..i];
      buffer := buffer[i + 1..];
      done := done + [raw];
      var line := RStripCr(raw);
      if DATA <= line {
        data := data + [DataValue(line)];
      } else if line == [] && data != [] {
        var block := Join(data);
        match parse(block) {
          case Bad =>
            Decides(seen, done, Split(buffer).lines, blocks, block, parse);
            answer := Some(Malformed);
            return;
          case Match(value) =>
            Decides(seen, done, Split(buffer).lines, blocks, block, parse);
            answer := Some(Got(value));
            return;
          case Other =>
        }
        FirstAfter(blocks, [block], parse);
        data := [];
        blocks := blocks + [block];
      }
    }
  }
}
