/** Splitting a container's output into events and diagnostics
    (core/apt/containerevents.go:79-228). */
module EventStream {
  // The stream arrives in arbitrary chunks.  `Scan` is the reference: a reader that takes one
  // byte at a time and buffers a line without limit.  The splitter, which gives up on a partial
  // line over 64 KiB, is shown to agree with it for every way of cutting the stream exactly when
  // no line over that size decodes as an event.  Decoding one line is a parameter.

  const LINE_MAX: nat := 65536
  const EVENTS_MAX: nat := 5000

  /** What one complete line is. */
  datatype Verdict<E> = NotEvent | Accepted(event: E) | Rejected

  type Decoder<!E> = string -> Verdict<E>

  /** The splitter's fields, and the event lines it has handed to the sink. */
  datatype State<E> = State(diag: string, pending: string, overlong: bool, events: seq<Verdict<E>>)

  // ---- what the methods do to the state -------------------------------------------

  function Judge<E>(dec: Decoder<E>, st: State<E>, line: string): State<E> {
    if dec(line).NotEvent? then st.(diag := st.diag + line) else st.(events := st.events + [dec(line)])
  }

  /** consume: `line` ends with its newline. */
  function AfterLine<E>(dec: Decoder<E>, st: State<E>, line: string): State<E> {
    if st.overlong then State(st.diag + line, [], false, st.events)
    else Judge(dec, st.(pending := []), st.pending + line)
  }

  /** The part of Write after the last newline. */
  function Buffer<E>(st: State<E>, rest: string): State<E> {
    if rest == [] then st
    else if st.overlong then st.(diag := st.diag + rest)
    else if |st.pending + rest| > LINE_MAX then State(st.diag + (st.pending + rest), [], true, st.events)
    else st.(pending := st.pending + rest)
  }

  /** Index of the first newline, or |p|. */
  function NewlineIn(p: string): (i: nat)
    ensures i <= |p|
    ensures forall k :: 0 <= k < i ==> p[k] != '\n'
    ensures i < |p| ==> p[i] == '\n'
  {
    if p == [] || p[0] == '\n' then 0 else 1 + NewlineIn(p[1..])
  }

  function AfterWrite<E>(dec: Decoder<E>, st: State<E>, p: string): State<E>
    decreases |p|
  {
    var i := NewlineIn(p);
    if i == |p| then Buffer(st, p) else AfterWrite(dec, AfterLine(dec, st, p[..i + 1]), p[i + 1..])
  }

  function AfterClose<E>(st: State<E>): State<E> {
    State(st.diag + st.pending, [], false, st.events)
  }

  // ---- the reference reader ---------------------------------------------------------

  datatype Reader<E> = Reader(diag: string, line: string, events: seq<Verdict<E>>)

  function ReadByte<E>(dec: Decoder<E>, r: Reader<E>, c: char): Reader<E> {
    var line := r.line + [c];
    if c != '\n' then Reader(r.diag, line, r.events)
    else if dec(line).NotEvent? then Reader(r.diag + line, [], r.events)
    else Reader(r.diag, [], r.events + [dec(line)])
  }

  function Scan<E>(dec: Decoder<E>, s: string): Reader<E> {
    if s == [] then Reader([], [], [])
    else ReadByte(dec, Scan(dec, s[..|s| - 1]), s[|s| - 1])
  }

  /** No complete line with a body over the limit decodes as an event. */
  predicate NoLongEvents<E>(dec: Decoder<E>, s: string) {
    s == [] ||
    (&& NoLongEvents(dec, s[..|s| - 1])
     && (s[|s| - 1] == '\n' && |Scan(dec, s[..|s| - 1]).line| > LINE_MAX ==>
           dec(Scan(dec, s[..|s| - 1]).line + ['\n']).NotEvent?))
  }

  lemma {:induction false} ScanSnoc<E>(dec: Decoder<E>, s: string, c: char)
    ensures Scan(dec, s + [c]) == ReadByte(dec, Scan(dec, s), c)
    ensures NoLongEvents(dec, s + [c]) <==>
      && NoLongEvents(dec, s)
      && (c == '\n' && |Scan(dec, s).line| > LINE_MAX ==> dec(Scan(dec, s).line + ['\n']).NotEvent?)
  {
    assert (s + [c])[..|s|] == s;
  }

  lemma {:induction false} ScanPartial<E>(dec: Decoder<E>, s: string, x: string)
    requires forall k :: 0 <= k < |x| ==> x[k] != '\n'
    ensures Scan(dec, s + x) == Scan(dec, s).(line := Scan(dec, s).line + x)
    ensures NoLongEvents(dec, s + x) == NoLongEvents(dec, s)
    decreases |x|
  {
    if x == [] {
      assert s + x == s;
    } else {
      var y, c := x[..|x| - 1], x[|x| - 1];
      ScanPartial(dec, s, y);
      ScanSnoc(dec, s + y, c);
      assert s + x == s + y + [c];
      assert x == y + [c];
      assert Scan(dec, s).line + x == Scan(dec, s).line + y + [c];
    }
  }

  // ---- the splitter against the reader ------------------------------------------------

  /** Between writes the splitter never holds more than the limit. */
  predicate Bounded<E>(st: State<E>) {
    |st.pending| <= LINE_MAX && (st.overlong ==> st.pending == [])
  }

  /** `st` is where the splitter may be after the stream `s`. */
  ghost predicate Follows<E>(dec: Decoder<E>, s: string, st: State<E>) {
    var r := Scan(dec, s);
    && st.events == r.events
    && if st.overlong then st.pending == [] && |r.line| > LINE_MAX && st.diag == r.diag + r.line
       else st.pending == r.line && st.diag == r.diag
  }

  /** The reader over the rest of a line, newline included. */
  lemma {:induction false} ScanLine<E>(dec: Decoder<E>, s: string, x: string)
    requires forall k :: 0 <= k < |x| ==> x[k] != '\n'
    ensures var r := Scan(dec, s);
            var line := r.line + (x + ['\n']);
            && Scan(dec, s + x + ['\n']) ==
               (if dec(line).NotEvent? then Reader(r.diag + line, [], r.events)
                else Reader(r.diag, [], r.events + [dec(line)]))
            && (NoLongEvents(dec, s + x + ['\n']) && |r.line| > LINE_MAX ==> dec(line).NotEvent?)
  {
    var r := Scan(dec, s);
    ScanPartial(dec, s, x);
    ScanSnoc(dec, s + x, '\n');
    assert r.line + (x + ['\n']) == r.line + x + ['\n'];
  }

  lemma {:induction false} ConsumeFollows<E>(dec: Decoder<E>, s: string, st: State<E>, x: string)
    requires Follows(dec, s, st) && forall k :: 0 <= k < |x| ==> x[k] != '\n'
    requires st.overlong ==> NoLongEvents(dec, s + x + ['\n'])
    ensures var next := AfterLine(dec, st, x + ['\n']);
            Follows(dec, s + x + ['\n'], next) && !next.overlong && next.pending == []
  {
    var r := Scan(dec, s);
    ScanLine(dec, s, x);
    assert r.diag + r.line + (x + ['\n']) == r.diag + (r.line + (x + ['\n']));
  }

  lemma {:induction false} BufferFollows<E>(dec: Decoder<E>, s: string, st: State<E>, x: string)
    requires Follows(dec, s, st) && forall k :: 0 <= k < |x| ==> x[k] != '\n'
    ensures Follows(dec, s + x, Buffer(st, x))
  {
    var r := Scan(dec, s);
    ScanPartial(dec, s, x);
    if x == [] {
      assert s + x == s;
    }
    assert r.diag + r.line + x == r.diag + (r.line + x);
  }

  /** One Write keeps the splitter in step with the reader, always from a line start and
      otherwise as long as no long event line is completed. */
  lemma {:induction false} WriteFollows<E>(dec: Decoder<E>, s: string, st: State<E>, p: string)
    requires Follows(dec, s, st) && (st.overlong ==> NoLongEvents(dec, s + p))
    ensures Follows(dec, s + p, AfterWrite(dec, st, p))
    decreases |p|
  {
    var i := NewlineIn(p);
    if i == |p| {
      BufferFollows(dec, s, st, p);
    } else {
      var x, rest := p[..i], p[i + 1..];
      assert p[..i + 1] == x + ['\n'];
      assert s + p == s + x + ['\n'] + rest;
      if st.overlong {
        NoLongPrefix(dec, s + x + ['\n'], rest);
      }
      ConsumeFollows(dec, s, st, x);
      WriteFollows(dec, s + x + ['\n'], AfterLine(dec, st, x + ['\n']), rest);
    }
  }

  lemma {:induction false} NoLongPrefix<E>(dec: Decoder<E>, s: string, p: string)
    requires NoLongEvents(dec, s + p)
    ensures NoLongEvents(dec, s)
    decreases |p|
  {
    if p == [] {
      assert s + p == s;
    } else {
      assert s + p == s + p[..|p| - 1] + [p[|p| - 1]];
      ScanSnoc(dec, s + p[..|p| - 1], p[|p| - 1]);
      NoLongPrefix(dec, s, p[..|p| - 1]);
    }
  }

  lemma {:induction false} WriteIsBounded<E>(dec: Decoder<E>, st: State<E>, p: string)
    requires Bounded(st)
    ensures Bounded(AfterWrite(dec, st, p))
    decreases |p|
  {
    var i := NewlineIn(p);
    if i < |p| {
      WriteIsBounded(dec, AfterLine(dec, st, p[..i + 1]), p[i + 1..]);
    }
  }

  // ---- whole runs -----------------------------------------------------------------------

  function Concat(chunks: seq<string>): string {
    if chunks == [] then [] else Concat(chunks[..|chunks| - 1]) + chunks[|chunks| - 1]
  }

  function Writes<E>(dec: Decoder<E>, chunks: seq<string>): State<E> {
    if chunks == [] then State([], [], false, [])
    else AfterWrite(dec, Writes(dec, chunks[..|chunks| - 1]), chunks[|chunks| - 1])
  }

  /** Everything a run of Writes followed by Close leaves behind. */
  function Run<E>(dec: Decoder<E>, chunks: seq<string>): State<E> {
    AfterClose(Writes(dec, chunks))
  }

  /** What the reader makes of the whole stream, its last partial line being diagnostics. */
  function Whole<E>(dec: Decoder<E>, s: string): State<E> {
    var r := Scan(dec, s);
    State(r.diag + r.line, [], false, r.events)
  }

  lemma {:induction false} WritesFollow<E>(dec: Decoder<E>, chunks: seq<string>)
    requires NoLongEvents(dec, Concat(chunks))
    ensures Follows(dec, Concat(chunks), Writes(dec, chunks))
    decreases |chunks|
  {
    if chunks == [] {
    } else {
      var front := chunks[..|chunks| - 1];
      NoLongPrefix(dec, Concat(front), chunks[|chunks| - 1]);
      WritesFollow(dec, front);
      WriteFollows(dec, Concat(front), Writes(dec, front), chunks[|chunks| - 1]);
    }
  }

  /** Whatever the chunks, the run yields the reader's diagnostics and events. */
  lemma {:induction false} RunIsWhole<E>(dec: Decoder<E>, chunks: seq<string>)
    requires NoLongEvents(dec, Concat(chunks))
    ensures Run(dec, chunks) == Whole(dec, Concat(chunks))
  {
    WritesFollow(dec, chunks);
    var r := Scan(dec, Concat(chunks));
    assert r.diag + r.line + [] == r.diag + r.line;
  }

  /** For every stream and every chunking, the buffer between writes is bounded. */
  lemma {:induction false} PendingIsBounded<E>(dec: Decoder<E>, chunks: seq<string>)
    ensures |Writes(dec, chunks).pending| <= LINE_MAX
    ensures Bounded(Writes(dec, chunks))
    decreases |chunks|
  {
    if chunks == [] {
    } else {
      PendingIsBounded(dec, chunks[..|chunks| - 1]);
      WriteIsBounded(dec, Writes(dec, chunks[..|chunks| - 1]), chunks[|chunks| - 1]);
    }
  }

  // ---- and exactly then -----------------------------------------------------------------

  /** Every way of cutting `s` into writes ends with the same diagnostics and events. */
  ghost predicate ChunkingIrrelevant<E(!new)>(dec: Decoder<E>, s: string) {
    forall cs: seq<string>, ds: seq<string> :: Concat(cs) == s && Concat(ds) == s ==> Run(dec, cs) == Run(dec, ds)
  }

  lemma {:induction false} WritesOne<E>(dec: Decoder<E>, s: string)
    ensures Concat([s]) == s
    ensures Writes(dec, [s]) == AfterWrite(dec, State([], [], false, []), s)
  {
    assert [s][..0] == [];
    assert Concat([]) + s == s;
  }

  lemma {:induction false} WritesTwo<E>(dec: Decoder<E>, s: string, t: string)
    ensures Concat([s, t]) == s + t
    ensures Writes(dec, [s, t]) == AfterWrite(dec, Writes(dec, [s]), t)
  {
    assert [s, t][..1] == [s];
    WritesOne(dec, s);
  }

  /** A line arriving whole in one Write is always decoded. */
  lemma {:induction false} OneWriteIsWhole<E>(dec: Decoder<E>, s: string)
    ensures Follows(dec, s, Writes(dec, [s])) && Run(dec, [s]) == Whole(dec, s)
  {
    WritesOne(dec, s);
    var start: State<E> := State([], [], false, []);
    assert Follows(dec, [], start);
    WriteFollows(dec, [], start, s);
    assert [] + s == s;
    var r := Scan(dec, s);
    assert r.diag + r.line + [] == r.diag + r.line;
  }

  lemma {:induction false} ConsumeLongLine<E>(dec: Decoder<E>, st: State<E>, rest: string)
    requires st.overlong
    ensures AfterWrite(dec, st, ['\n'] + rest) == AfterWrite(dec, State(st.diag + ['\n'], [], false, st.events), rest)
  {
    var p := ['\n'] + rest;
    assert p[..1] == ['\n'] && p[1..] == rest;
  }

  /** A long line that decodes as an event, completed at byte `k`. */
  predicate LongEventAt<E>(dec: Decoder<E>, s: string, k: nat) {
    && k < |s| && s[k] == '\n'
    && |Scan(dec, s[..k]).line| > LINE_MAX && !dec(Scan(dec, s[..k]).line + ['\n']).NotEvent?
  }

  lemma {:induction false} FindLongEvent<E>(dec: Decoder<E>, s: string) returns (k: nat)
    requires !NoLongEvents(dec, s)
    ensures LongEventAt(dec, s, k)
    decreases |s|
  {
    var front := s[..|s| - 1];
    if !NoLongEvents(dec, front) {
      k := FindLongEvent(dec, front);
      assert front[..k] == s[..k];
    } else {
      k := |s| - 1;
    }
  }

  /** A decoder that takes every line for a bad event, and the shortest line that is too long. */
  lemma {:induction false} LongEventExists(x: string)
    requires |x| == LINE_MAX + 1 && forall k :: 0 <= k < |x| ==> x[k] != '\n'
    ensures var dec := (line: string) => Verdict<int>.Rejected;
            LongEventAt(dec, x + ['\n'], |x|)
  {
    var dec := (line: string) => Verdict<int>.Rejected;
    ScanPartial(dec, [], x);
    assert [] + x == x && (x + ['\n'])[..|x|] == x;
  }

  /** What a cut before the newline of an overlong line delivers: the line itself is not counted. */
  lemma {:induction false} CutCounts<E>(dec: Decoder<E>, head: string, rest: string, tail: string)
    requires tail == ['\n'] + rest && |Scan(dec, head).line| > LINE_MAX
    requires Scan(dec, head + ['\n']).line == []
    ensures |Run(dec, [head, tail]).events| ==
            |Scan(dec, head).events| + |Scan(dec, head + ['\n'] + rest).events| - |Scan(dec, head + ['\n']).events|
  {
    OneWriteIsWhole(dec, head);
    PendingIsBounded(dec, [head]);
    WritesTwo(dec, head, tail);
    var st := Writes(dec, [head]);
    ConsumeLongLine(dec, st, rest);
    DropLine(dec, head, st, rest);
  }

  lemma {:induction false} CutLoses<E>(dec: Decoder<E>, s: string, head: string, rest: string, tail: string)
    requires s == head + ['\n'] + rest && tail == ['\n'] + rest
    requires |Scan(dec, head).line| > LINE_MAX && !dec(Scan(dec, head).line + ['\n']).NotEvent?
    ensures |Run(dec, [head, tail]).events| < |Run(dec, [s]).events|
  {
    ScanSnoc(dec, head, '\n');
    CutCounts(dec, head, rest, tail);
    OneWriteIsWhole(dec, s);
  }

  /** Cutting the stream just before the newline of a long event line loses the event. */
  lemma {:induction false} CutLosesEvent<E>(dec: Decoder<E>, s: string, k: nat)
    requires LongEventAt(dec, s, k)
    ensures Concat([s[..k], s[k..]]) == s
    ensures |Run(dec, [s[..k], s[k..]]).events| < |Run(dec, [s]).events|
  {
    var head, rest, tail := s[..k], s[k + 1..], s[k..];
    assert tail == ['\n'] + rest;
    assert s == head + ['\n'] + rest;
    CutLoses(dec, s, head, rest, tail);
    WritesTwo(dec, head, tail);
    assert head + tail == s;
  }

  lemma {:induction false} DropLine<E>(dec: Decoder<E>, head: string, st: State<E>, rest: string)
    requires st.events == Scan(dec, head).events
    requires Scan(dec, head + ['\n']).line == []
    ensures |AfterWrite(dec, State(st.diag + ['\n'], [], false, st.events), rest).events| - |st.events| ==
            |Scan(dec, head + ['\n'] + rest).events| - |Scan(dec, head + ['\n']).events|
  {
    EventsCountFromLineStart(dec, head + ['\n'], State(st.diag + ['\n'], [], false, st.events), rest);
  }

  lemma {:induction false} LineCounts<E>(dec: Decoder<E>, s: string, st: State<E>, x: string, next: State<E>)
    requires Scan(dec, s).line == [] && st.pending == [] && !st.overlong
    requires next == AfterLine(dec, st, x + ['\n']) && forall k :: 0 <= k < |x| ==> x[k] != '\n'
    ensures Scan(dec, s + x + ['\n']).line == [] && next.pending == [] && !next.overlong
    ensures |next.events| - |st.events| == |Scan(dec, s + x + ['\n']).events| - |Scan(dec, s).events|
  {
    assert [] + (x + ['\n']) == x + ['\n'] && [] + x == x;
    ScanPartial(dec, s, x);
    ScanSnoc(dec, s + x, '\n');
  }

  lemma {:induction false} EventsCountFromLineStart<E>(dec: Decoder<E>, s: string, st: State<E>, p: string)
    requires Scan(dec, s).line == [] && st.pending == [] && !st.overlong
    ensures |AfterWrite(dec, st, p).events| - |st.events| == |Scan(dec, s + p).events| - |Scan(dec, s).events|
    decreases |p|
  {
    var i := NewlineIn(p);
    if i == |p| {
      ScanPartial(dec, s, p);
    } else {
      var x, rest := p[..i], p[i + 1..];
      assert p[..i + 1] == x + ['\n'];
      assert s + p == s + x + ['\n'] + rest;
      var next := AfterLine(dec, st, x + ['\n']);
      LineCounts(dec, s, st, x, next);
      EventsCountFromLineStart(dec, s + x + ['\n'], next, rest);
    }
  }

  lemma {:induction false} NoLongEventsSuffices<E(!new)>(dec: Decoder<E>, s: string)
    requires NoLongEvents(dec, s)
    ensures ChunkingIrrelevant(dec, s)
  {
    forall cs: seq<string>, ds: seq<string> | Concat(cs) == s && Concat(ds) == s
      ensures Run(dec, cs) == Run(dec, ds)
    {
      RunIsWhole(dec, cs);
      RunIsWhole(dec, ds);
    }
  }

  lemma {:induction false} LongEventMatters<E(!new)>(dec: Decoder<E>, s: string)
    requires !NoLongEvents(dec, s)
    ensures !ChunkingIrrelevant(dec, s)
  {
    var k := FindLongEvent(dec, s);
    CutLosesEvent(dec, s, k);
    WritesOne(dec, s);
    var cs, ds := [s], [s[..k], s[k..]];
    assert Run(dec, cs) != Run(dec, ds);
  }

  /** Diagnostics and events are independent of how the stream was cut if and only if no
      line over the limit decodes as an event. */
  lemma {:induction false} ChunkingTheorem<E(!new)>(dec: Decoder<E>, s: string)
    ensures ChunkingIrrelevant(dec, s) <==> NoLongEvents(dec, s)
  {
    if NoLongEvents(dec, s) {
      NoLongEventsSuffices(dec, s);
    } else {
      LongEventMatters(dec, s);
    }
  }

  // ---- the sink ----------------------------------------------------------------------------

  datatype Counts<E> = Counts(emitted: seq<E>, rejected: nat, dropped: nat)

  function Absorb<E>(c: Counts<E>, v: Verdict<E>): Counts<E> {
    match v
    case NotEvent => c
    case Rejected => c.(rejected := c.rejected + 1)
    case Accepted(e) =>
      if |c.emitted| >= EVENTS_MAX then c.(dropped := c.dropped + 1) else c.(emitted := c.emitted + [e])
  }

  function AbsorbAll<E>(c: Counts<E>, vs: seq<Verdict<E>>): Counts<E> {
    if vs == [] then c else Absorb(AbsorbAll(c, vs[..|vs| - 1]), vs[|vs| - 1])
  }

  lemma {:induction false} AbsorbConcat<E>(c: Counts<E>, vs: seq<Verdict<E>>, ws: seq<Verdict<E>>)
    ensures AbsorbAll(c, vs + ws) == AbsorbAll(AbsorbAll(c, vs), ws)
    decreases |ws|
  {
    if ws == [] {
      assert vs + ws == vs;
    } else {
      AbsorbConcat(c, vs, ws[..|ws| - 1]);
      assert (vs + ws)[..|vs + ws| - 1] == vs + ws[..|ws| - 1];
    }
  }

  function CountAccepted<E>(vs: seq<Verdict<E>>): nat {
    if vs == [] then 0 else CountAccepted(vs[..|vs| - 1]) + if vs[|vs| - 1].Accepted? then 1 else 0
  }

  function CountRejected<E>(vs: seq<Verdict<E>>): nat {
    if vs == [] then 0 else CountRejected(vs[..|vs| - 1]) + if vs[|vs| - 1].Rejected? then 1 else 0
  }

  /** `w` interleaves `u` and `v`: the order in which two streams reached the shared sink. */
  ghost predicate Interleaves<E>(w: seq<Verdict<E>>, u: seq<Verdict<E>>, v: seq<Verdict<E>>)
    decreases |w|
  {
    if w == [] then u == [] && v == []
    else
      || (u != [] && u[|u| - 1] == w[|w| - 1] && Interleaves(w[..|w| - 1], u[..|u| - 1], v))
      || (v != [] && v[|v| - 1] == w[|w| - 1] && Interleaves(w[..|w| - 1], u, v[..|v| - 1]))
  }

  lemma {:induction false} CountsOfInterleaving<E>(w: seq<Verdict<E>>, u: seq<Verdict<E>>, v: seq<Verdict<E>>)
    requires Interleaves(w, u, v)
    ensures CountAccepted(w) == CountAccepted(u) + CountAccepted(v)
    ensures CountRejected(w) == CountRejected(u) + CountRejected(v)
    decreases |w|
  {
    if w == [] {
    } else {
      if u != [] && u[|u| - 1] == w[|w| - 1] && Interleaves(w[..|w| - 1], u[..|u| - 1], v) {
        CountsOfInterleaving(w[..|w| - 1], u[..|u| - 1], v);
      } else {
        CountsOfInterleaving(w[..|w| - 1], u, v[..|v| - 1]);
      }
    }
  }

  function Min(a: nat, b: nat): nat {
    if a < b then a else b
  }

  /** The accepted events, in order. */
  function AcceptedEvents<E>(vs: seq<Verdict<E>>): seq<E> {
    if vs == [] then []
    else AcceptedEvents(vs[..|vs| - 1]) + if vs[|vs| - 1].Accepted? then [vs[|vs| - 1].event] else []
  }

  /** The sink forwards the first accepted events, up to the cap, and counts the others. */
  lemma {:induction false} SinkCounts<E>(vs: seq<Verdict<E>>)
    ensures |AcceptedEvents(vs)| == CountAccepted(vs)
    ensures var c := AbsorbAll(Counts([], 0, 0), vs);
            && c.emitted == AcceptedEvents(vs)[..Min(CountAccepted(vs), EVENTS_MAX)]
            && |c.emitted| + c.dropped == CountAccepted(vs)
            && c.rejected == CountRejected(vs)
    decreases |vs|
  {
    if vs == [] {
    } else {
      SinkCounts(vs[..|vs| - 1]);
    }
  }

  /** Whatever order two streams' lines reach the shared sink in, at most the cap is
      forwarded, every other accepted event is counted as dropped and every rejected one
      as rejected. */
  lemma {:induction false} SharedSinkCounts<E>(w: seq<Verdict<E>>, u: seq<Verdict<E>>, v: seq<Verdict<E>>)
    requires Interleaves(w, u, v)
    ensures |AcceptedEvents(w)| == CountAccepted(w)
    ensures var c := AbsorbAll(Counts([], 0, 0), w);
            && c.emitted == AcceptedEvents(w)[..Min(CountAccepted(w), EVENTS_MAX)]
            && |c.emitted| == Min(CountAccepted(u) + CountAccepted(v), EVENTS_MAX)
            && |c.emitted| + c.dropped == CountAccepted(u) + CountAccepted(v)
            && c.rejected == CountRejected(u) + CountRejected(v)
  {
    CountsOfInterleaving(w, u, v);
    SinkCounts(w);
  }

  // ---- the objects --------------------------------------------------------------------------

  /** containerEventSink; `emitted` is what `emit` has been called with. */
  class Sink<E> {
    var emitted: seq<E>
    var forwarded: nat
    var rejected: nat
    var dropped: nat

    ghost predicate Valid()
      reads this
    {
      forwarded == |emitted|
    }

    ghost function Value(): Counts<E>
      reads this
    {
      Counts(emitted, rejected, dropped)
    }

    constructor ()
      ensures Valid() && Value() == Counts([], 0, 0)
    {
      emitted, forwarded, rejected, dropped := [], 0, 0, 0;
    }

    method Accept(e: E)
      requires Valid()
      modifies this
      ensures Valid() && Value() == Absorb(old(Value()), Accepted(e))
    {
      if forwarded >= EVENTS_MAX {
        dropped := dropped + 1;
        return;
      }
      forwarded := forwarded + 1;
      emitted := emitted + [e];
    }

    method Reject()
      requires Valid()
      modifies this
      ensures Valid() && Value() == Absorb(old(Value()), Rejected)
    {
      rejected := rejected + 1;
    }
  }

  /** containerEventStream.  The ghost `events` is the history of lines handed to the sink. */
  class Stream<E> {
    const dec: Decoder<E>
    const sink: Sink<E>
    var diag: string
    var pending: string
    var overlong: bool
    ghost var events: seq<Verdict<E>>

    ghost function Value(): State<E>
      reads this
    {
      State(diag, pending, overlong, events)
    }

    ghost predicate Valid()
      reads this, sink
    {
      sink.Valid() && Bounded(Value())
    }

    constructor (dec: Decoder<E>, sink: Sink<E>)
      requires sink.Valid()
      ensures Valid() && this.sink == sink && this.dec == dec
      ensures Value() == Writes(dec, [])
    {
      this.dec, this.sink := dec, sink;
      diag, pending, overlong, events := [], [], false, [];
    }

    /** The sink has absorbed exactly the event lines added to the history. */
    twostate predicate SinkFollows()
      reads this, sink
    {
      && old(events) <= events
      && sink.Value() == AbsorbAll(old(sink.Value()), events[|old(events)|..])
    }

    method ConsumeLine(line: string)
      requires Valid() && line != []
      modifies this, sink
      ensures Valid() && Value() == AfterLine(dec, old(Value()), line)
      ensures SinkFollows()
    {
      if overlong {
        diag := diag + line;
        overlong := false;
        pending := [];
        assert events[|old(events)|..] == [];
        return;
      }
      var whole := line;
      if |pending| > 0 {
        whole := pending + line;
        pending := [];
      } else {
        assert pending + line == line;
      }
      var v := dec(whole);
      assert AbsorbAll(sink.Value(), [v]) == Absorb(sink.Value(), v) by {
        assert [v][..0] == [];
      }
      match v {
        case NotEvent =>
          diag := diag + whole;
          assert events[|old(events)|..] == [];
        case Accepted(e) =>
          sink.Accept(e);
          events := events + [v];
          assert events[|old(events)|..] == [v];
        case Rejected =>
          sink.Reject();
          events := events + [v];
          assert events[|old(events)|..] == [v];
      }
    }

    /** Write: the state afterwards, the sink's new state, and the bound on the buffer. */
    method Write(p: string)
      requires Valid()
      modifies this, sink
      ensures Valid() && Value() == AfterWrite(dec, old(Value()), p)
      ensures SinkFollows()
      ensures |pending| <= LINE_MAX
    {
      var rest := p;
      assert events[|events|..] == [];
      ghost var target := AfterWrite(dec, Value(), p);
      while NewlineIn(rest) < |rest|
        invariant Valid()
        invariant target == AfterWrite(dec, Value(), rest)
        invariant SinkFollows()
        decreases |rest|
      {
        var i := NewlineIn(rest);
        ghost var before := events;
        ConsumeLine(rest[..i + 1]);
        rest := rest[i + 1..];
        AbsorbConcat(old(sink.Value()), before[|old(events)|..], events[|before|..]);
        assert events[|old(events)|..] == before[|old(events)|..] + events[|before|..];
      }
      if |rest| > 0 {
        if overlong {
          diag := diag + rest;
        } else {
          pending := pending + rest;
          if |pending| > LINE_MAX {
            diag := diag + pending;
            pending := [];
            overlong := true;
          }
        }
      }
    }

    /** The end of the stream: whatever is still buffered was never a whole line. */
    method Close()
      requires Valid()
      modifies this
      ensures Valid() && Value() == AfterClose(old(Value()))
    {
      if |pending| > 0 {
        diag := diag + pending;
        pending := [];
      } else {
        assert diag + pending == diag;
      }
      overlong := false;
    }
  }
}
