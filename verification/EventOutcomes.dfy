/** Every outcome that cutting a stream into writes can have (core/apt/containerevents.go:79-184). */
module EventOutcomes {
  import opened EventStream
  import Seqs

  // The stream is taken line by line.  A cutting can change one thing only: an event line over
  // the limit is delivered or passed through with the diagnostics.  Both happen, for each such
  // line by itself.

  // ---- a stream as lines ----

  /** What stands after the last newline. */
  function Rest(s: string): string {
    if s == [] || s[|s| - 1] == '\n' then [] else Rest(s[..|s| - 1]) + [s[|s| - 1]]
  }

  /** What stands before each newline. */
  function Lines(s: string): seq<string> {
    if s == [] then []
    else if s[|s| - 1] == '\n' then Lines(s[..|s| - 1]) + [Rest(s[..|s| - 1])]
    else Lines(s[..|s| - 1])
  }

  function Text(bodies: seq<string>): string {
    if bodies == [] then [] else Text(bodies[..|bodies| - 1]) + (bodies[|bodies| - 1] + ['\n'])
  }

  predicate OneLine(x: string) {
    forall k :: 0 <= k < |x| ==> x[k] != '\n'
  }

  lemma {:induction false} TextOneMore(bodies: seq<string>, body: string)
    ensures Text(bodies + [body]) == Text(bodies) + (body + ['\n'])
  {
    assert (bodies + [body])[..|bodies|] == bodies;
  }

  lemma {:induction false} LinesMakeTheStream(s: string)
    ensures Text(Lines(s)) + Rest(s) == s
    decreases |s|
  {
    if s == [] {
    } else {
      var t, c := s[..|s| - 1], s[|s| - 1];
      LinesMakeTheStream(t);
      Seqs.Assoc(Text(Lines(t)), Rest(t), [c]);
      TextOneMore(Lines(t), Rest(t));
      assert s == t + [c];
    }
  }

  lemma {:induction false} LinesAreLines(s: string)
    ensures OneLine(Rest(s)) && forall i :: 0 <= i < |Lines(s)| ==> OneLine(Lines(s)[i])
    decreases |s|
  {
    if s == [] {
    } else {
      LinesAreLines(s[..|s| - 1]);
    }
  }

  lemma {:induction false} PartOfLine(s: string, x: string)
    requires OneLine(x)
    ensures Rest(s + x) == Rest(s) + x && Lines(s + x) == Lines(s)
    decreases |x|
  {
    if x == [] {
      assert s + x == s;
    } else {
      var y, c := x[..|x| - 1], x[|x| - 1];
      PartOfLine(s, y);
      assert s + x == s + y + [c] && (s + y + [c])[..|s + y|] == s + y;
    }
  }

  lemma {:induction false} EndOfLine(s: string, x: string)
    requires OneLine(x)
    ensures Rest(s + x + ['\n']) == [] && Lines(s + x + ['\n']) == Lines(s) + [Rest(s) + x]
  {
    PartOfLine(s, x);
    assert (s + x + ['\n'])[..|s + x|] == s + x;
  }

  // ---- which lines are passed through ----

  predicate IsEvent<E>(dec: Decoder<E>, body: string) {
    !dec(body + ['\n']).NotEvent?
  }

  /** `pass` says of each line whether it goes to the diagnostics: each that is no event does,
      and an event only where it is over the limit. */
  predicate Allowed<E>(dec: Decoder<E>, bodies: seq<string>, pass: seq<bool>) {
    && |pass| == |bodies|
    && forall i :: 0 <= i < |bodies| ==>
         && (!IsEvent(dec, bodies[i]) ==> pass[i])
         && (pass[i] ==> !IsEvent(dec, bodies[i]) || |bodies[i]| > LINE_MAX)
  }

  function Passed(bodies: seq<string>, pass: seq<bool>): string
    requires |pass| == |bodies|
  {
    if bodies == [] then []
    else
      var n := |bodies| - 1;
      Passed(bodies[..n], pass[..n]) + if pass[n] then bodies[n] + ['\n'] else []
  }

  function Delivered<E>(dec: Decoder<E>, bodies: seq<string>, pass: seq<bool>): seq<Verdict<E>>
    requires |pass| == |bodies|
  {
    if bodies == [] then []
    else
      var n := |bodies| - 1;
      Delivered(dec, bodies[..n], pass[..n]) + if pass[n] then [] else [dec(bodies[n] + ['\n'])]
  }

  lemma {:induction false} OneMore<E>(dec: Decoder<E>, bodies: seq<string>, pass: seq<bool>, body: string, p: bool)
    requires |pass| == |bodies|
    ensures Passed(bodies + [body], pass + [p]) == Passed(bodies, pass) + if p then body + ['\n'] else []
    ensures Delivered(dec, bodies + [body], pass + [p]) ==
            Delivered(dec, bodies, pass) + if p then [] else [dec(body + ['\n'])]
    ensures Allowed(dec, bodies + [body], pass + [p]) <==>
      && Allowed(dec, bodies, pass)
      && (!IsEvent(dec, body) ==> p) && (p ==> !IsEvent(dec, body) || |body| > LINE_MAX)
  {
    assert (bodies + [body])[..|bodies|] == bodies && (pass + [p])[..|bodies|] == pass;
    if Allowed(dec, bodies + [body], pass + [p]) {
      forall i | 0 <= i < |bodies|
        ensures !IsEvent(dec, bodies[i]) ==> pass[i]
        ensures pass[i] ==> !IsEvent(dec, bodies[i]) || |bodies[i]| > LINE_MAX
      {
        assert (bodies + [body])[i] == bodies[i] && (pass + [p])[i] == pass[i];
      }
      assert (bodies + [body])[|bodies|] == body && (pass + [p])[|bodies|] == p;
    }
  }

  // ---- every cutting has such an outcome ----

  /** `st` is where the splitter may be after `s`, with the lines of `pass` passed through. */
  ghost predicate At<E>(dec: Decoder<E>, s: string, st: State<E>, pass: seq<bool>) {
    && Allowed(dec, Lines(s), pass)
    && st.events == Delivered(dec, Lines(s), pass)
    && var diag := Passed(Lines(s), pass);
       if st.overlong then st.pending == [] && |Rest(s)| > LINE_MAX && st.diag == diag + Rest(s)
       else st.pending == Rest(s) && st.diag == diag
  }

  lemma {:induction false} LineKeeps<E>(dec: Decoder<E>, s: string, st: State<E>, pass: seq<bool>, x: string,
                                        p: bool)
    requires At(dec, s, st, pass) && OneLine(x) && p == (st.overlong || !IsEvent(dec, Rest(s) + x))
    ensures At(dec, s + x + ['\n'], AfterLine(dec, st, x + ['\n']), pass + [p])
  {
    EndOfLine(s, x);
    OneMore(dec, Lines(s), pass, Rest(s) + x, p);
    Seqs.Assoc(Rest(s), x, ['\n']);
    Seqs.Assoc(Passed(Lines(s), pass), Rest(s), x + ['\n']);
  }

  lemma {:induction false} PartKeeps<E>(dec: Decoder<E>, s: string, st: State<E>, pass: seq<bool>, x: string)
    requires At(dec, s, st, pass) && OneLine(x)
    ensures At(dec, s + x, Buffer(st, x), pass)
  {
    PartOfLine(s, x);
    if x == [] {
      assert s + x == s;
    }
    Seqs.Assoc(Passed(Lines(s), pass), Rest(s), x);
  }

  lemma {:induction false} WriteKeeps<E>(dec: Decoder<E>, s: string, st: State<E>, pass: seq<bool>, p: string)
      returns (pass': seq<bool>)
    requires At(dec, s, st, pass)
    ensures At(dec, s + p, AfterWrite(dec, st, p), pass')
    decreases |p|
  {
    var i := NewlineIn(p);
    if i == |p| {
      PartKeeps(dec, s, st, pass, p);
      pass' := pass;
    } else {
      var x, rest := p[..i], p[i + 1..];
      assert p[..i + 1] == x + ['\n'];
      assert s + p == s + x + ['\n'] + rest;
      var q := st.overlong || !IsEvent(dec, Rest(s) + x);
      LineKeeps(dec, s, st, pass, x, q);
      pass' := WriteKeeps(dec, s + x + ['\n'], AfterLine(dec, st, x + ['\n']), pass + [q], rest);
    }
  }

  lemma {:induction false} WritesKeep<E>(dec: Decoder<E>, chunks: seq<string>) returns (pass: seq<bool>)
    ensures At(dec, Concat(chunks), Writes(dec, chunks), pass)
    decreases |chunks|
  {
    if chunks == [] {
      pass := [];
    } else {
      var n := |chunks| - 1;
      var before := WritesKeep(dec, chunks[..n]);
      pass := WriteKeeps(dec, Concat(chunks[..n]), Writes(dec, chunks[..n]), before, chunks[n]);
    }
  }

  // ---- and each such outcome is that of a cutting ----

  lemma {:induction false} Then<E>(dec: Decoder<E>, chunks: seq<string>, chunk: string)
    ensures Concat(chunks + [chunk]) == Concat(chunks) + chunk
    ensures Writes(dec, chunks + [chunk]) == AfterWrite(dec, Writes(dec, chunks), chunk)
  {
    assert (chunks + [chunk])[..|chunks|] == chunks;
  }

  lemma {:induction false} NewlineAtEnd(x: string)
    requires OneLine(x)
    ensures NewlineIn(x) == |x| && NewlineIn(x + ['\n']) == |x|
  {
    assert (x + ['\n'])[|x|] == '\n';
    forall k | 0 <= k < |x| ensures (x + ['\n'])[k] != '\n' {
      assert (x + ['\n'])[k] == x[k];
    }
  }

  /** A line written whole from a line start is judged. */
  lemma {:induction false} WholeLine<E>(dec: Decoder<E>, st: State<E>, body: string)
    requires OneLine(body) && st.pending == [] && !st.overlong
    ensures AfterWrite(dec, st, body + ['\n']) ==
            if IsEvent(dec, body) then st.(events := st.events + [dec(body + ['\n'])])
            else st.(diag := st.diag + (body + ['\n']))
  {
    NewlineAtEnd(body);
    var line := body + ['\n'];
    assert line[..|body| + 1] == line && line[|body| + 1..] == [];
    assert [] + line == line;
    assert st.(pending := []) == st;
  }

  lemma {:induction false} LongPart<E>(dec: Decoder<E>, st: State<E>, head: string)
    requires OneLine(head) && st.pending == [] && !st.overlong && |head| > LINE_MAX
    ensures AfterWrite(dec, st, head) == State(st.diag + head, [], true, st.events)
  {
    NewlineAtEnd(head);
    assert [] + head == head;
  }

  lemma {:induction false} LongEnd<E>(dec: Decoder<E>, st: State<E>, rest: string)
    requires OneLine(rest) && st.overlong
    ensures AfterWrite(dec, st, rest + ['\n']) == State(st.diag + (rest + ['\n']), [], false, st.events)
  {
    NewlineAtEnd(rest);
    var line := rest + ['\n'];
    assert line[..|rest| + 1] == line && line[|rest| + 1..] == [];
  }

  /** A long line cut past the limit is passed through, event or not. */
  lemma {:induction false} CutLine<E>(dec: Decoder<E>, st: State<E>, body: string, head: string, rest: string)
    requires OneLine(body) && st.pending == [] && !st.overlong
    requires |head| > LINE_MAX && body == head + rest
    ensures AfterWrite(dec, AfterWrite(dec, st, head), rest + ['\n']) == st.(diag := st.diag + (body + ['\n']))
  {
    assert forall k :: 0 <= k < |head| ==> head[k] == body[k];
    assert forall k :: 0 <= k < |rest| ==> rest[k] == body[|head| + k];
    LongPart(dec, st, head);
    LongEnd(dec, State(st.diag + head, [], true, st.events), rest);
    Seqs.Assoc(head, rest, ['\n']);
    Seqs.Assoc(st.diag, head, rest + ['\n']);
  }

  lemma {:induction false} Realised<E>(dec: Decoder<E>, bodies: seq<string>, pass: seq<bool>)
      returns (chunks: seq<string>)
    requires Allowed(dec, bodies, pass) && forall i :: 0 <= i < |bodies| ==> OneLine(bodies[i])
    ensures Concat(chunks) == Text(bodies)
    ensures Writes(dec, chunks) == State(Passed(bodies, pass), [], false, Delivered(dec, bodies, pass))
    decreases |bodies|
  {
    if bodies == [] {
      chunks := [];
    } else {
      var n := |bodies| - 1;
      var body := bodies[n];
      var before := Realised(dec, bodies[..n], pass[..n]);
      if pass[n] && IsEvent(dec, body) {
        var head, rest := body[..LINE_MAX + 1], body[LINE_MAX + 1..];
        Then(dec, before, head);
        Then(dec, before + [head], rest + ['\n']);
        CutLine(dec, Writes(dec, before), body, head, rest);
        Seqs.Assoc(head, rest, ['\n']);
        Seqs.Assoc(Text(bodies[..n]), head, rest + ['\n']);
        chunks := before + [head] + [rest + ['\n']];
      } else {
        Then(dec, before, body + ['\n']);
        WholeLine(dec, Writes(dec, before), body);
        chunks := before + [body + ['\n']];
      }
    }
  }

  /** What a stream leaves behind when the lines of `pass` are passed through. */
  function Left<E>(dec: Decoder<E>, s: string, pass: seq<bool>): State<E>
    requires |pass| == |Lines(s)|
  {
    State(Passed(Lines(s), pass) + Rest(s), [], false, Delivered(dec, Lines(s), pass))
  }

  lemma {:induction false} CloseLeaves<E>(dec: Decoder<E>, s: string, st: State<E>, pass: seq<bool>)
    requires At(dec, s, st, pass)
    ensures AfterClose(st) == Left(dec, s, pass)
  {
  }

  lemma {:induction false} LastPart<E>(dec: Decoder<E>, st: State<E>, rest: string)
    requires OneLine(rest) && st.pending == [] && !st.overlong
    ensures AfterClose(AfterWrite(dec, st, rest)) == State(st.diag + rest, [], false, st.events)
  {
    NewlineAtEnd(rest);
    assert [] + rest == rest && st.diag + rest + [] == st.diag + rest;
  }

  lemma {:induction false} SomeCutting<E>(dec: Decoder<E>, s: string, pass: seq<bool>) returns (chunks: seq<string>)
    requires Allowed(dec, Lines(s), pass)
    ensures Concat(chunks) == s && Run(dec, chunks) == Left(dec, s, pass)
  {
    LinesMakeTheStream(s);
    LinesAreLines(s);
    var lines := Realised(dec, Lines(s), pass);
    Then(dec, lines, Rest(s));
    LastPart(dec, Writes(dec, lines), Rest(s));
    chunks := lines + [Rest(s)];
  }

  /** The outcomes of a stream, over all ways of cutting it into writes: exactly those where
      every line that is no event, the last partial line, and any choice of the events over the
      limit go to the diagnostics in order, and all other events are delivered in order. */
  lemma {:induction false} OutcomesExactly<E(!new)>(dec: Decoder<E>, s: string, st: State<E>)
    ensures (exists chunks :: Concat(chunks) == s && Run(dec, chunks) == st) <==>
            (exists pass :: Allowed(dec, Lines(s), pass) && Left(dec, s, pass) == st)
  {
    if chunks :| Concat(chunks) == s && Run(dec, chunks) == st {
      var pass := WritesKeep(dec, chunks);
      CloseLeaves(dec, s, Writes(dec, chunks), pass);
      assert Allowed(dec, Lines(s), pass) && Left(dec, s, pass) == st;
    }
    if pass :| Allowed(dec, Lines(s), pass) && Left(dec, s, pass) == st {
      var chunks := SomeCutting(dec, s, pass);
      assert Concat(chunks) == s && Run(dec, chunks) == st;
    }
  }

  lemma {:induction false} AllPassed(bodies: seq<string>, pass: seq<bool>)
    requires |pass| == |bodies| && forall i :: 0 <= i < |pass| ==> pass[i]
    ensures Passed(bodies, pass) == Text(bodies)
    decreases |bodies|
  {
    if bodies == [] {
    } else {
      AllPassed(bodies[..|bodies| - 1], pass[..|bodies| - 1]);
    }
  }

  /** A stream without an event line comes out as it went in, however it is cut. */
  lemma {:induction false} NothingIsLost<E(!new)>(dec: Decoder<E>, chunks: seq<string>)
    requires forall i :: 0 <= i < |Lines(Concat(chunks))| ==> !IsEvent(dec, Lines(Concat(chunks))[i])
    ensures Run(dec, chunks).diag == Concat(chunks)
  {
    var s := Concat(chunks);
    var pass := WritesKeep(dec, chunks);
    CloseLeaves(dec, s, Writes(dec, chunks), pass);
    AllPassed(Lines(s), pass);
    LinesMakeTheStream(s);
  }
}
