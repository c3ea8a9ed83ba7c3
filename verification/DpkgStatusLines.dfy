/** A written status file line by line: how both readers split it and what each makes of one
    stanza and of all of them (core/apt/closure.go:335-344, core/apt/held.go:91-124,
    core/doctor/deb822.go:64-135).

    A field line survives both readers when its name is plain and its value has no newline and
    does not end in a carriage return: the resolver's reader turns "\r\n" into "\n" over the
    whole text, the doctor's scanner drops one "\r" from each line.  From there on the lines of
    one package take either reader from between stanzas to between stanzas, with that package's
    four fields added; the lines of a whole closure do so package by package. */
module DpkgStatusLines {
  import opened Wrappers
  import opened DpkgStatus

  // ---- lines ----

  /** A line survives both readers' line splitting. */
  predicate CleanLine(s: string) {
    (forall i :: 0 <= i < |s| ==> s[i] != '\n') && (s != "" ==> s[|s| - 1] != '\r')
  }

  predicate CleanLines(lines: seq<string>) {
    forall i :: 0 <= i < |lines| ==> CleanLine(lines[i])
  }

  ghost predicate NoCrLf(s: string) {
    forall i :: 0 <= i && i + 1 < |s| ==> !(s[i] == '\r' && s[i + 1] == '\n')
  }

  lemma {:induction false} UnixKeeps(s: string)
    requires NoCrLf(s)
    ensures Unix(s) == s
    decreases |s|
  {
    if s == "" {
    } else {
      forall i | 0 <= i && i + 1 < |s[1..]| ensures !(s[1..][i] == '\r' && s[1..][i + 1] == '\n') {
        assert s[1..][i] == s[i + 1] && s[1..][i + 1] == s[i + 1 + 1];
      }
      UnixKeeps(s[1..]);
      assert |s| >= 2 ==> !(s[0] == '\r' && s[0 + 1] == '\n');
    }
  }

  /** The first newline of a clean line followed by a newline is that newline. */
  lemma {:induction false} FirstNewline(line: string, rest: string, s: string)
    requires CleanLine(line) && s == line + "\n" + rest
    ensures IndexOf(s, '\n', 0) == |line| < |s|
    ensures s[..|line|] == line && s[|line| + 1..] == rest
  {
    assert s[|line|] == '\n';
    forall j | 0 <= j < |line| ensures s[j] != '\n' {
      assert s[j] == line[j];
    }
  }

  lemma {:induction false} JoinedHasNoCrLf(lines: seq<string>)
    requires CleanLines(lines)
    ensures NoCrLf(Joined(lines))
  {
    if lines == [] {
    } else {
      var l, rest := lines[0], Joined(lines[1..]);
      JoinedHasNoCrLf(lines[1..]);
      var s := l + "\n" + rest;
      forall i | 0 <= i && i + 1 < |s| ensures !(s[i] == '\r' && s[i + 1] == '\n') {
        if i > |l| {
          assert s[i] == rest[i - |l| - 1] && s[i + 1] == rest[i - |l| - 1 + 1];
        } else if i < |l| {
          assert s[i] == l[i];
          assert i + 1 < |l| ==> s[i + 1] == l[i + 1];
        }
      }
    }
  }

  lemma {:induction false} SplitJoined(lines: seq<string>)
    requires CleanLines(lines)
    ensures Split(Joined(lines)) == lines + [""]
  {
    if lines == [] {
    } else {
      SplitJoined(lines[1..]);
      FirstNewline(lines[0], Joined(lines[1..]), Joined(lines));
      assert lines == [lines[0]] + lines[1..];
    }
  }

  predicate ShortLines(lines: seq<string>) {
    forall i :: 0 <= i < |lines| ==> |lines[i]| < MAX_TOKEN
  }

  /** The scanner gives the lines back exactly when each fits its buffer. */
  lemma {:induction false} ScanJoined(lines: seq<string>)
    requires CleanLines(lines)
    ensures ScanLines(Joined(lines)).tooLong <==> !ShortLines(lines)
    ensures ShortLines(lines) ==> ScanLines(Joined(lines)).lines == lines
  {
    if lines == [] {
    } else {
      ScanJoined(lines[1..]);
      FirstNewline(lines[0], Joined(lines[1..]), Joined(lines));
      assert lines == [lines[0]] + lines[1..];
      assert ShortLines(lines) <==> |lines[0]| < MAX_TOKEN && ShortLines(lines[1..]);
    }
  }

  // ---- field lines ----

  /** A field name that both readers keep as it is. */
  predicate PlainKey(key: string) {
    && key != "" && !IsSpace(key[0]) && !IsSpace(key[|key| - 1])
    && forall i :: 0 <= i < |key| ==> key[i] != ':'
  }

  lemma {:induction false} TrimRightKeepsHead(s: string)
    requires s != "" && !IsSpace(s[0])
    ensures TrimRight(s) != ""
    decreases |s|
  {
    if IsSpace(s[|s| - 1]) {
      TrimRightKeepsHead(s[..|s| - 1]);
    }
  }

  lemma {:induction false} FieldLineParts(key: string, value: string, line: string)
    requires PlainKey(key) && line == FieldLine(key, value)
    ensures Trim(line) != "" && line != "" && line[0] != ' ' && line[0] != '\t'
    ensures IndexOf(line, ':', 0) == |key| < |line|
    ensures Trim(line[..|key|]) == key && DropFirst(line[|key| + 1..], ' ') == value
  {
    assert line[0] == key[0];
    TrimRightKeepsHead(line);
    assert line[|key|] == ':';
    forall j | 0 <= j < |key| ensures line[j] != ':' {
      assert line[j] == key[j];
    }
    assert line[..|key|] == key;
    assert line[|key| + 1..] == " " + value;
  }

  lemma {:induction false} ResolverField(st: Collecting, key: string, value: string)
    requires PlainKey(key)
    ensures ResolverStep(st, FieldLine(key, value)) == Collecting(st.cur[key := value], true, st.out)
  {
    FieldLineParts(key, value, FieldLine(key, value));
  }

  lemma {:induction false} DoctorField(st: Folding, key: string, value: string)
    requires PlainKey(key)
    ensures DoctorStep(st, FieldLine(key, value)) ==
            Folding(if st.cur.None? then Some(map[]) else Committed(st), key, value, st.out)
  {
    FieldLineParts(key, value, FieldLine(key, value));
  }

  lemma {:induction false} TheKeysArePlain()
    ensures PlainKey("Package") && PlainKey("Status") && PlainKey("Architecture") && PlainKey("Version")
  {
  }

  // ---- one stanza ----

  /** The stanza of a record. */
  function StanzaOf(r: Record): (s: Stanza) {
    map[]["Package" := r.name]["Status" := r.status]["Architecture" := r.arch]["Version" := r.version]
  }

  lemma {:induction false} StanzaFields(r: Record)
    ensures var s := StanzaOf(r);
            && s.Keys == {"Package", "Status", "Architecture", "Version"}
            && s["Package"] == r.name && s["Status"] == r.status
            && s["Architecture"] == r.arch && s["Version"] == r.version
  {
    assert "Package"[0] != "Version"[0];
    assert |"Package"| == 7 && |"Status"| == 6 && |"Architecture"| == 12 && |"Version"| == 7;
  }

  lemma {:induction false} ResolverPush(st: Collecting, lines: seq<string>, line: string, more: seq<string>)
    requires more == lines + [line]
    ensures ResolverRun(st, more) == ResolverStep(ResolverRun(st, lines), line)
  {
    assert more[..|more| - 1] == lines;
  }

  lemma {:induction false} ResolverFive(st: Collecting, a: string, b: string, c: string, d: string, e: string)
    ensures ResolverRun(st, [a, b, c, d, e]) ==
            ResolverStep(ResolverStep(ResolverStep(ResolverStep(ResolverStep(st, a), b), c), d), e)
  {
    ResolverPush(st, [], a, [a]);
    ResolverPush(st, [a], b, [a, b]);
    ResolverPush(st, [a, b], c, [a, b, c]);
    ResolverPush(st, [a, b, c], d, [a, b, c, d]);
    ResolverPush(st, [a, b, c, d], e, [a, b, c, d, e]);
  }

  lemma {:induction false} DoctorPush(st: Folding, lines: seq<string>, line: string, more: seq<string>)
    requires more == lines + [line]
    ensures DoctorRun(st, more) == DoctorStep(DoctorRun(st, lines), line)
  {
    assert more[..|more| - 1] == lines;
  }

  lemma {:induction false} DoctorFive(st: Folding, a: string, b: string, c: string, d: string, e: string)
    ensures DoctorRun(st, [a, b, c, d, e]) ==
            DoctorStep(DoctorStep(DoctorStep(DoctorStep(DoctorStep(st, a), b), c), d), e)
  {
    DoctorPush(st, [], a, [a]);
    DoctorPush(st, [a], b, [a, b]);
    DoctorPush(st, [a, b], c, [a, b, c]);
    DoctorPush(st, [a, b, c], d, [a, b, c, d]);
    DoctorPush(st, [a, b, c, d], e, [a, b, c, d, e]);
  }

  lemma {:induction false} ResolverStanza(st: Collecting, r: Record)
    requires st.cur == map[] && !st.saw
    ensures ResolverRun(st, StanzaLines(r)) == Collecting(map[], false, st.out + [StanzaOf(r)])
  {
    var l := StanzaLines(r);
    ResolverFive(st, l[0], l[1], l[2], l[3], l[4]);
    TheKeysArePlain();
    ResolverField(st, "Package", r.name);
    var s1 := ResolverStep(st, l[0]);
    ResolverField(s1, "Status", r.status);
    var s2 := ResolverStep(s1, l[1]);
    ResolverField(s2, "Architecture", r.arch);
    ResolverField(ResolverStep(s2, l[2]), "Version", r.version);
  }

  lemma {:induction false} DoctorStanza(st: Folding, r: Record)
    requires st.cur == None
    ensures DoctorRun(st, StanzaLines(r)) == Folding(None, "", "", st.out + [StanzaOf(r)])
  {
    var l := StanzaLines(r);
    DoctorFive(st, l[0], l[1], l[2], l[3], l[4]);
    TheKeysArePlain();
    DoctorField(st, "Package", r.name);
    var s1 := DoctorStep(st, l[0]);
    DoctorField(s1, "Status", r.status);
    var s2 := DoctorStep(s1, l[1]);
    DoctorField(s2, "Architecture", r.arch);
    DoctorField(DoctorStep(s2, l[2]), "Version", r.version);
  }

  // ---- all stanzas ----

  function StanzasOf(rs: seq<Record>): (r: seq<Stanza>)
    ensures |r| == |rs| && forall i :: 0 <= i < |rs| ==> r[i] == StanzaOf(rs[i])
  {
    if rs == [] then [] else StanzasOf(rs[..|rs| - 1]) + [StanzaOf(rs[|rs| - 1])]
  }

  lemma {:induction false} ResolverRunAppends(st: Collecting, a: seq<string>, b: seq<string>)
    ensures ResolverRun(st, a + b) == ResolverRun(ResolverRun(st, a), b)
    decreases |b|
  {
    if b == [] {
      assert a + b == a;
    } else {
      ResolverRunAppends(st, a, b[..|b| - 1]);
      assert (a + b)[..|a + b| - 1] == a + b[..|b| - 1];
    }
  }

  lemma {:induction false} DoctorRunAppends(st: Folding, a: seq<string>, b: seq<string>)
    ensures DoctorRun(st, a + b) == DoctorRun(DoctorRun(st, a), b)
    decreases |b|
  {
    if b == [] {
      assert a + b == a;
    } else {
      DoctorRunAppends(st, a, b[..|b| - 1]);
      assert (a + b)[..|a + b| - 1] == a + b[..|b| - 1];
    }
  }

  lemma {:induction false} ResolverRunsAll(rs: seq<Record>)
    ensures ResolverRun(EMPTY, AllLines(rs)) == Collecting(map[], false, StanzasOf(rs))
    decreases |rs|
  {
    if rs == [] {
    } else {
      var before, r := rs[..|rs| - 1], rs[|rs| - 1];
      ResolverRunsAll(before);
      ResolverRunAppends(EMPTY, AllLines(before), StanzaLines(r));
      ResolverStanza(ResolverRun(EMPTY, AllLines(before)), r);
    }
  }

  lemma {:induction false} DoctorRunsAll(rs: seq<Record>)
    ensures DoctorRun(START, AllLines(rs)) == Folding(None, "", "", StanzasOf(rs))
    decreases |rs|
  {
    if rs == [] {
    } else {
      var before, r := rs[..|rs| - 1], rs[|rs| - 1];
      DoctorRunsAll(before);
      DoctorRunAppends(START, AllLines(before), StanzaLines(r));
      DoctorStanza(DoctorRun(START, AllLines(before)), r);
    }
  }

  /** A record whose stanza can be read back. */
  predicate CleanRecord(r: Record) {
    CleanLine(r.name) && CleanLine(r.status) && CleanLine(r.arch) && CleanLine(r.version)
  }

  lemma {:induction false} FieldLineIsClean(key: string, value: string)
    requires CleanLine(key) && CleanLine(value)
    ensures CleanLine(FieldLine(key, value))
  {
    var line := FieldLine(key, value);
    assert line == key + (": " + value);
    forall i | 0 <= i < |line| ensures line[i] != '\n' {
      assert i < |key| ==> line[i] == key[i];
      assert i >= |key| + 2 ==> line[i] == value[i - |key| - 2];
    }
    assert value != "" ==> line[|line| - 1] == value[|value| - 1];
  }

  lemma {:induction false} StanzaIsClean(r: Record)
    requires CleanRecord(r)
    ensures CleanLines(StanzaLines(r))
  {
    FieldLineIsClean("Package", r.name);
    FieldLineIsClean("Status", r.status);
    FieldLineIsClean("Architecture", r.arch);
    FieldLineIsClean("Version", r.version);
  }

  lemma {:induction false} AllLinesAreClean(rs: seq<Record>)
    requires forall r :: r in rs ==> CleanRecord(r)
    ensures CleanLines(AllLines(rs))
    decreases |rs|
  {
    if rs == [] {
    } else {
      AllLinesAreClean(rs[..|rs| - 1]);
      StanzaIsClean(rs[|rs| - 1]);
    }
  }
}
