/** The dpkg status file a closure is written to, and the two readers that take it back
    (core/apt/closure.go:100-110, 335-344, core/apt/held.go:56-124,
    core/apt/container.go:1234-1259, core/doctor/deb822.go:64-135,
    core/doctor/checks.go:278-303).

    Text is a sequence of one-byte characters.  White space is ASCII white space. */
module DpkgStatus {
  import opened Wrappers
  import Seqs
  import Sorting

  datatype Package = Package(name: string, arch: string, version: string)

  type Stanza = map<string, string>

  // ---- the string library ----

  predicate IsSpace(c: char) {
    c == ' ' || 9 <= c as int <= 13
  }

  function TrimLeft(s: string): string {
    if s != "" && IsSpace(s[0]) then TrimLeft(s[1..]) else s
  }

  function TrimRight(s: string): string {
    if s != "" && IsSpace(s[|s| - 1]) then TrimRight(s[..|s| - 1]) else s
  }

  /** strings.TrimSpace. */
  function Trim(s: string): string {
    TrimRight(TrimLeft(s))
  }

  /** The first index of `c` in `s` from `i` on, or the length of `s`. */
  function IndexOf(s: string, c: char, i: nat): (k: nat)
    requires i <= |s|
    ensures i <= k <= |s|
    ensures k < |s| ==> s[k] == c
    ensures forall j :: i <= j < k ==> s[j] != c
    decreases |s| - i
  {
    if i == |s| || s[i] == c then i else IndexOf(s, c, i + 1)
  }

  /** strings.TrimPrefix with a one-byte prefix. */
  function DropFirst(s: string, c: char): string {
    if s != "" && s[0] == c then s[1..] else s
  }

  /** The index after the field that `i` is in. */
  function FieldEnd(s: string, i: nat): (k: nat)
    requires i <= |s|
    ensures i <= k <= |s|
    ensures i < |s| && !IsSpace(s[i]) ==> i < k
    decreases |s| - i
  {
    if i == |s| || IsSpace(s[i]) then i else FieldEnd(s, i + 1)
  }

  /** strings.Fields of `s` from `i` on. */
  function Fields(s: string, i: nat): seq<string>
    requires i <= |s|
    decreases |s| - i
  {
    if i == |s| then []
    else if IsSpace(s[i]) then Fields(s, i + 1)
    else [s[i..FieldEnd(s, i)]] + Fields(s, FieldEnd(s, i))
  }

  /** strings.Split at newlines. */
  function Split(s: string): seq<string>
    decreases |s|
  {
    var k := IndexOf(s, '\n', 0);
    if k == |s| then [s] else [s[..k]] + Split(s[k + 1..])
  }

  /** strings.ReplaceAll of "\r\n" by "\n". */
  function Unix(s: string): string
    decreases |s|
  {
    if s == "" then ""
    else if |s| >= 2 && s[0] == '\r' && s[1] == '\n' then "\n" + Unix(s[2..])
    else [s[0]] + Unix(s[1..])
  }

  /** What a bufio.Scanner hands out: lines, and whether it gave up on one too long. */
  datatype Scan = Scan(lines: seq<string>, tooLong: bool)

  const MAX_TOKEN: nat := 4 * 1024 * 1024

  function DropCR(line: string): string {
    if line != "" && line[|line| - 1] == '\r' then line[..|line| - 1] else line
  }

  function ScanLines(s: string): Scan
    decreases |s|
  {
    if s == "" then Scan([], false)
    else
      var k := IndexOf(s, '\n', 0);
      if k >= MAX_TOKEN then Scan([], true)
      else
        var rest := ScanLines(if k == |s| then "" else s[k + 1..]);
        Scan([DropCR(s[..k])] + rest.lines, rest.tooLong)
  }

  // ---- the writer ----

  predicate PackageLe(a: Package, b: Package) {
    if a.name != b.name then Sorting.StringLe(a.name, b.name)
    else if a.arch != b.arch then Sorting.StringLe(a.arch, b.arch)
    else Sorting.StringLe(a.version, b.version)
  }

  const INSTALLED := "install ok installed"

  function FieldLine(key: string, value: string): string {
    key + ": " + value
  }

  /** What a stanza of four fields says. */
  datatype Record = Record(name: string, status: string, arch: string, version: string)

  function RecordOf(p: Package): Record {
    Record(p.name, INSTALLED, p.arch, p.version)
  }

  function Records(ps: seq<Package>): seq<Record> {
    Seqs.Mapped(RecordOf, ps)
  }

  /** The five lines of a stanza, the blank one included. */
  function StanzaLines(r: Record): seq<string> {
    [FieldLine("Package", r.name), FieldLine("Status", r.status),
     FieldLine("Architecture", r.arch), FieldLine("Version", r.version), ""]
  }

  /** Lines, each ended by a newline. */
  function Joined(lines: seq<string>): string {
    if lines == [] then "" else lines[0] + "\n" + Joined(lines[1..])
  }

  function AllLines(rs: seq<Record>): seq<string> {
    if rs == [] then [] else AllLines(rs[..|rs| - 1]) + StanzaLines(rs[|rs| - 1])
  }

  function StatusText(packages: seq<Package>): string {
    Joined(AllLines(Records(Sorting.Sort(PackageLe, packages))))
  }

  lemma {:induction false} JoinedAppends(a: seq<string>, b: seq<string>)
    ensures Joined(a + b) == Joined(a) + Joined(b)
  {
    if a == [] {
      assert a + b == b;
    } else {
      JoinedAppends(a[1..], b);
      assert (a + b)[1..] == a[1..] + b;
      assert (a + b)[0] == a[0];
      Seqs.Assoc(a[0] + "\n", Joined(a[1..]), Joined(b));
    }
  }

  lemma {:induction false} JoinedFive(a: string, b: string, c: string, d: string, e: string)
    ensures Joined([a, b, c, d, e]) == a + "\n" + (b + "\n" + (c + "\n" + (d + "\n" + (e + "\n"))))
  {
    assert [a, b, c, d, e][1..] == [b, c, d, e];
    assert [b, c, d, e][1..] == [c, d, e];
    assert [c, d, e][1..] == [d, e];
    assert [d, e][1..] == [e];
    assert Joined([e]) == e + "\n";
    assert Joined([d, e]) == d + "\n" + (e + "\n");
    assert Joined([c, d, e]) == c + "\n" + (d + "\n" + (e + "\n"));
    assert Joined([b, c, d, e]) == b + "\n" + (c + "\n" + (d + "\n" + (e + "\n")));
  }

  /** The text of one stanza. */
  function StanzaText(p: Package): (text: string)
    ensures text == Joined(StanzaLines(RecordOf(p)))
  {
    JoinedFive(FieldLine("Package", p.name), FieldLine("Status", INSTALLED),
               FieldLine("Architecture", p.arch), FieldLine("Version", p.version), "");
    FieldLine("Package", p.name) + "\n" + (FieldLine("Status", INSTALLED) + "\n" +
    (FieldLine("Architecture", p.arch) + "\n" + (FieldLine("Version", p.version) + "\n" + ("" + "\n"))))
  }

  /** DpkgStatusFor. */
  method DpkgStatusFor(packages: seq<Package>) returns (buf: string)
    ensures buf == StatusText(packages)
  {
    var sorted := Sorting.Sort(PackageLe, packages);
    buf := "";
    for i := 0 to |sorted|
      invariant buf == Joined(AllLines(Records(sorted[..i])))
    {
      assert sorted[..i + 1][..i] == sorted[..i];
      JoinedAppends(AllLines(Records(sorted[..i])), StanzaLines(RecordOf(sorted[i])));
      buf := buf + StanzaText(sorted[i]);
    }
    assert sorted[..|sorted|] == sorted;
  }

  // ---- the resolver's reader ----

  datatype Collecting = Collecting(cur: Stanza, saw: bool, out: seq<Stanza>)

  const EMPTY: Collecting := Collecting(map[], false, [])

  function ResolverFlush(st: Collecting): Collecting {
    Collecting(map[], false, if st.saw then st.out + [st.cur] else st.out)
  }

  function ResolverStep(st: Collecting, line: string): Collecting {
    if Trim(line) == "" then ResolverFlush(st)
    else if line != "" && (line[0] == ' ' || line[0] == '\t') then st
    else
      var k := IndexOf(line, ':', 0);
      if k == |line| || Trim(line[..k]) == "" then st
      else st.(cur := st.cur[Trim(line[..k]) := DropFirst(line[k + 1..], ' ')], saw := true)
  }

  function ResolverRun(st: Collecting, lines: seq<string>): Collecting {
    if lines == [] then st else ResolverStep(ResolverRun(st, lines[..|lines| - 1]), lines[|lines| - 1])
  }

  lemma {:induction false} ResolverRunNext(st: Collecting, lines: seq<string>, i: nat)
    requires i < |lines|
    ensures ResolverRun(st, lines[..i + 1]) == ResolverStep(ResolverRun(st, lines[..i]), lines[i])
  {
    assert lines[..i + 1][..i] == lines[..i];
  }

  function ResolverStanzas(text: string): seq<Stanza> {
    ResolverFlush(ResolverRun(EMPTY, Split(Unix(text)))).out
  }

  /** splitDpkgStatusStanzas. */
  method SplitDpkgStatusStanzas(data: string) returns (stanzas: seq<Stanza>)
    ensures stanzas == ResolverStanzas(data)
  {
    stanzas := [];
    var cur: Stanza := map[];
    var sawField := false;
    var lines := Split(Unix(data));
    for i := 0 to |lines|
      invariant Collecting(cur, sawField, stanzas) == ResolverRun(EMPTY, lines[..i])
    {
      var line := lines[i];
      ResolverRunNext(EMPTY, lines, i);
      if Trim(line) == "" {
        if sawField {
          stanzas := stanzas + [cur];
        }
        cur, sawField := map[], false;
        continue;
      }
      if line != "" && (line[0] == ' ' || line[0] == '\t') {
        continue;
      }
      var k := IndexOf(line, ':', 0);
      if k == |line| {
        continue;
      }
      var key := Trim(line[..k]);
      if key == "" {
        continue;
      }
      cur := cur[key := DropFirst(line[k + 1..], ' ')];
      sawField := true;
    }
    assert lines[..|lines|] == lines;
    if sawField {
      stanzas := stanzas + [cur];
    }
  }

  function Get(s: Stanza, key: string): string {
    if key in s then s[key] else ""
  }

  function StatusFields(s: Stanza): seq<string> {
    Fields(Get(s, "Status"), 0)
  }

  predicate IsHeld(s: Stanza) {
    && Get(s, "Package") != ""
    && |StatusFields(s)| == 3 && StatusFields(s)[0] == "hold" && StatusFields(s)[2] == "installed"
  }

  predicate IsInstalled(s: Stanza) {
    && Get(s, "Package") != "" && Get(s, "Architecture") != ""
    && |StatusFields(s)| == 3 && StatusFields(s)[2] == "installed"
  }

  function QualifiedName(s: Stanza): string {
    Get(s, "Package") + ":" + Get(s, "Architecture")
  }

  /** The holds the stanzas give, the last stanza of a name winning. */
  function Holds(stanzas: seq<Stanza>): map<string, string> {
    if stanzas == [] then map[]
    else
      var before, s := Holds(stanzas[..|stanzas| - 1]), stanzas[|stanzas| - 1];
      if IsHeld(s) then before[Get(s, "Package") := Trim(Get(s, "Version"))] else before
  }

  /** heldPackageVersions, on a captured status file. */
  method HeldPackageVersions(data: string) returns (held: map<string, string>)
    ensures held == Holds(ResolverStanzas(data))
  {
    var stanzas := SplitDpkgStatusStanzas(data);
    held := map[];
    for i := 0 to |stanzas|
      invariant held == Holds(stanzas[..i])
    {
      var s := stanzas[i];
      assert stanzas[..i + 1][..i] == stanzas[..i];
      var name := Get(s, "Package");
      if name == "" {
        continue;
      }
      var fields := Fields(Get(s, "Status"), 0);
      if |fields| == 3 && fields[0] == "hold" && fields[2] == "installed" {
        held := held[name := Trim(Get(s, "Version"))];
      }
    }
    assert stanzas[..|stanzas|] == stanzas;
  }

  /** The versions the stanzas give, the last stanza of a name:arch winning. */
  function Versions(stanzas: seq<Stanza>): map<string, string> {
    if stanzas == [] then map[]
    else
      var before, s := Versions(stanzas[..|stanzas| - 1]), stanzas[|stanzas| - 1];
      if IsInstalled(s) then before[QualifiedName(s) := Trim(Get(s, "Version"))] else before
  }

  /** containerInstalledVersions, on a captured status file. */
  method ContainerInstalledVersions(data: string) returns (installed: map<string, string>)
    ensures installed == Versions(ResolverStanzas(data))
  {
    var stanzas := SplitDpkgStatusStanzas(data);
    installed := map[];
    for i := 0 to |stanzas|
      invariant installed == Versions(stanzas[..i])
    {
      var s := stanzas[i];
      assert stanzas[..i + 1][..i] == stanzas[..i];
      var name, arch := Get(s, "Package"), Get(s, "Architecture");
      if name == "" || arch == "" {
        continue;
      }
      var fields := Fields(Get(s, "Status"), 0);
      if |fields| == 3 && fields[2] == "installed" {
        installed := installed[name + ":" + arch := Trim(Get(s, "Version"))];
      }
    }
    assert stanzas[..|stanzas|] == stanzas;
  }

  // ---- the doctor's reader ----

  const MAX_STANZAS: nat := 100_000

  datatype Folding = Folding(cur: Option<Stanza>, lastKey: string, folded: string, out: seq<Stanza>)

  const START: Folding := Folding(None, "", "", [])

  /** The stanza in hand with the field being folded stored. */
  function Committed(st: Folding): Option<Stanza> {
    if st.cur.Some? && st.lastKey != "" then Some(st.cur.value[st.lastKey := st.folded]) else st.cur
  }

  function DoctorFlush(st: Folding): Folding {
    Folding(None, "", "", if st.cur.Some? then st.out + [Committed(st).value] else st.out)
  }

  /** The text a continuation line adds. */
  function Continuation(line: string): string {
    var cont := DropFirst(DropFirst(line, ' '), '\t');
    "\n" + if cont == "." then "" else cont
  }

  predicate Continues(line: string, lastKey: string, open: bool) {
    line != "" && (line[0] == ' ' || line[0] == '\t') && open && lastKey != ""
  }

  function DoctorStep(st: Folding, line: string): Folding {
    if Trim(line) == "" then DoctorFlush(st)
    else if Continues(line, st.lastKey, st.cur.Some?) then st.(folded := st.folded + Continuation(line))
    else
      var k := IndexOf(line, ':', 0);
      if k == |line| then st
      else
        Folding(if st.cur.None? then Some(map[]) else Committed(st),
                Trim(line[..k]), DropFirst(line[k + 1..], ' '), st.out)
  }

  function DoctorRun(st: Folding, lines: seq<string>): Folding {
    if lines == [] then st else DoctorStep(DoctorRun(st, lines[..|lines| - 1]), lines[|lines| - 1])
  }

  lemma {:induction false} DoctorRunNext(st: Folding, lines: seq<string>, i: nat)
    requires i < |lines|
    ensures DoctorRun(st, lines[..i + 1]) == DoctorStep(DoctorRun(st, lines[..i]), lines[i])
  {
    assert lines[..i + 1][..i] == lines[..i];
  }

  /** Some line is still to come when the stanza limit has been reached. */
  predicate Overruns(lines: seq<string>) {
    exists i :: 0 <= i < |lines| && |DoctorRun(START, lines[..i]).out| >= MAX_STANZAS
  }

  /** The stanzas of a document, or None where it is refused. */
  function DoctorStanzas(text: string): Option<seq<Stanza>> {
    var scan := ScanLines(text);
    if scan.tooLong || Overruns(scan.lines) then None else Some(DoctorFlush(DoctorRun(START, scan.lines)).out)
  }

  /** The commit closure: the stanza in hand once the folded field is stored. */
  method Commit(cur: Option<Stanza>, lastKey: string, folded: string) returns (stored: Option<Stanza>)
    ensures forall out :: stored == Committed(Folding(cur, lastKey, folded, out))
  {
    stored := cur;
    if cur.Some? && lastKey != "" {
      stored := Some(cur.value[lastKey := folded]);
    }
  }

  /** The flush closure: the stanza in hand, if any, is finished. */
  method Flush(cur: Option<Stanza>, lastKey: string, folded: string, stanzas: seq<Stanza>)
    returns (stanzas': seq<Stanza>)
    ensures DoctorFlush(Folding(cur, lastKey, folded, stanzas)) == Folding(None, "", "", stanzas')
  {
    stanzas' := stanzas;
    var stored := Commit(cur, lastKey, folded);
    if stored.Some? {
      stanzas' := stanzas + [stored.value];
    }
  }

  /** The turn of parseDeb822's loop for line number `i`. */
  method ReadLine(cur: Option<Stanza>, lastKey: string, folded: string, stanzas: seq<Stanza>,
                  lines: seq<string>, i: nat)
    returns (cur': Option<Stanza>, lastKey': string, folded': string, stanzas': seq<Stanza>)
    requires i < |lines| && Folding(cur, lastKey, folded, stanzas) == DoctorRun(START, lines[..i])
    ensures Folding(cur', lastKey', folded', stanzas') == DoctorRun(START, lines[..i + 1])
  {
    DoctorRunNext(START, lines, i);
    var line := lines[i];
    cur', lastKey', folded', stanzas' := cur, lastKey, folded, stanzas;
    if Trim(line) == "" {
      stanzas' := Flush(cur, lastKey, folded, stanzas);
      cur', lastKey', folded' := None, "", "";
      return;
    }
    if Continues(line, lastKey, cur.Some?) {
      folded' := folded + Continuation(line);
      return;
    }
    var k := IndexOf(line, ':', 0);
    if k == |line| {
      return;
    }
    cur' := Commit(cur, lastKey, folded);
    if cur'.None? {
      cur' := Some(map[]);
    }
    lastKey', folded' := Trim(line[..k]), DropFirst(line[k + 1..], ' ');
  }

  /** parseDeb822. */
  method ParseDeb822(text: string) returns (r: Option<seq<Stanza>>)
    ensures r == DoctorStanzas(text)
  {
    var stanzas: seq<Stanza> := [];
    var cur: Option<Stanza> := None;
    var lastKey, folded := "", "";
    var scan := ScanLines(text);
    var lines := scan.lines;
    for i := 0 to |lines|
      invariant Folding(cur, lastKey, folded, stanzas) == DoctorRun(START, lines[..i])
      invariant forall j :: 0 <= j < i ==> |DoctorRun(START, lines[..j]).out| < MAX_STANZAS
    {
      if |stanzas| >= MAX_STANZAS {
        return None;
      }
      cur, lastKey, folded, stanzas := ReadLine(cur, lastKey, folded, stanzas, lines, i);
    }
    if scan.tooLong {
      return None;
    }
    assert lines[..|lines|] == lines;
    stanzas := Flush(cur, lastKey, folded, stanzas);
    return Some(stanzas);
  }

  /** stanzaGet; `elsewhere` is what its case-insensitive scan finds for a field that is
      absent under its exact name. */
  function StanzaGet(elsewhere: (Stanza, string) -> string, s: Stanza, key: string): string {
    if key in s then s[key] else elsewhere(s, key)
  }

  predicate Counts(elsewhere: (Stanza, string) -> string, s: Stanza) {
    var fields := Fields(StanzaGet(elsewhere, s, "Status"), 0);
    StanzaGet(elsewhere, s, "Package") != "" && |fields| == 3 && fields[2] == "installed"
  }

  predicate CountsHeld(elsewhere: (Stanza, string) -> string, s: Stanza) {
    Counts(elsewhere, s) && Fields(StanzaGet(elsewhere, s, "Status"), 0)[0] == "hold"
  }

  function Readable(text: string): seq<Stanza> {
    if DoctorStanzas(text).Some? then DoctorStanzas(text).value else []
  }

  /** The names of the stanzas that count as installed. */
  function InstalledIn(elsewhere: (Stanza, string) -> string, stanzas: seq<Stanza>): set<string> {
    if stanzas == [] then {}
    else
      var before, s := InstalledIn(elsewhere, stanzas[..|stanzas| - 1]), stanzas[|stanzas| - 1];
      if Counts(elsewhere, s) then before + {StanzaGet(elsewhere, s, "Package")} else before
  }

  /** The names of those among them that are on hold. */
  function HeldIn(elsewhere: (Stanza, string) -> string, stanzas: seq<Stanza>): set<string> {
    if stanzas == [] then {}
    else
      var before, s := HeldIn(elsewhere, stanzas[..|stanzas| - 1]), stanzas[|stanzas| - 1];
      if CountsHeld(elsewhere, s) then before + {StanzaGet(elsewhere, s, "Package")} else before
  }

  function InstalledNames(elsewhere: (Stanza, string) -> string, text: string): set<string> {
    InstalledIn(elsewhere, Readable(text))
  }

  function HeldNames(elsewhere: (Stanza, string) -> string, text: string): set<string> {
    HeldIn(elsewhere, Readable(text))
  }

  /** parseDpkgStatus: a document that is refused has no packages. */
  method ParseDpkgStatus(elsewhere: (Stanza, string) -> string, content: string)
    returns (installed: set<string>, held: set<string>)
    ensures installed == InstalledNames(elsewhere, content)
    ensures held == HeldNames(elsewhere, content)
  {
    installed, held := {}, {};
    if content == "" {
      assert ScanLines(content) == Scan([], false);
      return;
    }
    var stanzas := ParseDeb822(content);
    if stanzas.None? {
      return;
    }
    var all := stanzas.value;
    for i := 0 to |all|
      invariant installed == InstalledIn(elsewhere, all[..i])
      invariant held == HeldIn(elsewhere, all[..i])
    {
      var s := all[i];
      assert all[..i + 1][..i] == all[..i];
      var name := StanzaGet(elsewhere, s, "Package");
      if name == "" {
        continue;
      }
      var fields := Fields(StanzaGet(elsewhere, s, "Status"), 0);
      if |fields| == 3 && fields[2] == "installed" {
        installed := installed + {name};
        if fields[0] == "hold" {
          held := held + {name};
        }
      }
    }
    assert all[..|all|] == all;
  }
}
