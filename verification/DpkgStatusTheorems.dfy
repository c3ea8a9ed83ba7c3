/** What both readers make of a written status file, and what the doctor's folding builder
    computes. */
module DpkgStatusTheorems {
  import opened Wrappers
  import Seqs
  import Sorting
  import opened DpkgStatus
  import opened DpkgStatusLines

  // ---- any file of four-field stanzas ----

  ghost predicate AllClean(rs: seq<Record>) {
    forall r :: r in rs ==> CleanRecord(r)
  }

  /** What the resolver's reader makes of it. */
  lemma {:induction false} ResolverStanzasOfText(rs: seq<Record>)
    requires AllClean(rs)
    ensures ResolverStanzas(Joined(AllLines(rs))) == StanzasOf(rs)
  {
    var lines := AllLines(rs);
    AllLinesAreClean(rs);
    JoinedHasNoCrLf(lines);
    UnixKeeps(Joined(lines));
    SplitJoined(lines);
    ResolverRunsAll(rs);
    ResolverPush(EMPTY, lines, "", lines + [""]);
  }

  lemma {:induction false} StanzasOfLast(rs: seq<Record>, before: seq<Record>, r: Record)
    requires rs != [] && before == rs[..|rs| - 1] && r == rs[|rs| - 1]
    ensures StanzasOf(rs) == StanzasOf(before) + [StanzaOf(r)]
    ensures StanzasOf(rs) != [] && StanzasOf(rs)[..|StanzasOf(rs)| - 1] == StanzasOf(before)
    ensures StanzasOf(rs)[|StanzasOf(rs)| - 1] == StanzaOf(r)
  {
  }

  // ---- what a status says ----

  /** The last of three words is installed. */
  predicate SaysInstalled(status: string) {
    |Fields(status, 0)| == 3 && Fields(status, 0)[2] == "installed"
  }

  /** ... and the first is hold. */
  predicate SaysHeld(status: string) {
    SaysInstalled(status) && Fields(status, 0)[0] == "hold"
  }

  predicate IsWord(s: string) {
    s != "" && forall i :: 0 <= i < |s| ==> s[i] != ' ' && !(9 <= s[i] as int <= 13)
  }

  lemma {:induction false} WordEnds(s: string, i: nat, k: nat)
    requires i <= k <= |s| && (k == |s| || s[k] == ' ')
    requires forall j :: i <= j < k ==> !IsSpace(s[j])
    ensures FieldEnd(s, i) == k
    decreases k - i
  {
    if i == k {
    } else {
      WordEnds(s, i + 1, k);
    }
  }

  /** The word that stands in `s` from `i` on is the next field. */
  lemma {:induction false} FieldIs(s: string, i: nat, word: string)
    requires IsWord(word) && i + |word| <= |s| && s[i..i + |word|] == word
    requires i + |word| == |s| || s[i + |word|] == ' '
    ensures Fields(s, i) == [word] + Fields(s, i + |word|)
  {
    forall j | i <= j < i + |word| ensures !IsSpace(s[j]) {
      assert s[j] == s[i..i + |word|][j - i] == word[j - i];
    }
    WordEnds(s, i, i + |word|);
  }

  /** A word is the last field of the text it ends, and comes before the fields after the space
      behind it. */
  lemma {:induction false} LastFieldIs(s: string, i: nat, word: string)
    requires IsWord(word) && i + |word| == |s| && s[i..i + |word|] == word
    ensures Fields(s, i) == [word]
  {
    FieldIs(s, i, word);
  }

  lemma {:induction false} NextFieldIs(s: string, i: nat, word: string, rest: seq<string>)
    requires IsWord(word) && i + |word| < |s| && s[i..i + |word|] == word && s[i + |word|] == ' '
    requires Fields(s, i + |word| + 1) == rest
    ensures Fields(s, i) == [word] + rest
  {
    FieldIs(s, i, word);
    SpaceIsNothing(s, i + |word|);
  }

  lemma {:induction false} SpaceIsNothing(s: string, i: nat)
    requires i < |s| && s[i] == ' '
    ensures Fields(s, i) == Fields(s, i + 1)
  {
  }

  lemma {:induction false} ThreeFields(s: string, a: nat, b: nat)
    requires a < b < |s| && s[a] == ' ' && s[b] == ' '
    requires IsWord(s[0..a]) && IsWord(s[a + 1..b]) && IsWord(s[b + 1..|s|])
    ensures Fields(s, 0) == [s[0..a]] + ([s[a + 1..b]] + [s[b + 1..|s|]])
  {
    LastFieldIs(s, b + 1, s[b + 1..|s|]);
    NextFieldIs(s, a + 1, s[a + 1..b], [s[b + 1..|s|]]);
    NextFieldIs(s, 0, s[0..a], [s[a + 1..b]] + [s[b + 1..|s|]]);
  }

  /** Three words with a space between each and the next are the three fields. */
  lemma {:induction false} ThreeWordsAreFields(want: string, flag: string, state: string, s: string)
    requires IsWord(want) && IsWord(flag) && IsWord(state) && s == want + " " + flag + " " + state
    ensures Fields(s, 0) == [want] + ([flag] + [state])
  {
    Pieces(want, flag, state, s, |want|, |want| + 1 + |flag|);
    ThreeFields(s, |want|, |want| + 1 + |flag|);
  }

  lemma {:induction false} Pieces(want: string, flag: string, state: string, s: string, a: nat, b: nat)
    requires s == want + " " + flag + " " + state && state != ""
    requires a == |want| && b == a + 1 + |flag|
    ensures a < b < |s| && s[0..a] == want && s[a] == ' ' && s[a + 1..b] == flag
    ensures s[b] == ' ' && s[b + 1..|s|] == state
  {
  }

  /** A status of three words is a hold exactly when it is hold, anything, installed. */
  lemma {:induction false} StatusSays(want: string, flag: string, state: string)
    requires IsWord(want) && IsWord(flag) && IsWord(state)
    ensures var status := want + " " + flag + " " + state;
            && (SaysInstalled(status) <==> state == "installed")
            && (SaysHeld(status) <==> want == "hold" && state == "installed")
  {
    ThreeWordsAreFields(want, flag, state, want + " " + flag + " " + state);
  }

  lemma {:induction false} InstalledSays()
    ensures SaysInstalled(INSTALLED) && !SaysHeld(INSTALLED)
  {
    assert INSTALLED == "install" + " " + "ok" + " " + "installed";
    assert "hold"[0] != "install"[0];
    StatusSays("install", "ok", "installed");
  }

  // ---- holds and versions of any such file ----

  lemma {:induction false} RecordStanza(r: Record)
    ensures IsInstalled(StanzaOf(r)) <==> r.name != "" && r.arch != "" && SaysInstalled(r.status)
    ensures IsHeld(StanzaOf(r)) <==> r.name != "" && SaysHeld(r.status)
    ensures QualifiedName(StanzaOf(r)) == r.name + ":" + r.arch
    ensures Get(StanzaOf(r), "Package") == r.name && Get(StanzaOf(r), "Version") == r.version
  {
    StanzaFields(r);
  }

  function NameArch(r: Record): string {
    r.name + ":" + r.arch
  }

  predicate Present(r: Record) {
    r.name != "" && r.arch != "" && SaysInstalled(r.status)
  }

  predicate OnHold(r: Record) {
    r.name != "" && SaysHeld(r.status)
  }

  function RecordVersions(rs: seq<Record>): map<string, string> {
    if rs == [] then map[]
    else
      var before, r := RecordVersions(rs[..|rs| - 1]), rs[|rs| - 1];
      if Present(r) then before[NameArch(r) := Trim(r.version)] else before
  }

  function RecordHolds(rs: seq<Record>): map<string, string> {
    if rs == [] then map[]
    else
      var before, r := RecordHolds(rs[..|rs| - 1]), rs[|rs| - 1];
      if OnHold(r) then before[r.name := Trim(r.version)] else before
  }

  lemma {:induction false} VersionsOf(rs: seq<Record>)
    ensures Versions(StanzasOf(rs)) == RecordVersions(rs) && Holds(StanzasOf(rs)) == RecordHolds(rs)
    decreases |rs|
  {
    if rs == [] {
    } else {
      var before, r := rs[..|rs| - 1], rs[|rs| - 1];
      VersionsOf(before);
      RecordStanza(r);
      StanzasOfLast(rs, before, r);
    }
  }

  predicate VersionKey(rs: seq<Record>, key: string) {
    exists r :: r in rs && Present(r) && NameArch(r) == key
  }

  predicate HoldKey(rs: seq<Record>, name: string) {
    exists r :: r in rs && OnHold(r) && r.name == name
  }

  lemma {:induction false} KeysNext(rs: seq<Record>, before: seq<Record>, r: Record, key: string)
    requires rs == before + [r]
    ensures VersionKey(rs, key) <==> VersionKey(before, key) || (Present(r) && NameArch(r) == key)
    ensures HoldKey(rs, key) <==> HoldKey(before, key) || (OnHold(r) && r.name == key)
  {
    assert r in rs;
    assert forall q :: q in before ==> q in rs;
  }

  lemma {:induction false} RecordVersionsAre(rs: seq<Record>, key: string)
    ensures key in RecordVersions(rs) <==> VersionKey(rs, key)
    ensures key in RecordHolds(rs) <==> HoldKey(rs, key)
    decreases |rs|
  {
    if rs == [] {
    } else {
      var before, r := rs[..|rs| - 1], rs[|rs| - 1];
      RecordVersionsAre(before, key);
      KeysNext(rs, before, r, key);
    }
  }

  lemma {:induction false} VersionIs(rs: seq<Record>, r: Record)
    requires r in rs && Present(r) && forall q :: q in rs && NameArch(q) == NameArch(r) ==> q == r
    ensures NameArch(r) in RecordVersions(rs) && RecordVersions(rs)[NameArch(r)] == Trim(r.version)
    decreases |rs|
  {
    var before, last := rs[..|rs| - 1], rs[|rs| - 1];
    assert rs == before + [last];
    if last != r {
      VersionIs(before, r);
    }
  }

  lemma {:induction false} HoldIs(rs: seq<Record>, r: Record)
    requires r in rs && OnHold(r) && forall q :: q in rs && q.name == r.name ==> q == r
    ensures r.name in RecordHolds(rs) && RecordHolds(rs)[r.name] == Trim(r.version)
    decreases |rs|
  {
    var before, last := rs[..|rs| - 1], rs[|rs| - 1];
    assert rs == before + [last];
    if last != r {
      HoldIs(before, r);
    }
  }

  /** A status file, whatever its statuses say, as the resolver reads it: a version for each
      name:arch of an installed package and for each name of a held one, that of the package
      where it is the only one of its key. */
  lemma {:induction false} ResolverReads(rs: seq<Record>)
    requires AllClean(rs)
    ensures var stanzas := ResolverStanzas(Joined(AllLines(rs)));
            && (forall key :: key in Versions(stanzas) <==> VersionKey(rs, key))
            && (forall name :: name in Holds(stanzas) <==> HoldKey(rs, name))
            && (forall r :: r in rs && Present(r) && (forall q :: q in rs && NameArch(q) == NameArch(r) ==> q == r) ==>
                  NameArch(r) in Versions(stanzas) && Versions(stanzas)[NameArch(r)] == Trim(r.version))
            && (forall r :: r in rs && OnHold(r) && (forall q :: q in rs && q.name == r.name ==> q == r) ==>
                  r.name in Holds(stanzas) && Holds(stanzas)[r.name] == Trim(r.version))
  {
    ResolverStanzasOfText(rs);
    VersionsOf(rs);
    forall key ensures key in RecordVersions(rs) <==> VersionKey(rs, key)
               ensures key in RecordHolds(rs) <==> HoldKey(rs, key) {
      RecordVersionsAre(rs, key);
    }
    forall r | r in rs && Present(r) && (forall q :: q in rs && NameArch(q) == NameArch(r) ==> q == r)
      ensures NameArch(r) in RecordVersions(rs) && RecordVersions(rs)[NameArch(r)] == Trim(r.version)
    {
      VersionIs(rs, r);
    }
    forall r | r in rs && OnHold(r) && (forall q :: q in rs && q.name == r.name ==> q == r)
      ensures r.name in RecordHolds(rs) && RecordHolds(rs)[r.name] == Trim(r.version)
    {
      HoldIs(rs, r);
    }
  }

  // ---- a written closure ----

  /** A package whose stanza can be read back. */
  predicate WellFormed(p: Package) {
    p.name != "" && p.arch != "" && CleanLine(p.name) && CleanLine(p.arch) && CleanLine(p.version)
  }

  lemma {:induction false} RecordIsPresent(p: Package)
    requires WellFormed(p)
    ensures CleanRecord(RecordOf(p)) && Present(RecordOf(p)) && !OnHold(RecordOf(p))
    ensures RecordOf(p).name == p.name && NameArch(RecordOf(p)) == PackageKey(p) && RecordOf(p).version == p.version
  {
    InstalledSays();
    InstalledIsClean();
    PresentWith(p, RecordOf(p));
  }

  lemma {:induction false} InstalledIsClean()
    ensures CleanLine(INSTALLED)
  {
    assert |INSTALLED| == 20 && INSTALLED[19] == 'd';
  }

  lemma {:induction false} PresentWith(p: Package, r: Record)
    requires WellFormed(p) && r.name == p.name && r.arch == p.arch && r.version == p.version
    requires CleanLine(r.status) && SaysInstalled(r.status) && !SaysHeld(r.status)
    ensures CleanRecord(r) && Present(r) && !OnHold(r) && NameArch(r) == PackageKey(p)
  {
  }

  /** The records of a closure, which both readers are given. */
  lemma {:induction false} RecordsOf(packages: seq<Package>, ps: seq<Package>)
    requires ps == Sorting.Sort(PackageLe, packages)
    ensures |Records(ps)| == |packages|
    ensures forall r :: r in Records(ps) <==> exists p :: p in packages && RecordOf(p) == r
  {
    Sorting.SortIsPermutation(PackageLe, packages);
    Seqs.MappedAt(RecordOf, ps);
    Seqs.MappedMembers(RecordOf, ps);
  }

  function PackageKey(p: Package): string {
    p.name + ":" + p.arch
  }

  /** No two packages have the same name:arch. */
  predicate DistinctPackages(ps: seq<Package>) {
    forall i, j :: 0 <= i < j < |ps| ==> PackageKey(ps[i]) != PackageKey(ps[j])
  }

  lemma {:induction false} DistinctIsByKey(ps: seq<Package>)
    requires DistinctPackages(ps)
    ensures forall p, q :: p in ps && q in ps && PackageKey(p) == PackageKey(q) ==> p == q
  {
  }

  lemma {:induction false} ClosureRecords(packages: seq<Package>, rs: seq<Record>)
    requires forall p :: p in packages ==> WellFormed(p)
    requires forall r :: r in rs <==> exists p :: p in packages && RecordOf(p) == r
    ensures AllClean(rs)
    ensures forall key :: VersionKey(rs, key) <==> exists p :: p in packages && PackageKey(p) == key
    ensures forall name :: !HoldKey(rs, name)
  {
    forall r | r in rs ensures CleanRecord(r) && Present(r) && !OnHold(r) {
      var p :| p in packages && RecordOf(p) == r;
      RecordIsPresent(p);
    }
    forall key ensures VersionKey(rs, key) <==> exists p :: p in packages && PackageKey(p) == key {
      if VersionKey(rs, key) {
        var r :| r in rs && Present(r) && NameArch(r) == key;
        var p :| p in packages && RecordOf(p) == r;
        RecordIsPresent(p);
      }
      if p :| p in packages && PackageKey(p) == key {
        RecordIsPresent(p);
        assert RecordOf(p) in rs;
      }
    }
  }

  lemma {:induction false} ResolverClosure(packages: seq<Package>, rs: seq<Record>, stanzas: seq<Stanza>)
    requires forall p :: p in packages ==> WellFormed(p)
    requires DistinctPackages(packages)
    requires forall r :: r in rs <==> exists p :: p in packages && RecordOf(p) == r
    requires stanzas == ResolverStanzas(Joined(AllLines(rs)))
    ensures Versions(stanzas).Keys == (set p | p in packages :: PackageKey(p))
    ensures forall p :: p in packages ==> Versions(stanzas)[PackageKey(p)] == Trim(p.version)
    ensures Holds(stanzas) == map[]
  {
    ClosureRecords(packages, rs);
    ResolverReads(rs);
    DistinctIsByKey(packages);
    assert forall name :: name !in Holds(stanzas);
    forall p | p in packages
      ensures PackageKey(p) in Versions(stanzas) && Versions(stanzas)[PackageKey(p)] == Trim(p.version)
    {
      OwnRecord(packages, rs, p);
    }
  }

  /** The resolver's reader gives back the closure's name:arch -> version map, each version
      without surrounding white space, and no holds. */
  lemma {:induction false} ResolverReadsBack(packages: seq<Package>)
    requires forall p :: p in packages ==> WellFormed(p)
    requires DistinctPackages(packages)
    ensures var stanzas := ResolverStanzas(StatusText(packages));
            && Versions(stanzas).Keys == (set p | p in packages :: PackageKey(p))
            && (forall p :: p in packages ==> Versions(stanzas)[PackageKey(p)] == Trim(p.version))
            && Holds(stanzas) == map[]
  {
    var ps := Sorting.Sort(PackageLe, packages);
    RecordsOf(packages, ps);
    ResolverClosure(packages, Records(ps), ResolverStanzas(StatusText(packages)));
  }

  lemma {:induction false} OwnRecord(packages: seq<Package>, rs: seq<Record>, p: Package)
    requires forall q :: q in packages ==> WellFormed(q)
    requires forall r :: r in rs <==> exists q :: q in packages && RecordOf(q) == r
    requires p in packages && forall q :: q in packages && PackageKey(q) == PackageKey(p) ==> q == p
    ensures var r := RecordOf(p);
            && r in rs && Present(r) && NameArch(r) == PackageKey(p) && r.version == p.version
            && forall q :: q in rs && NameArch(q) == NameArch(r) ==> q == r
  {
    RecordIsPresent(p);
    forall q | q in rs && NameArch(q) == PackageKey(p) ensures q == RecordOf(p) {
      var x :| x in packages && RecordOf(x) == q;
      RecordIsPresent(x);
    }
  }

  // ---- the doctor's limits ----

  lemma {:induction false} LineGrows(lines: seq<string>, j: nat)
    requires j < |lines|
    ensures |DoctorRun(START, lines[..j]).out| <= |DoctorRun(START, lines[..j + 1]).out|
  {
    DoctorRunNext(START, lines, j);
  }

  lemma {:induction false} DoctorRunGrows(lines: seq<string>, i: nat, j: nat)
    requires i <= j <= |lines|
    ensures |DoctorRun(START, lines[..i]).out| <= |DoctorRun(START, lines[..j]).out|
    decreases j - i
  {
    if i < j {
      LineGrows(lines, i);
      DoctorRunGrows(lines, i + 1, j);
    }
  }

  lemma {:induction false} AllLinesLength(rs: seq<Record>)
    ensures |AllLines(rs)| == 5 * |rs|
    decreases |rs|
  {
    if rs == [] {
    } else {
      AllLinesLength(rs[..|rs| - 1]);
    }
  }

  lemma {:induction false} AllLinesPrefix(rs: seq<Record>, n: nat)
    requires n <= |rs|
    ensures 5 * n <= |AllLines(rs)| && AllLines(rs)[..5 * n] == AllLines(rs[..n])
    decreases |rs|
  {
    AllLinesLength(rs);
    AllLinesLength(rs[..n]);
    if n == |rs| {
      assert rs[..n] == rs;
    } else {
      var before := rs[..|rs| - 1];
      AllLinesPrefix(before, n);
      AllLinesLength(before);
      assert before[..n] == rs[..n];
    }
  }

  /** The line after stanza number n is reached with n stanzas read. */
  lemma {:induction false} StanzasAfter(rs: seq<Record>, n: nat)
    requires n <= |rs|
    ensures 5 * n <= |AllLines(rs)|
    ensures |DoctorRun(START, AllLines(rs)[..5 * n]).out| == n
  {
    AllLinesPrefix(rs, n);
    DoctorRunsAll(rs[..n]);
  }

  lemma {:induction false} NoBlankNoStanza(st: Folding, lines: seq<string>)
    requires forall i :: 0 <= i < |lines| ==> Trim(lines[i]) != ""
    ensures DoctorRun(st, lines).out == st.out
    decreases |lines|
  {
    if lines == [] {
    } else {
      NoBlankNoStanza(st, lines[..|lines| - 1]);
    }
  }

  lemma {:induction false} FieldsAreNotBlank(r: Record)
    ensures forall i :: 0 <= i < 4 ==> Trim(StanzaLines(r)[i]) != ""
  {
    TheKeysArePlain();
    FieldLineParts("Package", r.name, FieldLine("Package", r.name));
    FieldLineParts("Status", r.status, FieldLine("Status", r.status));
    FieldLineParts("Architecture", r.arch, FieldLine("Architecture", r.arch));
    FieldLineParts("Version", r.version, FieldLine("Version", r.version));
  }

  /** Before the last blank line the last stanza is not counted yet. */
  lemma {:induction false} LastStanzaComesLast(rs: seq<Record>)
    requires rs != []
    ensures |DoctorRun(START, AllLines(rs)[..|AllLines(rs)| - 1]).out| < |rs|
  {
    var before, r := rs[..|rs| - 1], rs[|rs| - 1];
    DoctorRunsAll(before);
    var four := StanzaLines(r)[..4];
    assert AllLines(rs)[..|AllLines(rs)| - 1] == AllLines(before) + four;
    DoctorRunAppends(START, AllLines(before), four);
    FieldsAreNotBlank(r);
    NoBlankNoStanza(DoctorRun(START, AllLines(before)), four);
  }

  /** The stanza limit refuses a written file exactly when it has more stanzas. */
  lemma {:induction false} OverrunsExactly(rs: seq<Record>)
    ensures Overruns(AllLines(rs)) <==> |rs| > MAX_STANZAS
  {
    var lines := AllLines(rs);
    AllLinesLength(rs);
    if |rs| > MAX_STANZAS {
      StanzasAfter(rs, MAX_STANZAS);
      assert 5 * MAX_STANZAS < |lines|;
    } else if rs != [] {
      LastStanzaComesLast(rs);
      forall i | 0 <= i < |lines| ensures |DoctorRun(START, lines[..i]).out| < MAX_STANZAS {
        DoctorRunGrows(lines, i, |lines| - 1);
      }
    }
  }

  predicate FitsTheScanner(rs: seq<Record>) {
    forall r :: r in rs ==> ShortLines(StanzaLines(r))
  }

  lemma {:induction false} ShortLinesOf(rs: seq<Record>)
    ensures ShortLines(AllLines(rs)) <==> FitsTheScanner(rs)
    decreases |rs|
  {
    if rs == [] {
    } else {
      var before, r := rs[..|rs| - 1], rs[|rs| - 1];
      ShortLinesOf(before);
      assert rs == before + [r];
      assert ShortLines(AllLines(rs)) <==> ShortLines(AllLines(before)) && ShortLines(StanzaLines(r)) by {
        var a, b := AllLines(before), StanzaLines(r);
        assert AllLines(rs) == a + b;
        if ShortLines(a + b) {
          forall i | 0 <= i < |a| ensures |a[i]| < MAX_TOKEN { assert a[i] == (a + b)[i]; }
          forall i | 0 <= i < |b| ensures |b[i]| < MAX_TOKEN { assert b[i] == (a + b)[|a| + i]; }
        }
      }
    }
  }

  /** What the doctor's reader makes of any file of four-field stanzas. */
  lemma {:induction false} DoctorStanzasOfText(rs: seq<Record>)
    requires AllClean(rs)
    ensures DoctorStanzas(Joined(AllLines(rs))) ==
            if FitsTheScanner(rs) && |rs| <= MAX_STANZAS then Some(StanzasOf(rs)) else None
  {
    var lines := AllLines(rs);
    AllLinesAreClean(rs);
    ScanJoined(lines);
    ShortLinesOf(rs);
    OverrunsExactly(rs);
    DoctorRunsAll(rs);
  }

  lemma {:induction false} CountedByDoctor(elsewhere: (Stanza, string) -> string, r: Record)
    ensures Counts(elsewhere, StanzaOf(r)) <==> r.name != "" && SaysInstalled(r.status)
    ensures CountsHeld(elsewhere, StanzaOf(r)) <==> OnHold(r)
    ensures StanzaGet(elsewhere, StanzaOf(r), "Package") == r.name
  {
    StanzaFields(r);
  }

  predicate DoctorKey(rs: seq<Record>, name: string) {
    exists r :: r in rs && r.name == name && name != "" && SaysInstalled(r.status)
  }

  lemma {:induction false} DoctorKeysNext(rs: seq<Record>, before: seq<Record>, r: Record, name: string)
    requires rs == before + [r]
    ensures DoctorKey(rs, name) <==>
            DoctorKey(before, name) || (r.name == name && name != "" && SaysInstalled(r.status))
  {
    assert r in rs;
    assert forall q :: q in before ==> q in rs;
  }

  lemma {:induction false} NamesNext(elsewhere: (Stanza, string) -> string, rs: seq<Record>, before: seq<Record>,
                                     r: Record, name: string)
    requires rs != [] && before == rs[..|rs| - 1] && r == rs[|rs| - 1]
    ensures name in InstalledIn(elsewhere, StanzasOf(rs)) <==>
            name in InstalledIn(elsewhere, StanzasOf(before)) ||
            (r.name == name && name != "" && SaysInstalled(r.status))
    ensures name in HeldIn(elsewhere, StanzasOf(rs)) <==>
            name in HeldIn(elsewhere, StanzasOf(before)) || (OnHold(r) && r.name == name)
  {
    CountedByDoctor(elsewhere, r);
    StanzasOfLast(rs, before, r);
  }

  lemma {:induction false} InstalledInOf(elsewhere: (Stanza, string) -> string, rs: seq<Record>, name: string)
    ensures name in InstalledIn(elsewhere, StanzasOf(rs)) <==> DoctorKey(rs, name)
    ensures name in HeldIn(elsewhere, StanzasOf(rs)) <==> HoldKey(rs, name)
    decreases |rs|
  {
    if rs == [] {
    } else {
      var before, r := rs[..|rs| - 1], rs[|rs| - 1];
      InstalledInOf(elsewhere, before, name);
      NamesNext(elsewhere, rs, before, r, name);
      KeysNext(rs, before, r, name);
      DoctorKeysNext(rs, before, r, name);
    }
  }

  /** A status file, whatever its statuses say, as the doctor reads it: the names of the installed
      and of the held packages, or nothing of a file past its limits. */
  lemma {:induction false} DoctorReads(elsewhere: (Stanza, string) -> string, rs: seq<Record>)
    requires AllClean(rs)
    ensures var text, within := Joined(AllLines(rs)), FitsTheScanner(rs) && |rs| <= MAX_STANZAS;
            && (forall name :: name in InstalledNames(elsewhere, text) <==>
                  within && DoctorKey(rs, name))
            && (forall name :: name in HeldNames(elsewhere, text) <==>
                  within && HoldKey(rs, name))
  {
    DoctorStanzasOfText(rs);
    forall name ensures name in InstalledIn(elsewhere, StanzasOf(rs)) <==> DoctorKey(rs, name)
                ensures name in HeldIn(elsewhere, StanzasOf(rs)) <==> HoldKey(rs, name) {
      InstalledInOf(elsewhere, rs, name);
    }
  }

  lemma {:induction false} DoctorClosure(elsewhere: (Stanza, string) -> string, packages: seq<Package>, rs: seq<Record>,
                                         text: string)
    requires forall p :: p in packages ==> WellFormed(p)
    requires forall r :: r in rs <==> exists p :: p in packages && RecordOf(p) == r
    requires |rs| == |packages| && text == Joined(AllLines(rs))
    ensures forall name :: name in InstalledNames(elsewhere, text) <==>
      ClosureFits(packages) && exists p :: p in packages && p.name == name
    ensures HeldNames(elsewhere, text) == {}
  {
    ClosureRecords(packages, rs);
    DoctorReads(elsewhere, rs);
    ClosureLines(packages, rs);
    forall name ensures DoctorKey(rs, name) <==> exists p :: p in packages && p.name == name {
      ClosureNames(packages, rs, name);
    }
    assert forall name :: name !in HeldNames(elsewhere, text);
  }

  /** The doctor's reader sees exactly the closure's names and no holds, unless the closure
      has more packages than it takes or a line longer than it takes: then it sees nothing. */
  lemma {:induction false} DoctorReadsBack(elsewhere: (Stanza, string) -> string, packages: seq<Package>)
    requires forall p :: p in packages ==> WellFormed(p)
    ensures InstalledNames(elsewhere, StatusText(packages)) ==
            (if ClosureFits(packages) then set p | p in packages :: p.name else {})
    ensures HeldNames(elsewhere, StatusText(packages)) == {}
  {
    var ps := Sorting.Sort(PackageLe, packages);
    RecordsOf(packages, ps);
    DoctorClosure(elsewhere, packages, Records(ps), StatusText(packages));
  }

  lemma {:induction false} ClosureNames(packages: seq<Package>, rs: seq<Record>, name: string)
    requires forall p :: p in packages ==> WellFormed(p)
    requires forall r :: r in rs <==> exists p :: p in packages && RecordOf(p) == r
    ensures DoctorKey(rs, name) <==> exists p :: p in packages && p.name == name
  {
    if DoctorKey(rs, name) {
      var r :| r in rs && r.name == name && name != "" && SaysInstalled(r.status);
      var p :| p in packages && RecordOf(p) == r;
      RecordIsPresent(p);
    }
    if p :| p in packages && p.name == name {
      RecordIsPresent(p);
      assert RecordOf(p) in rs;
    }
  }

  lemma {:induction false} ClosureLines(packages: seq<Package>, rs: seq<Record>)
    requires forall r :: r in rs <==> exists p :: p in packages && RecordOf(p) == r
    ensures FitsTheScanner(rs) <==> forall p :: p in packages ==> ShortPackage(p)
  {
    if FitsTheScanner(rs) {
      forall p | p in packages ensures ShortPackage(p) {
        assert RecordOf(p) in rs;
      }
    }
    if forall p :: p in packages ==> ShortPackage(p) {
      forall r | r in rs ensures ShortLines(StanzaLines(r)) {
        var p :| p in packages && RecordOf(p) == r;
        assert ShortPackage(p);
      }
    }
  }

  /** Every line of the package's stanza fits the doctor's reader. */
  predicate ShortPackage(p: Package) {
    ShortLines(StanzaLines(RecordOf(p)))
  }

  /** The doctor's reader takes this many packages and lines of this length. */
  predicate ClosureFits(packages: seq<Package>) {
    |packages| <= MAX_STANZAS && forall p :: p in packages ==> ShortPackage(p)
  }

  // ---- the written file does not depend on apt's order ----

  lemma {:induction false} PackageOrder()
    ensures Sorting.Ordering(PackageLe)
    ensures forall a, b :: PackageLe(a, b) && PackageLe(b, a) ==> a == b
  {
    Sorting.StringOrder();
    forall a, b, c | PackageLe(a, b) && PackageLe(b, c) ensures PackageLe(a, c) {
      if a.name == b.name == c.name && a.arch == b.arch == c.arch {
        assert PackageLe(a, c);
      }
    }
  }

  /** The stanzas are written by name, then architecture, then version. */
  lemma {:induction false} WrittenInOrder(packages: seq<Package>, ps: seq<Package>, i: nat, j: nat)
    requires ps == Sorting.Sort(PackageLe, packages) && i < j < |ps|
    ensures |ps| == |packages| && |Records(ps)| == |ps|
    ensures var a, b := Records(ps)[i], Records(ps)[j];
            && (a.name != b.name ==> Sorting.StringLe(a.name, b.name))
            && (a.name == b.name && a.arch != b.arch ==> Sorting.StringLe(a.arch, b.arch))
            && (a.name == b.name && a.arch == b.arch ==> Sorting.StringLe(a.version, b.version))
  {
    PackageOrder();
    Sorting.SortIsSorted(PackageLe, packages);
    Sorting.SortIsPermutation(PackageLe, packages);
    Seqs.MappedAt(RecordOf, ps);
    assert PackageLe(ps[i], ps[j]);
  }

  /** Two closures of the same packages are written as the same bytes. */
  lemma {:induction false} TextForgetsOrder(a: seq<Package>, b: seq<Package>)
    requires multiset(a) == multiset(b)
    ensures StatusText(a) == StatusText(b)
  {
    PackageOrder();
    Sorting.SortForgetsOrder(PackageLe, a, b);
  }

  // ---- the folding builder ----

  /** The reader that extends the stored field at every continuation line. */
  datatype Eager = Eager(cur: Option<Stanza>, lastKey: string, out: seq<Stanza>)

  function EagerStep(st: Eager, line: string): Eager {
    if Trim(line) == "" then
      Eager(None, "", if st.cur.Some? then st.out + [st.cur.value] else st.out)
    else if Continues(line, st.lastKey, st.cur.Some?) then
      st.(cur := Some(st.cur.value[st.lastKey := Get(st.cur.value, st.lastKey) + Continuation(line)]))
    else
      var k := IndexOf(line, ':', 0);
      if k == |line| then st
      else
        var key, before := Trim(line[..k]), if st.cur.None? then map[] else st.cur.value;
        Eager(Some(if key == "" then before else before[key := DropFirst(line[k + 1..], ' ')]), key, st.out)
  }

  function EagerRun(lines: seq<string>): Eager {
    if lines == [] then Eager(None, "", []) else EagerStep(EagerRun(lines[..|lines| - 1]), lines[|lines| - 1])
  }

  /** What the eager reader holds when the folding one is at `st`. */
  function Seen(st: Folding): Eager {
    Eager(Committed(st), st.lastKey, st.out)
  }

  lemma {:induction false} EagerFollows(st: Folding, line: string)
    ensures EagerStep(Seen(st), line) == Seen(DoctorStep(st, line))
  {
    if Trim(line) != "" && Continues(line, st.lastKey, st.cur.Some?) {
      var m, k := st.cur.value, st.lastKey;
      var v := st.folded + Continuation(line);
      assert m[k := st.folded][k := v] == m[k := v];
    }
  }

  /** Storing a folded field when it ends gives what extending it in place gives, after any
      lines at all. */
  lemma {:induction false} FoldingIsInvisible(lines: seq<string>)
    ensures EagerRun(lines) == Seen(DoctorRun(START, lines))
    ensures DoctorFlush(DoctorRun(START, lines)).out == EagerStep(EagerRun(lines), "").out
    decreases |lines|
  {
    if lines == [] {
    } else {
      FoldingIsInvisible(lines[..|lines| - 1]);
      EagerFollows(DoctorRun(START, lines[..|lines| - 1]), lines[|lines| - 1]);
    }
    EagerFollows(DoctorRun(START, lines), "");
    assert Trim("") == "";
  }
}
