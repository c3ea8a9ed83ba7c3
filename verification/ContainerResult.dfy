/** What the host accepts of a plan produced inside a container
    (core/apt/container_driver.go:746-929, 1014-1149, core/apt/container.go:582-605,
    1130-1214, core/apt/closedworld.go:382-399).

    The envelope and the files on the host are arbitrary.  Hashing and the folding under
    which digests are compared are parameters. */
module ContainerResult {
  import opened Wrappers
  import Sorting

  /** A file directly inside a directory of the host. */
  datatype HostPath = HostPath(dir: string, name: string)

  datatype Host = Host(hash: string -> string, fold: string -> string, files: map<HostPath, string>)

  /** No digest is blank, and a directory is not readable as a file. */
  ghost predicate Sane(h: Host) {
    && (forall b :: h.fold(h.hash(b)) != h.fold(""))
    && (forall d :: HostPath(d, "") !in h.files)
  }

  datatype EnvelopeFile = EnvelopeFile(name: string, arch: string, version: string, filename: string,
                                       sha256: string, size: nat)

  datatype Selection = Selection(name: string, arch: string, version: string, filename: string,
                                 sha256: string, size: nat, reason: string, stagedPath: Option<HostPath>)

  datatype Envelope = Envelope(files: seq<EnvelopeFile>, selections: seq<Selection>)

  const REASON_EXTERNAL := "external"

  function Key(name: string, arch: string): string {
    name + ":" + arch
  }

  function FileKey(f: EnvelopeFile): string {
    Key(f.name, f.arch)
  }

  function SelectionKey(s: Selection): string {
    Key(s.name, s.arch)
  }

  predicate SameDigest(h: Host, a: string, b: string) {
    h.fold(a) == h.fold(b)
  }

  predicate HasSuffix(s: string, suffix: string) {
    |suffix| <= |s| && s[|s| - |suffix|..] == suffix
  }

  /** repository.ValidFilename. */
  predicate ValidFilename(s: string) {
    && s != "" && |s| <= 255 && s[0] != '.' && HasSuffix(s, ".deb")
    && forall i :: 0 <= i < |s| ==>
         s[i] != '/' && s[i] != '\\' && s[i] != ':' && s[i] as int >= 0x20 && s[i] as int != 0x7f
  }

  predicate PassableName(filename: string) {
    filename != "" ==> ValidFilename(filename)
  }

  // ---- the envelope against itself ----------------------------------------------------

  /** byKey: of two files under one key the later one counts. */
  function ByKey(files: seq<EnvelopeFile>): map<string, EnvelopeFile> {
    if files == [] then map[] else ByKey(files[..|files| - 1])[FileKey(files[|files| - 1]) := files[|files| - 1]]
  }

  /** The plan and the file list say the same of one selected package. */
  predicate Matching(h: Host, s: Selection, f: EnvelopeFile) {
    && f.version == s.version && f.filename == s.filename
    && (s.sha256 != "" && f.sha256 != "" ==> SameDigest(h, s.sha256, f.sha256))
    && (s.size != 0 && f.size != 0 ==> s.size == f.size)
  }

  /** One selection passes. */
  predicate SelectionAgrees(h: Host, byKey: map<string, EnvelopeFile>, requested: set<string>, s: Selection) {
    && PassableName(s.filename)
    && if s.reason == REASON_EXTERNAL then s.name in requested
       else SelectionKey(s) in byKey && Matching(h, s, byKey[SelectionKey(s)])
  }

  /** The keys of the selections that are not external. */
  function SelectedKeys(sels: seq<Selection>): set<string> {
    set s | s in sels && s.reason != REASON_EXTERNAL :: SelectionKey(s)
  }

  predicate NamesPass(files: seq<EnvelopeFile>) {
    forall i :: 0 <= i < |files| ==> PassableName(files[i].filename)
  }

  predicate SelectionsAgree(h: Host, env: Envelope, requested: set<string>) {
    forall i :: 0 <= i < |env.selections| ==> SelectionAgrees(h, ByKey(env.files), requested, env.selections[i])
  }

  predicate FilesSelected(env: Envelope) {
    forall i :: 0 <= i < |env.files| ==> FileKey(env.files[i]) in SelectedKeys(env.selections)
  }

  /** The class of a refusal; a stale shared volume is the machine's fault. */
  datatype Refusal = Verification | Environment

  /** containerCrossCheckEnvelope. */
  method CrossCheckEnvelope(h: Host, env: Envelope, requestedExternal: seq<string>, archivesVolume: string)
      returns (refusal: Option<Refusal>)
    ensures var requested := set n | n in requestedExternal;
            && (refusal.None? <==> NamesPass(env.files) && SelectionsAgree(h, env, requested) && FilesSelected(env))
            && (refusal == Some(Environment) <==>
                  && archivesVolume != "" && NamesPass(env.files) && SelectionsAgree(h, env, requested)
                  && !FilesSelected(env))
  {
    var allowed := set n | n in requestedExternal;
    var byKey: map<string, EnvelopeFile> := map[];
    for i := 0 to |env.files|
      invariant NamesPass(env.files[..i]) && byKey == ByKey(env.files[..i])
    {
      var f := env.files[i];
      assert env.files[..i + 1][..i] == env.files[..i];
      if f.filename != "" && !ValidFilename(f.filename) {
        return Some(Verification);
      }
      byKey := byKey[FileKey(f) := f];
    }
    assert env.files[..|env.files|] == env.files;
    var seen: set<string> := {};
    for i := 0 to |env.selections|
      invariant forall k :: 0 <= k < i ==> SelectionAgrees(h, byKey, allowed, env.selections[k])
      invariant seen == SelectedKeys(env.selections[..i])
    {
      var s := env.selections[i];
      SelectedKeysNext(env.selections, i);
      if !SelectionAgrees(h, byKey, allowed, s) {
        return Some(Verification);
      }
      if s.reason != REASON_EXTERNAL {
        seen := seen + {SelectionKey(s)};
      }
    }
    assert env.selections[..|env.selections|] == env.selections;
    for i := 0 to |env.files|
      invariant forall k :: 0 <= k < i ==> FileKey(env.files[k]) in seen
    {
      if FileKey(env.files[i]) !in seen {
        return Some(if archivesVolume == "" then Verification else Environment);
      }
    }
    return None;
  }

  lemma {:induction false} SelectedKeysNext(sels: seq<Selection>, i: nat)
    requires i < |sels|
    ensures SelectedKeys(sels[..i + 1]) ==
            SelectedKeys(sels[..i]) + if sels[i].reason != REASON_EXTERNAL then {SelectionKey(sels[i])} else {}
  {
    assert sels[..i + 1] == sels[..i] + [sels[i]];
  }

  // ---- the envelope against the host's files ----------------------------------------------

  predicate FileVerified(h: Host, dir: string, f: EnvelopeFile) {
    var p := HostPath(dir, f.filename);
    p in h.files && SameDigest(h, h.hash(h.files[p]), f.sha256) && |h.files[p]| == f.size
  }

  /** containerReverifyFiles. */
  method ReverifyFiles(h: Host, env: Envelope, archivesDir: string) returns (ok: bool)
    ensures ok <==> forall i :: 0 <= i < |env.files| ==> FileVerified(h, archivesDir, env.files[i])
  {
    for i := 0 to |env.files|
      invariant forall k :: 0 <= k < i ==> FileVerified(h, archivesDir, env.files[k])
    {
      var f := env.files[i];
      var p := HostPath(archivesDir, f.filename);
      if p !in h.files || !SameDigest(h, h.hash(h.files[p]), f.sha256) || |h.files[p]| != f.size {
        return false;
      }
    }
    return true;
  }

  predicate ExternalVerified(h: Host, dir: string, s: Selection) {
    s.reason == REASON_EXTERNAL ==>
      && dir != ""
      && (s.filename != "" ==>
            && ValidFilename(s.filename) && HostPath(dir, s.filename) in h.files
            && (s.sha256 != "" ==> SameDigest(h, h.hash(h.files[HostPath(dir, s.filename)]), s.sha256))
            && (s.size != 0 ==> |h.files[HostPath(dir, s.filename)]| == s.size))
  }

  /** containerReverifyExternalFiles. */
  method ReverifyExternalFiles(h: Host, sels: seq<Selection>, dir: string) returns (ok: bool)
    ensures ok <==> forall i :: 0 <= i < |sels| ==> ExternalVerified(h, dir, sels[i])
  {
    if dir == "" {
      for i := 0 to |sels|
        invariant forall k :: 0 <= k < i ==> ExternalVerified(h, dir, sels[k])
      {
        if sels[i].reason == REASON_EXTERNAL {
          return false;
        }
      }
      return true;
    }
    for i := 0 to |sels|
      invariant forall k :: 0 <= k < i ==> ExternalVerified(h, dir, sels[k])
    {
      var s := sels[i];
      if s.reason != REASON_EXTERNAL || s.filename == "" {
        continue;
      }
      if !ValidFilename(s.filename) {
        return false;
      }
      var p := HostPath(dir, s.filename);
      if p !in h.files || (s.sha256 != "" && !SameDigest(h, h.hash(h.files[p]), s.sha256)) {
        return false;
      }
      if s.size != 0 && |h.files[p]| != s.size {
        return false;
      }
    }
    return true;
  }

  // ---- staged paths ---------------------------------------------------------------------------

  function StagedDir(s: Selection, archivesDir: string, externalDir: string): string {
    if s.reason == REASON_EXTERNAL && externalDir != "" then externalDir else archivesDir
  }

  function Restaged(s: Selection, archivesDir: string, externalDir: string): Selection {
    if s.filename == "" then s
    else s.(stagedPath := Some(HostPath(StagedDir(s, archivesDir, externalDir), s.filename)))
  }

  /** containerRewriteStagedPaths, in place; it stops at a name it will not join. */
  method RewriteStagedPaths(sels: array<Selection>, archivesDir: string, externalDir: string) returns (ok: bool)
    modifies sels
    ensures ok <==> forall i :: 0 <= i < sels.Length ==> PassableName(old(sels[i]).filename)
    ensures ok ==> forall i :: 0 <= i < sels.Length ==> sels[i] == Restaged(old(sels[i]), archivesDir, externalDir)
  {
    for i := 0 to sels.Length
      invariant forall k :: 0 <= k < i ==> PassableName(old(sels[k]).filename)
      invariant forall k :: 0 <= k < i ==> sels[k] == Restaged(old(sels[k]), archivesDir, externalDir)
      invariant forall k :: i <= k < sels.Length ==> sels[k] == old(sels[k])
    {
      var s := sels[i];
      if s.filename == "" {
        continue;
      }
      if !ValidFilename(s.filename) {
        return false;
      }
      if s.reason == REASON_EXTERNAL && externalDir != "" {
        sels[i] := s.(stagedPath := Some(HostPath(externalDir, s.filename)));
        continue;
      }
      sels[i] := s.(stagedPath := Some(HostPath(archivesDir, s.filename)));
    }
    return true;
  }

  // ---- the four steps together ------------------------------------------------------------------

  /** Everything the four steps check. */
  ghost predicate AllChecksPass(h: Host, env: Envelope, requested: set<string>, archivesDir: string,
                                externalDir: string) {
    && NamesPass(env.files) && SelectionsAgree(h, env, requested) && FilesSelected(env)
    && (forall i :: 0 <= i < |env.files| ==> FileVerified(h, archivesDir, env.files[i]))
    && (forall i :: 0 <= i < |env.selections| ==> ExternalVerified(h, externalDir, env.selections[i]))
  }

  /** The order of checks in Resolve; `h` is the host after the volume was copied to it. */
  method Accept(h: Host, env: Envelope, requestedExternal: seq<string>, archivesVolume: string,
                archivesDir: string, externalDir: string) returns (plan: Option<seq<Selection>>)
    ensures var requested := set n | n in requestedExternal;
            plan.Some? <==> AllChecksPass(h, env, requested, archivesDir, externalDir)
    ensures plan.Some? ==>
      && |plan.value| == |env.selections|
      && forall i :: 0 <= i < |env.selections| ==>
           plan.value[i] == Restaged(env.selections[i], archivesDir, externalDir)
  {
    var refusal := CrossCheckEnvelope(h, env, requestedExternal, archivesVolume);
    if refusal.Some? {
      return None;
    }
    var ok := ReverifyFiles(h, env, archivesDir);
    if !ok {
      return None;
    }
    ok := ReverifyExternalFiles(h, env.selections, externalDir);
    if !ok {
      return None;
    }
    var sels := new Selection[|env.selections|](i requires 0 <= i < |env.selections| => env.selections[i]);
    ok := RewriteStagedPaths(sels, archivesDir, externalDir);
    if !ok {
      return None;
    }
    return Some(sels[..]);
  }

  lemma {:induction false} ByKeyIsListed(files: seq<EnvelopeFile>, key: string)
    ensures key in ByKey(files) <==> exists i :: 0 <= i < |files| && FileKey(files[i]) == key
    ensures key in ByKey(files) ==> ByKey(files)[key] in files && FileKey(ByKey(files)[key]) == key
    decreases |files|
  {
    if files == [] {
    } else {
      var front := files[..|files| - 1];
      ByKeyIsListed(front, key);
      assert forall i :: 0 <= i < |front| ==> front[i] == files[i];
      if exists i :: 0 <= i < |files| && FileKey(files[i]) == key {
        var i :| 0 <= i < |files| && FileKey(files[i]) == key;
        assert i < |front| ==> FileKey(front[i]) == key;
      }
      if exists i :: 0 <= i < |front| && FileKey(front[i]) == key {
        var i :| 0 <= i < |front| && FileKey(front[i]) == key;
        assert FileKey(files[i]) == key;
      }
    }
  }

  /** What acceptance means for one selection: an external one was asked for by the host; a
      staged path is a single plain component in the right directory, and the bytes there
      have the digest the selection claims.  A selection that is not external always has one. */
  predicate Sound(h: Host, requested: set<string>, archivesDir: string, externalDir: string, s: Selection) {
    && (s.reason == REASON_EXTERNAL ==> s.name in requested && externalDir != "")
    && (s.reason != REASON_EXTERNAL ==> s.filename != "")
    && (s.filename != "" ==>
          var dir := if s.reason == REASON_EXTERNAL then externalDir else archivesDir;
          var p := HostPath(dir, s.filename);
          && ValidFilename(s.filename) && Restaged(s, archivesDir, externalDir).stagedPath == Some(p)
          && p in h.files
          && (s.sha256 != "" ==> SameDigest(h, h.hash(h.files[p]), s.sha256)))
  }

  lemma {:induction false} AcceptedSelectionIsSound(h: Host, env: Envelope, requested: set<string>,
                                                    archivesDir: string, externalDir: string, i: nat)
    requires Sane(h) && AllChecksPass(h, env, requested, archivesDir, externalDir) && i < |env.selections|
    ensures Sound(h, requested, archivesDir, externalDir, env.selections[i])
  {
    var s := env.selections[i];
    assert SelectionAgrees(h, ByKey(env.files), requested, s) && ExternalVerified(h, externalDir, s);
    if s.reason != REASON_EXTERNAL {
      ByKeyIsListed(env.files, SelectionKey(s));
      var f := ByKey(env.files)[SelectionKey(s)];
      var k :| 0 <= k < |env.files| && env.files[k] == f;
      assert FileVerified(h, archivesDir, env.files[k]);
      assert HostPath(archivesDir, f.filename) in h.files;
    }
  }

  /** Whatever the envelope and the host's files: if all four steps succeed, the file list
      and the selections that are not external have the same keys, and every selection is sound. */
  lemma {:induction false} AcceptanceIsSound(h: Host, env: Envelope, requested: set<string>, archivesDir: string,
                                             externalDir: string)
    requires Sane(h) && AllChecksPass(h, env, requested, archivesDir, externalDir)
    ensures (set i | 0 <= i < |env.files| :: FileKey(env.files[i])) == SelectedKeys(env.selections)
    ensures forall i :: 0 <= i < |env.selections| ==> Sound(h, requested, archivesDir, externalDir, env.selections[i])
  {
    forall i | 0 <= i < |env.selections| ensures Sound(h, requested, archivesDir, externalDir, env.selections[i]) {
      AcceptedSelectionIsSound(h, env, requested, archivesDir, externalDir, i);
    }
    var keys := set i | 0 <= i < |env.files| :: FileKey(env.files[i]);
    forall key | key in SelectedKeys(env.selections) ensures key in keys {
      var s :| s in env.selections && s.reason != REASON_EXTERNAL && SelectionKey(s) == key;
      var i :| 0 <= i < |env.selections| && env.selections[i] == s;
      assert SelectionAgrees(h, ByKey(env.files), requested, env.selections[i]);
      ByKeyIsListed(env.files, key);
    }
  }

  // ---- the closed-world version check -----------------------------------------------------------

  datatype Mismatch =
    | WrongVersion(key: string, locked: string, selected: string)
    | OtherInstalled(key: string, locked: string, present: string)
    | Absent(key: string, locked: string)

  /** `m` is a divergence from the lock that the check must report. */
  predicate Diverges(want: map<string, string>, sels: seq<Selection>, installed: map<string, string>, m: Mismatch) {
    && m.key in want && m.locked == want[m.key]
    && match m
       case WrongVersion(key, locked, selected) =>
         && selected != locked
         && exists i :: 0 <= i < |sels| && SelectionKey(sels[i]) == key && sels[i].version == selected
       case OtherInstalled(key, locked, present) =>
         (forall i :: 0 <= i < |sels| ==> SelectionKey(sels[i]) != key)
         && key in installed && installed[key] == present && present != locked
       case Absent(key, locked) =>
         (forall i :: 0 <= i < |sels| ==> SelectionKey(sels[i]) != key) && key !in installed
  }

  /** The order of the report: by the text of each mismatch. */
  function ByText(text: Mismatch -> string): (Mismatch, Mismatch) -> bool {
    (a, b) => Sorting.StringLe(text(a), text(b))
  }

  lemma {:induction false} SortByText(text: Mismatch -> string, list: seq<Mismatch>)
    ensures var s := Sorting.Sort(ByText(text), list);
            && Sorting.Sorted(ByText(text), s) && multiset(s) == multiset(list)
            && forall m :: m in s <==> m in list
  {
    Sorting.StringOrder();
    assert Sorting.Ordering(ByText(text));
    Sorting.SortIsSorted(ByText(text), list);
    Sorting.SortIsPermutation(ByText(text), list);
  }

  /** What upgradeMismatches finds, selection by selection. */
  function WrongVersions(want: map<string, string>, sels: seq<Selection>): seq<Mismatch> {
    if sels == [] then []
    else
      var before, s := WrongVersions(want, sels[..|sels| - 1]), sels[|sels| - 1];
      var key := SelectionKey(s);
      if key !in want || s.version == want[key] then before
      else before + [WrongVersion(key, want[key], s.version)]
  }

  lemma {:induction false} WrongVersionsAre(want: map<string, string>, sels: seq<Selection>)
    ensures forall m :: m in WrongVersions(want, sels) <==>
      m.WrongVersion? && m.key in want && m.locked == want[m.key] && m.selected != m.locked
      && exists i :: 0 <= i < |sels| && SelectionKey(sels[i]) == m.key && sels[i].version == m.selected
    decreases |sels|
  {
    if sels == [] {
    } else {
      WrongVersionsAre(want, sels[..|sels| - 1]);
    }
  }

  /** upgradeMismatches over the plan's selections, once for each; `text` is how a mismatch is
      worded. */
  method UpgradeMismatches(text: Mismatch -> string, want: map<string, string>, sels: seq<Selection>)
      returns (list: seq<Mismatch>)
    ensures Sorting.Sorted(ByText(text), list)
    ensures multiset(list) == multiset(WrongVersions(want, sels))
    ensures forall m :: m in list <==>
      m.WrongVersion? && m.key in want && m.locked == want[m.key] && m.selected != m.locked
      && exists i :: 0 <= i < |sels| && SelectionKey(sels[i]) == m.key && sels[i].version == m.selected
  {
    list := [];
    for i := 0 to |sels|
      invariant list == WrongVersions(want, sels[..i])
    {
      assert sels[..i + 1][..i] == sels[..i];
      var key := SelectionKey(sels[i]);
      if key !in want || sels[i].version == want[key] {
        continue;
      }
      list := list + [WrongVersion(key, want[key], sels[i].version)];
    }
    assert sels[..|sels|] == sels;
    WrongVersionsAre(want, sels);
    SortByText(text, list);
    list := Sorting.Sort(ByText(text), list);
  }

  /** How often a divergence is listed. */
  function TimesReported(want: map<string, string>, sels: seq<Selection>, installed: map<string, string>,
                         m: Mismatch): nat {
    if m.WrongVersion? then multiset(WrongVersions(want, sels))[m]
    else if Diverges(want, sels, installed, m) then 1
    else 0
  }

  /** containerVersionMismatches: each wrong selection once, and each other divergence once. */
  method VersionMismatches(text: Mismatch -> string, want: map<string, string>, sels: seq<Selection>,
                           installed: map<string, string>)
      returns (list: seq<Mismatch>)
    ensures Sorting.Sorted(ByText(text), list)
    ensures forall m :: m in list <==> Diverges(want, sels, installed, m)
    ensures forall m :: multiset(list)[m] == TimesReported(want, sels, installed, m)
  {
    var wrong := UpgradeMismatches(text, want, sels);
    var touched: set<string> := {};
    for i := 0 to |sels|
      invariant touched == set k | 0 <= k < i :: SelectionKey(sels[k])
    {
      touched := touched + {SelectionKey(sels[i])};
    }
    var rest := UntouchedMismatches(want, touched, installed);
    Merged(want, sels, installed, touched, wrong, rest);
    SortByText(text, wrong + rest);
    list := Sorting.Sort(ByText(text), wrong + rest);
  }

  /** What a key that no selection touches is reported for. */
  predicate Untouched(want: map<string, string>, touched: set<string>, installed: map<string, string>, m: Mismatch) {
    && !m.WrongVersion? && m.key in want && m.locked == want[m.key] && m.key !in touched
    && (m.OtherInstalled? ==> m.key in installed && installed[m.key] == m.present && m.present != m.locked)
    && (m.Absent? ==> m.key !in installed)
  }

  lemma {:induction false} Merged(want: map<string, string>, sels: seq<Selection>, installed: map<string, string>,
                                  touched: set<string>, wrong: seq<Mismatch>, rest: seq<Mismatch>)
    requires multiset(wrong) == multiset(WrongVersions(want, sels)) && Sorting.Distinct(rest)
    requires touched == set k | 0 <= k < |sels| :: SelectionKey(sels[k])
    requires forall m :: m in rest <==> Untouched(want, touched, installed, m)
    ensures forall m :: m in wrong + rest <==> Diverges(want, sels, installed, m)
    ensures forall m :: multiset(wrong + rest)[m] == TimesReported(want, sels, installed, m)
  {
    WrongVersionsAre(want, sels);
    Sorting.SameElements(wrong, WrongVersions(want, sels));
    forall m ensures m in rest <==> !m.WrongVersion? && Diverges(want, sels, installed, m) {
    }
    forall m ensures multiset(wrong + rest)[m] == TimesReported(want, sels, installed, m) {
      CountOfDistinct(rest, m);
      assert multiset(wrong + rest)[m] == multiset(wrong)[m] + multiset(rest)[m];
      assert m !in wrong ==> multiset(wrong)[m] == 0;
    }
  }

  lemma {:induction false} CountOfDistinct<T>(s: seq<T>, x: T)
    requires Sorting.Distinct(s)
    ensures multiset(s)[x] == if x in s then 1 else 0
    decreases |s|
  {
    if s == [] {
    } else {
      CountOfDistinct(s[..|s| - 1], x);
      assert s == s[..|s| - 1] + [s[|s| - 1]];
    }
  }

  method UntouchedMismatches(want: map<string, string>, touched: set<string>, installed: map<string, string>)
      returns (list: seq<Mismatch>)
    ensures Sorting.Distinct(list)
    ensures forall m :: m in list <==> Untouched(want, touched, installed, m)
  {
    list := [];
    var keys := want.Keys;
    while keys != {}
      invariant keys <= want.Keys
      invariant Sorting.Distinct(list)
      invariant forall m :: m in list <==> Untouched(want, touched, installed, m) && m.key !in keys
      decreases keys
    {
      var key :| key in keys;
      keys := keys - {key};
      if key in touched {
        continue;
      }
      if key in installed && installed[key] == want[key] {
        continue;
      }
      if key in installed {
        list := list + [OtherInstalled(key, want[key], installed[key])];
      } else {
        list := list + [Absent(key, want[key])];
      }
    }
  }

  /** The lock's version of `key` is what the target ends up with: every selection of it
      carries it, or there is none and it is already installed. */
  predicate Honoured(want: map<string, string>, sels: seq<Selection>, installed: map<string, string>, key: string)
    requires key in want
  {
    || ((exists i :: 0 <= i < |sels| && SelectionKey(sels[i]) == key)
        && forall i :: 0 <= i < |sels| && SelectionKey(sels[i]) == key ==> sels[i].version == want[key])
    || ((forall i :: 0 <= i < |sels| ==> SelectionKey(sels[i]) != key)
        && key in installed && installed[key] == want[key])
  }

  /** Nothing is reported exactly when the lock is honoured on every key. */
  lemma {:induction false} NoMismatchMeansHonoured(want: map<string, string>, sels: seq<Selection>,
                                                   installed: map<string, string>)
    ensures (forall m :: !Diverges(want, sels, installed, m)) <==>
            (forall key :: key in want ==> Honoured(want, sels, installed, key))
  {
    forall key | key in want && !Honoured(want, sels, installed, key)
      ensures exists m :: Diverges(want, sels, installed, m)
    {
      if exists i :: 0 <= i < |sels| && SelectionKey(sels[i]) == key && sels[i].version != want[key] {
        var i :| 0 <= i < |sels| && SelectionKey(sels[i]) == key && sels[i].version != want[key];
        assert Diverges(want, sels, installed, WrongVersion(key, want[key], sels[i].version));
      } else if key in installed {
        assert Diverges(want, sels, installed, OtherInstalled(key, want[key], installed[key]));
      } else {
        assert Diverges(want, sels, installed, Absent(key, want[key]));
      }
    }
    forall m | Diverges(want, sels, installed, m) ensures !Honoured(want, sels, installed, m.key) {
    }
  }

  /** The versions installed once the selections are applied, later ones overriding. */
  function Applied(installed: map<string, string>, sels: seq<Selection>): map<string, string> {
    if sels == [] then installed
    else Applied(installed, sels[..|sels| - 1])[SelectionKey(sels[|sels| - 1]) := sels[|sels| - 1].version]
  }

  lemma {:induction false} AppliedVersion(installed: map<string, string>, sels: seq<Selection>, key: string,
                                          version: string)
    requires forall i :: 0 <= i < |sels| && SelectionKey(sels[i]) == key ==> sels[i].version == version
    requires
      || (exists i :: 0 <= i < |sels| && SelectionKey(sels[i]) == key)
      || (key in installed && installed[key] == version)
    ensures key in Applied(installed, sels) && Applied(installed, sels)[key] == version
    decreases |sels|
  {
    if sels != [] && SelectionKey(sels[|sels| - 1]) != key {
      var front := sels[..|sels| - 1];
      assert forall i :: 0 <= i < |front| ==> front[i] == sels[i];
      if exists i :: 0 <= i < |sels| && SelectionKey(sels[i]) == key {
        var i :| 0 <= i < |sels| && SelectionKey(sels[i]) == key;
        assert SelectionKey(front[i]) == key;
      }
      AppliedVersion(installed, front, key, version);
    }
  }

  /** So with nothing reported, the target after the plan agrees with the lock on every key. */
  lemma {:induction false} NoMismatchMeansLocked(want: map<string, string>, sels: seq<Selection>,
                                                 installed: map<string, string>)
    requires forall m :: !Diverges(want, sels, installed, m)
    ensures forall key :: key in want ==> key in Applied(installed, sels) && Applied(installed, sels)[key] == want[key]
  {
    NoMismatchMeansHonoured(want, sels, installed);
    forall key | key in want ensures key in Applied(installed, sels) && Applied(installed, sels)[key] == want[key] {
      assert Honoured(want, sels, installed, key);
      AppliedVersion(installed, sels, key, want[key]);
    }
  }
}
