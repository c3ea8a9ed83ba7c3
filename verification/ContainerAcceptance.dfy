/** Which envelopes the host accepts, field by field (core/apt/container_driver.go:772-929,
    1020-1149, core/apt/container.go:582-605). */
module ContainerAcceptance {
  import opened Wrappers
  import opened ContainerResult

  // ---- names ---------------------------------------------------------------------------

  /** An admissible filename is one plain path component. */
  lemma {:induction false} ValidIsOneComponent(s: string)
    requires ValidFilename(s)
    ensures s != "" && s != "." && s != ".." && |s| <= 255 && s[|s| - 4..] == ".deb"
    ensures forall i :: 0 <= i < |s| ==> s[i] != '/' && s[i] != '\\' && s[i] != ':' && s[i] != '\0' && s[i] != '\n'
  {
  }

  /** Keys of names without colons are equal only for equal name and architecture. */
  lemma {:induction false} KeysAreApart(n: string, a: string, m: string, b: string)
    requires ':' !in n && ':' !in m && Key(n, a) == Key(m, b)
    ensures n == m && a == b
  {
    var s := Key(n, a);
    ColonAt(n, a, |m|);
    ColonAt(m, b, |n|);
    assert s[|n|] == ':' && s[|m|] == ':';
    assert n == s[..|n|] && m == s[..|m|];
    assert a == s[|n| + 1..] && b == s[|m| + 1..];
  }

  lemma {:induction false} ColonAt(n: string, a: string, k: nat)
    requires ':' !in n && k < |Key(n, a)| && Key(n, a)[k] == ':'
    ensures |n| <= k
  {
    assert forall j :: 0 <= j < |n| ==> Key(n, a)[j] == n[j];
  }

  // ---- one selection and its file -------------------------------------------------------

  /** `files[k]` is the last of its key. */
  predicate LastOfKey(files: seq<EnvelopeFile>, k: nat) {
    && k < |files|
    && forall l :: k < l < |files| ==>
         files[l].name + ":" + files[l].arch != files[k].name + ":" + files[k].arch
  }

  lemma {:induction false} ByKeyIsLast(files: seq<EnvelopeFile>, k: nat)
    requires LastOfKey(files, k)
    ensures FileKey(files[k]) in ByKey(files) && ByKey(files)[FileKey(files[k])] == files[k]
    decreases |files|
  {
    var front := files[..|files| - 1];
    if k < |files| - 1 {
      assert LastOfKey(front, k);
      ByKeyIsLast(front, k);
      assert FileKey(files[|files| - 1]) != FileKey(files[k]);
    }
  }

  lemma {:induction false} FindLast(files: seq<EnvelopeFile>, key: string) returns (k: nat)
    requires key in ByKey(files)
    ensures LastOfKey(files, k) && FileKey(files[k]) == key
    decreases |files|
  {
    var n := |files| - 1;
    if FileKey(files[n]) == key {
      k := n;
    } else {
      k := FindLast(files[..n], key);
    }
  }

  /** The plan's selection and the file say the same: version, filename, and digest and size where
      both give one. */
  predicate SaySame(h: Host, s: Selection, f: EnvelopeFile) {
    && s.name + ":" + s.arch == f.name + ":" + f.arch
    && s.version == f.version && s.filename == f.filename
    && (s.sha256 == "" || f.sha256 == "" || h.fold(s.sha256) == h.fold(f.sha256))
    && (s.size == 0 || f.size == 0 || s.size == f.size)
  }

  /** A selection the plan may make: admissible in name, and either external and asked for by the
      host or in agreement with the last listed file of its key. */
  ghost predicate Backed(h: Host, env: Envelope, requested: set<string>, s: Selection) {
    && (s.filename == "" || ValidFilename(s.filename))
    && if s.reason == REASON_EXTERNAL then s.name in requested
       else exists k :: 0 <= k < |env.files| && LastOfKey(env.files, k) && SaySame(h, s, env.files[k])
  }

  lemma {:induction false} MatchingIs(h: Host, s: Selection, f: EnvelopeFile)
    ensures FileKey(f) == SelectionKey(s) && Matching(h, s, f) <==> SaySame(h, s, f)
  {
  }

  lemma {:induction false} AgreeingIsBacked(h: Host, env: Envelope, requested: set<string>, s: Selection)
    requires SelectionAgrees(h, ByKey(env.files), requested, s)
    ensures Backed(h, env, requested, s)
  {
    if s.reason != REASON_EXTERNAL {
      var k := FindLast(env.files, SelectionKey(s));
      ByKeyIsLast(env.files, k);
      MatchingIs(h, s, env.files[k]);
    }
  }

  lemma {:induction false} BackedAgrees(h: Host, env: Envelope, requested: set<string>, s: Selection)
    requires Backed(h, env, requested, s)
    ensures SelectionAgrees(h, ByKey(env.files), requested, s)
  {
    if s.reason != REASON_EXTERNAL {
      var k :| 0 <= k < |env.files| && LastOfKey(env.files, k) && SaySame(h, s, env.files[k]);
      ByKeyIsLast(env.files, k);
      MatchingIs(h, s, env.files[k]);
    }
  }

  // ---- the host's files ----------------------------------------------------------------------

  /** The file is in the directory with these bytes. */
  predicate Holds(h: Host, dir: string, filename: string, sha256: string, size: nat) {
    && HostPath(dir, filename) in h.files
    && h.fold(h.hash(h.files[HostPath(dir, filename)])) == h.fold(sha256)
    && |h.files[HostPath(dir, filename)]| == size
  }

  /** What is asked of an external selection's file: its digest and its size where it gives them. */
  predicate ExternalHolds(h: Host, dir: string, s: Selection) {
    && HostPath(dir, s.filename) in h.files
    && (s.sha256 == "" || h.fold(h.hash(h.files[HostPath(dir, s.filename)])) == h.fold(s.sha256))
    && (s.size == 0 || |h.files[HostPath(dir, s.filename)]| == s.size)
  }

  // ---- exactly ----------------------------------------------------------------------------------

  /** A listed file that the host takes: admissible in name, on the disk with its bytes, and
      selected. */
  ghost predicate FileStands(h: Host, env: Envelope, archivesDir: string, f: EnvelopeFile) {
    && (f.filename == "" || ValidFilename(f.filename))
    && Holds(h, archivesDir, f.filename, f.sha256, f.size)
    && exists j :: 0 <= j < |env.selections| && env.selections[j].reason != REASON_EXTERNAL
         && env.selections[j].name + ":" + env.selections[j].arch == f.name + ":" + f.arch
  }

  /** A selection that the host takes. */
  ghost predicate SelectionStands(h: Host, env: Envelope, requested: set<string>, externalDir: string,
                                         s: Selection) {
    && Backed(h, env, requested, s)
    && (s.reason == REASON_EXTERNAL ==> externalDir != "" && (s.filename == "" || ExternalHolds(h, externalDir, s)))
  }

  /** All that the host asks of an envelope, in terms of its fields and the host's files. */
  ghost predicate Acceptable(h: Host, env: Envelope, requested: set<string>, archivesDir: string, externalDir: string) {
    && (forall i :: 0 <= i < |env.files| ==> FileStands(h, env, archivesDir, env.files[i]))
    && (forall j :: 0 <= j < |env.selections| ==>
          SelectionStands(h, env, requested, externalDir, env.selections[j]))
  }

  lemma {:induction false} SelectedIs(env: Envelope, key: string)
    ensures key in SelectedKeys(env.selections) <==>
            exists j :: 0 <= j < |env.selections| && env.selections[j].reason != REASON_EXTERNAL
              && SelectionKey(env.selections[j]) == key
  {
    if key in SelectedKeys(env.selections) {
      var s :| s in env.selections && s.reason != REASON_EXTERNAL && SelectionKey(s) == key;
      var j :| 0 <= j < |env.selections| && env.selections[j] == s;
    }
  }

  lemma {:induction false} FileStandsIs(h: Host, env: Envelope, archivesDir: string, f: EnvelopeFile)
    ensures FileStands(h, env, archivesDir, f) <==>
            PassableName(f.filename) && FileVerified(h, archivesDir, f) && FileKey(f) in SelectedKeys(env.selections)
  {
    SelectedIs(env, FileKey(f));
  }

  lemma {:induction false} SelectionStandsIs(h: Host, env: Envelope, requested: set<string>, externalDir: string,
                                             s: Selection)
    ensures SelectionStands(h, env, requested, externalDir, s) <==>
            SelectionAgrees(h, ByKey(env.files), requested, s) && ExternalVerified(h, externalDir, s)
  {
    if SelectionAgrees(h, ByKey(env.files), requested, s) {
      AgreeingIsBacked(h, env, requested, s);
    }
    if Backed(h, env, requested, s) {
      BackedAgrees(h, env, requested, s);
    }
  }

  /** The four steps let an envelope through if and only if it is acceptable. */
  lemma {:induction false} AcceptsExactly(h: Host, env: Envelope, requested: set<string>, archivesDir: string,
                                          externalDir: string)
    ensures AllChecksPass(h, env, requested, archivesDir, externalDir) <==>
            Acceptable(h, env, requested, archivesDir, externalDir)
  {
    forall i | 0 <= i < |env.files|
      ensures FileStands(h, env, archivesDir, env.files[i]) <==>
              && PassableName(env.files[i].filename) && FileVerified(h, archivesDir, env.files[i])
              && FileKey(env.files[i]) in SelectedKeys(env.selections)
    {
      FileStandsIs(h, env, archivesDir, env.files[i]);
    }
    forall j | 0 <= j < |env.selections|
      ensures SelectionStands(h, env, requested, externalDir, env.selections[j]) <==>
              && SelectionAgrees(h, ByKey(env.files), requested, env.selections[j])
              && ExternalVerified(h, externalDir, env.selections[j])
    {
      SelectionStandsIs(h, env, requested, externalDir, env.selections[j]);
    }
  }

  /** In an accepted envelope each selection that is not external has a listed file of its key,
      version and filename, of equal size where both give one. */
  lemma {:induction false} AcceptedIsListed(h: Host, env: Envelope, requested: set<string>, archivesDir: string,
                                            externalDir: string, j: nat)
    requires AllChecksPass(h, env, requested, archivesDir, externalDir)
    requires j < |env.selections| && env.selections[j].reason != REASON_EXTERNAL
    ensures exists k :: 0 <= k < |env.files| && SaySame(h, env.selections[j], env.files[k])
  {
    AcceptsExactly(h, env, requested, archivesDir, externalDir);
    assert SelectionStands(h, env, requested, externalDir, env.selections[j]);
  }

  predicate Equal(s: Selection, f: EnvelopeFile) {
    && s.name == f.name && s.arch == f.arch && s.version == f.version && s.filename == f.filename
    && s.sha256 == f.sha256 && s.size == f.size
  }

  /** A file that some selection repeats in every field, and that the host has. */
  predicate Repeated(h: Host, env: Envelope, archivesDir: string, f: EnvelopeFile) {
    && ValidFilename(f.filename) && Holds(h, archivesDir, f.filename, f.sha256, f.size)
    && exists j :: 0 <= j < |env.selections| && env.selections[j].reason != REASON_EXTERNAL
         && Equal(env.selections[j], f)
  }

  /** A selection that repeats a listed file in every field, or is external, asked for and there. */
  predicate Repeats(h: Host, env: Envelope, requested: set<string>, externalDir: string, s: Selection) {
    && ValidFilename(s.filename)
    && if s.reason == REASON_EXTERNAL then s.name in requested && externalDir != "" && ExternalHolds(h, externalDir, s)
       else exists k :: 0 <= k < |env.files| && Equal(s, env.files[k])
  }

  predicate DistinctKeys(files: seq<EnvelopeFile>) {
    forall k, l :: 0 <= k < l < |files| ==> FileKey(files[k]) != FileKey(files[l])
  }

  lemma {:induction false} RepeatsStands(h: Host, env: Envelope, requested: set<string>, externalDir: string,
                                         s: Selection)
    requires DistinctKeys(env.files) && Repeats(h, env, requested, externalDir, s)
    ensures SelectionStands(h, env, requested, externalDir, s)
  {
    if s.reason != REASON_EXTERNAL {
      var k :| 0 <= k < |env.files| && Equal(s, env.files[k]);
      forall l | k < l < |env.files|
        ensures env.files[l].name + ":" + env.files[l].arch != env.files[k].name + ":" + env.files[k].arch
      {
        assert FileKey(env.files[k]) != FileKey(env.files[l]);
      }
      assert LastOfKey(env.files, k) && SaySame(h, s, env.files[k]);
    }
  }

  /** An envelope whose plan and file list agree in every field, over files the host has, is
      accepted. */
  lemma {:induction false} AgreementIsAccepted(h: Host, env: Envelope, requested: set<string>, archivesDir: string,
                                               externalDir: string)
    requires DistinctKeys(env.files)
    requires forall k :: 0 <= k < |env.files| ==> Repeated(h, env, archivesDir, env.files[k])
    requires forall j :: 0 <= j < |env.selections| ==> Repeats(h, env, requested, externalDir, env.selections[j])
    ensures AllChecksPass(h, env, requested, archivesDir, externalDir)
  {
    forall k | 0 <= k < |env.files| ensures FileStands(h, env, archivesDir, env.files[k]) {
      var f := env.files[k];
      assert Repeated(h, env, archivesDir, f);
      var j :| 0 <= j < |env.selections| && env.selections[j].reason != REASON_EXTERNAL && Equal(env.selections[j], f);
    }
    forall j | 0 <= j < |env.selections| ensures SelectionStands(h, env, requested, externalDir, env.selections[j]) {
      RepeatsStands(h, env, requested, externalDir, env.selections[j]);
    }
    AcceptsExactly(h, env, requested, archivesDir, externalDir);
  }
}
