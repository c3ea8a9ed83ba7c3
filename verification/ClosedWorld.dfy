/** The lock against the offline plan and the captured status file
    (core/apt/closedworld.go:311-359, core/apt/container.go:1147-1259). */
module ClosedWorld {
  import opened Wrappers
  import Sorting
  import opened ContainerResult
  import ContainerAcceptance
  import DpkgStatus
  import DpkgStatusLines
  import Status = DpkgStatusTheorems

  /** A package of the lock. */
  datatype Locked = Locked(name: string, arch: string, version: string, reason: string)

  const REASON_UPGRADE := "upgrade"

  predicate IsUpgrade(p: Locked) {
    p.reason == REASON_UPGRADE
  }

  function Entry(p: Locked): string {
    Key(p.name, p.arch) + "=" + p.version
  }

  /** The entries to ask for, in the lock's order. */
  function Entries(ps: seq<Locked>): seq<string> {
    if ps == [] then []
    else
      var before, p := Entries(ps[..|ps| - 1]), ps[|ps| - 1];
      if IsUpgrade(p) then before + [Entry(p)] else before
  }

  /** What the lock wants of each key, the last package of a key winning. */
  function Targets(ps: seq<Locked>): map<string, string> {
    if ps == [] then map[]
    else
      var before, p := Targets(ps[..|ps| - 1]), ps[|ps| - 1];
      if IsUpgrade(p) then before[Key(p.name, p.arch) := p.version] else before
  }

  /** closedWorldUpgradeTargets, of a lock that has been read. */
  method UpgradeTargets(ps: seq<Locked>) returns (entries: seq<string>, want: map<string, string>)
    ensures want == Targets(ps)
    ensures Sorting.Sorted(Sorting.StringLe, entries) && multiset(entries) == multiset(Entries(ps))
  {
    entries, want := [], map[];
    for i := 0 to |ps|
      invariant want == Targets(ps[..i]) && entries == Entries(ps[..i])
    {
      var p := ps[i];
      assert ps[..i + 1][..i] == ps[..i];
      if p.reason != REASON_UPGRADE {
        continue;
      }
      want := want[Key(p.name, p.arch) := p.version];
      entries := entries + [Entry(p)];
    }
    assert ps[..|ps|] == ps;
    Sorting.StringOrder();
    Sorting.SortIsSorted(Sorting.StringLe, entries);
    Sorting.SortIsPermutation(Sorting.StringLe, entries);
    entries := Sorting.Sort(Sorting.StringLe, entries);
  }

  lemma {:induction false} EntriesAre(ps: seq<Locked>, e: string)
    ensures e in Entries(ps) <==> exists p :: p in ps && IsUpgrade(p) && e == p.name + ":" + p.arch + "=" + p.version
    decreases |ps|
  {
    if ps == [] {
    } else {
      var before, last := ps[..|ps| - 1], ps[|ps| - 1];
      EntriesAre(before, e);
      assert ps == before + [last];
      assert Entry(last) == last.name + ":" + last.arch + "=" + last.version;
      assert forall p :: p in ps <==> p in before || p == last;
    }
  }

  // ---- one package --------------------------------------------------------------------------

  /** The selection is of the locked package. */
  predicate Selects(s: Selection, p: Locked) {
    s.name == p.name && s.arch == p.arch
  }

  /** The status file says that exactly the locked version is installed. */
  predicate Holds(r: DpkgStatus.Record, p: Locked) {
    Status.Present(r) && r.name == p.name && r.arch == p.arch && DpkgStatus.Trim(r.version) == p.version
  }

  /** The locked package ends up at its version: every selection of it carries that version, or
      none is there and the status file has it already. */
  predicate EndsLocked(p: Locked, sels: seq<Selection>, rs: seq<DpkgStatus.Record>) {
    if exists s :: s in sels && Selects(s, p) then forall s :: s in sels && Selects(s, p) ==> s.version == p.version
    else exists r :: r in rs && Holds(r, p)
  }

  /** No name has a colon. */
  ghost predicate PlainNames(ps: seq<Locked>, sels: seq<Selection>, rs: seq<DpkgStatus.Record>) {
    && (forall p :: p in ps ==> ':' !in p.name)
    && (forall s :: s in sels ==> ':' !in s.name)
    && (forall r :: r in rs ==> ':' !in r.name)
  }

  /** The lock has one version, and the status file one stanza, for a name and architecture. */
  ghost predicate OneOfEach(ps: seq<Locked>, rs: seq<DpkgStatus.Record>) {
    && (forall p, q :: p in ps && q in ps && IsUpgrade(p) && IsUpgrade(q) && p.name == q.name && p.arch == q.arch ==>
          p.version == q.version)
    && (forall r, q :: r in rs && q in rs && r.name == q.name && r.arch == q.arch ==> r == q)
  }

  lemma {:induction false} KeysDecide(s: Selection, p: Locked)
    requires ':' !in s.name && ':' !in p.name
    ensures SelectionKey(s) == Key(p.name, p.arch) <==> Selects(s, p)
  {
    if SelectionKey(s) == Key(p.name, p.arch) {
      ContainerAcceptance.KeysAreApart(s.name, s.arch, p.name, p.arch);
    }
  }

  lemma {:induction false} NamesDecide(r: DpkgStatus.Record, n: string, a: string)
    requires ':' !in r.name && ':' !in n
    ensures Status.NameArch(r) == Key(n, a) <==> r.name == n && r.arch == a
  {
    assert Status.NameArch(r) == Key(r.name, r.arch);
    if Status.NameArch(r) == Key(n, a) {
      ContainerAcceptance.KeysAreApart(r.name, r.arch, n, a);
    }
  }

  lemma {:induction false} SelectionsDecide(p: Locked, sels: seq<Selection>)
    requires ':' !in p.name && forall s :: s in sels ==> ':' !in s.name
    ensures (exists i :: 0 <= i < |sels| && SelectionKey(sels[i]) == Key(p.name, p.arch)) <==>
            (exists s :: s in sels && Selects(s, p))
    ensures (forall i :: 0 <= i < |sels| && SelectionKey(sels[i]) == Key(p.name, p.arch) ==>
               sels[i].version == p.version) <==>
            (forall s :: s in sels && Selects(s, p) ==> s.version == p.version)
  {
    forall i | 0 <= i < |sels| ensures SelectionKey(sels[i]) == Key(p.name, p.arch) <==> Selects(sels[i], p) {
      KeysDecide(sels[i], p);
    }
    forall s | s in sels ensures exists i :: 0 <= i < |sels| && sels[i] == s {
    }
  }

  /** What the status file says of a name and architecture is what the reader makes of it. */
  lemma {:induction false} InstalledDecides(p: Locked, rs: seq<DpkgStatus.Record>, installed: map<string, string>)
    requires ':' !in p.name && forall r :: r in rs ==> ':' !in r.name
    requires forall r, q :: r in rs && q in rs && r.name == q.name && r.arch == q.arch ==> r == q
    requires forall key :: key in installed <==> Status.VersionKey(rs, key)
    requires forall r ::
      r in rs && Status.Present(r) && (forall q :: q in rs && Status.NameArch(q) == Status.NameArch(r) ==> q == r) ==>
      Status.NameArch(r) in installed && installed[Status.NameArch(r)] == DpkgStatus.Trim(r.version)
    ensures var key := Key(p.name, p.arch);
            key in installed && installed[key] == p.version <==> exists r :: r in rs && Holds(r, p)
  {
    var key := Key(p.name, p.arch);
    forall r | r in rs ensures Status.NameArch(r) == key <==> r.name == p.name && r.arch == p.arch {
      NamesDecide(r, p.name, p.arch);
    }
    forall r | r in rs && Status.Present(r) && Status.NameArch(r) == key
      ensures key in installed && installed[key] == DpkgStatus.Trim(r.version)
    {
      assert forall q :: q in rs && Status.NameArch(q) == key ==> q == r;
    }
    if key in installed && installed[key] == p.version {
      var r :| r in rs && Status.Present(r) && Status.NameArch(r) == key;
      assert Holds(r, p);
    }
  }

  // ---- the lock -------------------------------------------------------------------------------

  predicate Wanted(ps: seq<Locked>, key: string) {
    exists p :: p in ps && IsUpgrade(p) && Key(p.name, p.arch) == key
  }

  lemma {:induction false} WantedNext(ps: seq<Locked>, before: seq<Locked>, p: Locked, key: string)
    requires ps == before + [p]
    ensures Wanted(ps, key) <==> Wanted(before, key) || (IsUpgrade(p) && Key(p.name, p.arch) == key)
  {
    assert p in ps;
    assert forall q :: q in before ==> q in ps;
  }

  lemma {:induction false} TargetsAre(ps: seq<Locked>, key: string)
    ensures key in Targets(ps) <==> Wanted(ps, key)
    decreases |ps|
  {
    if ps == [] {
    } else {
      TargetsAre(ps[..|ps| - 1], key);
      WantedNext(ps, ps[..|ps| - 1], ps[|ps| - 1], key);
    }
  }

  lemma {:induction false} TargetIs(ps: seq<Locked>, p: Locked)
    requires p in ps && IsUpgrade(p)
    requires forall q :: q in ps && IsUpgrade(q) && Key(q.name, q.arch) == Key(p.name, p.arch) ==>
      q.version == p.version
    ensures Key(p.name, p.arch) in Targets(ps) && Targets(ps)[Key(p.name, p.arch)] == p.version
    decreases |ps|
  {
    var before, last := ps[..|ps| - 1], ps[|ps| - 1];
    assert ps == before + [last];
    if !(IsUpgrade(last) && Key(last.name, last.arch) == Key(p.name, p.arch)) {
      TargetIs(before, p);
    }
  }

  lemma {:induction false} LockedVersionIs(ps: seq<Locked>, p: Locked)
    requires p in ps && IsUpgrade(p) && forall q :: q in ps ==> ':' !in q.name
    requires forall q :: q in ps && IsUpgrade(q) && q.name == p.name && q.arch == p.arch ==> q.version == p.version
    ensures Key(p.name, p.arch) in Targets(ps) && Targets(ps)[Key(p.name, p.arch)] == p.version
  {
    forall q | q in ps && IsUpgrade(q) && Key(q.name, q.arch) == Key(p.name, p.arch) ensures q.version == p.version {
      ContainerAcceptance.KeysAreApart(q.name, q.arch, p.name, p.arch);
    }
    TargetIs(ps, p);
  }

  lemma {:induction false} PackageHonoured(ps: seq<Locked>, sels: seq<Selection>, rs: seq<DpkgStatus.Record>,
                                           installed: map<string, string>, p: Locked)
    requires PlainNames(ps, sels, rs) && OneOfEach(ps, rs) && Status.AllClean(rs)
    requires installed == DpkgStatus.Versions(DpkgStatus.ResolverStanzas(DpkgStatus.Joined(DpkgStatus.AllLines(rs))))
    requires p in ps && IsUpgrade(p)
    ensures Key(p.name, p.arch) in Targets(ps)
    ensures Honoured(Targets(ps), sels, installed, Key(p.name, p.arch)) <==> EndsLocked(p, sels, rs)
  {
    LockedVersionIs(ps, p);
    SelectionsDecide(p, sels);
    Status.ResolverReads(rs);
    InstalledDecides(p, rs, installed);
  }

  ghost predicate AllHonoured(want: map<string, string>, sels: seq<Selection>, installed: map<string, string>) {
    forall key :: key in want ==> Honoured(want, sels, installed, key)
  }

  predicate AllEndLocked(ps: seq<Locked>, sels: seq<Selection>, rs: seq<DpkgStatus.Record>) {
    forall p :: p in ps && IsUpgrade(p) ==> EndsLocked(p, sels, rs)
  }

  lemma {:induction false} NothingReported(want: map<string, string>, sels: seq<Selection>,
                                           installed: map<string, string>)
    ensures (forall m :: !Diverges(want, sels, installed, m)) <==> AllHonoured(want, sels, installed)
  {
    NoMismatchMeansHonoured(want, sels, installed);
  }

  lemma {:induction false} HonouredEnds(ps: seq<Locked>, sels: seq<Selection>, rs: seq<DpkgStatus.Record>,
                                        installed: map<string, string>)
    requires PlainNames(ps, sels, rs) && OneOfEach(ps, rs) && Status.AllClean(rs)
    requires installed == DpkgStatus.Versions(DpkgStatus.ResolverStanzas(DpkgStatus.Joined(DpkgStatus.AllLines(rs))))
    requires AllHonoured(Targets(ps), sels, installed)
    ensures AllEndLocked(ps, sels, rs)
  {
    forall p | p in ps && IsUpgrade(p) ensures EndsLocked(p, sels, rs) {
      PackageHonoured(ps, sels, rs, installed, p);
    }
  }

  lemma {:induction false} EndsHonoured(ps: seq<Locked>, sels: seq<Selection>, rs: seq<DpkgStatus.Record>,
                                        installed: map<string, string>)
    requires PlainNames(ps, sels, rs) && OneOfEach(ps, rs) && Status.AllClean(rs)
    requires installed == DpkgStatus.Versions(DpkgStatus.ResolverStanzas(DpkgStatus.Joined(DpkgStatus.AllLines(rs))))
    requires AllEndLocked(ps, sels, rs)
    ensures AllHonoured(Targets(ps), sels, installed)
  {
    forall key | key in Targets(ps) ensures Honoured(Targets(ps), sels, installed, key) {
      TargetsAre(ps, key);
      var p :| p in ps && IsUpgrade(p) && Key(p.name, p.arch) == key;
      PackageHonoured(ps, sels, rs, installed, p);
    }
  }

  /** The verdict on a whole lock, from the lock, the plan and the text of the status file: no
      divergence is reported exactly when every upgrade of the lock ends up at its version. */
  lemma {:induction false} LockVerdict(ps: seq<Locked>, sels: seq<Selection>, rs: seq<DpkgStatus.Record>,
                                       want: map<string, string>, installed: map<string, string>)
    requires PlainNames(ps, sels, rs) && OneOfEach(ps, rs) && Status.AllClean(rs)
    requires want == Targets(ps)
    requires installed == DpkgStatus.Versions(DpkgStatus.ResolverStanzas(DpkgStatus.Joined(DpkgStatus.AllLines(rs))))
    ensures (forall m :: !Diverges(want, sels, installed, m)) <==> AllEndLocked(ps, sels, rs)
  {
    NothingReported(want, sels, installed);
    if AllHonoured(want, sels, installed) {
      HonouredEnds(ps, sels, rs, installed);
    }
    if AllEndLocked(ps, sels, rs) {
      EndsHonoured(ps, sels, rs, installed);
    }
  }
}
