/** What the import answers, entry by entry and for a whole archive, in terms of the archive
    (core/bundle/tar.go:340-500). */
module BundleVerdict {
  import opened Wrappers
  import opened EntryPath
  import opened BundleTar
  import opened BundleTarTheorems
  import opened BundleRoundTrip
  import opened BundleCollisions

  // ---- the loop, read from its end ---------------------------------------------------

  /** The state after the first `n` entries, if the import gets that far. */
  function Ran(lim: Limits, names: Names, fs: FileSystem, archive: seq<Entry>, n: nat): (s: Step)
    requires n <= |archive|
    ensures s.Continue? ==> s.state.remaining >= 0
  {
    if n == 0 then Continue(Begin(lim, fs))
    else
      var s := Ran(lim, names, fs, archive, n - 1);
      if s.Stop? then s
      else
        EntryKeepsBudget(lim, names, s.state, archive[n - 1]);
        ImportEntry(lim, names, s.state, archive[n - 1])
  }

  lemma {:induction false} FromNext(lim: Limits, names: Names, st: State, archive: seq<Entry>, m: nat, n: nat, s: Step)
    requires n == m + 1 <= |archive| && st.remaining >= 0 && s == ImportEntry(lim, names, st, archive[m])
    ensures s.Continue? ==> s.state.remaining >= 0
    ensures ImportFrom(lim, names, st, archive, m) == if s.Stop? then s else ImportFrom(lim, names, s.state, archive, n)
  {
    EntryKeepsBudget(lim, names, st, archive[m]);
  }

  lemma {:induction false} RanIsImport(lim: Limits, names: Names, fs: FileSystem, archive: seq<Entry>, n: nat)
    requires n <= |archive|
    ensures var s := Ran(lim, names, fs, archive, n);
            Import(lim, names, fs, archive) == if s.Stop? then s else ImportFrom(lim, names, s.state, archive, n)
    decreases n
  {
    if n == 0 {
    } else {
      RanIsImport(lim, names, fs, archive, n - 1);
      var before := Ran(lim, names, fs, archive, n - 1);
      if before.Continue? {
        FromNext(lim, names, before.state, archive, n - 1, n, Ran(lim, names, fs, archive, n));
      }
    }
  }

  lemma {:induction false} ImportIsRan(lim: Limits, names: Names, fs: FileSystem, archive: seq<Entry>)
    ensures Import(lim, names, fs, archive) == Ran(lim, names, fs, archive, |archive|)
  {
    RanIsImport(lim, names, fs, archive, |archive|);
  }

  /** The counters after `n` entries, in terms of those entries. */
  ghost predicate Counted(lim: Limits, names: Names, archive: seq<Entry>, n: nat, st: State)
    requires n <= |archive|
  {
    && st.entries == n && st.remaining == lim.totalSize - Total(archive, n) >= 0
    && (forall key :: key in st.seen <==> exists j :: 0 <= j < n && KeyOf(names, archive[j]) == key)
    && (forall j :: 0 <= j < n ==> Accepted(lim, names, archive[j]))
  }

  lemma {:induction false} SeenNext(names: Names, archive: seq<Entry>, n: nat, was: set<string>, now: set<string>)
    requires n < |archive| && now == was + {KeyOf(names, archive[n])}
    requires forall key :: key in was <==> exists j :: 0 <= j < n && KeyOf(names, archive[j]) == key
    ensures forall key :: key in now <==> exists j :: 0 <= j < n + 1 && KeyOf(names, archive[j]) == key
  {
    forall key ensures key in now <==> exists j :: 0 <= j < n + 1 && KeyOf(names, archive[j]) == key {
      if key in was {
        var j :| 0 <= j < n && KeyOf(names, archive[j]) == key;
      }
      if j :| 0 <= j < n + 1 && KeyOf(names, archive[j]) == key {
        assert j < n ==> key in was;
      }
    }
  }

  lemma {:induction false} CountedNext(lim: Limits, names: Names, archive: seq<Entry>, n: nat, st: State, s: Step)
    requires n < |archive| && Counted(lim, names, archive, n, st) && s == ImportEntry(lim, names, st, archive[n])
    requires s.Continue?
    ensures Counted(lim, names, archive, n + 1, s.state)
  {
    ImportEntryAccounts(lim, names, st, archive[n], s);
    TotalNext(archive, n);
    SeenNext(names, archive, n, st.seen, s.state.seen);
  }

  lemma {:induction false} RanIsCounted(lim: Limits, names: Names, fs: FileSystem, archive: seq<Entry>, n: nat)
    requires n <= |archive| && Ran(lim, names, fs, archive, n).Continue?
    ensures Counted(lim, names, archive, n, Ran(lim, names, fs, archive, n).state)
    decreases n
  {
    if n == 0 {
    } else {
      RanIsCounted(lim, names, fs, archive, n - 1);
      var st := Ran(lim, names, fs, archive, n - 1).state;
      CountedNext(lim, names, archive, n - 1, st, Ran(lim, names, fs, archive, n));
    }
  }

  // ---- the verdict on the next entry ---------------------------------------------------

  /** An earlier entry has the key of entry `n`. */
  predicate Collides(names: Names, archive: seq<Entry>, n: nat)
    requires n < |archive|
  {
    exists j :: 0 <= j < n && KeyOf(names, archive[j]) == KeyOf(names, archive[n])
  }

  /** What is said of entry `n`, all earlier ones having been accepted and `fs` being the tree
      they left: None to go on. */
  function Verdict(lim: Limits, names: Names, archive: seq<Entry>, n: nat, fs: FileSystem): Option<Error>
    requires n < |archive|
  {
    var e, spent := archive[n], Total(archive, n);
    if e.BadHeader? then Some(ReadFailed)
    else if n >= lim.entries then Some(TooManyEntries)
    else if names.safe(e.name).Err? then Some(BadName(names.safe(e.name).error))
    else if Collides(names, archive, n) then Some(DuplicateEntry)
    else if e.kind.Link? then Some(LinkEntry)
    else if e.kind.Other? then Some(UnsupportedType)
    else if e.kind.Dir? then if CanMakeDir(fs, PathOf(names, e)) then None else Some(DiskFailed)
    else if PathOf(names, e) == [] || !CanWrite(fs, PathOf(names, e)) then Some(DiskFailed)
    else if spent + |e.data| > lim.totalSize && lim.totalSize - spent < lim.entrySize then Some(ArchiveTooLarge)
    else if |e.data| > lim.entrySize then Some(EntryTooLarge)
    else if e.truncated then Some(DiskFailed)
    else None
  }

  lemma {:induction false} EntryVerdict(lim: Limits, names: Names, archive: seq<Entry>, n: nat, st: State, s: Step)
    requires n < |archive| && Counted(lim, names, archive, n, st) && s == ImportEntry(lim, names, st, archive[n])
    ensures Verdict(lim, names, archive, n, st.fs) == if s.Stop? then Some(s.error) else None
  {
    assert Named(names, archive[n]) ==> (KeyOf(names, archive[n]) in st.seen <==> Collides(names, archive, n));
  }

  /** After `n` accepted entries the import answers for the next one exactly this, and goes on
      exactly where there is nothing to say. */
  lemma {:induction false} NextVerdict(lim: Limits, names: Names, fs: FileSystem, archive: seq<Entry>, n: nat)
    requires n < |archive| && Ran(lim, names, fs, archive, n).Continue?
    ensures var before, after := Ran(lim, names, fs, archive, n).state.fs, Ran(lim, names, fs, archive, n + 1);
            Verdict(lim, names, archive, n, before) == if after.Stop? then Some(after.error) else None
  {
    RanIsCounted(lim, names, fs, archive, n);
    var st := Ran(lim, names, fs, archive, n).state;
    EntryVerdict(lim, names, archive, n, st, Ran(lim, names, fs, archive, n + 1));
  }

  /** The accepted names of two entries are one file. */
  ghost predicate Duplicate(lower: string -> string, archive: seq<Entry>, j: nat, k: nat)
    requires j < |archive| && k < |archive|
  {
    && archive[j].Entry? && archive[k].Entry?
    && SafeRelPath(archive[j].name).Ok? && SafeRelPath(archive[k].name).Ok?
    && SameFile(lower, SafeRelPath(archive[j].name).value, SafeRelPath(archive[k].name).value)
  }

  lemma {:induction false} KeysAre(lower: string -> string, d: Entry, e: Entry)
    requires KeepsSlashless(lower) && d.Entry? && e.Entry?
    requires SafeRelPath(d.name).Ok? && SafeRelPath(e.name).Ok?
    ensures KeyOf(TarNames(lower), d) == KeyOf(TarNames(lower), e) <==>
            SameFile(lower, SafeRelPath(d.name).value, SafeRelPath(e.name).value)
  {
    KeysCollideExactly(lower, SafeRelPath(d.name).value, SafeRelPath(e.name).value);
  }

  lemma {:induction false} CollidesIs(lim: Limits, lower: string -> string, archive: seq<Entry>, n: nat)
    requires KeepsSlashless(lower) && n < |archive| && archive[n].Entry? && SafeRelPath(archive[n].name).Ok?
    requires forall j :: 0 <= j < n ==> Accepted(lim, TarNames(lower), archive[j])
    ensures Collides(TarNames(lower), archive, n) <==> exists j :: 0 <= j < n && Duplicate(lower, archive, j, n)
  {
    var names := TarNames(lower);
    forall j | 0 <= j < n
      ensures Duplicate(lower, archive, j, n) <==> KeyOf(names, archive[j]) == KeyOf(names, archive[n])
    {
      assert Accepted(lim, names, archive[j]);
      KeysAre(lower, archive[j], archive[n]);
    }
  }

  lemma {:induction false} VerdictDuplicate(lim: Limits, names: Names, archive: seq<Entry>, n: nat, fs: FileSystem)
    requires n < |archive|
    ensures Verdict(lim, names, archive, n, fs) == Some(DuplicateEntry) <==>
            archive[n].Entry? && n < lim.entries && names.safe(archive[n].name).Ok? && Collides(names, archive, n)
  {
  }

  /** With the program's own key: entry `n` is refused as a duplicate if and only if it is within
      the count, its name is accepted, and an earlier entry is the same file. */
  lemma {:induction false} DuplicatesExactly(lim: Limits, lower: string -> string, fs: FileSystem, archive: seq<Entry>,
                                             n: nat, after: Step)
    requires KeepsSlashless(lower) && n < |archive| && Ran(lim, TarNames(lower), fs, archive, n).Continue?
    requires after == Ran(lim, TarNames(lower), fs, archive, n + 1)
    ensures after.Stop? && after.error == DuplicateEntry <==>
            && archive[n].Entry? && n < lim.entries && SafeRelPath(archive[n].name).Ok?
            && exists j :: 0 <= j < n && Duplicate(lower, archive, j, n)
  {
    var names := TarNames(lower);
    NextVerdict(lim, names, fs, archive, n);
    VerdictDuplicate(lim, names, archive, n, Ran(lim, names, fs, archive, n).state.fs);
    RanIsCounted(lim, names, fs, archive, n);
    if archive[n].Entry? && SafeRelPath(archive[n].name).Ok? {
      CollidesIs(lim, lower, archive, n);
    }
  }
}
