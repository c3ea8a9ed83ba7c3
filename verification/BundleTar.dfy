/** Exporting a bundle directory as an archive and importing one from untrusted media
    (core/bundle/tar.go:25-77, 128-162, 197-500).

    tar and zstd are a faithful sequence of entries: a header, the bytes delivered for it,
    and whether reading broke off.  Limits and letter folding are parameters.  The file
    system is a map from component paths to files, and a set of directories. */
module BundleTar {
  import opened Wrappers
  import opened Sorting
  import opened EntryPath

  type Path = seq<string>

  datatype File = File(bytes: string, exec: bool)

  datatype FileSystem = FileSystem(files: map<Path, File>, dirs: set<Path>)

  datatype Kind = Dir | Regular | Link | Other

  /** One archive entry as the reader delivers it. */
  datatype Entry =
    | Entry(name: string, kind: Kind, exec: bool, data: string, truncated: bool)
    | BadHeader

  /** How names are judged: the relative path a name is accepted as, and the key under which
      two accepted paths count as one file. */
  datatype Names = Names(safe: string -> Result<string>, key: string -> string)

  /** The program's own: safeRelPath and collisionKey, over a letter folding. */
  function TarNames(lower: string -> string): Names {
    Names(SafeRelPath, rel => CollisionKey(lower, rel))
  }

  /** The three ceilings. */
  datatype Limits = Limits(entrySize: nat, entries: nat, totalSize: nat)

  datatype Error =
    | ReadFailed | TooManyEntries | BadName(reason: NameError) | DuplicateEntry
    | EntryTooLarge | ArchiveTooLarge | LinkEntry | UnsupportedType | DiskFailed

  // ---- the file system ------------------------------------------------------------------

  /** Every directory on the way to `path`, itself included. */
  function Prefixes(path: Path): set<Path> {
    set k | 0 <= k <= |path| :: path[..k]
  }

  function Parent(path: Path): Path
    requires path != []
  {
    path[..|path| - 1]
  }

  /** os.MkdirAll: fails where a file stands in the way. */
  predicate CanMakeDir(fs: FileSystem, path: Path) {
    forall p :: p in Prefixes(path) ==> p !in fs.files
  }

  function MakeDir(fs: FileSystem, path: Path): FileSystem {
    fs.(dirs := fs.dirs + Prefixes(path))
  }

  /** A regular file can be written at `path`. */
  predicate CanWrite(fs: FileSystem, path: Path)
    requires path != []
  {
    CanMakeDir(fs, Parent(path)) && path !in fs.dirs && path !in Prefixes(Parent(path))
  }

  /** Opening truncates; only a newly created file takes the archive's mode. */
  function WriteFile(fs: FileSystem, path: Path, bytes: string, exec: bool): FileSystem
    requires path != []
  {
    var made := MakeDir(fs, Parent(path));
    made.(files := made.files[path := File(bytes, if path in fs.files then fs.files[path].exec else exec)])
  }

  // ---- import ----------------------------------------------------------------------------

  /** What the loop carries: the tree so far, its two running counters, and the keys seen. */
  datatype State = State(fs: FileSystem, entries: nat, remaining: int, seen: set<string>)

  datatype Step = Continue(state: State) | Stop(error: Error, state: State)

  function Smaller(a: int, b: int): int {
    if a < b then a else b
  }

  /** extractRegularFile against the smaller allowance: at most one byte past it is written. */
  function Extract(lim: Limits, st: State, path: Path, e: Entry): Step
    requires e.Entry? && path != [] && st.remaining >= 0
  {
    if !CanWrite(st.fs, path) then Stop(DiskFailed, st)
    else
      var allow := Smaller(lim.entrySize, st.remaining);
      var n := Smaller(|e.data|, allow + 1);
      var next := st.(fs := WriteFile(st.fs, path, e.data[..n], e.exec), remaining := st.remaining - n);
      if |e.data| > allow then Stop(if st.remaining < lim.entrySize then ArchiveTooLarge else EntryTooLarge, next)
      else if e.truncated then Stop(DiskFailed, next)
      else Continue(next)
  }

  /** One turn of importTar's loop. */
  function ImportEntry(lim: Limits, names: Names, st: State, e: Entry): Step
    requires st.remaining >= 0
  {
    if e.BadHeader? then Stop(ReadFailed, st)
    else
      var st := st.(entries := st.entries + 1);
      if st.entries > lim.entries then Stop(TooManyEntries, st)
      else
        var rel := names.safe(e.name);
        if rel.Err? then Stop(BadName(rel.error), st)
        else
          var key := names.key(rel.value);
          if key in st.seen then Stop(DuplicateEntry, st)
          else
            var st := st.(seen := st.seen + {key});
            var path := Split(rel.value);
            match e.kind
            case Dir =>
              if CanMakeDir(st.fs, path) then Continue(st.(fs := MakeDir(st.fs, path))) else Stop(DiskFailed, st)
            case Regular => Extract(lim, st, path, e)
            case Link => Stop(LinkEntry, st)
            case Other => Stop(UnsupportedType, st)
  }

  lemma {:induction false} EntryKeepsBudget(lim: Limits, names: Names, st: State, e: Entry)
    requires st.remaining >= 0
    ensures var s := ImportEntry(lim, names, st, e);
            (s.Continue? ==> s.state.remaining >= 0) && s.state.remaining >= -1
  {
  }

  function ImportFrom(lim: Limits, names: Names, st: State, archive: seq<Entry>, i: nat): Step
    requires i <= |archive| && st.remaining >= 0
    decreases |archive| - i
  {
    if i == |archive| then Continue(st)
    else
      EntryKeepsBudget(lim, names, st, archive[i]);
      var s := ImportEntry(lim, names, st, archive[i]);
      if s.Stop? then s else ImportFrom(lim, names, s.state, archive, i + 1)
  }

  function Begin(lim: Limits, fs: FileSystem): State {
    State(fs, 0, lim.totalSize, {})
  }

  function Import(lim: Limits, names: Names, fs: FileSystem, archive: seq<Entry>): Step {
    ImportFrom(lim, names, Begin(lim, fs), archive, 0)
  }

  // ---- what reaches the disk -----------------------------------------------------------------

  /** An entry that may leave something behind: its name is accepted. */
  predicate Named(names: Names, e: Entry) {
    e.Entry? && names.safe(e.name).Ok?
  }

  /** Where an entry lands; [] for one whose name is refused. */
  function PathOf(names: Names, e: Entry): Path {
    if Named(names, e) then Split(names.safe(e.name).value) else []
  }

  function KeyOf(names: Names, e: Entry): string {
    if Named(names, e) then names.key(names.safe(e.name).value) else ""
  }

  /** The size of the listed files. */
  function SizeOf(files: map<Path, File>, paths: seq<Path>): nat
    requires forall p :: p in paths ==> p in files
  {
    if paths == [] then 0 else SizeOf(files, paths[..|paths| - 1]) + |files[paths[|paths| - 1]].bytes|
  }

  lemma {:induction false} SizeWithout(files: map<Path, File>, paths: seq<Path>, i: nat)
    requires i < |paths| && forall p :: p in paths ==> p in files
    ensures SizeOf(files, paths) == SizeOf(files, paths[..i] + paths[i + 1..]) + |files[paths[i]].bytes|
    decreases |paths|
  {
    var front := paths[..|paths| - 1];
    if i == |paths| - 1 {
      assert paths[..i] + paths[i + 1..] == front;
    } else {
      SizeWithout(files, front, i);
      var rest := paths[..i] + paths[i + 1..];
      assert rest[..|rest| - 1] == front[..i] + front[i + 1..];
    }
  }

  lemma {:induction false} SameSize(files: map<Path, File>, other: map<Path, File>, paths: seq<Path>)
    requires forall p :: p in paths ==> p in files && p in other && files[p] == other[p]
    ensures SizeOf(files, paths) == SizeOf(other, paths)
    decreases |paths|
  {
    if paths == [] {
    } else {
      SameSize(files, other, paths[..|paths| - 1]);
    }
  }

  /** The file at `p` is not what it was. */
  predicate Changed(fs: FileSystem, now: FileSystem, p: Path) {
    p in now.files && !(p in fs.files && fs.files[p] == now.files[p])
  }

  /** Different files, all of them new or changed since `fs`. */
  ghost predicate AllChanged(fs: FileSystem, now: FileSystem, paths: seq<Path>) {
    Distinct(paths) && forall p :: p in paths ==> Changed(fs, now, p)
  }

  /** Together, the files that changed since `fs` hold no more bytes than `spent`. */
  ghost predicate Charged(fs: FileSystem, now: FileSystem, spent: int) {
    forall paths {:trigger AllChanged(fs, now, paths)} ::
      AllChanged(fs, now, paths) ==> SizeOf(now.files, paths) <= spent
  }

  lemma {:induction false} ChargedFor(fs: FileSystem, was: FileSystem, now: FileSystem, spent: int,
                                      path: Path, file: File, paths: seq<Path>)
    requires Charged(fs, was, spent) && now.files == was.files[path := file] && AllChanged(fs, now, paths)
    ensures SizeOf(now.files, paths) <= spent + |file.bytes|
  {
    var rest := paths;
    if path in paths {
      var i :| 0 <= i < |paths| && paths[i] == path;
      rest := paths[..i] + paths[i + 1..];
      SizeWithout(now.files, paths, i);
    }
    assert forall p :: p in rest ==> p in paths && p != path;
    forall p | p in rest ensures Changed(fs, was, p) {
      assert Changed(fs, now, p);
    }
    assert AllChanged(fs, was, rest);
    SameSize(now.files, was.files, rest);
  }

  lemma {:induction false} ChargedNext(fs: FileSystem, was: FileSystem, now: FileSystem, spent: int,
                                       path: Path, file: File)
    requires Charged(fs, was, spent) && now.files == was.files[path := file]
    ensures Charged(fs, now, spent + |file.bytes|)
  {
    forall paths | AllChanged(fs, now, paths) ensures SizeOf(now.files, paths) <= spent + |file.bytes| {
      ChargedFor(fs, was, now, spent, path, file, paths);
    }
  }

  /** The entry gets as far as opening its file. */
  predicate Wrote(lim: Limits, names: Names, st: State, e: Entry) {
    && Named(names, e) && e.kind.Regular? && st.entries < lim.entries && KeyOf(names, e) !in st.seen
    && PathOf(names, e) != [] && CanWrite(st.fs, PathOf(names, e))
  }

  /** What one entry can do to the disk, whether or not the import goes on: write a beginning
      of its bytes, which is what the budget is charged; else make its directory, or nothing. */
  lemma {:induction false} EntryEffect(lim: Limits, names: Names, st: State, e: Entry, s: Step, n: int)
    requires st.remaining >= 0 && s == ImportEntry(lim, names, st, e) && n == st.remaining - s.state.remaining
    ensures Wrote(lim, names, st, e) ==>
      && 0 <= n <= |e.data| && n <= lim.entrySize + 1 && KeyOf(names, e) in s.state.seen
      && s.state.fs == WriteFile(st.fs, PathOf(names, e), e.data[..n], e.exec)
    ensures !Wrote(lim, names, st, e) ==>
      && n == 0
      && (s.state.fs == st.fs || (Named(names, e) && e.kind.Dir? && CanMakeDir(st.fs, PathOf(names, e))
                                  && s.state.fs == MakeDir(st.fs, PathOf(names, e))))
    ensures st.seen <= s.state.seen
  {
  }

  lemma {:induction false} NothingIsCharged(fs: FileSystem)
    ensures Charged(fs, fs, 0)
  {
    forall paths | AllChanged(fs, fs, paths) ensures SizeOf(fs.files, paths) <= 0 {
      assert paths != [] ==> Changed(fs, fs, paths[0]);
    }
  }

  lemma {:induction false} EntryIsCharged(lim: Limits, names: Names, fs: FileSystem, st: State, e: Entry, s: Step)
    requires st.remaining >= 0 && s == ImportEntry(lim, names, st, e)
    requires Charged(fs, st.fs, lim.totalSize - st.remaining)
    ensures Charged(fs, s.state.fs, lim.totalSize - s.state.remaining)
  {
    var n := st.remaining - s.state.remaining;
    EntryEffect(lim, names, st, e, s, n);
    if Wrote(lim, names, st, e) {
      ChargedNext(fs, st.fs, s.state.fs, lim.totalSize - st.remaining, PathOf(names, e),
                  s.state.fs.files[PathOf(names, e)]);
    } else {
      forall paths | AllChanged(fs, s.state.fs, paths)
        ensures SizeOf(s.state.fs.files, paths) <= lim.totalSize - s.state.remaining
      {
        assert AllChanged(fs, st.fs, paths);
      }
    }
  }

  /** The directory being imported into. */
  class Target {
    var fs: FileSystem

    constructor (fs: FileSystem)
      ensures this.fs == fs
    {
      this.fs := fs;
    }

    /** importTar.  The second and third postconditions hold of failing runs too: whichever
        files are new or changed afterwards hold at most `written` bytes together. */
    method ImportTar(lim: Limits, names: Names, archive: seq<Entry>) returns (outcome: Step, written: nat)
      modifies this
      ensures outcome == Import(lim, names, old(fs), archive) && fs == outcome.state.fs
      ensures written == lim.totalSize - outcome.state.remaining && written <= lim.totalSize + 1
      ensures Charged(old(fs), fs, written)
    {
      var st := Begin(lim, fs);
      NothingIsCharged(fs);
      for i := 0 to |archive|
        invariant st.fs == fs && 0 <= st.remaining <= lim.totalSize
        invariant Import(lim, names, old(fs), archive) == ImportFrom(lim, names, st, archive, i)
        invariant Charged(old(fs), st.fs, lim.totalSize - st.remaining)
      {
        EntryKeepsBudget(lim, names, st, archive[i]);
        var step := ImportOne(lim, names, st, archive[i]);
        EntryIsCharged(lim, names, old(fs), st, archive[i], step);
        if step.Stop? {
          return step, lim.totalSize - step.state.remaining;
        }
        st := step.state;
      }
      return Continue(st), lim.totalSize - st.remaining;
    }

    /** One turn of the loop; the counters live in `st`, the tree on disk. */
    method ImportOne(lim: Limits, names: Names, st: State, e: Entry) returns (step: Step)
      requires st.fs == fs && 0 <= st.remaining
      modifies this
      ensures step == ImportEntry(lim, names, st, e) && fs == step.state.fs
      ensures step.state.remaining <= st.remaining
    {
      if e.BadHeader? {
        return Stop(ReadFailed, st);
      }
      var entries := st.entries + 1;
      var st1 := st.(entries := entries);
      if entries > lim.entries {
        return Stop(TooManyEntries, st1);
      }
      var rel := names.safe(e.name);
      if rel.Err? {
        return Stop(BadName(rel.error), st1);
      }
      var key := names.key(rel.value);
      if key in st1.seen {
        return Stop(DuplicateEntry, st1);
      }
      var st2 := st1.(seen := st1.seen + {key});
      var path := Split(rel.value);
      match e.kind {
        case Dir =>
          if !CanMakeDir(fs, path) {
            return Stop(DiskFailed, st2);
          }
          fs := MakeDir(fs, path);
          return Continue(st2.(fs := fs));
        case Regular =>
          var failed, n := ExtractRegularFile(lim, st2, path, e);
          var st3 := st2.(fs := fs, remaining := st2.remaining - n);
          return if failed.Some? then Stop(failed.value, st3) else Continue(st3);
        case Link =>
          return Stop(LinkEntry, st2);
        case Other =>
          return Stop(UnsupportedType, st2);
      }
    }

    /** extractRegularFile: how many bytes it wrote, and the error if there was one. */
    method ExtractRegularFile(lim: Limits, st: State, path: Path, e: Entry) returns (failed: Option<Error>, n: nat)
      requires e.Entry? && path != [] && st.remaining >= 0 && st.fs == fs
      modifies this
      ensures var next := st.(fs := fs, remaining := st.remaining - n);
              Extract(lim, st, path, e) == if failed.Some? then Stop(failed.value, next) else Continue(next)
    {
      if !CanWrite(fs, path) {
        return Some(DiskFailed), 0;
      }
      var allow, overTotal := lim.entrySize, false;
      if st.remaining < allow {
        allow, overTotal := st.remaining, true;
      }
      n := Smaller(|e.data|, allow + 1);
      fs := WriteFile(fs, path, e.data[..n], e.exec);
      if |e.data| > allow {
        return Some(if overTotal then ArchiveTooLarge else EntryTooLarge), n;
      }
      if e.truncated {
        return Some(DiskFailed), n;
      }
      failed := None;
    }
  }
}
