/** The apt.conf allow-list filter (core/apt/aptconf.go:237-692).

    Key segments are compared by strings.EqualFold, which is an equivalence; it is
    modelled by an arbitrary `fold` from strings to representatives, two strings
    being equal when their representatives are. */
module AptConfFilter {
  import opened Wrappers
  import opened Seqs
  import opened AptConfSyntax

  type Path = seq<string>

  datatype Rules = Rules(fold: string -> string, allowProxy: bool)

  /** Why an entry was withheld; one constructor per message of the source. */
  datatype Reason =
    | IncludeDirective
    | ClearDirective
    | DirOverride
    | CommandHook
    | VerificationOverride
    | DpkgTools
    | GpgvOptions
    | ProxySetting
    | SolverNotScalar
    | SolverNamesPath
    | NotOnAllowList

  datatype Drop = Drop(file: string, key: string, reason: Reason)

  // ---- key paths ------------------------------------------------------------

  predicate SepAt(s: string, i: nat) {
    i + 1 < |s| && s[i] == ':' && s[i + 1] == ':'
  }

  /** Index of the first "::" at or after `i`, or |s|. */
  function FindSep(s: string, i: nat): (k: nat)
    requires i <= |s|
    ensures i <= k <= |s|
    ensures k < |s| ==> SepAt(s, k)
    ensures forall j :: i <= j < k ==> !SepAt(s, j)
    decreases |s| - i
  {
    if i == |s| || SepAt(s, i) then i else FindSep(s, i + 1)
  }

  /** strings.Split(s, "::"). */
  function Split(s: string): (parts: Path)
    ensures |parts| >= 1
    decreases |s|
  {
    var k := FindSep(s, 0);
    if k == |s| then [s] else [s[..k]] + Split(s[k + 2..])
  }

  /** strings.Join(path, "::"). */
  function Join(path: Path): string {
    if path == [] then "" else if |path| == 1 then path[0] else path[0] + "::" + Join(path[1..])
  }

  function TrimSep(key: string): string {
    if |key| >= 2 && key[|key| - 2..] == "::" then key[..|key| - 2] else key
  }

  function SplitKeyPath(key: string): Path {
    if TrimSep(key) == "" then [] else Split(TrimSep(key))
  }

  /** Joining undoes splitting, so the key a drop reports is the path it was judged by. */
  lemma {:induction false} JoinOfSplit(s: string)
    ensures Join(Split(s)) == s
    decreases |s|
  {
    var k := FindSep(s, 0);
    if k < |s| {
      JoinOfSplit(s[k + 2..]);
      var rest := Split(s[k + 2..]);
      assert ([s[..k]] + rest)[1..] == rest;
      assert s == s[..k] + "::" + s[k + 2..];
    }
  }

  /** A key path joins back to its key, up to one "::" at the end, which marks a list. */
  lemma {:induction false} JoinOfKeyPath(key: string)
    ensures Join(SplitKeyPath(key)) == TrimSep(key)
    ensures key == TrimSep(key) || key == TrimSep(key) + "::"
  {
    JoinOfSplit(TrimSep(key));
    if |key| >= 2 && key[|key| - 2..] == "::" {
      assert key == key[..|key| - 2] + key[|key| - 2..];
    }
  }

  // ---- rules ------------------------------------------------------------------

  const HOOK_KEYS: seq<string> := [
    "Pre-Invoke", "Post-Invoke", "Post-Invoke-Success", "Post-Invoke-Stats",
    "Pre-Install-Pkgs", "Proxy-Auto-Detect", "ProxyAutoDetect"]

  const VERIFICATION_KEYS: seq<string> := [
    "AllowUnauthenticated", "AllowInsecureRepositories", "AllowDowngradeToInsecureRepositories",
    "AllowWeakRepositories", "Check-Valid-Until", "Check-Date", "Verify-Peer", "Verify-Host"]

  datatype Entry = Entry(path: Path, subtree: bool)

  const ALLOW_LIST: seq<Entry> := [
    Entry(["APT", "Install-Recommends"], false),
    Entry(["APT", "Install-Suggests"], false),
    Entry(["APT", "Default-Release"], false),
    Entry(["APT", "Architecture"], false),
    Entry(["APT", "Architectures"], false),
    Entry(["APT", "Solver"], true),
    Entry(["APT", "Machine-ID"], false),
    Entry(["APT", "Get", "Never-Include-Phased-Updates"], false),
    Entry(["APT", "Get", "Always-Include-Phased-Updates"], false),
    Entry(["Acquire", "Languages"], false)]

  predicate Same(r: Rules, a: string, b: string) {
    r.fold(a) == r.fold(b)
  }

  predicate HasPrefix(r: Rules, path: Path, prefix: Path) {
    |prefix| <= |path| && forall i :: 0 <= i < |prefix| ==> Same(r, path[i], prefix[i])
  }

  predicate ContainsSegment(r: Rules, path: Path, segment: string) {
    exists i :: 0 <= i < |path| && Same(r, path[i], segment)
  }

  predicate OneOf(r: Rules, segment: string, table: seq<string>) {
    exists i :: 0 <= i < |table| && Same(r, segment, table[i])
  }

  predicate Scoped(r: Rules, path: Path) {
    path != [] && Same(r, path[0], "Binary")
  }

  /** stripBinaryScope. */
  function Unscope(r: Rules, path: Path): Path {
    if !Scoped(r, path) then path else if |path| >= 2 then path[2..] else []
  }

  datatype Class = Unknown | Allowed | Container

  /** The loop of classifyConfKey over the allow-list, from entry `i` on. */
  function ClassifyFrom(r: Rules, p: Path, i: nat): Class
    requires p != [] && i <= |ALLOW_LIST|
    decreases |ALLOW_LIST| - i
  {
    if i == |ALLOW_LIST| then
      if r.allowProxy && Same(r, p[0], "Acquire") then
        if ContainsSegment(r, p[1..], "Proxy") then Allowed else Container
      else Unknown
    else
      var e := ALLOW_LIST[i];
      if HasPrefix(r, p, e.path) && (e.subtree || |p| == |e.path|) then Allowed
      else if HasPrefix(r, e.path, p) then Container
      else ClassifyFrom(r, p, i + 1)
  }

  function Classify(r: Rules, path: Path): Class {
    var p := Unscope(r, path);
    if p == [] then if Scoped(r, path) then Container else Unknown
    else ClassifyFrom(r, p, 0)
  }

  predicate NamesPath(value: string) {
    '/' in value || '\\' in value
  }

  predicate IsSolver(r: Rules, p: Path) {
    |p| == 2 && Same(r, p[0], "APT") && Same(r, p[1], "Solver")
  }

  function UnsafeSolverValue(r: Rules, p: Path, it: Item): Option<Reason> {
    if !IsSolver(r, p) then None
    else if !it.Assign? then Some(SolverNotScalar)
    else if NamesPath(it.value) then Some(SolverNamesPath)
    else None
  }

  /** The named dangerous families, judged on the unscoped path. */
  function DenyReason(r: Rules, p: Path): Option<Reason> {
    if p == [] then None
    else
      var last := p[|p| - 1];
      if Same(r, p[0], "Dir") then Some(DirOverride)
      else if OneOf(r, last, HOOK_KEYS) then Some(CommandHook)
      else if OneOf(r, last, VERIFICATION_KEYS) then Some(VerificationOverride)
      else if |p| >= 2 && Same(r, p[0], "DPkg") && Same(r, p[1], "Tools") then Some(DpkgTools)
      else if |p| >= 3 && Same(r, p[0], "Acquire") && Same(r, p[1], "gpgv") && Same(r, last, "Options") then
        Some(GpgvOptions)
      else if !r.allowProxy && Same(r, p[0], "Acquire") && ContainsSegment(r, p[1..], "Proxy") then
        Some(ProxySetting)
      else None
  }

  /** dropConfReason: None means the entry may enter the private root. */
  function DropReason(r: Rules, path: Path, it: Item): Option<Reason> {
    if path == [] then None
    else
      var p := Unscope(r, path);
      if DenyReason(r, p).Some? then DenyReason(r, p)
      else
        match Classify(r, path)
        case Allowed => UnsafeSolverValue(r, p, it)
        case Container => if it.Block? then None else Some(NotOnAllowList)
        case Unknown => Some(NotOnAllowList)
  }

  // ---- directives -------------------------------------------------------------

  predicate IsSpace(c: char) {
    c == ' ' || '\t' <= c <= '\r'
  }

  /** strings.Fields(s)[0], or "" when there is no field. */
  function FirstField(s: string): string {
    if s == "" then ""
    else if IsSpace(s[0]) then FirstField(s[1..])
    else LeadingField(s)
  }

  function LeadingField(s: string): string {
    if s == "" || IsSpace(s[0]) then "" else [s[0]] + LeadingField(s[1..])
  }

  /** classifyDirective: the drop to report, if this line is worth one. */
  function ReportDirective(r: Rules, file: string, text: string): seq<Drop> {
    var field := FirstField(text);
    if field == "" then []
    else if Same(r, field, "#include") then [Drop(file, "#include", IncludeDirective)]
    else if Same(r, field, "#clear") then [Drop(file, "#clear", ClearDirective)]
    else []
  }

  // ---- filter -----------------------------------------------------------------

  datatype Filtered = Filtered(kept: seq<Item>, dropped: seq<Drop>)

  function FilterItem(r: Rules, file: string, it: Item, path: Path): Filtered
    decreases it
  {
    if it.DirectiveLine? then Filtered([], ReportDirective(r, file, it.text))
    else if it.Bare? then Filtered([it], [])
    else
      var newPath := path + SplitKeyPath(it.key);
      var drop := DropReason(r, newPath, it);
      if drop.Some? then Filtered([], [Drop(file, Join(newPath), drop.value)])
      else if it.Block? then
        var inner := FilterItems(r, file, it.body, newPath);
        if it.body != [] && inner.kept == [] then Filtered([], inner.dropped)
        else Filtered([Block(it.key, inner.kept)], inner.dropped)
      else Filtered([it], [])
  }

  function FilterItems(r: Rules, file: string, items: seq<Item>, path: Path): Filtered
    decreases items
  {
    if items == [] then Filtered([], [])
    else
      var head := FilterItem(r, file, items[0], path);
      var tail := FilterItems(r, file, items[1..], path);
      Filtered(head.kept + tail.kept, head.dropped + tail.dropped)
  }

  /** filterAptConfItems: `log` is the list behind the source's `dropped` pointer. */
  method Filter(r: Rules, file: string, items: seq<Item>, path: Path, log: seq<Drop>)
      returns (out: seq<Item>, dropped: seq<Drop>)
    ensures out == FilterItems(r, file, items, path).kept
    ensures dropped == log + FilterItems(r, file, items, path).dropped
    decreases items
  {
    out, dropped := [], log;
    ghost var whole := FilterItems(r, file, items, path);
    for i := 0 to |items|
      invariant whole.kept == out + FilterItems(r, file, items[i..], path).kept
      invariant log + whole.dropped == dropped + FilterItems(r, file, items[i..], path).dropped
    {
      ghost var head := FilterItem(r, file, items[i], path);
      ghost var tail := FilterItems(r, file, items[i + 1..], path);
      assert items[i..][1..] == items[i + 1..];
      Assoc(out, head.kept, tail.kept);
      Assoc(dropped, head.dropped, tail.dropped);
      var kept;
      kept, dropped := FilterOne(r, file, items[i], path, dropped);
      out := out + kept;
    }
  }

  /** One turn of the loop. */
  method FilterOne(r: Rules, file: string, it: Item, path: Path, log: seq<Drop>)
      returns (kept: seq<Item>, dropped: seq<Drop>)
    ensures kept == FilterItem(r, file, it, path).kept
    ensures dropped == log + FilterItem(r, file, it, path).dropped
    decreases it
  {
    kept, dropped := [], log;
    if it.DirectiveLine? {
      // Never kept; reported when it is one of the two that apt knows.
      dropped := dropped + ReportDirective(r, file, it.text);
      return;
    }
    if it.Bare? {
      kept := [it]; // the enclosing block has been judged
      return;
    }
    var newPath := path + SplitKeyPath(it.key);
    var drop := DropReason(r, newPath, it);
    if drop.Some? {
      dropped := dropped + [Drop(file, Join(newPath), drop.value)];
      return;
    }
    if it.Block? {
      var body;
      body, dropped := Filter(r, file, it.body, newPath, dropped);
      if |it.body| > 0 && |body| == 0 {
        return; // nothing is left of the block
      }
      kept := [Block(it.key, body)];
      return;
    }
    kept := [it];
  }
}
