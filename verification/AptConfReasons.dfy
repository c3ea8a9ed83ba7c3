/** The rules of the apt.conf filter spelled out: what its tests mean segment by segment, and
    what each reported reason says about the entry it is given for
    (core/apt/aptconf.go:325-337, 533-692). */
module AptConfReasons {
  import opened Wrappers
  import opened AptConfSyntax
  import opened AptConfFilter
  import opened AptConfTheorems
  import opened AptConfVerdict

  // ---- the rules in terms of segments --------------------------------------------------

  /** `path` without one leading Binary scope: the word Binary and the program it names. */
  predicate IsUnscoped(r: Rules, path: Path, p: Path) {
    if path != [] && r.fold(path[0]) == r.fold("Binary") then
      if |path| == 1 then p == [] else |p| == |path| - 2 && forall i :: 0 <= i < |p| ==> p[i] == path[i + 2]
    else p == path
  }

  lemma {:induction false} UnscopedIs(r: Rules, path: Path)
    ensures IsUnscoped(r, path, Unscope(r, path))
  {
  }

  /** A path is the entry's, segment by segment and without regard to case. */
  predicate SameSegments(r: Rules, p: Path, q: Path) {
    |p| == |q| && forall i :: 0 <= i < |p| ==> r.fold(p[i]) == r.fold(q[i])
  }

  predicate Listed(r: Rules, p: Path) {
    || (exists i :: 0 <= i < |ALLOW_LIST| && SameSegments(r, p, ALLOW_LIST[i].path))
    || (|p| >= 2 && r.fold(p[0]) == r.fold("APT") && r.fold(p[1]) == r.fold("Solver"))
    || (r.allowProxy && p != [] && r.fold(p[0]) == r.fold("Acquire")
        && exists i :: 1 <= i < |p| && r.fold(p[i]) == r.fold("Proxy"))
  }

  predicate LastIn(r: Rules, p: Path, table: seq<string>) {
    p != [] && exists i :: 0 <= i < |table| && r.fold(p[|p| - 1]) == r.fold(table[i])
  }

  predicate StartsWith(r: Rules, p: Path, first: string, second: string) {
    |p| >= 2 && r.fold(p[0]) == r.fold(first) && r.fold(p[1]) == r.fold(second)
  }

  predicate ProxyPath(r: Rules, p: Path) {
    p != [] && r.fold(p[0]) == r.fold("Acquire") && exists i :: 1 <= i < |p| && r.fold(p[i]) == r.fold("Proxy")
  }

  predicate Forbidden(r: Rules, p: Path) {
    || (p != [] && r.fold(p[0]) == r.fold("Dir"))
    || LastIn(r, p, HOOK_KEYS) || LastIn(r, p, VERIFICATION_KEYS)
    || StartsWith(r, p, "DPkg", "Tools")
    || (|p| >= 3 && StartsWith(r, p, "Acquire", "gpgv") && r.fold(p[|p| - 1]) == r.fold("Options"))
    || (!r.allowProxy && ProxyPath(r, p))
  }

  predicate HasSlash(value: string) {
    exists i :: 0 <= i < |value| && (value[i] == '/' || value[i] == '\\')
  }

  lemma {:induction false} ListedIs(r: Rules, p: Path)
    ensures Listed(r, p) <==> ExactEntry(r, p) || BeneathSolver(r, p) || OptedInProxy(r, p)
  {
    if p != [] {
      ProxySegmentIs(r, p);
    }
    forall i | 0 <= i < |ALLOW_LIST|
      ensures SameSegments(r, p, ALLOW_LIST[i].path) <==>
              |p| == |ALLOW_LIST[i].path| && HasPrefix(r, p, ALLOW_LIST[i].path)
    {
    }
  }

  lemma {:induction false} ProxySegmentIs(r: Rules, p: Path)
    requires p != []
    ensures ContainsSegment(r, p[1..], "Proxy") <==> exists i :: 1 <= i < |p| && r.fold(p[i]) == r.fold("Proxy")
  {
    if ContainsSegment(r, p[1..], "Proxy") {
      var i :| 0 <= i < |p[1..]| && Same(r, p[1..][i], "Proxy");
      assert r.fold(p[i + 1]) == r.fold("Proxy");
    }
    if i :| 1 <= i < |p| && r.fold(p[i]) == r.fold("Proxy") {
      assert Same(r, p[1..][i - 1], "Proxy");
    }
  }

  lemma {:induction false} ForbiddenIs(r: Rules, p: Path)
    ensures Forbidden(r, p) <==> Dangerous(r, p)
  {
    if p != [] {
      ProxySegmentIs(r, p);
      LastInIs(r, p, HOOK_KEYS);
      LastInIs(r, p, VERIFICATION_KEYS);
    }
  }

  lemma {:induction false} LastInIs(r: Rules, p: Path, table: seq<string>)
    requires p != []
    ensures LastIn(r, p, table) <==> OneOf(r, p[|p| - 1], table)
  {
  }

  /** What may survive, in terms of segments and bytes: the path without its scope is listed and
      not forbidden, and a solver's value names no path. */
  lemma {:induction false} AdmissibleMeans(r: Rules, path: Path, value: string)
    ensures var p := Unscope(r, path);
            Admissible(r, path, value) <==>
            && Listed(r, p) && !Forbidden(r, p)
            && (|p| == 2 && StartsWith(r, p, "APT", "Solver") ==> !HasSlash(value))
  {
    var p := Unscope(r, path);
    ListedIs(r, p);
    ForbiddenIs(r, p);
    SlashIs(value);
  }

  lemma {:induction false} SlashIs(value: string)
    ensures HasSlash(value) <==> NamesPath(value)
  {
  }

  // ---- what a reason says -------------------------------------------------------------

  /** What each reason says about the path without its scope and about the entry. */
  predicate Explains(r: Rules, p: Path, it: Item, reason: Reason) {
    match reason
    case DirOverride => p != [] && r.fold(p[0]) == r.fold("Dir")
    case CommandHook => LastIn(r, p, HOOK_KEYS)
    case VerificationOverride => LastIn(r, p, VERIFICATION_KEYS)
    case DpkgTools => StartsWith(r, p, "DPkg", "Tools")
    case GpgvOptions => |p| >= 3 && StartsWith(r, p, "Acquire", "gpgv") && r.fold(p[|p| - 1]) == r.fold("Options")
    case ProxySetting => !r.allowProxy && ProxyPath(r, p)
    case SolverNotScalar => |p| == 2 && StartsWith(r, p, "APT", "Solver") && !it.Assign?
    case SolverNamesPath => |p| == 2 && StartsWith(r, p, "APT", "Solver") && it.Assign? && HasSlash(it.value)
    case NotOnAllowList => !Forbidden(r, p) && (it.Block? || !Listed(r, p) || r.fold("APT") == r.fold("Acquire"))
    case IncludeDirective => false
    case ClearDirective => false
  }

  lemma {:induction false} DenyExplains(r: Rules, p: Path, it: Item)
    requires DenyReason(r, p).Some?
    ensures Explains(r, p, it, DenyReason(r, p).value)
  {
    ProxySegmentIs(r, p);
    LastInIs(r, p, HOOK_KEYS);
    LastInIs(r, p, VERIFICATION_KEYS);
  }

  lemma {:induction false} SolverExplains(r: Rules, p: Path, it: Item)
    requires UnsafeSolverValue(r, p, it).Some?
    ensures Explains(r, p, it, UnsafeSolverValue(r, p, it).value)
  {
    if it.Assign? {
      SlashIs(it.value);
    }
  }

  /** The reason reported for a dropped entry is true of it; one that a deny rule names is never
      reported as merely unlisted. */
  lemma {:induction false} ReasonsExplain(r: Rules, path: Path, it: Item, reason: Reason)
    requires DropReason(r, path, it) == Some(reason)
    ensures Explains(r, Unscope(r, path), it, reason)
  {
    var p := Unscope(r, path);
    if DenyReason(r, p).Some? {
      DenyExplains(r, p, it);
    } else if Classify(r, path) == Allowed {
      SolverExplains(r, p, it);
    } else {
      DangerousIsDenied(r, p);
      ForbiddenIs(r, p);
      if !it.Block? {
        UnlistedIs(r, path, p, it);
      }
    }
  }

  lemma {:induction false} UnlistedIs(r: Rules, path: Path, p: Path, it: Item)
    requires p == Unscope(r, path) && DropReason(r, path, it) == Some(NotOnAllowList) && !it.Block?
    ensures !Listed(r, p) || r.fold("APT") == r.fold("Acquire")
  {
    ListedIs(r, p);
    if Listed(r, p) && r.fold("APT") != r.fold("Acquire") {
      ListedIsAllowed(r, path, p);
    }
  }

  lemma {:induction false} ListedIsAllowed(r: Rules, path: Path, p: Path)
    requires p == Unscope(r, path) && Listed(r, p) && r.fold("APT") != r.fold("Acquire")
    ensures Classify(r, path) == Allowed
  {
    ListedIs(r, p);
    assert |p| >= 2 by {
      if OptedInProxy(r, p) {
        var k :| 0 <= k < |p[1..]| && Same(r, p[1..][k], "Proxy");
      }
    }
    AdmittedIsAllowed(r, p, 0);
  }

  // ---- a Binary scope ---------------------------------------------------------------------

  /** A setting scoped to one program is judged as the setting itself. */
  lemma {:induction false} ScopeIsTransparent(r: Rules, scope: string, program: string, p: Path, it: Item)
    requires r.fold(scope) == r.fold("Binary") && p != [] && r.fold(p[0]) != r.fold("Binary")
    ensures DropReason(r, [scope, program] + p, it) == DropReason(r, p, it)
  {
    assert ([scope, program] + p)[2..] == p;
  }

  /** The wrapper itself is carried as a block and as nothing else. */
  lemma {:induction false} ScopeAloneIsABlock(r: Rules, path: Path, it: Item)
    requires 1 <= |path| <= 2 && r.fold(path[0]) == r.fold("Binary")
    ensures DropReason(r, path, it) == if it.Block? then None else Some(NotOnAllowList)
  {
  }

  // ---- directives ---------------------------------------------------------------------------

  predicate White(c: char) {
    c == ' ' || c == '\t' || c == '\n' || c == '\r' || c as int == 11 || c as int == 12
  }

  lemma {:induction false} LeadingFieldIs(word: string, rest: string)
    requires (rest == "" || White(rest[0])) && forall j :: 0 <= j < |word| ==> !White(word[j])
    ensures LeadingField(word + rest) == word
  {
    if word == "" {
      assert word + rest == rest;
    } else {
      LeadingFieldIs(word[1..], rest);
      assert (word + rest)[1..] == word[1..] + rest;
    }
  }

  /** No '#' line is carried, and one is reported exactly when its first word is one of the two
      directives that apt knows, in any case. */
  lemma {:induction false} DirectivesAreReported(r: Rules, file: string, word: string, rest: string, path: Path)
    requires word != "" && forall j :: 0 <= j < |word| ==> !White(word[j])
    requires rest == "" || White(rest[0])
    ensures FilterItem(r, file, DirectiveLine(word + rest), path) ==
            Filtered([], if r.fold(word) == r.fold("#include") then [Drop(file, "#include", IncludeDirective)]
                         else if r.fold(word) == r.fold("#clear") then [Drop(file, "#clear", ClearDirective)]
                         else [])
  {
    LeadingFieldIs(word, rest);
    assert (word + rest)[0] == word[0];
  }
}
