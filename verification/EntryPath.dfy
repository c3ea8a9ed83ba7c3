/** Names of archive entries (core/bundle/tar.go:309-327, 502-543): the check that an
    untrusted name stays inside the directory it is joined to, and the key under which two
    names land on one file.  Letter folding is a parameter. */
module EntryPath {

  datatype Result<T> = Ok(value: T) | Err(error: NameError)

  datatype NameError =
    | EmptyName | NameTooLong | HasNul | HasBackslash | Absolute | DriveLetter
    | EmptyAfterCleaning | Traversal | AbsoluteAfterCleaning | ComponentTooLong

  const MAX_NAME_LEN: nat := 1024
  const MAX_COMPONENT_LEN: nat := 255

  // ---- components -----------------------------------------------------------------

  /** strings.Split(s, "/"). */
  function Split(s: string): (parts: seq<string>)
    ensures |parts| >= 1
  {
    if s == "" then [""]
    else
      var rest := Split(s[1..]);
      if s[0] == '/' then [""] + rest else [[s[0]] + rest[0]] + rest[1..]
  }

  /** strings.Join(parts, "/"). */
  function Join(parts: seq<string>): string {
    if parts == [] then "" else if |parts| == 1 then parts[0] else parts[0] + "/" + Join(parts[1..])
  }

  predicate Slashless(parts: seq<string>) {
    forall i :: 0 <= i < |parts| ==> '/' !in parts[i]
  }

  lemma {:induction false} SplitIsSlashless(s: string)
    ensures Slashless(Split(s))
  {
    if s == "" {
    } else {
      SplitIsSlashless(s[1..]);
    }
  }

  lemma {:induction false} SplitPlain(c: string)
    requires '/' !in c
    ensures Split(c) == [c]
  {
    if c == "" {
    } else {
      assert c[0] in c;
      SplitPlain(c[1..]);
      assert [c[0]] + c[1..] == c;
    }
  }

  lemma {:induction false} SplitAfter(c: string, rest: string)
    requires '/' !in c
    ensures Split(c + "/" + rest) == [c] + Split(rest)
  {
    var s := c + "/" + rest;
    if c == "" {
      assert s[1..] == rest;
    } else {
      assert c[0] in c;
      SplitAfter(c[1..], rest);
      assert s[1..] == c[1..] + "/" + rest;
      assert [c[0]] + c[1..] == c;
    }
  }

  /** Splitting undoes joining. */
  lemma {:induction false} SplitOfJoin(parts: seq<string>)
    requires parts != [] && Slashless(parts)
    ensures Split(Join(parts)) == parts
  {
    if |parts| == 1 {
      SplitPlain(parts[0]);
    } else {
      SplitOfJoin(parts[1..]);
      SplitAfter(parts[0], Join(parts[1..]));
    }
  }

  lemma {:induction false} JoinOfCons(c: string, rest: seq<string>)
    requires rest != []
    ensures Join([c] + rest) == c + "/" + Join(rest)
  {
    assert ([c] + rest)[1..] == rest;
  }

  lemma {:induction false} JoinPushChar(c: char, parts: seq<string>)
    requires parts != []
    ensures Join([[c] + parts[0]] + parts[1..]) == [c] + Join(parts)
  {
    if |parts| > 1 {
      JoinOfCons([c] + parts[0], parts[1..]);
      assert [c] + parts[0] + "/" + Join(parts[1..]) == [c] + (parts[0] + "/" + Join(parts[1..]));
    }
  }

  lemma {:induction false} JoinOfSplit(s: string)
    ensures Join(Split(s)) == s
  {
    if s == "" {
    } else {
      var rest := Split(s[1..]);
      JoinOfSplit(s[1..]);
      assert s == [s[0]] + s[1..];
      if s[0] == '/' {
        JoinOfCons("", rest);
        assert "" + "/" + Join(rest) == [s[0]] + Join(rest);
      } else {
        JoinPushChar(s[0], rest);
      }
    }
  }

  // ---- path.Clean ---------------------------------------------------------------------

  /** One component of a relative name, on the stack of components kept so far. */
  function CleanStep(stack: seq<string>, c: string): seq<string> {
    if c == "" || c == "." then stack
    else if c == ".." then
      if stack == [] || stack[|stack| - 1] == ".." then stack + [".."] else stack[..|stack| - 1]
    else stack + [c]
  }

  function CleanParts(parts: seq<string>): seq<string> {
    if parts == [] then [] else CleanStep(CleanParts(parts[..|parts| - 1]), parts[|parts| - 1])
  }

  /** path.Clean of a name that does not start with '/'. */
  function Clean(name: string): string {
    var stack := CleanParts(Split(name));
    if stack == [] then "." else Join(stack)
  }

  predicate HasPrefix(s: string, prefix: string) {
    |prefix| <= |s| && s[..|prefix|] == prefix
  }

  /** safeRelPath. */
  function SafeRelPath(name: string): Result<string> {
    if name == "" then Err(EmptyName)
    else if |name| > MAX_NAME_LEN then Err(NameTooLong)
    else if '\0' in name then Err(HasNul)
    else if '\\' in name then Err(HasBackslash)
    else if HasPrefix(name, "/") then Err(Absolute)
    else if |name| >= 2 && name[1] == ':' then Err(DriveLetter)
    else
      var cleaned := Clean(name);
      if cleaned == "." then Err(EmptyAfterCleaning)
      else if cleaned == ".." || HasPrefix(cleaned, "../") then Err(Traversal)
      else if HasPrefix(cleaned, "/") then Err(AbsoluteAfterCleaning)
      else if exists i :: 0 <= i < |Split(cleaned)| && |Split(cleaned)[i]| > MAX_COMPONENT_LEN
      then Err(ComponentTooLong)
      else Ok(cleaned)
  }

  // ---- what a name means ------------------------------------------------------------------

  datatype Position = At(path: seq<string>) | Escaped

  /** Following one component from a position, which escapes by going above the root. */
  function Follow(p: Position, c: string): Position {
    if p.Escaped? || c == "" || c == "." then p
    else if c == ".." then if p.path == [] then Escaped else At(p.path[..|p.path| - 1])
    else At(p.path + [c])
  }

  function FollowAll(p: Position, parts: seq<string>): Position {
    if parts == [] then p else Follow(FollowAll(p, parts[..|parts| - 1]), parts[|parts| - 1])
  }

  predicate Plain(c: string) {
    c != "" && c != "." && c != ".." && '/' !in c
  }

  predicate AllPlain(parts: seq<string>) {
    forall i :: 0 <= i < |parts| ==> Plain(parts[i])
  }

  /** The stack of cleaned components says where following them has arrived. */
  predicate Agree(stack: seq<string>, p: Position) {
    && (if p.Escaped? then stack != [] && stack[0] == ".." else stack == p.path && AllPlain(stack))
    && (forall i :: 0 <= i < |stack| ==> stack[i] != "" && stack[i] != "." && '/' !in stack[i])
  }

  lemma {:induction false} AgreeNext(stack: seq<string>, p: Position, c: string)
    requires Agree(stack, p) && '/' !in c
    ensures Agree(CleanStep(stack, c), Follow(p, c))
  {
    if p.At? && stack != [] {
      assert Plain(stack[|stack| - 1]);
    }
  }

  /** Cleaning keeps a leading ".." exactly when following the components escapes, and
      otherwise arrives where following them does. */
  lemma {:induction false} CleanFollows(parts: seq<string>)
    requires Slashless(parts)
    ensures Agree(CleanParts(parts), FollowAll(At([]), parts))
    decreases |parts|
  {
    if parts == [] {
    } else {
      CleanFollows(parts[..|parts| - 1]);
      AgreeNext(CleanParts(parts[..|parts| - 1]), FollowAll(At([]), parts[..|parts| - 1]), parts[|parts| - 1]);
    }
  }

  lemma {:induction false} JoinHead(parts: seq<string>)
    requires parts != [] && Slashless(parts) && forall i :: 0 <= i < |parts| ==> parts[i] != "" && parts[i] != "."
    ensures Join(parts) != "." && !HasPrefix(Join(parts), "/")
    ensures (Join(parts) == ".." || HasPrefix(Join(parts), "../")) <==> parts[0] == ".."
  {
    var j, c := Join(parts), parts[0];
    assert c[0] in c && j[0] == c[0];
    assert j[..1][0] == j[0] && "/"[0] == '/';
    assert HasPrefix(j, "../") ==> j[..3][0] == '.' && j[..3][1] == '.' && j[..3][2] == '/';
    assert forall k :: 0 <= k < |c| ==> j[k] == c[k] && c[k] in c;
    assert |parts| == 1 ==> j == c;
    assert |parts| > 1 ==> j[|c|] == '/' && |j| > |c|;
    assert |parts| > 1 && c == ".." ==> j[..3] == "../";
    assert |c| == 2 && c[0] == '.' && c[1] == '.' ==> c == "..";
  }

  predicate NameLooksRelative(name: string) {
    && name != "" && |name| <= MAX_NAME_LEN && '\0' !in name && '\\' !in name
    && name[0] != '/' && !(|name| >= 2 && name[1] == ':')
  }

  /** A name is accepted exactly when it passes the spelling checks, following its
      components from the root never goes above it and ends below it, and no component of
      where it ends is too long; the result spells that place, component by component. */
  lemma {:induction false} AcceptedNames(name: string)
    ensures var p := FollowAll(At([]), Split(name));
            && (SafeRelPath(name).Ok? <==>
                  && NameLooksRelative(name) && p.At? && p.path != []
                  && forall i :: 0 <= i < |p.path| ==> |p.path[i]| <= MAX_COMPONENT_LEN)
            && (SafeRelPath(name).Ok? ==> Split(SafeRelPath(name).value) == p.path && AllPlain(p.path))
  {
    var parts := Split(name);
    var stack := CleanParts(parts);
    SplitIsSlashless(name);
    CleanFollows(parts);
    assert name != "" ==> (HasPrefix(name, "/") <==> name[0] == '/') by {
      assert name != "" && HasPrefix(name, "/") ==> name[..1][0] == "/"[0];
      assert name != "" && name[0] == '/' ==> name[..1] == "/";
    }
    if stack != [] {
      SplitOfJoin(stack);
      JoinHead(stack);
    }
  }

  lemma {:induction false} FollowPlain(base: seq<string>, parts: seq<string>)
    requires AllPlain(parts)
    ensures FollowAll(At(base), parts) == At(base + parts)
    decreases |parts|
  {
    if parts == [] {
      assert base + parts == base;
    } else {
      var front := parts[..|parts| - 1];
      FollowPlain(base, front);
      assert base + parts == base + front + [parts[|parts| - 1]];
    }
  }

  /** Joined to any directory, an accepted name stays strictly inside it. */
  lemma {:induction false} AcceptedStaysInside(name: string, base: seq<string>)
    requires SafeRelPath(name).Ok?
    ensures var parts := Split(SafeRelPath(name).value);
            FollowAll(At(base), parts) == At(base + parts) && parts != [] && base < base + parts
  {
    AcceptedNames(name);
    FollowPlain(base, Split(SafeRelPath(name).value));
  }

  // ---- collisions ---------------------------------------------------------------------------

  function TrimRightDots(s: string): string {
    if s != "" && (s[|s| - 1] == '.' || s[|s| - 1] == ' ') then TrimRightDots(s[..|s| - 1]) else s
  }

  /** collisionKey, by components. */
  function CollisionKey(lower: string -> string, rel: string): string {
    var parts := Split(rel);
    Join(seq(|parts|, i requires 0 <= i < |parts| => lower(TrimRightDots(parts[i]))))
  }
}
