/**
 Path arithmetic of internal/app/wwctl/overlay/imprt/main.go: `filepath.Clean`,
 the entry-name check and the lexical symlink check. A cleaned relative path is
 the sequence of its components; the empty sequence is ".".
 */
module ArtifactPaths {
  import opened Text

  type Path = seq<string>

  const ROOTFS := "rootfs"
  const MANIFEST := "overlaydiff-manifest.json"

  /** A component that names a directory entry. */
  predicate IsName(c: string) {
    c != "" && c != "." && c != ".."
  }

  predicate Names(p: Path) {
    forall i :: 0 <= i < |p| ==> IsName(p[i])
  }

  /** `filepath.Clean` of a relative path, one component at a time. */
  function CleanFrom(stack: Path, rest: seq<string>): Path
    decreases |rest|
  {
    if rest == [] then stack
    else if rest[0] == "" || rest[0] == "." then CleanFrom(stack, rest[1..])
    else if rest[0] == ".." && stack != [] && stack[|stack| - 1] != ".." then
      CleanFrom(stack[..|stack| - 1], rest[1..])
    else CleanFrom(stack + [rest[0]], rest[1..])
  }

  predicate NoUps(rest: seq<string>) {
    ".." !in rest
  }

  /** No ".." after a component that names something. */
  predicate UpsLead(rest: seq<string>) {
    forall i, j :: 0 <= i < j < |rest| && IsName(rest[i]) ==> rest[j] != ".."
  }

  predicate InRootfs(p: Path) {
    p != [] && p[0] == ROOTFS
  }

  lemma {:induction false} CleanAppend(stack: Path, a: seq<string>, b: seq<string>)
    ensures CleanFrom(stack, a + b) == CleanFrom(CleanFrom(stack, a), b)
    decreases |a|
  {
    if a == [] {
      assert a + b == b;
    } else {
      assert (a + b)[1..] == a[1..] + b && (a + b)[0] == a[0];
      var next := if a[0] == "" || a[0] == "." then stack
                  else if a[0] == ".." && stack != [] && stack[|stack| - 1] != ".." then stack[..|stack| - 1]
                  else stack + [a[0]];
      CleanAppend(next, a[1..], b);
    }
  }

  lemma {:induction false} CleanNames(stack: Path, p: Path)
    requires Names(p)
    ensures CleanFrom(stack, p) == stack + p
    decreases |p|
  {
    if p == [] {
      assert stack + p == stack;
    } else {
      CleanNames(stack + [p[0]], p[1..]);
      assert stack + [p[0]] + p[1..] == stack + p;
    }
  }

  /** Without ".." the path only grows. */
  lemma {:induction false} CleanGrows(stack: Path, rest: seq<string>)
    requires NoUps(rest)
    ensures stack <= CleanFrom(stack, rest)
    decreases |rest|
  {
    if rest != [] {
      assert rest[0] in rest;
      if rest[0] == "" || rest[0] == "." {
        CleanGrows(stack, rest[1..]);
      } else {
        CleanGrows(stack + [rest[0]], rest[1..]);
      }
    }
  }

  /** A leading ".." is never cancelled. */
  lemma {:induction false} CleanKeepsUp(stack: Path, rest: seq<string>)
    requires stack != [] && stack[0] == ".."
    ensures CleanFrom(stack, rest) != [] && CleanFrom(stack, rest)[0] == ".."
    decreases |rest|
  {
    if rest != [] {
      if rest[0] == "" || rest[0] == "." {
        CleanKeepsUp(stack, rest[1..]);
      } else if rest[0] == ".." && stack[|stack| - 1] != ".." {
        CleanKeepsUp(stack[..|stack| - 1], rest[1..]);
      } else {
        CleanKeepsUp(stack + [rest[0]], rest[1..]);
      }
    }
  }

  /** A cleaned path is either all names or starts with "..". */
  lemma {:induction false} CleanShape(stack: Path, rest: seq<string>)
    requires Names(stack)
    ensures Names(CleanFrom(stack, rest)) || (CleanFrom(stack, rest) != [] && CleanFrom(stack, rest)[0] == "..")
    decreases |rest|
  {
    if rest != [] {
      if rest[0] == "" || rest[0] == "." {
        CleanShape(stack, rest[1..]);
      } else if rest[0] == ".." {
        if stack == [] {
          assert stack + [rest[0]] == [".."];
          CleanKeepsUp([".."], rest[1..]);
        } else {
          assert IsName(stack[|stack| - 1]);
          CleanShape(stack[..|stack| - 1], rest[1..]);
        }
      } else {
        CleanShape(stack + [rest[0]], rest[1..]);
      }
    }
  }

  /** The bytes of the `unicode.IsSpace` character that starts the text in UTF-8; 0 if none does. */
  function SpaceLength(s: string): (n: nat)
    ensures n <= |s|
  {
    if s != "" && s[0] in "\t\n\r \U{0B}\U{0C}" then 1
    else if |s| >= 2 && s[0] == '\U{C2}' && s[1] in "\U{85}\U{A0}" then 2
    else if |s| < 3 then 0
    else if s[..3] in {"\U{E1}\U{9A}\U{80}", "\U{E2}\U{81}\U{9F}", "\U{E3}\U{80}\U{80}"} then 3
    else if s[..2] == "\U{E2}\U{80}" && ('\U{80}' <= s[2] <= '\U{8A}' || s[2] in "\U{A8}\U{A9}\U{AF}") then 3
    else 0
  }

  /** `strings.TrimSpace(s) == ""`. */
  predicate Blank(s: string)
    decreases |s|
  {
    s == "" || (SpaceLength(s) > 0 && Blank(s[SpaceLength(s)..]))
  }

  /** `cleanArchiveEntryName`: the cleaned path, unless the name is blank, absolute or escapes. */
  function CleanEntryName(name: string): (r: Option<Path>)
    ensures r.Some? ==> r.value != [] && Names(r.value)
  {
    if Blank(name) || HasPrefix(name, "/") then None
    else
      var cleaned := CleanFrom([], Split(name, '/'));
      CleanShape([], Split(name, '/'));
      if cleaned == [] || cleaned[0] == ".." then None else Some(cleaned)
  }

  /** The layout test of `extractArtifactEntry`. */
  predicate InLayout(name: Path) {
    name == [MANIFEST] || InRootfs(name)
  }

  function Parent(p: Path): Path
    requires p != []
  {
    p[..|p| - 1]
  }

  /** What `validateArchiveSymlink` accepts. */
  predicate SafeLink(entry: Path, target: string)
    requires entry != []
  {
    && !Blank(target)
    && !HasPrefix(target, "/")
    && UpsLead(Split(target, '/'))
    && InRootfs(CleanFrom([], Parent(entry) + Split(target, '/')))
  }

  /** `validateArchiveSymlink`, with its `seenName` loop. */
  method ValidateArchiveSymlink(entry: Path, target: string) returns (ok: bool)
    requires entry != []
    ensures ok <==> SafeLink(entry, target)
  {
    hide Split, Blank, CleanFrom, HasPrefix, Parent;
    if Blank(target) || HasPrefix(target, "/") {
      return false;
    }
    var parts := Split(target, '/');
    var seenName := false;
    for i := 0 to |parts|
      invariant seenName <==> exists k :: 0 <= k < i && IsName(parts[k])
      invariant forall k, j :: 0 <= k < j < i && IsName(parts[k]) ==> parts[j] != ".."
    {
      if parts[i] == "" || parts[i] == "." {
      } else if parts[i] == ".." {
        if seenName {
          return false;
        }
      } else {
        seenName := true;
      }
    }
    var resolved := CleanFrom([], Parent(entry) + parts);
    if resolved == [] || resolved[0] == ".." {
      return false;
    }
    return resolved[0] == ROOTFS;
  }
}
