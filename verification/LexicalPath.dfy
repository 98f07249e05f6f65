/** Lexical paths: canonical form, and relative and absolute paths. */
module LexicalPaths {

  // ----- Parts -----

  /** The length of the part at the front. */
  function PartLength(s: string): (n: nat)
    ensures n <= |s| && '/' !in s[..n] && (n < |s| ==> s[n] == '/')
  {
    if s == [] || s[0] == '/' then 0 else 1 + PartLength(s[1..])
  }

  /** split_view('/'): the parts between slashes, without empty ones. */
  function Split(s: string): (parts: seq<string>)
    decreases |s|
  {
    if s == [] then [] else if s[0] == '/' then Split(s[1..]) else [s[..PartLength(s)]] + Split(s[PartLength(s)..])
  }

  predicate ProperPart(part: string) {
    part != [] && '/' !in part
  }

  predicate ProperParts(parts: seq<string>) {
    forall i :: 0 <= i < |parts| ==> ProperPart(parts[i])
  }

  /** join('/', parts) */
  function Joined(parts: seq<string>): string {
    if parts == [] then [] else if |parts| == 1 then parts[0] else parts[0] + "/" + Joined(parts[1..])
  }

  lemma {:induction false} SplitProper(s: string)
    ensures ProperParts(Split(s))
    decreases |s|
  {
    if s != [] {
      if s[0] == '/' {
        SplitProper(s[1..]);
      } else {
        SplitProper(s[PartLength(s)..]);
      }
    }
  }

  lemma {:induction false} PartLengthConcat(a: string, b: string)
    requires '/' !in a && (b == [] || b[0] == '/')
    ensures PartLength(a + b) == |a|
  {
    if a == [] {
      assert a + b == b;
    } else {
      PartLengthConcat(a[1..], b);
      assert (a + b)[1..] == a[1..] + b;
    }
  }

  lemma SplitPart(part: string, rest: string)
    requires ProperPart(part) && (rest == [] || rest[0] == '/')
    ensures Split(part + rest) == [part] + Split(rest)
  {
    PartLengthConcat(part, rest);
    var s := part + rest;
    assert s[0] == part[0] && part[0] in part;
    assert s[..|part|] == part && s[|part|..] == rest;
  }

  /** Splitting at a slash and splitting both sides is the same. */
  lemma {:induction false} SplitConcat(a: string, b: string)
    ensures Split(a + "/" + b) == Split(a) + Split(b)
    decreases |a|
  {
    var s := a + "/" + b;
    if a == [] {
      assert s[1..] == b;
    } else if a[0] == '/' {
      SplitConcat(a[1..], b);
      assert s[1..] == a[1..] + "/" + b;
    } else {
      var n := PartLength(a);
      var part, rest := a[..n], a[n..];
      assert part[0] == a[0];
      SplitConcat(rest, b);
      SplitConcatPart(part, rest, b);
      assert a == part + rest;
    }
  }

  lemma SplitConcatPart(part: string, rest: string, b: string)
    requires ProperPart(part) && (rest == [] || rest[0] == '/') && Split(rest + "/" + b) == Split(rest) + Split(b)
    ensures Split(part + rest + "/" + b) == Split(part + rest) + Split(b)
  {
    hide Split;
    assert part + rest + "/" + b == part + (rest + "/" + b);
    SplitPart(part, rest + "/" + b);
    SplitPart(part, rest);
  }

  lemma {:induction false} SplitJoined(parts: seq<string>)
    requires ProperParts(parts)
    ensures Split(Joined(parts)) == parts
  {
    if |parts| == 1 {
      assert ProperPart(parts[0]) && parts[0] + "" == parts[0];
      SplitPart(parts[0], "");
      assert Split("") == [];
    } else if |parts| > 1 {
      SplitJoined(parts[1..]);
      SplitConcat(parts[0], Joined(parts[1..]));
      assert parts[0] + "" == parts[0];
      SplitPart(parts[0], "");
      assert Split("") == [];
    }
  }

  lemma SplitRooted(s: string)
    ensures Split("/" + s) == Split(s)
  {
    assert ("/" + s)[1..] == s;
  }

  // ----- Canonical form -----

  predicate IsAbsolute(path: string) {
    path != [] && path[0] == '/'
  }

  /** What one part does to the parts before it. */
  function Push(absolute: bool, stack: seq<string>, part: string): seq<string> {
    if part == "." then stack
    else if part == ".." && stack == [] && absolute then stack
    else if part == ".." && stack != [] && stack[|stack| - 1] != ".." then stack[..|stack| - 1]
    else stack + [part]
  }

  function Folded(absolute: bool, stack: seq<string>, parts: seq<string>): seq<string>
    decreases |parts|
  {
    if parts == [] then stack else Folded(absolute, Push(absolute, stack, parts[0]), parts[1..])
  }

  function CanonicalParts(path: string): seq<string> {
    Folded(IsAbsolute(path), [], Split(path))
  }

  function Rendered(absolute: bool, parts: seq<string>): string {
    (if absolute then "/" else "") + Joined(if parts == [] && !absolute then ["."] else parts)
  }

  /** canonicalized_path without its early exits */
  function Canonical(path: string): string {
    if path == [] then "." else Rendered(IsAbsolute(path), CanonicalParts(path))
  }

  lemma FoldedStep(absolute: bool, stack: seq<string>, parts: seq<string>)
    requires parts != []
    ensures Folded(absolute, stack, parts) == Folded(absolute, Push(absolute, stack, parts[0]), parts[1..])
  {
  }

  lemma {:induction false} FoldedConcat(absolute: bool, stack: seq<string>, a: seq<string>, b: seq<string>)
    ensures Folded(absolute, stack, a + b) == Folded(absolute, Folded(absolute, stack, a), b)
    decreases |a|
  {
    if a == [] {
      assert a + b == b;
    } else {
      FoldedConcat(absolute, Push(absolute, stack, a[0]), a[1..], b);
      assert (a + b)[1..] == a[1..] + b;
    }
  }

  /** Proper parts, none of them ".", with ".." only in front and only in a relative path. */
  predicate InCanonicalForm(absolute: bool, parts: seq<string>) {
    && ProperParts(parts) && (forall i :: 0 <= i < |parts| ==> parts[i] != "." && (absolute ==> parts[i] != ".."))
    && (forall i :: 0 < i < |parts| && parts[i] == ".." ==> parts[i - 1] == "..")
  }

  lemma {:induction false} FoldedIsCanonical(absolute: bool, stack: seq<string>, parts: seq<string>)
    requires InCanonicalForm(absolute, stack) && ProperParts(parts)
    ensures InCanonicalForm(absolute, Folded(absolute, stack, parts))
    decreases |parts|
  {
    if parts != [] {
      assert ProperPart(parts[0]);
      FoldedIsCanonical(absolute, Push(absolute, stack, parts[0]), parts[1..]);
    }
  }

  lemma CanonicalPartsForm(path: string)
    ensures InCanonicalForm(IsAbsolute(path), CanonicalParts(path))
  {
    SplitProper(path);
    FoldedIsCanonical(IsAbsolute(path), [], Split(path));
  }

  /** Parts in canonical form are left as they are. */
  lemma {:induction false} FoldedKeeps(absolute: bool, parts: seq<string>)
    requires InCanonicalForm(absolute, parts)
    ensures Folded(absolute, [], parts) == parts
  {
    if parts != [] {
      var n := |parts| - 1;
      var most, last := parts[..n], parts[n];
      FoldedKeeps(absolute, most);
      assert parts == most + [last];
      FoldedConcat(absolute, [], most, [last]);
      assert Folded(absolute, most, [last]) == Push(absolute, most, last) by {
        assert [last][1..] == [];
      }
    }
  }

  /** A rendered path splits into its parts and is absolute as asked. */
  lemma RenderedParts(absolute: bool, parts: seq<string>)
    requires InCanonicalForm(absolute, parts)
    ensures var r := Rendered(absolute, parts);
            r != [] && IsAbsolute(r) == absolute && CanonicalParts(r) == parts && Canonical(r) == r
  {
    var shown := if parts == [] && !absolute then ["."] else parts;
    var r := Rendered(absolute, parts);
    assert ProperParts(shown);
    SplitJoined(shown);
    SplitRooted(Joined(shown));
    assert absolute ==> r == "/" + Joined(shown);
    if !absolute {
      assert r == Joined(shown) && r[0] == shown[0][0] && shown[0][0] in shown[0];
    }
    if shown == parts {
      FoldedKeeps(absolute, parts);
    } else {
      assert Folded(false, [], ["."]) == Folded(false, [], ["."][1..]);
    }
  }

  lemma CanonicalIsRendered(path: string)
    ensures InCanonicalForm(IsAbsolute(path), CanonicalParts(path)) &&
            Canonical(path) == Rendered(IsAbsolute(path), CanonicalParts(path))
  {
    CanonicalPartsForm(path);
  }

  /** Canonicalization is idempotent and keeps the parts and whether the path is absolute. */
  lemma CanonicalIdempotent(path: string)
    ensures Canonical(Canonical(path)) == Canonical(path) && CanonicalParts(Canonical(path)) == CanonicalParts(path)
    ensures Canonical(path) != [] && IsAbsolute(Canonical(path)) == IsAbsolute(path)
  {
    CanonicalIsRendered(path);
    RenderedParts(IsAbsolute(path), CanonicalParts(path));
  }

  // ----- Where a path leads -----

  /** The directory reached from `at` by one part; above the root is the root. */
  function Entered(at: seq<string>, part: string): seq<string> {
    if part == "." then at
    else if part == ".." then (if at == [] then [] else at[..|at| - 1])
    else at + [part]
  }

  /** The directory reached from `at` by following all parts, in a tree without links. */
  function Walked(at: seq<string>, parts: seq<string>): seq<string> {
    if parts == [] then at else Entered(Walked(at, parts[..|parts| - 1]), parts[|parts| - 1])
  }

  lemma WalkedOne(at: seq<string>, parts: seq<string>, part: string)
    ensures Walked(at, parts + [part]) == Entered(Walked(at, parts), part)
  {
    assert (parts + [part])[..|parts|] == parts;
  }

  lemma {:induction false} WalkedConcat(at: seq<string>, a: seq<string>, b: seq<string>)
    ensures Walked(at, a + b) == Walked(Walked(at, a), b)
  {
    hide Walked;
    if b == [] {
      assert a + b == a;
      WalkedNowhere(Walked(at, a));
    } else {
      var n := |b| - 1;
      WalkedConcat(at, a, b[..n]);
      assert a + b == (a + b[..n]) + [b[n]] && b == b[..n] + [b[n]];
      WalkedOne(at, a + b[..n], b[n]);
      WalkedOne(Walked(at, a), b[..n], b[n]);
    }
  }

  lemma WalkedNowhere(at: seq<string>)
    ensures Walked(at, []) == at
  {
  }

  /**
   * Pushing a part on the stack leads where following it would, from the root for an absolute path and from
   * anywhere else.
   */
  lemma PushedLeads(absolute: bool, at: seq<string>, stack: seq<string>, part: string)
    requires InCanonicalForm(absolute, stack) && (absolute ==> at == [])
    ensures Walked(at, Push(absolute, stack, part)) == Entered(Walked(at, stack), part)
  {
    hide Walked;
    WalkedNowhere(at);
    WalkedOne(at, stack, part);
    if part == ".." && stack != [] && stack[|stack| - 1] != ".." {
      var n := |stack| - 1;
      assert stack == stack[..n] + [stack[n]] && stack[n] != ".";
      WalkedOne(at, stack[..n], stack[n]);
    }
  }

  lemma {:induction false} FoldedLeads(absolute: bool, at: seq<string>, stack: seq<string>, parts: seq<string>)
    requires InCanonicalForm(absolute, stack) && ProperParts(parts) && (absolute ==> at == [])
    ensures Walked(at, Folded(absolute, stack, parts)) == Walked(Walked(at, stack), parts)
    decreases |parts|
  {
    hide Walked, Folded;
    if parts == [] {
      WalkedNowhere(Walked(at, stack));
      FoldedNothing(absolute, stack);
    } else {
      var first, rest := parts[0], parts[1..];
      assert ProperPart(first) && parts == [first] + rest && [] + [first] == [first];
      PushedIsCanonical(absolute, stack, first);
      FoldedLeads(absolute, at, Push(absolute, stack, first), rest);
      FoldedStep(absolute, stack, parts);
      PushedLeads(absolute, at, stack, first);
      WalkedConcat(Walked(at, stack), [first], rest);
      WalkedOne(Walked(at, stack), [], first);
      WalkedNowhere(Walked(at, stack));
    }
  }

  lemma FoldedNothing(absolute: bool, stack: seq<string>)
    ensures Folded(absolute, stack, []) == stack
  {
  }

  lemma PushedIsCanonical(absolute: bool, stack: seq<string>, part: string)
    requires InCanonicalForm(absolute, stack) && ProperPart(part)
    ensures InCanonicalForm(absolute, Push(absolute, stack, part))
  {
  }

  /** The canonical path leads where the path does, from every directory. */
  lemma CanonicalLeadsToSamePlace(path: string, at: seq<string>)
    ensures var start := if IsAbsolute(path) then [] else at;
            Walked(start, Split(Canonical(path))) == Walked(start, Split(path))
  {
    hide Walked, Folded, Split, Joined;
    var absolute, parts := IsAbsolute(path), CanonicalParts(path);
    var start := if absolute then [] else at;
    SplitProper(path);
    FoldedLeads(absolute, start, [], Split(path));
    WalkedNowhere(start);
    CanonicalPartsForm(path);
    SplitOfRendered(absolute, parts);
    if path == [] {
      SplitNothing();
      FoldedNothing(false, []);
      assert Canonical(path) == Rendered(false, []) by {
        JoinedOne(".");
      }
    }
    if parts == [] && !absolute {
      WalkedOne(start, [], ".");
    }
  }

  lemma SplitNothing()
    ensures Split("") == []
  {
  }

  lemma SplitOfRendered(absolute: bool, parts: seq<string>)
    requires InCanonicalForm(absolute, parts)
    ensures Split(Rendered(absolute, parts)) == if parts == [] && !absolute then [] + ["."] else parts
  {
    var shown := if parts == [] && !absolute then ["."] else parts;
    SplitJoined(shown);
    SplitRooted(Joined(shown));
    assert "" + Joined(shown) == Joined(shown);
  }

  // ----- The early exit -----

  /** No dots, no empty parts and no slash at the end. */
  predicate Plain(path: string) {
    && path != [] && '.' !in path && path[|path| - 1] != '/'
    && forall i :: 0 <= i < |path| - 1 ==> !(path[i] == '/' && path[i + 1] == '/')
  }

  lemma PlainRest(s: string, k: nat)
    requires Plain(s) && k < |s| - 1 && s[k] == '/'
    ensures Plain(s[k + 1..]) && s[k + 1..][0] != '/'
  {
    var rest := s[k + 1..];
    assert forall i :: 0 <= i < |rest| ==> rest[i] == s[k + 1 + i];
  }

  lemma {:induction false} JoinedSplit(s: string)
    requires Plain(s) && s[0] != '/'
    ensures Joined(Split(s)) == s && Split(s) != [] && NoDots(Split(s))
    decreases |s|
  {
    hide Split, Joined, Plain;
    var n := PartLength(s);
    var part := s[..n];
    PlainPart(s, n);
    if n == |s| {
      assert part == s && part + "" == s;
      SplitPart(part, "");
      JoinedOne(part);
    } else {
      var rest := s[n + 1..];
      PlainRest(s, n);
      JoinedSplit(rest);
      SplitRooted(rest);
      assert s == part + ("/" + rest);
      SplitPart(part, "/" + rest);
      JoinedMore(part, Split(rest));
    }
  }

  ghost predicate NoDots(parts: seq<string>) {
    forall i :: 0 <= i < |parts| ==> '.' !in parts[i]
  }

  lemma PlainPart(s: string, n: nat)
    requires Plain(s) && s[0] != '/' && n == PartLength(s)
    ensures ProperPart(s[..n]) && '.' !in s[..n] && (n < |s| ==> n < |s| - 1)
  {
  }

  lemma JoinedOne(part: string)
    ensures Joined([part]) == part && Split("") == [] && NoDots([]) && [part] + [] == [part]
  {
  }

  lemma JoinedMore(part: string, parts: seq<string>)
    requires parts != []
    ensures Joined([part] + parts) == part + "/" + Joined(parts)
  {
    assert ([part] + parts)[1..] == parts;
  }

  /** The early exit is right: such a path is canonical. */
  lemma PlainIsCanonical(path: string)
    requires Plain(path)
    ensures Canonical(path) == path
  {
    var s := if path[0] == '/' then path[1..] else path;
    assert path[0] == '/' ==> path == "/" + s && s != [] && s[0] == path[1] && forall i :: 0 <= i < |s| ==>
           s[i] == path[i + 1];
    assert Plain(s);
    JoinedSplit(s);
    SplitRooted(s);
    SplitProper(s);
    var parts := Split(s);
    assert InCanonicalForm(IsAbsolute(path), parts) by {
      assert forall i :: 0 <= i < |parts| ==> '.' !in parts[i];
      assert "."[0] == '.' && ".."[0] == '.';
    }
    FoldedKeeps(IsAbsolute(path), parts);
  }

  predicate OccursAt(s: string, sub: string, i: nat) {
    i + |sub| <= |s| && s[i..i + |sub|] == sub
  }

  predicate Contains(s: string, sub: string) {
    exists i :: 0 <= i <= |s| && OccursAt(s, sub, i)
  }

  lemma PlainMeans(path: string)
    requires path != []
    ensures !Contains(path, ".") && !Contains(path, "//") && path[|path| - 1] != '/' ==> Plain(path)
  {
    if !Contains(path, ".") && !Contains(path, "//") {
      forall i | 0 <= i < |path|
        ensures path[i] != '.'
      {
        assert !OccursAt(path, ".", i) && path[i..i + 1] == [path[i]];
      }
      forall i | 0 <= i < |path| - 1
        ensures !(path[i] == '/' && path[i + 1] == '/')
      {
        assert !OccursAt(path, "//", i) && path[i..i + 2] == [path[i], path[i + 1]];
      }
    }
  }

  /** canonicalized_path */
  method CanonicalizedPath(path: string) returns (r: string)
    ensures r == Canonical(path)
  {
    hide Canonical, Split, Joined;
    EarlyExits(path);
    if path == [] {
      return ".";
    }
    if !Contains(path, ".") && !Contains(path, "//") && path[|path| - 1] != '/' {
      return path;
    }
    var isAbsolute := path[0] == '/';
    var parts := Split(path);
    var canonicalParts: seq<string> := [];
    for i := 0 to |parts|
      invariant Folded(isAbsolute, canonicalParts, parts[i..]) == CanonicalParts(path)
    {
      var part := parts[i];
      assert parts[i..][1..] == parts[i + 1..];
      if part == "." {
        continue;
      }
      if part == ".." {
        if canonicalParts == [] {
          if isAbsolute {
            continue;
          }
        } else if canonicalParts[|canonicalParts| - 1] != ".." {
          canonicalParts := canonicalParts[..|canonicalParts| - 1];
          continue;
        }
      }
      canonicalParts := canonicalParts + [part];
    }
    assert parts[|parts|..] == [] && canonicalParts == CanonicalParts(path);
    if canonicalParts == [] && !isAbsolute {
      canonicalParts := canonicalParts + ["."];
      assert canonicalParts == ["."];
    }
    r := if isAbsolute then "/" else "";
    r := r + Joined(canonicalParts);
    CanonicalMeans(path);
  }

  lemma EarlyExits(path: string)
    ensures path == [] ==> Canonical(path) == "."
    ensures path != [] && !Contains(path, ".") && !Contains(path, "//") && path[|path| - 1] != '/' ==>
              Canonical(path) == path
  {
    if path != [] && !Contains(path, ".") && !Contains(path, "//") && path[|path| - 1] != '/' {
      PlainMeans(path);
      PlainIsCanonical(path);
    }
  }

  lemma CanonicalMeans(path: string)
    requires path != []
    ensures Canonical(path) == Rendered(IsAbsolute(path), CanonicalParts(path))
  {
  }

  // ----- The shape of a canonical path -----

  predicate NoDoubleSlash(s: string) {
    forall i :: 0 <= i < |s| - 1 ==> !(s[i] == '/' && s[i + 1] == '/')
  }

  lemma {:induction false} JoinedShape(parts: seq<string>)
    requires parts != [] && ProperParts(parts)
    ensures var s := Joined(parts); s != [] && s[0] != '/' && s[|s| - 1] != '/' && NoDoubleSlash(s)
  {
    var part := parts[0];
    assert ProperPart(part) && part[0] in part && part[|part| - 1] in part;
    assert forall i :: 0 <= i < |part| ==> part[i] in part;
    if |parts| > 1 {
      var rest := Joined(parts[1..]);
      JoinedShape(parts[1..]);
      var s := part + "/" + rest;
      assert s[0] == part[0] && s[|s| - 1] == rest[|rest| - 1];
      forall i | 0 <= i < |s| - 1
        ensures !(s[i] == '/' && s[i + 1] == '/')
      {
        if i > |part| {
          assert s[i] == rest[i - |part| - 1] && s[i + 1] == rest[i - |part|];
        }
      }
    }
  }

  /** No empty part, and no slash at the end but for the root. */
  lemma CanonicalShape(path: string)
    ensures var r := Canonical(path); r != [] && NoDoubleSlash(r) && (r[|r| - 1] == '/' ==> r == "/")
  {
    hide Joined, CanonicalParts;
    CanonicalIsRendered(path);
    var absolute, parts := IsAbsolute(path), CanonicalParts(path);
    var shown := if parts == [] && !absolute then ["."] else parts;
    if shown == [] {
      JoinedNothing();
    } else {
      assert ProperParts(shown);
      JoinedShape(shown);
      var s := Joined(shown);
      assert Canonical(path) == (if absolute then "/" + s else s);
      assert forall i :: 0 <= i < |s| ==> ("/" + s)[i + 1] == s[i];
    }
  }

  // ----- Absolute paths -----

  /** join(dir, target).string() */
  function JoinedPath(dir: string, target: string): string {
    Canonical(dir + "/" + target)
  }

  function AbsolutePath(dir: string, target: string): string {
    if IsAbsolute(Canonical(target)) then Canonical(target) else Canonical(JoinedPath(dir, target))
  }

  /** A relative target continues from the parts of the directory. */
  lemma AbsoluteParts(dir: string, target: string)
    requires IsAbsolute(dir) && !IsAbsolute(target)
    ensures AbsolutePath(dir, target) == Rendered(true, Folded(true, CanonicalParts(dir), Split(target)))
  {
    var path := dir + "/" + target;
    CanonicalIdempotent(target);
    CanonicalIdempotent(path);
    SplitConcat(dir, target);
    FoldedConcat(true, [], Split(dir), Split(target));
  }

  /**
   * The absolute path leads where the target leads: from the root if the target is absolute, and else
   * from where the directory leads. It is canonical, and absolute exactly if one of the two is or the
   * directory is empty, since what is joined to nothing starts with a slash.
   */
  lemma AbsolutePathLeads(dir: string, target: string, at: seq<string>)
    ensures var r, rooted := AbsolutePath(dir, target), dir == [] || IsAbsolute(dir);
            && Canonical(r) == r && (IsAbsolute(r) <==> rooted || IsAbsolute(target))
            && Walked(if IsAbsolute(r) then [] else at, Split(r))
               == if IsAbsolute(target) then Walked([], Split(target))
                  else Walked(Walked(if rooted then [] else at, Split(dir)), Split(target))
  {
    hide Canonical, Split, Walked;
    var path := dir + "/" + target;
    CanonicalIdempotent(target);
    CanonicalIdempotent(path);
    if IsAbsolute(target) {
      CanonicalLeadsToSamePlace(target, at);
    } else {
      var start := if IsAbsolute(path) then [] else at;
      CanonicalLeadsToSamePlace(path, at);
      SplitConcat(dir, target);
      WalkedConcat(start, Split(dir), Split(target));
    }
  }

  // ----- Relative paths -----

  /** The number of parts the two have in common in front. */
  function CommonLength(a: seq<string>, b: seq<string>): (n: nat)
    ensures n <= |a| && n <= |b| && a[..n] == b[..n] && (n < |a| && n < |b| ==> a[n] != b[n])
  {
    if a == [] || b == [] || a[0] != b[0] then 0 else
    var n := CommonLength(a[1..], b[1..]);
    assert a[..n + 1] == [a[0]] + a[1..][..n] && b[..n + 1] == [b[0]] + b[1..][..n];
    n + 1
  }

  function Ups(n: nat): string {
    if n == 0 then "" else "../" + Ups(n - 1)
  }

  /** relative_path by parts: up from the prefix to the common part, then down to the path. */
  function RelativePath(path: string, prefix: string): string {
    if !IsAbsolute(path) || !IsAbsolute(prefix) then ""
    else if CanonicalParts(path) == CanonicalParts(prefix) then "."
    else
      var common := CommonLength(CanonicalParts(path), CanonicalParts(prefix));
      Ups(|CanonicalParts(prefix)| - common) + Joined(CanonicalParts(path)[common..])
  }

  function Dots(n: nat): seq<string> {
    if n == 0 then [] else [".."] + Dots(n - 1)
  }

  lemma SplitDots()
    ensures Split("..") == [".."] && Split(".") == ["."]
  {
    assert ".." + "" == ".." && "." + "" == ".";
    SplitPart("..", "");
    SplitPart(".", "");
    assert Split("") == [];
  }

  lemma {:induction false} SplitUps(n: nat, s: string)
    ensures Split(Ups(n) + s) == Dots(n) + Split(s)
    ensures n > 0 ==> !IsAbsolute(Ups(n) + s)
  {
    hide Split;
    if n == 0 {
      assert Ups(0) + s == s;
    } else {
      SplitUps(n - 1, s);
      assert Ups(n) + s == ".." + "/" + (Ups(n - 1) + s);
      SplitConcat("..", Ups(n - 1) + s);
      SplitDots();
    }
  }

  lemma {:induction false} FoldedDots(stack: seq<string>, n: nat, rest: seq<string>)
    requires n <= |stack| && forall i :: 0 <= i < |stack| ==> stack[i] != ".."
    ensures Folded(true, stack, Dots(n) + rest) == Folded(true, stack[..|stack| - n], rest)
  {
    hide Folded;
    if n == 0 {
      assert Dots(0) + rest == rest && stack[..|stack|] == stack;
    } else {
      var shorter := stack[..|stack| - 1];
      FoldedDots(shorter, n - 1, rest);
      var parts := Dots(n) + rest;
      assert parts[0] == ".." && parts[1..] == Dots(n - 1) + rest;
      FoldedStep(true, stack, parts);
      assert shorter[..|shorter| - (n - 1)] == stack[..|stack| - n];
    }
  }

  /** Parts of a canonical absolute path are simply pushed. */
  lemma {:induction false} FoldedPushes(stack: seq<string>, rest: seq<string>)
    requires InCanonicalForm(true, rest)
    ensures Folded(true, stack, rest) == stack + rest
    decreases |rest|
  {
    if rest == [] {
      assert stack + rest == stack;
    } else {
      FoldedPushes(stack + [rest[0]], rest[1..]);
      assert (stack + [rest[0]]) + rest[1..] == stack + rest;
    }
  }

  /** Going from the prefix along the relative path leads to the path. */
  lemma RelativeRoundTrip(path: string, prefix: string)
    requires IsAbsolute(path) && IsAbsolute(prefix)
    ensures AbsolutePath(prefix, RelativePath(path, prefix)) == Canonical(path)
  {
    var p, q := CanonicalParts(path), CanonicalParts(prefix);
    CanonicalPartsForm(path);
    CanonicalPartsForm(prefix);
    if p == q {
      AbsoluteParts(prefix, ".");
      SplitDots();
      assert Folded(true, q, ["."]) == Folded(true, q, ["."][1..]) == q;
    } else {
      RelativeGoes(path, prefix);
    }
  }

  lemma RelativeGoes(path: string, prefix: string)
    requires IsAbsolute(path) && IsAbsolute(prefix) && CanonicalParts(path) != CanonicalParts(prefix)
    requires InCanonicalForm(true, CanonicalParts(path)) && InCanonicalForm(true, CanonicalParts(prefix))
    ensures AbsolutePath(prefix, RelativePath(path, prefix)) == Canonical(path)
  {
    hide Canonical, CanonicalParts, AbsolutePath, RelativePath, CommonLength, Split, Folded, Joined, Ups,
      InCanonicalForm, Rendered;
    RelativeCases(path, prefix);
    UpsNone();
    var p, q := CanonicalParts(path), CanonicalParts(prefix);
    var common := CommonLength(p, q);
    var rest, up := p[common..], |q| - common;
    CanonicalFormRest(p, common);
    CanonicalFormRest(q, 0);
    assert q[0..] == q;
    SplitUps(up, Joined(rest));
    SplitJoined(rest);
    JoinedStart(rest);
    assert up == 0 ==> rest != [] && Ups(up) + Joined(rest) == Joined(rest);
    AbsoluteParts(prefix, Ups(up) + Joined(rest));
    FoldedDots(q, up, rest);
    FoldedPushes(q[..common], rest);
    assert q[..common] + rest == p;
    CanonicalMeans(path);
  }

  // ----- No way is shorter -----

  /** The number of steps between two directories. */
  function Steps(a: seq<string>, b: seq<string>): int {
    |a| + |b| - 2 * CommonLength(a, b)
  }

  lemma StepsToEntered(a: seq<string>, b: seq<string>, part: string)
    ensures Steps(a, Entered(b, part)) <= Steps(a, b) + 1
  {
    hide CommonLength;
    var n := CommonLength(a, b);
    if part == ".." && b != [] {
      var c, m := b[..|b| - 1], if n < |b| then n else n - 1;
      assert c[..m] == b[..n][..m] && a[..m] == a[..n][..m];
      if m < |c| && m < |a| {
        assert c[m] == b[m] && m == n;
      }
      CommonLengthIs(a, c, m);
    } else if part != "." && part != ".." {
      var c := b + [part];
      var m := if n == |b| && n < |a| && a[n] == part then n + 1 else n;
      assert c[..n] == b[..n];
      if m == n + 1 {
        assert a[..m] == a[..n] + [part] && c[..m] == c[..n] + [part];
      }
      CommonLengthIs(a, c, m);
    }
  }

  lemma {:induction false} StepsWalked(a: seq<string>, parts: seq<string>)
    ensures Steps(a, Walked(a, parts)) <= |parts|
  {
    hide Walked, Steps;
    if parts == [] {
      WalkedNowhere(a);
      StepsNone(a);
    } else {
      var n := |parts| - 1;
      StepsWalked(a, parts[..n]);
      assert parts == parts[..n] + [parts[n]];
      WalkedOne(a, parts[..n], parts[n]);
      StepsToEntered(a, Walked(a, parts[..n]), parts[n]);
    }
  }

  lemma StepsNone(a: seq<string>)
    ensures Steps(a, a) == 0
  {
    CommonLengthIs(a, a, |a|);
  }

  /** The relative path is relative, and no list of parts leads from the prefix to the path in fewer steps. */
  lemma RelativeIsShortest(path: string, prefix: string, parts: seq<string>)
    requires IsAbsolute(path) && IsAbsolute(prefix)
    requires Walked(Walked([], Split(prefix)), parts) == Walked([], Split(path))
    ensures !IsAbsolute(RelativePath(path, prefix))
    ensures if CanonicalParts(path) == CanonicalParts(prefix) then RelativePath(path, prefix) == "."
            else |Split(RelativePath(path, prefix))| <= |parts|
  {
    hide Walked, Split, CanonicalParts, Steps, Joined, Ups, CommonLength;
    var p, q := CanonicalParts(path), CanonicalParts(prefix);
    LeadsToParts(path);
    LeadsToParts(prefix);
    StepsWalked(q, parts);
    if p != q {
      var common := CommonLength(p, q);
      var rest, up := p[common..], |q| - common;
      CanonicalFormRest(p, common);
      SplitUps(up, Joined(rest));
      SplitJoined(rest);
      DotsLength(up);
      JoinedStart(rest);
      UpsNone();
      assert "" + Joined(rest) == Joined(rest);
      StepsAre(q, p, common);
    }
  }

  lemma {:induction false} UpsShape(n: nat)
    ensures NoDoubleSlash(Ups(n)) && (n > 0 ==> Ups(n) != [] && Ups(n)[0] == '.' && Ups(n)[|Ups(n)| - 1] == '/')
  {
    if n > 0 {
      UpsShape(n - 1);
      var s, rest := Ups(n), Ups(n - 1);
      assert s[0] == '.' && s[1] == '.' && s[2] == '/' && forall i :: 3 <= i < |s| ==> s[i] == rest[i - 3];
    }
  }

  /** The relative path has no empty part, and ends in a slash exactly if it only goes up. */
  lemma RelativeShape(path: string, prefix: string)
    requires IsAbsolute(path) && IsAbsolute(prefix)
    ensures var r, p, q := RelativePath(path, prefix), CanonicalParts(path), CanonicalParts(prefix);
            r != [] && NoDoubleSlash(r) && (r[|r| - 1] == '/' <==> p < q)
  {
    hide CanonicalParts, Joined, Ups, CommonLength;
    var r, p, q := RelativePath(path, prefix), CanonicalParts(path), CanonicalParts(prefix);
    CanonicalAbsolute(path);
    if p != q {
      var common := CommonLength(p, q);
      var rest, up := p[common..], |q| - common;
      CanonicalFormRest(p, common);
      UpsShape(up);
      UpsNone();
      JoinedNothing();
      assert rest == [] <==> p < q by {
        assert p[..common] == q[..common];
      }
      if rest == [] {
        assert r == Ups(up) && up > 0;
      } else {
        JoinedShape(rest);
        SlashFreeJoint(Ups(up), Joined(rest));
      }
    }
  }

  lemma SlashFreeJoint(a: string, b: string)
    requires NoDoubleSlash(a) && NoDoubleSlash(b) && b != [] && b[0] != '/'
    ensures NoDoubleSlash(a + b) && (a + b)[|a + b| - 1] == b[|b| - 1]
  {
  }

  lemma StepsAre(q: seq<string>, p: seq<string>, common: nat)
    requires common == CommonLength(p, q)
    ensures Steps(q, p) == (|q| - common) + (|p| - common)
  {
    CommonLengthIs(q, p, common);
  }

  lemma {:induction false} DotsLength(n: nat)
    ensures |Dots(n)| == n
  {
    if n > 0 {
      DotsLength(n - 1);
    }
  }

  /** The canonical parts of an absolute path are where it leads. */
  lemma LeadsToParts(path: string)
    requires IsAbsolute(path)
    ensures Walked([], Split(path)) == CanonicalParts(path) && InCanonicalForm(true, CanonicalParts(path))
  {
    hide Walked, Split, Folded;
    var parts := CanonicalParts(path);
    CanonicalPartsForm(path);
    SplitProper(path);
    FoldedLeads(true, [], [], Split(path));
    WalkedNowhere([]);
    WalkedDown([], parts);
  }

  lemma {:induction false} WalkedDown(at: seq<string>, parts: seq<string>)
    requires InCanonicalForm(true, parts)
    ensures Walked(at, parts) == at + parts
  {
    hide Walked;
    if parts == [] {
      WalkedNowhere(at);
    } else {
      var n := |parts| - 1;
      WalkedDown(at, parts[..n]);
      assert parts == parts[..n] + [parts[n]];
      WalkedOne(at, parts[..n], parts[n]);
      assert (at + parts[..n]) + [parts[n]] == at + parts;
    }
  }

  lemma UpsNone()
    ensures Ups(0) == ""
  {
  }

  lemma CanonicalFormRest(parts: seq<string>, k: nat)
    requires InCanonicalForm(true, parts) && k <= |parts|
    ensures InCanonicalForm(true, parts[k..]) && ProperParts(parts[k..]) && forall i :: 0 <= i < |parts| ==>
              parts[i] != ".."
  {
  }

  lemma JoinedStart(parts: seq<string>)
    requires ProperParts(parts)
    ensures !IsAbsolute(Joined(parts))
  {
    if parts != [] {
      assert ProperPart(parts[0]) && Joined(parts)[0] == parts[0][0] && parts[0][0] in parts[0];
    }
  }

  /** The parts of a canonical absolute path are its parts. */
  lemma CanonicalAbsolute(path: string)
    requires IsAbsolute(path)
    ensures Canonical(path) == "/" + Joined(CanonicalParts(path)) && Split(Canonical(path)) == CanonicalParts(path)
    ensures InCanonicalForm(true, CanonicalParts(path))
  {
    CanonicalPartsForm(path);
    SplitJoined(CanonicalParts(path));
    SplitRooted(Joined(CanonicalParts(path)));
  }

  lemma {:induction false} JoinedConcat(a: seq<string>, b: seq<string>)
    requires a != [] && b != []
    ensures Joined(a + b) == Joined(a) + "/" + Joined(b)
  {
    if |a| == 1 {
      JoinedMore(a[0], b);
      assert [a[0]] + b == a + b;
    } else {
      JoinedConcat(a[1..], b);
      JoinedMore(a[0], a[1..] + b);
      assert [a[0]] + (a[1..] + b) == a + b;
    }
  }

  /** If the prefix is the path up to a slash, what follows is the relative path. */
  lemma RelativeToChild(aPath: string, aPrefix: string)
    requires IsAbsolute(aPath) && IsAbsolute(aPrefix)
    ensures var path, prefix := Canonical(aPath), Canonical(aPrefix);
            prefix != "/" && prefix < path && path[|prefix|] == '/' ==>
              RelativePath(aPath, aPrefix) == path[|prefix| + 1..]
  {
    hide Canonical, CanonicalParts, Split, Joined;
    var path, prefix := Canonical(aPath), Canonical(aPrefix);
    CanonicalAbsolute(aPath);
    CanonicalAbsolute(aPrefix);
    if prefix != "/" && prefix < path && path[|prefix|] == '/' {
      var p, q, r := CanonicalParts(aPath), CanonicalParts(aPrefix), path[|prefix| + 1..];
      assert path == prefix + "/" + r;
      SplitConcat(prefix, r);
      var rest := Split(r);
      assert p == q + rest;
      JoinedNothing();
      assert q != [] && q + [] == q && p != q;
      assert rest != [];
      JoinedConcat(q, rest);
      assert path == prefix + "/" + Joined(rest);
      assert r == Joined(rest);
      CommonWithPrefix(q, rest);
      assert p[|q|..] == rest && Ups(0) + r == r;
    }
  }

  lemma JoinedNothing()
    ensures Joined([]) == "" && "/" + "" == "/"
  {
  }

  lemma {:induction false} CommonWithPrefix(q: seq<string>, rest: seq<string>)
    ensures CommonLength(q + rest, q) == |q|
  {
    if q != [] {
      CommonWithPrefix(q[1..], rest);
      assert (q + rest)[1..] == q[1..] + rest;
    }
  }

  lemma RelativeToRoot(aPath: string, aPrefix: string)
    requires IsAbsolute(aPath) && IsAbsolute(aPrefix) && CanonicalParts(aPath) != CanonicalParts(aPrefix)
    ensures Canonical(aPrefix) == "/" ==> RelativePath(aPath, aPrefix) == Canonical(aPath)[1..]
  {
    CanonicalAbsolute(aPath);
    CanonicalAbsolute(aPrefix);
    if Canonical(aPrefix) == "/" {
      assert Split("/") == Split("/"[1..]);
      assert CanonicalParts(aPrefix) == [];
      assert CanonicalParts(aPath)[0..] == CanonicalParts(aPath);
      assert ("/" + Joined(CanonicalParts(aPath)))[1..] == Joined(CanonicalParts(aPath))
             == Ups(0) + Joined(CanonicalParts(aPath));
    }
  }

  lemma {:induction false} UpsMore(n: nat)
    ensures Ups(n) + "../" == Ups(n + 1)
  {
    if n > 0 {
      UpsMore(n - 1);
      assert Ups(n) + "../" == "../" + (Ups(n - 1) + "../");
    }
  }

  lemma RelativeCases(path: string, prefix: string)
    ensures !IsAbsolute(path) || !IsAbsolute(prefix) ==> RelativePath(path, prefix) == ""
    ensures IsAbsolute(path) && IsAbsolute(prefix) && CanonicalParts(path) == CanonicalParts(prefix) ==>
              RelativePath(path, prefix) == "."
    ensures IsAbsolute(path) && IsAbsolute(prefix) && CanonicalParts(path) != CanonicalParts(prefix) ==>
              var common := CommonLength(CanonicalParts(path), CanonicalParts(prefix));
              RelativePath(path, prefix)
                == Ups(|CanonicalParts(prefix)| - common) + Joined(CanonicalParts(path)[common..])
  {
  }

  /** relative_path */
  method ComputeRelativePath(aPath: string, aPrefix: string) returns (r: string)
    ensures r == RelativePath(aPath, aPrefix)
    ensures r == "" <==> !IsAbsolute(aPath) || !IsAbsolute(aPrefix)
  {
    hide Canonical, CanonicalParts, Split, Joined, RelativePath, CommonLength, NoDoubleSlash;
    RelativeCases(aPath, aPrefix);
    if IsAbsolute(aPath) && IsAbsolute(aPrefix) {
      RelativeShape(aPath, aPrefix);
    }
    if !IsAbsolute(aPath) || !IsAbsolute(aPrefix) {
      return "";
    }
    if aPath == aPrefix {
      return ".";
    }
    var path := CanonicalizedPath(aPath);
    var prefix := CanonicalizedPath(aPrefix);
    CanonicalAbsolute(aPath);
    CanonicalAbsolute(aPrefix);
    if path == prefix {
      return ".";
    }
    RelativeToRoot(aPath, aPrefix);
    if prefix == "/" {
      return path[1..];
    }
    RelativeToChild(aPath, aPrefix);
    if prefix <= path && path[|prefix|] == '/' {
      return path[|prefix| + 1..];
    }
    r := UpAndDown(Split(path), Split(prefix));
  }

  /** The way from one list of parts to another. */
  method UpAndDown(pathParts: seq<string>, prefixParts: seq<string>) returns (builder: string)
    ensures var common := CommonLength(pathParts, prefixParts);
            builder == Ups(|prefixParts| - common) + Joined(pathParts[common..])
  {
    hide Joined, Ups, CommonLength;
    JoinedNothing();
    UpsNone();
    var index := 0;
    while index < |pathParts| && index < |prefixParts|
      invariant index <= |pathParts| && index <= |prefixParts| && pathParts[..index] == prefixParts[..index]
    {
      if pathParts[index] != prefixParts[index] {
        break;
      }
      index := index + 1;
    }
    CommonLengthIs(pathParts, prefixParts, index);
    builder := "";
    for i := index to |prefixParts|
      invariant builder == Ups(i - index)
    {
      UpsMore(i - index);
      builder := builder + "../";
    }
    ghost var all := builder + Joined(pathParts[index..]);
    for i := index to |pathParts|
      invariant builder + Joined(pathParts[i..]) == all
    {
      ghost var before := builder;
      assert pathParts[i..] == [pathParts[i]] + pathParts[i + 1..];
      builder := builder + pathParts[i];
      if i != |pathParts| - 1 {
        JoinedMore(pathParts[i], pathParts[i + 1..]);
        builder := builder + "/";
        assert before + (pathParts[i] + "/" + Joined(pathParts[i + 1..])) == builder + Joined(pathParts[i + 1..]);
      } else {
        JoinedOne(pathParts[i]);
        assert pathParts[i + 1..] == [] && pathParts[i..] == [pathParts[i]] && builder + "" == builder;
      }
    }
    assert pathParts[|pathParts|..] == [] && builder + "" == builder;
  }

  lemma {:induction false} CommonLengthIs(a: seq<string>, b: seq<string>, n: nat)
    requires n <= |a| && n <= |b| && a[..n] == b[..n] && (n < |a| && n < |b| ==> a[n] != b[n])
    ensures CommonLength(a, b) == n
  {
    if n > 0 {
      assert a[0] == a[..n][0] && b[0] == b[..n][0];
      assert a[1..][..n - 1] == a[..n][1..] && b[1..][..n - 1] == b[..n][1..];
      CommonLengthIs(a[1..], b[1..], n - 1);
    }
  }

  /** absolute_path */
  method ComputeAbsolutePath(dirPath: string, target: string) returns (r: string)
    ensures r == AbsolutePath(dirPath, target)
  {
    var lexical := CanonicalizedPath(target);
    if IsAbsolute(lexical) {
      r := CanonicalizedPath(target);
      return;
    }
    var joined := CanonicalizedPath(dirPath + "/" + target);
    r := CanonicalizedPath(joined);
  }
}
