/** A session's working directory: the component stack that resolves a path against it, and the
    commands that move it and report it.

    A path is the sequence of components that iterating a `std::filesystem::path` yields on a
    POSIX system: "/" comes first in an absolute path, and a path that ends in a slash has an
    empty last component. */
module Paths {
  import opened Options

  type Path = seq<string>

  const ROOT := "/"

  const HERE := "."

  const UP := ".."

  predicate Rooted(p: Path) {
    p != [] && p[0] == ROOT
  }

  /** What iterating a path can yield. */
  predicate WellFormed(p: Path) {
    && (forall i :: 1 <= i < |p| ==> p[i] != ROOT)
    && (forall i :: 0 <= i < |p| - 1 ==> p[i] != "")
    && (p != [] && p[|p| - 1] == "" ==> |p| > 1 && p[|p| - 2] != ROOT)
  }

  predicate Plain(part: string) {
    part != ROOT && part != HERE && part != UP && part != ""
  }

  /** An absolute path without dots or a trailing slash. */
  predicate Canonical(p: Path) {
    Rooted(p) && forall i :: 1 <= i < |p| ==> Plain(p[i])
  }

  /** A path without its trailing slash. */
  function Core(p: Path): Path {
    if p != [] && p[|p| - 1] == "" then p[..|p| - 1] else p
  }

  /** `base / p` for a relative `p`: an empty `p` adds a trailing slash after a file name. */
  function Join(base: Path, p: Path): Path {
    if p != [] then Core(base) + p
    else if base == [] || base[|base| - 1] == "" || base[|base| - 1] == ROOT then base
    else base + [""]
  }

  /** `result /= part` for one component. */
  function Append(result: Path, part: string): Path {
    if part == ROOT then [ROOT]
    else Join(result, if part == "" then [] else [part])
  }

  function Assembled(parts: Path): Path {
    if parts == [] then [] else Append(Assembled(parts[..|parts| - 1]), parts[|parts| - 1])
  }

  /** The component stack after one more component. */
  function Stacked(stack: Path, part: string): Path {
    if part == HERE then stack
    else if part == UP then (if stack == [] then [] else stack[..|stack| - 1])
    else stack + [part]
  }

  function Normal(parts: Path): Path {
    if parts == [] then [] else Stacked(Normal(parts[..|parts| - 1]), parts[|parts| - 1])
  }

  function Enter(at: seq<string>, part: string): seq<string> {
    if part == HERE || part == "" then at
    else if part == UP then (if at == [] then [] else at[..|at| - 1])
    else at + [part]
  }

  /** The reference: walking down a tree of directories from the root, where the parent of the
      root is the root itself. A position is the list of names that lead to it. */
  function Walk(at: seq<string>, parts: Path): seq<string> {
    if parts == [] then at else Enter(Walk(at, parts[..|parts| - 1]), parts[|parts| - 1])
  }

  /** The directory an absolute path leads to. */
  function Place(p: Path): Path
    requires Rooted(p)
  {
    [ROOT] + Walk([], Core(p)[1..])
  }

  predicate Dotless(p: Path) {
    forall i :: 0 <= i < |p| ==> p[i] != HERE && p[i] != UP
  }

  /** Which places there are, and which of them are directories. */
  datatype Tree = Tree(present: Path -> bool, isDir: Path -> bool)

  /** The root is a directory, and every place there is lies in directories. */
  ghost predicate Consistent(tree: Tree) {
    && tree.isDir([ROOT])
    && (forall q :: Canonical(q) && tree.isDir(q) ==> tree.present(q))
    && (forall q, k :: Canonical(q) && tree.present(q) && 1 <= k < |q| ==> tree.isDir(q[..k]))
  }

  /** The system finds something at an absolute path: each component is looked up in a directory, and
      a dot or a trailing slash asks for nothing more. */
  predicate Found(tree: Tree, p: Path)
    requires Rooted(p)
    decreases |p|
  {
    |p| == 1 ||
    var q := p[..|p| - 1];
    Found(tree, q) && tree.isDir(Place(q)) && (Plain(p[|p| - 1]) ==> tree.present(Place(p)))
  }

  /** The path ends in a dot, two dots or a slash behind a name. */
  predicate Open(p: Path) {
    p != [] && p[|p| - 1] != ROOT && !Plain(p[|p| - 1])
  }

  /** What `weakly_canonical` makes of an absolute path without symbolic links: where the path leads,
      with a slash behind it, unless that is the root, if nothing is found there and the path ends
      in dots or a slash. */
  function WeaklyCanonical(tree: Tree, p: Path): Path
    requires Rooted(p)
  {
    Place(p) + (if !Found(tree, p) && Open(p) && Place(p) != [ROOT] then [""] else [])
  }

  /** The file system as a request finds it: what `weakly_canonical` answers for a path, None being
      its throwing, and what there is. */
  datatype Files = Files(canon: Path -> Option<Path>, tree: Tree)

  /** No symbolic link is involved in what `weakly_canonical` makes of `p`. */
  ghost predicate NoLinks(files: Files, p: Path) {
    && Consistent(files.tree)
    && (Rooted(p) && WellFormed(p) && files.canon(p).Some? ==>
          files.canon(p).value == WeaklyCanonical(files.tree, p))
  }

  /** The path that `resolvePath` hands to `weakly_canonical` for a relative path. */
  function Handed(cwd: Path, p: Path): Path {
    Assembled(Normal(Join(cwd, p)))
  }

  /** What `resolvePath` answers. */
  function Resolved(cwd: Path, p: Path, files: Files): Option<Path> {
    files.canon(if Rooted(p) then p else Handed(cwd, p))
  }

  function Ups(parts: Path): nat {
    if parts == [] then 0
    else Ups(parts[..|parts| - 1]) + (if parts[|parts| - 1] == UP then 1 else 0)
  }

  function Downs(parts: Path): nat {
    if parts == [] then 0
    else Downs(parts[..|parts| - 1]) + (if Plain(parts[|parts| - 1]) then 1 else 0)
  }

  /** Read from the root, no `..` asks for the parent of the root. */
  predicate StaysBelowRoot(parts: Path) {
    forall k :: 0 <= k <= |parts| ==> Ups(parts[..k]) <= Downs(parts[..k])
  }

  /** A CD request, and the file system it finds. */
  datatype Cd = Cd(path: Path, files: Files)

  datatype Response = Changed(path: Path) | Failed

  function Respond(cwd: Path, r: Cd): Response {
    var target := Resolved(cwd, r.path, r.files);
    if target.Some? && r.files.tree.isDir(Core(target.value)) then Changed(target.value) else Failed
  }

  /** Where a run of requests leads. */
  function Follow(cwd: Path, rs: seq<Cd>): Path {
    if rs == [] then cwd
    else
      var before := Follow(cwd, rs[..|rs| - 1]);
      var response := Respond(before, rs[|rs| - 1]);
      if response.Changed? then response.path else before
  }

  /** A session, as far as its working directory goes. */
  class Session {
    var currentPath: Path

    constructor (home: Path)
      ensures currentPath == home
    {
      currentPath := home;
    }

    method ResolvePath(p: Path, files: Files) returns (r: Option<Path>)
      ensures r == Resolved(currentPath, p, files)
    {
      if Rooted(p) {
        return files.canon(p);
      }
      var userPath := Join(currentPath, p);
      var pathParts: seq<string> := [];
      for i := 0 to |userPath|
        invariant pathParts == Normal(userPath[..i])
      {
        assert userPath[..i + 1][..i] == userPath[..i];
        var part := userPath[i];
        if part == HERE {
          continue;
        } else if part == UP {
          if pathParts != [] {
            pathParts := pathParts[..|pathParts| - 1];
          }
        } else {
          pathParts := pathParts + [part];
        }
      }
      assert userPath[..|userPath|] == userPath;
      var result: Path := [];
      for i := 0 to |pathParts|
        invariant result == Assembled(pathParts[..i])
      {
        assert pathParts[..i + 1][..i] == pathParts[..i];
        result := Append(result, pathParts[i]);
      }
      assert pathParts[..|pathParts|] == pathParts;
      r := files.canon(result);
    }

    method SetCurrentPath(p: Path)
      modifies this
      ensures currentPath == p
    {
      currentPath := p;
    }

    /** The CD handler: only a success moves the session. */
    method HandleCd(r: Cd) returns (response: Response)
      modifies this
      ensures response == Respond(old(currentPath), r)
      ensures currentPath == if response.Changed? then response.path else old(currentPath)
      ensures
        var answer := r.files.canon(if Rooted(r.path) then r.path else Handed(old(currentPath), r.path));
        response == if answer.Some? && r.files.tree.isDir(Core(answer.value)) then Changed(answer.value) else Failed
    {
      var target := ResolvePath(r.path, r.files);
      if target.None? || !r.files.tree.isDir(Core(target.value)) {
        return Failed;
      }
      SetCurrentPath(target.value);
      response := Changed(target.value);
    }

    /** The PWD handler. */
    method HandlePwd() returns (p: Path)
      ensures p == currentPath
    {
      p := currentPath;
    }

    /** A run of CD requests and a PWD behind them, as the worker calls the handlers for them. */
    method ServeCds(rs: seq<Cd>) returns (responses: seq<Response>, pwd: Path)
      modifies this
      ensures pwd == currentPath == Follow(old(currentPath), rs)
      ensures |responses| == |rs|
      ensures forall i :: 0 <= i < |rs| ==> responses[i] == Respond(Follow(old(currentPath), rs[..i]), rs[i])
    {
      hide Respond;
      responses := [];
      for i := 0 to |rs|
        invariant |responses| == i && currentPath == Follow(old(currentPath), rs[..i])
        invariant forall j :: 0 <= j < i ==> responses[j] == Respond(Follow(old(currentPath), rs[..j]), rs[j])
      {
        assert rs[..i + 1][..i] == rs[..i];
        var response := HandleCd(rs[i]);
        responses := responses + [response];
      }
      assert rs[..|rs|] == rs;
      pwd := HandlePwd();
    }
  }

  lemma {:induction false} WalkOn(at: seq<string>, a: Path, b: Path)
    ensures Walk(at, a + b) == Walk(Walk(at, a), b)
  {
    if b == [] {
      assert a + b == a;
    } else {
      assert (a + b)[..|a + b| - 1] == a + b[..|b| - 1];
      WalkOn(at, a, b[..|b| - 1]);
    }
  }

  predicate AllPlain(names: seq<string>) {
    forall i :: 0 <= i < |names| ==> Plain(names[i])
  }

  lemma EnterPlain(at: seq<string>, part: string)
    requires Plain(part)
    ensures Enter(at, part) == at + [part]
  {
  }

  lemma {:induction false} WalkPlain(names: seq<string>)
    requires AllPlain(names)
    ensures Walk([], names) == names
  {
    if names != [] {
      var before, last := names[..|names| - 1], names[|names| - 1];
      assert Walk([], names) == Enter(Walk([], before), last);
      hide Walk, Plain, Enter;
      WalkPlain(before);
      EnterPlain(before, last);
      assert names == before + [last];
    }
  }

  lemma {:induction false} WalkEndsPlain(parts: Path)
    requires forall i :: 0 <= i < |parts| ==> parts[i] != ROOT
    ensures AllPlain(Walk([], parts))
  {
    if parts != [] {
      WalkEndsPlain(parts[..|parts| - 1]);
    }
  }

  lemma {:induction false} CountsOn(a: Path, b: Path)
    ensures Ups(a + b) == Ups(a) + Ups(b) && Downs(a + b) == Downs(a) + Downs(b)
  {
    if b == [] {
      assert a + b == a;
    } else {
      assert (a + b)[..|a + b| - 1] == a + b[..|b| - 1];
      CountsOn(a, b[..|b| - 1]);
    }
  }

  lemma {:induction false} CountsPlain(names: seq<string>)
    requires AllPlain(names)
    ensures Ups(names) == 0 && Downs(names) == |names|
  {
    if names != [] {
      CountsPlain(names[..|names| - 1]);
    }
  }

  lemma StaysPrefix(a: Path, b: Path)
    requires StaysBelowRoot(a + b)
    ensures StaysBelowRoot(a)
  {
    hide Ups, Downs;
    forall k | 0 <= k <= |a| ensures Ups(a[..k]) <= Downs(a[..k]) {
      assert (a + b)[..k] == a[..k];
    }
  }

  lemma StaysMore(parts: Path)
    requires parts != []
    requires StaysBelowRoot(parts[..|parts| - 1]) && Ups(parts) <= Downs(parts)
    ensures StaysBelowRoot(parts)
  {
    hide Ups, Downs;
    var before := parts[..|parts| - 1];
    forall k | 0 <= k <= |parts| ensures Ups(parts[..k]) <= Downs(parts[..k]) {
      if k < |parts| {
        assert before[..k] == parts[..k];
      } else {
        assert parts[..k] == parts;
      }
    }
  }

  lemma StaysLast(parts: Path)
    requires parts != []
    ensures StaysBelowRoot(parts) <==>
      StaysBelowRoot(parts[..|parts| - 1]) && Ups(parts) <= Downs(parts)
  {
    var before, last := parts[..|parts| - 1], [parts[|parts| - 1]];
    assert parts == before + last;
    if StaysBelowRoot(parts) {
      assert parts[..|parts|] == parts;
      hide Ups, Downs;
      StaysPrefix(before, last);
    } else if StaysBelowRoot(before) && Ups(parts) <= Downs(parts) {
      hide Ups, Downs;
      StaysMore(parts);
    }
  }

  predicate Inner(parts: Path) {
    forall i :: 0 <= i < |parts| ==> parts[i] != ROOT && parts[i] != ""
  }

  predicate Rootless(p: Path) {
    forall i :: 0 <= i < |p| ==> p[i] != ROOT
  }

  /** One component moves the stack and the walk alike, unless it pops the root. */
  lemma StepAlike(at: seq<string>, part: string)
    requires part != ROOT && part != ""
    ensures part == UP && at == [] ==> Rootless(Stacked([ROOT] + at, part))
    ensures part != UP || at != [] ==> Stacked([ROOT] + at, part) == [ROOT] + Enter(at, part)
    ensures part != UP || at != [] ==>
      |Enter(at, part)| == |at| + (if Plain(part) then 1 else 0) - (if part == UP then 1 else 0)
  {
    assert Plain(part) <==> part != HERE && part != UP;
    assert ([ROOT] + at) + [part] == [ROOT] + (at + [part]);
    if at != [] {
      assert ([ROOT] + at)[..|at|] == [ROOT] + at[..|at| - 1];
    }
  }

  /** The root, once lost, does not come back. */
  lemma StaysRootless(stack: Path, part: string)
    requires part != ROOT && Rootless(stack)
    ensures Rootless(Stacked(stack, part))
  {
  }

  /** The stack follows the walk, one below the root, for as long as the walk stays below it. */
  lemma {:induction false} StackFollowsWalk(parts: Path)
    requires Inner(parts)
    ensures StaysBelowRoot(parts) ==>
      Normal([ROOT] + parts) == [ROOT] + Walk([], parts) && |Walk([], parts)| == Downs(parts) - Ups(parts)
    ensures !StaysBelowRoot(parts) ==> Rootless(Normal([ROOT] + parts))
  {
    if parts == [] {
      assert [ROOT] + parts == [ROOT];
      assert [ROOT][..0] == [];
      assert Normal([ROOT]) == Stacked(Normal([]), ROOT);
    } else {
      var before, last := parts[..|parts| - 1], parts[|parts| - 1];
      StackFollowsWalk(before);
      StaysLast(parts);
      assert ([ROOT] + parts)[..|parts|] == [ROOT] + before;
      assert Normal([ROOT] + parts) == Stacked(Normal([ROOT] + before), last);
      assert Walk([], parts) == Enter(Walk([], before), last);
      hide Normal, Walk, StaysBelowRoot, Stacked, Enter;
      if StaysBelowRoot(before) {
        StepAlike(Walk([], before), last);
      } else {
        StaysRootless(Normal([ROOT] + before), last);
      }
    }
  }

  /** Only the trailing slash separates what a path has from its core. */
  lemma CoreInner(p: Path)
    requires WellFormed(p)
    ensures Rooted(p) ==> Rooted(Core(p)) && Inner(Core(p)[1..])
    ensures !Rooted(p) ==> Inner(Core(p))
    ensures p == Core(p) || p == Core(p) + [""]
  {
  }

  /** A trailing slash goes onto the stack last, and is all that the stack gains from it. */
  lemma NormalCore(p: Path)
    ensures Normal(p) == if Core(p) == p then Normal(p) else Normal(Core(p)) + [""]
  {
  }

  lemma AppendPlain(names: seq<string>, part: string)
    requires AllPlain(names) && Plain(part)
    ensures Append([ROOT] + names, part) == [ROOT] + (names + [part])
  {
    assert names != [] ==> Plain(names[|names| - 1]);
  }

  /** Putting a rooted, dot-free stack together again gives it back. */
  lemma {:induction false} AssembledStack(names: seq<string>)
    requires AllPlain(names)
    ensures Assembled([ROOT] + names) == [ROOT] + names
  {
    var parts := [ROOT] + names;
    if names == [] {
      assert parts[..0] == [];
      assert Assembled(parts) == Append(Assembled([]), ROOT);
    } else {
      var before, last := names[..|names| - 1], names[|names| - 1];
      assert parts[..|parts| - 1] == [ROOT] + before;
      assert Assembled(parts) == Append(Assembled([ROOT] + before), last);
      hide Assembled, Append, Plain;
      AssembledStack(before);
      AppendPlain(before, last);
      assert before + [last] == names;
    }
  }

  /** Doing it with a trailing slash gives it back with that slash, except behind the root. */
  lemma AssembledSlash(names: seq<string>)
    requires AllPlain(names)
    ensures Assembled([ROOT] + names + [""]) == [ROOT] + names + (if names == [] then [] else [""])
  {
    var parts := [ROOT] + names + [""];
    assert parts[..|parts| - 1] == [ROOT] + names;
    assert Assembled(parts) == Append(Assembled([ROOT] + names), "");
    AssembledStack(names);
  }

  /** A path without dots leads to itself, with or without a trailing slash. */
  lemma PlaceOfNames(a: Path, names: seq<string>)
    requires AllPlain(names) && (a == [ROOT] + names || (names != [] && a == [ROOT] + names + [""]))
    ensures Rooted(a) && WellFormed(a) && Core(a) == [ROOT] + names && Place(a) == [ROOT] + names
  {
    WalkPlain(names);
    assert ([ROOT] + names)[1..] == names;
    assert a == [ROOT] + names + [""] ==> a[..|a| - 1] == [ROOT] + names;
    hide Walk, Plain;
  }

  lemma {:induction false} AssembledRootless(parts: Path)
    requires Rootless(parts)
    ensures Rootless(Assembled(parts))
  {
    if parts != [] {
      AssembledRootless(parts[..|parts| - 1]);
    }
  }

  lemma JoinNothing(cwd: Path)
    requires Rooted(cwd) && WellFormed(cwd)
    ensures Core(Join(cwd, [])) == Core(cwd) + Core([])
    ensures Rooted(Join(cwd, [])) && WellFormed(Join(cwd, []))
  {
  }

  lemma JoinInner(c: Path, b: Path)
    requires Inner(c) && WellFormed(b) && b != [] && !Rooted(b)
    ensures WellFormed(c + b) && Rootless(c + b) && Core(c + b) == c + Core(b)
  {
  }

  /** A relative path behind the root. */
  lemma RootInFront(p: Path)
    requires WellFormed(p) && Rootless(p) && p != []
    ensures WellFormed([ROOT] + p) && Core([ROOT] + p) == [ROOT] + Core(p)
  {
  }

  lemma JoinSomething(c: Path, p: Path)
    requires Rooted(c) && Inner(c[1..]) && WellFormed(p) && !Rooted(p) && p != []
    ensures Rooted(c + p) && WellFormed(c + p) && Core(c + p) == c + Core(p)
  {
    var names := c[1..];
    hide Core, WellFormed, Inner;
    JoinInner(names, p);
    RootInFront(names + p);
    assert [ROOT] + (names + p) == c + p;
    assert [ROOT] + (names + Core(p)) == c + Core(p);
  }

  lemma JoinCore(cwd: Path, p: Path)
    requires Rooted(cwd) && WellFormed(cwd) && WellFormed(p) && !Rooted(p)
    ensures Core(Join(cwd, p)) == Core(cwd) + Core(p)
    ensures Rooted(Join(cwd, p)) && WellFormed(Join(cwd, p))
  {
    if p == [] {
      JoinNothing(cwd);
    } else {
      CoreInner(cwd);
      hide Core, WellFormed, Inner;
      JoinSomething(Core(cwd), p);
    }
  }

  lemma SlashedStack(stack: Path, names: seq<string>)
    requires AllPlain(names) && stack == [ROOT] + names + [""]
    ensures var a := Assembled(stack);
      Rooted(a) && WellFormed(a) && Core(a) == [ROOT] + names == Place(a)
  {
    hide Assembled, Plain, WellFormed, Core, Place;
    AssembledSlash(names);
    if names == [] {
      assert [ROOT] + names + [] == [ROOT] + names;
    }
    PlaceOfNames(Assembled(stack), names);
  }

  /** Below the root, what is handed on is the place itself, give or take a trailing slash. */
  lemma HandedPlace(q: Path)
    requires Rooted(q) && WellFormed(q) && StaysBelowRoot(Core(q)[1..])
    ensures var a := Assembled(Normal(q));
      Rooted(a) && WellFormed(a) && Core(a) == Place(q) && Place(a) == Place(q)
  {
    CoreInner(q);
    NormalCore(q);
    var parts := Core(q)[1..];
    assert Core(q) == [ROOT] + parts;
    var names, stack := Walk([], parts), Normal(q);
    hide Normal, Assembled, StaysBelowRoot, Walk, Core, Plain, WellFormed;
    StackFollowsWalk(parts);
    WalkEndsPlain(parts);
    if stack == [ROOT] + names {
      AssembledStack(names);
      PlaceOfNames(Assembled(stack), names);
    } else {
      SlashedStack(stack, names);
    }
  }

  /** Where `p` asks to go from `cwd`, as components read from the root. */
  function Asked(cwd: Path, p: Path): Path
    requires Rooted(cwd)
  {
    (Core(cwd) + Core(p))[1..]
  }

  lemma AskedIsCore(cwd: Path, p: Path)
    requires Rooted(cwd) && WellFormed(cwd) && WellFormed(p) && !Rooted(p)
    ensures Asked(cwd, p) == Core(Join(cwd, p))[1..] && Inner(Asked(cwd, p))
    ensures Rooted(Join(cwd, p)) && WellFormed(Join(cwd, p))
    ensures Place(Join(cwd, p)) == [ROOT] + Walk([], Asked(cwd, p))
  {
    JoinCore(cwd, p);
    hide Join, Walk;
    CoreInner(cwd);
    CoreInner(p);
  }

  lemma {:induction false} NormalIsDotless(parts: Path)
    ensures Dotless(Normal(parts))
  {
    if parts != [] {
      NormalIsDotless(parts[..|parts| - 1]);
    }
  }

  lemma {:induction false} AssembledIsDotless(parts: Path)
    requires Dotless(parts)
    ensures Dotless(Assembled(parts))
  {
    if parts != [] {
      AssembledIsDotless(parts[..|parts| - 1]);
    }
  }

  /** What is handed on never has a `.` or a `..`, wherever the path leads. */
  lemma HandedIsDotless(cwd: Path, p: Path)
    ensures Dotless(Handed(cwd, p))
  {
    NormalIsDotless(Join(cwd, p));
    AssembledIsDotless(Normal(Join(cwd, p)));
  }

  lemma PlaceIsCanonical(q: Path)
    requires Rooted(q) && WellFormed(q)
    ensures Canonical(Place(q)) && WellFormed(Place(q)) && Core(Place(q)) == Place(q) == Place(Place(q))
  {
    CoreInner(q);
    var names := Walk([], Core(q)[1..]);
    WalkEndsPlain(Core(q)[1..]);
    PlaceOfNames([ROOT] + names, names);
    hide Walk;
  }

  lemma LosesRoot(q: Path)
    requires Rooted(q) && WellFormed(q) && !StaysBelowRoot(Core(q)[1..])
    ensures Rootless(Assembled(Normal(q)))
  {
    CoreInner(q);
    NormalCore(q);
    var parts := Core(q)[1..];
    assert Core(q) == [ROOT] + parts;
    hide Normal, Assembled, StaysBelowRoot, Core, WellFormed;
    StackFollowsWalk(parts);
    AssembledRootless(Normal(q));
  }

  lemma StackExactly(q: Path)
    requires Rooted(q) && WellFormed(q) && StaysBelowRoot(Core(q)[1..])
    ensures Normal(q) == [ROOT] + Walk([], Core(q)[1..]) + (if q == Core(q) then [] else [""])
  {
    CoreInner(q);
    NormalCore(q);
    var parts := Core(q)[1..];
    assert Core(q) == [ROOT] + parts;
    hide Normal, StaysBelowRoot, Walk, Core, WellFormed;
    StackFollowsWalk(parts);
    assert [ROOT] + Walk([], parts) + [] == [ROOT] + Walk([], parts);
  }

  lemma JoinSlash(cwd: Path, p: Path)
    requires Rooted(cwd) && WellFormed(cwd) && WellFormed(p) && !Rooted(p)
    ensures var q := Join(cwd, p);
      q != Core(q) <==> (p == [] && cwd != [ROOT]) || (p != [] && p[|p| - 1] == "")
  {
  }

  /** Below the root, what is handed on is exactly the place, with a slash behind it if the path is
      empty or ends in one, unless that is the root. */
  lemma HandedExactly(cwd: Path, p: Path)
    requires Rooted(cwd) && WellFormed(cwd) && WellFormed(p) && !Rooted(p) && StaysBelowRoot(Asked(cwd, p))
    ensures var place := Place(Join(cwd, p));
      Handed(cwd, p) ==
        place + (if (p == [] || p[|p| - 1] == "") && place != [ROOT] then [""] else [])
  {
    AskedIsCore(cwd, p);
    var q := Join(cwd, p);
    var names := Walk([], Core(q)[1..]);
    StackExactly(q);
    JoinSlash(cwd, p);
    WalkEndsPlain(Core(q)[1..]);
    hide Normal, Assembled, Walk, StaysBelowRoot, WellFormed, Join, Core, Asked;
    AssembledStack(names);
    AssembledSlash(names);
    assert [ROOT] + names + [] == [ROOT] + names;
    assert names != [] <==> [ROOT] + names != [ROOT];
  }

  /** A canonical path, perhaps with a slash behind it, has no dots and leads to itself. */
  lemma SlashedPlace(a: Path, c: Path)
    requires Canonical(c) && Rooted(a) && WellFormed(a) && Core(a) == c
    ensures Dotless(a) && Place(a) == c && Core(c) == c
  {
    WalkPlain(c[1..]);
    assert [ROOT] + c[1..] == c;
    hide Walk;
  }

  lemma CanonicalParts(c: Path)
    requires Canonical(c)
    ensures WellFormed(c) && Core(c) == c && Place(c) == c
    ensures |c| > 1 ==> Canonical(c[..|c| - 1]) && Plain(c[|c| - 1])
  {
    SlashedPlace(c, c);
    hide Place;
  }

  /** What there is is found at its canonical path. */
  lemma {:induction false} FoundAtPlace(tree: Tree, c: Path)
    requires Consistent(tree) && Canonical(c) && (c == [ROOT] || tree.present(c))
    ensures Found(tree, c)
    decreases |c|
  {
    CanonicalParts(c);
    if |c| > 1 {
      var q := c[..|c| - 1];
      CanonicalParts(q);
      assert tree.isDir(q);
      hide Canonical, Place, Plain;
      FoundAtPlace(tree, q);
    }
  }

  /** Behind a canonical path a slash is found exactly if it names a directory. */
  lemma FoundBehindSlash(tree: Tree, c: Path)
    requires Consistent(tree) && Canonical(c) && |c| > 1
    ensures Rooted(c + [""]) && (Found(tree, c + [""]) <==> tree.isDir(c))
  {
    var a := c + [""];
    assert a[..|a| - 1] == c;
    CanonicalParts(c);
    if tree.isDir(c) {
      FoundAtPlace(tree, c);
    }
    hide Place, Canonical;
  }

  /** A canonical path, perhaps with a slash behind it, is answered without one if it names a
      directory, and otherwise as it stands. */
  lemma AnswerAtPlace(tree: Tree, a: Path, c: Path)
    requires Consistent(tree) && Canonical(c) && Rooted(a) && WellFormed(a) && Core(a) == c
    ensures WeaklyCanonical(tree, a) == if tree.isDir(c) then c else a
  {
    SlashedPlace(a, c);
    CanonicalParts(c);
    if a == c {
      assert !Open(a);
      assert c + [] == c;
    } else {
      assert a == c + [""];
      assert |c| > 1;
      FoundBehindSlash(tree, c);
      hide Consistent, Found, Place, Core, Canonical, WellFormed;
      assert c + [] == c;
    }
  }

  lemma CoreAtPlace(tree: Tree, a: Path, c: Path)
    requires Canonical(c) && Core(a) == c
    ensures Core(if tree.isDir(c) then c else a) == c
  {
    CanonicalParts(c);
  }

  /** Every answer leads where the path does. */
  lemma AnswerLeads(tree: Tree, p: Path)
    requires Rooted(p) && WellFormed(p)
    ensures var a := WeaklyCanonical(tree, p);
      Rooted(a) && WellFormed(a) && Core(a) == Place(p) && Canonical(Place(p))
  {
    PlaceIsCanonical(p);
    CanonicalParts(Place(p));
    hide Place, Found, Open, Walk;
    assert Place(p) + [] == Place(p);
  }

  /** A relative path is handed on as an absolute one exactly when it never asks for the parent of
      the root. Then the answer, if there is one, leads where the directory tree has it: it is that
      place when that is a directory, and the path handed on otherwise, which is the place but for
      a trailing slash. */
  lemma ResolvesLikeWalk(cwd: Path, p: Path, files: Files)
    requires Rooted(cwd) && WellFormed(cwd) && WellFormed(p) && !Rooted(p)
    requires NoLinks(files, Handed(cwd, p))
    ensures Rooted(Handed(cwd, p)) <==> StaysBelowRoot(Asked(cwd, p))
    ensures StaysBelowRoot(Asked(cwd, p)) ==>
      var place := Place(Join(cwd, p));
      && WellFormed(Handed(cwd, p)) && Core(Handed(cwd, p)) == place
      && (Resolved(cwd, p, files).Some? ==>
            && Core(Resolved(cwd, p, files).value) == place
            && Resolved(cwd, p, files).value == if files.tree.isDir(place) then place else Handed(cwd, p))
  {
    AskedIsCore(cwd, p);
    var q := Join(cwd, p);
    HandedIsDotless(cwd, p);
    hide Normal, Assembled, Walk, Dotless, StaysBelowRoot, WellFormed, Asked, Join, WeaklyCanonical, Consistent;
    if StaysBelowRoot(Asked(cwd, p)) {
      HandedPlace(q);
      PlaceIsCanonical(q);
      AnswerAtPlace(files.tree, Handed(cwd, p), Place(q));
      CoreAtPlace(files.tree, Handed(cwd, p), Place(q));
    } else {
      LosesRoot(q);
    }
  }

  /** Resolving the answer for the absolute path `p` again gives the same answer: something is found
      at `p`, or `p` does not end in dots or a slash, or it leads to the root, or to no directory. */
  predicate Stable(tree: Tree, p: Path)
    requires Rooted(p)
  {
    Found(tree, p) || !Open(p) || Place(p) == [ROOT] || !tree.isDir(Place(p))
  }

  lemma AnswerTwice(tree: Tree, q: Path)
    requires Consistent(tree) && Rooted(q) && WellFormed(q)
    ensures var a := WeaklyCanonical(tree, q);
      && Rooted(a) && WellFormed(a) && Core(a) == Place(q)
      && Canonical(Place(q)) && Core(WeaklyCanonical(tree, a)) == Place(q)
      && (WeaklyCanonical(tree, a) == a <==> Stable(tree, q))
  {
    AnswerLeads(tree, q);
    var a := WeaklyCanonical(tree, q);
    AnswerAtPlace(tree, a, Place(q));
    CoreAtPlace(tree, a, Place(q));
    hide Consistent, Found, Place, Core, Canonical, WellFormed, Open;
    assert Place(q) + [] == Place(q);
  }

  lemma DotlessCore(q: Path)
    requires Rooted(q) && WellFormed(q) && Dotless(q)
    ensures Canonical(Core(q))
  {
  }

  /** What a path ends in openly: a dot, two dots or a slash behind it, and no name. */
  lemma OpenEndings(p: Path, name: string)
    ensures Open(p + ["."]) && Open(p + [".."]) && Open(p + [""]) && !Open(["/"]) && !Open([])
    ensures name !in ["/", ".", "..", ""] ==> !Open(p + [name])
  {
  }

  /** A path without dots is answered as its place or as it stands, and so is the answer. */
  lemma DotlessIsStable(tree: Tree, q: Path)
    requires Consistent(tree) && Rooted(q) && WellFormed(q) && Dotless(q)
    ensures Stable(tree, q)
  {
    DotlessCore(q);
    SlashedPlace(q, Core(q));
    if tree.isDir(Core(q)) {
      AnswerAtPlace(tree, q, Core(q));
      hide Consistent, Found, Place, Canonical, Open, Dotless;
      assert q == Core(q) || q == Core(q) + [""];
    }
  }

  /** Resolving an answer again, from any working directory, leads to the same place. For a relative
      path, or one without dots, it gives the same answer; for an absolute path exactly if the path
      is stable. */
  lemma ResolvingTwice(cwd: Path, p: Path, other: Path, files: Files, a: Path, b: Path)
    requires Rooted(cwd) && WellFormed(cwd) && WellFormed(p)
    requires Rooted(p) || StaysBelowRoot(Asked(cwd, p))
    requires NoLinks(files, if Rooted(p) then p else Handed(cwd, p)) && NoLinks(files, a)
    requires Resolved(cwd, p, files) == Some(a) && Resolved(other, a, files) == Some(b)
    ensures Canonical(Core(a)) && Core(b) == Core(a)
    ensures Rooted(p) ==> (b == a <==> Stable(files.tree, p))
    ensures !Rooted(p) || Dotless(p) ==> b == a
  {
    var q := if Rooted(p) then p else Handed(cwd, p);
    if !Rooted(p) {
      AskedIsCore(cwd, p);
      HandedPlace(Join(cwd, p));
      HandedIsDotless(cwd, p);
    }
    hide Handed, Stable, WeaklyCanonical, Consistent, Place, Core, Canonical, WellFormed, Dotless, Walk, StaysBelowRoot;
    AnswerTwice(files.tree, q);
    if Dotless(q) {
      DotlessIsStable(files.tree, q);
    }
  }

  lemma NothingToFold()
    ensures Normal([]) == [] && Walk([], []) == [] && Assembled([]) == []
  {
  }

  lemma OneComponentMore(p: Path, parts: Path, part: string)
    requires p == parts + [part]
    ensures Normal(p) == Stacked(Normal(parts), part)
    ensures Walk([], p) == Enter(Walk([], parts), part)
    ensures Assembled(p) == Append(Assembled(parts), part)
  {
    assert p[..|parts|] == parts;
  }

  lemma UpOnce()
    ensures Walk([], ["etc"]) == ["etc"] && Walk([], ["etc", "new", UP]) == ["etc"]
  {
    hide Normal, Walk, Assembled, Stacked, Append;
    NothingToFold();
    OneComponentMore(["etc"], [], "etc");
    OneComponentMore(["etc", "new"], ["etc"], "new");
    OneComponentMore(["etc", "new", UP], ["etc", "new"], UP);
  }

  lemma EtcPlaces()
    ensures var p, a, b := [ROOT, "etc", "new", UP], [ROOT, "etc", ""], [ROOT, "etc"];
      && WellFormed(p) && WellFormed(a) && WellFormed(b) && !Dotless(p)
      && Core(a) == b == Core(b) && Place(p) == b && Place(a) == b
  {
    var p, a, b := [ROOT, "etc", "new", UP], [ROOT, "etc", ""], [ROOT, "etc"];
    assert p[3] == UP;
    UpOnce();
    hide Walk, Dotless;
    assert Core(p)[1..] == ["etc", "new", UP];
    assert Core(a)[1..] == ["etc"];
  }

  lemma NothingAtNew(tree: Tree)
    requires !tree.present([ROOT, "etc", "new"])
    ensures !Found(tree, [ROOT, "etc", "new", UP])
  {
    var p, q := [ROOT, "etc", "new", UP], [ROOT, "etc", "new"];
    assert p[..3] == q;
    assert Canonical(q) && Plain(q[2]);
    CanonicalParts(q);
    assert !Found(tree, q);
  }

  lemma EtcAnswers(tree: Tree)
    requires Consistent(tree) && tree.isDir([ROOT, "etc"]) && !tree.present([ROOT, "etc", "new"])
    ensures WeaklyCanonical(tree, [ROOT, "etc", "new", UP]) == [ROOT, "etc", ""]
    ensures WeaklyCanonical(tree, [ROOT, "etc", ""]) == [ROOT, "etc"]
  {
    var p, a, b := [ROOT, "etc", "new", UP], [ROOT, "etc", ""], [ROOT, "etc"];
    EtcPlaces();
    NothingAtNew(tree);
    assert Open(p) by { assert p[|p| - 1] == UP; }
    hide Found, Place, WellFormed, Dotless;
    assert b + [""] == a;
    AnswerAtPlace(tree, a, b);
  }

  /** An absolute path with dots can give an answer that resolves on: where `/etc` is a directory
      and `/etc/new` is not there, `/etc/new/..` resolves to `/etc/`, and that to `/etc`. */
  lemma AnswerCanMove() returns (files: Files)
    ensures files.tree.isDir([ROOT, "etc"]) && !files.tree.present([ROOT, "etc", "new"])
    ensures forall q :: NoLinks(files, q)
    ensures Resolved([ROOT], [ROOT, "etc", "new", UP], files) == Some([ROOT, "etc", ""])
    ensures Resolved([ROOT], [ROOT, "etc", ""], files) == Some([ROOT, "etc"])
  {
    var there: Path -> bool := q => q == [ROOT] || q == [ROOT, "etc"];
    var tree := Tree(there, there);
    files := Files(q => if Rooted(q) then Some(WeaklyCanonical(tree, q)) else None, tree);
    assert [ROOT, "etc"][..1] == [ROOT];
    assert Consistent(tree);
    EtcAnswers(tree);
  }

  /** Every request of a run finds a file system without symbolic links on its way. */
  ghost predicate NoLinksAlong(cwd: Path, rs: seq<Cd>) {
    rs == [] ||
    var before, r := rs[..|rs| - 1], rs[|rs| - 1];
    NoLinksAlong(cwd, before) && NoLinks(r.files, Handed(Follow(cwd, before), r.path))
  }

  /** The paths of the requests that succeed, joined into one. */
  function Joined(cwd: Path, rs: seq<Cd>): Path {
    if rs == [] then []
    else
      var before, r := rs[..|rs| - 1], rs[|rs| - 1];
      var p := Joined(cwd, before);
      if Respond(Follow(cwd, before), r).Changed? then Join(p, r.path) else p
  }

  predicate Relative(rs: seq<Cd>) {
    forall i :: 0 <= i < |rs| ==> WellFormed(rs[i].path) && !Rooted(rs[i].path)
  }

  lemma JoinRelative(a: Path, b: Path)
    requires WellFormed(a) && !Rooted(a) && WellFormed(b) && !Rooted(b)
    ensures WellFormed(Join(a, b)) && !Rooted(Join(a, b)) && Core(Join(a, b)) == Core(a) + Core(b)
  {
    CoreInner(a);
    if b == [] {
      assert Core(a) + Core(b) == Core(a);
    } else {
      CoreInner(b);
      JoinInner(Core(a), b);
    }
  }

  lemma EmptyPath()
    ensures WellFormed([])
  {
  }

  lemma {:induction false} JoinedIsRelative(cwd: Path, rs: seq<Cd>)
    requires Relative(rs)
    ensures WellFormed(Joined(cwd, rs)) && !Rooted(Joined(cwd, rs))
  {
    if rs != [] {
      hide Join, WellFormed, Respond, Follow;
      JoinedIsRelative(cwd, rs[..|rs| - 1]);
      assert WellFormed([]) by { EmptyPath(); }
      if Joined(cwd, rs) != Joined(cwd, rs[..|rs| - 1]) {
        JoinRelative(Joined(cwd, rs[..|rs| - 1]), rs[|rs| - 1].path);
      }
    }
  }

  lemma PlainPrefix(w: seq<string>, k: nat)
    requires AllPlain(w) && k <= |w|
    ensures AllPlain(w[..k])
  {
    hide Plain;
  }

  /** Names in place of as deep a path leave what follows as far below the root. */
  lemma StaysWalked(a: Path, w: seq<string>, b: Path)
    requires StaysBelowRoot(a + b) && AllPlain(w) && |w| == Downs(a) - Ups(a)
    ensures StaysBelowRoot(w + b)
  {
    hide Ups, Downs, Plain, AllPlain;
    forall k | 0 <= k <= |w + b| ensures Ups((w + b)[..k]) <= Downs((w + b)[..k]) {
      if k <= |w| {
        assert (w + b)[..k] == w[..k];
        PlainPrefix(w, k);
        CountsPlain(w[..k]);
      } else {
        var j := k - |w|;
        assert (w + b)[..k] == w + b[..j];
        assert (a + b)[..|a| + j] == a + b[..j];
        CountsPlain(w);
        CountsOn(w, b[..j]);
        CountsOn(a, b[..j]);
      }
    }
  }

  /** Walking part of the way first changes neither where the rest leads nor whether it stays
      below the root. */
  lemma WalkedFirst(a: Path, b: Path)
    requires Inner(a) && StaysBelowRoot(a + b)
    ensures StaysBelowRoot(Walk([], a) + b)
    ensures Walk([], Walk([], a) + b) == Walk([], a + b)
  {
    var w := Walk([], a);
    hide Walk, Ups, Downs, StaysBelowRoot, Plain;
    StaysPrefix(a, b);
    StackFollowsWalk(a);
    WalkEndsPlain(a);
    WalkPlain(w);
    WalkOn([], a, b);
    WalkOn([], w, b);
    StaysWalked(a, w, b);
  }

  /** The path reached from `cwd` by asking for `p`. */
  function Reached(cwd: Path, p: Path): Path
    requires Rooted(cwd)
  {
    [ROOT] + Walk([], Asked(cwd, p))
  }

  /** What a session's working directory is: an absolute path without dots, which may end in a
      slash when an absolute CD left it so. */
  predicate Settled(cwd: Path) {
    Rooted(cwd) && WellFormed(cwd) && Canonical(Core(cwd))
  }

  lemma SettledPath(cwd: Path)
    requires Settled(cwd)
    ensures Asked(cwd, []) == Core(cwd)[1..] && Reached(cwd, []) == Core(cwd)
  {
    assert Core(cwd) + Core([]) == Core(cwd);
    SlashedPlace(cwd, Core(cwd));
  }

  /** An absolute CD, from wherever the session is, succeeds exactly if `weakly_canonical` answers and
      the place its path leads to is a directory. It settles the session there, perhaps with a
      trailing slash. */
  lemma AbsoluteCd(cwd: Path, r: Cd)
    requires Rooted(r.path) && WellFormed(r.path) && NoLinks(r.files, r.path)
    ensures Respond(cwd, r) ==
      if r.files.canon(r.path).Some? && r.files.tree.isDir(Place(r.path))
      then Changed(WeaklyCanonical(r.files.tree, r.path)) else Failed
    ensures Settled(WeaklyCanonical(r.files.tree, r.path))
    ensures Core(WeaklyCanonical(r.files.tree, r.path)) == Place(r.path)
  {
    AnswerLeads(r.files.tree, r.path);
    hide WeaklyCanonical, Place, Core, Consistent, WellFormed, Canonical;
  }

  /** A relative CD below the root answers with the place itself, and succeeds exactly if
      `weakly_canonical` answers at all and the place is a directory. */
  lemma RelativeCd(cwd: Path, r: Cd)
    requires Settled(cwd) && WellFormed(r.path) && !Rooted(r.path)
    requires NoLinks(r.files, Handed(cwd, r.path)) && StaysBelowRoot(Asked(cwd, r.path))
    ensures Canonical(Reached(cwd, r.path)) && Settled(Reached(cwd, r.path))
    ensures Respond(cwd, r) ==
      if r.files.canon(Handed(cwd, r.path)).Some? && r.files.tree.isDir(Reached(cwd, r.path))
      then Changed(Reached(cwd, r.path)) else Failed
  {
    hide Canonical, WellFormed, Core, Asked, Walk, StaysBelowRoot, NoLinks;
    AskedIsCore(cwd, r.path);
    ResolvesLikeWalk(cwd, r.path, r.files);
    PlaceIsCanonical(Join(cwd, r.path));
  }

  lemma DropFirst(c: Path, p: Path, q: Path)
    requires c != []
    ensures (c + (p + q))[1..] == (c + p)[1..] + q
  {
  }

  lemma AskedMore(cwd: Path, p: Path, q: Path)
    requires Settled(cwd) && WellFormed(p) && !Rooted(p) && WellFormed(q) && !Rooted(q)
    ensures Asked(cwd, Join(p, q)) == Asked(cwd, p) + Core(q) && Inner(Asked(cwd, p))
  {
    assert Core(cwd) != [];
    hide Canonical, WellFormed, Core, Join, Inner;
    JoinRelative(p, q);
    AskedIsCore(cwd, p);
    DropFirst(Core(cwd), Core(p), Core(q));
  }

  lemma AskedNext(here: Path, names: seq<string>, q: Path)
    requires Rooted(here) && Core(here) == [ROOT] + names
    ensures Asked(here, q) == names + Core(q)
  {
    hide Core;
    assert ([ROOT] + names + Core(q))[1..] == names + Core(q);
  }

  /** Asking for `q` where `p` led is asking for both from the beginning. */
  lemma AskedInTurn(cwd: Path, p: Path, q: Path, here: Path)
    requires Settled(cwd) && WellFormed(p) && !Rooted(p) && WellFormed(q) && !Rooted(q)
    requires Settled(here) && Core(here) == Reached(cwd, p)
    requires StaysBelowRoot(Asked(cwd, Join(p, q)))
    ensures StaysBelowRoot(Asked(here, q)) && Reached(here, q) == Reached(cwd, Join(p, q))
  {
    var a, b := Asked(cwd, p), Core(q);
    AskedMore(cwd, p, q);
    hide Canonical, WellFormed, Core, Walk, Join, StaysBelowRoot, Inner, Asked;
    StaysPrefix(a, b);
    WalkedFirst(a, b);
    AskedNext(here, Walk([], a), q);
  }

  lemma JoinedBelowRoot(cwd: Path, p: Path, q: Path)
    requires Settled(cwd) && WellFormed(p) && !Rooted(p) && WellFormed(q) && !Rooted(q)
    requires StaysBelowRoot(Asked(cwd, Join(p, q)))
    ensures StaysBelowRoot(Asked(cwd, p))
  {
    AskedMore(cwd, p, q);
    hide Settled, WellFormed, Core, Join, StaysBelowRoot, Inner, Asked;
    StaysPrefix(Asked(cwd, p), Core(q));
  }

  lemma SettledCore(cwd: Path)
    requires Canonical(cwd)
    ensures Core(cwd) == cwd
  {
  }

  /** Composition: a run of relative CD requests, in which any may fail and between which the file
      system may change, leads where the joined path of those that succeed leads. */
  lemma {:induction false} CdsFollow(cwd: Path, rs: seq<Cd>)
    requires Settled(cwd) && Relative(rs) && NoLinksAlong(cwd, rs)
    requires StaysBelowRoot(Asked(cwd, Joined(cwd, rs)))
    ensures Settled(Follow(cwd, rs)) && Core(Follow(cwd, rs)) == Reached(cwd, Joined(cwd, rs))
  {
    if rs == [] {
      SettledPath(cwd);
    } else {
      var before, r := rs[..|rs| - 1], rs[|rs| - 1];
      var p, here := Joined(cwd, before), Follow(cwd, before);
      JoinedIsRelative(cwd, before);
      hide Settled, WellFormed, Reached, Join, StaysBelowRoot, NoLinks, Asked, Respond, Core;
      if Respond(here, r).Changed? {
        assert Joined(cwd, rs) == Join(p, r.path);
        JoinedBelowRoot(cwd, p, r.path);
        CdsFollow(cwd, before);
        AskedInTurn(cwd, p, r.path, here);
        RelativeCd(here, r);
        SettledCore(Reached(here, r.path));
      } else {
        CdsFollow(cwd, before);
      }
    }
  }

  /** So a single CD with that joined path, on a file system where the place the run came to is a
      directory and `weakly_canonical` does not throw, comes to that place too, and on every other
      fails. */
  lemma CdsCompose(cwd: Path, rs: seq<Cd>, files: Files)
    requires Settled(cwd) && Relative(rs) && NoLinksAlong(cwd, rs)
    requires StaysBelowRoot(Asked(cwd, Joined(cwd, rs))) && NoLinks(files, Handed(cwd, Joined(cwd, rs)))
    ensures var place := Core(Follow(cwd, rs));
      Respond(cwd, Cd(Joined(cwd, rs), files)) ==
        if files.canon(Handed(cwd, Joined(cwd, rs))).Some? && files.tree.isDir(place) then Changed(place) else Failed
  {
    hide Settled, WellFormed, Core, Join, StaysBelowRoot, NoLinks, Asked, Respond, Handed;
    JoinedIsRelative(cwd, rs);
    CdsFollow(cwd, rs);
    RelativeCd(cwd, Cd(Joined(cwd, rs), files));
  }

  lemma EnterUp(at: seq<string>)
    ensures Enter(at, UP) == if at == [] then [] else at[..|at| - 1]
  {
  }

  lemma WalkedUpTwice()
    ensures Walk([], ["home", UP, UP, "x"]) == ["x"]
  {
    assert Plain("home") && Plain("x");
    hide Normal, Walk, Assembled, Stacked, Append, Plain, Enter;
    NothingToFold();
    OneComponentMore(["home"], [], "home");
    OneComponentMore(["home", UP], ["home"], UP);
    OneComponentMore(["home", UP, UP], ["home", UP], UP);
    OneComponentMore(["home", UP, UP, "x"], ["home", UP, UP], "x");
    EnterPlain([], "home");
    EnterUp(["home"]);
    EnterUp([]);
    EnterPlain([], "x");
  }

  lemma StackedUpTwice()
    ensures Normal([ROOT, "home", UP, UP, "x"]) == ["x"]
  {
    hide Normal, Walk, Assembled, Enter, Append;
    NothingToFold();
    OneComponentMore([ROOT], [], ROOT);
    OneComponentMore([ROOT, "home"], [ROOT], "home");
    OneComponentMore([ROOT, "home", UP], [ROOT, "home"], UP);
    OneComponentMore([ROOT, "home", UP, UP], [ROOT, "home", UP], UP);
    OneComponentMore([ROOT, "home", UP, UP, "x"], [ROOT, "home", UP, UP], "x");
  }

  lemma UpTwice()
    ensures Walk([], ["home", UP, UP, "x"]) == ["x"]
    ensures Normal([ROOT, "home", UP, UP, "x"]) == ["x"]
    ensures Assembled(["x"]) == ["x"]
  {
    hide Normal, Walk, Assembled;
    NothingToFold();
    OneComponentMore(["x"], [], "x");
    WalkedUpTwice();
    StackedUpTwice();
  }

  /** Asking for the parent of the root is not harmless: from `/home`, `../../x` is handed on as
      the relative path `x`, where the directory tree has `/x`. */
  lemma RootCanBeLost()
    ensures var cwd, p := [ROOT, "home"], [UP, UP, "x"];
      Canonical(cwd) && WellFormed(p) && !Rooted(p) && Handed(cwd, p) == ["x"] && Reached(cwd, p) == [ROOT, "x"]
  {
    var cwd, p := [ROOT, "home"], [UP, UP, "x"];
    assert Asked(cwd, p) == ["home", UP, UP, "x"];
    assert Join(cwd, p) == [ROOT, "home", UP, UP, "x"];
    hide Normal, Walk, Assembled, Asked, Join;
    UpTwice();
  }

  lemma DotsStacked()
    ensures Normal(["/", "a", "b", "..", ".", "c"]) == ["/", "a", "c"]
  {
    hide Normal, Walk, Assembled, Enter, Append;
    NothingToFold();
    OneComponentMore(["/"], [], "/");
    OneComponentMore(["/", "a"], ["/"], "a");
    OneComponentMore(["/", "a", "b"], ["/", "a"], "b");
    OneComponentMore(["/", "a", "b", ".."], ["/", "a", "b"], "..");
    OneComponentMore(["/", "a", "b", "..", "."], ["/", "a", "b", ".."], ".");
    OneComponentMore(["/", "a", "b", "..", ".", "c"], ["/", "a", "b", "..", "."], "c");
  }

  lemma DotsAssembled()
    ensures Assembled(["/", "a", "c"]) == ["/", "a", "c"]
  {
    assert [ROOT] + ["a", "c"] == ["/", "a", "c"];
    AssembledStack(["a", "c"]);
  }

  /** The dots and the root as the system writes them: from `/a/b`, `.././c` is handed on as `/a/c`. */
  lemma DotsByName()
    ensures Handed(["/", "a", "b"], ["..", ".", "c"]) == ["/", "a", "c"]
  {
    assert Join(["/", "a", "b"], ["..", ".", "c"]) == ["/", "a", "b", "..", ".", "c"];
    hide Normal, Walk, Assembled, Join;
    DotsStacked();
    DotsAssembled();
  }
}
