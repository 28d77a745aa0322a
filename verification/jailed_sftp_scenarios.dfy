/**
  The resolution scenarios of the subsystem's test suite, one lemma each, stated
  for any names rather than only the suite's `bucket`, `users` and `bob`: the
  bucket, jail, user and file names are parameters that only need to be
  segments (and, where the suite's names differ, to differ). The lookups default
  to "" and the user's filesystem is present unless a scenario says otherwise.
 */
module JailedSftpScenarios {
  import opened PathSegments
  import opened JailedSftp

  /** No home, no jail: the session sees the whole bucket. */
  function RootSession(bucket: string): Context {
    Context(bucket, "", "", true)
  }

  /** Home `<user>`, no jail. */
  function HomeSession(bucket: string, user: string): Context {
    Context(bucket, user, "", true)
  }

  /** Home `<jail>/<user>` inside jail `<jail>`: the client should only see `<user>`. */
  function JailedSession(bucket: string, jail: string, user: string): Context {
    Context(bucket, jail + "/" + user, jail, true)
  }

  // ---------------------------------------------------------------------------
  // Reading requests and composing a scenario
  //
  // Each scenario is split in two on purpose. Its `...Steps` twin does the
  // string and sequence reasoning (reading the request, placing its segments,
  // spelling the shown path), and the scenario itself only calls lemmas whose
  // ensures match `Shows`'s requires exactly. When that reasoning sits next to
  // the `ResolveFile` goal, the solver also unfolds `Normalize` and the
  // resolution contracts and exceeds its resource budget. The per-arity helpers
  // (`JoinTwo`, `ReadsAbsoluteTwo`, `ShowsTwo`, ...) exist for the same reason:
  // each gives a fact in exactly the form a scenario states it.

  lemma JoinOne(a: string)
    ensures Join([a]) == a
  {
  }

  lemma JoinTwo(a: string, b: string)
    ensures Join([a, b]) == a + "/" + b
  {
    assert [a, b][1..] == [b];
  }

  lemma JoinThree(a: string, b: string, c: string)
    ensures Join([a, b, c]) == a + "/" + b + "/" + c
  {
    assert [a, b, c][1..] == [b, c];
    JoinTwo(b, c);
  }

  lemma JoinFour(a: string, b: string, c: string, d: string)
    ensures Join([a, b, c, d]) == a + "/" + b + "/" + c + "/" + d
  {
    assert [a, b, c, d][1..] == [b, c, d];
    JoinThree(b, c, d);
  }

  /** A relative request spelled as its segments joined by separators. */
  lemma ReadsRelative(s: string, segs: seq<string>)
    requires AllSegments(segs) && segs != [] && s == Join(segs)
    ensures Normalize(s) == segs && !IsAbsolute(s)
  {
    NormalizeJoin(segs);
    if |segs| == 1 {
      assert segs[0][0] in segs[0];
    } else {
      assert s == segs[0] + ([Separator] + Join(segs[1..]));
      assert s[0] == segs[0][0];
      assert segs[0][0] in segs[0];
    }
  }

  /** An absolute request spelled as a separator and its segments. */
  lemma ReadsAbsolute(s: string, segs: seq<string>)
    requires AllSegments(segs) && s == "/" + Join(segs)
    ensures Normalize(s) == segs && IsAbsolute(s)
  {
    NormalizeJoin(segs);
    assert s == "" + [Separator] + Join(segs);
    NormalizeAppend("", Join(segs));
    assert Normalize("") == [];
  }

  lemma ReadsAbsoluteFour(a: string, b: string, c: string, d: string)
    requires IsSegment(a) && IsSegment(b) && IsSegment(c) && IsSegment(d)
    ensures Normalize("/" + a + "/" + b + "/" + c + "/" + d) == [a, b, c, d]
    ensures IsAbsolute("/" + a + "/" + b + "/" + c + "/" + d)
  {
    JoinFour(a, b, c, d);
    ReadsAbsolute("/" + a + "/" + b + "/" + c + "/" + d, [a, b, c, d]);
  }

  lemma ReadsAbsoluteParent(a: string, b: string, c: string)
    requires IsSegment(a) && IsSegment(b) && IsSegment(c)
    ensures Normalize("/" + a + "/" + b + "/" + c + "/..") == [a, b, c, ".."]
    ensures IsAbsolute("/" + a + "/" + b + "/" + c + "/..")
  {
    assert "/" + a + "/" + b + "/" + c + "/.." == "/" + a + "/" + b + "/" + c + "/" + "..";
    ReadsAbsoluteFour(a, b, c, "..");
  }

  lemma ReadsOne(a: string)
    requires IsSegment(a)
    ensures Normalize(a) == [a] && !IsAbsolute(a)
  {
    JoinOne(a);
    ReadsRelative(a, [a]);
  }

  lemma ReadsAbsoluteOne(a: string)
    requires IsSegment(a)
    ensures Normalize("/" + a) == [a] && IsAbsolute("/" + a)
  {
    JoinOne(a);
    ReadsAbsolute("/" + a, [a]);
  }

  lemma ReadsAbsoluteTwo(a: string, b: string)
    requires IsSegment(a) && IsSegment(b)
    ensures Normalize("/" + a + "/" + b) == [a, b] && IsAbsolute("/" + a + "/" + b)
  {
    JoinTwo(a, b);
    ReadsAbsolute("/" + a + "/" + b, [a, b]);
  }

  lemma ReadsAbsoluteThree(a: string, b: string, c: string)
    requires IsSegment(a) && IsSegment(b) && IsSegment(c)
    ensures Normalize("/" + a + "/" + b + "/" + c) == [a, b, c] && IsAbsolute("/" + a + "/" + b + "/" + c)
  {
    JoinThree(a, b, c);
    ReadsAbsolute("/" + a + "/" + b + "/" + c, [a, b, c]);
  }

  lemma ReadsAbsoluteTwoDot(a: string, b: string)
    requires IsSegment(a) && IsSegment(b)
    ensures Normalize("/" + a + "/" + b + "/.") == [a, b] && IsAbsolute("/" + a + "/" + b + "/.")
  {
    ReadsAbsoluteTwo(a, b);
    ReadsTrailingDot("/" + a + "/" + b);
  }

  lemma ReadsRelativeDot(a: string)
    requires IsSegment(a)
    ensures Normalize(a + "/.") == [a] && !IsAbsolute(a + "/.")
  {
    ReadsOne(a);
    ReadsTrailingDot(a);
  }

  lemma ReadsRelativeParent(a: string, b: string)
    requires IsSegment(a) && IsSegment(b)
    ensures Normalize(a + "/" + b + "/..") == [a, b, ".."] && !IsAbsolute(a + "/" + b + "/..")
  {
    JoinThree(a, b, "..");
    assert a + "/" + b + "/.." == a + "/" + b + "/" + "..";
    ReadsRelative(a + "/" + b + "/..", [a, b, ".."]);
  }

  /** Under a jail, an absolute request starting with the visible root (and not
      with the bucket) is read below the visible root. */
  lemma PlacedBelowVisibleRoot(bucket: string, jail: string, user: string, rest: seq<string>)
    requires IsSegment(jail) && IsSegment(user) && AllSegments(rest) && user != bucket
    ensures AllSegments([user] + rest)
    ensures Place(bucket, Jailed([jail], user), [user] + rest, true) == Location([jail, user] + rest, user, rest)
  {
    var segs := [user] + rest;
    assert AllSegments(segs) by {
      assert forall i :: 1 <= i < |segs| ==> segs[i] == rest[i - 1];
    }
    assert segs[0] == user;
    assert !([bucket, jail, user] <= segs) by {
      assert [bucket, jail, user][0] != segs[0];
    }
    assert [user] <= segs;
    assert segs[1..] == rest;
  }

  /** Under a jail, the full storage path is read below the visible root. */
  lemma FullPathPlaced(bucket: string, jail: string, user: string, name: string)
    requires IsSegment(bucket) && IsSegment(jail) && IsSegment(user) && IsSegment(name)
    ensures Place(bucket, Jailed([jail], user), [bucket, jail, user, name], true) == Location([jail, user, name], user, [name])
  {
    var segs := [bucket, jail, user, name];
    assert [bucket, jail, user] <= segs;
    assert segs[3..] == [name];
    assert [jail, user] + [name] == [jail, user, name];
  }

  /** A trailing "." adds nothing to a request's segments. */
  lemma ReadsTrailingDot(prefix: string)
    ensures Normalize(prefix + "/.") == Normalize(prefix)
    ensures prefix != "" ==> IsAbsolute(prefix + "/.") == IsAbsolute(prefix)
  {
    assert prefix + "/." == prefix + [Separator] + ".";
    NormalizeAppend(prefix, ".");
    ReadsDot();
    if prefix != "" {
      assert (prefix + "/.")[0] == prefix[0];
    }
  }

  /** "." names nothing. */
  lemma ReadsDot()
    ensures Normalize(".") == [] && !IsAbsolute(".")
  {
    SplitNoSeparator(".");
    assert Clean(["."]) == Clean([]);
  }

  /** Neither does the empty request or "/" alone. */
  lemma ReadsEmpty()
    ensures Normalize("") == [] && !IsAbsolute("")
    ensures Normalize("/") == [] && IsAbsolute("/")
  {
    ReadsAbsolute("/", []);
  }

  /** Once the context is validated, the request read and its segments placed,
      the client is shown the display path of the placement. */
  lemma Shows(ctx: Context, input: string, m: Mount, segs: seq<string>, loc: Location, shown: string)
    requires Validate(ctx) == Success(m)
    requires Normalize(input) == segs
    requires Place(ctx.bucket, m, segs, IsAbsolute(input)) == loc
    requires DisplayPath(loc) == shown
    ensures ResolveFile(ctx, input) == Success(shown)
  {
  }

  /** A context that fails validation fails every request with the same error. */
  lemma FailsWith(ctx: Context, input: string, e: ResolveError)
    requires Validate(ctx) == Failure(e)
    ensures ResolveFile(ctx, input) == Failure(e)
  {
  }

  lemma RootMount(bucket: string)
    ensures Validate(RootSession(bucket)) == Success(Unjailed([]))
  {
    ReadsEmpty();
  }

  lemma HomeMount(bucket: string, user: string)
    requires IsSegment(user)
    ensures Validate(HomeSession(bucket, user)) == Success(Unjailed([user]))
  {
    NormalizeSegment(user);
  }

  lemma JailedMount(bucket: string, jail: string, user: string)
    requires IsSegment(jail) && IsSegment(user)
    ensures Validate(JailedSession(bucket, jail, user)) == Success(Jailed([jail], user))
  {
    JoinTwo(jail, user);
    ReadsRelative(jail + "/" + user, [jail, user]);
    NormalizeSegment(jail);
    assert [jail] <= [jail, user];
  }

  /** The root shown with nothing below it keeps its trailing separator. */
  lemma ShowsRoot(root: string)
    ensures DirPath(root, []) == "/" + root + "/"
  {
  }

  lemma ShowsOne(root: string, a: string)
    ensures DirPath(root, [a]) == "/" + root + "/" + a
  {
  }

  lemma ShowsTwo(root: string, a: string, b: string)
    ensures DirPath(root, [a, b]) == "/" + root + "/" + a + "/" + b
  {
    JoinTwo(a, b);
  }

  lemma ShowsThree(root: string, a: string, b: string, c: string)
    ensures DirPath(root, [a, b, c]) == "/" + root + "/" + a + "/" + b + "/" + c
  {
    JoinThree(a, b, c);
  }

  lemma ShowsFour(root: string, a: string, b: string, c: string, d: string)
    ensures DirPath(root, [a, b, c, d]) == "/" + root + "/" + a + "/" + b + "/" + c + "/" + d
  {
    JoinFour(a, b, c, d);
  }

  // ---------------------------------------------------------------------------
  // Without a home or a jail: the whole bucket is visible

  /** "." is the bucket itself, shown with its trailing separator. */
  lemma RootResolvesDot(bucket: string)
    ensures ResolveFile(RootSession(bucket), ".") == Success("/" + bucket + "/")
  {
    RootMount(bucket);
    RootResolvesDotSteps(bucket);
    Shows(RootSession(bucket), ".", Unjailed([]), [], Location([], bucket, []), "/" + bucket + "/");
  }

  lemma RootResolvesDotSteps(bucket: string)
    ensures Normalize(".") == [] && IsAbsolute(".") == false
    ensures Place(bucket, Unjailed([]), [], false) == Location([], bucket, [])
    ensures DisplayPath(Location([], bucket, [])) == "/" + bucket + "/"
  {
    ReadsDot();
    ShowsRoot(bucket);
  }

  /** An absolute directory or file lies directly below the bucket. */
  lemma RootResolvesAbsolute(bucket: string, name: string)
    requires IsSegment(name) && name != bucket
    ensures ResolveFile(RootSession(bucket), "/" + name) == Success("/" + bucket + "/" + name)
  {
    RootMount(bucket);
    RootResolvesAbsoluteSteps(bucket, name);
    Shows(RootSession(bucket), "/" + name, Unjailed([]), [name], Location([name], bucket, [name]), "/" + bucket + "/" + name);
  }

  lemma RootResolvesAbsoluteSteps(bucket: string, name: string)
    requires IsSegment(name) && name != bucket
    ensures Normalize("/" + name) == [name] && IsAbsolute("/" + name) == true
    ensures Place(bucket, Unjailed([]), [name], true) == Location([name], bucket, [name])
    ensures DisplayPath(Location([name], bucket, [name])) == "/" + bucket + "/" + name
  {
    ReadsAbsoluteOne(name);
    assert [bucket][0] != [name][0];
    ShowsOne(bucket, name);
  }

  /** A request that already names the bucket passes through. */
  lemma RootPassesPreresolved(bucket: string, name: string)
    requires IsSegment(bucket) && IsSegment(name)
    ensures ResolveFile(RootSession(bucket), "/" + bucket + "/" + name) == Success("/" + bucket + "/" + name)
  {
    RootMount(bucket);
    RootPassesPreresolvedSteps(bucket, name);
    Shows(RootSession(bucket), "/" + bucket + "/" + name, Unjailed([]), [bucket, name], Location([name], bucket, [name]), "/" + bucket + "/" + name);
  }

  lemma RootPassesPreresolvedSteps(bucket: string, name: string)
    requires IsSegment(bucket) && IsSegment(name)
    ensures Normalize("/" + bucket + "/" + name) == [bucket, name] && IsAbsolute("/" + bucket + "/" + name) == true
    ensures Place(bucket, Unjailed([]), [bucket, name], true) == Location([name], bucket, [name])
    ensures DisplayPath(Location([name], bucket, [name])) == "/" + bucket + "/" + name
  {
    ReadsAbsoluteTwo(bucket, name);
    assert [bucket] <= [bucket, name];
    assert [bucket, name][1..] == [name];
    ShowsOne(bucket, name);
  }

  /** A trailing "." is dropped. */
  lemma RootDropsTrailingDot(bucket: string, dir: string)
    requires IsSegment(dir)
    ensures ResolveFile(RootSession(bucket), dir + "/.") == Success("/" + bucket + "/" + dir)
  {
    RootMount(bucket);
    RootDropsTrailingDotSteps(bucket, dir);
    Shows(RootSession(bucket), dir + "/.", Unjailed([]), [dir], Location([dir], bucket, [dir]), "/" + bucket + "/" + dir);
  }

  lemma RootDropsTrailingDotSteps(bucket: string, dir: string)
    requires IsSegment(dir)
    ensures Normalize(dir + "/.") == [dir] && IsAbsolute(dir + "/.") == false
    ensures Place(bucket, Unjailed([]), [dir], false) == Location([dir], bucket, [dir])
    ensures DisplayPath(Location([dir], bucket, [dir])) == "/" + bucket + "/" + dir
  {
    ReadsRelativeDot(dir);
    ShowsOne(bucket, dir);
  }

  /** ".." is kept literally. */
  lemma RootKeepsParent(bucket: string, dir: string, sub: string)
    requires IsSegment(dir) && IsSegment(sub)
    ensures ResolveFile(RootSession(bucket), dir + "/" + sub + "/..") == Success("/" + bucket + "/" + dir + "/" + sub + "/..")
  {
    RootMount(bucket);
    RootKeepsParentSteps(bucket, dir, sub);
    Shows(RootSession(bucket), dir + "/" + sub + "/..", Unjailed([]), [dir, sub, ".."], Location([dir, sub, ".."], bucket, [dir, sub, ".."]), "/" + bucket + "/" + dir + "/" + sub + "/..");
  }

  lemma RootKeepsParentSteps(bucket: string, dir: string, sub: string)
    requires IsSegment(dir) && IsSegment(sub)
    ensures Normalize(dir + "/" + sub + "/..") == [dir, sub, ".."] && IsAbsolute(dir + "/" + sub + "/..") == false
    ensures Place(bucket, Unjailed([]), [dir, sub, ".."], false) == Location([dir, sub, ".."], bucket, [dir, sub, ".."])
    ensures DisplayPath(Location([dir, sub, ".."], bucket, [dir, sub, ".."])) == "/" + bucket + "/" + dir + "/" + sub + "/.."
  {
    ReadsRelativeParent(dir, sub);
    ShowsThree(bucket, dir, sub, "..");
    assert "/" + bucket + "/" + dir + "/" + sub + "/" + ".." == "/" + bucket + "/" + dir + "/" + sub + "/..";
  }

  // ---------------------------------------------------------------------------
  // Home `<user>`, no jail: everything is placed under the home

  /** The empty request is the home directory, shown without a trailing separator. */
  lemma HomeResolvesEmpty(bucket: string, user: string)
    requires IsSegment(user)
    ensures ResolveFile(HomeSession(bucket, user), "") == Success("/" + bucket + "/" + user)
  {
    HomeMount(bucket, user);
    HomeResolvesEmptySteps(bucket, user);
    Shows(HomeSession(bucket, user), "", Unjailed([user]), [], Location([user], bucket, [user]), "/" + bucket + "/" + user);
  }

  lemma HomeResolvesEmptySteps(bucket: string, user: string)
    requires IsSegment(user)
    ensures Normalize("") == [] && IsAbsolute("") == false
    ensures Place(bucket, Unjailed([user]), [], false) == Location([user], bucket, [user])
    ensures DisplayPath(Location([user], bucket, [user])) == "/" + bucket + "/" + user
  {
    ReadsEmpty();
    assert [user] + [] == [user];
    ShowsOne(bucket, user);
  }

  /** A relative file lies below the home. */
  lemma HomeResolvesRelative(bucket: string, user: string, name: string)
    requires IsSegment(user) && IsSegment(name)
    ensures ResolveFile(HomeSession(bucket, user), name) == Success("/" + bucket + "/" + user + "/" + name)
  {
    HomeMount(bucket, user);
    HomeResolvesRelativeSteps(bucket, user, name);
    Shows(HomeSession(bucket, user), name, Unjailed([user]), [name], Location([user, name], bucket, [user, name]), "/" + bucket + "/" + user + "/" + name);
  }

  lemma HomeResolvesRelativeSteps(bucket: string, user: string, name: string)
    requires IsSegment(user) && IsSegment(name)
    ensures Normalize(name) == [name] && IsAbsolute(name) == false
    ensures Place(bucket, Unjailed([user]), [name], false) == Location([user, name], bucket, [user, name])
    ensures DisplayPath(Location([user, name], bucket, [user, name])) == "/" + bucket + "/" + user + "/" + name
  {
    ReadsOne(name);
    ShowsTwo(bucket, user, name);
  }

  /** "." is the home directory. */
  lemma HomeResolvesDot(bucket: string, user: string)
    requires IsSegment(user)
    ensures ResolveFile(HomeSession(bucket, user), ".") == Success("/" + bucket + "/" + user)
  {
    HomeMount(bucket, user);
    HomeResolvesDotSteps(bucket, user);
    Shows(HomeSession(bucket, user), ".", Unjailed([user]), [], Location([user], bucket, [user]), "/" + bucket + "/" + user);
  }

  lemma HomeResolvesDotSteps(bucket: string, user: string)
    requires IsSegment(user)
    ensures Normalize(".") == [] && IsAbsolute(".") == false
    ensures Place(bucket, Unjailed([user]), [], false) == Location([user], bucket, [user])
    ensures DisplayPath(Location([user], bucket, [user])) == "/" + bucket + "/" + user
  {
    ReadsDot();
    assert [user] + [] == [user];
    ShowsOne(bucket, user);
  }

  /** An absolute directory or file is still read below the home. */
  lemma HomeResolvesAbsolute(bucket: string, user: string, name: string)
    requires IsSegment(user) && IsSegment(name) && name != bucket
    ensures ResolveFile(HomeSession(bucket, user), "/" + name) == Success("/" + bucket + "/" + user + "/" + name)
  {
    HomeMount(bucket, user);
    HomeResolvesAbsoluteSteps(bucket, user, name);
    Shows(HomeSession(bucket, user), "/" + name, Unjailed([user]), [name], Location([user, name], bucket, [user, name]), "/" + bucket + "/" + user + "/" + name);
  }

  lemma HomeResolvesAbsoluteSteps(bucket: string, user: string, name: string)
    requires IsSegment(user) && IsSegment(name) && name != bucket
    ensures Normalize("/" + name) == [name] && IsAbsolute("/" + name) == true
    ensures Place(bucket, Unjailed([user]), [name], true) == Location([user, name], bucket, [user, name])
    ensures DisplayPath(Location([user, name], bucket, [user, name])) == "/" + bucket + "/" + user + "/" + name
  {
    ReadsAbsoluteOne(name);
    assert [bucket][0] != [name][0];
    ShowsTwo(bucket, user, name);
  }

  /** A request that already names the bucket passes through. */
  lemma HomePassesPreresolved(bucket: string, user: string, name: string)
    requires IsSegment(bucket) && IsSegment(user) && IsSegment(name)
    ensures ResolveFile(HomeSession(bucket, user), "/" + bucket + "/" + user + "/" + name) == Success("/" + bucket + "/" + user + "/" + name)
  {
    HomeMount(bucket, user);
    HomePassesPreresolvedSteps(bucket, user, name);
    Shows(HomeSession(bucket, user), "/" + bucket + "/" + user + "/" + name, Unjailed([user]), [bucket, user, name], Location([user, name], bucket, [user, name]), "/" + bucket + "/" + user + "/" + name);
  }

  lemma HomePassesPreresolvedSteps(bucket: string, user: string, name: string)
    requires IsSegment(bucket) && IsSegment(user) && IsSegment(name)
    ensures Normalize("/" + bucket + "/" + user + "/" + name) == [bucket, user, name] && IsAbsolute("/" + bucket + "/" + user + "/" + name) == true
    ensures Place(bucket, Unjailed([user]), [bucket, user, name], true) == Location([user, name], bucket, [user, name])
    ensures DisplayPath(Location([user, name], bucket, [user, name])) == "/" + bucket + "/" + user + "/" + name
  {
    ReadsAbsoluteThree(bucket, user, name);
    assert [bucket] <= [bucket, user, name];
    assert [bucket, user, name][1..] == [user, name];
    ShowsTwo(bucket, user, name);
  }

  /** A trailing "." is dropped. */
  lemma HomeDropsTrailingDot(bucket: string, user: string, dir: string)
    requires IsSegment(user) && IsSegment(dir)
    ensures ResolveFile(HomeSession(bucket, user), dir + "/.") == Success("/" + bucket + "/" + user + "/" + dir)
  {
    HomeMount(bucket, user);
    HomeDropsTrailingDotSteps(bucket, user, dir);
    Shows(HomeSession(bucket, user), dir + "/.", Unjailed([user]), [dir], Location([user, dir], bucket, [user, dir]), "/" + bucket + "/" + user + "/" + dir);
  }

  lemma HomeDropsTrailingDotSteps(bucket: string, user: string, dir: string)
    requires IsSegment(user) && IsSegment(dir)
    ensures Normalize(dir + "/.") == [dir] && IsAbsolute(dir + "/.") == false
    ensures Place(bucket, Unjailed([user]), [dir], false) == Location([user, dir], bucket, [user, dir])
    ensures DisplayPath(Location([user, dir], bucket, [user, dir])) == "/" + bucket + "/" + user + "/" + dir
  {
    ReadsRelativeDot(dir);
    ShowsTwo(bucket, user, dir);
  }

  /** ".." is kept literally. */
  lemma HomeKeepsParent(bucket: string, user: string, dir: string, sub: string)
    requires IsSegment(user) && IsSegment(dir) && IsSegment(sub)
    ensures ResolveFile(HomeSession(bucket, user), dir + "/" + sub + "/..") == Success("/" + bucket + "/" + user + "/" + dir + "/" + sub + "/..")
  {
    HomeMount(bucket, user);
    HomeKeepsParentSteps(bucket, user, dir, sub);
    Shows(HomeSession(bucket, user), dir + "/" + sub + "/..", Unjailed([user]), [dir, sub, ".."], Location([user, dir, sub, ".."], bucket, [user, dir, sub, ".."]), "/" + bucket + "/" + user + "/" + dir + "/" + sub + "/..");
  }

  lemma HomeKeepsParentSteps(bucket: string, user: string, dir: string, sub: string)
    requires IsSegment(user) && IsSegment(dir) && IsSegment(sub)
    ensures Normalize(dir + "/" + sub + "/..") == [dir, sub, ".."] && IsAbsolute(dir + "/" + sub + "/..") == false
    ensures Place(bucket, Unjailed([user]), [dir, sub, ".."], false) == Location([user, dir, sub, ".."], bucket, [user, dir, sub, ".."])
    ensures DisplayPath(Location([user, dir, sub, ".."], bucket, [user, dir, sub, ".."])) == "/" + bucket + "/" + user + "/" + dir + "/" + sub + "/.."
  {
    ReadsRelativeParent(dir, sub);
    assert [user] + [dir, sub, ".."] == [user, dir, sub, ".."];
    ShowsFour(bucket, user, dir, sub, "..");
    assert "/" + bucket + "/" + user + "/" + dir + "/" + sub + "/" + ".." == "/" + bucket + "/" + user + "/" + dir + "/" + sub + "/..";
  }

  // ---------------------------------------------------------------------------
  // Home `<jail>/<user>` in jail `<jail>`: only `<user>` is visible

  /** "." is the visible root. */
  lemma JailedResolvesDot(bucket: string, jail: string, user: string)
    requires IsSegment(jail) && IsSegment(user)
    ensures ResolveFile(JailedSession(bucket, jail, user), ".") == Success("/" + user + "/")
  {
    JailedMount(bucket, jail, user);
    JailedResolvesDotSteps(bucket, jail, user);
    Shows(JailedSession(bucket, jail, user), ".", Jailed([jail], user), [], Location([jail, user], user, []), "/" + user + "/");
  }

  lemma JailedResolvesDotSteps(bucket: string, jail: string, user: string)
    requires IsSegment(jail) && IsSegment(user)
    ensures Normalize(".") == [] && IsAbsolute(".") == false
    ensures Place(bucket, Jailed([jail], user), [], false) == Location([jail, user], user, [])
    ensures DisplayPath(Location([jail, user], user, [])) == "/" + user + "/"
  {
    ReadsDot();
    assert JailedRest(bucket, Jailed([jail], user), [], false) == [];
    ShowsRoot(user);
  }

  /** The visible root named absolutely is the visible root. */
  lemma JailedResolvesHome(bucket: string, jail: string, user: string)
    requires IsSegment(jail) && IsSegment(user) && user != bucket
    ensures ResolveFile(JailedSession(bucket, jail, user), "/" + user) == Success("/" + user + "/")
  {
    JailedMount(bucket, jail, user);
    JailedResolvesHomeSteps(bucket, jail, user);
    Shows(JailedSession(bucket, jail, user), "/" + user, Jailed([jail], user), [user], Location([jail, user], user, []), "/" + user + "/");
  }

  lemma JailedResolvesHomeSteps(bucket: string, jail: string, user: string)
    requires IsSegment(jail) && IsSegment(user) && user != bucket
    ensures Normalize("/" + user) == [user] && IsAbsolute("/" + user) == true
    ensures Place(bucket, Jailed([jail], user), [user], true) == Location([jail, user], user, [])
    ensures DisplayPath(Location([jail, user], user, [])) == "/" + user + "/"
  {
    ReadsAbsoluteOne(user);
    PlacedBelowVisibleRoot(bucket, jail, user, []);
    assert [user] + [] == [user] && [jail, user] + [] == [jail, user];
    ShowsRoot(user);
  }

  /** A file below the visible root is shown below it. */
  lemma JailedResolvesFile(bucket: string, jail: string, user: string, name: string)
    requires IsSegment(jail) && IsSegment(user) && IsSegment(name) && user != bucket
    ensures ResolveFile(JailedSession(bucket, jail, user), "/" + user + "/" + name) == Success("/" + user + "/" + name)
  {
    JailedMount(bucket, jail, user);
    JailedResolvesFileSteps(bucket, jail, user, name);
    Shows(JailedSession(bucket, jail, user), "/" + user + "/" + name, Jailed([jail], user), [user, name], Location([jail, user, name], user, [name]), "/" + user + "/" + name);
  }

  lemma JailedResolvesFileSteps(bucket: string, jail: string, user: string, name: string)
    requires IsSegment(jail) && IsSegment(user) && IsSegment(name) && user != bucket
    ensures Normalize("/" + user + "/" + name) == [user, name] && IsAbsolute("/" + user + "/" + name) == true
    ensures Place(bucket, Jailed([jail], user), [user, name], true) == Location([jail, user, name], user, [name])
    ensures DisplayPath(Location([jail, user, name], user, [name])) == "/" + user + "/" + name
  {
    ReadsAbsoluteTwo(user, name);
    PlacedBelowVisibleRoot(bucket, jail, user, [name]);
    assert [user] + [name] == [user, name] && [jail, user] + [name] == [jail, user, name];
    ShowsOne(user, name);
  }

  /** The full storage path of a file is shown below the visible root. */
  lemma JailedShowsFullPath(bucket: string, jail: string, user: string, name: string)
    requires IsSegment(bucket) && IsSegment(jail) && IsSegment(user) && IsSegment(name)
    ensures ResolveFile(JailedSession(bucket, jail, user), "/" + bucket + "/" + jail + "/" + user + "/" + name) == Success("/" + user + "/" + name)
  {
    JailedMount(bucket, jail, user);
    JailedShowsFullPathSteps(bucket, jail, user, name);
    Shows(JailedSession(bucket, jail, user), "/" + bucket + "/" + jail + "/" + user + "/" + name, Jailed([jail], user), [bucket, jail, user, name], Location([jail, user, name], user, [name]), "/" + user + "/" + name);
  }

  lemma JailedShowsFullPathSteps(bucket: string, jail: string, user: string, name: string)
    requires IsSegment(bucket) && IsSegment(jail) && IsSegment(user) && IsSegment(name)
    ensures Normalize("/" + bucket + "/" + jail + "/" + user + "/" + name) == [bucket, jail, user, name] && IsAbsolute("/" + bucket + "/" + jail + "/" + user + "/" + name) == true
    ensures Place(bucket, Jailed([jail], user), [bucket, jail, user, name], true) == Location([jail, user, name], user, [name])
    ensures DisplayPath(Location([jail, user, name], user, [name])) == "/" + user + "/" + name
  {
    ReadsAbsoluteFour(bucket, jail, user, name);
    FullPathPlaced(bucket, jail, user, name);
    ShowsOne(user, name);
  }

  /** A trailing "." is dropped. */
  lemma JailedDropsTrailingDot(bucket: string, jail: string, user: string, dir: string)
    requires IsSegment(jail) && IsSegment(user) && IsSegment(dir) && user != bucket
    ensures ResolveFile(JailedSession(bucket, jail, user), "/" + user + "/" + dir + "/.") == Success("/" + user + "/" + dir)
  {
    JailedMount(bucket, jail, user);
    JailedDropsTrailingDotSteps(bucket, jail, user, dir);
    Shows(JailedSession(bucket, jail, user), "/" + user + "/" + dir + "/.", Jailed([jail], user), [user, dir], Location([jail, user, dir], user, [dir]), "/" + user + "/" + dir);
  }

  lemma JailedDropsTrailingDotSteps(bucket: string, jail: string, user: string, dir: string)
    requires IsSegment(jail) && IsSegment(user) && IsSegment(dir) && user != bucket
    ensures Normalize("/" + user + "/" + dir + "/.") == [user, dir] && IsAbsolute("/" + user + "/" + dir + "/.") == true
    ensures Place(bucket, Jailed([jail], user), [user, dir], true) == Location([jail, user, dir], user, [dir])
    ensures DisplayPath(Location([jail, user, dir], user, [dir])) == "/" + user + "/" + dir
  {
    ReadsAbsoluteTwoDot(user, dir);
    PlacedBelowVisibleRoot(bucket, jail, user, [dir]);
    assert [user] + [dir] == [user, dir] && [jail, user] + [dir] == [jail, user, dir];
    ShowsOne(user, dir);
  }

  /** ".." is kept literally. */
  lemma JailedKeepsParent(bucket: string, jail: string, user: string, dir: string, sub: string)
    requires IsSegment(jail) && IsSegment(user) && IsSegment(dir) && IsSegment(sub) && user != bucket
    ensures ResolveFile(JailedSession(bucket, jail, user), "/" + user + "/" + dir + "/" + sub + "/..") == Success("/" + user + "/" + dir + "/" + sub + "/..")
  {
    JailedMount(bucket, jail, user);
    JailedKeepsParentSteps(bucket, jail, user, dir, sub);
    Shows(JailedSession(bucket, jail, user), "/" + user + "/" + dir + "/" + sub + "/..", Jailed([jail], user), [user, dir, sub, ".."], Location([jail, user, dir, sub, ".."], user, [dir, sub, ".."]), "/" + user + "/" + dir + "/" + sub + "/..");
  }

  lemma JailedKeepsParentSteps(bucket: string, jail: string, user: string, dir: string, sub: string)
    requires IsSegment(jail) && IsSegment(user) && IsSegment(dir) && IsSegment(sub) && user != bucket
    ensures Normalize("/" + user + "/" + dir + "/" + sub + "/..") == [user, dir, sub, ".."] && IsAbsolute("/" + user + "/" + dir + "/" + sub + "/..") == true
    ensures Place(bucket, Jailed([jail], user), [user, dir, sub, ".."], true) == Location([jail, user, dir, sub, ".."], user, [dir, sub, ".."])
    ensures DisplayPath(Location([jail, user, dir, sub, ".."], user, [dir, sub, ".."])) == "/" + user + "/" + dir + "/" + sub + "/.."
  {
    ReadsAbsoluteParent(user, dir, sub);
    PlacedBelowVisibleRoot(bucket, jail, user, [dir, sub, ".."]);
    assert [user] + [dir, sub, ".."] == [user, dir, sub, ".."];
    assert [jail, user] + [dir, sub, ".."] == [jail, user, dir, sub, ".."];
    ShowsThree(user, dir, sub, "..");
    assert "/" + user + "/" + dir + "/" + sub + "/" + ".." == "/" + user + "/" + dir + "/" + sub + "/..";
  }

  /** The top of the tree is the visible root: nothing above it can be shown. */
  lemma JailedCannotLeaveVisibleRoot(bucket: string, jail: string, user: string)
    requires IsSegment(jail) && IsSegment(user)
    ensures ResolveFile(JailedSession(bucket, jail, user), "/") == Success("/" + user + "/")
  {
    JailedMount(bucket, jail, user);
    JailedCannotLeaveVisibleRootSteps(bucket, jail, user);
    Shows(JailedSession(bucket, jail, user), "/", Jailed([jail], user), [], Location([jail, user], user, []), "/" + user + "/");
  }

  lemma JailedCannotLeaveVisibleRootSteps(bucket: string, jail: string, user: string)
    requires IsSegment(jail) && IsSegment(user)
    ensures Normalize("/") == [] && IsAbsolute("/") == true
    ensures Place(bucket, Jailed([jail], user), [], true) == Location([jail, user], user, [])
    ensures DisplayPath(Location([jail, user], user, [])) == "/" + user + "/"
  {
    ReadsEmpty();
    assert JailedRest(bucket, Jailed([jail], user), [], true) == [];
    ShowsRoot(user);
  }

  // ---------------------------------------------------------------------------
  // Errors raised before any path is produced

  /** A home that is not inside the jail fails every request, with a message
      naming the jail and the home. */
  lemma HomeOutsideJailFails(bucket: string, home: string, jail: string, input: string)
    requires IsSegment(home) && IsSegment(jail) && home != jail
    ensures ResolveFile(Context(bucket, home, jail, true), input) == Failure(JailMapping(jail, home))
    ensures JailMapping(jail, home).Message() == "User directory is outside jailed path: " + jail + ": " + home
  {
    NormalizeSegment(home);
    NormalizeSegment(jail);
    assert [jail][0] != [home][0];
    FailsWith(Context(bucket, home, jail, true), input, JailMapping(jail, home));
  }

  /** Without a filesystem every request fails, whatever the lookups say. */
  lemma MissingFileSystemFails(ctx: Context, input: string)
    requires !ctx.hasFileSystem
    ensures ResolveFile(ctx, input) == Failure(FileSystemUnavailable)
    ensures ResolveFile(ctx, input).error.Message() == "Error finding filesystem."
  {
  }
}
