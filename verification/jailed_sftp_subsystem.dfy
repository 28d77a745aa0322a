/**
  The path-resolution and containment logic of the jailed SFTP subsystem.

  A session has a bucket, a home directory and an optional jail (all looked up
  elsewhere and defaulting to the empty string) and may or may not have a
  storage filesystem bound to its user. Resolving a client path first checks the
  filesystem and the home-inside-jail invariant, then translates the path into a
  storage location:

  - without a jail, the location is shown as `/<bucket>/<key>`;
  - with a jail, the session sees only its visible root (the last segment of its
    home) and the location is shown as `/<visible root>/<key>`.
 */
module JailedSftp {
  import opened PathSegments

  /** The per-session context the lookups produce. The user's filesystem is
      reduced to a flag saying whether it was found; the path separator it
      supplies is fixed to `PathSegments.Separator`. */
  datatype Context = Context(bucket: string, home: string, jail: string, hasFileSystem: bool)

  /** The two ways resolution fails before any path is produced. */
  datatype ResolveError =
    | FileSystemUnavailable
    | JailMapping(jail: string, home: string)
  {
    function Message(): string {
      match this
      case FileSystemUnavailable => "Error finding filesystem."
      case JailMapping(jail, home) => "User directory is outside jailed path: " + jail + ": " + home
    }
  }

  datatype Result<T> = Success(value: T) | Failure(error: ResolveError)

  /** A validated session: either unjailed, rooted at the bucket with its home
      segments, or jailed below `jail` with `visibleRoot` as the only directory the
      client can see. */
  datatype Mount =
    | Unjailed(home: seq<string>)
    | Jailed(jail: seq<string>, visibleRoot: string)
  {
    predicate Valid() {
      match this
      case Unjailed(home) => AllSegments(home)
      case Jailed(jail, visibleRoot) => AllSegments(jail) && IsSegment(visibleRoot)
    }
  }

  /** Where a request lands: the key below the bucket in storage, and how it is
      shown to the client (a root and the key below that root). */
  datatype Location = Location(physical: seq<string>, shownRoot: string, shown: seq<string>)

  /** The home lies inside the jail: no jail at all, or the jail's segments are a
      prefix of the home's and the home names at least one segment (its last one
      becomes the visible root). */
  predicate HomeInJail(home: string, jail: string) {
    jail == "" || (Normalize(home) != [] && Normalize(jail) <= Normalize(home))
  }

  /** The last segment of a home directory, if it has one: what a jailed session
      sees as its root. */
  function VisibleRoot(home: string): (r: seq<string>)
    ensures |r| <= 1
    ensures r == [] <==> Normalize(home) == []
    ensures r != [] ==> r[0] == Normalize(home)[|Normalize(home)| - 1]
  {
    var segs := Normalize(home);
    if segs == [] then [] else [segs[|segs| - 1]]
  }

  /** The checks resolution makes before translating: the filesystem first, then
      the home against the jail. */
  function Validate(ctx: Context): (r: Result<Mount>)
    ensures !ctx.hasFileSystem ==> r == Failure(FileSystemUnavailable)
    ensures ctx.hasFileSystem && !HomeInJail(ctx.home, ctx.jail) ==> r == Failure(JailMapping(ctx.jail, ctx.home))
    ensures r.Success? <==> ctx.hasFileSystem && HomeInJail(ctx.home, ctx.jail)
    ensures r.Success? ==> r.value.Valid()
    ensures r.Success? ==> (r.value.Jailed? <==> ctx.jail != "")
    ensures r.Success? && r.value.Unjailed? ==> r.value.home == Normalize(ctx.home)
    ensures r.Success? && r.value.Jailed? ==>
      && r.value.jail == Normalize(ctx.jail)
      && r.value.jail <= Normalize(ctx.home)
      && VisibleRoot(ctx.home) == [r.value.visibleRoot]
  {
    if !ctx.hasFileSystem then Failure(FileSystemUnavailable)
    else if ctx.jail == "" then Success(Unjailed(Normalize(ctx.home)))
    else
      var home := Normalize(ctx.home);
      var jail := Normalize(ctx.jail);
      if home != [] && jail <= home then Success(Jailed(jail, home[|home| - 1]))
      else Failure(JailMapping(ctx.jail, ctx.home))
  }

  /** The physical prefix below the bucket that a jailed session lives in. */
  function JailedRoot(m: Mount): seq<string>
    requires m.Jailed?
  {
    m.jail + [m.visibleRoot]
  }

  /** Places the segments of a request for a validated session. An absolute
      request that already names the full storage location (`/<bucket>/...`, and
      under a jail `/<bucket>/<jail>/<visible root>/...`) passes through; under a
      jail an absolute request starting with the visible root is read below it;
      anything else is placed under the home (or the visible root). The segments
      kept are a suffix of the request's: nothing is collapsed or reordered. */
  function Place(bucket: string, m: Mount, segs: seq<string>, absolute: bool): (r: Location)
    requires m.Valid() && AllSegments(segs)
    ensures AllSegments(r.physical) && AllSegments(r.shown)
    ensures m.Unjailed? ==> r.shownRoot == bucket && r.shown == r.physical
    ensures m.Unjailed? ==>
      if absolute && [bucket] <= segs then [bucket] + r.physical == segs else r.physical == m.home + segs
    ensures m.Jailed? ==> r.shownRoot == m.visibleRoot && r.physical == JailedRoot(m) + r.shown
    ensures m.Jailed? ==> IsSuffix(r.shown, segs)
    ensures m.Jailed? && !absolute ==> r.shown == segs
  {
    match m
    case Unjailed(home) =>
      if absolute && [bucket] <= segs then Location(segs[1..], bucket, segs[1..])
      else Location(home + segs, bucket, home + segs)
    case Jailed(jail, visibleRoot) =>
      var rest := JailedRest(bucket, m, segs, absolute);
      Location(JailedRoot(m) + rest, visibleRoot, rest)
  }

  /** The part of a jailed request kept below the visible root: what follows the
      full storage prefix, or the visible root, or the whole request. */
  function JailedRest(bucket: string, m: Mount, segs: seq<string>, absolute: bool): (r: seq<string>)
    requires m.Jailed?
    ensures IsSuffix(r, segs)
  {
    var full := [bucket] + JailedRoot(m);
    if absolute && full <= segs then
      assert segs[|segs| - |segs[|full|..]|..] == segs[|full|..];
      segs[|full|..]
    else if absolute && [m.visibleRoot] <= segs then
      assert segs[|segs| - |segs[1..]|..] == segs[1..];
      segs[1..]
    else
      assert segs[|segs| - |segs|..] == segs;
      segs
  }

  /** `a` ends `b`: what is kept of a request is a run of its last segments. */
  predicate IsSuffix(a: seq<string>, b: seq<string>) {
    |a| <= |b| && b[|b| - |a|..] == a
  }

  /** Translates a client path for a validated session: "." segments are gone
      and ".." segments are kept, in order. */
  function Translate(bucket: string, m: Mount, input: string): (r: Location)
    requires m.Valid()
    ensures AllSegments(r.physical) && AllSegments(r.shown)
  {
    Place(bucket, m, Normalize(input), IsAbsolute(input))
  }

  /** The storage path of a location, as `/<bucket>/<key>`. */
  function PhysicalPath(bucket: string, loc: Location): string
  {
    DirPath(bucket, loc.physical)
  }

  /** The path the client is shown for a location. */
  function DisplayPath(loc: Location): string
  {
    DirPath(loc.shownRoot, loc.shown)
  }

  /** Resolves a client path to the location it names, or to the error that
      stops resolution. */
  function Resolve(ctx: Context, input: string): (r: Result<Location>)
    ensures r.Failure? <==> !ctx.hasFileSystem || !HomeInJail(ctx.home, ctx.jail)
    ensures r.Failure? ==> r == Failure(Validate(ctx).error)
    ensures r.Success? && ctx.jail == "" ==> r.value.shownRoot == ctx.bucket && r.value.shown == r.value.physical
    ensures r.Success? && ctx.jail != "" ==>
      && Normalize(ctx.jail) + VisibleRoot(ctx.home) <= r.value.physical
      && [r.value.shownRoot] == VisibleRoot(ctx.home)
  {
    match Validate(ctx)
    case Failure(e) => Failure(e)
    case Success(m) => Success(Translate(ctx.bucket, m, input))
  }

  /** What the client sees for a request: the displayed path, or the error whose
      message it receives. */
  function ResolveFile(ctx: Context, input: string): (r: Result<string>)
    ensures !ctx.hasFileSystem ==> r == Failure(FileSystemUnavailable)
    ensures ctx.hasFileSystem && !HomeInJail(ctx.home, ctx.jail) ==> r == Failure(JailMapping(ctx.jail, ctx.home))
    ensures r.Success? <==> ctx.hasFileSystem && HomeInJail(ctx.home, ctx.jail)
    ensures r.Success? ==> IsAbsolute(r.value)
    ensures r.Success? && ctx.jail == "" ==> [Separator] + ctx.bucket + [Separator] <= r.value
    ensures r.Success? && ctx.jail != "" ==>
      exists root :: [root] == VisibleRoot(ctx.home) && [Separator] + root + [Separator] <= r.value
  {
    match Resolve(ctx, input)
    case Failure(e) => Failure(e)
    case Success(loc) => Success(DisplayPath(loc))
  }
}
