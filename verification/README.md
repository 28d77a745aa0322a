# Jailed SFTP path resolution, modelled in Dafny

This project models the path-resolution-and-containment logic of the S3 SFTP
server's `JailedSftpSubsystem`, together with its attribute filter. The
behaviour follows `JailedSftpSubsystemTest.java`. The implementation class and
`S3PathUtil.dirPath` are not part of this model; the tests pin down what they
produce. Each asserted scenario is proved as a lemma for any names that meet
its requires, and the suite's names (`bucket`, `users`, `bob`, `file.txt`,
`dir`, `subdir`) meet them.

A session has a bucket, a home directory and a jail. Each is looked up
elsewhere and defaults to `""`. The session also has a flag saying whether the
user's storage filesystem was found. Resolving a client path `resolveFile(input)`:

1. fails with `"Error finding filesystem."` when there is no filesystem;
2. fails with `"User directory is outside jailed path: <jail>: <home>"` when a
   jail is set and the home is not inside it;
3. reads the input as segments separated by `/`. Empty and `.` segments are
   dropped. `..` is kept literally and never collapsed;
4. places the segments:
   - without a jail, an absolute input starting with the bucket passes
     through; anything else goes under the home, and the result is shown as
     `/<bucket>/<key>`;
   - with a jail, the session sees only its visible root, the last segment of
     its home. The storage key is `<jail>/<visible root>/<rest>` and the client
     is shown `/<visible root>/<rest>`. An absolute input naming the full
     storage path `/<bucket>/<jail>/<visible root>/...` or starting with
     `/<visible root>` is read below the visible root, and `/` is clamped to it.

The display format is `"/" + root + "/" + key`. An empty key keeps the trailing
separator (`/bucket/`, `/bob/`); a non-empty key does not (`/bucket/bob`,
`/bob/file.txt`). This one rule reproduces every trailing-separator case the
tests assert.

The attribute filter removes exactly the entry `"permissions"`. Listeners see
the remaining entries unchanged.

Files:

- `path_segments.dfy` (module `PathSegments`): splitting, joining,
  normalising and displaying paths, with round-trip lemmas.
- `jailed_sftp_subsystem.dfy` (module `JailedSftp`): the session context, the
  containment check, placement and resolution.
- `jailed_sftp_properties.dfy` (module `JailedSftpProperties`): properties that
  relate several requests (idempotence, `.` dropped, `..` kept, clamping).
- `jailed_sftp_scenarios.dfy` (module `JailedSftpScenarios`): each test
  scenario as a lemma. Names are parameters, so each lemma holds for any
  segment names. The suite's values are one instance: bucket `bucket`, jail
  `users`, user `bob`, file `file.txt`, directories `dir`, `subdir`. Where a
  lemma requires two names to differ (`subdir` is not `bucket`), they differ in
  the suite.
- `attributes.dfy` (module `Attributes`): the attribute filter and the
  modification a listener observes.

## Model

| member | source | states |
|---|---|---|
| PathSegments.Normalize | server/src/test/java/com/hubio/s3sftp/server/JailedSftpSubsystemTest.java:151-157 | the segments read from a request are all proper segments: no empty segment, no ".", no separator |
| PathSegments.NormalizeAppend | server/src/test/java/com/hubio/s3sftp/server/JailedSftpSubsystemTest.java:223-231 | the segments of `a/b` are those of `a` followed by those of `b` |
| PathSegments.NormalizeJoin | server/src/test/java/com/hubio/s3sftp/server/JailedSftpSubsystemTest.java:183-189 | reading a path joined from segments gives the segments back (join and read are inverse) |
| PathSegments.DirPath | server/src/test/java/com/hubio/s3sftp/server/JailedSftpSubsystemTest.java:119-125 | a displayed path is absolute and starts with `/<root>/` |
| PathSegments.NormalizeDirPath | server/src/test/java/com/hubio/s3sftp/server/JailedSftpSubsystemTest.java:143-149 | a displayed path reads back as its root followed by its key |
| PathSegments.DirPathTrailingSeparator | server/src/test/java/com/hubio/s3sftp/server/JailedSftpSubsystemTest.java:253-259 | a displayed path ends with the separator exactly when its key is empty (`/bucket/`, `/bob/` against `/bucket/bob`) |
| JailedSftp.VisibleRoot | server/src/test/java/com/hubio/s3sftp/server/JailedSftpSubsystemTest.java:247-250 | the visible root is the home's last segment, and exists exactly when the home has a segment |
| JailedSftp.Validate | server/src/test/java/com/hubio/s3sftp/server/JailedSftpSubsystemTest.java:301-310 | the filesystem is checked first, then home against jail; it succeeds exactly when both pass; a jailed mount's jail is a segment prefix of the home and its visible root is the home's last segment |
| JailedSftp.Place | server/src/test/java/com/hubio/s3sftp/server/JailedSftpSubsystemTest.java:127-149 | unjailed: an absolute request starting with the bucket passes through with the bucket stripped, anything else goes under the home, and shown equals storage; jailed: storage is jail/visible root/shown, shown is a suffix of the request, and a relative request is kept whole |
| JailedSftp.JailedRest | server/src/test/java/com/hubio/s3sftp/server/JailedSftpSubsystemTest.java:269-283 | what a jailed request keeps below the visible root is a run of its last segments |
| JailedSftp.Translate | server/src/test/java/com/hubio/s3sftp/server/JailedSftpSubsystemTest.java:151-157 | both keys of a translation are proper segments (no "." survives) |
| JailedSftp.Resolve | server/src/test/java/com/hubio/s3sftp/server/JailedSftpSubsystemTest.java:244-250 | resolution fails exactly when a check fails, with the checker's error; unjailed the shown key is the storage key below the bucket; jailed the storage key starts with jail and visible root and the shown root is the visible root |
| JailedSftp.ResolveFile | server/src/test/java/com/hubio/s3sftp/server/JailedSftpSubsystemTest.java:321-329 | a missing filesystem fails first, a home outside the jail fails next, otherwise the shown path is absolute and starts with `/<bucket>/` or, jailed, with `/<visible root>/` |
| JailedSftpProperties.TranslateBySegments | server/src/test/java/com/hubio/s3sftp/server/JailedSftpSubsystemTest.java:191-197 | two requests with the same segments and the same absoluteness translate alike; one with no segments translates alike either way |
| JailedSftpProperties.ResolveBySegments | server/src/test/java/com/hubio/s3sftp/server/JailedSftpSubsystemTest.java:175-197 | the same for whole resolution: "", "." and "/" name the same place |
| JailedSftpProperties.PlacePhysicalIdempotent | server/src/test/java/com/hubio/s3sftp/server/JailedSftpSubsystemTest.java:215-221 | the storage key of a placement, read as an absolute request below the bucket, places to the same location |
| JailedSftpProperties.TranslatePhysicalIdempotent | server/src/test/java/com/hubio/s3sftp/server/JailedSftpSubsystemTest.java:277-283 | translating the storage path of a translation gives the same translation |
| JailedSftpProperties.PhysicalPathIdempotent | server/src/test/java/com/hubio/s3sftp/server/JailedSftpSubsystemTest.java:143-149 | re-resolving an already-resolved storage path gives the same resolution |
| JailedSftpProperties.DisplayPathIdempotent | server/src/test/java/com/hubio/s3sftp/server/JailedSftpSubsystemTest.java:269-275 | re-resolving the path a client was shown gives the same resolution and the same shown path |
| JailedSftpProperties.DotSegmentIgnored | server/src/test/java/com/hubio/s3sftp/server/JailedSftpSubsystemTest.java:151-157 | a "." segment between separators (`a/./b`) changes nothing |
| JailedSftpProperties.LeadingDotIgnored | server/src/test/java/com/hubio/s3sftp/server/JailedSftpSubsystemTest.java:183-189 | a leading `./` before a relative request changes nothing (`./file.txt` names `file.txt`) |
| JailedSftpProperties.TrailingDotIgnored | server/src/test/java/com/hubio/s3sftp/server/JailedSftpSubsystemTest.java:285-291 | `<s>/.` resolves exactly as `<s>` |
| JailedSftpProperties.PlaceKeepsParent | server/src/test/java/com/hubio/s3sftp/server/JailedSftpSubsystemTest.java:233-241 | appending ".." to the segments appends ".." to both keys and keeps the shown root |
| JailedSftpProperties.TranslateKeepsParent | server/src/test/java/com/hubio/s3sftp/server/JailedSftpSubsystemTest.java:159-165 | appending "/.." to a request appends ".." to both keys and keeps the shown root |
| JailedSftpProperties.ParentKeptLiterally | server/src/test/java/com/hubio/s3sftp/server/JailedSftpSubsystemTest.java:293-299 | ".." is never collapsed: resolving `<s>/..` appends ".." to the storage and shown keys of `<s>` |
| JailedSftpProperties.AbsoluteAndRelativeAgree | server/src/test/java/com/hubio/s3sftp/server/JailedSftpSubsystemTest.java:199-213 | an absolute request that names no storage location (and, jailed, not the visible root) resolves as the same request without the leading separator |
| JailedSftpProperties.PlaceAtRoot | server/src/test/java/com/hubio/s3sftp/server/JailedSftpSubsystemTest.java:261-267 | no segments, or jailed `/<visible root>`, place at the home (unjailed) or at the visible root with nothing below it (jailed) |
| JailedSftpProperties.RootIsClamped | server/src/test/java/com/hubio/s3sftp/server/JailedSftpSubsystemTest.java:312-318 | a request with no segments shows the home below the bucket, or jailed `/<visible root>/`; so does jailed `/<visible root>`: nothing above the visible root is shown |
| JailedSftpProperties.JailedPathsStayUnderHome | server/src/test/java/com/hubio/s3sftp/server/JailedSftpSubsystemTest.java:244-250 | when the home sits directly below the jail, every storage key of a jailed session lies below the home |
| JailedSftpScenarios.RootResolvesDot | server/src/test/java/com/hubio/s3sftp/server/JailedSftpSubsystemTest.java:119-125 | "." with no home shows `/<bucket>/` |
| JailedSftpScenarios.RootResolvesAbsolute | server/src/test/java/com/hubio/s3sftp/server/JailedSftpSubsystemTest.java:127-141 | `/<name>` with no home shows `/<bucket>/<name>` |
| JailedSftpScenarios.RootPassesPreresolved | server/src/test/java/com/hubio/s3sftp/server/JailedSftpSubsystemTest.java:143-149 | `/<bucket>/<name>` passes through unchanged |
| JailedSftpScenarios.RootDropsTrailingDot | server/src/test/java/com/hubio/s3sftp/server/JailedSftpSubsystemTest.java:151-157 | `<dir>/.` shows `/<bucket>/<dir>` |
| JailedSftpScenarios.RootKeepsParent | server/src/test/java/com/hubio/s3sftp/server/JailedSftpSubsystemTest.java:159-165 | `<dir>/<sub>/..` shows `/<bucket>/<dir>/<sub>/..` |
| JailedSftpScenarios.HomeResolvesEmpty | server/src/test/java/com/hubio/s3sftp/server/JailedSftpSubsystemTest.java:175-181 | "" with home `<user>` shows `/<bucket>/<user>` |
| JailedSftpScenarios.HomeResolvesRelative | server/src/test/java/com/hubio/s3sftp/server/JailedSftpSubsystemTest.java:183-189 | `<name>` shows `/<bucket>/<user>/<name>` |
| JailedSftpScenarios.HomeResolvesDot | server/src/test/java/com/hubio/s3sftp/server/JailedSftpSubsystemTest.java:191-197 | "." shows `/<bucket>/<user>`, without a trailing separator |
| JailedSftpScenarios.HomeResolvesAbsolute | server/src/test/java/com/hubio/s3sftp/server/JailedSftpSubsystemTest.java:199-213 | `/<name>` is still placed under the home: `/<bucket>/<user>/<name>` |
| JailedSftpScenarios.HomePassesPreresolved | server/src/test/java/com/hubio/s3sftp/server/JailedSftpSubsystemTest.java:215-221 | `/<bucket>/<user>/<name>` passes through unchanged |
| JailedSftpScenarios.HomeDropsTrailingDot | server/src/test/java/com/hubio/s3sftp/server/JailedSftpSubsystemTest.java:223-231 | `<dir>/.` shows `/<bucket>/<user>/<dir>` |
| JailedSftpScenarios.HomeKeepsParent | server/src/test/java/com/hubio/s3sftp/server/JailedSftpSubsystemTest.java:233-241 | `<dir>/<sub>/..` shows `/<bucket>/<user>/<dir>/<sub>/..` |
| JailedSftpScenarios.JailedResolvesDot | server/src/test/java/com/hubio/s3sftp/server/JailedSftpSubsystemTest.java:253-259 | with home `<jail>/<user>` in jail `<jail>`, "." shows `/<user>/` |
| JailedSftpScenarios.JailedResolvesHome | server/src/test/java/com/hubio/s3sftp/server/JailedSftpSubsystemTest.java:261-267 | `/<user>` shows `/<user>/` |
| JailedSftpScenarios.JailedResolvesFile | server/src/test/java/com/hubio/s3sftp/server/JailedSftpSubsystemTest.java:269-275 | `/<user>/<name>` shows `/<user>/<name>` |
| JailedSftpScenarios.JailedShowsFullPath | server/src/test/java/com/hubio/s3sftp/server/JailedSftpSubsystemTest.java:277-283 | the full storage path `/<bucket>/<jail>/<user>/<name>` shows `/<user>/<name>` |
| JailedSftpScenarios.JailedDropsTrailingDot | server/src/test/java/com/hubio/s3sftp/server/JailedSftpSubsystemTest.java:285-291 | `/<user>/<dir>/.` shows `/<user>/<dir>` |
| JailedSftpScenarios.JailedKeepsParent | server/src/test/java/com/hubio/s3sftp/server/JailedSftpSubsystemTest.java:293-299 | `/<user>/<dir>/<sub>/..` shows `/<user>/<dir>/<sub>/..` |
| JailedSftpScenarios.HomeOutsideJailFails | server/src/test/java/com/hubio/s3sftp/server/JailedSftpSubsystemTest.java:301-310 | a home that is a different segment from the jail fails every request with `User directory is outside jailed path: <jail>: <home>` |
| JailedSftpScenarios.JailedCannotLeaveVisibleRoot | server/src/test/java/com/hubio/s3sftp/server/JailedSftpSubsystemTest.java:312-318 | "/" shows `/<user>/`: the top of the tree is the visible root |
| JailedSftpScenarios.MissingFileSystemFails | server/src/test/java/com/hubio/s3sftp/server/JailedSftpSubsystemTest.java:321-329 | without a filesystem every request fails with `Error finding filesystem.`, whatever the lookups return |
| Attributes.FilterAttributes | server/src/test/java/com/hubio/s3sftp/server/JailedSftpSubsystemTest.java:67-87 | the filtered map has no "permissions" key and keeps every other key with its value, adding none |
| Attributes.SetAttributes | server/src/test/java/com/hubio/s3sftp/server/JailedSftpSubsystemTest.java:74-82 | the listener is told the same path and exactly the keys other than "permissions", with their values |
| Attributes.FilterIdempotent | server/src/test/java/com/hubio/s3sftp/server/JailedSftpSubsystemTest.java:67-87 | filtering twice is filtering once |
| Attributes.FilterKeepsUnrestricted | server/src/test/java/com/hubio/s3sftp/server/JailedSftpSubsystemTest.java:67-87 | a map without "permissions" passes unchanged |
| Attributes.PermissionsIgnored | server/src/test/java/com/hubio/s3sftp/server/JailedSftpSubsystemTest.java:67-87 | whatever "permissions" is set to, the listener sees the same map |
| Attributes.OtherAttributePassed | server/src/test/java/com/hubio/s3sftp/server/JailedSftpSubsystemTest.java:67-87 | setting any other key reaches the listener with the value it was set to |
| Attributes.KeepsBasicDropsPermissions | server/src/test/java/com/hubio/s3sftp/server/JailedSftpSubsystemTest.java:67-87 | `{basic: keep me, permissions: drop me}` reaches the listener with keys exactly `{basic}`, holding `keep me` and not `drop me` |

## Left out

- The implementation class `JailedSftpSubsystem` and `S3PathUtil.dirPath` are
  not part of this model. Behaviour is taken from the tests' assertions. The
  tests leave these rules open, and the model chooses:
  - the segment-aware containment check;
  - the jailed storage key `<jail>/<visible root>/<rest>`;
  - checking the filesystem before the jail.
- S3 internals: the `S3FileSystem`, `S3Path` objects and storage I/O. A
  resolution is modelled as the storage key and the displayed string.
- The bucket, home and jail lookups, and the user-to-filesystem resolver, are
  external services. They are context fields. Caching them per session is not
  modelled.
- The path separator: the filesystem supplies it (`getSeparator()`), and the
  model fixes `PathSegments.Separator` to `/`, the separator of S3 keys. No
  other separator is read. Apart from that, the filesystem handle is reduced
  to a flag saying whether it was found.
- Session and transport plumbing: `ServerSession`, the factory manager, the
  random factory, and the mechanics of registering event listeners. The
  attribute listener is modelled by the modification it observes.
- `S3SftpServerStartExceptionTest.java`: an exception storing its message and
  cause, with no logic.
- JailedSftp.Validate: a jailed home must have at least one segment, so that a
  visible root exists. The tests never use an empty home with a jail, so this
  choice is the model's own.
- JailedSftp.Validate: when home equals jail, the storage key is
  `<jail>/<last segment>/...`, following the model's jailed storage key. No
  test exercises it.
- JailedSftp.Place: under a jail the storage key is `<jail>/<visible root>/<rest>`,
  not the home. When the home sits more than one segment below the jail, the
  session's files are therefore stored outside its home. For example, home
  `users/a/bob` in jail `users` stores `.` at `users/bob`, and so does home
  `users/b/bob`, so the two sessions share storage. The containment check accepts
  such homes and no test uses one. JailedPathsStayUnderHome is stated only for a
  home directly below the jail for this reason.
- JailedSftp.Place: a request passes through only when it is absolute and its
  first whole segment is the bucket (under a jail, its first segments are the
  bucket, the jail and the visible root). `/bucketX/f` does not pass through,
  and neither does the relative `bucket/f`: both are placed under the home. The
  tests only pass through absolute requests whose first segment is the bucket,
  so the treatment of the other two is the model's own choice.
- JailedSftpProperties.ParentKeptLiterally: requires that no segment of the
  bucket, the jail or the visible root is "..". The containment check accepts
  such a context (home `users/..` under jail `users` has visible root ".."),
  and there `/..` is read as the visible root, so the ".." is not kept. The
  same restriction is on PlaceKeepsParent, TranslateKeepsParent and
  PlaceParentAlone.
- JailedSftp.HomeInJail: segment-aware prefix matching (`users` does not
  contain `userstuff`) is modelled, but the tests only exercise a disjoint
  jail/home pair.
- JailedSftpProperties.DisplayPathIdempotent: requires that a jailed session's
  visible root is not spelled like the bucket. Otherwise a shown path
  `/<root>/<jail>/<root>/...` would be read as a storage path.
- JailedSftpProperties.PhysicalPathIdempotent: requires the bucket to be a
  proper segment, because a bucket named `""` or `.` cannot be read back from a
  path.
- `..` is not resolved. The model proves it is kept literally, so the string
  containment shown here is not a security boundary. The backing store's own
  reading of `..` is outside this model.
