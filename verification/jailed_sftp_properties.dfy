/**
  Properties of path resolution that relate several requests: re-resolving a
  resolved path, dropping ".", keeping "..", reading absolute and relative
  requests alike, and clamping a jailed session to its visible root.
 */
module JailedSftpProperties {
  import opened PathSegments
  import opened JailedSftp

  /** No segment of a validated context is "..", so appending ".." to a request
      can never complete a pass-through prefix. */
  predicate NoParentInContext(ctx: Context) {
    && ctx.bucket != ".."
    && ".." !in Normalize(ctx.jail)
    && VisibleRoot(ctx.home) != [".."]
  }

  /** Translation reads a request only through its segments and whether it is
      absolute; a request with no segments is read the same either way. */
  lemma TranslateBySegments(bucket: string, m: Mount, x: string, y: string)
    requires m.Valid()
    requires Normalize(x) == Normalize(y)
    requires IsAbsolute(x) == IsAbsolute(y) || Normalize(x) == []
    ensures Translate(bucket, m, x) == Translate(bucket, m, y)
  {
  }

  /** A prefix that does not contain `e` is a prefix of `xs + [e]` exactly when it
      is a prefix of `xs`. */
  lemma PrefixOfExtended(p: seq<string>, xs: seq<string>, e: string)
    requires e !in p
    ensures p <= xs + [e] <==> p <= xs
  {
    assert e in xs + [e];
    if p <= xs + [e] && |p| <= |xs| {
      assert (xs + [e])[..|p|] == xs[..|p|];
    }
  }

  /** At the level of segments: the storage key of a placement, read as an
      absolute request below the bucket, places to the same location. */
  lemma PlacePhysicalIdempotent(bucket: string, m: Mount, segs: seq<string>, absolute: bool)
    requires IsSegment(bucket) && m.Valid() && AllSegments(segs)
    ensures AllSegments([bucket] + Place(bucket, m, segs, absolute).physical)
    ensures Place(bucket, m, [bucket] + Place(bucket, m, segs, absolute).physical, true) == Place(bucket, m, segs, absolute)
  {
    var loc := Place(bucket, m, segs, absolute);
    var again := [bucket] + loc.physical;
    assert AllSegments(again) by {
      assert forall i :: 1 <= i < |again| ==> again[i] == loc.physical[i - 1];
    }
    if m.Jailed? {
      var full := [bucket] + JailedRoot(m);
      assert again == full + loc.shown;
      assert again[|full|..] == loc.shown;
      assert JailedRest(bucket, m, again, true) == loc.shown;
    } else {
      assert again[1..] == loc.physical;
    }
  }

  /** At the level of a validated mount: the storage path of a translation
      translates back to it. */
  lemma TranslatePhysicalIdempotent(bucket: string, m: Mount, s: string)
    requires IsSegment(bucket) && m.Valid()
    ensures Translate(bucket, m, PhysicalPath(bucket, Translate(bucket, m, s))) == Translate(bucket, m, s)
  {
    var loc := Translate(bucket, m, s);
    PlacePhysicalIdempotent(bucket, m, Normalize(s), IsAbsolute(s));
    NormalizeDirPath(bucket, loc.physical);
    assert Normalize(PhysicalPath(bucket, loc)) == [bucket] + loc.physical;
  }

  /** Re-resolving the storage path of a resolution gives the same resolution. */
  lemma PhysicalPathIdempotent(ctx: Context, s: string)
    requires IsSegment(ctx.bucket)
    requires Resolve(ctx, s).Success?
    ensures Resolve(ctx, PhysicalPath(ctx.bucket, Resolve(ctx, s).value)) == Resolve(ctx, s)
  {
    TranslatePhysicalIdempotent(ctx.bucket, Validate(ctx).value, s);
  }

  /** Re-resolving the path a client was shown gives the same resolution, provided
      a jailed session's visible root is not spelled like the bucket (otherwise a
      shown path and a storage path could not be told apart). */
  lemma DisplayPathIdempotent(ctx: Context, s: string)
    requires IsSegment(ctx.bucket)
    requires ctx.jail != "" ==> VisibleRoot(ctx.home) != [ctx.bucket]
    requires Resolve(ctx, s).Success?
    ensures Resolve(ctx, DisplayPath(Resolve(ctx, s).value)) == Resolve(ctx, s)
    ensures ResolveFile(ctx, ResolveFile(ctx, s).value) == ResolveFile(ctx, s)
  {
    var m := Validate(ctx).value;
    var loc := Translate(ctx.bucket, m, s);
    var d := DisplayPath(loc);
    NormalizeDirPath(loc.shownRoot, loc.shown);
    assert Normalize(d) == [loc.shownRoot] + loc.shown;
    if m.Jailed? {
      var full := [ctx.bucket] + JailedRoot(m);
      assert !(full <= Normalize(d)) by {
        assert full[0] == ctx.bucket != m.visibleRoot == Normalize(d)[0];
      }
      assert Normalize(d)[1..] == loc.shown;
    } else {
      assert Normalize(d)[1..] == loc.physical;
    }
  }

  /** A "." segment anywhere in a request is ignored. */
  lemma DotSegmentIgnored(ctx: Context, a: string, b: string)
    ensures Resolve(ctx, a + "/./" + b) == Resolve(ctx, a + "/" + b)
  {
    var x := a + "/./" + b;
    var y := a + "/" + b;
    assert x == a + [Separator] + ("." + [Separator] + b);
    assert y == a + [Separator] + b;
    NormalizeAppend(a, "." + [Separator] + b);
    NormalizeAppend(".", b);
    assert Normalize(".") == [];
    NormalizeAppend(a, b);
    assert Normalize(x) == Normalize(y);
    assert IsAbsolute(x) == IsAbsolute(y) by {
      if a != [] {
        assert x[0] == a[0] == y[0];
      }
    }
    ResolveBySegments(ctx, x, y);
  }

  /** A leading "." is ignored before a relative request: `./b` names `b`.
      Before an absolute one it is not, since `.//b` is relative and `/b` is not. */
  lemma LeadingDotIgnored(ctx: Context, b: string)
    requires !IsAbsolute(b)
    ensures Resolve(ctx, "./" + b) == Resolve(ctx, b)
  {
    var x := "./" + b;
    assert x == "." + [Separator] + b;
    NormalizeAppend(".", b);
    assert Normalize(".") == [];
    assert !IsAbsolute(x) by {
      assert x[0] == '.';
    }
    ResolveBySegments(ctx, x, b);
  }

  /** A trailing "." is ignored: `dir/.` names `dir`. */
  lemma TrailingDotIgnored(ctx: Context, s: string)
    ensures Resolve(ctx, s + "/.") == Resolve(ctx, s)
  {
    var x := s + "/.";
    assert x == s + [Separator] + ".";
    NormalizeAppend(s, ".");
    assert Normalize(".") == [];
    assert Normalize(x) == Normalize(s);
    assert IsAbsolute(x) == IsAbsolute(s) || Normalize(x) == [] by {
      if s != [] {
        assert x[0] == s[0];
      } else {
        assert Normalize(s) == [];
      }
    }
    ResolveBySegments(ctx, x, s);
  }

  /** Resolution reads a request only through its segments and whether it is
      absolute. */
  lemma ResolveBySegments(ctx: Context, x: string, y: string)
    requires Normalize(x) == Normalize(y)
    requires IsAbsolute(x) == IsAbsolute(y) || Normalize(x) == []
    ensures Resolve(ctx, x) == Resolve(ctx, y)
  {
    if Validate(ctx).Success? {
      TranslateBySegments(ctx.bucket, Validate(ctx).value, x, y);
    }
  }

  /** At the level of segments: appending ".." to a request appends it to both
      keys, because ".." cannot complete a pass-through prefix. */
  lemma PlaceKeepsParent(bucket: string, m: Mount, segs: seq<string>, absolute: bool)
    requires m.Valid() && AllSegments(segs)
    requires bucket != ".."
    requires m.Jailed? ==> ".." !in JailedRoot(m)
    ensures AllSegments(segs + [".."])
    ensures Place(bucket, m, segs + [".."], absolute).physical == Place(bucket, m, segs, absolute).physical + [".."]
    ensures Place(bucket, m, segs + [".."], absolute).shown == Place(bucket, m, segs, absolute).shown + [".."]
    ensures Place(bucket, m, segs + [".."], absolute).shownRoot == Place(bucket, m, segs, absolute).shownRoot
  {
    var ext := segs + [".."];
    assert AllSegments(ext) by {
      assert forall i :: 0 <= i < |segs| ==> ext[i] == segs[i];
    }
    if m.Jailed? {
      JailedRestKeepsParent(bucket, m, segs, absolute);
    } else {
      PrefixOfExtended([bucket], segs, "..");
      if absolute && [bucket] <= ext {
        assert ext[1..] == segs[1..] + [".."];
      }
    }
  }

  lemma JailedRestKeepsParent(bucket: string, m: Mount, segs: seq<string>, absolute: bool)
    requires m.Valid() && m.Jailed? && AllSegments(segs) && AllSegments(segs + [".."])
    requires bucket != ".." && ".." !in JailedRoot(m)
    ensures Place(bucket, m, segs, absolute).shown == JailedRest(bucket, m, segs, absolute)
    ensures Place(bucket, m, segs + [".."], absolute).shown == JailedRest(bucket, m, segs + [".."], absolute)
    ensures JailedRest(bucket, m, segs + [".."], absolute) == JailedRest(bucket, m, segs, absolute) + [".."]
  {
    var ext := segs + [".."];
    var full := [bucket] + JailedRoot(m);
    assert ".." !in full;
    PrefixOfExtended(full, segs, "..");
    PrefixOfExtended([m.visibleRoot], segs, "..");
    if absolute && full <= ext {
      assert ext[|full|..] == segs[|full|..] + [".."];
    } else if absolute && [m.visibleRoot] <= ext {
      assert ext[1..] == segs[1..] + [".."];
    }
  }

  /** At the level of a validated mount: appending ".." to a request appends it
      to both keys. */
  lemma TranslateKeepsParent(bucket: string, m: Mount, s: string)
    requires m.Valid()
    requires bucket != ".."
    requires m.Jailed? ==> ".." !in JailedRoot(m)
    ensures Translate(bucket, m, s + "/..").physical == Translate(bucket, m, s).physical + [".."]
    ensures Translate(bucket, m, s + "/..").shown == Translate(bucket, m, s).shown + [".."]
    ensures Translate(bucket, m, s + "/..").shownRoot == Translate(bucket, m, s).shownRoot
  {
    var x := s + "/..";
    assert x == s + [Separator] + "..";
    NormalizeAppend(s, "..");
    NormalizeSegment("..");
    var segs := Normalize(s);
    assert Normalize(x) == segs + [".."];
    PlaceKeepsParent(bucket, m, segs, IsAbsolute(s));
    if s != [] {
      assert x[0] == s[0];
    } else {
      assert segs == [];
      PlaceParentAlone(bucket, m);
    }
  }

  /** A request that is only ".." is read the same whether absolute or not. */
  lemma PlaceParentAlone(bucket: string, m: Mount)
    requires m.Valid()
    requires bucket != ".."
    requires m.Jailed? ==> ".." !in JailedRoot(m)
    ensures AllSegments([".."])
    ensures Place(bucket, m, [".."], true) == Place(bucket, m, [".."], false)
  {
    if m.Jailed? {
      var full := [bucket] + JailedRoot(m);
      assert m.visibleRoot == JailedRoot(m)[|JailedRoot(m)| - 1];
      assert m.visibleRoot in JailedRoot(m);
      assert !([m.visibleRoot] <= [".."]);
      assert !(full <= [".."]);
      assert JailedRest(bucket, m, [".."], true) == [".."];
    } else {
      assert [bucket][0] == bucket != ".." == [".."][0];
    }
  }

  /** ".." is never collapsed: appending it to a request appends it, literally,
      to both the storage key and the shown key. */
  lemma ParentKeptLiterally(ctx: Context, s: string)
    requires NoParentInContext(ctx)
    requires Resolve(ctx, s).Success?
    ensures Resolve(ctx, s + "/..").Success?
    ensures Resolve(ctx, s + "/..").value.physical == Resolve(ctx, s).value.physical + [".."]
    ensures Resolve(ctx, s + "/..").value.shown == Resolve(ctx, s).value.shown + [".."]
    ensures Resolve(ctx, s + "/..").value.shownRoot == Resolve(ctx, s).value.shownRoot
  {
    var m := Validate(ctx).value;
    if m.Jailed? {
      assert JailedRoot(m) == Normalize(ctx.jail) + VisibleRoot(ctx.home);
    }
    TranslateKeepsParent(ctx.bucket, m, s);
  }

  /** At the level of segments: a request that starts neither with the bucket nor
      (under a jail) with the visible root is placed the same whether it is
      absolute or not. */
  lemma PlaceAbsoluteAsRelative(bucket: string, m: Mount, segs: seq<string>)
    requires m.Valid() && AllSegments(segs)
    requires !([bucket] <= segs)
    requires m.Jailed? ==> !([m.visibleRoot] <= segs)
    ensures Place(bucket, m, segs, true) == Place(bucket, m, segs, false)
  {
    if m.Jailed? {
      var full := [bucket] + JailedRoot(m);
      assert !(full <= segs);
      assert JailedRest(bucket, m, segs, true) == segs;
    }
  }

  /** A leading separator adds no segment. */
  lemma ReadsLeadingSeparator(s: string)
    ensures Normalize("/" + s) == Normalize(s)
    ensures IsAbsolute("/" + s)
  {
    assert "/" + s == "" + [Separator] + s;
    NormalizeAppend("", s);
    assert Normalize("") == [];
  }

  /** An absolute request that does not name a storage location (and, under a
      jail, does not start with the visible root) lands where the same request
      without the leading separator lands: both are placed under the home. */
  lemma AbsoluteAndRelativeAgree(ctx: Context, s: string)
    requires !([ctx.bucket] <= Normalize(s))
    requires ctx.jail != "" ==> !(VisibleRoot(ctx.home) <= Normalize(s))
    ensures Resolve(ctx, "/" + s) == Resolve(ctx, s)
  {
    ReadsLeadingSeparator(s);
    if Validate(ctx).Success? {
      var m := Validate(ctx).value;
      PlaceAbsoluteAsRelative(ctx.bucket, m, Normalize(s));
    }
  }

  /** At the level of segments: a request with no segments, or (under a jail)
      the absolute request naming only the visible root, places at the root. */
  lemma PlaceAtRoot(bucket: string, m: Mount, segs: seq<string>, absolute: bool)
    requires m.Valid() && AllSegments(segs)
    requires segs == [] || (m.Jailed? && absolute && segs == [m.visibleRoot])
    ensures m.Unjailed? ==> Place(bucket, m, segs, absolute).physical == m.home
    ensures m.Jailed? ==> Place(bucket, m, segs, absolute).shown == []
  {
    if m.Jailed? {
      var full := [bucket] + JailedRoot(m);
      assert |full| >= 2;
      assert !(full <= segs);
      if segs == [] {
        assert JailedRest(bucket, m, segs, absolute) == [];
      } else {
        assert [m.visibleRoot] <= segs;
        assert JailedRest(bucket, m, segs, absolute) == segs[1..];
      }
    } else {
      assert segs == [];
      assert !([bucket] <= segs);
      assert m.home + segs == m.home;
    }
  }

  /** A request with no segments shows the session's root: the home below the
      bucket without a jail, and `/<visible root>/` with one. Under a jail the
      absolute request `/<visible root>` shows the same, so a jailed session can
      never be shown anything above its visible root. */
  lemma RootIsClamped(ctx: Context, s: string)
    requires Resolve(ctx, s).Success?
    requires Normalize(s) == [] || (ctx.jail != "" && IsAbsolute(s) && Normalize(s) == VisibleRoot(ctx.home))
    ensures ctx.jail == "" ==> ResolveFile(ctx, s) == Success(DirPath(ctx.bucket, Normalize(ctx.home)))
    ensures ctx.jail != "" ==> ResolveFile(ctx, s) == Success([Separator] + VisibleRoot(ctx.home)[0] + [Separator])
  {
    var m := Validate(ctx).value;
    var segs := Normalize(s);
    if m.Jailed? {
      assert [m.visibleRoot] == VisibleRoot(ctx.home);
      assert segs == [] || segs == [m.visibleRoot];
    }
    PlaceAtRoot(ctx.bucket, m, segs, IsAbsolute(s));
    var loc := Translate(ctx.bucket, m, s);
    assert Resolve(ctx, s) == Success(loc);
    assert ResolveFile(ctx, s) == Success(DisplayPath(loc));
    if m.Jailed? {
      assert loc.shown == [] && loc.shownRoot == m.visibleRoot;
      assert Join([]) == "";
      assert DisplayPath(loc) == [Separator] + m.visibleRoot + [Separator] + "";
      assert [Separator] + m.visibleRoot + [Separator] + "" == [Separator] + m.visibleRoot + [Separator];
      assert VisibleRoot(ctx.home)[0] == m.visibleRoot;
    } else {
      assert loc.shown == Normalize(ctx.home) && loc.shownRoot == ctx.bucket;
    }
  }

  /** When the home sits directly below the jail (as `users/bob` below `users`),
      every storage path of the session lies below the home, whatever the request. */
  lemma JailedPathsStayUnderHome(ctx: Context, s: string)
    requires ctx.jail != ""
    requires Normalize(ctx.home) == Normalize(ctx.jail) + VisibleRoot(ctx.home)
    requires Resolve(ctx, s).Success?
    ensures Normalize(ctx.home) <= Resolve(ctx, s).value.physical
  {
  }
}
