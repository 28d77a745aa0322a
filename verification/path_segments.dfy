/**
  Virtual paths as the file-transfer client sends them: strings separated by '/'.
  A path is read as a sequence of segments; "." (the current directory) and the
  empty segments produced by a leading, trailing or doubled separator are dropped,
  and ".." is kept literally: it is never collapsed against the segment before it.
 */
module PathSegments {

  const Separator: char := '/'

  /** A segment that survives normalisation: non-empty, not ".", and free of separators.
      ".." is a segment like any other name. */
  predicate IsSegment(x: string) {
    x != "" && x != "." && Separator !in x
  }

  /** Every element of `xs` is a segment. */
  predicate AllSegments(xs: seq<string>) {
    forall i :: 0 <= i < |xs| ==> IsSegment(xs[i])
  }

  /** A request is absolute when it starts with the separator. */
  predicate IsAbsolute(s: string) {
    |s| > 0 && s[0] == Separator
  }

  /** Splits on every separator. The empty string gives one empty piece, and a
      leading, trailing or doubled separator gives an empty piece there. */
  function Split(s: string): (r: seq<string>)
    ensures |r| >= 1
    decreases |s|
  {
    if s == [] then [""]
    else
      var rest := Split(s[1..]);
      if s[0] == Separator then [""] + rest
      else [[s[0]] + rest[0]] + rest[1..]
  }

  /** Puts the separator between consecutive segments. */
  function Join(xs: seq<string>): string
  {
    if |xs| == 0 then ""
    else if |xs| == 1 then xs[0]
    else xs[0] + [Separator] + Join(xs[1..])
  }

  /** Drops the pieces that do not name anything: "" and ".". */
  function Clean(xs: seq<string>): seq<string>
  {
    if xs == [] then []
    else if xs[0] == "" || xs[0] == "." then Clean(xs[1..])
    else [xs[0]] + Clean(xs[1..])
  }

  /** The segments a request names, in order. */
  function Normalize(s: string): (r: seq<string>)
    ensures AllSegments(r)
  {
    SplitPieces(s);
    CleanKeepsSegments(Split(s));
    Clean(Split(s))
  }

  /** How a storage path is shown: the root (a bucket or a jailed session's visible
      root), a separator, then the key below it. An empty key leaves the trailing
      separator ("/bucket/"), a non-empty key does not ("/bucket/file.txt"). */
  function DirPath(root: string, key: seq<string>): (r: string)
    ensures IsAbsolute(r)
    ensures [Separator] + root + [Separator] <= r
  {
    [Separator] + root + [Separator] + Join(key)
  }

  // ---------------------------------------------------------------------------
  // Lemmas

  /** No piece of a split contains the separator. */
  lemma {:induction false} SplitPieces(s: string)
    ensures forall i :: 0 <= i < |Split(s)| ==> Separator !in Split(s)[i]
    decreases |s|
  {
    if s != [] {
      SplitPieces(s[1..]);
      var rest := Split(s[1..]);
      if s[0] != Separator {
        var r := Split(s);
        assert r[0] == [s[0]] + rest[0];
        assert forall i :: 1 <= i < |r| ==> r[i] == rest[i];
      }
    }
  }

  /** Cleaning pieces without separators leaves only segments. */
  lemma {:induction false} CleanKeepsSegments(xs: seq<string>)
    requires forall i :: 0 <= i < |xs| ==> Separator !in xs[i]
    ensures AllSegments(Clean(xs))
    decreases |xs|
  {
    if xs != [] {
      CleanKeepsSegments(xs[1..]);
    }
  }

  /** Splitting distributes over a separator. */
  lemma {:induction false} SplitAppend(a: string, b: string)
    ensures Split(a + [Separator] + b) == Split(a) + Split(b)
    decreases |a|
  {
    var s := a + [Separator] + b;
    if a == [] {
      assert s == [Separator] + b;
      assert s[1..] == b;
    } else {
      assert s[0] == a[0];
      assert s[1..] == a[1..] + [Separator] + b;
      SplitAppend(a[1..], b);
    }
  }

  /** A string without separators is one piece. */
  lemma {:induction false} SplitNoSeparator(a: string)
    requires Separator !in a
    ensures Split(a) == [a]
    decreases |a|
  {
    if a != [] {
      assert Separator !in a[1..] by {
        forall i | 0 <= i < |a[1..]| ensures a[1..][i] != Separator {
          assert a[1..][i] == a[i + 1];
        }
      }
      SplitNoSeparator(a[1..]);
      assert [a[0]] + a[1..] == a;
    }
  }

  /** Splitting undoes joining, for pieces without separators. */
  lemma {:induction false} SplitJoin(xs: seq<string>)
    requires |xs| >= 1
    requires forall i :: 0 <= i < |xs| ==> Separator !in xs[i]
    ensures Split(Join(xs)) == xs
    decreases |xs|
  {
    if |xs| == 1 {
      SplitNoSeparator(xs[0]);
    } else {
      SplitNoSeparator(xs[0]);
      SplitAppend(xs[0], Join(xs[1..]));
      SplitJoin(xs[1..]);
      assert [xs[0]] + xs[1..] == xs;
    }
  }

  /** Cleaning distributes over concatenation. */
  lemma {:induction false} CleanAppend(a: seq<string>, b: seq<string>)
    ensures Clean(a + b) == Clean(a) + Clean(b)
    decreases |a|
  {
    if a != [] {
      assert (a + b)[1..] == a[1..] + b;
      CleanAppend(a[1..], b);
    } else {
      assert a + b == b;
    }
  }

  /** Cleaning keeps sequences that are already segments. */
  lemma {:induction false} CleanSegments(xs: seq<string>)
    requires AllSegments(xs)
    ensures Clean(xs) == xs
    decreases |xs|
  {
    if xs != [] {
      CleanSegments(xs[1..]);
      assert [xs[0]] + xs[1..] == xs;
    }
  }

  /** The segments of `a/b` are those of `a` followed by those of `b`. */
  lemma NormalizeAppend(a: string, b: string)
    ensures Normalize(a + [Separator] + b) == Normalize(a) + Normalize(b)
  {
    SplitAppend(a, b);
    CleanAppend(Split(a), Split(b));
  }

  /** Normalising a joined sequence of segments gives the segments back. */
  lemma NormalizeJoin(xs: seq<string>)
    requires AllSegments(xs)
    ensures Normalize(Join(xs)) == xs
  {
    if xs == [] {
      assert Split("") == [""];
    } else {
      SplitJoin(xs);
      CleanSegments(xs);
    }
  }

  /** A single segment normalises to itself. */
  lemma NormalizeSegment(x: string)
    requires IsSegment(x)
    ensures Normalize(x) == [x]
  {
    SplitNoSeparator(x);
    assert Clean([x]) == [x] + Clean([]);
  }

  /** A shown path parses back into its root and key. */
  lemma NormalizeDirPath(root: string, key: seq<string>)
    requires IsSegment(root) && AllSegments(key)
    ensures Normalize(DirPath(root, key)) == [root] + key
  {
    var tail := root + [Separator] + Join(key);
    assert DirPath(root, key) == "" + [Separator] + tail;
    NormalizeAppend("", tail);
    assert Normalize("") == [];
    NormalizeAppend(root, Join(key));
    NormalizeSegment(root);
    NormalizeJoin(key);
  }

  /** A shown path ends in a separator exactly when it shows a root itself
      (`/bucket/`, `/bob/`) and not an entry below it (`/bucket/file.txt`). */
  lemma DirPathTrailingSeparator(root: string, key: seq<string>)
    requires AllSegments(key)
    ensures var r := DirPath(root, key); key == [] <==> r[|r| - 1] == Separator
  {
    JoinEndsWithSegment(key);
  }

  /** A join of segments ends in a separator only when it is empty: it ends inside
      its last segment. */
  lemma {:induction false} JoinEndsWithSegment(key: seq<string>)
    ensures AllSegments(key) && key != [] ==> |Join(key)| > 0 && Join(key)[|Join(key)| - 1] != Separator
    decreases |key|
  {
    if !AllSegments(key) {
    } else if |key| == 1 {
      var x := key[0];
      assert x[|x| - 1] in x;
    } else if |key| > 1 {
      JoinEndsWithSegment(key[1..]);
    }
  }
}
