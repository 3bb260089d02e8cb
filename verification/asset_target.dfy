/** How the handler turns a decoded URL pathname into the file it looks for:
    leading slashes are stripped, the rest is joined onto the asset directory,
    and a pathname ending in `/` names that directory's `index.html`.
    No containment check follows the join. */
module AssetTarget {
  import opened Strings
  import opened NodePath

  const IndexFile := "index.html"

  /** `urlPath.replace(/^\/+/, '')`. */
  function StripLeadingSlashes(s: string): (rel: string)
    ensures |rel| <= |s| && rel == s[|s| - |rel|..]
    ensures rel == "" || rel[0] != '/'
    ensures forall i :: 0 <= i < |s| - |rel| ==> s[i] == '/'
  {
    if |s| > 0 && s[0] == '/' then StripLeadingSlashes(s[1..]) else s
  }

  /** Stripping twice is stripping once. */
  lemma {:induction false} StripLeadingSlashesIdempotent(s: string)
    ensures StripLeadingSlashes(StripLeadingSlashes(s)) == StripLeadingSlashes(s)
  {
  }

  /** `urlPath === '/' || urlPath.endsWith('/')`. The first test is subsumed
      by the second: the request is for a directory iff its last character is `/`. */
  predicate IsDirectoryRequest(urlPath: string)
    ensures IsDirectoryRequest(urlPath) <==> |urlPath| > 0 && urlPath[|urlPath| - 1] == '/'
  {
    urlPath == "/" || EndsWith(urlPath, "/")
  }

  /** The path the handler probes for a decoded pathname, before any fallback. */
  function TargetPath(dist: Path, urlPath: string): (target: Path)
    ensures Normal(dist) ==> Normal(target)
  {
    var rel := StripLeadingSlashes(urlPath);
    if IsDirectoryRequest(urlPath) then JoinPath(dist, [rel, IndexFile])
    else JoinPath(dist, [rel])
  }

  /** Joining a single plain segment appends it. */
  lemma {:induction false} JoinSegment(dir: Path, x: string)
    requires IsSegment(x)
    ensures JoinPath(dir, [x]) == dir + [x]
  {
    SplitPiece(x, '/');
    assert Pieces([x]) == [x];
    assert Resolve(dir, [x]) == Resolve(dir + [x], []);
  }

  lemma IndexFileIsSegment()
    ensures IsSegment(IndexFile)
  {
  }

  lemma {:induction false} JoinIndexFile(dir: Path)
    ensures JoinPath(dir, [IndexFile]) == dir + [IndexFile]
  {
    IndexFileIsSegment();
    JoinSegment(dir, IndexFile);
  }

  /** A directory-style pathname targets `<rel>/index.html`; any other
      pathname targets `<rel>` itself. */
  lemma {:induction false} TargetShape(dist: Path, urlPath: string)
    ensures var rel := StripLeadingSlashes(urlPath);
      TargetPath(dist, urlPath) ==
        if IsDirectoryRequest(urlPath) then JoinPath(dist, [rel]) + [IndexFile]
        else JoinPath(dist, [rel])
  {
    var rel := StripLeadingSlashes(urlPath);
    JoinPathAppend(dist, rel, IndexFile);
    JoinIndexFile(JoinPath(dist, [rel]));
  }

  /** Every directory-style request probes a file named `index.html`. */
  lemma {:induction false} DirectoryTargetIsIndex(dist: Path, urlPath: string)
    requires IsDirectoryRequest(urlPath)
    ensures var t := TargetPath(dist, urlPath);
      |t| > 0 && t[|t| - 1] == IndexFile && t == t[..|t| - 1] + [IndexFile]
  {
    TargetShape(dist, urlPath);
  }

  /** The root pathname probes the asset directory's own `index.html`. */
  lemma {:induction false} RootTarget(dist: Path)
    ensures TargetPath(dist, "/") == dist + [IndexFile]
  {
    TargetShape(dist, "/");
    assert StripLeadingSlashes("/") == "";
    assert Pieces([""]) == [""];
  }

  /** Stripping is not what keeps the join relative: `path.join` already
      drops the empty pieces that leading slashes produce. */
  lemma {:induction false} JoinIgnoresLeadingSlashes(dist: Path, s: string)
    ensures JoinPath(dist, [StripLeadingSlashes(s)]) == JoinPath(dist, [s])
    decreases |s|
  {
    if |s| > 0 && s[0] == '/' {
      JoinIgnoresLeadingSlashes(dist, s[1..]);
      assert Split(s, '/') == [""] + Split(s[1..], '/');
      assert Pieces([s]) == [""] + Pieces([s[1..]]);
    }
  }

  /** A pathname without `..` segments stays inside the asset directory. */
  lemma {:induction false} TargetContainedWithoutParent(dist: Path, urlPath: string)
    requires forall piece :: piece in Split(StripLeadingSlashes(urlPath), '/') ==> piece != ".."
    ensures |TargetPath(dist, urlPath)| >= |dist|
    ensures TargetPath(dist, urlPath)[..|dist|] == dist
  {
    var rel := StripLeadingSlashes(urlPath);
    assert Pieces([rel]) == Split(rel, '/');
    forall i | 0 <= i < |Pieces([rel])| ensures Pieces([rel])[i] != ".." {
      assert Pieces([rel])[i] in Split(rel, '/');
    }
    ResolveStaysBelow(dist, Pieces([rel]));
    TargetShape(dist, urlPath);
  }

  /** Containment is not guaranteed: a decoded pathname `/../x` resolves to a
      sibling of the asset directory. */
  lemma {:induction false} ParentSegmentEscapes(dist: Path, x: string)
    requires |dist| > 0 && IsSegment(x) && x != dist[|dist| - 1]
    ensures TargetPath(dist, "/../" + x) == dist[..|dist| - 1] + [x]
    ensures TargetPath(dist, "/../" + x)[..|dist|] != dist
  {
    var u := "/../" + x;
    assert u[1..] == ".." + "/" + x;
    assert StripLeadingSlashes(u) == ".." + "/" + x;
    assert x[|x| - 1] != '/';
    assert !IsDirectoryRequest(u);
    SplitCons("..", '/', x);
    SplitPiece(x, '/');
    assert Pieces([".." + "/" + x]) == ["..", x];
    assert Step(dist, "..") == dist[..|dist| - 1];
    assert Resolve(dist, ["..", x]) == Resolve(dist[..|dist| - 1], [x]);
    assert Resolve(dist[..|dist| - 1], [x]) == Resolve(dist[..|dist| - 1] + [x], []);
  }
}
