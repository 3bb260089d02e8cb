/** The part of Node's POSIX `path` module the server uses: `path.join` with
    its normalisation, the string form of a path, and `path.extname`.

    An absolute path is kept as the sequence of its segments, so `/srv/dist`
    is `["srv", "dist"]` and the root `/` is `[]`. */
module NodePath {
  import opened Outcomes
  import opened Strings

  type Path = seq<string>

  /** A segment that survives normalisation. */
  predicate IsSegment(s: string) {
    s != "" && s != "." && s != ".." && '/' !in s
  }

  /** An absolute path in normal form: no empty, `.` or `..` segments. */
  predicate Normal(p: Path) {
    forall i :: 0 <= i < |p| ==> IsSegment(p[i])
  }

  predicate NoSeparators(parts: seq<string>) {
    forall i :: 0 <= i < |parts| ==> '/' !in parts[i]
  }

  /** One step of normalisation: empty and `.` pieces vanish, `..` drops the
      last segment (and is ignored at the root), anything else is appended. */
  function Step(dir: Path, piece: string): Path {
    if piece == "" || piece == "." then dir
    else if piece == ".." then (if |dir| == 0 then dir else dir[..|dir| - 1])
    else dir + [piece]
  }

  /** Normalise `pieces` on top of the absolute directory `dir`, left to right. */
  function Resolve(dir: Path, pieces: seq<string>): (r: Path)
    ensures Normal(dir) && NoSeparators(pieces) ==> Normal(r)
    ensures |r| <= |dir| + |pieces|
    decreases |pieces|
  {
    if |pieces| == 0 then dir else Resolve(Step(dir, pieces[0]), pieces[1..])
  }

  /** All pieces of the arguments of `path.join`, each split at `/`. */
  function Pieces(args: seq<string>): (r: seq<string>)
    ensures NoSeparators(r)
  {
    if |args| == 0 then [] else Split(args[0], '/') + Pieces(args[1..])
  }

  /** `path.join(base, ...args)` for an absolute, normal `base`. */
  function JoinPath(base: Path, args: seq<string>): (r: Path)
    ensures Normal(base) ==> Normal(r)
    ensures |r| <= |base| + |Pieces(args)|
  {
    Resolve(base, Pieces(args))
  }

  /** The string Node prints for an absolute path. Splitting what follows
      the leading `/` gives the segments back. */
  function PathString(p: Path): (s: string)
    ensures |s| > 0 && s[0] == '/'
    ensures |p| > 0 && NoSeparators(p) ==> Split(s[1..], '/') == p
  {
    if |p| == 0 then "/"
    else
      var s := "/" + Join(p, '/');
      assert s[1..] == Join(p, '/');
      if NoSeparators(p) then SplitJoin(p, '/'); s else s
  }

  /** Normalising pieces in two batches is normalising them at once. */
  lemma {:induction false} ResolveAppend(dir: Path, a: seq<string>, b: seq<string>)
    ensures Resolve(dir, a + b) == Resolve(Resolve(dir, a), b)
    decreases |a|
  {
    if |a| == 0 {
      assert a + b == b;
    } else {
      assert (a + b)[1..] == a[1..] + b;
      ResolveAppend(Step(dir, a[0]), a[1..], b);
    }
  }

  /** Pieces that are already normal segments are simply appended. */
  lemma {:induction false} ResolveNormalAppends(dir: Path, p: Path)
    requires Normal(p)
    ensures Resolve(dir, p) == dir + p
    decreases |p|
  {
    if |p| != 0 {
      ResolveNormalAppends(dir + [p[0]], p[1..]);
      assert dir + [p[0]] + p[1..] == dir + p;
    }
  }

  /** Without a `..` piece, normalisation never climbs out of `dir`. */
  lemma {:induction false} ResolveStaysBelow(dir: Path, pieces: seq<string>)
    requires forall i :: 0 <= i < |pieces| ==> pieces[i] != ".."
    ensures |Resolve(dir, pieces)| >= |dir|
    ensures Resolve(dir, pieces)[..|dir|] == dir
    decreases |pieces|
  {
    if |pieces| != 0 {
      var next := Step(dir, pieces[0]);
      ResolveStaysBelow(next, pieces[1..]);
      assert next[..|dir|] == dir;
    }
  }

  lemma {:induction false} PiecesAppend(a: seq<string>, b: seq<string>)
    ensures Pieces(a + b) == Pieces(a) + Pieces(b)
    decreases |a|
  {
    if |a| == 0 {
      assert a + b == b;
    } else {
      assert (a + b)[1..] == a[1..] + b;
      PiecesAppend(a[1..], b);
    }
  }

  /** `path.join(base, x, y)` is `path.join(path.join(base, x), y)`. */
  lemma {:induction false} JoinPathAppend(base: Path, x: string, y: string)
    ensures JoinPath(base, [x, y]) == JoinPath(JoinPath(base, [x]), [y])
  {
    assert [x, y] == [x] + [y];
    PiecesAppend([x], [y]);
    ResolveAppend(base, Pieces([x]), Pieces([y]));
  }

  /** The printed path of `p + [x]` is that of `p` followed by `/x`. */
  lemma {:induction false} PathStringSnoc(p: Path, x: string)
    ensures PathString(p + [x]) == (if |p| == 0 then "" else PathString(p)) + "/" + x
  {
    if |p| != 0 {
      JoinSnoc(p, x, '/');
    }
  }

  // ---------------------------------------------------------------------
  // path.extname

  /** Drop every trailing `/` (Node ignores them when taking the extension). */
  function StripTrailingSlashes(s: string): (r: string)
    ensures |r| <= |s| && r == s[..|r|]
    ensures r == "" || r[|r| - 1] != '/'
    ensures forall i :: |r| <= i < |s| ==> s[i] == '/'
  {
    if |s| == 0 || s[|s| - 1] != '/' then s else StripTrailingSlashes(s[..|s| - 1])
  }

  /** The last `/`-separated part of `s`. */
  function Basename(s: string): (b: string)
    ensures '/' !in b
    ensures EndsWith(s, b)
  {
    match LastIndexOf(s, '/')
    case None => s
    case Some(i) => s[i + 1..]
  }

  /** The extension of one path part: from its last `.` to its end, or empty
      when the part has no `.`, starts with its only `.`, or is `..`. */
  function PartExtension(part: string): (ext: string)
    ensures ext == "" || (ext[0] == '.' && '.' !in ext[1..] && EndsWith(part, ext))
    ensures ext == "" <==> (|part| == 0 || '.' !in part[1..] || part == "..")
  {
    match LastIndexOf(part, '.')
    case None => ""
    case Some(d) =>
      if d == 0 || part == ".." then ""
      else
        assert part[d..][1..] == part[d + 1..];
        part[d..]
  }

  /** `path.extname(file)`: the extension of the last part, trailing `/` ignored. */
  function Extname(file: string): (ext: string)
    ensures ext == "" || (ext[0] == '.' && '/' !in ext && '.' !in ext[1..])
    ensures ext == "" || EndsWith(StripTrailingSlashes(file), ext)
    ensures var b := Basename(StripTrailingSlashes(file));
      ext == "" <==> (|b| == 0 || '.' !in b[1..] || b == "..")
    ensures ext != "" ==> EndsWith(Basename(StripTrailingSlashes(file)), ext)
  {
    var trimmed := StripTrailingSlashes(file);
    var base := Basename(trimmed);
    var ext := PartExtension(base);
    EndsWithTransitive(trimmed, base, ext);
    ext
  }

  lemma {:induction false} StripTrailingSlashesLower(s: string)
    ensures StripTrailingSlashes(ToLower(s)) == ToLower(StripTrailingSlashes(s))
  {
    var r := StripTrailingSlashes(s);
    var t := StripTrailingSlashes(ToLower(s));
    LowerCharFixesNonLetter('/', '/');
    forall k | 0 <= k < |s| ensures ToLower(s)[k] == '/' <==> s[k] == '/' {
      LowerCharFixesNonLetter(s[k], '/');
    }
    ToLowerSlice(s, 0, |r|);
    ToLowerSlice(s, 0, |t|);
  }

  lemma {:induction false} BasenameLower(s: string)
    ensures Basename(ToLower(s)) == ToLower(Basename(s))
  {
    match LastIndexOf(s, '/')
    case None =>
      BasenameWhole(s);
    case Some(i) =>
      BasenameAfter(s, i);
  }

  /** Without a `/`, the name is its own basename, before and after lower-casing. */
  lemma {:induction false} BasenameWhole(s: string)
    requires LastIndexOf(s, '/').None?
    ensures Basename(s) == s
    ensures Basename(ToLower(s)) == ToLower(s)
  {
    LastIndexOfLower(s, '/');
  }

  /** After the last `/` at `i`, before and after lower-casing. */
  lemma {:induction false} BasenameAfter(s: string, i: nat)
    requires LastIndexOf(s, '/') == Some(i)
    ensures Basename(ToLower(s)) == ToLower(Basename(s))
  {
    BasenameAt(s, i);
    BasenameAtLower(s, i);
    ToLowerSlice(s, i + 1, |s|);
  }

  lemma {:induction false} BasenameAtLower(s: string, i: nat)
    requires LastIndexOf(s, '/') == Some(i)
    ensures i < |s| && Basename(ToLower(s)) == ToLower(s)[i + 1..]
  {
    LastIndexOfLower(s, '/');
    BasenameAt(ToLower(s), i);
  }

  lemma {:induction false} BasenameAt(s: string, i: nat)
    requires LastIndexOf(s, '/') == Some(i)
    ensures Basename(s) == s[i + 1..]
  {
  }

  /** Lower-casing a file name lower-cases its extension and nothing more. */
  lemma {:induction false} ExtnameLower(file: string)
    ensures Extname(ToLower(file)) == ToLower(Extname(file))
  {
    StripTrailingSlashesLower(file);
    BasenameLower(StripTrailingSlashes(file));
    PartExtensionLower(Basename(StripTrailingSlashes(file)));
  }

  lemma {:induction false} PartExtensionLower(part: string)
    ensures PartExtension(ToLower(part)) == ToLower(PartExtension(part))
  {
    var low := ToLower(part);
    LastIndexOfLower(part, '.');
    DotDotLower(part);
    match LastIndexOf(part, '.')
    case None =>
      PartExtensionEmpty(part);
      PartExtensionEmpty(low);
    case Some(d) =>
      if d == 0 || part == ".." {
        PartExtensionEmpty(part);
        PartExtensionEmpty(low);
      } else {
        PartExtensionAt(part, d);
        PartExtensionAt(low, d);
        ToLowerSlice(part, d, |part|);
      }
  }

  lemma {:induction false} DotDotLower(part: string)
    ensures ToLower(part) == ".." <==> part == ".."
  {
    if |part| == 2 {
      LowerCharFixesNonLetter(part[0], '.');
      LowerCharFixesNonLetter(part[1], '.');
    }
  }

  /** The cases in which a part has no extension. */
  lemma {:induction false} PartExtensionEmpty(part: string)
    requires LastIndexOf(part, '.').None? || LastIndexOf(part, '.') == Some(0) || part == ".."
    ensures PartExtension(part) == ""
  {
  }

  /** Otherwise the extension runs from the last dot to the end. */
  lemma {:induction false} PartExtensionAt(part: string, d: nat)
    requires LastIndexOf(part, '.') == Some(d) && d != 0 && part != ".."
    ensures PartExtension(part) == part[d..]
  {
  }

  /** Of a single part, `Extname` is `PartExtension`. */
  lemma {:induction false} ExtnameOfPart(part: string)
    requires |part| > 0 && '/' !in part
    ensures Extname(part) == PartExtension(part)
  {
    assert part[|part| - 1] in part;
    assert StripTrailingSlashes(part) == part;
    assert Basename(part) == part;
  }

  /** The extension of a path is that of its last segment. */
  lemma {:induction false} ExtnameOfPath(p: Path, x: string)
    requires IsSegment(x)
    ensures Extname(PathString(p + [x])) == PartExtension(x)
  {
    var s := PathString(p + [x]);
    PathStringSnoc(p, x);
    var a := if |p| == 0 then "" else PathString(p);
    assert s == a + ['/'] + x;
    assert s[|s| - 1] == x[|x| - 1];
    assert StripTrailingSlashes(s) == s;
    LastIndexOfAfter(a, '/', x);
    assert s[|a| + 1..] == x;
  }

  /** The extension of `<stem><ext>`, where `ext` is a dot and at least one
      further character none of which is a dot. */
  lemma {:induction false} PartExtensionOfName(stem: string, ext: string)
    requires |stem| > 0 && |ext| >= 2 && ext[0] == '.' && '.' !in ext[1..]
    ensures PartExtension(stem + ext) == ext
  {
    var name := stem + ext;
    assert name[|stem| + 1..] == ext[1..];
    LastIndexOfUnique(name, '.', |stem|);
    assert |name| >= 3;
    assert name[|stem|..] == ext;
  }

  /** A part with no dot after its first character has no extension. */
  lemma {:induction false} PartExtensionWithoutDot(part: string)
    requires |part| > 0 && '.' !in part[1..]
    ensures PartExtension(part) == ""
  {
    if part[0] == '.' {
      LastIndexOfUnique(part, '.', 0);
    } else {
      assert part == [part[0]] + part[1..];
      assert '.' !in part;
    }
  }
}
