/** Node's POSIX `path` module as the album code uses it: `join` (which
    normalises), `basename`, `dirname` and `parse(p).name`. Paths are plain
    strings with `/` as the separator. */
module NodePath {
  import opened Wrappers
  import opened Strings

  const Sep: char := '/'

  // ---------------------------------------------------------------------------
  // normalize / join
  // ---------------------------------------------------------------------------

  /** One step of segment resolution: empty and `.` segments vanish, `..`
      cancels the previous real segment (or is kept above a relative root,
      dropped at an absolute root), anything else is pushed. */
  function Push(stack: seq<string>, seg: string, absolute: bool): seq<string> {
    if seg == "" || seg == "." then stack
    else if seg == ".." then
      if |stack| > 0 && stack[|stack| - 1] != ".." then stack[..|stack| - 1]
      else if absolute then stack
      else stack + [".."]
    else stack + [seg]
  }

  /** The resolved segments of `segs`, processed left to right. */
  function Resolve(segs: seq<string>, absolute: bool): seq<string>
    decreases |segs|
  {
    if |segs| == 0 then []
    else Push(Resolve(segs[..|segs| - 1], absolute), segs[|segs| - 1], absolute)
  }

  /** `path.normalize(p)`. */
  function Normalize(p: string): string {
    if |p| == 0 then "."
    else
      var absolute := p[0] == Sep;
      var trailing := p[|p| - 1] == Sep;
      var body := Join(Resolve(Split(p, Sep), absolute), [Sep]);
      if |body| == 0 then
        (if absolute then "/" else if trailing then "./" else ".")
      else
        (if absolute then "/" else "") + body + (if trailing then "/" else "")
  }

  /** The non-empty arguments, in order. */
  function NonEmpty(args: seq<string>): (r: seq<string>)
    ensures forall i :: 0 <= i < |r| ==> r[i] != ""
    ensures |r| <= |args|
  {
    if |args| == 0 then []
    else if args[0] == "" then NonEmpty(args[1..])
    else [args[0]] + NonEmpty(args[1..])
  }

  /** `path.join(...args)`: the non-empty arguments joined with `/`, then
      normalised; nothing to join gives `.`. */
  function JoinPaths(args: seq<string>): string {
    var parts := NonEmpty(args);
    if |parts| == 0 then "." else Normalize(Join(parts, [Sep]))
  }

  /** `path.join(a, b)`. */
  function Join2(a: string, b: string): string {
    JoinPaths([a, b])
  }

  /** A single file or directory name: non-empty, no separator, and not one
      of the special names `.` and `..`. */
  predicate PlainSegment(seg: string) {
    seg != "" && seg != "." && seg != ".." && Sep !in seg
  }

  /** What `JoinPaths(args + [seg])` puts in front of a plain last segment. */
  function JoinPrefix(args: seq<string>): string {
    var parts := NonEmpty(args);
    if |parts| == 0 then ""
    else
      var j := Join(parts, [Sep]);
      var r := Resolve(Split(j, Sep), j[0] == Sep);
      (if j[0] == Sep then "/" else "") + (if |r| == 0 then "" else Join(r, [Sep]) + "/")
  }

  lemma {:induction false} NonEmptySnoc(args: seq<string>, seg: string)
    requires seg != ""
    ensures NonEmpty(args + [seg]) == NonEmpty(args) + [seg]
    decreases |args|
  {
    if |args| == 0 {
      assert (args + [seg])[1..] == [];
    } else {
      assert (args + [seg])[1..] == args[1..] + [seg];
      NonEmptySnoc(args[1..], seg);
    }
  }

  lemma {:induction false} JoinSnoc(parts: seq<string>, last: string, sep: string)
    requires |parts| >= 1
    ensures Join(parts + [last], sep) == Join(parts, sep) + sep + last
    decreases |parts|
  {
    if |parts| == 1 {
      assert (parts + [last])[1..] == [last];
    } else {
      assert (parts + [last])[1..] == parts[1..] + [last];
      JoinSnoc(parts[1..], last, sep);
    }
  }

  /** Splitting `a + [c] + b` where `b` is separator-free appends `b` to the
      parts of `a`. */
  lemma {:induction false} SplitAtLast(a: string, c: char, b: string)
    requires c !in b
    ensures Split(a + [c] + b, c) == Split(a, c) + [b]
    decreases |a|
  {
    var s := a + [c] + b;
    if |a| == 0 {
      assert s[1..] == b;
      SplitNoSeparator(b, c);
    } else {
      assert s[1..] == a[1..] + [c] + b;
      SplitAtLast(a[1..], c, b);
    }
  }

  lemma JoinNonEmptyParts(parts: seq<string>, sep: string)
    requires |parts| >= 1 && parts[0] != ""
    ensures Join(parts, sep) != "" && Join(parts, sep)[0] == parts[0][0]
  {
    if |parts| > 1 {
      JoinCons(parts[0], parts[1..], sep);
      assert [parts[0]] + parts[1..] == parts;
    }
  }

  /** A plain segment normalises to itself. */
  lemma NormalizePlain(seg: string)
    requires PlainSegment(seg)
    ensures Normalize(seg) == seg
  {
    assert seg[0] != Sep by { assert seg[0] in seg; }
    assert seg[|seg| - 1] != Sep by { assert seg[|seg| - 1] in seg; }
    SplitNoSeparator(seg, Sep);
    var r := Resolve([seg], false);
    assert r == [seg] by {
      assert [seg][..0] == [];
      assert Resolve([], false) == [];
      assert r == Push([], seg, false);
    }
    assert Join(r, [Sep]) == seg;
  }

  /** Resolving the segments of `j + "/" + seg` pushes `seg` onto the
      resolution of `j`. */
  lemma ResolveAppendPlain(j: string, seg: string, p: string)
    requires PlainSegment(seg) && j != "" && p == j + [Sep] + seg
    ensures Split(p, Sep) == Split(j, Sep) + [seg]
    ensures Resolve(Split(p, Sep), j[0] == Sep) == Resolve(Split(j, Sep), j[0] == Sep) + [seg]
  {
    SplitAtLast(j, Sep, seg);
    var segs := Split(j, Sep) + [seg];
    assert segs[..|segs| - 1] == Split(j, Sep);
  }

  /** Normalising `j + "/" + seg` for a plain `seg` appends `seg` to the
      prefix that `j` determines. */
  lemma NormalizeAppendPlain(j: string, seg: string, p: string)
    requires PlainSegment(seg) && j != "" && p == j + [Sep] + seg
    ensures var r := Resolve(Split(j, Sep), j[0] == Sep);
      Normalize(p) == (if j[0] == Sep then "/" else "") + (if |r| == 0 then "" else Join(r, [Sep]) + "/") + seg
  {
    AppendPlainEnds(j, seg);
    ResolveAppendPlain(j, seg, p);
    var r := Resolve(Split(j, Sep), j[0] == Sep);
    JoinAppendOne(r, seg);
    NormalizeNoTrailing(p, r + [seg]);
    ConcatAssoc(if j[0] == Sep then "/" else "", if |r| == 0 then "" else Join(r, [Sep]) + "/", seg);
  }

  lemma ConcatAssoc(a: string, b: string, c: string)
    ensures a + (b + c) == a + b + c
  {
  }

  /** `j + "/" + seg` starts like `j` and, for a plain `seg`, does not end in
      a separator. */
  lemma AppendPlainEnds(j: string, seg: string)
    requires PlainSegment(seg) && j != ""
    ensures var p := j + [Sep] + seg; p[0] == j[0] && p[|p| - 1] != Sep
  {
    var p := j + [Sep] + seg;
    assert p[|p| - 1] == seg[|seg| - 1];
    assert seg[|seg| - 1] in seg;
  }

  /** Joining resolved segments and one more plain segment. */
  lemma JoinAppendOne(r: seq<string>, seg: string)
    requires seg != ""
    ensures Join(r + [seg], [Sep]) == (if |r| == 0 then "" else Join(r, [Sep]) + "/") + seg
    ensures Join(r + [seg], [Sep]) != ""
  {
    if |r| == 0 {
      assert r + [seg] == [seg];
    } else {
      JoinSnoc(r, seg, [Sep]);
    }
  }

  /** `normalize` of a path without a trailing separator whose segments
      resolve to a non-empty list. */
  lemma NormalizeNoTrailing(p: string, rs: seq<string>)
    requires p != "" && p[|p| - 1] != Sep
    requires Resolve(Split(p, Sep), p[0] == Sep) == rs && Join(rs, [Sep]) != ""
    ensures Normalize(p) == (if p[0] == Sep then "/" else "") + Join(rs, [Sep])
  {
  }

  /** The cache key property of `join`: a plain last segment is appended to a
      prefix determined by the other arguments alone. So two joins that differ
      only in a plain last segment differ, and each ends with its segment. */
  lemma JoinAppendSegment(args: seq<string>, seg: string)
    requires PlainSegment(seg)
    ensures JoinPaths(args + [seg]) == JoinPrefix(args) + seg
  {
    NonEmptySnoc(args, seg);
    var parts := NonEmpty(args);
    if |parts| == 0 {
      assert NonEmpty(args + [seg]) == [seg];
      NormalizePlain(seg);
    } else {
      var j := Join(parts, [Sep]);
      JoinNonEmptyParts(parts, [Sep]);
      JoinSnoc(parts, seg, [Sep]);
      NormalizeAppendPlain(j, seg, j + [Sep] + seg);
    }
  }

  /** Joining a directory with two different plain names gives two different
      paths. */
  lemma JoinDistinct(args: seq<string>, a: string, b: string)
    requires PlainSegment(a) && PlainSegment(b) && a != b
    ensures JoinPaths(args + [a]) != JoinPaths(args + [b])
  {
    JoinAppendSegment(args, a);
    JoinAppendSegment(args, b);
    var pre := JoinPrefix(args);
    assert (pre + a)[|pre|..] == a;
    assert (pre + b)[|pre|..] == b;
  }

  /** Resolution never produces an empty segment, nor one containing a
      separator when none of its inputs did. */
  lemma {:induction false} ResolveClean(segs: seq<string>, absolute: bool)
    requires forall i :: 0 <= i < |segs| ==> Sep !in segs[i]
    ensures forall i :: 0 <= i < |Resolve(segs, absolute)| ==>
      Resolve(segs, absolute)[i] != "" && Sep !in Resolve(segs, absolute)[i]
    decreases |segs|
  {
    if |segs| > 0 {
      ResolveClean(segs[..|segs| - 1], absolute);
      assert Sep !in segs[|segs| - 1];
    }
  }

  /** A relative path normalises to a relative path. */
  lemma NormalizeRelative(p: string)
    requires p != "" && p[0] != Sep
    ensures Normalize(p) != "" && Normalize(p)[0] != Sep
  {
    var r := Resolve(Split(p, Sep), false);
    ResolveClean(Split(p, Sep), false);
    if |r| > 0 {
      JoinNonEmptyParts(r, [Sep]);
      assert r[0][0] in r[0];
    }
  }

  /** `join` of arguments whose first one is a relative path is relative. */
  lemma JoinPathsRelative(args: seq<string>)
    requires |args| > 0 && args[0] != "" && args[0][0] != Sep
    ensures JoinPaths(args) != "" && JoinPaths(args)[0] != Sep
  {
    var parts := NonEmpty(args);
    assert parts[0] == args[0];
    JoinNonEmptyParts(parts, [Sep]);
    NormalizeRelative(Join(parts, [Sep]));
  }

  // ---------------------------------------------------------------------------
  // basename / dirname / parse
  // ---------------------------------------------------------------------------

  /** The string without its trailing separators. */
  function TrimTrailingSeps(p: string): (r: string)
    ensures |r| <= |p| && r == p[..|r|]
    ensures |r| > 0 ==> r[|r| - 1] != Sep
    ensures forall i :: |r| <= i < |p| ==> p[i] == Sep
    decreases |p|
  {
    if |p| > 0 && p[|p| - 1] == Sep then TrimTrailingSeps(p[..|p| - 1]) else p
  }

  /** `path.basename(p)`: the last segment once trailing separators are gone
      (the empty string for `""` and for `/`). */
  function Basename(p: string): (r: string)
    ensures Sep !in r
  {
    var parts := Split(TrimTrailingSeps(p), Sep);
    parts[|parts| - 1]
  }

  /** `path.dirname(p)`: everything before the separator that precedes the
      last segment; `.` when there is none, `/` for a root-level name, and
      Node's `//` special case for a path such as `//a`. */
  function Dirname(p: string): string {
    if |p| == 0 then "."
    else
      var hasRoot := p[0] == Sep;
      var t := TrimTrailingSeps(p[1..]);
      match LastIndex(t, Sep)
      case None => if hasRoot then "/" else "."
      case Some(j) => if hasRoot && j == 0 then "//" else p[..j + 1]
  }

  /** `path.parse(p).name`: the base name without its extension. The
      extension starts at the last `.` of the base name, except that a
      leading dot (as in `.bashrc`) and the name `..` have none. */
  function ParseName(p: string): (r: string)
    ensures Sep !in r
    ensures r == Basename(p) || (exists i :: 0 < i < |Basename(p)| && Basename(p)[i] == '.' && r == Basename(p)[..i])
  {
    var b := Basename(p);
    match LastIndex(b, '.')
    case None => b
    case Some(i) => if i == 0 || b == ".." then b else b[..i]
  }

  /** The extension `ParseName` drops is exactly the last one: the name keeps
      every earlier dot, and nothing after the last dot survives. */
  lemma ParseNameDropsLastExtension(p: string, stem: string, ext: string)
    requires Basename(p) == stem + "." + ext
    requires stem != "" && '.' !in ext && Basename(p) != ".."
    ensures ParseName(p) == stem
  {
    var b := Basename(p);
    var i := |stem|;
    assert b[i] == '.';
    assert b[i + 1..] == ext;
    var li := LastIndex(b, '.');
    assert li.Some?;
    assert li.value == i;
    assert b[..i] == stem;
  }

  /** `p.split("/").at(-1)`: the text after the last separator. */
  function LastSegment(p: string): (r: string)
    ensures Sep !in r
  {
    var parts := Split(p, Sep);
    parts[|parts| - 1]
  }

  /** The last segment of a path joined onto a plain name is that name: a
      path made by `path.join(dir, name)` gives `name` back. */
  lemma LastSegmentJoin(args: seq<string>, seg: string)
    requires PlainSegment(seg)
    ensures LastSegment(JoinPaths(args + [seg])) == seg
  {
    JoinAppendSegment(args, seg);
    var p := JoinPrefix(args);
    if p == "" {
      assert p + seg == seg;
      SplitNoSeparator(seg, Sep);
    } else {
      var q := p[..|p| - 1];
      assert p[|p| - 1] == Sep;
      assert p + seg == q + [Sep] + seg;
      SplitAtLast(q, Sep, seg);
    }
  }
  /** The same, for `path.join(dir, seg)`. */
  lemma LastSegmentJoin2(dir: string, seg: string)
    requires PlainSegment(seg)
    ensures LastSegment(Join2(dir, seg)) == seg
  {
    assert [dir, seg] == [dir] + [seg];
    LastSegmentJoin([dir], seg);
  }

}
