/** The derivative cache of the current build (`src/services/photo.ts`):
    resized AVIF copies of every photo under
    `<out>/<album>/.resized_images/<file>@<width>.avif`, reused when a valid
    copy is already there, and two janitor sweeps that delete stale copies. */
module PhotoCache {
  import opened Wrappers
  import opened Strings
  import opened NodePath
  import opened JsonValues
  import opened Environment
  import opened AlbumTypes
  import Sorting

  const OptimisedSizes: seq<nat> := [3200, 1600, 800]
  const ResizedImageDir: string := ".resized_images"
  const PublicAlbumsDir: string := "public/data/albums"

  /** The widths in the order `OPTIMISED_SIZES.sort((a, b) => a - b)` leaves
      them. */
  /** The sort key of a width: the width itself. */
  function Width(n: nat): int {
    n
  }

  function AscendingSizes(): (r: seq<nat>)
    ensures |r| == |OptimisedSizes|
    ensures multiset(r) == multiset(OptimisedSizes)
  {
    Sorting.SortBy(OptimisedSizes, Width)
  }

  lemma AscendingSizesValue()
    ensures AscendingSizes() == [800, 1600, 3200]
  {
    var key := Width;
    assert OptimisedSizes[1..] == [1600, 800];
    assert OptimisedSizes[1..][1..] == [800];
    assert [800][1..] == [];
    assert Sorting.SortBy<nat>([800], key) == [800];
    assert Sorting.Insert<nat>(1600, [800], key) == [800, 1600];
    assert Sorting.SortBy<nat>([1600, 800], key) == [800, 1600];
    assert Sorting.Insert<nat>(3200, [1600], key) == [1600, 3200];
    assert Sorting.Insert<nat>(3200, [800, 1600], key) == [800, 1600, 3200];
  }

  // ---------------------------------------------------------------------------
  // Oracle wrappers
  // ---------------------------------------------------------------------------

  /** `getPhotoSize`: the probed dimensions, a missing side read as 0, and
      100 by 100 when the probe throws. */
  function GetPhotoSize(env: Env, path: string): (d: Dims)
    ensures env.probe(path).None? ==> d == Dims(100, 100)
    ensures env.probe(path).Some? ==>
      d.width == env.probe(path).value.width.GetOr(0) && d.height == env.probe(path).value.height.GetOr(0)
  {
    match env.probe(path)
    case None => Dims(100, 100)
    case Some(p) => Dims(p.width.GetOr(0), p.height.GetOr(0))
  }

  /** `getNextJsSafeExif`: the parsed tags, or the empty object when parsing
      rejects. */
  function GetNextJsSafeExif(env: Env, path: string): (m: map<string, Json>)
    ensures env.exif(path).None? ==> m == map[]
    ensures env.exif(path).Some? ==> m == env.exif(path).value
  {
    env.exif(path).GetOr(map[])
  }

  // ---------------------------------------------------------------------------
  // Paths
  // ---------------------------------------------------------------------------

  /** `stripPublicFromPath`: the path without its first segment, rooted at
      `/`. */
  function StripPublicFromPath(p: string): (r: string)
    ensures |r| >= 1 && r[0] == '/'
  {
    "/" + Join(Split(p, Sep)[1..], [Sep])
  }

  /** Stripping removes exactly the first segment: `public/x/y` becomes
      `/x/y`. */
  lemma StripDropsFirstSegment(first: string, rest: string)
    requires Sep !in first
    ensures StripPublicFromPath(first + "/" + rest) == "/" + rest
  {
    SplitAtFirst(first, Sep, rest);
    assert first + "/" + rest == first + [Sep] + rest;
    assert Split(first + [Sep] + rest, Sep)[1..] == Split(rest, Sep);
    JoinSplit(rest, Sep);
  }

  /** A path with a single segment strips to the root. */
  lemma StripSingleSegment(p: string)
    requires Sep !in p
    ensures StripPublicFromPath(p) == "/"
  {
    SplitNoSeparator(p, Sep);
  }

  /** A derivative file name `<file>@<size><ext>`; with a separator-free
      file name it is a single plain path segment. */
  function DerivativeName(filename: string, size: nat, ext: string): (r: string)
    requires Sep !in ext
    ensures Sep !in filename ==> PlainSegment(r)
  {
    var r := filename + "@" + NatToString(size) + ext;
    assert r[|filename|] == '@';
    assert Sep !in filename ==> Sep !in r by {
      if Sep !in filename {
        forall i | 0 <= i < |r| ensures r[i] != Sep {
          if i < |filename| { assert r[i] == filename[i]; }
          else if i > |filename| && i <= |filename| + |NatToString(size)| {
            assert r[i] == NatToString(size)[i - |filename| - 1];
          } else if i > |filename| + |NatToString(size)| {
            assert r[i] == ext[i - |filename| - 1 - |NatToString(size)|];
          }
        }
      }
    }
    r
  }

  /** Two widths of one photo never share a derivative name. */
  lemma DerivativeNamesDistinct(filename: string, m: nat, n: nat, ext: string)
    requires Sep !in ext && m != n
    ensures DerivativeName(filename, m, ext) != DerivativeName(filename, n, ext)
  {
    if DerivativeName(filename, m, ext) == DerivativeName(filename, n, ext) {
      assert filename + "@" + NatToString(m) + ext == (filename + "@") + NatToString(m) + ext;
      assert filename + "@" + NatToString(n) + ext == (filename + "@") + NatToString(n) + ext;
      NatToStringSuffixInjective(filename + "@", m, n, ext);
    }
  }

  /** The cache file name `<file>@<size>.avif`. */
  function CacheFileName(filename: string, size: nat): (r: string)
    ensures Sep !in filename ==> PlainSegment(r)
  {
    DerivativeName(filename, size, ".avif")
  }

  /** Where the derivative of width `size` is kept. */
  function CachePath(albumDir: string, filename: string, size: nat): string {
    JoinPaths([albumDir, ResizedImageDir, CacheFileName(filename, size)])
  }

  /** The album's output directory: the output root joined with the name of
      the photo's own directory. */
  function PublicAlbumDir(photoPath: string, outDir: string): string {
    JoinPaths([outDir, Basename(Dirname(photoPath))])
  }

  lemma {:induction false} NatToStringSuffixInjective(a: string, m: nat, n: nat, tail: string)
    requires a + NatToString(m) + tail == a + NatToString(n) + tail
    ensures m == n
  {
    var s1 := a + NatToString(m) + tail;
    var s2 := a + NatToString(n) + tail;
    assert |NatToString(m)| == |NatToString(n)|;
    assert NatToString(m) == s1[|a|..|a| + |NatToString(m)|];
    assert NatToString(n) == s2[|a|..|a| + |NatToString(n)|];
    NatToStringInjective(m, n);
  }

  /** Different widths of one photo never share a cache file. */
  lemma CachePathsDistinct(albumDir: string, filename: string, m: nat, n: nat)
    requires Sep !in filename && m != n
    ensures CachePath(albumDir, filename, m) != CachePath(albumDir, filename, n)
  {
    var a := CacheFileName(filename, m);
    var b := CacheFileName(filename, n);
    DerivativeNamesDistinct(filename, m, n, ".avif");
    assert [albumDir, ResizedImageDir, a] == [albumDir, ResizedImageDir] + [a];
    assert [albumDir, ResizedImageDir, b] == [albumDir, ResizedImageDir] + [b];
    JoinDistinct([albumDir, ResizedImageDir], a, b);
  }

  // ---------------------------------------------------------------------------
  // optimiseImages
  // ---------------------------------------------------------------------------

  /** A cache file that can be reused: present, non-empty, and decoding to a
      positive width and height. */
  predicate ValidCache(fs: FileSystem, file: string) {
    file in fs && fs[file].size > 0 && fs[file].decoded.Some?
    && fs[file].decoded.value.width > 0 && fs[file].decoded.value.height > 0
  }

  /** A non-empty cache file the decoder cannot read at all. */
  predicate UnreadableCache(fs: FileSystem, file: string) {
    file in fs && fs[file].size > 0 && fs[file].decoded.None?
  }

  datatype Step = Step(result: Result<OptimisedPhoto, Error>, fs: FileSystem)

  /** One width: reuse a valid cache file (reporting its stripped path and
      decoded size), fail when the cache file cannot be decoded, otherwise
      encode into the cache file (reporting its path as written and the
      encoder's size). */
  function OptimiseOne(fs: FileSystem, photoPath: string, newFile: string, size: nat, env: Env): (st: Step)
    ensures ValidCache(fs, newFile) ==>
      st == Step(Success(OptimisedPhoto(StripPublicFromPath(newFile),
                                        fs[newFile].decoded.value.width,
                                        fs[newFile].decoded.value.height)), fs)
    ensures UnreadableCache(fs, newFile) ==> st == Step(Failure(Error.UnreadableCache(newFile)), fs)
    ensures !ValidCache(fs, newFile) && !UnreadableCache(fs, newFile) && env.encode(photoPath, size).None? ==>
      st == Step(Failure(EncodeFailed(photoPath)), fs)
    ensures !ValidCache(fs, newFile) && !UnreadableCache(fs, newFile) && env.encode(photoPath, size).Some? ==>
      var e := env.encode(photoPath, size).value;
      st == Step(Success(OptimisedPhoto(newFile, e.width, e.height)),
                 fs[newFile := FileRec(e.bytes, Some(Dims(e.width, e.height)))])
  {
    if ValidCache(fs, newFile) then
      var d := fs[newFile].decoded.value;
      Step(Success(OptimisedPhoto(StripPublicFromPath(newFile), d.width, d.height)), fs)
    else if UnreadableCache(fs, newFile) then
      Step(Failure(Error.UnreadableCache(newFile)), fs)
    else
      match env.encode(photoPath, size)
      case None => Step(Failure(EncodeFailed(photoPath)), fs)
      case Some(e) =>
        Step(Success(OptimisedPhoto(newFile, e.width, e.height)),
             fs[newFile := FileRec(e.bytes, Some(Dims(e.width, e.height)))])
  }

  datatype Run = Run(result: Result<seq<OptimisedPhoto>, Error>, fs: FileSystem)

  /** Every width in turn, each seeing the files the previous ones wrote. All
      widths are attempted; the run fails with the first failure. */
  function OptimiseAll(fs: FileSystem, photoPath: string, albumDir: string, filename: string,
                       sizes: seq<nat>, env: Env): (run: Run)
    ensures run.result.Success? ==> |run.result.value| == |sizes|
    decreases |sizes|
  {
    if |sizes| == 0 then Run(Success([]), fs)
    else
      var st := OptimiseOne(fs, photoPath, CachePath(albumDir, filename, sizes[0]), sizes[0], env);
      var rest := OptimiseAll(st.fs, photoPath, albumDir, filename, sizes[1..], env);
      var result :=
        if st.result.Failure? then Failure(st.result.error)
        else if rest.result.Failure? then Failure(rest.result.error)
        else Success([st.result.value] + rest.result.value);
      Run(result, rest.fs)
  }

  /** `optimiseImages(photoPath, outDir)`. */
  function OptimiseImages(fs: FileSystem, photoPath: string, outDir: string, env: Env): (run: Run)
    ensures run.result.Success? ==> |run.result.value| == |OptimisedSizes|
  {
    OptimiseAll(fs, photoPath, PublicAlbumDir(photoPath, outDir), Basename(photoPath), AscendingSizes(), env)
  }

  /** The cache paths of a list of widths. */
  function CachePaths(albumDir: string, filename: string, sizes: seq<nat>): (r: seq<string>)
    ensures |r| == |sizes|
    ensures forall i :: 0 <= i < |sizes| ==> r[i] == CachePath(albumDir, filename, sizes[i])
  {
    seq(|sizes|, i requires 0 <= i < |sizes| => CachePath(albumDir, filename, sizes[i]))
  }

  /** Each width on its own, against the files as they were before the run. */
  function Independent(fs: FileSystem, photoPath: string, albumDir: string, filename: string,
                       sizes: seq<nat>, env: Env, i: nat): Result<OptimisedPhoto, Error>
    requires i < |sizes|
  {
    OptimiseOne(fs, photoPath, CachePath(albumDir, filename, sizes[i]), sizes[i], env).result
  }

  /** One width's result depends on nothing but its own cache file. */
  lemma OptimiseOneLocal(fs1: FileSystem, fs2: FileSystem, photoPath: string, newFile: string, size: nat, env: Env)
    requires (newFile in fs1 <==> newFile in fs2) && (newFile in fs1 ==> fs1[newFile] == fs2[newFile])
    ensures OptimiseOne(fs1, photoPath, newFile, size, env).result == OptimiseOne(fs2, photoPath, newFile, size, env).result
  {
  }

  /** The run touches nothing but its own cache files. */
  lemma {:induction false} OptimiseAllFrame(fs: FileSystem, photoPath: string, albumDir: string, filename: string,
                                           sizes: seq<nat>, env: Env)
    ensures var run := OptimiseAll(fs, photoPath, albumDir, filename, sizes, env);
      forall k :: k !in CachePaths(albumDir, filename, sizes) ==>
        (k in run.fs <==> k in fs) && (k in fs ==> run.fs[k] == fs[k])
    decreases |sizes|
  {
    if |sizes| > 0 {
      var st := OptimiseOne(fs, photoPath, CachePath(albumDir, filename, sizes[0]), sizes[0], env);
      OptimiseAllFrame(st.fs, photoPath, albumDir, filename, sizes[1..], env);
      var all := CachePaths(albumDir, filename, sizes);
      assert all[0] == CachePath(albumDir, filename, sizes[0]);
    }
  }

  /** Distinct widths.*/
  predicate DistinctSizes(sizes: seq<nat>) {
    forall i, j :: 0 <= i < j < |sizes| ==> sizes[i] != sizes[j]
  }

  /** Dropping the first width keeps the widths distinct. */
  lemma DistinctSizesTail(sizes: seq<nat>)
    requires |sizes| > 0 && DistinctSizes(sizes)
    ensures DistinctSizes(sizes[1..])
  {
    var tail := sizes[1..];
    forall i, j | 0 <= i < j < |tail| ensures tail[i] != tail[j] {
      assert tail[i] == sizes[i + 1] && tail[j] == sizes[j + 1];
    }
  }

  /** No later width shares the first width's cache file. */
  lemma FirstCachePathFresh(albumDir: string, filename: string, sizes: seq<nat>)
    requires Sep !in filename && |sizes| > 0 && DistinctSizes(sizes)
    ensures CachePath(albumDir, filename, sizes[0]) !in CachePaths(albumDir, filename, sizes[1..])
  {
    var tail := sizes[1..];
    forall j | 0 <= j < |tail| ensures CachePaths(albumDir, filename, tail)[j] != CachePath(albumDir, filename, sizes[0]) {
      assert tail[j] == sizes[j + 1];
      CachePathsDistinct(albumDir, filename, sizes[0], tail[j]);
    }
  }

  /** The widths do not interfere: running them one after another gives
      every width the result it would get on its own against the original
      files, so the order the concurrent writes land in does not matter. */
  lemma {:induction false} OptimiseAllIndependent(fs: FileSystem, photoPath: string, albumDir: string, filename: string,
                                                 sizes: seq<nat>, env: Env)
    requires Sep !in filename && DistinctSizes(sizes)
    ensures var run := OptimiseAll(fs, photoPath, albumDir, filename, sizes, env);
      (run.result.Success? <==>
         forall i :: 0 <= i < |sizes| ==> Independent(fs, photoPath, albumDir, filename, sizes, env, i).Success?)
      && (run.result.Success? ==>
         forall i :: 0 <= i < |sizes| ==>
           run.result.value[i] == Independent(fs, photoPath, albumDir, filename, sizes, env, i).value)
    decreases |sizes|
  {
    if |sizes| > 0 {
      var p0 := CachePath(albumDir, filename, sizes[0]);
      var st := OptimiseOne(fs, photoPath, p0, sizes[0], env);
      var tail := sizes[1..];
      DistinctSizesTail(sizes);
      OptimiseAllIndependent(st.fs, photoPath, albumDir, filename, tail, env);
      var rest := OptimiseAll(st.fs, photoPath, albumDir, filename, tail, env);
      IndependentTail(fs, photoPath, albumDir, filename, sizes, env);
      OptimiseAllCons(fs, photoPath, albumDir, filename, sizes, env);
      var run := OptimiseAll(fs, photoPath, albumDir, filename, sizes, env);
      assert Independent(fs, photoPath, albumDir, filename, sizes, env, 0) == st.result;
      if run.result.Success? {
        forall i | 0 <= i < |sizes|
          ensures Independent(fs, photoPath, albumDir, filename, sizes, env, i).Success?
        {
          if i > 0 {
            assert Independent(st.fs, photoPath, albumDir, filename, tail, env, i - 1).Success?;
          }
        }
        forall i | 0 <= i < |sizes|
          ensures run.result.value[i] == Independent(fs, photoPath, albumDir, filename, sizes, env, i).value
        {
          if i > 0 {
            assert run.result.value[i] == rest.result.value[i - 1];
          }
        }
      }
      if forall i :: 0 <= i < |sizes| ==> Independent(fs, photoPath, albumDir, filename, sizes, env, i).Success? {
        assert st.result.Success?;
        forall i | 0 <= i < |tail|
          ensures Independent(st.fs, photoPath, albumDir, filename, tail, env, i).Success?
        {
          assert Independent(fs, photoPath, albumDir, filename, sizes, env, i + 1).Success?;
        }
      }
    }
  }

  /** The first width only writes its own cache file, which no later width
      reads: the later widths get the same result after it as before. */
  lemma IndependentTail(fs: FileSystem, photoPath: string, albumDir: string, filename: string, sizes: seq<nat>, env: Env)
    requires |sizes| > 0 && Sep !in filename && DistinctSizes(sizes)
    ensures var st := OptimiseOne(fs, photoPath, CachePath(albumDir, filename, sizes[0]), sizes[0], env);
      forall i :: 0 <= i < |sizes| - 1 ==>
        Independent(st.fs, photoPath, albumDir, filename, sizes[1..], env, i)
          == Independent(fs, photoPath, albumDir, filename, sizes, env, i + 1)
  {
    var p0 := CachePath(albumDir, filename, sizes[0]);
    var st := OptimiseOne(fs, photoPath, p0, sizes[0], env);
    var tail := sizes[1..];
    forall i | 0 <= i < |tail|
      ensures Independent(st.fs, photoPath, albumDir, filename, tail, env, i)
           == Independent(fs, photoPath, albumDir, filename, sizes, env, i + 1)
    {
      var q := CachePath(albumDir, filename, tail[i]);
      assert tail[i] == sizes[i + 1];
      CachePathsDistinct(albumDir, filename, sizes[0], sizes[i + 1]);
      assert q != p0;
      OptimiseOneLocal(st.fs, fs, photoPath, q, tail[i], env);
    }
  }

  /** A run succeeds when its first width and the rest do, with the first
      width's entry in front. */
  lemma OptimiseAllCons(fs: FileSystem, photoPath: string, albumDir: string, filename: string, sizes: seq<nat>, env: Env)
    requires |sizes| > 0
    ensures var st := OptimiseOne(fs, photoPath, CachePath(albumDir, filename, sizes[0]), sizes[0], env);
      var rest := OptimiseAll(st.fs, photoPath, albumDir, filename, sizes[1..], env);
      var run := OptimiseAll(fs, photoPath, albumDir, filename, sizes, env);
      run.fs == rest.fs
      && (run.result.Success? <==> st.result.Success? && rest.result.Success?)
      && (run.result.Success? ==> run.result.value == [st.result.value] + rest.result.value)
  {
  }

  /** The dimensions a valid cache file decodes to, as a derivative entry
      with the stripped path. */
  function CachedEntry(fs: FileSystem, file: string): OptimisedPhoto
    requires ValidCache(fs, file)
  {
    OptimisedPhoto(StripPublicFromPath(file), fs[file].decoded.value.width, fs[file].decoded.value.height)
  }

  /** With every width already cached, a run reads the cache alone: it
      writes nothing, never calls the encoder, and reports the stripped
      paths. */
  lemma {:induction false} OptimiseAllCached(fs: FileSystem, photoPath: string, albumDir: string, filename: string,
                                            sizes: seq<nat>, env: Env)
    requires forall i :: 0 <= i < |sizes| ==> ValidCache(fs, CachePath(albumDir, filename, sizes[i]))
    ensures var run := OptimiseAll(fs, photoPath, albumDir, filename, sizes, env);
      run.fs == fs && run.result.Success?
      && forall i :: 0 <= i < |sizes| ==>
           run.result.value[i] == CachedEntry(fs, CachePath(albumDir, filename, sizes[i]))
    decreases |sizes|
  {
    if |sizes| > 0 {
      var tail := sizes[1..];
      forall i | 0 <= i < |tail| ensures ValidCache(fs, CachePath(albumDir, filename, tail[i])) {
        assert tail[i] == sizes[i + 1];
      }
      OptimiseAllCached(fs, photoPath, albumDir, filename, tail, env);
      var p0 := CachePath(albumDir, filename, sizes[0]);
      assert OptimiseOne(fs, photoPath, p0, sizes[0], env) == Step(Success(CachedEntry(fs, p0)), fs);
      OptimiseAllCons(fs, photoPath, albumDir, filename, sizes, env);
      var run := OptimiseAll(fs, photoPath, albumDir, filename, sizes, env);
      forall i | 0 <= i < |sizes| ensures run.result.value[i] == CachedEntry(fs, CachePath(albumDir, filename, sizes[i])) {
        if i > 0 {
          assert sizes[i] == tail[i - 1];
        }
      }
    }
  }

  /** Every width has a valid cache file in `fs`, decoding to the size
      reported for it in `res`. */
  predicate Filled(fs: FileSystem, albumDir: string, filename: string, sizes: seq<nat>, res: seq<OptimisedPhoto>) {
    |res| == |sizes|
    && forall i :: 0 <= i < |sizes| ==>
         var p := CachePath(albumDir, filename, sizes[i]);
         ValidCache(fs, p) && fs[p].decoded.value == Dims(res[i].width, res[i].height)
  }

  /** A filled first width in front of filled others. */
  lemma FilledCons(fs: FileSystem, albumDir: string, filename: string, sizes: seq<nat>,
                   first: OptimisedPhoto, res: seq<OptimisedPhoto>)
    requires |sizes| > 0 && Filled(fs, albumDir, filename, sizes[1..], res)
    requires var p := CachePath(albumDir, filename, sizes[0]);
      ValidCache(fs, p) && fs[p].decoded.value == Dims(first.width, first.height)
    ensures Filled(fs, albumDir, filename, sizes, [first] + res)
  {
    forall i | 1 <= i < |sizes| ensures sizes[i] == sizes[1..][i - 1] && ([first] + res)[i] == res[i - 1] { }
  }

  /** After a successful run with a well-behaved encoder every width has a
      valid cache file, decoding to the size the run reported. */
  lemma OptimiseAllFillsCache(fs: FileSystem, photoPath: string, albumDir: string, filename: string,
                               sizes: seq<nat>, env: Env)
    requires Sep !in filename && DistinctSizes(sizes) && WellBehavedEncoder(env)
    requires OptimiseAll(fs, photoPath, albumDir, filename, sizes, env).result.Success?
    ensures var run := OptimiseAll(fs, photoPath, albumDir, filename, sizes, env);
      forall i :: 0 <= i < |sizes| ==>
        var p := CachePath(albumDir, filename, sizes[i]);
        ValidCache(run.fs, p)
        && run.fs[p].decoded.value == Dims(run.result.value[i].width, run.result.value[i].height)
  {
    var run := OptimiseAll(fs, photoPath, albumDir, filename, sizes, env);
    FilledRun(fs, photoPath, albumDir, filename, sizes, env);
    assert Filled(run.fs, albumDir, filename, sizes, run.result.value);
  }

  /** `OptimiseAllFillsCache`, stated through `Filled`. */
  lemma {:induction false} FilledRun(fs: FileSystem, photoPath: string, albumDir: string, filename: string,
                                     sizes: seq<nat>, env: Env)
    requires Sep !in filename && DistinctSizes(sizes) && WellBehavedEncoder(env)
    requires OptimiseAll(fs, photoPath, albumDir, filename, sizes, env).result.Success?
    ensures var run := OptimiseAll(fs, photoPath, albumDir, filename, sizes, env);
      Filled(run.fs, albumDir, filename, sizes, run.result.value)
    decreases |sizes|
  {
    if |sizes| > 0 {
      var p0 := CachePath(albumDir, filename, sizes[0]);
      var st := OptimiseOne(fs, photoPath, p0, sizes[0], env);
      var tail := sizes[1..];
      OptimiseAllCons(fs, photoPath, albumDir, filename, sizes, env);
      DistinctSizesTail(sizes);
      FilledRun(st.fs, photoPath, albumDir, filename, tail, env);
      OptimiseAllFrame(st.fs, photoPath, albumDir, filename, tail, env);
      FirstCachePathFresh(albumDir, filename, sizes);
      assert ValidCache(st.fs, p0);
      var rest := OptimiseAll(st.fs, photoPath, albumDir, filename, tail, env);
      FilledCons(rest.fs, albumDir, filename, sizes, st.result.value, rest.result.value);
    }
  }

  /** A second run over the files a successful first run left behind
      writes nothing and reports the first run's dimensions under the
      stripped paths. */
  lemma OptimiseAllRerun(fs: FileSystem, photoPath: string, albumDir: string, filename: string,
                         sizes: seq<nat>, env: Env, env2: Env)
    requires Sep !in filename && DistinctSizes(sizes) && WellBehavedEncoder(env)
    requires OptimiseAll(fs, photoPath, albumDir, filename, sizes, env).result.Success?
    ensures var first := OptimiseAll(fs, photoPath, albumDir, filename, sizes, env);
      var second := OptimiseAll(first.fs, photoPath, albumDir, filename, sizes, env2);
      second.fs == first.fs && second.result.Success?
      && forall i :: 0 <= i < |sizes| ==>
           second.result.value[i] == first.result.value[i].(src := StripPublicFromPath(CachePath(albumDir, filename, sizes[i])))
  {
    OptimiseAllFillsCache(fs, photoPath, albumDir, filename, sizes, env);
    var first := OptimiseAll(fs, photoPath, albumDir, filename, sizes, env);
    OptimiseAllCached(first.fs, photoPath, albumDir, filename, sizes, env2);
  }

  /** Rebuilding is stable: a second run over the files a successful first
      run left behind writes nothing, needs no encoder, and reports the same
      dimensions, now with every path stripped. */
  lemma OptimiseImagesRerun(fs: FileSystem, photoPath: string, outDir: string, env: Env, env2: Env)
    requires WellBehavedEncoder(env)
    requires OptimiseImages(fs, photoPath, outDir, env).result.Success?
    ensures var first := OptimiseImages(fs, photoPath, outDir, env);
      var second := OptimiseImages(first.fs, photoPath, outDir, env2);
      second.fs == first.fs && second.result.Success?
      && forall i :: 0 <= i < |OptimisedSizes| ==>
           second.result.value[i] == first.result.value[i].(src := StripPublicFromPath(CachePath(PublicAlbumDir(photoPath, outDir), Basename(photoPath), AscendingSizes()[i])))
  {
    AscendingSizesDistinct();
    OptimiseAllRerun(fs, photoPath, PublicAlbumDir(photoPath, outDir), Basename(photoPath), AscendingSizes(), env, env2);
  }

  lemma AscendingSizesDistinct()
    ensures DistinctSizes(AscendingSizes())
  {
    AscendingSizesValue();
  }

  /** On an empty cache a successful run reports every derivative under the
      path it was written to, unstripped, with the encoder's dimensions. */
  lemma OptimiseAllFresh(fs: FileSystem, photoPath: string, albumDir: string, filename: string,
                         sizes: seq<nat>, env: Env)
    requires Sep !in filename && DistinctSizes(sizes)
    requires forall i :: 0 <= i < |sizes| ==> CachePath(albumDir, filename, sizes[i]) !in fs
    requires OptimiseAll(fs, photoPath, albumDir, filename, sizes, env).result.Success?
    ensures var run := OptimiseAll(fs, photoPath, albumDir, filename, sizes, env);
      forall i :: 0 <= i < |sizes| ==>
        env.encode(photoPath, sizes[i]).Some?
        && run.result.value[i] == OptimisedPhoto(CachePath(albumDir, filename, sizes[i]),
                                                env.encode(photoPath, sizes[i]).value.width,
                                                env.encode(photoPath, sizes[i]).value.height)
  {
    OptimiseAllIndependent(fs, photoPath, albumDir, filename, sizes, env);
    var run := OptimiseAll(fs, photoPath, albumDir, filename, sizes, env);
    forall i | 0 <= i < |sizes|
      ensures env.encode(photoPath, sizes[i]).Some?
      ensures run.result.value[i] == OptimisedPhoto(CachePath(albumDir, filename, sizes[i]),
                                                   env.encode(photoPath, sizes[i]).value.width,
                                                   env.encode(photoPath, sizes[i]).value.height)
    {
      var p := CachePath(albumDir, filename, sizes[i]);
      assert !ValidCache(fs, p) && !UnreadableCache(fs, p);
      assert Independent(fs, photoPath, albumDir, filename, sizes, env, i).Success?;
    }
  }

  /** The cache `src` asymmetry: on an empty cache the first build reports
      the written paths, and a rebuild reports the same files stripped. */
  lemma OptimiseAllFreshThenStripped(fs: FileSystem, photoPath: string, albumDir: string, filename: string,
                                     sizes: seq<nat>, env: Env)
    requires Sep !in filename && DistinctSizes(sizes) && WellBehavedEncoder(env)
    requires forall i :: 0 <= i < |sizes| ==> CachePath(albumDir, filename, sizes[i]) !in fs
    requires OptimiseAll(fs, photoPath, albumDir, filename, sizes, env).result.Success?
    ensures var first := OptimiseAll(fs, photoPath, albumDir, filename, sizes, env);
      var second := OptimiseAll(first.fs, photoPath, albumDir, filename, sizes, env);
      second.result.Success?
      && forall i :: 0 <= i < |sizes| ==>
           first.result.value[i].src == CachePath(albumDir, filename, sizes[i])
           && second.result.value[i].src == StripPublicFromPath(CachePath(albumDir, filename, sizes[i]))
  {
    OptimiseAllFresh(fs, photoPath, albumDir, filename, sizes, env);
    OptimiseAllFillsCache(fs, photoPath, albumDir, filename, sizes, env);
    var first := OptimiseAll(fs, photoPath, albumDir, filename, sizes, env);
    OptimiseAllCached(first.fs, photoPath, albumDir, filename, sizes, env);
  }

  /** Stripping changes every relative path. */
  lemma StripChangesRelative(p: string)
    requires p != "" && p[0] != Sep
    ensures StripPublicFromPath(p) != p
  {
  }

  /** Cache paths under a relative output root are relative. */
  lemma CachePathRelative(photoPath: string, outDir: string, size: nat)
    requires outDir != "" && outDir[0] != Sep
    ensures var p := CachePath(PublicAlbumDir(photoPath, outDir), Basename(photoPath), size);
      p != "" && p[0] != Sep
  {
    JoinPathsRelative([outDir, Basename(Dirname(photoPath))]);
    JoinPathsRelative([PublicAlbumDir(photoPath, outDir), ResizedImageDir, CacheFileName(Basename(photoPath), size)]);
  }

  /** `optimiseImages` itself shows the asymmetry; with the relative output
      root the build uses, the two reported paths differ. */
  lemma OptimiseImagesFreshThenStripped(fs: FileSystem, photoPath: string, outDir: string, env: Env)
    requires WellBehavedEncoder(env)
    requires forall i :: 0 <= i < |OptimisedSizes| ==>
      CachePath(PublicAlbumDir(photoPath, outDir), Basename(photoPath), AscendingSizes()[i]) !in fs
    requires OptimiseImages(fs, photoPath, outDir, env).result.Success?
    ensures var first := OptimiseImages(fs, photoPath, outDir, env);
      var second := OptimiseImages(first.fs, photoPath, outDir, env);
      second.result.Success?
      && forall i :: 0 <= i < |OptimisedSizes| ==>
        var p := CachePath(PublicAlbumDir(photoPath, outDir), Basename(photoPath), AscendingSizes()[i]);
        first.result.value[i].src == p && second.result.value[i].src == StripPublicFromPath(p)
        && (outDir != "" && outDir[0] != Sep ==> first.result.value[i].src != second.result.value[i].src)
  {
    AscendingSizesDistinct();
    forall i | 0 <= i < |OptimisedSizes| && outDir != "" && outDir[0] != Sep
      ensures var p := CachePath(PublicAlbumDir(photoPath, outDir), Basename(photoPath), AscendingSizes()[i]);
        StripPublicFromPath(p) != p
    {
      CachePathRelative(photoPath, outDir, AscendingSizes()[i]);
    }
    OptimiseAllFreshThenStripped(fs, photoPath, PublicAlbumDir(photoPath, outDir), Basename(photoPath), AscendingSizes(), env);
  }

  // ---------------------------------------------------------------------------
  // Janitor sweeps
  // ---------------------------------------------------------------------------

  /** The width token of a cache file name: the text between the first `@`
      and the next `.` or `@`; `None` when the name has no `@` (where the
      source's `split("@")[1].split(".")` throws). */
  function SizeToken(name: string): (r: Option<string>)
    ensures r.None? <==> '@' !in name
  {
    var parts := Split(name, '@');
    SplitSeveral(name, '@');
    if |parts| < 2 then None else Some(Split(parts[1], '.')[0])
  }

  /** A cache file the size sweep keeps: its width token parses to one of
      the configured widths. */
  predicate SizeNeeded(token: string) {
    var n := ParseInt(token);
    n.Some? && n.value >= 0 && n.value as nat in OptimisedSizes
  }

  /** A cache file the size sweep deletes. */
  predicate Unneeded(name: string) {
    var t := SizeToken(name);
    t.Some? && !SizeNeeded(t.value)
  }

  /** The cache directory the size sweep looks in: the photo's directory
      under the public albums root. */
  function SizeSweepDir(photoPath: string): string {
    JoinPaths([PublicAlbumsDir, Dirname(photoPath), ResizedImageDir])
  }

  /** Some name among the first `n` of the listing has no `@`. */
  predicate SomeWithoutAt(listing: seq<string>, n: nat)
    requires n <= |listing|
  {
    exists j :: 0 <= j < n && '@' !in listing[j]
  }

  /** `k` is the cache path of one of the first `n` listed names, and that
      name has an unneeded width. */
  predicate SweptBySize(dir: string, listing: seq<string>, n: nat, k: string)
    requires n <= |listing|
  {
    exists j :: 0 <= j < n && k == JoinPaths([dir, listing[j]]) && Unneeded(listing[j])
  }

  lemma SweptBySizeStep(dir: string, listing: seq<string>, n: nat, k: string)
    requires n < |listing|
    ensures SweptBySize(dir, listing, n + 1, k) <==>
      SweptBySize(dir, listing, n, k) || (k == JoinPaths([dir, listing[n]]) && Unneeded(listing[n]))
  {
    if SweptBySize(dir, listing, n + 1, k) && !SweptBySize(dir, listing, n, k) {
      var j :| 0 <= j < n + 1 && k == JoinPaths([dir, listing[j]]) && Unneeded(listing[j]);
      assert j == n;
    }
  }

  /** One step of the size sweep: the files left are those not swept by
      the first `i + 1` names, with their contents. */
  lemma SizeSweepStep(fs: FileSystem, before: FileSystem, after: FileSystem, dir: string, listing: seq<string>, i: nat)
    requires i < |listing|
    requires after == if Unneeded(listing[i]) then before - {JoinPaths([dir, listing[i]])} else before
    requires forall k :: k in before <==> k in fs && !SweptBySize(dir, listing, i, k)
    requires forall k :: k in before ==> before[k] == fs[k]
    ensures forall k :: k in after <==> k in fs && !SweptBySize(dir, listing, i + 1, k)
    ensures forall k :: k in after ==> after[k] == fs[k]
  {
    forall k ensures k in after <==> k in fs && !SweptBySize(dir, listing, i + 1, k) {
      SweptBySizeStep(dir, listing, i, k);
    }
  }

  lemma SomeWithoutAtStep(listing: seq<string>, i: nat)
    requires i < |listing|
    ensures SomeWithoutAt(listing, i + 1) <==> SomeWithoutAt(listing, i) || '@' !in listing[i]
  {
    if SomeWithoutAt(listing, i + 1) && '@' in listing[i] {
      var j :| 0 <= j < i + 1 && '@' !in listing[j];
    }
  }

  /** `k` is a file directly in `dir`, named with a plain segment whose
      width token is not a configured width. Every path directly in `dir`
      starts with `JoinPrefix([dir])`. */
  predicate SweptIn(dir: string, k: string) {
    var pre := JoinPrefix([dir]);
    |pre| < |k| && k[..|pre|] == pre && PlainSegment(k[|pre|..]) && Unneeded(k[|pre|..])
  }

  /** The size sweep of `photoPath`'s cache directory as its caller sees
      it: `removeUnneededImageSizes` has no `await` before its deletions, so
      they are all done by the time the call returns, whether or not its
      promise later rejects. */
  function SweepSizes(fs: FileSystem, photoPath: string): (r: FileSystem)
    ensures forall k :: k in r ==> k in fs && r[k] == fs[k]
    ensures forall k :: k in fs && !SweptIn(SizeSweepDir(photoPath), k) ==> k in r
    ensures forall k :: SweptIn(SizeSweepDir(photoPath), k) ==> k !in r
  {
    map k | k in fs && !SweptIn(SizeSweepDir(photoPath), k) :: fs[k]
  }

  /** `listing` is what `readdir(dir)` gives: plain names, among them the
      name of every file directly in `dir`. */
  predicate ListsFiles(fs: FileSystem, dir: string, listing: seq<string>) {
    var pre := JoinPrefix([dir]);
    (forall j :: 0 <= j < |listing| ==> PlainSegment(listing[j]))
    && (forall k :: k in fs && |pre| < |k| && k[..|pre|] == pre && PlainSegment(k[|pre|..]) ==> k[|pre|..] in listing)
  }

  lemma JoinedName(dir: string, name: string)
    requires PlainSegment(name)
    ensures JoinPaths([dir, name]) == JoinPrefix([dir]) + name
  {
    assert [dir] + [name] == [dir, name];
    JoinAppendSegment([dir], name);
  }

  /** A file the loop deletes is one `SweepSizes` removes. */
  lemma SweptByListingIn(dir: string, listing: seq<string>, k: string)
    requires forall j :: 0 <= j < |listing| ==> PlainSegment(listing[j])
    requires SweptBySize(dir, listing, |listing|, k)
    ensures SweptIn(dir, k)
  {
    var pre := JoinPrefix([dir]);
    var j :| 0 <= j < |listing| && k == JoinPaths([dir, listing[j]]) && Unneeded(listing[j]);
    JoinedName(dir, listing[j]);
    assert k[|pre|..] == listing[j];
  }

  /** A file `SweepSizes` removes is one the loop deletes. */
  lemma SweptInListed(fs: FileSystem, dir: string, listing: seq<string>, k: string)
    requires ListsFiles(fs, dir, listing) && k in fs && SweptIn(dir, k)
    ensures SweptBySize(dir, listing, |listing|, k)
  {
    var pre := JoinPrefix([dir]);
    var name := k[|pre|..];
    var j :| 0 <= j < |listing| && listing[j] == name;
    JoinedName(dir, name);
    assert k == pre + name;
  }

  /** Over the directory's own listing, the loop leaves exactly the files
      `SweepSizes` leaves. */
  lemma SweepAgrees(fs: FileSystem, after: FileSystem, photoPath: string, listing: seq<string>)
    requires ListsFiles(fs, SizeSweepDir(photoPath), listing)
    requires forall k :: k in after <==> k in fs && !SweptBySize(SizeSweepDir(photoPath), listing, |listing|, k)
    requires forall k :: k in after ==> after[k] == fs[k]
    ensures after == SweepSizes(fs, photoPath)
  {
    var dir := SizeSweepDir(photoPath);
    forall k | k in fs ensures k in after <==> !SweptIn(dir, k) {
      if SweptBySize(dir, listing, |listing|, k) {
        SweptByListingIn(dir, listing, k);
      }
      if SweptIn(dir, k) {
        SweptInListed(fs, dir, listing, k);
      }
    }
  }

  /** `SweepSizes` keeps every derivative of an `@`-free name in the cache
      directory. */
  lemma SweepSizesKeepsDerivatives(fs: FileSystem, photoPath: string, filename: string, size: nat)
    requires '@' !in filename && Sep !in filename && size in OptimisedSizes
    requires JoinPaths([SizeSweepDir(photoPath), CacheFileName(filename, size)]) in fs
    ensures JoinPaths([SizeSweepDir(photoPath), CacheFileName(filename, size)]) in SweepSizes(fs, photoPath)
  {
    var dir := SizeSweepDir(photoPath);
    var name := CacheFileName(filename, size);
    var pre := JoinPrefix([dir]);
    JoinedName(dir, name);
    assert (pre + name)[|pre|..] == name;
    DerivativeSurvivesSizeSweep(filename, size);
  }

  /** `removeUnneededImageSizes(photoPath)` over the directory's `listing`
      (in `readdir` order). Deletes exactly the listed files whose width
      token does not parse to a configured width; `failed` reports the
      rejection a name without `@` causes, which stops nothing else. */
  method RemoveUnneededImageSizes(fs: FileSystem, dirs: set<string>, photoPath: string, listing: seq<string>)
    returns (fs': FileSystem, failed: bool)
    ensures !Exists(fs, dirs, SizeSweepDir(photoPath)) ==> fs' == fs && !failed
    ensures SizeSweepDir(photoPath) in fs && SizeSweepDir(photoPath) !in dirs ==> fs' == fs && failed
    ensures SizeSweepDir(photoPath) in dirs ==>
      (forall k :: k in fs' <==> k in fs && !SweptBySize(SizeSweepDir(photoPath), listing, |listing|, k))
      && (failed <==> SomeWithoutAt(listing, |listing|))
    ensures forall k :: k in fs' ==> k in fs && fs'[k] == fs[k]
    ensures SizeSweepDir(photoPath) in dirs && ListsFiles(fs, SizeSweepDir(photoPath), listing) ==>
      fs' == SweepSizes(fs, photoPath)
  {
    var dir := SizeSweepDir(photoPath);
    if !Exists(fs, dirs, dir) {
      return fs, false;
    }
    if dir !in dirs {
      // readdir on a regular file rejects before any file is looked at.
      return fs, true;
    }
    fs' := fs;
    failed := false;
    var i := 0;
    while i < |listing|
      invariant 0 <= i <= |listing|
      invariant forall k :: k in fs' <==> k in fs && !SweptBySize(dir, listing, i, k)
      invariant forall k :: k in fs' ==> fs'[k] == fs[k]
      invariant failed <==> SomeWithoutAt(listing, i)
    {
      var file := listing[i];
      var cached := JoinPaths([dir, file]);
      var token := SizeToken(file);
      var before := fs';
      if token.None? {
        failed := true;
      } else if !SizeNeeded(token.value) {
        fs' := fs' - {cached};
      }
      SizeSweepStep(fs, before, fs', dir, listing, i);
      SomeWithoutAtStep(listing, i);
      i := i + 1;
    }
    if ListsFiles(fs, dir, listing) {
      SweepAgrees(fs, fs', photoPath, listing);
    }
  }

  lemma DigitsFree(size: nat, c: char)
    requires !IsDigit(c) && c !in ".avif"
    ensures c !in NatToString(size) + ".avif"
  {
    var t := NatToString(size) + ".avif";
    forall k | 0 <= k < |t| ensures t[k] != c {
      if k < |NatToString(size)| { assert t[k] == NatToString(size)[k]; }
    }
  }

  /** A derivative's name carries its width as the token after its `@`,
      provided the photo's file name has no `@`. */
  lemma DerivativeToken(filename: string, size: nat)
    requires '@' !in filename
    ensures SizeToken(CacheFileName(filename, size)) == Some(NatToString(size))
  {
    var digits := NatToString(size);
    var rest := digits + ".avif";
    DigitsFree(size, '@');
    assert CacheFileName(filename, size) == filename + ['@'] + rest;
    SplitAtFirst(filename, '@', rest);
    SplitNoSeparator(rest, '@');
    assert '.' !in digits by {
      forall k | 0 <= k < |digits| ensures digits[k] != '.' { assert IsDigit(digits[k]); }
    }
    assert rest == digits + ['.'] + "avif";
    SplitAtFirst(digits, '.', "avif");
  }

  /** So the size sweep keeps every derivative `optimiseImages` writes. */
  lemma DerivativeSurvivesSizeSweep(filename: string, size: nat)
    requires '@' !in filename && size in OptimisedSizes
    ensures !Unneeded(CacheFileName(filename, size))
  {
    DerivativeToken(filename, size);
    ParseIntNatToString(size);
  }

  /** The width token of a name with two `@`s is cut at the second one. */
  lemma SizeTokenTwoAts(a: string, b: string, c: string)
    requires '@' !in a && '@' !in b
    ensures SizeToken(a + "@" + b + "@" + c) == Some(Split(b, '.')[0])
  {
    assert a + "@" + b + "@" + c == a + ['@'] + (b + ['@'] + c);
    SplitAtFirst(a, '@', b + ['@'] + c);
    SplitAtFirst(b, '@', c);
  }

  /** The width token of the cache name of `<a>@<b>.<e>` is `b`. */
  lemma AtSignNameTokenOf(a: string, b: string, e: string, size: nat)
    requires '@' !in a && '@' !in b && '@' !in e && '.' !in b
    ensures SizeToken(CacheFileName(a + "@" + b + "." + e, size)) == Some(b)
  {
    var mid := b + "." + e;
    var rest := NatToString(size) + ".avif";
    assert a + "@" + b + "." + e == a + "@" + mid;
    ConcatAssoc(a + "@" + mid + "@", NatToString(size), ".avif");
    SizeTokenTwoAts(a, mid, rest);
    assert mid == b + ['.'] + e;
    SplitAtFirst(b, '.', e);
  }

  lemma AtSignNameToken()
    ensures SizeToken(CacheFileName("me@home.jpg", 800)) == Some("home")
  {
    assert "me@home.jpg" == "me" + "@" + "home" + "." + "jpg";
    AtSignNameTokenOf("me", "home", "jpg", 800);
  }

  lemma ParseIntHome()
    ensures ParseInt("home") == None
  {
    assert !IsJsSpace('h');
    assert TrimStart("home") == "home";
    assert DropSign("home") == "home";
    assert !HexPrefixed("home");
    assert DigitRun("home", false) == 0;
  }

  /** A photo named `<a>@<b>.<e>` has the width token `b` in every cache
      name, so the size sweep deletes all its derivatives exactly when `b`
      does not parse to a configured width. */
  lemma AtSignNameDerivativeDeleted(a: string, b: string, e: string)
    requires '@' !in a && '@' !in b && '@' !in e && '.' !in b
    ensures forall size: nat :: Unneeded(CacheFileName(a + "@" + b + "." + e, size)) <==> !SizeNeeded(b)
  {
    forall size: nat ensures Unneeded(CacheFileName(a + "@" + b + "." + e, size)) <==> !SizeNeeded(b) {
      AtSignNameTokenOf(a, b, e, size);
    }
  }

  /** For instance `me@home.jpg`: its 800-wide derivative
      `me@home.jpg@800.avif` has the width token `home` and is deleted. */
  lemma AtSignHomeDeleted()
    ensures Unneeded(CacheFileName("me@home.jpg", 800))
  {
    AtSignNameToken();
    ParseIntHome();
  }

  /** The original a cache file stands for: the part of its name before
      the extension and the first `@`, in the album directory. */
  function OriginalFile(dirname: string, cachedFile: string): string {
    JoinPaths([dirname, Split(ParseName(cachedFile), '@')[0]])
  }

  /** `k` is the cache path of one of the first `n` listed names whose
      original is missing from `fs`. */
  predicate StaleIn(fs: FileSystem, dirs: set<string>, dirname: string, dir: string,
                    listing: seq<string>, n: nat, k: string)
    requires n <= |listing|
  {
    exists j :: 0 <= j < n && k == JoinPaths([dir, listing[j]])
      && !Exists(fs, dirs, OriginalFile(dirname, JoinPaths([dir, listing[j]])))
  }

  lemma StaleInWitness(fs: FileSystem, dirs: set<string>, dirname: string, dir: string,
                       listing: seq<string>, n: nat, j: nat, k: string)
    requires j < n <= |listing| && k == JoinPaths([dir, listing[j]])
    requires !Exists(fs, dirs, OriginalFile(dirname, k))
    ensures StaleIn(fs, dirs, dirname, dir, listing, n, k)
  {
  }

  /** The name that makes `k` stale. */
  lemma StaleInIndex(fs: FileSystem, dirs: set<string>, dirname: string, dir: string,
                     listing: seq<string>, n: nat, k: string) returns (j: nat)
    requires n <= |listing| && StaleIn(fs, dirs, dirname, dir, listing, n, k)
    ensures j < n && k == JoinPaths([dir, listing[j]]) && !Exists(fs, dirs, OriginalFile(dirname, k))
  {
    j :| 0 <= j < n && k == JoinPaths([dir, listing[j]])
      && !Exists(fs, dirs, OriginalFile(dirname, JoinPaths([dir, listing[j]])));
  }

  /** Fewer files can only make more originals missing. */
  lemma StaleInShrink(fs1: FileSystem, fs2: FileSystem, dirs: set<string>, dirname: string, dir: string,
                      listing: seq<string>, n: nat, m: nat, k: string)
    requires n <= m <= |listing|
    requires forall q :: q in fs2 ==> q in fs1
    requires StaleIn(fs1, dirs, dirname, dir, listing, n, k)
    ensures StaleIn(fs2, dirs, dirname, dir, listing, m, k)
  {
    var j :| 0 <= j < n && k == JoinPaths([dir, listing[j]])
      && !Exists(fs1, dirs, OriginalFile(dirname, JoinPaths([dir, listing[j]])));
    assert !Exists(fs2, dirs, OriginalFile(dirname, JoinPaths([dir, listing[j]])));
  }

  /** One step of the sweep, for the files already gone: each is the cache
      file of one of the first `i + 1` names whose original is missing. */
  lemma RemoveStaleStepGone(fs: FileSystem, before: FileSystem, after: FileSystem, dirs: set<string>,
                            dirname: string, dir: string, listing: seq<string>, i: nat)
    requires i < |listing|
    requires var cached := JoinPaths([dir, listing[i]]);
      after == if !Exists(before, dirs, OriginalFile(dirname, cached)) then before - {cached} else before
    requires forall k :: k in fs && k !in before ==> StaleIn(before, dirs, dirname, dir, listing, i, k)
    ensures forall k :: k in fs && k !in after ==> StaleIn(after, dirs, dirname, dir, listing, i + 1, k)
  {
    var cached := JoinPaths([dir, listing[i]]);
    var original := OriginalFile(dirname, cached);
    forall k | k in fs && k !in after
      ensures StaleIn(after, dirs, dirname, dir, listing, i + 1, k)
    {
      if k in before {
        assert k == cached && !Exists(after, dirs, original);
        assert 0 <= i < i + 1 && k == JoinPaths([dir, listing[i]])
          && !Exists(after, dirs, OriginalFile(dirname, JoinPaths([dir, listing[i]])));
      } else {
        StaleInShrink(before, after, dirs, dirname, dir, listing, i, i + 1, k);
      }
    }
  }

  /** One step of the sweep, for one file stale from the start: once the
      first `i + 1` names are handled, it is gone. */
  lemma RemoveStaleStepStaleAt(fs: FileSystem, before: FileSystem, after: FileSystem, dirs: set<string>,
                               dirname: string, dir: string, listing: seq<string>, i: nat, k: string)
    requires i < |listing|
    requires var cached := JoinPaths([dir, listing[i]]);
      after == if !Exists(before, dirs, OriginalFile(dirname, cached)) then before - {cached} else before
    requires forall q :: q in before ==> q in fs
    requires StaleIn(fs, dirs, dirname, dir, listing, i, k) ==> k !in before
    requires StaleIn(fs, dirs, dirname, dir, listing, i + 1, k)
    ensures k !in after
  {
    var j := StaleInIndex(fs, dirs, dirname, dir, listing, i + 1, k);
    if j < i {
      StaleInWitness(fs, dirs, dirname, dir, listing, i, j, k);
    } else {
      var original := OriginalFile(dirname, k);
      assert !Exists(before, dirs, original) by {
        assert original !in fs;
      }
    }
  }

  /** One step of the sweep, for the files stale from the start: each of the
      first `i + 1` is gone. */
  lemma RemoveStaleStepStale(fs: FileSystem, before: FileSystem, after: FileSystem, dirs: set<string>,
                             dirname: string, dir: string, listing: seq<string>, i: nat)
    requires i < |listing|
    requires var cached := JoinPaths([dir, listing[i]]);
      after == if !Exists(before, dirs, OriginalFile(dirname, cached)) then before - {cached} else before
    requires forall k :: k in before ==> k in fs
    requires forall k :: k in fs && StaleIn(fs, dirs, dirname, dir, listing, i, k) ==> k !in before
    ensures forall k :: k in fs && StaleIn(fs, dirs, dirname, dir, listing, i + 1, k) ==> k !in after
  {
    forall k | k in fs && StaleIn(fs, dirs, dirname, dir, listing, i + 1, k)
      ensures k !in after
    {
      RemoveStaleStepStaleAt(fs, before, after, dirs, dirname, dir, listing, i, k);
    }
  }

  /** `removeStaleImages(dirname)` over the cache directory's `listing` (in
      `readdir` order): deletes the listed cache files whose original is
      gone, checking each against the files left by the previous deletions.
      Every file deleted was listed and its original is missing at the end;
      every listed file whose original was missing at the start is deleted.
      `failed` reports the rejection when the cache directory is a regular
      file. */
  method RemoveStaleImages(fs: FileSystem, dirs: set<string>, dirname: string, listing: seq<string>)
    returns (fs': FileSystem, failed: bool)
    ensures var dir := JoinPaths([dirname, ResizedImageDir]);
      (!Exists(fs, dirs, dir) ==> fs' == fs && !failed)
      && (dir in fs && dir !in dirs ==> fs' == fs && failed)
      && (dir in dirs ==> !failed)
    ensures forall k :: k in fs' ==> k in fs && fs'[k] == fs[k]
    ensures var dir := JoinPaths([dirname, ResizedImageDir]);
      forall k :: k in fs && k !in fs' ==> StaleIn(fs', dirs, dirname, dir, listing, |listing|, k)
    ensures var dir := JoinPaths([dirname, ResizedImageDir]);
      dir in dirs ==>
        forall k :: k in fs && StaleIn(fs, dirs, dirname, dir, listing, |listing|, k) ==> k !in fs'
  {
    var dir := JoinPaths([dirname, ResizedImageDir]);
    if !Exists(fs, dirs, dir) {
      return fs, false;
    }
    if dir !in dirs {
      return fs, true;
    }
    fs' := fs;
    failed := false;
    var i := 0;
    while i < |listing|
      invariant 0 <= i <= |listing|
      invariant forall k :: k in fs' ==> k in fs && fs'[k] == fs[k]
      invariant forall k :: k in fs && k !in fs' ==> StaleIn(fs', dirs, dirname, dir, listing, i, k)
      invariant forall k :: k in fs && StaleIn(fs, dirs, dirname, dir, listing, i, k) ==> k !in fs'
    {
      var cached := JoinPaths([dir, listing[i]]);
      var before := fs';
      if !Exists(fs', dirs, OriginalFile(dirname, cached)) {
        fs' := fs' - {cached};
      }
      RemoveStaleStepGone(fs, before, fs', dirs, dirname, dir, listing, i);
      RemoveStaleStepStale(fs, before, fs', dirs, dirname, dir, listing, i);
      i := i + 1;
    }
  }
}
