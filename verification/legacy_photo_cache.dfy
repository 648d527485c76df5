/** The derivative cache of the legacy build (`src/api/photo.ts`): resized
    WebP copies next to the photo, under
    `<photo dir>/.resized_images/<file>@<width>.webp`. A copy counts as
    cached as soon as a file of that name exists, and every entry reports
    the stripped path and the requested width, whether it was reused or
    written. The legacy `getPhotoSize`, `getNextJsSafeExif` and
    `stripPublicFromPath` are the same code as the current build's and are
    shared with `PhotoCache`. */
module LegacyPhotoCache {
  import opened Wrappers
  import opened Strings
  import opened NodePath
  import opened Environment
  import opened LegacyTypes
  import PhotoCache
  import Sorting

  const LegacySizes: seq<nat> := [4896, 2400, 1200, 800]

  /** The widths in the order `OPTIMISED_SIZES.sort((a, b) => a - b)` leaves
      them. */
  function AscendingSizes(): (r: seq<nat>)
    ensures |r| == |LegacySizes|
    ensures multiset(r) == multiset(LegacySizes)
  {
    Sorting.SortBy(LegacySizes, PhotoCache.Width)
  }

  lemma SortOneSize()
    ensures Sorting.SortBy<nat>([800], PhotoCache.Width) == [800]
  {
    Sorting.SortByLargestFirst<nat>([800], PhotoCache.Width, []);
  }

  lemma SortTwoSizes()
    ensures Sorting.SortBy<nat>([1200, 800], PhotoCache.Width) == [800, 1200]
  {
    SortOneSize();
    Sorting.SortByLargestFirst<nat>([1200, 800], PhotoCache.Width, [800]);
  }

  lemma SortThreeSizes()
    ensures Sorting.SortBy<nat>([2400, 1200, 800], PhotoCache.Width) == [800, 1200, 2400]
  {
    SortTwoSizes();
    Sorting.SortByLargestFirst<nat>([2400, 1200, 800], PhotoCache.Width, [800, 1200]);
  }

  /** Sorting `[4896, 2400, 1200, 800]` reverses it: each width is larger
      than all the ones after it. */
  lemma AscendingSizesValue()
    ensures AscendingSizes() == [800, 1200, 2400, 4896]
  {
    SortThreeSizes();
    Sorting.SortByLargestFirst<nat>(LegacySizes, PhotoCache.Width, [800, 1200, 2400]);
  }

  /** The cache file name `<file>@<size>.webp`. */
  function CacheFileName(filename: string, size: nat): (r: string)
    ensures Sep !in filename ==> PlainSegment(r)
  {
    PhotoCache.DerivativeName(filename, size, ".webp")
  }

  /** Where the derivative of width `size` is kept: beside the photo. */
  function CachePath(photoPath: string, size: nat): string {
    JoinPaths([Dirname(photoPath), PhotoCache.ResizedImageDir, CacheFileName(Basename(photoPath), size)])
  }

  /** Different widths of one photo never share a cache file. */
  lemma CachePathsDistinct(photoPath: string, m: nat, n: nat)
    requires m != n
    ensures CachePath(photoPath, m) != CachePath(photoPath, n)
  {
    var f := Basename(photoPath);
    var a := CacheFileName(f, m);
    var b := CacheFileName(f, n);
    PhotoCache.DerivativeNamesDistinct(f, m, n, ".webp");
    var dir := [Dirname(photoPath), PhotoCache.ResizedImageDir];
    assert [Dirname(photoPath), PhotoCache.ResizedImageDir, a] == dir + [a];
    assert [Dirname(photoPath), PhotoCache.ResizedImageDir, b] == dir + [b];
    JoinDistinct(dir, a, b);
  }

  /** The entry reported for one width. */
  function Entry(photoPath: string, size: nat): LegacyOptimisedPhoto {
    LegacyOptimisedPhoto(PhotoCache.StripPublicFromPath(CachePath(photoPath, size)), size)
  }

  datatype Step = Step(result: Result<LegacyOptimisedPhoto, Error>, fs: FileSystem)

  /** One width: an existing file of the cache name is reused whatever it
      holds; otherwise the photo is encoded into it. */
  function OptimiseOne(fs: FileSystem, photoPath: string, size: nat, env: Env): (st: Step)
    ensures st.result.Success? ==> st.result.value == Entry(photoPath, size)
    ensures st.result.Failure? <==> CachePath(photoPath, size) !in fs && env.encode(photoPath, size).None?
    ensures st.result.Failure? ==> st.result.error == EncodeFailed(photoPath)
    ensures CachePath(photoPath, size) in st.fs <==> st.result.Success?
    ensures forall k :: k in fs ==> k in st.fs && st.fs[k] == fs[k]
    ensures forall k :: k in st.fs && k !in fs ==> k == CachePath(photoPath, size)
  {
    var newFile := CachePath(photoPath, size);
    var optimised := Entry(photoPath, size);
    if newFile in fs then Step(Success(optimised), fs)
    else
      match env.encode(photoPath, size)
      case None => Step(Failure(EncodeFailed(photoPath)), fs)
      case Some(e) => Step(Success(optimised), fs[newFile := FileRec(e.bytes, Some(Dims(e.width, e.height)))])
  }

  datatype Run = Run(result: Result<seq<LegacyOptimisedPhoto>, Error>, fs: FileSystem)

  /** Every width in turn, each seeing the files the previous ones wrote; the
      run fails with the first failure. */
  function OptimiseAll(fs: FileSystem, photoPath: string, sizes: seq<nat>, env: Env): (run: Run)
    ensures run.result.Success? ==> |run.result.value| == |sizes|
    decreases |sizes|
  {
    if |sizes| == 0 then Run(Success([]), fs)
    else
      var st := OptimiseOne(fs, photoPath, sizes[0], env);
      var rest := OptimiseAll(st.fs, photoPath, sizes[1..], env);
      var result :=
        if st.result.Failure? then Failure(st.result.error)
        else if rest.result.Failure? then Failure(rest.result.error)
        else Success([st.result.value] + rest.result.value);
      Run(result, rest.fs)
  }

  /** Legacy `optimiseImages(photoPath)`. */
  function OptimiseImages(fs: FileSystem, photoPath: string, env: Env): (run: Run)
    ensures run.result.Success? ==> |run.result.value| == |LegacySizes|
  {
    OptimiseAll(fs, photoPath, AscendingSizes(), env)
  }

  /** The cache paths of a list of widths. */
  function CachePaths(photoPath: string, sizes: seq<nat>): (r: seq<string>)
    ensures |r| == |sizes|
    ensures forall i :: 0 <= i < |sizes| ==> r[i] == CachePath(photoPath, sizes[i])
  {
    seq(|sizes|, i requires 0 <= i < |sizes| => CachePath(photoPath, sizes[i]))
  }

  /** The entries of a list of widths, one per width in order. */
  function Entries(photoPath: string, sizes: seq<nat>): (r: seq<LegacyOptimisedPhoto>)
    ensures |r| == |sizes|
    ensures forall i :: 0 <= i < |sizes| ==> r[i] == Entry(photoPath, sizes[i])
    decreases |sizes|
  {
    if |sizes| == 0 then [] else [Entry(photoPath, sizes[0])] + Entries(photoPath, sizes[1..])
  }

  /** The reported entries do not depend on the cache: each is the stripped
      cache path with the requested width. */
  lemma {:induction false} OptimiseAllShape(fs: FileSystem, photoPath: string, sizes: seq<nat>, env: Env)
    ensures var run := OptimiseAll(fs, photoPath, sizes, env);
      run.result.Success? ==> run.result.value == Entries(photoPath, sizes)
    decreases |sizes|
  {
    if |sizes| > 0 {
      var st := OptimiseOne(fs, photoPath, sizes[0], env);
      OptimiseAllShape(st.fs, photoPath, sizes[1..], env);
    }
  }

  /** A run never changes a file that was already there, and only ever adds
      its own cache files. */
  lemma {:induction false} OptimiseAllNeverOverwrites(fs: FileSystem, photoPath: string, sizes: seq<nat>, env: Env)
    ensures var run := OptimiseAll(fs, photoPath, sizes, env);
      (forall k :: k in fs ==> k in run.fs && run.fs[k] == fs[k])
      && (forall k :: k in run.fs && k !in fs ==> k in CachePaths(photoPath, sizes))
    decreases |sizes|
  {
    if |sizes| > 0 {
      var st := OptimiseOne(fs, photoPath, sizes[0], env);
      OptimiseAllNeverOverwrites(st.fs, photoPath, sizes[1..], env);
      var all := CachePaths(photoPath, sizes);
      var tail := CachePaths(photoPath, sizes[1..]);
      assert all[0] == CachePath(photoPath, sizes[0]);
      forall k | k in tail ensures k in all {
        var j :| 0 <= j < |tail| && tail[j] == k;
        assert all[j + 1] == k;
      }
    }
  }

  /** A run succeeds exactly when every width either has a file of its cache
      name or can be encoded. */
  lemma {:induction false} OptimiseAllSucceeds(fs: FileSystem, photoPath: string, sizes: seq<nat>, env: Env)
    requires PhotoCache.DistinctSizes(sizes)
    ensures OptimiseAll(fs, photoPath, sizes, env).result.Success? <==>
      forall i :: 0 <= i < |sizes| ==> CachePath(photoPath, sizes[i]) in fs || env.encode(photoPath, sizes[i]).Some?
    decreases |sizes|
  {
    if |sizes| > 0 {
      var st := OptimiseOne(fs, photoPath, sizes[0], env);
      var tail := sizes[1..];
      PhotoCache.DistinctSizesTail(sizes);
      OptimiseAllSucceeds(st.fs, photoPath, tail, env);
      forall i | 0 <= i < |tail|
        ensures CachePath(photoPath, tail[i]) in st.fs <==> CachePath(photoPath, tail[i]) in fs
      {
        assert tail[i] == sizes[i + 1];
        CachePathsDistinct(photoPath, sizes[0], tail[i]);
      }
      if forall i :: 0 <= i < |sizes| ==> CachePath(photoPath, sizes[i]) in fs || env.encode(photoPath, sizes[i]).Some? {
        forall i | 0 <= i < |tail|
          ensures CachePath(photoPath, tail[i]) in fs || env.encode(photoPath, tail[i]).Some?
        {
          assert tail[i] == sizes[i + 1];
        }
      }
      if OptimiseAll(fs, photoPath, sizes, env).result.Success? {
        forall i | 0 <= i < |sizes|
          ensures CachePath(photoPath, sizes[i]) in fs || env.encode(photoPath, sizes[i]).Some?
        {
          if i > 0 { assert sizes[i] == tail[i - 1]; }
        }
      }
    }
  }

  /** After a successful run every width has a file of its cache name. */
  lemma {:induction false} OptimiseAllFillsCache(fs: FileSystem, photoPath: string, sizes: seq<nat>, env: Env)
    requires OptimiseAll(fs, photoPath, sizes, env).result.Success?
    ensures var run := OptimiseAll(fs, photoPath, sizes, env);
      forall i :: 0 <= i < |sizes| ==> CachePath(photoPath, sizes[i]) in run.fs
    decreases |sizes|
  {
    if |sizes| > 0 {
      var st := OptimiseOne(fs, photoPath, sizes[0], env);
      OptimiseAllFillsCache(st.fs, photoPath, sizes[1..], env);
      OptimiseAllNeverOverwrites(st.fs, photoPath, sizes[1..], env);
      forall i | 1 <= i < |sizes| ensures sizes[i] == sizes[1..][i - 1] { }
    }
  }

  /** With a file in place for every width, a run writes nothing and never
      calls the encoder. */
  lemma {:induction false} OptimiseAllCached(fs: FileSystem, photoPath: string, sizes: seq<nat>, env: Env)
    requires forall i :: 0 <= i < |sizes| ==> CachePath(photoPath, sizes[i]) in fs
    ensures var run := OptimiseAll(fs, photoPath, sizes, env);
      run.fs == fs && run.result.Success?
    decreases |sizes|
  {
    if |sizes| > 0 {
      assert forall i :: 0 <= i < |sizes[1..]| ==> sizes[1..][i] == sizes[i + 1];
      OptimiseAllCached(fs, photoPath, sizes[1..], env);
    }
  }

  /** A second run over the files a successful first run left behind
      writes nothing and reports what the first run reported. */
  lemma OptimiseAllRerun(fs: FileSystem, photoPath: string, sizes: seq<nat>, env: Env, env2: Env)
    requires OptimiseAll(fs, photoPath, sizes, env).result.Success?
    ensures var first := OptimiseAll(fs, photoPath, sizes, env);
      var second := OptimiseAll(first.fs, photoPath, sizes, env2);
      second.fs == first.fs && second.result == first.result
  {
    OptimiseAllFillsCache(fs, photoPath, sizes, env);
    var first := OptimiseAll(fs, photoPath, sizes, env);
    OptimiseAllCached(first.fs, photoPath, sizes, env2);
    OptimiseAllShape(fs, photoPath, sizes, env);
    OptimiseAllShape(first.fs, photoPath, sizes, env2);
    var second := OptimiseAll(first.fs, photoPath, sizes, env2);
    assert second.result.value == first.result.value;
  }

  /** Rebuilding is a no-op: a second run over the files a successful first
      run left behind writes nothing, needs no encoder, and reports exactly
      what the first run reported. */
  lemma OptimiseImagesRerun(fs: FileSystem, photoPath: string, env: Env, env2: Env)
    requires OptimiseImages(fs, photoPath, env).result.Success?
    ensures var first := OptimiseImages(fs, photoPath, env);
      var second := OptimiseImages(first.fs, photoPath, env2);
      second.fs == first.fs && second.result == first.result
  {
    OptimiseAllRerun(fs, photoPath, AscendingSizes(), env, env2);
  }
}
