/** The outside world of the build: a file map standing in for the disk, and
    the image and index libraries as oracle functions. */
module Environment {
  import opened Wrappers
  import opened JsonValues

  /** Pixel dimensions as an image decoder reports them (0 when missing). */
  datatype Dims = Dims(width: nat, height: nat)

  /** One regular file: its byte size and, when an image decoder can read it,
      the dimensions it decodes to. */
  datatype FileRec = FileRec(size: nat, decoded: Option<Dims>)

  /** The disk: regular files by normalised path. */
  type FileSystem = map<string, FileRec>

  /** `fs.existsSync(p)`: a regular file or one of the known directories. */
  predicate Exists(fs: FileSystem, dirs: set<string>, p: string) {
    p in fs || p in dirs
  }

  /** What `image-size` reports for a readable file (either side may be
      missing). */
  datatype Probe = Probe(width: Option<nat>, height: Option<nat>)

  /** The outcome of one `sharp(...).resize(size).toFile(...)`: the encoded
      dimensions and the number of bytes written. */
  datatype Encoded = Encoded(width: nat, height: nat, bytes: nat)

  /** The libraries the build calls, each as a function of its input.
      `probe` is `image-size` (None: it throws), `exif` is `exifr.parse`
      (None: it rejects), `encode` is a `sharp` resize-and-write (None: it
      rejects), `tags` is the search-index row lookup (None: no row, or the
      query failed). */
  datatype Env = Env(
    probe: string -> Option<Probe>,
    exif: string -> Option<map<string, Json>>,
    encode: (string, nat) -> Option<Encoded>,
    tags: string -> Option<Json>)

  /** An encoder whose every output is a non-empty file of positive size
      that decodes back to the dimensions it reported. */
  ghost predicate WellBehavedEncoder(env: Env) {
    forall p: string, size: nat ::
      env.encode(p, size).Some? ==>
        var e := env.encode(p, size).value;
        e.width > 0 && e.height > 0 && e.bytes > 0
  }

  /** The reasons a build step throws. */
  datatype Error =
    | EncodeFailed(photo: string)
    | UnreadableCache(file: string)
    | MissingDirname
    | UnsupportedKind(kind: string)
    | MalformedManifest(dir: string)
    | MalformedSidecar(dir: string)
    | NoSizeToken(file: string)
    | NotADirectory(path: string)
}
