/** The search database the indexer fills (`Sqlite3Client` and the `index`
    command of `index/index.py`): the `images` full-text table, one row per
    photo path; the `tags` table of tag counts; the `metadata` table; and
    the indexing run over the globbed files that are not in the table yet.
    The image analysis (EXIF reading, palette, classifier, reverse geocoding)
    is a parameter. */
module IndexStore {
  import opened Wrappers
  import opened Strings
  import Sorting
  import Indexer

  // ---------------------------------------------------------------------------
  // tables
  // ---------------------------------------------------------------------------

  /** The columns of `images` other than `path`. */
  datatype Field = FilenameField | AlbumPathField | GeocodeField | ExifField | TagsField | ColorsField

  /** A row of `images`: its path and the columns that are not `NULL`. */
  datatype Row = Row(path: string, cells: map<Field, string>)

  /** A row of `metadata`. */
  datatype Metadata = Metadata(latDeg: Option<real>, lngDeg: Option<real>, iso8601: Option<string>)

  datatype Db = Db(images: seq<Row>, tags: map<string, int>, metadata: map<string, Metadata>)

  function Paths(rows: seq<Row>): (ps: seq<string>)
    ensures |ps| == |rows| && forall i :: 0 <= i < |rows| ==> ps[i] == rows[i].path
  {
    seq(|rows|, i requires 0 <= i < |rows| => rows[i].path)
  }

  /** `SELECT COUNT(*) FROM images WHERE path = ?`. */
  function RowCount(rows: seq<Row>, path: string): nat {
    multiset(Paths(rows))[path]
  }

  /** `already_exists`: the count of rows with the path is positive. */
  function AlreadyExists(db: Db, path: string): (b: bool)
    ensures b <==> path in Paths(db.images)
    ensures b <==> exists i :: 0 <= i < |db.images| && db.images[i].path == path
  {
    var ps := Paths(db.images);
    if RowCount(db.images, path) > 0 then
      assert path in multiset(ps);
      true
    else
      assert path !in multiset(ps);
      assert forall i :: 0 <= i < |ps| ==> ps[i] in multiset(ps);
      false
  }

  /** No two rows share a path. */
  predicate UniquePaths(rows: seq<Row>) {
    forall i, j :: 0 <= i < j < |rows| ==> rows[i].path != rows[j].path
  }

  /** Every row with the path has the column set to the value. */
  predicate Holds(rows: seq<Row>, path: string, f: Field, value: string) {
    forall i :: 0 <= i < |rows| && rows[i].path == path ==> f in rows[i].cells && rows[i].cells[f] == value
  }

  // ---------------------------------------------------------------------------
  // insert_field
  // ---------------------------------------------------------------------------

  /** `UPDATE images SET <f> = ? WHERE path = ?`. */
  function SetField(rows: seq<Row>, path: string, f: Field, value: string): (r: seq<Row>)
    ensures |r| == |rows|
    ensures forall i :: 0 <= i < |rows| ==>
      r[i] == if rows[i].path == path then rows[i].(cells := rows[i].cells[f := value]) else rows[i]
  {
    seq(|rows|, i requires 0 <= i < |rows| =>
      if rows[i].path == path then rows[i].(cells := rows[i].cells[f := value]) else rows[i])
  }

  /** `insert_field`: the table has no upsert, so the rows of an indexed path
      are updated and an unknown path gets a new row holding only the path
      and the column. */
  function InsertField(db: Db, path: string, f: Field, value: string): (r: Db)
    ensures r.tags == db.tags && r.metadata == db.metadata
    ensures |r.images| == |db.images| + (if AlreadyExists(db, path) then 0 else 1)
    ensures forall i :: 0 <= i < |db.images| ==> r.images[i].path == db.images[i].path
    ensures forall i :: 0 <= i < |db.images| && db.images[i].path != path ==> r.images[i] == db.images[i]
    ensures forall i :: 0 <= i < |db.images| && db.images[i].path == path ==>
      r.images[i].cells == db.images[i].cells[f := value]
    ensures !AlreadyExists(db, path) ==> r.images[|db.images|] == Row(path, map[f := value])
  {
    if AlreadyExists(db, path) then db.(images := SetField(db.images, path, f, value))
    else db.(images := db.images + [Row(path, map[f := value])])
  }

  /** The paths after an insert: unchanged for an indexed path, one more row
      for a new one. */
  lemma InsertFieldPaths(db: Db, path: string, f: Field, value: string)
    ensures var r := InsertField(db, path, f, value);
      Paths(r.images) == Paths(db.images) + (if AlreadyExists(db, path) then [] else [path])
  {
    var r := InsertField(db, path, f, value);
    var extra: seq<string> := if AlreadyExists(db, path) then [] else [path];
    assert |Paths(r.images)| == |Paths(db.images) + extra|;
    forall i | 0 <= i < |r.images| ensures Paths(r.images)[i] == (Paths(db.images) + extra)[i] {
    }
  }

  /** `insert_field` never creates a second row for an indexed path: it
      leaves the row count of an indexed path as it is and gives a new path
      exactly one row. */
  lemma InsertFieldOneRow(db: Db, path: string, f: Field, value: string)
    ensures var r := InsertField(db, path, f, value);
      AlreadyExists(r, path)
      && RowCount(r.images, path) == (if AlreadyExists(db, path) then RowCount(db.images, path) else 1)
  {
    InsertFieldPaths(db, path, f, value);
    if !AlreadyExists(db, path) {
      assert multiset(Paths(db.images))[path] == 0;
    }
  }

  /** After the insert every row of the path holds the value. */
  lemma InsertFieldStores(db: Db, path: string, f: Field, value: string)
    ensures Holds(InsertField(db, path, f, value).images, path, f, value)
  {
    var r := InsertField(db, path, f, value);
    forall i | 0 <= i < |r.images| && r.images[i].path == path
      ensures f in r.images[i].cells && r.images[i].cells[f] == value
    {
      if i < |db.images| {
        assert db.images[i].path == path;
      }
    }
  }

  /** The insert leaves the other columns of an indexed path alone. */
  lemma InsertFieldKeeps(db: Db, path: string, f: Field, value: string, g: Field, w: string)
    requires g != f && AlreadyExists(db, path) && Holds(db.images, path, g, w)
    ensures Holds(InsertField(db, path, f, value).images, path, g, w)
  {
    var r := InsertField(db, path, f, value);
    forall i | 0 <= i < |r.images| && r.images[i].path == path
      ensures g in r.images[i].cells && r.images[i].cells[g] == w
    {
      assert db.images[i].path == path;
    }
  }

  /** Writing the same value twice is writing it once. */
  lemma InsertFieldIdempotent(db: Db, path: string, f: Field, value: string)
    ensures var once := InsertField(db, path, f, value);
      InsertField(once, path, f, value) == once
  {
    var once := InsertField(db, path, f, value);
    InsertFieldOneRow(db, path, f, value);
    InsertFieldStores(db, path, f, value);
    InsertFieldHeld(once, path, f, value);
  }

  /** Writing the value an indexed path already holds changes nothing. */
  lemma InsertFieldHeld(db: Db, path: string, f: Field, value: string)
    requires AlreadyExists(db, path) && Holds(db.images, path, f, value)
    ensures InsertField(db, path, f, value) == db
  {
    var r := InsertField(db, path, f, value);
    assert |r.images| == |db.images|;
    forall i | 0 <= i < |db.images| ensures r.images[i] == db.images[i] {
      if db.images[i].path == path {
        assert db.images[i].cells[f := value] == db.images[i].cells;
      }
    }
  }

  /** `insert_field` keeps paths unique. */
  lemma InsertFieldUnique(db: Db, path: string, f: Field, value: string)
    requires UniquePaths(db.images)
    ensures UniquePaths(InsertField(db, path, f, value).images)
  {
  }

  // ---------------------------------------------------------------------------
  // growth of the images table
  // ---------------------------------------------------------------------------

  /** `r` extends `db`: the old rows keep their paths, new rows belong to
      `paths`, and the old rows of the other paths are untouched. */
  predicate Extends(db: Db, r: Db, paths: set<string>) {
    |r.images| >= |db.images|
    && (forall i :: 0 <= i < |db.images| ==> r.images[i].path == db.images[i].path)
    && (forall k :: |db.images| <= k < |r.images| ==> r.images[k].path in paths)
    && (forall i :: 0 <= i < |db.images| && db.images[i].path !in paths ==> r.images[i] == db.images[i])
  }

  lemma ExtendsTrans(a: Db, b: Db, c: Db, p: set<string>, q: set<string>)
    requires Extends(a, b, p) && Extends(b, c, q)
    ensures Extends(a, c, p + q)
  {
  }

  /** An extension keeps every indexed path indexed. */
  lemma ExtendsExists(db: Db, r: Db, paths: set<string>, path: string)
    requires Extends(db, r, paths) && AlreadyExists(db, path)
    ensures AlreadyExists(r, path)
  {
    var i :| 0 <= i < |db.images| && db.images[i].path == path;
    assert r.images[i].path == path;
  }

  lemma InsertFieldExtends(db: Db, path: string, f: Field, value: string)
    ensures Extends(db, InsertField(db, path, f, value), {path})
  {
  }

  // ---------------------------------------------------------------------------
  // insert_tag / insert_metadata
  // ---------------------------------------------------------------------------

  /** `insert_tag`: `INSERT OR IGNORE` the tag with count 1, then add 1. */
  function InsertTag(tags: map<string, int>, tag: string): (r: map<string, int>)
    ensures r.Keys == tags.Keys + {tag}
    ensures forall t :: t in tags && t != tag ==> r[t] == tags[t]
  {
    var inserted := if tag in tags then tags else tags[tag := 1];
    inserted[tag := inserted[tag] + 1]
  }

  /** `insert_tag` for each tag in turn. */
  function InsertTags(tags: map<string, int>, ts: seq<string>): map<string, int>
    decreases |ts|
  {
    if |ts| == 0 then tags else InsertTag(InsertTags(tags, ts[..|ts| - 1]), ts[|ts| - 1])
  }

  /** Inserting `xs` and then `ys` is inserting `xs + ys`. */
  lemma {:induction false} InsertTagsAppend(tags: map<string, int>, xs: seq<string>, ys: seq<string>)
    ensures InsertTags(tags, xs + ys) == InsertTags(InsertTags(tags, xs), ys)
    decreases |ys|
  {
    if |ys| == 0 {
      assert xs + ys == xs;
    } else {
      var n := |ys| - 1;
      assert (xs + ys)[..|xs + ys| - 1] == xs + ys[..n];
      assert (xs + ys)[|xs + ys| - 1] == ys[n];
      InsertTagsAppend(tags, xs, ys[..n]);
    }
  }

  /** Inserting one tag and then `ts` is inserting `[t] + ts`. */
  lemma InsertTagsCons(tags: map<string, int>, t: string, ts: seq<string>)
    ensures InsertTags(InsertTag(tags, t), ts) == InsertTags(tags, [t] + ts)
  {
    assert [t][..0] == [];
    InsertTagsAppend(tags, [t], ts);
  }

  /** A tag is in the table after the calls exactly when it was before or
      was inserted, and each call adds one to its count, the first call on
      a new tag two. */
  lemma {:induction false} InsertTagsCount(tags: map<string, int>, ts: seq<string>, t: string)
    ensures var r := InsertTags(tags, ts);
      (t in r <==> t in tags || t in ts)
      && (t in r ==> r[t] == (if t in tags then tags[t] else 1) + multiset(ts)[t])
    decreases |ts|
  {
    if |ts| > 0 {
      var n := |ts| - 1;
      InsertTagsCount(tags, ts[..n], t);
      assert ts == ts[..n] + [ts[n]];
      assert multiset(ts) == multiset(ts[..n]) + multiset{ts[n]};
      assert t in ts <==> t in ts[..n] || t == ts[n];
    }
  }

  /** From an empty table, a tag inserted `n` times has count `n + 1`; the
      search page shows `count - 1`, which is `n`. */
  lemma InsertTagsFromEmpty(ts: seq<string>, t: string)
    requires t in ts
    ensures t in InsertTags(map[], ts) && InsertTags(map[], ts)[t] == multiset(ts)[t] + 1
    ensures InsertTags(map[], ts)[t] - 1 == multiset(ts)[t]
  {
    InsertTagsCount(map[], ts, t);
  }

  /** `insert_metadata`: `INSERT OR IGNORE` then `UPDATE`, so the row of the
      path ends up with the given values whether or not it existed. */
  function InsertMetadata(meta: map<string, Metadata>, path: string, m: Metadata): (r: map<string, Metadata>)
    ensures r.Keys == meta.Keys + {path} && r[path] == m
    ensures forall p :: p in meta && p != path ==> r[p] == meta[p]
  {
    var inserted := if path in meta then meta else meta[path := m];
    inserted[path := m]
  }

  // ---------------------------------------------------------------------------
  // indexing one file
  // ---------------------------------------------------------------------------

  /** What `analyse_image` returns for a file: its date text, EXIF mapping,
      reverse-geocoded place (empty when the photo has no position),
      position, palette and classifier tags. */
  datatype Analysis = Analysis(
    datetime: Option<string>,
    exif: Indexer.PyValue,
    geocode: seq<(string, string)>,
    latDeg: Option<real>,
    lngDeg: Option<real>,
    colors: Indexer.PyValue,
    tags: seq<string>)

  /** The four GPS tags of a photo that has all of them: the latitude and
      longitude rationals and their hemisphere references. */
  datatype Gps = Gps(lat: seq<Indexer.Ratio>, latRef: string, lng: seq<Indexer.Ratio>, lngRef: string)

  /** What `analyse_image` reads from an opened file: the EXIF mapping
      without its byte values, the GPS tags when all four are set, the
      `DateTimeOriginal` text, the palette and the classifier's tags. */
  datatype Image = Image(
    exif: Indexer.PyValue,
    gps: Option<Gps>,
    stamp: Option<string>,
    colors: Indexer.PyValue,
    tags: seq<string>)

  /** `analyse_image`: a photo with all four GPS tags gets its position from
      `convert_to_degress` and its place from the reverse geocoder, a
      parameter that gives the empty mapping when it finds nothing; a photo
      without them gets neither. A reading `convert_to_degress` cannot
      convert raises, and then there is no analysis. */
  function Analyse(img: Image, geocoder: (real, real) -> seq<(string, string)>): (r: Option<Analysis>)
    ensures r.None? <==>
      img.gps.Some? && !(Indexer.Convertible(img.gps.value.lat) && Indexer.Convertible(img.gps.value.lng))
    ensures r.Some? ==>
      r.value.exif == img.exif && r.value.colors == img.colors && r.value.tags == img.tags
      && r.value.datetime == Indexer.DateTime(img.stamp)
    ensures r.Some? && img.gps.None? ==> r.value.geocode == [] && r.value.latDeg.None? && r.value.lngDeg.None?
    ensures r.Some? && img.gps.Some? ==>
      r.value.latDeg.Some? && r.value.lngDeg.Some?
      && r.value.latDeg == Indexer.ConvertToDegrees(img.gps.value.lat, img.gps.value.latRef)
      && r.value.lngDeg == Indexer.ConvertToDegrees(img.gps.value.lng, img.gps.value.lngRef)
      && r.value.geocode == geocoder(r.value.latDeg.value, r.value.lngDeg.value)
  {
    var datetime := Indexer.DateTime(img.stamp);
    match img.gps
    case None => Some(Analysis(datetime, img.exif, [], None, None, img.colors, img.tags))
    case Some(g) =>
      match (Indexer.ConvertToDegrees(g.lat, g.latRef), Indexer.ConvertToDegrees(g.lng, g.lngRef))
      case (Some(lat), Some(lng)) =>
        Some(Analysis(datetime, img.exif, geocoder(lat, lng), Some(lat), Some(lng), img.colors, img.tags))
      case _ => None
  }

  /** A GPS rational with a zero denominator makes the analysis raise. */
  lemma ZeroDenominatorRaises(img: Image, geocoder: (real, real) -> seq<(string, string)>, k: nat)
    requires img.gps.Some? && k < 3 && k < |img.gps.value.lat| && img.gps.value.lat[k].den == 0
    ensures Analyse(img, geocoder).None?
  {
  }

  /** The analysis of a file, or `None` when opening or decoding it or
      `analyse_image` raises; reading the file is a parameter. */
  function AnalyseFile(path: string, read: string -> Option<Image>, geocoder: (real, real) -> seq<(string, string)>)
    : Option<Analysis>
  {
    match read(path)
    case None => None
    case Some(img) => Analyse(img, geocoder)
  }

  /** The exception that ends a run. */
  datatype IndexError =
    | AnalysisFailed(path: string)  // opening, decoding or analysing the file raised
    | PathTooShort            // `p.parts[-2]` of a path with fewer than two parts
    | MissingGeocodeKey(key: string)

  /** A run's end state: the database as committed so far, and the
      exception that stopped it, if any. */
  datatype Outcome = Outcome(db: Db, error: Option<IndexError>)

  /** The place names counted as tags, in the order they are inserted. */
  const GeocodeTagKeys: seq<string> := ["country", "city", "country_code"]

  /** `geocode[key]`. */
  function Lookup(items: seq<(string, string)>, key: string): (r: Option<string>)
    ensures r.Some? <==> exists i :: 0 <= i < |items| && items[i].0 == key
    ensures r.Some? ==> exists i :: 0 <= i < |items| && items[i] == (key, r.value)
    decreases |items|
  {
    if |items| == 0 then None
    else if items[0].0 == key then Some(items[0].1)
    else
      var r := Lookup(items[1..], key);
      assert forall i :: 1 <= i < |items| ==> items[i] == items[1..][i - 1];
      r
  }

  /** `geocode[key]` for each key, when every key is present. */
  function LookupAll(items: seq<(string, string)>, keys: seq<string>): (r: Option<seq<string>>)
    ensures r.Some? <==> forall i :: 0 <= i < |keys| ==> Lookup(items, keys[i]).Some?
    ensures r.Some? ==>
      |r.value| == |keys| && forall i :: 0 <= i < |keys| ==> r.value[i] == Lookup(items, keys[i]).value
    decreases |keys|
  {
    if |keys| == 0 then Some([])
    else
      assert forall i :: 1 <= i < |keys| ==> keys[i] == keys[1..][i - 1];
      match (Lookup(items, keys[0]), LookupAll(items, keys[1..]))
      case (Some(name), Some(names)) => Some([name] + names)
      case _ => None
  }

  /** `insert_tag(geocode[key])` for each key in turn; a missing key raises
      after the tags before it are in. Without a missing key, each key's
      name is counted once, in key order. */
  function GeocodeTags(tags: map<string, int>, geocode: seq<(string, string)>, keys: seq<string>)
    : (r: (map<string, int>, Option<IndexError>))
    ensures r.1.None? <==> forall i :: 0 <= i < |keys| ==> Lookup(geocode, keys[i]).Some?
    ensures r.1.None? ==> r.0 == InsertTags(tags, LookupAll(geocode, keys).value)
    ensures r.1.Some? ==>
      r.1.value.MissingGeocodeKey? && r.1.value.key in keys && Lookup(geocode, r.1.value.key).None?
    decreases |keys|
  {
    if |keys| == 0 then (tags, None)
    else
      match Lookup(geocode, keys[0])
      case None => (tags, Some(MissingGeocodeKey(keys[0])))
      case Some(name) =>
        var r := GeocodeTags(InsertTag(tags, name), geocode, keys[1..]);
        assert forall i :: 1 <= i < |keys| ==> keys[i] == keys[1..][i - 1];
        assert r.1.None? ==> r.0 == InsertTags(tags, LookupAll(geocode, keys).value) by {
          if r.1.None? {
            var names := LookupAll(geocode, keys[1..]).value;
            assert LookupAll(geocode, keys).value == [name] + names;
            InsertTagsCons(tags, name, names);
          }
        }
        r
  }

  /** The `images` columns written for a file once its link is known, in
      order: the link, the EXIF and palette text and, for a located photo,
      the place. */
  function LaterFields(link: string, exif: string, colors: string, place: Option<string>): (fs: seq<(Field, string)>)
    ensures |fs| == (if place.Some? then 4 else 3)
    ensures fs[0] == (AlbumPathField, link) && fs[1] == (ExifField, exif) && fs[2] == (ColorsField, colors)
    ensures place.Some? ==> fs[3] == (GeocodeField, place.value)
    ensures forall i :: 0 <= i < |fs| ==> fs[i].0 != FilenameField && fs[i].0 != TagsField
    ensures forall i, j :: 0 <= i < j < |fs| ==> fs[i].0 != fs[j].0
  {
    [(AlbumPathField, link), (ExifField, exif), (ColorsField, colors)]
    + (if place.Some? then [(GeocodeField, place.value)] else [])
  }

  /** The place text of a located photo: its values, one per line. */
  function PlaceText(a: Analysis): Option<string> {
    if |a.geocode| > 0 then Some(Indexer.FormatMappingValues(Indexer.PyDict(a.geocode))) else None
  }

  /** `insert_field` for each column in turn. */
  function InsertFields(db: Db, path: string, fs: seq<(Field, string)>): (r: Db)
    ensures r.tags == db.tags && r.metadata == db.metadata
    decreases |fs|
  {
    if |fs| == 0 then db else InsertFields(InsertField(db, path, fs[0].0, fs[0].1), path, fs[1..])
  }

  /** The row of a file after its file name is in. */
  function Named(db: Db, path: string, name: string): Db {
    InsertField(db, path, FilenameField, name)
  }

  /** The row of a file after the columns that follow its link are in. */
  function Described(db: Db, path: string, name: string, fs: seq<(Field, string)>): Db {
    InsertFields(Named(db, path, name), path, fs)
  }

  /** The place names of a located photo counted as tags. */
  function PlaceTags(tags: map<string, int>, a: Analysis): (r: (map<string, int>, Option<IndexError>))
    ensures r.1.Some? <==> |a.geocode| > 0 && exists i :: 0 <= i < |GeocodeTagKeys| && Lookup(a.geocode, GeocodeTagKeys[i]).None?
    ensures |a.geocode| == 0 ==> r.0 == tags
    ensures |a.geocode| > 0 && r.1.None? ==> r.0 == InsertTags(tags, LookupAll(a.geocode, GeocodeTagKeys).value)
  {
    if |a.geocode| > 0 then GeocodeTags(tags, a.geocode, GeocodeTagKeys) else (tags, None)
  }

  /** The classifier tags, as a column and counted, then the `metadata`
      row. */
  function Finished(before: Db, path: string, a: Analysis): Db {
    var tagged := InsertField(before, path, TagsField, Join(a.tags, ", "));
    var counted := tagged.(tags := InsertTags(tagged.tags, a.tags));
    counted.(metadata := InsertMetadata(counted.metadata, path, Metadata(a.latDeg, a.lngDeg, None)))
  }

  /** The body of the loop in `index` for one file. The file name goes in
      first; a path too short for a link raises next; then the link, the
      EXIF and palette text and, for a located photo, the place and its
      three names as tags; then the classifier tags, as one column and one
      by one; and last the `metadata` row. Its date is `analysed.get(
      "iso8601")`, a key the analysis does not have, so it is always
      `None`. */
  function IndexFile(db: Db, path: string, a: Analysis): (r: Outcome)
    ensures r.error.Some? <==> (|Indexer.Parts(path)| < 2
      || (|a.geocode| > 0 && exists i :: 0 <= i < |GeocodeTagKeys| && Lookup(a.geocode, GeocodeTagKeys[i]).None?))
    ensures r.error.None? ==> path in r.db.metadata && r.db.metadata[path] == Metadata(a.latDeg, a.lngDeg, None)
    ensures r.error.None? && |a.geocode| == 0 ==> r.db.tags == InsertTags(db.tags, a.tags)
    ensures r.error.None? && |a.geocode| > 0 ==>
      r.db.tags == InsertTags(db.tags, LookupAll(a.geocode, GeocodeTagKeys).value + a.tags)
  {
    var name := Indexer.FileName(path);
    match Indexer.AlbumRelativePath(path)
    case None => Outcome(Named(db, path, name), Some(PathTooShort))
    case Some(link) =>
      var fs := LaterFields(link, Indexer.FormatMapping(a.exif), Indexer.FormatMapping(a.colors), PlaceText(a));
      var described := Described(db, path, name, fs);
      var place := PlaceTags(described.tags, a);
      if place.1.Some? then Outcome(described.(tags := place.0), place.1)
      else
        assert |a.geocode| > 0 ==>
          InsertTags(place.0, a.tags) == InsertTags(db.tags, LookupAll(a.geocode, GeocodeTagKeys).value + a.tags) by {
          if |a.geocode| > 0 {
            InsertTagsAppend(db.tags, LookupAll(a.geocode, GeocodeTagKeys).value, a.tags);
          }
        }
        Outcome(Finished(described.(tags := place.0), path, a), None)
  }

  /** Inserting a sequence of columns extends the table by at most the
      path's row, which then exists, and keeps paths unique. */
  lemma {:induction false} InsertFieldsExtends(db: Db, path: string, fs: seq<(Field, string)>)
    requires |fs| > 0 || AlreadyExists(db, path)
    ensures var r := InsertFields(db, path, fs);
      Extends(db, r, {path}) && AlreadyExists(r, path)
      && (UniquePaths(db.images) ==> UniquePaths(r.images))
    decreases |fs|
  {
    if |fs| > 0 {
      var next := InsertField(db, path, fs[0].0, fs[0].1);
      InsertFieldExtends(db, path, fs[0].0, fs[0].1);
      InsertFieldOneRow(db, path, fs[0].0, fs[0].1);
      if UniquePaths(db.images) {
        InsertFieldUnique(db, path, fs[0].0, fs[0].1);
      }
      InsertFieldsExtends(next, path, fs[1..]);
      ExtendsTrans(db, next, InsertFields(next, path, fs[1..]), {path}, {path});
      assert {path} + {path} == {path};
    }
  }

  /** After inserting a sequence of distinct columns into an indexed path,
      each holds its value. */
  lemma {:induction false} InsertFieldsStore(db: Db, path: string, fs: seq<(Field, string)>, k: nat)
    requires AlreadyExists(db, path) && k < |fs|
    requires forall i, j :: 0 <= i < j < |fs| ==> fs[i].0 != fs[j].0
    ensures Holds(InsertFields(db, path, fs).images, path, fs[k].0, fs[k].1)
    decreases |fs|
  {
    var next := InsertField(db, path, fs[0].0, fs[0].1);
    InsertFieldOneRow(db, path, fs[0].0, fs[0].1);
    if k == 0 {
      InsertFieldStores(db, path, fs[0].0, fs[0].1);
      InsertFieldsKeep(next, path, fs[1..], fs[0].0, fs[0].1);
    } else {
      assert fs[1..][k - 1] == fs[k];
      InsertFieldsStore(next, path, fs[1..], k - 1);
    }
  }

  /** Inserting columns other than `g` into an indexed path keeps `g`. */
  lemma {:induction false} InsertFieldsKeep(db: Db, path: string, fs: seq<(Field, string)>, g: Field, w: string)
    requires AlreadyExists(db, path) && Holds(db.images, path, g, w)
    requires forall i :: 0 <= i < |fs| ==> fs[i].0 != g
    ensures Holds(InsertFields(db, path, fs).images, path, g, w)
    decreases |fs|
  {
    if |fs| > 0 {
      var next := InsertField(db, path, fs[0].0, fs[0].1);
      InsertFieldKeeps(db, path, fs[0].0, fs[0].1, g, w);
      InsertFieldOneRow(db, path, fs[0].0, fs[0].1);
      InsertFieldsKeep(next, path, fs[1..], g, w);
    }
  }

  /** The file-name step gives the file its row and the name. */
  lemma NamedRows(db: Db, path: string, name: string)
    ensures var r := Named(db, path, name);
      Extends(db, r, {path}) && AlreadyExists(r, path)
      && (UniquePaths(db.images) ==> UniquePaths(r.images))
      && Holds(r.images, path, FilenameField, name)
  {
    InsertFieldExtends(db, path, FilenameField, name);
    InsertFieldOneRow(db, path, FilenameField, name);
    InsertFieldStores(db, path, FilenameField, name);
    if UniquePaths(db.images) {
      InsertFieldUnique(db, path, FilenameField, name);
    }
  }

  /** The columns after the link extend only the file's row. */
  lemma DescribedRows(db: Db, path: string, name: string, fs: seq<(Field, string)>)
    ensures var r := Described(db, path, name, fs);
      Extends(db, r, {path}) && AlreadyExists(r, path)
      && (UniquePaths(db.images) ==> UniquePaths(r.images))
  {
    var named := Named(db, path, name);
    NamedRows(db, path, name);
    InsertFieldsExtends(named, path, fs);
    ExtendsTrans(db, named, Described(db, path, name, fs), {path}, {path});
    assert {path} + {path} == {path};
  }

  /** The columns after the link keep the file name and hold their values. */
  lemma DescribedStores(db: Db, path: string, name: string, fs: seq<(Field, string)>, k: nat)
    requires forall i :: 0 <= i < |fs| ==> fs[i].0 != FilenameField
    requires forall i, j :: 0 <= i < j < |fs| ==> fs[i].0 != fs[j].0
    requires k < |fs|
    ensures Holds(Described(db, path, name, fs).images, path, FilenameField, name)
    ensures Holds(Described(db, path, name, fs).images, path, fs[k].0, fs[k].1)
  {
    NamedRows(db, path, name);
    InsertFieldsKeep(Named(db, path, name), path, fs, FilenameField, name);
    InsertFieldsStore(Named(db, path, name), path, fs, k);
  }

  /** The last steps extend only the file's row and write its tag text. */
  lemma FinishedRows(before: Db, path: string, a: Analysis)
    ensures var r := Finished(before, path, a);
      Extends(before, r, {path}) && AlreadyExists(r, path)
      && (UniquePaths(before.images) ==> UniquePaths(r.images))
      && Holds(r.images, path, TagsField, Join(a.tags, ", "))
  {
    InsertFieldExtends(before, path, TagsField, Join(a.tags, ", "));
    InsertFieldOneRow(before, path, TagsField, Join(a.tags, ", "));
    InsertFieldStores(before, path, TagsField, Join(a.tags, ", "));
    if UniquePaths(before.images) {
      InsertFieldUnique(before, path, TagsField, Join(a.tags, ", "));
    }
  }

  /** The last steps keep the other columns of the file's row. */
  lemma FinishedKeeps(before: Db, path: string, a: Analysis, g: Field, w: string)
    requires g != TagsField && AlreadyExists(before, path) && Holds(before.images, path, g, w)
    ensures Holds(Finished(before, path, a).images, path, g, w)
  {
    InsertFieldKeeps(before, path, TagsField, Join(a.tags, ", "), g, w);
  }

  /** Indexing a file gives it a row, whatever happens after the file name
      is in, touches no other path's row and keeps paths unique. */
  lemma IndexFileRows(db: Db, path: string, a: Analysis)
    ensures var r := IndexFile(db, path, a);
      Extends(db, r.db, {path}) && AlreadyExists(r.db, path)
      && (UniquePaths(db.images) ==> UniquePaths(r.db.images))
  {
    var name := Indexer.FileName(path);
    match Indexer.AlbumRelativePath(path)
    case None =>
      NamedRows(db, path, name);
    case Some(link) =>
      var fs := LaterFields(link, Indexer.FormatMapping(a.exif), Indexer.FormatMapping(a.colors), PlaceText(a));
      var described := Described(db, path, name, fs);
      DescribedRows(db, path, name, fs);
      var place := PlaceTags(described.tags, a);
      if place.1.None? {
        var before := described.(tags := place.0);
        FinishedRows(before, path, a);
        ExtendsTrans(db, before, Finished(before, path, a), {path}, {path});
        assert {path} + {path} == {path};
      }
  }

  /** Once indexing a file succeeds, its row holds the file name, the album
      link, the EXIF, palette and tag text and, for a located photo, the
      place. */
  lemma IndexFileStores(db: Db, path: string, a: Analysis)
    requires IndexFile(db, path, a).error.None?
    ensures var rows := IndexFile(db, path, a).db.images;
      Holds(rows, path, FilenameField, Indexer.FileName(path))
      && Holds(rows, path, AlbumPathField, Indexer.AlbumRelativePath(path).value)
      && Holds(rows, path, ExifField, Indexer.FormatMapping(a.exif))
      && Holds(rows, path, ColorsField, Indexer.FormatMapping(a.colors))
      && Holds(rows, path, TagsField, Join(a.tags, ", "))
      && (|a.geocode| > 0 ==> Holds(rows, path, GeocodeField, Indexer.FormatMappingValues(Indexer.PyDict(a.geocode))))
  {
    var name := Indexer.FileName(path);
    var link := Indexer.AlbumRelativePath(path).value;
    var fs := LaterFields(link, Indexer.FormatMapping(a.exif), Indexer.FormatMapping(a.colors), PlaceText(a));
    var described := Described(db, path, name, fs);
    var before := described.(tags := PlaceTags(described.tags, a).0);
    DescribedRows(db, path, name, fs);
    FinishedRows(before, path, a);
    FinishedStoresLater(db, path, name, fs, a, before, 0);
    FinishedStoresLater(db, path, name, fs, a, before, 1);
    FinishedStoresLater(db, path, name, fs, a, before, 2);
    if |a.geocode| > 0 {
      FinishedStoresLater(db, path, name, fs, a, before, 3);
    }
  }

  /** The file name and the columns after the link survive the last steps. */
  lemma FinishedStoresLater(db: Db, path: string, name: string, fs: seq<(Field, string)>, a: Analysis, before: Db, k: nat)
    requires forall i :: 0 <= i < |fs| ==> fs[i].0 != FilenameField && fs[i].0 != TagsField
    requires forall i, j :: 0 <= i < j < |fs| ==> fs[i].0 != fs[j].0
    requires before.images == Described(db, path, name, fs).images && k < |fs|
    ensures Holds(Finished(before, path, a).images, path, FilenameField, name)
    ensures Holds(Finished(before, path, a).images, path, fs[k].0, fs[k].1)
  {
    DescribedRows(db, path, name, fs);
    assert AlreadyExists(before, path);
    DescribedStores(db, path, name, fs, k);
    FinishedKeeps(before, path, a, FilenameField, name);
    FinishedKeeps(before, path, a, fs[k].0, fs[k].1);
  }

  // ---------------------------------------------------------------------------
  // the index command
  // ---------------------------------------------------------------------------

  /** `valid_files`: the globbed files that have no row yet, in glob order. */
  function ValidFiles(db: Db, files: seq<string>): (r: seq<string>)
    ensures forall f :: f in r <==> f in files && !AlreadyExists(db, f)
    ensures |r| <= |files|
  {
    var unindexed := (f: string) => !AlreadyExists(db, f);
    Sorting.FilterMembers(files, unindexed);
    Sorting.Filter(files, unindexed)
  }

  /** The indexing loop over the valid files; the first exception ends it.
      A file whose analysis raises ends it before the file gets a row. */
  function IndexFiles(db: Db, paths: seq<string>, read: string -> Option<Image>,
                      geocoder: (real, real) -> seq<(string, string)>): (r: Outcome)
    decreases |paths|
  {
    if |paths| == 0 then Outcome(db, None)
    else
      match AnalyseFile(paths[0], read, geocoder)
      case None => Outcome(db, Some(AnalysisFailed(paths[0])))
      case Some(a) =>
        var first := IndexFile(db, paths[0], a);
        if first.error.Some? then first else IndexFiles(first.db, paths[1..], read, geocoder)
  }

  /** An extension by other paths gives an unindexed path no row. */
  lemma ExtendsAbsent(db: Db, r: Db, paths: set<string>, path: string)
    requires Extends(db, r, paths) && path !in paths && !AlreadyExists(db, path)
    ensures !AlreadyExists(r, path)
  {
    forall i | 0 <= i < |r.images| ensures r.images[i].path != path {
      if i < |db.images| {
        assert r.images[i].path == db.images[i].path;
      }
    }
  }

  /** Extending by the first path, then by the rest, extends by all. */
  lemma ExtendsCons(db: Db, mid: Db, r: Db, paths: seq<string>)
    requires |paths| > 0 && Extends(db, mid, {paths[0]}) && Extends(mid, r, set p | p in paths[1..])
    ensures Extends(db, r, set p | p in paths)
  {
    ExtendsTrans(db, mid, r, {paths[0]}, set p | p in paths[1..]);
    assert {paths[0]} + (set p | p in paths[1..]) == set p | p in paths by {
      assert paths == [paths[0]] + paths[1..];
    }
  }

  /** Every path of the sequence is indexed in `r` when the first is
      indexed in `mid`, the rest in `r`, and `r` extends `mid`. */
  lemma IndexedCons(mid: Db, r: Db, paths: seq<string>)
    requires |paths| > 0 && AlreadyExists(mid, paths[0]) && Extends(mid, r, set p | p in paths[1..])
    requires forall f :: f in paths[1..] ==> AlreadyExists(r, f)
    ensures forall f :: f in paths ==> AlreadyExists(r, f)
  {
    ExtendsExists(mid, r, (set p | p in paths[1..]), paths[0]);
    forall f | f in paths ensures AlreadyExists(r, f) {
      if f != paths[0] {
        var i :| 0 <= i < |paths| && paths[i] == f;
        assert paths[1..][i - 1] == f;
      }
    }
  }

  /** What a loop over `paths` that ended in `r` promises about rows: only
      rows of `paths` are added, paths stay unique, and when it runs to the
      end every file has a row. */
  predicate IndexedAll(db: Db, paths: seq<string>, r: Outcome) {
    Extends(db, r.db, set p | p in paths) && (UniquePaths(db.images) ==> UniquePaths(r.db.images))
    && (r.error.None? ==> forall f :: f in paths ==> AlreadyExists(r.db, f))
  }

  /** The promise for the rest of the files, after the first one was
      indexed, is the promise for all of them. */
  lemma IndexedAllStep(db: Db, first: Db, r: Outcome, paths: seq<string>)
    requires |paths| > 0 && Extends(db, first, {paths[0]}) && AlreadyExists(first, paths[0])
    requires UniquePaths(db.images) ==> UniquePaths(first.images)
    requires IndexedAll(first, paths[1..], r)
    ensures IndexedAll(db, paths, r)
  {
    ExtendsCons(db, first, r.db, paths);
    if r.error.None? {
      IndexedCons(first, r.db, paths);
    }
  }

  /** A loop stopped by its first file has touched only that file's rows. */
  lemma IndexedAllFirst(db: Db, r: Outcome, paths: seq<string>)
    requires |paths| > 0 && r.error.Some? && Extends(db, r.db, {paths[0]})
    requires UniquePaths(db.images) ==> UniquePaths(r.db.images)
    ensures IndexedAll(db, paths, r)
  {
    assert {paths[0]} <= set p | p in paths;
  }

  /** The loop adds rows only for the files it indexes, leaves the rows of
      other paths alone, keeps paths unique, and when it runs to the end
      every file has a row. */
  lemma {:induction false} IndexFilesRows(db: Db, paths: seq<string>, read: string -> Option<Image>,
                                         geocoder: (real, real) -> seq<(string, string)>)
    ensures IndexedAll(db, paths, IndexFiles(db, paths, read, geocoder))
    decreases |paths|
  {
    if |paths| > 0 {
      match AnalyseFile(paths[0], read, geocoder)
      case None =>
      case Some(a) =>
        var first := IndexFile(db, paths[0], a);
        IndexFileRows(db, paths[0], a);
        if first.error.None? {
          IndexFilesRows(first.db, paths[1..], read, geocoder);
          IndexedAllStep(db, first.db, IndexFiles(first.db, paths[1..], read, geocoder), paths);
        } else {
          IndexedAllFirst(db, first, paths);
        }
    }
  }

  /** What a loop that ended in `r` says about a file whose analysis
      raised: it is one of `paths`, its analysis fails, and it has no row
      unless it had one in `db`. */
  predicate UnanalysedStop(db: Db, paths: seq<string>, r: Outcome, read: string -> Option<Image>,
                           geocoder: (real, real) -> seq<(string, string)>)
  {
    r.error.Some? && r.error.value.AnalysisFailed? ==>
      r.error.value.path in paths && AnalyseFile(r.error.value.path, read, geocoder).None?
      && (!AlreadyExists(db, r.error.value.path) ==> !AlreadyExists(r.db, r.error.value.path))
  }

  /** A stop after the first file was indexed is a stop of the whole loop. */
  lemma UnanalysedStep(db: Db, first: Db, r: Outcome, paths: seq<string>, read: string -> Option<Image>,
                       geocoder: (real, real) -> seq<(string, string)>)
    requires |paths| > 0 && AnalyseFile(paths[0], read, geocoder).Some? && Extends(db, first, {paths[0]})
    requires UnanalysedStop(first, paths[1..], r, read, geocoder)
    ensures UnanalysedStop(db, paths, r, read, geocoder)
  {
    if r.error.Some? && r.error.value.AnalysisFailed? {
      var p := r.error.value.path;
      assert paths == [paths[0]] + paths[1..];
      if !AlreadyExists(db, p) {
        ExtendsAbsent(db, first, {paths[0]}, p);
      }
    }
  }

  /** A file whose analysis raises ends the loop: it is one of the files,
      its analysis indeed fails, and when it had no row before the run it
      has none after. */
  lemma {:induction false} IndexFilesUnanalysed(db: Db, paths: seq<string>, read: string -> Option<Image>,
                                               geocoder: (real, real) -> seq<(string, string)>)
    ensures UnanalysedStop(db, paths, IndexFiles(db, paths, read, geocoder), read, geocoder)
    decreases |paths|
  {
    if |paths| > 0 {
      match AnalyseFile(paths[0], read, geocoder)
      case None =>
      case Some(a) =>
        var first := IndexFile(db, paths[0], a);
        IndexFileRows(db, paths[0], a);
        if first.error.None? {
          IndexFilesUnanalysed(first.db, paths[1..], read, geocoder);
          UnanalysedStep(db, first.db, IndexFiles(first.db, paths[1..], read, geocoder), paths, read, geocoder);
        }
    }
  }

  /** `index`: the globbed files without a row are analysed and indexed one
      by one; a dry run only lists them. */
  function IndexRun(db: Db, files: seq<string>, read: string -> Option<Image>,
                    geocoder: (real, real) -> seq<(string, string)>, dryRun: bool): (r: Outcome)
  {
    if dryRun then Outcome(db, None) else IndexFiles(db, ValidFiles(db, files), read, geocoder)
  }

  /** A run never touches the rows of files indexed before it, never gives
      a path a second row, and when it runs to the end every globbed file
      has a row. */
  lemma IndexRunRows(db: Db, files: seq<string>, read: string -> Option<Image>,
                     geocoder: (real, real) -> seq<(string, string)>, dryRun: bool)
    ensures var r := IndexRun(db, files, read, geocoder, dryRun);
      |r.db.images| >= |db.images| && r.db.images[..|db.images|] == db.images
    ensures UniquePaths(db.images) ==> UniquePaths(IndexRun(db, files, read, geocoder, dryRun).db.images)
    ensures var r := IndexRun(db, files, read, geocoder, dryRun);
      !dryRun && r.error.None? ==> forall f :: f in files ==> AlreadyExists(r.db, f)
  {
    if !dryRun {
      var valid := ValidFiles(db, files);
      var r := IndexFiles(db, valid, read, geocoder);
      IndexFilesRows(db, valid, read, geocoder);
      forall i | 0 <= i < |db.images| ensures r.db.images[i] == db.images[i] {
        assert AlreadyExists(db, db.images[i].path);
      }
      if r.error.None? {
        forall f | f in files ensures AlreadyExists(r.db, f) {
          if AlreadyExists(db, f) {
            ExtendsExists(db, r.db, (set p | p in valid), f);
          }
        }
      }
    }
  }
}
