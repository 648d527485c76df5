/** The string helpers of the search indexer (`index/index.py`): GPS
    readings to decimal degrees, a photo's link into its album, the text
    written into the search table's `exif`, `colors` and `geocode` columns,
    and the ISO date rewrite of an EXIF stamp. Python's floats are exact
    reals here. */
module Indexer {
  import opened Wrappers
  import opened Strings
  import Sorting
  import Dms
  import MapPage
  import ResultTile
  import ExifText
  import NodePath

  // ---------------------------------------------------------------------------
  // convert_to_degress
  // ---------------------------------------------------------------------------

  /** An EXIF rational, `num / den`. */
  datatype Ratio = Ratio(num: int, den: int)

  /** `float(num) / float(den)`: a zero denominator raises. */
  function RatioValue(q: Ratio): (r: Option<real>)
    ensures r.Some? <==> q.den != 0
    ensures r.Some? ==> r.value * q.den as real == q.num as real
  {
    if q.den == 0 then None else Some(q.num as real / q.den as real)
  }

  /** `str(ref) == "W" or str(ref) == "S"`. */
  predicate IsSouthOrWest(ref: string) {
    ref == "W" || ref == "S"
  }

  /** A reading `convert_to_degress` can convert: three rationals, none
      with a zero denominator. */
  predicate Convertible(values: seq<Ratio>) {
    |values| >= 3 && values[0].den != 0 && values[1].den != 0 && values[2].den != 0
  }

  /** The decimal values of the first three rationals. */
  function Readings(values: seq<Ratio>): seq<real>
    requires |values| >= 3 && values[0].den != 0 && values[1].den != 0 && values[2].den != 0
  {
    [RatioValue(values[0]).value, RatioValue(values[1]).value, RatioValue(values[2]).value]
  }

  /** `convert_to_degress`: degrees, minutes and seconds from the first
      three rationals, negative in the western and southern hemispheres. A
      reading with fewer than three values or a zero denominator among them
      raises; values after the third are ignored. */
  function ConvertToDegrees(values: seq<Ratio>, ref: string): (r: Option<real>)
    ensures r.Some? <==> |values| >= 3 && values[0].den != 0 && values[1].den != 0 && values[2].den != 0
    ensures r.Some? ==> r == Dms.ConvertDmsToDegree(Some(Readings(values)), IsSouthOrWest(ref))
  {
    if |values| < 3 then None
    else
      match (RatioValue(values[0]), RatioValue(values[1]), RatioValue(values[2]))
      case (Some(d), Some(m), Some(s)) => Some((if IsSouthOrWest(ref) then -1.0 else 1.0) * (d + m / 60.0 + s / 3600.0))
      case _ => None
  }

  /** A non-zero reading of non-negative rationals is negative exactly in the
      western and southern hemispheres. */
  lemma ConvertSign(values: seq<Ratio>, ref: string)
    requires |values| >= 3
    requires forall i :: 0 <= i < 3 ==> values[i].num >= 0 && values[i].den > 0
    requires values[0].num + values[1].num + values[2].num > 0
    ensures ConvertToDegrees(values, ref).Some?
    ensures ConvertToDegrees(values, ref).value < 0.0 <==> IsSouthOrWest(ref)
  {
    var d := RatioValue(values[0]).value;
    var m := RatioValue(values[1]).value;
    var s := RatioValue(values[2]).value;
    assert values[0].den > 0 && values[1].den > 0 && values[2].den > 0;
    assert d >= 0.0 && m >= 0.0 && s >= 0.0;
    assert d > 0.0 || m > 0.0 || s > 0.0 by {
      if values[0].num > 0 {
        assert d > 0.0;
      } else if values[1].num > 0 {
        assert m > 0.0;
      } else {
        assert values[2].num > 0;
        assert s > 0.0;
      }
    }
    assert d + m / 60.0 + s / 3600.0 > 0.0;
  }

  // ---------------------------------------------------------------------------
  // get_album_relative_path / get_filename
  // ---------------------------------------------------------------------------

  /** A path component `pathlib` keeps: empty components (from repeated or
      trailing `/`) and `.` are dropped. */
  predicate IsPart(seg: string) {
    seg != "" && seg != "."
  }

  /** `Path(path).parts`: the root `/` of an absolute path, then its kept
      components. */
  function Parts(path: string): (ps: seq<string>)
    ensures forall i :: 0 <= i < |ps| ==> (i == 0 && ps[i] == "/") || (IsPart(ps[i]) && '/' !in ps[i])
  {
    var segs := Split(path, '/');
    var kept := Sorting.Filter(segs, IsPart);
    Sorting.FilterKeeps(segs, IsPart, (seg: string) => '/' !in seg);
    var root := if |path| > 0 && path[0] == '/' then ["/"] else [];
    assert forall i :: 0 <= i < |kept| ==> '/' !in kept[i] && IsPart(kept[i]);
    root + kept
  }

  /** The components `<dir>/<seg>` keeps: those of `<dir>`, then `<seg>`. */
  lemma KeptSnoc(dir: string, seg: string)
    requires IsPart(seg) && '/' !in seg
    ensures Sorting.Filter(Split(dir + "/" + seg, '/'), IsPart) == Sorting.Filter(Split(dir, '/'), IsPart) + [seg]
  {
    assert dir + "/" + seg == dir + ['/'] + seg;
    NodePath.SplitAtLast(dir, '/', seg);
    Sorting.FilterAppend(Split(dir, '/'), [seg], IsPart);
    assert Sorting.Filter([seg], IsPart) == [seg] by {
      assert [seg][1..] == [];
    }
  }

  /** The parts of `<dir>/<seg>` end in `<seg>`, after those of `<dir>`
      when `<dir>` is not empty. */
  lemma PartsSnoc(dir: string, seg: string)
    requires IsPart(seg) && '/' !in seg
    ensures var ps := Parts(dir + "/" + seg);
      |ps| >= 1 && ps[|ps| - 1] == seg
    ensures |dir| > 0 ==> Parts(dir + "/" + seg) == Parts(dir) + [seg]
  {
    var path := dir + "/" + seg;
    PartsSnocLast(dir, seg, path);
    if |dir| > 0 {
      PartsSnocExtends(dir, seg, path);
    }
  }

  lemma PartsSnocLast(dir: string, seg: string, path: string)
    requires IsPart(seg) && '/' !in seg && path == dir + "/" + seg
    ensures |Parts(path)| >= 1 && Parts(path)[|Parts(path)| - 1] == seg
  {
    KeptSnoc(dir, seg);
    PartsUnfold(path);
    var root: seq<string> := if |path| > 0 && path[0] == '/' then ["/"] else [];
    var ps := root + (Sorting.Filter(Split(dir, '/'), IsPart) + [seg]);
    assert ps[|ps| - 1] == seg;
  }

  lemma PartsSnocExtends(dir: string, seg: string, path: string)
    requires IsPart(seg) && '/' !in seg && path == dir + "/" + seg && |dir| > 0
    ensures Parts(path) == Parts(dir) + [seg]
  {
    var root: seq<string> := if dir[0] == '/' then ["/"] else [];
    var kept := Sorting.Filter(Split(dir, '/'), IsPart);
    assert path[0] == dir[0];
    calc {
      Parts(path);
      { PartsUnfold(path); }
      root + Sorting.Filter(Split(path, '/'), IsPart);
      { KeptSnoc(dir, seg); }
      root + (kept + [seg]);
      { Sorting.AppendAssoc(root, kept, [seg]); }
      root + kept + [seg];
      { PartsUnfold(dir); }
      Parts(dir) + [seg];
    }
  }

  lemma PartsUnfold(path: string)
    ensures Parts(path) == (if |path| > 0 && path[0] == '/' then ["/"] else []) + Sorting.Filter(Split(path, '/'), IsPart)
  {
  }

  /** `get_album_relative_path`: `/album/<parent>#<name>` from the last two
      parts of the path; a path with fewer than two parts raises. */
  function AlbumRelativePath(path: string): (r: Option<string>)
    ensures r.Some? <==> |Parts(path)| >= 2
  {
    var ps := Parts(path);
    var n := |ps|;
    if n >= 2 then Some("/album/" + ps[n - 2] + "#" + ps[n - 1]) else None
  }

  /** `os.path.basename(Path(path))`: the last part, `""` for the root alone
      and `.` for a path with no parts. */
  function FileName(path: string): (r: string)
    ensures '/' !in r
    ensures |Parts(path)| >= 1 && Parts(path) != ["/"] ==> r == Parts(path)[|Parts(path)| - 1]
  {
    var ps := Parts(path);
    if |ps| == 0 then "."
    else if ps == ["/"] then ""
    else
      assert |ps| >= 2 || ps[0] != "/";
      ps[|ps| - 1]
  }

  /** The photo `<root>/<album>/<file>` links to `/album/<album>#<file>`:
      the same link the map page gives it, in the album the search tile
      shows, and its file name is `<file>`. */
  lemma AlbumRelativePathOf(root: string, album: string, file: string)
    requires IsPart(album) && '/' !in album && IsPart(file) && '/' !in file
    ensures AlbumRelativePath(root + "/" + album + "/" + file) == Some("/album/" + album + "#" + file)
    ensures AlbumRelativePath(root + "/" + album + "/" + file) == Some(MapPage.Href(album, root + "/" + album + "/" + file))
    ensures ResultTile.AlbumName(root + "/" + album + "/" + file) == Some(album)
    ensures FileName(root + "/" + album + "/" + file) == file
  {
    var dir := root + "/" + album;
    var path := dir + "/" + file;
    PartsSnoc(root, album);
    PartsSnoc(dir, file);
    FileNameAgrees(path, dir, file);
    ResultTile.AlbumNameOf(root, album, file);
  }

  /** A path ending in a kept part has that part as its file name, the same
      one the map page takes. */
  lemma FileNameAgrees(path: string, dir: string, file: string)
    requires path == dir + "/" + file && IsPart(file) && '/' !in file
    ensures FileName(path) == file
    ensures MapPage.FileName(path) == file
  {
    PartsSnoc(dir, file);
    assert path == dir + ['/'] + file;
    NodePath.SplitAtLast(dir, '/', file);
  }

  // ---------------------------------------------------------------------------
  // format_mapping / format_mapping_values
  // ---------------------------------------------------------------------------

  /** What the indexer hands to `format_mapping`: `None`, a dictionary (its
      items in insertion order, each value already rendered by `str`), or
      any other value, given by its `str` text. */
  datatype PyValue = PyNone | PyDict(items: seq<(string, string)>) | PyOther(text: string)

  /** `f"{k}:{v}"`. */
  function ItemLine(kv: (string, string)): string {
    kv.0 + ":" + kv.1
  }

  function ItemLines(items: seq<(string, string)>): (ls: seq<string>)
    ensures |ls| == |items| && forall i :: 0 <= i < |items| ==> ls[i] == ItemLine(items[i])
  {
    seq(|items|, i requires 0 <= i < |items| => ItemLine(items[i]))
  }

  function Values(items: seq<(string, string)>): (vs: seq<string>)
    ensures |vs| == |items| && forall i :: 0 <= i < |items| ==> vs[i] == items[i].1
  {
    seq(|items|, i requires 0 <= i < |items| => items[i].1)
  }

  /** `str(v)` for the values that are falsy or have no `items`. */
  function Repr(v: PyValue): string
    requires !v.PyDict? || |v.items| == 0
  {
    match v
    case PyNone => "None"
    case PyDict(_) => "{}"
    case PyOther(text) => text
  }

  /** `format_mapping`: one `key:value` line per item, or the `str` text of
      a falsy or non-mapping value. */
  function FormatMapping(v: PyValue): (r: string)
    ensures v.PyNone? ==> r == "None"
    ensures v.PyDict? && |v.items| == 0 ==> r == "{}"
    ensures v.PyOther? ==> r == v.text
  {
    if v.PyDict? && |v.items| > 0 then Join(ItemLines(v.items), "\n") else Repr(v)
  }

  /** `format_mapping_values`: the values alone, one per line. */
  function FormatMappingValues(v: PyValue): (r: string)
    ensures v.PyNone? ==> r == "None"
    ensures v.PyDict? && |v.items| == 0 ==> r == "{}"
    ensures v.PyOther? ==> r == v.text
  {
    if v.PyDict? && |v.items| > 0 then Join(Values(v.items), "\n") else Repr(v)
  }

  /** No key holds `:` or a line break and no value a line break. */
  predicate Flat(items: seq<(string, string)>) {
    forall i :: 0 <= i < |items| ==> ':' !in items[i].0 && '\n' !in items[i].0 && '\n' !in items[i].1
  }

  /** The key of item `i` does not occur again later. */
  predicate LastOfKey(items: seq<(string, string)>, i: nat)
    requires i < |items|
  {
    forall j :: i < j < |items| ==> items[j].0 != items[i].0
  }

  /** The mapping's text splits back into its lines. */
  lemma FormatMappingLines(items: seq<(string, string)>)
    requires |items| > 0 && Flat(items)
    ensures Split(FormatMapping(PyDict(items)), '\n') == ItemLines(items)
  {
    var ls := ItemLines(items);
    forall i | 0 <= i < |ls| ensures '\n' !in ls[i] {
      assert ls[i] == items[i].0 + [':'] + items[i].1;
    }
    SplitJoin(ls, '\n');
  }

  /** The values' text splits back into the values. */
  lemma FormatMappingValuesLines(items: seq<(string, string)>)
    requires |items| > 0 && forall i :: 0 <= i < |items| ==> '\n' !in items[i].1
    ensures Split(FormatMappingValues(PyDict(items)), '\n') == Values(items)
  {
    SplitJoin(Values(items), '\n');
  }

  /** The browser's EXIF reader sees the mapping's entries in order, each
      value trimmed. */
  lemma FormatMappingEntries(items: seq<(string, string)>)
    requires |items| > 0 && Flat(items)
    ensures var es := ExifText.Lines(FormatMapping(PyDict(items)));
      |es| == |items| && forall i :: 0 <= i < |items| ==> es[i] == ExifText.Entry(items[i].0, Trim(items[i].1))
  {
    FormatMappingLines(items);
    forall i | 0 <= i < |items|
      ensures ExifText.ParseLine(ItemLine(items[i])) == ExifText.Entry(items[i].0, Trim(items[i].1))
    {
      ExifText.ParseLineJoined(items[i].0, items[i].1);
    }
  }

  /** What the indexer writes into the `exif` column reads back, in the
      browser, as the same keys with each value trimmed: every item whose
      key is not repeated is found, and nothing else is. */
  lemma FormatMappingReadBack(items: seq<(string, string)>, i: nat, k: string)
    requires |items| > 0 && Flat(items)
    requires i < |items| && LastOfKey(items, i)
    ensures var data := ExifText.ExifData(FormatMapping(PyDict(items)));
      items[i].0 in data && data[items[i].0] == Trim(items[i].1)
    ensures var data := ExifText.ExifData(FormatMapping(PyDict(items)));
      k in data <==> exists j :: 0 <= j < |items| && items[j].0 == k
  {
    var es := ExifText.Lines(FormatMapping(PyDict(items)));
    FormatMappingEntries(items);
    assert ExifText.LastOfKey(es, i) by {
      forall j | i < j < |es| ensures es[j].key != es[i].key {
        assert es[j].key == items[j].0;
      }
    }
    ExifText.FromEntriesLastWins(es, i);
    ExifText.FromEntriesKeys(es, k);
    if k in ExifText.FromEntries(es) {
      var j :| 0 <= j < |es| && es[j].key == k;
      assert items[j].0 == k;
    }
    if j :| 0 <= j < |items| && items[j].0 == k {
      assert es[j].key == k;
    }
  }

  // ---------------------------------------------------------------------------
  // the date rewrite of analyse_image
  // ---------------------------------------------------------------------------

  /** `str(exif_full.get("EXIF DateTimeOriginal", ""))` rewritten: the first
      two `:` become `-` and the first space `T`, then `Z` is appended; an
      empty stamp gives `None`. */
  function DateTime(stamp: Option<string>): (r: Option<string>)
    ensures r.None? <==> stamp.None? || stamp.value == ""
    ensures r.Some? ==> |r.value| == |stamp.value| + 1 && r.value[|r.value| - 1] == 'Z'
  {
    var text := if stamp.Some? then stamp.value else "";
    var rewritten := ReplaceFirstN(ReplaceFirstN(text, ':', '-', 2), ' ', 'T', 1);
    if rewritten == "" then None else Some(rewritten + "Z")
  }

  /** An EXIF stamp `YYYY:MM:DD HH:MM:SS` becomes `YYYY-MM-DDTHH:MM:SSZ`: the
      date's two `:` are replaced, the time's are kept. */
  lemma DateTimeOfStamp(date: string, time: string)
    requires CountChar(date, ':') == 2 && ' ' !in date
    ensures DateTime(Some(date + " " + time)) == Some(ReplaceChar(date, ':', '-') + "T" + time + "Z")
  {
    var date' := ReplaceChar(date, ':', '-');
    var rest := " " + time;
    assert date + " " + time == date + rest;
    ReplaceFirstNExhaust(date, rest, ':', '-', 2);
    ReplaceFirstNAll(date, ':', '-', 2);
    var first := ReplaceFirstN(date + rest, ':', '-', 2);
    assert first == date' + rest;
    assert ' ' !in date' by {
      forall i | 0 <= i < |date'| ensures date'[i] != ' ' {
        assert date[i] in date;
      }
    }
    ReplaceFirstNSkip(date', rest, ' ', 'T', 1);
    assert rest == [' '] + time;
    ReplaceFirstNStep(' ', time, ' ', 'T', 1);
    ReplaceFirstNNone(time, ' ', 'T', 0);
    var second := ReplaceFirstN(first, ' ', 'T', 1);
    assert second == date' + ("T" + time);
    assert second != "";
    assert date' + ("T" + time) + "Z" == date' + "T" + time + "Z";
  }

  /** The `exif` text of a mapping holding the capture date maps the date
      key to the trimmed stamp, and is not empty. */
  lemma DateInMapping(items: seq<(string, string)>, i: nat, stamp: string)
    requires Flat(items) && i < |items| && LastOfKey(items, i)
    requires items[i] == (ExifText.DateKey, stamp) && IsTrimmed(stamp)
    ensures var text := FormatMapping(PyDict(items));
      text != "" && ExifText.DateKey in ExifText.ExifData(text) && ExifText.ExifData(text)[ExifText.DateKey] == stamp
  {
    FormatMappingReadBack(items, i, ExifText.DateKey);
    TrimTrimmed(stamp);
  }

  /** The date the indexer derives from a photo's EXIF stamp is the date the
      browser later reads out of the `exif` column the indexer wrote, in UTC:
      the same text with `Z` appended. */
  lemma DateTimeAgreesWithBrowser(items: seq<(string, string)>, i: nat, date: string, time: string)
    requires Flat(items) && i < |items| && LastOfKey(items, i)
    requires items[i] == (ExifText.DateKey, date + " " + time)
    requires date != "" && time != "" && ' ' !in date && ' ' !in time && CountChar(date, ':') == 2
    requires !IsJsSpace(date[0]) && !IsJsSpace(time[|time| - 1])
    ensures var browser := ExifText.ExtractDateFromExifString(Some(FormatMapping(PyDict(items))));
      browser.Some? && DateTime(Some(date + " " + time)) == Some(browser.value.dateTime + "Z")
  {
    var stamp := date + " " + time;
    assert IsTrimmed(stamp) by {
      assert stamp[0] == date[0] && stamp[|stamp| - 1] == time[|time| - 1];
    }
    DateInMapping(items, i, stamp);
    ExifText.DateFromStamp(ExifText.ExifData(FormatMapping(PyDict(items))), date, time);
    DateTimeOfStamp(date, time);
  }
}
