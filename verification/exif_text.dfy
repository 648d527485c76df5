/** Reading the capture date out of a textual EXIF dump, one `key: value`
    per line, as the search index stores it (`src/util/extractExifFromDb.ts`).
    The `Date` the source builds is left abstract: the result is the text
    handed to `new Date(...)` and the raw offset the hours and minutes are
    then shifted by. */
module ExifText {
  import opened Wrappers
  import opened Strings

  const DateKey: string := "EXIF DateTimeOriginal"
  const OffsetKey: string := "EXIF OffsetTime"

  datatype Entry = Entry(key: string, value: string)

  /** One line: the text before the first `:` is the key, untrimmed; the
      rest, later `:`s included, is the value, trimmed. A line without `:`
      is a key with an empty value. */
  function ParseLine(line: string): (e: Entry)
    ensures ':' !in e.key
    ensures FirstIndex(line, ':').Some? ==>
      var i := FirstIndex(line, ':').value; e.key == line[..i] && e.value == Trim(line[i + 1..])
    ensures ':' !in line ==> e == Entry(line, "")
  {
    var parts := Split(line, ':');
    var e := Entry(parts[0], Trim(Join(parts[1..], ":")));
    if ':' in line then
      var i := FirstIndex(line, ':').value;
      SplitHeadTail(line, ':', i);
      e
    else
      SplitNoSeparator(line, ':');
      e
  }

  /** A line written as `key: value` reads back as that entry when the key
      has no `:` and the value does not start or end with white space. */
  lemma ParseLineRendered(key: string, value: string)
    requires ':' !in key
    requires value == "" || (!IsJsSpace(value[0]) && !IsJsSpace(value[|value| - 1]))
    ensures ParseLine(key + ": " + value) == Entry(key, value)
  {
    var line := key + ": " + value;
    assert line == key + [':'] + (" " + value);
    SplitAtFirst(key, ':', " " + value);
    JoinSplit(" " + value, ':');
    assert TrimStart(" " + value) == TrimStart(value) by {
      assert (" " + value)[1..] == value;
    }
    assert TrimStart(value) == value;
    assert TrimEnd(value) == value;
  }

  /** A line written as `key:raw`, as the indexer writes its mappings,
      reads back as the key and the trimmed rest, later `:`s included. */
  lemma ParseLineJoined(key: string, raw: string)
    requires ':' !in key
    ensures ParseLine(key + ":" + raw) == Entry(key, Trim(raw))
  {
    assert key + ":" + raw == key + [':'] + raw;
    SplitAtFirst(key, ':', raw);
    JoinSplit(raw, ':');
  }

  /** No later entry has the same key as entry `i`. */
  predicate LastOfKey(es: seq<Entry>, i: nat)
    requires i < |es|
  {
    forall j :: i < j < |es| ==> es[j].key != es[i].key
  }

  /** `Object.fromEntries(entries)`, one entry after another. */
  function FromEntries(es: seq<Entry>): (m: map<string, string>)
    ensures |es| > 0 ==> es[|es| - 1].key in m && m[es[|es| - 1].key] == es[|es| - 1].value
    decreases |es|
  {
    if |es| == 0 then map[]
    else FromEntries(es[..|es| - 1])[es[|es| - 1].key := es[|es| - 1].value]
  }

  /** The table holds a key exactly when some entry has it. */
  lemma {:induction false} FromEntriesKeys(es: seq<Entry>, k: string)
    ensures k in FromEntries(es) <==> exists i :: 0 <= i < |es| && es[i].key == k
    decreases |es|
  {
    if |es| > 0 {
      var n := |es| - 1;
      var front := es[..n];
      FromEntriesKeys(front, k);
      if k in FromEntries(front) {
        var i :| 0 <= i < |front| && front[i].key == k;
        assert es[i].key == k;
      }
      if i :| 0 <= i < |es| && es[i].key == k {
        if i < n {
          assert front[i].key == k;
        }
      }
    }
  }

  /** For a repeated key the last entry wins. */
  lemma {:induction false} FromEntriesLastWins(es: seq<Entry>, i: nat)
    requires i < |es| && LastOfKey(es, i)
    ensures es[i].key in FromEntries(es) && FromEntries(es)[es[i].key] == es[i].value
    decreases |es|
  {
    var n := |es| - 1;
    if i < n {
      var front := es[..n];
      assert front[i] == es[i];
      assert LastOfKey(front, i) by {
        forall j | i < j < n ensures front[j].key != front[i].key {
          assert front[j] == es[j];
        }
      }
      assert es[n].key != es[i].key;
      FromEntriesLastWins(front, i);
    }
  }

  /** The entries of a dump: one per `\n`-separated line. */
  function Lines(text: string): (es: seq<Entry>)
    ensures |es| == |Split(text, '\n')|
    ensures forall i :: 0 <= i < |es| ==> es[i] == ParseLine(Split(text, '\n')[i])
  {
    var lines := Split(text, '\n');
    seq(|lines|, i requires 0 <= i < |lines| => ParseLine(lines[i]))
  }

  /** The key/value table of a dump. */
  function ExifData(text: string): map<string, string> {
    FromEntries(Lines(text))
  }

  /** What `new Date(...)` is built from: the text `<date>T<time>`, and the
      raw `EXIF OffsetTime` when it is set. */
  datatype DateRequest = DateRequest(dateTime: string, offset: Option<string>)

  /** The date and time of a table that has a capture date: the first
      space-separated token with every `:` turned into `-`, then `T`, then
      the second token (the text `undefined` when there is none). */
  function DateFromData(data: map<string, string>): (r: Option<DateRequest>)
    ensures r.Some? <==> DateKey in data && data[DateKey] != ""
    ensures r.Some? ==> (r.value.offset.Some? <==> OffsetKey in data && data[OffsetKey] != "")
    ensures r.Some? && r.value.offset.Some? ==> r.value.offset.value == data[OffsetKey]
  {
    if DateKey in data && data[DateKey] != "" then
      var tokens := Split(data[DateKey], ' ');
      var date := ReplaceChar(tokens[0], ':', '-');
      var time := if |tokens| > 1 then tokens[1] else "undefined";
      var offset := if OffsetKey in data && data[OffsetKey] != "" then Some(data[OffsetKey]) else None;
      Some(DateRequest(date + "T" + time, offset))
    else None
  }

  /** An EXIF stamp `<date> <time>` becomes `<date with - for :>T<time>`. */
  lemma DateFromStamp(data: map<string, string>, date: string, time: string)
    requires DateKey in data && data[DateKey] == date + " " + time
    requires ' ' !in date && ' ' !in time
    ensures DateFromData(data).Some?
    ensures DateFromData(data).value.dateTime == ReplaceChar(date, ':', '-') + "T" + time
  {
    assert date + " " + time == date + [' '] + time;
    SplitAtFirst(date, ' ', time);
    SplitNoSeparator(time, ' ');
  }

  /** `extractDateFromExifString`: nothing for an empty or missing dump, or
      one without a capture date. */
  function ExtractDateFromExifString(exif: Option<string>): (r: Option<DateRequest>)
    ensures exif.None? || exif.value == "" ==> r.None?
    ensures exif.Some? && exif.value != "" ==>
      (r.Some? <==> DateKey in ExifData(exif.value) && ExifData(exif.value)[DateKey] != "")
  {
    if exif.None? || exif.value == "" then None else DateFromData(ExifData(exif.value))
  }

  /** The empty text splits into one empty part. */
  lemma SplitEmpty(s: string, c: char, i: nat)
    requires i < |Split(s, c)| && Split(s, c)[i] != ""
    ensures s != ""
  {
  }

  /** The table of a dump maps a key to the value of its last line. */
  lemma ExifDataLastLine(text: string, i: nat, key: string, value: string)
    requires i < |Split(text, '\n')| && Split(text, '\n')[i] == key + ": " + value
    requires ':' !in key
    requires value == "" || (!IsJsSpace(value[0]) && !IsJsSpace(value[|value| - 1]))
    requires forall j :: i < j < |Split(text, '\n')| ==> ParseLine(Split(text, '\n')[j]).key != key
    ensures key in ExifData(text) && ExifData(text)[key] == value
  {
    ParseLineRendered(key, value);
    var es := Lines(text);
    assert es[i] == Entry(key, value);
    assert LastOfKey(es, i);
    FromEntriesLastWins(es, i);
  }

  /** End to end: a dump whose last `EXIF DateTimeOriginal` line reads
      `EXIF DateTimeOriginal: <date> <time>` yields `<date>T<time>` with the
      date's `:` turned into `-`. */
  lemma ExtractDateFromStampLine(text: string, i: nat, date: string, time: string)
    requires i < |Split(text, '\n')| && Split(text, '\n')[i] == DateKey + ": " + date + " " + time
    requires date != "" && time != "" && ' ' !in date && ' ' !in time
    requires !IsJsSpace(date[0]) && !IsJsSpace(time[|time| - 1])
    requires forall j :: i < j < |Split(text, '\n')| ==> ParseLine(Split(text, '\n')[j]).key != DateKey
    ensures var r := ExtractDateFromExifString(Some(text));
      r.Some? && r.value.dateTime == ReplaceChar(date, ':', '-') + "T" + time
  {
    var stamp := date + " " + time;
    assert stamp[0] == date[0] && stamp[|stamp| - 1] == time[|time| - 1];
    assert Split(text, '\n')[i] == DateKey + ": " + stamp;
    SplitEmpty(text, '\n', i);
    ExifDataLastLine(text, i, DateKey, stamp);
    var data := ExifData(text);
    DateFromStamp(data, date, time);
    assert ExtractDateFromExifString(Some(text)) == DateFromData(data);
  }
}
