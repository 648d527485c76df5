/** The pure state changes of the search widget
    (`src/components/search/Search.tsx`): paging, the search terms as typed
    and as kept in the page URL, and the tag suggestions with their
    case-insensitive merge and their on/off toggle. Rendering is left out. */
module SearchUi {
  import opened Wrappers
  import opened Strings
  import Sorting
  import SearchApi

  const PageSize: nat := 48

  /** `getNextPageParam`: another page is asked for exactly when the last one
      came back full. Unlike the `next` of `exec`, this also holds for page
      `0`. */
  function NextPageParam(lastCount: nat, lastPageParam: int): (r: Option<int>)
    ensures r.Some? <==> lastCount == PageSize
    ensures r.Some? ==> r.value == lastPageParam + 1
    ensures lastPageParam != 0 ==> r == SearchApi.Next(lastPageParam, lastCount, PageSize)
    ensures lastPageParam == 0 && lastCount == PageSize ==> r.Some? && SearchApi.Next(0, lastCount, PageSize).None?
  {
    if lastCount == PageSize then Some(lastPageParam + 1) else None
  }

  /** The query sent to the database: the terms joined with `|`. */
  function QueryText(terms: seq<string>): (r: string)
    ensures |terms| >= 1 && (forall i :: 0 <= i < |terms| ==> '|' !in terms[i]) ==> Split(r, '|') == terms
  {
    var r := Join(terms, "|");
    if |terms| >= 1 && (forall i :: 0 <= i < |terms| ==> '|' !in terms[i]) then
      SplitJoin(terms, '|');
      r
    else r
  }

  // ---------------------------------------------------------------------------
  // The search input and the page URL
  // ---------------------------------------------------------------------------

  /** What typing sets: the input split at `,`, each part trimmed. */
  function InputTerms(value: string): (r: seq<string>)
    ensures |r| == |Split(value, ',')| >= 1
    ensures forall i :: 0 <= i < |r| ==> r[i] == Trim(Split(value, ',')[i]) && ',' !in r[i]
  {
    var parts := Split(value, ',');
    var r := seq(|parts|, i requires 0 <= i < |parts| => Trim(parts[i]));
    assert forall i :: 0 <= i < |r| ==> ',' !in r[i] by {
      forall i | 0 <= i < |r| ensures ',' !in r[i] {
        TrimKeepsAbsent(parts[i], ',');
      }
    }
    r
  }

  /** What the input shows: the terms joined with `,`. */
  function InputText(terms: seq<string>): string {
    Join(terms, ",")
  }

  /** Showing terms and reading them back is the identity for terms that
      are trimmed and hold no `,`. */
  lemma InputRoundTrip(terms: seq<string>)
    requires |terms| >= 1
    requires forall i :: 0 <= i < |terms| ==> ',' !in terms[i] && IsTrimmed(terms[i])
    ensures InputTerms(InputText(terms)) == terms
  {
    SplitJoin(terms, ',');
    forall i | 0 <= i < |terms| ensures Trim(terms[i]) == terms[i] {
      TrimTrimmed(terms[i]);
    }
  }

  /** The `q` parameter written to the URL: the terms joined with `,`, or no
      parameter for no terms. */
  function UrlQuery(terms: seq<string>): (r: Option<string>)
    ensures r.None? <==> |terms| == 0
  {
    if |terms| > 0 then Some(Join(terms, ",")) else None
  }

  /** Reading `q` on load: a non-empty parameter becomes the terms, split at
      `,` and not trimmed; otherwise the terms stay as they were. */
  function ReadUrlQuery(q: Option<string>): (r: Option<seq<string>>)
    ensures r.Some? <==> q.Some? && q.value != ""
    ensures r.Some? ==> |r.value| >= 1 && Join(r.value, [',']) == q.value
  {
    if q.Some? && q.value != "" then
      JoinSplit(q.value, ',');
      Some(Split(q.value, ','))
    else None
  }

  /** Terms written to the URL read back unchanged, unless they would be
      written as the empty text. */
  lemma UrlRoundTrip(terms: seq<string>)
    requires |terms| >= 1 && Join(terms, ",") != ""
    requires forall i :: 0 <= i < |terms| ==> ',' !in terms[i]
    ensures ReadUrlQuery(UrlQuery(terms)) == Some(terms)
  {
    SplitJoin(terms, ',');
  }

  // ---------------------------------------------------------------------------
  // Tags
  // ---------------------------------------------------------------------------

  datatype Tag = Tag(name: string, count: int)

  predicate LongEnough(t: Tag) {
    |t.name| >= 3
  }

  /** The suggestions kept from the tag table: names of three characters or
      more, in table order. */
  function Suggestions(rows: seq<Tag>): (r: seq<Tag>)
    ensures |r| <= |rows|
    ensures forall t :: t in r <==> t in rows && |t.name| >= 3
  {
    Sorting.FilterMembers(rows, LongEnough);
    Sorting.Filter(rows, LongEnough)
  }

  /** The merge key: the lower-cased name. */
  function Key(t: Tag): string {
    ToLower(t.name)
  }

  function KeySet(s: seq<Tag>): set<string> {
    set i | 0 <= i < |s| :: Key(s[i])
  }

  predicate DistinctKeys(s: seq<Tag>) {
    forall i, j :: 0 <= i < j < |s| ==> Key(s[i]) != Key(s[j])
  }

  /** The position of the merged tag with the given key, if any. */
  function KeyIndex(acc: seq<Tag>, key: string): (r: Option<nat>)
    ensures r.Some? ==> r.value < |acc| && Key(acc[r.value]) == key
    ensures r.None? ==> key !in KeySet(acc)
    decreases |acc|
  {
    if |acc| == 0 then None
    else if Key(acc[0]) == key then Some(0)
    else
      match KeyIndex(acc[1..], key)
      case None =>
        assert forall i :: 1 <= i < |acc| ==> acc[i] == acc[1..][i - 1];
        None
      case Some(i) => Some(i + 1)
  }

  /** The lower-case keys a plain `{}` already answers, truthily, through
      `Object.prototype`: for them `!acc[key]` is false, the count is added
      to the inherited object, and no own entry is ever created. */
  const InheritedKeys: set<string> := {"constructor", "__proto__"}

  /** One step of the reduce: a tag with a new key is added as it is, one
      with a known key adds its count to the tag already there, and one
      with an inherited key leaves the entries alone. */
  function AddTag(acc: seq<Tag>, t: Tag): (r: seq<Tag>)
    ensures Key(t) in InheritedKeys ==> r == acc
    ensures Key(t) !in InheritedKeys && KeyIndex(acc, Key(t)).Some? ==>
      var i := KeyIndex(acc, Key(t)).value;
      |r| == |acc| && r[i].count == acc[i].count + t.count
      && forall q :: 0 <= q < |acc| && q != i ==> r[q] == acc[q]
    ensures Key(t) !in InheritedKeys && KeyIndex(acc, Key(t)).None? ==> r == acc + [t]
    ensures forall q :: 0 <= q < |acc| ==> r[q].name == acc[q].name
  {
    if Key(t) in InheritedKeys then acc
    else
      match KeyIndex(acc, Key(t))
      case Some(i) => acc[i := acc[i].(count := acc[i].count + t.count)]
      case None => acc + [t]
  }

  /** `Object.values(tags.reduce(...))`, in the order the keys were first
      seen. */
  function MergeTags(tags: seq<Tag>): (r: seq<Tag>)
    ensures |r| <= |tags|
    decreases |tags|
  {
    if |tags| == 0 then [] else AddTag(MergeTags(tags[..|tags| - 1]), tags[|tags| - 1])
  }

  /** The sum of the counts of the tags with the given key. */
  function CountFor(tags: seq<Tag>, key: string): int
    decreases |tags|
  {
    if |tags| == 0 then 0
    else CountFor(tags[..|tags| - 1], key) + (if Key(tags[|tags| - 1]) == key then tags[|tags| - 1].count else 0)
  }

  lemma KeySetSnoc(s: seq<Tag>, t: Tag)
    ensures KeySet(s + [t]) == KeySet(s) + {Key(t)}
  {
    var r := s + [t];
    forall k | k in KeySet(r) ensures k in KeySet(s) + {Key(t)} {
      var q :| 0 <= q < |r| && Key(r[q]) == k;
      if q < |s| {
        assert r[q] == s[q];
      }
    }
    forall k | k in KeySet(s) ensures k in KeySet(r) {
      var q :| 0 <= q < |s| && Key(s[q]) == k;
      assert r[q] == s[q];
    }
    assert Key(r[|s|]) in KeySet(r);
  }

  lemma {:induction false} CountForAbsent(tags: seq<Tag>, key: string)
    requires key !in KeySet(tags)
    ensures CountFor(tags, key) == 0
    decreases |tags|
  {
    if |tags| > 0 {
      var front := tags[..|tags| - 1];
      assert tags == front + [tags[|tags| - 1]];
      KeySetSnoc(front, tags[|tags| - 1]);
      CountForAbsent(front, key);
    }
  }

  /** Adding a tag keeps the keys distinct and adds the tag's key unless it
      is inherited. */
  lemma AddTagKeys(acc: seq<Tag>, t: Tag)
    requires DistinctKeys(acc)
    ensures DistinctKeys(AddTag(acc, t))
    ensures KeySet(AddTag(acc, t)) == KeySet(acc) + ({Key(t)} - InheritedKeys)
  {
    var r := AddTag(acc, t);
    if Key(t) in InheritedKeys {
      return;
    }
    match KeyIndex(acc, Key(t))
    case Some(i) =>
      assert forall q :: 0 <= q < |r| ==> Key(r[q]) == Key(acc[q]);
      assert KeySet(r) == KeySet(acc);
    case None =>
      assert r == acc + [t];
      KeySetSnoc(acc, t);
  }

  /** The merge holds one tag per key of the input that is not inherited,
      no key twice. */
  lemma {:induction false} MergeTagsKeys(tags: seq<Tag>)
    ensures DistinctKeys(MergeTags(tags))
    ensures KeySet(MergeTags(tags)) == KeySet(tags) - InheritedKeys
    decreases |tags|
  {
    if |tags| > 0 {
      var n := |tags| - 1;
      var front := tags[..n];
      MergeTagsKeys(front);
      assert tags == front + [tags[n]];
      KeySetSnoc(front, tags[n]);
      AddTagKeys(MergeTags(front), tags[n]);
    }
  }

  /** Each merged tag carries the summed count of every tag with its key. */
  lemma {:induction false} MergeTagsCounts(tags: seq<Tag>)
    ensures forall i :: 0 <= i < |MergeTags(tags)| ==> MergeTags(tags)[i].count == CountFor(tags, Key(MergeTags(tags)[i]))
    decreases |tags|
  {
    if |tags| > 0 {
      var n := |tags| - 1;
      var front := tags[..n];
      var t := tags[n];
      MergeTagsCounts(front);
      MergeTagsKeys(front);
      var acc := MergeTags(front);
      var r := MergeTags(tags);
      match KeyIndex(acc, Key(t))
      case Some(i) =>
        forall q | 0 <= q < |r| ensures r[q].count == CountFor(tags, Key(r[q])) {
          if q != i {
            assert Key(acc[q]) != Key(acc[i]);
          }
        }
      case None =>
        forall q | 0 <= q < |r| ensures r[q].count == CountFor(tags, Key(r[q])) {
          if q == |acc| {
            CountForAbsent(front, Key(t));
          }
        }
    }
  }

  /** No earlier tag has the key of tag `j`. */
  predicate FirstOfKey(tags: seq<Tag>, j: nat)
    requires j < |tags|
  {
    forall q :: 0 <= q < j ==> Key(tags[q]) != Key(tags[j])
  }

  /** The first tag of its key in a prefix is still the first in the whole. */
  lemma FirstOfKeyPrefix(tags: seq<Tag>, n: nat, j: nat)
    requires j < n <= |tags| && FirstOfKey(tags[..n], j)
    ensures FirstOfKey(tags, j)
  {
    forall q | 0 <= q < j ensures Key(tags[q]) != Key(tags[j]) {
      assert tags[q] == tags[..n][q] && tags[j] == tags[..n][j];
    }
  }

  /** The last tag is the first of its key when no earlier tag has it. */
  lemma FirstOfKeyLast(tags: seq<Tag>)
    requires |tags| > 0 && Key(tags[|tags| - 1]) !in KeySet(tags[..|tags| - 1])
    ensures FirstOfKey(tags, |tags| - 1)
  {
    var n := |tags| - 1;
    var front := tags[..n];
    forall q | 0 <= q < n ensures Key(tags[q]) != Key(tags[n]) {
      assert tags[q] == front[q];
      assert Key(front[q]) in KeySet(front);
    }
  }

  /** Each merged tag keeps the name of the first tag with its key. */
  lemma {:induction false} MergeTagsFirstName(tags: seq<Tag>)
    ensures forall i :: 0 <= i < |MergeTags(tags)| ==>
      exists j :: 0 <= j < |tags| && FirstOfKey(tags, j) && tags[j].name == MergeTags(tags)[i].name
    decreases |tags|
  {
    if |tags| > 0 {
      var n := |tags| - 1;
      var front := tags[..n];
      var t := tags[n];
      MergeTagsFirstName(front);
      var acc := MergeTags(front);
      var r := MergeTags(tags);
      assert r == AddTag(acc, t);
      forall i | 0 <= i < |r| ensures exists j :: 0 <= j < |tags| && FirstOfKey(tags, j) && tags[j].name == r[i].name {
        if i < |acc| {
          var j :| 0 <= j < |front| && FirstOfKey(front, j) && front[j].name == acc[i].name;
          FirstOfKeyPrefix(tags, n, j);
          assert tags[j] == front[j];
        } else {
          MergeTagsKeys(front);
          assert Key(t) !in InheritedKeys && KeyIndex(acc, Key(t)).None?;
          assert Key(t) !in KeySet(front);
          assert front == tags[..|tags| - 1];
          FirstOfKeyLast(tags);
          assert FirstOfKey(tags, n) && tags[n].name == r[i].name;
        }
      }
    } else {
      assert MergeTags(tags) == [];
    }
  }

  /** A suggestion as shown: the merged name, the count less one, and
      whether its lower-cased name is among the terms. */
  datatype TagView = TagView(name: string, count: int, active: bool)

  function TagViews(merged: seq<Tag>, terms: seq<string>): (r: seq<TagView>)
    ensures |r| == |merged|
    ensures forall i :: 0 <= i < |r| ==> r[i].name == merged[i].name && r[i].count + 1 == merged[i].count
    ensures forall i :: 0 <= i < |r| ==> (r[i].active <==> Key(merged[i]) in terms)
  {
    seq(|merged|, i requires 0 <= i < |merged| => TagView(merged[i].name, merged[i].count - 1, ToLower(merged[i].name) in terms))
  }

  predicate NonEmptyTerm(t: string) {
    t != ""
  }

  /** Clicking a suggestion: an active tag's lower-cased name is removed, an
      inactive one is appended; either way empty terms are dropped and the
      other terms keep their order. */
  function Toggle(prev: seq<string>, name: string, active: bool): (r: seq<string>)
    ensures "" in r ==> !active && ToLower(name) == ""
    ensures forall x :: x != ToLower(name) ==> (x in r <==> x in prev && x != "")
    ensures ToLower(name) in r <==> !active
  {
    var lower := ToLower(name);
    var keep := (t: string) => t != "" && t != lower;
    Sorting.FilterMembers(prev, keep);
    Sorting.FilterMembers(prev, NonEmptyTerm);
    if active then Sorting.Filter(prev, keep) else Sorting.Filter(prev, NonEmptyTerm) + [lower]
  }

  /** Toggling keeps the other terms in their order, each as often as it
      occurred: removing a tag drops exactly its occurrences and the empty
      terms, adding one puts it at the end. */
  lemma ToggleKeepsOrder(prev: seq<string>, name: string, active: bool)
    ensures active ==>
      var r := Toggle(prev, name, active);
      Sorting.Subsequence(r, prev)
      && forall x :: multiset(r)[x] == (if x != "" && x != ToLower(name) then multiset(prev)[x] else 0)
    ensures !active ==>
      var r := Toggle(prev, name, active);
      |r| > 0 && r[|r| - 1] == ToLower(name) && Sorting.Subsequence(r[..|r| - 1], prev)
      && forall x :: multiset(r[..|r| - 1])[x] == (if x != "" then multiset(prev)[x] else 0)
  {
    var lower := ToLower(name);
    if active {
      Sorting.FilterInOrder(prev, (t: string) => t != "" && t != lower);
    } else {
      var kept := Sorting.Filter(prev, NonEmptyTerm);
      Sorting.FilterInOrder(prev, NonEmptyTerm);
      assert (kept + [lower])[..|kept|] == kept;
    }
  }
}
