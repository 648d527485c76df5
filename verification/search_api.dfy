/** The client side of photo search (`src/components/search/api.ts`): the
    full-text query bound into the SQL statement, the records built from
    the database's rows, and the previous and next page numbers of a page
    of results. The in-browser database is a parameter. */
module SearchApi {
  import opened Wrappers
  import opened Strings

  /** The text before the quoted search phrase of a `MATCH` expression: the
      phrase is matched in every column but the two path columns. */
  const MatchPrefix: string := "- {path album_relative_path} : \""

  /** One value bound to a `?` of the statement. */
  datatype BindValue = BText(text: string) | BNumber(n: int)

  /** The `MATCH` argument: the query as one quoted phrase, every `"` of the
      query turned into `'`, so that the only double quotes are the two that
      delimit the phrase. */
  function MatchExpression(query: string): (r: string)
    ensures |r| == |MatchPrefix| + |query| + 1
    ensures StartsWith(r, MatchPrefix) && r[|r| - 1] == '"'
    ensures forall i :: 0 <= i < |r| && r[i] == '"' ==> i == |MatchPrefix| - 1 || i == |r| - 1
    ensures forall i :: 0 <= i < |query| && query[i] != '"' ==> r[|MatchPrefix| + i] == query[i]
  {
    var r := MatchPrefix + ReplaceChar(query, '"', '\'') + "\"";
    assert r[..|MatchPrefix|] == MatchPrefix;
    assert forall i :: 0 <= i < |query| ==> r[|MatchPrefix| + i] == ReplaceChar(query, '"', '\'')[i];
    r
  }

  /** A query without double quotes is matched verbatim. */
  lemma MatchExpressionVerbatim(query: string)
    requires '"' !in query
    ensures MatchExpression(query) == MatchPrefix + query + "\""
  {
    var r := MatchExpression(query);
    var t := MatchPrefix + query + "\"";
    assert |r| == |t|;
    forall i | 0 <= i < |r| ensures r[i] == t[i] {
      if i < |MatchPrefix| {
        assert r[..|MatchPrefix|] == MatchPrefix;
        assert r[i] == r[..|MatchPrefix|][i];
      } else if i < |MatchPrefix| + |query| {
        assert query[i - |MatchPrefix|] != '"';
      }
    }
  }

  /** The values bound to the statement: the match expression, the page size
      as `LIMIT` and `page * pageSize` as `OFFSET`. */
  function Bind(query: string, pageSize: int, page: int): (r: seq<BindValue>)
    ensures |r| == 3 && r[0] == BText(MatchExpression(query))
    ensures r[1] == BNumber(pageSize)
    ensures r[2] == BNumber(page * pageSize)
  {
    [BText(MatchExpression(query)), BNumber(pageSize), BNumber(page * pageSize)]
  }

  /** `page - 1`, unless the page is `0` or negative. */
  function Prev(page: int): (r: Option<int>)
    ensures r.Some? <==> page > 0
    ensures r.Some? ==> r.value >= 0 && r.value + 1 == page
  {
    if page <= 0 then None else Some(page - 1)
  }

  /** `page + 1` when the page is non-zero and came back full. Page `0` is
      falsy, so it never has a next page here. */
  function Next(page: int, count: nat, pageSize: int): (r: Option<int>)
    ensures r.Some? <==> page != 0 && count == pageSize
    ensures r.Some? ==> r.value == page + 1
    ensures r.Some? && page > 0 ==> Prev(r.value) == Some(page)
  {
    if page != 0 && count == pageSize then Some(page + 1) else None
  }

  /** One row message of the database: its column names, its values and the
      message type. */
  datatype RowMessage = RowMessage(columnNames: seq<string>, row: seq<string>, kind: string)

  /** The value of column `i`, `undefined` past the end of the row. */
  function Cell(row: seq<string>, i: nat): Option<string> {
    if i < |row| then Some(row[i]) else None
  }

  /** `record[cn] = msg.row[i]` for each column name in turn. */
  function Columns(names: seq<string>, row: seq<string>): (m: map<string, Option<string>>)
    ensures forall k :: k in m <==> k in names
    decreases |names|
  {
    if |names| == 0 then map[]
    else
      var n := |names| - 1;
      assert forall k :: k in names <==> k in names[..n] || k == names[n] by {
        assert names == names[..n] + [names[n]];
      }
      Columns(names[..n], row)[names[n] := Cell(row, n)]
  }

  /** A column whose name is not repeated later holds its own value. */
  lemma {:induction false} ColumnsLookup(names: seq<string>, row: seq<string>, i: nat)
    requires i < |names| && forall j :: i < j < |names| ==> names[j] != names[i]
    ensures Columns(names, row)[names[i]] == Cell(row, i)
    decreases |names|
  {
    var n := |names| - 1;
    if i < n {
      assert names[..n][i] == names[i];
      assert forall j :: i < j < n ==> names[..n][j] == names[j];
      ColumnsLookup(names[..n], row, i);
    }
  }

  /** The record of one row: its columns by name, then `type`. */
  function Record(msg: RowMessage): (m: map<string, Option<string>>)
    ensures forall k :: k in m <==> k in msg.columnNames || k == "type"
    ensures m["type"] == Some(msg.kind)
  {
    Columns(msg.columnNames, msg.row)["type" := Some(msg.kind)]
  }

  /** A column other than `type` whose name is not repeated keeps its value
      in the record. */
  lemma RecordColumn(msg: RowMessage, i: nat)
    requires i < |msg.columnNames| && msg.columnNames[i] != "type"
    requires forall j :: i < j < |msg.columnNames| ==> msg.columnNames[j] != msg.columnNames[i]
    ensures Record(msg)[msg.columnNames[i]] == Cell(msg.row, i)
  {
    ColumnsLookup(msg.columnNames, msg.row, i);
  }

  /** `PaginatedSearchResult`. */
  datatype Page = Page(data: seq<map<string, Option<string>>>, next: Option<int>, prev: Option<int>, query: string)

  /** `exec` once the database has sent every row and then the final
      message: the records in row order and the neighbouring pages. */
  function Exec(rows: seq<RowMessage>, page: int, pageSize: int, query: string): (r: Page)
    ensures |r.data| == |rows| && forall i :: 0 <= i < |rows| ==> r.data[i] == Record(rows[i])
    ensures r.prev == Prev(page) && r.next == Next(page, |rows|, pageSize)
    ensures r.query == query
  {
    Page(seq(|rows|, i requires 0 <= i < |rows| => Record(rows[i])), Next(page, |rows|, pageSize), Prev(page), query)
  }

  /** `fetchResults`: the statement is run with the bound values; a failure
      of the database is passed on. */
  function FetchResults(db: seq<BindValue> -> Result<seq<RowMessage>, string>, query: string, pageSize: int, page: int)
    : (r: Result<Page, string>)
    ensures var answer := db(Bind(query, pageSize, page));
      (r.Failure? <==> answer.Failure?)
      && (r.Failure? ==> r.error == answer.error)
      && (r.Success? ==> r.value == Exec(answer.value, page, pageSize, query))
  {
    match db(Bind(query, pageSize, page))
    case Failure(e) => Failure(e)
    case Success(rows) => Success(Exec(rows, page, pageSize, query))
  }
}
