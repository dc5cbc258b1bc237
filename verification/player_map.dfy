/** Building the player identity map (etl/ingest_player_map.py): the sixteen
    register shards are downloaded, the ones that load are concatenated in
    shard order, the frame is cut down to four columns, rows missing either
    identifier are dropped, the numeric identifier is cast to an integer and
    the result is handed to the uploader. Each download is an abstract
    outcome supplied by the caller. */
module PlayerMap {
  import opened Common
  import Uploader

  const BaseUrl := "https://raw.githubusercontent.com/chadwickbureau/register/master/data/"
  const ObjectName := "player_map.parquet"
  const RequiredColumns: seq<string> := ["key_mlbam", "key_retro", "name_first", "name_last"]

  /** `[str(i) for i in range(10)] + ['a', 'b', 'c', 'd', 'e', 'f']`. */
  function Shards(): (s: seq<string>)
    ensures s == ["0", "1", "2", "3", "4", "5", "6", "7", "8", "9", "a", "b", "c", "d", "e", "f"]
  {
    seq(10, i requires 0 <= i < 10 => [('0' as int + i) as char]) + ["a", "b", "c", "d", "e", "f"]
  }

  /** The shard names are the sixteen hexadecimal digits, each once. */
  lemma ShardsAreHexDigits()
    ensures |Shards()| == 16
    ensures forall i :: 0 <= i < 16 ==> |Shards()[i]| == 1
    ensures forall i, j :: 0 <= i < j < 16 ==> Shards()[i] != Shards()[j]
  {
    var s := Shards();
    forall i, j | 0 <= i < j < 16
      ensures s[i] != s[j]
    {
      assert s[i][0] != s[j][0];
    }
  }

  const UrlPrefix := BaseUrl + "people-"
  const UrlSuffix := ".csv"

  /** `f"{BASE_URL}people-{shard}.csv"`. */
  function ShardUrl(shard: string): (url: string)
    ensures |url| == |UrlPrefix| + |shard| + |UrlSuffix|
    ensures url[..|UrlPrefix|] == UrlPrefix
    ensures url[|UrlPrefix|..|url| - |UrlSuffix|] == shard
    ensures url[|url| - |UrlSuffix|..] == UrlSuffix
  {
    UrlPrefix + shard + UrlSuffix
  }

  /** The shard a register URL names, if it has the register's shape. */
  function ShardOfUrl(url: string): Option<string>
  {
    if |url| >= |UrlPrefix| + |UrlSuffix| && url[..|UrlPrefix|] == UrlPrefix
       && url[|url| - |UrlSuffix|..] == UrlSuffix
    then Some(url[|UrlPrefix|..|url| - |UrlSuffix|])
    else None
  }

  /** The shard can be read back from its URL, so different shards are
      fetched from different URLs. */
  lemma ShardUrlRoundTrip(shard: string, other: string)
    ensures ShardOfUrl(ShardUrl(shard)) == Some(shard)
    ensures shard != other ==> ShardUrl(shard) != ShardUrl(other)
  {
    if ShardUrl(shard) == ShardUrl(other) {
      assert ShardOfUrl(ShardUrl(other)) == Some(other);
    }
  }

  /** The outcome of reading each shard, in shard order. */
  function Downloads(download: string -> Outcome<Table>): (os: seq<Outcome<Table>>)
    ensures |os| == 16
    ensures forall i :: 0 <= i < 16 ==> os[i] == download(ShardUrl(Shards()[i]))
  {
    seq(16, i requires 0 <= i < 16 => download(ShardUrl(Shards()[i])))
  }

  /** The tables that loaded, in order; failed shards are skipped. */
  function Loaded(os: seq<Outcome<Table>>): (ts: seq<Table>)
    ensures |ts| <= |os|
    ensures |ts| == 0 <==> forall i :: 0 <= i < |os| ==> os[i].Err?
    ensures forall t :: t in ts <==> Ok(t) in os
  {
    if |os| == 0 then []
    else
      var rest := Loaded(os[1..]);
      assert forall i :: 0 < i < |os| ==> os[i] == os[1..][i - 1];
      assert forall o :: o in os <==> o == os[0] || o in os[1..];
      if os[0].Ok? then [os[0].value] + rest else rest
  }

  /** Loading distributes over concatenation of outcome sequences. */
  lemma {:induction false} LoadedAppend(a: seq<Outcome<Table>>, b: seq<Outcome<Table>>)
    ensures Loaded(a + b) == Loaded(a) + Loaded(b)
    decreases |a|
  {
    if |a| == 0 {
      assert a + b == b;
    } else {
      assert (a + b)[0] == a[0];
      assert (a + b)[1..] == a[1..] + b;
      LoadedAppend(a[1..], b);
    }
  }

  /** A failed shard contributes nothing: the tables before it are followed
      directly by the tables after it. */
  lemma SkipsFailedShard(os: seq<Outcome<Table>>, i: nat)
    requires i < |os| && os[i].Err?
    ensures Loaded(os) == Loaded(os[..i]) + Loaded(os[i + 1..])
  {
    var before, after := os[..i], os[i + 1..];
    assert os == before + ([os[i]] + after);
    LoadedAppend(before, [os[i]] + after);
    FailedContributesNothing(os[i], after);
  }

  lemma FailedContributesNothing(o: Outcome<Table>, rest: seq<Outcome<Table>>)
    requires o.Err?
    ensures Loaded([o] + rest) == Loaded(rest)
  {
    assert ([o] + rest)[1..] == rest;
  }

  /** With every shard loaded, the tables are all sixteen, in shard order. */
  lemma {:induction false} AllShardsLoaded(os: seq<Outcome<Table>>)
    requires forall i :: 0 <= i < |os| ==> os[i].Ok?
    ensures |Loaded(os)| == |os|
    ensures forall i :: 0 <= i < |os| ==> Loaded(os)[i] == os[i].value
    decreases |os|
  {
    if |os| > 0 {
      AllShardsLoaded(os[1..]);
    }
  }

  /** Position of the first column called `name`. */
  function IndexOf(columns: seq<string>, name: string): (k: Option<nat>)
    ensures k.None? <==> name !in columns
    ensures k.Some? ==> k.value < |columns| && columns[k.value] == name
    ensures k.Some? ==> forall j :: 0 <= j < k.value ==> columns[j] != name
  {
    if |columns| == 0 then None
    else if columns[0] == name then Some(0)
    else
      match IndexOf(columns[1..], name)
      case None => None
      case Some(k) => Some(k + 1)
  }

  /** One row of a loaded table as the concatenated frame holds it, cut down
      to the required columns: a column the shard lacks reads as NaN. */
  function ProjectRow(columns: seq<string>, row: seq<Cell>): (p: seq<Cell>)
    requires |row| == |columns|
    ensures |p| == |RequiredColumns|
    ensures forall k :: 0 <= k < |p| && RequiredColumns[k] !in columns ==> p[k] == NaN
    ensures forall k :: 0 <= k < |p| && RequiredColumns[k] in columns ==> p[k] in row
    ensures forall k, j ::
      && 0 <= k < |p| && 0 <= j < |columns| && columns[j] == RequiredColumns[k]
      && (forall j' :: 0 <= j' < j ==> columns[j'] != RequiredColumns[k])
      ==> p[k] == row[j]
  {
    seq(|RequiredColumns|, k requires 0 <= k < |RequiredColumns| =>
      match IndexOf(columns, RequiredColumns[k])
      case None => NaN
      case Some(j) => row[j])
  }

  /** Each row of one loaded table, projected, in the table's row order. */
  function ProjectTable(t: Table): (rows: seq<seq<Cell>>)
    ensures |rows| == |t.rows|
    ensures forall i :: 0 <= i < |rows| ==> rows[i] == ProjectRow(t.columns, t.rows[i])
  {
    seq(|t.rows|, i requires 0 <= i < |t.rows| => ProjectRow(t.columns, t.rows[i]))
  }

  /** `pd.concat(all_dfs, ignore_index=True)[REQUIRED_COLUMNS]`: the rows of
      every loaded table, in order, projected to the required columns. */
  function ProjectedRows(ts: seq<Table>): (rows: seq<seq<Cell>>)
    ensures forall i :: 0 <= i < |rows| ==> |rows[i]| == |RequiredColumns|
  {
    if |ts| == 0 then [] else ProjectTable(ts[0]) + ProjectedRows(ts[1..])
  }

  /** Combining distributes over the shard list: the rows of earlier shards
      come first, each shard's rows in their own order. */
  lemma {:induction false} ProjectedRowsAppend(a: seq<Table>, b: seq<Table>)
    ensures ProjectedRows(a + b) == ProjectedRows(a) + ProjectedRows(b)
    decreases |a|
  {
    if |a| == 0 {
      assert a + b == b;
    } else {
      assert (a + b)[0] == a[0];
      assert (a + b)[1..] == a[1..] + b;
      ProjectedRowsAppend(a[1..], b);
    }
  }

  /** `master_df[REQUIRED_COLUMNS]` raises unless every required column
      occurs in at least one loaded table. */
  predicate HasRequiredColumns(ts: seq<Table>)
  {
    forall k :: 0 <= k < |RequiredColumns| ==> exists t :: t in ts && RequiredColumns[k] in t.columns
  }

  /** The `dropna(subset=['key_mlbam', 'key_retro'])` test. */
  predicate HasBothKeys(row: seq<Cell>)
  {
    |row| >= 2 && !IsMissing(row[0]) && !IsMissing(row[1])
  }

  /** `astype(int)` on the numeric identifier succeeds on every kept row. */
  predicate KeysCastable(rows: seq<seq<Cell>>)
  {
    forall i :: 0 <= i < |rows| ==> |rows[i]| > 0 && rows[i][0].Num?
  }

  /** How a run ends. */
  datatype RunResult =
    | Aborted                                              // no shard loaded
    | Crashed                                              // an exception escaped the function
    | Finished(table: Table, upload: Option<Uploader.Upload>)

  /** Everything after the downloads: combine the loaded frames, keep the
      required columns, drop rows without both keys, cast the identifier
      and hand the table to the uploader. */
  function Assemble(tables: seq<Table>): (r: RunResult)
    ensures r.Aborted? <==> |tables| == 0
    ensures r.Finished? ==>
      && r.table.columns == RequiredColumns
      && (forall i :: 0 <= i < |r.table.rows| ==> r.table.rows[i][0].Num? && !IsMissing(r.table.rows[i][1]))
      && r.table.rows == Filter(HasBothKeys, ProjectedRows(tables))
    ensures r.Finished? ==> (r.upload.None? <==> |r.table.rows| == 0)
    ensures r.Finished? && r.upload.Some? ==> r.upload.value == Uploader.Upload(ObjectName, r.table)
  {
    if |tables| == 0 then Aborted
    else if !HasRequiredColumns(tables) then Crashed
    else
      var projected: seq<seq<Cell>> := ProjectedRows(tables);
      var kept: seq<seq<Cell>> := Filter(HasBothKeys, projected);
      if !KeysCastable(kept) then Crashed
      else
        var cleaned: Table := Frame(RequiredColumns, kept);
        Finished(cleaned, Uploader.UploadTable(cleaned, ObjectName))
  }

  /** `fetch_and_upload_player_map`. */
  function FetchAndUpload(download: string -> Outcome<Table>): (r: RunResult)
    ensures r.Aborted? <==> forall i :: 0 <= i < 16 ==> download(ShardUrl(Shards()[i])).Err?
    ensures r.Finished? ==>
      && r.table.columns == RequiredColumns
      && (forall i :: 0 <= i < |r.table.rows| ==> r.table.rows[i][0].Num? && !IsMissing(r.table.rows[i][1]))
      && r.table.rows == Filter(HasBothKeys, ProjectedRows(Loaded(Downloads(download))))
    ensures r.Finished? ==> (r.upload.None? <==> |r.table.rows| == 0)
    ensures r.Finished? && r.upload.Some? ==> r.upload.value == Uploader.Upload(ObjectName, r.table)
  {
    Assemble(Loaded(Downloads(download)))
  }

  /** The kept rows of the map are each shard's own kept rows, concatenated
      in shard order. */
  lemma {:induction false} KeptRowsPerShard(ts: seq<Table>)
    requires |ts| > 0
    ensures Filter(HasBothKeys, ProjectedRows(ts))
         == Filter(HasBothKeys, ProjectTable(ts[0])) + Filter(HasBothKeys, ProjectedRows(ts[1..]))
  {
    FilterAppend(HasBothKeys, ProjectTable(ts[0]), ProjectedRows(ts[1..]));
  }

  /** The shape the register's reader gives the numeric identifier
      (`dtype={'key_mlbam': 'Int64'}`): an integer or missing. */
  predicate NumericKeyColumn(t: Table)
  {
    forall i, j :: 0 <= i < |t.rows| && 0 <= j < |t.columns| && t.columns[j] == "key_mlbam"
      ==> t.rows[i][j].Num? || t.rows[i][j].Null?
  }

  lemma {:induction false} ProjectedKeysNumeric(ts: seq<Table>)
    requires forall t :: t in ts ==> NumericKeyColumn(t)
    ensures forall i :: 0 <= i < |ProjectedRows(ts)| ==>
      var c := ProjectedRows(ts)[i][0]; c.Num? || c.Null? || c.NaN?
    decreases |ts|
  {
    if |ts| > 0 {
      ProjectedKeysNumeric(ts[1..]);
      var t := ts[0];
      assert t in ts;
      assert NumericKeyColumn(t);
      var rows: seq<seq<Cell>> := ProjectTable(t);
      forall i | 0 <= i < |rows|
        ensures rows[i][0].Num? || rows[i][0].Null? || rows[i][0].NaN?
      {
        assert RequiredColumns[0] == "key_mlbam";
        assert rows[i] == ProjectRow(t.columns, t.rows[i]);
        match IndexOf(t.columns, "key_mlbam")
        case None =>
        case Some(j) =>
          assert ProjectRow(t.columns, t.rows[i])[0] == t.rows[i][j];
          assert t.columns[j] == "key_mlbam";
      }
      var all: seq<seq<Cell>> := ProjectedRows(ts);
      forall i | 0 <= i < |all|
        ensures all[i][0].Num? || all[i][0].Null? || all[i][0].NaN?
      {
        if i < |rows| {
          assert all[i] == rows[i];
        } else {
          assert all[i] == ProjectedRows(ts[1..])[i - |rows|];
        }
      }
    }
  }

  /** When every loaded shard has the reader's integer identifier column and
      the required columns occur, the cast cannot fail: dropping missing
      identifiers leaves only integers, so the run finishes. */
  lemma CastIsTotal(tables: seq<Table>)
    requires |tables| > 0
    requires forall t :: t in tables ==> NumericKeyColumn(t)
    requires HasRequiredColumns(tables)
    ensures Assemble(tables).Finished?
  {
    var projected: seq<seq<Cell>> := ProjectedRows(tables);
    ProjectedKeysNumeric(tables);
    var kept: seq<seq<Cell>> := Filter(HasBothKeys, projected);
    forall i | 0 <= i < |kept|
      ensures |kept[i]| > 0 && kept[i][0].Num?
    {
      assert kept[i] in projected;
      var m :| 0 <= m < |projected| && projected[m] == kept[i];
    }
  }
}
