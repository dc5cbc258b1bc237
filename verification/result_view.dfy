/** The result view of the query page (frontend/app/page.tsx): the
    bar-chart-or-table choice, the sort header's two-state machine, the
    null-last comparator and the rows it orders, and the page-state
    transitions of submitting and resetting a question. React hooks and the
    asynchronous fetch become plain transitions of one state record; the
    network call becomes a function parameter. */
module ResultView {
  import opened Common

  /** A response of the query API, as the page types it: the generated SQL
      and, when present, the result rows. */
  datatype QueryResult = QueryResult(sqlQuery: string, results: Option<seq<Record>>)

  /** The two presentations of a result set. */
  datatype Visualization = BarChartView | TableView

  /** What JavaScript's `typeof` answers for a cell: `null` is an object and
      not-a-number is a number. */
  datatype JsType = TypeString | TypeNumber | TypeBoolean | TypeObject

  function TypeOf(c: Cell): JsType
  {
    match c
    case Null => TypeObject
    case NaN => TypeNumber
    case Num(_) => TypeNumber
    case Str(_) => TypeString
    case Bool(_) => TypeBoolean
  }

  /** A first row that a bar chart can draw: a label and a number, nothing else. */
  predicate IsLabelValueRow(row: Record)
  {
    |row| == 2 && TypeOf(row[0].1) == TypeString && TypeOf(row[1].1) == TypeNumber
  }

  /** The bar-chart-or-table choice. Missing or empty results give a table;
      otherwise only the first row decides. */
  function VisualizationType(results: Option<seq<Record>>): (v: Visualization)
    ensures results.None? || results == Some([]) ==> v == TableView
    ensures v == BarChartView <==>
      && results.Some?
      && |results.value| > 0
      && |results.value[0]| == 2
      && results.value[0][0].1.Str?
      && (results.value[0][1].1.Num? || results.value[0][1].1.NaN?)
  {
    if results.None? || |results.value| == 0 then TableView
    else if IsLabelValueRow(results.value[0]) then BarChartView
    else TableView
  }

  /** Rows after the first never affect the choice. */
  lemma VisualizationIgnoresLaterRows(rows: seq<Record>, rows': seq<Record>)
    requires |rows| > 0 && |rows'| > 0 && rows[0] == rows'[0]
    ensures VisualizationType(Some(rows)) == VisualizationType(Some(rows'))
  {
  }

  // ---------------------------------------------------------------------
  // Sorting

  datatype Direction = Ascending | Descending

  /** The sort header state: which key, which direction. */
  datatype SortConfig = SortConfig(key: string, direction: Direction)

  /** `row[key]`: the value of the first field with that name; None is
      JavaScript's `undefined`. */
  function Get(row: Record, key: string): (v: Option<Cell>)
    ensures v.None? <==> forall i :: 0 <= i < |row| ==> row[i].0 != key
    ensures v.Some? ==> exists i :: 0 <= i < |row| && row[i] == (key, v.value)
                                    && forall j :: 0 <= j < i ==> row[j].0 != key
  {
    if |row| == 0 then None
    else if row[0].0 == key then Some(row[0].1)
    else
      var rest := Get(row[1..], key);
      assert forall i :: 0 < i < |row| ==> row[i] == row[1..][i - 1];
      if rest.Some? then
        var i :| 0 <= i < |row[1..]| && row[1..][i] == (key, rest.value)
                 && forall j :: 0 <= j < i ==> row[1..][j].0 != key;
        assert row[i + 1] == (key, rest.value);
        rest
      else rest
  }

  /** `null` or `undefined`. */
  predicate IsNullish(v: Option<Cell>)
  {
    v.None? || v == Some(Null)
  }

  /** The UTF-16 code units JavaScript stores for one character: the
      character itself below U+10000, otherwise a high and a low surrogate. */
  function CodeUnits(c: char): (u: seq<int>)
    ensures |u| == 1 || |u| == 2
    ensures |u| == 1 <==> c as int < 0x10000
    ensures |u| == 1 ==> u[0] == c as int && !(0xD800 <= u[0] < 0xE000)
    ensures |u| == 2 ==> 0xD800 <= u[0] < 0xDC00 && 0xDC00 <= u[1] < 0xE000
    ensures |u| == 2 ==> (u[0] - 0xD800) * 0x400 + (u[1] - 0xDC00) + 0x10000 == c as int
  {
    var n := c as int;
    if n < 0x10000 then [n]
    else [0xD800 + (n - 0x10000) / 0x400, 0xDC00 + (n - 0x10000) % 0x400]
  }

  /** A string as JavaScript sees it: its UTF-16 code units. */
  function Utf16(s: string): seq<int>
  {
    if |s| == 0 then [] else CodeUnits(s[0]) + Utf16(s[1..])
  }

  /** Lexicographic order on sequences of code units. */
  predicate UnitsLess(a: seq<int>, b: seq<int>)
  {
    if |a| == 0 then |b| > 0
    else if |b| == 0 then false
    else if a[0] == b[0] then UnitsLess(a[1..], b[1..])
    else a[0] < b[0]
  }

  /** JavaScript's `<` on two strings: lexicographic on UTF-16 code units,
      so a character above U+FFFF sorts by its high surrogate. */
  predicate StrLess(a: string, b: string)
  {
    UnitsLess(Utf16(a), Utf16(b))
  }

  /** Reads UTF-16 code units back as code points, pairing a high surrogate
      with the unit after it. */
  function DecodeUnits(u: seq<int>): seq<int>
  {
    if |u| == 0 then []
    else if 0xD800 <= u[0] < 0xDC00 && |u| >= 2 then
      [(u[0] - 0xD800) * 0x400 + (u[1] - 0xDC00) + 0x10000] + DecodeUnits(u[2..])
    else [u[0]] + DecodeUnits(u[1..])
  }

  /** The code points of a string. */
  function CodePoints(s: string): (p: seq<int>)
    ensures |p| == |s| && forall i :: 0 <= i < |s| ==> p[i] == s[i] as int
  {
    seq(|s|, i requires 0 <= i < |s| => s[i] as int)
  }

  /** The encoding loses nothing: decoding a string's code units gives back
      its characters, so the order compares the strings themselves. */
  lemma {:induction false} Utf16RoundTrip(s: string)
    ensures DecodeUnits(Utf16(s)) == CodePoints(s)
  {
    if |s| > 0 {
      var u := CodeUnits(s[0]);
      Utf16RoundTrip(s[1..]);
      var rest := Utf16(s[1..]);
      assert Utf16(s) == u + rest;
      if |u| == 1 {
        assert (u + rest)[1..] == rest;
      } else {
        assert (u + rest)[2..] == rest;
      }
      assert CodePoints(s) == [s[0] as int] + CodePoints(s[1..]);
    }
  }

  /** A character above U+FFFF sorts below U+FFFF, as in JavaScript, although
      its code point is larger. */
  lemma SupplementaryBelowLastBmp()
    ensures StrLess("\U{1F600}", "\U{FFFF}")
    ensures !StrLess("\U{FFFF}", "\U{1F600}")
  {
    assert Utf16("\U{1F600}") == [0xD83D, 0xDE00];
    assert Utf16("\U{FFFF}") == [0xFFFF];
  }

  /** JavaScript's `<` on two non-null cells of the same kind; cells of
      different kinds, and not-a-number, are unordered. */
  predicate JsLess(x: Cell, y: Cell)
  {
    match (x, y)
    case (Num(a), Num(b)) => a < b
    case (Str(a), Str(b)) => StrLess(a, b)
    case (Bool(a), Bool(b)) => !a && b
    case _ => false
  }

  /** The comparator of the sorted result rows: a nullish value of `a` sorts
      last (even against another nullish value), then a nullish value of `b`,
      then `<` and `>` in the configured direction. */
  function Compare(cfg: SortConfig, a: Record, b: Record): (c: int)
    ensures c == -1 || c == 0 || c == 1
    ensures IsNullish(Get(a, cfg.key)) ==> c == 1
    ensures !IsNullish(Get(a, cfg.key)) && IsNullish(Get(b, cfg.key)) ==> c == -1
  {
    var valA := Get(a, cfg.key);
    var valB := Get(b, cfg.key);
    if IsNullish(valA) then 1
    else if IsNullish(valB) then -1
    else if JsLess(valA.value, valB.value) then (if cfg.direction == Ascending then -1 else 1)
    else if JsLess(valB.value, valA.value) then (if cfg.direction == Ascending then 1 else -1)
    else 0
  }

  /** `r` is `s` with `x` placed at index `k`: after the leading rows it
      does not compare below, immediately before the first row it does. */
  predicate InsertedAt(cfg: SortConfig, x: Record, s: seq<Record>, r: seq<Record>, k: nat)
  {
    && k <= |s|
    && r == s[..k] + [x] + s[k..]
    && (forall j :: 0 <= j < k ==> Compare(cfg, x, s[j]) >= 0)
    && (k < |s| ==> Compare(cfg, x, s[k]) < 0)
  }

  /** Inserts `x` before the first row it compares below, as a stable
      insertion sort does. */
  function Insert(cfg: SortConfig, x: Record, s: seq<Record>): (r: seq<Record>)
    ensures |r| == |s| + 1
    ensures forall y :: y in r <==> y == x || y in s
  {
    if |s| == 0 then [x]
    else if Compare(cfg, x, s[0]) < 0 then [x] + s
    else
      var rest := Insert(cfg, x, s[1..]);
      assert s == [s[0]] + s[1..];
      [s[0]] + rest
  }

  /** Where `x` lands: after the leading rows it does not compare below,
      immediately before the first row it does, every other row keeping
      its order. A later row it does not compare below may follow it. */
  lemma {:induction false} InsertPosition(cfg: SortConfig, x: Record, s: seq<Record>)
    ensures exists k: nat :: InsertedAt(cfg, x, s, Insert(cfg, x, s), k)
    decreases |s|
  {
    if |s| == 0 || Compare(cfg, x, s[0]) < 0 {
      InsertedAtFront(cfg, x, s);
    } else {
      InsertPosition(cfg, x, s[1..]);
      var rest := Insert(cfg, x, s[1..]);
      var k: nat :| InsertedAt(cfg, x, s[1..], rest, k);
      InsertedAtAfterHead(cfg, x, s, rest, k);
      assert Insert(cfg, x, s) == [s[0]] + rest;
      assert InsertedAt(cfg, x, s, Insert(cfg, x, s), k + 1);
    }
  }

  /** Placing `x` first is inserting it at index 0. */
  lemma InsertedAtFront(cfg: SortConfig, x: Record, s: seq<Record>)
    requires |s| == 0 || Compare(cfg, x, s[0]) < 0
    ensures InsertedAt(cfg, x, s, Insert(cfg, x, s), 0)
  {
    assert s[..0] + [x] + s[0..] == [x] + s;
  }

  /** Inserting into the tail at `k` is inserting into the whole at `k + 1`
      when `x` does not compare below the head. */
  lemma InsertedAtAfterHead(cfg: SortConfig, x: Record, s: seq<Record>, rest: seq<Record>, k: nat)
    requires |s| > 0 && Compare(cfg, x, s[0]) >= 0
    requires InsertedAt(cfg, x, s[1..], rest, k)
    ensures InsertedAt(cfg, x, s, [s[0]] + rest, k + 1)
  {
    assert s[..k + 1] == [s[0]] + s[1..][..k];
    assert s[k + 1..] == s[1..][k..];
  }

  /** The rows ordered by the comparator (a stable insertion sort). */
  function SortRows(cfg: SortConfig, rows: seq<Record>): (r: seq<Record>)
    ensures |r| == |rows|
    ensures forall x :: x in r <==> x in rows
  {
    if |rows| == 0 then []
    else
      assert rows == rows[..|rows| - 1] + [rows[|rows| - 1]];
      Insert(cfg, rows[|rows| - 1], SortRows(cfg, rows[..|rows| - 1]))
  }

  /** `u` strictly precedes `v` in the configured direction. */
  predicate Precedes(dir: Direction, u: Cell, v: Cell)
  {
    if dir == Ascending then JsLess(u, v) else JsLess(v, u)
  }

  /** Row `a` may stand before row `b`: a nullish value is never followed by
      a present one, and two present values are never out of order. */
  predicate MayPrecede(cfg: SortConfig, a: Record, b: Record)
  {
    var va := Get(a, cfg.key);
    var vb := Get(b, cfg.key);
    && (IsNullish(va) ==> IsNullish(vb))
    && (!IsNullish(va) && !IsNullish(vb) ==> !Precedes(cfg.direction, vb.value, va.value))
  }

  predicate SortedBy(cfg: SortConfig, s: seq<Record>)
  {
    forall i, j :: 0 <= i < j < |s| ==> MayPrecede(cfg, s[i], s[j])
  }

  lemma {:induction false} UnitsLessAsymmetric(a: seq<int>, b: seq<int>)
    ensures !(UnitsLess(a, b) && UnitsLess(b, a))
    decreases |a|
  {
    if |a| > 0 && |b| > 0 && a[0] == b[0] {
      UnitsLessAsymmetric(a[1..], b[1..]);
    }
  }

  lemma {:induction false} UnitsLessTransitive(a: seq<int>, b: seq<int>, c: seq<int>)
    requires UnitsLess(a, b) && UnitsLess(b, c)
    ensures UnitsLess(a, c)
    decreases |a|
  {
    if |a| > 0 && a[0] == b[0] && b[0] == c[0] {
      UnitsLessTransitive(a[1..], b[1..], c[1..]);
    }
  }

  lemma StrLessAsymmetric(a: string, b: string)
    ensures !(StrLess(a, b) && StrLess(b, a))
  {
    UnitsLessAsymmetric(Utf16(a), Utf16(b));
  }

  lemma StrLessTransitive(a: string, b: string, c: string)
    requires StrLess(a, b) && StrLess(b, c)
    ensures StrLess(a, c)
  {
    UnitsLessTransitive(Utf16(a), Utf16(b), Utf16(c));
  }

  lemma PrecedesAsymmetric(dir: Direction, u: Cell, v: Cell)
    ensures !(Precedes(dir, u, v) && Precedes(dir, v, u))
  {
    if u.Str? && v.Str? {
      StrLessAsymmetric(u.s, v.s);
    }
  }

  lemma PrecedesTransitive(dir: Direction, u: Cell, v: Cell, w: Cell)
    requires Precedes(dir, u, v) && Precedes(dir, v, w)
    ensures Precedes(dir, u, w)
  {
    if u.Str? && v.Str? && w.Str? {
      if dir == Ascending {
        StrLessTransitive(u.s, v.s, w.s);
      } else {
        StrLessTransitive(w.s, v.s, u.s);
      }
    }
  }

  lemma {:induction false} InsertPermutes(cfg: SortConfig, x: Record, s: seq<Record>)
    ensures multiset(Insert(cfg, x, s)) == multiset(s) + multiset{x}
    decreases |s|
  {
    if |s| > 0 && Compare(cfg, x, s[0]) >= 0 {
      InsertPermutes(cfg, x, s[1..]);
      assert s == [s[0]] + s[1..];
    }
  }

  /** `a` may stand before every row of `t`. */
  predicate PrecedesAll(cfg: SortConfig, a: Record, t: seq<Record>)
  {
    forall k :: 0 <= k < |t| ==> MayPrecede(cfg, a, t[k])
  }

  lemma SortedCons(cfg: SortConfig, a: Record, t: seq<Record>)
    requires SortedBy(cfg, t) && PrecedesAll(cfg, a, t)
    ensures SortedBy(cfg, [a] + t)
  {
    var r := [a] + t;
    forall i, j | 0 <= i < j < |r|
      ensures MayPrecede(cfg, r[i], r[j])
    {
      assert r[j] == t[j - 1];
      if i > 0 {
        assert r[i] == t[i - 1];
      }
    }
  }

  lemma SortedSplit(cfg: SortConfig, s: seq<Record>)
    requires |s| > 0 && SortedBy(cfg, s)
    ensures SortedBy(cfg, s[1..]) && PrecedesAll(cfg, s[0], s[1..])
  {
    forall i, j | 0 <= i < j < |s[1..]|
      ensures MayPrecede(cfg, s[1..][i], s[1..][j])
    {
      assert s[1..][i] == s[i + 1] && s[1..][j] == s[j + 1];
    }
  }

  /** A row that compares below the first row of a sorted sequence may
      precede all of it. */
  lemma InsertFrontPrecedes(cfg: SortConfig, x: Record, s: seq<Record>)
    requires |s| > 0 && SortedBy(cfg, s) && Compare(cfg, x, s[0]) < 0
    ensures PrecedesAll(cfg, x, s)
  {
    var vx := Get(x, cfg.key);
    var v0 := Get(s[0], cfg.key);
    forall j | 0 <= j < |s|
      ensures MayPrecede(cfg, x, s[j])
    {
      var vj := Get(s[j], cfg.key);
      if !IsNullish(vj) {
        if j > 0 {
          assert MayPrecede(cfg, s[0], s[j]);
        }
        assert Precedes(cfg.direction, vx.value, v0.value);
        if Precedes(cfg.direction, vj.value, vx.value) {
          PrecedesTransitive(cfg.direction, vj.value, vx.value, v0.value);
          PrecedesAsymmetric(cfg.direction, vj.value, v0.value);
        }
      }
    }
  }

  /** A row that does not compare below `x` may precede it. */
  lemma NotBelowPrecedes(cfg: SortConfig, x: Record, y: Record)
    requires Compare(cfg, x, y) >= 0
    ensures MayPrecede(cfg, y, x)
  {
    var vx := Get(x, cfg.key);
    var vy := Get(y, cfg.key);
    if !IsNullish(vx) && !IsNullish(vy) {
      PrecedesAsymmetric(cfg.direction, vx.value, vy.value);
    }
  }

  lemma {:induction false} InsertSorted(cfg: SortConfig, x: Record, s: seq<Record>)
    requires SortedBy(cfg, s)
    ensures SortedBy(cfg, Insert(cfg, x, s))
    decreases |s|
  {
    if |s| == 0 {
    } else if Compare(cfg, x, s[0]) < 0 {
      InsertFrontPrecedes(cfg, x, s);
      SortedCons(cfg, x, s);
    } else {
      SortedSplit(cfg, s);
      InsertSorted(cfg, x, s[1..]);
      var tail := Insert(cfg, x, s[1..]);
      NotBelowPrecedes(cfg, x, s[0]);
      forall k | 0 <= k < |tail|
        ensures MayPrecede(cfg, s[0], tail[k])
      {
        assert tail[k] in tail;
        if tail[k] != x {
          var m :| 0 <= m < |s[1..]| && s[1..][m] == tail[k];
        }
      }
      SortedCons(cfg, s[0], tail);
    }
  }

  /** The sorted rows are a permutation of the input. */
  lemma {:induction false} SortRowsPermutes(cfg: SortConfig, rows: seq<Record>)
    ensures multiset(SortRows(cfg, rows)) == multiset(rows)
    ensures |SortRows(cfg, rows)| == |rows|
    decreases |rows|
  {
    if |rows| > 0 {
      var n := |rows| - 1;
      SortRowsPermutes(cfg, rows[..n]);
      InsertPermutes(cfg, rows[n], SortRows(cfg, rows[..n]));
      assert rows == rows[..n] + [rows[n]];
    }
    assert |multiset(SortRows(cfg, rows))| == |SortRows(cfg, rows)|;
  }

  /** In either direction every nullish row comes after every row with a
      value, and present values appear in the configured order. No claim is
      made about the order among nullish rows. */
  lemma {:induction false} SortRowsOrders(cfg: SortConfig, rows: seq<Record>)
    ensures SortedBy(cfg, SortRows(cfg, rows))
    ensures forall i, j :: 0 <= i < j < |SortRows(cfg, rows)| && IsNullish(Get(SortRows(cfg, rows)[i], cfg.key))
              ==> IsNullish(Get(SortRows(cfg, rows)[j], cfg.key))
    decreases |rows|
  {
    if |rows| > 0 {
      var n := |rows| - 1;
      SortRowsOrders(cfg, rows[..n]);
      InsertSorted(cfg, rows[n], SortRows(cfg, rows[..n]));
    }
    var s := SortRows(cfg, rows);
    forall i, j | 0 <= i < j < |s| && IsNullish(Get(s[i], cfg.key))
      ensures IsNullish(Get(s[j], cfg.key))
    {
      assert MayPrecede(cfg, s[i], s[j]);
    }
  }

  // ---------------------------------------------------------------------
  // Page state

  /** Everything the page keeps between renders. */
  datatype UiState = UiState(
    question: string,
    lastResult: Option<QueryResult>,
    error: Option<string>,
    sortConfig: Option<SortConfig>,
    isLoading: bool)

  const InitialState := UiState("", None, None, None, false)

  /** Clicking a sort header: the same key already ascending turns
      descending; anything else starts ascending on that key. */
  function HandleSort(st: UiState, key: string): (st': UiState)
    ensures st'.sortConfig.Some? && st'.sortConfig.value.key == key
    ensures st'.sortConfig.value.direction == Descending <==>
              st.sortConfig == Some(SortConfig(key, Ascending))
    ensures st' == st.(sortConfig := st'.sortConfig)
  {
    var direction :=
      if st.sortConfig.Some? && st.sortConfig.value.key == key && st.sortConfig.value.direction == Ascending
      then Descending else Ascending;
    st.(sortConfig := Some(SortConfig(key, direction)))
  }

  /** Clicking the same header repeatedly alternates between the two
      directions, starting from ascending unless it was ascending already. */
  lemma HandleSortAlternates(st: UiState, key: string)
    ensures HandleSort(HandleSort(st, key), key).sortConfig.value.direction
         != HandleSort(st, key).sortConfig.value.direction
    ensures HandleSort(HandleSort(HandleSort(st, key), key), key) == HandleSort(st, key)
  {
  }

  /** The rows the page displays: none without a result, the result's own
      order without a sort key, otherwise the comparator's order. */
  function SortedResults(st: UiState): (rows: seq<Record>)
    ensures st.lastResult.None? || st.lastResult.value.results.None? ==> rows == []
    ensures (st.lastResult.Some? && st.lastResult.value.results.Some? && st.sortConfig.None?)
            ==> rows == st.lastResult.value.results.value
  {
    if st.lastResult.None? || st.lastResult.value.results.None? then []
    else if st.sortConfig.None? then st.lastResult.value.results.value
    else SortRows(st.sortConfig.value, st.lastResult.value.results.value)
  }

  /** Whatever the sort state, the displayed rows are the result's rows
      rearranged, with nullish keys last and present keys in order. */
  lemma SortedResultsArePermutation(st: UiState)
    requires st.lastResult.Some? && st.lastResult.value.results.Some?
    ensures multiset(SortedResults(st)) == multiset(st.lastResult.value.results.value)
    ensures st.sortConfig.Some? ==> SortedBy(st.sortConfig.value, SortedResults(st))
  {
    if st.sortConfig.Some? {
      SortRowsPermutes(st.sortConfig.value, st.lastResult.value.results.value);
      SortRowsOrders(st.sortConfig.value, st.lastResult.value.results.value);
    }
  }

  // ---------------------------------------------------------------------
  // Submitting a question

  /** JavaScript's WhiteSpace and LineTerminator characters, which `trim`
      removes. */
  predicate IsJsSpace(c: char)
  {
    var n := c as int;
    || n == 0x09 || n == 0x0A || n == 0x0B || n == 0x0C || n == 0x0D || n == 0x20
    || n == 0xA0 || n == 0x1680 || (0x2000 <= n <= 0x200A) || n == 0x2028 || n == 0x2029
    || n == 0x202F || n == 0x205F || n == 0x3000 || n == 0xFEFF
  }

  /** Nothing but JavaScript white space. */
  predicate IsBlank(q: string)
  {
    AllIn(IsJsSpace, q)
  }

  /** `!question.trim()` holds exactly for blank questions: trimming leaves
      the empty string only when every character is white space. */
  lemma BlankIffTrimEmpty(q: string)
    ensures IsBlank(q) <==> Trim(IsJsSpace, q) == ""
  {
  }

  /** The body posted to the query API. */
  datatype Request = Request(question: string, previousSql: Option<string>)

  /** What the fetch produced: a response with its HTTP status and parsed
      body, or a thrown error (network failure, unparsable body). */
  datatype FetchOutcome = Responded(status: nat, data: QueryResult) | Threw(message: string)

  const UnexpectedError := "An unexpected error occurred."

  /** The start of the error thrown for a response that is not ok. */
  const StatusPrefix := "API request failed with status "

  /** `response.ok`: the status is in the 2xx range. */
  predicate Succeeded(outcome: FetchOutcome)
  {
    outcome.Responded? && 200 <= outcome.status <= 299
  }

  /** Decimal digits of a natural number, as a template literal prints it. */
  function DecimalString(n: nat): (s: string)
    ensures |s| > 0
    ensures forall i :: 0 <= i < |s| ==> '0' <= s[i] <= '9'
    ensures s[0] == '0' ==> n == 0 && |s| == 1
  {
    if n < 10 then [('0' as int + n) as char]
    else DecimalString(n / 10) + [('0' as int + n % 10) as char]
  }

  function DecimalValue(s: string): int
  {
    if |s| == 0 then 0 else DecimalValue(s[..|s| - 1]) * 10 + (s[|s| - 1] as int - '0' as int)
  }

  /** The status code can be read back from the error message's digits. */
  lemma {:induction false} DecimalRoundTrip(n: nat)
    ensures DecimalValue(DecimalString(n)) == n
  {
    if n >= 10 {
      DecimalRoundTrip(n / 10);
      var s := DecimalString(n);
      assert s[..|s| - 1] == DecimalString(n / 10);
    }
  }

  /** The request a submit would post, or None when the question is blank. */
  function SubmitRequest(st: UiState): (req: Option<Request>)
    ensures req.None? <==> IsBlank(st.question)
    ensures req.Some? ==> req.value.question == st.question
    ensures req.Some? ==> (req.value.previousSql.Some? <==> st.lastResult.Some?)
    ensures req.Some? && st.lastResult.Some? ==> req.value.previousSql.value == st.lastResult.value.sqlQuery
  {
    if IsBlank(st.question) then None
    else Some(Request(st.question, if st.lastResult.Some? then Some(st.lastResult.value.sqlQuery) else None))
  }

  /** The message shown when a submit fails. */
  function ErrorMessage(outcome: FetchOutcome): (m: string)
    requires !Succeeded(outcome)
    ensures |m| > 0
    ensures outcome.Responded? ==>
      && |m| > |StatusPrefix|
      && m[..|StatusPrefix|] == StatusPrefix
      && (forall i :: |StatusPrefix| <= i < |m| ==> '0' <= m[i] <= '9')
      && (m[|StatusPrefix|] == '0' ==> |m| == |StatusPrefix| + 1)
      && DecimalValue(m[|StatusPrefix|..]) == outcome.status
    ensures outcome.Threw? && outcome.message != "" ==> m == outcome.message
    ensures outcome.Threw? && outcome.message == "" ==> m == UnexpectedError
  {
    match outcome
    case Responded(status, _) =>
      DecimalRoundTrip(status);
      assert (StatusPrefix + DecimalString(status))[|StatusPrefix|..] == DecimalString(status);
      StatusPrefix + DecimalString(status)
    case Threw(message) => if message == "" then UnexpectedError else message
  }

  /** The state while the request is in flight. */
  function BeginSubmit(st: UiState): (st': UiState)
    ensures st'.isLoading && st'.error.None?
    ensures st' == st.(isLoading := true, error := None)
  {
    st.(isLoading := true, error := None)
  }

  /** The state once the fetch has settled. */
  function FinishSubmit(st: UiState, outcome: FetchOutcome): (st': UiState)
    ensures !st'.isLoading
    ensures Succeeded(outcome) ==>
      && st'.lastResult == Some(outcome.data)
      && st'.question == ""
      && st'.sortConfig.None?
      && st'.error == st.error
    ensures !Succeeded(outcome) ==>
      && st'.error == Some(ErrorMessage(outcome))
      && st'.lastResult == st.lastResult
      && st'.question == st.question
      && st'.sortConfig == st.sortConfig
  {
    var st1 :=
      if Succeeded(outcome)
      then st.(lastResult := Some(outcome.data), question := "", sortConfig := None)
      else st.(error := Some(ErrorMessage(outcome)));
    st1.(isLoading := false)
  }

  /** Submitting the form. A blank question changes nothing; otherwise the
      request is posted through `fetch`. Success stores the response and
      clears the question and the sort; failure records an error and keeps
      the previous result, question and sort. Loading ends in both cases. */
  function HandleSubmit(st: UiState, fetch: Request -> FetchOutcome): (st': UiState)
    ensures IsBlank(st.question) ==> st' == st
    ensures !IsBlank(st.question) ==> !st'.isLoading
    ensures !IsBlank(st.question) ==>
      var outcome := fetch(SubmitRequest(st).value);
      if outcome.Responded? && 200 <= outcome.status <= 299 then
        && st'.lastResult == Some(outcome.data)
        && st'.question == ""
        && st'.sortConfig.None?
        && st'.error.None?
      else
        && st'.error.Some? && |st'.error.value| > 0
        && st'.lastResult == st.lastResult
        && st'.question == st.question
        && st'.sortConfig == st.sortConfig
  {
    match SubmitRequest(st)
    case None => st
    case Some(req) => FinishSubmit(BeginSubmit(st), fetch(req))
  }

  /** A failed submit leaves the next submit's request unchanged, so retrying
      posts the same body; a successful one makes the next request a
      follow-up of the SQL just received. */
  lemma SubmitThenResubmit(st: UiState, fetch: Request -> FetchOutcome, next: string)
    requires !IsBlank(st.question) && !IsBlank(next)
    ensures
      var outcome := fetch(SubmitRequest(st).value);
      var st' := HandleSubmit(st, fetch);
      if outcome.Responded? && 200 <= outcome.status <= 299 then
        SubmitRequest(st'.(question := next)) == Some(Request(next, Some(outcome.data.sqlQuery)))
      else
        SubmitRequest(st') == SubmitRequest(st)
  {
  }

  /** A fresh result is shown in the order the API returned it. */
  lemma SubmitShowsResultUnsorted(st: UiState, fetch: Request -> FetchOutcome)
    requires !IsBlank(st.question)
    requires fetch(SubmitRequest(st).value).Responded?
    requires 200 <= fetch(SubmitRequest(st).value).status <= 299
    requires fetch(SubmitRequest(st).value).data.results.Some?
    ensures SortedResults(HandleSubmit(st, fetch)) == fetch(SubmitRequest(st).value).data.results.value
  {
  }

  /** `lastSuccessfulResult?.results`: what the visualisation is chosen for. */
  function DisplayedResults(st: UiState): Option<seq<Record>>
  {
    if st.lastResult.Some? then st.lastResult.value.results else None
  }

  /** The "new query" button: forget the result, the question, the error and
      the sort. */
  function HandleReset(st: UiState): (st': UiState)
    ensures st'.lastResult.None? && st'.question == "" && st'.error.None? && st'.sortConfig.None?
    ensures st'.isLoading == st.isLoading
  {
    st.(lastResult := None, question := "", error := None, sortConfig := None)
  }

  /** After a reset nothing is displayed and the next request starts a new
      conversation. */
  lemma ResetStartsOver(st: UiState, next: string)
    requires !IsBlank(next)
    ensures SortedResults(HandleReset(st)) == []
    ensures VisualizationType(DisplayedResults(HandleReset(st))) == TableView
    ensures SubmitRequest(HandleReset(st).(question := next)) == Some(Request(next, None))
  {
  }
}
