/**
 * Turning the tables found in a PDF into line items (`read_pdf`, first part).
 * Each table is a grid of cells; its first row is the header and is not
 * emitted. Every later row becomes a record mapping each stripped header cell
 * to the row's cell, stripped when it is a string. The records of all tables
 * are appended in table order.
 */
module TableRecords {
  import opened Wrappers
  import opened Text
  import opened Dicts

  /** A cell as the data frame holds it: a string, or a missing value (None / NaN). */
  datatype Cell = Str(s: string) | Null

  type Row = seq<Cell>
  type Table = seq<Row>

  /** A line item: stripped header text to cleaned cell, in column order. */
  type Record = Dict<string, Cell>

  /**
   * The exceptions the table step can raise: `df.iloc[0]` on a table without
   * rows (IndexError), and `k.strip()` on a header cell that is not a string
   * (AttributeError).
   */
  datatype LoadError = EmptyTable | HeaderNotText

  /** Python's `zip`: pairs up to the shorter length. */
  function Zip<A, B>(a: seq<A>, b: seq<B>): (r: seq<(A, B)>)
    ensures |r| == if |a| <= |b| then |a| else |b|
    ensures forall i :: 0 <= i < |r| ==> r[i] == (a[i], b[i])
  {
    seq(if |a| <= |b| then |a| else |b|, i requires 0 <= i < |a| && i < |b| => (a[i], b[i]))
  }

  /** `v.strip() if isinstance(v, str) else v`. */
  function CleanValue(v: Cell): (r: Cell)
    ensures r.Str? <==> v.Str?
    ensures r.Str? ==> IsTrimmed(r.s)
  {
    match v
    case Str(s) => Str(Trim(s))
    case Null => Null
  }

  /** No key and no string value of the record has surrounding whitespace. */
  predicate IsCleanRecord(rec: Record)
  {
    forall i :: 0 <= i < |rec| ==> IsTrimmed(rec[i].0) && (rec[i].1.Str? ==> IsTrimmed(rec[i].1.s))
  }

  /** Columns that take part in a row's record: those `zip(header, row)` reaches. */
  predicate InZip(header: Row, row: Row, j: int)
  {
    0 <= j < |header| && j < |row|
  }

  predicate HeaderIsText(header: Row, row: Row)
  {
    forall j :: 0 <= j < |header| && j < |row| ==> header[j].Str?
  }

  /** `dict(zip(header, row))`, the raw record `to_dict(orient="records")` builds for one body row. */
  function RawRecord(header: Row, row: Row): Dict<Cell, Cell>
  {
    FromPairs(Zip(header, row))
  }

  /** The items of the cleaning comprehension, in the raw record's order; every raw key is a string. */
  function CleanedItems(raw: Dict<Cell, Cell>): seq<(string, Cell)>
    requires forall i :: 0 <= i < |raw| ==> raw[i].0.Str?
  {
    seq(|raw|, i requires 0 <= i < |raw| => (Trim(raw[i].0.s), CleanValue(raw[i].1)))
  }

  /** The raw record has a non-string key exactly when some header cell that `zip` reaches is not a string. */
  lemma RawKeysAreText(header: Row, row: Row)
    ensures (forall i :: 0 <= i < |RawRecord(header, row)| ==> RawRecord(header, row)[i].0.Str?) <==> HeaderIsText(header, row)
  {
    var pairs := Zip(header, row);
    var raw := RawRecord(header, row);
    FromPairsItems(pairs);
    if forall i :: 0 <= i < |raw| ==> raw[i].0.Str? {
      forall j | InZip(header, row, j) ensures header[j].Str? {
        assert pairs[j].0 == header[j];
        assert HasKey(pairs, header[j]);
      }
    } else {
      var i :| 0 <= i < |raw| && !raw[i].0.Str?;
      assert raw[i] in pairs;
    }
  }

  /** `item` is the stripped header and the cleaned cell of some column that `zip` reaches. */
  ghost predicate FromColumn(header: Row, row: Row, item: (string, Cell))
  {
    exists j :: InZip(header, row, j) && header[j].Str? && item == (Trim(header[j].s), CleanValue(row[j]))
  }

  /** Every column's stripped header is a key of the cleaned record. */
  lemma CleanedRecordKeys(header: Row, row: Row)
    requires forall i :: 0 <= i < |RawRecord(header, row)| ==> RawRecord(header, row)[i].0.Str?
    ensures forall j :: InZip(header, row, j) && header[j].Str? ==>
      HasKey(FromPairs(CleanedItems(RawRecord(header, row))), Trim(header[j].s))
  {
    var pairs := Zip(header, row);
    var raw := RawRecord(header, row);
    var cleaned := CleanedItems(raw);
    FromPairsItems(pairs);
    FromPairsItems(cleaned);
    forall j | InZip(header, row, j) && header[j].Str? ensures HasKey(cleaned, Trim(header[j].s)) {
      assert pairs[j].0 == header[j];
      assert HasKey(pairs, header[j]);
      assert HasKey(raw, header[j]);
      var i :| 0 <= i < |raw| && raw[i].0 == header[j];
      assert cleaned[i].0 == Trim(header[j].s);
    }
  }

  /** A record built from columns is clean: `strip` leaves no surrounding whitespace. */
  lemma ColumnsGiveCleanRecord(header: Row, row: Row, rec: Record)
    requires forall i :: 0 <= i < |rec| ==> FromColumn(header, row, rec[i])
    ensures IsCleanRecord(rec)
  {
    forall i | 0 <= i < |rec| ensures IsTrimmed(rec[i].0) && (rec[i].1.Str? ==> IsTrimmed(rec[i].1.s)) {
      var j :| InZip(header, row, j) && header[j].Str? && rec[i] == (Trim(header[j].s), CleanValue(row[j]));
    }
  }

  /** Every item of the cleaned record comes from one column. */
  lemma CleanedRecordValues(header: Row, row: Row)
    requires forall i :: 0 <= i < |RawRecord(header, row)| ==> RawRecord(header, row)[i].0.Str?
    ensures forall i :: 0 <= i < |FromPairs(CleanedItems(RawRecord(header, row)))| ==>
      FromColumn(header, row, FromPairs(CleanedItems(RawRecord(header, row)))[i])
  {
    var pairs := Zip(header, row);
    var raw := RawRecord(header, row);
    var cleaned := CleanedItems(raw);
    var rec := FromPairs(cleaned);
    FromPairsItems(pairs);
    FromPairsItems(cleaned);
    forall i | 0 <= i < |rec| ensures FromColumn(header, row, rec[i]) {
      var i' :| 0 <= i' < |cleaned| && cleaned[i'] == rec[i];
      assert raw[i'] in pairs;
      var j :| 0 <= j < |pairs| && pairs[j] == raw[i'];
      assert InZip(header, row, j);
    }
  }

  /**
   * One body row: `r = dict(zip(header, row))` (what `to_dict(orient="records")`
   * builds), then `{k.strip(): (v.strip() if isinstance(v, str) else v) for k, v in r.items()}`.
   */
  function CleanRecord(header: Row, row: Row): (r: Result<Record, LoadError>)
    ensures r.Success? <==> HeaderIsText(header, row)
  {
    if HeaderIsText(header, row) then Success(CleanedRecord(header, row)) else Failure(HeaderNotText)
  }

  /** The comprehension's result once every raw key is known to be a string. */
  function CleanedRecord(header: Row, row: Row): Record
    requires HeaderIsText(header, row)
  {
    RawKeysAreText(header, row);
    FromPairs(CleanedItems(RawRecord(header, row)))
  }

  /**
   * A cleaned record lists each stripped header once, every item is the stripped header and the
   * cleaned cell of one column, and no key or string value has surrounding whitespace.
   */
  lemma CleanRecordContents(header: Row, row: Row)
    requires HeaderIsText(header, row)
    ensures CleanRecord(header, row).Success?
    ensures var rec := CleanRecord(header, row).value;
      && DistinctKeys(rec) && IsCleanRecord(rec)
      && (forall i :: 0 <= i < |rec| ==> FromColumn(header, row, rec[i]))
      && (forall j :: InZip(header, row, j) ==> HasKey(rec, Trim(header[j].s)))
  {
    RawKeysAreText(header, row);
    CleanedRecordKeys(header, row);
    CleanedRecordValues(header, row);
    ColumnsGiveCleanRecord(header, row, CleanedRecord(header, row));
    FromPairsItems(CleanedItems(RawRecord(header, row)));
  }

  /** The header cells that `zip` reaches are pairwise different, so `dict(zip(header, row))` drops no column. */
  ghost predicate DistinctRawHeaders(header: Row, row: Row)
  {
    forall a, b :: InZip(header, row, a) && InZip(header, row, b) && a < b ==> header[a] != header[b]
  }

  /**
   * When two header cells differ only in surrounding whitespace, the record keeps the value of the
   * later column: for each column whose stripped header no later column shares, the record maps that
   * stripped header to this column's cleaned cell.
   */
  lemma LaterColumnWins(header: Row, row: Row, j: nat)
    requires DistinctRawHeaders(header, row) && HeaderIsText(header, row) && InZip(header, row, j)
    requires forall j' :: j < j' && InZip(header, row, j') ==> Trim(header[j'].s) != Trim(header[j].s)
    ensures CleanRecord(header, row).Success?
    ensures Get(CleanRecord(header, row).value, Trim(header[j].s)) == Some(CleanValue(row[j]))
  {
    RawRecordOfDistinct(header, row);
    RawKeysAreText(header, row);
    var cleaned := CleanedItems(RawRecord(header, row));
    forall j' | j <= j' < |cleaned| ensures cleaned[j'] == (Trim(header[j'].s), CleanValue(row[j'])) {
    }
    FromPairsLastWins(cleaned, j);
  }

  /**
   * Without distinct raw headers the later column need not win: `dict(zip(...))` keeps the first
   * position and the last value of each raw header, and the comprehension then overwrites in that
   * order. Headers "A", " A", "A" over cells "1", "2", "3" give the raw dict {"A": "3", " A": "2"},
   * whose cleaned items ("A", "3") then ("A", "2") leave the middle column's value.
   */
  lemma RepeatedRawHeaderKeepsMiddle()
    ensures CleanRecord([Str("A"), Str(" A"), Str("A")], [Str("1"), Str("2"), Str("3")])
      == Success([("A", Str("2"))])
  {
    var header := [Str("A"), Str(" A"), Str("A")];
    var row := [Str("1"), Str("2"), Str("3")];
    RepeatedRawHeaderRaw();
    var raw := RawRecord(header, row);
    RepeatedRawHeaderCleaned(raw);
    var cleaned := CleanedItems(raw);
    assert cleaned[..1] == [("A", Str("3"))];
    assert FromPairs(cleaned[..1]) == [("A", Str("3"))];
    assert FromPairs(cleaned) == [("A", Str("2"))];
    assert HeaderIsText(header, row);
    assert CleanedRecord(header, row) == FromPairs(cleaned);
  }

  /** The raw dict of the example above: first positions, last values. */
  lemma RepeatedRawHeaderRaw()
    ensures RawRecord([Str("A"), Str(" A"), Str("A")], [Str("1"), Str("2"), Str("3")])
      == [(Str("A"), Str("3")), (Str(" A"), Str("2"))]
  {
    var pairs := Zip([Str("A"), Str(" A"), Str("A")], [Str("1"), Str("2"), Str("3")]);
    assert pairs == [(Str("A"), Str("1")), (Str(" A"), Str("2")), (Str("A"), Str("3"))];
    assert pairs[..1] == [(Str("A"), Str("1"))];
    assert pairs[..2] == [(Str("A"), Str("1")), (Str(" A"), Str("2"))];
    assert FromPairs(pairs[..1]) == [(Str("A"), Str("1"))];
    assert FromPairs(pairs[..2]) == [(Str("A"), Str("1")), (Str(" A"), Str("2"))];
  }

  /** Both raw keys of the example strip to "A". */
  lemma RepeatedRawHeaderCleaned(raw: Dict<Cell, Cell>)
    requires raw == [(Str("A"), Str("3")), (Str(" A"), Str("2"))]
    ensures CleanedItems(raw) == [("A", Str("3")), ("A", Str("2"))]
  {
    assert Trim("A") == "A";
    assert Trim(" A") == "A" by {
      assert TrimLeft(" A") == TrimLeft(" A"[1..]);
      assert " A"[1..] == "A";
    }
    assert Trim("2") == "2";
    assert Trim("3") == "3";
  }

  /** With pairwise different header cells, `dict(zip(header, row))` is the zip itself. */
  lemma RawRecordOfDistinct(header: Row, row: Row)
    requires DistinctRawHeaders(header, row)
    ensures RawRecord(header, row) == Zip(header, row)
  {
    var pairs := Zip(header, row);
    assert DistinctKeys(pairs);
    FromDistinctPairs(pairs);
  }

  /** Every body row reaches only string header cells. */
  predicate BodyIsText(header: Row, body: seq<Row>)
  {
    forall i :: 0 <= i < |body| ==> HeaderIsText(header, body[i])
  }

  /** The records of a table's body rows, in row order; the first row that reaches a non-string header cell raises. */
  function BodyRecords(header: Row, body: seq<Row>): (r: Result<seq<Record>, LoadError>)
    ensures r.Success? ==> |r.value| == |body|
  {
    if body == [] then Success([])
    else
      match BodyRecords(header, body[..|body| - 1])
      case Failure(e) => Failure(e)
      case Success(records) =>
        match CleanRecord(header, body[|body| - 1])
        case Failure(e) => Failure(e)
        case Success(rec) => Success(records + [rec])
  }

  /** The body rows yield records exactly when every one of them reaches only string header cells. */
  lemma {:induction false} BodyRecordsSucceed(header: Row, body: seq<Row>)
    ensures BodyRecords(header, body).Success? <==> BodyIsText(header, body)
  {
    if body != [] {
      var init := body[..|body| - 1];
      BodyRecordsSucceed(header, init);
      assert forall i :: 0 <= i < |init| ==> init[i] == body[i];
    }
  }

  /** Record k of a loaded body is body row k cleaned against the header. */
  lemma {:induction false} BodyRecordsAt(header: Row, body: seq<Row>, k: nat)
    requires BodyRecords(header, body).Success? && k < |body|
    ensures CleanRecord(header, body[k]) == Success(BodyRecords(header, body).value[k])
  {
    var init := body[..|body| - 1];
    if k < |init| {
      assert init[k] == body[k];
      BodyRecordsAt(header, init, k);
    }
  }

  /** One table: `df.columns = df.iloc[0]; df = df[1:]`, then one record per remaining row. */
  function TableRecords(table: Table): Result<seq<Record>, LoadError>
  {
    if table == [] then Failure(EmptyTable) else BodyRecords(table[0], table[1..])
  }

  /** `line_items`: the records of every table, table after table. */
  function LineItems(tables: seq<Table>): Result<seq<Record>, LoadError>
  {
    if tables == [] then Success([])
    else
      match LineItems(tables[..|tables| - 1])
      case Failure(e) => Failure(e)
      case Success(items) =>
        match TableRecords(tables[|tables| - 1])
        case Failure(e) => Failure(e)
        case Success(records) => Success(items + records)
  }

  /** Once a prefix of the body rows fails, the whole body fails the same way. */
  lemma {:induction false} BodyFailurePersists(header: Row, body: seq<Row>, n: nat)
    requires n <= |body| && BodyRecords(header, body[..n]).Failure?
    ensures BodyRecords(header, body) == BodyRecords(header, body[..n])
  {
    if n < |body| {
      assert body[..|body| - 1][..n] == body[..n];
      BodyFailurePersists(header, body[..|body| - 1], n);
    } else {
      assert body[..n] == body;
    }
  }

  /** Once a prefix of the tables fails, the whole list fails the same way. */
  lemma {:induction false} TablesFailurePersist(tables: seq<Table>, n: nat)
    requires n <= |tables| && LineItems(tables[..n]).Failure?
    ensures LineItems(tables) == LineItems(tables[..n])
  {
    if n < |tables| {
      assert tables[..|tables| - 1][..n] == tables[..n];
      TablesFailurePersist(tables[..|tables| - 1], n);
    } else {
      assert tables[..n] == tables;
    }
  }

  /** Appending one more body row to a prefix that succeeded. */
  lemma BodyRecordsStep(header: Row, body: seq<Row>, i: nat)
    requires i < |body| && BodyRecords(header, body[..i]).Success?
    ensures BodyRecords(header, body[..i + 1]) ==
      match CleanRecord(header, body[i])
      case Failure(e) => Failure(e)
      case Success(rec) => Success(BodyRecords(header, body[..i]).value + [rec])
  {
    assert body[..i + 1][..i] == body[..i];
  }

  /** Appending one more table to a prefix that succeeded. */
  lemma LineItemsStep(tables: seq<Table>, t: nat)
    requires t < |tables| && LineItems(tables[..t]).Success?
    ensures LineItems(tables[..t + 1]) ==
      match TableRecords(tables[t])
      case Failure(e) => Failure(e)
      case Success(records) => Success(LineItems(tables[..t]).value + records)
  {
    assert tables[..t + 1][..t] == tables[..t];
  }

  /** The inner loop of `read_pdf`: clean each body row of one table and append it to `line_items`. */
  method AppendBodyRecords(header: Row, body: seq<Row>, lineItems: seq<Record>) returns (r: Result<seq<Record>, LoadError>)
    ensures BodyRecords(header, body).Success? ==> r == Success(lineItems + BodyRecords(header, body).value)
    ensures BodyRecords(header, body).Failure? ==> r == Failure(BodyRecords(header, body).error)
  {
    var items := lineItems;
    ghost var records: seq<Record> := [];
    var i := 0;
    while i < |body|
      invariant i <= |body|
      invariant items == lineItems + records
      invariant BodyRecords(header, body[..i]) == Success(records)
    {
      var cleaned := CleanRecord(header, body[i]);
      BodyRecordsStep(header, body, i);
      if cleaned.Failure? {
        BodyFailurePersists(header, body, i + 1);
        return Failure(cleaned.error);
      }
      items := items + [cleaned.value];
      records := records + [cleaned.value];
      i := i + 1;
    }
    assert body[..i] == body;
    r := Success(items);
  }

  /** The loop of `read_pdf` over the tables: take the first row as the header and append the records of the rest. */
  method CollectLineItems(tables: seq<Table>) returns (r: Result<seq<Record>, LoadError>)
    ensures r == LineItems(tables)
  {
    var lineItems: seq<Record> := [];
    var t := 0;
    while t < |tables|
      invariant t <= |tables|
      invariant LineItems(tables[..t]) == Success(lineItems)
    {
      var table := tables[t];
      LineItemsStep(tables, t);
      if table == [] {
        TablesFailurePersist(tables, t + 1);
        return Failure(EmptyTable);
      }
      var appended := AppendBodyRecords(table[0], table[1..], lineItems);
      if appended.Failure? {
        TablesFailurePersist(tables, t + 1);
        return Failure(appended.error);
      }
      lineItems := appended.value;
      t := t + 1;
    }
    assert tables[..t] == tables;
    r := Success(lineItems);
  }

  /** A table loads when it has a header row and that header has only strings where its body rows reach. */
  ghost predicate TableLoads(table: Table)
  {
    table != [] && BodyIsText(table[0], table[1..])
  }

  /** The number of body rows, Σ (rows − 1), over tables that have a header row. */
  function BodyRowCount(tables: seq<Table>): nat
  {
    if tables == [] then 0
    else
      var last := tables[|tables| - 1];
      BodyRowCount(tables[..|tables| - 1]) + if last == [] then 0 else |last| - 1
  }

  /** `line_items` is produced exactly when every table loads. */
  lemma {:induction false} LineItemsSucceed(tables: seq<Table>)
    ensures LineItems(tables).Success? <==> forall t :: 0 <= t < |tables| ==> TableLoads(tables[t])
  {
    if tables != [] {
      var init := tables[..|tables| - 1];
      var last := tables[|tables| - 1];
      LineItemsSucceed(init);
      assert forall t :: 0 <= t < |init| ==> init[t] == tables[t];
      if last != [] {
        BodyRecordsSucceed(last[0], last[1..]);
      }
    }
  }

  /** Each table with n ≥ 1 rows contributes n − 1 records: |line_items| = Σ (rows − 1). */
  lemma {:induction false} LineItemsCount(tables: seq<Table>)
    requires LineItems(tables).Success?
    ensures |LineItems(tables).value| == BodyRowCount(tables)
  {
    if tables != [] {
      LineItemsCount(tables[..|tables| - 1]);
    }
  }

  /** Once `line_items` is produced, every table produced its records. */
  lemma {:induction false} LineItemsTableLoads(tables: seq<Table>, t: nat)
    requires LineItems(tables).Success? && t < |tables|
    ensures TableRecords(tables[t]).Success?
  {
    var init := tables[..|tables| - 1];
    if t < |tables| - 1 {
      assert init[t] == tables[t];
      LineItemsTableLoads(init, t);
    }
  }

  /** The records of table t follow those of the tables before it, in their own order. */
  lemma {:induction false} LineItemsConcat(tables: seq<Table>, t: nat, k: nat)
    requires LineItems(tables).Success? && t < |tables|
    requires TableRecords(tables[t]).Success? && k < |TableRecords(tables[t]).value|
    ensures BodyRowCount(tables[..t]) + k < |LineItems(tables).value|
    ensures LineItems(tables).value[BodyRowCount(tables[..t]) + k] == TableRecords(tables[t]).value[k]
  {
    var init := tables[..|tables| - 1];
    var items := LineItems(init).value;
    var records := TableRecords(tables[|tables| - 1]).value;
    assert LineItems(tables).value == items + records;
    LineItemsCount(init);
    if t < |tables| - 1 {
      assert init[..t] == tables[..t] && init[t] == tables[t];
      LineItemsConcat(init, t, k);
      assert (items + records)[BodyRowCount(tables[..t]) + k] == items[BodyRowCount(tables[..t]) + k];
    } else {
      assert tables[..t] == init;
      assert (items + records)[|items| + k] == records[k];
    }
  }

  /**
   * `line_items` is the tables' body rows in table order, row order kept: row i ≥ 1 of table t is the
   * record at position (body rows of the tables before t) + i − 1, cleaned against table t's header.
   */
  lemma LineItemsAt(tables: seq<Table>, t: nat, i: nat)
    requires LineItems(tables).Success?
    requires t < |tables| && 1 <= i < |tables[t]|
    ensures BodyRowCount(tables[..t]) + i - 1 < |LineItems(tables).value|
    ensures CleanRecord(tables[t][0], tables[t][i]) == Success(LineItems(tables).value[BodyRowCount(tables[..t]) + i - 1])
  {
    LineItemsTableLoads(tables, t);
    TableRecordAt(tables[t], i);
    LineItemsConcat(tables, t, i - 1);
  }

  /** Row i ≥ 1 of a table that loads gives its record i − 1. */
  lemma TableRecordAt(table: Table, i: nat)
    requires TableRecords(table).Success? && 1 <= i < |table|
    ensures i - 1 < |TableRecords(table).value|
    ensures CleanRecord(table[0], table[i]) == Success(TableRecords(table).value[i - 1])
  {
    BodyRecordsAt(table[0], table[1..], i - 1);
    assert table[1..][i - 1] == table[i];
  }

  /** Every line item has distinct keys, and no key or string value with surrounding whitespace. */
  lemma {:induction false} LineItemsAreClean(tables: seq<Table>)
    requires LineItems(tables).Success?
    ensures forall k :: 0 <= k < |LineItems(tables).value| ==>
      DistinctKeys(LineItems(tables).value[k]) && IsCleanRecord(LineItems(tables).value[k])
  {
    if tables != [] {
      var init := tables[..|tables| - 1];
      var last := tables[|tables| - 1];
      LineItemsAreClean(init);
      var records := TableRecords(last).value;
      forall i | 0 <= i < |records| ensures DistinctKeys(records[i]) && IsCleanRecord(records[i]) {
        BodyRecordsAt(last[0], last[1..], i);
        CleanRecordContents(last[0], last[1..][i]);
      }
    }
  }
}
