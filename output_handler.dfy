/** OutputHandler: buffers decoded result rows and hands them to the output printer
    in batches, by row count and by elapsed time. */
module Cli {
  import opened Wrappers
  import opened JavaLang
  import opened Entries
  import opened Client

  /** A result cell as the client receives it. */
  datatype Cell = NullCell | LongCell(long: int64) | TextCell(text: string)

  type Row = seq<Cell>

  /** One page of the statement client: its rows (None when the page carries no data),
      its columns, the clock reading in nanoseconds while its rows are processed, and
      the reading taken by the elapsed-time check after them. */
  datatype Page = Page(data: Option<seq<Row>>, columns: seq<Column>, now: int, checkedAt: int)

  /** A call made on the OutputPrinter. */
  datatype PrinterCall = PrintRows(rows: seq<Row>, complete: bool) | Finish

  const MAX_BUFFERED_ROWS: nat := 10_000

  /** MAX_BUFFER_TIME, three seconds, in nanoseconds. */
  const MAX_BUFFER_TIME_NANOS: int := 3_000_000_000

  function Min(a: int, b: int): int
  {
    if a < b then a else b
  }

  /** The enum entries of a column: present when it has type metadata holding enum entries. */
  function EnumEntriesOf(column: Column): Option<EntryMap<int64>>
  {
    if column.typeMetadata.Some? && column.typeMetadata.value.enumEntries.Some?
    then column.typeMetadata.value.enumEntries
    else None
  }

  /** The key of the first entry whose value equals the cell. */
  function KeyOfCell(es: seq<Entry<int64>>, cell: Cell): Option<string>
  {
    if cell.LongCell? then FirstKeyOf(es, cell.long) else None
  }

  /** The per-cell step of processRow: an enum cell becomes "<type>.<key>" for the first
      key whose value it holds, and fails as Optional.get does when no key holds it;
      any other cell passes unchanged. */
  function DecodeCell(value: Cell, column: Column): (r: Result<Cell, Throwable>)
    ensures EnumEntriesOf(column).None? ==> r == Success(value)
    ensures EnumEntriesOf(column).Some? ==>
      && (r.Success? <==> value.LongCell? && IsValue(EnumEntriesOf(column).value, value.long))
      && (r.Failure? ==> r.error == NoSuchElementException("No value present"))
  {
    match EnumEntriesOf(column)
    case None => Success(value)
    case Some(entries) =>
      match KeyOfCell(entries, value)
      case Some(key) => Success(TextCell(column.typeName + "." + key))
      case None => Failure(NoSuchElementException("No value present"))
  }

  /** A decoded enum cell names the type and the first key holding the cell's value. */
  lemma DecodeCellFirstKey(value: Cell, column: Column)
    requires EnumEntriesOf(column).Some? && DecodeCell(value, column).Success?
    ensures var es := EnumEntriesOf(column).value;
      exists i :: 0 <= i < |es| && es[i].value == value.long
        && (forall j :: 0 <= j < i ==> es[j].value != value.long)
        && DecodeCell(value, column).value == TextCell(column.typeName + "." + es[i].key)
  {
  }

  /** processRow's decoding: cells and columns zipped by position, each cell decoded;
      the first cell that fails fails the row. */
  function DecodeRow(row: Row, columns: seq<Column>): (r: Result<Row, Throwable>)
    ensures r.Success? ==> |r.value| == Min(|row|, |columns|)
    ensures r.Failure? ==> r.error == NoSuchElementException("No value present")
    decreases |row|
  {
    if row == [] || columns == [] then Success([])
    else
      match DecodeCell(row[0], columns[0])
      case Failure(e) => Failure(e)
      case Success(cell) =>
        match DecodeRow(row[1..], columns[1..])
        case Failure(e) => Failure(e)
        case Success(cells) => Success([cell] + cells)
  }

  /** A row decodes exactly when every cell that has a column decodes, and then to the
      decoded cells in order. */
  lemma {:induction false} DecodeRowZips(row: Row, columns: seq<Column>)
    ensures var r := DecodeRow(row, columns);
      && (r.Success? <==>
            forall i :: 0 <= i < Min(|row|, |columns|) ==> DecodeCell(row[i], columns[i]).Success?)
      && (r.Success? ==>
            && |r.value| == Min(|row|, |columns|)
            && forall i :: 0 <= i < |r.value| ==> DecodeCell(row[i], columns[i]) == Success(r.value[i]))
    decreases |row|
  {
    if row != [] && columns != [] && DecodeCell(row[0], columns[0]).Success? {
      DecodeRowZips(row[1..], columns[1..]);
      assert forall i :: 1 <= i < Min(|row|, |columns|) ==>
        row[1..][i - 1] == row[i] && columns[1..][i - 1] == columns[i];
    }
  }

  /** A row that fails carries the failure of its first cell that does not decode. */
  lemma {:induction false} DecodeRowFirstFailure(row: Row, columns: seq<Column>)
    requires DecodeRow(row, columns).Failure?
    ensures
      exists i :: 0 <= i < Min(|row|, |columns|)
        && DecodeCell(row[i], columns[i]) == Failure(DecodeRow(row, columns).error)
        && forall j :: 0 <= j < i ==> DecodeCell(row[j], columns[j]).Success?
    decreases |row|
  {
    var e := DecodeRow(row, columns).error;
    if DecodeCell(row[0], columns[0]).Failure? {
      assert DecodeCell(row[0], columns[0]) == Failure(e);
    } else {
      var cells, cols := row[1..], columns[1..];
      assert DecodeRow(cells, cols) == Failure(e);
      DecodeRowFirstFailure(cells, cols);
      var k :| 0 <= k < Min(|cells|, |cols|)
               && DecodeCell(cells[k], cols[k]) == Failure(e)
               && forall j :: 0 <= j < k ==> DecodeCell(cells[j], cols[j]).Success?;
      assert cells[k] == row[k + 1] && cols[k] == columns[k + 1];
      assert forall j :: 1 <= j < k + 1 ==> cells[j - 1] == row[j] && cols[j - 1] == columns[j];
    }
  }

  /** The key a decoded enum cell names maps back to the cell's value. */
  lemma DecodedCellMapsBack(value: Cell, column: Column)
    requires EnumEntriesOf(column).Some? && DecodeCell(value, column).Success?
    ensures exists k :: Get(EnumEntriesOf(column).value, k) == Some(value.long)
                     && DecodeCell(value, column) == Success(TextCell(column.typeName + "." + k))
  {
    var es := EnumEntriesOf(column).value;
    var k := FirstKeyOf(es, value.long).value;
    ValueKeyRoundTrip(es, value.long);
    assert Get(es, k) == Some(value.long);
  }

  /** When no two keys share a value, the value of a key decodes to that key. */
  lemma KeyValueDecodesToKey(column: Column, key: string)
    requires EnumEntriesOf(column).Some?
    requires DistinctValues(EnumEntriesOf(column).value)
    requires IsKey(EnumEntriesOf(column).value, key)
    ensures DecodeCell(LongCell(Get(EnumEntriesOf(column).value, key).value), column)
            == Success(TextCell(column.typeName + "." + key))
  {
    KeyValueRoundTrip(EnumEntriesOf(column).value, key);
  }

  /** A row whose columns carry no enum entries decodes to itself, cut to the columns. */
  lemma PlainRowUnchanged(row: Row, columns: seq<Column>)
    requires forall i :: 0 <= i < |columns| ==> EnumEntriesOf(columns[i]).None?
    ensures DecodeRow(row, columns) == Success(row[..Min(|row|, |columns|)])
  {
    DecodeRowZips(row, columns);
    var r := DecodeRow(row, columns).value;
    assert r == row[..Min(|row|, |columns|)];
  }

  /** An enum Mood with HAPPY = 0 and SAD = 1: the value 1 prints as Mood.SAD, and 2,
      which no key holds, fails the row. */
  lemma MoodExample()
    ensures var mood := Column("mood", "Mood", None,
                               Some(TypeMetadata(None, Some([Entry("HAPPY", 0), Entry("SAD", 1)]))));
      && DecodeRow([LongCell(1)], [mood]) == Success([TextCell("Mood.SAD")])
      && DecodeRow([LongCell(2)], [mood]) == Failure(NoSuchElementException("No value present"))
  {
    var es: EntryMap<int64> := [Entry("HAPPY", 0), Entry("SAD", 1)];
    var mood := Column("mood", "Mood", None, Some(TypeMetadata(None, Some(es))));
    assert es[1..] == [Entry("SAD", 1)];
    assert FirstKeyOf(es, 1) == Some("SAD");
    assert EnumEntriesOf(mood) == Some(es);
    assert KeyOfCell(es, LongCell(1)) == Some("SAD");
    assert "Mood" + "." + "SAD" == "Mood.SAD";
    assert DecodeCell(LongCell(1), mood) == Success(TextCell("Mood.SAD"));
    assert [LongCell(1)][1..] == [] && [mood][1..] == [];
    assert DecodeRow([], []) == Success([]);
    assert DecodeRow([LongCell(1)], [mood]) == Success([TextCell("Mood.SAD")] + []);
    assert [TextCell("Mood.SAD")] + [] == [TextCell("Mood.SAD")];
    assert !IsValue(es, 2) by {
      assert forall i :: 0 <= i < |es| ==> es[i].value != 2;
    }
  }

  /** What happened to a run of rows: the rows decoded, in order, up to the first
      row that failed, and that row's failure. */
  datatype Progress = Progress(rows: seq<Row>, failure: Option<Throwable>)

  /** Decoding rows one after the other, stopping at the first that fails. */
  function DecodeRows(rows: seq<Row>, columns: seq<Column>): (r: Progress)
    ensures |r.rows| <= |rows|
    ensures r.failure.None? ==> |r.rows| == |rows|
    ensures r.failure.Some? ==> r.failure.value == NoSuchElementException("No value present")
    decreases |rows|
  {
    if rows == [] then Progress([], None)
    else
      var before := DecodeRows(rows[..|rows| - 1], columns);
      if before.failure.Some? then before
      else
        match DecodeRow(rows[|rows| - 1], columns)
        case Success(decoded) => Progress(before.rows + [decoded], None)
        case Failure(e) => Progress(before.rows, Some(e))
  }

  /** The rows decoded are the decoded forms of a prefix of the input, all of it unless
      a row failed; a failure is that of the row right after the prefix. */
  lemma {:induction false} DecodeRowsPrefix(rows: seq<Row>, columns: seq<Column>)
    ensures var p := DecodeRows(rows, columns);
      && |p.rows| <= |rows|
      && (p.failure.None? ==> |p.rows| == |rows|)
      && (forall i :: 0 <= i < |p.rows| ==> DecodeRow(rows[i], columns) == Success(p.rows[i]))
      && (p.failure.Some? ==>
            |p.rows| < |rows| && DecodeRow(rows[|p.rows|], columns) == Failure(p.failure.value))
    decreases |rows|
  {
    if rows != [] {
      var init := rows[..|rows| - 1];
      DecodeRowsPrefix(init, columns);
      assert forall i :: 0 <= i < |init| ==> init[i] == rows[i];
    }
  }

  /** The rows of a page; a page without data has none. */
  function PageRows(page: Page): seq<Row>
  {
    if page.data.Some? then page.data.value else []
  }

  /** Decoding the rows of every page, page after page, stopping at the first row
      that fails. */
  function DecodePages(pages: seq<Page>): (r: Progress)
    ensures r.failure.Some? ==> r.failure.value == NoSuchElementException("No value present")
    decreases |pages|
  {
    if pages == [] then Progress([], None)
    else
      var p := DecodeRows(PageRows(pages[0]), pages[0].columns);
      if p.failure.Some? then p
      else
        var rest := DecodePages(pages[1..]);
        Progress(p.rows + rest.rows, rest.failure)
  }

  /** Once a row has failed, later rows change nothing. */
  lemma {:induction false} DecodeRowsStopsAtFailure(rows: seq<Row>, columns: seq<Column>, k: nat)
    requires k <= |rows|
    requires DecodeRows(rows[..k], columns).failure.Some?
    ensures DecodeRows(rows, columns) == DecodeRows(rows[..k], columns)
    decreases |rows| - k
  {
    if k < |rows| {
      var init := rows[..|rows| - 1];
      assert init[..k] == rows[..k];
      DecodeRowsStopsAtFailure(init, columns, k);
    } else {
      assert rows[..k] == rows;
    }
  }

  /** Once a row of some page has failed, later pages change nothing. */
  lemma {:induction false} DecodePagesStopsAtFailure(pages: seq<Page>, more: seq<Page>)
    requires DecodePages(pages).failure.Some?
    ensures DecodePages(pages + more) == DecodePages(pages)
    decreases |pages|
  {
    var all := pages + more;
    assert all[0] == pages[0];
    if DecodeRows(PageRows(pages[0]), pages[0].columns).failure.None? {
      assert all[1..] == pages[1..] + more;
      DecodePagesStopsAtFailure(pages[1..], more);
    }
  }

  /** All rows handed to the printer, batch after batch. */
  function Printed(calls: seq<PrinterCall>): seq<Row>
    decreases |calls|
  {
    if calls == [] then []
    else
      Printed(calls[..|calls| - 1]) +
      match calls[|calls| - 1]
      case PrintRows(rows, _) => rows
      case Finish => []
  }

  /** How many times finish() was called. */
  function FinishCount(calls: seq<PrinterCall>): nat
    decreases |calls|
  {
    if calls == [] then 0
    else FinishCount(calls[..|calls| - 1]) + (if calls[|calls| - 1].Finish? then 1 else 0)
  }

  /** Every batch is non-empty and no larger than the buffer. */
  ghost predicate BatchesBounded(calls: seq<PrinterCall>)
    decreases |calls|
  {
    calls == [] ||
    (&& BatchesBounded(calls[..|calls| - 1])
     && (calls[|calls| - 1].PrintRows? ==> 0 < |calls[|calls| - 1].rows| <= MAX_BUFFERED_ROWS))
  }

  /** The printer calls flush(complete) makes: one printRows of the whole buffer, or
      none when the buffer is empty. */
  function FlushCalls(buffer: seq<Row>, complete: bool): seq<PrinterCall>
  {
    if buffer == [] then [] else [PrintRows(buffer, complete)]
  }

  /** Every call is a printRows that is not complete. */
  ghost predicate AllNonFinal(calls: seq<PrinterCall>)
    decreases |calls|
  {
    calls == [] ||
    (AllNonFinal(calls[..|calls| - 1]) && calls[|calls| - 1].PrintRows? && !calls[|calls| - 1].complete)
  }

  lemma {:induction false} AllNonFinalConcat(xs: seq<PrinterCall>, ys: seq<PrinterCall>)
    requires AllNonFinal(xs) && AllNonFinal(ys)
    ensures AllNonFinal(xs + ys)
    decreases |ys|
  {
    if ys == [] {
      assert xs + ys == xs;
    } else {
      var init := ys[..|ys| - 1];
      AllNonFinalConcat(xs, init);
      assert (xs + ys)[..|xs + ys| - 1] == xs + init;
    }
  }

  /** `after` extends `before` by printRows calls that are not complete. */
  ghost predicate NonFinalBatchesAppended(before: seq<PrinterCall>, after: seq<PrinterCall>)
  {
    && |before| <= |after|
    && after[..|before|] == before
    && AllNonFinal(after[|before|..])
  }

  lemma NonFinalBatchesAppendedOne(calls: seq<PrinterCall>, rows: seq<Row>)
    ensures NonFinalBatchesAppended(calls, calls)
    ensures NonFinalBatchesAppended(calls, calls + [PrintRows(rows, false)])
  {
    assert calls[|calls|..] == [];
    var after := calls + [PrintRows(rows, false)];
    assert after[|calls|..] == [PrintRows(rows, false)];
    assert after[..|calls|] == calls;
    assert [PrintRows(rows, false)][..0] == [];
  }

  lemma NonFinalBatchesAppendedTrans(a: seq<PrinterCall>, b: seq<PrinterCall>, c: seq<PrinterCall>)
    requires NonFinalBatchesAppended(a, b)
    requires b == c || NonFinalBatchesAppended(b, c)
    ensures NonFinalBatchesAppended(a, c)
  {
    if b != c {
      AllNonFinalConcat(b[|a|..], c[|b|..]);
      assert c[|a|..] == b[|a|..] + c[|b|..];
      assert c[..|a|] == b[..|b|][..|a|];
    }
  }

  lemma PrintedAppend(calls: seq<PrinterCall>, call: PrinterCall)
    ensures Printed(calls + [call]) == Printed(calls) + (if call.PrintRows? then call.rows else [])
    ensures FinishCount(calls + [call]) == FinishCount(calls) + (if call.Finish? then 1 else 0)
    ensures BatchesBounded(calls + [call]) <==>
      BatchesBounded(calls) && (call.PrintRows? ==> 0 < |call.rows| <= MAX_BUFFERED_ROWS)
  {
    assert (calls + [call])[..|calls|] == calls;
  }

  /** What the printer and the clock see of a handler: its buffer, the calls made on the
      printer so far and the buffer's start time. */
  datatype HandlerState = HandlerState(buffer: seq<Row>, calls: seq<PrinterCall>, start: int)

  /** processRow's first step: an empty buffer starts its clock at `now`. */
  function Touch(s: HandlerState, now: int): HandlerState
  {
    if s.buffer == [] then s.(start := now) else s
  }

  /** flush(complete) on a state. */
  function Flushed(s: HandlerState, complete: bool): HandlerState
  {
    s.(buffer := [], calls := s.calls + FlushCalls(s.buffer, complete))
  }

  /** processRow's last step: the decoded row is appended and a buffer that has reached
      MAX_BUFFERED_ROWS is flushed, not complete. */
  function Append(s: HandlerState, row: Row): HandlerState
  {
    var full := s.buffer + [row];
    if |full| >= MAX_BUFFERED_ROWS then Flushed(s.(buffer := full), false) else s.(buffer := full)
  }

  /** The state after processRow has taken decoded rows one after the other at clock `now`. */
  function AfterRows(s: HandlerState, rows: seq<Row>, now: int): HandlerState
    decreases |rows|
  {
    if rows == [] then s
    else Append(Touch(AfterRows(s, rows[..|rows| - 1], now), now), rows[|rows| - 1])
  }

  /** The state after the inner loop of processRows: the rows that decoded, then, when a
      row failed, that row's call, which may start the clock but appends nothing. */
  function RowsState(s: HandlerState, p: Progress, now: int): HandlerState
  {
    var t := AfterRows(s, p.rows, now);
    if p.failure.Some? then Touch(t, now) else t
  }

  /** One iteration of processRows once its rows are decoded: those rows, then, unless
      a row failed, a flush (not complete) exactly when MAX_BUFFER_TIME has passed since
      the buffer's start until the reading `checkedAt`. A reading before the buffer's start
      counts as less than MAX_BUFFER_TIME; readings are taken to be monotonic. */
  function PageStep(s: HandlerState, p: Progress, now: int, checkedAt: int): HandlerState
  {
    var t := RowsState(s, p, now);
    if p.failure.None? && checkedAt - t.start >= MAX_BUFFER_TIME_NANOS then Flushed(t, false) else t
  }

  /** One iteration of processRows on a page. */
  function PageState(s: HandlerState, page: Page): HandlerState
  {
    PageStep(s, DecodeRows(PageRows(page), page.columns), page.now, page.checkedAt)
  }

  /** The state after processRows has run over the pages, which ends at the first row
      that fails. */
  function RunPages(s: HandlerState, pages: seq<Page>): HandlerState
    decreases |pages|
  {
    if pages == [] then s
    else
      var t := PageState(s, pages[0]);
      if DecodeRows(PageRows(pages[0]), pages[0].columns).failure.Some? then t else RunPages(t, pages[1..])
  }

  /** `t` follows `s` by handing over `rows` in order: the rows printed, then the buffer,
      gain exactly those rows, and the printer gets only batches that are not complete. */
  ghost predicate HandsOver(s: HandlerState, t: HandlerState, rows: seq<Row>)
  {
    && Printed(t.calls) + t.buffer == Printed(s.calls) + s.buffer + rows
    && NonFinalBatchesAppended(s.calls, t.calls)
  }

  /** processRow hands its decoded rows over in order. */
  lemma {:induction false} AfterRowsDelivered(s: HandlerState, rows: seq<Row>, now: int)
    ensures HandsOver(s, AfterRows(s, rows, now), rows)
    decreases |rows|
  {
    NonFinalBatchesAppendedOne(s.calls, []);
    if rows != [] {
      var init, r := rows[..|rows| - 1], rows[|rows| - 1];
      var prev := AfterRows(s, init, now);
      AfterRowsDelivered(s, init, now);
      var full := prev.buffer + [r];
      var t := AfterRows(s, rows, now);
      assert rows == init + [r];
      assert Printed(prev.calls) + full == (Printed(prev.calls) + prev.buffer) + [r];
      assert Printed(s.calls) + s.buffer + rows == (Printed(s.calls) + s.buffer + init) + [r];
      if |full| >= MAX_BUFFERED_ROWS {
        assert t == prev.(buffer := [], calls := prev.calls + [PrintRows(full, false)]);
        PrintedAppend(prev.calls, PrintRows(full, false));
        NonFinalBatchesAppendedOne(prev.calls, full);
        NonFinalBatchesAppendedTrans(s.calls, prev.calls, t.calls);
      } else {
        assert t.calls == prev.calls && t.buffer == full;
      }
    }
  }

  /** Counting rows one at a time, modulo the buffer size. */
  lemma CountStep(n: nat)
    ensures n % MAX_BUFFERED_ROWS + 1 < MAX_BUFFERED_ROWS ==>
      (n + 1) % MAX_BUFFERED_ROWS == n % MAX_BUFFERED_ROWS + 1 && (n + 1) / MAX_BUFFERED_ROWS == n / MAX_BUFFERED_ROWS
    ensures n % MAX_BUFFERED_ROWS + 1 == MAX_BUFFERED_ROWS ==>
      (n + 1) % MAX_BUFFERED_ROWS == 0 && (n + 1) / MAX_BUFFERED_ROWS == n / MAX_BUFFERED_ROWS + 1
  {
  }

  /** Batches are cut exactly at MAX_BUFFERED_ROWS: of the rows in the buffer and those
      taken, every full MAX_BUFFERED_ROWS makes one batch of that size, not complete, and
      the remainder stays in the buffer. */
  lemma {:induction false} AfterRowsBatches(s: HandlerState, rows: seq<Row>, now: int)
    requires |s.buffer| < MAX_BUFFERED_ROWS
    ensures var t := AfterRows(s, rows, now);
      var n := |s.buffer| + |rows|;
      && |t.buffer| == n % MAX_BUFFERED_ROWS
      && |t.calls| == |s.calls| + n / MAX_BUFFERED_ROWS
      && forall i :: |s.calls| <= i < |t.calls| ==>
           t.calls[i].PrintRows? && |t.calls[i].rows| == MAX_BUFFERED_ROWS && !t.calls[i].complete
    decreases |rows|
  {
    if rows != [] {
      var init, r := rows[..|rows| - 1], rows[|rows| - 1];
      var prev := AfterRows(s, init, now);
      AfterRowsBatches(s, init, now);
      CountStep(|s.buffer| + |init|);
      var full := prev.buffer + [r];
      if |full| >= MAX_BUFFERED_ROWS {
        var t := AfterRows(s, rows, now);
        assert t.calls == prev.calls + [PrintRows(full, false)];
      }
    }
  }

  /** The batches of MAX_BUFFERED_ROWS rows that `xs` is cut into, front to back. */
  function Batches(xs: seq<Row>): seq<PrinterCall>
    decreases |xs|
  {
    if |xs| < MAX_BUFFERED_ROWS then []
    else [PrintRows(xs[..MAX_BUFFERED_ROWS], false)] + Batches(xs[MAX_BUFFERED_ROWS..])
  }

  /** The rows of `xs` left over once its full batches are cut off. */
  function Remainder(xs: seq<Row>): (r: seq<Row>)
    ensures |r| < MAX_BUFFERED_ROWS
    decreases |xs|
  {
    if |xs| < MAX_BUFFERED_ROWS then xs else Remainder(xs[MAX_BUFFERED_ROWS..])
  }

  /** One more row either joins the remainder or completes it into one more batch. */
  lemma {:induction false} CutSnoc(xs: seq<Row>, r: Row)
    ensures |Remainder(xs)| + 1 < MAX_BUFFERED_ROWS ==>
      Batches(xs + [r]) == Batches(xs) && Remainder(xs + [r]) == Remainder(xs) + [r]
    ensures |Remainder(xs)| + 1 == MAX_BUFFERED_ROWS ==>
      Batches(xs + [r]) == Batches(xs) + [PrintRows(Remainder(xs) + [r], false)] && Remainder(xs + [r]) == []
    decreases |xs|
  {
    var ys := xs + [r];
    if |xs| >= MAX_BUFFERED_ROWS {
      var head, tail := xs[..MAX_BUFFERED_ROWS], xs[MAX_BUFFERED_ROWS..];
      assert ys[..MAX_BUFFERED_ROWS] == head;
      assert ys[MAX_BUFFERED_ROWS..] == tail + [r];
      CutSnoc(tail, r);
      if |Remainder(tail)| + 1 == MAX_BUFFERED_ROWS {
        var last := PrintRows(Remainder(tail) + [r], false);
        assert [PrintRows(head, false)] + (Batches(tail) + [last]) == Batches(xs) + [last];
      }
    } else if |ys| == MAX_BUFFERED_ROWS {
      assert ys[..MAX_BUFFERED_ROWS] == ys;
      assert ys[MAX_BUFFERED_ROWS..] == [];
    }
  }

  /** processRow cuts exactly the batches of the buffer followed by the rows taken, and
      keeps their remainder in the buffer. */
  lemma {:induction false} AfterRowsCut(s: HandlerState, rows: seq<Row>, now: int)
    requires |s.buffer| < MAX_BUFFERED_ROWS
    ensures AfterRows(s, rows, now).calls == s.calls + Batches(s.buffer + rows)
    ensures AfterRows(s, rows, now).buffer == Remainder(s.buffer + rows)
    decreases |rows|
  {
    if rows == [] {
      assert s.buffer + rows == s.buffer;
      assert s.calls + [] == s.calls;
    } else {
      var init, r := rows[..|rows| - 1], rows[|rows| - 1];
      var prev := AfterRows(s, init, now);
      AfterRowsCut(s, init, now);
      var xs := s.buffer + init;
      assert s.buffer + rows == xs + [r];
      CutSnoc(xs, r);
      var full := prev.buffer + [r];
      if |full| >= MAX_BUFFERED_ROWS {
        var last := PrintRows(full, false);
        assert s.calls + Batches(xs) + [last] == s.calls + (Batches(xs) + [last]);
      }
    }
  }

  /** The buffer's start time after taking rows: it is `now` or unchanged; `now` when the
      buffer was empty and a row came; unchanged when the buffer held rows and never
      filled up. */
  lemma {:induction false} AfterRowsStart(s: HandlerState, rows: seq<Row>, now: int)
    ensures var t := AfterRows(s, rows, now);
      && (t.start == now || t.start == s.start)
      && (s.buffer == [] && rows != [] ==> t.start == now)
      && (s.buffer != [] && |s.buffer| + |rows| < MAX_BUFFERED_ROWS ==> t.start == s.start)
    decreases |rows|
  {
    if rows != [] {
      var init := rows[..|rows| - 1];
      AfterRowsStart(s, init, now);
      if s.buffer != [] && |s.buffer| + |rows| < MAX_BUFFERED_ROWS {
        AfterRowsBatches(s, init, now);
      }
    }
  }

  /** So does the inner loop of processRows. */
  lemma RowsStateDelivered(s: HandlerState, p: Progress, now: int)
    ensures HandsOver(s, RowsState(s, p, now), p.rows)
  {
    AfterRowsDelivered(s, p.rows, now);
  }

  /** The inner loop of processRows cuts exactly the batches of the buffer followed by
      the rows that decoded, keeps their remainder, and starts the clock of an empty
      buffer once the page has a row. */
  lemma RowsStateCut(s: HandlerState, rows: seq<Row>, columns: seq<Column>, now: int)
    requires |s.buffer| < MAX_BUFFERED_ROWS
    ensures var p := DecodeRows(rows, columns);
      var t := RowsState(s, p, now);
      && t.calls == s.calls + Batches(s.buffer + p.rows)
      && t.buffer == Remainder(s.buffer + p.rows)
      && (t.start == now || t.start == s.start)
      && (s.buffer == [] && rows != [] ==> t.start == now)
  {
    var p := DecodeRows(rows, columns);
    AfterRowsCut(s, p.rows, now);
    AfterRowsStart(s, p.rows, now);
    DecodeRowsPrefix(rows, columns);
  }

  /** So does one iteration of processRows: its time flush only moves rows from the
      buffer to the printer. */
  lemma PageStepDelivered(s: HandlerState, p: Progress, now: int, checkedAt: int)
    ensures HandsOver(s, PageStep(s, p, now, checkedAt), p.rows)
  {
    var t := RowsState(s, p, now);
    var u := PageStep(s, p, now, checkedAt);
    RowsStateDelivered(s, p, now);
    if p.failure.None? && checkedAt - t.start >= MAX_BUFFER_TIME_NANOS {
      assert u == Flushed(t, false);
      if t.buffer != [] {
        assert u.calls == t.calls + [PrintRows(t.buffer, false)] && u.buffer == [];
        PrintedAppend(t.calls, PrintRows(t.buffer, false));
        NonFinalBatchesAppendedOne(t.calls, t.buffer);
        NonFinalBatchesAppendedTrans(s.calls, t.calls, u.calls);
      } else {
        assert t.calls + [] == t.calls;
        assert u.calls == t.calls && u.buffer == t.buffer;
      }
    } else {
      assert u == t;
    }
  }

  /** A page whose first row starts an empty buffer is flushed at its own end when
      handling it took MAX_BUFFER_TIME or more. */
  lemma SlowPageFlushes(s: HandlerState, p: Progress, now: int, checkedAt: int)
    requires s.buffer == [] && p.rows != [] && p.failure.None?
    requires checkedAt - now >= MAX_BUFFER_TIME_NANOS
    ensures PageStep(s, p, now, checkedAt) == Flushed(RowsState(s, p, now), false)
    ensures PageStep(s, p, now, checkedAt).buffer == []
  {
    AfterRowsStart(s, p.rows, now);
  }

  /** Rows handed over in two stretches are handed over in one. */
  lemma DeliveredTrans(s: HandlerState, m: HandlerState, t: HandlerState, first: seq<Row>, second: seq<Row>)
    ensures HandsOver(s, m, first) && HandsOver(m, t, second) ==> HandsOver(s, t, first + second)
  {
    if HandsOver(s, m, first) && HandsOver(m, t, second) {
      NonFinalBatchesAppendedTrans(s.calls, m.calls, t.calls);
    }
  }

  /** ... and so does the whole of processRows. */
  lemma {:induction false} RunPagesDelivered(s: HandlerState, pages: seq<Page>)
    ensures HandsOver(s, RunPages(s, pages), DecodePages(pages).rows)
    decreases |pages|
  {
    if pages == [] {
      NonFinalBatchesAppendedOne(s.calls, []);
      assert s.buffer + [] == s.buffer;
    } else {
      var page := pages[0];
      var p := DecodeRows(PageRows(page), page.columns);
      var t := PageStep(s, p, page.now, page.checkedAt);
      PageStepDelivered(s, p, page.now, page.checkedAt);
      if p.failure.None? {
        RunPagesDelivered(t, pages[1..]);
        DeliveredTrans(s, t, RunPages(t, pages[1..]), p.rows, DecodePages(pages[1..]).rows);
      }
    }
  }

  /** Once a row of some page has failed, later pages leave the handler as it is. */
  lemma {:induction false} RunPagesStopsAtFailure(s: HandlerState, pages: seq<Page>, more: seq<Page>)
    requires DecodePages(pages).failure.Some?
    ensures RunPages(s, pages + more) == RunPages(s, pages)
    decreases |pages|
  {
    var all := pages + more;
    assert all[0] == pages[0];
    if DecodeRows(PageRows(pages[0]), pages[0].columns).failure.None? {
      assert all[1..] == pages[1..] + more;
      RunPagesStopsAtFailure(PageState(s, pages[0]), pages[1..], more);
    }
  }

  /** One iteration of processRows, seen from the pages still to come. */
  lemma RunPagesStep(s: HandlerState, pages: seq<Page>, i: nat)
    requires i < |pages|
    ensures var t := PageState(s, pages[i]);
      RunPages(s, pages[i..]) ==
        if DecodeRows(PageRows(pages[i]), pages[i].columns).failure.Some? then t else RunPages(t, pages[i + 1..])
  {
    assert pages[i..][0] == pages[i];
    assert pages[i..][1..] == pages[i + 1..];
  }

  /** One iteration of processRows keeps the run over the remaining pages the run
      over all of them, and their failure the failure of all of them. */
  lemma RunPagesAdvance(s0: HandlerState, pages: seq<Page>, p: nat, before: HandlerState,
                        after: HandlerState, outcome: Outcome<Throwable>)
    requires p < |pages|
    requires RunPages(before, pages[p..]) == RunPages(s0, pages)
    requires DecodePages(pages[p..]).failure == DecodePages(pages).failure
    requires after == PageState(before, pages[p])
    requires var step := DecodeRows(PageRows(pages[p]), pages[p].columns);
      outcome == if step.failure.Some? then Fail(step.failure.value) else Pass
    ensures outcome.Pass? ==> && RunPages(after, pages[p + 1..]) == RunPages(s0, pages)
                              && DecodePages(pages[p + 1..]).failure == DecodePages(pages).failure
    ensures outcome.Fail? ==> && after == RunPages(s0, pages)
                              && DecodePages(pages).failure == Some(outcome.error)
  {
    RunPagesStep(before, pages, p);
  }

  /** One more row on top of the rows the inner loop has taken. */
  lemma RowsStateAdvance(rows: seq<Row>, columns: seq<Column>, i: nat, s: HandlerState, now: int,
                         before: HandlerState, after: HandlerState, outcome: Outcome<Throwable>)
    requires i < |rows| && DecodeRows(rows[..i], columns).failure.None?
    requires before == RowsState(s, DecodeRows(rows[..i], columns), now)
    requires var r := DecodeRow(rows[i], columns);
      outcome == if r.Failure? then Fail(r.error) else Pass
    requires after == if outcome.Fail? then Touch(before, now) else Append(Touch(before, now), DecodeRow(rows[i], columns).value)
    ensures outcome == if DecodeRows(rows[..i + 1], columns).failure.Some?
                       then Fail(DecodeRows(rows[..i + 1], columns).failure.value) else Pass
    ensures after == RowsState(s, DecodeRows(rows[..i + 1], columns), now)
  {
    var done := DecodeRows(rows[..i], columns);
    assert rows[..i + 1][..i] == rows[..i];
    assert rows[..i + 1][i] == rows[i];
    match DecodeRow(rows[i], columns)
    case Success(decoded) =>
      assert DecodeRows(rows[..i + 1], columns) == Progress(done.rows + [decoded], None);
      assert (done.rows + [decoded])[..|done.rows|] == done.rows;
    case Failure(e) =>
      assert DecodeRows(rows[..i + 1], columns) == Progress(done.rows, Some(e));
  }

  /** What processRow does to a state, given the decoding of its row: the clock rule,
      the threshold flush, the rows handed over, and the bounds the handler keeps. */
  lemma ProcessRowStep(s: HandlerState, now: int, decoded: Result<Row, Throwable>)
    requires |s.buffer| < MAX_BUFFERED_ROWS && BatchesBounded(s.calls)
    ensures var t := if decoded.Failure? then Touch(s, now) else Append(Touch(s, now), decoded.value);
      && |t.buffer| < MAX_BUFFERED_ROWS && BatchesBounded(t.calls)
      && FinishCount(t.calls) == FinishCount(s.calls)
      && t.start == (if s.buffer == [] then now else s.start)
      && NonFinalBatchesAppended(s.calls, t.calls)
      && (decoded.Failure? ==> t.buffer == s.buffer && t.calls == s.calls)
      && (decoded.Success? ==>
            var full := s.buffer + [decoded.value];
            && Printed(t.calls) + t.buffer == Printed(s.calls) + s.buffer + [decoded.value]
            && if |full| >= MAX_BUFFERED_ROWS
               then t.buffer == [] && t.calls == s.calls + [PrintRows(full, false)]
               else t.buffer == full && t.calls == s.calls)
  {
    NonFinalBatchesAppendedOne(s.calls, []);
    if decoded.Success? {
      var full := s.buffer + [decoded.value];
      assert Printed(s.calls) + full == Printed(s.calls) + s.buffer + [decoded.value];
      if |full| >= MAX_BUFFERED_ROWS {
        PrintedAppend(s.calls, PrintRows(full, false));
        NonFinalBatchesAppendedOne(s.calls, full);
        assert s.calls + [PrintRows(full, false)] == s.calls + FlushCalls(full, false);
      }
    }
  }

  class OutputHandler {
    var closed: bool
    var rowBuffer: seq<Row>
    var bufferStart: int
    /** The calls made on the printer so far, oldest first. */
    var printerCalls: seq<PrinterCall>
    /** The rows handed over so far, in arrival order: the printed batches, then the buffer. */
    ghost function Delivered(): seq<Row>
      reads this
    {
      Printed(printerCalls) + rowBuffer
    }

    /** The fields the printer and the clock see, as a value. */
    ghost function State(): HandlerState
      reads this
    {
      HandlerState(rowBuffer, printerCalls, bufferStart)
    }

    /** The buffer never exceeds MAX_BUFFERED_ROWS and neither does any printed batch. */
    ghost predicate Consistent()
      reads this
    {
      && |rowBuffer| <= MAX_BUFFERED_ROWS
      && BatchesBounded(printerCalls)
    }

    /** Between calls the buffer stays below the threshold, and finish() has been
      called exactly once if the handler is closed and never otherwise. */
    ghost predicate Valid()
      reads this
    {
      && Consistent()
      && |rowBuffer| < MAX_BUFFERED_ROWS
      && FinishCount(printerCalls) == (if closed then 1 else 0)
    }

    constructor ()
      ensures Valid()
      ensures !closed && rowBuffer == [] && bufferStart == 0
      ensures printerCalls == [] && Delivered() == []
    {
      closed := false;
      rowBuffer := [];
      bufferStart := 0;
      printerCalls := [];
    }

    /** flush(complete): print and clear a non-empty buffer; nothing on an empty one. */
    method Flush(complete: bool)
      requires Consistent()
      modifies this
      ensures Consistent()
      ensures State() == Flushed(old(State()), complete)
      ensures rowBuffer == []
      ensures printerCalls == old(printerCalls) + FlushCalls(old(rowBuffer), complete)
      ensures FinishCount(printerCalls) == FinishCount(old(printerCalls))
      ensures !complete ==> NonFinalBatchesAppended(old(printerCalls), printerCalls)
      ensures closed == old(closed) && bufferStart == old(bufferStart) && Delivered() == old(Delivered())
    {
      NonFinalBatchesAppendedOne(printerCalls, rowBuffer);
      if rowBuffer != [] {
        PrintedAppend(printerCalls, PrintRows(rowBuffer, complete));
        NonFinalBatchesAppendedOne(printerCalls, rowBuffer);
        printerCalls := printerCalls + [PrintRows(rowBuffer, complete)];
        rowBuffer := [];
        assert Delivered() == old(Printed(printerCalls) + rowBuffer) + [];
      }
    }

    /** processRow: note the buffer's start time if it is empty, decode the row, append
      it, and flush (not complete) once the buffer reaches MAX_BUFFERED_ROWS. A row
      that does not decode is not appended. */
    method ProcessRow(row: Row, columns: seq<Column>, now: int) returns (outcome: Outcome<Throwable>)
      requires Valid()
      modifies this
      ensures Valid() && closed == old(closed)
      ensures bufferStart == if old(rowBuffer) == [] then now else old(bufferStart)
      ensures NonFinalBatchesAppended(old(printerCalls), printerCalls)
      ensures outcome.Fail? <==> DecodeRow(row, columns).Failure?
      ensures State() == if outcome.Fail? then Touch(old(State()), now)
                         else Append(Touch(old(State()), now), DecodeRow(row, columns).value)
      ensures outcome.Fail? ==>
        && outcome.error == DecodeRow(row, columns).error
        && rowBuffer == old(rowBuffer) && printerCalls == old(printerCalls)
      ensures outcome.Pass? ==>
        var full := old(rowBuffer) + [DecodeRow(row, columns).value];
        && Delivered() == old(Delivered()) + [DecodeRow(row, columns).value]
        && if |full| >= MAX_BUFFERED_ROWS
           then rowBuffer == [] && printerCalls == old(printerCalls) + [PrintRows(full, false)]
           else rowBuffer == full && printerCalls == old(printerCalls)
    {
      ProcessRowStep(State(), now, DecodeRow(row, columns));
      if rowBuffer == [] {
        bufferStart := now;
      }
      var processedRow := DecodeRow(row, columns);
      if processedRow.Failure? {
        return Fail(processedRow.error);
      }
      rowBuffer := rowBuffer + [processedRow.value];
      if |rowBuffer| >= MAX_BUFFERED_ROWS {
        Flush(false);
      }
      return Pass;
    }

    /** close: on the first call only, flush (complete) and finish the printer. */
    method Close()
      requires Valid()
      modifies this
      ensures Valid() && closed
      ensures bufferStart == old(bufferStart) && Delivered() == old(Delivered())
      ensures old(closed) ==> rowBuffer == old(rowBuffer) && printerCalls == old(printerCalls)
      ensures !old(closed) ==>
        rowBuffer == [] && printerCalls == old(printerCalls) + FlushCalls(old(rowBuffer), true) + [Finish]
    {
      var wasClosed := closed;
      closed := true;
      if !wasClosed {
        Flush(true);
        PrintedAppend(printerCalls, Finish);
        printerCalls := printerCalls + [Finish];
      }
    }

    /** The inner loop of processRows: the rows of one page, in order, until one fails. */
    method ProcessPageRows(rows: seq<Row>, columns: seq<Column>, now: int) returns (outcome: Outcome<Throwable>)
      requires Valid()
      modifies this
      ensures Valid() && closed == old(closed)
      ensures outcome == if DecodeRows(rows, columns).failure.Some?
                         then Fail(DecodeRows(rows, columns).failure.value) else Pass
      ensures State() == RowsState(old(State()), DecodeRows(rows, columns), now)
      ensures Delivered() == old(Delivered()) + DecodeRows(rows, columns).rows
      ensures NonFinalBatchesAppended(old(printerCalls), printerCalls)
      ensures printerCalls == old(printerCalls) + Batches(old(rowBuffer) + DecodeRows(rows, columns).rows)
      ensures rowBuffer == Remainder(old(rowBuffer) + DecodeRows(rows, columns).rows)
      ensures bufferStart == now || bufferStart == old(bufferStart)
      ensures old(rowBuffer) == [] && rows != [] ==> bufferStart == now
    {
      var i := 0;
      outcome := Pass;
      assert rows[..0] == [];
      while i < |rows| && outcome.Pass?
        invariant 0 <= i <= |rows|
        invariant Valid() && closed == old(closed)
        invariant outcome == if DecodeRows(rows[..i], columns).failure.Some?
                             then Fail(DecodeRows(rows[..i], columns).failure.value) else Pass
        invariant State() == RowsState(old(State()), DecodeRows(rows[..i], columns), now)
      {
        ghost var before := State();
        outcome := ProcessRow(rows[i], columns, now);
        RowsStateAdvance(rows, columns, i, old(State()), now, before, State(), outcome);
        i := i + 1;
      }
      if outcome.Fail? {
        DecodeRowsStopsAtFailure(rows, columns, i);
      } else {
        assert rows[..|rows|] == rows;
      }
      RowsStateDelivered(old(State()), DecodeRows(rows, columns), now);
      RowsStateCut(old(State()), rows, columns, now);
    }

    /** One iteration of processRows: the page's rows, if it has any, then a flush (not
      complete) when MAX_BUFFER_TIME has passed since the buffer's start. A row that
      does not decode ends the iteration before the time check. */
    method ProcessPage(page: Page) returns (outcome: Outcome<Throwable>)
      requires Valid()
      modifies this
      ensures Valid() && closed == old(closed)
      ensures var step := DecodeRows(PageRows(page), page.columns);
        && outcome == (if step.failure.Some? then Fail(step.failure.value) else Pass)
        && Delivered() == old(Delivered()) + step.rows
      ensures NonFinalBatchesAppended(old(printerCalls), printerCalls)
      ensures outcome.Pass? && page.checkedAt - bufferStart >= MAX_BUFFER_TIME_NANOS ==> rowBuffer == []
      ensures State() == PageState(old(State()), page)
      ensures outcome.Pass? ==>
        var t := RowsState(old(State()), DecodeRows(PageRows(page), page.columns), page.now);
        && bufferStart == t.start
        && (page.checkedAt - bufferStart >= MAX_BUFFER_TIME_NANOS ==> State() == Flushed(t, false))
        && (page.checkedAt - bufferStart < MAX_BUFFER_TIME_NANOS ==> State() == t)
    {
      outcome := Pass;
      if page.data.None? {
        assert DecodeRows(PageRows(page), page.columns) == Progress([], None);
      }
      if page.data.Some? {
        outcome := ProcessPageRows(page.data.value, page.columns, page.now);
        if outcome.Fail? {
          return;
        }
      }
      if page.checkedAt - bufferStart >= MAX_BUFFER_TIME_NANOS {
        ghost var callsBefore := printerCalls;
        Flush(false);
        NonFinalBatchesAppendedTrans(old(printerCalls), callsBefore, printerCalls);
      }
    }

    /** processRows: while the client is running, handle the current page and advance.
      The first row that does not decode ends the loop. */
    method ProcessRows(pages: seq<Page>) returns (outcome: Outcome<Throwable>)
      requires Valid()
      modifies this
      ensures Valid() && closed == old(closed)
      ensures outcome == if DecodePages(pages).failure.Some? then Fail(DecodePages(pages).failure.value) else Pass
      ensures State() == RunPages(old(State()), pages)
      ensures Delivered() == old(Delivered()) + DecodePages(pages).rows
      ensures NonFinalBatchesAppended(old(printerCalls), printerCalls)
    {
      var p := 0;
      outcome := Pass;
      assert pages[0..] == pages;
      while p < |pages| && outcome.Pass?
        invariant 0 <= p <= |pages|
        invariant Valid() && closed == old(closed)
        invariant outcome.Pass? ==> && RunPages(State(), pages[p..]) == RunPages(old(State()), pages)
                                    && DecodePages(pages[p..]).failure == DecodePages(pages).failure
        invariant outcome.Fail? ==> && State() == RunPages(old(State()), pages)
                                    && DecodePages(pages).failure == Some(outcome.error)
      {
        ghost var before := State();
        outcome := ProcessPage(pages[p]);
        RunPagesAdvance(old(State()), pages, p, before, State(), outcome);
        p := p + 1;
      }
      if outcome.Pass? {
        assert pages[p..] == [];
      }
      RunPagesDelivered(old(State()), pages);
    }
  }

  /** close is idempotent: on a handler with no rows, closing twice finishes the printer
      once and prints nothing. */
  method CloseTwice() returns (calls: seq<PrinterCall>)
    ensures calls == [Finish]
  {
    var handler := new OutputHandler();
    handler.Close();
    handler.Close();
    calls := handler.printerCalls;
  }
}
