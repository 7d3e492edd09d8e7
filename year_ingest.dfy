/** The resumable ingestion of the yearly blobs: `addYearData` streams one year's CSV object in
    ranges and appends the lines past that year's row marker; `getData` walks the years from
    where the table left off. The tail rule is the corrected one (see `Reframer`). */
module YearIngest {
  import opened Results
  import opened Text
  import opened Schema
  import opened DayCodec
  import opened ObjectStore
  import opened Reframer
  import opened GhcnStore

  /** The lines of a year not yet stored when `marker` of them were consumed before. */
  function Unread(lines: seq<string>, marker: nat): (r: seq<string>)
    ensures |r| == |lines| - Min(marker, |lines|)
    ensures marker < |lines| ==> r == lines[marker..]
  {
    if marker < |lines| then lines[marker..] else []
  }

  /** Running once over the first `k` lines and again over all of them (with the marker the first
      run left) stores the same lines as one run over all of them: nothing lost, nothing twice. */
  lemma {:induction false} UnreadResume(lines: seq<string>, k: nat, marker: nat)
    requires k <= |lines|
    ensures Unread(lines[..k], marker) + Unread(lines, Max(marker, k)) == Unread(lines, marker)
  {
    if marker < k {
      assert lines[..k][marker..] + lines[k..] == lines[marker..];
    }
  }

  /** A run that leaves the marker at the end of the lines stores nothing when repeated. */
  lemma {:induction false} UnreadRerun(lines: seq<string>, marker: nat)
    ensures Unread(lines, Max(marker, |lines|)) == []
    ensures Max(marker, |lines|) == |lines| <==> marker <= |lines|
  {
  }

  /** The lines of a chunk that `addYearData` stores: those past `marker` when `read` lines
      have been read including the chunk's `rows`. */
  function PastMarker(rows: seq<string>, read: nat, marker: nat): (r: seq<string>)
    requires |rows| <= read
    ensures read <= marker ==> r == []
    ensures read > marker ==> r == rows[|rows| - Min(|rows|, read - marker)..]
  {
    if read > marker then
      (if read - |rows| < marker then rows[|rows| + marker - read..] else rows)
    else []
  }

  /** One turn of the loop: what the chunk stores is exactly what it adds to the unread lines. */
  lemma {:induction false} UnreadStep(seen: seq<string>, rows: seq<string>, marker: nat)
    ensures Unread(seen + rows, marker) ==
      Unread(seen, marker) + PastMarker(rows, |seen| + |rows|, Max(marker, |seen|))
  {
    if marker < |seen| {
      assert Max(marker, |seen|) == |seen|;
      UnreadStepBefore(seen, rows, marker);
    } else if marker < |seen| + |rows| {
      assert Max(marker, |seen|) == marker;
      assert Unread(seen, marker) == [];
      UnreadStepWithin(seen, rows, marker);
    } else {
      assert Max(marker, |seen|) == marker;
      UnreadStepAfter(seen, rows, marker);
    }
  }

  /** The marker covers the chunk too: nothing is new. */
  lemma {:induction false} UnreadStepAfter(seen: seq<string>, rows: seq<string>, marker: nat)
    requires |seen| + |rows| <= marker
    ensures Unread(seen + rows, marker) == Unread(seen, marker) == []
    ensures PastMarker(rows, |seen| + |rows|, marker) == []
  {
  }

  /** The marker falls in the lines already read: the whole chunk is new. */
  lemma {:induction false} UnreadStepBefore(seen: seq<string>, rows: seq<string>, marker: nat)
    requires marker < |seen|
    ensures Unread(seen + rows, marker) == Unread(seen, marker) + PastMarker(rows, |seen| + |rows|, |seen|)
  {
    assert PastMarker(rows, |seen| + |rows|, |seen|) == rows[0..] == rows;
    assert (seen + rows)[marker..] == seen[marker..] + rows;
  }

  /** The marker falls in the chunk: the lines of the chunk after it are new. */
  lemma {:induction false} UnreadStepWithin(seen: seq<string>, rows: seq<string>, marker: nat)
    requires |seen| <= marker < |seen| + |rows|
    ensures Unread(seen + rows, marker) == PastMarker(rows, |seen| + |rows|, marker)
  {
    assert PastMarker(rows, |seen| + |rows|, marker) == rows[marker - |seen|..];
    assert (seen + rows)[marker..] == rows[marker - |seen|..];
  }

  /** Appending the slab of the new lines keeps the table equal to the slots of what was read. */
  lemma {:induction false} StoreStep(data0: seq<DayRecord>, before: seq<string>, rows: seq<string>, marker: nat,
                  newRows: seq<string>)
    requires Unread(before + rows, marker) == Unread(before, marker) + newRows
    ensures data0 + Slots(Unread(before, marker)) + Slots(newRows) == data0 + Slots(Unread(before + rows, marker))
  {
    var u := Unread(before, marker);
    SlotsAppend(u, newRows);
    ConcatShift(data0, Slots(u), Slots(newRows));
  }

  /** The tail rule applied to one chunk: split on `\n` and put back the last piece, unless the
      chunk reaches the end of the blob and that piece has at least eight fields. Returns the
      lines and the characters consumed. */
  method CutTail(ghcnText: string, atEnd: bool) returns (rows: seq<string>, consumed: nat)
    ensures Chunk(rows, consumed) == IntendedReframe(ghcnText, atEnd)
  {
    LastPieceFits(ghcnText, '\n');
    rows := Split(ghcnText, '\n');
    var lastRow := rows[|rows| - 1];
    var fields := Split(lastRow, ',');
    consumed := |ghcnText|;
    if !atEnd || |fields| < FieldCount {
      consumed := consumed - |lastRow|;
      rows := rows[..|rows| - 1];
    }
  }

  /** One range of `addYearData`: GET `[rangeStart, min(rangeStart + block_size, length)]`, split
      it into lines and put back the cut tail. `stop` when the loop breaks here (nothing left to
      read, a failed GET, or no whole line); otherwise the lines and the next range start. */
  method ReadChunk(o: S3Object, blockSize: int, rangeStart: nat)
    returns (stop: bool, rows: seq<string>, next: nat)
    requires rangeStart <= |o.body|
    ensures stop ==> IntendedEmitted(o, blockSize, rangeStart) == []
    ensures !stop ==> rows != [] && rangeStart < next <= |o.body|
    ensures !stop ==> IntendedEmitted(o, blockSize, rangeStart) == rows + IntendedEmitted(o, blockSize, next)
  {
    IntendedStops(o, blockSize, rangeStart);
    var contentLength := |o.body|;
    var rangeEnd := rangeStart + blockSize;
    if rangeEnd > contentLength {
      rangeEnd := contentLength;
    }
    rows, next := [], rangeStart;
    if rangeEnd - rangeStart <= 0 {
      return true, rows, next;
    }
    assert rangeEnd == Min(rangeStart + blockSize, contentLength);
    var got := RangeGet(o, rangeStart, rangeEnd);
    if got.None? {
      return true, rows, next;
    }
    var ghcnText := got.value;
    var consumed;
    rows, consumed := CutTail(ghcnText, rangeStart + |ghcnText| == contentLength);
    next := rangeStart + consumed;
    IntendedUnfold(o, blockSize, rangeStart, ghcnText, rows, next);
    stop := |rows| == 0;
  }

  /** The end of a turn of `addYearData`: when the lines read pass the marker, store the ones
      past it and move the marker to the lines read. Returns the lines stored and the marker. */
  method AppendPastMarker(f: GhcnFile, year: int, rows: seq<string>, rowsRead: nat, rowMarker: nat)
    returns (added: nat, newMarker: nat)
    requires rows != [] && |rows| <= rowsRead
    modifies f`data, f`rowMarker
    ensures added == |PastMarker(rows, rowsRead, rowMarker)| && newMarker == Max(rowMarker, rowsRead)
    ensures f.data == old(f.data) + Slots(PastMarker(rows, rowsRead, rowMarker))
    ensures f.rowMarker == if rowsRead > rowMarker then Some(RowMarker(year, rowsRead)) else old(f.rowMarker)
  {
    added, newMarker := 0, rowMarker;
    if rowsRead > rowMarker {
      var newRows := rows;
      if rowsRead - |rows| < rowMarker {
        var index := |rows| + rowMarker - rowsRead;
        newRows := rows[index..];
      }
      var _ := f.AddRows(newRows);
      added := |newRows|;
      f.SetRowMarker(year, rowsRead);
      newMarker := rowsRead;
    }
  }

  /** What `addYearData` has done to the file after reading `seen` lines of a year whose
      marker was `m0`, starting from the table `data0` and the attribute `marker0`: the table
      holds the slots of the unread lines, and the marker moved to the lines read once they
      passed it. */
  predicate Stored(data: seq<DayRecord>, marker: Option<RowMarker>, year: int, seen: seq<string>,
                   m0: nat, data0: seq<DayRecord>, marker0: Option<RowMarker>)
  {
    && data == data0 + Slots(Unread(seen, m0))
    && marker == (if m0 < |seen| then Some(RowMarker(year, |seen|)) else marker0)
  }

  /** The end of one turn of `addYearData`, with the bookkeeping that shows it keeps `Stored`. */
  method StoreTurn(f: GhcnFile, year: int, rows: seq<string>, rowsRead: nat, rowMarker: nat,
                   ghost seen: seq<string>, ghost m0: nat, ghost data0: seq<DayRecord>,
                   ghost marker0: Option<RowMarker>)
    returns (added: nat, newMarker: nat)
    requires rows != [] && rowsRead == |seen| + |rows| && rowMarker == Max(m0, |seen|)
    requires Stored(f.data, f.rowMarker, year, seen, m0, data0, marker0)
    modifies f`data, f`rowMarker
    ensures newMarker == Max(m0, rowsRead)
    ensures added == |Unread(seen + rows, m0)| - |Unread(seen, m0)|
    ensures Stored(f.data, f.rowMarker, year, seen + rows, m0, data0, marker0)
  {
    ghost var newRows := PastMarker(rows, rowsRead, rowMarker);
    UnreadStep(seen, rows, m0);
    StoreStep(data0, seen, rows, m0, newRows);
    added, newMarker := AppendPastMarker(f, year, rows, rowsRead, rowMarker);
  }

  lemma {:induction false} ConcatEmpty<T>(a: seq<T>, b: seq<T>)
    requires b == []
    ensures a + b == a
  {
  }

  lemma {:induction false} ConcatShift<T>(a: seq<T>, b: seq<T>, c: seq<T>)
    ensures a + (b + c) == (a + b) + c
  {
  }

  /** The state of the file that ingestion changes: the `data` table and its `_row_marker`. */
  datatype Progress = Progress(data: seq<DayRecord>, marker: Option<RowMarker>)

  /** What one complete run of `addYearData` over `lines`, the lines the loop reads from a
      year's object, makes of the file: the lines past the year's marker are appended, and the
      marker moves to the end of the lines when it was below it. */
  function YearRun(p: Progress, year: int, lines: seq<string>): Progress
  {
    var m := MarkerRow(p.marker, year);
    Progress(p.data + Slots(Unread(lines, m)), if m < |lines| then Some(RowMarker(year, |lines|)) else p.marker)
  }

  /** The count such a run returns: the number of lines past the marker. */
  function YearCount(p: Progress, year: int, lines: seq<string>): nat
  {
    |Unread(lines, MarkerRow(p.marker, year))|
  }

  /** After the run the year's marker is the larger of the old marker and the lines read, the
      table has grown by the count, and the rows before it are unchanged. */
  lemma {:induction false} YearRunGrows(p: Progress, year: int, lines: seq<string>)
    ensures MarkerRow(YearRun(p, year, lines).marker, year) == Max(MarkerRow(p.marker, year), |lines|)
    ensures p.data <= YearRun(p, year, lines).data
    ensures |YearRun(p, year, lines).data| == |p.data| + YearCount(p, year, lines)
  {
    assert (p.data + Slots(Unread(lines, MarkerRow(p.marker, year))))[..|p.data|] == p.data;
  }

  /** A run cut short after the first `k` lines, with the marker it left, followed by a full
      run leaves the file as one full run does: the same table and the same marker. */
  lemma {:induction false} YearRunResume(p: Progress, year: int, lines: seq<string>, k: nat)
    requires k <= |lines|
    ensures YearRun(YearRun(p, year, lines[..k]), year, lines) == YearRun(p, year, lines)
  {
    var m := MarkerRow(p.marker, year);
    var q := YearRun(p, year, lines[..k]);
    YearRunGrows(p, year, lines[..k]);
    assert MarkerRow(q.marker, year) == Max(m, k);
    ResumeData(p.data, lines, k, m);
    ResumeMarker(p.marker, year, |lines|, k);
  }

  /** The table half of `YearRunResume`. */
  lemma {:induction false} ResumeData(data: seq<DayRecord>, lines: seq<string>, k: nat, m: nat)
    requires k <= |lines|
    ensures data + Slots(Unread(lines[..k], m)) + Slots(Unread(lines, Max(m, k)))
            == data + Slots(Unread(lines, m))
  {
    var a := Unread(lines[..k], m);
    var b := Unread(lines, Max(m, k));
    UnreadResume(lines, k, m);
    SlotsAppend(a, b);
    ConcatShift(data, Slots(a), Slots(b));
  }

  /** The marker half of `YearRunResume`, for `n` lines of which the first `k` were read. */
  lemma {:induction false} ResumeMarker(marker: Option<RowMarker>, year: int, n: nat, k: nat)
    requires k <= n
    ensures var m := MarkerRow(marker, year);
      var first := if m < k then Some(RowMarker(year, k)) else marker;
      (if Max(m, k) < n then Some(RowMarker(year, n)) else first)
      == (if m < n then Some(RowMarker(year, n)) else marker)
  {
  }

  /** A second run over the same lines changes nothing. */
  lemma {:induction false} YearRunRerun(p: Progress, year: int, lines: seq<string>)
    ensures YearRun(YearRun(p, year, lines), year, lines) == YearRun(p, year, lines)
  {
    YearRunResume(p, year, lines, |lines|);
    assert lines[..|lines|] == lines;
  }

  /** The lines `addYearData` reads from a year's object under the intended tail rule, none when
      the HEAD request failed. */
  function ObjectLines(obj: Option<S3Object>, blockSize: int): seq<string>
  {
    match obj
    case None => []
    case Some(o) => IntendedEmitted(o, blockSize, 0)
  }

  /** A crash after the first chunks of a blob, then a rerun on the grown blob, leave the file
      as one run on the grown blob does, provided the crash left the blob's prefix cut where
      the cut piece has fewer than eight fields. */
  lemma {:induction false} ResumeFromPrefix(p: Progress, year: int, obj: S3Object, cut: nat, blockSize: int)
    requires obj.faults == {} && blockSize >= 1 && LinesFit(obj.body, blockSize) && cut <= |obj.body|
    requires |Split(Last(Split(obj.body[..cut], '\n')), ',')| < FieldCount
    ensures var prefix := S3Object(obj.body[..cut], obj.etag, {});
      YearRun(YearRun(p, year, ObjectLines(Some(prefix), blockSize)), year, ObjectLines(Some(obj), blockSize))
      == YearRun(p, year, ObjectLines(Some(obj), blockSize))
  {
    var prefix := S3Object(obj.body[..cut], obj.etag, {});
    forall i, j | 0 <= i <= j <= cut && j - i > blockSize
      ensures '\n' in prefix.body[i..j]
    {
      assert prefix.body[i..j] == obj.body[i..j];
    }
    IntendedEmittedIsLines(prefix, blockSize);
    IntendedEmittedIsLines(obj, blockSize);
    WholeRowsPrefix(obj.body, cut);
    var full := WholeRows(obj.body);
    var k := |WholeRows(prefix.body)|;
    assert WholeRows(prefix.body) == full[..k];
    YearRunResume(p, year, full, k);
  }

  /** `addYearData(f, year)`. `obj` is the year's object, `None` when its HEAD request fails
      (the key is missing or another client error); its body length is the content length. */
  method AddYearData(f: GhcnFile, year: int, obj: Option<S3Object>, blockSize: int)
    returns (returnRows: nat)
    modifies f`data, f`rowMarker
    ensures var lines := ObjectLines(obj, blockSize);
      && Progress(f.data, f.rowMarker) == YearRun(Progress(old(f.data), old(f.rowMarker)), year, lines)
      && returnRows == YearCount(Progress(old(f.data), old(f.rowMarker)), year, lines)
    ensures obj.None? ==> returnRows == 0 && f.data == old(f.data) && f.rowMarker == old(f.rowMarker)
    ensures obj.Some? ==>
      var lines := IntendedEmitted(obj.value, blockSize, 0);
      var marker := old(f.RowMarkerFor(year));
      && returnRows == |Unread(lines, marker)|
      && f.data == old(f.data) + Slots(Unread(lines, marker))
      && f.rowMarker == (if marker < |lines| then Some(RowMarker(year, |lines|)) else old(f.rowMarker))
      && f.RowMarkerFor(year) == Max(marker, |lines|)
    ensures obj.Some? && obj.value.faults == {} && blockSize >= 1 && LinesFit(obj.value.body, blockSize) ==>
      && f.data == old(f.data) + Slots(Unread(WholeRows(obj.value.body), old(f.RowMarkerFor(year))))
      && (EndsWithWholeLine(obj.value.body) ==>
            f.data == old(f.data) + Slots(Unread(Lines(obj.value.body), old(f.RowMarkerFor(year)))))
  {
    returnRows := 0;
    var rangeStart: nat := 0;
    var rowMarker := f.RowMarkerFor(year);
    var rowsRead: nat := 0;
    if obj.None? {
      assert Slots(Unread([], rowMarker)) == [];
      assert f.data + [] == f.data;
      return;
    }
    var o := obj.value;
    var contentLength := |o.body|;
    ghost var m0 := rowMarker;
    ghost var data0 := f.data;
    ghost var marker0 := f.rowMarker;
    ghost var lines := IntendedEmitted(o, blockSize, 0);
    ghost var seen: seq<string> := [];
    if contentLength == 0 {
      assert lines == [];
      assert Slots(Unread([], rowMarker)) == [];
      assert f.data + [] == f.data;
      return;
    }
    while true
      invariant rangeStart <= contentLength
      invariant lines == seen + IntendedEmitted(o, blockSize, rangeStart)
      invariant rowsRead == |seen| && rowMarker == Max(m0, rowsRead)
      invariant returnRows == |Unread(seen, m0)|
      invariant Stored(f.data, f.rowMarker, year, seen, m0, data0, marker0)
      decreases contentLength - rangeStart
    {
      var stop, rows, next := ReadChunk(o, blockSize, rangeStart);
      if stop {
        ConcatEmpty(seen, IntendedEmitted(o, blockSize, rangeStart));
        break;
      }
      ConcatShift(seen, rows, IntendedEmitted(o, blockSize, next));
      rangeStart := next;
      rowsRead := rowsRead + |rows|;
      var added;
      added, rowMarker := StoreTurn(f, year, rows, rowsRead, rowMarker, seen, m0, data0, marker0);
      seen := seen + rows;
      returnRows := returnRows + added;
    }
    if obj.value.faults == {} && blockSize >= 1 && LinesFit(obj.value.body, blockSize) {
      IntendedEmittedIsLines(obj.value, blockSize);
    }
    assert Progress(f.data, f.rowMarker) == YearRun(Progress(data0, marker0), year, lines);
  }

  // ---------------------------------------------------------------------------
  // getData

  /** The year `getData` starts from: `start_year` for an empty table, otherwise `int(ymd[:4])`
      of the newest row; `None` where that conversion raises `ValueError`. */
  function ResumeYear(data: seq<DayRecord>, startYear: int): (r: Option<int>)
    ensures data == [] ==> r == Some(startYear)
    ensures data != [] ==> r == ParseInt(Prefix(data[|data| - 1].ymd, 4))
  {
    if |data| == 0 then Some(startYear) else ParseInt(Prefix(data[|data| - 1].ymd, 4))
  }

  /** A year of four digits prints as four characters. */
  lemma {:induction false} FourDigitYear(y: int)
    requires 1000 <= y <= 9999
    ensures |IntToString(y)| == 4
  {
    var n: nat := y;
    assert NatToString(n) == NatToString(n / 10) + [DigitChar(n % 10)];
    assert NatToString(n / 10) == NatToString(n / 100) + [DigitChar(n / 10 % 10)];
    assert NatToString(n / 100) == NatToString(n / 1000) + [DigitChar(n / 100 % 10)];
    assert NatToString(n / 1000) == [DigitChar(n / 1000)];
  }

  /** When the newest row's date starts with a four-digit year, ingestion resumes at that year. */
  lemma {:induction false} ResumeAtNewestYear(data: seq<DayRecord>, startYear: int, y: int, monthDay: string)
    requires data != [] && 1000 <= y <= 9999 && data[|data| - 1].ymd == IntToString(y) + monthDay
    ensures ResumeYear(data, startYear) == Some(y)
  {
    FourDigitYear(y);
    assert Prefix(IntToString(y) + monthDay, 4) == IntToString(y);
    ParseIntRoundTrip(y);
  }

  /** When the newest row is a zero slot (a skipped line), its empty date makes `getData` fail. */
  lemma {:induction false} ResumeFailsOnSkippedRow(data: seq<DayRecord>, startYear: int)
    requires data != [] && data[|data| - 1] == ZeroDay
    ensures ResumeYear(data, startYear) == None
  {
    assert Prefix("", 4) == "";
    ParseIntRejectsNonNumerals("");
  }

  /** The sum of the per-year counts. */
  function Sum(counts: seq<nat>): nat
  {
    if |counts| == 0 then 0 else Sum(counts[..|counts| - 1]) + counts[|counts| - 1]
  }

  /** Two consecutive years at the end that added nothing: where `getData` gives up. */
  predicate EndsIdle(counts: seq<nat>)
  {
    |counts| >= 2 && counts[|counts| - 1] == 0 && counts[|counts| - 2] == 0
  }

  /** No year before the last one ended two idle years: `getData` did not stop earlier. */
  predicate NoEarlierStop(counts: seq<nat>)
  {
    forall k :: 2 <= k < |counts| ==> !EndsIdle(counts[..k])
  }

  /** Appending a year's count adds it to the sum. */
  lemma {:induction false} SumSnoc(counts: seq<nat>, x: nat)
    ensures Sum(counts + [x]) == Sum(counts) + x
  {
    assert (counts + [x])[..|counts|] == counts;
  }

  /** Two idle years at the end of `counts + [x]` are the last of `counts` and `x`; appending to
      counts that did not end idle cannot make an earlier year a stopping point. */
  lemma {:induction false} IdleSnoc(counts: seq<nat>, x: nat)
    requires NoEarlierStop(counts) && !EndsIdle(counts)
    ensures EndsIdle(counts + [x]) <==> counts != [] && counts[|counts| - 1] == 0 && x == 0
    ensures NoEarlierStop(counts + [x])
  {
    var c := counts + [x];
    forall k | 2 <= k < |c|
      ensures !EndsIdle(c[..k])
    {
      assert c[..k] == counts[..k];
    }
  }

  /** The object of `year` in the bucket, `None` when its key is missing. */
  function YearObject(bucket: map<string, S3Object>, ghcnPath: string, year: int): Option<S3Object>
  {
    var key := YearKey(ghcnPath, year);
    if key in bucket then Some(bucket[key]) else None
  }

  /** The lines `addYearData` reads for each year: those of the year's object in the bucket. */
  function LinesOfYears(bucket: map<string, S3Object>, ghcnPath: string, blockSize: int): int -> seq<string>
  {
    year => ObjectLines(YearObject(bucket, ghcnPath, year), blockSize)
  }

  /** The file after complete runs over the `n` years from `first`, one after the other, where
      `linesOf(year)` are the lines read for `year`. */
  function Ingested(p: Progress, linesOf: int -> seq<string>, first: int, n: nat): Progress
    decreases n
  {
    if n == 0 then p
    else
      var year := first + n - 1;
      YearRun(Ingested(p, linesOf, first, n - 1), year, linesOf(year))
  }

  /** The counts those runs return, year by year. */
  function YearCounts(p: Progress, linesOf: int -> seq<string>, first: int, n: nat): (counts: seq<nat>)
    ensures |counts| == n
    decreases n
  {
    if n == 0 then []
    else
      var year := first + n - 1;
      YearCounts(p, linesOf, first, n - 1) + [YearCount(Ingested(p, linesOf, first, n - 1), year, linesOf(year))]
  }

  /** Over the years, the table only grows, by the sum of the years' counts. */
  lemma {:induction false} IngestedGrows(p: Progress, linesOf: int -> seq<string>, first: int, n: nat)
    ensures p.data <= Ingested(p, linesOf, first, n).data
    ensures |Ingested(p, linesOf, first, n).data| == |p.data| + Sum(YearCounts(p, linesOf, first, n))
    decreases n
  {
    if n > 0 {
      var year := first + n - 1;
      var q := Ingested(p, linesOf, first, n - 1);
      var lines := linesOf(year);
      var r := YearRun(q, year, lines);
      var before := YearCounts(p, linesOf, first, n - 1);
      assert Ingested(p, linesOf, first, n) == r;
      assert YearCounts(p, linesOf, first, n) == before + [YearCount(q, year, lines)];
      IngestedGrows(p, linesOf, first, n - 1);
      YearRunGrows(q, year, lines);
      PrefixTrans(p.data, q.data, r.data);
      SumSnoc(before, YearCount(q, year, lines));
    }
  }

  /** One more year of the fold. */
  lemma {:induction false} IngestStep(p: Progress, linesOf: int -> seq<string>, first: int, n: nat)
    ensures var q := Ingested(p, linesOf, first, n);
      && Ingested(p, linesOf, first, n + 1) == YearRun(q, first + n, linesOf(first + n))
      && YearCounts(p, linesOf, first, n + 1)
         == YearCounts(p, linesOf, first, n) + [YearCount(q, first + n, linesOf(first + n))]
  {
  }

  lemma {:induction false} PrefixTrans<T>(a: seq<T>, b: seq<T>, c: seq<T>)
    requires a <= b && b <= c
    ensures a <= c
  {
    assert c[..|b|][..|a|] == c[..|a|];
  }

  /** One year of `getData`: look the year's key up and ingest its object. */
  method IngestYear(f: GhcnFile, ghcnPath: string, bucket: map<string, S3Object>, year: int,
                    blockSize: int)
    returns (thisYear: nat)
    modifies f`data, f`rowMarker
    ensures var lines := ObjectLines(YearObject(bucket, ghcnPath, year), blockSize);
      && Progress(f.data, f.rowMarker) == YearRun(Progress(old(f.data), old(f.rowMarker)), year, lines)
      && thisYear == YearCount(Progress(old(f.data), old(f.rowMarker)), year, lines)
  {
    var key := YearKey(ghcnPath, year);
    var obj := if key in bucket then Some(bucket[key]) else None;
    thisYear := AddYearData(f, year, obj, blockSize);
  }

  /** The loop of `getData`: ingest year after year from `first` until `last_year` is reached or
      two consecutive years add nothing. `counts` are the rows each visited year added, in order. */
  method IngestYears(f: GhcnFile, first: int, lastYear: int, ghcnPath: string,
                     bucket: map<string, S3Object>, blockSize: int)
    returns (totalAdded: nat, ghost counts: seq<nat>)
    modifies f`data, f`rowMarker
    ensures var p0 := Progress(old(f.data), old(f.rowMarker));
      var linesOf := LinesOfYears(bucket, ghcnPath, blockSize);
      && counts == YearCounts(p0, linesOf, first, |counts|)
      && Progress(f.data, f.rowMarker) == Ingested(p0, linesOf, first, |counts|)
    ensures totalAdded == Sum(counts)
    ensures counts == [] <==> first >= lastYear
    ensures counts != [] ==> first + |counts| <= lastYear
    ensures first + |counts| >= lastYear || EndsIdle(counts)
    ensures NoEarlierStop(counts)
  {
    counts := [];
    var year := first;
    ghost var p0 := Progress(f.data, f.rowMarker);
    totalAdded := 0;
    var previous: int := -1;
    while true
      invariant year == first + |counts| && (counts != [] ==> year <= lastYear)
      invariant previous == if counts == [] then -1 else counts[|counts| - 1]
      invariant counts == YearCounts(p0, LinesOfYears(bucket, ghcnPath, blockSize), first, |counts|)
      invariant Progress(f.data, f.rowMarker) == Ingested(p0, LinesOfYears(bucket, ghcnPath, blockSize), first, |counts|)
      invariant totalAdded == Sum(counts)
      invariant NoEarlierStop(counts) && !EndsIdle(counts)
      decreases lastYear - year
    {
      if year >= lastYear {
        break;
      }
      assert LinesOfYears(bucket, ghcnPath, blockSize)(year) == ObjectLines(YearObject(bucket, ghcnPath, year), blockSize);
      IngestStep(p0, LinesOfYears(bucket, ghcnPath, blockSize), first, |counts|);
      var thisYear := IngestYear(f, ghcnPath, bucket, year, blockSize);
      totalAdded := totalAdded + thisYear;
      SumSnoc(counts, thisYear);
      IdleSnoc(counts, thisYear);
      counts := counts + [thisYear];
      if previous == 0 && thisYear == 0 {
        break;
      }
      previous := thisYear;
      year := year + 1;
    }
  }

  /** `getData(f)`: from the resume year, run the year loop; a missing resume year is the
      `ValueError` of `int('')`. */
  method GetData(f: GhcnFile, startYear: int, lastYear: int, ghcnPath: string,
                 bucket: map<string, S3Object>, blockSize: int)
    returns (r: Result<nat, string>, ghost counts: seq<nat>)
    modifies f`data, f`rowMarker
    ensures r.Err? <==> ResumeYear(old(f.data), startYear).None?
    ensures r.Err? ==> f.data == old(f.data) && f.rowMarker == old(f.rowMarker)
    ensures r.Ok? ==> var first := ResumeYear(old(f.data), startYear).value;
      var p0 := Progress(old(f.data), old(f.rowMarker));
      var linesOf := LinesOfYears(bucket, ghcnPath, blockSize);
      && counts == YearCounts(p0, linesOf, first, |counts|)
      && Progress(f.data, f.rowMarker) == Ingested(p0, linesOf, first, |counts|)
    ensures r.Ok? ==> old(f.data) <= f.data && r.value == |f.data| - |old(f.data)| == Sum(counts)
    ensures r.Ok? ==> var first := ResumeYear(old(f.data), startYear).value;
      && (counts == [] <==> first >= lastYear)
      && (counts != [] ==> first + |counts| <= lastYear)
      && (first + |counts| >= lastYear || EndsIdle(counts))
      && NoEarlierStop(counts)
  {
    counts := [];
    var resume := ResumeYear(f.data, startYear);
    if resume.None? {
      return Err("ValueError"), counts;
    }
    ghost var p0 := Progress(f.data, f.rowMarker);
    var totalAdded;
    totalAdded, counts := IngestYears(f, resume.value, lastYear, ghcnPath, bucket, blockSize);
    IngestedGrows(p0, LinesOfYears(bucket, ghcnPath, blockSize), resume.value, |counts|);
    return Ok(totalAdded), counts;
  }
}
