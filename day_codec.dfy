/** The per-line decisions of `addRows`: split a CSV line into fields, skip it unless it has
    exactly eight, clamp the value to 16 bits and trim the flags and the observation time. */
module DayCodec {
  import opened Results
  import opened Text
  import opened Schema

  /** Stored in place of a value that does not parse or does not fit in 16 bits. */
  const Sentinel: Int16 := -999

  /** `data_value`: `int(field)` when it parses and fits a signed short, else the sentinel. */
  function DataValue(field: string): (r: Int16)
    ensures r == Sentinel || ParseInt(field) == Some(r as int)
    ensures ParseInt(field).None? ==> r == Sentinel
    ensures ParseInt(field).Some? && MinShort <= ParseInt(field).value <= MaxShort ==>
              r as int == ParseInt(field).value
    ensures ParseInt(field).Some? && !(MinShort <= ParseInt(field).value <= MaxShort) ==>
              r == Sentinel
  {
    match ParseInt(field)
    case Some(n) => if MinShort <= n <= MaxShort then n as Int16 else Sentinel
    case None => Sentinel
  }

  /** A printed number is stored as itself when it fits in 16 bits and as the sentinel otherwise. */
  lemma {:induction false} DataValueOfNumber(n: int)
    ensures MinShort <= n <= MaxShort ==> DataValue(IntToString(n)) as int == n
    ensures !(MinShort <= n <= MaxShort) ==> DataValue(IntToString(n)) == Sentinel
  {
    ParseIntRoundTrip(n);
  }

  /** A field without any digit (the empty field among them) is stored as the sentinel. */
  lemma {:induction false} DataValueOfText(field: string)
    requires forall i :: 0 <= i < |field| ==> !IsDigit(field[i])
    ensures DataValue(field) == Sentinel
  {
    ParseIntRejectsNonNumerals(field);
  }

  /** `m_flag`, `q_flag`, `s_flag`: the field, cut to its first character when longer. */
  function Flag(f: string): (r: string)
    ensures r <= f && |r| == Min(|f|, FlagWidth)
  {
    if |f| > 1 then [f[0]] else f
  }

  /** `obs_time`: the field, cut to its first four characters when longer. */
  function ObsTime(f: string): (r: string)
    ensures r <= f && |r| == Min(|f|, ObsTimeWidth)
  {
    if |f| > 4 then f[..4] else f
  }

  /** The record a line decodes to, or `None` when its comma split is not eight fields. */
  function DecodeDay(row: string): (r: Option<DayRecord>)
    ensures r.None? <==> |Split(row, ',')| != FieldCount
  {
    var fields := Split(row, ',');
    if |fields| != FieldCount then None
    else Some(DayRecord(
      Prefix(fields[0], StationIdWidth),
      Prefix(fields[1], YmdWidth),
      Prefix(fields[2], ElementWidth),
      DataValue(fields[3]),
      Flag(fields[4]),
      Flag(fields[5]),
      Flag(fields[6]),
      ObsTime(fields[7])))
  }

  /** What the slot of a line holds: its record, or the zero record when it was skipped. */
  function DecodeSlot(row: string): DayRecord
  {
    match DecodeDay(row)
    case Some(d) => d
    case None => ZeroDay
  }

  /** The slab `addRows` writes: one slot per input line, skipped lines included. */
  function Slots(rows: seq<string>): (slab: seq<DayRecord>)
    ensures |slab| == |rows|
  {
    seq(|rows|, i requires 0 <= i < |rows| => DecodeSlot(rows[i]))
  }

  /** The slab of a concatenation is the concatenation of the slabs. */
  lemma {:induction false} SlotsAppend(a: seq<string>, b: seq<string>)
    ensures Slots(a + b) == Slots(a) + Slots(b)
  {
    var l, r := Slots(a + b), Slots(a) + Slots(b);
    forall i | 0 <= i < |a + b|
      ensures l[i] == r[i]
    {
      if i < |a| {
        assert (a + b)[i] == a[i];
      } else {
        assert (a + b)[i] == b[i - |a|];
      }
    }
  }

  /** A line whose split is not eight fields occupies a zero slot; any other its decoded record. */
  lemma {:induction false} SlotsSkipRule(rows: seq<string>, i: nat)
    requires i < |rows|
    ensures |Split(rows[i], ',')| != FieldCount ==> Slots(rows)[i] == ZeroDay
    ensures |Split(rows[i], ',')| == FieldCount ==> Some(Slots(rows)[i]) == DecodeDay(rows[i])
  {
  }

  /** A record whose fields fit their slots and hold no comma. */
  predicate Writable(r: DayRecord)
  {
    && |r.stationId| <= StationIdWidth && |r.ymd| <= YmdWidth && |r.element| <= ElementWidth
    && |r.mFlag| <= FlagWidth && |r.qFlag| <= FlagWidth && |r.sFlag| <= FlagWidth
    && |r.obsTime| <= ObsTimeWidth
    && ',' !in r.stationId && ',' !in r.ymd && ',' !in r.element
    && ',' !in r.mFlag && ',' !in r.qFlag && ',' !in r.sFlag && ',' !in r.obsTime
  }

  /** The CSV line of a record, in the layout of the yearly files. */
  function FormatDay(r: DayRecord): string
  {
    Join([r.stationId, r.ymd, r.element, IntToString(r.dataValue as int),
          r.mFlag, r.qFlag, r.sFlag, r.obsTime], ',')
  }

  /** Decoding a formatted record gives the record back. */
  lemma {:induction false} DecodeFormat(r: DayRecord)
    requires Writable(r)
    ensures DecodeDay(FormatDay(r)) == Some(r)
  {
    var v := IntToString(r.dataValue as int);
    NoCommaInNumber(r.dataValue as int);
    var parts := [r.stationId, r.ymd, r.element, v, r.mFlag, r.qFlag, r.sFlag, r.obsTime];
    SplitJoin(parts, ',');
    assert Split(FormatDay(r), ',') == parts;
    DataValueOfNumber(r.dataValue as int);
    assert DataValue(v) == r.dataValue;
    assert Prefix(r.stationId, StationIdWidth) == r.stationId;
    assert Prefix(r.ymd, YmdWidth) == r.ymd;
    assert Prefix(r.element, ElementWidth) == r.element;
    assert Flag(r.mFlag) == r.mFlag && Flag(r.qFlag) == r.qFlag && Flag(r.sFlag) == r.sFlag;
    assert ObsTime(r.obsTime) == r.obsTime;
  }

  lemma {:induction false} NoCommaInNumber(i: int)
    ensures ',' !in IntToString(i)
  {
    NoSpaceInNumber(i);
    var m: nat := if i < 0 then -i else i;
    NatToStringDigits(m);
    var s := IntToString(i);
    forall k | 0 <= k < |s| ensures s[k] != ',' {
      if i < 0 && k > 0 { assert s[k] == NatToString(m)[k - 1]; }
    }
  }

  /** Builds the slab of `addRows` as the source does: a zero-filled array, then every line
      with eight fields written into its own slot. */
  method DecodeSlab(rows: seq<string>) returns (slab: seq<DayRecord>)
    ensures slab == Slots(rows)
  {
    var arr := new DayRecord[|rows|](_ => ZeroDay);
    var i := 0;
    while i < |rows|
      invariant 0 <= i <= |rows|
      invariant arr[..i] == Slots(rows[..i])
      invariant forall j :: i <= j < |rows| ==> arr[j] == ZeroDay
    {
      var decoded := DecodeDay(rows[i]);
      if decoded.Some? {
        arr[i] := decoded.value;
      }
      assert arr[i] == DecodeSlot(rows[i]);
      SlotsSnoc(rows, i);
      assert arr[..i + 1] == arr[..i] + [arr[i]];
      i := i + 1;
    }
    assert rows[..i] == rows;
    slab := arr[..];
    assert slab == arr[..i];
  }

  /** The slab of one more line is one more slot. */
  lemma {:induction false} SlotsSnoc(rows: seq<string>, i: nat)
    requires i < |rows|
    ensures Slots(rows[..i + 1]) == Slots(rows[..i]) + [DecodeSlot(rows[i])]
  {
    assert rows[..i + 1] == rows[..i] + [rows[i]];
    SlotsAppend(rows[..i], [rows[i]]);
  }
}
