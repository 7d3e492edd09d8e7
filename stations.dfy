/** `getStations`: the reload of the fixed-width station catalog, gated by the object's ETag. */
module Stations {
  import opened Results
  import opened Text
  import opened Schema
  import opened ObjectStore
  import opened GhcnStore

  // ---------------------------------------------------------------------------
  // Text in byte slots

  /** Text numpy can store in an `S` slot as it is: assigning a `str` encodes it as ASCII and
      raises `UnicodeEncodeError` on anything else. */
  predicate IsAscii(s: string)
  {
    forall i :: 0 <= i < |s| ==> s[i] as int < 128
  }

  /** The UTF-8 encoding of one character: one byte for ASCII, up to four otherwise. */
  function Utf8Char(c: char): (r: seq<Byte>)
    ensures 1 <= |r| <= 4
    ensures |r| == 1 <==> c as int < 128
    ensures c as int < 128 ==> r == [c as int as Byte]
  {
    var n := c as int;
    if n < 0x80 then [n as Byte]
    else if n < 0x800 then [(0xC0 + n / 0x40) as Byte, (0x80 + n % 0x40) as Byte]
    else if n < 0x1_0000 then
      [(0xE0 + n / 0x1000) as Byte, (0x80 + n / 0x40 % 0x40) as Byte, (0x80 + n % 0x40) as Byte]
    else
      [(0xF0 + n / 0x4_0000) as Byte, (0x80 + n / 0x1000 % 0x40) as Byte,
       (0x80 + n / 0x40 % 0x40) as Byte, (0x80 + n % 0x40) as Byte]
  }

  /** `s.encode('utf-8')`. */
  function Utf8(s: string): (r: seq<Byte>)
    ensures |r| >= |s|
  {
    if s == [] then [] else Utf8(s[..|s| - 1]) + Utf8Char(s[|s| - 1])
  }

  /** The bytes of ASCII text are its characters. */
  lemma {:induction false} Utf8Ascii(s: string)
    requires IsAscii(s)
    ensures |Utf8(s)| == |s|
    ensures forall i :: 0 <= i < |s| ==> Utf8(s)[i] as int == s[i] as int
  {
    if s != [] {
      var init := s[..|s| - 1];
      assert IsAscii(init) by {
        assert forall i :: 0 <= i < |init| ==> init[i] == s[i];
      }
      Utf8Ascii(init);
    }
  }

  /** Text outside ASCII takes more bytes than characters. */
  lemma {:induction false} Utf8Grows(s: string)
    requires !IsAscii(s)
    ensures |Utf8(s)| > |s|
  {
    var init := s[..|s| - 1];
    if s[|s| - 1] as int < 128 {
      assert !IsAscii(init) by {
        var i :| 0 <= i < |s| && s[i] as int >= 128;
        assert i < |s| - 1 && init[i] == s[i];
      }
      Utf8Grows(init);
    }
  }

  /** `n` copies of a character take `n` times its encoding. */
  lemma {:induction false} Utf8Repeat(c: char, n: nat)
    ensures |Utf8(seq(n, _ => c))| == n * |Utf8Char(c)|
  {
    if n > 0 {
      var s := seq(n, _ => c);
      var init := seq(n - 1, _ => c);
      assert s[..n - 1] == init && s[n - 1] == c;
      Utf8Repeat(c, n - 1);
      var k := |Utf8Char(c)|;
      assert |Utf8(s)| == |Utf8(init)| + k;
      assert n * k == (n - 1) * k + k;
    }
  }

  /** The `name` slot as intended: the first 30 bytes of the name's UTF-8 encoding, which for an
      ASCII name are its characters, as numpy stores them. */
  function NameSlot(name: string): (r: seq<Byte>)
    ensures |r| == Min(|Utf8(name)|, NameWidth) && r == Utf8(name)[..|r|]
  {
    var b := Utf8(name);
    b[..Min(|b|, NameWidth)]
  }

  /** The `name` slot as written: an ASCII name is stored as it is; any other name is encoded and,
      when longer than 30 bytes, replaced by what follows its first 30 bytes, and numpy then
      keeps at most 30 bytes of that. */
  function NameAsWritten(name: string): (r: seq<Byte>)
    ensures IsAscii(name) ==> r == NameSlot(name)
    ensures !IsAscii(name) && |Utf8(name)| > NameWidth ==>
              r == Utf8(name)[NameWidth..Min(|Utf8(name)|, 2 * NameWidth)]
  {
    var b := Utf8(name);
    if IsAscii(name) then b[..Min(|b|, NameWidth)]
    else
      var kept := if |b| > NameWidth then b[NameWidth..] else b;
      kept[..Min(|kept|, NameWidth)]
  }

  /** A name outside ASCII that encodes to between 31 and 59 bytes loses its first 30 bytes: the
      stored slot is shorter than the 30 bytes the truncation meant to keep, and does not start
      the name. */
  lemma NameSliceLosesHead(name: string)
    requires !IsAscii(name) && NameWidth < |Utf8(name)| < 2 * NameWidth
    ensures |NameAsWritten(name)| < NameWidth == |NameSlot(name)|
    ensures NameAsWritten(name) != NameSlot(name)
  {
  }

  /** Sixteen copies of "é" (32 bytes): the slot keeps the last "é" alone, where the truncation
      meant to keep the first fifteen. */
  lemma NameSliceCounterexample()
    ensures var name := seq(16, _ => 'é');
            |NameAsWritten(name)| == 2 && |NameSlot(name)| == 30
  {
    var name := seq(16, _ => 'é');
    Utf8Repeat('é', 16);
    assert !IsAscii(name) by { assert name[0] as int >= 128; }
  }

  // ---------------------------------------------------------------------------
  // One station line

  /** The columns of a station line. The one-character gaps between them are not read. */
  function IdColumn(row: string): string { Strip(Slice(row, 0, 11)) }
  function LatColumn(row: string): string { Slice(row, 11, 20) }
  function LonColumn(row: string): string { Slice(row, 21, 30) }
  function ElevColumn(row: string): string { Slice(row, 31, 37) }
  function StateColumn(row: string): string { Strip(Slice(row, 38, 40)) }
  function NameColumn(row: string): string { Strip(Slice(row, 41, 71)) }
  function GsnColumn(row: string): string { Strip(Slice(row, 72, 75)) }
  function HcnColumn(row: string): string { Strip(Slice(row, 76, 79)) }
  function WmoColumn(row: string): string { Strip(Slice(row, 80, 85)) }

  /** The message of the exception that aborts the reload. */
  const EncodeError: string := "UnicodeEncodeError"

  /** The slot of `arr` after the loop body ran on `row`. The body writes the fields one by one into
      a view of the slot, so a `continue` keeps the fields written before it. `toFloat` is Python's
      `float`, `None` where it raises `ValueError`. A station id or state outside ASCII raises
      out of `getStations`. */
  function DecodeStation(row: string, toFloat: string -> Option<real>): (r: Result<StationRecord, string>)
    ensures |IdColumn(row)| != StationIdWidth ==> r == Ok(ZeroStation)
    ensures r.Err? ==> |IdColumn(row)| == StationIdWidth && r.error == EncodeError
    ensures r.Err? <==> |IdColumn(row)| == StationIdWidth &&
                        (|| !IsAscii(IdColumn(row))
                         || (&& toFloat(LatColumn(row)).Some? && toFloat(LonColumn(row)).Some?
                             && toFloat(ElevColumn(row)).Some? && !IsAscii(StateColumn(row))))
    ensures r.Ok? && |IdColumn(row)| == StationIdWidth ==>
              r.value.stationId == IdColumn(row) && IsAscii(IdColumn(row))
    ensures r.Ok? ==> |r.value.stationId| in {0, StationIdWidth} && |r.value.name| <= NameWidth
    ensures r.Ok? && r.value.name != [] ==> r.value.name == NameSlot(NameColumn(row))
    ensures r.Ok? && r.value.stationId != "" && IsAscii(StateColumn(row))
              && toFloat(LatColumn(row)).Some? && toFloat(LonColumn(row)).Some?
              && toFloat(ElevColumn(row)).Some? ==>
              && r.value.lat == toFloat(LatColumn(row)).value
              && r.value.lon == toFloat(LonColumn(row)).value
              && r.value.elev == toFloat(ElevColumn(row)).value
              && r.value.state == StateColumn(row)
              && r.value.name == NameSlot(NameColumn(row))
    ensures |IdColumn(row)| == StationIdWidth && IsAscii(IdColumn(row)) && toFloat(LatColumn(row)).None? ==>
              r == Ok(ZeroStation.(stationId := IdColumn(row)))
  {
    var id := IdColumn(row);
    if |id| == 0 || |id| != StationIdWidth then Ok(ZeroStation)
    else if !IsAscii(id) then Err(EncodeError)
    else DecodeCoordinates(row, ZeroStation.(stationId := id), toFloat)
  }

  /** Latitude, longitude and elevation in turn; the first that does not parse ends the row with
      the fields so far. */
  function DecodeCoordinates(row: string, e: StationRecord, toFloat: string -> Option<real>)
    : (r: Result<StationRecord, string>)
    ensures r.Err? ==> r.error == EncodeError
    ensures r.Ok? ==> r.value.stationId == e.stationId
    ensures r.Ok? ==> r.value.name == e.name || r.value.name == NameSlot(NameColumn(row))
    ensures r.Ok? && toFloat(LatColumn(row)).Some? && toFloat(LonColumn(row)).Some?
              && toFloat(ElevColumn(row)).Some? ==>
              && r.value.lat == toFloat(LatColumn(row)).value
              && r.value.lon == toFloat(LonColumn(row)).value
              && r.value.elev == toFloat(ElevColumn(row)).value
              && r.value.state == StateColumn(row)
              && r.value.name == NameSlot(NameColumn(row))
    ensures r.Err? <==> && toFloat(LatColumn(row)).Some? && toFloat(LonColumn(row)).Some?
                        && toFloat(ElevColumn(row)).Some? && !IsAscii(StateColumn(row))
    ensures toFloat(LatColumn(row)).None? ==> r == Ok(e)
    ensures r.Ok? ==> r.value.lat == (if toFloat(LatColumn(row)).Some? then toFloat(LatColumn(row)).value
                                      else e.lat)
    ensures r.Ok? ==> r.value.lon == (if toFloat(LatColumn(row)).Some? && toFloat(LonColumn(row)).Some?
                                      then toFloat(LonColumn(row)).value else e.lon)
    ensures r.Ok? ==> r.value.elev == (if && toFloat(LatColumn(row)).Some? && toFloat(LonColumn(row)).Some?
                                          && toFloat(ElevColumn(row)).Some?
                                       then toFloat(ElevColumn(row)).value else e.elev)
    ensures r.Ok? && !(toFloat(LatColumn(row)).Some? && toFloat(LonColumn(row)).Some?
                       && toFloat(ElevColumn(row)).Some?) ==>
              r.value.(lat := e.lat, lon := e.lon, elev := e.elev) == e
  {
    match toFloat(LatColumn(row))
    case None => Ok(e)
    case Some(lat) =>
      var e := e.(lat := lat);
      match toFloat(LonColumn(row))
      case None => Ok(e)
      case Some(lon) =>
        var e := e.(lon := lon);
        match toFloat(ElevColumn(row))
        case None => Ok(e)
        case Some(elev) => DecodeTextFields(row, e.(elev := elev))
  }

  /** The text fields after the elevation: a state outside ASCII raises; a name outside ASCII is
      stored encoded; a flag or WMO id outside ASCII ends the row with the fields so far. */
  function DecodeTextFields(row: string, e: StationRecord): (r: Result<StationRecord, string>)
    ensures r.Err? <==> !IsAscii(StateColumn(row))
    ensures r.Err? ==> r.error == EncodeError
    ensures r.Ok? ==> && r.value.stationId == e.stationId && r.value.lat == e.lat
                      && r.value.lon == e.lon && r.value.elev == e.elev
                      && r.value.state == StateColumn(row)
                      && r.value.name == NameSlot(NameColumn(row))
    ensures r.Ok? && IsAscii(GsnColumn(row)) && IsAscii(HcnColumn(row)) && IsAscii(WmoColumn(row)) ==>
              && r.value.gsnFlag == GsnColumn(row) && r.value.hcnFlag == HcnColumn(row)
              && r.value.wmoId == WmoColumn(row)
    ensures r.Ok? ==> r.value.gsnFlag == (if IsAscii(GsnColumn(row)) then GsnColumn(row) else e.gsnFlag)
    ensures r.Ok? ==> r.value.hcnFlag == (if IsAscii(GsnColumn(row)) && IsAscii(HcnColumn(row))
                                          then HcnColumn(row) else e.hcnFlag)
    ensures r.Ok? ==> r.value.wmoId == (if IsAscii(GsnColumn(row)) && IsAscii(HcnColumn(row))
                                           && IsAscii(WmoColumn(row))
                                        then WmoColumn(row) else e.wmoId)
  {
    var state := StateColumn(row);
    if !IsAscii(state) then Err(EncodeError)
    else
      var e := e.(state := state, name := NameSlot(NameColumn(row)));
      var gsn := GsnColumn(row);
      if !IsAscii(gsn) then Ok(e)
      else
        var e := e.(gsnFlag := gsn);
        var hcn := HcnColumn(row);
        if !IsAscii(hcn) then Ok(e)
        else
          var e := e.(hcnFlag := hcn);
          var wmo := WmoColumn(row);
          if !IsAscii(wmo) then Ok(e) else Ok(e.(wmoId := wmo))
  }

  // ---------------------------------------------------------------------------
  // All the lines

  /** The values of `results`, or the first error among them. */
  function Collect<T, E>(results: seq<Result<T, E>>): (r: Result<seq<T>, E>)
    decreases |results|
  {
    if results == [] then Ok([])
    else match results[0]
      case Err(e) => Err(e)
      case Ok(v) =>
        match Collect(results[1..])
        case Err(e) => Err(e)
        case Ok(rest) => Ok([v] + rest)
  }

  /** The values exist exactly when no result is an error, and then there is one per result. */
  lemma {:induction false} CollectOk<T, E>(results: seq<Result<T, E>>)
    ensures Collect(results).Ok? <==> forall i :: 0 <= i < |results| ==> results[i].Ok?
    ensures Collect(results).Ok? ==>
              && |Collect(results).value| == |results|
              && forall i :: 0 <= i < |results| ==> results[i] == Ok(Collect(results).value[i])
    decreases |results|
  {
    if results != [] {
      var rest := results[1..];
      CollectOk(rest);
      assert forall i :: 1 <= i < |results| ==> rest[i - 1] == results[i];
    }
  }

  /** The error is the first one. */
  lemma {:induction false} CollectFirstError<T, E>(results: seq<Result<T, E>>, k: nat)
    requires k < |results| && results[k].Err?
    requires forall i :: 0 <= i < k ==> results[i].Ok?
    ensures Collect(results) == Err(results[k].error)
    decreases k
  {
    if k > 0 {
      var rest := results[1..];
      assert forall i :: 0 <= i < k - 1 ==> rest[i] == results[i + 1];
      CollectFirstError(rest, k - 1);
    }
  }

  /** What each line leaves in its slot, or raises. */
  function DecodeAll(rows: seq<string>, toFloat: string -> Option<real>): (r: seq<Result<StationRecord, string>>)
    ensures |r| == |rows| && forall i :: 0 <= i < |rows| ==> r[i] == DecodeStation(rows[i], toFloat)
  {
    seq(|rows|, i requires 0 <= i < |rows| => DecodeStation(rows[i], toFloat))
  }

  /** The slab written to `stations[:count]`, or the exception that the first failing line raises. */
  function StationSlab(rows: seq<string>, toFloat: string -> Option<real>): Result<seq<StationRecord>, string>
  {
    Collect(DecodeAll(rows, toFloat))
  }

  /** The slab exists exactly when no line raises, and then holds each line's slot in order. */
  lemma StationSlabOk(rows: seq<string>, toFloat: string -> Option<real>)
    ensures StationSlab(rows, toFloat).Ok? <==> forall i :: 0 <= i < |rows| ==> DecodeStation(rows[i], toFloat).Ok?
    ensures StationSlab(rows, toFloat).Ok? ==>
              && |StationSlab(rows, toFloat).value| == |rows|
              && forall i :: 0 <= i < |rows| ==> DecodeStation(rows[i], toFloat) == Ok(StationSlab(rows, toFloat).value[i])
  {
    CollectOk(DecodeAll(rows, toFloat));
  }

  /** The loop over the lines: `arr = np.zeros(count)` filled slot by slot. */
  method DecodeStations(rows: seq<string>, toFloat: string -> Option<real>)
    returns (r: Result<seq<StationRecord>, string>)
    ensures r == StationSlab(rows, toFloat)
  {
    var arr := new StationRecord[|rows|](_ => ZeroStation);
    var i := 0;
    while i < |rows|
      invariant 0 <= i <= |rows|
      invariant forall j :: 0 <= j < i ==> DecodeStation(rows[j], toFloat) == Ok(arr[j])
    {
      var e := DecodeStation(rows[i], toFloat);
      if e.Err? {
        CollectFirstError(DecodeAll(rows, toFloat), i);
        return Err(e.error);
      }
      arr[i] := e.value;
      i := i + 1;
    }
    StationSlabOk(rows, toFloat);
    assert arr[..] == StationSlab(rows, toFloat).value;
    return Ok(arr[..]);
  }

  // ---------------------------------------------------------------------------
  // The reload

  /** The ETag `getStations` compares: the HEAD answer's, or the empty string when HEAD failed. */
  function HeadEtag(head: HeadResult): string
  {
    if head.Found? then head.etag else ""
  }

  /** The catalog is reloaded when the key exists, its ETag differs from the saved one, and the GET
      returned some bytes (`body` is `None` when it failed). */
  predicate Reloads(savedEtag: string, head: HeadResult, body: Option<string>)
  {
    !head.NoSuchKey? && HeadEtag(head) != savedEtag && body.Some? && body.value != ""
  }

  /** Writing `slab` over the front of `table`, growing the table to the slab's length first. */
  function Overwrite(table: seq<StationRecord>, slab: seq<StationRecord>): (r: seq<StationRecord>)
    ensures |r| == Max(|table|, |slab|)
    ensures r[..|slab|] == slab && r[|slab|..] == table[Min(|slab|, |table|)..]
  {
    slab + table[Min(|slab|, |table|)..]
  }

  /** `getStations(f)`: 0 and nothing written when the key is missing, the ETag is unchanged or the
      object is empty; otherwise every line is decoded, the table grows to the line count when
      smaller, the slab is written over its front, and only then is the new ETag saved. */
  method GetStations(f: GhcnFile, head: HeadResult, body: Option<string>, toFloat: string -> Option<real>)
    returns (r: Result<nat, string>)
    modifies f`stations, f`stationEtag
    ensures !Reloads(old(f.StationEtag()), head, body) ==>
              r == Ok(0) && f.stations == old(f.stations) && f.stationEtag == old(f.stationEtag)
    ensures Reloads(old(f.StationEtag()), head, body) ==>
              var rows := Split(body.value, '\n');
              match StationSlab(rows, toFloat)
              case Err(e) => r == Err(e) && f.stations == old(f.stations) && f.stationEtag == old(f.stationEtag)
              case Ok(slab) =>
                && r == Ok(|rows|) && |slab| == |rows| > 0
                && f.stations == Overwrite(old(f.stations), slab)
                && f.stationEtag == Some(HeadEtag(head))
    ensures |f.stations| >= |old(f.stations)|
  {
    var etag := "";
    match head {
      case NoSuchKey => return Ok(0);
      case Found(t) => etag := t;
      case HeadFailed =>
    }
    if f.StationEtag() == etag {
      return Ok(0);
    }
    if body.None? || |body.value| == 0 {
      return Ok(0);
    }
    var rows := Split(body.value, '\n');
    var count := |rows|;
    var arr := DecodeStations(rows, toFloat);
    if arr.Err? {
      return Err(arr.error);
    }
    StationSlabOk(rows, toFloat);
    if |f.stations| < count {
      f.stations := f.stations + seq(count - |f.stations|, _ => ZeroStation);
    }
    f.stations := arr.value + f.stations[count..];
    f.SetStationEtag(etag);
    return Ok(count);
  }
}
