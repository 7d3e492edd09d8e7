/** The HDF5 file the collector keeps up to date: the `data` table of day rows with its
    `_row_marker` attribute, and the `stations` table with its `_etag` attribute. The tables are
    extensible one-dimensional datasets; a field of type `seq` stands for each. */
module GhcnStore {
  import opened Results
  import opened Text
  import opened Schema
  import opened DayCodec

  class GhcnFile {
    /** The rows of the `data` table, oldest first. */
    var data: seq<DayRecord>
    /** `data.attrs["_row_marker"]`, when the attribute exists. */
    var rowMarker: Option<RowMarker>
    /** The rows of the `stations` table. */
    var stations: seq<StationRecord>
    /** `stations.attrs["_etag"]`, when the attribute exists. */
    var stationEtag: Option<string>

    /** An opened file in the given state. */
    constructor (data: seq<DayRecord>, rowMarker: Option<RowMarker>,
                 stations: seq<StationRecord>, stationEtag: Option<string>)
      ensures this.data == data && this.rowMarker == rowMarker
      ensures this.stations == stations && this.stationEtag == stationEtag
    {
      this.data := data;
      this.rowMarker := rowMarker;
      this.stations := stations;
      this.stationEtag := stationEtag;
    }

    /** `getRowMarker(f, year)`: the rows of `year` already consumed; 0 when the attribute is
        missing or records another year. */
    function RowMarkerFor(year: int): (row: nat)
      reads this
      ensures rowMarker.Some? && rowMarker.value.year == year ==> row == rowMarker.value.row
      ensures rowMarker.None? || rowMarker.value.year != year ==> row == 0
    {
      MarkerRow(rowMarker, year)
    }

    /** `setRowMarker(f, year, row)`: replaces the attribute, whatever year it recorded. */
    method SetRowMarker(year: int, row: nat)
      modifies this`rowMarker
      ensures rowMarker == Some(RowMarker(year, row))
      ensures RowMarkerFor(year) == row
      ensures forall y :: y != year ==> RowMarkerFor(y) == 0
    {
      rowMarker := Some(RowMarker(year, row));
    }

    /** `getStationEtag(f)`: the saved ETag, or the empty string when none was ever saved. */
    function StationEtag(): (etag: string)
      reads this
      ensures stationEtag.Some? ==> etag == stationEtag.value
      ensures stationEtag.None? ==> etag == ""
    {
      match stationEtag
      case Some(e) => e
      case None => ""
    }

    /** `setStationEtag(f, etag)`: replaces the attribute. */
    method SetStationEtag(etag: string)
      modifies this`stationEtag
      ensures stationEtag == Some(etag) && StationEtag() == etag
    {
      stationEtag := Some(etag);
    }

    /** `addRows(f, rows)`: nothing (and no count) for no lines; otherwise the table grows by
        one slot per line, skipped lines included, and the count of lines is returned. */
    method AddRows(rows: seq<string>) returns (count: Option<nat>)
      modifies this`data
      ensures rows == [] ==> count == None && data == old(data)
      ensures rows != [] ==> count == Some(|rows|) && data == old(data) + Slots(rows)
      ensures old(data) <= data && |data| == |old(data)| + |rows|
    {
      if |rows| == 0 {
        return None;
      }
      var slab := DecodeSlab(rows);
      var nextRow := |data|;
      data := data + slab;
      assert data[nextRow..] == slab;
      return Some(|rows|);
    }
  }

  /** Appending the lines of well-formed records stores exactly those records. */
  lemma {:induction false} SlotsOfFormatted(records: seq<DayRecord>)
    requires forall i :: 0 <= i < |records| ==> Writable(records[i])
    ensures Slots(seq(|records|, i requires 0 <= i < |records| => FormatDay(records[i]))) == records
  {
    var lines := seq(|records|, i requires 0 <= i < |records| => FormatDay(records[i]));
    forall i | 0 <= i < |records|
      ensures Slots(lines)[i] == records[i]
    {
      DecodeFormat(records[i]);
    }
  }
}
