/** The record layouts of the two tables and of the progress marker: fixed-width ASCII
    slots, a signed 16-bit value, and 32-bit floats held as reals. */
module Schema {
  import opened Results
  import opened Text

  const MinShort: int := -32768
  const MaxShort: int := 32767

  /** numpy's `i2`. */
  newtype Int16 = x: int | -32768 <= x <= 32767

  /** A day line has exactly this many comma separated fields. */
  const FieldCount: nat := 8

  const StationIdWidth: nat := 11
  const YmdWidth: nat := 8
  const ElementWidth: nat := 4
  const FlagWidth: nat := 1
  const ObsTimeWidth: nat := 4

  /** One row of the `data` table (`dt_day`). String fields hold at most their slot width. */
  datatype DayRecord = DayRecord(
    stationId: string,
    ymd: string,
    element: string,
    dataValue: Int16,
    mFlag: string,
    qFlag: string,
    sFlag: string,
    obsTime: string)

  /** The value of a slot that `np.zeros` allocated and nothing wrote. */
  const ZeroDay: DayRecord := DayRecord("", "", "", 0, "", "", "", "")

  // A fixed-width byte-string slot keeps the first `width` characters of what is stored in it:
  // `Text.Prefix`.

  /** A byte of an `S` slot. */
  newtype Byte = x: int | 0 <= x < 256

  /** The `S` widths of the string fields of a station row. */
  const StateWidth: nat := 2
  const NameWidth: nat := 30
  const GsnFlagWidth: nat := 3
  const HcnFlagWidth: nat := 3
  const WmoIdWidth: nat := 5

  /** One row of the `stations` table. The name is kept as the bytes of its slot, because a
      name outside ASCII is stored encoded; the other text fields only ever hold ASCII. */
  datatype StationRecord = StationRecord(
    stationId: string,
    lat: real,
    lon: real,
    elev: real,
    state: string,
    name: seq<Byte>,
    gsnFlag: string,
    hcnFlag: string,
    wmoId: string)

  const ZeroStation: StationRecord := StationRecord("", 0.0, 0.0, 0.0, "", [], "", "", "")

  /** The `_row_marker` attribute of `data`: a year and the number of its lines already consumed. */
  datatype RowMarker = RowMarker(year: int, row: nat)

  /** What `getRowMarker` reads from the attribute for `year`: its row when it records that
      year, and 0 when it records another year or is missing. */
  function MarkerRow(marker: Option<RowMarker>, year: int): nat
  {
    match marker
    case Some(m) => if m.year == year then m.row else 0
    case None => 0
  }
}
