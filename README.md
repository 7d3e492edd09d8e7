# GHCN-D collector: a Dafny model of its ingestion core

The collector keeps an HDF5 store up to date with data from the Global Historical Climatology
Network daily (GHCN-D) corpus, which it reads from an S3 mirror. The store holds two things:

- an append-only `data` table of day records, with a `_row_marker` attribute (year, lines
  consumed);
- a `stations` catalog, with an `_etag` attribute.

This project models, and proves properties of, the following parts of the collector:

- **`addRows`**, the day-line decoder and appender. It splits a line on commas, writes a zero
  slot for a line without exactly eight fields, and clamps the value to 16 bits with the
  sentinel -999. It cuts the flags to one character and the observation time to four, and
  grows the table by the number of lines.
- **`getRowMarker` / `setRowMarker`** and **`getStationEtag` / `setStationEtag`**, the
  attributes of the file.
- **`addYearData`**, the resumable range reader of one year's CSV object. It fetches inclusive
  byte ranges, clamped to the object's length, and reframes each chunk into whole lines. It
  skips the lines the row marker already covers, appends the rest, then moves the marker.
- **`getData`**, the driver over the years. It resumes at the year of the newest row and stops
  at `last_year`, or after two consecutive years that added nothing.
- **`getStations`**, the ETag-gated reload of the fixed-width station catalog. It covers the
  column slicing, the id checks, the encoding failures, the grow-only write, and setting the
  ETag last.
- **The log-level mapping**, done once at start-up.
- **The `config.py` rules**:
  - `_has_unit` and the k/m/g expansion;
  - `getCmdLineArg`;
  - the per-key override precedence (command line, then environment, then `override.yml`);
  - the conversion to the type of the YAML value;
  - the choice of the configuration directories and files;
  - `get`, with its default and its `KeyError`.

How each part is modelled:

- The HDF5 file is a class, `GhcnStore.GhcnFile`. Its tables are `seq` fields and its
  attributes are `Option` fields, and its methods update them in place.
- An S3 object is a value: its body, its ETag, and the range starts at which a GET fails
  transiently. A ranged GET is a slice of the body, `body[first .. min(last + 1, |body|)]`.
- The configuration module's `cfg` dictionary is a class, `Config.Settings`, with a `map`
  field. The command line, the environment, the set of existing files and the YAML parser are
  an `Environment` value.
- Python's `split`, `strip`, slicing, `int` and `str` are modelled in `Text`.

Two places where the code does not do what it evidently means are listed under "## Findings"
below. For each one, the model keeps the code as written, proves a counterexample against it,
and otherwise uses the corrected behaviour.

Where the description of the system and the code disagree, the model follows the code:

- **Station floats that fail to parse.** A latitude, longitude or elevation that does not parse
  does not blank the slot. The loop writes into a view of the slot (`e = arr[i]`), so the
  fields written before the `continue` stay.
- **Station names outside ASCII.** Such a name is not truncated to its first 30 bytes (see
  "## Findings").
- **Station slot widths.** `ghcn_dtype.py` does not define the `dt_station` that
  `ghcn_update.py` imports. The station slots follow the documented layout: S11, f4, f4, f4, S2,
  S30, S3, S3, S5.

## Model

Some definitions have no contract of their own and are specified only by the lemmas about them:

- `Reframer.Emitted`, the loop with the tail rule as written;
- `Reframer.IntendedEmitted`, the loop with the corrected rule;
- `Reframer.WholeRows`, what one read of a whole object keeps;
- `YearIngest.YearRun` and `YearIngest.YearCount`, one complete run of `addYearData`;
- `YearIngest.Ingested` and `YearIngest.YearCounts`, the runs of `getData` year after year;
- `Text.ParseInt`, Python's `int`;
- `Stations.StationSlab`, the slab of the station lines;
- `Stations.Reloads`, the ETag gate of `getStations`.

The rows below name each of them next to the lemma that states what it means.

| member | source | states |
|---|---|---|
| `Text.Split` | ghcn_update.py:227 | a split always gives at least one piece |
| `Text.JoinSplit` | ghcn_update.py:227 | joining the `\n`-pieces of a chunk gives the chunk back, so the split drops no character |
| `Text.SplitJoin` | ghcn_update.py:62 | a line made of comma-free fields joined by commas splits back into exactly those fields |
| `Text.SplitConcat` | ghcn_update.py:227 | the pieces of `a + sep + b` are the pieces of `a` followed by the pieces of `b` |
| `Text.SplitNoSep` | ghcn_update.py:227 | text without the separator is one piece |
| `Text.LinesConcat` | ghcn_update.py:227-234 | the complete lines of `a + "\n" + b` are the pieces of `a` followed by the lines of `b` |
| `Text.Strip` | ghcn_update.py:355 | the result is a window `s[a..b]` of the text with only whitespace outside it, and no whitespace at either of its ends; text without whitespace is unchanged |
| `Text.Slice` | ghcn_update.py:355-412 | a column slice has the clamped length and reads the row's characters at their offsets, also past the end of a short row |
| `Text.ParseIntRoundTrip` | ghcn_update.py:80 | `int(str(i)) == i` for every integer (`ParseInt`) |
| `Text.ParseIntRejectsNonNumerals` | ghcn_update.py:79-83 | `int` (`ParseInt`) fails on text with no digit, the empty field included |
| `DayCodec.DataValue` | ghcn_update.py:79-90 | when `int` (`ParseInt`) accepts the field and its value lies in [-32768, 32767], that value is stored; when `int` fails or the value lies outside that range, the sentinel -999 is stored |
| `DayCodec.DecodeDay` | ghcn_update.py:62-65 | a line decodes to no record exactly when its comma split is not eight fields |
| `DayCodec.DataValueOfNumber` | ghcn_update.py:79-90 | a printed number is stored as itself when it lies in [-32768, 32767], and as -999 otherwise |
| `DayCodec.DataValueOfText` | ghcn_update.py:79-83 | a value field without any digit is stored as -999 |
| `DayCodec.Flag` | ghcn_update.py:91-105 | a stored flag is a prefix of the field of length at most 1: the first character when the field is longer |
| `DayCodec.ObsTime` | ghcn_update.py:106-110 | a stored observation time is a prefix of the field of length at most 4 |
| `DayCodec.Slots` | ghcn_update.py:59-60 | the slab has one slot per input line |
| `DayCodec.SlotsSkipRule` | ghcn_update.py:59-66 | a line without exactly eight fields leaves a zero slot; any other line leaves its decoded record |
| `DayCodec.SlotsAppend` | ghcn_update.py:113-119 | the slab of two runs of lines is the two slabs one after the other |
| `DayCodec.DecodeFormat` | ghcn_update.py:62-110 | a record whose fields fit their slots and hold no comma decodes back from its CSV line unchanged |
| `DayCodec.DecodeSlab` | ghcn_update.py:59-111 | the zero-filled array, filled slot by slot, ends up equal to the slab of the lines |
| `GhcnStore.GhcnFile.constructor` | ghcn_update.py:474 | an opened file holds the tables and attributes it was opened with |
| `GhcnStore.GhcnFile.AddRows` | ghcn_update.py:52-121 | no lines: no count and an unchanged table; otherwise the count of lines, and the table grows by exactly that many slots at its old end, the rows before it unchanged |
| `GhcnStore.SlotsOfFormatted` | ghcn_update.py:59-119 | appending the CSV lines of well-formed records stores exactly those records |
| `GhcnStore.GhcnFile.SetRowMarker` | ghcn_update.py:123-143 | afterwards `getRowMarker` (`RowMarkerFor`) answers `row` for `year` and 0 for every other year |
| `GhcnStore.GhcnFile.SetStationEtag` | ghcn_update.py:145-160 | afterwards `getStationEtag` (`StationEtag`) answers the ETag given |
| `ObjectStore.RangeGet` | ghcn_update.py:207-223 | an inclusive range GET answers exactly when the start is inside the body and not a failing start; the answer is the body's slice from the start, of the range's length, or up to the end of the body when the range reaches past it |
| `Reframer.Reframe` | ghcn_update.py:227-234 | the tail rule as written never consumes more than the chunk it is given |
| `Reframer.ReframeConsumes` | ghcn_update.py:227-234 | the rewind as written, in both directions: a last piece with fewer than eight fields is put back (every other piece is emitted and the cursor stops just before it), and a last piece with eight or more is kept with the whole chunk consumed; the put-back tail has no newline, and the consumed part is the emitted lines joined, followed by a newline |
| `Reframer.IntendedReframe` | ghcn_update.py:227-234 | the corrected tail rule never consumes more than the chunk |
| `Reframer.IntendedReframeShape` | ghcn_update.py:227-234 | under the corrected rule a chunk that stops short of the end of the object emits every piece but the last and puts the last piece back; a chunk that reaches the end follows the code's eight-field test |
| `Reframer.IntendedAdvances` | ghcn_update.py:227-240 | under the corrected rule a chunk that emits a line moves the cursor forward |
| `Reframer.IntendedEmittedIsLines` | ghcn_update.py:199-240 | under the corrected rule (`IntendedEmitted`), with no transient failure and no line longer than a block, the loop reads the object's rows (`WholeRows`, the rows one read of the whole object keeps) exactly once and in order, and every line when the object ends with a whole line |
| `Reframer.IntendedEmittedFrom` | ghcn_update.py:199-240 | the same from any line start: the loop reads the rows of the rest of the object |
| `Reframer.WholeRowsOfEmpty` | ghcn_update.py:227-234 | empty text has no rows |
| `Reframer.WholeRowsConcat` | ghcn_update.py:227-234 | the rows of `a + "\n" + b` are the pieces of `a` followed by the rows of `b` |
| `Reframer.WholeRowsAreLines` | ghcn_update.py:227-234 | the rows are all the lines when the text ends with a whole line, and the lines less the cut last one when it does not |
| `Reframer.WholeRowsPrefix` | ghcn_update.py:227-234 | cut where the cut piece has fewer than eight fields, the rows of a prefix of an object are a prefix of the object's rows |
| `Reframer.MidChunk` | ghcn_update.py:199-234 | from a line start more than a block from the end, one GET reads whole lines up to a newline, and the cursor lands on the next line start |
| `Reframer.LastChunk` | ghcn_update.py:199-240 | from a line start within a block of the end, the loop reads the rows of the rest of the object: one GET to the end and, when a short last piece is put back, one more turn that drops it and stops |
| `Reframer.LastRead` | ghcn_update.py:207-226 | from within a block of the end, the GET returns the rest of the object, and the corrected rule reframes it as the code does |
| `Reframer.AfterLastChunk` | ghcn_update.py:199-240 | after the chunk that reaches the end of the object, the loop reads nothing more |
| `Reframer.PutBackStops` | ghcn_update.py:227-240 | the piece the last chunk put back is read alone and ends the loop |
| `Reframer.ShortTailStops` | ghcn_update.py:227-240 | a last piece without a newline and with fewer than eight fields, read alone, ends the loop with no line |
| `Reframer.IntendedStops` | ghcn_update.py:199-223 | an empty range or a failed GET ends the loop with no line |
| `Reframer.IntendedUnfold` | ghcn_update.py:199-240 | one turn: when the chunk emits lines, the lines from the cursor are the chunk's followed by those from the new cursor, which lies further into the object; when it emits none, the loop stops there |
| `Reframer.IntendedUnfoldLast` | ghcn_update.py:199-240 | a turn after which the loop reads nothing more reads exactly its chunk's lines |
| `Reframer.BlockSizeIndependent` | ghcn_update.py:199-240 | with no transient failure, any two block sizes that every line fits read the same lines |
| `TailRuleFinding.CutLineFields` | ghcn_update.py:229-231 | a day line cut inside its last field still has eight comma fields |
| `TailRuleFinding.TwoDaysLines` | ghcn_update.py:227-234 | the two-row object has exactly its two rows as lines |
| `TailRuleFinding.FirstChunk` | ghcn_update.py:207-234 | on the two-row object with a 70-character block, the first chunk ends inside the second row, and the as-written rule keeps the cut row |
| `TailRuleFinding.EmittedFromSecond` | ghcn_update.py:207-240 | as written, the second GET starts inside the cut row and reads its last two characters as a row of their own |
| `TailRuleFinding.EmittedPastEnd` | ghcn_update.py:199-205 | as written, the third turn starts at the end of the object and stops |
| `TailRuleFinding.CutRowCounterexample` | ghcn_update.py:199-240 | as written (`Emitted`), the loop reads the object's two rows as three lines: the first row, the cut second row, and its remainder |
| `TailRuleFinding.IntendedFromSecond` | ghcn_update.py:207-240 | under the corrected rule the second GET starts at the second row and reads it whole |
| `TailRuleFinding.IntendedPastEnd` | ghcn_update.py:199-205 | under the corrected rule the turn at the end of the object stops |
| `TailRuleFinding.IntendedOnTwoDays` | ghcn_update.py:199-240 | under the corrected rule, the loop reads the same object as its two whole rows |
| `YearIngest.Unread` | ghcn_update.py:251-255 | the lines past the marker: all lines after the first `marker`, none when the marker covers them all |
| `YearIngest.UnreadResume` | ghcn_update.py:176-262 | a run cut short after `k` lines, followed by a rerun with the marker it left, stores exactly what one full run stores: nothing lost and nothing twice |
| `YearIngest.UnreadRerun` | ghcn_update.py:251-262 | a rerun with the marker a complete run left stores nothing |
| `YearIngest.PastMarker` | ghcn_update.py:251-255 | a chunk stores nothing while the lines read do not pass the marker, and otherwise its last `rows_read - row_marker` lines (all of them when fewer) |
| `YearIngest.UnreadStep` | ghcn_update.py:236-262 | what one chunk stores is exactly what it adds to the unread lines of the year |
| `YearIngest.StoreStep` | ghcn_update.py:257 | appending the new lines' slab keeps the table equal to the slots of the unread lines |
| `YearIngest.CutTail` | ghcn_update.py:227-234 | the loop's split-and-put-back step computes the corrected tail rule |
| `YearIngest.ReadChunk` | ghcn_update.py:199-240 | one clamped range GET and its reframing: when the loop breaks, nothing is left to read; otherwise some lines are emitted, the cursor advances within the body, and the lines still to come are the emitted ones followed by those after the new cursor |
| `YearIngest.AppendPastMarker` | ghcn_update.py:251-262 | when the lines read pass the marker, the new lines are appended and the marker is set to the lines read; otherwise nothing changes; the count returned is the number of lines appended |
| `YearIngest.StoreTurn` | ghcn_update.py:236-262 | one turn keeps the loop invariant: the table holds the slots of the unread lines, and the marker is the lines read once it was passed |
| `YearIngest.YearRunGrows` | ghcn_update.py:163-266 | after a complete run (`YearRun`) the year's marker is the larger of the old marker and the lines read, and the table has grown at its end by the run's count (`YearCount`) |
| `YearIngest.YearRunResume` | ghcn_update.py:176-262 | a run cut short after `k` lines, followed by a full run, leaves the same table and marker as one full run |
| `YearIngest.YearRunRerun` | ghcn_update.py:176-262 | a second complete run over the same lines changes nothing |
| `YearIngest.ResumeFromPrefix` | ghcn_update.py:176-262 | a run over an earlier, shorter version of the object, followed by a run over the grown object, leaves what one run over the grown object leaves, when the earlier version ends in a piece of fewer than eight fields |
| `YearIngest.AddYearData` | ghcn_update.py:163-266 | the file afterwards is one complete run over the lines the loop reads, and the count returned is that run's count; no object: 0 and nothing changes; otherwise the table grows by the slots of exactly the lines past the old marker, and the marker ends at the larger of the old marker and the lines read; with no transient failure and no line longer than a block, those lines are the object's rows, and all its lines when it ends with a whole line |
| `YearIngest.ResumeAtNewestYear` | ghcn_update.py:272-281 | a newest row dated with a four-digit year resumes (`ResumeYear`) at that year |
| `YearIngest.ResumeFailsOnSkippedRow` | ghcn_update.py:277-280 | a zero slot as the newest row (a skipped line) makes the resume year fail to parse |
| `YearIngest.SumSnoc` | ghcn_update.py:289-290 | the total grows by each year's count |
| `YearIngest.IdleSnoc` | ghcn_update.py:291-293 | with one more year's count, the run ends in two idle years exactly when the previous count and the new one are 0, and there was still no earlier stop |
| `YearIngest.IngestYear` | ghcn_update.py:289 | one year of `getData` is one complete run over the lines of that year's object, and returns that run's count |
| `YearIngest.IngestedGrows` | ghcn_update.py:283-297 | over the years (`Ingested`), the table only grows, and by the sum of the years' counts (`YearCounts`) |
| `YearIngest.IngestStep` | ghcn_update.py:285-295 | one more year of the fold is one more complete run over that year's lines, and adds its count to the counts |
| `YearIngest.IngestYears` | ghcn_update.py:283-297 | the year loop: the file is the complete runs, one after the other, over the years visited from the first, and the counts are those runs' counts; the total is their sum; no year is visited when the first is not below `last_year`, and no visited year reaches it; the loop ends at `last_year` or at the first two consecutive idle years |
| `YearIngest.GetData` | ghcn_update.py:269-297 | fails exactly when the resume year does not parse, changing nothing; otherwise the file is the complete runs over the years visited from the resume year, whose counts sum to the total returned and to the growth of the table; years stay below `last_year`; the loop ends at `last_year` or at the first two consecutive idle years, and at no earlier point |
| `Stations.Utf8Char` | ghcn_update.py:393 | a character encodes to one to four bytes, and to one byte, itself, exactly when it is ASCII |
| `Stations.Utf8Ascii` | ghcn_update.py:390-393 | ASCII text encodes to its own characters |
| `Stations.Utf8Grows` | ghcn_update.py:391-394 | text outside ASCII encodes to more bytes than it has characters |
| `Stations.NameSlot` | ghcn_update.py:388-397 | the corrected name slot is the first min(n, 30) bytes of the name's UTF-8 encoding |
| `Stations.NameAsWritten` | ghcn_update.py:388-397 | as written: an ASCII name is stored as is; an encoded name longer than 30 bytes is stored as bytes 30 to 60 of its encoding |
| `Stations.NameSliceLosesHead` | ghcn_update.py:393-397 | as written, a non-ASCII name of 31 to 59 bytes is stored shorter than the 30 bytes meant, and differently |
| `Stations.NameSliceCounterexample` | ghcn_update.py:393-397 | sixteen copies of "é" are stored as 2 bytes where the truncation meant 30 |
| `Stations.DecodeStation` | ghcn_update.py:351-418 | an id column whose stripped text is not 11 characters leaves a zero slot; the line raises exactly when the id, or the state after three parsing floats, is not ASCII; a kept id is the column's text; a kept id whose latitude does not parse is stored alone; a line whose floats parse and whose state is ASCII stores the three floats, the state and the name |
| `Stations.DecodeCoordinates` | ghcn_update.py:364-387 | each float is stored exactly when it and the ones before it parse, and otherwise the slot keeps what it held; a latitude that fails leaves the slot unchanged; a float that fails stops the row before the state and the name |
| `Stations.DecodeTextFields` | ghcn_update.py:386-417 | a state outside ASCII raises; the state and the name are stored; each of the flags and the WMO id is stored exactly when it and the ones before it are ASCII, and otherwise the slot keeps what it held |
| `Stations.CollectOk` | ghcn_update.py:350-418 | the loop's results give a slab exactly when no line raises, and then one slot per line |
| `Stations.CollectFirstError` | ghcn_update.py:350-418 | the exception raised is the first failing line's |
| `Stations.StationSlabOk` | ghcn_update.py:349-418 | the station slab (`StationSlab`) exists exactly when no line raises, and then holds each line's slot in order |
| `Stations.DecodeStations` | ghcn_update.py:349-418 | the zero-filled array, filled line by line, is the station slab, or the first line's exception |
| `Stations.Overwrite` | ghcn_update.py:420-423 | a write of the slab over the table grown to the slab's length: the table never shrinks, the front is the slab, and the rows past it are untouched |
| `Stations.GetStations` | ghcn_update.py:299-425 | the reload happens exactly when `Reloads` holds: the key exists, its ETag differs from the saved one (`getStationEtag`) and the GET read something; otherwise 0 and nothing written; an exception with nothing written when a line raises; otherwise returns the line count, writes the slab over the front of the grown table, and then saves the object's ETag |
| `LogLevel.LevelFor` | ghcn_update.py:436-446 | INFO, WARN or WARNING, and ERROR select their levels, and every other setting selects debug |
| `LogLevel.LevelNameRoundTrip` | ghcn_update.py:436-446 | every level is selected by its own name |
| `Config.HasUnit` | config.py:18-26 | a value with a unit is text that `int` rejects, which is why `_load_cfg` keeps it as text until the unit is expanded |
| `Config.ExpandUnits` | config.py:124-135 | a value without a unit is unchanged; a value with one becomes a non-negative multiple of 1024, which has no unit |
| `Config.UnitExpansion` | config.py:124-133 | a number followed by k, m or g has a unit (`_has_unit`), and expands to the number times 1024, 1024² or 1024³ (`UnitFactor`) |
| `Config.DigitsParse` | config.py:127 | the digits before the unit read back with `int` as their value |
| `Config.ArgMatch` | config.py:33-44 | one argument says something about option `x` exactly when it is `--x` or starts with `--x=`, and then as a flag or as an option value; any other argument gives nothing |
| `Config.ArgMatchRoundTrip` | config.py:36-44 | `--x=val` gives back `val`, and `--x` gives `True` |
| `Config.CmdLineArg` | config.py:29-45 | what the command line says about an option is a flag or text |
| `Config.GetCmdLineArg` | config.py:29-45 | the scan of the arguments from index 1, with its early return, computes the first match |
| `Config.FirstMatchIsFirst` | config.py:34-45 | the scan (`CmdLineArg`) finds something exactly when some argument after the program name matches, and then answers what the first matching argument says |
| `Config.Upper` | config.py:103 | the environment variable's name has the key's length; each lower-case ASCII letter becomes its upper-case letter, and every other character is kept |
| `Config.Coerce` | config.py:112-121 | the conversion gives a value of the YAML value's type, and fails exactly when an integer setting gets text that `int` rejects |
| `Config.Setting` | config.py:97-136 | a stored setting never carries a unit, and a key no source overrides gets its YAML value with units expanded |
| `Config.NoOverrideKeepsYaml` | config.py:112-124 | a key that neither the command line, the environment nor `override.yml` overrides keeps its YAML value, with units expanded |
| `Config.CommandLineWins` | config.py:99-110 | with a command-line override, the environment and `override.yml` make no difference (`OverrideFor`) |
| `Config.EnvironmentBeatsOverrideFile` | config.py:102-110 | with an environment override, `override.yml` makes no difference |
| `Config.IntOverride` | config.py:102-116 | an integer setting whose upper-cased environment variable holds the text of a number takes that number, whatever else the environment holds |
| `Config.UnitOverride` | config.py:112-133 | an integer setting overridden by `512m`-style text keeps the text when `int` fails, and then expands its unit |
| `Config.ConfigDirs` | config.py:55-62 | the directories searched: the non-empty `--config-dir=` value; else `CONFIG_DIR`; else `/config` and `.`; a bare `--config-dir` flag fails |
| `Config.LastFoundIsLast` | config.py:63-71 | a file is found exactly when some directory has it, and the one found is in the last directory that has it |
| `Config.FindConfigFiles` | config.py:63-71 | the directory loop remembers the last `config.yml` and the last `override.yml` seen |
| `Config.Loaded` | config.py:48-136 | a successful load found its directories and a `config.yml` |
| `Config.KeySetting` | config.py:97-136 | the loop body computes each key's setting: its override, converted and unit-expanded |
| `Config.AppliedStep` | config.py:97-136 | storing one more key extends the stored settings by that key's setting |
| `Config.Settings.constructor` | config.py:6 | the settings start empty |
| `Config.Settings.LoadCfg` | config.py:48-136 | on failure the settings are unchanged and the exception is reported; on success, every key of `config.yml` is stored with its setting |
| `Config.Settings.ApplyOverrides` | config.py:97-136 | the key loop stores exactly every key's setting over what was stored |
| `Config.Settings.Lookup` | config.py:145-150 | a stored key answers its value and changes nothing; a missing key with a default stores and answers the default; without a default it raises `KeyError` and changes nothing |
| `Config.Settings.Get` | config.py:139-150 | loads once when nothing is stored (a failed load changes nothing); a stored key answers its value; a missing key with a default stores and answers the default, and without a default raises `KeyError`; an answered value stays stored |

## Left out

- I/O, and the libraries that perform it, are not modelled:
  - the HDF5/HSDS file opening (`h5File`), the polling loop, `time.sleep`, `sys.exit` and
    logging;
  - the start-up filename scan over `sys.argv`, which always reads `sys.argv[1]`.
- The S3 client is not modelled: request signing, error codes and retries.
  - A year's object is passed in, or `None` when its HEAD request fails. The code returns 0
    in both HEAD-failure cases: for a missing key directly, and for any other error through a
    content length of 0.
  - For the stations, the HEAD answer is passed in as `Found`, `NoSuchKey` or `HeadFailed`,
    and the body read by the GET as `None` when the GET fails.
- Byte decoding is not modelled: objects are given as decoded text. The `decode('ascii')` of
  a chunk and the `decode('utf-8')` of the station file can raise on malformed bytes; that
  exception is not modelled.
- Float parsing is a parameter, `toFloat`, standing for Python's `float`. The rounding of the
  stored value to a 32-bit float is not modelled: latitude, longitude and elevation are reals.
- Stations.GetStations: the guard against an empty row list is not modelled. `split` always
  gives at least one piece, so that branch of the code never runs.
- Text.Strip: only the whitespace characters of the first 256 code points are stripped.
  Python also strips other Unicode spaces.
- Config.Upper: only ASCII letters are upper-cased, where Python's `str.upper` maps all of
  Unicode.
- Config.HasUnit: only ASCII digits are taken as digits. Python's `str.isdigit` also accepts
  other Unicode digits, which `int` then rejects.
- YearIngest.UnreadResume: the append of a chunk's new lines (ghcn_update.py:257) and the
  marker write after it (ghcn_update.py:261) are modelled as one atomic step. A crash between
  the two leaves the lines stored and the marker unmoved, and the rerun then stores those lines
  a second time. `UnreadResume` and `YearRunResume` hold for a crash after the marker write.
- YearIngest.ResumeFromPrefix: holds only when the earlier version of the object ends in a
  piece of fewer than eight fields. The last line of an earlier version cut inside its eighth
  field is kept as a row at the end of that object, and the grown object does not replace it.
- YAML parsing, and the checks that files exist, are not modelled:
  - parsing is a parameter, `load`, whose error stands for the parse error the code turns into
    a `KeyError`;
  - the existing files are a set;
  - a document is a map from keys to null, boolean, integer or string values. Floats, lists,
    nested mappings and an empty `config.yml` (which parses to `None`) are not modelled.
- Config.Coerce: a conversion that raises a `TypeError` (for a list, for example) is not
  modelled, because such values are outside the model.
- Config.Settings.ApplyOverrides visits the keys in an arbitrary order. The code visits them
  in YAML order, but the stored settings do not depend on the order.
- Configuration reads in `addYearData`, `getData` and `getStations` are parameters:
  `block_size`, `start_year`, `last_year`, `ghcn_path` and the bucket.
- get_row_marker.py, ghcn_setup.py and the examples directory are not part of this model.
  They are wrappers or examples with no ingestion logic.

## Findings

| source | as written | input that shows it | evidently intended | confidence | as-written member | corrected member |
|---|---|---|---|---|---|---|
| ghcn_update.py:227-234 | a chunk's last piece counts as a whole line whenever it has eight comma fields, so a line cut inside its last field is stored cut, and its remainder is stored as a line of its own | two 36-character day lines with `block_size` 70: the first range ends two characters into the second line's observation time | "back up to the last \n so we get full text line": a chunk that stops short of the end of the object always puts its last piece back; at the end of the object the eight-field test stays | not executed | `TailRuleFinding.CutRowCounterexample` | `Reframer.IntendedEmittedIsLines` |
| ghcn_update.py:393-397 | a non-ASCII name longer than 30 bytes once encoded is replaced by `name[30:]`, the bytes after the first 30 | a name of sixteen "é" (32 bytes) is stored as the last "é" alone | keep the first 30 bytes, `name[:30]` | not executed | `Stations.NameSliceCounterexample` | `Stations.NameSlot` |
