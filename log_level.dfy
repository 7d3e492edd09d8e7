/** The `log_level` setting read once at start-up, and the logging level it selects. */
module LogLevel {

  datatype Level = Debug | Info | Warning | Error

  /** The level a setting selects: the four names, `WARN` as a second name for warnings, and
      debug output for anything unrecognised. */
  function LevelFor(setting: string): (level: Level)
    ensures level == Info <==> setting == "INFO"
    ensures level == Warning <==> setting == "WARN" || setting == "WARNING"
    ensures level == Error <==> setting == "ERROR"
    ensures level == Debug <==> setting !in {"INFO", "WARN", "WARNING", "ERROR"}
  {
    if setting == "DEBUG" then Debug
    else if setting == "INFO" then Info
    else if setting == "WARN" || setting == "WARNING" then Warning
    else if setting == "ERROR" then Error
    else Debug
  }

  /** The canonical setting for each level, as the logging module names it. */
  function LevelName(level: Level): string
  {
    match level
    case Debug => "DEBUG"
    case Info => "INFO"
    case Warning => "WARNING"
    case Error => "ERROR"
  }

  /** Every level is selected by its own name, so no level is out of reach. */
  lemma LevelNameRoundTrip(level: Level)
    ensures LevelFor(LevelName(level)) == level
  {
  }
}
