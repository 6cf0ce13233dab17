/**
 * The leveled logger (Logger.cpp): two process-wide settings, the minimum
 * level and the silent flag, decide which messages reach the console.
 */
module Logging {

  /** Lower is more verbose, higher is more severe. */
  datatype LogLevel = Trace | Debug | Info | Warning | Error | Brand {
    /** The enumerator's integer value. */
    function Value(): nat {
      match this
      case Trace => 0
      case Debug => 1
      case Info => 2
      case Warning => 3
      case Error => 4
      case Brand => 5
    }
  }

  /** The name table, indexed by level value. */
  const LevelNames: seq<string> := ["TRACE", "DEBUG", "INFO", "WARN", "ERROR", "BRAND"]

  /** getSafeLevelName: a bounds-checked lookup in the name table. */
  function SafeLevelName(level: int): (r: string)
    ensures 0 <= level < |LevelNames| ==> r == LevelNames[level]
    ensures r == "UNKNOWN" <==> !(0 <= level < |LevelNames|)
  {
    if 0 <= level < |LevelNames| then LevelNames[level] else "UNKNOWN"
  }

  /** Every enumerator has a name of its own in the table. */
  lemma LevelNamesDistinct(a: LogLevel, b: LogLevel)
    ensures SafeLevelName(a.Value()) != "UNKNOWN"
    ensures SafeLevelName(a.Value()) == SafeLevelName(b.Value()) ==> a == b
  {
  }

  class Logger {
    var minLevel: LogLevel
    var silent: bool

    /** The initial values of g_minLogLevel and g_silentMode. */
    constructor ()
      ensures minLevel == Info && !silent
    {
      minLevel := Info;
      silent := false;
    }

    /** Which levels the filter in `log` lets through. */
    ghost predicate Shows(level: LogLevel)
      reads this
    {
      level == Error || level == Brand || (!silent && level.Value() >= minLevel.Value())
    }

    method SetLogLevel(level: LogLevel)
      modifies this
      ensures minLevel == level && silent == old(silent)
    {
      minLevel := level;
    }

    method GetLogLevel() returns (level: LogLevel)
      ensures level == minLevel
    {
      level := minLevel;
    }

    /** Entering silent mode also raises the minimum level to Error; leaving it does not lower it. */
    method SetSilentMode(s: bool)
      modifies this
      ensures silent == s
      ensures minLevel == if s then Error else old(minLevel)
    {
      silent := s;
      if s {
        SetLogLevel(Error);
      }
    }

    function IsSilentMode(): bool
      reads this
    {
      silent
    }

    /**
     * The filter at the top of `log`; `shown` says whether the message is
     * written. The console output itself is not modelled.
     */
    method Log(message: string, level: LogLevel) returns (shown: bool)
      ensures shown == Shows(level)
    {
      if silent && level != Error && level != Brand {
        return false;
      }
      if level.Value() < minLevel.Value() && level != Error && level != Brand {
        return false;
      }
      return true;
    }
  }

  /**
   * Silent mode is sticky for the level: whatever state a logger is in,
   * after setSilentMode(true) and then setSilentMode(false) the minimum level
   * is Error, so only errors and the brand line get through although silent
   * mode is off.
   */
  method SilentToggleKeepsErrorLevel(logger: Logger, level: LogLevel) returns (shown: bool)
    modifies logger
    ensures !logger.silent && logger.minLevel == Error
    ensures shown <==> level == Error || level == Brand
  {
    logger.SetSilentMode(true);
    logger.SetSilentMode(false);
    shown := logger.Log("", level);
  }
}
