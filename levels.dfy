/** Severity levels: the Bunyan numeric table, the upper-cased abbreviation shown in the
    output, and the choice of colour role for a level. */
module Levels {
  import opened Text

  /** `convertBunyanLogLevel`: Bunyan's numeric levels by name; anything else is "???". */
  function ConvertBunyanLogLevel(level: real): (r: string)
    ensures level == 10.0 <==> r == "trace"
    ensures level == 20.0 <==> r == "debug"
    ensures level == 30.0 <==> r == "info"
    ensures level == 40.0 <==> r == "warn"
    ensures level == 50.0 <==> r == "error"
    ensures level == 60.0 <==> r == "fatal"
    ensures level !in {10.0, 20.0, 30.0, 40.0, 50.0, 60.0} <==> r == "???"
  {
    if level == 10.0 then "trace"
    else if level == 20.0 then "debug"
    else if level == 30.0 then "info"
    else if level == 40.0 then "warn"
    else if level == 50.0 then "error"
    else if level == 60.0 then "fatal"
    else "???"
  }

  /** `strings.ToUpper(level)[:imin(4, len(level))]`: the first (at most) four
      characters of the level, upper-cased. */
  function LevelAbbrev(level: string): (r: string)
    ensures |r| == if |level| < 4 then |level| else 4
    ensures forall i :: 0 <= i < |r| ==> r[i] == UpperChar(level[i])
  {
    ToUpper(level)[..if |level| < 4 then |level| else 4]
  }

  /** Which configured colour paints the level: the `switch h.Level` in `Prettify`. */
  datatype LevelRole = DebugRole | InfoRole | WarnRole | ErrorRole | FatalRole | UnknownRole

  /** The switch compares the level as written, so the match is case-sensitive and two
      spellings each select the warn and the fatal colour. */
  function RoleOf(level: string): (r: LevelRole)
    ensures r == DebugRole <==> level == "debug"
    ensures r == InfoRole <==> level == "info"
    ensures r == WarnRole <==> level == "warn" || level == "warning"
    ensures r == ErrorRole <==> level == "error"
    ensures r == FatalRole <==> level == "fatal" || level == "panic"
    ensures r == UnknownRole <==> level !in {"debug", "info", "warn", "warning", "error", "fatal", "panic"}
  {
    match level
    case "debug" => DebugRole
    case "info" => InfoRole
    case "warn" => WarnRole
    case "warning" => WarnRole
    case "error" => ErrorRole
    case "fatal" => FatalRole
    case "panic" => FatalRole
    case _ => UnknownRole
  }

  /** A Bunyan level gets the colour of its name, except "trace" (10), which the switch
      does not list and so is painted as an unknown level, like unmapped numbers. */
  lemma BunyanLevelRoles(n: real)
    ensures RoleOf(ConvertBunyanLogLevel(n)) == UnknownRole <==> n !in {20.0, 30.0, 40.0, 50.0, 60.0}
    ensures n == 10.0 ==> RoleOf(ConvertBunyanLogLevel(n)) == UnknownRole
  {
  }

}
