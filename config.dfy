/** What the handler is configured with (`HandlerOptions`) and the outside code it calls
    (time parsing and formatting, Go's `%g`, `%q` and `%v` verbs, terminal colours). */
module Config {
  import opened Json

  /** A point in time; `ZeroTime` is Go's `time.Time{}`. */
  datatype Instant = Instant(nanos: int)

  const ZeroTime: Instant := Instant(0)

  /** A `*color.Color`: `Sprint` wraps text in the colour's start and reset sequences
      (both empty when colour output is off). */
  datatype Color = Color(open: string, close: string) {
    function Sprint(s: string): (r: string)
      ensures |r| == |open| + |s| + |close|
      ensures r[..|open|] == open && r[|open|..|open| + |s|] == s && r[|open| + |s|..] == close
    {
      open + s + close
    }
  }

  /** Painting with one colour loses nothing: different texts stay different. */
  lemma SprintInjective(c: Color, s: string, t: string)
    requires c.Sprint(s) == c.Sprint(t)
    ensures s == t
  {
    assert |s| == |t|;
    assert s == c.Sprint(s)[|c.open|..|c.open| + |s|];
  }

  /** The subset of `HandlerOptions` the handler reads. `ShowKey` and `ShowUnchanged`
      stand for the options' `shouldShowKey` and `shouldShowUnchanged`. */
  datatype Options = Options(
    TimeFields: seq<string>,
    MessageFields: seq<string>,
    LevelFields: seq<string>,
    TimeFormat: string,
    Truncates: bool,
    TruncateLength: nat,
    SortLongest: bool,
    ShowKey: string -> bool,
    ShowUnchanged: string -> bool,
    LightBg: bool,
    KeyColor: Color,
    ValColor: Color,
    TimeLightBgColor: Color,
    TimeDarkBgColor: Color,
    MsgLightBgColor: Color,
    MsgDarkBgColor: Color,
    MsgAbsentLightBgColor: Color,
    MsgAbsentDarkBgColor: Color,
    DebugLevelColor: Color,
    InfoLevelColor: Color,
    WarnLevelColor: Color,
    ErrorLevelColor: Color,
    FatalLevelColor: Color,
    UnknownLevelColor: Color)

  /** Code outside the handler that it calls: `tryParseTime`, `time.Time.Format`, the
      `%g`, `%q` and `%v` verbs of `fmt`, and `color.New(color.FgHiWhite)`. */
  datatype External = External(
    tryParseTime: JVal -> (Instant, bool),
    formatTime: (Instant, string) -> string,
    formatG: real -> string,
    quote: string -> string,
    formatV: JVal -> string,
    hiWhite: Color)
}
