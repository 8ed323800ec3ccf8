/**
 The command-line driver of the Skew-T tool
 (courses/python-workshop-master/failing_notebooks/skewt.py, lines 85-113):
 option defaults, the rejection of a command line without `--date` or
 `--hour`, the time-stamp parse, and the name of the saved image. Fetching
 and plotting the sounding happen between the parse and the save and are not
 modelled.
 */
module SkewtCli {
  import opened Wrappers
  import opened Timestamp
  import opened Digits

  /** Default of `--station` (line 93). */
  const DefaultStation: string := "OUN"
  /** Default of `--imgformat` (line 97). */
  const DefaultImageFormat: string := "png"

  /** The options as given on the command line; `None` when an option is omitted. */
  datatype CommandLine = CommandLine(
    date: Option<string>,
    hour: Option<string>,
    station: Option<string>,
    savefig: bool,
    imgformat: Option<string>)

  /** The parsed arguments, defaults filled in. */
  datatype Options = Options(date: string, hour: string, station: string, savefig: bool, imgformat: string)

  datatype CliError =
    | MissingArguments(flags: seq<string>)  // the parser's "the following arguments are required"
    | BadTimestamp(reason: ParseError)      // `ValueError` from the time-stamp parse

  /** The required options that are absent, in the order they are declared (lines 89 and 91). */
  function MissingFlags(cl: CommandLine): (flags: seq<string>)
    ensures |flags| == (if cl.date.None? then 1 else 0) + (if cl.hour.None? then 1 else 0)
    ensures |flags| == 0 <==> cl.date.Some? && cl.hour.Some?
    ensures forall f :: f in flags ==> f == "--date" || f == "--hour"
    ensures "--date" in flags <==> cl.date.None?
    ensures "--hour" in flags <==> cl.hour.None?
    ensures |flags| == 2 ==> flags == ["--date", "--hour"]
  {
    var flags := (if cl.date.None? then ["--date"] else []) + (if cl.hour.None? then ["--hour"] else []);
    assert cl.date.None? ==> flags[0] == "--date";
    assert cl.hour.None? ==> flags[|flags| - 1] == "--hour";
    assert "--date" != "--hour";
    flags
  }

  /** `parser.parse_args()` on the five options of lines 89-98. */
  function ParseArgs(cl: CommandLine): (r: Result<Options, CliError>)
    ensures r.Success? <==> cl.date.Some? && cl.hour.Some?
    ensures r.Failure? ==> r.error == MissingArguments(MissingFlags(cl))
    ensures r.Success? ==>
      && r.value.date == cl.date.value
      && r.value.hour == cl.hour.value
      && r.value.savefig == cl.savefig
      && (cl.station.None? ==> r.value.station == DefaultStation)
      && (cl.station.Some? ==> r.value.station == cl.station.value)
      && (cl.imgformat.None? ==> r.value.imgformat == DefaultImageFormat)
      && (cl.imgformat.Some? ==> r.value.imgformat == cl.imgformat.value)
  {
    if cl.date.None? || cl.hour.None? then
      Failure(MissingArguments(MissingFlags(cl)))
    else
      Success(Options(cl.date.value, cl.hour.value, cl.station.GetOr(DefaultStation),
                      cl.savefig, cl.imgformat.GetOr(DefaultImageFormat)))
  }

  /** The name given to `plt.savefig` (lines 109-111): station, time stamp and extension. */
  function SavedFigureName(station: string, stamp: Stamp, imgformat: string): (name: string)
    ensures |name| == |station| + 14 + |imgformat|
    ensures name[..|station|] == station && name[|station|] == '_'
    ensures name[|station| + 1..|station| + 13] == FormatStamp(stamp)
    ensures name[|station| + 13] == '.' && name[|station| + 14..] == imgformat
  {
    var name := station + "_" + FormatStamp(stamp) + "." + imgformat;
    assert name[..|station|] == station;
    assert name[|station| + 1..|station| + 13] == FormatStamp(stamp);
    assert name[|station| + 14..] == imgformat;
    name
  }

  /** What the run does with the figure once it is drawn. */
  datatype Output = SaveFigure(path: string) | ShowFigure

  /** The sounding to fetch and plot, and where the result goes. */
  datatype Run = Run(stamp: Stamp, station: string, output: Output)

  /** Text the time-stamp parse is modelled on, whenever both required options are present. */
  predicate TimestampModelled(cl: CommandLine)
  {
    cl.date.Some? && cl.hour.Some? ==> TenDigits(cl.date.value + cl.hour.value)
  }

  /** Lines 99-113 without the fetch and the drawing: parse, build the time stamp, choose save or show. */
  function PlanRun(cl: CommandLine): (r: Result<Run, CliError>)
    requires TimestampModelled(cl)
    ensures cl.date.None? || cl.hour.None? ==> r == Failure(MissingArguments(MissingFlags(cl)))
    ensures cl.date.Some? && cl.hour.Some? ==>
      (r.Success? <==> ParseStamp(cl.date.value + cl.hour.value).Success?)
    ensures cl.date.Some? && cl.hour.Some? && ParseStamp(cl.date.value + cl.hour.value).Failure? ==>
      r == Failure(BadTimestamp(ParseStamp(cl.date.value + cl.hour.value).error))
    ensures r.Success? ==> ValidStamp(r.value.stamp) && StampDigits(r.value.stamp) == cl.date.value + cl.hour.value
    ensures r.Success? ==> (r.value.output.ShowFigure? <==> !cl.savefig)
    ensures r.Success? ==> r.value.station == cl.station.GetOr(DefaultStation)
    ensures r.Success? && cl.savefig ==>
      r.value.output == SaveFigure(SavedFigureName(cl.station.GetOr(DefaultStation), r.value.stamp,
                                                   cl.imgformat.GetOr(DefaultImageFormat)))
  {
    match ParseArgs(cl)
    case Failure(e) => Failure(e)
    case Success(opts) =>
      match ParseStamp(opts.date + opts.hour)
      case Failure(e) => Failure(BadTimestamp(e))
      case Success(stamp) =>
        var output := if opts.savefig then SaveFigure(SavedFigureName(opts.station, stamp, opts.imgformat)) else ShowFigure;
        Success(Run(stamp, opts.station, output))
  }

  /** The stamp a run plots is the parse of `--date` joined with `--hour`. */
  lemma PlannedStampIsParsed(cl: CommandLine)
    requires TimestampModelled(cl) && PlanRun(cl).Success?
    ensures cl.date.Some? && cl.hour.Some?
    ensures ParseStamp(cl.date.value + cl.hour.value) == Success(PlanRun(cl).value.stamp)
  {
    var text := cl.date.value + cl.hour.value;
    var parsed := ParseStamp(text);
    StampDigitsInjective(parsed.value, PlanRun(cl).value.stamp);
  }

  /** With `--savefig`, an 8-digit date and a 2-digit hour on the calendar, the file is
      `<station>_<date>_<hour>Z.<imgformat>`, defaults filled in. */
  lemma SavedNameFromArguments(cl: CommandLine)
    requires cl.date.Some? && cl.hour.Some? && cl.savefig
    requires |cl.date.value| == 8 && |cl.hour.value| == 2
    requires TenDigits(cl.date.value + cl.hour.value)
    requires ParseStamp(cl.date.value + cl.hour.value).Success?
    ensures PlanRun(cl).Success?
    ensures PlanRun(cl).value.output ==
      SaveFigure(cl.station.GetOr(DefaultStation) + "_" + cl.date.value + "_" + cl.hour.value
                 + "Z." + cl.imgformat.GetOr(DefaultImageFormat))
  {
    var date, hour := cl.date.value, cl.hour.value;
    StampRoundTrip(date, hour);
    var station, fmt := cl.station.GetOr(DefaultStation), cl.imgformat.GetOr(DefaultImageFormat);
    assert station + "_" + (date + "_" + hour + "Z") + "." + fmt == station + "_" + date + "_" + hour + "Z." + fmt;
  }

  /** Defaults at lines 93 and 97: `--date 20200101 --hour 12 --savefig` saves `OUN_20200101_12Z.png`. */
  lemma DefaultSavedName(cl: CommandLine)
    requires cl == CommandLine(Some("20200101"), Some("12"), None, true, None)
    ensures TimestampModelled(cl)
    ensures PlanRun(cl) == Success(Run(Stamp(2020, 1, 1, 12), "OUN", SaveFigure("OUN_20200101_12Z.png")))
  {
    var date, hour := cl.date.value, cl.hour.value;
    assert date + hour == "2020010112";
    NewYearNoonParse();
    SavedWithDefaults(cl, Stamp(2020, 1, 1, 12));
    DefaultNameText();
  }

  /** With `--savefig` and neither `--station` nor `--imgformat`, a run that parses saves under the defaults. */
  lemma SavedWithDefaults(cl: CommandLine, st: Stamp)
    requires cl.date.Some? && cl.hour.Some? && cl.savefig && cl.station.None? && cl.imgformat.None?
    requires |cl.date.value| == 8 && |cl.hour.value| == 2 && TenDigits(cl.date.value + cl.hour.value)
    requires ParseStamp(cl.date.value + cl.hour.value) == Success(st)
    ensures TimestampModelled(cl)
    ensures PlanRun(cl) == Success(Run(st, DefaultStation, SaveFigure(
      DefaultStation + "_" + cl.date.value + "_" + cl.hour.value + "Z." + DefaultImageFormat)))
  {
    SavedNameFromArguments(cl);
  }

  lemma DefaultNameText()
    ensures DefaultStation + "_" + "20200101" + "_" + "12" + "Z." + DefaultImageFormat == "OUN_20200101_12Z.png"
  {
  }

  lemma NewYearNoonParse()
    ensures WellFormedText("2020010112")
    ensures ParseStamp("2020010112") == Success(Stamp(2020, 1, 1, 12))
  {
    var st := Stamp(2020, 1, 1, 12);
    NewYearNoonDigits();
    ParseStampDigits(st);
  }

  lemma NewYearNoonDigits()
    ensures StampDigits(Stamp(2020, 1, 1, 12)) == "2020010112"
  {
    YearDigits();
    HourDigits();
    assert Pad(1, 2) == "01" by {
      PadTwo(1);
      assert [DigitChar(0), DigitChar(1)] == "01";
    }
  }

  lemma YearDigits()
    ensures Pad(2020, 4) == "2020"
  {
    PadFour(2020);
    PadTwo(20);
    assert [DigitChar(2), DigitChar(0)] + [DigitChar(2), DigitChar(0)] == "2020";
  }

  lemma HourDigits()
    ensures Pad(12, 2) == "12"
  {
    PadTwo(12);
    assert [DigitChar(1), DigitChar(2)] == "12";
  }
}
