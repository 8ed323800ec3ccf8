# Notebook converter and Skew-T tool: the pure pieces

The repository holds two small scripts. This project models the parts of them
that are plain string and sequence logic, and proves what those parts promise.

- `scripts/to_html_pdf.py` converts a Jupyter notebook to PDF. It escapes the
  spaces in its one argument for the shell, builds the `jupyter nbconvert`
  command from the escaped name, and derives the HTML and PDF paths by cutting
  the escaped name at its last `.`. This is module `NotebookPaths`
  (`notebook_paths.dfy`).
- `courses/python-workshop-master/failing_notebooks/skewt.py` draws a Skew-T
  diagram of one upper-air sounding. The model covers four parts of it:
  - the hodograph level filter, which keeps the levels whose pressure is at
    least 100 mbar and applies the same mask to u, v and the wind speed
    (`Hodograph`, `hodograph.dfy`);
  - the command-line options and their defaults (`SkewtCli`, `skewt_cli.dfy`);
  - the `%Y%m%d%H` time-stamp parse and the `%Y%m%d_%HZ` rendering
    (`Timestamp`, `timestamp.dfy`, on top of the decimal-text helpers in
    `Digits`, `digits.dfy`);
  - the name of the saved image (`SkewtCli`).

`Wrappers` (`wrappers.dfy`) holds the `Option` and `Result` types that carry
the error paths: a missing `sys.argv[1]`, a missing required option, and a
`ValueError` from the date parse.

Python's slice `s[0:j]` is modelled with its negative-index rule. So when the
name has no `.`, `rfind` returns -1 and the stem is the name without its last
character. The fetched pressures carry whatever unit the data service reports; the
model takes them as real numbers already in millibar.

## Model

| member | source | states |
|---|---|---|
| NotebookPaths.EscapeSpaces | scripts/to_html_pdf.py:6 | The escaped name is longer than the argument by exactly the number of spaces in it. Every space in it directly follows a backslash, so it never starts with a bare space. |
| NotebookPaths.UnescapeEscapeSpaces | scripts/to_html_pdf.py:6 | Escaping loses nothing: reading each backslash-space back as a space gives the original argument. |
| NotebookPaths.EscapeWithoutSpaces | scripts/to_html_pdf.py:6 | A name without spaces passes through unchanged. |
| NotebookPaths.EscapeAppend | scripts/to_html_pdf.py:6 | The replacement works character by character, so escaping a concatenation is the concatenation of the escaped parts. |
| NotebookPaths.EscapeKeepsOtherChars | scripts/to_html_pdf.py:6 | Escaping only inserts backslashes. Every character other than a space or a backslash occurs equally often before and after, so the escaped name has a `.` exactly when the argument does. |
| NotebookPaths.EscapeOneSpace | scripts/to_html_pdf.py:6 | A name with one space between two space-free parts becomes the first part, backslash-space, then the second part. |
| NotebookPaths.RFind | scripts/to_html_pdf.py:7 | `rfind` is -1 exactly when the character is absent. Otherwise it is an index holding the character, with no occurrence after it. |
| NotebookPaths.PrefixSlice | scripts/to_html_pdf.py:7 | Python's `s[0:stop]` is always a prefix of `s`. A stop in range gives that many characters. A stop past the end gives all of `s`. A negative stop counts from the end (`[0:-1]` drops the last character), and one beyond the start gives the empty string. |
| NotebookPaths.Stem | scripts/to_html_pdf.py:7 | The stem is a prefix of the name. With a `.` present, the stem ends right before a `.` with no `.` after it. Without one, the stem is the name minus its last character, and empty for an empty name. |
| NotebookPaths.StemAtLastDot | scripts/to_html_pdf.py:7 | If position k holds the last `.`, the stem is exactly the name before k. |
| NotebookPaths.StemBeforeLastDot | scripts/to_html_pdf.py:7 | A name of the form prefix, `.`, dot-free suffix has the prefix as its stem, however many dots the prefix holds. |
| NotebookPaths.StemWithoutDot | scripts/to_html_pdf.py:7 | A name with no `.` at all has the name minus its last character as its stem. |
| NotebookPaths.PlanConversion | scripts/to_html_pdf.py:6-11 | Without `sys.argv[1]` the script fails. Otherwise the input file is the escaped argument and the command is the nbconvert prefix plus the escaped name. The HTML and PDF paths are the escaped name's stem plus `.html` and `.pdf`. |
| NotebookPaths.SharedStem | scripts/to_html_pdf.py:7-11 | The HTML and PDF paths share one stem. That stem is a prefix of the escaped name; when the name has a `.`, the stem ends right before its last one, and otherwise it is the name minus its last character. |
| NotebookPaths.LastDotOnly | scripts/to_html_pdf.py:6-11 | Only the last `.` counts: `a.b.ipynb` gives `a.b.html` and `a.b.pdf`, with command `jupyter nbconvert --to html a.b.ipynb`. |
| NotebookPaths.DirectoryDotUsed | scripts/to_html_pdf.py:6-11 | A `.` in a directory component is used when the file part has none: `d.x/nb` gives `d.html` and `d.pdf`. |
| NotebookPaths.NoDotDropsLastChar | scripts/to_html_pdf.py:7-11 | For a non-empty argument with no `.`, both derived paths are the escaped name minus its final character plus the extension. |
| NotebookPaths.NotesBecomesNote | scripts/to_html_pdf.py:6-11 | `notes` gives `note.html` and `note.pdf`. |
| NotebookPaths.EscapedNameInPaths | scripts/to_html_pdf.py:6-11 | The stem is cut from the escaped name, so for a name of the form `x y.ext` both derived paths and the command keep the backslash before the space. |
| NotebookPaths.EscapedNameExample | scripts/to_html_pdf.py:6-11 | `a b.ipynb` gives `a\ b.html` and `a\ b.pdf`. |
| Hodograph.LevelMask | courses/python-workshop-master/failing_notebooks/skewt.py:76 | The mask has one entry per level, and an entry is set exactly when that level's pressure is at least 100 mbar. |
| Hodograph.Select | courses/python-workshop-master/failing_notebooks/skewt.py:77 | Boolean-mask indexing never returns more entries than it is given. |
| Hodograph.SelectFrom | courses/python-workshop-master/failing_notebooks/skewt.py:77 | The selection from position lo on has one entry per set mask position in that range, and so at most as many entries as that range. |
| Hodograph.KeptFrom | courses/python-workshop-master/failing_notebooks/skewt.py:76-77 | The kept positions are all in range and set in the mask. They are strictly ascending, and every set position is among them. |
| Hodograph.SelectFromAt | courses/python-workshop-master/failing_notebooks/skewt.py:77 | Entry k of a masked selection is the input entry at the k-th kept position, so the selection keeps the original order. |
| Hodograph.HodographLevels | courses/python-workshop-master/failing_notebooks/skewt.py:76 | The drawn levels are exactly the levels whose pressure is at least 100 mbar, in ascending order. |
| Hodograph.HodographTrace | courses/python-workshop-master/failing_notebooks/skewt.py:76-77 | u, v and speed are filtered by the same mask. All three have as many entries as there are drawn levels, and no more than the input has levels. Entry k of each is the input's value at the k-th drawn level, so the three stay index-aligned. |
| Hodograph.SelectFromAllSet | courses/python-workshop-master/failing_notebooks/skewt.py:77 | A mask that is set everywhere from lo on selects the suffix unchanged. |
| Hodograph.SelectFromNoneSet | courses/python-workshop-master/failing_notebooks/skewt.py:77 | A mask that is clear everywhere from lo on selects nothing. |
| Hodograph.AllLevelsKept | courses/python-workshop-master/failing_notebooks/skewt.py:76-77 | When every level is at least 100 mbar, the hodograph draws u, v and speed unchanged. |
| Hodograph.NoLevelsKept | courses/python-workshop-master/failing_notebooks/skewt.py:76-77 | When every level is below 100 mbar, the hodograph draws nothing. |
| Hodograph.BoundaryLevel | courses/python-workshop-master/failing_notebooks/skewt.py:76-77 | A level at exactly 100 mbar is drawn and one at 99 mbar is not. |
| Digits.Decimal | courses/python-workshop-master/failing_notebooks/skewt.py:102 | A digit string of length n denotes a number below 10^n. |
| Digits.Pad | courses/python-workshop-master/failing_notebooks/skewt.py:110 | Zero-padding writes exactly `width` digits. When the number fits in that width, reading them back gives the number. |
| Digits.PadDecimal | courses/python-workshop-master/failing_notebooks/skewt.py:102-110 | Reading a digit string and writing the number back at the same width gives the string, leading zeros included. |
| Timestamp.StampDigits | courses/python-workshop-master/failing_notebooks/skewt.py:102 | The `%Y%m%d%H` rendering of a stamp is ten digits. |
| Timestamp.ParseStamp | courses/python-workshop-master/failing_notebooks/skewt.py:102 | On ten digits, the parse reports a format mismatch exactly when a month, day or hour field is out of the range its pattern accepts. A successful parse gives a stamp `datetime` can hold, and that stamp is rendered as the parsed text. |
| Timestamp.StampDigitsInjective | courses/python-workshop-master/failing_notebooks/skewt.py:102 | Two valid stamps with the same `%Y%m%d%H` rendering are equal, so the rendering names at most one stamp. |
| Timestamp.FieldsRenderText | courses/python-workshop-master/failing_notebooks/skewt.py:102 | On well-formed text, the year field is at most 9999, and rendering the four fields read from the text gives the text back. |
| Timestamp.ParseStampDigits | courses/python-workshop-master/failing_notebooks/skewt.py:102 | Every valid stamp is rendered as well-formed text, and parsing that text gives the stamp back. |
| Timestamp.ParseFailsOnlyOffCalendar | courses/python-workshop-master/failing_notebooks/skewt.py:102 | On ten digits, the parse fails exactly when no valid stamp is rendered as that text, in both directions. |
| Timestamp.FormatStamp | courses/python-workshop-master/failing_notebooks/skewt.py:110 | `%Y%m%d_%HZ` writes twelve characters, with `_` at index 8 and `Z` at index 11. With those two removed, the text is the `%Y%m%d%H` rendering. |
| Timestamp.StampRoundTrip | courses/python-workshop-master/failing_notebooks/skewt.py:102-110 | An 8-digit date and a 2-digit hour that parse come back verbatim from the rendering, as date, `_`, hour, `Z`. |
| SkewtCli.MissingFlags | courses/python-workshop-master/failing_notebooks/skewt.py:89-92 | The list of missing required options is empty exactly when `--date` and `--hour` are both given. It holds nothing but those two flags, each exactly when it is absent, and `--date` first when both are absent. |
| SkewtCli.ParseArgs | courses/python-workshop-master/failing_notebooks/skewt.py:89-99 | Parsing succeeds exactly when `--date` and `--hour` are both given. Otherwise the error is the list of missing required options. An omitted station becomes `OUN` and an omitted image format `png`; given values are kept. |
| SkewtCli.SavedFigureName | courses/python-workshop-master/failing_notebooks/skewt.py:109-111 | The saved name is the station, `_`, the twelve-character `%Y%m%d_%HZ` rendering of the stamp, `.`, then the image format. |
| SkewtCli.PlanRun | courses/python-workshop-master/failing_notebooks/skewt.py:99-113 | A missing `--date` or `--hour` stops the run with the missing flags. With both given, the run goes ahead exactly when their joined text parses, and otherwise it stops with the parse's own error as a bad time stamp. A run that goes ahead plots a valid stamp whose rendering is that joined text, at the given or default station. It shows the figure exactly when `--savefig` is absent, and with `--savefig` it saves under the file name built from the station, the stamp and the image format. |
| SkewtCli.PlannedStampIsParsed | courses/python-workshop-master/failing_notebooks/skewt.py:102-105 | The stamp a run plots is exactly the parse of `--date` joined with `--hour`. |
| SkewtCli.SavedNameFromArguments | courses/python-workshop-master/failing_notebooks/skewt.py:102-111 | With `--savefig`, an 8-digit date and a 2-digit hour on the calendar, the file is station, `_`, date, `_`, hour, `Z.`, format, with the defaults filled in. |
| SkewtCli.SavedWithDefaults | courses/python-workshop-master/failing_notebooks/skewt.py:93-111 | With `--savefig` and neither `--station` nor `--imgformat`, a date and hour that parse are plotted at `OUN` and saved as `OUN_<date>_<hour>Z.png`. |
| SkewtCli.DefaultSavedName | courses/python-workshop-master/failing_notebooks/skewt.py:93-111 | `--date 20200101 --hour 12 --savefig` with no other options plots noon on 1 January 2020 at `OUN` and saves `OUN_20200101_12Z.png`. |

## Left out

- The upper-air fetch from the Wyoming archive and the unit tagging of its columns (skewt.py lines 15-26) need the network and a foreign library. A `Sounding` is taken as given, with pressures already in mbar.
- Pressures are `real`, which has no NaN. A missing pressure reading arrives as a floating-point NaN, and the source's `>=` leaves that level out of the mask; the model has no such value.
- The MetPy thermodynamics (`lcl`, `lfc`, `parcel_profile`, skewt.py lines 31-33) are floating-point physics inside a library. The temperature and dewpoint columns, which only they and the plot use, are carried but never read.
- All plotting is rendering, not logic: the Skew-T lines, adiabats, CAPE/CIN shading, barbs, hodograph axes and drawing, axis limits and cursors (skewt.py lines 36-83, apart from the mask at 76-77).
- The LCL and LFC presence tests (skewt.py lines 47 and 50) depend on the truthiness of a unit-tagged quantity and on MetPy's NaN for "not found". They only decide whether a line is drawn.
- `subprocess.call` and `pdfkit.from_file` (to_html_pdf.py lines 9 and 12), `plt.savefig` and `plt.show` are shell and file I/O. The model stops at the strings handed to them. The output of the shell command and any failure of it are not modelled.
- The banner printed at to_html_pdf.py line 10 is console output.
- The argument parser is modelled as one optional value per option plus the `--savefig` flag. Tokenising the command line, `--help`, abbreviations and repeated options are library behaviour.
- Timestamp.ParseStamp: requires the joined date and hour to be ten ASCII digits. On such text the four fields, at most 4, 2, 2 and 2 characters wide, can only cover the whole text at full width. So every error case is modelled: a month, day or hour out of its pattern's range (the text is not fully converted), and year 0 or a day past the end of the month. On text of another length, Python's `strptime` matches narrower fields (`202001312` reads as 31 January, 02h), which is not modelled. Its digit pattern also matches non-ASCII decimal digits (Arabic-Indic, for instance), which `int()` converts. The model reads ASCII digits only, so the verbatim round trip of Timestamp.StampRoundTrip and SkewtCli.SavedNameFromArguments is promised for ASCII input only: `%Y%m%d_%HZ` always writes ASCII digits.
- SkewtCli.PlanRun: requires the joined date and hour to be ten ASCII digits whenever both are given, for the reason above. A missing option is still handled for every input.
- Timestamp.FormatStamp: always writes four year digits. For years below 1000 the width of `%Y` depends on the platform's C library.
- Timestamp.StampRoundTrip: the verbatim round trip rests on the four-digit `%Y` above. On a platform that does not pad `%Y`, a date in the years 1 to 999 comes back without its leading zeros: `0999` becomes `999`.
- SkewtCli.SavedWithDefaults: for the same reason, `OUN_<date>_<hour>Z.png` repeats the date verbatim only where `%Y` is padded; elsewhere a date in the years 1 to 999 loses its leading zeros.
- SkewtCli.SavedNameFromArguments: for the same reason, the file name repeats the date verbatim only where `%Y` is padded; elsewhere `--date 09990101 --hour 12 --savefig` saves `OUN_9990101_12Z.png`.
- Any other exception from the script, such as an unreachable station or a failed conversion, comes from the I/O left out above.
