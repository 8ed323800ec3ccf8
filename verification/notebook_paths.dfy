/**
 The notebook converter (scripts/to_html_pdf.py): the input path has its
 spaces escaped for the shell, an HTML and a PDF path are derived from it by
 cutting at the last '.', and the conversion command is built from it.
 The two external conversions themselves are not modelled.
 */
module NotebookPaths {
  import opened Wrappers

  const Space: char := ' '
  const Backslash: char := '\\'
  const Dot: char := '.'
  const HtmlSuffix: string := ".html"
  const PdfSuffix: string := ".pdf"
  const NbconvertPrefix: string := "jupyter nbconvert --to html "

  /** Number of occurrences of `c` in `s`. */
  function Count(s: string, c: char): (n: nat)
  {
    if |s| == 0 then 0 else (if s[0] == c then 1 else 0) + Count(s[1..], c)
  }

  /** The space at index `i` of `r`, if there is one, directly follows a backslash. */
  predicate SpaceEscapedAt(r: string, i: nat)
    requires i < |r|
  {
    r[i] == Space ==> 0 < i && r[i - 1] == Backslash
  }

  /** `str.replace(" ", "\\ ")`: every space becomes backslash-space. */
  function EscapeSpaces(s: string): (r: string)
    ensures |r| == |s| + Count(s, Space)
    ensures forall i :: 0 <= i < |r| ==> SpaceEscapedAt(r, i)
    ensures |r| > 0 ==> r[0] != Space
  {
    if |s| == 0 then ""
    else
      var head := if s[0] == Space then [Backslash, Space] else [s[0]];
      var tail := EscapeSpaces(s[1..]);
      assert forall i :: |head| <= i < |head + tail| ==>
        SpaceEscapedAt(tail, i - |head|) && (head + tail)[i] == tail[i - |head|];
      head + tail
  }

  /** The inverse reading of the escaping: backslash-space is read back as one space. */
  function UnescapeSpaces(r: string): (s: string)
  {
    if |r| == 0 then ""
    else if 2 <= |r| && r[0] == Backslash && r[1] == Space then [Space] + UnescapeSpaces(r[2..])
    else [r[0]] + UnescapeSpaces(r[1..])
  }

  /** Escaping loses nothing: reading the escaped name back gives the argument. */
  lemma {:induction false} UnescapeEscapeSpaces(s: string)
    ensures UnescapeSpaces(EscapeSpaces(s)) == s
  {
    if |s| > 0 {
      var tail := EscapeSpaces(s[1..]);
      UnescapeEscapeSpaces(s[1..]);
      if s[0] == Space {
        assert EscapeSpaces(s) == [Backslash, Space] + tail;
        assert (([Backslash, Space] + tail)[2..]) == tail;
      } else {
        assert EscapeSpaces(s) == [s[0]] + tail;
        assert (([s[0]] + tail)[1..]) == tail;
        assert |tail| > 0 ==> tail[0] != Space;
      }
    }
  }

  /** `str.rfind(c)`: the index of the last `c` in `s`, or -1 when there is none. */
  function RFind(s: string, c: char): (r: int)
    ensures -1 <= r < |s|
    ensures r == -1 <==> c !in s
    ensures 0 <= r ==> s[r] == c && forall j :: r < j < |s| ==> s[j] != c
  {
    if |s| == 0 then -1
    else if s[|s| - 1] == c then |s| - 1
    else RFind(s[..|s| - 1], c)
  }

  /** Python's `s[0:stop]`: a negative stop counts from the end, and the result is clamped. */
  function PrefixSlice(s: string, stop: int): (r: string)
    ensures r <= s
    ensures 0 <= stop <= |s| ==> |r| == stop
    ensures |s| < stop ==> r == s
    ensures -|s| <= stop < 0 ==> |r| == |s| + stop
    ensures stop < -|s| ==> r == []
  {
    if stop < 0 then (if |s| + stop < 0 then "" else s[..|s| + stop])
    else if stop > |s| then s
    else s[..stop]
  }

  /** `name[0:name.rfind('.')]`, the common stem of both derived paths. */
  function Stem(name: string): (stem: string)
    ensures stem <= name
    ensures Dot in name ==> |stem| < |name| && name[|stem|] == Dot
    ensures forall j :: |stem| < j < |name| ==> name[j] != Dot
    ensures Dot !in name ==> |stem| == if |name| == 0 then 0 else |name| - 1
  {
    PrefixSlice(name, RFind(name, Dot))
  }

  /** What the script computes from its arguments before calling out. */
  datatype Conversion = Conversion(inputFile: string, tempHtml: string, command: string, outputFile: string)

  /** `sys.argv[1]` is absent. */
  datatype ConvertError = MissingArgument

  /** The derivation at lines 6-8 and 11 of the script, from the full argument vector. */
  function PlanConversion(argv: seq<string>): (r: Result<Conversion, ConvertError>)
    ensures r.Failure? <==> |argv| < 2
    ensures r.Success? ==> r.value.inputFile == EscapeSpaces(argv[1])
    ensures r.Success? ==> r.value.command == NbconvertPrefix + r.value.inputFile
    ensures r.Success? ==> r.value.tempHtml == Stem(r.value.inputFile) + HtmlSuffix
    ensures r.Success? ==> r.value.outputFile == Stem(r.value.inputFile) + PdfSuffix
  {
    if |argv| < 2 then Failure(MissingArgument)
    else
      var inputFile := EscapeSpaces(argv[1]);
      var stem := Stem(inputFile);
      Success(Conversion(inputFile, stem + HtmlSuffix, NbconvertPrefix + inputFile, stem + PdfSuffix))
  }

  /** Both derived paths are one stem plus an extension, and that stem is the escaped name cut before its last '.'. */
  lemma SharedStem(argv: seq<string>)
    requires 2 <= |argv|
    ensures var c := PlanConversion(argv).value;
      exists stem: string {:trigger stem + HtmlSuffix} ::
        && stem <= c.inputFile
        && c.tempHtml == stem + HtmlSuffix
        && c.outputFile == stem + PdfSuffix
        && (Dot in c.inputFile ==> c.inputFile[|stem|] == Dot)
        && (forall j :: |stem| < j < |c.inputFile| ==> c.inputFile[j] != Dot)
        && (Dot !in c.inputFile ==> |stem| == if |c.inputFile| == 0 then 0 else |c.inputFile| - 1)
  {
    var c := PlanConversion(argv).value;
    var stem := Stem(c.inputFile);
    assert stem + HtmlSuffix == c.tempHtml;
  }

  /** With a '.' present, both paths are the name up to its LAST '.', plus the new extension. */
  lemma StemAtLastDot(name: string, k: nat)
    requires k < |name| && name[k] == Dot
    requires forall j :: k < j < |name| ==> name[j] != Dot
    ensures Stem(name) == name[..k]
  {
  }

  /** Only the last '.' counts: `a.b.ipynb` becomes `a.b.html` and `a.b.pdf`. */
  lemma LastDotOnly(argv: seq<string>)
    requires 2 <= |argv| && argv[1] == "a.b.ipynb"
    ensures PlanConversion(argv) ==
      Success(Conversion("a.b.ipynb", "a.b.html", "jupyter nbconvert --to html a.b.ipynb", "a.b.pdf"))
  {
    assert NbconvertPrefix + "a.b.ipynb" == "jupyter nbconvert --to html a.b.ipynb";
    assert "a.b" + HtmlSuffix == "a.b.html";
    assert "a.b" + PdfSuffix == "a.b.pdf";
    assert argv[1] == "a.b" + [Dot] + "ipynb";
    EscapeWithoutSpaces(argv[1]);
    StemBeforeLastDot("a.b", "ipynb");
    ConversionFields(argv, "a.b.ipynb", "a.b");
  }

  /** A '.' in a directory component is used when the file part has none: `d.x/nb` gives `d.html`. */
  lemma DirectoryDotUsed(argv: seq<string>)
    requires 2 <= |argv| && argv[1] == "d.x/nb"
    ensures PlanConversion(argv) ==
      Success(Conversion("d.x/nb", "d.html", "jupyter nbconvert --to html d.x/nb", "d.pdf"))
  {
    assert NbconvertPrefix + "d.x/nb" == "jupyter nbconvert --to html d.x/nb";
    assert "d" + HtmlSuffix == "d.html";
    assert "d" + PdfSuffix == "d.pdf";
    assert argv[1] == "d" + [Dot] + "x/nb";
    EscapeWithoutSpaces(argv[1]);
    StemBeforeLastDot("d", "x/nb");
    ConversionFields(argv, "d.x/nb", "d");
  }

  /** With no '.', `rfind` gives -1 and the slice `[0:-1]` drops the final character. */
  lemma NoDotDropsLastChar(argv: seq<string>)
    requires 2 <= |argv| && Dot !in argv[1] && |argv[1]| > 0
    ensures var r := PlanConversion(argv);
      var escaped := EscapeSpaces(argv[1]);
      && r.Success?
      && r.value.tempHtml == escaped[..|escaped| - 1] + HtmlSuffix
      && r.value.outputFile == escaped[..|escaped| - 1] + PdfSuffix
  {
    EscapeKeepsOtherChars(argv[1], Dot);
  }

  /** `notes` becomes `note.html` and `note.pdf`. */
  lemma NotesBecomesNote(argv: seq<string>)
    requires 2 <= |argv| && argv[1] == "notes"
    ensures PlanConversion(argv) ==
      Success(Conversion("notes", "note.html", "jupyter nbconvert --to html notes", "note.pdf"))
  {
    assert NbconvertPrefix + "notes" == "jupyter nbconvert --to html notes";
    assert "note" + HtmlSuffix == "note.html";
    assert "note" + PdfSuffix == "note.pdf";
    assert argv[1] == "note" + "s";
    EscapeWithoutSpaces(argv[1]);
    StemWithoutDot("note", 's');
    ConversionFields(argv, "notes", "note");
  }

  /** The stem is cut from the escaped name, so the derived paths keep the backslash:
      `a b.ipynb` gives `a\ b.html` and `a\ b.pdf`, and so does every name of that shape. */
  lemma EscapedNameInPaths(argv: seq<string>, first: string, second: string, ext: string)
    requires 2 <= |argv| && argv[1] == first + " " + second + [Dot] + ext
    requires Space !in first && Space !in second && Space !in ext && Dot !in ext
    ensures var stem := first + "\\ " + second;
      PlanConversion(argv) ==
        Success(Conversion(stem + [Dot] + ext, stem + HtmlSuffix,
                           NbconvertPrefix + stem + [Dot] + ext, stem + PdfSuffix))
  {
    var stem := first + "\\ " + second;
    assert argv[1] == first + " " + (second + [Dot] + ext);
    assert Space !in second + [Dot] + ext;
    EscapeOneSpace(first, second + [Dot] + ext);
    assert first + "\\ " + (second + [Dot] + ext) == stem + [Dot] + ext;
    StemBeforeLastDot(stem, ext);
    assert NbconvertPrefix + (stem + [Dot] + ext) == NbconvertPrefix + stem + [Dot] + ext;
    ConversionFields(argv, stem + [Dot] + ext, stem);
  }

  /** The shape above on the concrete name `a b.ipynb`. */
  lemma EscapedNameExample(argv: seq<string>)
    requires 2 <= |argv| && argv[1] == "a b.ipynb"
    ensures PlanConversion(argv).Success?
    ensures PlanConversion(argv).value.tempHtml == "a\\ b.html"
    ensures PlanConversion(argv).value.outputFile == "a\\ b.pdf"
  {
    assert "a b.ipynb" == "a" + " " + "b" + [Dot] + "ipynb";
    assert "a" + "\\ " + "b" + HtmlSuffix == "a\\ b.html";
    assert "a" + "\\ " + "b" + PdfSuffix == "a\\ b.pdf";
    EscapedNameInPaths(argv, "a", "b", "ipynb");
  }

  /** Escaping a name with exactly one space between two space-free parts. */
  lemma EscapeOneSpace(pre: string, post: string)
    requires Space !in pre && Space !in post
    ensures EscapeSpaces(pre + " " + post) == pre + "\\ " + post
  {
    EscapeWithoutSpaces(pre);
    EscapeWithoutSpaces(post);
    assert EscapeSpaces(" ") == "\\ ";
    EscapeAppend(pre, " ");
    EscapeAppend(pre + " ", post);
  }

  /** A name with no '.' at all loses its last character. */
  lemma StemWithoutDot(pre: string, last: char)
    requires Dot !in pre && last != Dot
    ensures Stem(pre + [last]) == pre
  {
    assert Dot !in pre + [last];
    assert (pre + [last])[..|pre|] == pre;
  }

  /** A name split at a '.' with no '.' after it has the part before as its stem. */
  lemma StemBeforeLastDot(pre: string, post: string)
    requires Dot !in post
    ensures Stem(pre + [Dot] + post) == pre
  {
    var name := pre + [Dot] + post;
    assert forall j :: |pre| < j < |name| ==> name[j] == post[j - |pre| - 1];
    StemAtLastDot(name, |pre|);
    assert name[..|pre|] == pre;
  }

  /** Assembles a conversion from its escaped name and stem. */
  lemma ConversionFields(argv: seq<string>, escaped: string, stem: string)
    requires 2 <= |argv| && EscapeSpaces(argv[1]) == escaped && Stem(escaped) == stem
    ensures PlanConversion(argv) ==
      Success(Conversion(escaped, stem + HtmlSuffix, NbconvertPrefix + escaped, stem + PdfSuffix))
  {
  }

  /** A name without spaces is passed through unchanged. */
  lemma {:induction false} EscapeWithoutSpaces(s: string)
    requires Space !in s
    ensures EscapeSpaces(s) == s
  {
    if |s| > 0 {
      EscapeWithoutSpaces(s[1..]);
      assert s == [s[0]] + s[1..];
    }
  }

  /** Escaping works character by character, so it distributes over concatenation. */
  lemma {:induction false} EscapeAppend(a: string, b: string)
    ensures EscapeSpaces(a + b) == EscapeSpaces(a) + EscapeSpaces(b)
  {
    if |a| > 0 {
      assert (a + b)[1..] == a[1..] + b;
      EscapeAppend(a[1..], b);
    } else {
      assert a + b == b;
    }
  }

  /** Escaping only inserts backslashes: a character other than backslash or space occurs equally often. */
  lemma {:induction false} EscapeKeepsOtherChars(s: string, c: char)
    requires c != Space && c != Backslash
    ensures Count(EscapeSpaces(s), c) == Count(s, c)
    ensures c in EscapeSpaces(s) <==> c in s
  {
    if |s| > 0 {
      EscapeKeepsOtherChars(s[1..], c);
      var head := if s[0] == Space then [Backslash, Space] else [s[0]];
      CountAppend(head, EscapeSpaces(s[1..]), c);
      CountPositive(EscapeSpaces(s), c);
      CountPositive(s, c);
    }
  }

  lemma {:induction false} CountAppend(a: string, b: string, c: char)
    ensures Count(a + b, c) == Count(a, c) + Count(b, c)
  {
    if |a| > 0 {
      assert (a + b)[1..] == a[1..] + b;
      CountAppend(a[1..], b, c);
    } else {
      assert a + b == b;
    }
  }

  lemma {:induction false} CountPositive(s: string, c: char)
    ensures Count(s, c) > 0 <==> c in s
  {
    if |s| > 0 {
      CountPositive(s[1..], c);
      assert s == [s[0]] + s[1..];
    }
  }
}
