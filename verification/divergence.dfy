/** Where the Python and the Go pipeline, run on the same input, disagree. */
module Divergence {
  import opened Raster
  import opened Scan
  import opened Names
  import WidenPy
  import WidenGo

  /** A file name made of a leading dot and an extension only: Python's
      `splitext` treats the leading dot as part of the name and keeps it,
      Go's `filepath.Ext` takes the whole name as the extension and leaves
      an empty stem. */
  lemma LeadingDotName()
    ensures WidenPy.OutputName(".png") == ".png-4k.jpg"
    ensures WidenGo.OutputName(".png") == "-4k.jpg"
  {
    PythonKeepsLeadingDot();
    GoDropsLeadingDot();
  }

  lemma PythonKeepsLeadingDot()
    ensures WidenPy.OutputName(".png") == ".png-4k.jpg"
  {
    PythonStemOfLeadingDot();
    PythonNameFromStem(".png", ".png");
    DotNameJoined();
  }

  lemma DotNameJoined()
    ensures ".png" + Suffix == ".png-4k.jpg"
  {
  }

  lemma PythonNameFromStem(path: string, kept: string)
    requires RemoveAll(WidenPy.SplitExt(WidenPy.Basename(path)).0, Marker) == kept
    ensures WidenPy.OutputName(path) == kept + Suffix
  {
  }

  lemma PythonStemOfLeadingDot()
    ensures RemoveAll(WidenPy.SplitExt(WidenPy.Basename(".png")).0, Marker) == ".png"
  {
    PythonBasenameOfDotName();
    PythonSplitExtOfDotName();
    NoMatchShort(".png", Marker);
  }

  lemma PythonBasenameOfDotName()
    ensures WidenPy.Basename(".png") == ".png"
  {
    var name := ".png";
    assert forall i | 0 <= i < |name| :: name[i] != '/';
    LastIndexOfNone(name, '/');
  }

  lemma PythonSplitExtOfDotName()
    ensures WidenPy.SplitExt(".png").0 == ".png"
  {
    var name := ".png";
    assert name[0] == '.' && forall i | 0 < i < |name| :: name[i] != '.';
    LastIndexOfAt(name, '.', 0);
  }

  lemma GoDropsLeadingDot()
    ensures WidenGo.OutputName(".png") == "-4k.jpg"
  {
    GoStemOfDotName();
    GoNameFromStem(".png");
  }

  lemma GoNameFromStem(path: string)
    requires WidenGo.Stem(path) == []
    ensures WidenGo.OutputName(path) == "-4k.jpg"
  {
    NoMatchShort([], Marker);
    assert [] + Suffix == Suffix;
  }

  lemma GoStemOfDotName()
    ensures WidenGo.Stem(".png") == []
  {
    GoBaseOfDotName();
    GoExtOfDotName();
  }

  lemma GoBaseOfDotName()
    ensures WidenGo.Base(".png") == ".png"
  {
    var name := ".png";
    assert forall i | 0 <= i < |name| :: name[i] != '/';
    LastIndexOfNone(name, '/');
    assert name[|name| - 1] != '/';
    assert WidenGo.TrimTrailingSlashes(name) == name;
  }

  lemma GoExtOfDotName()
    ensures WidenGo.Ext(".png") == ".png"
  {
    var name := ".png";
    assert forall i | 0 <= i < |name| :: name[i] != '/';
    LastIndexOfNone(name, '/');
    assert name[0] == '.' && forall i | 0 < i < |name| :: name[i] != '.';
    LastIndexOfAt(name, '.', 0);
  }

  const Red: Pixel := Pixel(255, 0, 0)

  /** A black band on a pure red backdrop: Go compares each channel with
      its own mean and trims the backdrop away; Python compares every
      channel with one mean over all channels, so the red rows themselves
      count as content and nothing is trimmed. */
  lemma RedBackdropTrimmedOnlyByGo(img: Image, a: nat, b: nat)
    requires 10 <= a < b < img.height && img.width > 0
    requires forall y, x | 0 <= y < img.height && 0 <= x < img.width ::
      img.rows[y][x] == if a <= y < b then Black else Red
    ensures TrimWindow(WidenPy.Marks(img)) == Window(0, img.height)
    ensures TrimWindow(WidenGo.Marks(img)) == Window(a, b)
  {
    assert WidenGo.SampleDiff(Black, WidenGo.ColourOf(Red)) == 85.0;
    WidenGo.UniformMarginTrimmedToBand(img, a, b, Red, Black);
    assert WidenPy.PixelDeviation(Red, 85.0) == 340.0;
    WidenPy.ColouredMarginIsKept(img, Red);
  }
}
