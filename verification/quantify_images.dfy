/** The deterministic rules of the headless Fiji quantification tool:
    the "Set Measurements" option string, the threshold configuration and the
    generated macro's manual-threshold clamp, the image-folder filter, the
    macro's extension list and its `shouldProcess` matcher, the reading of
    the results table Fiji writes, and the per-measurement summary of the
    exported workbook. */
module QuantifyImages {
  import opened Wrappers
  import opened Text
  import opened Paths
  import Seqs

  // ---------------------------------------------------------------------
  // Measurements and the option string for "Set Measurements..."

  /** How one measurement is named for the user, requested from ImageJ and
      read back from its results table. */
  datatype Measurement = Measurement(
    key: string,
    displayName: string,
    imagejOption: string,
    resultColumn: string)

  const Measurements: seq<Measurement> := [
    Measurement("area", "Area", "area", "Area"),
    Measurement("mean", "Mean", "mean", "Mean"),
    Measurement("std_dev", "StdDev", "standard", "StdDev"),
    Measurement("min", "Min", "min", "Min"),
    Measurement("max", "Max", "max", "Max"),
    Measurement("int_den", "IntDen", "integrated", "IntDen")
  ]

  /** The fixed options that always follow the measurement options. */
  const OptionTail: seq<string> := ["limit", "display", "redirect=None", "decimal=3"]

  function ImagejOptions(defs: seq<Measurement>): (r: seq<string>)
    ensures |r| == |defs|
    ensures forall i :: 0 <= i < |defs| ==> r[i] == defs[i].imagejOption
  {
    seq(|defs|, i requires 0 <= i < |defs| => defs[i].imagejOption)
  }

  /** The options in order of first occurrence, each kept once. */
  function Dedup(xs: seq<string>): (r: seq<string>)
    ensures |r| <= |xs|
    decreases |xs|
  {
    if xs == [] then []
    else
      var d := Dedup(xs[..|xs| - 1]);
      if xs[|xs| - 1] in d then d else d + [xs[|xs| - 1]]
  }

  predicate Distinct(xs: seq<string>) {
    forall i, j :: 0 <= i < j < |xs| ==> xs[i] != xs[j]
  }

  /** Position of the first occurrence of `x` in `xs`. */
  function FirstIndex(xs: seq<string>, x: string): (k: nat)
    requires x in xs
    ensures k < |xs| && xs[k] == x && x !in xs[..k]
  {
    if xs[0] == x then 0
    else
      var k := FirstIndex(xs[1..], x);
      assert xs[..k + 1] == [xs[0]] + xs[1..][..k];
      1 + k
  }

  lemma FirstIndexUnique(xs: seq<string>, x: string, k: nat)
    requires k < |xs| && xs[k] == x && x !in xs[..k]
    ensures FirstIndex(xs, x) == k
  {
    var f := FirstIndex(xs, x);
    assert forall i :: 0 <= i < k ==> xs[i] in xs[..k];
    assert forall i :: 0 <= i < f ==> xs[i] in xs[..f];
  }

  /** Every option of the input is kept, and nothing else. */
  lemma {:induction false} DedupElements(xs: seq<string>)
    ensures forall x :: x in Dedup(xs) <==> x in xs
    decreases |xs|
  {
    if xs != [] {
      var init := xs[..|xs| - 1];
      DedupElements(init);
      assert xs == init + [xs[|xs| - 1]];
    }
  }

  /** No option is kept twice. */
  lemma {:induction false} DedupDistinct(xs: seq<string>)
    ensures Distinct(Dedup(xs))
    decreases |xs|
  {
    if xs != [] {
      DedupDistinct(xs[..|xs| - 1]);
    }
  }

  /** An option of the prefix first occurs at the same place in the whole
      sequence. */
  lemma FirstIndexInPrefix(xs: seq<string>, y: string)
    requires xs != [] && y in xs[..|xs| - 1]
    ensures FirstIndex(xs, y) == FirstIndex(xs[..|xs| - 1], y) < |xs| - 1
  {
    var init := xs[..|xs| - 1];
    var k := FirstIndex(init, y);
    assert xs[..k] == init[..k];
    FirstIndexUnique(xs, y, k);
  }

  /** The kept options appear in the order of their first occurrence. */
  lemma {:induction false} DedupFirstOccurrenceOrder(xs: seq<string>)
    ensures forall x :: x in Dedup(xs) ==> x in xs
    ensures forall i, j :: 0 <= i < j < |Dedup(xs)| ==>
      FirstIndex(xs, Dedup(xs)[i]) < FirstIndex(xs, Dedup(xs)[j])
    decreases |xs|
  {
    DedupElements(xs);
    if xs != [] {
      var init := xs[..|xs| - 1];
      DedupFirstOccurrenceOrder(init);
      DedupElements(init);
      forall i, j | 0 <= i < j < |Dedup(xs)|
        ensures FirstIndex(xs, Dedup(xs)[i]) < FirstIndex(xs, Dedup(xs)[j])
      {
        DedupPairOrdered(xs, init, i, j);
      }
    }
  }

  /** One step of the induction above: a pair of kept options of `xs`,
      given that the options kept from its prefix are in order. */
  lemma DedupPairOrdered(xs: seq<string>, init: seq<string>, i: nat, j: nat)
    requires xs != [] && init == xs[..|xs| - 1] && i < j < |Dedup(xs)|
    requires forall x :: x in Dedup(xs) ==> x in xs
    requires forall x :: x in Dedup(init) ==> x in init
    requires j < |Dedup(init)| ==> FirstIndex(init, Dedup(init)[i]) < FirstIndex(init, Dedup(init)[j])
    ensures FirstIndex(xs, Dedup(xs)[i]) < FirstIndex(xs, Dedup(xs)[j])
  {
    var n := |xs|;
    var last := xs[n - 1];
    var d, dx := Dedup(init), Dedup(xs);
    assert dx == if last in d then d else d + [last];
    assert dx[i] == d[i] && d[i] in init;
    if j < |d| {
      assert dx[j] == d[j] && d[j] in init;
      FirstIndexKeepsOrder(xs, init, d[i], d[j]);
    } else {
      assert dx[j] == last && last !in d;
      FirstIndexBeforeNew(xs, init, d[i]);
    }
  }

  lemma FirstIndexKeepsOrder(xs: seq<string>, init: seq<string>, a: string, b: string)
    requires xs != [] && init == xs[..|xs| - 1] && a in init && b in init
    requires FirstIndex(init, a) < FirstIndex(init, b)
    ensures a in xs && b in xs && FirstIndex(xs, a) < FirstIndex(xs, b)
  {
    FirstIndexInPrefix(xs, a);
    FirstIndexInPrefix(xs, b);
  }

  lemma FirstIndexBeforeNew(xs: seq<string>, init: seq<string>, a: string)
    requires xs != [] && init == xs[..|xs| - 1] && a in init && xs[|xs| - 1] !in Dedup(init)
    ensures a in xs && FirstIndex(xs, a) < FirstIndex(xs, xs[|xs| - 1])
  {
    FirstIndexInPrefix(xs, a);
    NewOptionFirstIndex(xs, init);
  }

  /** An option the prefix does not keep first occurs at the very end. */
  lemma NewOptionFirstIndex(xs: seq<string>, init: seq<string>)
    requires xs != [] && init == xs[..|xs| - 1] && xs[|xs| - 1] !in Dedup(init)
    ensures FirstIndex(xs, xs[|xs| - 1]) == |xs| - 1
  {
    DedupElements(init);
    FirstIndexUnique(xs, xs[|xs| - 1], |xs| - 1);
  }

  /** `build_measurement_option_string`: every distinct ImageJ option once,
      in order of first occurrence, then the fixed tail, joined by spaces. */
  method BuildMeasurementOptionString(defs: seq<Measurement>) returns (s: string)
    ensures s == Join(Dedup(ImagejOptions(defs)) + OptionTail, " ")
  {
    var options: seq<string> := [];
    var seen: set<string> := {};
    for i := 0 to |defs|
      invariant options == Dedup(ImagejOptions(defs[..i]))
      invariant forall x :: x in seen <==> x in options
    {
      var option := defs[i].imagejOption;
      assert ImagejOptions(defs[..i + 1]) == ImagejOptions(defs[..i]) + [option];
      if option !in seen {
        options := options + [option];
        seen := seen + {option};
      }
    }
    assert defs[..|defs|] == defs;
    options := options + OptionTail;
    s := Join(options, " ");
  }

  /** The tail as text, `limit display redirect=None decimal=3`. */
  const TailText: string := Join(OptionTail, " ")

  /** The option string ends with the fixed tail, after every measurement
      option. */
  lemma OptionStringEndsWithTail(options: seq<string>)
    ensures options == [] ==> Join(options + OptionTail, " ") == TailText
    ensures options != [] ==> Join(options + OptionTail, " ") == Join(options, " ") + " " + TailText
    ensures EndsWith(Join(options + OptionTail, " "), TailText)
  {
    if options == [] {
      assert options + OptionTail == OptionTail;
    } else {
      JoinAppend(options, OptionTail, " ");
    }
  }

  /** Read back as space-separated tokens, the option string is the
      de-duplicated options followed by the tail. */
  lemma OptionStringTokens(defs: seq<Measurement>)
    requires forall i :: 0 <= i < |defs| ==> ' ' !in defs[i].imagejOption
    ensures Split(Join(Dedup(ImagejOptions(defs)) + OptionTail, " "), ' ')
         == Dedup(ImagejOptions(defs)) + OptionTail
  {
    var d := Dedup(ImagejOptions(defs));
    DedupElements(ImagejOptions(defs));
    forall i | 0 <= i < |d + OptionTail| ensures ' ' !in (d + OptionTail)[i] {
      if i < |d| {
        assert d[i] in ImagejOptions(defs);
      }
    }
    SplitJoin(d + OptionTail, ' ');
  }

  const BuiltInOptions: seq<string> := ["area", "mean", "standard", "min", "max", "integrated"]

  /** The six built-in measurements request six different options. */
  lemma BuiltInOptionsDedup()
    ensures Dedup(ImagejOptions(Measurements)) == BuiltInOptions
  {
    var opts := ImagejOptions(Measurements);
    assert opts == BuiltInOptions;
    assert Dedup(opts[..1]) == ["area"];
    assert opts[..2][..1] == opts[..1];
    assert Dedup(opts[..2]) == ["area", "mean"];
    assert opts[..3][..2] == opts[..2];
    assert Dedup(opts[..3]) == ["area", "mean", "standard"];
    assert opts[..4][..3] == opts[..3];
    assert Dedup(opts[..4]) == ["area", "mean", "standard", "min"];
    assert opts[..5][..4] == opts[..4];
    assert Dedup(opts[..5]) == ["area", "mean", "standard", "min", "max"];
    assert opts[..5] == opts[..|opts| - 1];
  }

  /** `MEASUREMENT_OPTION_STRING` for the six built-in measurements: the six
      options in table order, then the tail, and nothing else once split on
      spaces. */
  lemma MeasurementOptionStringValue()
    ensures Join(Dedup(ImagejOptions(Measurements)) + OptionTail, " ")
         == Join(BuiltInOptions + OptionTail, " ")
    ensures Split(Join(Dedup(ImagejOptions(Measurements)) + OptionTail, " "), ' ')
         == ["area", "mean", "standard", "min", "max", "integrated",
             "limit", "display", "redirect=None", "decimal=3"]
  {
    var d := Dedup(ImagejOptions(Measurements));
    BuiltInOptionsDedup();
    assert d + OptionTail == BuiltInOptions + OptionTail;
    OptionStringTokens(Measurements);
  }

  // ---------------------------------------------------------------------
  // The folder path handed to ImageJ

  /** `ensure_trailing_separator`: the path text with a `/` at its end. */
  function EnsureTrailingSeparator(text: string): (r: string)
    ensures EndsWith(r, "/")
    ensures EndsWith(text, "/") ==> r == text
    ensures !EndsWith(text, "/") ==> r == text + "/"
  {
    if EndsWith(text, "/") then text else text + "/"
  }

  /** Applying it twice is applying it once, and it only ever appends. */
  lemma EnsureTrailingSeparatorIdempotent(text: string)
    ensures EnsureTrailingSeparator(EnsureTrailingSeparator(text)) == EnsureTrailingSeparator(text)
    ensures StartsWith(EnsureTrailingSeparator(text), text)
    ensures |EnsureTrailingSeparator(text)| <= |text| + 1
  {
  }

  // ---------------------------------------------------------------------
  // Threshold configuration and the macro's manual threshold

  /** `ThresholdConfig`: "otsu" or "manual", with the manual lower bound. */
  datatype ThresholdConfig = ThresholdConfig(methodName: string, manualValue: Option<int>)

  const ManualPrefix: string := "Manual threshold at "

  /** How an f-string renders an optional integer. */
  function OptionalIntText(v: Option<int>): string {
    match v
    case None => "None"
    case Some(n) => IntToString(n)
  }

  /** `ThresholdConfig.description`. */
  function Description(c: ThresholdConfig): (r: string)
    ensures c.methodName == "otsu" ==> r == "Otsu automatic threshold"
    ensures c.methodName != "otsu" ==> StartsWith(r, ManualPrefix)
    ensures c.methodName != "otsu" && c.manualValue.Some? ==>
      ParseInt(r[|ManualPrefix|..]) == c.manualValue
    ensures c.methodName != "otsu" && c.manualValue.None? ==> r[|ManualPrefix|..] == "None"
    ensures c.methodName != "otsu" && c.manualValue.Some? ==>
      r[|ManualPrefix|..] == IntToString(c.manualValue.value)
  {
    if c.methodName == "otsu" then "Otsu automatic threshold"
    else
      var r := ManualPrefix + OptionalIntText(c.manualValue);
      assert r[|ManualPrefix|..] == OptionalIntText(c.manualValue);
      r
  }

  /** `ThresholdConfig.macro_manual_value`: `int(manual_value or 0)`. */
  function MacroManualValue(c: ThresholdConfig): (r: int)
    ensures c.manualValue.None? ==> r == 0
    ensures c.manualValue.Some? ==> r == c.manualValue.value
  {
    match c.manualValue
    case None => 0
    case Some(v) => if v == 0 then 0 else v
  }

  /** The macro's `if (lower < 0) lower = 0; if (lower > 255) lower = 255;`. */
  function ClampLower(v: int): (r: int)
    ensures 0 <= r <= 255
    ensures 0 <= v <= 255 ==> r == v
    ensures v < 0 ==> r == 0
    ensures v > 255 ==> r == 255
  {
    var lower := if v < 0 then 0 else v;
    if lower > 255 then 255 else lower
  }

  /** The lower threshold the macro's manual branch hands to `setThreshold`. */
  function MacroManualLower(c: ThresholdConfig): (r: int)
    ensures 0 <= r <= 255
    ensures c.manualValue.None? || c.manualValue == Some(0) ==> r == 0
    ensures c.manualValue.Some? && 0 <= c.manualValue.value <= 255 ==> r == c.manualValue.value
  {
    ClampLower(MacroManualValue(c))
  }

  /** The label the macro's manual branch records: `"Manual (" + lower + ")"`. */
  function ManualThresholdLabel(c: ThresholdConfig): (r: string)
    ensures |r| > 9 && StartsWith(r, "Manual (") && EndsWith(r, ")")
    ensures ParseInt(r[8..|r| - 1]) == Some(MacroManualLower(c))
    ensures r[8..|r| - 1] == IntToString(MacroManualLower(c))
  {
    var lower := MacroManualLower(c);
    var r := "Manual (" + IntToString(lower) + ")";
    assert r[8..|r| - 1] == IntToString(lower);
    r
  }

  // ---------------------------------------------------------------------
  // Image discovery and the macro's extension filter

  const SupportedExtensions: set<string> := {".png", ".jpg", ".jpeg", ".tif", ".tiff", ".bmp"}

  /** `SUPPORTED_EXTENSIONS` in one of its enumeration orders. */
  const SupportedExtensionSeq: seq<string> := [".png", ".jpg", ".jpeg", ".tif", ".tiff", ".bmp"]

  predicate IsSupportedImage(e: DirEntry) {
    Lower(Suffix(e.name)) in SupportedExtensions && e.isFile
  }

  function NamesOf(entries: seq<DirEntry>): (r: seq<string>)
    ensures |r| == |entries|
    ensures forall i :: 0 <= i < |entries| ==> r[i] == entries[i].name
  {
    seq(|entries|, i requires 0 <= i < |entries| => entries[i].name)
  }

  lemma NamesOfMembership(entries: seq<DirEntry>)
    ensures forall n :: n in NamesOf(entries) <==> exists e :: e in entries && e.name == n
  {
    forall n | n in NamesOf(entries) ensures exists e :: e in entries && e.name == n {
      var i :| 0 <= i < |entries| && NamesOf(entries)[i] == n;
      assert entries[i] in entries;
    }
    forall n | (exists e :: e in entries && e.name == n) ensures n in NamesOf(entries) {
      var e :| e in entries && e.name == n;
      var i :| 0 <= i < |entries| && entries[i] == e;
      assert NamesOf(entries)[i] == n;
    }
  }

  /** `find_images`: the names of the regular files of the folder whose
      lower-cased suffix is supported, sorted ascending. */
  function FindImages(entries: seq<DirEntry>): (r: seq<string>)
    ensures Sorted(r)
    ensures multiset(r) == multiset(NamesOf(Seqs.Filter(entries, IsSupportedImage)))
  {
    Sort(NamesOf(Seqs.Filter(entries, IsSupportedImage)))
  }

  /** A name is reported exactly when some regular file of the folder with a
      supported suffix carries it. */
  lemma FindImagesSelects(entries: seq<DirEntry>)
    ensures forall n :: n in FindImages(entries) <==> exists e :: e in entries && IsSupportedImage(e) && e.name == n
  {
    var kept := Seqs.Filter(entries, IsSupportedImage);
    var r := FindImages(entries);
    assert forall n :: n in r <==> n in multiset(NamesOf(kept));
    NamesOfMembership(kept);
  }

  function LowerAll(xs: seq<string>): (r: seq<string>)
    ensures |r| == |xs|
    ensures forall i :: 0 <= i < |xs| ==> r[i] == Lower(xs[i])
  {
    seq(|xs|, i requires 0 <= i < |xs| => Lower(xs[i]))
  }

  /** The macro's `extensionList`: the lower-cased extensions, sorted,
      joined by `;`. */
  function ExtensionList(exts: seq<string>): (r: string)
    ensures exts == [] ==> r == ""
    ensures exts != [] ==> StartsWith(r, Sort(LowerAll(exts))[0])
  {
    var sorted := Sort(LowerAll(exts));
    assert |sorted| == |multiset(sorted)| == |exts|;
    Join(sorted, ";")
  }

  /** Splitting the extension list at `;` gives back the sorted list. */
  lemma SplitExtensionList(exts: seq<string>)
    requires exts != []
    requires forall i :: 0 <= i < |exts| ==> ';' !in exts[i]
    ensures Split(ExtensionList(exts), ';') == Sort(LowerAll(exts))
  {
    var sorted := Sort(LowerAll(exts));
    assert |sorted| == |multiset(sorted)| == |exts|;
    forall i | 0 <= i < |sorted| ensures ';' !in sorted[i] {
      assert sorted[i] in multiset(LowerAll(exts));
      var j :| 0 <= j < |exts| && LowerAll(exts)[j] == sorted[i];
      LowerKeepsNonLetter(exts[j], ';');
    }
    SplitJoin(sorted, ';');
  }

  const SortedSupportedExtensions: seq<string> := [".bmp", ".jpeg", ".jpg", ".png", ".tif", ".tiff"]

  lemma SortedSupportedExtensionsIsSorted()
    ensures Sorted(SortedSupportedExtensions)
  {
    assert LexLe(".bmp", ".jpeg");
    assert LexLe(".jpeg", ".jpg");
    assert LexLe(".jpg", ".png");
    assert LexLe(".png", ".tif");
    assert LexLe(".tif", ".tiff") by {
      assert ".tif"[1..][1..][1..][1..] == [];
    }
  }

  lemma SupportedExtensionsAreLowerCase(exts: seq<string>)
    requires multiset(exts) == multiset(SupportedExtensionSeq)
    ensures LowerAll(exts) == exts
  {
    SupportedExtensionsHaveNoUpper();
    forall i | 0 <= i < |exts| ensures Lower(exts[i]) == exts[i] {
      assert exts[i] in multiset(SupportedExtensionSeq);
      var k :| 0 <= k < |SupportedExtensionSeq| && SupportedExtensionSeq[k] == exts[i];
      LowerOfLowered(exts[i]);
    }
  }

  lemma SupportedExtensionsHaveNoUpper()
    ensures forall k :: 0 <= k < |SupportedExtensionSeq| ==> NoUpper(SupportedExtensionSeq[k])
  {
    assert NoUpper(".png") && NoUpper(".jpg") && NoUpper(".jpeg");
    assert NoUpper(".tif") && NoUpper(".tiff") && NoUpper(".bmp");
  }

  /** The sorted list holds the same extensions as the set. */
  lemma SortedSupportedExtensionsPermute()
    ensures multiset(SortedSupportedExtensions) == multiset(SupportedExtensionSeq)
  {
  }

  /** The `;`-separated list handed to the macro, in sorted order. */
  const SupportedExtensionList: string := Join(SortedSupportedExtensions, ";")

  lemma SplitSupportedExtensionList()
    ensures Split(SupportedExtensionList, ';') == SortedSupportedExtensions
  {
    var e := SortedSupportedExtensions;
    assert forall i :: 0 <= i < |e| ==> ';' !in e[i];
    SplitJoin(e, ';');
  }

  /** The extension list the macro receives, whatever order the set of
      supported extensions is enumerated in. */
  lemma SupportedExtensionListValue(exts: seq<string>)
    requires multiset(exts) == multiset(SupportedExtensionSeq)
    ensures ExtensionList(exts) == SupportedExtensionList
    ensures Split(SupportedExtensionList, ';') == SortedSupportedExtensions
  {
    SortedSupportedExtensionsIsSorted();
    SupportedExtensionsAreLowerCase(exts);
    SortedSupportedExtensionsPermute();
    SortedUnique(Sort(exts), SortedSupportedExtensions);
    SplitSupportedExtensionList();
  }

  /** What the macro's `shouldProcess` answers: the lower-cased name ends
      with a non-empty entry of the `;`-separated list. */
  predicate ShouldProcessSpec(name: string, extensionList: string) {
    exists e :: e in Split(extensionList, ';') && e != "" && EndsWith(Lower(name), e)
  }

  /** The macro function `shouldProcess(name, extensionList)`. */
  method ShouldProcess(name: string, extensionList: string) returns (r: bool)
    ensures r == ShouldProcessSpec(name, extensionList)
  {
    var lower := Lower(name);
    var exts := Split(extensionList, ';');
    var j := 0;
    while j < |exts|
      invariant 0 <= j <= |exts|
      invariant forall k :: 0 <= k < j ==> exts[k] == "" || !EndsWith(lower, exts[k])
    {
      var ext := exts[j];
      if ext == "" {
        j := j + 1;
        continue;
      }
      if EndsWith(lower, ext) {
        return true;
      }
      j := j + 1;
    }
    return false;
  }

  /** Every image `find_images` reports passes the macro's `shouldProcess`
      test. */
  lemma FoundImagesPassShouldProcess(e: DirEntry)
    requires IsSupportedImage(e)
    ensures ShouldProcessSpec(e.name, SupportedExtensionList)
  {
    SplitSupportedExtensionList();
    var ext := Lower(Suffix(e.name));
    LowerSuffixEndsLowerName(e.name);
    assert ext in SortedSupportedExtensions;
    assert ext != "";
  }

  /** The converse fails for the keep test alone: `shouldProcess` uses
      `endsWith`, so it accepts a dot-name such as `.tif`, which
      `find_images` does not count. The macro itself never opens such a
      file, because ImageJ's `getFileList`, which this model leaves out,
      does not list dot-names. */
  lemma HiddenNamePassesButNotFound()
    ensures ShouldProcessSpec(".tif", SupportedExtensionList)
    ensures !IsSupportedImage(DirEntry(".tif", true))
  {
    HiddenNamePassesShouldProcess();
    HiddenNameHasNoSuffix();
  }

  lemma HiddenNamePassesShouldProcess()
    ensures ShouldProcessSpec(".tif", SupportedExtensionList)
  {
    SplitSupportedExtensionList();
    TifIsLowerCase();
    assert ".tif" == SortedSupportedExtensions[4];
    ListedEntryIsProcessed(".tif", SupportedExtensionList, ".tif");
  }

  lemma TifIsLowerCase()
    ensures EndsWith(Lower(".tif"), ".tif")
  {
    assert NoUpper(".tif");
    LowerOfLowered(".tif");
  }

  lemma ListedEntryIsProcessed(name: string, extensionList: string, e: string)
    requires e in Split(extensionList, ';') && e != "" && EndsWith(Lower(name), e)
    ensures ShouldProcessSpec(name, extensionList)
  {
  }

  lemma HiddenNameHasNoSuffix()
    ensures !IsSupportedImage(DirEntry(".tif", true))
  {
    assert Suffix(".tif") == "";
    assert Lower(Suffix(".tif")) == [];
    assert [] !in SupportedExtensions;
  }

  // ---------------------------------------------------------------------
  // Reading the results table (`parse_results_csv`)

  /** One row of `csv.DictReader`: a missing key is a missing cell. */
  type CsvRow = map<string, string>

  function Get(row: CsvRow, key: string): Option<string> {
    if key in row then Some(row[key]) else None
  }

  /** Python truthiness of an optional cell. */
  predicate Truthy(v: Option<string>) {
    v.Some? && v.value != ""
  }

  /** `row.get("Image") or row.get("Label") or ""`. */
  function ImageName(row: CsvRow): (r: string)
    ensures Truthy(Get(row, "Image")) ==> r == row["Image"]
    ensures !Truthy(Get(row, "Image")) && Truthy(Get(row, "Label")) ==> r == row["Label"]
    ensures !Truthy(Get(row, "Image")) && !Truthy(Get(row, "Label")) ==> r == ""
  {
    if Truthy(Get(row, "Image")) then row["Image"]
    else if Truthy(Get(row, "Label")) then row["Label"]
    else ""
  }

  /** The threshold column, `"-"` when absent or empty. */
  function ThresholdText(row: CsvRow): (r: string)
    ensures r != ""
    ensures Truthy(Get(row, "Threshold Applied")) ==> r == row["Threshold Applied"]
    ensures !Truthy(Get(row, "Threshold Applied")) ==> r == "-"
  {
    var v := if "Threshold Applied" in row then row["Threshold Applied"] else "-";
    if v != "" then v else "-"
  }

  /** `safe_float`: an absent or empty cell is NaN (`None`); anything else
      goes to the float reader `parse`, which answers `None` for NaN or
      unreadable text. */
  function SafeFloat(v: Option<string>, parse: string -> Option<real>): (r: Option<real>)
    ensures v.None? || v.value == "" ==> r.None?
    ensures v.Some? && v.value != "" ==> r == parse(v.value)
  {
    if v.None? || v.value == "" then None else parse(v.value)
  }

  function DisplayNames(defs: seq<Measurement>): set<string> {
    set d | d in defs :: d.displayName
  }

  /** The measurement dictionary of one row, built in definition order: it
      has exactly the display names as keys. */
  function RowMeasurements(defs: seq<Measurement>, row: CsvRow, parse: string -> Option<real>)
    : (r: map<string, Option<real>>)
    ensures r.Keys == DisplayNames(defs)
    decreases |defs|
  {
    if defs == [] then map[]
    else
      var init := defs[..|defs| - 1];
      var d := defs[|defs| - 1];
      assert defs == init + [d];
      assert DisplayNames(defs) == DisplayNames(init) + {d.displayName};
      RowMeasurements(init, row, parse)[d.displayName := SafeFloat(Get(row, d.resultColumn), parse)]
  }

  /** A display name used once holds its own column's value. */
  lemma {:induction false} RowMeasurementsValue(defs: seq<Measurement>, row: CsvRow, parse: string -> Option<real>, j: nat)
    requires j < |defs|
    requires forall k :: j < k < |defs| ==> defs[k].displayName != defs[j].displayName
    ensures defs[j].displayName in RowMeasurements(defs, row, parse)
    ensures RowMeasurements(defs, row, parse)[defs[j].displayName]
         == SafeFloat(Get(row, defs[j].resultColumn), parse)
    decreases |defs|
  {
    if j < |defs| - 1 {
      RowMeasurementsValue(defs[..|defs| - 1], row, parse, j);
    }
  }

  /** The three parallel lists `parse_results_csv` returns. */
  datatype ParsedResults = ParsedResults(
    imageNames: seq<string>,
    thresholds: seq<string>,
    measurements: seq<map<string, Option<real>>>)

  const MissingHeaders: string :=
    "The results CSV produced by Fiji is missing headers. Please rerun the workflow or update Fiji."

  /** `parse_results_csv`, given the reader's header (`None` for an empty
      file) and its rows. */
  method ParseResultsCsv(
    fieldnames: Option<seq<string>>,
    rows: seq<CsvRow>,
    defs: seq<Measurement>,
    parse: string -> Option<real>)
    returns (r: Result<ParsedResults, string>)
    ensures fieldnames.None? <==> r.Err?
    ensures r.Err? ==> r.error == MissingHeaders
    ensures r.Ok? ==>
      && |r.value.imageNames| == |rows|
      && |r.value.thresholds| == |rows|
      && |r.value.measurements| == |rows|
    ensures r.Ok? ==> forall i :: 0 <= i < |rows| ==>
      && r.value.imageNames[i] == ImageName(rows[i])
      && r.value.thresholds[i] == ThresholdText(rows[i])
      && r.value.measurements[i] == RowMeasurements(defs, rows[i], parse)
      && r.value.measurements[i].Keys == DisplayNames(defs)
  {
    if fieldnames.None? {
      return Err(MissingHeaders);
    }
    var imageNames: seq<string> := [];
    var thresholds: seq<string> := [];
    var measurements: seq<map<string, Option<real>>> := [];
    for i := 0 to |rows|
      invariant |imageNames| == i && |thresholds| == i && |measurements| == i
      invariant forall k :: 0 <= k < i ==>
        && imageNames[k] == ImageName(rows[k])
        && thresholds[k] == ThresholdText(rows[k])
        && measurements[k] == RowMeasurements(defs, rows[k], parse)
        && measurements[k].Keys == DisplayNames(defs)
    {
      var row := rows[i];
      var imageName := if Truthy(Get(row, "Image")) then row["Image"]
                       else if Truthy(Get(row, "Label")) then row["Label"]
                       else "";
      var thresholdValue := if "Threshold Applied" in row then row["Threshold Applied"] else "-";
      var measurementRow: map<string, Option<real>> := map[];
      for j := 0 to |defs|
        invariant measurementRow == RowMeasurements(defs[..j], row, parse)
      {
        assert defs[..j + 1][..j] == defs[..j];
        var d := defs[j];
        measurementRow := measurementRow[d.displayName := SafeFloat(Get(row, d.resultColumn), parse)];
      }
      assert defs[..|defs|] == defs;
      imageNames := imageNames + [imageName];
      thresholds := thresholds + [if thresholdValue != "" then thresholdValue else "-"];
      measurements := measurements + [measurementRow];
    }
    return Ok(ParsedResults(imageNames, thresholds, measurements));
  }

  // ---------------------------------------------------------------------
  // The summary sheet of `export_to_excel`

  /** One line of the summary: the measurement, the mean and the sample
      variance of its valid values (`None` for NaN), and how many there are. */
  datatype SummaryRow = SummaryRow(measurement: string, mean: Option<real>, variance: Option<real>, count: nat)

  /** `result.get(display_name, nan)` for every image. */
  function ValuesFor(results: seq<map<string, Option<real>>>, column: string): (r: seq<Option<real>>)
    ensures |r| == |results|
    ensures forall i :: 0 <= i < |results| ==>
      r[i] == (if column in results[i] then results[i][column] else None)
  {
    seq(|results|, i requires 0 <= i < |results| => if column in results[i] then results[i][column] else None)
  }

  /** The values that are not NaN, in order. */
  function Clean(vs: seq<Option<real>>): (r: seq<real>)
    ensures |r| <= |vs|
    ensures forall x :: x in r <==> Some(x) in vs
    ensures |r| == |Seqs.Filter(vs, IsPresent)|
    ensures forall k :: 0 <= k < |r| ==> Some(r[k]) == Seqs.Filter(vs, IsPresent)[k]
  {
    if vs == [] then []
    else (if vs[0].Some? then [vs[0].value] else []) + Clean(vs[1..])
  }

  /** The entry holds a number (it is not NaN). */
  predicate IsPresent(o: Option<real>) {
    o.Some?
  }

  /** Number of entries of `vs` that are not NaN. */
  function CountValid(vs: seq<Option<real>>): nat {
    if vs == [] then 0 else (if vs[0].Some? then 1 else 0) + CountValid(vs[1..])
  }

  lemma {:induction false} CleanCountsValid(vs: seq<Option<real>>)
    ensures |Clean(vs)| == CountValid(vs)
  {
    if vs != [] {
      CleanCountsValid(vs[1..]);
    }
  }

  function Sum(xs: seq<real>): real {
    if xs == [] then 0.0 else xs[0] + Sum(xs[1..])
  }

  function Mean(xs: seq<real>): (m: real)
    requires |xs| > 0
    ensures m * (|xs| as real) == Sum(xs)
  {
    Sum(xs) / (|xs| as real)
  }

  lemma SquareNonNegative(d: real)
    ensures d * d >= 0.0
  {
    if d < 0.0 {
      assert d * d == (-d) * (-d);
    }
  }

  function SquaredDeviations(xs: seq<real>, m: real): (r: real)
    ensures r >= 0.0
  {
    if xs == [] then 0.0
    else
      SquareNonNegative(xs[0] - m);
      (xs[0] - m) * (xs[0] - m) + SquaredDeviations(xs[1..], m)
  }

  /** `statistics.stdev` squared: the sample variance, divisor n - 1. */
  function SampleVariance(xs: seq<real>): (v: real)
    requires |xs| > 1
    ensures v >= 0.0
  {
    SquaredDeviations(xs, Mean(xs)) / ((|xs| - 1) as real)
  }

  lemma {:induction false} SumBounds(xs: seq<real>, lo: real, hi: real)
    requires forall i :: 0 <= i < |xs| ==> lo <= xs[i] <= hi
    ensures (|xs| as real) * lo <= Sum(xs) <= (|xs| as real) * hi
  {
    if xs != [] {
      SumBounds(xs[1..], lo, hi);
    }
  }

  /** The mean lies between the smallest and the largest valid value. */
  lemma MeanBetweenBounds(xs: seq<real>, lo: real, hi: real)
    requires |xs| > 0
    requires forall i :: 0 <= i < |xs| ==> lo <= xs[i] <= hi
    ensures lo <= Mean(xs) <= hi
  {
    SumBounds(xs, lo, hi);
    var n := |xs| as real;
    assert n * lo <= Sum(xs) <= n * hi;
    assert Sum(xs) / n >= lo by {
      assert Sum(xs) / n * n == Sum(xs);
    }
    assert Sum(xs) / n <= hi by {
      assert Sum(xs) / n * n == Sum(xs);
    }
  }

  lemma {:induction false} SquaredDeviationsOfConstant(xs: seq<real>, c: real)
    requires forall i :: 0 <= i < |xs| ==> xs[i] == c
    ensures SquaredDeviations(xs, c) == 0.0 && Sum(xs) == (|xs| as real) * c
  {
    if xs != [] {
      SquaredDeviationsOfConstant(xs[1..], c);
    }
  }

  /** Identical values have that value as mean and no spread. */
  lemma ConstantValuesHaveZeroVariance(xs: seq<real>)
    requires |xs| > 1
    requires forall i :: 0 <= i < |xs| ==> xs[i] == xs[0]
    ensures Mean(xs) == xs[0]
    ensures SampleVariance(xs) == 0.0
  {
    SquaredDeviationsOfConstant(xs, xs[0]);
  }

  /** The values 1, 2, 3 have mean 2 and sample standard deviation 1. */
  lemma SummaryOfOneTwoThree()
    ensures Mean([1.0, 2.0, 3.0]) == 2.0
    ensures SampleVariance([1.0, 2.0, 3.0]) == 1.0
  {
    var xs := [1.0, 2.0, 3.0];
    assert xs[1..][1..] == [3.0];
    assert Sum(xs) == 6.0;
    assert SquaredDeviations(xs, 2.0) == 2.0;
  }

  /** A summary row of the measurement `d`: named after it, counting its
      non-NaN values, with a mean when there is at least one and a spread
      when there are at least two. */
  predicate IsSummaryOf(row: SummaryRow, results: seq<map<string, Option<real>>>, d: Measurement) {
    var clean := Clean(ValuesFor(results, d.displayName));
    && row.measurement == d.displayName
    && row.count == |clean|
    && (row.mean.None? <==> row.count == 0)
    && (row.variance.None? <==> row.count < 2)
    && (row.mean.Some? ==> row.mean.value == Mean(clean))
    && (row.variance.Some? ==> row.variance.value == SampleVariance(clean))
  }

  /** The summary loop of `export_to_excel`: one row per measurement, in
      definition order. */
  method SummaryRows(results: seq<map<string, Option<real>>>, defs: seq<Measurement>)
    returns (rows: seq<SummaryRow>)
    ensures |rows| == |defs|
    ensures forall i :: 0 <= i < |defs| ==> IsSummaryOf(rows[i], results, defs[i])
  {
    rows := [];
    for i := 0 to |defs|
      invariant |rows| == i
      invariant forall k :: 0 <= k < i ==> IsSummaryOf(rows[k], results, defs[k])
    {
      var d := defs[i];
      var values := ValuesFor(results, d.displayName);
      var clean := Clean(values);
      var mean: Option<real>;
      var variance: Option<real>;
      if |clean| > 0 {
        mean := Some(Mean(clean));
        variance := if |clean| > 1 then Some(SampleVariance(clean)) else None;
      } else {
        mean := None;
        variance := None;
      }
      rows := rows + [SummaryRow(d.displayName, mean, variance, |clean|)];
    }
  }
}
