/** The pure rules of the headless mean-intensity helper
    (`src/imagej_mean_intensity.py`): where the ImageJ executable comes
    from, which files of the input directory are measured, how strings are
    escaped for the IJ1 macro language, the extension array written into
    the macro, and how the results table ImageJ writes back is checked and
    reshaped. */
module MeanIntensity {
  import opened Wrappers
  import opened Text
  import opened Paths
  import opened Seqs

  /** The exceptions the helper raises, with their messages. */
  datatype Error =
    | ValueError(message: string)
    | FileNotFoundError(message: string)
    | NotADirectoryError(message: string)
    | ImageJError(message: string)
    | EmptyDataError

  // ---------------------------------------------------------------------
  // The ImageJ executable (`ensure_imagej_path`)

  const MissingImageJ: string :=
    "ImageJ executable path is required. Provide --imagej or set IMAGEJ_PATH."

  /** The `--imagej` argument wins; otherwise a non-empty `IMAGEJ_PATH`;
      otherwise a `ValueError`. */
  function EnsureImageJPath(pathArg: Option<string>, envPath: Option<string>): (r: Result<string, Error>)
    ensures pathArg.Some? ==> r == Ok(pathArg.value)
    ensures pathArg.None? && envPath.Some? && envPath.value != "" ==> r == Ok(envPath.value)
    ensures r.Err? <==> pathArg.None? && (envPath.None? || envPath.value == "")
    ensures r.Err? ==> r.error == ValueError(MissingImageJ)
  {
    if pathArg.Some? then Ok(pathArg.value)
    else if envPath.Some? && envPath.value != "" then Ok(envPath.value)
    else Err(ValueError(MissingImageJ))
  }

  // ---------------------------------------------------------------------
  // Extension normalisation

  /** A dotted extension is only lower-cased; any other gets a dot in front. */
  function NormalizeExtension(ext: string): (r: string)
    ensures |r| >= 1 && r[0] == '.'
    ensures NoUpper(r)
    ensures StartsWith(ext, ".") ==> r == Lower(ext)
    ensures !StartsWith(ext, ".") ==> r == "." + Lower(ext)
  {
    if StartsWith(ext, ".") then Lower(ext) else "." + Lower(ext)
  }

  /** Normalising a normalised extension changes nothing; `main` normalises
      the extensions and `build_macro_text` normalises them again. */
  lemma NormalizeExtensionIdempotent(ext: string)
    ensures NormalizeExtension(NormalizeExtension(ext)) == NormalizeExtension(ext)
  {
    var n := NormalizeExtension(ext);
    assert StartsWith(n, ".");
    LowerOfLowered(n);
  }

  /** The list comprehension over the requested extensions. */
  function NormalizeAll(exts: seq<string>): (r: seq<string>)
    ensures |r| == |exts|
    ensures forall i :: 0 <= i < |r| ==> r[i] == NormalizeExtension(exts[i])
  {
    seq(|exts|, i requires 0 <= i < |exts| => NormalizeExtension(exts[i]))
  }

  /** The set comprehension `normalized_exts` of `validate_inputs`. */
  function NormalizedSet(exts: seq<string>): (r: set<string>)
    ensures forall x :: x in r <==> x in NormalizeAll(exts)
  {
    set i | 0 <= i < |exts| :: NormalizeExtension(exts[i])
  }

  // ---------------------------------------------------------------------
  // Which files are measured (`validate_inputs`)

  const NoMatchingImages: string :=
    "No images with the requested extensions were found in the input directory."

  /** The test of the second comprehension: the lower-cased suffix is one of
      the normalised extensions. */
  predicate SuffixRequested(exts: seq<string>, name: string) {
    Lower(Suffix(name)) in NormalizedSet(exts)
  }

  predicate IsRegularFile(e: DirEntry) {
    e.isFile
  }

  /** The test of the second comprehension, as a function value. */
  function Requested(exts: seq<string>): DirEntry -> bool {
    (e: DirEntry) => SuffixRequested(exts, e.name)
  }

  /** Both comprehensions in one test: a regular file whose suffix was
      requested. */
  function Selected(exts: seq<string>): DirEntry -> bool {
    (e: DirEntry) => e.isFile && SuffixRequested(exts, e.name)
  }

  /** `validate_inputs`: the directory must exist and be a directory; of its
      entries, the regular files are the candidates, and of those, the ones
      whose suffix was requested are returned, in listing order. */
  function ValidateInputs(inputDir: string, dirExists: bool, isDir: bool,
                          entries: seq<DirEntry>, exts: seq<string>): (r: Result<seq<DirEntry>, Error>)
    ensures !dirExists ==> r == Err(FileNotFoundError("Input directory does not exist: " + inputDir))
    ensures dirExists && !isDir ==> r == Err(NotADirectoryError("Input path is not a directory: " + inputDir))
    ensures r.Ok? ==> r.value != [] && dirExists && isDir
  {
    if !dirExists then Err(FileNotFoundError("Input directory does not exist: " + inputDir))
    else if !isDir then Err(NotADirectoryError("Input path is not a directory: " + inputDir))
    else
      var candidates := Filter(entries, IsRegularFile);
      var matches := Filter(candidates, Requested(exts));
      if matches == [] then Err(FileNotFoundError(NoMatchingImages)) else Ok(matches)
  }

  /** The files a valid directory yields are exactly, and in listing order,
      the regular files whose lower-cased suffix was requested; when there
      are none the call fails. */
  lemma ValidateInputsSelects(inputDir: string, entries: seq<DirEntry>, exts: seq<string>)
    ensures var wanted := Filter(entries, Selected(exts));
            ValidateInputs(inputDir, true, true, entries, exts)
              == if wanted == [] then Err(FileNotFoundError(NoMatchingImages)) else Ok(wanted)
  {
    SelectionInOnePass(entries, exts);
  }

  lemma SelectionInOnePass(entries: seq<DirEntry>, exts: seq<string>)
    ensures Filter(Filter(entries, IsRegularFile), Requested(exts)) == Filter(entries, Selected(exts))
  {
    FilterFilter(entries, IsRegularFile, Requested(exts), Selected(exts));
  }

  /** A file is selected exactly when its lower-cased suffix is the
      normalisation of one of the requested extensions. */
  lemma SuffixRequestedIff(exts: seq<string>, name: string)
    ensures SuffixRequested(exts, name) <==>
            exists i :: 0 <= i < |exts| && NormalizeExtension(exts[i]) == Lower(Suffix(name))
  {
    if SuffixRequested(exts, name) {
      var i :| 0 <= i < |exts| && NormalizeAll(exts)[i] == Lower(Suffix(name));
    }
  }

  /** A requested extension that normalises to a bare `.` (the empty
      extension, or `.` itself) matches no file, because no suffix is
      shorter than two characters. */
  lemma BareDotMatchesNothing(name: string)
    ensures !SuffixRequested(["."], name)
    ensures !SuffixRequested([""], name)
  {
    var suffix := Lower(Suffix(name));
    assert |suffix| != 1;
    assert NormalizeAll(["."]) == [NormalizeExtension(".")];
    assert NormalizeAll([""]) == [NormalizeExtension("")];
    assert |NormalizeExtension(".")| == 1;
    assert |NormalizeExtension("")| == 1;
  }

  // ---------------------------------------------------------------------
  // IJ1 string escaping (`ij1_escape`)

  /** `str.replace` of one character by a string. */
  function ReplaceChar(s: string, c: char, repl: string): (r: string)
    ensures c !in s ==> r == s
  {
    if s == [] then []
    else (if s[0] == c then repl else [s[0]]) + ReplaceChar(s[1..], c, repl)
  }

  /** `str.replace` agrees with its reading as "split at every `c`, join
      with `repl`". */
  lemma {:induction false} ReplaceCharIsSplitJoin(s: string, c: char, repl: string)
    ensures ReplaceChar(s, c, repl) == Join(Split(s, c), repl)
  {
    if s != [] {
      ReplaceCharIsSplitJoin(s[1..], c, repl);
      var rest := Split(s[1..], c);
      var tail := ReplaceChar(s[1..], c, repl);
      if s[0] == c {
        assert ReplaceChar(s, c, repl) == repl + tail;
        assert Split(s, c) == [""] + rest;
        JoinCons("", rest, repl);
      } else {
        assert ReplaceChar(s, c, repl) == [s[0]] + tail;
        assert Split(s, c) == [[s[0]] + rest[0]] + rest[1..];
        JoinExtendHead(s[0], rest, repl);
      }
    }
  }

  /** Each occurrence of `c` grows or shrinks the text by `|repl| - 1`. */
  lemma {:induction false} ReplaceCharLength(s: string, c: char, repl: string)
    ensures |ReplaceChar(s, c, repl)| == |s| + multiset(s)[c] * (|repl| - 1)
  {
    if s != [] {
      assert s == [s[0]] + s[1..];
      assert multiset(s) == multiset{s[0]} + multiset(s[1..]);
      ReplaceCharLength(s[1..], c, repl);
      var m := multiset(s[1..])[c];
      var k := |repl| - 1;
      if s[0] == c {
        assert multiset(s)[c] == m + 1;
        MulSucc(m, k);
      } else {
        assert multiset(s)[c] == m;
      }
    }
  }

  lemma MulSucc(m: int, k: int)
    ensures (m + 1) * k == m * k + k
  {
  }

  lemma {:induction false} ReplaceCharAppend(a: string, b: string, c: char, repl: string)
    ensures ReplaceChar(a + b, c, repl) == ReplaceChar(a, c, repl) + ReplaceChar(b, c, repl)
  {
    if a == [] {
      assert a + b == b;
    } else {
      assert (a + b)[1..] == a[1..] + b;
      ReplaceCharAppend(a[1..], b, c, repl);
    }
  }

  /** `value.replace("\\", "\\\\").replace("\"", "\\\"")`. */
  function Ij1Escape(s: string): (r: string)
    ensures '\\' !in s && '"' !in s ==> r == s
  {
    ReplaceChar(ReplaceChar(s, '\\', "\\\\"), '"', "\\\"")
  }

  /** How one character is written inside an IJ1 string literal. */
  function EscapeChar(c: char): (r: string)
    ensures c == '\\' ==> r == "\\\\"
    ensures c == '"' ==> r == "\\\""
    ensures c != '\\' && c != '"' ==> r == [c]
  {
    if c == '\\' then "\\\\" else if c == '"' then "\\\"" else [c]
  }

  /** Character-by-character escaping: the reference definition. */
  function Escaped(s: string): string {
    if s == [] then [] else EscapeChar(s[0]) + Escaped(s[1..])
  }

  /** Because backslashes are doubled before quotes are escaped, the two
      passes of `ij1_escape` escape each character on its own. */
  lemma {:induction false} Ij1EscapeIsPerCharacter(s: string)
    ensures Ij1Escape(s) == Escaped(s)
  {
    if s != [] {
      var head := if s[0] == '\\' then "\\\\" else [s[0]];
      assert ReplaceChar(s, '\\', "\\\\") == head + ReplaceChar(s[1..], '\\', "\\\\");
      ReplaceCharAppend(head, ReplaceChar(s[1..], '\\', "\\\\"), '"', "\\\"");
      if s[0] == '\\' {
        assert '"' !in head;
      } else {
        assert ReplaceChar(head, '"', "\\\"") == EscapeChar(s[0]) + ReplaceChar(head[1..], '"', "\\\"");
      }
      Ij1EscapeIsPerCharacter(s[1..]);
    }
  }

  /** The escaped text is one character longer per backslash and per double
      quote. */
  lemma {:induction false} Ij1EscapeLength(s: string)
    ensures |Ij1Escape(s)| == |s| + multiset(s)['\\'] + multiset(s)['"']
  {
    Ij1EscapeIsPerCharacter(s);
    EscapedLength(s);
  }

  lemma {:induction false} EscapedLength(s: string)
    ensures |Escaped(s)| == |s| + multiset(s)['\\'] + multiset(s)['"']
  {
    if s != [] {
      assert s == [s[0]] + s[1..];
      assert multiset(s) == multiset{s[0]} + multiset(s[1..]);
      EscapedLength(s[1..]);
    }
  }

  /** How the IJ1 tokenizer reads the body of a string literal: up to the
      first unescaped `"`, with `\\` standing for `\` and `\"` for `"`.
      Answers the text read and what follows the closing quote. */
  function ReadLiteral(t: string): (r: Option<(string, string)>)
    ensures r.Some? ==> |r.value.1| < |t| && t[|t| - |r.value.1|..] == r.value.1
    decreases |t|
  {
    if t == [] then None
    else if t[0] == '"' then Some(([], t[1..]))
    else if t[0] == '\\' then
      if |t| >= 2 && (t[1] == '\\' || t[1] == '"') then
        var rest := ReadLiteral(t[2..]);
        if rest.None? then None else Some(([t[1]] + rest.value.0, rest.value.1))
      else None
    else
      var rest := ReadLiteral(t[1..]);
      if rest.None? then None else Some(([t[0]] + rest.value.0, rest.value.1))
  }

  /** Reading an escaped string back as a literal gives the original string,
      and stops at the quote that closes it. */
  lemma {:induction false} ReadEscaped(s: string, rest: string)
    ensures ReadLiteral(Escaped(s) + "\"" + rest) == Some((s, rest))
  {
    if s == [] {
      assert Escaped(s) + "\"" + rest == ['"'] + rest;
    } else {
      var t := Escaped(s) + "\"" + rest;
      assert t == EscapeChar(s[0]) + (Escaped(s[1..]) + "\"" + rest);
      ReadEscaped(s[1..], rest);
      if s[0] == '\\' || s[0] == '"' {
        assert t[2..] == Escaped(s[1..]) + "\"" + rest;
      } else {
        assert t[1..] == Escaped(s[1..]) + "\"" + rest;
      }
      assert [s[0]] + s[1..] == s;
    }
  }

  /** `ij1_escape` is reversible: an IJ1 literal holding its result reads
      back as the input. */
  lemma Ij1EscapeRoundTrip(s: string, rest: string)
    ensures ReadLiteral(Ij1Escape(s) + "\"" + rest) == Some((s, rest))
  {
    Ij1EscapeIsPerCharacter(s);
    ReadEscaped(s, rest);
  }

  /** The passes in the other order: quotes first, then backslashes. */
  function QuoteFirstEscape(s: string): string {
    ReplaceChar(ReplaceChar(s, '"', "\\\""), '\\', "\\\\")
  }

  /** With the passes swapped, a lone double quote becomes `\\"`, which reads
      back as a single backslash and closes the literal early. */
  lemma QuoteFirstEscapeIsNotReversible()
    ensures QuoteFirstEscape("\"") == "\\\\\""
    ensures ReadLiteral(QuoteFirstEscape("\"") + "\"") == Some(("\\", "\""))
  {
    assert ReplaceChar("\"", '"', "\\\"") == "\\\"";
    assert ReplaceChar("\\\"", '\\', "\\\\") == "\\\\" + ReplaceChar("\"", '\\', "\\\\");
    var t := QuoteFirstEscape("\"") + "\"";
    assert t == ['\\', '\\', '"', '"'];
    assert t[2..] == ['"', '"'];
    assert ReadLiteral(t[2..]) == Some(([], ['"']));
    assert ReadLiteral(t) == Some((['\\'] + [], ['"']));
    assert ['\\'] + [] == "\\" && ['"'] == "\"";
  }

  // ---------------------------------------------------------------------
  // The extension array of the macro (`build_macro_text`)

  /** Each extension as a double-quoted, escaped IJ1 literal. */
  function Quoted(xs: seq<string>): (r: seq<string>)
    ensures |r| == |xs|
    ensures forall i :: 0 <= i < |xs| ==> r[i] == "\"" + Ij1Escape(xs[i]) + "\""
  {
    seq(|xs|, i requires 0 <= i < |xs| => "\"" + Ij1Escape(xs[i]) + "\"")
  }

  /** The text between the parentheses of `allowed = newArray(...)`. */
  function ExtensionLiterals(exts: seq<string>): (r: string)
    ensures exts == [] <==> r == ""
    ensures exts != [] ==> r[0] == '"' && r[|r| - 1] == '"'
  {
    Join(Quoted(NormalizeAll(exts)), ", ")
  }

  /** Reads a `, `-separated list of one or more IJ1 string literals. */
  function ReadItems(t: string): (r: Option<seq<string>>)
    decreases |t|
  {
    if t == [] || t[0] != '"' then None
    else
      var first := ReadLiteral(t[1..]);
      if first.None? then None
      else
        var rest := first.value.1;
        if rest == [] then Some([first.value.0])
        else if |rest| >= 2 && rest[..2] == ", " then
          var more := ReadItems(rest[2..]);
          if more.None? then None else Some([first.value.0] + more.value)
        else None
  }

  /** The argument list of `newArray`, possibly empty. */
  function ReadArray(t: string): Option<seq<string>> {
    if t == [] then Some([]) else ReadItems(t)
  }

  /** One quoted literal that ends the list. */
  lemma ReadLastItem(x: string)
    ensures ReadItems("\"" + Ij1Escape(x) + "\"") == Some([x])
  {
    var t := "\"" + Ij1Escape(x) + "\"";
    Ij1EscapeRoundTrip(x, "");
    assert t[1..] == Ij1Escape(x) + "\"" + "";
  }

  /** One quoted literal followed by `, ` and the rest of the list. */
  lemma ReadNextItem(x: string, tail: string)
    ensures ReadItems("\"" + Ij1Escape(x) + "\"" + ", " + tail)
         == if ReadItems(tail).None? then None else Some([x] + ReadItems(tail).value)
  {
    var rest := ", " + tail;
    var t := "\"" + Ij1Escape(x) + "\"" + ", " + tail;
    assert t == "\"" + (Ij1Escape(x) + "\"" + rest);
    Ij1EscapeRoundTrip(x, rest);
    assert ReadLiteral(t[1..]) == Some((x, rest));
    assert rest[..2] == ", " && rest[2..] == tail;
  }

  lemma {:induction false} ReadQuotedItems(xs: seq<string>)
    requires xs != []
    ensures ReadItems(Join(Quoted(xs), ", ")) == Some(xs)
  {
    if |xs| == 1 {
      var q := Quoted(xs);
      assert Join(q, ", ") == "\"" + Ij1Escape(xs[0]) + "\"";
      ReadLastItem(xs[0]);
      assert xs == [xs[0]];
    } else {
      ReadQuotedItems(xs[1..]);
      ReadQuotedItemsCons(xs);
    }
  }

  /** The inductive step of ReadQuotedItems. */
  lemma ReadQuotedItemsCons(xs: seq<string>)
    requires |xs| > 1
    requires ReadItems(Join(Quoted(xs[1..]), ", ")) == Some(xs[1..])
    ensures ReadItems(Join(Quoted(xs), ", ")) == Some(xs)
  {
    JoinQuotedCons(xs);
    ReadNextItem(xs[0], Join(Quoted(xs[1..]), ", "));
    assert [xs[0]] + xs[1..] == xs;
  }

  lemma JoinQuotedCons(xs: seq<string>)
    requires |xs| > 1
    ensures Join(Quoted(xs), ", ") == "\"" + Ij1Escape(xs[0]) + "\"" + ", " + Join(Quoted(xs[1..]), ", ")
  {
    var q := Quoted(xs);
    assert q[1..] == Quoted(xs[1..]);
  }

  /** The macro's `allowed` array holds exactly the normalised extensions,
      one literal each, in the order they were requested. */
  lemma ExtensionLiteralsRoundTrip(exts: seq<string>)
    ensures ReadArray(ExtensionLiterals(exts)) == Some(NormalizeAll(exts))
  {
    if exts != [] {
      ReadQuotedItems(NormalizeAll(exts));
      var q := Quoted(NormalizeAll(exts));
      assert |Join(q, ", ")| > 0 by {
        if |q| > 1 {
          assert Join(q, ", ") == q[0] + ", " + Join(q[1..], ", ");
        }
      }
    }
  }

  /** The macro's keep test: the lower-cased name ends with some entry of
      `allowed`. */
  predicate MacroKeeps(name: string, allowed: seq<string>) {
    exists j :: 0 <= j < |allowed| && EndsWith(Lower(name), allowed[j])
  }

  /** The keep test ignores the case of the name: a name and its
      lower-cased form are kept alike. */
  lemma MacroKeepsIgnoresCase(name: string, allowed: seq<string>)
    ensures MacroKeeps(name, allowed) <==> MacroKeeps(Lower(name), allowed)
  {
    LowerOfLowered(Lower(name));
  }

  /** Every file `validate_inputs` selects passes the macro's keep test. */
  lemma SelectedFilesPassKeepTest(exts: seq<string>, name: string)
    requires SuffixRequested(exts, name)
    ensures MacroKeeps(name, NormalizeAll(exts))
  {
    SuffixRequestedIff(exts, name);
    LowerSuffixEndsLowerName(name);
  }

  /** The converse fails for the keep test alone: it uses `endsWith`, so
      it accepts a dot-name such as `.tif`, which has no suffix. The macro
      itself never opens such a file, because ImageJ's `getFileList`, which
      this model leaves out, does not list dot-names. */
  lemma HiddenNameKeptButNotSelected()
    ensures MacroKeeps(".tif", NormalizeAll([".tif"]))
    ensures !SuffixRequested([".tif"], ".tif")
  {
    assert Lower(".tif") == ".tif";
    assert EndsWith(Lower(".tif"), NormalizeAll([".tif"])[0]);
    assert Suffix(".tif") == "";
    assert NormalizedSet([".tif"]) == {".tif"};
  }

  // ---------------------------------------------------------------------
  // The results table (`load_results`)

  /** The columns kept from ImageJ's table, by their values: `Image` (the
      renamed `Label`) and `Mean`, in their original order. */
  datatype Table = Table(columns: seq<string>, rows: seq<seq<Option<string>>>)

  const NoCsv: string := "ImageJ did not create the expected results CSV file."
  const EmptyCsv: string := "The results CSV is empty. No measurements were recorded."
  const NoMean: string := "The results CSV does not contain a 'Mean' column."

  /** `df.rename(columns={"Label": "Image"})`. */
  function RenameLabel(columns: seq<string>): (r: seq<string>)
    ensures |r| == |columns|
    ensures "Label" !in r
    ensures forall i :: 0 <= i < |r| ==> r[i] == (if columns[i] == "Label" then "Image" else columns[i])
  {
    seq(|columns|, i requires 0 <= i < |columns| => if columns[i] == "Label" then "Image" else columns[i])
  }

  predicate IsKeptColumn(c: string) {
    c == "Image" || c == "Mean"
  }

  /** Positions of the kept columns, in increasing order. */
  function KeptIndices(columns: seq<string>): (r: seq<nat>)
    ensures forall k :: 0 <= k < |r| ==> r[k] < |columns| && IsKeptColumn(columns[r[k]])
    ensures forall k, l :: 0 <= k < l < |r| ==> r[k] < r[l]
    ensures forall i {:trigger i in r} :: 0 <= i < |columns| && IsKeptColumn(columns[i]) ==> i in r
    decreases |columns|
  {
    if columns == [] then []
    else
      var init := KeptIndices(columns[..|columns| - 1]);
      if IsKeptColumn(columns[|columns| - 1]) then init + [|columns| - 1] else init
  }

  /** Selecting by position picks the same columns as filtering by name. */
  lemma {:induction false} KeptIndicesSelect(columns: seq<string>)
    ensures Pick(columns, KeptIndices(columns)) == KeptNames(columns)
    decreases |columns|
  {
    if columns != [] {
      var n := |columns| - 1;
      var init := columns[..n];
      var last := columns[n];
      var ks := KeptIndices(init);
      KeptIndicesSelect(init);
      assert columns == init + [last];
      FilterSnoc(init, last, IsKeptColumn);
      PickPrefix(init, last, ks);
      if IsKeptColumn(last) {
        assert KeptIndices(columns) == ks + [n];
        PickSnoc(columns, ks, n);
      } else {
        assert KeptIndices(columns) == ks;
      }
    }
  }

  lemma PickPrefix(init: seq<string>, last: string, ks: seq<nat>)
    requires forall k :: 0 <= k < |ks| ==> ks[k] < |init|
    ensures Pick(init + [last], ks) == Pick(init, ks)
  {
  }

  lemma PickSnoc(columns: seq<string>, ks: seq<nat>, n: nat)
    requires forall k :: 0 <= k < |ks| ==> ks[k] < |columns|
    requires n < |columns|
    ensures Pick(columns, ks + [n]) == Pick(columns, ks) + [columns[n]]
  {
  }

  /** A data row cut down to the kept positions; a row shorter than the
      header has missing (NaN) cells. */
  function Project(row: seq<string>, idx: seq<nat>): (r: seq<Option<string>>)
    ensures |r| == |idx|
    ensures forall k :: 0 <= k < |idx| ==> r[k] == (if idx[k] < |row| then Some(row[idx[k]]) else None)
  {
    seq(|idx|, k requires 0 <= k < |idx| => if idx[k] < |row| then Some(row[idx[k]]) else None)
  }

  /** A line `pandas` skips when it reads a table: one holding nothing but
      spaces and tabs, the empty line included. */
  predicate BlankLine(line: string) {
    forall i :: 0 <= i < |line| ==> line[i] == ' ' || line[i] == '\t'
  }

  predicate NonBlankLine(line: string) {
    !BlankLine(line)
  }

  /** The records of unquoted lines: each line cut at every comma. The
      fields hold no comma and join back to the line. */
  function Records(lines: seq<string>): (r: seq<seq<string>>)
    ensures |r| == |lines|
    ensures forall i :: 0 <= i < |lines| ==> Join(r[i], [',']) == lines[i]
    ensures forall i, k :: 0 <= i < |lines| && 0 <= k < |r[i]| ==> ',' !in r[i][k]
  {
    forall i | 0 <= i < |lines| {
      JoinSplit(lines[i], ',');
    }
    seq(|lines|, i requires 0 <= i < |lines| => Split(lines[i], ','))
  }

  /** The data records cut down to the kept positions, in order. */
  function DataRows(records: seq<seq<string>>, idx: seq<nat>): (r: seq<seq<Option<string>>>)
    ensures |r| == |records|
    ensures forall i :: 0 <= i < |records| ==> r[i] == Project(records[i], idx)
  {
    if records == [] then [] else [Project(records[0], idx)] + DataRows(records[1..], idx)
  }

  /** As many positions are kept as columns pass the name test. */
  lemma {:induction false} KeptIndicesCount(columns: seq<string>)
    ensures |KeptIndices(columns)| == |Filter(columns, IsKeptColumn)|
  {
    KeptIndicesSelect(columns);
  }

  /** The positions of the columns named `name`, left to right. */
  function Positions(columns: seq<string>, name: string): (idx: seq<nat>)
    ensures forall k :: 0 <= k < |idx| ==> idx[k] < |columns| && columns[idx[k]] == name
    ensures forall k, l :: 0 <= k < l < |idx| ==> idx[k] < idx[l]
    ensures forall i {:trigger i in idx} :: 0 <= i < |columns| && columns[i] == name ==> i in idx
    decreases |columns|
  {
    if columns == [] then []
    else
      var init := Positions(columns[..|columns| - 1], name);
      if columns[|columns| - 1] == name then init + [|columns| - 1] else init
  }

  /** A name held by no column has no position. */
  lemma {:induction false} PositionsOfNone(columns: seq<string>, name: string)
    requires forall i :: 0 <= i < |columns| ==> columns[i] != name
    ensures Positions(columns, name) == []
    decreases |columns|
  {
    if columns != [] {
      PositionsOfNone(columns[..|columns| - 1], name);
    }
  }

  /** A name held by one column only has that column's position. */
  lemma {:induction false} PositionsOfOne(columns: seq<string>, name: string, j: nat)
    requires j < |columns| && columns[j] == name
    requires forall i :: 0 <= i < |columns| && columns[i] == name ==> i == j
    ensures Positions(columns, name) == [j]
    decreases |columns|
  {
    var init := columns[..|columns| - 1];
    if j == |columns| - 1 {
      PositionsOfNone(init, name);
    } else {
      PositionsOfOne(init, name, j);
    }
  }

  /** `df[names]` on a frame whose columns may repeat a name: for each
      requested name in turn, every position holding it, left to right. */
  function SelectColumns(columns: seq<string>, names: seq<string>): (idx: seq<nat>)
    ensures forall k :: 0 <= k < |idx| ==> idx[k] < |columns|
  {
    if names == [] then []
    else Positions(columns, names[0]) + SelectColumns(columns, names[1..])
  }

  /** Each position holding `name` appears once in its positions, and no
      other position does. */
  lemma {:induction false} PositionsCount(columns: seq<string>, name: string, p: nat)
    ensures multiset(Positions(columns, name))[p] == if p < |columns| && columns[p] == name then 1 else 0
    decreases |columns|
  {
    if columns != [] {
      var init := columns[..|columns| - 1];
      PositionsCount(init, name, p);
      if p < |init| {
        assert columns[p] == init[p];
      }
    }
  }

  /** How often `df[names]` selects a position: as often as the position's
      name is requested, and never for a position out of range. */
  lemma {:induction false} SelectColumnsCount(columns: seq<string>, names: seq<string>, p: nat)
    ensures multiset(SelectColumns(columns, names))[p] == if p < |columns| then multiset(names)[columns[p]] else 0
  {
    if names != [] {
      var here, rest := Positions(columns, names[0]), SelectColumns(columns, names[1..]);
      assert SelectColumns(columns, names) == here + rest;
      SelectColumnsCount(columns, names[1..], p);
      PositionsCount(columns, names[0], p);
      if p < |columns| {
        CountCons(here, rest, names, columns[p], p);
      } else {
        assert multiset(here + rest) == multiset(here) + multiset(rest);
      }
    }
  }

  lemma CountCons(here: seq<nat>, rest: seq<nat>, names: seq<string>, x: string, p: nat)
    requires names != []
    requires multiset(here)[p] == if names[0] == x then 1 else 0
    requires multiset(rest)[p] == multiset(names[1..])[x]
    ensures multiset(here + rest)[p] == multiset(names)[x]
  {
    assert names == [names[0]] + names[1..];
    assert multiset(names) == multiset([names[0]]) + multiset(names[1..]);
  }

  /** Selecting a concatenation of name lists selects the first list's
      positions, then the second's: the order is that of the request. */
  lemma {:induction false} SelectColumnsAppend(columns: seq<string>, a: seq<string>, b: seq<string>)
    ensures SelectColumns(columns, a + b) == SelectColumns(columns, a) + SelectColumns(columns, b)
  {
    if a != [] {
      assert (a + b)[1..] == a[1..] + b;
      SelectColumnsAppend(columns, a[1..], b);
    } else {
      assert a + b == b;
    }
  }

  /** A single requested name selects its positions, left to right. */
  lemma SelectColumnsSingle(columns: seq<string>, name: string)
    ensures SelectColumns(columns, [name]) == Positions(columns, name)
  {
    assert [name][1..] == [];
  }

  /** Every selected position is in range and holds an `Image` or `Mean`
      column. */
  ghost predicate AllKept(columns: seq<string>, idx: seq<nat>) {
    forall k :: 0 <= k < |idx| ==> idx[k] < |columns| && IsKeptColumn(columns[idx[k]])
  }

  /** Every position holding an `Image` or `Mean` column is selected. */
  ghost predicate CoversKept(columns: seq<string>, idx: seq<nat>) {
    forall i {:trigger i in idx} :: 0 <= i < |columns| && IsKeptColumn(columns[i]) ==> i in idx
  }

  /** When only `Image` and `Mean` are requested, only such columns are
      selected. */
  lemma {:induction false} SelectColumnsKept(columns: seq<string>, names: seq<string>)
    requires forall j :: 0 <= j < |names| ==> IsKeptColumn(names[j])
    ensures AllKept(columns, SelectColumns(columns, names))
  {
    if names != [] {
      var here := Positions(columns, names[0]);
      var rest := SelectColumns(columns, names[1..]);
      SelectColumnsKept(columns, names[1..]);
      assert IsKeptColumn(names[0]);
      forall k | 0 <= k < |here| ensures here[k] < |columns| && IsKeptColumn(columns[here[k]]) {
        assert columns[here[k]] == names[0];
      }
      AllKeptAppend(columns, here, rest);
    }
  }

  lemma AllKeptAppend(columns: seq<string>, a: seq<nat>, b: seq<nat>)
    requires AllKept(columns, a) && AllKept(columns, b)
    ensures AllKept(columns, a + b)
  {
    var c := a + b;
    forall k | 0 <= k < |c| ensures c[k] < |columns| && IsKeptColumn(columns[c[k]]) {
      if k < |a| { assert c[k] == a[k]; } else { assert c[k] == b[k - |a|]; }
    }
  }

  /** Every position of a requested name is selected. */
  lemma {:induction false} SelectColumnsCover(columns: seq<string>, names: seq<string>, j: nat, i: nat)
    requires j < |names| && i < |columns| && columns[i] == names[j]
    ensures i in SelectColumns(columns, names)
  {
    if j == 0 {
      assert i in Positions(columns, names[0]);
    } else {
      SelectColumnsCover(columns, names[1..], j - 1, i);
    }
  }

  /** The column names at the given positions. */
  function Pick(columns: seq<string>, idx: seq<nat>): (r: seq<string>)
    requires forall k :: 0 <= k < |idx| ==> idx[k] < |columns|
    ensures |r| == |idx| && forall k :: 0 <= k < |idx| ==> r[k] == columns[idx[k]]
  {
    seq(|idx|, k requires 0 <= k < |idx| => columns[idx[k]])
  }

  /** The header's `Image` and `Mean` names, repeats included, in header
      order: the list `load_results` indexes the frame with. */
  function KeptNames(columns: seq<string>): seq<string>
  {
    Filter(columns, IsKeptColumn)
  }

  /** The positions `load_results` selects from the renamed header. */
  function KeptSelection(columns: seq<string>): (idx: seq<nat>)
    ensures forall k :: 0 <= k < |idx| ==> idx[k] < |columns|
  {
    SelectColumns(columns, KeptNames(columns))
  }

  /** Selecting every `Image` and `Mean` name of the header picks exactly
      the positions of such columns. */
  lemma {:induction false} KeptSelectionExact(columns: seq<string>)
    ensures AllKept(columns, KeptSelection(columns))
    ensures CoversKept(columns, KeptSelection(columns))
  {
    var names := KeptNames(columns);
    var idx := KeptSelection(columns);
    assert idx == SelectColumns(columns, names);
    assert forall j :: 0 <= j < |names| ==> IsKeptColumn(names[j]);
    SelectColumnsKept(columns, names);
    forall i | 0 <= i < |columns| && IsKeptColumn(columns[i]) ensures i in idx {
      assert columns[i] in names;
      var j :| 0 <= j < |names| && names[j] == columns[i];
      SelectColumnsCover(columns, names, j, i);
    }
  }

  /** `load_results` on the file's lines, line ends removed. `csv.reader`
      yields one record per line, a blank line included, and there must be
      more than one. The table `pandas` reads skips blank lines and cuts
      each remaining line at its commas; the first is the header. */
  function LoadResults(csvExists: bool, text: seq<string>): (r: Result<Table, Error>)
    ensures !csvExists ==> r == Err(ImageJError(NoCsv))
    ensures csvExists && |text| <= 1 ==> r == Err(ImageJError(EmptyCsv))
    ensures r.Ok? ==> "Mean" in r.value.columns && "Label" !in r.value.columns
    ensures r.Ok? ==> forall k :: 0 <= k < |r.value.columns| ==> IsKeptColumn(r.value.columns[k])
    ensures r.Ok? ==> forall i :: 0 <= i < |r.value.rows| ==> |r.value.rows[i]| == |r.value.columns|
  {
    if !csvExists then Err(ImageJError(NoCsv))
    else if |text| <= 1 then Err(ImageJError(EmptyCsv))
    else
      var lines := Filter(text, NonBlankLine);
      if lines == [] then Err(EmptyDataError) else ReadFrame(Records(lines))
  }

  /** The frame built from the non-blank records: the first is the header,
      `Label` is renamed to `Image`, there must be a `Mean` column, and the
      frame is indexed by the list of its `Image` and `Mean` column names;
      every later record becomes a row. */
  function ReadFrame(lines: seq<seq<string>>): (r: Result<Table, Error>)
    requires lines != []
    ensures r.Err? <==> "Mean" !in RenameLabel(lines[0])
    ensures r.Err? ==> r.error == ImageJError(NoMean)
    ensures r.Ok? ==> "Mean" in r.value.columns && "Label" !in r.value.columns
    ensures r.Ok? ==> forall k :: 0 <= k < |r.value.columns| ==> IsKeptColumn(r.value.columns[k])
    ensures r.Ok? ==> |r.value.rows| == |lines| - 1
    ensures r.Ok? ==> forall i :: 0 <= i < |r.value.rows| ==> |r.value.rows[i]| == |r.value.columns|
  {
    var columns := RenameLabel(lines[0]);
    if "Mean" !in columns then Err(ImageJError(NoMean))
    else
      var idx := KeptSelection(columns);
      SelectedTable(lines);
      Ok(Table(Pick(columns, idx), DataRows(lines[1..], idx)))
  }

  /** The frame `load_results` answers for a header with `Mean`: it has
      `Mean`, no `Label`, only kept columns, and rows as wide as it. */
  lemma SelectedTable(lines: seq<seq<string>>)
    requires lines != [] && "Mean" in RenameLabel(lines[0])
    ensures var columns := RenameLabel(lines[0]);
            var idx := KeptSelection(columns);
            var t := Table(Pick(columns, idx), DataRows(lines[1..], idx));
            && "Mean" in t.columns && "Label" !in t.columns
            && (forall k :: 0 <= k < |t.columns| ==> IsKeptColumn(t.columns[k]))
            && |t.rows| == |lines| - 1
            && (forall i :: 0 <= i < |t.rows| ==> |t.rows[i]| == |t.columns|)
  {
    var columns := RenameLabel(lines[0]);
    var idx := KeptSelection(columns);
    KeptSelectionExact(columns);
    PickedHasMean(columns, idx);
    PickedKept(columns, idx);
  }

  lemma PickedHasMean(columns: seq<string>, idx: seq<nat>)
    requires AllKept(columns, idx) && CoversKept(columns, idx) && "Mean" in columns
    ensures "Mean" in Pick(columns, idx)
  {
    var i :| 0 <= i < |columns| && columns[i] == "Mean";
    assert i in idx;
    var k :| 0 <= k < |idx| && idx[k] == i;
    assert Pick(columns, idx)[k] == "Mean";
  }

  lemma PickedKept(columns: seq<string>, idx: seq<nat>)
    requires AllKept(columns, idx)
    ensures var picked := Pick(columns, idx);
            (forall k :: 0 <= k < |picked| ==> IsKeptColumn(picked[k])) && "Label" !in picked
  {
    var picked := Pick(columns, idx);
    assert forall k :: 0 <= k < |picked| ==> IsKeptColumn(picked[k]);
  }

  /** A readable file fails with `EmptyDataError` exactly when every line
      is blank. */
  lemma LoadResultsAllBlank(text: seq<string>)
    requires |text| > 1
    ensures |Filter(text, NonBlankLine)| == 0 <==> LoadResults(true, text) == Err(EmptyDataError)
  {
    var lines := Filter(text, NonBlankLine);
    if |lines| == 0 {
      AllBlankIsEmptyData(text);
    } else {
      LoadResultsSkipsBlank(text);
      FrameIsNotEmptyData(Records(lines));
    }
  }

  lemma AllBlankIsEmptyData(text: seq<string>)
    requires |text| > 1 && |Filter(text, NonBlankLine)| == 0
    ensures LoadResults(true, text) == Err(EmptyDataError)
  {
  }

  /** The frame of a non-empty record list never fails with
      `EmptyDataError`. */
  lemma FrameIsNotEmptyData(lines: seq<seq<string>>)
    requires lines != []
    ensures ReadFrame(lines) != Err(EmptyDataError)
  {
  }

  /** Otherwise the answer is the frame of the records of the non-blank
      lines, whatever blank lines come before the header or between rows. */
  lemma LoadResultsSkipsBlank(text: seq<string>)
    requires |text| > 1 && |Filter(text, NonBlankLine)| > 0
    ensures LoadResults(true, text) == ReadFrame(Records(Filter(text, NonBlankLine)))
  {
  }

  /** A line of spaces before the header is skipped: the header is the next
      line and the one data line gives the one row. */
  lemma WhitespaceLineIsSkipped()
    ensures var r := LoadResults(true, ["  ", "Label,Mean", "a,5"]);
            r.Ok? && |r.value.rows| == 1 && r.value.columns == ["Image", "Mean"]
  {
    var text := ["  ", "Label,Mean", "a,5"];
    assert BlankLine(text[0]);
    assert !BlankLine(text[1]) by { assert text[1][0] == 'L'; }
    assert !BlankLine(text[2]) by { assert text[2][0] == 'a'; }
    SkipFirstLine(text);
    LoadResultsSkipsBlank(text);
    var records := Records(text[1..]);
    SplitLabelMean();
    assert records[0] == Split(text[1], ',');
    FrameOfLabelMean(records);
  }

  lemma SkipFirstLine(text: seq<string>)
    requires |text| == 3 && BlankLine(text[0]) && !BlankLine(text[1]) && !BlankLine(text[2])
    ensures Filter(text, NonBlankLine) == text[1..]
  {
    assert text == [text[0]] + text[1..];
    FilterAll(text[1..], NonBlankLine);
  }

  /** The frame of a `Label, Mean` header and one data record. */
  lemma FrameOfLabelMean(records: seq<seq<string>>)
    requires |records| == 2 && records[0] == ["Label", "Mean"]
    ensures var r := ReadFrame(records);
            r.Ok? && |r.value.rows| == 1 && r.value.columns == ["Image", "Mean"]
  {
    var columns := RenameLabel(records[0]);
    assert columns == ["Image", "Mean"];
    LoadResultsDistinctColumns(records);
    FilterAll(columns, IsKeptColumn);
  }

  lemma SplitLabelMean()
    ensures Split("Label,Mean", ',') == ["Label", "Mean"]
  {
    assert ',' !in "Label" && ',' !in "Mean";
    SplitTwo("Label", "Mean", ',');
    assert "Label,Mean" == "Label" + [','] + "Mean";
  }

  lemma SplitLabelImageMean()
    ensures Split("Label,Image,Mean", ',') == ["Label", "Image", "Mean"]
  {
    assert ',' !in "Label" && ',' !in "Image" && ',' !in "Mean";
    SplitThree("Label", "Image", "Mean", ',');
    assert "Label,Image,Mean" == "Label" + [','] + "Image" + [','] + "Mean";
  }

  lemma SplitTwo(a: string, b: string, d: char)
    requires d !in a && d !in b
    ensures Split(a + [d] + b, d) == [a, b]
  {
    SplitWithoutDelimiter(b, d);
    SplitAtFirstDelimiter(a, b, d);
  }

  lemma SplitThree(a: string, b: string, c: string, d: char)
    requires d !in a && d !in b && d !in c
    ensures Split(a + [d] + b + [d] + c, d) == [a, b, c]
  {
    SplitTwo(b, c, d);
    SplitAtFirstDelimiter(a, b + [d] + c, d);
    assert a + [d] + b + [d] + c == a + [d] + (b + [d] + c);
  }

  /** A file of whitespace lines reads as no table at all. */
  lemma WhitespaceOnlyIsEmptyData()
    ensures LoadResults(true, ["  ", "\t"]) == Err(EmptyDataError)
  {
    var text := ["  ", "\t"];
    assert BlankLine(text[0]) && BlankLine(text[1]);
    assert text == [text[0]] + [text[1]];
    assert Filter(text, NonBlankLine) == [];
  }

  /** When the renamed header names no kept column twice, the result is the
      header's `Image` and `Mean` columns in their original order, and each
      row holds the cells at their positions. */
  lemma LoadResultsDistinctColumns(lines: seq<seq<string>>)
    requires lines != []
    requires var columns := RenameLabel(lines[0]);
             forall i, j :: 0 <= i < j < |columns| && IsKeptColumn(columns[i]) ==> columns[i] != columns[j]
    ensures var columns := RenameLabel(lines[0]);
            var r := ReadFrame(lines);
            r.Ok? ==> r.value.columns == Filter(columns, IsKeptColumn)
                      && r.value.rows == DataRows(lines[1..], KeptIndices(columns))
  {
    var columns := RenameLabel(lines[0]);
    var ks := KeptIndices(columns);
    KeptIndicesSelect(columns);
    assert Pick(columns, ks) == KeptNames(columns);
    SelectUnique(columns, ks);
    assert KeptSelection(columns) == ks;
  }

  /** Selecting the names found at positions whose name occurs nowhere else
      gives back those positions. */
  lemma {:induction false} SelectUnique(columns: seq<string>, ks: seq<nat>)
    requires forall m :: 0 <= m < |ks| ==> ks[m] < |columns|
    requires forall m, j :: 0 <= m < |ks| && 0 <= j < |columns| && columns[j] == columns[ks[m]] ==> j == ks[m]
    ensures SelectColumns(columns, Pick(columns, ks)) == ks
  {
    if ks != [] {
      var names := Pick(columns, ks);
      assert names[1..] == Pick(columns, ks[1..]);
      SelectUnique(columns, ks[1..]);
      PositionsOfOne(columns, columns[ks[0]], ks[0]);
    }
  }

  /** The header `Label, Image, Mean` after the rename. */
  const ImageImageMean: seq<string> := ["Image", "Image", "Mean"]

  lemma ImageImageMeanSelection()
    ensures KeptSelection(ImageImageMean) == [0, 1, 0, 1, 2]
  {
    var h := ImageImageMean;
    FilterAll(h, IsKeptColumn);
    assert KeptNames(h) == h;
    ImagePositions();
    PositionsOfOne(h, "Mean", 2);
    assert h[1..] == ["Image", "Mean"] && h[1..][1..] == ["Mean"];
    assert SelectColumns(h, ["Mean"]) == [2];
    assert SelectColumns(h, ["Image", "Mean"]) == [0, 1, 2];
  }

  lemma ImagePositions()
    ensures Positions(ImageImageMean, "Image") == [0, 1]
  {
    var h := ImageImageMean;
    assert h[..2] == ["Image", "Image"] && h[..2][..1] == ["Image"];
    assert Positions(h[..2][..1], "Image") == [0];
    assert Positions(h[..2], "Image") == [0, 1];
  }

  /** A header naming `Image` after a `Label` column: after the rename the
      name `Image` occurs twice and is also requested twice, so the result
      has four `Image` columns. */
  lemma LabelAndImageGiveFourImageColumns()
    ensures var r := LoadResults(true, ["Label,Image,Mean", "a.tif,a,5"]);
            r.Ok? && r.value.columns == ["Image", "Image", "Image", "Image", "Mean"]
  {
    var text := ["Label,Image,Mean", "a.tif,a,5"];
    assert !BlankLine(text[0]) by { assert text[0][0] == 'L'; }
    assert !BlankLine(text[1]) by { assert text[1][0] == 'a'; }
    FilterAll(text, NonBlankLine);
    LoadResultsSkipsBlank(text);
    var records := Records(text);
    SplitLabelImageMean();
    assert records[0] == Split(text[0], ',');
    FrameOfLabelImageMean(records);
  }

  /** The frame of a `Label, Image, Mean` header. */
  lemma FrameOfLabelImageMean(records: seq<seq<string>>)
    requires |records| > 0 && records[0] == ["Label", "Image", "Mean"]
    ensures var r := ReadFrame(records);
            r.Ok? && r.value.columns == ["Image", "Image", "Image", "Image", "Mean"]
  {
    assert RenameLabel(records[0]) == ImageImageMean;
    ImageImageMeanSelection();
    assert Pick(ImageImageMean, [0, 1, 0, 1, 2]) == ["Image", "Image", "Image", "Image", "Mean"];
  }
}
