/** The batch quantification script (`scripts/run_batch_quant.py`): the
    list of image paths read from a text file, the area and integrated
    density of a decoded image, the rows of the output table, and the loop
    that measures every listed image, sets aside the ones that fail and
    decides the exit status. */
module BatchQuant {
  import opened Wrappers
  import opened Text
  import opened Paths
  import opened Seqs

  // ---------------------------------------------------------------------
  // The list file (`read_image_paths`)

  /** A line that is not blank once stripped names an image. */
  predicate NotBlank(line: string) {
    Strip(line) != ""
  }

  /** Where a listed line points: an absolute path as written, a relative
      one joined onto the list file's directory and handed to `resolve`
      (`Path.resolve`, which consults the file system). */
  function Locate(baseDir: string, line: string, resolve: string -> string): (r: string)
    ensures IsAbsolute(Strip(line)) ==> r == Strip(line)
    ensures !IsAbsolute(Strip(line)) ==> r == resolve(JoinPath(baseDir, Strip(line)))
  {
    var p := Strip(line);
    if IsAbsolute(p) then p else resolve(JoinPath(baseDir, p))
  }

  /** The generator's output for the lines of the list file, in order. */
  function ListedPaths(baseDir: string, lines: seq<string>, resolve: string -> string): (r: seq<string>)
    ensures |r| == |Filter(lines, NotBlank)|
  {
    if lines == [] then []
    else (if NotBlank(lines[0]) then [Locate(baseDir, lines[0], resolve)] else [])
         + ListedPaths(baseDir, lines[1..], resolve)
  }

  /** `read_image_paths`: a missing list file is an error; otherwise one
      path per non-blank line, relative lines taken from the list file's
      parent directory. */
  function ReadImagePaths(listFile: string, listExists: bool, lines: seq<string>,
                          resolve: string -> string): (r: Result<seq<string>, string>)
    ensures r.Err? <==> !listExists
    ensures r.Err? ==> r.error == "List file not found: " + listFile
    ensures r.Ok? ==> r.value == ListedPaths(Parent(listFile), lines, resolve)
  {
    if !listExists then Err("List file not found: " + listFile)
    else Ok(ListedPaths(Parent(listFile), lines, resolve))
  }

  /** Each of `lines` located, one path per line. */
  function LocateAll(baseDir: string, lines: seq<string>, resolve: string -> string): (r: seq<string>)
    ensures |r| == |lines|
    ensures forall i :: 0 <= i < |lines| ==> r[i] == Locate(baseDir, lines[i], resolve)
  {
    if lines == [] then []
    else [Locate(baseDir, lines[0], resolve)] + LocateAll(baseDir, lines[1..], resolve)
  }

  /** Blank lines yield nothing and every other line exactly one path, in
      file order. */
  lemma {:induction false} ListedPathsAreNonBlankLines(baseDir: string, lines: seq<string>, resolve: string -> string)
    ensures ListedPaths(baseDir, lines, resolve) == LocateAll(baseDir, Filter(lines, NotBlank), resolve)
  {
    if lines != [] {
      ListedPathsAreNonBlankLines(baseDir, lines[1..], resolve);
      var tail := Filter(lines[1..], NotBlank);
      if NotBlank(lines[0]) {
        assert Filter(lines, NotBlank) == [lines[0]] + tail;
        assert ([lines[0]] + tail)[1..] == tail;
      } else {
        assert Filter(lines, NotBlank) == [] + tail;
      }
    }
  }

  /** An absolute line is yielded exactly as it reads once stripped; a
      relative one is resolved against the list file's directory. */
  lemma LocateAbsoluteOrRelative(listFile: string, line: string, resolve: string -> string)
    requires NotBlank(line)
    ensures IsAbsolute(Strip(line)) ==> ReadImagePaths(listFile, true, [line], resolve) == Ok([Strip(line)])
    ensures !IsAbsolute(Strip(line)) ==>
            ReadImagePaths(listFile, true, [line], resolve) == Ok([resolve(JoinPath(Parent(listFile), Strip(line)))])
  {
    var base := Parent(listFile);
    assert [line][1..] == [];
    assert ListedPaths(base, [], resolve) == [];
    assert ListedPaths(base, [line], resolve) == [Locate(base, line, resolve)] + [];
    assert [Locate(base, line, resolve)] + [] == [Locate(base, line, resolve)];
  }

  // ---------------------------------------------------------------------
  // Measuring one image (`quantify_image`)

  /** A decoded 8-bit grayscale image: its width and its rows of pixels. */
  datatype Grid = Grid(width: nat, pixels: seq<seq<int>>)

  /** Every row is `width` long and every pixel is in `[0, 255]`. */
  predicate WellFormed(g: Grid) {
    forall i :: 0 <= i < |g.pixels| ==>
      |g.pixels[i]| == g.width && forall j :: 0 <= j < g.width ==> 0 <= g.pixels[i][j] <= 255
  }

  function RowSum(row: seq<int>): int {
    if row == [] then 0 else row[0] + RowSum(row[1..])
  }

  function GridSum(rows: seq<seq<int>>): int {
    if rows == [] then 0 else RowSum(rows[0]) + GridSum(rows[1..])
  }

  datatype Measures = Measures(area: int, intDen: int)

  /** Area is rows times columns; integrated density is the sum of all
      pixel values. */
  function Measure(g: Grid): (m: Measures)
    ensures WellFormed(g) ==> 0 <= m.intDen <= 255 * m.area
  {
    if WellFormed(g) then GridSumBounds(g); Measures(|g.pixels| * g.width, GridSum(g.pixels))
    else Measures(|g.pixels| * g.width, GridSum(g.pixels))
  }

  /** How opening an image can fail: an `OSError` is reported with the path,
      anything else as raised. */
  datatype OpenError = OSError(message: string) | OtherError(message: string)

  /** `quantify_image`, given what opening and decoding `path` gives. */
  function QuantifyImage(path: string, decoded: Result<Grid, OpenError>): (r: Result<Measures, string>)
    ensures decoded.Ok? ==> r.Ok? && r.value.area == |decoded.value.pixels| * decoded.value.width
    ensures decoded.Ok? ==> r.Ok? && r.value.intDen == GridSum(decoded.value.pixels)
    ensures decoded.Err? && decoded.error.OSError? ==>
              r == Err("Failed to open " + path + ": " + decoded.error.message)
    ensures decoded.Err? && decoded.error.OtherError? ==> r == Err(decoded.error.message)
  {
    match decoded
    case Ok(g) => Ok(Measure(g))
    case Err(OSError(m)) => Err("Failed to open " + path + ": " + m)
    case Err(OtherError(m)) => Err(m)
  }

  lemma {:induction false} RowSumBounds(row: seq<int>, width: nat)
    requires |row| == width
    requires forall j :: 0 <= j < width ==> 0 <= row[j] <= 255
    ensures 0 <= RowSum(row) <= 255 * width
  {
    if row != [] {
      RowSumBounds(row[1..], width - 1);
    }
  }

  lemma {:induction false} GridSumBounds(g: Grid)
    requires WellFormed(g)
    ensures 0 <= GridSum(g.pixels) <= 255 * (|g.pixels| * g.width)
    decreases |g.pixels|
  {
    if g.pixels != [] {
      RowSumBounds(g.pixels[0], g.width);
      GridSumBounds(Grid(g.width, g.pixels[1..]));
      assert 255 * (|g.pixels| * g.width) == 255 * g.width + 255 * ((|g.pixels| - 1) * g.width);
    }
  }

  /** The integrated density of an 8-bit image lies between 0 (all black)
      and 255 times the area (all white). */
  lemma IntegratedDensityBounds(path: string, g: Grid)
    requires WellFormed(g)
    ensures var r := QuantifyImage(path, Ok(g));
            r.Ok? && 0 <= r.value.intDen <= 255 * r.value.area
  {
    GridSumBounds(g);
  }

  /** An image of one uniform value `v` has integrated density `v` times its
      area. */
  lemma UniformGridDensity(g: Grid, v: int)
    requires forall i :: 0 <= i < |g.pixels| ==> g.pixels[i] == seq(g.width, _ => v)
    ensures Measure(g).intDen == v * Measure(g).area
  {
    UniformGridSum(g, v);
  }

  lemma {:induction false} UniformGridSum(g: Grid, v: int)
    requires forall i :: 0 <= i < |g.pixels| ==> g.pixels[i] == seq(g.width, _ => v)
    ensures GridSum(g.pixels) == v * (|g.pixels| * g.width)
    decreases |g.pixels|
  {
    if g.pixels != [] {
      UniformRowSum(g.width, v);
      UniformGridSum(Grid(g.width, g.pixels[1..]), v);
      assert v * (|g.pixels| * g.width) == v * g.width + v * ((|g.pixels| - 1) * g.width);
    }
  }

  lemma {:induction false} UniformRowSum(width: nat, v: int)
    ensures RowSum(seq(width, _ => v)) == v * width
  {
    if width > 0 {
      assert seq(width, _ => v)[1..] == seq(width - 1, _ => v);
      UniformRowSum(width - 1, v);
    }
  }

  // ---------------------------------------------------------------------
  // The output table (`write_results`)

  /** A cell of the output CSV: text, or a number printed with a fixed
      number of decimal places. */
  datatype Cell = Str(text: string) | Fixed(value: int, places: nat)

  datatype ResultRow = ResultRow(image: string, area: int, intDen: int)

  const Header: seq<Cell> := [Str("Image"), Str("Area"), Str("IntDen")]

  /** One data line: the image as text, then area and integrated density
      with `places` decimals, one cell under each header. */
  function FormatRow(row: ResultRow, places: nat): (r: seq<Cell>)
    ensures |r| == |Header|
    ensures r[0] == Str(row.image)
    ensures forall j :: 1 <= j < |r| ==> r[j].Fixed? && r[j].places == places
  {
    [Str(row.image), Fixed(row.area, places), Fixed(row.intDen, places)]
  }

  /** What the writer puts in the file, and whether it then failed. */
  datatype Written = Written(lines: seq<seq<Cell>>, failed: bool)

  /** `write_results`: the header, then one line per result in order. A
      negative number of decimal places makes the format specifier invalid,
      so the first data line fails after the header is written. */
  function WriteResults(rows: seq<ResultRow>, places: int): (r: Written)
    ensures |r.lines| >= 1 && r.lines[0] == Header
    ensures r.failed <==> places < 0 && rows != []
    ensures r.failed ==> r.lines == [Header]
    ensures !r.failed ==> |r.lines| == |rows| + 1
  {
    if places < 0 && rows != [] then Written([Header], true)
    else
      var p: nat := if places < 0 then 0 else places;
      Written([Header] + seq(|rows|, i requires 0 <= i < |rows| => FormatRow(rows[i], p)), false)
  }

  /** Reading the table back: the header, then `Image, Area, IntDen` lines. */
  function ReadResults(lines: seq<seq<Cell>>): Option<seq<ResultRow>> {
    if lines == [] || lines[0] != Header then None
    else ReadRows(lines[1..])
  }

  function ReadRows(lines: seq<seq<Cell>>): Option<seq<ResultRow>> {
    if lines == [] then Some([])
    else
      var l := lines[0];
      if |l| == 3 && l[0].Str? && l[1].Fixed? && l[2].Fixed? then
        var rest := ReadRows(lines[1..]);
        if rest.None? then None else Some([ResultRow(l[0].text, l[1].value, l[2].value)] + rest.value)
      else None
  }

  lemma {:induction false} ReadFormattedRows(rows: seq<ResultRow>, places: nat)
    ensures ReadRows(seq(|rows|, i requires 0 <= i < |rows| => FormatRow(rows[i], places))) == Some(rows)
  {
    if rows != [] {
      var f := seq(|rows|, i requires 0 <= i < |rows| => FormatRow(rows[i], places));
      assert f[1..] == seq(|rows[1..]|, i requires 0 <= i < |rows[1..]| => FormatRow(rows[1..][i], places));
      ReadFormattedRows(rows[1..], places);
      assert [rows[0]] + rows[1..] == rows;
    }
  }

  /** A successful write holds the results in the order given, each number
      with the requested decimal places. */
  lemma WriteResultsRoundTrip(rows: seq<ResultRow>, places: nat)
    ensures ReadResults(WriteResults(rows, places).lines) == Some(rows)
    ensures forall i, j :: 1 <= i < |WriteResults(rows, places).lines| && 1 <= j < 3 ==>
              WriteResults(rows, places).lines[i][j].places == places
  {
    var lines := WriteResults(rows, places).lines;
    assert lines[1..] == seq(|rows|, i requires 0 <= i < |rows| => FormatRow(rows[i], places));
    ReadFormattedRows(rows, places);
  }

  // ---------------------------------------------------------------------
  // The batch loop and the exit status (`main`)

  /** What happens to one listed path: a missing file is skipped by name, a
      failed measurement is skipped with its error, anything else is a
      result row. */
  function Attempt(path: string, pathExists: string -> bool,
                   decode: string -> Result<Grid, OpenError>): (r: Result<ResultRow, string>)
    ensures !pathExists(path) ==> r == Err(path)
    ensures r.Ok? <==> pathExists(path) && decode(path).Ok?
    ensures r.Ok? ==> r.value.image == path && r.value.intDen == GridSum(decode(path).value.pixels)
    ensures r.Ok? ==> r.value.area == |decode(path).value.pixels| * decode(path).value.width
    ensures pathExists(path) && decode(path).Err? && decode(path).error.OSError? ==>
              r == Err(path + " (error: " + ("Failed to open " + path + ": " + decode(path).error.message) + ")")
    ensures pathExists(path) && decode(path).Err? && decode(path).error.OtherError? ==>
              r == Err(path + " (error: " + decode(path).error.message + ")")
  {
    if !pathExists(path) then Err(path)
    else
      var q := QuantifyImage(path, decode(path));
      if q.Err? then Err(path + " (error: " + q.error + ")")
      else Ok(ResultRow(path, q.value.area, q.value.intDen))
  }

  /** The result rows of the successful paths, in list order. */
  function Processed(paths: seq<string>, pathExists: string -> bool,
                     decode: string -> Result<Grid, OpenError>): (r: seq<ResultRow>)
    ensures |r| <= |paths|
    ensures forall i :: 0 <= i < |r| ==> r[i].image in paths
  {
    if paths == [] then []
    else
      var a := Attempt(paths[|paths| - 1], pathExists, decode);
      Processed(paths[..|paths| - 1], pathExists, decode) + (if a.Ok? then [a.value] else [])
  }

  /** The skip entries of the failed paths, in list order. */
  function Skipped(paths: seq<string>, pathExists: string -> bool,
                   decode: string -> Result<Grid, OpenError>): (r: seq<string>)
    ensures |r| <= |paths|
  {
    if paths == [] then []
    else
      var a := Attempt(paths[|paths| - 1], pathExists, decode);
      Skipped(paths[..|paths| - 1], pathExists, decode) + (if a.Err? then [a.error] else [])
  }

  /** Extending the list by one path adds its outcome to one of the two. */
  lemma ProcessedSnoc(paths: seq<string>, path: string, pathExists: string -> bool,
                      decode: string -> Result<Grid, OpenError>)
    ensures var a := Attempt(path, pathExists, decode);
            Processed(paths + [path], pathExists, decode)
              == Processed(paths, pathExists, decode) + (if a.Ok? then [a.value] else [])
            && Skipped(paths + [path], pathExists, decode)
              == Skipped(paths, pathExists, decode) + (if a.Err? then [a.error] else [])
  {
    assert (paths + [path])[..|paths|] == paths;
  }

  /** Every path ends up either among the results or among the skipped. */
  lemma {:induction false} EveryPathAccountedFor(paths: seq<string>, pathExists: string -> bool,
                                                 decode: string -> Result<Grid, OpenError>)
    ensures |Processed(paths, pathExists, decode)| + |Skipped(paths, pathExists, decode)| == |paths|
  {
    if paths != [] {
      EveryPathAccountedFor(paths[..|paths| - 1], pathExists, decode);
    }
  }

  /** The test a path passes when it yields a result. */
  function Succeeds(pathExists: string -> bool, decode: string -> Result<Grid, OpenError>): string -> bool {
    p => Attempt(p, pathExists, decode).Ok?
  }

  /** The image column of the result rows. */
  function Images(rs: seq<ResultRow>): (r: seq<string>)
    ensures |r| == |rs| && forall i :: 0 <= i < |rs| ==> r[i] == rs[i].image
  {
    seq(|rs|, i requires 0 <= i < |rs| => rs[i].image)
  }

  /** The results name exactly the paths that succeeded, in list order. */
  lemma {:induction false} ResultsFollowListOrder(paths: seq<string>, pathExists: string -> bool,
                                                  decode: string -> Result<Grid, OpenError>)
    ensures Images(Processed(paths, pathExists, decode)) == Filter(paths, Succeeds(pathExists, decode))
  {
    if paths != [] {
      var init := paths[..|paths| - 1];
      var last := paths[|paths| - 1];
      ResultsFollowListOrder(init, pathExists, decode);
      ProcessedImagesSnoc(paths, pathExists, decode);
      assert paths == init + [last];
      FilterSnoc(init, last, Succeeds(pathExists, decode));
    }
  }

  /** The image column after one more path: the path itself if it
      succeeds. */
  lemma ProcessedImagesSnoc(paths: seq<string>, pathExists: string -> bool,
                            decode: string -> Result<Grid, OpenError>)
    requires paths != []
    ensures var last := paths[|paths| - 1];
            Images(Processed(paths, pathExists, decode))
            == Images(Processed(paths[..|paths| - 1], pathExists, decode))
               + (if Succeeds(pathExists, decode)(last) then [last] else [])
  {
    var last := paths[|paths| - 1];
    var a := Attempt(last, pathExists, decode);
    var head := Processed(paths[..|paths| - 1], pathExists, decode);
    assert Succeeds(pathExists, decode)(last) == a.Ok?;
    if a.Ok? {
      assert Processed(paths, pathExists, decode) == head + [a.value];
      assert Images(head + [a.value]) == Images(head) + [last];
    } else {
      assert Processed(paths, pathExists, decode) == head;
    }
  }

  /** The loop of `main`: each path that exists is measured; a missing
      path is skipped by name and a failed measurement with its error, and
      the loop goes on. Answers the result rows, the skip entries and, as
      a ghost, the paths handed to `quantify_image`. */
  method MeasureAll(paths: seq<string>, pathExists: string -> bool,
                    decode: string -> Result<Grid, OpenError>)
    returns (results: seq<ResultRow>, skipped: seq<string>, ghost quantified: seq<string>)
    ensures results == Processed(paths, pathExists, decode)
    ensures skipped == Skipped(paths, pathExists, decode)
    ensures quantified == Filter(paths, pathExists)
  {
    results, skipped, quantified := [], [], [];
    for i := 0 to |paths|
      invariant results == Processed(paths[..i], pathExists, decode)
      invariant skipped == Skipped(paths[..i], pathExists, decode)
      invariant quantified == Filter(paths[..i], pathExists)
    {
      var path := paths[i];
      assert paths[..i + 1] == paths[..i] + [path];
      FilterSnoc(paths[..i], path, pathExists);
      ProcessedSnoc(paths[..i], path, pathExists, decode);
      if !pathExists(path) {
        skipped := skipped + [path];
        continue;
      }
      quantified := quantified + [path];
      var q := QuantifyImage(path, decode(path));
      if q.Err? {
        skipped := skipped + [path + " (error: " + q.error + ")"];
        continue;
      }
      results := results + [ResultRow(path, q.value.area, q.value.intDen)];
    }
    assert paths[..|paths|] == paths;
  }

  /** `main` after argument parsing. The file system, the image decoder and
      the output file are parameters: `pathExists` answers `Path.exists`,
      `decode` opens and decodes an image, `writeOk` says whether the
      output file can be created. Answers the exit status, the result
      rows, the skip entries and what was written to the output file (none
      when it was not opened). */
  method RunBatchQuant(listFile: string, listExists: bool, lines: seq<string>,
                       resolve: string -> string, pathExists: string -> bool,
                       decode: string -> Result<Grid, OpenError>,
                       decimalPlaces: int, writeOk: bool)
    returns (code: int, results: seq<ResultRow>, skipped: seq<string>, output: Option<seq<seq<Cell>>>)
    ensures code == 0 || code == 1
    ensures !listExists ==> code == 1 && results == [] && skipped == [] && output.None?
    ensures listExists ==>
              results == Processed(ListedPaths(Parent(listFile), lines, resolve), pathExists, decode)
              && skipped == Skipped(ListedPaths(Parent(listFile), lines, resolve), pathExists, decode)
    ensures results == [] ==> code == 1 && output.None?
    ensures results != [] ==> (code == 0 <==> writeOk && decimalPlaces >= 0)
    ensures results != [] && writeOk ==> output == Some(WriteResults(results, decimalPlaces).lines)
    ensures !writeOk ==> output.None?
  {
    results, skipped, output := [], [], None;
    var read := ReadImagePaths(listFile, listExists, lines, resolve);
    if read.Err? {
      return 1, results, skipped, output;
    }
    var paths := read.value;
    if paths == [] {
      return 1, results, skipped, output;
    }
    ghost var quantified;
    results, skipped, quantified := MeasureAll(paths, pathExists, decode);
    if results == [] {
      return 1, results, skipped, output;
    }
    if !writeOk {
      return 1, results, skipped, output;
    }
    var written := WriteResults(results, decimalPlaces);
    output := Some(written.lines);
    code := if written.failed then 1 else 0;
  }
}
