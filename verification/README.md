# Headless Fiji quantification: a Dafny model

The repository drives Fiji/ImageJ without a display to measure image intensities. Three programs share that job:

- `quantify_images.py` builds a batch macro and hands it to Fiji, reads back the results table Fiji writes, and exports a workbook with a per-measurement summary.
- `src/imagej_mean_intensity.py` checks its inputs, writes a smaller macro that measures the mean intensity of the chosen images, and keeps the `Image` and `Mean` columns of the result.
- `scripts/run_batch_quant.py` reads a list of image paths, measures the area and integrated density of each image, skips and reports the ones that fail, writes a CSV file and returns an exit status.

This project models the deterministic rules of those programs and proves what they promise. Fiji, the file system, the image decoder and the CSV and float readers are outside the model. They appear as parameters: directory listings, "exists" answers, decoded pixel grids, parsed rows and a float-parsing oracle.

The modules follow the programs:

- `Wrappers`: `Option` and `Result`.
- `Text`: the Python string operations the programs use. These are lower-casing, `join`, `split`, `strip`, integer text, lexicographic order and `sorted`.
- `Seqs`: list-comprehension filtering.
- `Paths`: the parts of `pathlib` in play. These are `suffix`, `parent`, joining and absolute paths.
- `QuantifyImages`: `quantify_images.py`. It covers:
  - the "Set Measurements" option string;
  - the trailing separator;
  - the threshold configuration and the macro's clamp;
  - `find_images`, the macro's extension list and its `shouldProcess` matcher;
  - `parse_results_csv`;
  - the summary loop of `export_to_excel`.
- `MeanIntensity`: `src/imagej_mean_intensity.py`. It covers:
  - `ensure_imagej_path`;
  - extension normalisation and `validate_inputs`;
  - `ij1_escape` and the macro's `allowed` array;
  - the macro's keep test;
  - `load_results`.
- `BatchQuant`: `scripts/run_batch_quant.py`. It covers:
  - `read_image_paths`;
  - `quantify_image` over a decoded grid;
  - `write_results`;
  - the loop and exit status of `main`.

The source updates state step by step in four loops. Each of them is a method with a loop, proved against a specification function:

- building the option string;
- reading the results rows;
- the summary loop;
- the batch loop.

The macro's `shouldProcess` is also a method. The remaining code is pure, so it is modelled as functions and lemmas.

Two places where the programs disagree are stated as lemmas:

- **Dot-names.** A name such as `.tif` has no suffix in `pathlib`. So neither `find_images` nor `validate_inputs` counts such a file. Yet the keep tests of both macros accept the name, because they test `endsWith` on the whole name. The macros never open such a file all the same: ImageJ's `getFileList` does not list dot-names. For the same reason a reported dot-name with a suffix, such as `.a.tif`, is counted by `find_images` but never opened. `getFileList` is not part of this model, so the lemmas speak of the keep tests only. See `QuantifyImages.HiddenNamePassesButNotFound` and `MeanIntensity.HiddenNameKeptButNotSelected`.
- **Replacement order in `ij1_escape`.** The order of the two replacements matters. Escaping quotes first would not read back. See `MeanIntensity.QuoteFirstEscapeIsNotReversible`.

## Model

| member | source | states |
|---|---|---|
| QuantifyImages.ImagejOptions | quantify_images.py:58-59 | one ImageJ option per measurement definition, in definition order |
| QuantifyImages.Dedup | quantify_images.py:57-62 | de-duplication never lengthens the option list; what it keeps is stated by the three lemmas that follow |
| QuantifyImages.FirstIndex | quantify_images.py:58-62 | the position of the first occurrence of an option: it holds the option and no earlier entry does |
| QuantifyImages.DedupElements | quantify_images.py:58-62 | the de-duplicated options are exactly the options of the input |
| QuantifyImages.DedupDistinct | quantify_images.py:58-62 | no option appears twice after de-duplication |
| QuantifyImages.DedupFirstOccurrenceOrder | quantify_images.py:58-62 | kept options are in the order of their first occurrence in the input |
| QuantifyImages.DedupPairOrdered | quantify_images.py:58-62 | the inductive step: appending one option keeps every pair of kept options in first-occurrence order |
| QuantifyImages.BuildMeasurementOptionString | quantify_images.py:54-64 | the loop with its `seen` set yields the distinct options in first-occurrence order, then the fixed tail, joined by spaces |
| QuantifyImages.OptionStringEndsWithTail | quantify_images.py:63-64 | the string ends with `limit display redirect=None decimal=3`, after all measurement options |
| QuantifyImages.OptionStringTokens | quantify_images.py:54-64 | split on spaces, the option string gives back the distinct options followed by the tail |
| QuantifyImages.BuiltInOptionsDedup | quantify_images.py:43-50 | the six built-in measurements request six different options, in table order |
| QuantifyImages.MeasurementOptionStringValue | quantify_images.py:67 | `MEASUREMENT_OPTION_STRING` splits into the ten tokens `area mean standard min max integrated limit display redirect=None decimal=3` |
| QuantifyImages.EnsureTrailingSeparator | quantify_images.py:105-111 | the result ends with `/`; it is the input when that already ends with `/`, else the input plus `/` |
| QuantifyImages.EnsureTrailingSeparatorIdempotent | quantify_images.py:105-111 | applying it twice equals applying it once; the input is a prefix of the result and at most one character is added |
| QuantifyImages.Description | quantify_images.py:78-82 | `otsu` gives "Otsu automatic threshold"; anything else gives "Manual threshold at " followed by the manual value's decimal text (`IntToString`, so no leading zero), or `None` |
| QuantifyImages.MacroManualValue | quantify_images.py:84-85 | a missing manual value becomes 0; a present one is kept |
| QuantifyImages.ClampLower | quantify_images.py:344-346 | the lower bound is in [0, 255]: below 0 becomes 0, above 255 becomes 255, in range is unchanged |
| QuantifyImages.MacroManualLower | quantify_images.py:344-346 | the threshold the manual branch sets is in [0, 255]; a missing or zero value gives 0; an in-range value is kept |
| QuantifyImages.ManualThresholdLabel | quantify_images.py:348 | the label is `Manual (` + the clamped lower bound's decimal text (`IntToString`) + `)`, and reads back to that bound |
| QuantifyImages.NamesOf | quantify_images.py:436 | one name per entry, in entry order |
| QuantifyImages.NamesOfMembership | quantify_images.py:436 | a name is listed iff some entry carries it |
| QuantifyImages.FindImages | quantify_images.py:432-437 | the result is sorted ascending and is a permutation of the names of the regular files whose lower-cased suffix is supported |
| QuantifyImages.FindImagesSelects | quantify_images.py:432-437 | a name is reported iff a regular file with a supported lower-cased suffix carries it |
| QuantifyImages.LowerAll | quantify_images.py:313 | each extension lower-cased, in order |
| QuantifyImages.ExtensionList | quantify_images.py:313 | no extensions give the empty list; otherwise the `;`-joined text starts with the least lower-cased extension |
| QuantifyImages.SplitExtensionList | quantify_images.py:313 | splitting the `;`-joined list on `;` gives back the sorted lower-cased extensions |
| QuantifyImages.SortedSupportedExtensionsIsSorted | quantify_images.py:313 | `.bmp;.jpeg;.jpg;.png;.tif;.tiff` is in ascending order |
| QuantifyImages.SupportedExtensionsAreLowerCase | quantify_images.py:313 | lower-casing leaves the supported extensions unchanged, in any enumeration order |
| QuantifyImages.SupportedExtensionListValue | quantify_images.py:313 | whatever order the set is enumerated in, the extension list is `.bmp;.jpeg;.jpg;.png;.tif;.tiff` and splits back into those six |
| QuantifyImages.ShouldProcess | quantify_images.py:366-377 | the macro loop answers true iff the lower-cased name ends with some non-empty entry of the `;`-split list |
| QuantifyImages.FoundImagesPassShouldProcess | quantify_images.py:366-377 | every file `find_images` reports passes the macro's `shouldProcess` test |
| QuantifyImages.HiddenNamePassesButNotFound | quantify_images.py:366-377 | the converse fails: `shouldProcess` accepts the name `.tif`, which `find_images` does not report |
| QuantifyImages.ImageName | quantify_images.py:465 | `Image` when present and non-empty, else `Label` when present and non-empty, else the empty string |
| QuantifyImages.ThresholdText | quantify_images.py:466-471 | the `Threshold Applied` cell when present and non-empty, otherwise `-`; never empty |
| QuantifyImages.SafeFloat | quantify_images.py:440-448 | an absent or empty cell is NaN; any other cell is what the float reader makes of it |
| QuantifyImages.RowMeasurements | quantify_images.py:467-469 | each row's measurement dictionary has exactly the display names as keys |
| QuantifyImages.RowMeasurementsValue | quantify_images.py:467-469 | under a display name used by no later definition sits the value read from that definition's result column |
| QuantifyImages.ParseResultsCsv | quantify_images.py:451-474 | no header is an error with the fixed message; otherwise three lists of the row count, in row order, with the image-name and threshold fallbacks and per-row dictionaries over the display names |
| QuantifyImages.ValuesFor | quantify_images.py:554 | one value per result, NaN where the result lacks the column |
| QuantifyImages.Clean | quantify_images.py:555 | the non-NaN values with their multiplicity and in their order: the `k`-th result is the `k`-th present entry, so a value is kept iff it occurs as a non-NaN entry |
| QuantifyImages.CleanCountsValid | quantify_images.py:555-567 | the count reported is the number of non-NaN values |
| QuantifyImages.Mean | quantify_images.py:557 | `statistics.mean`: the mean times the number of values is their sum |
| QuantifyImages.SquaredDeviations | quantify_images.py:558 | the sum of squared deviations is never negative |
| QuantifyImages.SampleVariance | quantify_images.py:558 | the sample variance (the square of `statistics.stdev`) of two or more values is never negative |
| QuantifyImages.MeanBetweenBounds | quantify_images.py:557 | the mean lies between any lower and upper bound of the values |
| QuantifyImages.ConstantValuesHaveZeroVariance | quantify_images.py:557-558 | identical values have that value as mean and zero spread |
| QuantifyImages.SummaryOfOneTwoThree | quantify_images.py:557-558 | 1, 2, 3 have mean 2 and sample variance 1 |
| QuantifyImages.SummaryRows | quantify_images.py:553-569 | one row per measurement in definition order; the count is the number of non-NaN values; the mean is absent iff there are none; the spread is absent iff there are fewer than two; present values are the mean and sample variance of the non-NaN values |
| MeanIntensity.EnsureImageJPath | src/imagej_mean_intensity.py:79-87 | an explicit path wins, then a non-empty `IMAGEJ_PATH`; it fails with `ValueError` exactly when neither is given |
| MeanIntensity.NormalizeExtension | src/imagej_mean_intensity.py:96 | the result starts with `.` and has no upper case; a dotted input is lower-cased, an undotted one gets `.` prepended |
| MeanIntensity.NormalizeExtensionIdempotent | src/imagej_mean_intensity.py:96 | normalising twice equals normalising once |
| MeanIntensity.NormalizeAll | src/imagej_mean_intensity.py:115 | each extension normalised, in input order |
| MeanIntensity.NormalizedSet | src/imagej_mean_intensity.py:96 | the set holds exactly the normalised extensions |
| MeanIntensity.ValidateInputs | src/imagej_mean_intensity.py:90-105 | a missing path raises `FileNotFoundError`; a non-directory raises `NotADirectoryError`; a success is non-empty |
| MeanIntensity.ValidateInputsSelects | src/imagej_mean_intensity.py:96-105 | for a directory the result is, in listing order, exactly the regular files whose lower-cased suffix was requested; when there are none it raises `FileNotFoundError` |
| MeanIntensity.SelectionInOnePass | src/imagej_mean_intensity.py:97-98 | filtering the candidates and then the matches equals one filter on both tests |
| MeanIntensity.SuffixRequestedIff | src/imagej_mean_intensity.py:96-98 | a file matches iff its lower-cased suffix is the normalisation of some requested extension |
| MeanIntensity.BareDotMatchesNothing | src/imagej_mean_intensity.py:96-98 | a requested `.` or empty extension matches no file |
| MeanIntensity.ReplaceChar | src/imagej_mean_intensity.py:109 | `str.replace` of one character leaves a string without it unchanged (the content and length in general are the two lemmas below) |
| MeanIntensity.ReplaceCharIsSplitJoin | src/imagej_mean_intensity.py:109 | replacing a character equals splitting on it and joining the pieces with the replacement, so every occurrence is replaced and nothing else changes |
| MeanIntensity.ReplaceCharLength | src/imagej_mean_intensity.py:109 | the length grows by the number of occurrences times the replacement's extra length |
| MeanIntensity.ReplaceCharAppend | src/imagej_mean_intensity.py:109 | replacing in a concatenation is the concatenation of the replacements |
| MeanIntensity.EscapeChar | src/imagej_mean_intensity.py:109 | a backslash becomes two, a quote becomes backslash-quote, any other character stays |
| MeanIntensity.Ij1Escape | src/imagej_mean_intensity.py:108-109 | a string with no backslash and no quote is returned unchanged |
| MeanIntensity.Ij1EscapeIsPerCharacter | src/imagej_mean_intensity.py:108-109 | the two chained replaces equal escaping each character on its own |
| MeanIntensity.Ij1EscapeLength | src/imagej_mean_intensity.py:108-109 | the output length is the input length plus the number of backslashes plus the number of quotes |
| MeanIntensity.ReadLiteral | src/imagej_mean_intensity.py:121-124 | reading an IJ1 string literal body leaves a strict suffix of the input unread |
| MeanIntensity.Ij1EscapeRoundTrip | src/imagej_mean_intensity.py:108-109 | reading the escaped text as a literal up to its closing quote gives back the input and the rest |
| MeanIntensity.QuoteFirstEscapeIsNotReversible | src/imagej_mean_intensity.py:109 | with the replaces swapped, `"` escapes to `\\"`, which reads back as a backslash with the quote left over |
| MeanIntensity.Quoted | src/imagej_mean_intensity.py:116 | each extension quoted and escaped, in order |
| MeanIntensity.ExtensionLiterals | src/imagej_mean_intensity.py:116 | no extensions give an empty argument list; otherwise the text starts and ends with a quote |
| MeanIntensity.ReadQuotedItems | src/imagej_mean_intensity.py:116 | a non-empty `, `-joined list of quoted escaped items reads back to the items |
| MeanIntensity.ExtensionLiteralsRoundTrip | src/imagej_mean_intensity.py:115-124 | the `allowed` array reads back to the normalised extensions, in input order |
| MeanIntensity.MacroKeepsIgnoresCase | src/imagej_mean_intensity.py:134-142 | the keep test (`MacroKeeps`: the lower-cased name ends with some entry of `allowed`) answers the same for a name and its lower-cased form |
| MeanIntensity.SelectedFilesPassKeepTest | src/imagej_mean_intensity.py:134-142 | every file `validate_inputs` selects passes the macro's keep test |
| MeanIntensity.HiddenNameKeptButNotSelected | src/imagej_mean_intensity.py:134-142 | the converse fails: the keep test accepts the name `.tif`, which `validate_inputs` does not select |
| MeanIntensity.RenameLabel | src/imagej_mean_intensity.py:196-197 | `Label` becomes `Image`, every other column is kept, no `Label` remains |
| MeanIntensity.KeptIndices | src/imagej_mean_intensity.py:200 | the positions of the `Image` and `Mean` columns: increasing, each holds such a column, and every such column is included |
| MeanIntensity.KeptIndicesSelect | src/imagej_mean_intensity.py:200 | the columns at those positions are the `Image`/`Mean` names of the header, in header order |
| MeanIntensity.Project | src/imagej_mean_intensity.py:200 | a record cut down to the kept positions, a missing cell for a short record |
| MeanIntensity.DataRows | src/imagej_mean_intensity.py:194-200 | one projected row per data record, in file order |
| MeanIntensity.KeptIndicesCount | src/imagej_mean_intensity.py:200 | as many kept positions as kept column names |
| MeanIntensity.Positions | src/imagej_mean_intensity.py:200 | `df[name]` on a header that may repeat `name`: increasing positions, each holding `name`, and every such position |
| MeanIntensity.SelectColumns | src/imagej_mean_intensity.py:200 | `df[names]`: every selected position is a position of the header (how often and in what order are the next three lemmas) |
| MeanIntensity.PositionsCount | src/imagej_mean_intensity.py:200 | a name's positions hold each column with that name once and nothing else |
| MeanIntensity.SelectColumnsCount | src/imagej_mean_intensity.py:200 | `df[names]` selects each position as many times as its column's name is requested, and no position out of range |
| MeanIntensity.SelectColumnsAppend | src/imagej_mean_intensity.py:200 | selecting `a + b` is selecting `a`, then `b`: positions come in request order, and one name's positions left to right (`Positions`) |
| MeanIntensity.Pick | src/imagej_mean_intensity.py:200 | the header names at the selected positions, one per position, in selection order |
| MeanIntensity.KeptSelection | src/imagej_mean_intensity.py:200 | the selection `load_results` makes stays inside the header |
| MeanIntensity.KeptSelectionExact | src/imagej_mean_intensity.py:200 | that selection holds only `Image`/`Mean` positions and every one of them, repeats included |
| MeanIntensity.SelectUnique | src/imagej_mean_intensity.py:200 | selecting names that occur once each gives back their positions |
| MeanIntensity.LoadResults | src/imagej_mean_intensity.py:182-200 | on the file's lines: no file, and one line or fewer (`csv.reader` yields a record per line, blank or not), raise `ImageJError`; a result has `Mean`, no `Label`, only `Image`/`Mean` columns and rows as wide as the columns |
| MeanIntensity.Records | src/imagej_mean_intensity.py:194 | one record per line, whose fields hold no comma and join back with commas to the line |
| MeanIntensity.ReadFrame | src/imagej_mean_intensity.py:194-200 | for non-blank records: fails, with the `Mean` message, iff the renamed header has no `Mean`; a frame has `Mean`, no `Label`, only `Image`/`Mean` columns, one row per later record, each as wide as the columns |
| MeanIntensity.LoadResultsAllBlank | src/imagej_mean_intensity.py:191-194 | a file of two or more lines fails with `EmptyDataError` iff every line is blank, that is empty or only spaces and tabs |
| MeanIntensity.LoadResultsSkipsBlank | src/imagej_mean_intensity.py:191-200 | otherwise the answer is the frame of the records of the non-blank lines, so blank and whitespace-only lines anywhere, before the header included, change nothing |
| MeanIntensity.WhitespaceLineIsSkipped | src/imagej_mean_intensity.py:191-200 | a line of spaces before a `Label,Mean` header is skipped: one row, columns `Image`, `Mean` |
| MeanIntensity.WhitespaceOnlyIsEmptyData | src/imagej_mean_intensity.py:191-194 | a file of whitespace-only lines raises `EmptyDataError` |
| MeanIntensity.LoadResultsDistinctColumns | src/imagej_mean_intensity.py:196-200 | when no `Image`/`Mean` name repeats, the columns are those names in header order and each row holds the cells at their positions |
| MeanIntensity.ImageImageMeanSelection | src/imagej_mean_intensity.py:196-200 | for the renamed header `Image, Image, Mean` the selection is positions 0, 1, 0, 1, 2 |
| MeanIntensity.LabelAndImageGiveFourImageColumns | src/imagej_mean_intensity.py:196-200 | a table with both `Label` and `Image` columns answers five columns, four of them `Image` |
| BatchQuant.ReadImagePaths | scripts/run_batch_quant.py:52-65 | it fails with "List file not found: " and the path exactly when the list file is missing; otherwise the paths are `ListedPaths` of the lines from the list file's parent |
| BatchQuant.Locate | scripts/run_batch_quant.py:59-64 | an absolute stripped line is the path as written; a relative one is joined onto the list file's parent and resolved |
| BatchQuant.ListedPaths | scripts/run_batch_quant.py:57-65 | one path per non-blank line |
| BatchQuant.LocateAll | scripts/run_batch_quant.py:58-65 | one located path per line, in order |
| BatchQuant.ListedPathsAreNonBlankLines | scripts/run_batch_quant.py:57-65 | blank lines yield nothing and every other line exactly one path, in file order |
| BatchQuant.LocateAbsoluteOrRelative | scripts/run_batch_quant.py:56-64 | an absolute stripped line is yielded as it is; a relative one is joined onto the list file's parent and resolved |
| BatchQuant.QuantifyImage | scripts/run_batch_quant.py:68-79 | the area is rows times columns and the integrated density the sum of the pixels; an `OSError` becomes "Failed to open <path>: <error>"; any other error passes through |
| BatchQuant.Measure | scripts/run_batch_quant.py:77-78 | an 8-bit grid measures with integrated density between 0 and 255 times its area |
| BatchQuant.RowSumBounds | scripts/run_batch_quant.py:78 | a row of 8-bit pixels sums to between 0 and 255 times its width |
| BatchQuant.GridSumBounds | scripts/run_batch_quant.py:78 | a grid of 8-bit pixels sums to between 0 and 255 times its pixel count |
| BatchQuant.IntegratedDensityBounds | scripts/run_batch_quant.py:72-78 | a decoded 8-bit image measures with integrated density between 0 and 255 times its area |
| BatchQuant.UniformGridDensity | scripts/run_batch_quant.py:77-78 | an image of one value has integrated density that value times its area |
| BatchQuant.WriteResults | scripts/run_batch_quant.py:82-102 | the header `Image, Area, IntDen` comes first; with valid decimal places one line per result follows; a negative count fails exactly when there is a row to format, after the header |
| BatchQuant.FormatRow | scripts/run_batch_quant.py:95-101 | one cell per header field: the image name, then the two numbers with the requested decimal places |
| BatchQuant.WriteResultsRoundTrip | scripts/run_batch_quant.py:88-101 | a written table reads back to the results in the given order, every number with the requested decimal places |
| BatchQuant.Attempt | scripts/run_batch_quant.py:121-132 | a missing path is skipped as the path; the attempt succeeds iff the path exists and decodes, naming the path with the grid's sum; a result row carries the grid's area; a failed decode is skipped as "<path> (error: <message>)", the message being "Failed to open <path>: ..." for an `OSError` and the raised text otherwise |
| BatchQuant.Processed | scripts/run_batch_quant.py:121-132 | at most one result per path, each naming a listed path |
| BatchQuant.Skipped | scripts/run_batch_quant.py:121-132 | at most one skip entry per path |
| BatchQuant.ProcessedSnoc | scripts/run_batch_quant.py:121-132 | one more path adds its outcome to exactly one of results and skipped |
| BatchQuant.EveryPathAccountedFor | scripts/run_batch_quant.py:121-132 | the number of results plus the number of skipped entries is the number of paths |
| BatchQuant.ResultsFollowListOrder | scripts/run_batch_quant.py:121-132 | the results name exactly the paths that succeeded, in list order |
| BatchQuant.MeasureAll | scripts/run_batch_quant.py:121-132 | the loop yields the results and skip entries of the per-path rule; only paths that exist are measured |
| BatchQuant.RunBatchQuant | scripts/run_batch_quant.py:105-153 | a missing list, an empty list and no success all return 1; the results and skips follow the listed paths; after a success the status is 0 iff the file was written |
| Text.Lower | quantify_images.py:313 | `str.lower` on ASCII: the same length, no upper case left |
| Text.Join | quantify_images.py:63-64 | `str.join`: the text starts with the first piece and ends with the last |
| Text.JoinSplit | quantify_images.py:368 | joining the pieces of a split with the delimiter gives back the string |
| Text.Split | quantify_images.py:368 | there is at least one piece and no piece contains the delimiter (that the pieces join back to the input is `Text.JoinSplit`) |
| Text.SplitJoin | quantify_images.py:313 | splitting a join of delimiter-free pieces gives back the pieces |
| Text.Strip | scripts/run_batch_quant.py:59 | `str.strip`: a slice of the input; everything cut off on either side is white space, and the rest neither starts nor ends with white space |
| Text.StripEmptyIffBlank | scripts/run_batch_quant.py:59-61 | a stripped line is empty iff the line is all whitespace |
| Text.IntToString | quantify_images.py:81 | the decimal text of an integer reads back to that integer, with no leading zero: `0` alone, a positive number led by a non-zero digit, a negative one by `-` and a non-zero digit |
| Text.LexLe | quantify_images.py:434-437 | string comparison puts a prefix before any extension of it |
| Text.LexLeFirstDifference | quantify_images.py:434-437 | `a <= b` iff `a` is a prefix of `b` or, at the first position where they differ, `a` has the smaller character |
| Text.LexLeReflexive | quantify_images.py:434-437 | every string compares less than or equal to itself |
| Text.LexLeAntisymmetric | quantify_images.py:434-437 | two strings that compare less than or equal both ways are equal |
| Text.Sort | quantify_images.py:434-437 | `sorted`: ascending and a permutation of the input |
| Text.SortedUnique | quantify_images.py:434-437 | two sorted permutations of the same list are equal, so the sorted order is unique |
| Text.LexLeTotal | quantify_images.py:434-437 | string comparison orders every pair of strings |
| Text.LexLeTransitive | quantify_images.py:434-437 | string comparison is transitive |
| Paths.Suffix | quantify_images.py:436 | `PurePath.suffix`: empty, or a dot-led ending shorter than the name with no further dot; when the last dot is neither first nor last, the suffix is everything from it |
| Paths.LowerSuffixEndsLowerName | src/imagej_mean_intensity.py:134-137 | a lower-cased name ends with its lower-cased suffix |
| Paths.IsAbsolute | scripts/run_batch_quant.py:63 | a path is absolute iff it starts with `/` |
| Paths.Name | scripts/run_batch_quant.py:56 | the last component: an ending of the path with no `/`, either the whole path or preceded by a `/` |
| Paths.Parent | scripts/run_batch_quant.py:56 | a path without `/` has parent `.`; an entry of the root has parent `/`; otherwise the parent is the non-empty text before the last `/` |
| Paths.JoinPath | scripts/run_batch_quant.py:64 | `base / rel` is `rel` for the base `.`; otherwise it is the base, a `/` unless the base already ends with one, then `rel` |
| Paths.ParentJoinName | scripts/run_batch_quant.py:56-64 | joining a path's name onto its parent gives back the path |
| Paths.PathlibExamples | scripts/run_batch_quant.py:56-64 | `a/b` has parent `a` and name `b`, `/b` has parent `/`, `b` has parent `.`; `a` joined with `b` is `a/b` |
| Seqs.Filter | quantify_images.py:436 | a comprehension keeps exactly the elements passing the test and nothing else (order and multiplicity are `Seqs.FilterPicksSelection`) |
| Seqs.Selection | quantify_images.py:436 | the positions whose element passes the test: increasing, each passing, and every passing position |
| Seqs.FilterPicksSelection | quantify_images.py:436 | the `k`-th element kept is the element at the `k`-th passing position, so order and multiplicity are kept |
| Seqs.FilterFilter | src/imagej_mean_intensity.py:97-98 | two successive filters equal one filter on both tests |

## Left out

- Fiji/ImageJ itself, the subprocess calls and their probing, temporary files, prompts and printed messages. They are input and output with no rule to state. This also covers `run_fiji_macro`, `run_imagej`, `probe_fiji_headless`, the `prompt_*` functions, `gather_configuration`, `parse_args`, the `main` of `quantify_images.py` and `src/imagej_mean_intensity.py`, and `format_command`.
- Thresholding and measuring inside Fiji, including the Otsu branch and its `d2s` label. That work is not in the Python code.
- Rendering the macro templates and their `json.dumps` quoting. Only the extension list, the `allowed` array, the clamp, the manual label and the keep tests are modelled.
- The file system is given as inputs. Directory listings, `exists`, `is_dir` and `is_file` are given answers. `Path.resolve` is an oracle. `str(Path)` normalisation is not modelled, and `Paths.Parent` assumes paths without repeated or trailing slashes.
- ImageJ's `getFileList`, which lists the directory for both macros and leaves out names starting with a dot, is not modelled: the keep tests are stated for any name.
- FoundImagesPassShouldProcess: states that the keep test accepts every reported image, not that the macro opens it. A reported dot-name such as `.a.tif` (suffix `.tif`) is never listed by `getFileList`, so the macro does not open it; `getFileList` is not modelled.
- HiddenNamePassesButNotFound: states only that the keep test accepts `.tif`. The macro does not actually open such a file, because `getFileList` does not list dot-names.
- The macros' directory-entry checks (`endsWith(name, "/")`, `File.isDirectory`) are not modelled: the keep tests are stated for file names.
- CSV and pandas parsing are modelled only in part. For `load_results` the file is given as its lines, each cut at every comma; quoting is not modelled, so a quoted field keeps its quotes and a quoted comma splits it, and a quoted blank field (`"  "`) counts as a non-blank line, as in `pandas`. Line ends other than one per line and the `csv.DictReader` of `parse_results_csv` are not modelled: there the header and rows are inputs, as maps. Left out with them: the renaming of repeated header names in the file (`Image`, `Image.1`), `Unnamed` headers, rows longer than the header and dtype inference. `pd.read_csv` raising on a file with no non-blank row is `EmptyDataError`. Repeated names that arise from the `Label` rename are modelled, with `df[list]` selecting every position of each requested name.
- `write_excel` and the workbook layout of `export_to_excel` other than the summary rows are not modelled.
- Floating point is not modelled. Values are exact reals and NaN is `None`. `float()` parsing is an oracle.
- `QuantifyImages.SummaryRows`: reports the sample variance instead of `statistics.stdev`, its square root, because the model has no square root.
- `BatchQuant.QuantifyImage`: sums exact integers, not the float32 sum numpy computes. Pixels come as a decoded 8-bit grid, so PIL decoding and the grayscale conversion are not modelled.
- `BatchQuant.WriteResults`: keeps each number with its decimal places (`Fixed`) instead of the formatted text, because fixed-point rendering of floats is not modelled.
- `BatchQuant.RunBatchQuant`: the file system and the writer are parameters, and a write is one yes/no answer (`writeOk`). The list file's encoding and any read error other than a missing file are not modelled.
- `Text.Lower`: lower-cases ASCII letters only. `str.lower` and the macro's `toLowerCase` also fold other letters.
- `Text.Strip`: strips ASCII and Latin-1 whitespace, not every Unicode space.
- `MeanIntensity.ReadLiteral`: recognises only the `\\` and `\"` escapes of an IJ1 literal, the two that `ij1_escape` produces.
- `QuantifyImages.EnsureTrailingSeparator`: works on the path text; `str(path)` is taken as given.
