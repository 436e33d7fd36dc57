# image-analysis in Dafny

A Dafny model of the core of the image-analysis tool, a small batch
program. It finds the image files under a directory and analyses each one
(file name and size, width and height, aspect ratio, average colour,
number of faces). It then writes one CSV row per image. The model covers
three parts:

- **File extraction** (`FileExtractor.dfy`). The input directory must
  exist. Configured extensions are normalised to `.ext` in lower case. A
  recursive traversal is filtered to the regular files whose lower-cased
  suffix is a normalised extension, keeping traversal order. The traversal
  is an input: a sequence of entries, each a path plus whether it is a
  regular file.
- **Per-image analysis** (`Analyzer.dfy`). This covers the aspect-ratio
  string (Python's `Fraction` normalisation, or `N/A` for a zero height),
  the `#rrggbb` colour string, the face count and the assembly of one
  image's record. The record's keys are exactly `DATA_HEADERS`, or there
  is no record when the image is unreadable or a step raises. What OpenCV,
  Pillow, the face detector and `stat` report is an input
  (`Measurements`). Each of those steps may have raised instead.
- **CSV writing** (`CsvWriter.dfy`). `CSVWriter` is a class. Its
  destination and headers are fixed at construction. Its output file is
  the sequence of rows the file holds. `WriteData` replaces the contents
  with the header row, then one row per record `csv.DictWriter` accepts, in
  input order. A record with a key outside the headers is skipped.

`Pipeline.dfy` states what happens if a writer built with analyzer.py's
`DATA_HEADERS` is given only the records of successful analyses: every
one is written, its fields in column order. main.py builds its writer with
`DATA_HEADERS`, but what it passes to `write_data` comes from an
`ImageAnalyzer` class that is not part of this model. Supporting modules:

- `NumberTheory.dfy`: gcd, lowest terms and their uniqueness.
- `Text.dfy`: ASCII `lower`, `strip('.')`, `str` of an integer and its
  inverse, the `02x` format.
- `Paths.dfy`: `PurePath.name` and `PurePath.suffix`.
- `Seqs.dfy`: filter, map and subsequence.
- `Records.dfy`: record values.
- `Wrappers.dfy`: `Option` and `Result`.

For a uniform image of colour (12, 34, 56) the f-string of
image_analyzer/analyzer.py:18 gives `#0c2238`, since 56 is 0x38;
`Analyzer.AverageColorExample` proves it.

## Model

| member | source | states |
|---|---|---|
| FileExtractor.New | image_analyzer/file_extractor.py:16-27 | construction succeeds exactly when the input location is a directory; it keeps the location and extensions; otherwise the error names the location |
| FileExtractor.NormaliseExtension | image_analyzer/file_extractor.py:35 | a normalised extension is a dot, then text with no upper-case letter that neither begins nor ends with a dot |
| FileExtractor.NormaliseExtensionOf | image_analyzer/file_extractor.py:35 | any run of dots around a dot-free-ended middle is removed, and the middle is lower-cased |
| FileExtractor.NormaliseExtensionExamples | image_analyzer/file_extractor.py:35 | `jpg`, `.JPG` and `..jpg.` all normalise to `.jpg` |
| FileExtractor.NormaliseExtensionIdempotent | image_analyzer/file_extractor.py:35 | normalising a normalised extension changes nothing |
| FileExtractor.ValidExtensionsIgnoreCase | image_analyzer/file_extractor.py:35 | configured extensions that differ only in case give the same set of valid extensions |
| FileExtractor.GetFilePaths | image_analyzer/file_extractor.py:29-41 | the result has at most one path per traversal entry |
| FileExtractor.GetFilePathsInOrder | image_analyzer/file_extractor.py:37-41 | the returned paths are a subsequence of the traversal's paths, so traversal order is kept |
| FileExtractor.GetFilePathsSound | image_analyzer/file_extractor.py:39-40 | every returned path is a regular file of the traversal whose lower-cased suffix is a valid extension |
| FileExtractor.GetFilePathsComplete | image_analyzer/file_extractor.py:39-40 | every regular file of the traversal whose lower-cased suffix is a valid extension is returned |
| FileExtractor.GetFilePathsIgnoresExtensionCase | image_analyzer/file_extractor.py:35-40 | the result does not depend on the case of the configured extensions |
| FileExtractor.AcceptsIgnoresPathCase | image_analyzer/file_extractor.py:40 | a file is accepted exactly when its lower-cased path would be |
| FileExtractor.GetFilePathsOfLowered | image_analyzer/file_extractor.py:39-40 | lower-casing every traversal path selects the same entries and lower-cases the result |
| Paths.Name | image_analyzer/analyzer.py:81 | the name is a tail of the path that holds no separator |
| Paths.NameIsLastComponent | image_analyzer/analyzer.py:81 | the name is exactly what follows the last separator: it holds no separator, it is shorter than the path whenever the path has a separator, and then the character before it is a separator |
| Paths.Suffix | image_analyzer/file_extractor.py:40 | the suffix is empty, or a tail of the path that starts with a dot, holds no other dot and no separator, and is at least two characters long |
| Paths.SuffixOf | image_analyzer/file_extractor.py:40 | the suffix of `dir/stem.ext` is `.ext` when the stem is non-empty and the extension has no dot |
| Paths.SuffixOfLower | image_analyzer/file_extractor.py:40 | the suffix of the lower-cased path is the lower-cased suffix |
| Text.Lower | image_analyzer/file_extractor.py:35 | `lower()` keeps the length and maps each character by ASCII lower-casing |
| Text.LowerIsLower | image_analyzer/file_extractor.py:35 | the result has no upper-case letter, other characters are unchanged, and lower-casing is idempotent |
| Text.StripDots | image_analyzer/file_extractor.py:35 | `strip('.')` leaves text that neither begins nor ends with a dot and is no longer than the input |
| Text.StripDotsOf | image_analyzer/file_extractor.py:35 | `strip('.')` of dots + middle + dots, where the middle is not dot-ended, is the middle |
| Text.IntToStringRoundTrip | image_analyzer/analyzer.py:27 | `int(str(i)) == i` for every integer |
| Text.IntToStringInjective | image_analyzer/analyzer.py:27 | different integers have different decimal strings |
| Text.Hex2 | image_analyzer/analyzer.py:18 | `02x` of a byte is two lower-case hex digits whose value is the byte |
| NumberTheory.Reduce | image_analyzer/analyzer.py:26 | `Fraction(w, h)` for `h != 0` has a positive denominator, a numerator coprime to it and the ratio `w/h` |
| NumberTheory.LowestTermsUnique | image_analyzer/analyzer.py:26-27 | a ratio has only one lowest-terms form |
| Analyzer.AspectRatio | image_analyzer/analyzer.py:20-30 | the result is `N/A` exactly when the height is 0 |
| Analyzer.AspectRatioParses | image_analyzer/analyzer.py:26-27 | reading the string back as `n:d` gives the lowest-terms fraction; `N/A` reads back as nothing |
| Analyzer.AspectRatioLowestTerms | image_analyzer/analyzer.py:26-27 | for a non-zero height the string is `n:d` for the unique pair with `d > 0`, `gcd(abs(n), d) == 1` and `n/d == width/height` |
| Analyzer.AspectRatioByGcd | image_analyzer/analyzer.py:26-27 | for non-negative sizes with a positive height, the string is `width/g:height/g` with `g` their gcd |
| Analyzer.AspectRatioSameRatio | image_analyzer/analyzer.py:26-27 | two sizes with non-zero heights give the same string if and only if `w1*h2 == w2*h1` |
| Analyzer.AspectRatioScale | image_analyzer/analyzer.py:26-27 | scaling width and height by the same positive factor does not change the string |
| Analyzer.AspectRatioZeroWidth | image_analyzer/analyzer.py:26-27 | zero width over a positive height gives `0:1` |
| Analyzer.AverageColorHex | image_analyzer/analyzer.py:13-18 | the colour string has 7 characters: `#` and six lower-case hex digits |
| Analyzer.AverageColorRoundTrip | image_analyzer/analyzer.py:18 | the three channels can be read back from the string, in r, g, b order |
| Analyzer.AverageColorInjective | image_analyzer/analyzer.py:18 | different colours give different strings |
| Analyzer.AverageColorExample | image_analyzer/analyzer.py:18 | (12, 34, 56) is written `#0c2238` (56 is 0x38), and so not `#0c2236` |
| Analyzer.FaceCount | image_analyzer/analyzer.py:32-38 | the count is the number of detections when the detector returns some, and it is 0 exactly when it returns `None` or an empty list |
| Analyzer.ImageData | image_analyzer/analyzer.py:80-88 | the record's keys are exactly `DATA_HEADERS` |
| Analyzer.Analyze | image_analyzer/analyzer.py:53-98 | an image is analysed exactly when it is readable and no step raises; it is skipped as unreadable exactly when OpenCV returns no image; a record's keys are `DATA_HEADERS` |
| Analyzer.AnalyzeSingleImage | image_analyzer/analyzer.py:53-98 | the result is a record exactly when the image is readable and no step raises, otherwise `None`; the record's keys are exactly `DATA_HEADERS` |
| Analyzer.AnalyzedFields | image_analyzer/analyzer.py:71-88 | each field of a record is the corresponding measurement: the name, size, width and height, the aspect-ratio string of the width and height, the colour string and the face count |
| Analyzer.MissingFileSkipped | image_analyzer/analyzer.py:80-94 | a file that disappears before `stat` is skipped as missing and gives `None` |
| CsvWriter.RowOf | image_analyzer/csv_writer.py:54-59 | a written row has one cell per header, in header order: the record's value under that header, or "" when it has none |
| CsvWriter.Accepted | image_analyzer/csv_writer.py:57-62 | the written records are exactly the input records whose keys are all headers |
| CsvWriter.DataRowsAppend | image_analyzer/csv_writer.py:57-62 | each record adds its row, or nothing when DictWriter refuses it |
| CsvWriter.CSVWriter.constructor | image_analyzer/csv_writer.py:18-28 | the destination and headers are the given ones; the file is not touched |
| CsvWriter.CSVWriter.WriteData | image_analyzer/csv_writer.py:38-62 | the file holds exactly the header row, then the rows of the accepted records in input order, whatever it held before |
| CsvWriter.TableShape | image_analyzer/csv_writer.py:55-62 | the header row comes first, and the file has 1 + (accepted records) rows, so at most 1 + (input records) |
| CsvWriter.AcceptedInOrder | image_analyzer/csv_writer.py:57 | the records written are a subsequence of the input |
| CsvWriter.AllAccepted | image_analyzer/csv_writer.py:57-59 | when every record fits the headers, every record is written |
| CsvWriter.TableComplete | image_analyzer/csv_writer.py:57-59 | every record whose keys are all headers has its row in the file after the header |
| CsvWriter.TableSound | image_analyzer/csv_writer.py:57-59 | every row after the header is the row of some input record whose keys are all headers |
| CsvWriter.SkippedRecordWritesNothing | image_analyzer/csv_writer.py:60-62 | a refused record leaves the file as if it were absent, and the records after it are still written |
| CsvWriter.WriteDataTwice | image_analyzer/csv_writer.py:53 | writing the same data twice leaves the same file as writing it once |
| Pipeline.AnalyzedRecordIsWritten | main.py:26-27 | if the writer's headers are `DATA_HEADERS`, the record of a successful analysis fits them, and its row lists name, size, width, height, aspect ratio, colour and face count in that order |
| Pipeline.RowOfDataHeaders | main.py:26-27 | a record holding every header gets its values in `DATA_HEADERS` order |
| Pipeline.AnalyzedRecordsAllWritten | main.py:26-27 | if the writer's headers are `DATA_HEADERS` and it is given only records keyed by exactly `DATA_HEADERS` (as successful analyses are), they are all written, one row each after the header |

## Left out

- Image decoding, the RGB conversion and the 1x1 resize: Pillow and OpenCV are not modelled. Their results (the shape, the averaged pixel, or an exception) are `Measurements` inputs.
- The face detector: the model file, the global `face_detector`, `initialize_worker` and `setInputSize` are outside the model. The detector's second result is an input.
- File system effects are inputs or left out. This covers `is_dir`, `rglob`, `is_file`, `stat`, creating the output directory (`_prepare_directory`), opening the file, and the re-raised `PermissionError` and `IOError` of `write_data` (image_analyzer/csv_writer.py:63-68).
- `CsvWriter.CSVWriter.WriteData`: the file is its sequence of rows. CSV quoting, the delimiter and line endings are not modelled, and `data` is a finite sequence rather than a lazy iterable.
- `Text.Lower`: only ASCII letters are lower-cased. Python's Unicode case mapping is not modelled.
- `Paths.Suffix`: follows `PurePath.suffix` for '/'-separated paths. Windows separators and drive letters are not modelled.
- `Analyzer.AnalyzeSingleImage`: logging is left out. The messages do not change the result.
- Logging elsewhere is left out too: the zero-height warning of `calculate_aspect_ratio` (image_analyzer/analyzer.py:29) and the skipped-row warning of `write_data` (image_analyzer/csv_writer.py:61). Neither changes a result.
- `Path(...)` normalisation (image_analyzer/file_extractor.py:23, image_analyzer/csv_writer.py:25) is not modelled: paths are raw '/'-separated strings, so a doubled `//` or a trailing `/` is kept as given rather than collapsed.
- `Pipeline.AnalyzedRecordIsWritten`: assumes two things main.py does not show. First, the writer's headers are analyzer.py's `DATA_HEADERS`; main.py reads them from `ImageAnalyzer`, which analyzer.py does not define. Second, only records reach `write_data`, never the `None` of a skipped analysis. A `None` would make DictWriter raise `AttributeError`, which `write_data` does not catch (it catches only `ValueError`, image_analyzer/csv_writer.py:60), so the run would abort; that path is not modelled.
- image_analyzer/config_reader.py and the command-line handling of main.py are not part of this model. main.py uses an `ImageAnalyzer` class that image_analyzer/analyzer.py does not define, so the step that feeds the analysis results to the writer is not modelled.
- Integer widths: Python integers are unbounded, and so are Dafny's, so there is nothing to wrap.
