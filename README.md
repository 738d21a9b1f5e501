# WebP batch converter — a Dafny model

This project models `convert_images`, the one function of a small batch
converter. The function takes a directory of PNG and JPEG images and re-encodes
each one as WebP. The model covers the logic around the codec:

- **Format normalisation.** With no formats given, the list is
  `PNG, JPEG, JPG`. Every format is then lower-cased.
- **Candidate selection.** This is an order-preserving filter over the
  directory listing. It keeps an entry whose lower-cased name ends in `.`
  followed by one of the normalised formats.
- **Output names.** `os.path.splitext(name)[0] + '.webp'`. `splitext` follows
  the POSIX flavour of Python's `os.path`: the extension starts at the last
  `.` of the final path component, unless that component holds only dots
  before it.
- **The run.** The output directory is made first. The run then stops early
  when there are no candidates. Otherwise it visits every candidate with a
  1-based index, counts the successes and ends with a summary.

Three things are inputs to the model, not actions it performs:

- the directory listing (`listing: seq<string>`);
- whether the output directory already exists (`outputDirExists`);
- the per-file decode/encode/write/measure work, given as a `Codec` oracle
  `(inputPath, outputPath, quality) -> bool`. It answers whether that work
  finished without an exception.

A run produces a log of `Event`s, which are the observable steps in order:
directory made, "no images found", candidates found, one visit per file, and
the summary. `ConvertImages.Convert` is the imperative model of the function.
It has the same steps in the same order, and its loop is
`ConvertImages.VisitAll`. Its log is proved equal to the specification function
`RunLog`, and the lemmas about `RunSteps` (the body of `RunLog`) state the
promised properties.

Files:

- `text.dfy`: module `Text`, with ASCII lower-casing, `endswith` and `rfind`.
- `posix_path.dfy`: module `PosixPath`, with `os.path.join` of two components
  and `os.path.splitext`.
- `convert_images.dfy`: module `ConvertImages`, with formats, selection,
  output names, the run, and worked cases.

The output directory is created at `convert_images.py:27-28`, before the
zero-candidate check at lines 37-39. So a run with no candidates still creates
it: `MadeOutputDir` comes first whenever the directory was missing
(`ConvertImages.OutputDirMadeFirst`).

`convert_images` returns nothing on either path. `RunSummary` is the model's
own summary of how a run ended: it stopped early, or it reported so many
successes out of so many candidates.

Two candidates can share an output name. `a.png` and `a.jpg` are both written
as `a.webp`, so the second write replaces the first, yet the summary reports
2 of 2 (`ConvertImages.SharedOutputNameScenario`). This follows from the source
text at lines 53-68; the model states it and does not change it.

## Model

| member | source | states |
|---|---|---|
| ConvertImages.NormaliseFormats | convert_images.py:16-20 | each normalised format is lower case; with no formats the result is exactly `png, jpeg, jpg`; with formats given, the result has the same length and each entry is that format lower-cased |
| ConvertImages.NormaliseIgnoresCase | convert_images.py:20 | format lists that differ only in letter case normalise to the same list |
| ConvertImages.NormaliseIdempotent | convert_images.py:20 | normalising an already normalised list changes nothing |
| Text.LowerChar | convert_images.py:20 | a lowered character is never an upper-case ASCII letter; characters that are not upper-case letters are unchanged; a changed one moves by 32 code points |
| Text.Lower | convert_images.py:20 | `str.lower` keeps the length, lowers each character and yields lower-case text |
| Text.LowerIdempotent | convert_images.py:20 | lowering twice is lowering once |
| ConvertImages.AnyFormatMatches | convert_images.py:33 | the `any(...)` scan is true exactly when some format `fmt` has the lowered name ending in `"." + fmt` |
| ConvertImages.SelectCandidates | convert_images.py:31-35 | the number of candidates is at most the number of listing entries |
| ConvertImages.SelectionExact | convert_images.py:31-34 | a name is selected if and only if it is listed and its lower-cased form ends in `"." + fmt` for some normalised format |
| ConvertImages.SelectionIsSubsequence | convert_images.py:31-35 | the candidates are a subsequence of the listing (order kept, nothing added) and their multiset is contained in the listing's |
| ConvertImages.SelectionMultiplicity | convert_images.py:31-35 | each name occurs among the candidates exactly as often as in the listing when it matches, and never otherwise |
| ConvertImages.IsCandidateIgnoresNameCase | convert_images.py:33 | whether a name is selected depends only on its lower-cased form |
| ConvertImages.SelectionIgnoresFormatCase | convert_images.py:20-33 | formats given in any letter case select the same entries |
| ConvertImages.PhotoJpgSelected | convert_images.py:16-33 | `PHOTO.JPG` is selected with format `JPG`, with `jpg` and with the defaults |
| ConvertImages.GifOnlyScenario | convert_images.py:31-39 | with format `gif`, every listing whose entries all end in `.png` (in any letter case) has no candidates |
| ConvertImages.DefaultCandidates | convert_images.py:16-34 | under the defaults `a.png` and `b.jpg` are candidates and `c.txt` is not |
| ConvertImages.DefaultSelectionScenario | convert_images.py:31-35 | under the defaults `a.png, b.jpg, c.txt` selects exactly `a.png, b.jpg` |
| Text.LastIndexOf | convert_images.py:53 | `rfind` gives -1 or a position inside the string |
| Text.LastIndexOfMeaning | convert_images.py:53 | `rfind` gives a position holding the character with none after it, or -1 when the string contains the character nowhere |
| PosixPath.NonDotBetweenMeaning | convert_images.py:53 | the leading-dots scan of `splitext` succeeds exactly when the range holds a character other than `.` |
| PosixPath.SplitextParts | convert_images.py:53 | the root and extension concatenate back to the name; the extension is empty or a `.` followed by characters that are neither `.` nor `/` |
| PosixPath.SplitextMeaning | convert_images.py:53 | `splitext` finds an extension exactly when the final component has a last `.` preceded by some character that is not a `.`, and it splits at that `.` |
| ConvertImages.OutputNameEndsWithWebp | convert_images.py:53 | every output name ends with `.webp` after a prefix of the input name |
| ConvertImages.OutputNameReplacesExtension | convert_images.py:53 | for a stem without `/` that is not empty or all dots, and a format with no `.` or `/`, `stem + "." + fmt` becomes `stem + ".webp"` |
| ConvertImages.OutputNameKeepsDotOnlyName | convert_images.py:53 | when the stem is empty or only dots (`.png`), nothing is stripped and `.webp` is appended to the whole name |
| ConvertImages.TarPngOutputName | convert_images.py:53 | `a.tar.png` becomes `a.tar.webp` |
| ConvertImages.HiddenPngOutputName | convert_images.py:53 | `.png` becomes `.png.webp` |
| ConvertImages.DefaultNamesScenario | convert_images.py:53 | `a.png` and `b.jpg` are written as `a.webp` and `b.webp` |
| PosixPath.JoinBasename | convert_images.py:24 | for a component `b` without `/`, the text after the last `/` of `os.path.join(a, b)` is `b` again, and a non-empty `a` is kept in front |
| ConvertImages.OutputDirDefault | convert_images.py:22-24 | a given output directory is used as given; with none it is `inputDir + "/webp_converted"` for an input directory not ending in `/`, its final component is `webp_converted`, and the input directory comes first |
| ConvertImages.OutputPathNamesFile | convert_images.py:53-54 | a directory entry's output path lies under the output directory, and its final component is the entry's output name |
| ConvertImages.Convert | convert_images.py:5-74 | the run's log is `RunLog` of its arguments (directory made if missing, then either "no images" or found / visits / summary); the outcome is NothingToConvert with no candidates, else the success count and total |
| ConvertImages.VisitAll | convert_images.py:45-71 | the loop's events are exactly the visits of the candidates in order, and its counter is the number of candidates the codec converts |
| ConvertImages.ConvertOne | convert_images.py:47-71 | one file's step succeeds exactly when the codec does on its input path and its output path, and it reports the visit with that outcome |
| ConvertImages.VisitStep | convert_images.py:45-68 | one more iteration appends that file's visit and adds 1 to the count exactly when it succeeds |
| ConvertImages.VisitsLength | convert_images.py:46 | visiting a list of files gives one event per file |
| ConvertImages.VisitAt | convert_images.py:46 | the k-th visit is of the k-th candidate and carries index k + 1 |
| ConvertImages.VisitsAt | convert_images.py:46 | all visits at once: one per candidate, in order, with indices 1 to n |
| ConvertImages.CountsAddUp | convert_images.py:45-71 | successes plus failures equal the number of candidates, so the success count is at most the total |
| ConvertImages.VisitsRecordCounts | convert_images.py:64-71 | the success count equals the number of converted-file events, and the failure count the number of failed-file events |
| ConvertImages.OutputDirMadeFirst | convert_images.py:22-39 | the first event is MadeOutputDir exactly when the directory was missing, whether or not there are candidates, and no later event makes it |
| ConvertImages.NoCandidatesNoVisits | convert_images.py:37-39 | with no candidates the log ends with "no images found" and holds no Found event, no visit and no summary |
| ConvertImages.RunStepsShape | convert_images.py:41-74 | with candidates, the log is the setup, then Found, then one visit per candidate, then the summary with the success count |
| ConvertImages.VisitsInOrder | convert_images.py:46 | with candidates, the visit at log position start + k is of candidate k, with index k + 1 of n, and its outcome |
| ConvertImages.OnlyVisitsVisit | convert_images.py:46 | no visit appears outside the block that follows Found |
| ConvertImages.VisitResultMeaning | convert_images.py:47-71 | a visit reports "converted" exactly when the codec succeeds on that file, and then under its output name, which ends in `.webp` |
| ConvertImages.SummaryCounts | convert_images.py:45-73 | the summary's total is the number of candidates; its success count is at most the total and equals the converted events; total minus successes equals the failed events |
| ConvertImages.RunTotalsBounded | convert_images.py:31-73 | in every run's log, the totals of Found, of each visit and of the summary are at most the number of listing entries; each visit's index is between 1 and its total; the success count is at most the total |
| ConvertImages.TwoOfTwoScenario | convert_images.py:45-73 | two candidates that both convert give the summary 2 of 2 |
| ConvertImages.DefaultRunSteps | convert_images.py:27-73 | with `a.png` and `b.jpg` found, every conversion succeeding and the directory missing, the log is: directory made, Found 2, `a.png` written as `a.webp`, `b.jpg` written as `b.webp`, summary 2 of 2 |
| ConvertImages.DefaultRunScenario | convert_images.py:16-73 | a whole default run over `a.png, b.jpg, c.txt` in `in` makes `in/webp_converted`, converts the two images to `a.webp` and `b.webp`, and reports 2 of 2 |
| ConvertImages.SharedOutputNameScenario | convert_images.py:53-68 | `a.png` and `a.jpg` both get the output name `a.webp`, both visits report a conversion to it, and the summary counts 2 of 2 |
| ConvertImages.ZeroOfOneScenario | convert_images.py:45-73 | one failing `bad.png` is reported failed, and the summary is 0 of 1 |

## Left out

- Decoding and encoding (`Image.open`, `image.save`) are foreign codec calls. They are the `Codec` oracle, and its answer covers every `Exception` raised inside the `try` block, which is what line 70 catches.
- An exception that is not an `Exception` (such as `KeyboardInterrupt` or `SystemExit`), raised during a file's step, ends the batch with no summary. The model cannot express this: every visit is followed by the next one.
- The filesystem calls have no model. `os.listdir` is the `listing` parameter and `os.path.exists(output_dir)` is the `outputDirExists` parameter. `os.makedirs` appears only as the `MadeOutputDir` event, so a failing `makedirs` is not modelled. `os.path.getsize` is part of the oracle.
- The KB sizes and the percentage reduction are floating-point arithmetic and are not modelled. The division at line 62 fails only when the input's size, measured after the save (line 60), is zero; an input that is empty from the start already fails at `Image.open` (line 50). A zero-size division raises inside the `try` block, so the model treats it as one way the oracle reports failure, even though the WebP file has then already been written.
- Printed text and its formatting are not modelled. The log records which steps happen and their data (index, total, names, counts, quality), not the words.
- The command-line parsing and the hard-coded default path in the `__main__` block (lines 76-99) are outside the modelled function.
- Text.Lower: models `str.lower` on ASCII letters only. Python also lower-cases other Unicode letters, and some of them change length. That is left out because Dafny strings carry no Unicode case tables.
- PosixPath.Splitext and PosixPath.Join follow the POSIX flavour of `os.path`. Windows drive letters and backslash separators are not modelled.
- Quality is not range-checked by the source. The model passes it through to the oracle and the Found event.
