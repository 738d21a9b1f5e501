/**
 The batch converter `convert_images`: which formats are accepted, which
 directory entries are converted, what each output file is called, and the
 loop that visits the candidates and counts the successful conversions.

 The directory listing, the existence of the output directory and the
 decode/encode/write work for one file are inputs: the listing is a
 sequence of names, existence a boolean, and the per-file work a `Codec`
 oracle that says whether the work for one file finished without an
 exception.
 */
module ConvertImages {
  import opened Text
  import opened PosixPath

  datatype Option<T> = None | Some(value: T)

  /** Formats used when the caller gives none. */
  const DefaultFormats: seq<string> := ["PNG", "JPEG", "JPG"]
  /** Name of the output directory made beneath the input directory by default. */
  const OutputDirName: string := "webp_converted"
  /** Extension given to every output file. */
  const WebpExtension: string := ".webp"

  // ---------------------------------------------------------------------
  // Format normalisation

  /** The accepted formats: the default list when none is given, lowered. */
  function NormaliseFormats(formats: Option<seq<string>>): (r: seq<string>)
    ensures forall i :: 0 <= i < |r| ==> IsLower(r[i])
    ensures formats.None? ==> r == ["png", "jpeg", "jpg"]
    ensures formats.Some? ==> |r| == |formats.value|
    ensures formats.Some? ==> forall i :: 0 <= i < |r| ==> r[i] == Lower(formats.value[i])
  {
    var given := if formats.None? then DefaultFormats else formats.value;
    var r := seq(|given|, i requires 0 <= i < |given| => Lower(given[i]));
    assert formats.None? ==> r == ["png", "jpeg", "jpg"] by {
      if formats.None? {
        assert r[0] == "png" && r[1] == "jpeg" && r[2] == "jpg";
      }
    }
    r
  }

  /** Normalising formats that differ only in letter case gives the same list. */
  lemma {:induction false} NormaliseIgnoresCase(fs: seq<string>, gs: seq<string>)
    requires |fs| == |gs|
    requires forall i :: 0 <= i < |fs| ==> Lower(fs[i]) == Lower(gs[i])
    ensures NormaliseFormats(Some(fs)) == NormaliseFormats(Some(gs))
  {
  }

  /** Normalising an already normalised list changes nothing. */
  lemma {:induction false} NormaliseIdempotent(formats: Option<seq<string>>)
    ensures NormaliseFormats(Some(NormaliseFormats(formats))) == NormaliseFormats(formats)
  {
    var r := NormaliseFormats(formats);
    forall i | 0 <= i < |r| ensures Lower(r[i]) == r[i] {
      LowerOfLower(r[i]);
    }
  }

  // ---------------------------------------------------------------------
  // Candidate selection

  /** `any(lowered.endswith('.' + fmt) for fmt in formats)`. */
  function AnyFormatMatches(lowered: string, formats: seq<string>): (b: bool)
    ensures b <==> exists i :: 0 <= i < |formats| && EndsWith(lowered, "." + formats[i])
  {
    if formats == [] then false
    else if EndsWith(lowered, "." + formats[0]) then true
    else
      var rest := AnyFormatMatches(lowered, formats[1..]);
      assert forall i :: 1 <= i < |formats| ==> formats[i] == formats[1..][i - 1];
      rest
  }

  /** A directory entry is a candidate when its lowered name ends in '.' and an accepted format. */
  predicate IsCandidate(name: string, formats: seq<string>) {
    AnyFormatMatches(Lower(name), formats)
  }

  /** The order-preserving filter of the listing by IsCandidate. */
  function SelectCandidates(listing: seq<string>, formats: seq<string>): (r: seq<string>)
    ensures |r| <= |listing|
  {
    if listing == [] then []
    else
      var rest := SelectCandidates(listing[1..], formats);
      if IsCandidate(listing[0], formats) then [listing[0]] + rest else rest
  }

  /** Selection is exact: an entry is selected if and only if it is listed and is a candidate. */
  lemma {:induction false} SelectionExact(listing: seq<string>, formats: seq<string>, x: string)
    ensures x in SelectCandidates(listing, formats)
            <==> x in listing && exists i :: 0 <= i < |formats| && EndsWith(Lower(x), "." + formats[i])
  {
    if listing != [] {
      SelectionExact(listing[1..], formats, x);
      assert x in listing <==> x == listing[0] || x in listing[1..];
    }
  }

  /** `sub` is `s` with some elements dropped and the rest in their order. */
  predicate IsSubsequence(sub: seq<string>, s: seq<string>)
    decreases |s|
  {
    if sub == [] then true
    else if s == [] then false
    else if sub[0] == s[0] then IsSubsequence(sub[1..], s[1..])
    else IsSubsequence(sub, s[1..])
  }

  /** A subsequence holds each value at most as often as the whole sequence. */
  lemma {:induction false} SubsequenceMultiset(sub: seq<string>, s: seq<string>)
    requires IsSubsequence(sub, s)
    ensures multiset(sub) <= multiset(s)
    decreases |s|
  {
    if sub == [] {
    } else if sub[0] == s[0] {
      SubsequenceMultiset(sub[1..], s[1..]);
      assert sub == [sub[0]] + sub[1..];
      assert s == [s[0]] + s[1..];
    } else {
      SubsequenceMultiset(sub, s[1..]);
      assert s == [s[0]] + s[1..];
    }
  }

  /** Selection keeps the listing's order and adds nothing. */
  lemma {:induction false} SelectionIsSubsequence(listing: seq<string>, formats: seq<string>)
    ensures IsSubsequence(SelectCandidates(listing, formats), listing)
    ensures multiset(SelectCandidates(listing, formats)) <= multiset(listing)
  {
    if listing != [] {
      SelectionIsSubsequence(listing[1..], formats);
      var rest := SelectCandidates(listing[1..], formats);
      if !IsCandidate(listing[0], formats) && rest != [] {
        // the head of rest is a candidate, so it is not the skipped entry
        SelectionExact(listing[1..], formats, rest[0]);
        assert rest[0] != listing[0];
      }
    }
    SubsequenceMultiset(SelectCandidates(listing, formats), listing);
  }

  /** Each value is selected exactly as often as it is listed, when it is a candidate, and never otherwise. */
  lemma {:induction false} SelectionMultiplicity(listing: seq<string>, formats: seq<string>, x: string)
    ensures multiset(SelectCandidates(listing, formats))[x]
            == if IsCandidate(x, formats) then multiset(listing)[x] else 0
  {
    if listing != [] {
      SelectionMultiplicity(listing[1..], formats, x);
      assert listing == [listing[0]] + listing[1..];
    }
  }

  /** Whether a name is selected depends only on its lower-cased form. */
  lemma IsCandidateIgnoresNameCase(name: string, formats: seq<string>)
    ensures IsCandidate(name, formats) == IsCandidate(Lower(name), formats)
  {
    LowerIdempotent(name);
  }

  /** Formats given in upper, lower or mixed case select the same entries. */
  lemma SelectionIgnoresFormatCase(listing: seq<string>, fs: seq<string>, gs: seq<string>)
    requires |fs| == |gs|
    requires forall i :: 0 <= i < |fs| ==> Lower(fs[i]) == Lower(gs[i])
    ensures SelectCandidates(listing, NormaliseFormats(Some(fs)))
            == SelectCandidates(listing, NormaliseFormats(Some(gs)))
  {
    NormaliseIgnoresCase(fs, gs);
  }

  // ---------------------------------------------------------------------
  // Output names

  /** `os.path.splitext(name)[0] + '.webp'`. */
  function OutputName(name: string): string {
    Splitext(name).0 + WebpExtension
  }

  /** Every output name ends in ".webp" after a prefix of the input name. */
  lemma OutputNameEndsWithWebp(name: string)
    ensures EndsWith(OutputName(name), WebpExtension)
    ensures var stem := OutputName(name)[..|OutputName(name)| - |WebpExtension|];
            |stem| <= |name| && stem == name[..|stem|]
  {
    SplitextParts(name);
    var r := OutputName(name);
    assert r[..|r| - |WebpExtension|] == Splitext(name).0;
  }

  /** A stem with a character other than '.' followed by '.' and a dot-free format: the format is replaced. */
  lemma {:induction false} OutputNameReplacesExtension(stem: string, fmt: string)
    requires Sep !in stem && Sep !in fmt && ExtSep !in fmt
    requires exists k :: 0 <= k < |stem| && stem[k] != ExtSep
    ensures OutputName(stem + [ExtSep] + fmt) == stem + WebpExtension
  {
    var p := stem + [ExtSep] + fmt;
    var k :| 0 <= k < |stem| && stem[k] != ExtSep;
    assert p[k] == stem[k];
    assert forall j :: k < j < |stem| ==> p[j] == stem[j];
    assert forall j :: |stem| < j < |p| ==> p[j] == fmt[j - |stem| - 1];
    assert ExtensionAt(p, |stem|);
    SplitextMeaning(p);
    assert p[..|stem|] == stem;
  }

  /** A name whose stem is only dots, such as ".png", has no extension: ".webp" is appended to all of it. */
  lemma {:induction false} OutputNameKeepsDotOnlyName(dots: string, fmt: string)
    requires forall k :: 0 <= k < |dots| ==> dots[k] == ExtSep
    requires Sep !in fmt && ExtSep !in fmt
    ensures OutputName(dots + [ExtSep] + fmt) == dots + [ExtSep] + fmt + WebpExtension
  {
    var p := dots + [ExtSep] + fmt;
    SplitextMeaning(p);
  }

  // ---------------------------------------------------------------------
  // The conversion run

  /**
   The work for one file: decode `inputPath`, encode it as WebP at `quality`
   into `outputPath`, and measure both sizes.  True when all of that
   finished without an exception.
   */
  type Codec = (string, string, int) -> bool

  /** Settings fixed for one run. */
  datatype Job = Job(inputDir: string, outputDir: string, quality: int)

  /** What happened to one visited candidate. */
  datatype FileResult = Converted(target: string) | Failed

  /** The observable steps of a run, in the order they happen. */
  datatype Event =
    | MadeOutputDir(path: string)
    | NoImagesFound(formats: seq<string>)
    | Found(total: nat, quality: int)
    | Visited(index: nat, total: nat, source: string, result: FileResult)
    | Finished(successCount: nat, total: nat, outputDir: string)

  /**
   The model's summary of how a run ended (`convert_images` itself returns
   nothing): it stopped with no candidates, or it reported `successCount`
   conversions out of `total` candidates.
   */
  datatype RunSummary = NothingToConvert | Completed(successCount: nat, total: nat)

  /** The output directory: the one given, or `webp_converted` beneath the input directory. */
  function OutputDirOf(inputDir: string, outputDir: Option<string>): string {
    if outputDir.Some? then outputDir.value else Join(inputDir, OutputDirName)
  }

  /**
   A given output directory is used as it is; by default the output goes to
   `webp_converted` inside the input directory, whose final component it is.
   */
  lemma OutputDirDefault(inputDir: string, outputDir: Option<string>)
    ensures outputDir.Some? ==> OutputDirOf(inputDir, outputDir) == outputDir.value
    ensures outputDir.None? && inputDir != [] && inputDir[|inputDir| - 1] != Sep ==>
              OutputDirOf(inputDir, outputDir) == inputDir + "/" + OutputDirName
    ensures outputDir.None? ==>
              var d := OutputDirOf(inputDir, outputDir);
              && d[LastIndexOf(d, Sep) + 1..] == OutputDirName
              && (inputDir != [] ==> |inputDir| <= |d| && d[..|inputDir|] == inputDir)
  {
    if outputDir.None? {
      JoinBasename(inputDir, OutputDirName);
    }
  }

  /** Whether the codec succeeds on the candidate `filename`. */
  predicate Succeeds(job: Job, codec: Codec, filename: string) {
    codec(Join(job.inputDir, filename), Join(job.outputDir, OutputName(filename)), job.quality)
  }

  /** The event for the visit with 1-based position `index`. */
  function VisitOf(job: Job, codec: Codec, index: nat, total: nat, filename: string): Event {
    Visited(index, total, filename, ResultOf(job, codec, filename))
  }

  /** The outcome reported for `filename`: its output name when the codec succeeds, failure otherwise. */
  function ResultOf(job: Job, codec: Codec, filename: string): FileResult {
    if Succeeds(job, codec, filename) then Converted(OutputName(filename)) else Failed
  }

  /**
   A directory entry's output file is written inside the output directory
   under its output name: the final component of the output path is
   OutputName(filename).
   */
  lemma OutputPathNamesFile(job: Job, filename: string)
    requires Sep !in filename
    ensures var path := Join(job.outputDir, OutputName(filename));
            && path[LastIndexOf(path, Sep) + 1..] == OutputName(filename)
            && (job.outputDir != [] ==> |job.outputDir| <= |path| && path[..|job.outputDir|] == job.outputDir)
  {
    SplitextParts(filename);
    var root := Splitext(filename).0;
    assert forall i :: 0 <= i < |root| ==> root[i] == filename[i];
    assert Sep !in OutputName(filename) by {
      assert OutputName(filename) == root + WebpExtension;
    }
    JoinBasename(job.outputDir, OutputName(filename));
  }

  /** The events of visiting `files` in order, numbered from 1. */
  function Visits(job: Job, codec: Codec, files: seq<string>, total: nat): seq<Event>
    decreases |files|
  {
    if files == [] then []
    else Visits(job, codec, files[..|files| - 1], total)
         + [VisitOf(job, codec, |files|, total, files[|files| - 1])]
  }

  /** How many of `files` the codec converts. */
  function SuccessCount(job: Job, codec: Codec, files: seq<string>): nat
    decreases |files|
  {
    if files == [] then 0
    else SuccessCount(job, codec, files[..|files| - 1])
         + (if Succeeds(job, codec, files[|files| - 1]) then 1 else 0)
  }

  /** How many of `files` the codec fails on. */
  function FailureCount(job: Job, codec: Codec, files: seq<string>): nat
    decreases |files|
  {
    if files == [] then 0
    else FailureCount(job, codec, files[..|files| - 1])
         + (if Succeeds(job, codec, files[|files| - 1]) then 0 else 1)
  }

  /** How many events of `log` record a converted file. */
  function ConvertedEvents(log: seq<Event>): nat
    decreases |log|
  {
    if log == [] then 0
    else ConvertedEvents(log[..|log| - 1])
         + (if log[|log| - 1].Visited? && log[|log| - 1].result.Converted? then 1 else 0)
  }

  /** How many events of `log` record a failed file. */
  function FailedEvents(log: seq<Event>): nat
    decreases |log|
  {
    if log == [] then 0
    else FailedEvents(log[..|log| - 1])
         + (if log[|log| - 1].Visited? && log[|log| - 1].result.Failed? then 1 else 0)
  }

  /** The settings the run resolves from its arguments. */
  function JobOf(inputDir: string, outputDir: Option<string>, quality: int): Job {
    Job(inputDir, OutputDirOf(inputDir, outputDir), quality)
  }

  /** The directory is made first, and only when it does not exist. */
  function SetupLog(job: Job, outputDirExists: bool): seq<Event> {
    if outputDirExists then [] else [MadeOutputDir(job.outputDir)]
  }

  /**
   The steps of a run once its settings, formats and candidates are known:
   the output directory is made (when missing) before the candidates are
   counted; with none the run reports so and stops; otherwise every
   candidate is visited in order and a summary closes the run.
   */
  function RunSteps(job: Job, fmts: seq<string>, candidates: seq<string>,
                    outputDirExists: bool, codec: Codec): seq<Event>
  {
    SetupLog(job, outputDirExists) + AfterSetup(job, fmts, candidates, codec)
  }

  /** The steps after the output directory is settled. */
  function AfterSetup(job: Job, fmts: seq<string>, candidates: seq<string>, codec: Codec): seq<Event> {
    if |candidates| == 0 then [NoImagesFound(fmts)]
    else [Found(|candidates|, job.quality)] + Visits(job, codec, candidates, |candidates|)
         + [Finished(SuccessCount(job, codec, candidates), |candidates|, job.outputDir)]
  }

  /** Everything a run of `convert_images` does, in order. */
  function RunLog(inputDir: string, outputDir: Option<string>, quality: int,
                  formats: Option<seq<string>>, listing: seq<string>,
                  outputDirExists: bool, codec: Codec): seq<Event>
  {
    var fmts := NormaliseFormats(formats);
    RunSteps(JobOf(inputDir, outputDir, quality), fmts, SelectCandidates(listing, fmts),
             outputDirExists, codec)
  }

  /**
   `convert_images(input_dir, output_dir, quality, formats)` run over a
   directory whose entries are `listing`, whose output directory exists
   when `outputDirExists`, and whose per-file work `codec` decides.
   */
  method Convert(inputDir: string, outputDir: Option<string>, quality: int,
                 formats: Option<seq<string>>, listing: seq<string>,
                 outputDirExists: bool, codec: Codec)
    returns (log: seq<Event>, outcome: RunSummary)
    ensures log == RunLog(inputDir, outputDir, quality, formats, listing, outputDirExists, codec)
    ensures var job := JobOf(inputDir, outputDir, quality);
            var candidates := SelectCandidates(listing, NormaliseFormats(formats));
            outcome == if candidates == [] then NothingToConvert
                       else Completed(SuccessCount(job, codec, candidates), |candidates|)
  {
    var fmts := NormaliseFormats(formats);
    var outDir := OutputDirOf(inputDir, outputDir);
    var job := Job(inputDir, outDir, quality);

    log := [];
    if !outputDirExists {
      log := log + [MadeOutputDir(outDir)];
    }
    assert log == SetupLog(job, outputDirExists);

    var imageFiles := SelectCandidates(listing, fmts);
    var totalFiles := |imageFiles|;
    if totalFiles == 0 {
      log := log + [NoImagesFound(fmts)];
      return log, NothingToConvert;
    }
    var visits, successCount := VisitAll(job, codec, imageFiles);
    log := log + ([Found(totalFiles, quality)] + visits + [Finished(successCount, totalFiles, outDir)]);
    outcome := Completed(successCount, totalFiles);
  }

  /**
   The `for index, filename in enumerate(image_files, 1)` loop: visits the
   candidates in order, numbering them from 1, and counts the successes.
   */
  method VisitAll(job: Job, codec: Codec, imageFiles: seq<string>)
    returns (visits: seq<Event>, successCount: nat)
    ensures visits == Visits(job, codec, imageFiles, |imageFiles|)
    ensures successCount == SuccessCount(job, codec, imageFiles)
  {
    var totalFiles := |imageFiles|;
    visits := [];
    successCount := 0;
    var i := 0;
    assert imageFiles[..0] == [];
    while i < totalFiles
      invariant 0 <= i <= totalFiles
      invariant successCount == SuccessCount(job, codec, imageFiles[..i])
      invariant visits == Visits(job, codec, imageFiles[..i], totalFiles)
    {
      var event, ok := ConvertOne(job, codec, i + 1, totalFiles, imageFiles[i]);
      VisitStep(job, codec, imageFiles, totalFiles, i);
      visits := visits + [event];
      if ok {
        successCount := successCount + 1;
      }
      i := i + 1;
    }
    assert imageFiles[..totalFiles] == imageFiles;
  }

  /**
   The body of the loop for one file (the `try` block): open the input,
   derive the output name, let the codec write it, and report the result.
   */
  method ConvertOne(job: Job, codec: Codec, index: nat, total: nat, filename: string)
    returns (event: Event, ok: bool)
    ensures ok == Succeeds(job, codec, filename)
    ensures event == VisitOf(job, codec, index, total, filename)
    ensures event.Visited? && event.index == index && event.source == filename
    ensures ok <==> event.result == Converted(OutputName(filename))
  {
    var inputPath := Join(job.inputDir, filename);
    var outputFilename := OutputName(filename);
    var outputPath := Join(job.outputDir, outputFilename);
    ok := codec(inputPath, outputPath, job.quality);
    if ok {
      event := Visited(index, total, filename, Converted(outputFilename));
    } else {
      event := Visited(index, total, filename, Failed);
    }
  }

  /** One more iteration: visiting one more file appends its visit and adds its success. */
  lemma VisitStep(job: Job, codec: Codec, files: seq<string>, total: nat, i: nat)
    requires i < |files|
    ensures Visits(job, codec, files[..i + 1], total)
            == Visits(job, codec, files[..i], total) + [VisitOf(job, codec, i + 1, total, files[i])]
    ensures SuccessCount(job, codec, files[..i + 1])
            == SuccessCount(job, codec, files[..i]) + if Succeeds(job, codec, files[i]) then 1 else 0
  {
    assert files[..i + 1][..i] == files[..i];
  }

  // ---------------------------------------------------------------------
  // Properties of a run

  /** Visiting `files` gives one event per file. */
  lemma {:induction false} VisitsLength(job: Job, codec: Codec, files: seq<string>, total: nat)
    ensures |Visits(job, codec, files, total)| == |files|
    decreases |files|
  {
    if files != [] {
      VisitsLength(job, codec, files[..|files| - 1], total);
    }
  }

  /** The k-th visit is of the k-th file and is numbered k + 1. */
  lemma {:induction false} VisitAt(job: Job, codec: Codec, files: seq<string>, total: nat, k: nat)
    requires k < |files|
    ensures |Visits(job, codec, files, total)| == |files|
    ensures Visits(job, codec, files, total)[k] == VisitOf(job, codec, k + 1, total, files[k])
    decreases |files|
  {
    var init := files[..|files| - 1];
    VisitsLength(job, codec, files, total);
    VisitsLength(job, codec, init, total);
    if k < |init| {
      VisitAt(job, codec, init, total, k);
      assert init[k] == files[k];
    }
  }

  /** All visits at once: one event per file, in order, the k-th numbered k + 1. */
  lemma VisitsAt(job: Job, codec: Codec, files: seq<string>, total: nat)
    ensures |Visits(job, codec, files, total)| == |files|
    ensures forall k :: 0 <= k < |files| ==>
              Visits(job, codec, files, total)[k] == VisitOf(job, codec, k + 1, total, files[k])
  {
    VisitsLength(job, codec, files, total);
    forall k | 0 <= k < |files|
      ensures Visits(job, codec, files, total)[k] == VisitOf(job, codec, k + 1, total, files[k])
    {
      VisitAt(job, codec, files, total, k);
    }
  }

  /** Every visited file either succeeds or fails: the two counts add up to the number of files. */
  lemma {:induction false} CountsAddUp(job: Job, codec: Codec, files: seq<string>)
    ensures SuccessCount(job, codec, files) + FailureCount(job, codec, files) == |files|
    ensures SuccessCount(job, codec, files) <= |files|
    decreases |files|
  {
    if files != [] {
      CountsAddUp(job, codec, files[..|files| - 1]);
    }
  }

  /** The success count equals the number of converted-file events the visits record, and likewise for failures. */
  lemma {:induction false} VisitsRecordCounts(job: Job, codec: Codec, files: seq<string>, total: nat)
    ensures ConvertedEvents(Visits(job, codec, files, total)) == SuccessCount(job, codec, files)
    ensures FailedEvents(Visits(job, codec, files, total)) == FailureCount(job, codec, files)
    decreases |files|
  {
    if files != [] {
      var init := files[..|files| - 1];
      VisitsRecordCounts(job, codec, init, total);
      var v := Visits(job, codec, files, total);
      assert v[..|v| - 1] == Visits(job, codec, init, total);
    }
  }

  /** Event counts over a concatenation are sums. */
  lemma {:induction false} EventCountsAppend(a: seq<Event>, b: seq<Event>)
    ensures ConvertedEvents(a + b) == ConvertedEvents(a) + ConvertedEvents(b)
    ensures FailedEvents(a + b) == FailedEvents(a) + FailedEvents(b)
    decreases |b|
  {
    if b != [] {
      EventCountsAppend(a, b[..|b| - 1]);
      assert (a + b)[..|a + b| - 1] == a + b[..|b| - 1];
      assert (a + b)[|a + b| - 1] == b[|b| - 1];
    } else {
      assert a + b == a;
    }
  }

  /** Events that are not visits count neither as converted nor as failed. */
  lemma NonVisitCountsZero(e: Event)
    requires !e.Visited?
    ensures ConvertedEvents([e]) == 0 && FailedEvents([e]) == 0
  {
    assert [e][..0] == [];
  }

  /**
   The output directory is made before the check for candidates: the first
   event is MadeOutputDir exactly when the directory did not exist, whether
   or not any candidate is found, and no later event makes it again.
   */
  lemma {:induction false} OutputDirMadeFirst(job: Job, fmts: seq<string>, candidates: seq<string>,
                                              outputDirExists: bool, codec: Codec)
    ensures var log := RunSteps(job, fmts, candidates, outputDirExists, codec);
            && |log| >= 2 - (if outputDirExists then 1 else 0)
            && (log[0] == MadeOutputDir(job.outputDir) <==> !outputDirExists)
            && forall k :: 0 < k < |log| ==> !log[k].MadeOutputDir?
  {
    if candidates != [] {
      VisitsAt(job, codec, candidates, |candidates|);
      RunStepsShape(job, fmts, candidates, outputDirExists, codec);
    }
  }

  /** With no candidates the run stops after reporting so: no file is visited and no summary is given. */
  lemma NoCandidatesNoVisits(job: Job, fmts: seq<string>, outputDirExists: bool, codec: Codec)
    ensures var log := RunSteps(job, fmts, [], outputDirExists, codec);
            && log[|log| - 1] == NoImagesFound(fmts)
            && forall k :: 0 <= k < |log| ==> !log[k].Visited? && !log[k].Finished? && !log[k].Found?
  {
  }

  /** With candidates, the log is the setup, the Found event, the visits and the summary. */
  lemma RunStepsShape(job: Job, fmts: seq<string>, candidates: seq<string>,
                      outputDirExists: bool, codec: Codec)
    requires candidates != []
    ensures var log := RunSteps(job, fmts, candidates, outputDirExists, codec);
            var start := if outputDirExists then 1 else 2;
            var visits := Visits(job, codec, candidates, |candidates|);
            && |log| == start + |candidates| + 1
            && log[start - 1] == Found(|candidates|, job.quality)
            && (forall k :: 0 <= k < |candidates| ==> log[start + k] == visits[k])
            && log[|log| - 1] == Finished(SuccessCount(job, codec, candidates), |candidates|, job.outputDir)
  {
    var visits := Visits(job, codec, candidates, |candidates|);
    VisitsLength(job, codec, candidates, |candidates|);
    LogLayout(SetupLog(job, outputDirExists), Found(|candidates|, job.quality), visits,
              Finished(SuccessCount(job, codec, candidates), |candidates|, job.outputDir));
  }

  /** Where each part of a log made of a setup, one event, a block and a last event lies. */
  lemma LogLayout(setup: seq<Event>, first: Event, block: seq<Event>, last: Event)
    ensures var log := setup + ([first] + block + [last]);
            && |log| == |setup| + |block| + 2
            && log[|setup|] == first
            && (forall k :: 0 <= k < |block| ==> log[|setup| + 1 + k] == block[k])
            && log[|log| - 1] == last
  {
  }

  /**
   With candidates, every candidate is visited exactly once, in order, with
   indices 1 to total, between the Found event and the summary.
   */
  lemma {:induction false} VisitsInOrder(job: Job, fmts: seq<string>, candidates: seq<string>,
                                         outputDirExists: bool, codec: Codec, k: nat)
    requires k < |candidates|
    ensures var log := RunSteps(job, fmts, candidates, outputDirExists, codec);
            var start := if outputDirExists then 1 else 2;
            && |log| == start + |candidates| + 1
            && log[start + k] == Visited(k + 1, |candidates|, candidates[k], ResultOf(job, codec, candidates[k]))
  {
    var log := RunSteps(job, fmts, candidates, outputDirExists, codec);
    var start := if outputDirExists then 1 else 2;
    RunStepsShape(job, fmts, candidates, outputDirExists, codec);
    VisitAt(job, codec, candidates, |candidates|, k);
  }

  /** Outside the block of visits the log holds no visit. */
  lemma {:induction false} OnlyVisitsVisit(job: Job, fmts: seq<string>, candidates: seq<string>,
                                           outputDirExists: bool, codec: Codec, k: nat)
    ensures var log := RunSteps(job, fmts, candidates, outputDirExists, codec);
            var start := if outputDirExists then 1 else 2;
            k < |log| && log[k].Visited? ==> start <= k < start + |candidates|
  {
    if candidates != [] {
      RunStepsShape(job, fmts, candidates, outputDirExists, codec);
    }
  }

  /** A visit reports the file converted, under its output name, exactly when the codec succeeds on it. */
  lemma VisitResultMeaning(job: Job, codec: Codec, index: nat, total: nat, filename: string)
    ensures var e := VisitOf(job, codec, index, total, filename);
            && (e.result.Converted? <==> Succeeds(job, codec, filename))
            && (e.result.Converted? ==> e.result.target == OutputName(filename)
                                        && EndsWith(e.result.target, WebpExtension))
  {
    OutputNameEndsWithWebp(filename);
  }

  /**
   The summary reports `successCount` of `total`: total is the number of
   candidates, successCount is at most total, equals the converted-file
   events of the log, and total minus successCount equals the failed-file
   events.
   */
  lemma {:induction false} SummaryCounts(job: Job, fmts: seq<string>, candidates: seq<string>,
                                         outputDirExists: bool, codec: Codec)
    requires candidates != []
    ensures var log := RunSteps(job, fmts, candidates, outputDirExists, codec);
            var last := log[|log| - 1];
            && last.Finished?
            && last.total == |candidates|
            && last.successCount <= last.total
            && last.successCount == ConvertedEvents(log)
            && last.total - last.successCount == FailedEvents(log)
            && last.outputDir == job.outputDir
  {
    var total := |candidates|;
    var setup := SetupLog(job, outputDirExists);
    var found := [Found(total, job.quality)];
    var visits := Visits(job, codec, candidates, total);
    var fin := [Finished(SuccessCount(job, codec, candidates), total, job.outputDir)];
    CountsAddUp(job, codec, candidates);
    VisitsRecordCounts(job, codec, candidates, total);
    EventCountsAppend(found, visits);
    EventCountsAppend(found + visits, fin);
    EventCountsAppend(setup, found + visits + fin);
    if !outputDirExists {
      NonVisitCountsZero(MadeOutputDir(job.outputDir));
    } else {
      assert setup == [];
    }
    NonVisitCountsZero(found[0]);
    NonVisitCountsZero(fin[0]);
  }

  /**
   Every number a run reports is bounded by the directory listing: the
   totals of the Found event, of each visit and of the summary are at most
   the number of entries, each visit's index lies between 1 and its total,
   and the summary's success count is at most its total.
   */
  lemma {:induction false} RunTotalsBounded(inputDir: string, outputDir: Option<string>, quality: int,
                                            formats: Option<seq<string>>, listing: seq<string>,
                                            outputDirExists: bool, codec: Codec)
    ensures var log := RunLog(inputDir, outputDir, quality, formats, listing, outputDirExists, codec);
            forall k :: 0 <= k < |log| ==>
              && (log[k].Found? ==> log[k].total <= |listing|)
              && (log[k].Visited? ==> 1 <= log[k].index <= log[k].total <= |listing|)
              && (log[k].Finished? ==> log[k].successCount <= log[k].total <= |listing|)
  {
    var fmts := NormaliseFormats(formats);
    var job := JobOf(inputDir, outputDir, quality);
    var candidates := SelectCandidates(listing, fmts);
    if candidates != [] {
      VisitsAt(job, codec, candidates, |candidates|);
      RunStepsShape(job, fmts, candidates, outputDirExists, codec);
      CountsAddUp(job, codec, candidates);
    }
  }

  // ---------------------------------------------------------------------
  // Worked cases

  /** `PHOTO.JPG` is selected whether the format is given as "JPG" or "jpg", and by the defaults. */
  lemma PhotoJpgSelected()
    ensures IsCandidate("PHOTO.JPG", NormaliseFormats(Some(["JPG"])))
    ensures IsCandidate("PHOTO.JPG", NormaliseFormats(Some(["jpg"])))
    ensures IsCandidate("PHOTO.JPG", NormaliseFormats(None))
  {
    var lowered := Lower("PHOTO.JPG");
    assert lowered == "photo.jpg";
    assert EndsWith(lowered, "." + "jpg");
    assert NormaliseFormats(None)[2] == "jpg";
    assert NormaliseFormats(Some(["JPG"]))[0] == "jpg";
    assert NormaliseFormats(Some(["jpg"]))[0] == "jpg";
  }

  /** The stem may itself hold dots: "a.tar.png" becomes "a.tar.webp". */
  lemma TarPngOutputName()
    ensures OutputName("a.tar.png") == "a.tar.webp"
  {
    assert "a.tar.png" == "a.tar" + [ExtSep] + "png";
    assert "a.tar"[0] != ExtSep;
    OutputNameReplacesExtension("a.tar", "png");
  }

  /** A hidden file whose whole name is ".png" has no extension and becomes ".png.webp". */
  lemma HiddenPngOutputName()
    ensures OutputName(".png") == ".png.webp"
  {
    assert ".png" == [] + [ExtSep] + "png";
    OutputNameKeepsDotOnlyName([], "png");
  }

  /** Under the default formats `a.png` and `b.jpg` are candidates and `c.txt` is not. */
  lemma DefaultCandidates()
    ensures IsCandidate("a.png", NormaliseFormats(None))
    ensures IsCandidate("b.jpg", NormaliseFormats(None))
    ensures !IsCandidate("c.txt", NormaliseFormats(None))
  {
    var fmts := NormaliseFormats(None);
    LowerOfLower("a.png");
    LowerOfLower("b.jpg");
    LowerOfLower("c.txt");
    assert "a.png"[1..] == "." + fmts[0];
    assert "b.jpg"[1..] == "." + fmts[2];
    assert "c.txt"[1..] == ".txt" && "c.txt"[0..] == "c.txt";
  }

  /** With the default formats, `a.png`, `b.jpg` and `c.txt` give the two candidates `a.png` and `b.jpg`. */
  lemma DefaultSelectionScenario()
    ensures SelectCandidates(["a.png", "b.jpg", "c.txt"], NormaliseFormats(None)) == ["a.png", "b.jpg"]
  {
    DefaultCandidates();
    assert ["a.png", "b.jpg", "c.txt"][1..] == ["b.jpg", "c.txt"];
    assert ["b.jpg", "c.txt"][1..] == ["c.txt"];
    assert ["c.txt"][1..] == [];
  }

  /** Those two candidates are written as `a.webp` and `b.webp`. */
  lemma DefaultNamesScenario()
    ensures OutputName("a.png") == "a.webp" && OutputName("b.jpg") == "b.webp"
  {
    assert "a.png" == "a" + [ExtSep] + "png" && "a"[0] != ExtSep;
    OutputNameReplacesExtension("a", "png");
    assert "b.jpg" == "b" + [ExtSep] + "jpg" && "b"[0] != ExtSep;
    OutputNameReplacesExtension("b", "jpg");
  }

  /** When both candidates convert, the summary reports 2 of 2. */
  lemma TwoOfTwoScenario(job: Job, fmts: seq<string>)
    ensures var log := RunSteps(job, fmts, ["a.png", "b.jpg"], true, (i, o, q) => true);
            log[|log| - 1] == Finished(2, 2, job.outputDir)
  {
    var codec: Codec := (i, o, q) => true;
    assert ["a.png", "b.jpg"][..1] == ["a.png"];
    assert ["a.png"][..0] == [];
    assert SuccessCount(job, codec, ["a.png", "b.jpg"]) == 2;
  }

  /** One corrupt `bad.png`: the batch is not aborted and the summary reports 0 of 1. */
  lemma ZeroOfOneScenario(job: Job)
    ensures var log := RunSteps(job, NormaliseFormats(None), ["bad.png"], true, (i, o, q) => false);
            && log[1] == VisitOf(job, (i, o, q) => false, 1, 1, "bad.png")
            && log[1].result == Failed
            && log[|log| - 1] == Finished(0, 1, job.outputDir)
  {
    var codec: Codec := (i, o, q) => false;
    assert ["bad.png"][..0] == [];
    assert SuccessCount(job, codec, ["bad.png"]) == 0;
  }

  /** A name ending in ".png" does not end in ".gif". */
  lemma PngIsNotGif(lowered: string)
    requires EndsWith(lowered, ".png")
    ensures !EndsWith(lowered, ".gif")
  {
    assert lowered[|lowered| - 3] == ".png"[1];
  }

  /**
   With `--formats gif`, a directory whose entries all end in ".png" (in any
   letter case) has no candidates, so the run stops early.
   */
  lemma {:induction false} GifOnlyScenario(listing: seq<string>)
    requires forall i :: 0 <= i < |listing| ==> EndsWith(Lower(listing[i]), ".png")
    ensures SelectCandidates(listing, NormaliseFormats(Some(["gif"]))) == []
  {
    var fmts := NormaliseFormats(Some(["gif"]));
    LowerOfLower("gif");
    assert fmts == ["gif"];
    if listing != [] {
      PngIsNotGif(Lower(listing[0]));
      assert "." + fmts[0] == ".gif";
      assert !IsCandidate(listing[0], fmts);
      assert forall i :: 0 <= i < |listing[1..]| ==> listing[1..][i] == listing[i + 1];
      GifOnlyScenario(listing[1..]);
    }
  }

  /**
   The steps once `a.png` and `b.jpg` are found and every conversion
   succeeds, with the output directory still to be made.
   */
  lemma DefaultRunSteps(job: Job, fmts: seq<string>)
    ensures RunSteps(job, fmts, ["a.png", "b.jpg"], false, (i, o, q) => true)
            == [ MadeOutputDir(job.outputDir),
                 Found(2, job.quality),
                 Visited(1, 2, "a.png", Converted("a.webp")),
                 Visited(2, 2, "b.jpg", Converted("b.webp")),
                 Finished(2, 2, job.outputDir) ]
  {
    var codec: Codec := (i, o, q) => true;
    var candidates := ["a.png", "b.jpg"];
    DefaultNamesScenario();
    assert candidates[..1] == ["a.png"];
    assert ["a.png"][..0] == [];
    assert Visits(job, codec, candidates, 2)
           == [Visited(1, 2, "a.png", Converted("a.webp")), Visited(2, 2, "b.jpg", Converted("b.webp"))];
    assert SuccessCount(job, codec, candidates) == 2;
  }

  /**
   A whole default run: `a.png`, `b.jpg` and `c.txt` in `in`, no output
   directory yet, every conversion succeeding.  The directory `in/webp_converted`
   is made, two images are found, `a.png` and `b.jpg` are written as
   `a.webp` and `b.webp`, and the summary reports 2 of 2.
   */
  lemma DefaultRunScenario()
    ensures RunLog("in", None, 80, None, ["a.png", "b.jpg", "c.txt"], false, (i, o, q) => true)
            == [ MadeOutputDir("in/webp_converted"),
                 Found(2, 80),
                 Visited(1, 2, "a.png", Converted("a.webp")),
                 Visited(2, 2, "b.jpg", Converted("b.webp")),
                 Finished(2, 2, "in/webp_converted") ]
  {
    OutputDirDefault("in", None);
    var job := JobOf("in", None, 80);
    assert job == Job("in", "in/webp_converted", 80);
    DefaultSelectionScenario();
    DefaultRunSteps(job, NormaliseFormats(None));
  }

  /**
   Two candidates can share an output name: `a.png` and `a.jpg` are both
   written as `a.webp`, so the second write replaces the first, yet both
   visits report a conversion and the summary counts 2 of 2.
   */
  lemma SharedOutputNameScenario(job: Job, fmts: seq<string>)
    ensures OutputName("a.png") == OutputName("a.jpg") == "a.webp"
    ensures var log := RunSteps(job, fmts, ["a.png", "a.jpg"], true, (i, o, q) => true);
            && log[1] == Visited(1, 2, "a.png", Converted("a.webp"))
            && log[2] == Visited(2, 2, "a.jpg", Converted("a.webp"))
            && log[|log| - 1] == Finished(2, 2, job.outputDir)
  {
    var codec: Codec := (i, o, q) => true;
    assert "a.png" == "a" + [ExtSep] + "png" && "a"[0] != ExtSep;
    OutputNameReplacesExtension("a", "png");
    assert "a.jpg" == "a" + [ExtSep] + "jpg";
    OutputNameReplacesExtension("a", "jpg");
    assert ["a.png", "a.jpg"][..1] == ["a.png"];
    assert ["a.png"][..0] == [];
    assert SuccessCount(job, codec, ["a.png", "a.jpg"]) == 2;
  }
}
