/**
 * The batch driver (class VisionGuard in blah.java): checks the command
 * line, configures the OCR detector, and for every image file of a
 * directory runs both detectors, applies the action to the OCR result and
 * writes a discrepancy report. File decoding, the second detector, the
 * listing and the file system are the oracles of a World.
 */
module VisionGuardBatch {
  import opened Wrappers
  import opened Errors
  import opened StringOps
  import opened TextDetector
  import opened DetectorConfig
  import opened ImageUtils
  import opened TesseractTextDetector
  import opened DetectorValidator
  import opened Outputs

  const TESSDATA_PATH: string := "/usr/local/Cellar/tesseract/5.5.0/share/tessdata/"

  /** How the program ends: System.exit with a code, or an uncaught exception. */
  datatype Exit = Exit(code: int) | Crash(error: Exception)

  /** What the program finds outside itself. */
  datatype World = World(
    detectorsLoaded: bool,                             // ServiceLoader found both detectors
    isDirectory: bool,                                 // the directory argument names a directory
    listing: Option<seq<string>>,                      // the directory's entry names; None if listFiles fails
    decoded: map<string, array2<int>>,                 // the files ImageIO.read decodes; others throw or give null
    ocr: string -> Option<seq<Word>>,                  // getWords for each file; None if it throws
    secondaryRegions: string -> Option<seq<TextRegion>>, // the regions of the second detector's result
    style: Style,                                      // how the drawing primitives render
    env: string -> SaveEnv,                            // the outcome of the saves made for each file
    reportWritable: string -> bool)                    // whether each report file can be opened

  // ---------------------------------------------------------------------
  // Decisions made before the loop

  /** isPathActionConflict. */
  predicate IsPathActionConflict(action: Action, s: Settings) {
    (action == FlagForReview && s.moveToFolderPath.Some?) || (action == ExportToFolder && s.quarantinePath.Some?)
  }

  /** The listFiles filter `.*\.(jpg|jpeg|png|bmp)$` under matches(): case-sensitive, and `.` matches no line terminator. */
  predicate IsImageFileName(name: string) {
    (forall k :: 0 <= k < |name| ==> !IsLineTerminatorChar(name[k]))
    && (EndsWith(name, ".jpg") || EndsWith(name, ".jpeg") || EndsWith(name, ".png") || EndsWith(name, ".bmp"))
  }

  /** The entries listFiles keeps, in listing order. */
  function ImageFiles(names: seq<string>): (files: seq<string>)
    ensures forall k :: 0 <= k < |files| ==> IsImageFileName(files[k])
  {
    if names == [] then []
    else
      var init := ImageFiles(names[..|names| - 1]);
      if IsImageFileName(names[|names| - 1]) then init + [names[|names| - 1]] else init
  }

  /** The report path of one file. */
  function ReportPath(reportPath: string, name: string): string {
    reportPath + "/" + name + "_report.txt"
  }

  /** What the loop runs with: the action, the parsed configuration and the image files. */
  datatype Plan = Plan(action: Action, settings: Settings, files: seq<string>)

  /**
   * The checks main makes before the loop, in order: too few arguments,
   * an unknown action, an argument fromArgs rejects (uncaught), a path
   * that conflicts with the action, missing detectors, bounds that
   * setBoundingBoxConstraints rejects (uncaught), no directory, no image
   * files.
   */
  function Gate(args: seq<string>, world: World): Result<Plan, Exit> {
    if |args| < 4 then Failure(Exit(1))
    else match ValueOf(ToUpper(args[1]))
      case None => Failure(Exit(1))
      case Some(action) =>
        match ParseArgs(args)
        case Failure(e) => Failure(Crash(e))
        case Success(s) =>
          if IsPathActionConflict(action, s) then Failure(Exit(1))
          else if !world.detectorsLoaded then Failure(Exit(1))
          else if s.minWidth > s.maxWidth || s.minHeight > s.maxHeight then Failure(Crash(IllegalArgument))
          else if !world.isDirectory || world.listing.None? || ImageFiles(world.listing.value) == [] then Failure(Exit(1))
          else Success(Plan(action, s, ImageFiles(world.listing.value)))
  }

  // ---------------------------------------------------------------------
  // The per-file loop, as a fold over the files

  /** An output file, by folder (or path) and name. */
  function Label(a: Artifact): (string, string) {
    match a
    case ImageFile(folder, name, _, _) => (folder, name)
    case MetadataFile(folder, name, _) => (folder, name)
    case ReportFile(path, _) => (path, "")
  }

  function Labels(written: seq<Artifact>): (labels: seq<(string, string)>)
    ensures |labels| == |written|
    ensures forall k :: 0 <= k < |written| ==> labels[k] == Label(written[k])
  {
    seq(|written|, k requires 0 <= k < |written| => Label(written[k]))
  }

  /** The regions the configured OCR detector reports for one file. */
  function OcrRegions(ocr: Option<seq<Word>>, s: Settings): seq<TextRegion> {
    match ocr
    case None => []
    case Some(words) => SizeFilter(words[..BoxedLength(words)], s.minWidth, s.minHeight, s.maxWidth, s.maxHeight)
  }

  /** The files applyAction writes for one image, or the exception it throws. */
  function ActionWrites(action: Action, regions: seq<TextRegion>, image: array2<int>, name: string,
                        outputPath: string, env: SaveEnv): Result<seq<(string, string)>, Exception>
  {
    if regions == [] then Success([])
    else if action == ExportToFolder then Success(Labels(SaveImageWithMetadata(image, regions, outputPath, name, env)))
    else match OutputFileName(name)
      case Failure(e) => Failure(e)
      case Success((saved, _)) => Success(if env.imageWriteFails then [] else [(outputPath, saved)])
  }

  /** The images written, the reports written, the files skipped, and the exception that ended the run. */
  datatype Trace = Trace(images: seq<(string, string)>, reports: seq<Artifact>, skipped: seq<string>, crash: Option<Exception>)

  /**
   * One iteration: a file that does not decode is skipped (the IOException
   * is caught); otherwise what processing it writes is added to the trace.
   * Any other exception ends the program.
   */
  function Step(t: Trace, plan: Plan, world: World, outputPath: string, reportPath: string, name: string): Trace {
    if t.crash.Some? then t else Merge(t, FileTrace(plan, world, outputPath, reportPath, name))
  }

  /** What one file adds on its own: a file that does not decode is only skipped. */
  function FileTrace(plan: Plan, world: World, outputPath: string, reportPath: string, name: string): Trace {
    if name !in world.decoded then Trace([], [], [name], None)
    else Process(plan, world, outputPath, reportPath, name)
  }

  /** The trace so far followed by what one file wrote and how it ended. */
  function Merge(t: Trace, p: Trace): Trace {
    Trace(t.images + p.images, t.reports + p.reports, t.skipped + p.skipped, p.crash)
  }

  /** A decoded file on its own: the action's files are written, then the report. */
  function Process(plan: Plan, world: World, outputPath: string, reportPath: string, name: string): (p: Trace)
    requires name in world.decoded
    ensures p.skipped == []
  {
    var regions := OcrRegions(world.ocr(name), plan.settings);
    match ActionWrites(plan.action, regions, world.decoded[name], name, outputPath, world.env(name))
    case Failure(e) => Trace([], [], [], Some(e))
    case Success(labels) =>
      match world.secondaryRegions(name)
      case None => Trace(labels, [], [], Some(NullPointer))
      case Some(other) => Trace(labels, Report(world, reportPath, name, regions, other), [], None)
  }

  /** The report validate writes for one file, if its file can be opened. */
  function Report(world: World, reportPath: string, name: string, regions: seq<TextRegion>, other: seq<TextRegion>)
    : seq<Artifact>
  {
    if world.reportWritable(name)
    then [ReportFile(ReportPath(reportPath, name), ReportText(Unmatched(regions, other), Unmatched(other, regions)))]
    else []
  }

  function RunFiles(plan: Plan, world: World, outputPath: string, reportPath: string, files: seq<string>): Trace {
    if files == [] then Trace([], [], [], None)
    else Step(RunFiles(plan, world, outputPath, reportPath, files[..|files| - 1]), plan, world, outputPath, reportPath, files[|files| - 1])
  }

  /**
   * main: the exit status and the files written. Before the loop every
   * check is Gate's; the loop then follows RunFiles over the image files.
   */
  method Run(args: seq<string>, world: World)
    returns (exit: Exit, images: seq<Artifact>, reports: seq<Artifact>, skipped: seq<string>)
    ensures Gate(args, world).Failure? ==>
      exit == Gate(args, world).error && images == [] && reports == [] && skipped == []
    ensures Gate(args, world).Success? ==>
      var plan := Gate(args, world).value;
      var t := RunFiles(plan, world, args[2], args[3], plan.files);
      Labels(images) == t.images && reports == t.reports && skipped == t.skipped
      && exit == if t.crash.Some? then Crash(t.crash.value) else Exit(0)
  {
    images, reports, skipped := [], [], [];
    if |args| < 4 {
      return Exit(1), images, reports, skipped;
    }
    var outputPath := args[2];
    var reportPath := args[3];
    var parsed := ValueOf(ToUpper(args[1]));
    if parsed.None? {
      return Exit(1), images, reports, skipped;
    }
    var action := parsed.value;
    var fromArgs := FromArgs(args);
    if fromArgs.Failure? {
      return Crash(fromArgs.error), images, reports, skipped;
    }
    var config := fromArgs.value;
    var s := config.Values();
    if IsPathActionConflict(action, s) {
      return Exit(1), images, reports, skipped;
    }
    if !world.detectorsLoaded {
      return Exit(1), images, reports, skipped;
    }
    var detector := new Detector();
    var _ := detector.SetupParameters([TESSDATA_PATH, "eng"]);
    var constrained := detector.SetBoundingBoxConstraints(config.minWidth, config.minHeight, config.maxWidth, config.maxHeight);
    if constrained.Fail? {
      return Crash(constrained.error), images, reports, skipped;
    }
    detector.Initialize(config);
    if !world.isDirectory || world.listing.None? {
      return Exit(1), images, reports, skipped;
    }
    var files := ImageFiles(world.listing.value);
    if files == [] {
      return Exit(1), images, reports, skipped;
    }
    var plan := Plan(action, s, files);
    assert Gate(args, world) == Success(plan);
    exit, images, reports, skipped := ProcessFiles(detector, plan, world, outputPath, reportPath);
  }

  /** main's loop over the image files, with the detector set up for the plan's bounds. */
  method ProcessFiles(detector: Detector, plan: Plan, world: World, outputPath: string, reportPath: string)
    returns (exit: Exit, images: seq<Artifact>, reports: seq<Artifact>, skipped: seq<string>)
    requires detector.tesseract.Some?
    requires detector.Bounds() == (plan.settings.minWidth, plan.settings.minHeight, plan.settings.maxWidth, plan.settings.maxHeight)
    ensures var t := RunFiles(plan, world, outputPath, reportPath, plan.files);
      Labels(images) == t.images && reports == t.reports && skipped == t.skipped
      && exit == if t.crash.Some? then Crash(t.crash.value) else Exit(0)
  {
    images, reports, skipped := [], [], [];
    var files := plan.files;
    for i := 0 to |files|
      invariant RunFiles(plan, world, outputPath, reportPath, files[..i]) == Trace(Labels(images), reports, skipped, None)
    {
      var crash, newImages, newReports, newSkipped := ProcessFile(detector, plan, world, outputPath, reportPath, files[i]);
      RunFilesStep(plan, world, outputPath, reportPath, files, i, Trace(Labels(images), reports, skipped, None),
                   newImages, newReports, newSkipped, crash);
      LabelsAppend(images, newImages);
      images, reports, skipped := images + newImages, reports + newReports, skipped + newSkipped;
      if crash.Some? {
        CrashPersists(plan, world, outputPath, reportPath, files, i + 1);
        return Crash(crash.value), images, reports, skipped;
      }
    }
    assert files[..|files|] == files;
    exit := Exit(0);
  }

  /**
   * One file: an image that does not decode is skipped; otherwise both
   * detections, the action on the OCR result, then validate.
   */
  method ProcessFile(detector: Detector, plan: Plan, world: World, outputPath: string, reportPath: string, name: string)
    returns (crash: Option<Exception>, images: seq<Artifact>, reports: seq<Artifact>, skipped: seq<string>)
    requires detector.tesseract.Some?
    requires detector.Bounds() == (plan.settings.minWidth, plan.settings.minHeight, plan.settings.maxWidth, plan.settings.maxHeight)
    ensures var t := FileTrace(plan, world, outputPath, reportPath, name);
      Labels(images) == t.images && reports == t.reports && skipped == t.skipped && crash == t.crash
  {
    if name !in world.decoded {
      return None, [], [], [name];
    }
    skipped := [];
    var image := world.decoded[name];
    var first := detector.Detect(image, world.ocr(name));
    assert first.regions == Some(OcrRegions(world.ocr(name), plan.settings));
    var second := DetectionResult(image, world.secondaryRegions(name), None);
    var written := detector.ApplyAction(plan.action, first, outputPath, name, world.style, world.env(name));
    ActionWritesOfApplyAction(plan.action, first, outputPath, name, world.style, world.env(name), written);
    if written.Failure? {
      return Some(written.error), [], [], skipped;
    }
    images := written.value;
    var report := Validate(first, second, ReportPath(reportPath, name), world.reportWritable(name));
    if report.Failure? {
      return Some(report.error), images, [], skipped;
    }
    return None, images, report.value, skipped;
  }

  /** One more file of the loop: what it writes is added to the run so far, and its exception ends the trace. */
  lemma RunFilesStep(plan: Plan, world: World, outputPath: string, reportPath: string, files: seq<string>, i: nat,
                     sofar: Trace, newImages: seq<Artifact>, newReports: seq<Artifact>, newSkipped: seq<string>,
                     crash: Option<Exception>)
    requires i < |files|
    requires RunFiles(plan, world, outputPath, reportPath, files[..i]) == sofar && sofar.crash.None?
    requires var t := FileTrace(plan, world, outputPath, reportPath, files[i]);
      Labels(newImages) == t.images && newReports == t.reports && newSkipped == t.skipped && crash == t.crash
    ensures RunFiles(plan, world, outputPath, reportPath, files[..i + 1])
      == Trace(sofar.images + Labels(newImages), sofar.reports + newReports, sofar.skipped + newSkipped, crash)
  {
    assert files[..i + 1][..i] == files[..i];
  }

  lemma LabelsAppend(a: seq<Artifact>, b: seq<Artifact>)
    ensures Labels(a + b) == Labels(a) + Labels(b)
  {
  }

  /** What applyAction wrote, by name, is what ActionWrites predicts. */
  lemma ActionWritesOfApplyAction(action: Action, result: DetectionResult, outputPath: string, name: string,
                                  style: Style, env: SaveEnv, written: Result<seq<Artifact>, Exception>)
    requires result.regions.Some?
    requires !HasRegions(result) ==> written == Success([])
    requires HasRegions(result) && action == ExportToFolder ==>
      written == Success(SaveImageWithMetadata(result.modifiedImage, result.regions.value, outputPath, name, env))
    requires HasRegions(result) && action != ExportToFolder ==> SavedOnce(written, outputPath, name, env)
    ensures var expected := ActionWrites(action, result.regions.value, result.modifiedImage, name, outputPath, env);
      (written.Failure? <==> expected.Failure?)
      && (written.Failure? ==> written.error == expected.error)
      && (written.Success? ==> Labels(written.value) == expected.value)
  {
    if HasRegions(result) && action != ExportToFolder && OutputFileName(name).Success? && !env.imageWriteFails {
      assert |written.value| == 1;
    }
  }

  /** An exception ends the fold: everything after it is left as it was. */
  lemma {:induction false} CrashPersists(plan: Plan, world: World, outputPath: string, reportPath: string,
                                         files: seq<string>, n: nat)
    requires n <= |files| && RunFiles(plan, world, outputPath, reportPath, files[..n]).crash.Some?
    ensures RunFiles(plan, world, outputPath, reportPath, files) == RunFiles(plan, world, outputPath, reportPath, files[..n])
    decreases |files| - n
  {
    if n < |files| {
      assert files[..n + 1][..n] == files[..n];
      CrashPersists(plan, world, outputPath, reportPath, files, n + 1);
    } else {
      assert files[..n] == files;
    }
  }

  /** A run followed by a later run of its own: once the first has crashed, nothing later counts. */
  function Then(t: Trace, p: Trace): Trace {
    if t.crash.Some? then t else Merge(t, p)
  }

  lemma ThenAssociative(t: Trace, p: Trace, q: Trace)
    ensures Then(Then(t, p), q) == Then(t, Then(p, q))
  {
    if t.crash.None? && p.crash.None? {
      assert (t.images + p.images) + q.images == t.images + (p.images + q.images);
      assert (t.reports + p.reports) + q.reports == t.reports + (p.reports + q.reports);
      assert (t.skipped + p.skipped) + q.skipped == t.skipped + (p.skipped + q.skipped);
    }
  }

  /** The loop over `a + b` is the loop over `a`, then the loop over `b` on its own: no file depends on an earlier one. */
  lemma {:induction false} RunFilesAppend(plan: Plan, world: World, outputPath: string, reportPath: string,
                                          a: seq<string>, b: seq<string>)
    ensures RunFiles(plan, world, outputPath, reportPath, a + b)
      == Then(RunFiles(plan, world, outputPath, reportPath, a), RunFiles(plan, world, outputPath, reportPath, b))
    decreases |b|
  {
    if b == [] {
      assert a + b == a;
    } else {
      var init := b[..|b| - 1];
      var last := b[|b| - 1];
      assert (a + b)[..|a + b| - 1] == a + init;
      assert (a + b)[|a + b| - 1] == last;
      RunFilesAppend(plan, world, outputPath, reportPath, a, init);
      ThenAssociative(RunFiles(plan, world, outputPath, reportPath, a), RunFiles(plan, world, outputPath, reportPath, init),
                      FileTrace(plan, world, outputPath, reportPath, last));
    }
  }

  /**
   * A file that does not decode, wherever it stands, changes none of the
   * images, reports or exception of the files around it: the files after it
   * are processed as if it were absent, and it is only added to the
   * skipped files, between those before and those after it.
   */
  lemma SkipLeavesOthersAlone(plan: Plan, world: World, outputPath: string, reportPath: string,
                              before: seq<string>, bad: string, after: seq<string>)
    requires bad !in world.decoded
    ensures var withBad := RunFiles(plan, world, outputPath, reportPath, before + [bad] + after);
      var withoutBad := RunFiles(plan, world, outputPath, reportPath, before + after);
      withBad.images == withoutBad.images && withBad.reports == withoutBad.reports && withBad.crash == withoutBad.crash
    ensures var head := RunFiles(plan, world, outputPath, reportPath, before);
      var tail := RunFiles(plan, world, outputPath, reportPath, after);
      head.crash.None? ==>
        RunFiles(plan, world, outputPath, reportPath, before + [bad] + after).skipped == head.skipped + [bad] + tail.skipped
        && RunFiles(plan, world, outputPath, reportPath, before + after).skipped == head.skipped + tail.skipped
    ensures RunFiles(plan, world, outputPath, reportPath, before).crash.Some? ==>
      RunFiles(plan, world, outputPath, reportPath, before + [bad] + after)
      == RunFiles(plan, world, outputPath, reportPath, before + after)
  {
    var head := RunFiles(plan, world, outputPath, reportPath, before);
    var tail := RunFiles(plan, world, outputPath, reportPath, after);
    var skip := Trace([], [], [bad], None);
    SkipAlone(plan, world, outputPath, reportPath, bad);
    RunFilesAppend(plan, world, outputPath, reportPath, before, [bad]);
    RunFilesAppend(plan, world, outputPath, reportPath, before + [bad], after);
    RunFilesAppend(plan, world, outputPath, reportPath, before, after);
    assert RunFiles(plan, world, outputPath, reportPath, before + [bad] + after) == Then(Then(head, skip), tail);
    assert RunFiles(plan, world, outputPath, reportPath, before + after) == Then(head, tail);
    ThenSkip(head, bad, tail);
  }

  /** A skip-only trace between two runs adds its file to the skipped files and nothing else. */
  lemma ThenSkip(head: Trace, bad: string, tail: Trace)
    ensures var withBad := Then(Then(head, Trace([], [], [bad], None)), tail);
      withBad.images == Then(head, tail).images && withBad.reports == Then(head, tail).reports
      && withBad.crash == Then(head, tail).crash
      && withBad.skipped == if head.crash.Some? then head.skipped else head.skipped + [bad] + tail.skipped
  {
    if head.crash.None? {
      assert head.images + [] == head.images;
      assert head.reports + [] == head.reports;
    }
  }

  // ---------------------------------------------------------------------
  // Properties

  /** The conflict predicate holds exactly in its two cases and never for OUTLINE, MASK or BURN. */
  lemma ConflictCases(action: Action, s: Settings)
    ensures action in {Outline, Mask, Burn} ==> !IsPathActionConflict(action, s)
    ensures action == FlagForReview ==> (IsPathActionConflict(action, s) <==> s.moveToFolderPath.Some?)
    ensures action == ExportToFolder ==> (IsPathActionConflict(action, s) <==> s.quarantinePath.Some?)
  {
  }

  /**
   * fromArgs never leaves a path null, so FLAG_FOR_REVIEW and
   * EXPORT_TO_FOLDER always conflict and the loop only ever runs with
   * OUTLINE, MASK or BURN.
   */
  lemma OnlyDrawingActionsReachTheLoop(args: seq<string>, world: World)
    requires Gate(args, world).Success?
    ensures Gate(args, world).value.action in {Outline, Mask, Burn}
  {
    PathsNeverNull(args);
  }

  /** FLAG_FOR_REVIEW and EXPORT_TO_FOLDER, however spelt in case, exit with status 1 unless fromArgs throws first. */
  lemma FlagAndExportExit(args: seq<string>, world: World)
    requires |args| >= 4 && ValueOf(ToUpper(args[1])) in {Some(FlagForReview), Some(ExportToFolder)}
    requires ParseArgs(args).Success?
    ensures Gate(args, world) == Failure(Exit(1))
  {
    PathsNeverNull(args);
  }

  /** A file listFiles keeps has a '.', so saveImage can always name its output. */
  lemma ImageFileNamesSave(name: string)
    requires IsImageFileName(name)
    ensures OutputFileName(name).Success?
  {
    assert name[|name| - 4] == '.' || name[|name| - 5] == '.';
  }

  /** The extension check is case-sensitive. */
  lemma FilterIsCaseSensitive()
    ensures IsImageFileName("scan.png") && !IsImageFileName("scan.PNG")
  {
    assert "scan.png"[4..] == ".png";
    assert "scan.PNG"[4..] != ".png";
    assert "scan.PNG"[3..] != ".jpeg";
  }

  /** listFiles keeps exactly the entries that match the pattern, in listing order. */
  lemma {:induction false} ImageFilesMembers(names: seq<string>, name: string)
    ensures name in ImageFiles(names) <==> name in names && IsImageFileName(name)
  {
    if names != [] {
      ImageFilesMembers(names[..|names| - 1], name);
      assert names == names[..|names| - 1] + [names[|names| - 1]];
    }
  }

  /** Different files get different report paths. */
  lemma ReportPathInjective(reportPath: string, name1: string, name2: string)
    requires ReportPath(reportPath, name1) == ReportPath(reportPath, name2)
    ensures name1 == name2
  {
    var p1 := ReportPath(reportPath, name1);
    var n := |reportPath| + 1;
    assert |name1| == |name2|;
    assert name1 == p1[n..n + |name1|];
  }

  /** A file that does not decode is skipped and the loop goes on; it writes nothing. */
  lemma {:induction false} UndecodableFilesSkipped(plan: Plan, world: World, outputPath: string, reportPath: string,
                                                   files: seq<string>)
    requires forall k :: 0 <= k < |files| ==> files[k] !in world.decoded
    ensures RunFiles(plan, world, outputPath, reportPath, files) == Trace([], [], files, None)
  {
    if files != [] {
      var init := files[..|files| - 1];
      var last := files[|files| - 1];
      assert files == init + [last];
      forall k | 0 <= k < |init|
        ensures init[k] !in world.decoded
      {
        assert init[k] == files[k];
      }
      UndecodableFilesSkipped(plan, world, outputPath, reportPath, init);
      SkipAlone(plan, world, outputPath, reportPath, last);
      RunFilesAppend(plan, world, outputPath, reportPath, init, [last]);
    }
  }

  /** A list of one file that does not decode only skips it. */
  lemma SkipAlone(plan: Plan, world: World, outputPath: string, reportPath: string, name: string)
    requires name !in world.decoded
    ensures RunFiles(plan, world, outputPath, reportPath, [name]) == Trace([], [], [name], None)
  {
    assert [name][..0] == [];
  }

  /**
   * If the second detector gave no region list (the one in the
   * repository always gives one), the first file that decodes would end
   * the program with NullPointerException in validate, after its action's
   * files are written and before its report.
   */
  lemma {:induction false} NullSecondaryCrashes(plan: Plan, world: World, outputPath: string, reportPath: string,
                                                files: seq<string>, k: nat)
    requires forall j :: 0 <= j < |files| ==> world.secondaryRegions(files[j]).None?
    requires forall j :: 0 <= j < |files| ==> OutputFileName(files[j]).Success?
    requires k < |files| && files[k] in world.decoded
    ensures RunFiles(plan, world, outputPath, reportPath, files).crash == Some(NullPointer)
    ensures RunFiles(plan, world, outputPath, reportPath, files).reports == []
    decreases |files|
  {
    var init := files[..|files| - 1];
    assert forall j :: 0 <= j < |init| ==> init[j] == files[j];
    if k < |init| {
      NullSecondaryCrashes(plan, world, outputPath, reportPath, init, k);
    } else {
      NoCrashNoReports(plan, world, outputPath, reportPath, init);
    }
  }

  lemma {:induction false} NoCrashNoReports(plan: Plan, world: World, outputPath: string, reportPath: string,
                                            files: seq<string>)
    requires forall j :: 0 <= j < |files| ==> world.secondaryRegions(files[j]).None?
    requires forall j :: 0 <= j < |files| ==> OutputFileName(files[j]).Success?
    ensures RunFiles(plan, world, outputPath, reportPath, files).reports == []
    ensures RunFiles(plan, world, outputPath, reportPath, files).crash in {None, Some(NullPointer)}
  {
    if files != [] {
      var init := files[..|files| - 1];
      assert forall j :: 0 <= j < |init| ==> init[j] == files[j];
      NoCrashNoReports(plan, world, outputPath, reportPath, init);
    }
  }
}
