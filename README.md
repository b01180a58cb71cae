# VisionGuard in Dafny

VisionGuard finds burned-in text in medical images and redacts it. This
project models its core and proves properties of that model.

**Java side**

- **Batch driver** (class `VisionGuard` in `blah.java`):
  - checks the command line;
  - configures a Tesseract-based detector;
  - for every image file of a directory, runs both detectors, applies the chosen action to the OCR result, and writes a discrepancy report.
- **`DetectorConfig`**: reads `--key=value` arguments over defaults.
- **`TesseractTextDetector`**:
  - keeps OCR word boxes whose size is within bounds;
  - applies OUTLINE, MASK, BURN, EXPORT_TO_FOLDER or FLAG_FOR_REVIEW.
- **`ImageUtils`**: draws on a copy of the image, and names and saves the results.
- **`DetectorValidator`**: matches the regions of two detectors and reports the ones left unmatched.

**Python side**

- **The four `redact_bot` scripts**:
  - replace PHI and date/time elements of a DICOM dataset with placeholders;
  - except in `date_and_time.py`, the pixel data is replaced (`dicom_text_redactor.py` does this only when the metadata flags burned-in text);
  - `original.py` and `py_tesseract.py` black out text boxes first.
- **`tools/parse_response_log.py` and `tools/parse_response_postman.py`**: gather the `response` fields of a stream of JSON objects until the first one marked `done`.

**Modelling choices**

- One Dafny module per source file.
- `Wrappers`, `Errors`, `StringOps`, `Outputs` and `OpenCvDraw` are shared helpers:
  - `Option` and `Result`;
  - exception kinds;
  - Java and Python string primitives;
  - the log of files written;
  - OpenCV rectangle filling and `tobytes`.
- Code that works by changing state is kept imperative:
  - detector and configuration objects as classes;
  - images as `array2<int>`;
  - the DICOM dataset as a class;
  - loops as loops.
- Each such method is proved against a specification function, and the properties are proved about those functions.
- Things the code cannot see are parameters or fields of a `World` value:
  - file contents;
  - directory listings;
  - OCR output;
  - the second detector's result;
  - encoder failures;
  - timestamps;
  - `json.loads`.

**Behaviour the model keeps as the code states it**

- `fromArgs` starts from non-null paths and never clears one. So `isPathActionConflict` always holds for FLAG_FOR_REVIEW and EXPORT_TO_FOLDER, and the run exits with status 1. Only OUTLINE, MASK and BURN reach the file loop (`VisionGuardBatch.FlagAndExportExit`, `VisionGuardBatch.OnlyDrawingActionsReachTheLoop`).
- `setBoundingBoxConstraints` runs before `initialize`. Bounds with a minimum above its maximum therefore end the program with an uncaught `IllegalArgumentException` before any file is read.
- `blah.java` calls `detect(image, null)`, an overload the interface does not declare. It is modelled as the one-argument `detect`.
- `detect` catches every exception and returns the regions gathered so far. A word without a bounding box therefore ends the word loop early.
- `EXPORT_TO_FOLDER` saves the detector's original image (not a redacted one) together with the region metadata.

## Model

| member | source | states |
|---|---|---|
| TextDetector.FromRegions | src/main/java/com/tdiprima/visionguard/TextDetector.java:51-54 | the result holds the image and the region list; the raw response is null |
| TextDetector.FromRawResponse | src/main/java/com/tdiprima/visionguard/TextDetector.java:56-59 | the result holds the image and the raw response; the region list is null |
| TextDetector.Ordinal | src/main/java/com/tdiprima/visionguard/TextDetector.java:66-72 | each constant's ordinal indexes it in declaration order |
| TextDetector.ValueOf | src/main/java/com/tdiprima/visionguard/TextDetector.java:66-72 | valueOf returns only a constant whose name is exactly the string |
| TextDetector.ActionsEnumerated | src/main/java/com/tdiprima/visionguard/TextDetector.java:66-72 | there are five distinct constants; valueOf finds each by its name; ordinals agree with declaration order |
| DetectorConfig.Config.constructor | src/main/java/com/tdiprima/visionguard/DetectorConfig.java:9-14 | a new configuration holds bounds 10, 10, 500, 500 and paths "quarantine" and "output" |
| DetectorConfig.FromArgs | src/main/java/com/tdiprima/visionguard/DetectorConfig.java:17-28 | the loop's fields equal the in-order fold of the arguments over the defaults; the first exception is the result |
| DetectorConfig.Config.Apply | src/main/java/com/tdiprima/visionguard/DetectorConfig.java:19-26 | applying one argument to the configuration either throws the exception the parse of that argument raises, or leaves the fields as that argument's parse says |
| DetectorConfig.FailurePersists | src/main/java/com/tdiprima/visionguard/DetectorConfig.java:19-26 | once a prefix of the arguments throws, the whole parse throws the same exception |
| DetectorConfig.ArgValueBetweenEquals | src/main/java/com/tdiprima/visionguard/DetectorConfig.java:20-25 | `split("=")[1]` of `key=rest` is the text of rest before its next '='; it throws IndexOutOfBounds when rest is only '=' characters |
| DetectorConfig.PrefixesDistinct | src/main/java/com/tdiprima/visionguard/DetectorConfig.java:20-25 | no argument starts with two of the recognised prefixes, so each sets at most one field |
| DetectorConfig.QuarantinePathArg | src/main/java/com/tdiprima/visionguard/DetectorConfig.java:24 | `--quarantinePath=rest` sets only the quarantine path, to rest cut at its first '=', or throws |
| DetectorConfig.MoveToFolderPathArg | src/main/java/com/tdiprima/visionguard/DetectorConfig.java:25 | `--moveToFolderPath=rest` sets only the move-to-folder path, to rest cut at its first '=', or throws |
| DetectorConfig.EmptyValueRaisesIndexError | src/main/java/com/tdiprima/visionguard/DetectorConfig.java:20-25 | `--key=` with an empty value throws ArrayIndexOutOfBoundsException, for string and int keys alike |
| DetectorConfig.IntArgOfDecimal | src/main/java/com/tdiprima/visionguard/DetectorConfig.java:20-23 | any int written in decimal is stored as given: no range check, and no min <= max check |
| DetectorConfig.LaterMinWidthWins | src/main/java/com/tdiprima/visionguard/DetectorConfig.java:19-20 | a later `--minWidth=` overrides earlier ones and leaves the other fields as they were |
| DetectorConfig.UnrecognisedIgnored | src/main/java/com/tdiprima/visionguard/DetectorConfig.java:19-26 | an argument without a recognised prefix changes nothing |
| DetectorConfig.PathsNeverNull | src/main/java/com/tdiprima/visionguard/DetectorConfig.java:13-14 | a successful parse never leaves either path null |
| StringOps.ParseIntOfIntToString | src/main/java/com/tdiprima/visionguard/DetectorConfig.java:20 | Integer.parseInt inverts the decimal rendering on the int range |
| StringOps.SplitOnJoin | tools/parse_response_log.py:11 | joining the pieces of a split with the separator gives back the string |
| StringOps.EqualsIgnoreCaseIsLowerEquality | src/main/java/com/tdiprima/visionguard/DetectorValidator.java:63-66 | equalsIgnoreCase holds exactly when the lower-cased strings are equal |
| StringOps.PythonStripEmpty | redact_bot/dicom_text_redactor.py:20 | `s.strip()` is empty exactly when every character of s is whitespace |
| TesseractTextDetector.ToRegion | src/main/java/com/tdiprima/visionguard/TesseractTextDetector.java:68-76 | a kept word's region has the word's box and its untrimmed text |
| TesseractTextDetector.SizeFilter | src/main/java/com/tdiprima/visionguard/TesseractTextDetector.java:67-78 | every kept region's width and height lie within the bounds; no more regions than words |
| TesseractTextDetector.BoxedLength | src/main/java/com/tdiprima/visionguard/TesseractTextDetector.java:67-71 | the loop gets through the longest prefix of words with a box; the next word, if any, has none |
| TesseractTextDetector.Detector.constructor | src/main/java/com/tdiprima/visionguard/TesseractTextDetector.java:22-27 | a new detector has the default bounds and no engine |
| TesseractTextDetector.Detector.SetBoundingBoxConstraints | src/main/java/com/tdiprima/visionguard/TesseractTextDetector.java:30-38 | IllegalArgument, with nothing changed, exactly when a minimum exceeds its maximum; otherwise the four bounds are set |
| TesseractTextDetector.Detector.Initialize | src/main/java/com/tdiprima/visionguard/TesseractTextDetector.java:41-46 | the four bounds are copied from the configuration unchecked; the engine is untouched |
| TesseractTextDetector.Detector.SetupParameters | src/main/java/com/tdiprima/visionguard/TesseractTextDetector.java:49-55 | a new engine gets params[0] as data path and, if present, params[1] as language; with no params the new engine is in place and IndexOutOfBounds is raised |
| TesseractTextDetector.Detector.Detect | src/main/java/com/tdiprima/visionguard/TesseractTextDetector.java:58-86 | the regions are the in-bounds words before the first boxless word, in order; none without an engine or when OCR fails; the image is returned unchanged |
| TesseractTextDetector.Detector.ApplyAction | src/main/java/com/tdiprima/visionguard/TesseractTextDetector.java:89-123 | nothing without regions; EXPORT saves the original image with metadata; otherwise the action's rendering of a fresh image is saved once under the original name |
| TesseractTextDetector.SizeFilterExactly | src/main/java/com/tdiprima/visionguard/TesseractTextDetector.java:67-78 | a word is kept exactly when its box is within the bounds |
| TesseractTextDetector.SizeFilterAppend | src/main/java/com/tdiprima/visionguard/TesseractTextDetector.java:67-78 | filtering two runs of words gives the two results concatenated, so order is kept |
| TesseractTextDetector.SizeFilterIdempotent | src/main/java/com/tdiprima/visionguard/TesseractTextDetector.java:75 | filtering the kept regions again with the same bounds keeps them all |
| TesseractTextDetector.AllKept | src/main/java/com/tdiprima/visionguard/TesseractTextDetector.java:75 | regions already within the bounds all survive the filter |
| TesseractTextDetector.DefaultBoundsDrop | src/main/java/com/tdiprima/visionguard/TesseractTextDetector.java:24-27 | with the default bounds, a word under 10 or over 500 in either dimension is dropped |
| TesseractTextDetector.DetectStopsAtMissingBox | src/main/java/com/tdiprima/visionguard/TesseractTextDetector.java:67-82 | the words after a boxless word never contribute a region |
| ImageUtils.Draw | src/main/java/com/tdiprima/visionguard/ImageUtils.java:124 | one fillRect or drawRect paints exactly the touched pixels, clipped to the buffer |
| ImageUtils.Copy | src/main/java/com/tdiprima/visionguard/ImageUtils.java:117-119 | a new buffer of the same size holds the source's pixels |
| ImageUtils.PaintRegions | src/main/java/com/tdiprima/visionguard/ImageUtils.java:117-128 | every pixel of the fresh copy is the source pixel with the regions painted over it in list order |
| ImageUtils.UntouchedPixelKept | src/main/java/com/tdiprima/visionguard/ImageUtils.java:138-140 | a pixel that no region touches keeps its source value |
| ImageUtils.OpaquePaintAt | src/main/java/com/tdiprima/visionguard/ImageUtils.java:121-125 | with an opaque colour, a pixel ends as that colour exactly when some region touches it |
| ImageUtils.MaskTextRegions | src/main/java/com/tdiprima/visionguard/ImageUtils.java:116-129 | a fresh image: opaque black inside any region, the source elsewhere |
| ImageUtils.BurnDICOMTextRegions | src/main/java/com/tdiprima/visionguard/ImageUtils.java:146-163 | a fresh image: opaque white inside any region, the source elsewhere |
| ImageUtils.BurnTextRegions | src/main/java/com/tdiprima/visionguard/ImageUtils.java:131-144 | a fresh image: regions blended with translucent red in order; pixels outside every region unchanged |
| ImageUtils.OutlineTextRegions | src/main/java/com/tdiprima/visionguard/ImageUtils.java:28-48 | the same object for null or empty regions; otherwise the borders are blended in red and every other pixel is kept |
| ImageUtils.JavaDiv | src/main/java/com/tdiprima/visionguard/ImageUtils.java:59-60 | int division truncates toward zero: the remainder has the sign of the dividend and is smaller than the divisor |
| ImageUtils.AddWatermark | src/main/java/com/tdiprima/visionguard/ImageUtils.java:50-66 | a fresh image: the glyph pixels around the centred baseline origin are blended in red; the rest is the source |
| ImageUtils.OutputFileNameOfParts | src/main/java/com/tdiprima/visionguard/ImageUtils.java:100-102 | `base.ext` is saved as `base.` plus the lower-cased extension |
| ImageUtils.OutputFileNameIdempotent | src/main/java/com/tdiprima/visionguard/ImageUtils.java:100-102 | a name without '.' throws StringIndexOutOfBounds; a saved name maps to itself |
| ImageUtils.SaveImageWrites | src/main/java/com/tdiprima/visionguard/ImageUtils.java:99-113 | one image file under the lower-cased name, or nothing when the encoder fails; the DICOM writer is used exactly for dcm/dicom |
| ImageUtils.StripExtensionOfParts | src/main/java/com/tdiprima/visionguard/ImageUtils.java:75 | the extension regex removes exactly one trailing `.word` |
| ImageUtils.MetadataLines | src/main/java/com/tdiprima/visionguard/ImageUtils.java:86-89 | one metadata line per region, in region order |
| ImageUtils.SaveImageWithMetadataWrites | src/main/java/com/tdiprima/visionguard/ImageUtils.java:68-96 | nothing if the folder cannot be made or the PNG fails; otherwise the PNG named base_time.png, then (unless its write fails) the metadata file holding one line per region |
| DetectorValidator.Intersection | src/main/java/com/tdiprima/visionguard/DetectorValidator.java:55-56 | the clipped intersection area is never negative |
| DetectorValidator.ZeroAreaHasNoIntersection | src/main/java/com/tdiprima/visionguard/DetectorValidator.java:55-58 | a box of zero area intersects nothing |
| DetectorValidator.OverlapsExactly | src/main/java/com/tdiprima/visionguard/DetectorValidator.java:53-61 | the double ratio test holds exactly when the smaller area is positive and the intersection is more than half of it |
| DetectorValidator.MatchesSymmetric | src/main/java/com/tdiprima/visionguard/DetectorValidator.java:53-66 | matching (overlap and equalsIgnoreCase) is symmetric |
| DetectorValidator.SeparatedNeverOverlap | src/main/java/com/tdiprima/visionguard/DetectorValidator.java:53-61 | boxes that at most touch never overlap |
| DetectorValidator.ContainedMatches | src/main/java/com/tdiprima/visionguard/DetectorValidator.java:53-66 | a box of positive area inside another, with the same text up to case, matches it |
| DetectorValidator.Unmatched | src/main/java/com/tdiprima/visionguard/DetectorValidator.java:22-33 | the unmatched regions are never more than the input regions |
| DetectorValidator.UnmatchedMembers | src/main/java/com/tdiprima/visionguard/DetectorValidator.java:22-33 | a region is reported exactly when it is in the list and nothing in the other list matches it |
| DetectorValidator.UnmatchedAgainstEmpty | src/main/java/com/tdiprima/visionguard/DetectorValidator.java:22-33 | against an empty list every region is reported, in order |
| DetectorValidator.UnmatchedAgainstSelf | src/main/java/com/tdiprima/visionguard/DetectorValidator.java:14-47 | regions of positive area checked against a list that contains them yield no discrepancy |
| DetectorValidator.FindUnmatched | src/main/java/com/tdiprima/visionguard/DetectorValidator.java:22-33 | the nested loop with early break computes exactly the unmatched regions |
| DetectorValidator.ReportLines | src/main/java/com/tdiprima/visionguard/DetectorValidator.java:71-79 | one formatted line per region, in order |
| DetectorValidator.ReportStartsWithHeader | src/main/java/com/tdiprima/visionguard/DetectorValidator.java:68-84 | the report starts with the missed-regions header |
| DetectorValidator.Validate | src/main/java/com/tdiprima/visionguard/DetectorValidator.java:14-51 | NullPointer exactly when either region list is null; otherwise one report of the unmatched regions both ways, or nothing if the file cannot be opened |
| DetectorValidator.EmptyReport | src/main/java/com/tdiprima/visionguard/DetectorValidator.java:68-84 | with no discrepancies the report is the two headers alone |
| VisionGuardBatch.ImageFiles | src/main/java/com/tdiprima/visionguard/blah.java:86 | every kept entry matches the image-name pattern |
| VisionGuardBatch.ImageFilesMembers | src/main/java/com/tdiprima/visionguard/blah.java:86 | an entry is kept exactly when it is listed and matches the pattern |
| VisionGuardBatch.FilterIsCaseSensitive | src/main/java/com/tdiprima/visionguard/blah.java:86 | "scan.png" is kept and "scan.PNG" is not |
| VisionGuardBatch.ImageFileNamesSave | src/main/java/com/tdiprima/visionguard/blah.java:86 | every kept file has a '.', so saveImage can name its output |
| VisionGuardBatch.Run | src/main/java/com/tdiprima/visionguard/blah.java:21-121 | the exit is decided by the ordered checks before the loop; otherwise the images, reports, skips and exit follow the per-file fold |
| VisionGuardBatch.ProcessFiles | src/main/java/com/tdiprima/visionguard/blah.java:93-120 | the loop's output equals the fold over the image files; an uncaught exception stops it |
| VisionGuardBatch.ProcessFile | src/main/java/com/tdiprima/visionguard/blah.java:95-112 | one decoded file: the detections, the action's files, then the report or the exception |
| VisionGuardBatch.ActionWritesOfApplyAction | src/main/java/com/tdiprima/visionguard/TesseractTextDetector.java:89-123 | what applyAction writes, by folder and name, is what the loop's specification predicts |
| VisionGuardBatch.CrashPersists | src/main/java/com/tdiprima/visionguard/blah.java:93-117 | an uncaught exception ends the run: later files change nothing |
| VisionGuardBatch.ConflictCases | src/main/java/com/tdiprima/visionguard/blah.java:123-126 | the conflict holds for FLAG iff the move path is set and for EXPORT iff the quarantine path is set; never for the others |
| VisionGuardBatch.OnlyDrawingActionsReachTheLoop | src/main/java/com/tdiprima/visionguard/blah.java:51-58 | every run that reaches the loop has OUTLINE, MASK or BURN |
| VisionGuardBatch.FlagAndExportExit | src/main/java/com/tdiprima/visionguard/blah.java:43-58 | FLAG_FOR_REVIEW and EXPORT_TO_FOLDER exit with status 1 once fromArgs succeeds |
| VisionGuardBatch.ReportPathInjective | src/main/java/com/tdiprima/visionguard/blah.java:109 | different files get different report paths |
| VisionGuardBatch.UndecodableFilesSkipped | src/main/java/com/tdiprima/visionguard/blah.java:96-99 | a list of files none of which decodes is skipped file by file, in order, and writes nothing |
| VisionGuardBatch.RunFilesAppend | src/main/java/com/tdiprima/visionguard/blah.java:93-117 | the loop over two lists one after the other is the loop over the first, then the loop over the second on its own, unless the first ended in an exception |
| VisionGuardBatch.SkipLeavesOthersAlone | src/main/java/com/tdiprima/visionguard/blah.java:93-117 | an undecodable file anywhere in the list leaves the images, reports and exception of the run as they would be without it; before any exception it is added to the skipped files between the files before and after it |
| VisionGuardBatch.NullSecondaryCrashes | src/main/java/com/tdiprima/visionguard/blah.java:102-110 | if the second detector gave no region list for any file, the run would end in NullPointerException at the first decoded file, with no report written |
| VisionGuardBatch.NoCrashNoReports | src/main/java/com/tdiprima/visionguard/blah.java:102-110 | if the second detector gave no region list for any file, no report would ever be written, whether the run ends normally or in NullPointerException |
| DicomMetadata.Overwrite | redact_bot/date_and_time.py:27-29 | overwriting keeps the set of elements: no element is created or removed |
| DicomMetadata.OverwriteStep | redact_bot/date_and_time.py:27-29 | one more field of the loop updates exactly that field when present and leaves the dataset unchanged otherwise |
| DicomMetadata.Dataset.OverwriteFields | redact_bot/date_and_time.py:27-29 | the field loop gives the listed, present elements their new value and leaves the pixel data alone |
| DicomMetadata.Dataset.RedactPhi | redact_bot/date_and_time.py:25-29 | the nine PHI elements present become "REDACTED" |
| DicomMetadata.Dataset.RedactDatesAndTimes | redact_bot/date_and_time.py:32-36 | the eight date/time elements present get their placeholder |
| DicomMetadata.OverwriteExactly | redact_bot/date_and_time.py:27-29 | exactly the listed elements that are present change; elements are neither added nor removed |
| DicomMetadata.OverwriteIdempotent | redact_bot/date_and_time.py:27-29 | a second pass of the same loop changes nothing |
| DicomMetadata.OverwriteCommutes | redact_bot/date_and_time.py:24-36 | loops over disjoint field lists commute |
| DicomMetadata.FieldListsDisjoint | redact_bot/date_and_time.py:25-26 | the PHI and date/time lists share no keyword |
| DicomMetadata.RedactedMetadataIdempotent | redact_bot/date_and_time.py:24-36 | redacting twice gives the same elements as once, and the two loops may run in either order |
| DicomMetadata.DateTimePlaceholders | redact_bot/date_and_time.py:36 | the four `*Date` elements get "00000000"; the four `*Time` ones get "000000.000000" |
| DateAndTime.RedactDicom | redact_bot/date_and_time.py:4-39 | warns exactly when BurnedInAnnotation is "YES"; PHI and dates are redacted; pixel data unchanged |
| DateAndTime.WarningKeptAfterRedaction | redact_bot/date_and_time.py:20 | the warning flag survives the metadata redaction |
| DicomTextRedactor.BurnedInTextExactly | redact_bot/dicom_text_redactor.py:7-22 | burned-in text is reported exactly for BurnedInAnnotation "YES" or image comments with a non-space character |
| DicomTextRedactor.IndicatorsNotRedacted | redact_bot/dicom_text_redactor.py:18-20 | neither indicator element is a PHI or date/time field |
| DicomTextRedactor.VerdictSurvivesRedaction | redact_bot/dicom_text_redactor.py:41 | the verdict is the same before and after the metadata redaction |
| DicomTextRedactor.RedactDicom | redact_bot/dicom_text_redactor.py:25-79 | pixel data becomes the grey bytes exactly when burned-in text is reported, and is kept otherwise; PHI and dates are redacted |
| OpenCvDraw.FillRectangle | redact_bot/original.py:30 | cv2.rectangle with thickness -1 sets exactly the pixels of the closed box between the two corners |
| OpenCvDraw.FillRectangles | redact_bot/original.py:27-30 | after the loop a pixel is the colour exactly when some box covers it, and is unchanged otherwise |
| OpenCvDraw.Row | redact_bot/original.py:63 | a row of tobytes holds that image row's pixels, left to right |
| OpenCvDraw.Rows | redact_bot/original.py:63 | n rows flatten to n times the width |
| OpenCvDraw.FlattenAt | redact_bot/original.py:63 | `tobytes()` places pixel (i, j) at offset i * width + j |
| OriginalRedactor.DetectAndRedactText | redact_bot/original.py:7-32 | in place: each contour box is black, the rest unchanged; the same array is returned |
| OriginalRedactor.RedactDicom | redact_bot/original.py:35-80 | pixel data is the flattened redacted image; PHI and dates are redacted |
| PyTesseractRedactor.ConfidentExactly | redact_bot/py_tesseract.py:30 | `int(conf) > 60` holds exactly for a confidence of at least 61 |
| PyTesseractRedactor.RedactBurnedInText | redact_bot/py_tesseract.py:12-35 | in place: the boxes of confident items are black, the rest unchanged; the same array is returned |
| PyTesseractRedactor.BlackedOutExactly | redact_bot/py_tesseract.py:29-33 | a pixel is blacked out exactly when the box of an item with confidence at least 61 covers it |
| PyTesseractRedactor.RedactDicom | redact_bot/py_tesseract.py:38-76 | pixel data is the grey bytes of the redacted image; only PHI is redacted |
| PyTesseractRedactor.DatesAndTimesKept | redact_bot/py_tesseract.py:68-76 | this variant leaves every date and time element as it was |
| StreamedResponses.DoneFoundExactly | tools/parse_response_log.py:19-30 | done_found holds exactly when some piece decodes to an object whose "done" is true |
| StreamedResponses.StopsAtDone | tools/parse_response_log.py:24-26 | once a done object is seen, whatever follows is ignored |
| StreamedResponses.UndecodableSkipped | tools/parse_response_log.py:27-28 | a piece json.loads rejects is skipped without stopping the loop |
| StreamedResponses.ExtractAppend | tools/parse_response_log.py:19-23 | without a done object, the responses of consecutive runs of pieces concatenate in order |
| StreamedResponses.JoinFailsExactly | tools/parse_response_log.py:37 | `''.join` fails, with TypeError, exactly when some response is not a string |
| StreamedResponses.JoinAppend | tools/parse_response_log.py:37 | the output is plain concatenation: joining two runs gives both outputs in order |
| ParseResponseLog.RepairedShape | tools/parse_response_log.py:14-17 | a lone fragment gains both braces; otherwise the first gains '}', the last '{', and the middle ones both |
| ParseResponseLog.RepairedConcat | tools/parse_response_log.py:14-17 | the repaired fragments concatenate to the fragments joined by the separator they were split on |
| ParseResponseLog.RepairRoundTrip | tools/parse_response_log.py:11-17 | with two fragments or more, the repaired fragments concatenate back to the raw text |
| ParseResponseLog.SingleFragment | tools/parse_response_log.py:11-15 | a log without "}{" becomes the single fragment "{" + raw + "}" |
| ParseResponseLog.RepairBraces | tools/parse_response_log.py:14-17 | in place: the fragment list becomes its repaired form |
| ParseResponseLog.ExtractResponses | tools/parse_response_log.py:4-30 | the accumulation loop with break returns the extraction of the repaired fragments, or the uncaught exception |
| ParseResponsePostman.ExtractResponsesFromLines | tools/parse_response_postman.py:4-20 | the line loop returns the extraction of the stripped lines, or the uncaught exception |
| ParseResponsePostman.BlankLineSkipped | tools/parse_response_postman.py:11 | a whitespace-only line is skipped; json.loads rejects "" |
| ParseResponsePostman.PaddingIgnored | tools/parse_response_postman.py:11 | whitespace around a line does not change the result |

## Left out

**External libraries and I/O**

- OCR itself (Tess4J `getWords`, `pytesseract.image_to_data`) and OpenCV contour finding: these are external libraries. Their output is an input to the model.
- `setPageSegMode`: not modelled. The words it produces are given.
- ImageIO and DICOM decoding and encoding: these are external codecs.
  - A decoded image is an input.
  - A save is recorded as an `Artifact`.
  - An encoder failure is a flag.
  - `DICOMImageReader.java` is not part of this model.
- The pydicom calls `dcmread`, `save_as`, `apply_modality_lut`, `cv2.normalize` and `cvtColor`: these are library calls. The normalised BGR image and the BGR-to-grey conversion are parameters.
- AWT rendering details are parameters: alpha blending of Color(255, 0, 0, 128), font metrics and glyph rasterisation.
- `System.currentTimeMillis()` is a parameter.
- Printing and logging: these have no effect on state.
- System.exit, modelled as the returned exit code.
- Whether the first three positional arguments name an existing file or folder: this is recorded in the world flags.

**The second detector**

- `OllamaTextDetector`, `OllamaHelpers`: a network service. The model stands in only its result, a region list that may be null.
  - `OllamaTextDetector` itself always returns a region list, possibly empty (OllamaTextDetector.java:27, 62-67, 70-90), so with it a null list does not arise.
  - The model also covers a detector that would return no region list. If it did, `validate` would throw `NullPointerException` at the first decoded file, after that file's action has written its output and before any report (`VisionGuardBatch.NullSecondaryCrashes`, `VisionGuardBatch.NoCrashNoReports`).
- `ServiceLoader` discovery: a platform facility. The model has only a flag saying both detectors loaded.
- `ollamaDetector.setupParameters`: this belongs to the second detector.

**Code that is never run**

- `TesseractTextDetector.moveImageToFolder`: private and never called.
- The private copies of the drawing and saving helpers in `TesseractTextDetector`: they are identical to `ImageUtils`, so they are modelled once there.
- `default: throw UnsupportedOperationException` in applyAction: unreachable, since the switch covers every enum constant.
- The script bodies under `__main__` and the example calls at the end of each script: they only call the modelled functions on fixed file names.

**Not modelled, or modelled more weakly than the code**

- The other tool scripts (DICOM generators, image generators, upload tests): not part of the core.
- Java `int` overflow is not modelled. Region arithmetic, areas and bounds are unbounded integers; `Integer.parseInt` rejects values outside the int range.
- `StringOps.ParseInt`: accepts only the ASCII digits '0' to '9'. `Integer.parseInt` takes every digit `Character.digit(c, 10)` accepts, including other Unicode decimal digits, so an argument such as `--minWidth=` followed by Arabic-Indic digits fails in the model but sets the value in Java.
- `StringOps.IntToString`: renders `%d` with ASCII digits, as the ROOT locale does. `String.format` uses the default locale (ImageUtils.java:87-88, DetectorValidator.java:72-79), which in some locales writes other digits.
- `ImageUtils.SaveEnv`: `imageWriteFails` stands for the encoder throwing IOException. `ImageIO.write` returning false because no writer handles the format is not modelled. In `saveImageWithMetadata` that case would go on to write the metadata file.
- `DetectorValidator.Intersection`: does not model 32-bit wrap-around of the product. It wraps only for coordinates near the int limits.
- `StringOps.ToLower`, `StringOps.ToUpper`: fold only ASCII letters. Java's locale-aware case mapping of other letters is not modelled.
- `OpenCvDraw.Flatten`: one value per pixel. A BGR image's three bytes per pixel are packed into that one value.
- pytesseract confidences are modelled as reals. Each list of `image_to_data` is taken to have one entry per item (`PyTesseractRedactor.WellFormed`), as the library produces it.
- A DICOM element's value is modelled as a string. Multi-valued elements and non-string value representations are not modelled.
- `ImageUtils.AddWatermark`: is weaker than the rendering. The glyph coverage of "QUARANTINE" in Arial bold 48 is a parameter, not computed.
