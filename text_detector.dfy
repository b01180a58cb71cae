/**
 * The detector interface's shared data: default bounding-box limits,
 * detected text regions, detection results and the redaction actions.
 * Images are ARGB pixel buffers of width Length0 and height Length1,
 * indexed [x, y].
 */
module TextDetector {
  import opened Wrappers

  // Default bounding box constraints
  const DEFAULT_MIN_WIDTH: int := 10
  const DEFAULT_MIN_HEIGHT: int := 10
  const DEFAULT_MAX_WIDTH: int := 500
  const DEFAULT_MAX_HEIGHT: int := 500

  /** A detected region of text; the constructor stores its five values as given, without validation. */
  datatype TextRegion = TextRegion(x: int, y: int, width: int, height: int, text: string)

  /**
   * What a detector returns: the image it worked on, and either a list of
   * regions or a raw free-text response; the field left unset is null (None).
   */
  datatype DetectionResult = DetectionResult(
    modifiedImage: array2<int>,
    regions: Option<seq<TextRegion>>,
    rawResponse: Option<string>)

  /** The constructor DetectionResult(image, regions). */
  function FromRegions(image: array2<int>, regions: seq<TextRegion>): (r: DetectionResult)
    ensures r.modifiedImage == image && r.regions == Some(regions) && r.rawResponse == None
  {
    DetectionResult(image, Some(regions), None)
  }

  /** The constructor DetectionResult(image, rawResponse). */
  function FromRawResponse(image: array2<int>, rawResponse: string): (r: DetectionResult)
    ensures r.modifiedImage == image && r.rawResponse == Some(rawResponse) && r.regions == None
  {
    DetectionResult(image, None, Some(rawResponse))
  }

  /** The redaction actions, in declaration order. */
  datatype Action = Outline | Mask | Burn | ExportToFolder | FlagForReview

  const ACTIONS: seq<Action> := [Outline, Mask, Burn, ExportToFolder, FlagForReview]

  /** Action.name(): the enum constant's identifier. */
  function Name(a: Action): string {
    match a
    case Outline => "OUTLINE"
    case Mask => "MASK"
    case Burn => "BURN"
    case ExportToFolder => "EXPORT_TO_FOLDER"
    case FlagForReview => "FLAG_FOR_REVIEW"
  }

  /** Action.ordinal(). */
  function Ordinal(a: Action): (k: nat)
    ensures k < |ACTIONS| && ACTIONS[k] == a
  {
    match a
    case Outline => 0
    case Mask => 1
    case Burn => 2
    case ExportToFolder => 3
    case FlagForReview => 4
  }

  /** Action.valueOf(s): the constant whose name is exactly `s`, or IllegalArgumentException (None). */
  function ValueOf(s: string): (r: Option<Action>)
    ensures r.Some? ==> Name(r.value) == s
  {
    if s == "OUTLINE" then Some(Outline)
    else if s == "MASK" then Some(Mask)
    else if s == "BURN" then Some(Burn)
    else if s == "EXPORT_TO_FOLDER" then Some(ExportToFolder)
    else if s == "FLAG_FOR_REVIEW" then Some(FlagForReview)
    else None
  }

  /** The enum has exactly five constants, all distinct, and valueOf finds each by its name. */
  lemma ActionsEnumerated()
    ensures |ACTIONS| == 5
    ensures forall a: Action :: a in ACTIONS && ValueOf(Name(a)) == Some(a)
    ensures forall i, j :: 0 <= i < j < |ACTIONS| ==> ACTIONS[i] != ACTIONS[j]
    ensures forall i :: 0 <= i < |ACTIONS| ==> Ordinal(ACTIONS[i]) == i
  {
    forall a: Action ensures a in ACTIONS && ValueOf(Name(a)) == Some(a) {
      assert ACTIONS[Ordinal(a)] == a;
    }
  }
}

/** The abstract log of files the model writes: what is written where, through which encoder. */
module Outputs {

  /** Which encoder persists an image: the DICOM writer, or ImageIO with a format name. */
  datatype Writer = DicomWriter | ImageIOWriter(format: string)

  datatype Artifact =
    | ImageFile(folder: string, name: string, writer: Writer, image: array2<int>)
    | MetadataFile(folder: string, name: string, lines: seq<string>)
    | ReportFile(path: string, content: string)
}
