/**
 * TesseractTextDetector: word boxes from the OCR engine, kept when their
 * size lies within the configured bounds, and the five actions applied to
 * a detection result.
 */
module TesseractTextDetector {
  import opened Wrappers
  import opened Errors
  import opened TextDetector
  import opened DetectorConfig
  import opened ImageUtils
  import opened Outputs

  /** The settings of the Tesseract engine object; None stands for the engine's own default. */
  datatype Engine = Engine(dataPath: Option<string>, language: Option<string>)

  /** A word's bounding box. */
  datatype Box = Box(x: int, y: int, width: int, height: int)

  /**
   * One word reported by getWords (the OCR itself is not modelled: its
   * words are an input); `box` is None where getBoundingBox() is null.
   */
  datatype Word = Word(box: Option<Box>, text: string)

  predicate AllBoxed(words: seq<Word>) {
    forall k :: 0 <= k < |words| ==> words[k].box.Some?
  }

  /** The size constraint of detect, all four bounds inclusive. */
  predicate WithinBounds(b: Box, minWidth: int, minHeight: int, maxWidth: int, maxHeight: int) {
    b.width >= minWidth && b.height >= minHeight && b.width <= maxWidth && b.height <= maxHeight
  }

  /** The region detect records for a word: its box and its untrimmed text. */
  function ToRegion(w: Word): (r: TextRegion)
    requires w.box.Some?
    ensures r.x == w.box.value.x && r.y == w.box.value.y && r.width == w.box.value.width
      && r.height == w.box.value.height && r.text == w.text
  {
    TextRegion(w.box.value.x, w.box.value.y, w.box.value.width, w.box.value.height, w.text)
  }

  /** The regions detect keeps from words that all have a box, in the OCR's order. */
  function SizeFilter(words: seq<Word>, minWidth: int, minHeight: int, maxWidth: int, maxHeight: int)
    : (rs: seq<TextRegion>)
    requires AllBoxed(words)
    ensures |rs| <= |words|
    ensures forall k :: 0 <= k < |rs| ==> minWidth <= rs[k].width <= maxWidth && minHeight <= rs[k].height <= maxHeight
  {
    if words == [] then []
    else
      var init := SizeFilter(words[..|words| - 1], minWidth, minHeight, maxWidth, maxHeight);
      var w := words[|words| - 1];
      if WithinBounds(w.box.value, minWidth, minHeight, maxWidth, maxHeight) then init + [ToRegion(w)] else init
  }

  /**
   * How many words the loop gets through: reading the box of a word
   * without one throws NullPointerException, which ends the loop.
   */
  function BoxedLength(words: seq<Word>): (n: nat)
    ensures n <= |words| && AllBoxed(words[..n])
    ensures n < |words| ==> words[n].box.None?
  {
    if words == [] || words[0].box.None? then 0
    else
      var n := BoxedLength(words[1..]);
      assert forall k :: 0 <= k < n ==> words[1..][..n][k] == words[..n + 1][k + 1];
      n + 1
  }

  /** The images each action renders, and what a saveImage call then writes. */
  datatype Style = Style(
    translucentRed: int -> int,        // compositing with Color(255, 0, 0, 128)
    watermarkWidth: int,               // FontMetrics.stringWidth("QUARANTINE") for Arial bold 48
    watermarkGlyphs: set<(int, int)>)  // the pixels drawString covers, relative to its origin

  /** `out` is what `action` renders from `image` and the regions. */
  ghost predicate Rendered(action: Action, out: array2<int>, image: array2<int>, regions: seq<TextRegion>, style: Style)
    reads out, image
  {
    out.Length0 == image.Length0 && out.Length1 == image.Length1
    && match action
      case Outline => Painted(out, image, regions, Outlined, style.translucentRed)
      case Mask =>
        forall i, j :: 0 <= i < out.Length0 && 0 <= j < out.Length1 ==>
          out[i, j] == if TouchedByAny(regions, Filled, i, j) then OPAQUE_BLACK else image[i, j]
      case Burn => Painted(out, image, regions, Filled, style.translucentRed)
      case FlagForReview =>
        forall i, j :: 0 <= i < out.Length0 && 0 <= j < out.Length1 ==>
          var (ox, oy) := WatermarkOrigin(image.Length0, image.Length1, style.watermarkWidth);
          out[i, j] == if (i - ox, j - oy) in style.watermarkGlyphs then style.translucentRed(image[i, j]) else image[i, j]
      case ExportToFolder => out == image
  }

  /**
   * What one saveImage call does with `originalFileName`: throw for a name
   * without '.', write nothing when the encoder fails, and otherwise write
   * exactly one image file into the output folder.
   */
  predicate SavedOnce(r: Result<seq<Artifact>, Exception>, outputPath: string, originalFileName: string, env: SaveEnv) {
    match OutputFileName(originalFileName)
    case Failure(e) => r == Failure(e)
    case Success((name, extension)) =>
      r.Success?
      && if env.imageWriteFails then r.value == []
         else |r.value| == 1 && r.value[0].ImageFile? && r.value[0].folder == outputPath
              && r.value[0].name == name && r.value[0].writer == WriterFor(extension)
  }

  predicate HasRegions(result: DetectionResult) {
    result.regions.Some? && result.regions.value != []
  }

  class Detector {
    var tesseract: Option<Engine>  // null until setupParameters
    var minWidth: int
    var minHeight: int
    var maxWidth: int
    var maxHeight: int

    function Bounds(): (int, int, int, int)
      reads this
    {
      (minWidth, minHeight, maxWidth, maxHeight)
    }

    /** A new detector: the default bounds and no engine yet. */
    constructor ()
      ensures Bounds() == (DEFAULT_MIN_WIDTH, DEFAULT_MIN_HEIGHT, DEFAULT_MAX_WIDTH, DEFAULT_MAX_HEIGHT)
      ensures tesseract.None?
    {
      tesseract := None;
      minWidth := DEFAULT_MIN_WIDTH;
      minHeight := DEFAULT_MIN_HEIGHT;
      maxWidth := DEFAULT_MAX_WIDTH;
      maxHeight := DEFAULT_MAX_HEIGHT;
    }

    /** setBoundingBoxConstraints: IllegalArgumentException, and nothing set, when a minimum exceeds its maximum. */
    method SetBoundingBoxConstraints(newMinWidth: int, newMinHeight: int, newMaxWidth: int, newMaxHeight: int)
      returns (o: Outcome<Exception>)
      modifies this
      ensures o.Fail? <==> newMinWidth > newMaxWidth || newMinHeight > newMaxHeight
      ensures o.Fail? ==> o.error == IllegalArgument && Bounds() == old(Bounds())
      ensures o.Pass? ==> Bounds() == (newMinWidth, newMinHeight, newMaxWidth, newMaxHeight)
      ensures tesseract == old(tesseract)
    {
      if newMinWidth > newMaxWidth || newMinHeight > newMaxHeight {
        return Fail(IllegalArgument);
      }
      minWidth := newMinWidth;
      minHeight := newMinHeight;
      maxWidth := newMaxWidth;
      maxHeight := newMaxHeight;
      return Pass;
    }

    /** initialize: the configuration's four bounds are copied with no min <= max check. */
    method Initialize(config: Config)
      modifies this
      ensures Bounds() == (config.minWidth, config.minHeight, config.maxWidth, config.maxHeight)
      ensures tesseract == old(tesseract)
    {
      minWidth := config.minWidth;
      minHeight := config.minHeight;
      maxWidth := config.maxWidth;
      maxHeight := config.maxHeight;
    }

    /**
     * setupParameters: a new engine, its data path params[0] and, when
     * given, its language params[1]. With no parameters the new engine is
     * already in place when params[0] throws.
     */
    method SetupParameters(params: seq<string>) returns (o: Outcome<Exception>)
      modifies this
      ensures params == [] ==> o == Fail(IndexOutOfBounds) && tesseract == Some(Engine(None, None))
      ensures params != [] ==>
        (o == Pass && tesseract == Some(Engine(Some(params[0]), if |params| > 1 then Some(params[1]) else None)))
      ensures Bounds() == old(Bounds())
    {
      tesseract := Some(Engine(None, None));
      if params == [] {
        return Fail(IndexOutOfBounds);
      }
      tesseract := Some(tesseract.value.(dataPath := Some(params[0])));
      if |params| > 1 {
        tesseract := Some(tesseract.value.(language := Some(params[1])));
      }
      return Pass;
    }

    /**
     * detect: the words of `ocr` whose size lies within the bounds, in
     * order, as regions over the same image. Any exception is caught and
     * returns the regions collected so far: none when there is no engine
     * yet or the OCR call fails (`ocr` None), and those before the first
     * word without a box otherwise.
     */
    method Detect(image: array2<int>, ocr: Option<seq<Word>>) returns (r: DetectionResult)
      ensures r.modifiedImage == image && r.rawResponse.None? && r.regions.Some?
      ensures tesseract.None? || ocr.None? ==> r.regions.value == []
      ensures tesseract.Some? && ocr.Some? ==>
        var words := ocr.value[..BoxedLength(ocr.value)];
        r.regions.value == SizeFilter(words, minWidth, minHeight, maxWidth, maxHeight)
    {
      var regions: seq<TextRegion> := [];
      if tesseract.None? || ocr.None? {
        return FromRegions(image, regions);
      }
      var words := ocr.value;
      var k := 0;
      while k < |words|
        invariant k <= |words| && AllBoxed(words[..k])
        invariant regions == SizeFilter(words[..k], minWidth, minHeight, maxWidth, maxHeight)
      {
        if words[k].box.None? {
          break;
        }
        assert words[..k + 1][..k] == words[..k];
        var b := words[k].box.value;
        if b.width >= minWidth && b.height >= minHeight && b.width <= maxWidth && b.height <= maxHeight {
          regions := regions + [TextRegion(b.x, b.y, b.width, b.height, words[k].text)];
        }
        k := k + 1;
      }
      assert k == BoxedLength(words);
      return FromRegions(image, regions);
    }

    /**
     * applyAction: nothing happens without regions. OUTLINE, MASK, BURN and
     * FLAG_FOR_REVIEW render a new image and save it under the original
     * name; EXPORT_TO_FOLDER saves the detector's image unchanged, with the
     * region metadata.
     */
    method ApplyAction(action: Action, result: DetectionResult, outputPath: string, originalFileName: string,
                       style: Style, env: SaveEnv)
      returns (r: Result<seq<Artifact>, Exception>)
      ensures !HasRegions(result) ==> r == Success([])
      ensures HasRegions(result) && action == ExportToFolder ==>
        r == Success(SaveImageWithMetadata(result.modifiedImage, result.regions.value, outputPath, originalFileName, env))
      ensures HasRegions(result) && action != ExportToFolder ==>
        SavedOnce(r, outputPath, originalFileName, env)
        && (r.Success? && r.value != [] ==>
              fresh(r.value[0].image) && Rendered(action, r.value[0].image, result.modifiedImage, result.regions.value, style))
    {
      if result.regions.None? || result.regions.value == [] {
        return Success([]);
      }
      var image := result.modifiedImage;
      var regions := result.regions.value;
      var rendered: array2<int>;
      match action {
        case ExportToFolder =>
          return Success(SaveImageWithMetadata(image, regions, outputPath, originalFileName, env));
        case Outline =>
          rendered := OutlineTextRegions(image, result.regions, style.translucentRed);
        case Mask =>
          rendered := MaskTextRegions(image, regions);
        case Burn =>
          rendered := BurnTextRegions(image, regions, style.translucentRed);
        case FlagForReview =>
          rendered := AddWatermark(image, style.watermarkWidth, style.watermarkGlyphs, style.translucentRed);
      }
      r := SaveImage(rendered, outputPath, originalFileName, env);
    }
  }

  // ---------------------------------------------------------------------
  // Properties of detect's size filter

  /** A word is kept exactly when its size lies within the bounds; the kept regions keep the OCR's order. */
  lemma {:induction false} SizeFilterExactly(words: seq<Word>, minWidth: int, minHeight: int, maxWidth: int, maxHeight: int)
    requires AllBoxed(words)
    ensures var rs := SizeFilter(words, minWidth, minHeight, maxWidth, maxHeight);
      (forall k :: 0 <= k < |words| && WithinBounds(words[k].box.value, minWidth, minHeight, maxWidth, maxHeight)
         ==> ToRegion(words[k]) in rs)
      && (forall r :: r in rs ==>
            exists k :: 0 <= k < |words| && WithinBounds(words[k].box.value, minWidth, minHeight, maxWidth, maxHeight)
                        && ToRegion(words[k]) == r)
  {
    if words != [] {
      var init := words[..|words| - 1];
      SizeFilterExactly(init, minWidth, minHeight, maxWidth, maxHeight);
      var rs := SizeFilter(words, minWidth, minHeight, maxWidth, maxHeight);
      var rsInit := SizeFilter(init, minWidth, minHeight, maxWidth, maxHeight);
      forall k | 0 <= k < |words| && WithinBounds(words[k].box.value, minWidth, minHeight, maxWidth, maxHeight)
        ensures ToRegion(words[k]) in rs
      {
        if k < |init| { assert words[k] == init[k]; }
      }
      forall r | r in rs
        ensures exists k :: 0 <= k < |words| && WithinBounds(words[k].box.value, minWidth, minHeight, maxWidth, maxHeight)
                            && ToRegion(words[k]) == r
      {
        if r in rsInit {
          var k :| 0 <= k < |init| && WithinBounds(init[k].box.value, minWidth, minHeight, maxWidth, maxHeight)
                   && ToRegion(init[k]) == r;
          assert words[k] == init[k];
        }
      }
    }
  }

  /** Filtering a concatenation filters each part: the OCR's order carries over to the regions. */
  lemma {:induction false} SizeFilterAppend(a: seq<Word>, b: seq<Word>, minWidth: int, minHeight: int, maxWidth: int, maxHeight: int)
    requires AllBoxed(a) && AllBoxed(b)
    ensures AllBoxed(a + b)
    ensures SizeFilter(a + b, minWidth, minHeight, maxWidth, maxHeight)
      == SizeFilter(a, minWidth, minHeight, maxWidth, maxHeight) + SizeFilter(b, minWidth, minHeight, maxWidth, maxHeight)
    decreases |b|
  {
    assert forall k :: 0 <= k < |a + b| ==> (a + b)[k] == if k < |a| then a[k] else b[k - |a|];
    if b == [] {
      assert a + b == a;
    } else {
      var binit := b[..|b| - 1];
      assert (a + b)[..|a + b| - 1] == a + binit;
      assert (a + b)[|a + b| - 1] == b[|b| - 1];
      SizeFilterAppend(a, binit, minWidth, minHeight, maxWidth, maxHeight);
    }
  }

  function AsWord(r: TextRegion): Word {
    Word(Some(Box(r.x, r.y, r.width, r.height)), r.text)
  }

  function AsWords(rs: seq<TextRegion>): (ws: seq<Word>)
    ensures |ws| == |rs| && AllBoxed(ws)
    ensures forall k :: 0 <= k < |rs| ==> ws[k] == AsWord(rs[k])
  {
    seq(|rs|, k requires 0 <= k < |rs| => AsWord(rs[k]))
  }

  /** Filtering the regions again with the same bounds keeps every one: the filter is idempotent. */
  lemma SizeFilterIdempotent(words: seq<Word>, minWidth: int, minHeight: int, maxWidth: int, maxHeight: int)
    requires AllBoxed(words)
    ensures var rs := SizeFilter(words, minWidth, minHeight, maxWidth, maxHeight);
      SizeFilter(AsWords(rs), minWidth, minHeight, maxWidth, maxHeight) == rs
  {
    var rs := SizeFilter(words, minWidth, minHeight, maxWidth, maxHeight);
    AllKept(rs, minWidth, minHeight, maxWidth, maxHeight);
  }

  lemma {:induction false} AllKept(rs: seq<TextRegion>, minWidth: int, minHeight: int, maxWidth: int, maxHeight: int)
    requires forall k :: 0 <= k < |rs| ==> minWidth <= rs[k].width <= maxWidth && minHeight <= rs[k].height <= maxHeight
    ensures SizeFilter(AsWords(rs), minWidth, minHeight, maxWidth, maxHeight) == rs
  {
    if rs != [] {
      var init := rs[..|rs| - 1];
      assert AsWords(rs)[..|rs| - 1] == AsWords(init);
      AllKept(init, minWidth, minHeight, maxWidth, maxHeight);
      assert rs == init + [rs[|rs| - 1]];
    }
  }

  /** With the defaults, a word narrower or shorter than 10 pixels, or wider or taller than 500, is dropped. */
  lemma DefaultBoundsDrop(w: Word)
    requires w.box.Some?
    requires w.box.value.width < 10 || w.box.value.height < 10 || w.box.value.width > 500 || w.box.value.height > 500
    ensures SizeFilter([w], DEFAULT_MIN_WIDTH, DEFAULT_MIN_HEIGHT, DEFAULT_MAX_WIDTH, DEFAULT_MAX_HEIGHT) == []
  {
    assert [w][..0] == [];
  }

  /** A word without a box ends detection: nothing after it is kept, even words within the bounds. */
  lemma {:induction false} DetectStopsAtMissingBox(before: seq<Word>, w: Word, after: seq<Word>)
    requires AllBoxed(before) && w.box.None?
    ensures BoxedLength(before + [w] + after) == |before|
    decreases |before|
  {
    var words := before + [w] + after;
    if before != [] {
      assert words[1..] == before[1..] + [w] + after;
      DetectStopsAtMissingBox(before[1..], w, after);
    }
  }
}
