/**
 * The image helpers: copy the source into a new buffer and draw on the
 * copy (mask, burn, DICOM burn, outline, watermark), and the names and
 * metadata lines under which results are saved.
 *
 * A buffer is an `array2<int>` of ARGB pixels, width Length0 and height
 * Length1, indexed [x, y]. Drawing with an opaque colour replaces a pixel;
 * drawing with the translucent red Color(255, 0, 0, 128) blends it with
 * what is there, and that blend is the parameter `translucentRed`.
 */
module ImageUtils {
  import opened Wrappers
  import opened Errors
  import opened StringOps
  import opened TextDetector
  import opened Outputs

  const OPAQUE_BLACK: int := 0xFF00_0000  // Color.BLACK
  const OPAQUE_WHITE: int := 0xFFFF_FFFF  // Color.WHITE

  /** fillRect or drawRect. */
  datatype Stroke = Filled | Outlined

  /**
   * Whether drawing `r` touches pixel (px, py): fillRect covers
   * [x, x + width) x [y, y + height); drawRect draws the one-pixel border
   * of [x, x + width] x [y, y + height], and nothing for a negative size.
   * Pixels outside the buffer are clipped by the index range of the buffer.
   */
  predicate Touches(stroke: Stroke, r: TextRegion, px: int, py: int) {
    match stroke
    case Filled =>
      r.x <= px < r.x + r.width && r.y <= py < r.y + r.height
    case Outlined =>
      0 <= r.width && 0 <= r.height
      && r.x <= px <= r.x + r.width && r.y <= py <= r.y + r.height
      && (px == r.x || px == r.x + r.width || py == r.y || py == r.y + r.height)
  }

  predicate TouchedByAny(rs: seq<TextRegion>, stroke: Stroke, px: int, py: int) {
    exists k :: 0 <= k < |rs| && Touches(stroke, rs[k], px, py)
  }

  /** The value of pixel (px, py), initially p, after the regions are drawn in order. */
  function PaintAt(rs: seq<TextRegion>, stroke: Stroke, paint: int -> int, px: int, py: int, p: int): int {
    if rs == [] then p
    else
      var q := PaintAt(rs[..|rs| - 1], stroke, paint, px, py, p);
      if Touches(stroke, rs[|rs| - 1], px, py) then paint(q) else q
  }

  /** A pixel that no region touches keeps its value. */
  lemma {:induction false} UntouchedPixelKept(rs: seq<TextRegion>, stroke: Stroke, paint: int -> int, px: int, py: int, p: int)
    requires !TouchedByAny(rs, stroke, px, py)
    ensures PaintAt(rs, stroke, paint, px, py, p) == p
  {
    if rs != [] {
      var init := rs[..|rs| - 1];
      assert !TouchedByAny(init, stroke, px, py) by {
        forall k | 0 <= k < |init| ensures !Touches(stroke, init[k], px, py) {
          assert init[k] == rs[k];
        }
      }
      UntouchedPixelKept(init, stroke, paint, px, py, p);
    }
  }

  /** Drawing with an opaque colour c leaves c on every touched pixel and the old value elsewhere. */
  lemma {:induction false} OpaquePaintAt(rs: seq<TextRegion>, stroke: Stroke, paint: int -> int, c: int, px: int, py: int, p: int)
    requires forall v :: paint(v) == c
    ensures PaintAt(rs, stroke, paint, px, py, p) == if TouchedByAny(rs, stroke, px, py) then c else p
  {
    if rs != [] {
      var init := rs[..|rs| - 1];
      OpaquePaintAt(init, stroke, paint, c, px, py, p);
      if TouchedByAny(init, stroke, px, py) {
        var k :| 0 <= k < |init| && Touches(stroke, init[k], px, py);
        assert rs[k] == init[k];
      } else if !Touches(stroke, rs[|rs| - 1], px, py) {
        forall k | 0 <= k < |rs| ensures !Touches(stroke, rs[k], px, py) {
          if k < |init| { assert rs[k] == init[k]; }
        }
      }
    }
  }

  /** `dst` has the size of `src` and shows `src` with the regions drawn over it in order. */
  ghost predicate Painted(dst: array2<int>, src: array2<int>, rs: seq<TextRegion>, stroke: Stroke, paint: int -> int)
    reads dst, src
  {
    dst.Length0 == src.Length0 && dst.Length1 == src.Length1
    && forall i, j :: 0 <= i < dst.Length0 && 0 <= j < dst.Length1 ==>
         dst[i, j] == PaintAt(rs, stroke, paint, i, j, src[i, j])
  }

  /** One Graphics2D.fillRect or drawRect call on `dst`, clipped to the buffer. */
  method Draw(dst: array2<int>, r: TextRegion, stroke: Stroke, paint: int -> int)
    modifies dst
    ensures forall i, j :: 0 <= i < dst.Length0 && 0 <= j < dst.Length1 ==>
      dst[i, j] == if Touches(stroke, r, i, j) then paint(old(dst[i, j])) else old(dst[i, j])
  {
    forall i, j | 0 <= i < dst.Length0 && 0 <= j < dst.Length1 && Touches(stroke, r, i, j) {
      dst[i, j] := paint(dst[i, j]);
    }
  }

  /** A new buffer of the source's size holding a copy of it (new BufferedImage, then drawImage). */
  method Copy(src: array2<int>) returns (dst: array2<int>)
    ensures fresh(dst)
    ensures dst.Length0 == src.Length0 && dst.Length1 == src.Length1
    ensures forall i, j :: 0 <= i < dst.Length0 && 0 <= j < dst.Length1 ==> dst[i, j] == src[i, j]
  {
    dst := new int[src.Length0, src.Length1]((i, j) requires 0 <= i < src.Length0 && 0 <= j < src.Length1 reads src => src[i, j]);
  }

  /** Copies the source and draws every region on the copy, in list order. */
  method PaintRegions(src: array2<int>, rs: seq<TextRegion>, stroke: Stroke, paint: int -> int) returns (dst: array2<int>)
    ensures fresh(dst)
    ensures Painted(dst, src, rs, stroke, paint)
  {
    dst := Copy(src);
    for k := 0 to |rs|
      invariant Painted(dst, src, rs[..k], stroke, paint)
    {
      Draw(dst, rs[k], stroke, paint);
      assert rs[..k + 1][..k] == rs[..k];
    }
    assert rs[..|rs|] == rs;
  }

  /** maskTextRegions: every pixel inside a region becomes opaque black, every other pixel is the source's. */
  method MaskTextRegions(image: array2<int>, regions: seq<TextRegion>) returns (masked: array2<int>)
    ensures fresh(masked)
    ensures masked.Length0 == image.Length0 && masked.Length1 == image.Length1
    ensures forall i, j :: 0 <= i < masked.Length0 && 0 <= j < masked.Length1 ==>
      masked[i, j] == if TouchedByAny(regions, Filled, i, j) then OPAQUE_BLACK else image[i, j]
  {
    var black := (v: int) => OPAQUE_BLACK;
    masked := PaintRegions(image, regions, Filled, black);
    forall i, j | 0 <= i < masked.Length0 && 0 <= j < masked.Length1
      ensures masked[i, j] == if TouchedByAny(regions, Filled, i, j) then OPAQUE_BLACK else image[i, j]
    {
      OpaquePaintAt(regions, Filled, black, OPAQUE_BLACK, i, j, image[i, j]);
    }
  }

  /** burnDICOMTextRegions: the same as masking, with opaque white. */
  method BurnDICOMTextRegions(image: array2<int>, regions: seq<TextRegion>) returns (burned: array2<int>)
    ensures fresh(burned)
    ensures burned.Length0 == image.Length0 && burned.Length1 == image.Length1
    ensures forall i, j :: 0 <= i < burned.Length0 && 0 <= j < burned.Length1 ==>
      burned[i, j] == if TouchedByAny(regions, Filled, i, j) then OPAQUE_WHITE else image[i, j]
  {
    var white := (v: int) => OPAQUE_WHITE;
    burned := PaintRegions(image, regions, Filled, white);
    forall i, j | 0 <= i < burned.Length0 && 0 <= j < burned.Length1
      ensures burned[i, j] == if TouchedByAny(regions, Filled, i, j) then OPAQUE_WHITE else image[i, j]
    {
      OpaquePaintAt(regions, Filled, white, OPAQUE_WHITE, i, j, image[i, j]);
    }
  }

  /** burnTextRegions: the regions are filled with translucent red; pixels outside every region are the source's. */
  method BurnTextRegions(image: array2<int>, regions: seq<TextRegion>, translucentRed: int -> int) returns (burned: array2<int>)
    ensures fresh(burned)
    ensures Painted(burned, image, regions, Filled, translucentRed)
    ensures forall i, j :: 0 <= i < burned.Length0 && 0 <= j < burned.Length1 && !TouchedByAny(regions, Filled, i, j) ==>
      burned[i, j] == image[i, j]
  {
    burned := PaintRegions(image, regions, Filled, translucentRed);
    forall i, j | 0 <= i < burned.Length0 && 0 <= j < burned.Length1 && !TouchedByAny(regions, Filled, i, j)
      ensures burned[i, j] == image[i, j]
    {
      UntouchedPixelKept(regions, Filled, translucentRed, i, j, image[i, j]);
    }
  }

  /**
   * outlineTextRegions: with no regions (null or empty) the very same image
   * object comes back; otherwise a new buffer with the region borders drawn
   * in translucent red, and every pixel off those borders the source's.
   */
  method OutlineTextRegions(image: array2<int>, regions: Option<seq<TextRegion>>, translucentRed: int -> int)
    returns (outlined: array2<int>)
    ensures regions.None? || regions == Some([]) ==> outlined == image
    ensures regions.Some? && regions.value != [] ==>
      fresh(outlined) && Painted(outlined, image, regions.value, Outlined, translucentRed)
    ensures regions.Some? ==> forall i, j ::
      (0 <= i < outlined.Length0 && 0 <= j < outlined.Length1 && !TouchedByAny(regions.value, Outlined, i, j))
      ==> outlined[i, j] == image[i, j]
  {
    if regions.None? || regions.value == [] {
      return image;
    }
    outlined := PaintRegions(image, regions.value, Outlined, translucentRed);
    forall i, j | 0 <= i < outlined.Length0 && 0 <= j < outlined.Length1 && !TouchedByAny(regions.value, Outlined, i, j)
      ensures outlined[i, j] == image[i, j]
    {
      UntouchedPixelKept(regions.value, Outlined, translucentRed, i, j, image[i, j]);
    }
  }

  // ---------------------------------------------------------------------
  // Watermark

  /** Java's int division, which truncates toward zero. */
  function JavaDiv(a: int, b: int): (q: int)
    requires b > 0
    ensures a >= 0 ==> 0 <= a - q * b < b
    ensures a < 0 ==> -b < a - q * b <= 0
  {
    if a >= 0 then a / b else -((-a) / b)
  }

  /**
   * The baseline origin of the watermark string: horizontally centred by
   * the string's advance width `textWidth`, vertically at half the height.
   */
  function WatermarkOrigin(width: int, height: int, textWidth: int): (int, int) {
    (JavaDiv(width - textWidth, 2), JavaDiv(height, 2))
  }

  /**
   * addWatermark: a new buffer showing the source with the glyph pixels of
   * the string blended in translucent red. `glyphs` holds the pixel offsets,
   * relative to the baseline origin, that the font rasteriser covers.
   */
  method AddWatermark(image: array2<int>, textWidth: int, glyphs: set<(int, int)>, translucentRed: int -> int)
    returns (marked: array2<int>)
    ensures fresh(marked)
    ensures marked.Length0 == image.Length0 && marked.Length1 == image.Length1
    ensures forall i, j :: 0 <= i < marked.Length0 && 0 <= j < marked.Length1 ==>
      var (ox, oy) := WatermarkOrigin(image.Length0, image.Length1, textWidth);
      marked[i, j] == if (i - ox, j - oy) in glyphs then translucentRed(image[i, j]) else image[i, j]
  {
    marked := Copy(image);
    var (ox, oy) := WatermarkOrigin(image.Length0, image.Length1, textWidth);
    forall i, j | 0 <= i < marked.Length0 && 0 <= j < marked.Length1 && (i - ox, j - oy) in glyphs {
      marked[i, j] := translucentRed(marked[i, j]);
    }
  }

  // ---------------------------------------------------------------------
  // Saving

  /** The outcome of the file-system and encoder calls one save makes. */
  datatype SaveEnv = SaveEnv(
    folderReady: bool,      // the folder exists or mkdirs() succeeded
    imageMillis: int,       // System.currentTimeMillis() when the image name is built
    textMillis: int,        // System.currentTimeMillis() when the metadata name is built
    imageWriteFails: bool,  // the image encoder throws IOException
    textWriteFails: bool)   // opening or writing the metadata file throws IOException

  /** The encoder saveImage picks for a lower-cased extension. */
  function WriterFor(extension: string): Writer {
    if extension == "dcm" || extension == "dicom" then DicomWriter else ImageIOWriter(extension)
  }

  /**
   * The name saveImage writes to: the text before the last '.', a '.', and
   * the lower-cased text after it. A name without '.' makes
   * substring(0, -1) throw StringIndexOutOfBoundsException.
   */
  function OutputFileName(originalFileName: string): (r: Result<(string, string), Exception>)
  {
    match LastIndexOf(originalFileName, '.')
    case None => Failure(StringIndexOutOfBounds)
    case Some(dot) =>
      var extension := ToLower(originalFileName[dot + 1..]);
      Success((originalFileName[..dot] + "." + extension, extension))
  }

  /** The file name splits at its last dot into the base and the lower-cased extension. */
  lemma OutputFileNameOfParts(base: string, extension: string)
    requires '.' !in extension
    ensures OutputFileName(base + "." + extension) == Success((base + "." + ToLower(extension), ToLower(extension)))
  {
    var name := base + "." + extension;
    LastIndexOfSplit(base, '.', extension);
    assert name[|base| + 1..] == extension;
    assert name[..|base|] == base;
  }

  /** A name without '.' cannot be saved; a saved name is a fixed point of the renaming. */
  lemma OutputFileNameIdempotent(originalFileName: string)
    ensures '.' !in originalFileName ==> OutputFileName(originalFileName) == Failure(StringIndexOutOfBounds)
    ensures OutputFileName(originalFileName).Success? ==>
      var (name, extension) := OutputFileName(originalFileName).value;
      OutputFileName(name) == Success((name, extension))
  {
    match LastIndexOf(originalFileName, '.')
    case None =>
    case Some(dot) =>
      var base := originalFileName[..dot];
      var rest := originalFileName[dot + 1..];
      assert '.' !in rest;
      var lower := ToLower(rest);
      assert '.' !in lower by {
        forall i | 0 <= i < |lower| ensures lower[i] != '.' {
          assert rest[i] != '.';
        }
      }
      OutputFileNameOfParts(base, lower);
      assert ToLower(lower) == lower;
  }

  /**
   * saveImage: one image file named by OutputFileName in the output folder,
   * through the DICOM writer for "dcm"/"dicom" and ImageIO otherwise. An
   * IOException from the encoder is caught and logged, and nothing is written.
   */
  function SaveImage(image: array2<int>, outputPath: string, originalFileName: string, env: SaveEnv)
    : (r: Result<seq<Artifact>, Exception>)
  {
    match OutputFileName(originalFileName)
    case Failure(e) => Failure(e)
    case Success((name, extension)) =>
      if env.imageWriteFails then Success([])
      else Success([ImageFile(outputPath, name, WriterFor(extension), image)])
  }

  /**
   * A name with an extension is saved under the same base with the
   * extension lower-cased, through the encoder that extension selects.
   */
  lemma SaveImageWrites(image: array2<int>, outputPath: string, base: string, extension: string, env: SaveEnv)
    requires '.' !in extension
    ensures var lower := ToLower(extension);
      SaveImage(image, outputPath, base + "." + extension, env)
        == Success(if env.imageWriteFails then [] else [ImageFile(outputPath, base + "." + lower, WriterFor(lower), image)])
    ensures ToLower(extension) in {"dcm", "dicom"} <==> WriterFor(ToLower(extension)) == DicomWriter
  {
    OutputFileNameOfParts(base, extension);
  }

  predicate IsWordChar(c: char) {
    'a' <= c <= 'z' || 'A' <= c <= 'Z' || '0' <= c <= '9' || c == '_'
  }

  predicate IsLineTerminatorChar(c: char) {
    c == '\n' || c == '\r' || c == '\U{0085}' || c == '\U{2028}' || c == '\U{2029}'
  }

  /** The length of the line terminator that ends `s` (where a regex `$` also matches), or 0. */
  function FinalTerminatorLength(s: string): (n: nat)
    ensures n <= |s|
  {
    if |s| >= 2 && s[|s| - 2..] == "\r\n" then 2
    else if s != [] && IsLineTerminatorChar(s[|s| - 1]) then 1
    else 0
  }

  /** The number of word characters at the end of `s`. */
  function TrailingWordLength(s: string): (n: nat)
    ensures n <= |s|
    ensures forall k :: |s| - n <= k < |s| ==> IsWordChar(s[k])
    ensures n < |s| ==> !IsWordChar(s[|s| - n - 1])
  {
    if s != [] && IsWordChar(s[|s| - 1]) then TrailingWordLength(s[..|s| - 1]) + 1 else 0
  }

  /**
   * originalFileName.replaceAll("\\.\\w+$", ""): removes a '.' followed by
   * one or more word characters at the end of the name (or just before a
   * final line terminator); at most one such match exists.
   */
  function StripExtension(name: string): string {
    var t := FinalTerminatorLength(name);
    var core := name[..|name| - t];
    var w := TrailingWordLength(core);
    if 0 < w < |core| && core[|core| - w - 1] == '.' then core[..|core| - w - 1] + name[|name| - t..]
    else name
  }

  /** Exactly one trailing extension of word characters is stripped; a name without one is unchanged. */
  lemma StripExtensionOfParts(base: string, extension: string)
    requires extension != [] && forall k :: 0 <= k < |extension| ==> IsWordChar(extension[k])
    ensures StripExtension(base + "." + extension) == base
  {
    var name := base + "." + extension;
    assert FinalTerminatorLength(name) == 0 by {
      assert name[|name| - 1] == extension[|extension| - 1];
      assert IsWordChar(name[|name| - 1]);
    }
    assert name[..|name|] == name;
    TrailingWordOfSuffix(base + ".", extension);
    assert name[|name| - |extension| - 1] == '.';
    assert name[..|name| - |extension| - 1] == base;
  }

  lemma {:induction false} TrailingWordOfSuffix(prefix: string, word: string)
    requires prefix != [] && !IsWordChar(prefix[|prefix| - 1])
    requires forall k :: 0 <= k < |word| ==> IsWordChar(word[k])
    ensures TrailingWordLength(prefix + word) == |word|
    decreases |word|
  {
    if word == [] {
      assert prefix + word == prefix;
    } else {
      var init := word[..|word| - 1];
      assert (prefix + word)[..|prefix + word| - 1] == prefix + init;
      TrailingWordOfSuffix(prefix, init);
    }
  }

  /** One line of the metadata file (each line is terminated by the platform line separator, %n). */
  function MetadataLine(r: TextRegion): string {
    "Text: '" + JavaTrim(r.text) + "', Bounding Box: [x: " + IntToString(r.x) + ", y: " + IntToString(r.y)
    + ", width: " + IntToString(r.width) + ", height: " + IntToString(r.height) + "]"
  }

  /** The metadata file holds one line per region, in region order. */
  function MetadataLines(regions: seq<TextRegion>): (lines: seq<string>)
    ensures |lines| == |regions|
    ensures forall k :: 0 <= k < |regions| ==> lines[k] == MetadataLine(regions[k])
  {
    seq(|regions|, k requires 0 <= k < |regions| => MetadataLine(regions[k]))
  }

  /**
   * saveImageWithMetadata: if the folder cannot be made, nothing is
   * written; otherwise the image as PNG and then the metadata text file,
   * both named after the stripped base name and a millisecond timestamp.
   * An IOException from the image write skips the metadata file.
   */
  function SaveImageWithMetadata(image: array2<int>, regions: seq<TextRegion>, outputPath: string,
                                 originalFileName: string, env: SaveEnv): (written: seq<Artifact>)
  {
    if !env.folderReady then []
    else
      var baseName := StripExtension(originalFileName);
      var png := ImageFile(outputPath, baseName + "_" + IntToString(env.imageMillis) + ".png", ImageIOWriter("png"), image);
      var txt := MetadataFile(outputPath, baseName + "_" + IntToString(env.textMillis) + ".txt", MetadataLines(regions));
      if env.imageWriteFails then [] else if env.textWriteFails then [png] else [png, txt]
  }

  /** What saveImageWithMetadata writes, and in which order. */
  lemma SaveImageWithMetadataWrites(image: array2<int>, regions: seq<TextRegion>, outputPath: string,
                                    originalFileName: string, env: SaveEnv)
    ensures var written := SaveImageWithMetadata(image, regions, outputPath, originalFileName, env);
      && (!env.folderReady || env.imageWriteFails ==> written == [])
      && (env.folderReady && !env.imageWriteFails ==>
            1 <= |written| <= 2
            && written[0].ImageFile? && written[0].image == image && written[0].folder == outputPath
            && written[0].writer == ImageIOWriter("png")
            && StartsWith(written[0].name, StripExtension(originalFileName) + "_")
            && EndsWith(written[0].name, ".png"))
      && (env.folderReady && !env.imageWriteFails && !env.textWriteFails ==>
            |written| == 2 && written[1].MetadataFile? && written[1].folder == outputPath
            && |written[1].lines| == |regions|
            && forall k :: 0 <= k < |regions| ==> written[1].lines[k] == MetadataLine(regions[k]))
  {
  }
}
