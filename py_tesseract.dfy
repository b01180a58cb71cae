/**
 * redact_bot/py_tesseract.py: blacks out every word Tesseract reads with a
 * confidence above 60, stores the grey redacted image as the pixel data and
 * redacts the PHI (the dates and times are left as they are).
 */
module PyTesseractRedactor {
  import opened DicomMetadata
  import opened OpenCvDraw

  /**
   * pytesseract.image_to_data(gray, output_type=Output.DICT): one entry per
   * recognised item in each list.
   */
  datatype ImageData = ImageData(text: seq<string>, conf: seq<real>,
                                 left: seq<int>, top: seq<int>, width: seq<int>, height: seq<int>)

  predicate WellFormed(d: ImageData) {
    |d.conf| == |d.text| && |d.left| == |d.text| && |d.top| == |d.text|
    && |d.width| == |d.text| && |d.height| == |d.text|
  }

  /** Python's int() of a float: truncation toward zero. */
  function PyInt(x: real): int {
    if x >= 0.0 then x.Floor else -((-x).Floor)
  }

  const CONFIDENCE_THRESHOLD: int := 60

  predicate Confident(c: real) {
    PyInt(c) > CONFIDENCE_THRESHOLD
  }

  /** `int(conf) > 60` holds exactly for confidences of at least 61. */
  lemma ConfidentExactly(c: real)
    ensures Confident(c) <==> c >= 61.0
  {
    if c >= 0.0 {
      assert c.Floor as real <= c < c.Floor as real + 1.0;
    } else {
      assert (-c).Floor >= 0;
    }
  }

  function BoxAt(d: ImageData, i: int): Rect
    requires WellFormed(d) && 0 <= i < |d.text|
  {
    Rect(d.left[i], d.top[i], d.width[i], d.height[i])
  }

  /** The boxes the loop fills among the first n items, in order. */
  function SelectedBoxes(d: ImageData, n: nat): seq<Rect>
    requires WellFormed(d) && n <= |d.text|
  {
    if n == 0 then []
    else if Confident(d.conf[n - 1]) then SelectedBoxes(d, n - 1) + [BoxAt(d, n - 1)]
    else SelectedBoxes(d, n - 1)
  }

  /**
   * redact_burned_in_text. The loop fills each confident word's box with
   * black on the image itself, which is returned.
   */
  method RedactBurnedInText(image: array2<int>, data: ImageData) returns (redacted: array2<int>)
    requires WellFormed(data)
    modifies image
    ensures redacted == image
    ensures forall i, j :: 0 <= i < image.Length0 && 0 <= j < image.Length1 ==>
      image[i, j] == if CoveredByAny(SelectedBoxes(data, |data.text|), i, j) then BLACK else old(image[i, j])
  {
    for n := 0 to |data.text|
      invariant forall i, j :: 0 <= i < image.Length0 && 0 <= j < image.Length1 ==>
        image[i, j] == if CoveredByAny(SelectedBoxes(data, n), i, j) then BLACK else old(image[i, j])
    {
      if PyInt(data.conf[n]) > CONFIDENCE_THRESHOLD {
        var r := Rect(data.left[n], data.top[n], data.width[n], data.height[n]);
        FillRectangle(image, r, BLACK);
        CoveredByAppend(SelectedBoxes(data, n), r);
      }
    }
    redacted := image;
  }

  lemma CoveredByAppend(rs: seq<Rect>, r: Rect)
    ensures forall i, j :: CoveredByAny(rs + [r], i, j) <==> CoveredByAny(rs, i, j) || Covers(r, i, j)
  {
    forall i, j ensures CoveredByAny(rs + [r], i, j) <==> CoveredByAny(rs, i, j) || Covers(r, i, j) {
      if CoveredByAny(rs, i, j) {
        var m :| 0 <= m < |rs| && Covers(rs[m], i, j);
        assert (rs + [r])[m] == rs[m];
      }
      if Covers(r, i, j) {
        assert (rs + [r])[|rs|] == r;
      }
    }
  }

  /**
   * A pixel is blacked out exactly when it lies in the box of an item read
   * with a confidence of at least 61.
   */
  lemma {:induction false} BlackedOutExactly(d: ImageData, n: nat, row: int, col: int)
    requires WellFormed(d) && n <= |d.text|
    ensures CoveredByAny(SelectedBoxes(d, n), row, col) <==>
      exists i :: 0 <= i < n && d.conf[i] >= 61.0 && Covers(BoxAt(d, i), row, col)
  {
    if n > 0 {
      BlackedOutExactly(d, n - 1, row, col);
      ConfidentExactly(d.conf[n - 1]);
      if Confident(d.conf[n - 1]) {
        CoveredByAppend(SelectedBoxes(d, n - 1), BoxAt(d, n - 1));
      }
    }
  }

  /**
   * redact_dicom on a loaded dataset. `image` is the pixel array after the
   * modality LUT, the 8-bit normalisation and the grey-to-BGR conversion;
   * `data` is what Tesseract reads on its grey version and `gray` the
   * BGR-to-grey conversion.
   */
  method RedactDicom(ds: Dataset, image: array2<int>, data: ImageData, gray: int -> int)
    requires WellFormed(data)
    modifies ds, image
    ensures forall i, j :: 0 <= i < image.Length0 && 0 <= j < image.Length1 ==>
      image[i, j] == if CoveredByAny(SelectedBoxes(data, |data.text|), i, j) then BLACK else old(image[i, j])
    ensures ds.pixelData == GrayBytes(image, gray)
    ensures ds.elements == RedactedPhi(old(ds.elements))
  {
    var redacted := RedactBurnedInText(image, data);
    ds.pixelData := GrayBytes(redacted, gray);
    ds.RedactPhi();
  }

  /** This variant keeps every date and time field as it was. */
  lemma DatesAndTimesKept(m: map<string, string>, k: string)
    requires k in DATE_TIME_FIELDS && k in m
    ensures k in RedactedPhi(m) && RedactedPhi(m)[k] == m[k]
  {
    FieldListsDisjoint();
    OverwriteExactly(m, PHI_FIELDS, PhiPlaceholder, k);
  }
}
