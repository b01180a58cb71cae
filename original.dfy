/**
 * redact_bot/original.py: blacks out the bounding box of every text contour
 * OpenCV finds, stores the redacted image as the pixel data and redacts the
 * PHI and the dates and times.
 */
module OriginalRedactor {
  import opened DicomMetadata
  import opened OpenCvDraw

  /**
   * detect_and_redact_text. `contours` are the bounding rectangles of the
   * external contours of the inverted 200-threshold of the grey image; each
   * is filled with black on the image itself, which is returned.
   */
  method DetectAndRedactText(image: array2<int>, contours: seq<Rect>) returns (redacted: array2<int>)
    modifies image
    ensures redacted == image
    ensures forall i, j :: 0 <= i < image.Length0 && 0 <= j < image.Length1 ==>
      image[i, j] == if CoveredByAny(contours, i, j) then BLACK else old(image[i, j])
  {
    FillRectangles(image, contours, BLACK);
    redacted := image;
  }

  /**
   * redact_dicom on a loaded dataset. `image` is the pixel array after the
   * modality LUT, the 8-bit normalisation and the grey-to-BGR conversion.
   */
  method RedactDicom(ds: Dataset, image: array2<int>, contours: seq<Rect>)
    modifies ds, image
    ensures forall i, j :: 0 <= i < image.Length0 && 0 <= j < image.Length1 ==>
      image[i, j] == if CoveredByAny(contours, i, j) then BLACK else old(image[i, j])
    ensures ds.pixelData == Flatten(image)
    ensures ds.elements == RedactedMetadata(old(ds.elements))
  {
    var redacted := DetectAndRedactText(image, contours);
    ds.pixelData := Flatten(redacted);
    ds.RedactPhi();
    ds.RedactDatesAndTimes();
  }
}
