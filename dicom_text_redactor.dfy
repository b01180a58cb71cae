/**
 * redact_bot/dicom_text_redactor.py: decides from the metadata whether the
 * image carries burned-in text, re-encodes the pixel data only then, and
 * redacts the PHI and the dates and times.
 */
module DicomTextRedactor {
  import opened StringOps
  import opened DicomMetadata
  import opened OpenCvDraw

  const BURNED_IN_ANNOTATION: string := "BurnedInAnnotation"
  const IMAGE_COMMENTS: string := "ImageComments"

  /** contains_burned_in_text. */
  predicate ContainsBurnedInText(m: map<string, string>) {
    (BURNED_IN_ANNOTATION in m && m[BURNED_IN_ANNOTATION] == "YES")
    || (IMAGE_COMMENTS in m && PythonStrip(m[IMAGE_COMMENTS]) != [])
  }

  /**
   * The verdict is positive exactly when the annotation flag is "YES" or the
   * image comments hold a character that is not whitespace.
   */
  lemma BurnedInTextExactly(m: map<string, string>)
    ensures ContainsBurnedInText(m) <==>
      (BURNED_IN_ANNOTATION in m && m[BURNED_IN_ANNOTATION] == "YES")
      || (IMAGE_COMMENTS in m && exists k :: 0 <= k < |m[IMAGE_COMMENTS]| && !IsPythonSpace(m[IMAGE_COMMENTS][k]))
  {
    if IMAGE_COMMENTS in m {
      PythonStripEmpty(m[IMAGE_COMMENTS]);
    }
  }

  lemma IndicatorsNotRedacted()
    ensures BURNED_IN_ANNOTATION !in PHI_FIELDS && BURNED_IN_ANNOTATION !in DATE_TIME_FIELDS
    ensures IMAGE_COMMENTS !in PHI_FIELDS && IMAGE_COMMENTS !in DATE_TIME_FIELDS
  {
    assert forall k :: k in PHI_FIELDS ==> |k| != 18 && |k| != 13;
    assert forall k :: k in DATE_TIME_FIELDS ==> |k| != 18 && |k| != 13;
  }

  /** Neither indicator is a PHI or date/time field, so redacting the metadata leaves the verdict as it was. */
  lemma VerdictSurvivesRedaction(m: map<string, string>)
    ensures ContainsBurnedInText(RedactedMetadata(m)) == ContainsBurnedInText(m)
  {
    IndicatorsNotRedacted();
    var p := RedactedPhi(m);
    OverwriteExactly(m, PHI_FIELDS, PhiPlaceholder, BURNED_IN_ANNOTATION);
    OverwriteExactly(m, PHI_FIELDS, PhiPlaceholder, IMAGE_COMMENTS);
    OverwriteExactly(p, DATE_TIME_FIELDS, DateTimePlaceholder, BURNED_IN_ANNOTATION);
    OverwriteExactly(p, DATE_TIME_FIELDS, DateTimePlaceholder, IMAGE_COMMENTS);
  }

  /**
   * redact_dicom on a loaded dataset. `image` is the dataset's pixel array
   * after the modality LUT, the 8-bit normalisation and the grey-to-BGR
   * conversion; `gray` is the BGR-to-grey conversion. The pixel data is
   * replaced only when burned-in text is reported; the OCR step is a
   * placeholder in the source, so no pixel is blacked out.
   */
  method RedactDicom(ds: Dataset, image: array2<int>, gray: int -> int) returns (burnedIn: bool)
    modifies ds
    ensures burnedIn == ContainsBurnedInText(old(ds.elements))
    ensures ds.pixelData == if burnedIn then GrayBytes(image, gray) else old(ds.pixelData)
    ensures ds.elements == RedactedMetadata(old(ds.elements))
  {
    burnedIn := ContainsBurnedInText(ds.elements);
    if burnedIn {
      ds.pixelData := GrayBytes(image, gray);
    }
    ds.RedactPhi();
    ds.RedactDatesAndTimes();
  }
}
