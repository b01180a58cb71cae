/**
 * redact_bot/date_and_time.py: warns when the metadata flags burned-in
 * text, redacts the PHI and the dates and times, and leaves the pixel data
 * alone.
 */
module DateAndTime {
  import opened DicomMetadata

  /** The warning's condition: `"BurnedInAnnotation" in dicom and dicom.BurnedInAnnotation == "YES"`. */
  predicate FlagsBurnedInText(m: map<string, string>) {
    "BurnedInAnnotation" in m && m["BurnedInAnnotation"] == "YES"
  }

  /** redact_dicom on a loaded dataset; `warned` is whether the warning is printed. */
  method RedactDicom(ds: Dataset) returns (warned: bool)
    modifies ds
    ensures warned <==> "BurnedInAnnotation" in old(ds.elements) && old(ds.elements)["BurnedInAnnotation"] == "YES"
    ensures ds.elements == RedactedMetadata(old(ds.elements))
    ensures ds.pixelData == old(ds.pixelData)
  {
    warned := FlagsBurnedInText(ds.elements);
    ds.RedactPhi();
    ds.RedactDatesAndTimes();
  }

  /** The warning does not depend on the redaction: the flag is neither a PHI nor a date/time field. */
  lemma WarningKeptAfterRedaction(m: map<string, string>)
    ensures FlagsBurnedInText(RedactedMetadata(m)) <==> FlagsBurnedInText(m)
  {
    assert forall k :: k in PHI_FIELDS ==> |k| != 18;
    assert forall k :: k in DATE_TIME_FIELDS ==> |k| != 18;
    OverwriteExactly(m, PHI_FIELDS, PhiPlaceholder, "BurnedInAnnotation");
    OverwriteExactly(RedactedPhi(m), DATE_TIME_FIELDS, DateTimePlaceholder, "BurnedInAnnotation");
  }
}
