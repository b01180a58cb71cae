/**
 * The DICOM dataset the redaction scripts work on, and the two metadata
 * steps they share: PHI fields become "REDACTED", and date and time
 * fields become zero placeholders. Only fields already present are
 * rewritten.
 */
module DicomMetadata {
  import opened StringOps

  /** The PHI keywords, in the scripts' order. */
  const PHI_FIELDS: seq<string> := ["PatientName", "PatientID", "PatientBirthDate", "PatientSex", "AccessionNumber",
                                    "StudyID", "StudyDescription", "SeriesDescription", "InstitutionName"]

  /** The date and time keywords, in the scripts' order. */
  const DATE_TIME_FIELDS: seq<string> := ["StudyDate", "SeriesDate", "AcquisitionDate", "ContentDate", "StudyTime",
                                          "SeriesTime", "AcquisitionTime", "ContentTime"]

  const REDACTED: string := "REDACTED"
  const ZERO_DATE: string := "00000000"
  const ZERO_TIME: string := "000000.000000"

  function PhiPlaceholder(field: string): string {
    REDACTED
  }

  /** `"00000000" if "Date" in field else "000000.000000"`. */
  function DateTimePlaceholder(field: string): string {
    if IsInfix("Date", field) then ZERO_DATE else ZERO_TIME
  }

  /** The elements after every listed field that is present has been set to `value(field)`. */
  function Overwrite(m: map<string, string>, fields: seq<string>, value: string -> string): (r: map<string, string>)
    ensures r.Keys == m.Keys
  {
    map k | k in m :: if k in fields then value(k) else m[k]
  }

  /** One more pass of the field loop sets the next field, if present. */
  lemma OverwriteStep(m: map<string, string>, fields: seq<string>, i: nat, value: string -> string)
    requires i < |fields|
    ensures Overwrite(m, fields[..i + 1], value) ==
      var before := Overwrite(m, fields[..i], value);
      if fields[i] in before then before[fields[i] := value(fields[i])] else before
  {
    assert forall k :: k in fields[..i + 1] <==> k in fields[..i] || k == fields[i] by {
      assert fields[..i + 1] == fields[..i] + [fields[i]];
    }
  }

  function RedactedPhi(m: map<string, string>): map<string, string> {
    Overwrite(m, PHI_FIELDS, PhiPlaceholder)
  }

  function RedactedDatesAndTimes(m: map<string, string>): map<string, string> {
    Overwrite(m, DATE_TIME_FIELDS, DateTimePlaceholder)
  }

  /** A DICOM dataset: element values by keyword, and the pixel data. */
  class Dataset {
    var elements: map<string, string>
    var pixelData: seq<int>

    constructor (elements: map<string, string>, pixelData: seq<int>)
      ensures this.elements == elements && this.pixelData == pixelData
    {
      this.elements := elements;
      this.pixelData := pixelData;
    }

    /** `for field in fields: if field in dicom: dicom.data_element(field).value = value(field)`. */
    method OverwriteFields(fields: seq<string>, value: string -> string)
      modifies this
      ensures elements == Overwrite(old(elements), fields, value)
      ensures pixelData == old(pixelData)
    {
      for i := 0 to |fields|
        invariant elements == Overwrite(old(elements), fields[..i], value)
        invariant pixelData == old(pixelData)
      {
        var field := fields[i];
        if field in elements {
          elements := elements[field := value(field)];
        }
        OverwriteStep(old(elements), fields, i, value);
      }
      assert fields[..|fields|] == fields;
    }

    /** The PHI loop. */
    method RedactPhi()
      modifies this
      ensures elements == RedactedPhi(old(elements)) && pixelData == old(pixelData)
    {
      OverwriteFields(PHI_FIELDS, PhiPlaceholder);
    }

    /** The date and time loop. */
    method RedactDatesAndTimes()
      modifies this
      ensures elements == RedactedDatesAndTimes(old(elements)) && pixelData == old(pixelData)
    {
      OverwriteFields(DATE_TIME_FIELDS, DateTimePlaceholder);
    }
  }

  // ---------------------------------------------------------------------
  // Properties

  /** Overwriting changes exactly the listed fields that are present, and creates none. */
  lemma OverwriteExactly(m: map<string, string>, fields: seq<string>, value: string -> string, k: string)
    ensures k in Overwrite(m, fields, value) <==> k in m
    ensures k in m && k in fields ==> Overwrite(m, fields, value)[k] == value(k)
    ensures k in m && k !in fields ==> Overwrite(m, fields, value)[k] == m[k]
  {
  }

  /** Overwriting with fixed placeholders a second time changes nothing. */
  lemma OverwriteIdempotent(m: map<string, string>, fields: seq<string>, value: string -> string)
    ensures Overwrite(Overwrite(m, fields, value), fields, value) == Overwrite(m, fields, value)
  {
  }

  /** Steps over disjoint field lists commute. */
  lemma OverwriteCommutes(m: map<string, string>, f1: seq<string>, v1: string -> string, f2: seq<string>, v2: string -> string)
    requires forall k :: k in f1 ==> k !in f2
    ensures Overwrite(Overwrite(m, f1, v1), f2, v2) == Overwrite(Overwrite(m, f2, v2), f1, v1)
  {
  }

  /** The PHI list and the date/time list share no keyword. */
  lemma FieldListsDisjoint()
    ensures forall k :: k in PHI_FIELDS ==> k !in DATE_TIME_FIELDS
  {
  }

  /** The metadata steps of redact_dicom, PHI then dates and times, in either order. */
  function RedactedMetadata(m: map<string, string>): map<string, string> {
    RedactedDatesAndTimes(RedactedPhi(m))
  }

  /** Running both metadata steps again gives the same elements: redaction is idempotent. */
  lemma RedactedMetadataIdempotent(m: map<string, string>)
    ensures RedactedMetadata(RedactedMetadata(m)) == RedactedMetadata(m)
    ensures RedactedMetadata(m) == RedactedPhi(RedactedDatesAndTimes(m))
  {
    FieldListsDisjoint();
    OverwriteCommutes(m, PHI_FIELDS, PhiPlaceholder, DATE_TIME_FIELDS, DateTimePlaceholder);
    var once := RedactedMetadata(m);
    OverwriteCommutes(RedactedPhi(once), PHI_FIELDS, PhiPlaceholder, DATE_TIME_FIELDS, DateTimePlaceholder);
    OverwriteIdempotent(m, PHI_FIELDS, PhiPlaceholder);
  }

  /** "Date" does not occur in a string that has no 'D'. */
  lemma {:induction false} NotInfixWithoutD(s: string)
    requires 'D' !in s
    ensures !IsInfix("Date", s)
    decreases |s|
  {
    if s != [] {
      assert s[0] != 'D';
      assert forall k :: 0 <= k < |s| - 1 ==> s[1..][k] == s[k + 1];
      NotInfixWithoutD(s[1..]);
    }
  }

  /** The date keywords end in "Date" and get "00000000"; the time keywords get "000000.000000". */
  lemma DateTimePlaceholders()
    ensures forall k :: 0 <= k < 4 ==> DateTimePlaceholder(DATE_TIME_FIELDS[k]) == ZERO_DATE
    ensures forall k :: 4 <= k < 8 ==> DateTimePlaceholder(DATE_TIME_FIELDS[k]) == ZERO_TIME
  {
    forall k | 0 <= k < 4 ensures DateTimePlaceholder(DATE_TIME_FIELDS[k]) == ZERO_DATE {
      var f := DATE_TIME_FIELDS[k];
      var p := |f| - 4;
      assert f[p..] == "Date";
      EndInfix("Date", f, p);
    }
    forall k | 4 <= k < 8 ensures DateTimePlaceholder(DATE_TIME_FIELDS[k]) == ZERO_TIME {
      NotInfixWithoutD(DATE_TIME_FIELDS[k]);
    }
  }

  lemma {:induction false} EndInfix(sub: string, s: string, p: nat)
    requires p + |sub| <= |s| && s[p..p + |sub|] == sub
    ensures IsInfix(sub, s)
    decreases p
  {
    if p > 0 {
      assert s[1..][p - 1..p - 1 + |sub|] == s[p..p + |sub|];
      EndInfix(sub, s[1..], p - 1);
    } else {
      assert s[..|sub|] == sub;
    }
  }
}
