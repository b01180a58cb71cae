/**
 * DetectorValidator: cross-checks the regions of two detectors and writes
 * a discrepancy report. A region is matched when some region of the other
 * list overlaps it by more than half of the smaller area and has the same
 * text up to case.
 */
module DetectorValidator {
  import opened Wrappers
  import opened Errors
  import opened StringOps
  import opened TextDetector
  import opened Outputs

  function Max(a: int, b: int): int { if a >= b then a else b }
  function Min(a: int, b: int): int { if a <= b then a else b }

  /** The area both boxes cover: the clipped overlap along each axis, multiplied. */
  function Intersection(r1: TextRegion, r2: TextRegion): (area: int)
    ensures area >= 0
  {
    Max(0, Min(r1.x + r1.width, r2.x + r2.width) - Max(r1.x, r2.x))
    * Max(0, Min(r1.y + r1.height, r2.y + r2.height) - Max(r1.y, r2.y))
  }

  function Area(r: TextRegion): int {
    r.width * r.height
  }

  /**
   * `(double) inter / minArea > 0.5` evaluated as IEEE double division: a
   * positive divisor compares the exact quotient, a zero divisor gives
   * +Infinity for a positive dividend and NaN for zero, and a negative
   * divisor flips the comparison.
   */
  predicate RatioExceedsHalf(inter: int, minArea: int) {
    if minArea > 0 then 2 * inter > minArea
    else if minArea == 0 then inter > 0
    else 2 * inter < minArea
  }

  /** overlaps: the intersection is more than half of the smaller area. */
  predicate Overlaps(r1: TextRegion, r2: TextRegion) {
    RatioExceedsHalf(Intersection(r1, r2), Min(Area(r1), Area(r2)))
  }

  /** similarText: equalsIgnoreCase. */
  predicate SimilarText(text1: string, text2: string) {
    EqualsIgnoreCase(text1, text2)
  }

  predicate Matches(r1: TextRegion, r2: TextRegion) {
    Overlaps(r1, r2) && SimilarText(r1.text, r2.text)
  }

  predicate HasMatch(r: TextRegion, others: seq<TextRegion>) {
    exists k :: 0 <= k < |others| && Matches(r, others[k])
  }

  /** The regions of `xs` that no region of `ys` matches, in the order of `xs`. */
  function Unmatched(xs: seq<TextRegion>, ys: seq<TextRegion>): (rs: seq<TextRegion>)
    ensures |rs| <= |xs|
  {
    if xs == [] then []
    else
      var init := Unmatched(xs[..|xs| - 1], ys);
      var x := xs[|xs| - 1];
      if HasMatch(x, ys) then init else init + [x]
  }

  /** One report line; the first section trims the text, the second does not. */
  function ReportLine(r: TextRegion, trim: bool): string {
    "Text: " + (if trim then JavaTrim(r.text) else r.text) + ", Bounding Box: [" + IntToString(r.x) + ", "
    + IntToString(r.y) + ", " + IntToString(r.width) + ", " + IntToString(r.height) + "]\n"
  }

  function ReportLines(rs: seq<TextRegion>, trim: bool): (lines: seq<string>)
    ensures |lines| == |rs|
    ensures forall k :: 0 <= k < |rs| ==> lines[k] == ReportLine(rs[k], trim)
  {
    seq(|rs|, k requires 0 <= k < |rs| => ReportLine(rs[k], trim))
  }

  const MISSED_HEADER: string := "Missed Regions (Found by Tesseract but not by Ollama):\n"
  const MISMATCHED_HEADER: string := "\nMismatched Regions (Found by Ollama but not by Tesseract):\n"

  /** saveDiscrepancyReport: the text written to the report file. */
  function ReportText(missed: seq<TextRegion>, mismatched: seq<TextRegion>): string {
    MISSED_HEADER + (Concat(ReportLines(missed, true)) + (MISMATCHED_HEADER + Concat(ReportLines(mismatched, false))))
  }

  /** Every report opens with the missed-regions header, whatever the lists hold. */
  lemma ReportStartsWithHeader(missed: seq<TextRegion>, mismatched: seq<TextRegion>)
    ensures StartsWith(ReportText(missed, mismatched), MISSED_HEADER)
  {
    StartsWithConcat(MISSED_HEADER,
      Concat(ReportLines(missed, true)) + (MISMATCHED_HEADER + Concat(ReportLines(mismatched, false))));
  }

  /**
   * validate: a list that is null makes the first loop (or the second
   * one) throw NullPointerException. Otherwise the missed regions are the
   * first detector's regions that the second cannot match, the mismatched
   * ones the other way round, and the report holds both lists. When the
   * report cannot be opened, the IOException is printed and nothing is
   * written.
   */
  method Validate(first: DetectionResult, second: DetectionResult, outputPath: string, writable: bool)
    returns (r: Result<seq<Artifact>, Exception>)
    ensures first.regions.None? || second.regions.None? <==> r == Failure(NullPointer)
    ensures first.regions.Some? && second.regions.Some? ==>
      var missed := Unmatched(first.regions.value, second.regions.value);
      var mismatched := Unmatched(second.regions.value, first.regions.value);
      r == Success(if writable then [ReportFile(outputPath, ReportText(missed, mismatched))] else [])
  {
    if first.regions.None? || second.regions.None? {
      return Failure(NullPointer);
    }
    var missed := FindUnmatched(first.regions.value, second.regions.value);
    var mismatched := FindUnmatched(second.regions.value, first.regions.value);
    if !writable {
      return Success([]);
    }
    return Success([ReportFile(outputPath, ReportText(missed, mismatched))]);
  }

  /** One of validate's two nested loops: each region is searched for a match, stopping at the first. */
  method FindUnmatched(xs: seq<TextRegion>, ys: seq<TextRegion>) returns (unmatched: seq<TextRegion>)
    ensures unmatched == Unmatched(xs, ys)
  {
    unmatched := [];
    for i := 0 to |xs|
      invariant unmatched == Unmatched(xs[..i], ys)
    {
      var matched := false;
      for j := 0 to |ys|
        invariant matched <==> exists k :: 0 <= k < j && Matches(xs[i], ys[k])
      {
        if Overlaps(xs[i], ys[j]) && SimilarText(xs[i].text, ys[j].text) {
          matched := true;
          break;
        }
      }
      assert xs[..i + 1][..i] == xs[..i];
      if !matched {
        unmatched := unmatched + [xs[i]];
      }
    }
    assert xs[..|xs|] == xs;
  }

  // ---------------------------------------------------------------------
  // Properties of the match relation

  lemma ZeroAreaHasNoIntersection(r1: TextRegion, r2: TextRegion)
    requires Area(r1) == 0 || Area(r2) == 0
    ensures Intersection(r1, r2) == 0
  {
    if Area(r1) == 0 {
      assert r1.width == 0 || r1.height == 0;
    } else {
      assert r2.width == 0 || r2.height == 0;
    }
  }

  /** overlaps holds exactly when the smaller area is positive and the intersection is more than half of it. */
  lemma OverlapsExactly(r1: TextRegion, r2: TextRegion)
    ensures Overlaps(r1, r2) <==>
      var minArea := Min(Area(r1), Area(r2));
      minArea > 0 && 2 * Intersection(r1, r2) > minArea
  {
    var minArea := Min(Area(r1), Area(r2));
    if minArea == 0 {
      ZeroAreaHasNoIntersection(r1, r2);
    }
  }

  /** Both the overlap test and the text test are symmetric, so matching is too. */
  lemma MatchesSymmetric(r1: TextRegion, r2: TextRegion)
    ensures Matches(r1, r2) <==> Matches(r2, r1)
  {
    assert Intersection(r1, r2) == Intersection(r2, r1);
    EqualsIgnoreCaseIsLowerEquality(r1.text, r2.text);
    EqualsIgnoreCaseIsLowerEquality(r2.text, r1.text);
  }

  /** Boxes that at most touch along an edge never overlap. */
  lemma SeparatedNeverOverlap(r1: TextRegion, r2: TextRegion)
    requires r1.x + r1.width <= r2.x || r1.y + r1.height <= r2.y
    ensures !Overlaps(r1, r2)
  {
    assert Intersection(r1, r2) == 0;
    OverlapsExactly(r1, r2);
  }

  lemma MulMonotone(a: int, b: int, c: int, d: int)
    requires 0 < a <= c && 0 < b <= d
    ensures a * b <= c * d
  {
    assert c * b - a * b == (c - a) * b;
    assert c * d - c * b == c * (d - b);
  }

  /** A box of positive area inside another matches it when the texts agree up to case. */
  lemma ContainedMatches(inner: TextRegion, outer: TextRegion)
    requires inner.width > 0 && inner.height > 0
    requires outer.x <= inner.x && inner.x + inner.width <= outer.x + outer.width
    requires outer.y <= inner.y && inner.y + inner.height <= outer.y + outer.height
    requires ToLower(inner.text) == ToLower(outer.text)
    ensures Matches(inner, outer)
  {
    assert Intersection(inner, outer) == Area(inner);
    MulMonotone(inner.width, inner.height, outer.width, outer.height);
    OverlapsExactly(inner, outer);
    EqualsIgnoreCaseIsLowerEquality(inner.text, outer.text);
  }

  // ---------------------------------------------------------------------
  // Properties of the discrepancy lists

  /** A region is reported exactly when it is in the list and nothing in the other list matches it. */
  lemma {:induction false} UnmatchedMembers(xs: seq<TextRegion>, ys: seq<TextRegion>, r: TextRegion)
    ensures r in Unmatched(xs, ys) <==> r in xs && !HasMatch(r, ys)
  {
    if xs != [] {
      var init := xs[..|xs| - 1];
      UnmatchedMembers(init, ys, r);
      assert xs == init + [xs[|xs| - 1]];
    }
  }

  /** Against an empty list nothing matches: every region is reported, in order. */
  lemma {:induction false} UnmatchedAgainstEmpty(xs: seq<TextRegion>)
    ensures Unmatched(xs, []) == xs
  {
    if xs != [] {
      UnmatchedAgainstEmpty(xs[..|xs| - 1]);
      assert xs == xs[..|xs| - 1] + [xs[|xs| - 1]];
    }
  }

  /** Regions of positive area all match themselves: a result checked against itself has no discrepancies. */
  lemma {:induction false} UnmatchedAgainstSelf(xs: seq<TextRegion>, ys: seq<TextRegion>)
    requires forall k :: 0 <= k < |xs| ==> xs[k].width > 0 && xs[k].height > 0 && xs[k] in ys
    ensures Unmatched(xs, ys) == []
  {
    if xs != [] {
      var x := xs[|xs| - 1];
      var k :| 0 <= k < |ys| && ys[k] == x;
      ContainedMatches(x, x);
      assert Matches(x, ys[k]);
      var init := xs[..|xs| - 1];
      assert forall k :: 0 <= k < |init| ==> init[k] == xs[k];
      UnmatchedAgainstSelf(init, ys);
    }
  }

  /** With no discrepancies the report is the two headers alone. */
  lemma EmptyReport()
    ensures ReportText([], []) == MISSED_HEADER + MISMATCHED_HEADER
  {
    assert ReportLines([], true) == [];
    assert ReportLines([], false) == [];
  }
}
