/**
 * The OpenCV drawing the redaction scripts rely on. Images are numpy
 * arrays indexed [row, column]; a pixel is one packed value, with black
 * (0, 0, 0) as 0.
 */
module OpenCvDraw {

  /** A bounding box: left x, top y, width w, height h. */
  datatype Rect = Rect(x: int, y: int, w: int, h: int)

  const BLACK: int := 0

  function Min(a: int, b: int): int { if a <= b then a else b }
  function Max(a: int, b: int): int { if a >= b then a else b }

  /**
   * cv2.rectangle(image, (x, y), (x + w, y + h), color, thickness=-1)
   * fills the closed rectangle between the two corners, both included.
   */
  predicate Covers(r: Rect, row: int, col: int) {
    Min(r.x, r.x + r.w) <= col <= Max(r.x, r.x + r.w) && Min(r.y, r.y + r.h) <= row <= Max(r.y, r.y + r.h)
  }

  predicate CoveredByAny(rs: seq<Rect>, row: int, col: int) {
    exists k :: 0 <= k < |rs| && Covers(rs[k], row, col)
  }

  /** One filled cv2.rectangle, clipped to the image. */
  method FillRectangle(image: array2<int>, r: Rect, color: int)
    modifies image
    ensures forall i, j :: 0 <= i < image.Length0 && 0 <= j < image.Length1 ==>
      image[i, j] == if Covers(r, i, j) then color else old(image[i, j])
  {
    forall i, j | 0 <= i < image.Length0 && 0 <= j < image.Length1 && Covers(r, i, j) {
      image[i, j] := color;
    }
  }

  /** The rectangles filled one after another with the same colour, in place. */
  method FillRectangles(image: array2<int>, rs: seq<Rect>, color: int)
    modifies image
    ensures forall i, j :: 0 <= i < image.Length0 && 0 <= j < image.Length1 ==>
      image[i, j] == if CoveredByAny(rs, i, j) then color else old(image[i, j])
  {
    for k := 0 to |rs|
      invariant forall i, j :: 0 <= i < image.Length0 && 0 <= j < image.Length1 ==>
        image[i, j] == if CoveredByAny(rs[..k], i, j) then color else old(image[i, j])
    {
      FillRectangle(image, rs[k], color);
      forall i, j | 0 <= i < image.Length0 && 0 <= j < image.Length1
        ensures CoveredByAny(rs[..k + 1], i, j) <==> CoveredByAny(rs[..k], i, j) || Covers(rs[k], i, j)
      {
        if CoveredByAny(rs[..k + 1], i, j) && !Covers(rs[k], i, j) {
          var m :| 0 <= m < k + 1 && Covers(rs[..k + 1][m], i, j);
          assert rs[..k][m] == rs[..k + 1][m];
        }
        if CoveredByAny(rs[..k], i, j) {
          var m :| 0 <= m < k && Covers(rs[..k][m], i, j);
          assert rs[..k + 1][m] == rs[..k][m];
        }
        if Covers(rs[k], i, j) {
          assert rs[..k + 1][k] == rs[k];
        }
      }
    }
    assert rs[..|rs|] == rs;
  }

  /** Row i of the image, left to right. */
  function Row(image: array2<int>, i: int): (row: seq<int>)
    requires 0 <= i < image.Length0
    reads image
    ensures |row| == image.Length1
    ensures forall j :: 0 <= j < image.Length1 ==> row[j] == image[i, j]
  {
    seq(image.Length1, j requires 0 <= j < image.Length1 reads image => image[i, j])
  }

  /** The first n rows, one after another. */
  function Rows(image: array2<int>, n: int): (flat: seq<int>)
    requires 0 <= n <= image.Length0
    reads image
    ensures |flat| == n * image.Length1
  {
    if n == 0 then [] else Rows(image, n - 1) + Row(image, n - 1)
  }

  /** image.tobytes(): the pixels row after row. */
  function Flatten(image: array2<int>): seq<int>
    reads image
  {
    Rows(image, image.Length0)
  }

  lemma {:induction false} RowsAt(image: array2<int>, n: int, i: int, j: int)
    requires 0 <= i < n <= image.Length0 && 0 <= j < image.Length1
    ensures 0 <= i * image.Length1 + j < |Rows(image, n)|
    ensures Rows(image, n)[i * image.Length1 + j] == image[i, j]
  {
    if i < n - 1 {
      RowsAt(image, n - 1, i, j);
    }
  }

  /** Pixel (i, j) lands at offset i * width + j of the flattened data. */
  lemma FlattenAt(image: array2<int>, i: int, j: int)
    requires 0 <= i < image.Length0 && 0 <= j < image.Length1
    ensures |Flatten(image)| == image.Length0 * image.Length1
    ensures 0 <= i * image.Length1 + j < image.Length0 * image.Length1
    ensures Flatten(image)[i * image.Length1 + j] == image[i, j]
  {
    RowsAt(image, image.Length0, i, j);
  }

  /**
   * cv2.cvtColor(image, cv2.COLOR_BGR2GRAY).tobytes(): one grey level per
   * pixel, row after row; the colour-to-grey conversion is `gray`.
   */
  function GrayBytes(image: array2<int>, gray: int -> int): seq<int>
    reads image
  {
    var flat := Flatten(image);
    seq(|flat|, k requires 0 <= k < |flat| => gray(flat[k]))
  }
}
