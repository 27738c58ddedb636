/** The voting stage of `hough-recog.c`: a Hough transform over the four
    angles -90, -45, 0 and 45 degrees.

    The trigonometry is not modelled. `distance(i, j, angle)` stands for the
    value `i * sin(phi) + j * cos(phi)` that the source computes for pixel
    row `i`, column `j` and `phi = angle` in radians, and `maxDistance`
    stands for `round(sqrt(2) * diag)`. What the source does with these
    values is modelled on exact reals: the range check
    `-maxDistance <= distance <= maxDistance` and the truncation of the cell
    index toward zero. The rounding of the C `float` arithmetic is not. */
module HoughAccum {
  import opened Pixbufs

  const MaxAngle: int := 90
  const AngleStep: int := 45

  type Distance = (int, int, int) -> real

  datatype Option<T> = None | Some(value: T)

  /** `matr_width`: one distance bucket for every integer in
      [-maxDistance, maxDistance]. */
  function MatrixWidth(maxDistance: nat): nat { 2 * maxDistance + 1 }

  /** `matr_height`: the angles in [-90, 90) stepped by 45. */
  function MatrixHeight(): nat { (MaxAngle * 2) / AngleStep }

  /** The `t`-th angle the inner loop visits: -90, -45, 0, 45. */
  function AngleAt(t: nat): int { t * AngleStep - MaxAngle }

  /** The cell that a vote at `angle` with distance `d` lands in, or None
      when the distance is out of range. The index `(angle + 90) / 45 *
      width + (d + maxDistance)` is computed in floating point and
      truncated; the summand is never negative, so truncation is `Floor`. */
  function Cell(d: real, angle: int, maxDistance: nat): (cell: Option<int>)
    ensures cell.Some? <==> -(maxDistance as real) <= d <= maxDistance as real
    ensures cell.Some? ==>
      var rowStart := (angle + MaxAngle) / AngleStep * MatrixWidth(maxDistance);
      rowStart <= cell.value < rowStart + MatrixWidth(maxDistance)
  {
    if -(maxDistance as real) <= d && d <= maxDistance as real then
      Some((angle + MaxAngle) / AngleStep * MatrixWidth(maxDistance) + (d + maxDistance as real).Floor)
    else
      None
  }

  /** A vote at the `t`-th angle lands in row `t` of the matrix, at a
      distance bucket in [0, 2 * maxDistance]. */
  lemma CellInAngleRow(d: real, t: nat, maxDistance: nat)
    requires t < MatrixHeight()
    ensures Cell(d, AngleAt(t), maxDistance).Some? <==>
      -(maxDistance as real) <= d <= maxDistance as real
    ensures Cell(d, AngleAt(t), maxDistance).Some? ==>
      var k := Cell(d, AngleAt(t), maxDistance).value;
      t * MatrixWidth(maxDistance) <= k < (t + 1) * MatrixWidth(maxDistance)
  {
    var w := MatrixWidth(maxDistance);
    assert (AngleAt(t) + MaxAngle) / AngleStep == t;
    if -(maxDistance as real) <= d <= maxDistance as real {
      var f := (d + maxDistance as real).Floor;
      assert 0 <= f < w;
      assert (t + 1) * w == t * w + w;
    }
  }

  /** Votes that a foreground pixel (i, j) casts into cell `k` over the
      first `a` angles: one for every one of those angles whose cell is `k`. */
  ghost function AngleVotes(distance: Distance, maxDistance: nat, i: nat, j: nat, a: nat, k: int): nat
  {
    if a == 0 then 0
    else AngleVotes(distance, maxDistance, i, j, a - 1, k) +
         (if Cell(distance(i, j, AngleAt(a - 1)), AngleAt(a - 1), maxDistance) == Some(k) then 1 else 0)
  }

  /** Votes that pixel (i, j) casts into cell `k`: none for a background
      pixel, its votes over all four angles for a foreground pixel. */
  ghost function PixelVotes(img: Pixbuf, distance: Distance, maxDistance: nat, i: nat, j: nat, k: int): nat
    reads img.pixels
    requires img.Valid() && i < img.height && j < img.width
  {
    if img.IsForeground(i, j) then AngleVotes(distance, maxDistance, i, j, MatrixHeight(), k) else 0
  }

  /** Votes into cell `k` from the first `j` pixels of row `i`. */
  ghost function RowVotes(img: Pixbuf, distance: Distance, maxDistance: nat,
                          i: nat, j: nat, k: int): nat
    reads img.pixels
    requires img.Valid() && i < img.height && j <= img.width
  {
    if j == 0 then 0
    else RowVotes(img, distance, maxDistance, i, j - 1, k) +
         PixelVotes(img, distance, maxDistance, i, j - 1, k)
  }

  /** Votes into cell `k` from the first `i` rows of the image. */
  ghost function Votes(img: Pixbuf, distance: Distance, maxDistance: nat, i: nat, k: int): nat
    reads img.pixels
    requires img.Valid() && i <= img.height
  {
    if i == 0 then 0
    else Votes(img, distance, maxDistance, i - 1, k) +
         RowVotes(img, distance, maxDistance, i - 1, img.width, k)
  }

  /** Foreground pixels among the first `j` of row `i`. */
  ghost function RowForeground(img: Pixbuf, i: nat, j: nat): nat
    reads img.pixels
    requires img.Valid() && i < img.height && j <= img.width
  {
    if j == 0 then 0
    else RowForeground(img, i, j - 1) + (if img.IsForeground(i, j - 1) then 1 else 0)
  }

  /** Foreground pixels in the first `i` rows. */
  ghost function Foreground(img: Pixbuf, i: nat): nat
    reads img.pixels
    requires img.Valid() && i <= img.height
  {
    if i == 0 then 0 else Foreground(img, i - 1) + RowForeground(img, i - 1, img.width)
  }

  /** `accum_matrix_from_image_with_length`: a zeroed matrix of
      `(2 * maxDistance + 1) * 4` cells, in which every cell holds the
      number of votes the foreground pixels cast into it. */
  method AccumMatrix(img: Pixbuf, distance: Distance, maxDistance: nat)
    returns (matrix: array<int>, matrWidth: nat, matrHeight: nat)
    requires img.Valid()
    ensures fresh(matrix)
    ensures matrWidth == 2 * maxDistance + 1 && matrHeight == 4
    ensures matrix.Length == matrWidth * matrHeight
    ensures forall k :: 0 <= k < matrix.Length ==>
      matrix[k] == Votes(img, distance, maxDistance, img.height, k)
    ensures forall k :: 0 <= k < matrix.Length ==> 0 <= matrix[k] <= Foreground(img, img.height)
  {
    var maxAngle := MaxAngle;
    matrWidth := maxDistance * 2 + 1;
    matrHeight := (maxAngle * 2) / AngleStep;
    var matrixSize := matrWidth * matrHeight;
    matrix := new int[matrixSize](_ => 0);

    for i := 0 to img.height
      invariant forall k :: 0 <= k < matrixSize ==>
        matrix[k] == Votes(img, distance, maxDistance, i, k)
    {
      for j := 0 to img.width
        invariant forall k :: 0 <= k < matrixSize ==>
          matrix[k] == Votes(img, distance, maxDistance, i, k)
                     + RowVotes(img, distance, maxDistance, i, j, k)
      {
        var index := img.Offset(i, j);
        if img.pixels[index] != 0 {
          continue;
        }
        CastVotes(distance, maxDistance, matrix, i, j);
      }
    }
    forall k | 0 <= k < matrix.Length
      ensures 0 <= matrix[k] <= Foreground(img, img.height)
    {
      VotesBounded(img, distance, maxDistance, img.height, k);
    }
  }

  /** The loop over the four angles for the foreground pixel (i, j): a vote
      for every angle whose distance is in range. */
  method CastVotes(distance: Distance, maxDistance: nat, matrix: array<int>, i: nat, j: nat)
    requires matrix.Length == MatrixWidth(maxDistance) * MatrixHeight()
    modifies matrix
    ensures forall k :: 0 <= k < matrix.Length ==>
      matrix[k] == old(matrix[k]) + AngleVotes(distance, maxDistance, i, j, MatrixHeight(), k)
  {
    var maxAngle := MaxAngle;
    var minAngle := -maxAngle;
    var angle := minAngle;
    ghost var t := 0;
    while angle < maxAngle
      invariant t <= MatrixHeight() && angle == AngleAt(t)
      invariant forall k :: 0 <= k < matrix.Length ==>
        matrix[k] == old(matrix[k]) + AngleVotes(distance, maxDistance, i, j, t, k)
    {
      CastVote(distance, maxDistance, matrix, i, j, angle, t);
      angle := angle + AngleStep;
      t := t + 1;
    }
  }

  /** The body of the angle loop: the vote of pixel (i, j) at `angle`, the
      `t`-th angle, goes to its cell when the distance is in range. */
  method CastVote(distance: Distance, maxDistance: nat, matrix: array<int>, i: nat, j: nat,
                  angle: int, ghost t: nat)
    requires matrix.Length == MatrixWidth(maxDistance) * MatrixHeight()
    requires t < MatrixHeight() && angle == AngleAt(t)
    modifies matrix
    ensures forall k :: 0 <= k < matrix.Length ==>
      matrix[k] == old(matrix[k]) + (if Cell(distance(i, j, angle), angle, maxDistance) == Some(k) then 1 else 0)
  {
    var minDistance := -(maxDistance as int);
    var maxAngle := MaxAngle;
    var matrWidth := MatrixWidth(maxDistance);
    var d := distance(i, j, angle);
    assert (angle + maxAngle) / AngleStep == t;
    CellInAngleRow(d, t, maxDistance);
    if d >= minDistance as real && d <= maxDistance as real {
      var index := (angle + maxAngle) / AngleStep * matrWidth + (d + maxDistance as real).Floor;
      matrix[index] := matrix[index] + 1;
    }
  }

  /** Each pixel casts at most one vote into any one cell, since its four
      votes land in four different rows of the matrix. */
  lemma {:induction false} AtMostOneVotePerPixel(distance: Distance, maxDistance: nat,
                                                 i: nat, j: nat, a: nat, k: int)
    requires a <= MatrixHeight()
    ensures AngleVotes(distance, maxDistance, i, j, a, k) <= 1
    ensures AngleVotes(distance, maxDistance, i, j, a, k) == 1 ==>
      0 <= k < a * MatrixWidth(maxDistance)
  {
    if a > 0 {
      AtMostOneVotePerPixel(distance, maxDistance, i, j, a - 1, k);
      CellInAngleRow(distance(i, j, AngleAt(a - 1)), a - 1, maxDistance);
      var w := MatrixWidth(maxDistance);
      assert a * w == (a - 1) * w + w;
    }
  }

  /** A cell never holds more votes than there are foreground pixels. */
  lemma {:induction false} VotesBounded(img: Pixbuf, distance: Distance, maxDistance: nat, i: nat, k: int)
    requires img.Valid() && i <= img.height
    ensures 0 <= Votes(img, distance, maxDistance, i, k) <= Foreground(img, i)
  {
    if i > 0 {
      VotesBounded(img, distance, maxDistance, i - 1, k);
      RowVotesBounded(img, distance, maxDistance, i - 1, img.width, k);
    }
  }

  lemma {:induction false} RowVotesBounded(img: Pixbuf, distance: Distance, maxDistance: nat,
                                           i: nat, j: nat, k: int)
    requires img.Valid() && i < img.height && j <= img.width
    ensures RowVotes(img, distance, maxDistance, i, j, k) <= RowForeground(img, i, j)
  {
    if j > 0 {
      RowVotesBounded(img, distance, maxDistance, i, j - 1, k);
      AtMostOneVotePerPixel(distance, maxDistance, i, j - 1, MatrixHeight(), k);
    }
  }

  /** Only cells of the matrix receive votes: outside [0, width * 4) every
      count is 0. */
  lemma {:induction false} VotesInsideMatrix(img: Pixbuf, distance: Distance, maxDistance: nat, i: nat, k: int)
    requires img.Valid() && i <= img.height
    requires k < 0 || MatrixWidth(maxDistance) * MatrixHeight() <= k
    ensures Votes(img, distance, maxDistance, i, k) == 0
  {
    if i > 0 {
      VotesInsideMatrix(img, distance, maxDistance, i - 1, k);
      RowVotesInsideMatrix(img, distance, maxDistance, i - 1, img.width, k);
    }
  }

  lemma {:induction false} RowVotesInsideMatrix(img: Pixbuf, distance: Distance, maxDistance: nat,
                                                i: nat, j: nat, k: int)
    requires img.Valid() && i < img.height && j <= img.width
    requires k < 0 || MatrixWidth(maxDistance) * MatrixHeight() <= k
    ensures RowVotes(img, distance, maxDistance, i, j, k) == 0
  {
    if j > 0 {
      RowVotesInsideMatrix(img, distance, maxDistance, i, j - 1, k);
      AtMostOneVotePerPixel(distance, maxDistance, i, j - 1, MatrixHeight(), k);
    }
  }

  /** An image without foreground pixels yields an all-zero matrix. */
  lemma BlankImageNoVotes(img: Pixbuf, distance: Distance, maxDistance: nat, k: int)
    requires img.Valid()
    requires forall i: nat, j: nat :: i < img.height && j < img.width ==> !img.IsForeground(i, j)
    ensures Votes(img, distance, maxDistance, img.height, k) == 0
  {
    NoForeground(img, img.height);
    VotesBounded(img, distance, maxDistance, img.height, k);
  }

  lemma {:induction false} NoForeground(img: Pixbuf, i: nat)
    requires img.Valid() && i <= img.height
    requires forall r: nat, c: nat :: r < img.height && c < img.width ==> !img.IsForeground(r, c)
    ensures Foreground(img, i) == 0
  {
    if i > 0 {
      NoForeground(img, i - 1);
      NoRowForeground(img, i - 1, img.width);
    }
  }

  lemma {:induction false} NoRowForeground(img: Pixbuf, i: nat, j: nat)
    requires img.Valid() && i < img.height && j <= img.width
    requires forall c: nat :: c < img.width ==> !img.IsForeground(i, c)
    ensures RowForeground(img, i, j) == 0
  {
    if j > 0 {
      NoRowForeground(img, i, j - 1);
    }
  }
}
