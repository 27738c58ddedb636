/** The bounding-box crop of `imgproc.c`: four directional scans for the
    first foreground pixel, a copy of the enclosed rectangle into a new
    buffer, and their composition. */
module ImgProc {
  import opened Pixbufs

  /** A pixel position: column `x`, row `y`. */
  datatype Point = Point(x: nat, y: nat)

  ghost predicate HasForeground(img: Pixbuf)
    reads img.pixels
    requires img.Valid()
  {
    exists i: nat, j: nat :: i < img.height && j < img.width && img.IsForeground(i, j)
  }

  ghost predicate RowHasForeground(img: Pixbuf, i: nat)
    reads img.pixels
    requires img.Valid() && i < img.height
  {
    exists j: nat :: j < img.width && img.IsForeground(i, j)
  }

  ghost predicate ColumnHasForeground(img: Pixbuf, j: nat)
    reads img.pixels
    requires img.Valid() && j < img.width
  {
    exists i: nat :: i < img.height && img.IsForeground(i, j)
  }

  /** The rectangle at column x, row y, of the given size lies inside the
      image, contains every foreground pixel, and each of its four edges
      touches one. */
  ghost predicate IsBoundingBox(img: Pixbuf, x: nat, y: nat, width: nat, height: nat)
    reads img.pixels
    requires img.Valid()
  {
    1 <= width && 1 <= height && x + width <= img.width && y + height <= img.height &&
    (forall i: nat, j: nat :: i < img.height && j < img.width && img.IsForeground(i, j) ==>
       y <= i < y + height && x <= j < x + width) &&
    RowHasForeground(img, y) && RowHasForeground(img, y + height - 1) &&
    ColumnHasForeground(img, x) && ColumnHasForeground(img, x + width - 1)
  }

  /** Two rectangles that both bound the foreground are the same one. */
  lemma BoundingBoxUnique(img: Pixbuf, x0: nat, y0: nat, w0: nat, h0: nat,
                          x1: nat, y1: nat, w1: nat, h1: nat)
    requires img.Valid()
    requires IsBoundingBox(img, x0, y0, w0, h0) && IsBoundingBox(img, x1, y1, w1, h1)
    ensures x0 == x1 && y0 == y1 && w0 == w1 && h0 == h1
  {
    var j0: nat :| j0 < img.width && img.IsForeground(y0, j0);
    var j1: nat :| j1 < img.width && img.IsForeground(y1, j1);
    var j2: nat :| j2 < img.width && img.IsForeground(y0 + h0 - 1, j2);
    var j3: nat :| j3 < img.width && img.IsForeground(y1 + h1 - 1, j3);
    var i0: nat :| i0 < img.height && img.IsForeground(i0, x0);
    var i1: nat :| i1 < img.height && img.IsForeground(i1, x1);
    var i2: nat :| i2 < img.height && img.IsForeground(i2, x0 + w0 - 1);
    var i3: nat :| i3 < img.height && img.IsForeground(i3, x1 + w1 - 1);
  }

  /** Row-major scan from the top: the first foreground pixel of the
      topmost row that has one. */
  method ScanTop(img: Pixbuf) returns (top: Point)
    requires img.Valid() && HasForeground(img)
    ensures top.y < img.height && top.x < img.width && img.IsForeground(top.y, top.x)
    ensures forall i: nat, j: nat :: i < top.y && j < img.width ==> !img.IsForeground(i, j)
    ensures forall j: nat :: j < top.x ==> !img.IsForeground(top.y, j)
  {
    var i := 0;
    while i < img.height
      invariant 0 <= i <= img.height
      invariant forall r: nat, c: nat :: r < i && c < img.width ==> !img.IsForeground(r, c)
    {
      var j := 0;
      while j < img.width
        invariant 0 <= j <= img.width
        invariant forall c: nat :: c < j ==> !img.IsForeground(i, c)
      {
        var index := img.Offset(i, j);
        if img.pixels[index] == 0 {
          return Point(j, i);
        }
        j := j + 1;
      }
      i := i + 1;
    }
    assert false;
  }

  /** Column-major scan from the left: the topmost foreground pixel of the
      leftmost column that has one. */
  method ScanLeft(img: Pixbuf) returns (left: Point)
    requires img.Valid() && HasForeground(img)
    ensures left.y < img.height && left.x < img.width && img.IsForeground(left.y, left.x)
    ensures forall i: nat, j: nat :: i < img.height && j < left.x ==> !img.IsForeground(i, j)
    ensures forall i: nat :: i < left.y ==> !img.IsForeground(i, left.x)
  {
    var i := 0;
    while i < img.width
      invariant 0 <= i <= img.width
      invariant forall r: nat, c: nat :: r < img.height && c < i ==> !img.IsForeground(r, c)
    {
      var j := 0;
      while j < img.height
        invariant 0 <= j <= img.height
        invariant forall r: nat :: r < j ==> !img.IsForeground(r, i)
      {
        var index := img.Offset(j, i);
        if img.pixels[index] == 0 {
          return Point(i, j);
        }
        j := j + 1;
      }
      i := i + 1;
    }
    assert false;
  }

  /** Row-major scan from the bottom: the first foreground pixel of the
      lowest row that has one. */
  method ScanBottom(img: Pixbuf) returns (bottom: Point)
    requires img.Valid() && HasForeground(img)
    ensures bottom.y < img.height && bottom.x < img.width && img.IsForeground(bottom.y, bottom.x)
    ensures forall i: nat, j: nat :: bottom.y < i < img.height && j < img.width ==> !img.IsForeground(i, j)
    ensures forall j: nat :: j < bottom.x ==> !img.IsForeground(bottom.y, j)
  {
    var i := img.height - 1;
    while i >= 0
      invariant -1 <= i < img.height
      invariant forall r: nat, c: nat :: i < r < img.height && c < img.width ==> !img.IsForeground(r, c)
    {
      var j := 0;
      while j < img.width
        invariant 0 <= j <= img.width
        invariant forall c: nat :: c < j ==> !img.IsForeground(i, c)
      {
        var index := img.Offset(i, j);
        if img.pixels[index] == 0 {
          return Point(j, i);
        }
        j := j + 1;
      }
      i := i - 1;
    }
    assert false;
  }

  /** Column-major scan from the right: the topmost foreground pixel of the
      rightmost column that has one. */
  method ScanRight(img: Pixbuf) returns (right: Point)
    requires img.Valid() && HasForeground(img)
    ensures right.y < img.height && right.x < img.width && img.IsForeground(right.y, right.x)
    ensures forall i: nat, j: nat :: i < img.height && right.x < j < img.width ==> !img.IsForeground(i, j)
    ensures forall i: nat :: i < right.y ==> !img.IsForeground(i, right.x)
  {
    var i := img.width - 1;
    while i >= 0
      invariant -1 <= i < img.width
      invariant forall r: nat, c: nat :: r < img.height && i < c < img.width ==> !img.IsForeground(r, c)
    {
      var j := 0;
      while j < img.height
        invariant 0 <= j <= img.height
        invariant forall r: nat :: r < j ==> !img.IsForeground(r, i)
      {
        var index := img.Offset(j, i);
        if img.pixels[index] == 0 {
          return Point(i, j);
        }
        j := j + 1;
      }
      i := i - 1;
    }
    assert false;
  }

  /** `crop`: the bounding box of the foreground, as column, row, width and
      height. Without a foreground pixel the source reads uninitialised
      points, so one is required. */
  method Crop(img: Pixbuf) returns (x: nat, y: nat, width: nat, height: nat)
    requires img.Valid() && HasForeground(img)
    ensures IsBoundingBox(img, x, y, width, height)
  {
    var top := ScanTop(img);
    var left := ScanLeft(img);
    var bottom := ScanBottom(img);
    var right := ScanRight(img);
    assert top.y <= bottom.y && left.x <= right.x;
    x := left.x;
    y := top.y;
    width := right.x - left.x + 1;
    height := bottom.y - top.y + 1;
  }

  /** Every sample of channels 0..2 of `dest` equals the sample of `src`
      shifted by (x, y). */
  ghost predicate CopiesRegion(dest: Pixbuf, src: Pixbuf, x: nat, y: nat)
    reads dest.pixels, src.pixels
    requires dest.Valid() && src.Valid()
    requires x + dest.width <= src.width && y + dest.height <= src.height
  {
    forall i: nat, j: nat, c: nat :: i < dest.height && j < dest.width && c < 3 ==>
      dest.Sample(i, j, c) == src.Sample(i + y, j + x, c)
  }

  /** `get_image_from_ROI`: a new buffer of the given size, with the same
      number of channels, holding the RGB samples of the rectangle of `img`
      at column x, row y. An alpha channel is not copied. */
  method GetImageFromROI(img: Pixbuf, x: nat, y: nat, width: nat, height: nat) returns (dest: Pixbuf)
    requires img.Valid()
    requires 1 <= width && 1 <= height && x + width <= img.width && y + height <= img.height
    ensures fresh(dest) && fresh(dest.pixels) && dest.Valid()
    ensures dest.width == width && dest.height == height && dest.nChannels == img.nChannels
    ensures CopiesRegion(dest, img, x, y)
  {
    dest := new Pixbuf(width, height, img.nChannels);
    for i := 0 to height
      invariant forall i0: nat, j0: nat, c: nat :: i0 < i && j0 < width && c < 3 ==>
        dest.Sample(i0, j0, c) == img.Sample(i0 + y, j0 + x, c)
    {
      for j := 0 to width
        invariant forall i0: nat, j0: nat, c: nat :: (i0 < i || (i0 == i && j0 < j)) && j0 < width && c < 3 ==>
          dest.Sample(i0, j0, c) == img.Sample(i0 + y, j0 + x, c)
      {
        CopyPixel(dest, img, i, j, x, y);
      }
    }
  }

  /** The body of the copy loop: the RGB samples of pixel (i + y, j + x) of
      `src` go to pixel (i, j) of `dest`, and no other byte of `dest`
      changes; in particular the pixels before (i, j) in row order keep
      their samples. */
  method CopyPixel(dest: Pixbuf, src: Pixbuf, i: nat, j: nat, x: nat, y: nat)
    requires dest.Valid() && src.Valid() && dest.pixels != src.pixels
    requires dest.nChannels == src.nChannels
    requires i < dest.height && j < dest.width
    requires x + dest.width <= src.width && y + dest.height <= src.height
    modifies dest.pixels
    ensures forall c: nat :: c < 3 ==> dest.Sample(i, j, c) == src.Sample(i + y, j + x, c)
    ensures forall k :: 0 <= k < dest.pixels.Length && !(dest.Offset(i, j) <= k < dest.Offset(i, j) + 3) ==>
      dest.pixels[k] == old(dest.pixels[k])
    ensures forall i0: nat, j0: nat, c: nat :: (i0 < i || (i0 == i && j0 < j)) && j0 < dest.width && c < 3 ==>
      dest.Sample(i0, j0, c) == old(dest.Sample(i0, j0, c))
  {
    var srcIndex := src.Offset(i + y, j + x);
    var dstIndex := dest.Offset(i, j);
    forall i0: nat, j0: nat | (i0 < i || (i0 == i && j0 < j)) && j0 < dest.width
      ensures dest.Offset(i0, j0) + dest.nChannels <= dstIndex
    {
      dest.OffsetBefore(i0, j0, i, j);
    }
    dest.pixels[dstIndex] := src.pixels[srcIndex];
    dest.pixels[dstIndex + 1] := src.pixels[srcIndex + 1];
    dest.pixels[dstIndex + 2] := src.pixels[srcIndex + 2];
  }

  /** A buffer that copies exactly the bounding box of `src` is its own
      bounding box: every edge of it touches a foreground pixel. */
  lemma CroppedIsTight(dest: Pixbuf, src: Pixbuf, x: nat, y: nat)
    requires dest.Valid() && src.Valid()
    requires IsBoundingBox(src, x, y, dest.width, dest.height)
    requires CopiesRegion(dest, src, x, y)
    ensures IsBoundingBox(dest, 0, 0, dest.width, dest.height)
  {
    forall i: nat, j: nat | i < dest.height && j < dest.width
      ensures dest.IsForeground(i, j) <==> src.IsForeground(i + y, j + x)
    {
      assert dest.Sample(i, j, 0) == src.Sample(i + y, j + x, 0);
    }
    var j0: nat :| j0 < src.width && src.IsForeground(y, j0);
    assert dest.IsForeground(0, j0 - x);
    var j1: nat :| j1 < src.width && src.IsForeground(y + dest.height - 1, j1);
    assert dest.IsForeground(dest.height - 1, j1 - x);
    var i0: nat :| i0 < src.height && src.IsForeground(i0, x);
    assert dest.IsForeground(i0 - y, 0);
    var i1: nat :| i1 < src.height && src.IsForeground(i1, x + dest.width - 1);
    assert dest.IsForeground(i1 - y, dest.width - 1);
  }

  /** `cropImage`: the foreground's bounding box copied into a new buffer.
      The result is already cropped: its own bounding box is the whole image,
      so cropping it again changes nothing. */
  method CropImage(img: Pixbuf) returns (cropped: Pixbuf)
    requires img.Valid() && HasForeground(img)
    ensures fresh(cropped) && fresh(cropped.pixels) && cropped.Valid()
    ensures cropped.nChannels == img.nChannels
    ensures exists x: nat, y: nat ::
      x + cropped.width <= img.width && y + cropped.height <= img.height &&
      IsBoundingBox(img, x, y, cropped.width, cropped.height) && CopiesRegion(cropped, img, x, y)
    ensures IsBoundingBox(cropped, 0, 0, cropped.width, cropped.height)
  {
    var x, y, width, height := Crop(img);
    cropped := GetImageFromROI(img, x, y, width, height);
    CroppedIsTight(cropped, img, x, y);
  }

  /** Cropping twice is cropping once: on the output of `CropImage` the box
      that `Crop` finds is the whole buffer. */
  lemma CropImageIdempotent(cropped: Pixbuf, x: nat, y: nat, width: nat, height: nat)
    requires cropped.Valid()
    requires IsBoundingBox(cropped, 0, 0, cropped.width, cropped.height)
    requires IsBoundingBox(cropped, x, y, width, height)
    ensures x == 0 && y == 0 && width == cropped.width && height == cropped.height
  {
    BoundingBoxUnique(cropped, 0, 0, cropped.width, cropped.height, x, y, width, height);
  }
}
