/** The part of a GdkPixbuf that the recogniser relies on: an 8-bit-per-sample
    RGB or RGBA buffer, stored row after row with `rowstride` bytes between
    the starts of two consecutive rows and `nChannels` bytes per pixel. */
module Pixbufs {

  /** One 8-bit sample (a `guchar`). */
  type Byte = x: int | 0 <= x < 256

  class Pixbuf {
    const width: nat
    const height: nat
    const nChannels: nat
    const rowstride: nat
    const pixels: array<Byte>

    /** The layout GdkPixbuf guarantees: positive dimensions, three or four
        channels, rows at least `width * nChannels` long, and enough bytes
        for every row; the padding of the last row may be missing. */
    ghost predicate Valid() {
      1 <= width && 1 <= height && (nChannels == 3 || nChannels == 4) &&
      width * nChannels <= rowstride &&
      pixels.Length >= (height - 1) * rowstride + width * nChannels
    }

    /** `gdk_pixbuf_new`: a fresh buffer of `height` rows, each padded to a
        multiple of four bytes; its samples are not initialised. */
    constructor (width: nat, height: nat, nChannels: nat)
      requires 1 <= width && 1 <= height && (nChannels == 3 || nChannels == 4)
      ensures Valid() && fresh(pixels)
      ensures this.width == width && this.height == height && this.nChannels == nChannels
      ensures rowstride == (width * nChannels + 3) / 4 * 4 && pixels.Length == height * rowstride
    {
      var stride := (width * nChannels + 3) / 4 * 4;
      this.width := width;
      this.height := height;
      this.nChannels := nChannels;
      rowstride := stride;
      pixels := new Byte[height * stride];
    }

    /** Index of the first sample of pixel (i, j): `i * rowstride + j * n_channels`. */
    function Offset(i: nat, j: nat): (o: nat)
      requires Valid() && i < height && j < width
      ensures o + nChannels <= pixels.Length
    {
      OffsetBound(i, j);
      i * rowstride + j * nChannels
    }

    lemma OffsetBound(i: nat, j: nat)
      requires Valid() && i < height && j < width
      ensures i * rowstride + j * nChannels + nChannels <= pixels.Length
    {
      assert i * rowstride <= (height - 1) * rowstride by {
        MulLeq(i, height - 1, rowstride);
      }
      assert j * nChannels + nChannels <= width * nChannels by {
        MulLeq(j + 1, width, nChannels);
      }
    }

    /** The samples of a pixel that precedes (i, j) in row-major order all
        lie before the first sample of (i, j). */
    lemma OffsetBefore(i0: nat, j0: nat, i: nat, j: nat)
      requires Valid() && i0 < height && j0 < width && i < height && j < width
      requires i0 < i || (i0 == i && j0 < j)
      ensures Offset(i0, j0) + nChannels <= Offset(i, j)
    {
      if i0 < i {
        calc {
          Offset(i0, j0) + nChannels;
          i0 * rowstride + (j0 + 1) * nChannels;
        <= { MulLeq(j0 + 1, width, nChannels); }
          i0 * rowstride + rowstride;
          (i0 + 1) * rowstride;
        <= { MulLeq(i0 + 1, i, rowstride); }
          i * rowstride;
        }
      } else {
        assert j0 * nChannels + nChannels == (j0 + 1) * nChannels;
        MulLeq(j0 + 1, j, nChannels);
      }
    }

    /** Sample `c` of pixel (i, j). */
    function Sample(i: nat, j: nat, c: nat): Byte
      reads pixels
      requires Valid() && i < height && j < width && c < nChannels
    {
      pixels[Offset(i, j) + c]
    }

    /** A pixel is foreground when its first channel is 0 (black on a
        binarised image). */
    predicate IsForeground(i: nat, j: nat): (r: bool)
      reads pixels
      requires Valid() && i < height && j < width
      ensures r <==> Sample(i, j, 0) == 0
    {
      pixels[Offset(i, j)] == 0
    }
  }

  lemma MulLeq(a: nat, b: nat, c: nat)
    requires a <= b
    ensures a * c <= b * c
  {
    assert b * c == a * c + (b - a) * c;
  }
}
