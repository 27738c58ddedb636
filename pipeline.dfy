/** How the three stages of `hough-recog.c` fit together on an image
    without foreground pixels. */
module HoughPipeline {
  import opened Pixbufs
  import HoughAccum
  import HoughFilter
  import HoughIdentify

  /** A blank image casts no votes, so the clustering finds no lines and
      the decision tree answers -1. */
  lemma BlankImageUnrecognised(img: Pixbuf, distance: HoughAccum.Distance, maxDistance: nat,
                               cells: seq<int>, imgDiagLength: nat)
    requires img.Valid()
    requires forall i: nat, j: nat :: i < img.height && j < img.width ==> !img.IsForeground(i, j)
    requires |cells| == HoughAccum.MatrixWidth(maxDistance) * HoughAccum.MatrixHeight()
    requires forall k :: 0 <= k < |cells| ==>
      cells[k] == HoughAccum.Votes(img, distance, maxDistance, img.height, k)
    ensures HoughFilter.FilterPrefix(cells, HoughAccum.MatrixWidth(maxDistance), |cells|) == map[]
    ensures var table := HoughFilter.FilterPrefix(cells, HoughAccum.MatrixWidth(maxDistance), |cells|);
      forall keys :: HoughIdentify.KeyOrder(table, keys) ==>
        HoughIdentify.IdentifyNumber(table, keys, img.height, imgDiagLength) == -1
  {
    forall k | 0 <= k < |cells| ensures cells[k] <= HoughFilter.Threshold {
      HoughAccum.BlankImageNoVotes(img, distance, maxDistance, k);
    }
    HoughFilter.QuietMatrixNoLines(cells, HoughAccum.MatrixWidth(maxDistance), |cells|);
    var table := HoughFilter.FilterPrefix(cells, HoughAccum.MatrixWidth(maxDistance), |cells|);
    forall keys | HoughIdentify.KeyOrder(table, keys)
      ensures HoughIdentify.IdentifyNumber(table, keys, img.height, imgDiagLength) == -1
    {
      HoughIdentify.EmptyTableUnrecognised(keys, img.height, imgDiagLength);
    }
  }
}
