/** The clustering stage of `hough-recog.c`: a single pass over the vote
    matrix that keeps, per angle, one line for every neighbourhood of
    distances of width `DistDiffThreshold` whose cell has more than
    `Threshold` votes.

    The `GHashTable` from angle to `GSList` becomes a map from angle to a
    sequence; `g_slist_prepend` puts the new line at index 0. */
module HoughFilter {
  import opened HoughAccum

  const Threshold: int := 100
  const DistDiffThreshold: int := 50

  /** `sl_value`: the votes of the cell a line came from, and its distance
      from the centre distance bucket. */
  datatype Line = Line(points: int, dist: int)

  type Table = map<int, seq<Line>>

  function Abs(x: int): nat { if x < 0 then -x else x }

  /** Some line of `lines` lies within `DistDiffThreshold` of `dist`. */
  ghost predicate Near(lines: seq<Line>, dist: int) {
    exists l :: l in lines && Abs(l.dist - dist) < DistDiffThreshold
  }

  /** `contains_line`: a walk along the list that stops at the first line
      closer than `DistDiffThreshold` to `dist`. */
  method ContainsLine(list: seq<Line>, dist: int) returns (found: bool)
    ensures found <==> Near(list, dist)
  {
    var iter := 0;
    while iter < |list|
      invariant 0 <= iter <= |list|
      invariant forall p :: 0 <= p < iter ==> Abs(list[p].dist - dist) >= DistDiffThreshold
    {
      var value := list[iter];
      if Abs(value.dist - dist) < DistDiffThreshold {
        return true;
      }
      iter := iter + 1;
    }
    return false;
  }

  /** The angle of flat cell `i`: its matrix row times 45, minus 90. */
  function AngleOf(i: nat, width: nat): (angle: int)
    requires width > 0
    ensures angle >= -MaxAngle && (angle + MaxAngle) % AngleStep == 0
  {
    (i / width) * AngleStep - MaxAngle
  }

  /** The distance of flat cell `i`: how far its column is from the centre
      column `(width - 1) / 2`, without sign. */
  function DistOf(i: nat, width: nat): (dist: nat)
    requires width > 0
    ensures dist <= width / 2
  {
    Abs(i % width - (width - 1) / 2)
  }

  /** `g_hash_table_lookup`: the list for `angle`, empty when absent. */
  function Lookup(table: Table, angle: int): (lines: seq<Line>)
    ensures angle in table ==> lines == table[angle]
    ensures angle !in table ==> lines == []
  {
    if angle in table then table[angle] else []
  }

  /** The table after the loop body has run for cell `i` holding `count`. */
  ghost function Step(table: Table, i: nat, count: int, width: nat): (t: Table)
    requires width > 0
    ensures count <= Threshold ==> t == table
  {
    if count > Threshold then
      var angle := AngleOf(i, width);
      var dist := DistOf(i, width);
      var lines := Lookup(table, angle);
      if Near(lines, dist) then table else table[angle := [Line(count, dist)] + lines]
    else table
  }

  /** The table after the loop has visited cells 0 .. n-1. */
  ghost function FilterPrefix(cells: seq<int>, width: nat, n: nat): Table
    requires width > 0 && n <= |cells|
  {
    if n == 0 then map[] else Step(FilterPrefix(cells, width, n - 1), n - 1, cells[n - 1], width)
  }

  /** Any two lines of the list are at least `DistDiffThreshold` apart. */
  ghost predicate ListSeparated(lines: seq<Line>) {
    forall p, q :: 0 <= p < q < |lines| ==>
      Abs(lines[p].dist - lines[q].dist) >= DistDiffThreshold
  }

  /** Within one angle, any two lines are at least `DistDiffThreshold` apart. */
  ghost predicate Separated(table: Table) {
    forall angle :: angle in table ==> ListSeparated(table[angle])
  }

  /** No angle maps to an empty list. */
  ghost predicate NoEmptyList(table: Table) {
    forall angle :: angle in table ==> table[angle] != []
  }

  /** Every line comes from a cell among the first `n` with more than
      `Threshold` votes: its points are that cell's count, its key is the
      cell's angle and its distance the cell's distance. */
  ghost predicate FromCells(table: Table, cells: seq<int>, width: nat, n: nat)
    requires width > 0 && n <= |cells|
  {
    forall angle, l :: angle in table && l in table[angle] ==> FromCell(l, angle, cells, width, n)
  }

  /** `l`, keyed by `angle`, was recorded for one of the first `n` cells. */
  ghost predicate FromCell(l: Line, angle: int, cells: seq<int>, width: nat, n: nat)
    requires width > 0 && n <= |cells|
  {
    exists k :: (0 <= k < n && cells[k] > Threshold && cells[k] == l.points &&
                 AngleOf(k, width) == angle && DistOf(k, width) == l.dist)
  }

  /** Every cell among the first `n` with more than `Threshold` votes is
      represented by a line of its angle within `DistDiffThreshold` of it. */
  ghost predicate Covers(table: Table, cells: seq<int>, width: nat, n: nat)
    requires width > 0 && n <= |cells|
  {
    forall k :: 0 <= k < n && cells[k] > Threshold ==>
      AngleOf(k, width) in table && Near(table[AngleOf(k, width)], DistOf(k, width))
  }

  /** `later` keeps every key of `earlier`, and each of its lists ends with
      the list `earlier` had: recorded lines are never changed. */
  ghost predicate Extends(later: Table, earlier: Table) {
    forall angle :: angle in earlier ==> angle in later && EndsWith(later[angle], earlier[angle])
  }

  /** `earlier` is a suffix of `later`. */
  ghost predicate EndsWith(later: seq<Line>, earlier: seq<Line>) {
    |earlier| <= |later| && later[|later| - |earlier|..] == earlier
  }

  /** The loop body keeps lines of one angle apart: a line is only added
      when no line of its angle is near it. */
  lemma StepSeparated(table: Table, i: nat, count: int, width: nat)
    requires width > 0 && Separated(table)
    ensures Separated(Step(table, i, count, width))
  {
    var angle, dist := AngleOf(i, width), DistOf(i, width);
    var lines := Lookup(table, angle);
    if count > Threshold && !Near(lines, dist) {
      PrependSeparated(lines, Line(count, dist));
    }
  }

  /** A line far from every line of a separated list keeps it separated. */
  lemma PrependSeparated(lines: seq<Line>, l: Line)
    requires ListSeparated(lines) && !Near(lines, l.dist)
    ensures ListSeparated([l] + lines)
  {
    var s := [l] + lines;
    forall p, q | 0 <= p < q < |s|
      ensures Abs(s[p].dist - s[q].dist) >= DistDiffThreshold
    {
      if p == 0 {
        assert s[q] in lines;
      } else {
        assert s[p] == lines[p - 1] && s[q] == lines[q - 1];
      }
    }
  }

  /** The loop body adds only lines taken from the cell it visits. */
  lemma StepFromCells(table: Table, cells: seq<int>, width: nat, n: nat)
    requires width > 0 && 0 < n <= |cells| && FromCells(table, cells, width, n - 1)
    ensures FromCells(Step(table, n - 1, cells[n - 1], width), cells, width, n)
  {
    var count, angle, dist := cells[n - 1], AngleOf(n - 1, width), DistOf(n - 1, width);
    var t': Table := Step(table, n - 1, count, width);
    forall a, l | a in t' && l in t'[a]
      ensures FromCell(l, a, cells, width, n)
    {
      if a in table && l in table[a] {
        FromCellMonotone(l, a, cells, width, n - 1);
      } else {
        assert a == angle && l == Line(count, dist) && count > Threshold;
        var k := n - 1;
        assert cells[k] == l.points && AngleOf(k, width) == a && DistOf(k, width) == l.dist;
      }
    }
  }

  lemma FromCellMonotone(l: Line, angle: int, cells: seq<int>, width: nat, n: nat)
    requires width > 0 && n < |cells| && FromCell(l, angle, cells, width, n)
    ensures FromCell(l, angle, cells, width, n + 1)
  {
    var k :| 0 <= k < n && cells[k] > Threshold && cells[k] == l.points &&
             AngleOf(k, width) == angle && DistOf(k, width) == l.dist;
  }

  /** The loop keeps lines of one angle apart. */
  lemma {:induction false} FilterPrefixSeparated(cells: seq<int>, width: nat, n: nat)
    requires width > 0 && n <= |cells|
    ensures Separated(FilterPrefix(cells, width, n))
  {
    if n > 0 {
      var t := FilterPrefix(cells, width, n - 1);
      FilterPrefixSeparated(cells, width, n - 1);
      StepSeparated(t, n - 1, cells[n - 1], width);
    }
  }

  /** Every line of the table comes from a visited cell. */
  lemma {:induction false} FilterPrefixFromCells(cells: seq<int>, width: nat, n: nat)
    requires width > 0 && n <= |cells|
    ensures FromCells(FilterPrefix(cells, width, n), cells, width, n)
  {
    if n > 0 {
      FilterPrefixFromCells(cells, width, n - 1);
      StepFromCells(FilterPrefix(cells, width, n - 1), cells, width, n);
    }
  }

  /** A key is only ever created together with a line, so no list is empty. */
  lemma {:induction false} FilterPrefixNoEmptyList(cells: seq<int>, width: nat, n: nat)
    requires width > 0 && n <= |cells|
    ensures NoEmptyList(FilterPrefix(cells, width, n))
  {
    if n > 0 {
      FilterPrefixNoEmptyList(cells, width, n - 1);
    }
  }

  /** One step of the loop only prepends. */
  lemma StepExtends(table: Table, i: nat, count: int, width: nat)
    requires width > 0
    ensures Extends(Step(table, i, count, width), table)
  {
    var t' := Step(table, i, count, width);
    forall angle | angle in table
      ensures angle in t' && EndsWith(t'[angle], table[angle])
    {
      if angle == AngleOf(i, width) && t' != table {
        assert t'[angle] == [Line(count, DistOf(i, width))] + table[angle];
      }
    }
  }

  lemma ExtendsTransitive(t2: Table, t1: Table, t0: Table)
    requires Extends(t2, t1) && Extends(t1, t0)
    ensures Extends(t2, t0)
  {
    forall angle | angle in t0
      ensures angle in t2 && EndsWith(t2[angle], t0[angle])
    {
      var s2, s1, s0 := t2[angle], t1[angle], t0[angle];
      assert s2[|s2| - |s1|..][|s1| - |s0|..] == s2[|s2| - |s0|..];
    }
  }

  /** Lines recorded after `m` cells are still there, unchanged, after `n`. */
  lemma {:induction false} FilterPrefixGrows(cells: seq<int>, width: nat, m: nat, n: nat)
    requires width > 0 && m <= n <= |cells|
    ensures Extends(FilterPrefix(cells, width, n), FilterPrefix(cells, width, m))
  {
    var t := FilterPrefix(cells, width, n);
    if m == n {
      forall angle | angle in t
        ensures EndsWith(t[angle], t[angle])
      {
        assert t[angle][0..] == t[angle];
      }
    } else {
      var t1, t0 := FilterPrefix(cells, width, n - 1), FilterPrefix(cells, width, m);
      FilterPrefixGrows(cells, width, m, n - 1);
      StepExtends(t1, n - 1, cells[n - 1], width);
      ExtendsTransitive(t, t1, t0);
    }
  }

  /** A line near `dist` stays near once the list only grows at the front. */
  lemma NearPreserved(later: Table, earlier: Table, angle: int, dist: int)
    requires Extends(later, earlier) && angle in earlier && Near(earlier[angle], dist)
    ensures angle in later && Near(later[angle], dist)
  {
    var l :| l in earlier[angle] && Abs(l.dist - dist) < DistDiffThreshold;
    var s := later[angle];
    assert l in s[|s| - |earlier[angle]|..];
  }

  /** Every cell above the threshold is covered: either it was recorded, or
      an earlier line of its angle within `DistDiffThreshold` suppressed it. */
  lemma {:induction false} FilterPrefixCovers(cells: seq<int>, width: nat, n: nat)
    requires width > 0 && n <= |cells|
    ensures Covers(FilterPrefix(cells, width, n), cells, width, n)
  {
    if n > 0 {
      FilterPrefixCovers(cells, width, n - 1);
      var t := FilterPrefix(cells, width, n - 1);
      var t' := FilterPrefix(cells, width, n);
      StepExtends(t, n - 1, cells[n - 1], width);
      forall k | 0 <= k < n && cells[k] > Threshold
        ensures AngleOf(k, width) in t' && Near(t'[AngleOf(k, width)], DistOf(k, width))
      {
        if k < n - 1 {
          NearPreserved(t', t, AngleOf(k, width), DistOf(k, width));
        } else {
          var lines := Lookup(t, AngleOf(k, width));
          if Near(lines, DistOf(k, width)) {
            NearPreserved(t', t, AngleOf(k, width), DistOf(k, width));
          } else {
            assert Line(cells[k], DistOf(k, width)) in t'[AngleOf(k, width)];
          }
        }
      }
    }
  }

  /** Every key is the angle of one of the first `height` matrix rows. */
  ghost predicate KeysAreRowAngles(table: Table, height: nat) {
    forall angle :: angle in table ==> IsRowAngle(angle, height)
  }

  /** `angle` is the angle of one of the first `height` matrix rows. */
  ghost predicate IsRowAngle(angle: int, height: nat) {
    exists r :: 0 <= r < height && angle == r * AngleStep - MaxAngle
  }

  /** Only the angles of the matrix rows become keys: with `height` rows,
      keys are among -90, -45, ..., (height - 1) * 45 - 90. */
  lemma {:induction false} FilterPrefixKeys(cells: seq<int>, width: nat, height: nat, n: nat)
    requires width > 0 && n <= |cells| && n <= width * height
    ensures KeysAreRowAngles(FilterPrefix(cells, width, n), height)
  {
    if n > 0 {
      FilterPrefixKeys(cells, width, height, n - 1);
      var t := FilterPrefix(cells, width, n - 1);
      CellAngleIsRowAngle(n - 1, width, height);
      StepKeys(t, n - 1, cells[n - 1], width);
    }
  }

  /** A cell of a `width * height` matrix lies in one of its rows. */
  lemma CellAngleIsRowAngle(i: nat, width: nat, height: nat)
    requires width > 0 && i < width * height
    ensures IsRowAngle(AngleOf(i, width), height)
  {
    var r := i / width;
    DivLess(i, width, height);
    assert AngleOf(i, width) == r * AngleStep - MaxAngle;
  }

  /** A matrix in which no cell passes the threshold yields no lines. */
  lemma {:induction false} QuietMatrixNoLines(cells: seq<int>, width: nat, n: nat)
    requires width > 0 && n <= |cells|
    requires forall k :: 0 <= k < n ==> cells[k] <= Threshold
    ensures FilterPrefix(cells, width, n) == map[]
  {
    if n > 0 {
      QuietMatrixNoLines(cells, width, n - 1);
    }
  }

  /** One step adds at most the key of the cell it visits. */
  lemma StepKeys(table: Table, i: nat, count: int, width: nat)
    requires width > 0
    ensures Step(table, i, count, width).Keys <= table.Keys + {AngleOf(i, width)}
  {
  }

  /** The loop body records a line for cell `i`: its count passes the
      threshold and no line of its angle is near its distance. */
  ghost predicate Accepts(table: Table, i: nat, count: int, width: nat)
    requires width > 0
  {
    count > Threshold && !Near(Lookup(table, AngleOf(i, width)), DistOf(i, width))
  }

  /** The scan records a line when it visits cell `k`. */
  ghost predicate AcceptedAt(cells: seq<int>, width: nat, k: nat)
    requires width > 0 && k < |cells|
  {
    Accepts(FilterPrefix(cells, width, k), k, cells[k], width)
  }

  /** The line recorded for cell `k`. */
  function CellLine(cells: seq<int>, width: nat, k: nat): Line
    requires width > 0 && k < |cells|
  {
    Line(cells[k], DistOf(k, width))
  }

  /** The cells among the first `n` at which the scan recorded a line of
      `angle`, latest first. */
  ghost function Origins(cells: seq<int>, width: nat, n: nat, angle: int): (os: seq<nat>)
    requires width > 0 && n <= |cells|
    ensures forall p :: 0 <= p < |os| ==>
      os[p] < n && AngleOf(os[p], width) == angle && AcceptedAt(cells, width, os[p])
    ensures forall p, q :: 0 <= p < q < |os| ==> os[p] > os[q]
  {
    if n == 0 then []
    else
      var k: nat := n - 1;
      var rest := Origins(cells, width, k, angle);
      if AcceptedAt(cells, width, k) && AngleOf(k, width) == angle then [k] + rest else rest
  }

  /** The lines recorded for the cells `os`, in that order. */
  function LinesOf(cells: seq<int>, width: nat, os: seq<nat>): (lines: seq<Line>)
    requires width > 0 && forall p :: 0 <= p < |os| ==> os[p] < |cells|
    ensures |lines| == |os|
    ensures forall p :: 0 <= p < |os| ==> lines[p] == CellLine(cells, width, os[p])
  {
    if os == [] then [] else [CellLine(cells, width, os[0])] + LinesOf(cells, width, os[1..])
  }

  /** Every cell at which the scan recorded a line of `angle` is among its
      origins. */
  lemma {:induction false} OriginsComplete(cells: seq<int>, width: nat, n: nat, angle: int, k: nat)
    requires width > 0 && n <= |cells| && k < n
    ensures AcceptedAt(cells, width, k) && AngleOf(k, width) == angle ==> k in Origins(cells, width, n, angle)
  {
    if k < n - 1 {
      OriginsComplete(cells, width, n - 1, angle, k);
    }
  }

  /** The list of `angle` holds the lines of the cells at which the scan
      recorded one, latest cell first: each accepted line is prepended. */
  lemma {:induction false} FilterPrefixOrder(cells: seq<int>, width: nat, n: nat, angle: int)
    requires width > 0 && n <= |cells|
    ensures Lookup(FilterPrefix(cells, width, n), angle) == LinesOf(cells, width, Origins(cells, width, n, angle))
  {
    if n > 0 {
      var k: nat := n - 1;
      FilterPrefixOrder(cells, width, k, angle);
      var t := FilterPrefix(cells, width, k);
      StepLookup(t, k, cells[k], width, angle);
      var os := Origins(cells, width, k, angle);
      if AcceptedAt(cells, width, k) && AngleOf(k, width) == angle {
        assert Origins(cells, width, n, angle) == [k] + os;
        LinesOfCons(cells, width, k, os);
      } else {
        assert Origins(cells, width, n, angle) == os;
      }
    }
  }

  /** The list of `angle` after one step: the visited cell's line in front
      when the step records one of that angle, else unchanged. */
  lemma StepLookup(table: Table, i: nat, count: int, width: nat, angle: int)
    requires width > 0
    ensures Lookup(Step(table, i, count, width), angle) ==
      if Accepts(table, i, count, width) && AngleOf(i, width) == angle
      then [Line(count, DistOf(i, width))] + Lookup(table, angle)
      else Lookup(table, angle)
  {
  }

  lemma LinesOfCons(cells: seq<int>, width: nat, k: nat, os: seq<nat>)
    requires width > 0 && k < |cells| && forall p :: 0 <= p < |os| ==> os[p] < |cells|
    ensures LinesOf(cells, width, [k] + os) == [CellLine(cells, width, k)] + LinesOf(cells, width, os)
  {
    assert ([k] + os)[1..] == os;
  }

  /** The head of every list is the line of the last cell before `n` at
      which the scan recorded a line of that angle. */
  lemma FilterPrefixHead(cells: seq<int>, width: nat, n: nat, angle: int)
    requires width > 0 && n <= |cells|
    ensures var t := FilterPrefix(cells, width, n);
      angle in t ==>
        (t[angle] != [] &&
         exists k :: 0 <= k < n && AngleOf(k, width) == angle && AcceptedAt(cells, width, k) &&
           t[angle][0] == CellLine(cells, width, k) &&
           forall k' :: k < k' < n && AngleOf(k', width) == angle ==> !AcceptedAt(cells, width, k'))
  {
    if angle in FilterPrefix(cells, width, n) {
      FilterPrefixNoEmptyList(cells, width, n);
      FilterPrefixOrder(cells, width, n, angle);
      var os := Origins(cells, width, n, angle);
      var k := os[0];
      forall k' | k < k' < n && AngleOf(k', width) == angle
        ensures !AcceptedAt(cells, width, k')
      {
        OriginsComplete(cells, width, n, angle, k');
      }
    }
  }

  lemma DivLess(a: nat, w: nat, h: nat)
    requires w > 0 && a < w * h
    ensures a / w < h
  {
    assert (a / w) * w <= a;
    assert (a / w - h) * w == (a / w) * w - h * w;
  }

  /** `filter_accum_matrix`: the table built by scanning the `width *
      height` cells in order. Its lists are separated, non-empty, made of
      cells above the threshold, cover every such cell, are keyed by the
      angles of the matrix rows, and hold their lines latest cell first. */
  method FilterAccumMatrix(matrix: array<int>, width: nat, height: nat) returns (table: Table)
    requires width > 0 && width * height <= matrix.Length
    ensures table == FilterPrefix(matrix[..], width, width * height)
    ensures Separated(table) && NoEmptyList(table)
    ensures FromCells(table, matrix[..], width, width * height)
    ensures Covers(table, matrix[..], width, width * height)
    ensures KeysAreRowAngles(table, height)
    ensures forall angle :: angle in table ==>
      table[angle] == LinesOf(matrix[..], width, Origins(matrix[..], width, width * height, angle))
  {
    table := map[];
    var matrSize := width * height;
    for i := 0 to matrSize
      invariant table == FilterPrefix(matrix[..], width, i)
    {
      var nOfPoints := matrix[i];
      if nOfPoints > Threshold {
        var angle := (i / width) * AngleStep - MaxAngle;
        var dist := Abs((i % width) - (width - 1) / 2);
        var lines := if angle in table then table[angle] else [];
        var contains := ContainsLine(lines, dist);
        if !contains {
          var newLine := Line(nOfPoints, dist);
          lines := [newLine] + lines;
          table := table[angle := lines];
        }
      }
    }
    FilterPrefixSeparated(matrix[..], width, matrSize);
    FilterPrefixNoEmptyList(matrix[..], width, matrSize);
    FilterPrefixFromCells(matrix[..], width, matrSize);
    FilterPrefixCovers(matrix[..], width, matrSize);
    FilterPrefixKeys(matrix[..], width, height, matrSize);
    forall angle | angle in table {
      FilterPrefixOrder(matrix[..], width, matrSize, angle);
    }
  }
}
