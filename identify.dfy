/** The decision stage of `hough-recog.c`: `identify_number` and the
    callbacks it folds over the table of lines.

    `g_hash_table_foreach` visits the keys in an order GLib does not
    specify; here the order is the explicit parameter `keys`, which lists
    every key of the table once. The image enters only through its height
    and `DIAG_LENGTH` of its size (`round(sqrt((w-1)^2 + (h-1)^2))`), both
    given as numbers. */
module HoughIdentify {
  import opened HoughAccum
  import opened HoughFilter

  const DiagAngle: int := 45

  /** The four keys a table from a four-row matrix can have. */
  const Angles: set<int> := {-90, -45, 0, 45}

  /** `keys` lists every key of `table` exactly once. */
  ghost predicate KeyOrder(table: Table, keys: seq<int>) {
    (forall k :: k in keys <==> k in table) && Distinct(keys)
  }

  /** No key is listed twice. */
  ghost predicate Distinct(keys: seq<int>) {
    forall p, q :: 0 <= p < q < |keys| ==> keys[p] != keys[q]
  }

  /** The keys in ascending order. */
  ghost predicate Ascending(keys: seq<int>) {
    forall p, q :: 0 <= p < q < |keys| ==> keys[p] < keys[q]
  }

  /** `g_hash_table_foreach(table, f, &acc)`: `f` applied to every key, its
      list and the accumulator, in the order of `keys`. */
  function Foreach<A>(table: Table, keys: seq<int>, f: (int, seq<Line>, A) -> A, acc: A): (r: A)
    requires forall k :: k in keys ==> k in table
    ensures keys == [] ==> r == acc
    ensures |keys| == 1 ==> var key := keys[0]; key in keys && r == f(key, table[key], acc)
  {
    if keys == [] then acc
    else
      var key := keys[0];
      assert key in keys;
      Foreach(table, keys[1..], f, f(key, table[key], acc))
  }

  /** `count_lines`: adds the length of the list. */
  function CountLines(key: int, lines: seq<Line>, sum: int): (r: int)
    ensures r >= sum && (r == sum <==> lines == [])
  {
    sum + |lines|
  }

  /** `check_diag`: becomes true at the first key of magnitude 45 and stays
      true; the list itself is not looked at. */
  function CheckDiag(key: int, lines: seq<Line>, isDiag: bool): (r: bool)
    ensures r <==> isDiag || Abs(key) == DiagAngle
  {
    if !isDiag then Abs(key) == DiagAngle else isDiag
  }

  /** `count_diags`: adds the length of the lists of keys of magnitude 45. */
  function CountDiags(key: int, lines: seq<Line>, diags: int): (r: int)
    ensures diags <= r <= diags + |lines|
    ensures Abs(key) != DiagAngle ==> r == diags
  {
    if Abs(key) == DiagAngle then diags + |lines| else diags
  }

  /** `get_first_diag_dist`: overwrites the accumulator with the distance of
      the head of a non-empty list of a key of magnitude 45. Despite its name,
      after the fold it holds the head of the LAST such key visited. */
  function GetFirstDiagDist(key: int, lines: seq<Line>, dist: int): (r: int)
    ensures r == dist || (lines != [] && r == lines[0].dist)
    ensures Abs(key) == DiagAngle && lines != [] ==> r == lines[0].dist
    ensures Abs(key) != DiagAngle ==> r == dist
  {
    if Abs(key) == DiagAngle && lines != [] then lines[0].dist else dist
  }

  /** `as_pair`: the angle magnitude to select and the sum so far. */
  datatype AngleSumPair = AngleSumPair(angle: int, sum: int)

  /** The votes of all lines of a list. Lines from the clustering have more
      than `Threshold` votes each, so their sum is at least `Threshold + 1`
      per line. */
  function SumPoints(lines: seq<Line>): (r: int)
    ensures (forall l :: l in lines ==> l.points > Threshold) ==> r >= |lines| * (Threshold + 1)
  {
    if lines == [] then 0
    else
      assert forall l :: l in lines[1..] ==> l in lines;
      lines[0].points + SumPoints(lines[1..])
  }

  /** `count_points_by_angle`: adds the votes of every line of a key whose
      magnitude is the selected angle. */
  function CountPointsByAngle(key: int, lines: seq<Line>, pair: AngleSumPair): (r: AngleSumPair)
    ensures r.angle == pair.angle
    ensures Abs(key) == pair.angle ==> r.sum == pair.sum + SumPoints(lines)
    ensures Abs(key) != pair.angle ==> r == pair
  {
    if Abs(key) == pair.angle then AngleSumPair(pair.angle, pair.sum + SumPoints(lines)) else pair
  }

  /** `identify_number`: the fixed decision tree on the number of lines. */
  function IdentifyNumber(table: Table, keys: seq<int>, imgHeight: nat, imgDiagLength: nat): (digit: int)
    requires KeyOrder(table, keys)
    ensures -1 <= digit <= 9
  {
    var nOfLines := Foreach(table, keys, CountLines, 0);
    if nOfLines == 2 then 1
    else if nOfLines == 3 then
      (if Foreach(table, keys, CheckDiag, false) then 7 else 4)
    else if nOfLines == 4 then
      (if Foreach(table, keys, CheckDiag, false) then
         (if Foreach(table, keys, CountDiags, 0) == 2 then 3 else 2)
       else 0)
    else if nOfLines == 5 then
      (if Foreach(table, keys, CheckDiag, false) then
         (if Foreach(table, keys, GetFirstDiagDist, 0) < imgDiagLength / 2 then 6 else 9)
       else
         var pair := Foreach(table, keys, CountPointsByAngle, AngleSumPair(0, 0));
         if pair.sum - imgHeight < imgHeight / 2 then 5 else 8)
    else -1
  }

  // Order-free descriptions of what the folds compute.

  /** The number of lines recorded for `angle`. */
  function Len(table: Table, angle: int): nat { |Lookup(table, angle)| }

  /** All lines of a table keyed by the four angles. */
  function TotalLines(table: Table): nat {
    Len(table, -90) + Len(table, -45) + Len(table, 0) + Len(table, 45)
  }

  /** Some key has magnitude 45. */
  predicate HasDiagonal(table: Table) { -DiagAngle in table || DiagAngle in table }

  /** The lines at -45 and 45 together. */
  function DiagonalLines(table: Table): nat { Len(table, -DiagAngle) + Len(table, DiagAngle) }

  /** The votes of the lines at angle 0. */
  function HorizontalVotes(table: Table): int { SumPoints(Lookup(table, 0)) }

  /** `Len(table, a)` when `a` is among `keys`, otherwise 0. */
  function LenIfListed(table: Table, keys: seq<int>, a: int): nat {
    if a in keys then Len(table, a) else 0
  }

  /** The tail of a list of distinct keys is distinct and lacks the head. */
  lemma DistinctTail(keys: seq<int>)
    requires keys != [] && Distinct(keys)
    ensures Distinct(keys[1..]) && keys[0] !in keys[1..]
    ensures forall a :: a in keys <==> a == keys[0] || a in keys[1..]
  {
    var rest := keys[1..];
    forall p, q | 0 <= p < q < |rest| ensures rest[p] != rest[q] {
      assert rest[p] == keys[p + 1] && rest[q] == keys[q + 1];
    }
    forall p | 0 <= p < |rest| ensures rest[p] != keys[0] {
      assert rest[p] == keys[p + 1];
    }
    assert keys == [keys[0]] + rest;
  }

  /** Peeling the head off distinct keys splits `LenIfListed`. */
  lemma LenIfListedStep(table: Table, keys: seq<int>, a: int)
    requires keys != [] && Distinct(keys)
    ensures LenIfListed(table, keys, a) ==
      (if a == keys[0] then Len(table, a) else 0) + LenIfListed(table, keys[1..], a)
  {
    DistinctTail(keys);
  }

  /** `count_lines` folded over distinct angle keys adds the length of each
      of their lists once. */
  lemma {:induction false} CountLinesFold(table: Table, keys: seq<int>, acc: int)
    requires forall k :: k in keys ==> k in table && k in Angles
    requires Distinct(keys)
    ensures Foreach(table, keys, CountLines, acc) ==
      acc + LenIfListed(table, keys, -90) + LenIfListed(table, keys, -45) +
      LenIfListed(table, keys, 0) + LenIfListed(table, keys, 45)
  {
    if keys != [] {
      var key, rest := keys[0], keys[1..];
      assert key in keys;
      DistinctTail(keys);
      CountLinesFold(table, rest, acc + |table[key]|);
      LenIfListedStep(table, keys, -90);
      LenIfListedStep(table, keys, -45);
      LenIfListedStep(table, keys, 0);
      LenIfListedStep(table, keys, 45);
    }
  }

  /** The `count_lines` fold is the number of lines, whatever the order. */
  lemma CountLinesTotal(table: Table, keys: seq<int>)
    requires KeyOrder(table, keys) && table.Keys <= Angles
    ensures Foreach(table, keys, CountLines, 0) == TotalLines(table)
  {
    CountLinesFold(table, keys, 0);
  }

  /** The `check_diag` fold is true exactly when some key has magnitude 45. */
  lemma {:induction false} CheckDiagFold(table: Table, keys: seq<int>, isDiag: bool)
    requires forall k :: k in keys ==> k in table
    ensures Foreach(table, keys, CheckDiag, isDiag) <==>
      isDiag || exists k :: k in keys && Abs(k) == DiagAngle
  {
    if keys != [] {
      var rest := keys[1..];
      CheckDiagFold(table, rest, CheckDiag(keys[0], table[keys[0]], isDiag));
      assert keys == [keys[0]] + rest;
    }
  }

  lemma CheckDiagHasDiagonal(table: Table, keys: seq<int>)
    requires KeyOrder(table, keys)
    ensures Foreach(table, keys, CheckDiag, false) == HasDiagonal(table)
  {
    CheckDiagFold(table, keys, false);
    if HasDiagonal(table) {
      var k := if -DiagAngle in table then -DiagAngle else DiagAngle;
      assert k in keys && Abs(k) == DiagAngle;
    }
  }

  /** The `count_diags` fold adds the lengths of the lists at -45 and 45. */
  lemma {:induction false} CountDiagsFold(table: Table, keys: seq<int>, acc: int)
    requires forall k :: k in keys ==> k in table
    requires Distinct(keys)
    ensures Foreach(table, keys, CountDiags, acc) ==
      acc + LenIfListed(table, keys, -DiagAngle) + LenIfListed(table, keys, DiagAngle)
  {
    if keys != [] {
      var key, rest := keys[0], keys[1..];
      assert key in keys;
      DistinctTail(keys);
      CountDiagsFold(table, rest, CountDiags(key, table[key], acc));
      LenIfListedStep(table, keys, -DiagAngle);
      LenIfListedStep(table, keys, DiagAngle);
    }
  }

  lemma CountDiagsTotal(table: Table, keys: seq<int>)
    requires KeyOrder(table, keys)
    ensures Foreach(table, keys, CountDiags, 0) == DiagonalLines(table)
  {
    CountDiagsFold(table, keys, 0);
  }

  /** The head distance that the five-line branch compares when keys are
      visited in ascending order: that of 45 when it has lines, else that
      of -45, else the start value. */
  function AscendingDiagDistance(table: Table, keys: seq<int>, dist: int): int
    requires forall k :: k in keys ==> k in table
  {
    if DiagAngle in keys && table[DiagAngle] != [] then table[DiagAngle][0].dist
    else if -DiagAngle in keys && table[-DiagAngle] != [] then table[-DiagAngle][0].dist
    else dist
  }

  /** With ascending keys, the `get_first_diag_dist` fold yields the head
      of 45 when it has lines, and otherwise the head of -45: the value is
      overwritten by every later key of magnitude 45. */
  lemma {:induction false} GetFirstDiagDistAscending(table: Table, keys: seq<int>, dist: int)
    requires forall k :: k in keys ==> k in table
    requires Ascending(keys)
    ensures Foreach(table, keys, GetFirstDiagDist, dist) == AscendingDiagDistance(table, keys, dist)
  {
    if keys != [] {
      var rest := keys[1..];
      assert keys == [keys[0]] + rest;
      assert forall k :: k in rest ==> keys[0] < k by {
        forall p | 0 <= p < |rest| ensures keys[0] < rest[p] {
          assert rest[p] == keys[p + 1];
        }
      }
      assert Ascending(rest) by {
        forall p, q | 0 <= p < q < |rest| ensures rest[p] < rest[q] {
          assert rest[p] == keys[p + 1] && rest[q] == keys[q + 1];
        }
      }
      GetFirstDiagDistAscending(table, rest, GetFirstDiagDist(keys[0], table[keys[0]], dist));
    }
  }

  /** Visiting one more key at the end applies `f` once more to the result. */
  lemma {:induction false} ForeachSnoc<A>(table: Table, keys: seq<int>, key: int,
                                         f: (int, seq<Line>, A) -> A, acc: A)
    requires forall k :: k in keys ==> k in table
    requires key in table
    ensures Foreach(table, keys + [key], f, acc) == f(key, table[key], Foreach(table, keys, f, acc))
  {
    if keys != [] {
      var head := keys[0];
      assert head in keys;
      assert (keys + [key])[1..] == keys[1..] + [key];
      ForeachSnoc(table, keys[1..], key, f, f(head, table[head], acc));
    }
  }

  /** The head distance of the LAST key of `keys` that has magnitude 45 and
      a non-empty list, or `dist` when there is none. */
  function LastDiagHead(table: Table, keys: seq<int>, dist: int): (r: int)
    requires forall k :: k in keys ==> k in table
    ensures r == dist || exists k :: k in keys && Abs(k) == DiagAngle && table[k] != [] && r == table[k][0].dist
  {
    if keys == [] then dist
    else
      var key := keys[|keys| - 1];
      assert key in keys;
      if Abs(key) == DiagAngle && table[key] != [] then table[key][0].dist
      else
        assert forall k :: k in keys[..|keys| - 1] ==> k in keys;
        LastDiagHead(table, keys[..|keys| - 1], dist)
  }

  /** In every key order, the `get_first_diag_dist` fold yields the head
      distance of the last visited diagonal key whose list is non-empty. */
  lemma {:induction false} GetFirstDiagDistLast(table: Table, keys: seq<int>, dist: int)
    requires forall k :: k in keys ==> k in table
    ensures Foreach(table, keys, GetFirstDiagDist, dist) == LastDiagHead(table, keys, dist)
  {
    if keys != [] {
      var init, key := keys[..|keys| - 1], keys[|keys| - 1];
      assert keys == init + [key];
      assert key in keys;
      assert forall k :: k in init ==> k in keys;
      GetFirstDiagDistLast(table, init, dist);
      ForeachSnoc(table, init, key, GetFirstDiagDist, dist);
    }
  }

  /** With a single key of magnitude 45, every order compares its head. */
  lemma {:induction false} OnlyDiagonalHead(table: Table, keys: seq<int>, a: int, dist: int)
    requires forall k :: k in keys ==> k in table
    requires Abs(a) == DiagAngle && -a !in keys
    requires a in keys ==> table[a] != []
    ensures Foreach(table, keys, GetFirstDiagDist, dist) ==
      if a in keys then table[a][0].dist else dist
  {
    if keys != [] {
      var rest := keys[1..];
      assert keys == [keys[0]] + rest;
      OnlyDiagonalHead(table, rest, a, GetFirstDiagDist(keys[0], table[keys[0]], dist));
    }
  }

  /** `count_points_by_angle` with angle 0 sums the votes of the lines at
      angle 0 only. */
  lemma {:induction false} PointsByAngleFold(table: Table, keys: seq<int>, sum: int)
    requires forall k :: k in keys ==> k in table
    requires Distinct(keys)
    ensures Foreach(table, keys, CountPointsByAngle, AngleSumPair(0, sum)) ==
      AngleSumPair(0, sum + (if 0 in keys then SumPoints(table[0]) else 0))
  {
    if keys != [] {
      var key, rest := keys[0], keys[1..];
      assert key in keys;
      DistinctTail(keys);
      var pair := CountPointsByAngle(key, table[key], AngleSumPair(0, sum));
      PointsByAngleFold(table, rest, pair.sum);
    }
  }

  lemma PointsByAngleHorizontal(table: Table, keys: seq<int>)
    requires KeyOrder(table, keys)
    ensures Foreach(table, keys, CountPointsByAngle, AngleSumPair(0, 0)).sum == HorizontalVotes(table)
  {
    PointsByAngleFold(table, keys, 0);
  }

  /** The decision tree of `identify_number`, stated on the order-free
      quantities, for a table keyed by the four angles. */
  lemma IdentifyNumberDecision(table: Table, keys: seq<int>, imgHeight: nat, imgDiagLength: nat)
    requires KeyOrder(table, keys) && table.Keys <= Angles
    ensures var digit := IdentifyNumber(table, keys, imgHeight, imgDiagLength);
      var n := TotalLines(table);
      (n == 2 ==> digit == 1) &&
      (n == 3 ==> digit == if HasDiagonal(table) then 7 else 4) &&
      (n == 4 ==> digit == if !HasDiagonal(table) then 0
                           else if DiagonalLines(table) == 2 then 3 else 2) &&
      (n == 5 && !HasDiagonal(table) ==>
         digit == if HorizontalVotes(table) - imgHeight < imgHeight / 2 then 5 else 8) &&
      (n == 5 && HasDiagonal(table) ==>
         digit == if LastDiagHead(table, keys, 0) < imgDiagLength / 2 then 6 else 9) &&
      (n !in {2, 3, 4, 5} ==> digit == -1)
  {
    CountLinesTotal(table, keys);
    CheckDiagHasDiagonal(table, keys);
    CountDiagsTotal(table, keys);
    PointsByAngleHorizontal(table, keys);
    GetFirstDiagDistLast(table, keys, 0);
  }

  /** The visiting order of the keys only matters in the five-line case
      where both -45 and 45 have lines: otherwise every order gives the same
      digit. */
  lemma IdentifyNumberOrderIndependent(table: Table, keys1: seq<int>, keys2: seq<int>,
                                        imgHeight: nat, imgDiagLength: nat)
    requires KeyOrder(table, keys1) && KeyOrder(table, keys2) && table.Keys <= Angles
    requires NoEmptyList(table)
    requires !(TotalLines(table) == 5 && -DiagAngle in table && DiagAngle in table)
    ensures IdentifyNumber(table, keys1, imgHeight, imgDiagLength) ==
            IdentifyNumber(table, keys2, imgHeight, imgDiagLength)
  {
    CountLinesTotal(table, keys1);
    CountLinesTotal(table, keys2);
    CheckDiagHasDiagonal(table, keys1);
    CheckDiagHasDiagonal(table, keys2);
    CountDiagsTotal(table, keys1);
    CountDiagsTotal(table, keys2);
    PointsByAngleHorizontal(table, keys1);
    PointsByAngleHorizontal(table, keys2);
    if TotalLines(table) == 5 && HasDiagonal(table) {
      var a := if DiagAngle in table then DiagAngle else -DiagAngle;
      OnlyDiagonalHead(table, keys1, a, 0);
      OnlyDiagonalHead(table, keys2, a, 0);
    }
  }

  /** When both -45 and 45 have lines in the five-line case, the order
      decides between 6 and 9: visiting 45 last compares its head. */
  lemma DiagonalOrderMatters()
    ensures var table := map[-45 := [Line(150, 10)], 45 := [Line(150, 120)],
                             0 := [Line(300, 0), Line(200, 60), Line(120, 130)]];
      IdentifyNumber(table, [-45, 45, 0], 100, 140) == 9 &&
      IdentifyNumber(table, [45, -45, 0], 100, 140) == 6
  {
    var table := map[-45 := [Line(150, 10)], 45 := [Line(150, 120)],
                     0 := [Line(300, 0), Line(200, 60), Line(120, 130)]];
    assert KeyOrder(table, [-45, 45, 0]);
    assert KeyOrder(table, [45, -45, 0]);
  }

  /** A table without lines is never recognised, in any key order. */
  lemma EmptyTableUnrecognised(keys: seq<int>, imgHeight: nat, imgDiagLength: nat)
    requires KeyOrder(map[], keys)
    ensures IdentifyNumber(map[], keys, imgHeight, imgDiagLength) == -1
  {
    CountLinesTotal(map[], keys);
  }

  /** A table from a four-row matrix is keyed by the four angles. */
  lemma RowAnglesAreAngles(table: Table)
    requires KeysAreRowAngles(table, 4)
    ensures table.Keys <= Angles
  {
    forall angle | angle in table ensures angle in Angles {
      var r :| 0 <= r < 4 && angle == r * AngleStep - MaxAngle;
    }
  }
}
