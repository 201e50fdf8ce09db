/**
  The follow example: each video frame is searched for light pixels, the
  row and the column holding most of them give the target, and the drone is
  steered one step towards it, one command at a time.
*/
module Follow {
  import opened Wrappers
  import opened CppString

  /** One BGR pixel of a frame (`cv::Vec3b`). */
  datatype Pixel = Pixel(b: byte, g: byte, r: byte)

  /** A `cv::Point2i`: `x` is the column, `y` the row. */
  datatype Point = Point(x: int, y: int)

  /** Where the drone's line of sight hits a 960x720 frame. */
  const TELLO_POSITION: Point := Point(480, 360)
  const SQUARE_TARGET_DISTANCE: int := 2500
  const MIN_STEP: int := 20
  const MAX_STEP: int := 60

  // ---------------------------------------------------------------------------
  // Target pixels and their counts

  /** A target pixel is light: all three channels above 250. */
  predicate IsTarget(b: byte, g: byte, r: byte) {
    b > 250 && g > 250 && r > 250
  }

  /** The `bool` a pixel adds to a count. */
  function Hit(p: Pixel): (n: nat)
    ensures n <= 1
  {
    if IsTarget(p.b, p.g, p.r) then 1 else 0
  }

  /** The number of target pixels in a row. */
  function RowCount(row: seq<Pixel>): (n: nat)
    ensures n <= |row|
  {
    if row == [] then 0 else RowCount(row[..|row| - 1]) + Hit(row[|row| - 1])
  }

  /** Whether every row of `g` has `n` pixels. */
  predicate Rect(g: seq<seq<Pixel>>, n: nat) {
    forall i :: 0 <= i < |g| ==> |g[i]| == n
  }

  /** The number of target pixels in column `j` (of the rows that reach it). */
  function ColCount(g: seq<seq<Pixel>>, j: nat): (c: nat)
    ensures c <= |g|
  {
    if g == [] then 0
    else ColCount(g[..|g| - 1], j) + if j < |g[|g| - 1]| then Hit(g[|g| - 1][j]) else 0
  }

  function RowCounts(g: seq<seq<Pixel>>): (r: seq<nat>)
    ensures |r| == |g| && forall i :: 0 <= i < |g| ==> r[i] == RowCount(g[i])
  {
    seq(|g|, i requires 0 <= i < |g| => RowCount(g[i]))
  }

  function ColCounts(g: seq<seq<Pixel>>, n: nat): (r: seq<nat>)
    requires Rect(g, n)
    ensures |r| == n && forall j :: 0 <= j < n ==> r[j] == ColCount(g, j)
  {
    seq(n, j requires 0 <= j < n => ColCount(g, j))
  }

  /**
    The index of the first maximum of `s` (what `std::max_element` finds),
    and 0 for an empty sequence.
  */
  function FirstMax(s: seq<int>): (k: nat)
    ensures |s| == 0 ==> k == 0
    ensures |s| > 0 ==> k < |s|
    ensures |s| > 0 ==> forall i :: 0 <= i < |s| ==> s[i] <= s[k]
    ensures |s| > 0 ==> forall i :: 0 <= i < k ==> s[i] < s[k]
  {
    if |s| <= 1 then 0
    else
      var k := FirstMax(s[..|s| - 1]);
      if s[|s| - 1] > s[k] then |s| - 1 else k
  }

  /** Whether pixel (i, j) of `g` is a target. */
  predicate TargetAt(g: seq<seq<Pixel>>, i: int, j: int)
    requires 0 <= i < |g| && 0 <= j < |g[i]|
  {
    IsTarget(g[i][j].b, g[i][j].g, g[i][j].r)
  }

  predicate HasTarget(g: seq<seq<Pixel>>) {
    exists i, j :: 0 <= i < |g| && 0 <= j < |g[i]| && TargetAt(g, i, j)
  }

  /** A row counts a target exactly when it holds one. */
  lemma {:induction false} RowCountPositive(row: seq<Pixel>)
    ensures RowCount(row) > 0 <==> exists j :: 0 <= j < |row| && IsTarget(row[j].b, row[j].g, row[j].r)
    decreases |row|
  {
    if row != [] {
      var init := row[..|row| - 1];
      RowCountPositive(init);
      if RowCount(init) > 0 {
        var j :| 0 <= j < |init| && IsTarget(init[j].b, init[j].g, init[j].r);
        assert row[j] == init[j];
      }
      if j :| 0 <= j < |row| && IsTarget(row[j].b, row[j].g, row[j].r) {
        if j < |row| - 1 {
          assert init[j] == row[j];
        }
      }
    }
  }

  /** A column counts a target exactly when it holds one. */
  lemma {:induction false} ColCountPositive(g: seq<seq<Pixel>>, j: nat)
    requires forall i :: 0 <= i < |g| ==> j < |g[i]|
    ensures ColCount(g, j) > 0 <==> exists i :: 0 <= i < |g| && TargetAt(g, i, j)
    decreases |g|
  {
    if g != [] {
      var init := g[..|g| - 1];
      assert ColCount(g, j) == ColCount(init, j) + Hit(g[|g| - 1][j]);
      ColCountPositive(init, j);
      if ColCount(init, j) > 0 {
        var i :| 0 <= i < |init| && TargetAt(init, i, j);
        assert g[i] == init[i];
        assert TargetAt(g, i, j);
      }
      if Hit(g[|g| - 1][j]) == 1 {
        assert TargetAt(g, |g| - 1, j);
      }
      if i :| 0 <= i < |g| && TargetAt(g, i, j) {
        if i < |g| - 1 {
          assert init[i] == g[i];
          assert TargetAt(init, i, j);
        } else {
          assert Hit(g[|g| - 1][j]) == 1;
        }
      }
    }
  }

  /** Counting one more pixel of a row. */
  lemma RowCountStep(row: seq<Pixel>, j: nat)
    requires j < |row|
    ensures RowCount(row[..j + 1]) == RowCount(row[..j]) + Hit(row[j])
  {
    assert row[..j + 1][..j] == row[..j];
  }

  /** Counting one more row of a column. */
  lemma ColCountStep(g: seq<seq<Pixel>>, i: nat, k: nat)
    requires i < |g| && k < |g[i]|
    ensures ColCount(g[..i + 1], k) == ColCount(g[..i], k) + Hit(g[i][k])
  {
    assert g[..i + 1][..i] == g[..i];
  }

  /** The first maximum of a longer prefix: the new element when it beats the old maximum strictly. */
  lemma FirstMaxStep(s: seq<int>, i: nat)
    requires i < |s|
    ensures FirstMax(s[..i + 1]) == if i == 0 || s[i] <= s[FirstMax(s[..i])] then FirstMax(s[..i]) else i
  {
    assert s[..i + 1][..i] == s[..i];
  }

  // ---------------------------------------------------------------------------
  // FindTarget

  /** Whether `g` holds the pixels of `frame`, row by row. */
  predicate IsGrid(frame: array2<Pixel>, g: seq<seq<Pixel>>)
    reads frame
  {
    |g| == frame.Length0 && Rect(g, frame.Length1) &&
    forall i, j :: 0 <= i < frame.Length0 && 0 <= j < frame.Length1 ==> g[i][j] == frame[i, j]
  }

  /** The frame as rows of pixels. */
  function Grid(frame: array2<Pixel>): (g: seq<seq<Pixel>>)
    reads frame
    ensures IsGrid(frame, g)
  {
    seq(frame.Length0, i requires 0 <= i < frame.Length0 reads frame =>
      seq(frame.Length1, j requires 0 <= j < frame.Length1 reads frame => frame[i, j]))
  }

  /**
    What `FindTarget` returns for a grid of `n` columns: the first row and
    the first column with most target pixels, but nothing when both are 0.
  */
  function TargetOf(g: seq<seq<Pixel>>, n: nat): Option<Point>
    requires Rect(g, n)
  {
    var row := FirstMax(RowCounts(g));
    var col := FirstMax(ColCounts(g, n));
    if col == 0 && row == 0 then None else Some(Point(col, row))
  }

  /** Whether `cols` holds the number of target pixels of each column of `g`. */
  predicate Counted(cols: seq<int>, g: seq<seq<Pixel>>)
    decreases |cols|
  {
    cols == [] || (Counted(cols[..|cols| - 1], g) && cols[|cols| - 1] == ColCount(g, |cols| - 1))
  }

  /** `Counted` column by column. */
  lemma {:induction false} CountedEach(cols: seq<int>, g: seq<seq<Pixel>>)
    ensures Counted(cols, g) <==> forall k :: 0 <= k < |cols| ==> cols[k] == ColCount(g, k)
    decreases |cols|
  {
    if cols != [] {
      var init := cols[..|cols| - 1];
      CountedEach(init, g);
      assert forall k :: 0 <= k < |init| ==> init[k] == cols[k];
    }
  }

  /** Counts over all the rows of a grid of `n` columns are its column counts, and its fullest row. */
  lemma CountedAll(cols: seq<int>, g: seq<seq<Pixel>>, n: nat, rowCounts: seq<nat>, index: nat)
    requires Rect(g, n) && |cols| == n && Counted(cols, g[..|g|])
    requires rowCounts == RowCounts(g) && index == FirstMax(rowCounts[..|g|])
    ensures cols == ColCounts(g, n) && index == FirstMax(RowCounts(g))
  {
    assert g[..|g|] == g && rowCounts[..|g|] == rowCounts;
    CountedEach(cols, g);
  }

  /** Nothing counted yet: all columns are 0. */
  lemma CountedNone(cols: seq<int>, g: seq<seq<Pixel>>)
    requires g == [] && forall k :: 0 <= k < |cols| ==> cols[k] == 0
    ensures Counted(cols, g)
  {
    CountedEach(cols, g);
  }

  /** The running maximum of the row counts after one more row, as the loop updates it. */
  lemma RowMaxStep(rows: seq<nat>, i: nat, index: nat, best: int)
    requires i < |rows| && index == FirstMax(rows[..i])
    requires (i == 0 ==> best == 0) && (i > 0 ==> best == rows[index])
    ensures rows[i] > best ==> i == FirstMax(rows[..i + 1])
    ensures rows[i] <= best ==> index == FirstMax(rows[..i + 1]) && best == rows[index]
  {
    FirstMaxStep(rows, i);
  }

  /**
    The inner loop of `FindTarget`: counts the target pixels of row `i` and
    adds each one to its column's count.
  */
  method CountRow(frame: array2<Pixel>, ghost g: seq<seq<Pixel>>, i: nat, colsCount: array<int>) returns (rowCount: int)
    requires IsGrid(frame, g) && i < frame.Length0 && colsCount.Length == frame.Length1
    requires Counted(colsCount[..], g[..i])
    modifies colsCount
    ensures rowCount == RowCount(g[i])
    ensures Counted(colsCount[..], g[..i + 1])
  {
    ghost var above, upTo := g[..i], g[..i + 1];
    CountedEach(colsCount[..], above);
    rowCount := 0;
    var j := 0;
    while j < frame.Length1
      invariant 0 <= j <= frame.Length1
      invariant rowCount == RowCount(g[i][..j])
      invariant forall k :: 0 <= k < j ==> colsCount[k] == ColCount(upTo, k)
      invariant forall k :: j <= k < colsCount.Length ==> colsCount[k] == ColCount(above, k)
    {
      var pixel := frame[i, j];
      assert pixel == g[i][j];
      var isTarget := IsTarget(pixel.b, pixel.g, pixel.r);
      RowCountStep(g[i], j);
      ColCountStep(g, i, j);
      assert Hit(g[i][j]) == if isTarget then 1 else 0;
      rowCount := rowCount + if isTarget then 1 else 0;
      colsCount[j] := colsCount[j] + if isTarget then 1 else 0;
      j := j + 1;
    }
    assert g[i][..j] == g[i];
    CountedEach(colsCount[..], upTo);
  }

  /** One pass of the outer loop: counts row `i` and updates the fullest row so far. */
  method CountRowStep(frame: array2<Pixel>, ghost g: seq<seq<Pixel>>, ghost rowCounts: seq<nat>, i: nat,
                      colsCount: array<int>, maxRowIndex: nat, maxRowCount: int)
    returns (maxRowIndex': nat, maxRowCount': int)
    requires IsGrid(frame, g) && rowCounts == RowCounts(g) && i < frame.Length0
    requires colsCount.Length == frame.Length1 && Counted(colsCount[..], g[..i])
    requires maxRowIndex == FirstMax(rowCounts[..i])
    requires (i == 0 ==> maxRowCount == 0) && (i > 0 ==> maxRowCount == rowCounts[maxRowIndex])
    modifies colsCount
    ensures Counted(colsCount[..], g[..i + 1])
    ensures maxRowIndex' == FirstMax(rowCounts[..i + 1]) && maxRowCount' == rowCounts[maxRowIndex']
  {
    var rowCount := CountRow(frame, g, i, colsCount);
    RowMaxStep(rowCounts, i, maxRowIndex, maxRowCount);
    maxRowIndex', maxRowCount' := maxRowIndex, maxRowCount;
    if rowCount > maxRowCount {
      maxRowCount' := rowCount;
      maxRowIndex' := i;
    }
  }

  /**
    The two loops of `FindTarget`: the target pixels of each column, and the
    first of the rows with most of them (a later row must beat it strictly).
  */
  method CountFrame(frame: array2<Pixel>, ghost g: seq<seq<Pixel>>) returns (colsCount: array<int>, maxRowIndex: nat)
    requires IsGrid(frame, g)
    ensures fresh(colsCount)
    ensures colsCount[..] == ColCounts(g, frame.Length1)
    ensures maxRowIndex == FirstMax(RowCounts(g))
  {
    colsCount := new int[frame.Length1](_ => 0);
    CountedNone(colsCount[..], g[..0]);
    maxRowIndex := CountRows(frame, g, colsCount);
    CountedAll(colsCount[..], g, frame.Length1, RowCounts(g), maxRowIndex);
  }

  /** The row loop of `CountFrame`, on columns that start at 0. */
  method CountRows(frame: array2<Pixel>, ghost g: seq<seq<Pixel>>, colsCount: array<int>) returns (maxRowIndex: nat)
    requires IsGrid(frame, g) && colsCount.Length == frame.Length1 && Counted(colsCount[..], g[..0])
    modifies colsCount
    ensures Counted(colsCount[..], g[..|g|]) && maxRowIndex == FirstMax(RowCounts(g)[..|g|])
  {
    ghost var rowCounts := RowCounts(g);
    var maxRowCount := 0;
    maxRowIndex := 0;
    var i := 0;
    while i < frame.Length0
      invariant 0 <= i <= frame.Length0
      invariant Counted(colsCount[..], g[..i])
      invariant maxRowIndex == FirstMax(rowCounts[..i])
      invariant i == 0 ==> maxRowCount == 0
      invariant i > 0 ==> maxRowCount == rowCounts[maxRowIndex]
    {
      maxRowIndex, maxRowCount := CountRowStep(frame, g, rowCounts, i, colsCount, maxRowIndex, maxRowCount);
      i := i + 1;
    }
  }

  /**
    Counts the target pixels per row and per column in one pass and picks
    the fullest row (the first one, as a later row must beat it strictly)
    and the fullest column (the first one, as `std::max_element` returns).
  */
  method FindTarget(frame: array2<Pixel>) returns (target: Option<Point>)
    ensures target == TargetOf(Grid(frame), frame.Length1)
  {
    ghost var g := Grid(frame);
    var colsCount, maxRowIndex := CountFrame(frame, g);
    var maxColIndex := FirstMax(colsCount[..]);
    if maxColIndex == 0 && maxRowIndex == 0 {
      return None;
    }
    return Some(Point(maxColIndex, maxRowIndex));
  }

  /** A frame without light pixels gives no target. */
  lemma NoTargetGivesNone(g: seq<seq<Pixel>>, n: nat)
    requires Rect(g, n) && !HasTarget(g)
    ensures TargetOf(g, n) == None
  {
    var rows, cols := RowCounts(g), ColCounts(g, n);
    if |g| > 0 {
      forall i | 0 <= i < |g|
        ensures rows[i] == 0
      {
        RowCountPositive(g[i]);
        if RowCount(g[i]) > 0 {
          var j :| 0 <= j < |g[i]| && IsTarget(g[i][j].b, g[i][j].g, g[i][j].r);
          assert TargetAt(g, i, j);
        }
      }
      assert rows[0] == 0;
    }
    if n > 0 {
      forall j | 0 <= j < n
        ensures cols[j] == 0
      {
        ColCountPositive(g, j);
      }
      assert cols[0] == 0;
    }
  }

  /**
    A target that is found lies inside the frame, in the first of its
    fullest rows and the first of its fullest columns.
  */
  lemma FoundTargetIsFullest(g: seq<seq<Pixel>>, n: nat)
    requires Rect(g, n) && TargetOf(g, n).Some?
    ensures var p := TargetOf(g, n).value; var rows, cols := RowCounts(g), ColCounts(g, n);
      0 <= p.y < |g| && 0 <= p.x < n &&
      (forall i :: 0 <= i < |g| ==> rows[i] <= rows[p.y]) && (forall i :: 0 <= i < p.y ==> rows[i] < rows[p.y]) &&
      (forall j :: 0 <= j < n ==> cols[j] <= cols[p.x]) && (forall j :: 0 <= j < p.x ==> cols[j] < cols[p.x])
  {
    var p := TargetOf(g, n).value;
    var rows, cols := RowCounts(g), ColCounts(g, n);
    if p.y != 0 {
      assert rows[0] < rows[p.y] && |g[p.y]| == n;
    } else {
      assert cols[0] < cols[p.x] <= |g|;
    }
  }

  /** A target that is found has target pixels in its row and in its column. */
  lemma FoundTargetIsLit(g: seq<seq<Pixel>>, n: nat)
    requires Rect(g, n) && TargetOf(g, n).Some?
    ensures var p := TargetOf(g, n).value; 0 <= p.y < |g| && 0 <= p.x < n && RowCount(g[p.y]) > 0 && ColCount(g, p.x) > 0
  {
    FoundTargetIsFullest(g, n);
    var p := TargetOf(g, n).value;
    var rows, cols := RowCounts(g), ColCounts(g, n);
    if p.y != 0 {
      assert rows[0] < rows[p.y];
      RowCountPositive(g[p.y]);
      var tj :| 0 <= tj < |g[p.y]| && IsTarget(g[p.y][tj].b, g[p.y][tj].g, g[p.y][tj].r);
      assert TargetAt(g, p.y, tj);
      ColCountPositive(g, tj);
      assert cols[tj] <= cols[p.x];
    } else {
      assert cols[0] < cols[p.x];
      ColCountPositive(g, p.x);
      var ti :| 0 <= ti < |g| && TargetAt(g, ti, p.x);
      RowCountPositive(g[ti]);
      assert rows[ti] <= rows[p.y];
    }
  }

  /** A 1x1 frame holding one white pixel: its target at (0, 0) is reported as none. */
  lemma OriginTargetLost()
    ensures var g := [[Pixel(255, 255, 255)]]; HasTarget(g) && TargetOf(g, 1) == None
  {
    var g := [[Pixel(255, 255, 255)]];
    assert TargetAt(g, 0, 0);
  }

  /** `FindTarget` as evidently intended: none exactly when the frame has no light pixel. */
  function TargetOfIntended(g: seq<seq<Pixel>>, n: nat): (r: Option<Point>)
    requires Rect(g, n)
    ensures r.None? <==> !HasTarget(g)
    ensures r.Some? ==> 0 <= r.value.y < |g| && 0 <= r.value.x < n
    ensures r.Some? ==> RowCount(g[r.value.y]) > 0 && ColCount(g, r.value.x) > 0
  {
    var rows := RowCounts(g);
    var row := FirstMax(rows);
    TargetAgreement(g, n);
    if |g| == 0 || rows[row] == 0 then None else Some(Point(FirstMax(ColCounts(g, n)), row))
  }

  /** Where the code finds a target, it is the intended one; the two differ only at (0, 0). */
  lemma TargetAgreement(g: seq<seq<Pixel>>, n: nat)
    requires Rect(g, n)
    ensures var rows := RowCounts(g); var row := FirstMax(rows);
      (|g| == 0 || rows[row] == 0) <==> !HasTarget(g)
    ensures HasTarget(g) ==> n > 0 && ColCounts(g, n)[FirstMax(ColCounts(g, n))] > 0
    ensures TargetOf(g, n).Some? ==> HasTarget(g)
  {
    var rows := RowCounts(g);
    var row := FirstMax(rows);
    if HasTarget(g) {
      var i, j :| 0 <= i < |g| && 0 <= j < |g[i]| && TargetAt(g, i, j);
      RowCountPositive(g[i]);
      assert rows[i] <= rows[row];
      ColCountPositive(g, j);
      var cols := ColCounts(g, n);
      assert cols[j] <= cols[FirstMax(cols)];
    } else {
      NoTargetGivesNone(g, n);
      if |g| > 0 {
        RowCountPositive(g[row]);
        if rows[row] > 0 {
          var j :| 0 <= j < |g[row]| && IsTarget(g[row][j].b, g[row][j].g, g[row][j].r);
          assert TargetAt(g, row, j);
        }
      }
    }
    if TargetOf(g, n).Some? {
      FoundTargetIsLit(g, n);
      var p := TargetOf(g, n).value;
      RowCountPositive(g[p.y]);
      var j :| 0 <= j < |g[p.y]| && IsTarget(g[p.y][j].b, g[p.y][j].g, g[p.y][j].r);
      assert TargetAt(g, p.y, j);
    }
  }

  /** Wherever the code reports a target, the intended definition reports the same one. */
  lemma IntendedAgrees(g: seq<seq<Pixel>>, n: nat)
    requires Rect(g, n) && TargetOf(g, n).Some?
    ensures TargetOfIntended(g, n) == TargetOf(g, n)
  {
    TargetAgreement(g, n);
  }

  // ---------------------------------------------------------------------------
  // Steer

  function Min(a: int, b: int): int { if a < b then a else b }
  function Max(a: int, b: int): int { if a < b then b else a }

  /**
    `static_cast<int>(v * CM_PER_PIXEL)` with `CM_PER_PIXEL` = 0.3: the
    centimetres for `v` pixels, truncated towards zero.
  */
  function RawStep(v: int): (s: int)
    ensures Abs(s) * 10 <= Abs(3 * v) < (Abs(s) + 1) * 10
    ensures v >= 0 ==> s >= 0
    ensures v <= 0 ==> s <= 0
  {
    if v >= 0 then 3 * v / 10 else -((-3 * v) / 10)
  }

  /** `std::max(std::min(raw, max_step), min_step)`. */
  function Clamp(raw: int, minStep: int, maxStep: int): int {
    Max(Min(raw, maxStep), minStep)
  }

  /** The step is at least `min_step`, at most `max_step` when the bounds are ordered, and `min_step` for any smaller raw step. */
  lemma ClampBounds(raw: int, minStep: int, maxStep: int)
    ensures Clamp(raw, minStep, maxStep) >= minStep
    ensures minStep <= maxStep ==> Clamp(raw, minStep, maxStep) <= maxStep
    ensures raw <= minStep ==> Clamp(raw, minStep, maxStep) == minStep
    ensures minStep <= raw <= maxStep ==> Clamp(raw, minStep, maxStep) == raw
  {
  }

  /**
    The move towards `target`: along the axis of the larger offset (the
    vertical one on a tie), by the clamped step; and the offset itself.
  */
  function Steer(position: Point, target: Point, squareTargetDistance: int, minStep: int, maxStep: int): (r: (string, Point))
    ensures r.1 == Point(target.x - position.x, target.y - position.y)
  {
    var velocity := Point(target.x - position.x, target.y - position.y);
    if Abs(velocity.x) > Abs(velocity.y) then
      var step := Clamp(RawStep(velocity.x), minStep, maxStep);
      if velocity.x > 0 then ("right " + IntToString(step), velocity)
      else ("left " + IntToString(step), velocity)
    else
      var step := Clamp(RawStep(velocity.y), minStep, maxStep);
      if velocity.y < 0 then ("up " + IntToString(step), velocity)
      else ("down " + IntToString(step), velocity)
  }

  /** The direction word `Steer` starts its command with. */
  function SteerWord(velocity: Point): string {
    if Abs(velocity.x) > Abs(velocity.y) then (if velocity.x > 0 then "right " else "left ")
    else (if velocity.y < 0 then "up " else "down ")
  }

  /**
    The command is the direction word followed by the step: horizontal
    exactly when the horizontal offset is larger, "right" exactly for a
    positive one, "up" exactly for a negative vertical one. The target
    distance plays no part.
  */
  lemma SteerCommand(position: Point, target: Point, d: int, d': int, minStep: int, maxStep: int)
    ensures var r := Steer(position, target, d, minStep, maxStep); var v := r.1; var w := SteerWord(v);
      |w| < |r.0| && r.0[..|w|] == w &&
      (w in {"right ", "left "} <==> Abs(v.x) > Abs(v.y)) &&
      (w == "right " <==> Abs(v.x) > Abs(v.y) && v.x > 0) &&
      (w == "up " <==> Abs(v.x) <= Abs(v.y) && v.y < 0)
    ensures Steer(position, target, d, minStep, maxStep) == Steer(position, target, d', minStep, maxStep)
  {
  }

  /**
    A move left or up always goes `min_step` centimetres, however far the
    target is: its raw step is the truncation of a negative offset, never
    above 0, so the clamp lifts it to `min_step`.
  */
  lemma LeftAndUpMoveMinStep(position: Point, target: Point, d: int, minStep: int, maxStep: int)
    requires 0 <= minStep
    ensures var r := Steer(position, target, d, minStep, maxStep);
      SteerWord(r.1) in {"left ", "up "} ==> r.0 == SteerWord(r.1) + IntToString(minStep)
  {
  }

  /** With the example's bounds, the command reads back as its word and a step of 20 to 60 centimetres. */
  lemma FollowStepRange(target: Point)
    ensures var r := Steer(TELLO_POSITION, target, SQUARE_TARGET_DISTANCE, MIN_STEP, MAX_STEP);
      var w := SteerWord(r.1); var rest := r.0[|w|..];
      r.0 == w + rest && rest == NatToString(DigitsValue(rest)) && MIN_STEP <= DigitsValue(rest) <= MAX_STEP
  {
    var r := Steer(TELLO_POSITION, target, SQUARE_TARGET_DISTANCE, MIN_STEP, MAX_STEP);
    var v := r.1;
    var w := SteerWord(v);
    var raw := if Abs(v.x) > Abs(v.y) then RawStep(v.x) else RawStep(v.y);
    var step := Clamp(raw, MIN_STEP, MAX_STEP);
    ClampBounds(raw, MIN_STEP, MAX_STEP);
    assert r.0 == w + NatToString(step);
    assert r.0[|w|..] == NatToString(step);
    NatToStringRoundTrip(step);
  }

  // ---------------------------------------------------------------------------
  // The follow loop

  /**
    One pass of the example's loop, as far as the control logic sees it:
    whether `ReceiveResponse` yielded a response, what `FindTarget` returns
    for the captured frame, and the key `waitKey` reports.
  */
  datatype Tick = Tick(responded: bool, target: Option<Point>, key: int)

  const ESC: int := 27

  /** The command `Steer` gives for a target. */
  function CommandFor(target: Point): string {
    Steer(TELLO_POSITION, target, SQUARE_TARGET_DISTANCE, MIN_STEP, MAX_STEP).0
  }

  /** One pass: a response clears `busy`; a target's command is sent only when not busy, which sets it. */
  function Act(state: (bool, seq<string>), t: Tick): (bool, seq<string>) {
    var busy := if t.responded then false else state.0;
    if t.target.Some? && CommandFor(t.target.value) != [] && !busy then (true, state.1 + [CommandFor(t.target.value)])
    else (busy, state.1)
  }

  /** `busy` and the commands sent after a run of passes from the start. */
  function Run(ticks: seq<Tick>): (bool, seq<string>)
    decreases |ticks|
  {
    if ticks == [] then (false, []) else Act(Run(ticks[..|ticks| - 1]), ticks[|ticks| - 1])
  }

  /** A run one pass longer. */
  lemma RunStep(ticks: seq<Tick>, i: nat)
    requires i < |ticks|
    ensures Run(ticks[..i + 1]) == Act(Run(ticks[..i]), ticks[i])
  {
    assert ticks[..i + 1][..i] == ticks[..i];
  }

  /** The passes the loop makes: up to and including the first one where Esc is pressed. */
  function Passes(ticks: seq<Tick>): (n: nat)
    ensures n <= |ticks|
  {
    if ticks == [] then 0 else if ticks[0].key == ESC then 1 else 1 + Passes(ticks[1..])
  }

  /** The loop stops after the first pass with Esc, and not before. */
  lemma {:induction false} PassesAt(ticks: seq<Tick>, i: nat)
    requires i < |ticks| && forall k :: 0 <= k < i ==> ticks[k].key != ESC
    ensures ticks[i].key == ESC ==> Passes(ticks) == i + 1
    ensures ticks[i].key != ESC ==> Passes(ticks) > i + 1 || Passes(ticks) == |ticks| == i + 1
  {
    if i > 0 {
      assert ticks[0].key != ESC;
      forall k | 0 <= k < i - 1
        ensures ticks[1..][k].key != ESC
      {
        assert ticks[1..][k] == ticks[k + 1];
      }
      PassesAt(ticks[1..], i - 1);
    }
  }

  function Responses(ticks: seq<Tick>): (n: nat)
    ensures n <= |ticks|
  {
    if ticks == [] then 0 else Responses(ticks[..|ticks| - 1]) + if ticks[|ticks| - 1].responded then 1 else 0
  }

  /** Every command sent is the steering command for a target, and a pass sends at most one. */
  lemma {:induction false} SentAreSteering(ticks: seq<Tick>)
    ensures |Run(ticks).1| <= |ticks|
    ensures forall k :: 0 <= k < |Run(ticks).1| ==>
      exists i :: 0 <= i < |ticks| && ticks[i].target.Some? && Run(ticks).1[k] == CommandFor(ticks[i].target.value)
    decreases |ticks|
  {
    if ticks != [] {
      var init := ticks[..|ticks| - 1];
      SentAreSteering(init);
      forall k | 0 <= k < |Run(ticks).1|
        ensures exists i :: 0 <= i < |ticks| && ticks[i].target.Some? && Run(ticks).1[k] == CommandFor(ticks[i].target.value)
      {
        if k < |Run(init).1| {
          var i :| 0 <= i < |init| && init[i].target.Some? && Run(init).1[k] == CommandFor(init[i].target.value);
          assert ticks[i] == init[i];
        } else {
          assert Run(ticks).1[k] == CommandFor(ticks[|ticks| - 1].target.value);
        }
      }
    }
  }

  /**
    Sending waits for responses: besides the first command, each command
    sent needs a response received since the previous one.
  */
  lemma {:induction false} SendsNeedResponses(ticks: seq<Tick>)
    ensures |Run(ticks).1| + (if Run(ticks).0 then 0 else 1) <= Responses(ticks) + 1
    ensures |Run(ticks).1| > 0 ==> Run(ticks).0 || Responses(ticks) > 0
    decreases |ticks|
  {
    if ticks != [] {
      SendsNeedResponses(ticks[..|ticks| - 1]);
    }
  }

  /** While busy and without a response, a pass sends nothing; after a response, a target is acted on. */
  lemma Gating(state: (bool, seq<string>), t: Tick)
    ensures state.0 && !t.responded ==> Act(state, t) == state
    ensures t.responded && t.target.Some? ==> Act(state, t) == (true, state.1 + [CommandFor(t.target.value)])
    ensures t.target.None? ==> Act(state, t).1 == state.1
  {
    if t.target.Some? {
      SteerCommand(TELLO_POSITION, t.target.value, SQUARE_TARGET_DISTANCE, SQUARE_TARGET_DISTANCE, MIN_STEP, MAX_STEP);
    }
  }

  /** Pass `i` of the loop: listen for a response, then act on the target, if any. */
  method FollowPass(busy: bool, sent: seq<string>, ghost ticks: seq<Tick>, i: nat, t: Tick) returns (busy': bool, sent': seq<string>)
    requires i < |ticks| && t == ticks[i] && (busy, sent) == Run(ticks[..i])
    ensures (busy', sent') == Act((busy, sent), t) == Run(ticks[..i + 1])
  {
    RunStep(ticks, i);
    busy', sent' := busy, sent;
    if t.responded {
      busy' := false;
    }
    if t.target.Some? {
      var steer := Steer(TELLO_POSITION, t.target.value, SQUARE_TARGET_DISTANCE, MIN_STEP, MAX_STEP);
      var command := steer.0;
      if command != [] {
        if !busy' {
          sent' := sent' + [command];
          busy' := true;
        }
      }
    }
  }

  /** The loop of the example after take-off, over the passes `ticks`; returns `busy` and the commands sent. */
  method FollowLoop(ticks: seq<Tick>) returns (busy: bool, sent: seq<string>)
    ensures (busy, sent) == Run(ticks[..Passes(ticks)])
  {
    busy := false;
    sent := [];
    var i := 0;
    while i < |ticks|
      invariant 0 <= i <= Passes(ticks)
      invariant forall k :: 0 <= k < i ==> ticks[k].key != ESC
      invariant (busy, sent) == Run(ticks[..i])
    {
      PassesAt(ticks, i);
      var t := ticks[i];
      busy, sent := FollowPass(busy, sent, ticks, i, t);
      i := i + 1;
      if t.key == ESC {
        assert i == Passes(ticks);
        return;
      }
    }
    assert i == Passes(ticks);
  }
}
