/** src/q3.rs: two wires given as lists of shifts along the grid axes; the
    shifts become segments, the segments of one wire are intersected with
    those of the other, and the answer is the smallest positive Manhattan
    distance (part A) or the smallest positive combined delay (part B) of a
    crossing. */
module CrossedWires {
  import opened Wrappers
  import opened Arith
  import opened Decimal

  datatype Axis = X | Y

  /** A signed move along one axis. */
  datatype Shift = Shift(axis: Axis, distance: int)

  datatype Point = Point(x: int, y: int)

  /** A segment: its lesser end on the moving axis, and its length. */
  datatype Line = Line(axis: Axis, distance: int, origin: Point)

  const Origin := Point(0, 0)

  // Parsing

  /** `axis_sign`: the direction letters L, R, U, D. */
  function AxisSign(c: char): (r: Option<(Axis, int)>)
    ensures r.Some? <==> c == 'L' || c == 'R' || c == 'U' || c == 'D'
    ensures r.Some? ==> (r.value.0 == X <==> c == 'L' || c == 'R')
    ensures r.Some? ==> (r.value.1 == -1 <==> c == 'L' || c == 'U')
    ensures r.Some? ==> (r.value.1 == 1 <==> c == 'R' || c == 'D')
  {
    match c
    case 'L' => Some((X, -1))
    case 'R' => Some((X, 1))
    case 'U' => Some((Y, -1))
    case 'D' => Some((Y, 1))
    case _ => None
  }

  /** `shift` on one whole token: a direction letter, then one or more
      digits that `i64::from_str` accepts, multiplied by the letter's sign. */
  function ParseShift(token: string): Option<Shift> {
    if |token| < 2 || AxisSign(token[0]).None? || !AllDigits(token[1..]) then None
    else
      var n := DigitsValue(token[1..]);
      if n > I64Max then None
      else
        var (axis, sign) := AxisSign(token[0]).value;
        Some(Shift(axis, n * sign))
  }

  /** The token a shift is written as: R or D for a non-negative distance,
      L or U for a negative one. */
  function ShowShift(s: Shift): string {
    var letter := match s.axis
      case X => if s.distance < 0 then 'L' else 'R'
      case Y => if s.distance < 0 then 'U' else 'D';
    [letter] + ShowNat(Abs(s.distance))
  }

  /** Every shift whose length fits in an i64 reads back from its token. */
  lemma ParseShowShift(s: Shift)
    requires Abs(s.distance) <= I64Max
    ensures ParseShift(ShowShift(s)) == Some(s)
  {
    var t := ShowShift(s);
    assert t[1..] == ShowNat(Abs(s.distance));
    ShowNatValue(Abs(s.distance));
  }

  /** The L/U letters give negative shifts and the R/D letters non-negative
      ones. */
  lemma ParseShiftSign(token: string)
    requires ParseShift(token).Some?
    ensures ParseShift(token).value.axis == X <==> token[0] == 'L' || token[0] == 'R'
    ensures token[0] == 'L' || token[0] == 'U' ==> ParseShift(token).value.distance <= 0
    ensures token[0] == 'R' || token[0] == 'D' ==> ParseShift(token).value.distance >= 0
    ensures Abs(ParseShift(token).value.distance) == DigitsValue(token[1..])
  {
  }

  // The scan in `lines`

  function Move(p: Point, s: Shift): Point {
    match s.axis
    case X => Point(p.x + s.distance, p.y)
    case Y => Point(p.x, p.y + s.distance)
  }

  /** The running point after the first k shifts, starting at `start`. */
  function Position(start: Point, shifts: seq<Shift>, k: nat): Point
    requires k <= |shifts|
    decreases k
  {
    if k == 0 then start else Position(Move(start, shifts[0]), shifts[1..], k - 1)
  }

  /** The total signed movement along one axis. */
  function SumAlong(shifts: seq<Shift>, axis: Axis): int {
    if shifts == [] then 0
    else (if shifts[0].axis == axis then shifts[0].distance else 0) + SumAlong(shifts[1..], axis)
  }

  /** The running point is the start plus the sums of the shifts so far. */
  lemma {:induction false} PositionIsSum(start: Point, shifts: seq<Shift>, k: nat)
    requires k <= |shifts|
    ensures Position(start, shifts, k) ==
      Point(start.x + SumAlong(shifts[..k], X), start.y + SumAlong(shifts[..k], Y))
    decreases k
  {
    if k > 0 {
      PositionIsSum(Move(start, shifts[0]), shifts[1..], k - 1);
      assert shifts[..k][1..] == shifts[1..][..k - 1];
    }
  }

  lemma {:induction false} PositionNext(start: Point, shifts: seq<Shift>, k: nat)
    requires k < |shifts|
    ensures Position(start, shifts, k + 1) == Move(Position(start, shifts, k), shifts[k])
    decreases k
  {
    if k > 0 {
      PositionNext(Move(start, shifts[0]), shifts[1..], k - 1);
    }
  }

  /** The segment a shift sweeps from `p`. */
  function Segment(p: Point, s: Shift): Line {
    var q := Move(p, s);
    Line(s.axis, Abs(s.distance), Point(Min(p.x, q.x), Min(p.y, q.y)))
  }

  /** `lines` as a value: the k-th segment starts at the running point. */
  function LinesOf(shifts: seq<Shift>): seq<Line> {
    seq(|shifts|, k requires 0 <= k < |shifts| => Segment(Position(Origin, shifts, k), shifts[k]))
  }

  /** `lines`: the scan, carrying the running point. */
  method Lines(shifts: seq<Shift>) returns (ls: seq<Line>)
    ensures ls == LinesOf(shifts)
  {
    var point := Origin;
    ls := [];
    var k := 0;
    while k < |shifts|
      invariant 0 <= k <= |shifts|
      invariant point == Position(Origin, shifts, k)
      invariant ls == LinesOf(shifts)[..k]
    {
      var shift := shifts[k];
      var origin;
      match shift.axis {
        case X =>
          var old_x := point.x;
          point := point.(x := old_x + shift.distance);
          origin := Point(Min(old_x, point.x), point.y);
        case Y =>
          var old_y := point.y;
          point := point.(y := old_y + shift.distance);
          origin := Point(point.x, Min(old_y, point.y));
      }
      ls := ls + [Line(shift.axis, Abs(shift.distance), origin)];
      PositionNext(Origin, shifts, k);
      k := k + 1;
    }
  }

  /** p lies on the closed segment l. */
  predicate OnLine(l: Line, p: Point) {
    match l.axis
    case X => p.y == l.origin.y && l.origin.x <= p.x <= l.origin.x + l.distance
    case Y => p.x == l.origin.x && l.origin.y <= p.y <= l.origin.y + l.distance
  }

  predicate Between(a: int, b: int, c: int) {
    Min(a, b) <= c && c <= a + b - Min(a, b)
  }

  /** A segment holds exactly the points between the running point before
      and after its shift. */
  lemma SegmentCovers(p: Point, s: Shift, q: Point)
    ensures OnLine(Segment(p, s), q) <==>
      match s.axis
      case X => q.y == p.y && Between(p.x, p.x + s.distance, q.x)
      case Y => q.x == p.x && Between(p.y, p.y + s.distance, q.y)
  {
  }

  // Intersections

  /** `intersect`: parallel segments never meet (the source notes that they
      could overlap, but ignores it); a vertical-then-horizontal pair is
      swapped. */
  function Intersect(first: Line, second: Line): (r: Option<Point>)
    decreases if first.axis == Y then 1 else 0
    ensures first.axis == second.axis ==> r.None?
    ensures r.Some? ==> OnLine(first, r.value) && OnLine(second, r.value)
  {
    match (first.axis, second.axis)
    case (X, X) => None
    case (Y, Y) => None
    case (Y, X) => Intersect(second, first)
    case (X, Y) =>
      if first.origin.x <= second.origin.x
        && first.origin.x + first.distance >= second.origin.x
        && first.origin.y >= second.origin.y
        && first.origin.y <= second.origin.y + second.distance
      then Some(Point(second.origin.x, first.origin.y))
      else None
  }

  /** Two perpendicular segments meet exactly at the points on both, and
      there is at most one such point. */
  lemma IntersectIff(first: Line, second: Line, p: Point)
    ensures Intersect(first, second) == Some(p) <==>
      first.axis != second.axis && OnLine(first, p) && OnLine(second, p)
  {
  }

  lemma IntersectSymmetric(first: Line, second: Line)
    ensures Intersect(first, second) == Intersect(second, first)
  {
    if Intersect(first, second).Some? {
      IntersectIff(second, first, Intersect(first, second).value);
    } else if Intersect(second, first).Some? {
      IntersectIff(first, second, Intersect(second, first).value);
    }
  }

  /** A crossing point, with the index of the segment on each wire. */
  datatype Crossing = Crossing(point: Point, first: nat, second: nat)

  /** The crossings of `line` (index i of the first wire) with the second
      wire's segments from index j on. */
  function Row(line: Line, i: nat, second: seq<Line>, j: nat): (r: seq<Crossing>)
    requires j <= |second|
    decreases |second| - j
    ensures forall c :: c in r <==>
      c.first == i && j <= c.second < |second| && Intersect(line, second[c.second]) == Some(c.point)
    ensures forall a, b :: 0 <= a < b < |r| ==> r[a].second < r[b].second
  {
    if j == |second| then []
    else
      var rest := Row(line, i, second, j + 1);
      match Intersect(line, second[j])
      case Some(p) => [Crossing(p, i, j)] + rest
      case None => rest
  }

  function IntersectionsFrom(first: seq<Line>, second: seq<Line>, i: nat): (r: seq<Crossing>)
    requires i <= |first|
    decreases |first| - i
    ensures forall c :: c in r <==>
      i <= c.first < |first| && c.second < |second| && Intersect(first[c.first], second[c.second]) == Some(c.point)
    ensures forall a, b :: 0 <= a < b < |r| ==> Before(r[a], r[b])
  {
    if i == |first| then []
    else
      var row := Row(first[i], i, second, 0);
      var rest := IntersectionsFrom(first, second, i + 1);
      assert forall a :: 0 <= a < |row| ==> row[a] in row && row[a].first == i;
      assert forall b :: 0 <= b < |rest| ==> rest[b] in rest && rest[b].first > i;
      row + rest
  }

  /** First-wire-major order of crossings. */
  predicate Before(a: Crossing, b: Crossing) {
    a.first < b.first || (a.first == b.first && a.second < b.second)
  }

  /** `intersections`: every pair of segments that meet, tagged with the
      point, each pair once and in first-wire-major order. */
  function Intersections(first: seq<Line>, second: seq<Line>): seq<Crossing> {
    IntersectionsFrom(first, second, 0)
  }

  lemma IntersectionsIff(first: seq<Line>, second: seq<Line>, c: Crossing)
    ensures c in Intersections(first, second) <==>
      c.first < |first| && c.second < |second| && Intersect(first[c.first], second[c.second]) == Some(c.point)
    ensures forall a, b :: 0 <= a < b < |Intersections(first, second)| ==>
      Before(Intersections(first, second)[a], Intersections(first, second)[b])
  {
  }

  // Minima

  /** `.filter(|d| *d > 0).min()`. */
  function MinPositive(xs: seq<int>): (r: Option<int>)
    ensures r.None? <==> forall i :: 0 <= i < |xs| ==> xs[i] <= 0
    ensures r.Some? ==> r.value > 0 && r.value in xs
    ensures r.Some? ==> forall i :: 0 <= i < |xs| && xs[i] > 0 ==> r.value <= xs[i]
  {
    if xs == [] then None
    else
      var rest := MinPositive(xs[1..]);
      assert forall i :: 1 <= i < |xs| ==> xs[i] == xs[1..][i - 1];
      if xs[0] <= 0 then rest
      else if rest.Some? && rest.value < xs[0] then rest
      else Some(xs[0])
  }

  function Manhattan(p: Point): nat {
    Abs(p.x) + Abs(p.y)
  }

  /** `minimum_manhattan`. */
  function MinimumManhattan(cs: seq<Crossing>): Option<int> {
    MinPositive(Distances(cs))
  }

  function Distances(cs: seq<Crossing>): (ds: seq<int>)
    ensures |ds| == |cs| && forall i :: 0 <= i < |cs| ==> ds[i] == Manhattan(cs[i].point)
  {
    seq(|cs|, i requires 0 <= i < |cs| => Manhattan(cs[i].point) as int)
  }

  /** The answer to part A is the distance of a crossing away from the
      central port, and no crossing away from it is nearer; there is none
      exactly when every crossing is at the port. */
  lemma MinimumManhattanIs(cs: seq<Crossing>)
    ensures MinimumManhattan(cs).None? <==> forall c :: c in cs ==> c.point == Origin
    ensures MinimumManhattan(cs).Some? ==>
      (exists c :: c in cs && c.point != Origin && Manhattan(c.point) == MinimumManhattan(cs).value)
    ensures MinimumManhattan(cs).Some? ==>
      forall c :: c in cs && c.point != Origin ==> MinimumManhattan(cs).value <= Manhattan(c.point)
  {
    MinimumManhattanNone(cs);
    if MinimumManhattan(cs).Some? {
      MinimumManhattanReached(cs);
      MinimumManhattanLeast(cs);
    }
  }

  lemma MinimumManhattanNone(cs: seq<Crossing>)
    ensures MinimumManhattan(cs).None? <==> forall c :: c in cs ==> c.point == Origin
  {
    var ds := Distances(cs);
    if forall i :: 0 <= i < |ds| ==> ds[i] <= 0 {
      forall c | c in cs ensures c.point == Origin {
        var j :| 0 <= j < |cs| && cs[j] == c;
        assert ds[j] <= 0;
      }
    } else {
      var j :| 0 <= j < |ds| && ds[j] > 0;
      assert cs[j] in cs && cs[j].point != Origin;
    }
  }

  lemma MinimumManhattanReached(cs: seq<Crossing>)
    requires MinimumManhattan(cs).Some?
    ensures exists c :: c in cs && c.point != Origin && Manhattan(c.point) == MinimumManhattan(cs).value
  {
    var ds := Distances(cs);
    var i :| 0 <= i < |ds| && ds[i] == MinimumManhattan(cs).value;
    assert cs[i] in cs && cs[i].point != Origin;
  }

  lemma MinimumManhattanLeast(cs: seq<Crossing>)
    requires MinimumManhattan(cs).Some?
    ensures forall c :: c in cs && c.point != Origin ==> MinimumManhattan(cs).value <= Manhattan(c.point)
  {
    var ds := Distances(cs);
    forall c | c in cs && c.point != Origin ensures MinimumManhattan(cs).value <= Manhattan(c.point) {
      var j :| 0 <= j < |cs| && cs[j] == c;
      assert ds[j] > 0;
    }
  }

  // Delay, as written

  /** The summed lengths of the first k segments. */
  function LengthBefore(lines: seq<Line>, k: nat): int
    requires k <= |lines|
  {
    if k == 0 then 0 else LengthBefore(lines, k - 1) + Abs(lines[k - 1].distance)
  }

  /** `delay` as written. `lines` has already made every distance
      non-negative, so the `distance < 0` arms never apply and the offset is
      always taken from the segment's lesser end. */
  function Delay(lines: seq<Line>, index: nat, point: Point): int
    requires index < |lines|
  {
    var last := lines[index];
    var lastDelay := match last.axis
      case X => if last.distance < 0 then last.origin.x - last.distance - point.x else point.x - last.origin.x
      case Y => if last.distance < 0 then last.origin.y - last.distance - point.y else point.y - last.origin.y;
    LengthBefore(lines, index) + lastDelay
  }

  /** `minimum_delay` as written. */
  function MinimumDelay(first: seq<Line>, second: seq<Line>, cs: seq<Crossing>): Option<int>
    requires forall c :: c in cs ==> c.first < |first| && c.second < |second|
  {
    MinPositive(seq(|cs|, i requires 0 <= i < |cs| =>
      Delay(first, cs[i].first, cs[i].point) + Delay(second, cs[i].second, cs[i].point)))
  }

  // Delay, as intended: steps walked along the wire

  /** t unit steps from p in the direction of s. */
  function Advance(p: Point, s: Shift, t: nat): Point {
    var step: int := if s.distance < 0 then -(t as int) else t;
    match s.axis
    case X => Point(p.x + step, p.y)
    case Y => Point(p.x, p.y + step)
  }

  /** Where the wire is after t unit steps from `start`; a step count that
      lands on the end of a segment is counted on the next one, and the wire
      stays at its last point once walked out. */
  function Walk(start: Point, shifts: seq<Shift>, t: nat): Point
    decreases |shifts|
  {
    if shifts == [] then start
    else if t < Abs(shifts[0].distance) then Advance(start, shifts[0], t)
    else Walk(Move(start, shifts[0]), shifts[1..], t - Abs(shifts[0].distance))
  }

  /** The summed lengths of the first k shifts. */
  function StepsBefore(shifts: seq<Shift>, k: nat): nat
    requires k <= |shifts|
  {
    if k == 0 then 0 else Abs(shifts[0].distance) + StepsBefore(shifts[1..], k - 1)
  }

  function Offset(p: Point, axis: Axis, q: Point): nat {
    match axis
    case X => Abs(q.x - p.x)
    case Y => Abs(q.y - p.y)
  }

  /** The steps the wire takes to reach `point` on its segment `index`: the
      whole earlier segments, then the distance from where that segment
      starts. */
  function WireDelayFrom(start: Point, shifts: seq<Shift>, index: nat, point: Point): nat
    requires index < |shifts|
  {
    StepsBefore(shifts, index) + Offset(Position(start, shifts, index), shifts[index].axis, point)
  }

  function WireDelay(shifts: seq<Shift>, index: nat, point: Point): nat
    requires index < |shifts|
  {
    WireDelayFrom(Origin, shifts, index, point)
  }

  lemma {:induction false} WalkNowhere(start: Point, shifts: seq<Shift>)
    ensures Walk(start, shifts, 0) == start
    decreases |shifts|
  {
    if shifts != [] && Abs(shifts[0].distance) == 0 {
      assert Move(start, shifts[0]) == start;
      WalkNowhere(start, shifts[1..]);
    }
  }

  /** Walking the corrected delay along the wire arrives at the point. */
  lemma {:induction false} WalkReaches(start: Point, shifts: seq<Shift>, index: nat, point: Point)
    requires index < |shifts|
    requires OnLine(Segment(Position(start, shifts, index), shifts[index]), point)
    ensures Walk(start, shifts, WireDelayFrom(start, shifts, index, point)) == point
    decreases index
  {
    if index == 0 {
      var s := shifts[0];
      SegmentCovers(start, s, point);
      var t := Offset(start, s.axis, point);
      if t == Abs(s.distance) {
        assert point == Move(start, s);
        WalkNowhere(Move(start, s), shifts[1..]);
      }
    } else {
      WalkReaches(Move(start, shifts[0]), shifts[1..], index - 1, point);
    }
  }

  lemma {:induction false} StepsBeforeIsLengthBefore(shifts: seq<Shift>, k: nat)
    requires k <= |shifts|
    ensures StepsBefore(shifts, k) == LengthBefore(LinesOf(shifts), k)
  {
    if k > 0 {
      StepsBeforeIsLengthBefore(shifts, k - 1);
      StepsBeforeLast(shifts, k);
    }
  }

  lemma {:induction false} StepsBeforeLast(shifts: seq<Shift>, k: nat)
    requires 0 < k <= |shifts|
    ensures StepsBefore(shifts, k) == StepsBefore(shifts, k - 1) + Abs(shifts[k - 1].distance)
  {
    if k > 1 {
      StepsBeforeLast(shifts[1..], k - 1);
    }
  }

  /** On a segment walked forwards (R or D), the delay as written is the
      true delay. */
  lemma DelayAgreesForwards(shifts: seq<Shift>, index: nat, point: Point)
    requires index < |shifts| && shifts[index].distance >= 0
    requires OnLine(LinesOf(shifts)[index], point)
    ensures Delay(LinesOf(shifts), index, point) == WireDelay(shifts, index, point)
  {
    StepsBeforeIsLengthBefore(shifts, index);
  }

  /** On a segment walked backwards (L or U), the delay as written counts
      from the far end: one L5 shift crosses (-2, 0) after 2 steps, but the
      delay as written is 3, and 3 steps lead to (-3, 0). */
  lemma DelayCountsFromFarEnd()
    ensures var shifts := [Shift(X, -5)];
      && LinesOf(shifts) == [Line(X, 5, Point(-5, 0))]
      && OnLine(LinesOf(shifts)[0], Point(-2, 0))
      && Delay(LinesOf(shifts), 0, Point(-2, 0)) == 3
      && WireDelay(shifts, 0, Point(-2, 0)) == 2
      && Walk(Origin, shifts, 3) == Point(-3, 0)
      && Walk(Origin, shifts, 2) == Point(-2, 0)
  {
    var shifts := [Shift(X, -5)];
    assert Position(Origin, shifts, 0) == Origin;
    assert LinesOf(shifts)[0] == Line(X, 5, Point(-5, 0));
  }

  /** `minimum_delay` with the delay measured along the wire. */
  function MinimumWireDelay(first: seq<Shift>, second: seq<Shift>, cs: seq<Crossing>): Option<int>
    requires forall c :: c in cs ==> c.first < |first| && c.second < |second|
  {
    MinPositive(seq(|cs|, i requires 0 <= i < |cs| =>
      WireDelay(first, cs[i].first, cs[i].point) + WireDelay(second, cs[i].second, cs[i].point) as int))
  }

  /** The part B answer: some crossing is reached by both wires in that many
      steps in total, and no crossing with a positive total is reached
      sooner. */
  lemma MinimumWireDelayIs(first: seq<Shift>, second: seq<Shift>, cs: seq<Crossing>)
    requires forall c :: c in cs ==> c.first < |first| && c.second < |second|
    ensures MinimumWireDelay(first, second, cs).Some? ==>
      exists c :: c in cs && WireDelay(first, c.first, c.point) + WireDelay(second, c.second, c.point) == MinimumWireDelay(first, second, cs).value
    ensures MinimumWireDelay(first, second, cs).Some? ==>
      forall c :: c in cs && WireDelay(first, c.first, c.point) + WireDelay(second, c.second, c.point) > 0 ==>
        MinimumWireDelay(first, second, cs).value <= WireDelay(first, c.first, c.point) + WireDelay(second, c.second, c.point)
  {
    var ds := seq(|cs|, i requires 0 <= i < |cs| =>
      WireDelay(first, cs[i].first, cs[i].point) + WireDelay(second, cs[i].second, cs[i].point) as int);
    if MinimumWireDelay(first, second, cs).Some? {
      var i :| 0 <= i < |ds| && ds[i] == MinimumWireDelay(first, second, cs).value;
      assert cs[i] in cs;
      forall c | c in cs && WireDelay(first, c.first, c.point) + WireDelay(second, c.second, c.point) > 0
        ensures MinimumWireDelay(first, second, cs).value <= WireDelay(first, c.first, c.point) + WireDelay(second, c.second, c.point)
      {
        var j :| 0 <= j < |cs| && cs[j] == c;
        assert ds[j] > 0;
      }
    }
  }

  datatype Part = A | B

  /** `run` after parsing: both wires' segments, their crossings, and the
      part's minimum (with the delay measured along the wires); None is the
      "no intersections!" error. */
  function Solve(part: Part, first: seq<Shift>, second: seq<Shift>): Option<int> {
    var cs := Intersections(LinesOf(first), LinesOf(second));
    forall c | c in cs ensures c.first < |first| && c.second < |second| {
      IntersectionsIff(LinesOf(first), LinesOf(second), c);
    }
    match part
    case A => MinimumManhattan(cs)
    case B => MinimumWireDelay(first, second, cs)
  }
}
