/**
 * The pure decision functions of the collision step
 * (src/lib/model/world.ts: `_narrowPhase`, `_solveOverlap`), over reals.
 * Bodies are axis-aligned boxes given by their centre; `up` is +y.
 */
module Narrowphase {
  import opened Base

  /** One flag per side of a box. */
  datatype Sides = Sides(left: bool, right: bool, up: bool, down: bool)

  /** What `_narrowPhase` reads of a body: its size and which sides collide. */
  datatype Box = Box(width: real, height: real, collide: Sides)

  /** Centre and velocity of a body in world coordinates. */
  datatype Motion = Motion(x: real, y: real, vx: real, vy: real)

  /** A time of impact; JavaScript's `Infinity` when the axis cannot hit. */
  datatype Toi = Inf | At(t: real)

  /** Which side of b1 is hit: 0 right, 1 left (x-impacts), 2 top, 3 bottom (y-impacts). */
  type Side = s: int | 0 <= s <= 3

  /** The record `_narrowPhase` returns: when, where b1 is then, and the side. */
  datatype Impact = Impact(time: real, x: real, y: real, side: Side)

  /** `toix > toiy` with Infinity. */
  predicate Later(a: Toi, b: Toi) {
    match (a, b)
    case (Inf, Inf) => false
    case (Inf, At(_)) => true
    case (At(_), Inf) => false
    case (At(s), At(t)) => s > t
  }

  /** `toi < delta && toi > -0.0001`: a finite time inside the step, with a small tolerance before 0. */
  predicate InStep(toi: Toi, delta: real) {
    toi.At? && toi.t < delta && toi.t > -0.0001
  }

  /**
   * The x time of impact: b1 closing in on b2 from the left (or right),
   * with b1's facing side and b2's opposite side colliding, and b1 not
   * already resting on b2's entity on that side (`blocked`).
   */
  function ToiX(b1: Box, b2: Box, blocked: Sides, m1: Motion, m2: Motion): (r: Toi)
    ensures r.At? ==> m1.vx != m2.vx
    ensures r.At? && m1.x < m2.x ==>
      m1.vx > m2.vx && b1.collide.right && b2.collide.left && !blocked.right
      && m1.x + r.t * m1.vx + b1.width / 2.0 == m2.x + r.t * m2.vx - b2.width / 2.0
    ensures r.At? && m1.x >= m2.x ==>
      m1.vx < m2.vx && b2.collide.right && b1.collide.left && !blocked.left
      && m1.x + r.t * m1.vx - b1.width / 2.0 == m2.x + r.t * m2.vx + b2.width / 2.0
  {
    if m1.vx != m2.vx then
      if m1.x < m2.x then
        if m1.vx > m2.vx && b1.collide.right && b2.collide.left && !blocked.right then
          At((m1.x - m2.x + (b1.width + b2.width) / 2.0) / (m2.vx - m1.vx))
        else Inf
      else
        if m1.vx < m2.vx && b2.collide.right && b1.collide.left && !blocked.left then
          At((m1.x - m2.x - (b1.width + b2.width) / 2.0) / (m2.vx - m1.vx))
        else Inf
    else Inf
  }

  /** The y time of impact, the same test along y with up/down. */
  function ToiY(b1: Box, b2: Box, blocked: Sides, m1: Motion, m2: Motion): (r: Toi)
    ensures r.At? ==> m1.vy != m2.vy
    ensures r.At? && m1.y < m2.y ==>
      m1.vy > m2.vy && b1.collide.up && b2.collide.down && !blocked.up
      && m1.y + r.t * m1.vy + b1.height / 2.0 == m2.y + r.t * m2.vy - b2.height / 2.0
    ensures r.At? && m1.y >= m2.y ==>
      m1.vy < m2.vy && b1.collide.down && b2.collide.up && !blocked.down
      && m1.y + r.t * m1.vy - b1.height / 2.0 == m2.y + r.t * m2.vy + b2.height / 2.0
  {
    if m1.vy != m2.vy then
      if m1.y < m2.y then
        if m1.vy > m2.vy && b1.collide.up && b2.collide.down && !blocked.up then
          At((m1.y - m2.y + (b1.height + b2.height) / 2.0) / (m2.vy - m1.vy))
        else Inf
      else
        if m1.vy < m2.vy && b1.collide.down && b2.collide.up && !blocked.down then
          At((m1.y - m2.y - (b1.height + b2.height) / 2.0) / (m2.vy - m1.vy))
        else Inf
    else Inf
  }

  /** Two spans overlap by at least 0.000001, the gate each impact passes. */
  predicate SpansMeet(c1: real, half1: real, c2: real, half2: real) {
    !(c2 - half2 + 0.000001 > c1 + half1 || c1 - half1 + 0.000001 > c2 + half2)
  }

  /** Whether the spans along the other axis meet at time t. */
  predicate MeetAt(t: real, c1: real, v1: real, half1: real, c2: real, v2: real, half2: real) {
    SpansMeet(c1 + t * v1, half1, c2 + t * v2, half2)
  }

  /** The x-impact, if its time is in the step and the boxes then meet along y. */
  function XImpact(b1: Box, b2: Box, blocked: Sides, m1: Motion, m2: Motion, delta: real): (r: Option<Impact>)
    ensures r.Some? ==> r.value.side == (if m1.x < m2.x then 0 else 1)
    ensures r.Some? ==> m1.vx != m2.vx && -0.0001 < r.value.time < delta
    ensures r.Some? ==> r.value.x == m1.x + r.value.time * m1.vx && r.value.y == m1.y + r.value.time * m1.vy
    ensures r.Some? && m1.x < m2.x ==> r.value.x + b1.width / 2.0 == m2.x + r.value.time * m2.vx - b2.width / 2.0
    ensures r.Some? && m1.x >= m2.x ==> r.value.x - b1.width / 2.0 == m2.x + r.value.time * m2.vx + b2.width / 2.0
    ensures r.Some? ==> SpansMeet(r.value.y, b1.height / 2.0, m2.y + r.value.time * m2.vy, b2.height / 2.0)
  {
    var toi := ToiX(b1, b2, blocked, m1, m2);
    if InStep(toi, delta) && MeetAt(toi.t, m1.y, m1.vy, b1.height / 2.0, m2.y, m2.vy, b2.height / 2.0) then
      Some(Impact(toi.t, m1.x + toi.t * m1.vx, m1.y + toi.t * m1.vy, if m1.x < m2.x then 0 else 1))
    else None
  }

  /** The y-impact, if its time is in the step and the boxes then meet along x. */
  function YImpact(b1: Box, b2: Box, blocked: Sides, m1: Motion, m2: Motion, delta: real): (r: Option<Impact>)
    ensures r.Some? ==> r.value.side == (if m1.y < m2.y then 2 else 3)
    ensures r.Some? ==> m1.vy != m2.vy && -0.0001 < r.value.time < delta
    ensures r.Some? ==> r.value.x == m1.x + r.value.time * m1.vx && r.value.y == m1.y + r.value.time * m1.vy
    ensures r.Some? && m1.y < m2.y ==> r.value.y + b1.height / 2.0 == m2.y + r.value.time * m2.vy - b2.height / 2.0
    ensures r.Some? && m1.y >= m2.y ==> r.value.y - b1.height / 2.0 == m2.y + r.value.time * m2.vy + b2.height / 2.0
    ensures r.Some? ==> SpansMeet(r.value.x, b1.width / 2.0, m2.x + r.value.time * m2.vx, b2.width / 2.0)
  {
    var toi := ToiY(b1, b2, blocked, m1, m2);
    if InStep(toi, delta) && MeetAt(toi.t, m1.x, m1.vx, b1.width / 2.0, m2.x, m2.vx, b2.width / 2.0) then
      Some(Impact(toi.t, m1.x + toi.t * m1.vx, m1.y + toi.t * m1.vy, if m1.y < m2.y then 2 else 3))
    else None
  }

  function OrElse(a: Option<Impact>, b: Option<Impact>): Option<Impact> {
    if a.Some? then a else b
  }

  /**
   * `_narrowPhase`: the axis with the later time of impact is tried first,
   * the other one if its gate fails; None stands for `null`. The geometry
   * of each axis's impact is stated by XImpact and YImpact.
   */
  function NarrowPhase(b1: Box, b2: Box, blocked: Sides, m1: Motion, m2: Motion, delta: real): (r: Option<Impact>)
    ensures m1.vx == m2.vx && m1.vy == m2.vy ==> r.None?
    ensures r.Some? ==> -0.0001 < r.value.time < delta
    ensures r.Some? && r.value.side <= 1 ==> r == XImpact(b1, b2, blocked, m1, m2, delta)
    ensures r.Some? && r.value.side >= 2 ==> r == YImpact(b1, b2, blocked, m1, m2, delta)
    ensures r.None? <==> XImpact(b1, b2, blocked, m1, m2, delta).None? && YImpact(b1, b2, blocked, m1, m2, delta).None?
    ensures Later(ToiX(b1, b2, blocked, m1, m2), ToiY(b1, b2, blocked, m1, m2)) && XImpact(b1, b2, blocked, m1, m2, delta).Some?
      ==> r.value.side <= 1
    ensures !Later(ToiX(b1, b2, blocked, m1, m2), ToiY(b1, b2, blocked, m1, m2)) && YImpact(b1, b2, blocked, m1, m2, delta).Some?
      ==> r.value.side >= 2
  {
    var toix, toiy := ToiX(b1, b2, blocked, m1, m2), ToiY(b1, b2, blocked, m1, m2);
    var ix, iy := XImpact(b1, b2, blocked, m1, m2, delta), YImpact(b1, b2, blocked, m1, m2, delta);
    if Later(toix, toiy) then OrElse(ix, iy) else OrElse(iy, ix)
  }

  // ---------------------------------------------------------------------
  // Swapping the axes
  // ---------------------------------------------------------------------

  /** right <-> up and left <-> down. */
  function SwapSides(s: Sides): Sides {
    Sides(s.down, s.up, s.right, s.left)
  }

  function SwapBox(b: Box): Box {
    Box(b.height, b.width, SwapSides(b.collide))
  }

  function SwapMotion(m: Motion): Motion {
    Motion(m.y, m.x, m.vy, m.vx)
  }

  function SwapImpact(i: Impact): Impact {
    Impact(i.time, i.y, i.x, (i.side + 2) % 4)
  }

  function SwapResult(r: Option<Impact>): Option<Impact> {
    if r.Some? then Some(SwapImpact(r.value)) else None
  }

  /** The x-impact of the swapped input is the swapped y-impact. */
  lemma SwapYImpact(b1: Box, b2: Box, blocked: Sides, m1: Motion, m2: Motion, delta: real)
    ensures XImpact(SwapBox(b1), SwapBox(b2), SwapSides(blocked), SwapMotion(m1), SwapMotion(m2), delta)
         == SwapResult(YImpact(b1, b2, blocked, m1, m2, delta))
  {
    var ty := ToiY(b1, b2, blocked, m1, m2);
    assert ToiX(SwapBox(b1), SwapBox(b2), SwapSides(blocked), SwapMotion(m1), SwapMotion(m2)) == ty;
    var xs := XImpact(SwapBox(b1), SwapBox(b2), SwapSides(blocked), SwapMotion(m1), SwapMotion(m2), delta);
    var y := YImpact(b1, b2, blocked, m1, m2, delta);
    assert xs.Some? == y.Some?;
    if y.Some? {
      assert xs.value.time == y.value.time;
      assert xs.value.x == y.value.y;
      assert xs.value.y == y.value.x;
      assert xs.value.side == (y.value.side + 2) % 4;
    }
  }

  /** The y-impact of the swapped input is the swapped x-impact. */
  lemma SwapXImpact(b1: Box, b2: Box, blocked: Sides, m1: Motion, m2: Motion, delta: real)
    ensures YImpact(SwapBox(b1), SwapBox(b2), SwapSides(blocked), SwapMotion(m1), SwapMotion(m2), delta)
         == SwapResult(XImpact(b1, b2, blocked, m1, m2, delta))
  {
    var tx := ToiX(b1, b2, blocked, m1, m2);
    assert ToiY(SwapBox(b1), SwapBox(b2), SwapSides(blocked), SwapMotion(m1), SwapMotion(m2)) == tx;
    var ys := YImpact(SwapBox(b1), SwapBox(b2), SwapSides(blocked), SwapMotion(m1), SwapMotion(m2), delta);
    var x := XImpact(b1, b2, blocked, m1, m2, delta);
    assert ys.Some? == x.Some?;
    if x.Some? {
      assert ys.value.time == x.value.time;
      assert ys.value.x == x.value.y;
      assert ys.value.y == x.value.x;
      assert ys.value.side == (x.value.side + 2) % 4;
    }
  }

  /**
   * The narrowphase treats both axes alike: exchanging x and y in the input
   * exchanges them in the result. A tie between the two times of impact,
   * where the source tries the y axis first, reports nothing on either
   * axis (TieMissesBoth), so it breaks no symmetry.
   */
  lemma NarrowPhaseSwap(b1: Box, b2: Box, blocked: Sides, m1: Motion, m2: Motion, delta: real)
    ensures NarrowPhase(SwapBox(b1), SwapBox(b2), SwapSides(blocked), SwapMotion(m1), SwapMotion(m2), delta)
         == SwapResult(NarrowPhase(b1, b2, blocked, m1, m2, delta))
  {
    var b1', b2', bl', m1', m2' := SwapBox(b1), SwapBox(b2), SwapSides(blocked), SwapMotion(m1), SwapMotion(m2);
    assert ToiX(b1', b2', bl', m1', m2') == ToiY(b1, b2, blocked, m1, m2);
    assert ToiY(b1', b2', bl', m1', m2') == ToiX(b1, b2, blocked, m1, m2);
    SwapYImpact(b1, b2, blocked, m1, m2, delta);
    SwapXImpact(b1, b2, blocked, m1, m2, delta);
    if ToiX(b1, b2, blocked, m1, m2) == ToiY(b1, b2, blocked, m1, m2) {
      TieMissesBoth(b1, b2, blocked, m1, m2, delta);
      TieMissesBoth(b1', b2', bl', m1', m2', delta);
    }
  }

  /**
   * Equal times of impact are a corner hit: at that time the boxes' edges
   * are flush along both axes, so neither gate's 0.000001 overlap holds and
   * `_narrowPhase` returns null.
   */
  lemma TieMissesBoth(b1: Box, b2: Box, blocked: Sides, m1: Motion, m2: Motion, delta: real)
    requires ToiX(b1, b2, blocked, m1, m2) == ToiY(b1, b2, blocked, m1, m2)
    ensures XImpact(b1, b2, blocked, m1, m2, delta).None?
    ensures YImpact(b1, b2, blocked, m1, m2, delta).None?
    ensures NarrowPhase(b1, b2, blocked, m1, m2, delta).None?
  {
    var tx := ToiX(b1, b2, blocked, m1, m2);
    if tx.At? {
      var t := tx.t;
      assert !MeetAt(t, m1.y, m1.vy, b1.height / 2.0, m2.y, m2.vy, b2.height / 2.0);
      assert !MeetAt(t, m1.x, m1.vx, b1.width / 2.0, m2.x, m2.vx, b2.width / 2.0);
    }
  }

  // ---------------------------------------------------------------------
  // Pushing overlapping bodies apart
  // ---------------------------------------------------------------------

  /** The push-out directions `_solveOverlap` returns (0, "no overlap", is never returned). */
  const Stuck := 1
  const MoveLeft := 2
  const MoveRight := 3
  const MoveUp := 4
  const MoveDown := 5

  /** The four penetration measures of b1 into b2 along each direction. */
  datatype Depths = Depths(up: real, down: real, left: real, right: real)

  function DepthsOf(w1: real, h1: real, w2: real, h2: real, x1: real, y1: real, x2: real, y2: real): Depths {
    Depths(y1 + h1 / 2.0 - y2 - h2 / 2.0,
           y2 - h2 / 2.0 - y1 + h1 / 2.0,
           x2 - w2 / 2.0 - x1 + w1 / 2.0,
           x1 + w1 / 2.0 - x2 - w2 / 2.0)
  }

  function Max(a: real, b: real): real {
    if a >= b then a else b
  }

  /**
   * `_solveOverlap`: when b1 fits inside b2 along both axes it takes the
   * first allowed direction in the order up, down, left, right; otherwise
   * it pushes along the axis with the larger measure, toward the larger
   * side, if that direction is allowed; else it is stuck.
   */
  function SolveOverlap(w1: real, h1: real, w2: real, h2: real, x1: real, y1: real, x2: real, y2: real,
                        canUp: bool, canDown: bool, canLeft: bool, canRight: bool): (r: int)
    ensures Stuck <= r <= MoveDown
    ensures r == MoveUp ==> canUp
    ensures r == MoveDown ==> canDown
    ensures r == MoveLeft ==> canLeft
    ensures r == MoveRight ==> canRight
    ensures !canUp && !canDown && !canLeft && !canRight ==> r == Stuck
  {
    var d := DepthsOf(w1, h1, w2, h2, x1, y1, x2, y2);
    var yMax, xMax := Max(d.up, d.down), Max(d.left, d.right);
    if yMax <= 0.0 && xMax <= 0.0 then
      if canUp then MoveUp
      else if canDown then MoveDown
      else if canLeft then MoveLeft
      else if canRight then MoveRight
      else Stuck
    else if yMax > xMax then
      if d.up > d.down then (if canUp then MoveUp else Stuck)
      else (if canDown then MoveDown else Stuck)
    else
      if d.left > d.right then (if canLeft then MoveLeft else Stuck)
      else (if canRight then MoveRight else Stuck)
  }

  /** Left and right exchanged. */
  function MirrorX(r: int): int {
    if r == MoveLeft then MoveRight else if r == MoveRight then MoveLeft else r
  }

  /**
   * Reflecting the scene left-to-right (negating x, swapping canLeft and
   * canRight) reflects the answer, except where the code breaks a tie
   * toward the right, or prefers left when both are allowed.
   */
  lemma SolveOverlapMirrorX(w1: real, h1: real, w2: real, h2: real, x1: real, y1: real, x2: real, y2: real,
                            canUp: bool, canDown: bool, canLeft: bool, canRight: bool)
    requires var d := DepthsOf(w1, h1, w2, h2, x1, y1, x2, y2); d.left != d.right
    requires !(canLeft && canRight)
    ensures SolveOverlap(w1, h1, w2, h2, -x1, y1, -x2, y2, canUp, canDown, canRight, canLeft)
         == MirrorX(SolveOverlap(w1, h1, w2, h2, x1, y1, x2, y2, canUp, canDown, canLeft, canRight))
  {
    var d := DepthsOf(w1, h1, w2, h2, x1, y1, x2, y2);
    var d' := DepthsOf(w1, h1, w2, h2, -x1, y1, -x2, y2);
    assert d'.left == d.right && d'.right == d.left && d'.up == d.up && d'.down == d.down;
  }

  /** A move the preferred direction allows is always taken. */
  lemma SolveOverlapTakesPreferred(w1: real, h1: real, w2: real, h2: real, x1: real, y1: real, x2: real, y2: real,
                                   canUp: bool, canDown: bool, canLeft: bool, canRight: bool)
    requires canUp && canDown && canLeft && canRight
    ensures var d := DepthsOf(w1, h1, w2, h2, x1, y1, x2, y2);
      var r := SolveOverlap(w1, h1, w2, h2, x1, y1, x2, y2, canUp, canDown, canLeft, canRight);
      && r != Stuck
      && (r == MoveUp || r == MoveDown <==> Max(d.up, d.down) > Max(d.left, d.right) || (Max(d.up, d.down) <= 0.0 && Max(d.left, d.right) <= 0.0))
  {
  }
}
