/**
 * Converting points between a body's local frame and the world frame
 * (src/lib/model/body.ts, `Body.localToGlobal` and `Body.globalToLocal`).
 * Each entity has an offset (`_x`, `_y`) in its parent, up to the top
 * entity, whose world position is given; the body has its own `_x`, `_y`.
 * The two conversions add or subtract the entity chain's offsets and then
 * the body's `_x`, `_y` and the top entity's position, exactly as the code
 * does. (The `globalx` getter reads the body's `_x` as relative to the top
 * entity instead; the conversions do not share that reading, and the model
 * follows the conversions.)
 */
module Coordinates {
  import opened Base

  datatype Point = Point(x: real, y: real)

  function Plus(p: Point, q: Point): Point {
    Point(p.x + q.x, p.y + q.y)
  }

  function Minus(p: Point, q: Point): Point {
    Point(p.x - q.x, p.y - q.y)
  }

  /** An entity: its offset in its parent, and its parent if it has one. */
  datatype Entity = Entity(offset: Point, parent: Option<nat>)

  /** The entities, addressed by index. */
  type Arena = seq<Entity>

  /**
   * A body: the entity it belongs to, that entity's top entity, its own
   * `_x`, `_y` (`offset`), and the top entity's world position (`globalx`,
   * `globaly`, computed by code that is not part of this model).
   */
  datatype Body = Body(entity: nat, top: nat, offset: Point, topGlobal: Point)

  /**
   * The offset of entity e in the top entity: the sum of the offsets along
   * the parent chain, or None when the chain breaks (a missing parent makes
   * the loop read a field of `undefined`) or does not reach `top` within
   * `fuel` steps.
   */
  function ChainOffset(a: Arena, e: nat, top: nat, fuel: nat): (o: Option<Point>)
    ensures e == top ==> o == Some(Point(0.0, 0.0))
    decreases fuel
  {
    if e == top then Some(Point(0.0, 0.0))
    else if e >= |a| || fuel == 0 || a[e].parent.None? then None
    else
      match ChainOffset(a, a[e].parent.value, top, fuel - 1)
      case None => None
      case Some(o) => Some(Plus(a[e].offset, o))
  }

  /**
   * The entity chain of a body reaches its top entity. A chain that reaches
   * it does so without repeating an entity, so |a| steps are enough.
   */
  predicate Reaches(a: Arena, b: Body) {
    ChainOffset(a, b.entity, b.top, |a|).Some?
  }

  /** The loop of `localToGlobal`: `x += topParent._x` at each step up the chain. */
  function Ascend(a: Arena, e: nat, top: nat, fuel: nat, p: Point): (q: Option<Point>)
    ensures ChainOffset(a, e, top, fuel).Some? <==> q.Some?
    decreases fuel
  {
    if e == top then Some(p)
    else if e >= |a| || fuel == 0 || a[e].parent.None? then None
    else Ascend(a, a[e].parent.value, top, fuel - 1, Plus(p, a[e].offset))
  }

  /** The loop of `globalToLocal`: `x -= topParent._x` at each step up the chain. */
  function Descend(a: Arena, e: nat, top: nat, fuel: nat, p: Point): (q: Option<Point>)
    ensures ChainOffset(a, e, top, fuel).Some? <==> q.Some?
    decreases fuel
  {
    if e == top then Some(p)
    else if e >= |a| || fuel == 0 || a[e].parent.None? then None
    else Descend(a, a[e].parent.value, top, fuel - 1, Minus(p, a[e].offset))
  }

  /** Walking up adds the chain offset to the point. */
  lemma {:induction false} AscendAdds(a: Arena, e: nat, top: nat, fuel: nat, p: Point)
    requires ChainOffset(a, e, top, fuel).Some?
    ensures Ascend(a, e, top, fuel, p) == Some(Plus(p, ChainOffset(a, e, top, fuel).value))
    decreases fuel
  {
    if e != top {
      var n := a[e].parent.value;
      AscendAdds(a, n, top, fuel - 1, Plus(p, a[e].offset));
    }
  }

  /** Walking up in `globalToLocal` subtracts the chain offset from the point. */
  lemma {:induction false} DescendSubtracts(a: Arena, e: nat, top: nat, fuel: nat, p: Point)
    requires ChainOffset(a, e, top, fuel).Some?
    ensures Descend(a, e, top, fuel, p) == Some(Minus(p, ChainOffset(a, e, top, fuel).value))
    decreases fuel
  {
    if e != top {
      var n := a[e].parent.value;
      DescendSubtracts(a, n, top, fuel - 1, Minus(p, a[e].offset));
    }
  }

  /** `localToGlobal(p)`: None when the entity chain does not reach the top entity. */
  function LocalToGlobal(a: Arena, b: Body, p: Point): (q: Option<Point>)
    ensures q.Some? <==> Reaches(a, b)
    ensures q.Some? ==> q.value == Plus(Plus(Plus(p, ChainOffset(a, b.entity, b.top, |a|).value), b.offset), b.topGlobal)
  {
    if Ascend(a, b.entity, b.top, |a|, p).None? then None
    else
      AscendAdds(a, b.entity, b.top, |a|, p);
      var s := Ascend(a, b.entity, b.top, |a|, p).value;
      Some(Plus(Plus(s, b.offset), b.topGlobal))
  }

  /** `globalToLocal(p)`: None when the entity chain does not reach the top entity. */
  function GlobalToLocal(a: Arena, b: Body, p: Point): (q: Option<Point>)
    ensures q.Some? <==> Reaches(a, b)
    ensures q.Some? ==> q.value == Minus(Minus(Minus(p, ChainOffset(a, b.entity, b.top, |a|).value), b.offset), b.topGlobal)
  {
    if Descend(a, b.entity, b.top, |a|, p).None? then None
    else
      DescendSubtracts(a, b.entity, b.top, |a|, p);
      var s := Descend(a, b.entity, b.top, |a|, p).value;
      Some(Minus(Minus(s, b.offset), b.topGlobal))
  }

  /** A body of the top entity itself converts by its offset and the top's position only. */
  lemma TopBodyConverts(a: Arena, b: Body, p: Point)
    requires b.entity == b.top
    ensures LocalToGlobal(a, b, p) == Some(Plus(Plus(p, b.offset), b.topGlobal))
  {
  }

  /** `globalToLocal` undoes `localToGlobal`. */
  lemma LocalGlobalRoundTrip(a: Arena, b: Body, p: Point)
    requires Reaches(a, b)
    ensures LocalToGlobal(a, b, p).Some?
    ensures GlobalToLocal(a, b, LocalToGlobal(a, b, p).value) == Some(p)
  {
  }

  /** `localToGlobal` undoes `globalToLocal`. */
  lemma GlobalLocalRoundTrip(a: Arena, b: Body, p: Point)
    requires Reaches(a, b)
    ensures GlobalToLocal(a, b, p).Some?
    ensures LocalToGlobal(a, b, GlobalToLocal(a, b, p).value) == Some(p)
  {
  }
}
