/**
 * The world's clock and its layer table (src/lib/model/world.ts: constructor,
 * `time`, the time update at the head of `simulate`). Entities, the VBH and
 * the rest of the simulation step are outside this model.
 */
module World {
  import opened Base
  import Layers

  datatype World = World(time: real, layers: Layers.Table)

  /** A new world starts at time 0 with only the "default" layer. */
  function NewWorld(): (w: World)
    ensures w.time == 0.0
    ensures Layers.Valid(w.layers) && Layers.LayerNames(w.layers) == {"default"}
  {
    Layers.LayerNamesGrow(Layers.NewTable(), "default");
    World(0.0, Layers.NewTable())
  }

  /** The time update of `simulate(delta)`; the layer table is untouched. */
  function Simulate(w: World, delta: real): (r: World)
    ensures r.time - w.time == delta
    ensures r.layers == w.layers
  {
    w.(time := w.time + delta)
  }

  /** Assigning `time` only logs an error: the world is unchanged. */
  function SetTime(w: World, value: real): (r: World)
    ensures r.time == w.time && r.layers == w.layers
  {
    w
  }

  /** The clock runs forward by the sum of the steps, in any grouping. */
  lemma SimulateTwice(w: World, d1: real, d2: real)
    ensures Simulate(Simulate(w, d1), d2) == Simulate(w, d1 + d2)
    ensures Simulate(Simulate(w, d1), d2) == Simulate(Simulate(w, d2), d1)
  {
  }

  /** Performs the steps in order. */
  function SimulateAll(w: World, deltas: seq<real>): (r: World)
    ensures r.layers == w.layers
    decreases |deltas|
  {
    if |deltas| == 0 then w else SimulateAll(Simulate(w, deltas[0]), deltas[1..])
  }

  function Sum(deltas: seq<real>): real
    decreases |deltas|
  {
    if |deltas| == 0 then 0.0 else deltas[0] + Sum(deltas[1..])
  }

  /** After any number of steps the clock reads the start time plus their sum. */
  lemma {:induction false} SimulateAllTime(w: World, deltas: seq<real>)
    ensures SimulateAll(w, deltas).time == w.time + Sum(deltas)
    decreases |deltas|
  {
    if |deltas| > 0 {
      SimulateAllTime(Simulate(w, deltas[0]), deltas[1..]);
    }
  }
}
