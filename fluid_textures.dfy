// The `FluidTextures` resource (src/main.rs) and every place that swaps its double-buffer
// handle pairs: the two `swap_velocity_buffer` systems (src/advection.rs,
// src/gradient_subtract.rs) and the render systems `update_fluid_simulation_1/2`
// (src/main.rs). Handles are opaque identities, modelled as integers.

module Buffers {

  type Handle = int

  /** A (front, back) double buffer, the `(Handle<Image>, Handle<Image>)` tuples. */
  datatype Pair = Pair(front: Handle, back: Handle)
  {
    /** `std::mem::swap(&mut pair.0, &mut pair.1)`. */
    function Swapped(): Pair
    {
      Pair(back, front)
    }
  }

  /** A snapshot of every handle the resource holds. */
  datatype Textures = Textures(
    velocity: Pair, density: Pair, pressure: Pair,
    curl: Handle, divergence: Handle, burns: Handle, cells: Handle,
    velocityOut: Handle, output: Handle)

  /** `pressure_iterations` as `setup` configures it. */
  const PressureIterations: nat := 20

  function SwapVelocity(t: Textures): Textures
  {
    t.(velocity := t.velocity.Swapped())
  }

  function SwapVelocityAndDensity(t: Textures): Textures
  {
    t.(velocity := t.velocity.Swapped(), density := t.density.Swapped())
  }

  function SwapPressure(t: Textures): Textures
  {
    t.(pressure := t.pressure.Swapped())
  }

  /** The pressure pair after `n` iterations of the relaxation loop, one swap each. */
  function PressureLoop(t: Textures, n: nat): (r: Textures)
    ensures r.(pressure := t.pressure) == t
    decreases n
  {
    if n == 0 then t else SwapPressure(PressureLoop(t, n - 1))
  }

  /** `update_fluid_simulation_1` with `n` pressure iterations: a velocity swap after the
      vorticity pass, another after the following pass, then the pressure loop. */
  function Simulation1(t: Textures, n: nat): (r: Textures)
    ensures r.(pressure := t.pressure) == t
  {
    PressureLoop(SwapVelocity(SwapVelocity(t)), n)
  }

  /** `update_fluid_simulation_2`: one velocity swap after gradient subtraction. */
  function Simulation2(t: Textures): Textures
  {
    SwapVelocity(t)
  }

  /** The two systems chained in the Render schedule. */
  function RenderSwaps(t: Textures, n: nat): Textures
  {
    Simulation2(Simulation1(t, n))
  }

  /** The Update schedule runs both `swap_velocity_buffer` systems with no order between
      them; `advectionFirst` picks one of the two possible orders. */
  function UpdateSwaps(t: Textures, advectionFirst: bool): (r: Textures)
    ensures r.velocity == t.velocity && r.burns == t.burns && r.cells == t.cells
  {
    if advectionFirst then SwapVelocity(SwapVelocityAndDensity(t))
    else SwapVelocityAndDensity(SwapVelocity(t))
  }

  lemma PairSwapInvolution(p: Pair)
    ensures p.Swapped().Swapped() == p
    ensures p.Swapped().front == p.back && p.Swapped().back == p.front
  {
  }

  /** The advection system's swap exchanges the velocity pair and the density pair and
      touches nothing else; applied twice it restores every handle. */
  lemma SwapVelocityAndDensityEffect(t: Textures)
    ensures var r := SwapVelocityAndDensity(t);
      r.velocity.front == t.velocity.back && r.velocity.back == t.velocity.front &&
      r.density.front == t.density.back && r.density.back == t.density.front &&
      r.pressure == t.pressure && r.curl == t.curl && r.divergence == t.divergence &&
      r.burns == t.burns && r.cells == t.cells && r.velocityOut == t.velocityOut &&
      r.output == t.output
    ensures SwapVelocityAndDensity(SwapVelocityAndDensity(t)) == t
  {
  }

  /** The gradient-subtract system's swap exchanges only the velocity pair; applied twice
      it is the identity. */
  lemma SwapVelocityEffect(t: Textures)
    ensures var r := SwapVelocity(t);
      r.velocity.front == t.velocity.back && r.velocity.back == t.velocity.front &&
      r.density == t.density && r.pressure == t.pressure && r.curl == t.curl &&
      r.divergence == t.divergence && r.burns == t.burns && r.cells == t.cells &&
      r.velocityOut == t.velocityOut && r.output == t.output
    ensures SwapVelocity(SwapVelocity(t)) == t
  {
  }

  /** After `n` pressure iterations the pressure pair is in its original order exactly when
      `n` is even; nothing else changes. */
  lemma {:induction false} PressureLoopParity(t: Textures, n: nat)
    ensures PressureLoop(t, n) == if n % 2 == 0 then t else SwapPressure(t)
    decreases n
  {
    if n > 0 {
      PressureLoopParity(t, n - 1);
    }
  }

  /** `update_fluid_simulation_1` swaps the velocity pair twice, a net identity, so only the
      pressure pair can move; with the configured 20 iterations nothing moves at all. */
  lemma Simulation1Effect(t: Textures, n: nat)
    ensures Simulation1(t, n) == if n % 2 == 0 then t else SwapPressure(t)
    ensures Simulation1(t, PressureIterations) == t
  {
    PressureLoopParity(t, n);
    PressureLoopParity(t, PressureIterations);
  }

  /** One Render step swaps the velocity pair three times in all, so the pair ends swapped;
      the pressure pair is back in order after the configured 20 iterations. */
  lemma RenderSwapsEffect(t: Textures)
    ensures RenderSwaps(t, PressureIterations) == SwapVelocity(t)
  {
    Simulation1Effect(t, PressureIterations);
  }

  /** The two Update-schedule swaps commute, so whichever order the scheduler picks the
      velocity pair ends each frame in its original order, the density pair is swapped
      exactly once, and every other handle, burns and cells included, is unchanged. */
  lemma UpdateSwapsEffect(t: Textures, advectionFirst: bool)
    ensures UpdateSwaps(t, advectionFirst) == UpdateSwaps(t, !advectionFirst)
    ensures UpdateSwaps(t, advectionFirst) == t.(density := t.density.Swapped())
  {
  }

  /** The resource itself, updated in place by the systems that take it as `ResMut`. */
  class FluidTextures {
    var velocity: Pair
    var density: Pair
    var pressure: Pair
    var curl: Handle
    var divergence: Handle
    var burns: Handle
    var cells: Handle
    var velocityOut: Handle
    var output: Handle

    function Snapshot(): Textures
      reads this
    {
      Textures(velocity, density, pressure, curl, divergence, burns, cells, velocityOut, output)
    }

    constructor (t: Textures)
      ensures Snapshot() == t
    {
      velocity, density, pressure := t.velocity, t.density, t.pressure;
      curl, divergence, burns, cells := t.curl, t.divergence, t.burns, t.cells;
      velocityOut, output := t.velocityOut, t.output;
    }

    /** `swap_velocity_buffer` of src/advection.rs. */
    method AdvectionSwapVelocityBuffer()
      modifies this
      ensures Snapshot() == SwapVelocityAndDensity(old(Snapshot()))
    {
      velocity := Pair(velocity.back, velocity.front);
      density := Pair(density.back, density.front);
    }

    /** `swap_velocity_buffer` of src/gradient_subtract.rs. */
    method GradientSubtractSwapVelocityBuffer()
      modifies this
      ensures Snapshot() == SwapVelocity(old(Snapshot()))
    {
      velocity := Pair(velocity.back, velocity.front);
    }

    /** The handle swaps of `update_fluid_simulation_1`. The pressure swap sits outside the
        "pipeline ready" test, so it happens on every iteration. */
    method UpdateFluidSimulation1(pressureIterations: nat)
      modifies this
      ensures Snapshot() == Simulation1(old(Snapshot()), pressureIterations)
      ensures velocity == old(velocity) && density == old(density)
      ensures pressure == if pressureIterations % 2 == 0 then old(pressure) else old(pressure).Swapped()
    {
      // after the vorticity pass
      velocity := Pair(velocity.back, velocity.front);
      // after the next pass
      velocity := Pair(velocity.back, velocity.front);
      ghost var afterVelocity := Snapshot();
      for i := 0 to pressureIterations
        invariant Snapshot() == PressureLoop(afterVelocity, i)
      {
        pressure := Pair(pressure.back, pressure.front);
      }
      Simulation1Effect(old(Snapshot()), pressureIterations);
    }

    /** The handle swap of `update_fluid_simulation_2`. */
    method UpdateFluidSimulation2()
      modifies this
      ensures Snapshot() == Simulation2(old(Snapshot()))
    {
      velocity := Pair(velocity.back, velocity.front);
    }
  }
}
