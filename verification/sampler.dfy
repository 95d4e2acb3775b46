/**
 * A sampler hands out a stream of pseudo-random numbers in [0, 1). Where
 * they come from (a random-number generator) is outside the model: the
 * stream is the parameter `draws`, and the sampler's state is how much of
 * it has been used.
 */
module Samplers {
  import opened Core

  /** Every draw lies in [0, 1), as `rand::random::<f32>()` does. */
  ghost predicate ValidDraws(draws: nat -> real)
  {
    forall i: nat :: 0.0 <= draws(i) < 1.0
  }

  /** The 2D sample made of the two draws at `cursor` and `cursor + 1`. */
  function Draw2D(draws: nat -> real, cursor: nat): Point2
  {
    Point2(draws(cursor), draws(cursor + 1))
  }

  class Sampler {
    const draws: nat -> real
    var cursor: nat

    constructor (draws: nat -> real)
      ensures this.draws == draws && cursor == 0
    {
      this.draws := draws;
      cursor := 0;
    }

    /** `next`: the next draw. */
    method Next() returns (u: real)
      modifies this
      ensures u == draws(old(cursor)) && cursor == old(cursor) + 1
    {
      u := draws(cursor);
      cursor := cursor + 1;
    }

    /** `next2d`: the next two draws as a point. */
    method Next2D() returns (p: Point2)
      modifies this
      ensures p == Draw2D(draws, old(cursor)) && cursor == old(cursor) + 2
    {
      p := Point2(draws(cursor), draws(cursor + 1));
      cursor := cursor + 2;
    }
  }
}
