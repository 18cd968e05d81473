/**
 * The escape-time kernel with its floating-point arithmetic abstracted.
 *
 * For the pixel in column x and row y, the kernel runs
 * `while i < iterations && zX2 + zY2 < 4.0 { ...; i += 1 }`. Whether the
 * float test passes at its (i+1)-th evaluation depends only on the pixel,
 * so it is given as an oracle `inside(x, y, i)`; the coordinate arithmetic
 * and the recurrence that produce it are not modelled.
 */
module Escape {
  import opened Pixels

  /** `inside(x, y, i)`: the escape test `zX2 + zY2 < 4.0` holds at its check number i for pixel (x, y). */
  type Orbit = (nat, nat, nat) -> bool

  /** The iteration count the loop stops at, counting on from `i`. */
  function EscapeFrom(inside: Orbit, x: nat, y: nat, limit: nat, i: nat): nat
    decreases limit - i
  {
    if i < limit && inside(x, y, i) then EscapeFrom(inside, x, y, limit, i + 1) else i
  }

  /** The escape time of pixel (x, y) capped at `limit`. */
  function EscapeTime(inside: Orbit, x: nat, y: nat, limit: nat): nat
  {
    EscapeFrom(inside, x, y, limit, 0)
  }

  /**
   * Counting on from a start at or below the cap, the loop stops at the
   * first check that fails, or at the cap if none does before it.
   */
  lemma {:induction false} EscapeFromIsFirstExit(inside: Orbit, x: nat, y: nat, limit: nat, i: nat)
    requires i <= limit
    ensures i <= EscapeFrom(inside, x, y, limit, i) <= limit
    ensures forall j | i <= j < EscapeFrom(inside, x, y, limit, i) :: inside(x, y, j)
    ensures EscapeFrom(inside, x, y, limit, i) == limit || !inside(x, y, EscapeFrom(inside, x, y, limit, i))
    decreases limit - i
  {
    if i < limit && inside(x, y, i) {
      EscapeFromIsFirstExit(inside, x, y, limit, i + 1);
    }
  }

  /** The escape time is the number of checks passed before the first failure, at most `limit`. */
  lemma EscapeTimeIsFirstExit(inside: Orbit, x: nat, y: nat, limit: nat)
    ensures EscapeTime(inside, x, y, limit) <= limit
    ensures forall j | 0 <= j < EscapeTime(inside, x, y, limit) :: inside(x, y, j)
    ensures EscapeTime(inside, x, y, limit) == limit || !inside(x, y, EscapeTime(inside, x, y, limit))
  {
    EscapeFromIsFirstExit(inside, x, y, limit, 0);
  }

  /** The kernel loop for one pixel. */
  method EscapeCount(inside: Orbit, x: nat, y: nat, iterations: nat) returns (i: nat)
    ensures i <= iterations
    ensures forall j | 0 <= j < i :: inside(x, y, j)
    ensures i == iterations || !inside(x, y, i)
    ensures i == EscapeTime(inside, x, y, iterations)
  {
    i := 0;
    while i < iterations && inside(x, y, i)
      invariant i <= iterations
      invariant forall j | 0 <= j < i :: inside(x, y, j)
      invariant EscapeFrom(inside, x, y, iterations, i) == EscapeTime(inside, x, y, iterations)
    {
      i := i + 1;
    }
  }

  /** `(i % 16) as u8`: the escape time reduced to one of 16 shades. */
  function Shade(i: nat): (s: u8)
    ensures s < 16
  {
    (i % 16) as u8
  }

  /** The row buffer a worker fills for row y: one shade per column, left to right. */
  function Row(inside: Orbit, iterations: nat, width: nat, y: nat): (r: seq<u8>)
    ensures |r| == width
    ensures forall x | 0 <= x < width :: r[x] < 16
  {
    seq(width, (x: nat) => Shade(EscapeTime(inside, x, y, iterations)))
  }

  /**
   * A row has `width` entries, each the escape time (at most `iterations`)
   * of its own pixel reduced modulo 16, so every shade is below 16.
   */
  lemma RowShades(inside: Orbit, iterations: nat, width: nat, y: nat, x: nat)
    requires x < width
    ensures |Row(inside, iterations, width, y)| == width
    ensures Row(inside, iterations, width, y)[x] as int == EscapeTime(inside, x, y, iterations) % 16
    ensures Row(inside, iterations, width, y)[x] < 16
    ensures EscapeTime(inside, x, y, iterations) <= iterations
  {
    EscapeTimeIsFirstExit(inside, x, y, iterations);
  }
}
