/** The order in which the 8x8 kernels visit a rectangle, and what they have stored so far. */
module BlockWalk {

  /** Element (y, x) is visited before the four counters reach the given values; the flipped kernel
      walks each block by columns instead of by rows. */
  ghost predicate Before(y: nat, x: nat, flipped: bool, blockY: nat, blockX: nat, outer: nat, inner: nat) {
    var o, n := if flipped then x % 8 else y % 8, if flipped then y % 8 else x % 8;
    || y / 8 < blockY
    || (y / 8 == blockY && x / 8 < blockX)
    || (y / 8 == blockY && x / 8 == blockX && o < outer)
    || (y / 8 == blockY && x / 8 == blockX && o == outer && n < inner)
  }

  /** A kernel's output: what each index must hold, and the element it is visited for. */
  datatype Plan<T> = Plan(want: seq<T>, ys: seq<nat>, xs: seq<nat>)

  ghost predicate Fits<T>(p: Plan<T>, width: nat, height: nat) {
    && |p.want| == |p.ys| == |p.xs|
    && width % 8 == 0 && height % 8 == 0
    && (forall i :: 0 <= i < |p.ys| ==> p.ys[i] < height && p.xs[i] < width)
  }

  /** Everything visited so far is in place. */
  ghost predicate Placed<T>(data: seq<T>, p: Plan<T>, flipped: bool, blockY: nat, blockX: nat, outer: nat, inner: nat) {
    && |data| == |p.want| == |p.ys| == |p.xs|
    && forall i :: 0 <= i < |data| && Before(p.ys[i], p.xs[i], flipped, blockY, blockX, outer, inner) ==>
         data[i] == p.want[i]
  }

  lemma PlacedStep<T>(data: seq<T>, p: Plan<T>, flipped: bool, blockY: nat, blockX: nat, r: nat, c: nat, j: nat)
    requires Placed(data, p, flipped, blockY, blockX, if flipped then c else r, if flipped then r else c)
    requires r < 8 && c < 8 && j < |data|
    requires forall i :: 0 <= i < |data| && p.ys[i] == 8 * blockY + r && p.xs[i] == 8 * blockX + c ==> i == j
    ensures Placed(data[j := p.want[j]], p, flipped, blockY, blockX, if flipped then c else r,
                   (if flipped then r else c) + 1)
  {
  }

  /** Where an inner counter reaches its bound, the next one takes over; the last leaves the whole output. */
  lemma PlacedCarry<T>(data: seq<T>, p: Plan<T>, flipped: bool, blockY: nat, blockX: nat, outer: nat,
                       width: nat, height: nat)
    requires Fits(p, width, height) && |data| == |p.want|
    ensures Placed(data, p, flipped, 0, 0, 0, 0)
    ensures outer < 8 && Placed(data, p, flipped, blockY, blockX, outer, 8) ==>
              Placed(data, p, flipped, blockY, blockX, outer + 1, 0)
    ensures Placed(data, p, flipped, blockY, blockX, 8, 0) ==> Placed(data, p, flipped, blockY, blockX + 1, 0, 0)
    ensures Placed(data, p, flipped, blockY, width / 8, 0, 0) ==> Placed(data, p, flipped, blockY + 1, 0, 0, 0)
    ensures Placed(data, p, flipped, height / 8, 0, 0, 0) ==> data == p.want
  {
  }
}
