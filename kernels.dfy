/** What the CUDA kernels and host loops emitted for a population compute: the launch
    size of the update kernel, which neuron indices each thread visits, the outcome of
    the spike-gather kernel, the refractory countdown, and the generated stop
    condition. Parallel execution is modelled by one sequential outcome: threads do not
    interact except through the event counter, whose `atomicAdd` is taken in ascending
    neuron order. */
module Kernels {

  // ---------------------------------------------------------------------------
  // Launch size

  /** `ceil(double(size) / double(tpb))`: the fewest blocks of `tpb` threads that
      together have one thread per neuron. */
  function LaunchBlocks(size: nat, tpb: nat): (nb: nat)
    requires tpb > 0
    ensures nb * tpb >= size
    ensures nb > 0 ==> (nb - 1) * tpb < size
  {
    DivCeil(size, tpb);
    (size + tpb - 1) / tpb
  }

  lemma DivCeil(size: nat, tpb: nat)
    requires tpb > 0
    ensures ((size + tpb - 1) / tpb) * tpb >= size
    ensures (size + tpb - 1) / tpb > 0 ==> ((size + tpb - 1) / tpb - 1) * tpb < size
  {
    var q := (size + tpb - 1) / tpb;
    var m := (size + tpb - 1) % tpb;
    assert size + tpb - 1 == q * tpb + m;
    assert (q - 1) * tpb == q * tpb - tpb;
  }

  /** Thread `x` of block `b` starts at `threadIdx.x + blockDim.x * blockIdx.x`. */
  function ThreadStart(b: nat, x: nat, blockDim: nat): nat {
    x + blockDim * b
  }

  /** Block and thread index are recovered from the start index, so distinct threads
      start at distinct indices. */
  lemma ThreadStartDecomposes(b: nat, x: nat, blockDim: nat)
    requires x < blockDim
    ensures ThreadStart(b, x, blockDim) / blockDim == b
    ensures ThreadStart(b, x, blockDim) % blockDim == x
  {
    DivModUnique(x + blockDim * b, blockDim, b, x);
  }

  // Integer arithmetic in small steps

  lemma {:induction false} MulAtLeast(k: int, d: int)
    requires k >= 1 && d >= 0
    ensures k * d >= d
    decreases k
  {
    if k > 1 {
      MulAtLeast(k - 1, d);
      assert k * d == (k - 1) * d + d;
    }
  }

  lemma MulMono(a: int, b: int, d: int)
    requires a <= b && d >= 0
    ensures a * d <= b * d
  {
    if a < b {
      MulAtLeast(b - a, d);
      assert b * d - a * d == (b - a) * d;
    }
  }

  /** Quotient and remainder are the only ones with a remainder in [0, d). */
  lemma DivModUnique(i: int, d: int, q: int, r: int)
    requires d > 0 && 0 <= r < d && i == q * d + r
    ensures i / d == q && i % d == r
  {
    var q0, r0 := i / d, i % d;
    assert i == q0 * d + r0;
    assert (q - q0) * d == r0 - r;
    assert (q0 - q) * d == r - r0;
    if q > q0 {
      MulAtLeast(q - q0, d);
    } else if q < q0 {
      MulAtLeast(q0 - q, d);
    }
    assert q == q0;
  }

  // ---------------------------------------------------------------------------
  // Grid-stride loop of the update kernel

  /** The indices one thread visits: from `start`, advancing by `stride` while below
      `size`. */
  function StrideVisits(start: nat, stride: nat, size: nat): seq<nat>
    requires stride > 0
    decreases if start < size then size - start else 0
  {
    if start >= size then [] else [start] + StrideVisits(start + stride, stride, size)
  }

  /** The loop of `population_update_kernel` for one thread, recording the indices at
      which it evaluates the local equations. */
  method StrideLoop(start: nat, stride: nat, size: nat) returns (visited: seq<nat>)
    requires stride > 0
    ensures visited == StrideVisits(start, stride, size)
  {
    visited := [];
    var i := start;
    while i < size
      invariant start <= i
      invariant visited + StrideVisits(i, stride, size) == StrideVisits(start, stride, size)
      decreases size - i
    {
      assert StrideVisits(i, stride, size) == [i] + StrideVisits(i + stride, stride, size);
      visited := visited + [i];
      i := i + stride;
    }
  }

  /** An index is visited exactly when it lies in [start, size) and is a whole number of
      strides past the start. */
  lemma {:induction false} StrideVisitsMembers(start: nat, stride: nat, size: nat, i: int)
    requires stride > 0
    ensures i in StrideVisits(start, stride, size) <==>
              start <= i < size && (i - start) % stride == 0
    decreases if start < size then size - start else 0
  {
    if start < size {
      StrideVisitsMembers(start + stride, stride, size, i);
      StrideShift(i, start, stride);
    }
  }

  /** Past the start, a whole number of strides from the start is a whole number of
      strides from the next visit. */
  lemma StrideShift(i: int, start: int, stride: nat)
    requires stride > 0
    ensures start < i && (i - start) % stride == 0 <==>
            start + stride <= i && (i - (start + stride)) % stride == 0
  {
    assert i - (start + stride) == (i - start) - stride;
    ModShift(i - start, stride);
    if start < i && (i - start) % stride == 0 {
      ModPositive(i - start, stride);
    }
  }

  lemma ModShift(d: int, stride: nat)
    requires stride > 0
    ensures (d - stride) % stride == d % stride
  {
    var q, m := d / stride, d % stride;
    assert d == q * stride + m;
    assert d - stride == (q - 1) * stride + m;
    DivModUnique(d - stride, stride, q - 1, m);
  }

  lemma ModPositive(d: int, stride: nat)
    requires stride > 0 && d > 0 && d % stride == 0
    ensures d >= stride
  {
    var q := d / stride;
    assert d == q * stride;
    assert (1 - q) * stride == stride - q * stride;
    if q < 1 {
      MulAtLeast(1 - q, stride);
    }
    MulAtLeast(q, stride);
  }

  /** A thread visits each of its indices once: the visits strictly increase. */
  lemma {:induction false} StrideVisitsIncrease(start: nat, stride: nat, size: nat)
    requires stride > 0
    ensures forall j, k :: 0 <= j < k < |StrideVisits(start, stride, size)| ==>
              StrideVisits(start, stride, size)[j] < StrideVisits(start, stride, size)[k]
    decreases if start < size then size - start else 0
  {
    if start < size {
      var rest := StrideVisits(start + stride, stride, size);
      StrideVisitsIncrease(start + stride, stride, size);
      forall k | 0 <= k < |rest| ensures start < rest[k] {
        assert rest[k] in rest;
        StrideVisitsMembers(start + stride, stride, size, rest[k]);
      }
    }
  }

  /** Grid-stride coverage: with `gridDim` blocks of `blockDim` threads, index i of
      [0, size) is visited by thread x of block b exactly when x + blockDim * b is
      i modulo blockDim * gridDim; that thread exists and is the only one. */
  lemma GridStrideCoverage(blockDim: nat, gridDim: nat, size: nat, i: nat)
    requires blockDim > 0 && gridDim > 0 && i < size
    ensures var t := i % (blockDim * gridDim);
            t / blockDim < gridDim &&
            i in StrideVisits(ThreadStart(t / blockDim, t % blockDim, blockDim), blockDim * gridDim, size)
    ensures forall b: nat, x: nat {:trigger ThreadStart(b, x, blockDim)} |
              b < gridDim && x < blockDim &&
              i in StrideVisits(ThreadStart(b, x, blockDim), blockDim * gridDim, size) ::
              b == (i % (blockDim * gridDim)) / blockDim && x == (i % (blockDim * gridDim)) % blockDim
  {
    var s := blockDim * gridDim;
    var t := i % s;
    GridStrideOwner(blockDim, gridDim, size, i);
    forall b: nat, x: nat | b < gridDim && x < blockDim &&
        i in StrideVisits(ThreadStart(b, x, blockDim), s, size)
      ensures b == t / blockDim && x == t % blockDim
    {
      GridStrideOnlyOwner(blockDim, gridDim, size, i, b, x);
    }
  }

  lemma GridStrideOwner(blockDim: nat, gridDim: nat, size: nat, i: nat)
    requires blockDim > 0 && gridDim > 0 && i < size
    ensures var t := i % (blockDim * gridDim);
            t / blockDim < gridDim &&
            i in StrideVisits(ThreadStart(t / blockDim, t % blockDim, blockDim), blockDim * gridDim, size)
  {
    var s := blockDim * gridDim;
    var t := i % s;
    OwnerThread(blockDim, gridDim, t);
    StrideResidue(i, s);
    StrideVisitsMembers(t, s, size, i);
  }

  /** Start index t of the grid belongs to block t / blockDim, which is launched, and
      to thread t % blockDim of it. */
  lemma OwnerThread(blockDim: nat, gridDim: nat, t: int)
    requires blockDim > 0 && gridDim > 0 && 0 <= t < blockDim * gridDim
    ensures t / blockDim < gridDim && ThreadStart(t / blockDim, t % blockDim, blockDim) == t
  {
    var b0, x0 := t / blockDim, t % blockDim;
    assert t == b0 * blockDim + x0;
    if b0 >= gridDim {
      MulMono(gridDim, b0, blockDim);
    }
  }

  /** An index is a whole number of strides past its residue. */
  lemma StrideResidue(i: nat, s: nat)
    requires s > 0
    ensures 0 <= i % s <= i && (i - i % s) % s == 0
  {
    assert i == (i / s) * s + i % s;
    assert i - i % s == (i / s) * s + 0;
    DivModUnique(i - i % s, s, i / s, 0);
  }

  lemma GridStrideOnlyOwner(blockDim: nat, gridDim: nat, size: nat, i: nat, b: nat, x: nat)
    requires blockDim > 0 && gridDim > 0
    requires b < gridDim && x < blockDim
    requires i in StrideVisits(ThreadStart(b, x, blockDim), blockDim * gridDim, size)
    ensures b == (i % (blockDim * gridDim)) / blockDim && x == (i % (blockDim * gridDim)) % blockDim
  {
    var s := blockDim * gridDim;
    var st := ThreadStart(b, x, blockDim);
    StrideVisitsMembers(st, s, size, i);
    MulMono(b + 1, gridDim, blockDim);
    assert st < s;
    SameResidue(i, st, s);
    ThreadStartDecomposes(b, x, blockDim);
  }

  lemma SameResidue(i: int, st: nat, s: nat)
    requires s > 0 && st < s && st <= i && (i - st) % s == 0
    ensures i % s == st
  {
    var q := (i - st) / s;
    assert i - st == q * s + 0;
    DivModUnique(i, s, q, st);
  }

  /** `cuda_pop_kernel` has no stride loop: thread x of block b handles index
      x + b * blockDim when it is below the size. With `LaunchBlocks` blocks every index
      of [0, size) is handled by exactly one launched thread. */
  lemma OneThreadPerIndex(size: nat, tpb: nat, i: nat)
    requires tpb > 0 && i < size
    ensures i / tpb < LaunchBlocks(size, tpb) && ThreadStart(i / tpb, i % tpb, tpb) == i
    ensures forall b: nat, x: nat {:trigger ThreadStart(b, x, tpb)} |
              x < tpb && ThreadStart(b, x, tpb) == i :: b == i / tpb && x == i % tpb
  {
    var nb := LaunchBlocks(size, tpb);
    var q, r := i / tpb, i % tpb;
    assert i == q * tpb + r;
    if q >= nb {
      MulMono(nb, q, tpb);
    }
    assert q < nb;
    forall b: nat, x: nat | x < tpb && ThreadStart(b, x, tpb) == i
      ensures b == q && x == r
    {
      ThreadStartDecomposes(b, x, tpb);
    }
  }

  /** The spike-gather kernel runs a single block whose threads stride by `blockDim.x`:
      the single-block case of the grid-stride coverage. */
  lemma GatherCoverage(blockDim: nat, size: nat, i: nat)
    requires blockDim > 0 && i < size
    ensures i % blockDim < blockDim && i in StrideVisits(i % blockDim, blockDim, size)
    ensures forall x: nat | x < blockDim && i in StrideVisits(x, blockDim, size) :: x == i % blockDim
  {
    GridStrideCoverage(blockDim, 1, size, i);
    assert blockDim * 1 == blockDim;
    forall x: nat | x < blockDim && i in StrideVisits(x, blockDim, size)
      ensures x == i % blockDim
    {
      assert ThreadStart(0, x, blockDim) == x;
    }
  }

  // ---------------------------------------------------------------------------
  // Spike gathering

  /** The neurons whose spike condition holds, in ascending order: the order in which
      the sequential outcome of the gather kernel hands out event slots. */
  function Spiking(cond: seq<bool>): (r: seq<nat>)
    ensures |r| <= |cond|
    ensures forall k :: 0 <= k < |r| ==> r[k] < |cond|
  {
    if cond == [] then []
    else
      var n := |cond| - 1;
      Spiking(cond[..n]) + (if cond[n] then [n] else [])
  }

  /** Slot order and membership: a neuron holds a slot exactly when its condition holds,
      and the slots list neurons in strictly ascending order, so no neuron is recorded
      twice. */
  lemma {:induction false} SpikingMembers(cond: seq<bool>)
    ensures forall i :: i in Spiking(cond) <==> 0 <= i < |cond| && cond[i]
    ensures forall j, k :: 0 <= j < k < |Spiking(cond)| ==> Spiking(cond)[j] < Spiking(cond)[k]
  {
    if cond != [] {
      var n := |cond| - 1;
      SpikingMembers(cond[..n]);
      assert forall i :: 0 <= i < n ==> cond[..n][i] == cond[i];
    }
  }

  // ---------------------------------------------------------------------------
  // Refractory countdown

  /** One update of `refractory_remaining[i]`: decremented while positive. */
  function Countdown(remaining: int): (r: int)
    ensures remaining > 0 ==> r == remaining - 1
    ensures remaining <= 0 ==> r == remaining
  {
    if remaining > 0 then remaining - 1 else remaining
  }

  /** The counter after `k` updates. */
  function CountdownAfter(remaining: int, k: nat): int {
    if k == 0 then remaining else Countdown(CountdownAfter(remaining, k - 1))
  }

  /** After a spike sets the counter to `refractory`, the next `refractory` updates run
      only the conductance equations and the one after that runs the full equations. */
  lemma {:induction false} RefractoryPeriod(refractory: nat, k: nat)
    ensures k < refractory ==> CountdownAfter(refractory, k) == refractory - k > 0
    ensures k >= refractory ==> CountdownAfter(refractory, k) == 0
  {
    if k > 0 {
      RefractoryPeriod(refractory, k - 1);
    }
  }

  // ---------------------------------------------------------------------------
  // Stop condition

  /** The generated `stop_condition()` of kind 'any': true as soon as one neuron
      satisfies the condition. */
  method StopAny(cond: seq<bool>) returns (stop: bool)
    ensures stop <==> exists i :: 0 <= i < |cond| && cond[i]
  {
    var i := 0;
    while i < |cond|
      invariant 0 <= i <= |cond|
      invariant forall j :: 0 <= j < i ==> !cond[j]
    {
      if cond[i] {
        return true;
      }
      i := i + 1;
    }
    return false;
  }

  /** The generated `stop_condition()` of kind 'all': false as soon as one neuron fails
      the condition. */
  method StopAll(cond: seq<bool>) returns (stop: bool)
    ensures stop <==> forall i :: 0 <= i < |cond| ==> cond[i]
  {
    var i := 0;
    while i < |cond|
      invariant 0 <= i <= |cond|
      invariant forall j :: 0 <= j < i ==> cond[j]
    {
      if !cond[i] {
        return false;
      }
      i := i + 1;
    }
    return true;
  }
}
