/** The C++ state the population templates declare and the code they emit to initialise,
    access, reset and advance it: the population struct's size and activity flag,
    per-neuron (local) and population-wide (global) attributes with their device copies
    and dirty flags, the spike bookkeeping with its refractory counters, the deques that
    delay spikes and rate variables, post-synaptic sums and random-number state.
    Host vectors and device buffers are sequences; a device buffer holds whatever
    `cudaMalloc` left in it until a copy overwrites it, so its first contents are
    parameters. */
module PopulationRuntime {
  import opened Common
  import opened Kernels

  /** A device pointer, as the value `cudaMalloc` returns. */
  type Ptr = int

  /** The struct `PopStruct<id>` itself. */
  class Population {
    var size: int
    var active: bool

    constructor ()
      ensures size == 0 && !active
    {
      size, active := 0, false;
    }

    /** The first two statements of `init_population()`. */
    method InitPopulation(size0: nat)
      modifies this
      ensures size == size0 && active
    {
      size := size0;
      active := true;
    }

    /** `set_active(val)`. */
    method SetActive(val: bool)
      modifies this
      ensures active == val && size == old(size)
    {
      active := val;
    }

    /** `update_global_ops()` of the OpenMP struct: the operations run only while the
        population is active. Returns the operations that ran. */
    method UpdateGlobalOps(ops: seq<string>) returns (ran: seq<string>)
      ensures active ==> ran == ops
      ensures !active ==> ran == []
    {
      ran := [];
      if active {
        ran := ops;
      }
    }
  }

  /** `size` copies of `v`, as `std::vector<T>(size, v)` builds them. */
  function Filled<T>(size: nat, v: T): (r: seq<T>)
    ensures |r| == size && forall i :: 0 <= i < size ==> r[i] == v
  {
    seq(size, _ => v)
  }

  // ---------------------------------------------------------------------------
  // Attributes

  /** A local attribute: one value per neuron on the host, its device copy, and (CUDA
      only) a flag meaning the host copy is newer. The flag is declared but never
      initialised by the templates, so its first value is a parameter. */
  class LocalAttribute {
    const paradigm: Paradigm
    var host: seq<real>
    var gpu: seq<real>
    var dirty: bool

    constructor (paradigm0: Paradigm, gpu0: seq<real>, dirty0: bool)
      ensures paradigm == paradigm0 && host == [] && gpu == gpu0 && dirty == dirty0
    {
      paradigm := paradigm0;
      host, gpu, dirty := [], gpu0, dirty0;
    }

    /** `attribute_cpp_init` (local): `size` copies of the initial value; the CUDA
        variant also fills the device buffer with them. */
    method CppInit(pop: Population, init: real, blank: seq<real>)
      requires pop.size >= 0 && |blank| == pop.size
      modifies this
      ensures host == Filled(pop.size, init)
      ensures paradigm == Cuda ==> gpu == host
      ensures paradigm != Cuda ==> gpu == old(gpu)
      ensures dirty == old(dirty)
    {
      host := Filled(pop.size, init);
      if paradigm == Cuda {
        gpu := Copy(blank, host, pop.size);
      }
    }

    /** `get_<name>()`. */
    method Get() returns (r: seq<real>)
      ensures r == host
    {
      r := host;
    }

    /** `get_single_<name>(rk)`: element rk; reading outside the vector is undefined. */
    method GetSingle(rk: int) returns (r: Access<real>)
      ensures 0 <= rk < |host| ==> r == Value(host[rk])
      ensures !(0 <= rk < |host|) ==> r == OutOfRange
    {
      if 0 <= rk < |host| {
        r := Value(host[rk]);
      } else {
        r := OutOfRange;
      }
    }

    /** `set_<name>(val)`: replaces the vector; under CUDA it also marks the host copy as
        newer. The device copy is not touched. */
    method Set(val: seq<real>)
      modifies this
      ensures host == val && gpu == old(gpu)
      ensures dirty == (paradigm == Cuda || old(dirty))
    {
      host := val;
      if paradigm == Cuda {
        dirty := true;
      }
    }

    /** `set_single_<name>(rk, val)`: writes element rk (which must exist); under CUDA it
        also marks the host copy as newer. */
    method SetSingle(rk: int, val: real)
      requires 0 <= rk < |host|
      modifies this
      ensures host == old(host)[rk := val] && gpu == old(gpu)
      ensures dirty == (paradigm == Cuda || old(dirty))
    {
      host := host[rk := val];
      if paradigm == Cuda {
        dirty := true;
      }
    }
  }

  /** A global attribute: one host value, in either paradigm without a dirty flag. */
  class GlobalAttribute {
    var value: real

    constructor (value0: real)
      ensures value == value0
    {
      value := value0;
    }

    /** `attribute_cpp_init` (global): assigns the initial value. */
    method CppInit(init: real)
      modifies this
      ensures value == init
    {
      value := init;
    }

    /** `get_<name>()`. */
    method Get() returns (r: real)
      ensures r == value
    {
      r := value;
    }

    /** `set_<name>(val)`. */
    method Set(val: real)
      modifies this
      ensures value == val
    {
      value := val;
    }
  }

  /** Setting a local CUDA attribute and reading it back returns what was set, and the
      next host-to-device transfer will copy it. */
  method SetThenGet(a: LocalAttribute, val: seq<real>, rk: int) returns (whole: seq<real>, single: Access<real>)
    requires a.paradigm == Cuda
    modifies a
    ensures whole == val && a.dirty
    ensures 0 <= rk < |val| ==> single == Value(val[rk])
  {
    a.Set(val);
    whole := a.Get();
    single := a.GetSingle(rk);
  }

  // ---------------------------------------------------------------------------
  // Spikes and refractoriness

  /** The spike bookkeeping of a spiking population (`declare_spike`,
      `declare_refractory`), on the host and on the device. */
  class SpikeState {
    // spikes
    var lastSpike: seq<int>
    var gpuLastSpike: seq<int>
    var spiked: seq<int>
    var gpuSpiked: seq<int>
    var numEvents: int
    var gpuNumEvents: int
    // refractory period
    var refractory: seq<int>
    var gpuRefractory: seq<int>
    var refractoryDirty: bool
    var refractoryRemaining: seq<int>
    var gpuRefractoryRemaining: seq<int>

    constructor ()
      ensures lastSpike == [] && gpuLastSpike == [] && spiked == [] && gpuSpiked == []
      ensures numEvents == 0 && gpuNumEvents == 0
      ensures refractory == [] && gpuRefractory == [] && !refractoryDirty
      ensures refractoryRemaining == [] && gpuRefractoryRemaining == []
    {
      lastSpike, gpuLastSpike, spiked, gpuSpiked := [], [], [], [];
      numEvents, gpuNumEvents := 0, 0;
      refractory, gpuRefractory, refractoryDirty := [], [], false;
      refractoryRemaining, gpuRefractoryRemaining := [], [];
    }

    /** `init_spike` (CUDA): no spikes on the host, a device buffer large enough for
        every neuron, last spike times -10000 on both sides, and an event count of zero
        on both sides. */
    method InitSpike(pop: Population, spikedAllocated: seq<int>)
      requires pop.size >= 0 && |spikedAllocated| == pop.size
      modifies this
      ensures spiked == [] && gpuSpiked == spikedAllocated
      ensures lastSpike == Filled(pop.size, -10000) && gpuLastSpike == lastSpike
      ensures numEvents == 0 && gpuNumEvents == 0
      ensures refractory == old(refractory) && gpuRefractory == old(gpuRefractory)
      ensures refractoryDirty == old(refractoryDirty)
      ensures refractoryRemaining == old(refractoryRemaining) && gpuRefractoryRemaining == old(gpuRefractoryRemaining)
    {
      spiked := [];
      gpuSpiked := spikedAllocated;
      lastSpike := Filled(pop.size, -10000);
      gpuLastSpike := lastSpike;
      numEvents := 0;
      gpuNumEvents := numEvents;
    }

    /** `init_refractory`: periods and remaining counters are zero on both sides and the
        host periods are not newer than the device ones. */
    method InitRefractory(pop: Population)
      requires pop.size >= 0
      modifies this
      ensures refractory == Filled(pop.size, 0) && gpuRefractory == refractory && !refractoryDirty
      ensures refractoryRemaining == Filled(pop.size, 0) && gpuRefractoryRemaining == refractoryRemaining
      ensures lastSpike == old(lastSpike) && gpuLastSpike == old(gpuLastSpike)
      ensures spiked == old(spiked) && gpuSpiked == old(gpuSpiked)
      ensures numEvents == old(numEvents) && gpuNumEvents == old(gpuNumEvents)
    {
      refractory := Filled(pop.size, 0);
      gpuRefractory := refractory;
      refractoryRemaining := Filled(pop.size, 0);
      refractoryDirty := false;
      gpuRefractoryRemaining := refractoryRemaining;
    }

    /** `model_specific_init['spike_event']` of the OpenMP template: host-side periods
        and counters zero, no spikes, last spike times -10000. */
    method InitSpikeEvent(pop: Population)
      requires pop.size >= 0
      modifies this
      ensures refractory == Filled(pop.size, 0) && refractoryRemaining == Filled(pop.size, 0)
      ensures spiked == [] && lastSpike == Filled(pop.size, -10000)
      ensures gpuLastSpike == old(gpuLastSpike) && gpuSpiked == old(gpuSpiked)
      ensures numEvents == old(numEvents) && gpuNumEvents == old(gpuNumEvents)
      ensures gpuRefractory == old(gpuRefractory) && refractoryDirty == old(refractoryDirty)
      ensures gpuRefractoryRemaining == old(gpuRefractoryRemaining)
    {
      refractory := Filled(pop.size, 0);
      spiked := [];
      lastSpike := Filled(pop.size, -10000);
      refractoryRemaining := Filled(pop.size, 0);
    }

    /** `reset_spike`: clears the host spike list and restores the host last spike
        times; the device copies are left as they are. */
    method ResetSpike(pop: Population)
      requires pop.size >= 0
      modifies this
      ensures spiked == [] && lastSpike == Filled(pop.size, -10000)
      ensures gpuLastSpike == old(gpuLastSpike) && gpuSpiked == old(gpuSpiked)
      ensures numEvents == old(numEvents) && gpuNumEvents == old(gpuNumEvents)
      ensures refractory == old(refractory) && gpuRefractory == old(gpuRefractory)
      ensures refractoryDirty == old(refractoryDirty)
      ensures refractoryRemaining == old(refractoryRemaining) && gpuRefractoryRemaining == old(gpuRefractoryRemaining)
    {
      spiked := [];
      lastSpike := Filled(pop.size, -10000);
    }

    /** `reset_refractory`: only the remaining counters are zeroed, on both sides; the
        periods themselves are kept. */
    method ResetRefractory(pop: Population)
      requires pop.size >= 0
      modifies this
      ensures refractoryRemaining == Filled(pop.size, 0) && gpuRefractoryRemaining == refractoryRemaining
      ensures refractory == old(refractory) && gpuRefractory == old(gpuRefractory)
      ensures refractoryDirty == old(refractoryDirty)
      ensures lastSpike == old(lastSpike) && gpuLastSpike == old(gpuLastSpike)
      ensures spiked == old(spiked) && gpuSpiked == old(gpuSpiked)
      ensures numEvents == old(numEvents) && gpuNumEvents == old(gpuNumEvents)
    {
      refractoryRemaining := Filled(pop.size, 0);
      gpuRefractoryRemaining := refractoryRemaining;
    }

    /** The Cython wrapper's `set_refractory(value)`: new host periods, marked newer than
        the device copy. */
    method SetRefractory(value: seq<int>)
      modifies this
      ensures refractory == value && refractoryDirty
      ensures gpuRefractory == old(gpuRefractory)
      ensures refractoryRemaining == old(refractoryRemaining) && gpuRefractoryRemaining == old(gpuRefractoryRemaining)
      ensures lastSpike == old(lastSpike) && gpuLastSpike == old(gpuLastSpike)
      ensures spiked == old(spiked) && gpuSpiked == old(gpuSpiked)
      ensures numEvents == old(numEvents) && gpuNumEvents == old(gpuNumEvents)
    {
      refractory := value;
      refractoryDirty := true;
    }

    /** The refractory block of the host-to-device transfer: copies `size` periods only
        when the host copy is newer, then clears the flag. */
    method RefractoryHostToDevice(pop: Population)
      requires refractoryDirty ==> 0 <= pop.size <= |gpuRefractory| && pop.size <= |refractory|
      modifies this
      ensures !refractoryDirty && refractory == old(refractory)
      ensures gpuRefractory == (if old(refractoryDirty) then Copy(old(gpuRefractory), refractory, pop.size) else old(gpuRefractory))
      ensures refractoryRemaining == old(refractoryRemaining) && gpuRefractoryRemaining == old(gpuRefractoryRemaining)
      ensures lastSpike == old(lastSpike) && gpuLastSpike == old(gpuLastSpike)
      ensures spiked == old(spiked) && gpuSpiked == old(gpuSpiked)
      ensures numEvents == old(numEvents) && gpuNumEvents == old(gpuNumEvents)
    {
      if refractoryDirty {
        gpuRefractory := Copy(gpuRefractory, refractory, pop.size);
        refractoryDirty := false;
      }
    }

    /** The refractory wrap of the update kernel, on the device: a neuron whose counter
        is positive runs only its conductance equations and decrements the counter; the
        others run their full equations. Returns which neurons ran the full equations. */
    method UpdateRefractoryKernel(pop: Population) returns (full: seq<bool>)
      requires 0 <= pop.size <= |gpuRefractoryRemaining|
      modifies this
      ensures |full| == pop.size
      ensures forall i :: 0 <= i < pop.size ==> full[i] == (old(gpuRefractoryRemaining)[i] <= 0)
      ensures |gpuRefractoryRemaining| == |old(gpuRefractoryRemaining)|
      ensures forall i :: 0 <= i < pop.size ==>
                gpuRefractoryRemaining[i] == Countdown(old(gpuRefractoryRemaining)[i])
      ensures forall i :: pop.size <= i < |gpuRefractoryRemaining| ==>
                gpuRefractoryRemaining[i] == old(gpuRefractoryRemaining)[i]
      ensures refractory == old(refractory) && gpuRefractory == old(gpuRefractory)
      ensures refractoryDirty == old(refractoryDirty) && refractoryRemaining == old(refractoryRemaining)
      ensures lastSpike == old(lastSpike) && gpuLastSpike == old(gpuLastSpike)
      ensures spiked == old(spiked) && gpuSpiked == old(gpuSpiked)
      ensures numEvents == old(numEvents) && gpuNumEvents == old(gpuNumEvents)
    {
      var rem;
      full, rem := CountdownLoop(gpuRefractoryRemaining, pop.size);
      gpuRefractoryRemaining := rem;
    }

    /** One launch of the spike-gather kernel, as its sequential outcome: the event
        counter restarts at zero, every neuron whose condition holds takes the next
        slot of `spiked` in ascending order, gets time `t` as its last spike and, with
        a refractory period, has its counter reset to its period. */
    method SpikeGatherKernel(cond: seq<bool>, t: int, withRefractory: bool)
      requires |cond| <= |gpuSpiked| && |cond| <= |gpuLastSpike|
      requires withRefractory ==> |cond| <= |gpuRefractoryRemaining| && |cond| <= |gpuRefractory|
      modifies this
      ensures refractory == old(refractory) && gpuRefractory == old(gpuRefractory)
      ensures gpuNumEvents == |Spiking(cond)|
      ensures gpuSpiked == Spiking(cond) + old(gpuSpiked)[|Spiking(cond)|..]
      ensures |gpuSpiked| == |old(gpuSpiked)|
      ensures |gpuLastSpike| == |old(gpuLastSpike)|
      ensures forall i :: 0 <= i < |gpuLastSpike| ==>
                gpuLastSpike[i] == (if i < |cond| && cond[i] then t else old(gpuLastSpike)[i])
      ensures !withRefractory ==> gpuRefractoryRemaining == old(gpuRefractoryRemaining)
      ensures withRefractory ==> |gpuRefractoryRemaining| == |old(gpuRefractoryRemaining)|
      ensures withRefractory ==> forall i :: 0 <= i < |gpuRefractoryRemaining| ==>
                gpuRefractoryRemaining[i] ==
                  (if i < |cond| && cond[i] then gpuRefractory[i] else old(gpuRefractoryRemaining)[i])
      ensures refractoryDirty == old(refractoryDirty) && refractoryRemaining == old(refractoryRemaining)
      ensures lastSpike == old(lastSpike) && spiked == old(spiked) && numEvents == old(numEvents)
    {
      var n, sp, ls, rem := GatherLoop(cond, t, withRefractory, gpuSpiked, gpuLastSpike, gpuRefractoryRemaining, gpuRefractory);
      gpuNumEvents, gpuSpiked, gpuLastSpike, gpuRefractoryRemaining := n, sp, ls, rem;
    }

    /** The host side of spike gathering (`spike_gather_call`): the kernel runs only
        while the population is active, and the event count is copied back to the host
        in either case. */
    method GatherStep(pop: Population, cond: seq<bool>, t: int, withRefractory: bool)
      requires |cond| <= |gpuSpiked| && |cond| <= |gpuLastSpike|
      requires withRefractory ==> |cond| <= |gpuRefractoryRemaining| && |cond| <= |gpuRefractory|
      modifies this
      ensures pop.active ==> numEvents == gpuNumEvents == |Spiking(cond)|
      ensures |gpuSpiked| == |old(gpuSpiked)|
      ensures pop.active ==> gpuSpiked[..numEvents] == Spiking(cond)
      ensures !pop.active ==> numEvents == gpuNumEvents == old(gpuNumEvents)
      ensures !pop.active ==> gpuSpiked == old(gpuSpiked) && gpuLastSpike == old(gpuLastSpike)
      ensures lastSpike == old(lastSpike) && spiked == old(spiked)
    {
      if pop.active {
        SpikeGatherKernel(cond, t, withRefractory);
      }
      numEvents := gpuNumEvents;
    }
  }

  /** The loop of the refractory wrap over neurons [0, size). */
  method CountdownLoop(remaining: seq<int>, size: int) returns (full: seq<bool>, rem: seq<int>)
    requires 0 <= size <= |remaining|
    ensures |full| == size && |rem| == |remaining|
    ensures forall i :: 0 <= i < size ==> full[i] == (remaining[i] <= 0) && rem[i] == Countdown(remaining[i])
    ensures forall i :: size <= i < |rem| ==> rem[i] == remaining[i]
  {
    full, rem := [], remaining;
    var i := 0;
    while i < size
      invariant 0 <= i <= size && |full| == i && |rem| == |remaining|
      invariant forall j :: 0 <= j < i ==> full[j] == (remaining[j] <= 0) && rem[j] == Countdown(remaining[j])
      invariant forall j :: i <= j < |rem| ==> rem[j] == remaining[j]
    {
      full := full + [rem[i] <= 0];
      if rem[i] > 0 {
        rem := rem[i := rem[i] - 1];
      }
      i := i + 1;
    }
  }

  /** One neuron of the gather loop: a spiking neuron i takes slot n, the first one not
      yet filled, and the filled slots become those of neurons 0..i. */
  lemma SlotStep(cond: seq<bool>, i: int, n: int, spiked: seq<int>, spiked0: seq<int>)
    requires 0 <= i < |cond| <= |spiked0|
    requires n == |Spiking(cond[..i])| && spiked == Spiking(cond[..i]) + spiked0[n..]
    ensures n <= i
    ensures cond[i] ==>
              && n < |spiked| && n + 1 == |Spiking(cond[..i + 1])|
              && spiked[n := i] == Spiking(cond[..i + 1]) + spiked0[n + 1..]
    ensures !cond[i] ==> n == |Spiking(cond[..i + 1])| && spiked == Spiking(cond[..i + 1]) + spiked0[n..]
  {
    var filled := Spiking(cond[..i]);
    assert cond[..i + 1][..i] == cond[..i];
    if cond[i] {
      assert spiked[n := i] == (filled + [i]) + spiked0[n + 1..];
    } else {
      assert filled + [] == filled;
    }
  }

  /** The neuron loop of the spike-gather kernel in ascending order. */
  method GatherLoop(cond: seq<bool>, t: int, withRefractory: bool, spiked0: seq<int>, lastSpike0: seq<int>,
                    remaining0: seq<int>, refractory: seq<int>)
    returns (n: int, spiked: seq<int>, lastSpike: seq<int>, remaining: seq<int>)
    requires |cond| <= |spiked0| && |cond| <= |lastSpike0|
    requires withRefractory ==> |cond| <= |remaining0| && |cond| <= |refractory|
    ensures n == |Spiking(cond)|
    ensures spiked == Spiking(cond) + spiked0[n..]
    ensures |lastSpike| == |lastSpike0|
    ensures forall i :: 0 <= i < |lastSpike| ==>
              lastSpike[i] == (if i < |cond| && cond[i] then t else lastSpike0[i])
    ensures !withRefractory ==> remaining == remaining0
    ensures withRefractory ==> |remaining| == |remaining0|
    ensures withRefractory ==> forall i :: 0 <= i < |remaining| ==>
              remaining[i] == (if i < |cond| && cond[i] then refractory[i] else remaining0[i])
  {
    n, spiked, lastSpike, remaining := 0, spiked0, lastSpike0, remaining0;
    var i := 0;
    while i < |cond|
      invariant 0 <= i <= |cond|
      invariant n == |Spiking(cond[..i])| && spiked == Spiking(cond[..i]) + spiked0[n..]
      invariant lastSpike == Stamp(lastSpike0, cond[..i], ConstSeq(t, |lastSpike0|))
      invariant remaining == if withRefractory then Stamp(remaining0, cond[..i], refractory) else remaining0
    {
      SlotStep(cond, i, n, spiked, spiked0);
      assert cond[..i + 1][..i] == cond[..i];
      if cond[i] {
        // pos = atomicAdd(&num_events[0], 1)
        var pos := n;
        n := n + 1;
        spiked := spiked[pos := i];
        lastSpike := lastSpike[i := t];
        if withRefractory {
          remaining := remaining[i := refractory[i]];
        }
      }
      i := i + 1;
    }
    assert cond[..i] == cond;
    StampSpec(lastSpike0, cond, ConstSeq(t, |lastSpike0|));
    if withRefractory {
      StampSpec(remaining0, cond, refractory);
    }
  }

  /** n copies of x. */
  function ConstSeq(x: int, n: nat): (r: seq<int>)
    ensures |r| == n && forall j :: 0 <= j < n ==> r[j] == x
  {
    seq(n, _ => x)
  }

  /** `init` with entry j replaced by `marks[j]` for every neuron j whose condition holds:
      what the gather loop writes into the spike times and the refractory countdowns. */
  function Stamp(init: seq<int>, cond: seq<bool>, marks: seq<int>): (r: seq<int>)
    requires |cond| <= |init| && |cond| <= |marks|
    ensures |r| == |init|
  {
    if cond == [] then init
    else
      var j := |cond| - 1;
      var prev := Stamp(init, cond[..j], marks);
      if cond[j] then prev[j := marks[j]] else prev
  }

  lemma {:induction false} StampSpec(init: seq<int>, cond: seq<bool>, marks: seq<int>)
    requires |cond| <= |init| && |cond| <= |marks|
    ensures forall j :: 0 <= j < |init| ==>
      Stamp(init, cond, marks)[j] == (if j < |cond| && cond[j] then marks[j] else init[j])
  {
    if cond != [] {
      StampSpec(init, cond[..|cond| - 1], marks);
    }
  }

  /** Every slot written by one gather holds a distinct spiking neuron, and a neuron is
      recorded exactly when its condition holds: the kernel's slots are a duplicate-free
      list of the spiking neurons. */
  lemma GatheredSpikes(s: SpikeState, cond: seq<bool>)
    ensures forall i :: i in Spiking(cond) <==> 0 <= i < |cond| && cond[i]
    ensures forall j, k :: 0 <= j < k < |Spiking(cond)| ==> Spiking(cond)[j] != Spiking(cond)[k]
  {
    SpikingMembers(cond);
  }

  // ---------------------------------------------------------------------------
  // Spike delays

  /** Moves the last element of a deque to its front (`back`, `pop_back`,
      `push_front`). */
  function Rotate<T>(q: seq<T>): (r: seq<T>)
    requires |q| > 0
    ensures |r| == |q| && r[0] == q[|q| - 1]
    ensures forall j :: 1 <= j < |q| ==> r[j] == q[j - 1]
  {
    [q[|q| - 1]] + q[..|q| - 1]
  }

  function RotateTimes<T>(q: seq<T>, k: nat): (r: seq<T>)
    requires |q| > 0
    ensures |r| == |q|
  {
    if k == 0 then q else Rotate(RotateTimes(q, k - 1))
  }

  /** After k rotations (k at most the length) the last k elements have moved to the
      front in order. */
  lemma {:induction false} RotateTimesSplit<T>(q: seq<T>, k: nat)
    requires 0 < |q| && k <= |q|
    ensures RotateTimes(q, k) == q[|q| - k..] + q[..|q| - k]
  {
    if k > 0 {
      RotateTimesSplit(q, k - 1);
      var p := RotateTimes(q, k - 1);
      var n := |q|;
      assert p == q[n - k + 1..] + q[..n - k + 1];
      assert p[n - 1] == q[n - k];
      assert p[..n - 1] == q[n - k + 1..] + q[..n - k];
    }
  }

  /** The buffer at position j reaches the front after exactly |q| - j rotations, and
      a full cycle of |q| rotations restores the deque: with distinct buffers each one
      is the current one once every |q| steps. */
  lemma RotationCycle<T>(q: seq<T>, j: nat)
    requires j < |q|
    ensures j > 0 ==> RotateTimes(q, |q| - j)[0] == q[j]
    ensures RotateTimes(q, |q|) == q
  {
    RotateTimesSplit(q, |q|);
    assert q[0..] == q && q[..0] == [];
    if j > 0 {
      RotateTimesSplit(q, |q| - j);
      assert q[j..][0] == q[j];
    }
  }

  /** The deques that delay spike transmission on the device: one spike buffer and one
      event counter per delay step, the current spike buffer and the host event
      count. */
  class SpikeDelay {
    var delayedSpiked: seq<Ptr>
    var delayedNumEvents: seq<Ptr>
    var gpuSpiked: Ptr
    var numEvents: int

    constructor (gpuSpiked0: Ptr)
      ensures delayedSpiked == [] && delayedNumEvents == [] && gpuSpiked == gpuSpiked0 && numEvents == 0
    {
      delayedSpiked, delayedNumEvents, gpuSpiked, numEvents := [], [], gpuSpiked0, 0;
    }

    /** The spike part of `init_delay`: `slots` buffers of each kind, blank in turn
        and pushed at the front, so the first one blank ends at the back. */
    method Init(spikedBuffers: seq<Ptr>, counterBuffers: seq<Ptr>)
      requires |spikedBuffers| == |counterBuffers|
      modifies this
      ensures |delayedSpiked| == |delayedNumEvents| == |spikedBuffers|
      ensures forall j :: 0 <= j < |spikedBuffers| ==>
                delayedSpiked[j] == spikedBuffers[|spikedBuffers| - 1 - j] &&
                delayedNumEvents[j] == counterBuffers[|counterBuffers| - 1 - j]
      ensures gpuSpiked == old(gpuSpiked) && numEvents == old(numEvents)
    {
      var ds, dn := [], [];
      var i := 0;
      while i < |spikedBuffers|
        invariant 0 <= i <= |spikedBuffers| && |ds| == |dn| == i
        invariant forall j :: 0 <= j < i ==> ds[j] == spikedBuffers[i - 1 - j] && dn[j] == counterBuffers[i - 1 - j]
      {
        ds := [spikedBuffers[i]] + ds;
        dn := [counterBuffers[i]] + dn;
        i := i + 1;
      }
      delayedSpiked, delayedNumEvents := ds, dn;
    }

    /** The spike part of `update_delay` while the population is active: both deques
        rotate back to front, the front counter is copied to the host, and the front
        spike buffer becomes the current one. An inactive population keeps everything. */
    method Update(pop: Population, counters: map<Ptr, int>)
      requires pop.active ==> |delayedSpiked| > 0 && |delayedNumEvents| > 0
      requires pop.active ==> delayedNumEvents[|delayedNumEvents| - 1] in counters
      modifies this
      ensures pop.active ==> delayedSpiked == Rotate(old(delayedSpiked))
      ensures pop.active ==> delayedNumEvents == Rotate(old(delayedNumEvents))
      ensures pop.active ==> gpuSpiked == delayedSpiked[0] && numEvents == counters[delayedNumEvents[0]]
      ensures !pop.active ==> delayedSpiked == old(delayedSpiked) && delayedNumEvents == old(delayedNumEvents)
      ensures !pop.active ==> gpuSpiked == old(gpuSpiked) && numEvents == old(numEvents)
    {
      if pop.active {
        var lastSpiked := delayedSpiked[|delayedSpiked| - 1];
        delayedSpiked := [lastSpiked] + delayedSpiked[..|delayedSpiked| - 1];
        var lastNumEvent := delayedNumEvents[|delayedNumEvents| - 1];
        delayedNumEvents := [lastNumEvent] + delayedNumEvents[..|delayedNumEvents| - 1];
        numEvents := counters[delayedNumEvents[0]];
        gpuSpiked := delayedSpiked[0];
      }
    }
  }

  // ---------------------------------------------------------------------------
  // Delayed rate variables

  /** `gpu_delayed_<name>`: one device buffer per delay step; slot d holds the value
      the variable had d steps ago. */
  class DelayedVariable {
    var slots: seq<seq<real>>

    constructor ()
      ensures slots == []
    {
      slots := [];
    }

    /** `attribute_delayed['local']`: exactly `delay` slots, each a freshly blank
        buffer. */
    method Init(delay: nat, blank: seq<seq<real>>)
      requires |blank| == delay
      modifies this
      ensures slots == blank
    {
      var s := seq(delay, _ => []);
      var i := 0;
      while i < delay
        invariant 0 <= i <= delay && |s| == delay
        invariant forall j :: 0 <= j < i ==> s[j] == blank[j]
      {
        s := s[i := blank[i]];
        i := i + 1;
      }
      slots := s;
    }

    /** `attribute_delayed['reset']`: the current device values are copied into every
        slot. */
    method Reset(pop: Population, gpuVar: seq<real>)
      requires 0 <= pop.size <= |gpuVar|
      requires forall j :: 0 <= j < |slots| ==> pop.size <= |slots[j]|
      modifies this
      ensures |slots| == |old(slots)|
      ensures forall j :: 0 <= j < |slots| ==> slots[j] == Copy(old(slots)[j], gpuVar, pop.size)
      ensures forall j :: 0 <= j < |slots| ==> |slots[j]| == |old(slots)[j]| >= pop.size
      ensures forall j :: 0 <= j < |slots| ==> slots[j][..pop.size] == gpuVar[..pop.size]
    {
      var s := slots;
      var i := 0;
      while i < |s|
        invariant 0 <= i <= |s| && |s| == |slots|
        invariant forall j :: 0 <= j < i ==> s[j] == Copy(slots[j], gpuVar, pop.size)
        invariant forall j :: i <= j < |s| ==> s[j] == slots[j]
      {
        s := s[i := Copy(s[i], gpuVar, pop.size)];
        i := i + 1;
      }
      slots := s;
      forall j | 0 <= j < |slots| ensures slots[j][..pop.size] == gpuVar[..pop.size] {
        CopyRoundTrip(gpuVar, old(slots)[j], pop.size);
      }
    }

    /** The per-step update of a delayed variable (the algorithm the generator documents:
        the oldest buffer is recycled at the front and receives the current values). */
    method Update(pop: Population, gpuVar: seq<real>)
      requires 0 <= pop.size <= |gpuVar|
      requires |slots| > 0 && pop.size <= |slots[|slots| - 1]|
      modifies this
      ensures slots == Push(old(slots), Copy(old(slots)[|old(slots)| - 1], gpuVar, pop.size))
    {
      var last := slots[|slots| - 1];
      slots := [Copy(last, gpuVar, pop.size)] + slots[..|slots| - 1];
    }
  }

  /** Recycling the oldest slot for a new value. */
  function Push<T>(slots: seq<T>, v: T): (r: seq<T>)
    requires |slots| > 0
    ensures |r| == |slots| && r[0] == v
    ensures forall d :: 1 <= d < |slots| ==> r[d] == slots[d - 1]
  {
    [v] + slots[..|slots| - 1]
  }

  /** Pushing the values of consecutive steps: the value pushed d steps ago sits in slot
      d while d is below the number of slots. */
  function PushAll<T>(slots: seq<T>, values: seq<T>): (r: seq<T>)
    requires |slots| > 0
    ensures |r| == |slots|
  {
    if values == [] then slots else Push(PushAll(slots, values[..|values| - 1]), values[|values| - 1])
  }

  lemma {:induction false} PushAllDelays<T>(slots: seq<T>, values: seq<T>, d: nat)
    requires |slots| > 0 && d < |slots| && d < |values|
    ensures PushAll(slots, values)[d] == values[|values| - 1 - d]
  {
    if d > 0 {
      var prefix := values[..|values| - 1];
      PushAllDelays(slots, prefix, d - 1);
      assert prefix[|prefix| - 1 - (d - 1)] == values[|values| - 1 - d];
    }
  }

  // ---------------------------------------------------------------------------
  // Post-synaptic sums and random numbers

  /** `_sum_<target>` and its device copy (`rate_psp`). */
  class PostSynapticSum {
    var host: seq<real>
    var gpu: seq<real>

    constructor (gpu0: seq<real>)
      ensures host == [] && gpu == gpu0
    {
      host, gpu := [], gpu0;
    }

    /** `rate_psp['init']`: `size` zeros on the host; the CUDA template also allocates the
        device buffer and copies the zeros into it. */
    method Init(pop: Population, paradigm: Paradigm, blank: seq<real>)
      requires pop.size >= 0 && |blank| == pop.size
      modifies this
      ensures host == Filled(pop.size, 0.0)
      ensures paradigm == Cuda ==> gpu == host
      ensures paradigm != Cuda ==> gpu == old(gpu)
    {
      host := Filled(pop.size, 0.0);
      if paradigm == Cuda {
        gpu := Copy(blank, host, pop.size);
      }
    }
  }

  /** The `curandState` buffer of one random distribution on the device. */
  class RandomStates {
    var count: nat

    constructor ()
      ensures count == 0
    {
      count := 0;
    }

    /** `curand['local' | 'global']['init']`: one state per neuron for a local
        distribution, a single state for a global one. */
    method Init(pop: Population, local: bool)
      requires pop.size >= 0
      modifies this
      ensures local ==> count == pop.size
      ensures !local ==> count == 1
    {
      if local {
        count := pop.size;
      } else {
        count := 1;
      }
    }
  }

  /** A random distribution drawn on the host by the OpenMP struct (`cpp_11_rng`). */
  class HostRandomVariable {
    var values: seq<real>

    constructor ()
      ensures values == []
    {
      values := [];
    }

    /** `cpp_11_rng['init']`: `size` zeros. */
    method Init(pop: Population)
      requires pop.size >= 0
      modifies this
      ensures values == Filled(pop.size, 0.0)
    {
      values := Filled(pop.size, 0.0);
    }

    /** `update_rng()`: while the population is active, draws one number per neuron in
        index order from the generator's stream `draws`; returns how many were drawn. */
    method UpdateRng(pop: Population, draws: seq<real>) returns (drawn: nat)
      requires pop.active ==> 0 <= pop.size <= |values| && pop.size <= |draws|
      modifies this
      ensures pop.active ==> drawn == pop.size && values == draws[..pop.size] + old(values)[pop.size..]
      ensures !pop.active ==> drawn == 0 && values == old(values)
    {
      drawn := 0;
      if pop.active {
        var v := values;
        var i := 0;
        while i < pop.size
          invariant 0 <= i <= pop.size && |v| == |values|
          invariant v == draws[..i] + values[i..]
        {
          v := v[i := draws[i]];
          i := i + 1;
          assert v == draws[..i] + values[i..];
        }
        values := v;
        drawn := pop.size;
      }
    }
  }
}
