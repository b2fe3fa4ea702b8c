/** The C++ state a CUDA projection in CSR format carries on the host: the forward
    matrix (`_row_ptr`, `_col_idx`), its inverse (`_col_ptr`, `_row_idx`, `_inv_idx`,
    `post_ranks`), the weights with their device copy and refresh flag, and the
    accessors and transfers generated for every further attribute. Device buffers are
    modelled as sequences of the values a `cudaMemcpy` leaves in them; the messages
    written to `std::cerr` are collected in `diagnostics`. */
module CsrCuda {
  import opened Common
  import opened CsrInverse

  /** What the projection writes to the error stream. */
  datatype Diagnostic = NoRowPtr | SynapseCountMismatch(nbSynapses: int, currOff: int)

  // ---------------------------------------------------------------------------
  // Reading one dendrite through the inverse

  /** Every read of `values[idx[j]]` for j in [lo, hi) stays inside both vectors. */
  predicate GatherDefined(values: seq<real>, idx: seq<int>, lo: int, hi: int) {
    && (lo < hi ==> 0 <= lo && hi <= |idx|)
    && forall j :: lo <= j < hi ==> 0 <= idx[j] < |values|
  }

  /** `values[idx[j]]` for j in [lo, hi), in that order; any read outside `idx` or
      `values` makes the whole read undefined. */
  function Gathered(values: seq<real>, idx: seq<int>, lo: int, hi: int): (r: Access<seq<real>>)
    ensures r.Value? <==> GatherDefined(values, idx, lo, hi)
    ensures r.Value? ==> |r.value| == (if lo < hi then hi - lo else 0)
  {
    if GatherDefined(values, idx, lo, hi) then
      Value(seq(if lo < hi then hi - lo else 0, t requires 0 <= t && lo + t < hi => values[idx[lo + t]]))
    else OutOfRange
  }

  /** `get_dendrite_<name>(rk)`: the values of range rk of the inverse. */
  function Dendrite(values: seq<real>, colPtr: seq<int>, invIdx: seq<int>, rk: int): Access<seq<real>> {
    if 0 <= rk && rk + 1 < |colPtr| then Gathered(values, invIdx, colPtr[rk], colPtr[rk + 1]) else OutOfRange
  }

  /** `get_<name>()`: one dendrite per entry of `ranks`; undefined if any is. */
  function Dendrites(values: seq<real>, colPtr: seq<int>, invIdx: seq<int>, ranks: seq<int>): (r: Access<seq<seq<real>>>)
    ensures r.Value? || r.OutOfRange?
    ensures r.Value? <==> forall n :: 0 <= n < |ranks| ==> Dendrite(values, colPtr, invIdx, ranks[n]).Value?
    ensures r.Value? ==> |r.value| == |ranks|
    ensures r.Value? ==> forall n :: 0 <= n < |ranks| ==> r.value[n] == Dendrite(values, colPtr, invIdx, ranks[n]).value
  {
    if ranks == [] then Value([])
    else
      var prev := Dendrites(values, colPtr, invIdx, ranks[..|ranks| - 1]);
      var last := Dendrite(values, colPtr, invIdx, ranks[|ranks| - 1]);
      if prev.Value? && last.Value? then Value(prev.value + [last.value]) else OutOfRange
  }

  /** The loop of `get_dendrite_<name>` and `get_dendrite_w`. */
  method GatherDendrite(values: seq<real>, colPtr: seq<int>, invIdx: seq<int>, rk: int) returns (r: Access<seq<real>>)
    ensures r == Dendrite(values, colPtr, invIdx, rk)
  {
    if !(0 <= rk && rk + 1 < |colPtr|) {
      return OutOfRange;
    }
    var lo, hi := colPtr[rk], colPtr[rk + 1];
    var res: seq<real> := [];
    var j := lo;
    while j < hi
      invariant lo <= j && (j <= hi || j == lo)
      invariant GatherDefined(values, invIdx, lo, j)
      invariant |res| == j - lo && forall t :: 0 <= t < |res| ==> res[t] == values[invIdx[lo + t]]
    {
      if !(0 <= j < |invIdx| && 0 <= invIdx[j] < |values|) {
        assert !GatherDefined(values, invIdx, lo, hi);
        return OutOfRange;
      }
      res := res + [values[invIdx[j]]];
      j := j + 1;
    }
    assert res == Gathered(values, invIdx, lo, hi).value;
    r := Value(res);
  }

  /** The values, in forward order, of a list of synapses. */
  function ValuesOf(values: seq<real>, es: seq<Syn>): (r: seq<real>)
    requires forall e :: e in es ==> 0 <= e.off < |values|
    ensures |r| == |es|
  {
    seq(|es|, t requires 0 <= t < |es| => values[es[t].off])
  }

  /** After the inversion, dendrite m (a position in `post_ranks`) holds the values of the
      synapses of pre-synaptic rank `post_ranks[m]`, in the order of the forward matrix. */
  lemma DendriteOfInverse(rowPtr: seq<int>, colIdx: seq<int>, bound: int, values: seq<real>, m: int)
    requires RowsInBounds(rowPtr, colIdx) && |colIdx| <= |values|
    requires 0 <= m < |Invert(rowPtr, colIdx, bound).keys|
    ensures OffsIn(AllSyns(rowPtr), |colIdx|)
    ensures var inv := Invert(rowPtr, colIdx, bound);
      var c := Column(AllSyns(rowPtr), colIdx, inv.keys[m]);
      (forall e :: e in c ==> 0 <= e.off < |values|)
      && Dendrite(values, inv.colPtr, Offs(inv.ents), m) == Value(ValuesOf(values, c))
  {
    InverseRanges(rowPtr, colIdx, bound);
    InverseEntriesBelongToRows(rowPtr, colIdx, bound);
    var inv := Invert(rowPtr, colIdx, bound);
    DendriteOfRange(inv, AllSyns(rowPtr), colIdx, values, m);
  }

  /** The same for any inverse whose range m matches its key's synapses. */
  lemma DendriteOfRange(inv: Inverse, es: seq<Syn>, colIdx: seq<int>, values: seq<real>, m: int)
    requires OffsIn(es, |colIdx|) && |colIdx| <= |values|
    requires 0 <= m < |inv.keys| && |inv.colPtr| == |inv.keys| + 1 && RangeMatches(inv, es, colIdx, m)
    requires forall e :: e in inv.ents ==> 0 <= e.off < |colIdx|
    ensures var c := Column(es, colIdx, inv.keys[m]);
      (forall e :: e in c ==> 0 <= e.off < |values|)
      && Dendrite(values, inv.colPtr, Offs(inv.ents), m) == Value(ValuesOf(values, c))
  {
    var c := Column(es, colIdx, inv.keys[m]);
    var lo, hi := inv.colPtr[m], inv.colPtr[m + 1];
    assert inv.ents[lo..hi] == c;
    forall e | e in c ensures 0 <= e.off < |values| {
      assert e in inv.ents;
    }
    var idx := Offs(inv.ents);
    forall j | lo <= j < hi ensures 0 <= j < |idx| && 0 <= idx[j] < |values| {
      assert inv.ents[j] in inv.ents;
    }
    var g := Gathered(values, idx, lo, hi);
    assert g.value == ValuesOf(values, c) by {
      forall t | 0 <= t < |c| ensures g.value[t] == values[c[t].off] {
        assert c[t] == inv.ents[lo + t];
      }
    }
  }

  /** The values of the first synapse in range rk whose row is `rkPre`; scanning runs
      off the end without a return value when there is none. */
  function SynapseLookup(values: seq<real>, colPtr: seq<int>, rowIdx: seq<int>, invIdx: seq<int>,
                         rk: int, rkPre: int, j: int): (r: Access<real>)
    requires 0 <= rk && rk + 1 < |colPtr|
    decreases colPtr[rk + 1] - j
  {
    if j >= colPtr[rk + 1] then NoReturn
    else if !(0 <= j < |rowIdx|) then OutOfRange
    else if rowIdx[j] == rkPre then
      (if 0 <= j < |invIdx| && 0 <= invIdx[j] < |values| then Value(values[invIdx[j]]) else OutOfRange)
    else SynapseLookup(values, colPtr, rowIdx, invIdx, rk, rkPre, j + 1)
  }

  /** `get_synapse_<name>(rk_post, rk_pre)`. */
  function Synapse(values: seq<real>, colPtr: seq<int>, rowIdx: seq<int>, invIdx: seq<int>, rk: int, rkPre: int): Access<real> {
    if 0 <= rk && rk + 1 < |colPtr| then SynapseLookup(values, colPtr, rowIdx, invIdx, rk, rkPre, colPtr[rk]) else OutOfRange
  }

  /** Scanning from j finds a value exactly when some later entry of the range has row
      `rkPre`, and then it is the value of the first such entry. */
  lemma {:induction false} SynapseLookupFindsFirst(values: seq<real>, colPtr: seq<int>, rowIdx: seq<int>, invIdx: seq<int>,
                                                   rk: int, rkPre: int, j: int)
    requires 0 <= rk && rk + 1 < |colPtr|
    requires 0 <= j && colPtr[rk + 1] <= |rowIdx| && colPtr[rk + 1] <= |invIdx|
    requires forall i :: j <= i < colPtr[rk + 1] ==> 0 <= invIdx[i] < |values|
    ensures var r := SynapseLookup(values, colPtr, rowIdx, invIdx, rk, rkPre, j);
      && (r.Value? <==> exists i :: j <= i < colPtr[rk + 1] && rowIdx[i] == rkPre)
      && (r.NoReturn? <==> !r.Value?)
      && (forall i :: (j <= i < colPtr[rk + 1] && rowIdx[i] == rkPre
            && (forall i' :: j <= i' < i ==> rowIdx[i'] != rkPre)) ==> r == Value(values[invIdx[i]]))
    decreases colPtr[rk + 1] - j
  {
    if j < colPtr[rk + 1] && rowIdx[j] != rkPre {
      SynapseLookupFindsFirst(values, colPtr, rowIdx, invIdx, rk, rkPre, j + 1);
    }
  }

  /** The scan of `get_synapse_<name>`. */
  method LookupSynapse(values: seq<real>, colPtr: seq<int>, rowIdx: seq<int>, invIdx: seq<int>, rk: int, rkPre: int)
    returns (r: Access<real>)
    ensures r == Synapse(values, colPtr, rowIdx, invIdx, rk, rkPre)
  {
    if !(0 <= rk && rk + 1 < |colPtr|) {
      return OutOfRange;
    }
    var j := colPtr[rk];
    while j < colPtr[rk + 1]
      invariant SynapseLookup(values, colPtr, rowIdx, invIdx, rk, rkPre, j) == Synapse(values, colPtr, rowIdx, invIdx, rk, rkPre)
      decreases colPtr[rk + 1] - j
    {
      if !(0 <= j < |rowIdx|) {
        return OutOfRange;
      }
      if rowIdx[j] == rkPre {
        if !(0 <= j < |invIdx| && 0 <= invIdx[j] < |values|) {
          return OutOfRange;
        }
        return Value(values[invIdx[j]]);
      }
      j := j + 1;
    }
    r := NoReturn;
  }

  // ---------------------------------------------------------------------------
  // The projection

  class CsrProjection {
    // LIL interface
    var postRanks: seq<int>
    // forward CSR and its device copies
    var rowPtr: seq<int>
    var gpuRowPtr: seq<int>
    var colIdx: seq<int>
    var gpuColIdx: seq<int>
    var nbSynapses: int
    // inverse CSR
    var colPtr: seq<int>
    var rowIdx: seq<int>
    var invIdx: seq<int>
    var invComputed: bool
    // weights; `wDirty` means the device copy is newer than the host copy
    var w: seq<real>
    var gpuW: seq<real>
    var wDirty: bool
    // event-driven bookkeeping
    var lastEvent: seq<int>
    var diagnostics: seq<Diagnostic>

    /** The declarations: empty vectors, no inverse yet, weights to be refreshed. The
        synapse count is not initialised by the C++ code and is a parameter here. */
    constructor (nbSynapses0: int)
      ensures postRanks == [] && rowPtr == [] && gpuRowPtr == [] && colIdx == [] && gpuColIdx == []
      ensures nbSynapses == nbSynapses0
      ensures colPtr == [] && rowIdx == [] && invIdx == [] && !invComputed
      ensures w == [] && gpuW == [] && wDirty
      ensures lastEvent == [] && diagnostics == []
    {
      postRanks, rowPtr, gpuRowPtr, colIdx, gpuColIdx := [], [], [], [], [];
      nbSynapses := nbSynapses0;
      colPtr, rowIdx, invIdx, invComputed := [], [], [], false;
      w, gpuW, wDirty := [], [], true;
      lastEvent, diagnostics := [], [];
    }

    /** `set_row_ptr`: the host vector and its device copy. */
    method SetRowPtr(rp: seq<int>)
      modifies this
      ensures rowPtr == rp && gpuRowPtr == rp
      ensures colIdx == old(colIdx) && gpuColIdx == old(gpuColIdx) && nbSynapses == old(nbSynapses)
      ensures postRanks == old(postRanks) && colPtr == old(colPtr) && rowIdx == old(rowIdx) && invIdx == old(invIdx)
      ensures invComputed == old(invComputed) && w == old(w) && gpuW == old(gpuW) && wDirty == old(wDirty)
      ensures lastEvent == old(lastEvent) && diagnostics == old(diagnostics)
    {
      rowPtr := rp;
      gpuRowPtr := rp;
    }

    /** `set_col_idx`: the host vector, its device copy, and the synapse count. */
    method SetColIdx(ci: seq<int>)
      modifies this
      ensures colIdx == ci && gpuColIdx == ci && nbSynapses == |ci|
      ensures rowPtr == old(rowPtr) && gpuRowPtr == old(gpuRowPtr)
      ensures postRanks == old(postRanks) && colPtr == old(colPtr) && rowIdx == old(rowIdx) && invIdx == old(invIdx)
      ensures invComputed == old(invComputed) && w == old(w) && gpuW == old(gpuW) && wDirty == old(wDirty)
      ensures lastEvent == old(lastEvent) && diagnostics == old(diagnostics)
    {
      colIdx := ci;
      nbSynapses := |ci|;
      gpuColIdx := ci;
    }

    /** `set_w_csr`: the host weights and their device copy; the refresh flag is kept. */
    method SetWCsr(values: seq<real>)
      modifies this
      ensures w == values && gpuW == values && wDirty == old(wDirty)
      ensures rowPtr == old(rowPtr) && gpuRowPtr == old(gpuRowPtr) && colIdx == old(colIdx) && gpuColIdx == old(gpuColIdx)
      ensures nbSynapses == old(nbSynapses) && postRanks == old(postRanks) && colPtr == old(colPtr)
      ensures rowIdx == old(rowIdx) && invIdx == old(invIdx) && invComputed == old(invComputed)
      ensures lastEvent == old(lastEvent) && diagnostics == old(diagnostics)
    {
      w := values;
      gpuW := values;
    }

    /** The event-driven wrapper: one last-event time per synapse, all -10000. */
    method InitLastEvent(numElements: nat)
      modifies this
      ensures |lastEvent| == numElements && forall i :: 0 <= i < numElements ==> lastEvent[i] == -10000
      ensures rowPtr == old(rowPtr) && gpuRowPtr == old(gpuRowPtr) && colIdx == old(colIdx) && gpuColIdx == old(gpuColIdx)
      ensures nbSynapses == old(nbSynapses) && postRanks == old(postRanks) && colPtr == old(colPtr)
      ensures rowIdx == old(rowIdx) && invIdx == old(invIdx) && invComputed == old(invComputed)
      ensures w == old(w) && gpuW == old(gpuW) && wDirty == old(wDirty) && diagnostics == old(diagnostics)
    {
      lastEvent := seq(numElements, _ => -10000);
    }

    /** `inverse_connectivity_matrix()`: computed at most once; an empty row pointer is
        reported and leaves everything else as it was; otherwise the inverse is built in
        two passes, the non-empty pre-synaptic ranks below `postSize` are appended to
        `post_ranks`, and a differing synapse count is reported. */
    method InverseConnectivityMatrix(postSize: int)
      requires !invComputed && |rowPtr| > 0 ==> RowsInBounds(rowPtr, colIdx)
      modifies this
      ensures rowPtr == old(rowPtr) && gpuRowPtr == old(gpuRowPtr) && colIdx == old(colIdx) && gpuColIdx == old(gpuColIdx)
      ensures nbSynapses == old(nbSynapses) && w == old(w) && gpuW == old(gpuW) && wDirty == old(wDirty)
      ensures lastEvent == old(lastEvent)
      ensures old(invComputed) ==>
        && postRanks == old(postRanks) && colPtr == old(colPtr) && rowIdx == old(rowIdx) && invIdx == old(invIdx)
        && invComputed && diagnostics == old(diagnostics)
      ensures !old(invComputed) && |rowPtr| == 0 ==>
        && postRanks == old(postRanks) && colPtr == old(colPtr) && rowIdx == old(rowIdx) && invIdx == old(invIdx)
        && !invComputed && diagnostics == old(diagnostics) + [NoRowPtr]
      ensures !old(invComputed) && |rowPtr| > 0 ==>
        var inv := Invert(rowPtr, colIdx, postSize);
        && postRanks == old(postRanks) + inv.keys
        && colPtr == inv.colPtr && rowIdx == Rows(inv.ents) && invIdx == Offs(inv.ents)
        && invComputed
        && diagnostics == old(diagnostics)
             + (if nbSynapses != |inv.ents| then [SynapseCountMismatch(nbSynapses, |inv.ents|)] else [])
    {
      if invComputed {
        return;
      }
      if |rowPtr| == 0 {
        diagnostics := diagnostics + [NoRowPtr];
        return;
      }
      BuildInverse(postSize);
    }

    /** The two passes, the report of a differing synapse count, and the flag. */
    method BuildInverse(postSize: int)
      requires |rowPtr| > 0 && RowsInBounds(rowPtr, colIdx)
      modifies this`postRanks, this`colPtr, this`rowIdx, this`invIdx, this`diagnostics, this`invComputed
      ensures var inv := Invert(rowPtr, colIdx, postSize);
        && postRanks == old(postRanks) + inv.keys
        && colPtr == inv.colPtr && rowIdx == Rows(inv.ents) && invIdx == Offs(inv.ents)
        && invComputed
        && diagnostics == old(diagnostics)
             + (if nbSynapses != |inv.ents| then [SynapseCountMismatch(nbSynapses, |inv.ents|)] else [])
    {
      var keys, ptr, rowList, offList, currOff := TwoPasses(rowPtr, colIdx, postSize);
      postRanks, colPtr, rowIdx, invIdx := postRanks + keys, ptr, rowList, offList;
      if nbSynapses != currOff {
        diagnostics := diagnostics + [SynapseCountMismatch(nbSynapses, currOff)];
      }
      invComputed := true;
    }

    /** The Cython wrapper's initialisation of a fresh projection: row pointer, column
        indices, inversion, weights. For a well-formed matrix whose pre-synaptic ranks lie
        below `postSize` nothing is reported and `_inv_idx` lists every synapse once. */
    method InitFromCsr(rowBegin: seq<int>, columnIndices: seq<int>, values: seq<real>, postSize: int)
      requires !invComputed
      requires |rowBegin| > 0 ==> RowsInBounds(rowBegin, columnIndices)
      modifies this
      ensures rowPtr == rowBegin && colIdx == columnIndices && nbSynapses == |columnIndices|
      ensures w == values && gpuW == values
      ensures WellFormed(rowBegin, columnIndices) && (forall s :: 0 <= s < |columnIndices| ==> 0 <= columnIndices[s] < postSize) ==>
        && invComputed && diagnostics == old(diagnostics)
        && |invIdx| == |columnIndices| && multiset(invIdx) == multiset(Range(|columnIndices|))
    {
      SetRowPtr(rowBegin);
      SetColIdx(columnIndices);
      InverseConnectivityMatrix(postSize);
      SetWCsr(values);
      if WellFormed(rowBegin, columnIndices) && (forall s :: 0 <= s < |columnIndices| ==> 0 <= columnIndices[s] < postSize) {
        InverseIsPermutation(rowBegin, columnIndices, postSize);
      }
    }

    /** `get_dendrite_w(rk)`: refreshes the host weights from the device when they are
        stale, then reads range rk of the inverse. */
    method GetDendriteW(rk: int) returns (r: Access<seq<real>>)
      requires wDirty ==> 0 <= nbSynapses <= |w| && nbSynapses <= |gpuW|
      modifies this
      ensures !wDirty
      ensures r == Dendrite(w, colPtr, invIdx, rk)
      ensures rowPtr == old(rowPtr) && gpuRowPtr == old(gpuRowPtr) && colIdx == old(colIdx) && gpuColIdx == old(gpuColIdx)
      ensures nbSynapses == old(nbSynapses) && postRanks == old(postRanks) && colPtr == old(colPtr)
      ensures rowIdx == old(rowIdx) && invIdx == old(invIdx) && invComputed == old(invComputed) && gpuW == old(gpuW)
      ensures lastEvent == old(lastEvent) && diagnostics == old(diagnostics)
      ensures w == (if old(wDirty) then Copy(old(w), gpuW, nbSynapses) else old(w))
    {
      RefreshW();
      r := GatherDendrite(w, colPtr, invIdx, rk);
    }

    /** The refresh both weight getters start with. */
    method RefreshW()
      requires wDirty ==> 0 <= nbSynapses <= |w| && nbSynapses <= |gpuW|
      modifies this
      ensures !wDirty
      ensures rowPtr == old(rowPtr) && gpuRowPtr == old(gpuRowPtr) && colIdx == old(colIdx) && gpuColIdx == old(gpuColIdx)
      ensures nbSynapses == old(nbSynapses) && postRanks == old(postRanks) && colPtr == old(colPtr)
      ensures rowIdx == old(rowIdx) && invIdx == old(invIdx) && invComputed == old(invComputed) && gpuW == old(gpuW)
      ensures lastEvent == old(lastEvent) && diagnostics == old(diagnostics)
      ensures w == (if old(wDirty) then Copy(old(w), gpuW, nbSynapses) else old(w))
    {
      if wDirty {
        w := Copy(w, gpuW, nbSynapses);
        wDirty := false;
      }
    }

    /** `get_w()` as generated: refreshes, then reads one dendrite per entry of
        `post_ranks`, passing the rank itself where `get_dendrite_w` expects a position
        in `_col_ptr`. */
    method GetW() returns (r: Access<seq<seq<real>>>)
      requires wDirty ==> 0 <= nbSynapses <= |w| && nbSynapses <= |gpuW|
      modifies this
      ensures !wDirty
      ensures r == Dendrites(w, colPtr, invIdx, postRanks)
      ensures rowPtr == old(rowPtr) && gpuRowPtr == old(gpuRowPtr) && colIdx == old(colIdx) && gpuColIdx == old(gpuColIdx)
      ensures nbSynapses == old(nbSynapses) && postRanks == old(postRanks) && colPtr == old(colPtr)
      ensures rowIdx == old(rowIdx) && invIdx == old(invIdx) && invComputed == old(invComputed) && gpuW == old(gpuW)
      ensures lastEvent == old(lastEvent) && diagnostics == old(diagnostics)
      ensures w == (if old(wDirty) then Copy(old(w), gpuW, nbSynapses) else old(w))
    {
      RefreshW();
      r := GatherAll(w, colPtr, invIdx, postRanks);
    }

    /** `get_w()` reading dendrite m for the m-th entry of `post_ranks`: the dendrites in
        the order of `post_ranks`. */
    method GetWByPosition() returns (r: Access<seq<seq<real>>>)
      requires wDirty ==> 0 <= nbSynapses <= |w| && nbSynapses <= |gpuW|
      modifies this
      ensures !wDirty
      ensures r == Dendrites(w, colPtr, invIdx, Range(|postRanks|))
      ensures rowPtr == old(rowPtr) && gpuRowPtr == old(gpuRowPtr) && colIdx == old(colIdx) && gpuColIdx == old(gpuColIdx)
      ensures nbSynapses == old(nbSynapses) && postRanks == old(postRanks) && colPtr == old(colPtr)
      ensures rowIdx == old(rowIdx) && invIdx == old(invIdx) && invComputed == old(invComputed) && gpuW == old(gpuW)
      ensures lastEvent == old(lastEvent) && diagnostics == old(diagnostics)
      ensures w == (if old(wDirty) then Copy(old(w), gpuW, nbSynapses) else old(w))
    {
      RefreshW();
      r := GatherAll(w, colPtr, invIdx, Range(|postRanks|));
    }
  }

  /** Pass 1 of `inverse_connectivity_matrix()`: for every row in order and every
      synapse of the row, the row and the offset are appended to the lists of the
      synapse's pre-synaptic rank. */
  /** Both passes of `inverse_connectivity_matrix`, on the host copies. */
  method TwoPasses(rowPtr: seq<int>, colIdx: seq<int>, postSize: int)
    returns (keys: seq<int>, colPtr: seq<int>, rowList: seq<int>, offList: seq<int>, currOff: int)
    requires |rowPtr| > 0 && RowsInBounds(rowPtr, colIdx)
    ensures var inv := Invert(rowPtr, colIdx, postSize);
      && keys == inv.keys && colPtr == inv.colPtr
      && rowList == Rows(inv.ents) && offList == Offs(inv.ents)
      && currOff == |inv.ents|
  {
    var rows, offs := FirstPass(rowPtr, colIdx);
    var starts;
    keys, starts, rowList, offList, currOff := SecondPass(rows, offs, rowPtr, colIdx, postSize);
    colPtr := starts + [currOff];
  }

  method FirstPass(rowPtr: seq<int>, colIdx: seq<int>) returns (rows: map<int, seq<int>>, offs: map<int, seq<int>>)
    requires |rowPtr| > 0 && RowsInBounds(rowPtr, colIdx)
    ensures OffsIn(AllSyns(rowPtr), |colIdx|)
    ensures Grouping(rows, offs, AllSyns(rowPtr), colIdx)
  {
    rows, offs := map[], map[];
    var i := 0;
    while i < |rowPtr| - 1
      invariant 0 <= i <= |rowPtr| - 1
      invariant OffsIn(Flat(rowPtr, i), |colIdx|)
      invariant Grouping(rows, offs, Flat(rowPtr, i), colIdx)
    {
      ScanRowGroups(rowPtr, colIdx, i, rows, offs);
      rows, offs := ScanRow(rowPtr, colIdx, i, rows, offs);
      i := i + 1;
    }
  }

  /** The inner loop of pass 1 over the synapses of row i. */
  method ScanRow(rowPtr: seq<int>, colIdx: seq<int>, i: int, rows0: map<int, seq<int>>, offs0: map<int, seq<int>>)
    returns (rows: map<int, seq<int>>, offs: map<int, seq<int>>)
    requires RowsInBounds(rowPtr, colIdx) && 0 <= i < NbRows(rowPtr)
    ensures OffsIn(RowSyns(rowPtr, i), |colIdx|)
    ensures (rows, offs) == Scan(RowSyns(rowPtr, i), colIdx, rows0, offs0)
  {
    RowInBounds(rowPtr, colIdx, i);
    ghost var row := RowSyns(rowPtr, i);
    rows, offs := rows0, offs0;
    var rowBegin, rowEnd := rowPtr[i], rowPtr[i + 1];
    var syn := rowBegin;
    while syn < rowEnd
      invariant rowBegin <= syn && (syn <= rowEnd || syn == rowBegin)
      invariant syn - rowBegin <= |row|
      invariant OffsIn(row[..syn - rowBegin], |colIdx|)
      invariant (rows, offs) == Scan(row[..syn - rowBegin], colIdx, rows0, offs0)
    {
      assert row[..syn - rowBegin + 1] == row[..syn - rowBegin] + [Syn(i, syn)];
      var c := colIdx[syn];
      rows := rows[c := Get(rows, c) + [i]];
      offs := offs[c := Get(offs, c) + [syn]];
      syn := syn + 1;
    }
    assert row[..syn - rowBegin] == row;
  }

  /** The two pass-1 maps after the synapses `es` have been visited in order, starting
      from `rows` and `offs`. */
  function Scan(es: seq<Syn>, colIdx: seq<int>, rows: map<int, seq<int>>, offs: map<int, seq<int>>)
    : (r: (map<int, seq<int>>, map<int, seq<int>>))
    requires OffsIn(es, |colIdx|)
  {
    if es == [] then (rows, offs)
    else
      var p, e := es[..|es| - 1], es[|es| - 1];
      assert es == p + [e];
      var prev := Scan(p, colIdx, rows, offs);
      var c := colIdx[e.off];
      (prev.0[c := Get(prev.0, c) + [e.row]], prev.1[c := Get(prev.1, c) + [e.off]])
  }

  /** The synapses of row i lie within the column-index array. */
  lemma RowInBounds(rowPtr: seq<int>, colIdx: seq<int>, i: int)
    requires RowsInBounds(rowPtr, colIdx) && 0 <= i < NbRows(rowPtr)
    ensures OffsIn(RowSyns(rowPtr, i), |colIdx|)
  {
    forall e | e in RowSyns(rowPtr, i)
      ensures 0 <= e.off < |colIdx|
    {
      var t :| 0 <= t < |RowSyns(rowPtr, i)| && RowSyns(rowPtr, i)[t] == e;
    }
  }

  /** Scanning row i extends the grouping of the rows before i to the rows up to i. */
  lemma ScanRowGroups(rowPtr: seq<int>, colIdx: seq<int>, i: int, rows: map<int, seq<int>>, offs: map<int, seq<int>>)
    requires RowsInBounds(rowPtr, colIdx) && 0 <= i < NbRows(rowPtr)
    requires OffsIn(Flat(rowPtr, i), |colIdx|) && Grouping(rows, offs, Flat(rowPtr, i), colIdx)
    ensures OffsIn(RowSyns(rowPtr, i), |colIdx|) && OffsIn(Flat(rowPtr, i + 1), |colIdx|)
    ensures var r := Scan(RowSyns(rowPtr, i), colIdx, rows, offs);
      Grouping(r.0, r.1, Flat(rowPtr, i + 1), colIdx)
  {
    RowInBounds(rowPtr, colIdx, i);
    ScanGroups(Flat(rowPtr, i), RowSyns(rowPtr, i), colIdx, rows, offs);
    assert Flat(rowPtr, i + 1) == Flat(rowPtr, i) + RowSyns(rowPtr, i);
  }

  /** Scanning `es` after `done` groups the synapses of `done + es` by key. */
  lemma ScanGroups(done: seq<Syn>, es: seq<Syn>, colIdx: seq<int>, rows: map<int, seq<int>>, offs: map<int, seq<int>>)
    requires OffsIn(done, |colIdx|) && OffsIn(es, |colIdx|) && Grouping(rows, offs, done, colIdx)
    ensures OffsIn(done + es, |colIdx|)
    ensures var r := Scan(es, colIdx, rows, offs); Grouping(r.0, r.1, done + es, colIdx)
  {
    var r := Scan(es, colIdx, rows, offs);
    ColumnAppend(done, es, colIdx, 0);
    forall k
      ensures Get(r.0, k) == Rows(Column(done + es, colIdx, k))
      ensures Get(r.1, k) == Offs(Column(done + es, colIdx, k))
    {
      ScanKey(es, colIdx, rows, offs, k);
      ColumnAppend(done, es, colIdx, k);
      RowsAppend(Column(done, colIdx, k), Column(es, colIdx, k));
      OffsAppend(Column(done, colIdx, k), Column(es, colIdx, k));
    }
  }

  /** Scanning `es` appends, to the lists of each key k, the rows and offsets of the
      synapses of `es` whose column is k. */
  lemma {:induction false} ScanKey(es: seq<Syn>, colIdx: seq<int>, rows: map<int, seq<int>>, offs: map<int, seq<int>>, k: int)
    requires OffsIn(es, |colIdx|)
    ensures var r := Scan(es, colIdx, rows, offs); var c := Column(es, colIdx, k);
      Get(r.0, k) == Get(rows, k) + Rows(c) && Get(r.1, k) == Get(offs, k) + Offs(c)
  {
    if es != [] {
      var p, e := es[..|es| - 1], es[|es| - 1];
      assert es == p + [e];
      ScanKey(p, colIdx, rows, offs, k);
      var prev := Scan(p, colIdx, rows, offs);
      var c0 := Column(p, colIdx, k);
      SnocFields(c0, e);
      KeyUpdate(prev.0, Get(rows, k), Rows(c0), colIdx[e.off], k, e.row);
      KeyUpdate(prev.1, Get(offs, k), Offs(c0), colIdx[e.off], k, e.off);
    }
  }

  /** Appending x to the list of key c leaves every other key's list alone. */
  lemma KeyUpdate(m: map<int, seq<int>>, base: seq<int>, tail: seq<int>, c: int, k: int, x: int)
    requires Get(m, k) == base + tail
    ensures Get(m[c := Get(m, c) + [x]], k) == base + (if c == k then tail + [x] else tail)
  {
    if c == k {
      assert (base + tail) + [x] == base + (tail + [x]);
    }
  }

  /** Key k's part of a concatenation is key k's part of each half, in order. */
  lemma {:induction false} ColumnAppend(a: seq<Syn>, b: seq<Syn>, colIdx: seq<int>, k: int)
    requires OffsIn(a, |colIdx|) && OffsIn(b, |colIdx|)
    ensures OffsIn(a + b, |colIdx|)
    ensures Column(a + b, colIdx, k) == Column(a, colIdx, k) + Column(b, colIdx, k)
  {
    if b == [] {
      assert a + b == a;
    } else {
      var p, e := b[..|b| - 1], b[|b| - 1];
      assert b == p + [e];
      assert a + b == (a + p) + [e];
      ColumnAppend(a, p, colIdx, k);
      ColumnSnoc(a + p, colIdx, e, k);
      ColumnSnoc(p, colIdx, e, k);
    }
  }

  /** Pass 2 of `inverse_connectivity_matrix()`: for every key below `postSize` in
      increasing order whose lists are not empty, the key (for `post_ranks`), the running
      offset (for `_col_ptr`) and the lists (for `_row_idx` and `_inv_idx`) are
      appended. */
  method SecondPass(rows: map<int, seq<int>>, offs: map<int, seq<int>>, rowPtr: seq<int>, colIdx: seq<int>, postSize: int)
    returns (keys: seq<int>, starts: seq<int>, rowList: seq<int>, offList: seq<int>, currOff: int)
    requires RowsInBounds(rowPtr, colIdx)
    requires OffsIn(AllSyns(rowPtr), |colIdx|) && Grouping(rows, offs, AllSyns(rowPtr), colIdx)
    ensures var inv := Invert(rowPtr, colIdx, postSize);
      && keys == inv.keys && starts + [currOff] == inv.colPtr
      && rowList == Rows(inv.ents) && offList == Offs(inv.ents)
      && currOff == |inv.ents|
  {
    ghost var es := AllSyns(rowPtr);
    keys, starts, rowList, offList := [], [], [], [];
    currOff := 0;
    var i := 0;
    while i < postSize
      invariant 0 <= i && (i <= postSize || i == 0)
      invariant keys == Pass2(es, colIdx, i).keys && starts == Pass2(es, colIdx, i).starts
      invariant rowList == Rows(Pass2(es, colIdx, i).ents) && offList == Offs(Pass2(es, colIdx, i).ents)
      invariant currOff == |Pass2(es, colIdx, i).ents|
    {
      KeyStep(rows, offs, es, colIdx, i);
      var list := Get(rows, i);
      if list != [] {
        keys := keys + [i];
        starts := starts + [currOff];
        rowList := rowList + list;
        offList := offList + Get(offs, i);
        currOff := currOff + |list|;
      }
      i := i + 1;
    }
  }

  /** The loop of `get_<name>()` and `get_w()`: one dendrite per rank, in order. */
  method GatherAll(values: seq<real>, colPtr: seq<int>, invIdx: seq<int>, ranks: seq<int>) returns (r: Access<seq<seq<real>>>)
    ensures r == Dendrites(values, colPtr, invIdx, ranks)
  {
    var res: seq<seq<real>> := [];
    var n := 0;
    while n < |ranks|
      invariant 0 <= n <= |ranks|
      invariant Dendrites(values, colPtr, invIdx, ranks[..n]) == Value(res)
    {
      var d := GatherDendrite(values, colPtr, invIdx, ranks[n]);
      if !d.Value? {
        assert !Dendrites(values, colPtr, invIdx, ranks).Value?;
        return OutOfRange;
      }
      assert ranks[..n + 1][..n] == ranks[..n];
      res := res + [d.value];
      n := n + 1;
    }
    assert ranks[..n] == ranks;
    r := Value(res);
  }

  // ---------------------------------------------------------------------------
  // Pass-1 bookkeeping

  /** `std::map::operator[]` on a read: the stored list, or an empty one. */
  function Get(m: map<int, seq<int>>, k: int): seq<int> {
    if k in m then m[k] else []
  }

  /** The two pass-1 maps hold, for every key, the rows and the offsets of the visited
      synapses of that key. */
  ghost predicate Grouping(rows: map<int, seq<int>>, offs: map<int, seq<int>>, done: seq<Syn>, colIdx: seq<int>)
    requires OffsIn(done, |colIdx|)
  {
    forall k :: Get(rows, k) == Rows(Column(done, colIdx, k)) && Get(offs, k) == Offs(Column(done, colIdx, k))
  }

  lemma ColumnSnoc(done: seq<Syn>, colIdx: seq<int>, e: Syn, k: int)
    requires OffsIn(done, |colIdx|) && 0 <= e.off < |colIdx|
    ensures OffsIn(done + [e], |colIdx|)
    ensures Column(done + [e], colIdx, k) == Column(done, colIdx, k) + (if colIdx[e.off] == k then [e] else [])
  {
    var d := done + [e];
    assert d[..|d| - 1] == done;
  }

  lemma SnocFields(x: seq<Syn>, e: Syn)
    ensures Rows(x + [e]) == Rows(x) + [e.row] && Offs(x + [e]) == Offs(x) + [e.off]
  {
  }

  lemma KeyStep(rows: map<int, seq<int>>, offs: map<int, seq<int>>, es: seq<Syn>, colIdx: seq<int>, i: int)
    requires OffsIn(es, |colIdx|) && Grouping(rows, offs, es, colIdx) && 0 <= i
    ensures var p := Pass2(es, colIdx, i); var c := Column(es, colIdx, i);
      && (Get(rows, i) != [] <==> c != [])
      && Get(rows, i) == Rows(c) && Get(offs, i) == Offs(c)
      && Pass2(es, colIdx, i + 1) == (if c != [] then Grouped(p.keys + [i], p.starts + [|p.ents|], p.ents + c) else p)
      && Rows(p.ents + c) == Rows(p.ents) + Rows(c)
      && Offs(p.ents + c) == Offs(p.ents) + Offs(c)
  {
    var p := Pass2(es, colIdx, i);
    var c := Column(es, colIdx, i);
    OffsAppend(p.ents, c);
    RowsAppend(p.ents, c);
  }

  lemma RowsAppend(a: seq<Syn>, b: seq<Syn>)
    ensures Rows(a + b) == Rows(a) + Rows(b)
  {
  }

  // ---------------------------------------------------------------------------
  // Further attributes

  /** A local (per-synapse) attribute: host vector in forward order, device copy, and
      a flag meaning the host copy is newer. */
  class CsrLocalAttribute {
    var values: seq<real>
    var gpu: seq<real>
    var dirty: bool

    constructor (gpu0: seq<real>)
      ensures values == [] && gpu == gpu0 && !dirty
    {
      values, gpu, dirty := [], gpu0, false;
    }

    /** `attribute_cpp_init` (local): one initial value per synapse. */
    method Init(proj: CsrProjection, init: real)
      requires proj.nbSynapses >= 0
      modifies this
      ensures |values| == proj.nbSynapses && forall i :: 0 <= i < |values| ==> values[i] == init
      ensures gpu == old(gpu) && dirty == old(dirty)
    {
      values := seq(proj.nbSynapses, _ => init);
    }

    /** `get_dendrite_<name>(rk)`. */
    method GetDendrite(proj: CsrProjection, rk: int) returns (r: Access<seq<real>>)
      ensures r == Dendrite(values, proj.colPtr, proj.invIdx, rk)
    {
      r := GatherDendrite(values, proj.colPtr, proj.invIdx, rk);
    }

    /** `get_<name>()` as generated: one dendrite per entry of `post_ranks`, indexed by
        the rank itself. */
    method GetAll(proj: CsrProjection) returns (r: Access<seq<seq<real>>>)
      ensures r == Dendrites(values, proj.colPtr, proj.invIdx, proj.postRanks)
    {
      r := GatherAll(values, proj.colPtr, proj.invIdx, proj.postRanks);
    }

    /** `get_synapse_<name>(rk_post, rk_pre)`: the value of the first entry of range
        `rk_post` whose row is `rk_pre`; no return value on a miss. */
    method GetSynapse(proj: CsrProjection, rkPost: int, rkPre: int) returns (r: Access<real>)
      ensures r == Synapse(values, proj.colPtr, proj.rowIdx, proj.invIdx, rkPost, rkPre)
    {
      r := LookupSynapse(values, proj.colPtr, proj.rowIdx, proj.invIdx, rkPost, rkPre);
    }

    /** `set_<name>`, `set_dendrite_<name>` and `set_synapse_<name>` have empty bodies. */
    method SetIgnored()
      ensures values == old(values) && gpu == old(gpu) && dirty == old(dirty)
    {
    }

    /** `host_to_device` (local): copies `_nb_synapses` values only when the host copy is
        newer, and clears the flag. */
    method HostToDevice(proj: CsrProjection)
      requires dirty ==> 0 <= proj.nbSynapses <= |values| && proj.nbSynapses <= |gpu|
      modifies this
      ensures !dirty && values == old(values)
      ensures gpu == (if old(dirty) then Copy(old(gpu), values, proj.nbSynapses) else old(gpu))
    {
      if dirty {
        gpu := Copy(gpu, values, proj.nbSynapses);
        dirty := false;
      }
    }

    /** `device_to_host` (local): copies `_nb_synapses` values unconditionally. */
    method DeviceToHost(proj: CsrProjection)
      requires 0 <= proj.nbSynapses <= |values| && proj.nbSynapses <= |gpu|
      modifies this
      ensures gpu == old(gpu) && dirty == old(dirty)
      ensures values == Copy(old(values), gpu, proj.nbSynapses)
    {
      values := Copy(values, gpu, proj.nbSynapses);
    }
  }

  /** A global (per-dendrite) attribute: one value per entry of `post_ranks`. */
  class CsrGlobalAttribute {
    var values: seq<real>
    var gpu: seq<real>
    var dirty: bool

    constructor (gpu0: seq<real>)
      ensures values == [] && gpu == gpu0 && !dirty
    {
      values, gpu, dirty := [], gpu0, false;
    }

    /** `attribute_cpp_init` (global): one initial value per entry of `post_ranks`. */
    method Init(proj: CsrProjection, init: real)
      modifies this
      ensures |values| == |proj.postRanks| && forall i :: 0 <= i < |values| ==> values[i] == init
      ensures gpu == old(gpu) && dirty == old(dirty)
    {
      values := seq(|proj.postRanks|, _ => init);
    }

    /** `get_<name>()`. */
    method Get() returns (r: seq<real>)
      ensures r == values
    {
      r := values;
    }

    /** `get_dendrite_<name>(rk)`: element rk. */
    method GetDendrite(rk: int) returns (r: Access<real>)
      ensures r.Value? <==> 0 <= rk < |values|
      ensures r.Value? ==> r.value == values[rk]
      ensures r.OutOfRange? <==> !r.Value?
    {
      if 0 <= rk < |values| {
        r := Value(values[rk]);
      } else {
        r := OutOfRange;
      }
    }

    /** `set_<name>(value)`: assigns the vector; the flag is not touched. */
    method Set(v: seq<real>)
      modifies this
      ensures values == v && gpu == old(gpu) && dirty == old(dirty)
    {
      values := v;
    }

    /** `set_dendrite_<name>(rk, value)`: assigns element rk; the flag is not touched. */
    method SetDendrite(rk: int, v: real)
      requires 0 <= rk < |values|
      modifies this
      ensures values == old(values)[rk := v] && gpu == old(gpu) && dirty == old(dirty)
    {
      values := values[rk := v];
    }

    /** `host_to_device` (global): copies one value per entry of `post_ranks` when the
        host copy is newer, and clears the flag. */
    method HostToDevice(proj: CsrProjection)
      requires dirty ==> |proj.postRanks| <= |values| && |proj.postRanks| <= |gpu|
      modifies this
      ensures !dirty && values == old(values)
      ensures gpu == (if old(dirty) then Copy(old(gpu), values, |proj.postRanks|) else old(gpu))
    {
      if dirty {
        gpu := Copy(gpu, values, |proj.postRanks|);
        dirty := false;
      }
    }

    /** `device_to_host` (global): copies one value per entry of `post_ranks`
        unconditionally. */
    method DeviceToHost(proj: CsrProjection)
      requires |proj.postRanks| <= |values| && |proj.postRanks| <= |gpu|
      modifies this
      ensures gpu == old(gpu) && dirty == old(dirty)
      ensures values == Copy(old(values), gpu, |proj.postRanks|)
    {
      values := Copy(values, gpu, |proj.postRanks|);
    }
  }

  // ---------------------------------------------------------------------------
  // Reading the weights

  /** With a matrix where pre-synaptic ranks 1.. exist but rank 0 has no synapse, the
      generated `get_w` reads past `_col_ptr`: two post neurons, the first receiving one
      synapse from pre neuron 1, give `post_ranks == [1]` and `_col_ptr == [0, 1]`, and the
      dendrite of rank 1 needs `_col_ptr[2]`. Reading by position gives the one weight. */
  lemma GetWReadsPastColPtr(v: real)
    ensures var inv := Invert([0, 1, 1], [1], 2);
      && inv.keys == [1] && inv.colPtr == [0, 1]
      && Dendrites([v], inv.colPtr, Offs(inv.ents), inv.keys) == OutOfRange
      && Dendrites([v], inv.colPtr, Offs(inv.ents), Range(|inv.keys|)) == Value([[v]])
  {
    OneSynapseFromRankOne();
    assert Offs([Syn(0, 0)]) == [0];
    assert Range(1) == [0];
    OneWeightRead(v);
  }

  /** The reads of `get_w` over the inverse of one synapse at offset 0: by rank 1 past the
      end of `_col_ptr`, by position 0 the one weight. */
  lemma OneWeightRead(v: real)
    ensures Dendrites([v], [0, 1], [0], [1]) == OutOfRange
    ensures Dendrites([v], [0, 1], [0], [0]) == Value([[v]])
  {
    assert Dendrite([v], [0, 1], [0], 1) == OutOfRange;
    assert Gathered([v], [0], 0, 1).value == [v];
    assert Dendrite([v], [0, 1], [0], 0) == Value([v]);
    var r := Dendrites([v], [0, 1], [0], [0]);
    assert r.Value? && |r.value| == 1 && r.value[0] == [v];
    assert r.value == [[v]];
  }

  /** The inverse of two post neurons (post size 2), the first receiving one synapse from
      pre neuron 1. */
  lemma OneSynapseFromRankOne()
    ensures Invert([0, 1, 1], [1], 2) == Inverse([1], [0, 1], [Syn(0, 0)])
  {
    var es, colIdx := [Syn(0, 0)], [1];
    OneSynapseOfTwoRows();
    assert Pass2(es, colIdx, 1) == Grouped([], [], []);
    assert Pass2(es, colIdx, 2) == Grouped([1], [0], es);
  }

  /** Reading by position, dendrite m of `get_w` holds the weights of the synapses of
      pre-synaptic rank `post_ranks[m]` in forward order, for every m; the whole read is
      defined when the weight vector covers the synapses. */
  lemma GetWByPositionReadsColumns(rowPtr: seq<int>, colIdx: seq<int>, bound: int, values: seq<real>)
    requires RowsInBounds(rowPtr, colIdx) && |colIdx| <= |values|
    ensures OffsIn(AllSyns(rowPtr), |colIdx|)
    ensures var inv := Invert(rowPtr, colIdx, bound);
      var r := Dendrites(values, inv.colPtr, Offs(inv.ents), Range(|inv.keys|));
      && r.Value? && |r.value| == |inv.keys|
      && forall m :: 0 <= m < |inv.keys| ==>
           (forall e :: e in Column(AllSyns(rowPtr), colIdx, inv.keys[m]) ==> 0 <= e.off < |values|)
           && r.value[m] == ValuesOf(values, Column(AllSyns(rowPtr), colIdx, inv.keys[m]))
  {
    AllSynsInBounds(rowPtr, colIdx, NbRows(rowPtr));
    var inv := Invert(rowPtr, colIdx, bound);
    forall m | 0 <= m < |inv.keys|
      ensures (forall e :: e in Column(AllSyns(rowPtr), colIdx, inv.keys[m]) ==> 0 <= e.off < |values|)
      ensures Dendrite(values, inv.colPtr, Offs(inv.ents), Range(|inv.keys|)[m])
           == Value(ValuesOf(values, Column(AllSyns(rowPtr), colIdx, inv.keys[m])))
    {
      DendriteOfInverse(rowPtr, colIdx, bound, values, m);
    }
  }
}
