/** The inverse of a CSR connectivity as computed by the two-pass algorithm of the CUDA
    CSR projection: the forward matrix has one row per post-synaptic neuron (`_row_ptr`)
    and the pre-synaptic rank of every synapse (`_col_idx`); the inverse groups the
    synapses by pre-synaptic rank (`_col_ptr`), keeping for each the post-synaptic row
    (`_row_idx`) and the forward offset (`_inv_idx`). This module states what the
    algorithm computes, as functions on sequences, and proves its properties. */
module CsrInverse {

  /** A synapse of the forward matrix: its row (post-synaptic rank) and its offset. */
  datatype Syn = Syn(row: int, off: int)

  /** The number of rows a row-pointer array describes. */
  function NbRows(rowPtr: seq<int>): nat {
    if |rowPtr| == 0 then 0 else |rowPtr| - 1
  }

  /** Every non-empty row lies within the column-index array: what the first pass needs
      to read `_col_idx` safely. */
  predicate RowsInBounds(rowPtr: seq<int>, colIdx: seq<int>) {
    forall i :: 0 <= i < NbRows(rowPtr) && rowPtr[i] < rowPtr[i + 1] ==>
      0 <= rowPtr[i] && rowPtr[i + 1] <= |colIdx|
  }

  /** A well-formed CSR matrix: the rows start at 0, do not decrease and end at the
      number of synapses. */
  predicate WellFormed(rowPtr: seq<int>, colIdx: seq<int>) {
    && |rowPtr| >= 1
    && rowPtr[0] == 0
    && (forall i :: 0 <= i < |rowPtr| - 1 ==> rowPtr[i] <= rowPtr[i + 1])
    && rowPtr[|rowPtr| - 1] == |colIdx|
  }

  function RowLength(rowPtr: seq<int>, i: int): nat
    requires 0 <= i < NbRows(rowPtr)
  {
    if rowPtr[i] < rowPtr[i + 1] then rowPtr[i + 1] - rowPtr[i] else 0
  }

  /** The synapses of row i, in offset order. */
  function RowSyns(rowPtr: seq<int>, i: int): (r: seq<Syn>)
    requires 0 <= i < NbRows(rowPtr)
    ensures |r| == RowLength(rowPtr, i)
    ensures forall t :: 0 <= t < |r| ==> r[t] == Syn(i, rowPtr[i] + t)
  {
    seq(RowLength(rowPtr, i), t => Syn(i, rowPtr[i] + t))
  }

  /** The synapses of rows 0..m-1 in the order the first pass visits them. */
  function Flat(rowPtr: seq<int>, m: int): (r: seq<Syn>)
    requires 0 <= m <= NbRows(rowPtr)
  {
    if m == 0 then [] else Flat(rowPtr, m - 1) + RowSyns(rowPtr, m - 1)
  }

  /** All synapses of the forward matrix in visiting order. */
  function AllSyns(rowPtr: seq<int>): seq<Syn> {
    Flat(rowPtr, NbRows(rowPtr))
  }

  predicate OffsIn(es: seq<Syn>, n: int) {
    forall e :: e in es ==> 0 <= e.off < n
  }

  /** The visited synapses of pre-synaptic rank k, in visiting order: what the first pass
      appends to the lists of key k. */
  function Column(es: seq<Syn>, colIdx: seq<int>, k: int): (r: seq<Syn>)
    requires OffsIn(es, |colIdx|)
    ensures |r| <= |es|
  {
    if es == [] then []
    else
      var p := es[..|es| - 1];
      var e := es[|es| - 1];
      assert es == p + [e];
      if colIdx[e.off] == k then Column(p, colIdx, k) + [e] else Column(p, colIdx, k)
  }

  /** A synapse is in key k's list exactly when it was visited and its column is k. */
  lemma {:induction false} ColumnMembers(es: seq<Syn>, colIdx: seq<int>, k: int)
    requires OffsIn(es, |colIdx|)
    ensures forall e :: e in Column(es, colIdx, k) <==> e in es && colIdx[e.off] == k
  {
    if es != [] {
      var p := es[..|es| - 1];
      assert es == p + [es[|es| - 1]];
      ColumnMembers(p, colIdx, k);
    }
  }

  function Rows(es: seq<Syn>): (r: seq<int>)
    ensures |r| == |es|
    ensures forall j :: 0 <= j < |es| ==> r[j] == es[j].row
  {
    if es == [] then [] else Rows(es[..|es| - 1]) + [es[|es| - 1].row]
  }

  function Offs(es: seq<Syn>): (r: seq<int>)
    ensures |r| == |es|
    ensures forall j :: 0 <= j < |es| ==> r[j] == es[j].off
  {
    if es == [] then [] else Offs(es[..|es| - 1]) + [es[|es| - 1].off]
  }

  /** The state of the second pass after keys 0..n-1: the non-empty keys, their start
      offsets, and the concatenated synapses. */
  datatype Grouped = Grouped(keys: seq<int>, starts: seq<int>, ents: seq<Syn>)

  function Pass2(es: seq<Syn>, colIdx: seq<int>, n: int): (r: Grouped)
    requires OffsIn(es, |colIdx|)
    ensures |r.keys| == |r.starts|
    decreases if n < 0 then 0 else n
  {
    if n <= 0 then Grouped([], [], [])
    else
      var p := Pass2(es, colIdx, n - 1);
      var c := Column(es, colIdx, n - 1);
      if c != [] then Grouped(p.keys + [n - 1], p.starts + [|p.ents|], p.ents + c) else p
  }

  /** The inverse as the algorithm leaves it: the non-empty keys (appended to
      `post_ranks`), `_col_ptr` with its sentinel, and the synapses whose rows and
      offsets are `_row_idx` and `_inv_idx`. */
  datatype Inverse = Inverse(keys: seq<int>, colPtr: seq<int>, ents: seq<Syn>)

  function Invert(rowPtr: seq<int>, colIdx: seq<int>, bound: int): (r: Inverse)
    requires RowsInBounds(rowPtr, colIdx)
  {
    AllSynsInBounds(rowPtr, colIdx, NbRows(rowPtr));
    var g := Pass2(AllSyns(rowPtr), colIdx, bound);
    Inverse(g.keys, g.starts + [|g.ents|], g.ents)
  }

  // ---------------------------------------------------------------------------
  // The first pass

  /** Every visited synapse lies within its row and within the column-index array. */
  lemma {:induction false} AllSynsInBounds(rowPtr: seq<int>, colIdx: seq<int>, m: int)
    requires RowsInBounds(rowPtr, colIdx) && 0 <= m <= NbRows(rowPtr)
    ensures OffsIn(Flat(rowPtr, m), |colIdx|)
    ensures forall e :: e in Flat(rowPtr, m) ==>
      0 <= e.row < m && rowPtr[e.row] <= e.off < rowPtr[e.row + 1]
  {
    if m > 0 {
      AllSynsInBounds(rowPtr, colIdx, m - 1);
      forall e | e in RowSyns(rowPtr, m - 1)
        ensures 0 <= e.off < |colIdx| && e.row == m - 1 && rowPtr[e.row] <= e.off < rowPtr[e.row + 1]
      {
        var t :| 0 <= t < |RowSyns(rowPtr, m - 1)| && RowSyns(rowPtr, m - 1)[t] == e;
      }
    }
  }

  /** The first pass visits rows in increasing order and, within a row, offsets in
      increasing order. */
  lemma {:induction false} FlatIsOrdered(rowPtr: seq<int>, m: int)
    requires 0 <= m <= NbRows(rowPtr)
    ensures Ordered(Flat(rowPtr, m))
    ensures forall e :: e in Flat(rowPtr, m) ==> 0 <= e.row < m
  {
    if m > 0 {
      FlatIsOrdered(rowPtr, m - 1);
      var p := Flat(rowPtr, m - 1);
      var q := RowSyns(rowPtr, m - 1);
      var f := Flat(rowPtr, m);
      assert f == p + q;
      forall a, b | 0 <= a < b < |f|
        ensures Before(f[a], f[b])
      {
        if b < |p| {
          assert f[a] == p[a] && f[b] == p[b];
        } else if a < |p| {
          assert f[a] == p[a] && p[a] in p;
          assert f[b] == q[b - |p|];
        } else {
          assert f[a] == q[a - |p|] && f[b] == q[b - |p|];
        }
      }
      forall e | e in f ensures 0 <= e.row < m {
        if e !in p {
          var t :| 0 <= t < |q| && q[t] == e;
        }
      }
    }
  }

  /** For a well-formed matrix the visited offsets are exactly 0, 1, ..., rowPtr[m]-1. */
  lemma {:induction false} FlatOffsets(rowPtr: seq<int>, colIdx: seq<int>, m: int)
    requires WellFormed(rowPtr, colIdx) && 0 <= m <= NbRows(rowPtr)
    ensures 0 <= rowPtr[m] && Offs(Flat(rowPtr, m)) == Range(rowPtr[m])
  {
    if m > 0 {
      FlatOffsets(rowPtr, colIdx, m - 1);
      var p := Flat(rowPtr, m - 1);
      var q := RowSyns(rowPtr, m - 1);
      var f := Flat(rowPtr, m);
      assert f == p + q;
      OffsAppend(p, q);
      assert rowPtr[m - 1] <= rowPtr[m];
      assert |Offs(p)| == rowPtr[m - 1] && |q| == rowPtr[m] - rowPtr[m - 1];
      forall t | 0 <= t < rowPtr[m] ensures Offs(f)[t] == t {
        if t < |p| {
          assert Offs(f)[t] == Offs(p)[t];
        } else {
          assert Offs(f)[t] == Offs(q)[t - |p|] == q[t - |p|].off;
        }
      }
      assert Offs(f) == Range(rowPtr[m]);
    }
    else {
      assert rowPtr[0] == 0;
    }
  }

  lemma {:induction false} OffsAppend(a: seq<Syn>, b: seq<Syn>)
    ensures Offs(a + b) == Offs(a) + Offs(b)
  {
  }

  // ---------------------------------------------------------------------------
  // The second pass

  /** The end of key m's range: the next key's start, or the list length for the last. */
  function End(g: Grouped, m: int): int
    requires 0 <= m < |g.keys| == |g.starts|
  {
    if m + 1 < |g.keys| then g.starts[m + 1] else |g.ents|
  }

  /** The keys ascend strictly below the bound, the starts begin at 0 and do not
      decrease, and the synapse list is empty exactly when no key was found. */
  lemma {:induction false} Pass2Shape(es: seq<Syn>, colIdx: seq<int>, n: int)
    requires OffsIn(es, |colIdx|)
    ensures var g := Pass2(es, colIdx, n);
      && (forall m :: 0 <= m < |g.keys| ==> 0 <= g.keys[m] < n)
      && (forall m1, m2 :: 0 <= m1 < m2 < |g.keys| ==> g.keys[m1] < g.keys[m2])
      && (|g.keys| == 0 <==> g.ents == [])
      && (|g.starts| > 0 ==> g.starts[0] == 0)
      && (forall m :: 0 <= m < |g.starts| ==> g.starts[m] <= |g.ents|)
      && (forall m :: 0 <= m < |g.starts| - 1 ==> g.starts[m] <= g.starts[m + 1])
    decreases if n < 0 then 0 else n
  {
    if n > 0 {
      Pass2Shape(es, colIdx, n - 1);
    }
  }

  /** Each key's range of the synapse list holds exactly the synapses of that key. */
  predicate GroupedRanges(g: Grouped, es: seq<Syn>, colIdx: seq<int>)
    requires OffsIn(es, |colIdx|)
  {
    && |g.keys| == |g.starts|
    && forall m {:trigger g.keys[m]} :: 0 <= m < |g.keys| ==>
         && 0 <= g.starts[m] <= End(g, m) <= |g.ents|
         && g.ents[g.starts[m]..End(g, m)] == Column(es, colIdx, g.keys[m])
  }

  /** Each key's range of the synapse list holds exactly the synapses of that key, in
      visiting order. */
  lemma {:induction false} Pass2Ranges(es: seq<Syn>, colIdx: seq<int>, n: int)
    requires OffsIn(es, |colIdx|)
    ensures GroupedRanges(Pass2(es, colIdx, n), es, colIdx)
    decreases if n < 0 then 0 else n
  {
    if n > 0 {
      Pass2Ranges(es, colIdx, n - 1);
      var p := Pass2(es, colIdx, n - 1);
      var c := Column(es, colIdx, n - 1);
      if c != [] {
        RangeStep(p, es, colIdx, n - 1);
        assert Pass2(es, colIdx, n) == Grouped(p.keys + [n - 1], p.starts + [|p.ents|], p.ents + c);
        assert GroupedRanges(Pass2(es, colIdx, n), es, colIdx);
      } else {
        assert Pass2(es, colIdx, n) == p;
        assert GroupedRanges(Pass2(es, colIdx, n), es, colIdx);
      }
    }
  }

  /** Appending key k with its synapses keeps the earlier ranges and adds the new one. */
  lemma RangeStep(p: Grouped, es: seq<Syn>, colIdx: seq<int>, k: int)
    requires OffsIn(es, |colIdx|) && GroupedRanges(p, es, colIdx)
    ensures GroupedRanges(Grouped(p.keys + [k], p.starts + [|p.ents|], p.ents + Column(es, colIdx, k)), es, colIdx)
  {
    var c := Column(es, colIdx, k);
    var g := Grouped(p.keys + [k], p.starts + [|p.ents|], p.ents + c);
    forall m | 0 <= m < |g.keys|
      ensures 0 <= g.starts[m] <= End(g, m) <= |g.ents|
      ensures g.ents[g.starts[m]..End(g, m)] == Column(es, colIdx, g.keys[m])
    {
      if m < |p.keys| {
        assert g.keys[m] == p.keys[m];
        assert g.starts[m] == p.starts[m];
        assert End(g, m) == End(p, m);
        assert g.ents[g.starts[m]..End(g, m)] == p.ents[p.starts[m]..End(p, m)];
      } else {
        assert g.ents[|p.ents|..] == c;
      }
    }
  }

  /** A key below the bound that got no range has no synapse, and each key that got one
      has at least one. */
  lemma {:induction false} Pass2Complete(es: seq<Syn>, colIdx: seq<int>, n: int)
    requires OffsIn(es, |colIdx|)
    ensures var g := Pass2(es, colIdx, n);
      && (forall k :: 0 <= k < n && k !in g.keys ==> Column(es, colIdx, k) == [])
      && (forall m :: 0 <= m < |g.keys| ==> Column(es, colIdx, g.keys[m]) != [])
    decreases if n < 0 then 0 else n
  {
    if n > 0 {
      Pass2Complete(es, colIdx, n - 1);
    }
  }

  /** Every synapse placed by the second pass is a visited synapse, and its key matches. */
  lemma {:induction false} Pass2Members(es: seq<Syn>, colIdx: seq<int>, n: int)
    requires OffsIn(es, |colIdx|)
    ensures forall e :: e in Pass2(es, colIdx, n).ents ==> e in es && 0 <= colIdx[e.off] < n
    decreases if n < 0 then 0 else n
  {
    if n > 0 {
      Pass2Members(es, colIdx, n - 1);
      ColumnMembers(es, colIdx, n - 1);
    }
  }

  // ---------------------------------------------------------------------------
  // Counting: the inverse is a permutation of the synapses whose key is below the bound

  /** The visited synapses whose key lies in [0, n). */
  function Below(es: seq<Syn>, colIdx: seq<int>, n: int): seq<Syn>
    requires OffsIn(es, |colIdx|)
  {
    if es == [] then []
    else
      var p := es[..|es| - 1];
      var e := es[|es| - 1];
      assert es == p + [e];
      if 0 <= colIdx[e.off] < n then Below(p, colIdx, n) + [e] else Below(p, colIdx, n)
  }

  /** The multiset of offsets of a list, built one element at a time. */
  function OffSet(es: seq<Syn>): multiset<int> {
    if es == [] then multiset{} else OffSet(es[..|es| - 1]) + multiset{es[|es| - 1].off}
  }

  lemma {:induction false} OffSetIsMultiset(es: seq<Syn>)
    ensures OffSet(es) == multiset(Offs(es))
  {
    if es != [] {
      var p := es[..|es| - 1];
      OffSetIsMultiset(p);
      assert Offs(es) == Offs(p) + [es[|es| - 1].off];
    }
  }

  lemma {:induction false} OffSetAppend(a: seq<Syn>, b: seq<Syn>)
    ensures OffSet(a + b) == OffSet(a) + OffSet(b)
    decreases |b|
  {
    if b != [] {
      var b' := b[..|b| - 1];
      assert (a + b)[..|a + b| - 1] == a + b';
      OffSetAppend(a, b');
    } else {
      assert a + b == a;
    }
  }

  lemma {:induction false} BelowSplit(es: seq<Syn>, colIdx: seq<int>, n: int)
    requires OffsIn(es, |colIdx|) && n > 0
    ensures OffSet(Below(es, colIdx, n)) == OffSet(Below(es, colIdx, n - 1)) + OffSet(Column(es, colIdx, n - 1))
  {
    if es != [] {
      var p := es[..|es| - 1];
      assert OffsIn(p, |colIdx|);
      BelowSplit(p, colIdx, n);
      BelowSplitStep(es, colIdx, n);
    }
  }

  /** How the last synapse extends the three lists of BelowSplit. */
  lemma BelowSplitStep(es: seq<Syn>, colIdx: seq<int>, n: int)
    requires OffsIn(es, |colIdx|) && n > 0 && es != []
    ensures OffsIn(es[..|es| - 1], |colIdx|)
    ensures var p := es[..|es| - 1]; var x := es[|es| - 1].off;
      var k := colIdx[x];
      && OffSet(Below(es, colIdx, n)) == OffSet(Below(p, colIdx, n)) + (if 0 <= k < n then multiset{x} else multiset{})
      && OffSet(Below(es, colIdx, n - 1)) == OffSet(Below(p, colIdx, n - 1)) + (if 0 <= k < n - 1 then multiset{x} else multiset{})
      && OffSet(Column(es, colIdx, n - 1)) == OffSet(Column(p, colIdx, n - 1)) + (if k == n - 1 then multiset{x} else multiset{})
  {
    BelowLast(es, colIdx, n);
    BelowLast(es, colIdx, n - 1);
    ColumnLast(es, colIdx, n - 1);
  }

  lemma BelowLast(es: seq<Syn>, colIdx: seq<int>, n: int)
    requires OffsIn(es, |colIdx|) && es != []
    ensures OffsIn(es[..|es| - 1], |colIdx|)
    ensures var p := es[..|es| - 1]; var e := es[|es| - 1];
      OffSet(Below(es, colIdx, n)) == OffSet(Below(p, colIdx, n)) + (if 0 <= colIdx[e.off] < n then multiset{e.off} else multiset{})
  {
    var p := es[..|es| - 1];
    var e := es[|es| - 1];
    assert es == p + [e];
    assert OffsIn(p, |colIdx|);
    OffSetSnoc(Below(p, colIdx, n), e);
  }

  lemma ColumnLast(es: seq<Syn>, colIdx: seq<int>, k: int)
    requires OffsIn(es, |colIdx|) && es != []
    ensures OffsIn(es[..|es| - 1], |colIdx|)
    ensures var p := es[..|es| - 1]; var e := es[|es| - 1];
      OffSet(Column(es, colIdx, k)) == OffSet(Column(p, colIdx, k)) + (if colIdx[e.off] == k then multiset{e.off} else multiset{})
  {
    var p := es[..|es| - 1];
    var e := es[|es| - 1];
    assert es == p + [e];
    assert OffsIn(p, |colIdx|);
    OffSetSnoc(Column(p, colIdx, k), e);
  }

  lemma OffSetSnoc(xs: seq<Syn>, e: Syn)
    ensures OffSet(xs + [e]) == OffSet(xs) + multiset{e.off}
  {
    assert (xs + [e])[..|xs|] == xs;
  }

  lemma {:induction false} Pass2Counts(es: seq<Syn>, colIdx: seq<int>, n: int)
    requires OffsIn(es, |colIdx|)
    ensures OffSet(Pass2(es, colIdx, n).ents) == OffSet(Below(es, colIdx, n))
    decreases if n < 0 then 0 else n
  {
    if n <= 0 {
      BelowNothing(es, colIdx, n);
    } else {
      Pass2Counts(es, colIdx, n - 1);
      BelowSplit(es, colIdx, n);
      var p := Pass2(es, colIdx, n - 1);
      var c := Column(es, colIdx, n - 1);
      if c == [] {
        assert OffSet(c) == multiset{};
        assert Pass2(es, colIdx, n) == p;
      } else {
        OffSetAppend(p.ents, c);
        assert Pass2(es, colIdx, n).ents == p.ents + c;
      }
    }
  }

  lemma {:induction false} BelowNothing(es: seq<Syn>, colIdx: seq<int>, n: int)
    requires OffsIn(es, |colIdx|) && n <= 0
    ensures Below(es, colIdx, n) == []
  {
    if es != [] {
      assert OffsIn(es[..|es| - 1], |colIdx|);
      BelowNothing(es[..|es| - 1], colIdx, n);
    }
  }

  lemma {:induction false} BelowAll(es: seq<Syn>, colIdx: seq<int>, n: int)
    requires OffsIn(es, |colIdx|)
    requires forall e :: e in es ==> 0 <= colIdx[e.off] < n
    ensures Below(es, colIdx, n) == es
  {
    if es != [] {
      var p := es[..|es| - 1];
      assert es == p + [es[|es| - 1]];
      BelowAll(p, colIdx, n);
    }
  }

  // ---------------------------------------------------------------------------
  // Properties of the inverse

  /** `_col_ptr` starts at 0, does not decrease, has one entry per non-empty key plus the
      sentinel, and the sentinel is the number of inverse entries (`_row_idx` and
      `_inv_idx` have that length). The keys ascend strictly and lie below the bound. */
  lemma ColPtrShape(rowPtr: seq<int>, colIdx: seq<int>, bound: int)
    requires RowsInBounds(rowPtr, colIdx)
    ensures var inv := Invert(rowPtr, colIdx, bound);
      && |inv.colPtr| == |inv.keys| + 1
      && inv.colPtr[0] == 0
      && (forall m :: 0 <= m < |inv.keys| ==> inv.colPtr[m] <= inv.colPtr[m + 1])
      && inv.colPtr[|inv.keys|] == |inv.ents|
      && (forall m :: 0 <= m < |inv.keys| ==> 0 <= inv.keys[m] < bound)
      && (forall m1, m2 :: 0 <= m1 < m2 < |inv.keys| ==> inv.keys[m1] < inv.keys[m2])
  {
    AllSynsInBounds(rowPtr, colIdx, NbRows(rowPtr));
    Pass2Shape(AllSyns(rowPtr), colIdx, bound);
  }

  /** Each key's range of the inverse holds exactly the synapses of that pre-synaptic
      rank, in the order of the forward matrix; a rank below the bound with no range has
      no synapse. */
  lemma InverseRanges(rowPtr: seq<int>, colIdx: seq<int>, bound: int)
    requires RowsInBounds(rowPtr, colIdx)
    ensures OffsIn(AllSyns(rowPtr), |colIdx|)
    ensures RangesMatch(Invert(rowPtr, colIdx, bound), AllSyns(rowPtr), colIdx)
    ensures forall k :: 0 <= k < bound && k !in Invert(rowPtr, colIdx, bound).keys ==>
      Column(AllSyns(rowPtr), colIdx, k) == []
  {
    AllSynsInBounds(rowPtr, colIdx, NbRows(rowPtr));
    InverseOfPass2(AllSyns(rowPtr), colIdx, bound);
  }

  /** The inverse built from the second pass over any in-bounds synapse list. */
  lemma InverseOfPass2(es: seq<Syn>, colIdx: seq<int>, bound: int)
    requires OffsIn(es, |colIdx|)
    ensures var g := Pass2(es, colIdx, bound);
      var inv := Inverse(g.keys, g.starts + [|g.ents|], g.ents);
      && RangesMatch(inv, es, colIdx)
      && forall k :: 0 <= k < bound && k !in inv.keys ==> Column(es, colIdx, k) == []
  {
    var g := Pass2(es, colIdx, bound);
    Pass2Ranges(es, colIdx, bound);
    Pass2Complete(es, colIdx, bound);
    forall m | 0 <= m < |g.keys| ensures Column(es, colIdx, g.keys[m]) != [] {
      assert g == Pass2(es, colIdx, bound);
    }
    RangesOfGrouped(g, es, colIdx);
  }

  /** Closing the start offsets with the list length turns the grouped ranges into the
      `_col_ptr` ranges of the inverse. */
  lemma RangesOfGrouped(g: Grouped, es: seq<Syn>, colIdx: seq<int>)
    requires OffsIn(es, |colIdx|) && GroupedRanges(g, es, colIdx)
    requires forall m :: 0 <= m < |g.keys| ==> Column(es, colIdx, g.keys[m]) != []
    ensures RangesMatch(Inverse(g.keys, g.starts + [|g.ents|], g.ents), es, colIdx)
  {
    var ptr := g.starts + [|g.ents|];
    var inv := Inverse(g.keys, ptr, g.ents);
    assert |ptr| == |g.keys| + 1;
    forall m | 0 <= m < |inv.keys| ensures RangeMatches(inv, es, colIdx, m) {
      var k := g.keys[m];
      assert 0 <= g.starts[m] <= End(g, m) <= |g.ents|;
      assert g.ents[g.starts[m]..End(g, m)] == Column(es, colIdx, k);
      assert ptr[m] == g.starts[m];
      if m + 1 < |g.keys| {
        assert ptr[m + 1] == g.starts[m + 1];
      } else {
        assert ptr[m + 1] == |g.ents|;
      }
    }
    assert RangesMatch(inv, es, colIdx);
  }

  /** Range m of the inverse (from `_col_ptr[m]` to `_col_ptr[m+1]`) holds exactly the
      synapses of key m, and none of these ranges is empty. */
  predicate RangesMatch(inv: Inverse, es: seq<Syn>, colIdx: seq<int>)
    requires OffsIn(es, |colIdx|)
  {
    && |inv.colPtr| == |inv.keys| + 1
    && forall m :: 0 <= m < |inv.keys| ==> RangeMatches(inv, es, colIdx, m)
  }

  predicate RangeMatches(inv: Inverse, es: seq<Syn>, colIdx: seq<int>, m: int)
    requires OffsIn(es, |colIdx|) && 0 <= m < |inv.keys| && |inv.colPtr| == |inv.keys| + 1
  {
    && 0 <= inv.colPtr[m] <= inv.colPtr[m + 1] <= |inv.ents|
    && inv.ents[inv.colPtr[m]..inv.colPtr[m + 1]] == Column(es, colIdx, inv.keys[m])
    && Column(es, colIdx, inv.keys[m]) != []
  }

  /** Within one key's range the post-synaptic rows ascend and, in one row, the forward
      offsets ascend: each per-pre list is in the order of the forward matrix. */
  lemma ColumnIsOrdered(rowPtr: seq<int>, colIdx: seq<int>, k: int)
    requires RowsInBounds(rowPtr, colIdx)
    ensures OffsIn(AllSyns(rowPtr), |colIdx|)
    ensures Ordered(Column(AllSyns(rowPtr), colIdx, k))
  {
    AllSynsInBounds(rowPtr, colIdx, NbRows(rowPtr));
    FlatIsOrdered(rowPtr, NbRows(rowPtr));
    FilterKeepsOrder(AllSyns(rowPtr), colIdx, k);
  }

  /** Rows ascend and, within a row, offsets ascend. */
  predicate Ordered(es: seq<Syn>) {
    forall a, b :: 0 <= a < b < |es| ==> Before(es[a], es[b])
  }

  /** x comes before y in the order of the forward matrix. */
  predicate Before(x: Syn, y: Syn) {
    x.row < y.row || (x.row == y.row && x.off < y.off)
  }

  lemma OrderedAppend(c: seq<Syn>, e: Syn)
    requires Ordered(c) && forall a :: 0 <= a < |c| ==> Before(c[a], e)
    ensures Ordered(c + [e])
  {
    var d := c + [e];
    forall a, b | 0 <= a < b < |d| ensures Before(d[a], d[b]) {
      assert d[a] == c[a];
      if b < |c| {
        assert d[b] == c[b];
      }
    }
  }

  lemma {:induction false} FilterKeepsOrder(es: seq<Syn>, colIdx: seq<int>, k: int)
    requires OffsIn(es, |colIdx|) && Ordered(es)
    ensures Ordered(Column(es, colIdx, k))
  {
    if es != [] {
      var p, e := es[..|es| - 1], es[|es| - 1];
      assert es == p + [e];
      OrderedInit(es);
      FilterKeepsOrder(p, colIdx, k);
      var c := Column(p, colIdx, k);
      if colIdx[e.off] == k {
        ColumnBefore(p, colIdx, k, e);
        OrderedAppend(c, e);
        assert Column(es, colIdx, k) == c + [e];
      } else {
        assert Column(es, colIdx, k) == c;
      }
    }
  }

  /** An ordered list without its last synapse is ordered and comes before that one. */
  lemma OrderedInit(es: seq<Syn>)
    requires Ordered(es) && es != []
    ensures Ordered(es[..|es| - 1])
    ensures forall a :: 0 <= a < |es| - 1 ==> Before(es[a], es[|es| - 1])
  {
    var p := es[..|es| - 1];
    forall a, b | 0 <= a < b < |p|
      ensures Before(p[a], p[b])
    {
      assert p[a] == es[a] && p[b] == es[b];
    }
  }

  /** When every synapse of a list comes before e, so does every synapse of a column. */
  lemma ColumnBefore(p: seq<Syn>, colIdx: seq<int>, k: int, e: Syn)
    requires OffsIn(p, |colIdx|) && forall i :: 0 <= i < |p| ==> Before(p[i], e)
    ensures forall a :: 0 <= a < |Column(p, colIdx, k)| ==> Before(Column(p, colIdx, k)[a], e)
  {
    var c := Column(p, colIdx, k);
    ColumnMembers(p, colIdx, k);
    forall a | 0 <= a < |c|
      ensures Before(c[a], e)
    {
      assert c[a] in p;
      var i :| 0 <= i < |p| && p[i] == c[a];
    }
  }

  /** Every inverse entry records a synapse of its post-synaptic row: its forward offset
      lies in that row's range, so `_col_idx[_inv_idx[j]]` is the pre-synaptic rank whose
      range holds j. */
  lemma InverseEntriesBelongToRows(rowPtr: seq<int>, colIdx: seq<int>, bound: int)
    requires RowsInBounds(rowPtr, colIdx)
    ensures var inv := Invert(rowPtr, colIdx, bound);
      forall e :: e in inv.ents ==>
        && 0 <= e.row < NbRows(rowPtr)
        && rowPtr[e.row] <= e.off < rowPtr[e.row + 1]
        && 0 <= e.off < |colIdx|
        && 0 <= colIdx[e.off] < bound
  {
    AllSynsInBounds(rowPtr, colIdx, NbRows(rowPtr));
    Pass2Members(AllSyns(rowPtr), colIdx, bound);
  }

  /** For a well-formed matrix whose pre-synaptic ranks all lie below the bound, the
      inverse offsets (`_inv_idx`) are a permutation of 0..|col_idx|-1: every forward
      synapse appears exactly once, and the entry count equals the number of synapses. */
  lemma {:induction false} InverseIsPermutation(rowPtr: seq<int>, colIdx: seq<int>, bound: int)
    requires WellFormed(rowPtr, colIdx)
    requires forall s :: 0 <= s < |colIdx| ==> 0 <= colIdx[s] < bound
    ensures RowsInBounds(rowPtr, colIdx)
    ensures multiset(Offs(Invert(rowPtr, colIdx, bound).ents)) == multiset(Range(|colIdx|))
    ensures |Invert(rowPtr, colIdx, bound).ents| == |colIdx|
  {
    assert RowsInBounds(rowPtr, colIdx) by {
      forall i | 0 <= i < NbRows(rowPtr) && rowPtr[i] < rowPtr[i + 1]
        ensures 0 <= rowPtr[i] && rowPtr[i + 1] <= |colIdx|
      {
        MonotoneBounds(rowPtr, colIdx, i);
        MonotoneBounds(rowPtr, colIdx, i + 1);
      }
    }
    var n := NbRows(rowPtr);
    AllSynsInBounds(rowPtr, colIdx, n);
    var es := AllSyns(rowPtr);
    FlatOffsets(rowPtr, colIdx, n);
    BelowAll(es, colIdx, bound);
    Pass2Counts(es, colIdx, bound);
    OffSetIsMultiset(es);
    OffSetIsMultiset(Invert(rowPtr, colIdx, bound).ents);
    assert rowPtr[n] == |colIdx|;
    var ents := Invert(rowPtr, colIdx, bound).ents;
    assert |Offs(ents)| == |multiset(Offs(ents))| == |multiset(Range(|colIdx|))| == |colIdx|;
  }

  /** The offsets 0, 1, ..., n-1. */
  function Range(n: nat): (r: seq<int>)
    ensures |r| == n
    ensures forall t :: 0 <= t < n ==> r[t] == t
  {
    seq(n, t => t)
  }

  lemma {:induction false} MonotoneBounds(rowPtr: seq<int>, colIdx: seq<int>, i: int)
    requires WellFormed(rowPtr, colIdx) && 0 <= i < |rowPtr|
    ensures 0 <= rowPtr[i] <= |colIdx|
    decreases |rowPtr| - i
  {
    if i < |rowPtr| - 1 {
      MonotoneBounds(rowPtr, colIdx, i + 1);
      MonotoneLower(rowPtr, colIdx, i);
    }
  }

  lemma {:induction false} MonotoneLower(rowPtr: seq<int>, colIdx: seq<int>, i: int)
    requires WellFormed(rowPtr, colIdx) && 0 <= i < |rowPtr|
    ensures 0 <= rowPtr[i]
  {
    if i > 0 {
      MonotoneLower(rowPtr, colIdx, i - 1);
    }
  }

  /** Synapses whose pre-synaptic rank is not below the bound are left out of the
      inverse: the second pass iterates its keys up to the post-synaptic population size,
      so with more pre- than post-synaptic neurons a synapse of a high pre-synaptic rank
      is lost. One post neuron receiving one synapse from pre neuron 1 inverts to nothing
      under bound 1, and the entry count (0) differs from the synapse count (1). */
  lemma PostSizeBoundDropsSynapses()
    ensures var inv := Invert([0, 1], [1], 1);
      inv.keys == [] && inv.colPtr == [0] && inv.ents == [] && |inv.ents| != |[1]|
  {
    var es, colIdx := [Syn(0, 0)], [1];
    OneSynapse();
    assert Pass2(es, colIdx, 1) == Pass2(es, colIdx, 0);
  }

  /** The matrix of one post neuron receiving one synapse from pre neuron 1: its one
      synapse, and the columns of pre ranks 0 and 1. */
  lemma OneSynapse()
    ensures AllSyns([0, 1]) == [Syn(0, 0)] && OffsIn([Syn(0, 0)], 1)
    ensures Column([Syn(0, 0)], [1], 0) == [] && Column([Syn(0, 0)], [1], 1) == [Syn(0, 0)]
  {
    var rowPtr, es := [0, 1], [Syn(0, 0)];
    assert RowSyns(rowPtr, 0) == es;
    assert Flat(rowPtr, 1) == Flat(rowPtr, 0) + RowSyns(rowPtr, 0);
    assert es[..0] == [];
  }

  /** Two post neurons, the first receiving one synapse from pre neuron 1 and the second
      none: the same one synapse and columns as `OneSynapse`. */
  lemma OneSynapseOfTwoRows()
    ensures AllSyns([0, 1, 1]) == [Syn(0, 0)] && OffsIn([Syn(0, 0)], 1)
    ensures Column([Syn(0, 0)], [1], 0) == [] && Column([Syn(0, 0)], [1], 1) == [Syn(0, 0)]
  {
    var rowPtr, es := [0, 1, 1], [Syn(0, 0)];
    assert RowSyns(rowPtr, 0) == es;
    assert RowSyns(rowPtr, 1) == [];
    assert Flat(rowPtr, 1) == Flat(rowPtr, 0) + RowSyns(rowPtr, 0);
    assert Flat(rowPtr, 2) == Flat(rowPtr, 1) + RowSyns(rowPtr, 1);
    assert es[..0] == [];
  }
}
