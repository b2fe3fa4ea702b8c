/** The attribute weaver of a projection (ProjectionGenerator._generate_default_get_set):
    for every distinct parameter or variable name of the synapse, one declaration and one
    branch in the accessor bucket of its locality, and the lookups over a synapse
    description (_get_attr_and_type, get_bounds). */
module ProjectionAttributes {
  import opened Common

  // ---------------------------------------------------------------------------
  // Duplicate names: the first occurrence wins

  /** The attributes in order, each name kept at its first occurrence only. */
  function Dedup(xs: seq<Attr>): (r: seq<Attr>)
    ensures |r| <= |xs|
  {
    if xs == [] then []
    else
      var d := Dedup(xs[..|xs| - 1]);
      if xs[|xs| - 1].name in Names(d) then d else d + [xs[|xs| - 1]]
  }

  /** `xs[k]` is the first attribute of `xs` with its name. */
  predicate IsFirst(xs: seq<Attr>, k: int)
    requires 0 <= k < |xs|
  {
    forall m :: 0 <= m < k ==> xs[m].name != xs[k].name
  }

  lemma {:induction false} DedupNamesDistinct(xs: seq<Attr>)
    ensures Distinct(Names(Dedup(xs)))
  {
    if xs != [] {
      var p, last := xs[..|xs| - 1], xs[|xs| - 1];
      DedupNamesDistinct(p);
      var d := Dedup(p);
      if last.name !in Names(d) {
        assert (d + [last])[..|d|] == d;
        assert Names(d + [last]) == Names(d) + [last.name];
        DistinctSnoc(Names(d), last.name);
      }
    }
  }

  lemma DistinctSnoc<T>(s: seq<T>, x: T)
    requires Distinct(s) && x !in s
    ensures Distinct(s + [x])
  {
    var u := s + [x];
    forall i, j | 0 <= i < j < |u|
      ensures u[i] != u[j]
    {
      assert u[i] == s[i];
    }
  }

  /** Every name of the input survives deduplication. */
  lemma {:induction false} DedupCoversNames(xs: seq<Attr>)
    ensures forall k :: 0 <= k < |xs| ==> xs[k].name in Names(Dedup(xs))
  {
    if xs != [] {
      var p := xs[..|xs| - 1];
      DedupCoversNames(p);
      assert forall k :: 0 <= k < |p| ==> xs[k] == p[k];
    }
  }

  /** Deduplication keeps exactly the first occurrences: each one is kept, and each kept
      attribute is a first occurrence. */
  lemma DedupKeepsFirstOccurrences(xs: seq<Attr>)
    ensures forall k :: 0 <= k < |xs| && IsFirst(xs, k) ==> xs[k] in Dedup(xs)
    ensures forall a :: a in Dedup(xs) ==> exists k :: 0 <= k < |xs| && xs[k] == a && IsFirst(xs, k)
  {
    DedupKeepsFirsts(xs);
    DedupOnlyFirsts(xs);
  }

  /** Of a prefix, the first occurrences are those of the whole before the cut. */
  lemma FirstInPrefix(xs: seq<Attr>, n: int, k: int)
    requires 0 <= k < n <= |xs|
    ensures xs[..n][k] == xs[k] && (IsFirst(xs[..n], k) <==> IsFirst(xs, k))
  {
    assert forall m :: 0 <= m <= k ==> xs[..n][m] == xs[m];
  }

  /** A name already kept from the prefix is not a first occurrence at the end. */
  lemma LastNotFirst(xs: seq<Attr>)
    requires xs != [] && xs[|xs| - 1].name in Names(Dedup(xs[..|xs| - 1]))
    ensures !IsFirst(xs, |xs| - 1)
  {
    var p, last := xs[..|xs| - 1], xs[|xs| - 1];
    var d := Dedup(p);
    DedupOnlyFirsts(p);
    var j :| 0 <= j < |d| && Names(d)[j] == last.name;
    assert d[j] in d;
    var k :| 0 <= k < |p| && p[k] == d[j] && IsFirst(p, k);
    assert xs[k].name == last.name;
  }

  lemma {:induction false} DedupKeepsFirsts(xs: seq<Attr>)
    ensures forall k :: 0 <= k < |xs| && IsFirst(xs, k) ==> xs[k] in Dedup(xs)
  {
    if xs != [] {
      var p, last := xs[..|xs| - 1], xs[|xs| - 1];
      var d := Dedup(p);
      DedupKeepsFirsts(p);
      var keepsLast := last.name !in Names(d);
      if !keepsLast {
        LastNotFirst(xs);
      }
      assert Dedup(xs) == if keepsLast then d + [last] else d;
      forall k | 0 <= k < |xs| && IsFirst(xs, k)
        ensures xs[k] in Dedup(xs)
      {
        if k < |p| {
          FirstInPrefix(xs, |p|, k);
          assert p[k] in d;
        } else {
          assert k == |xs| - 1 && keepsLast;
        }
      }
    }
  }

  /** A name not kept from the prefix occurs there nowhere, so the end is a first occurrence. */
  lemma LastIsFirst(xs: seq<Attr>)
    requires xs != [] && xs[|xs| - 1].name !in Names(Dedup(xs[..|xs| - 1]))
    ensures IsFirst(xs, |xs| - 1)
  {
    var p, last := xs[..|xs| - 1], xs[|xs| - 1];
    DedupCoversNames(p);
    forall m | 0 <= m < |xs| - 1 ensures xs[m].name != last.name {
      assert p[m].name in Names(Dedup(p));
    }
  }

  lemma {:induction false} DedupOnlyFirsts(xs: seq<Attr>)
    ensures forall a :: a in Dedup(xs) ==> exists k :: 0 <= k < |xs| && xs[k] == a && IsFirst(xs, k)
  {
    if xs != [] {
      var p, last := xs[..|xs| - 1], xs[|xs| - 1];
      var d := Dedup(p);
      DedupOnlyFirsts(p);
      var keepsLast := last.name !in Names(d);
      assert Dedup(xs) == if keepsLast then d + [last] else d;
      forall a | a in Dedup(xs)
        ensures exists k :: 0 <= k < |xs| && xs[k] == a && IsFirst(xs, k)
      {
        if a in d {
          var k :| 0 <= k < |p| && p[k] == a && IsFirst(p, k);
          FirstInPrefix(xs, |p|, k);
        } else {
          assert a == last && keepsLast;
          LastIsFirst(xs);
        }
      }
    }
  }

  // ---------------------------------------------------------------------------
  // Accessor weaving

  /** The locality the weaver uses: a single-weight projection stores `w` as a scalar. */
  function EffectiveLocality(a: Attr, singleWeight: bool): (r: Locality)
    ensures r == Global || r == a.locality
    ensures a.name == "w" && singleWeight ==> r == Global
    ensures !(a.name == "w" && singleWeight) ==> r == a.locality
  {
    if a.name == "w" && singleWeight then Global else a.locality
  }

  function Effectives(xs: seq<Attr>, singleWeight: bool): (r: seq<Attr>)
    ensures |r| == |xs|
    ensures forall k :: 0 <= k < |xs| ==> r[k] == xs[k].(locality := EffectiveLocality(xs[k], singleWeight))
  {
    if xs == [] then []
    else
      var a := xs[|xs| - 1];
      Effectives(xs[..|xs| - 1], singleWeight) + [a.(locality := EffectiveLocality(a, singleWeight))]
  }

  /** The statement appended to a setter: the device copy is flagged stale under CUDA only. */
  function DirtyFlag(paradigm: Paradigm, name: string): (r: string)
    ensures r != [] <==> paradigm == Cuda
    ensures paradigm == Cuda ==> |name| < |r| && r[..|name|] == name
  {
    if paradigm == Cuda then name + "_dirty = true;" else ""
  }

  /** One declaration, from the single-matrix or the sliced-matrix declaration table.
      The weaver labels every attribute a 'parameter'. */
  datatype Decl = Decl(sliced: bool, locality: Locality, name: string, ctype: string, attrType: string)

  /** One `if (name.compare(...) == 0)` branch of the getters and setters of a bucket. */
  datatype Branch = Branch(name: string, ctype: string, dirtyFlag: string)

  /** The accessor code: every local branch accumulates into the six local accessors, every
      global one into the global getter and setter; the four semiglobal accessors are
      reassigned, so they hold the branch of one attribute at most. */
  datatype Accessors = Accessors(local: seq<Branch>, semiglobal: Option<Branch>, global: seq<Branch>)

  function DeclsOf(xs: seq<Attr>, sliced: bool): (r: seq<Decl>)
    ensures |r| == |xs|
    ensures forall k :: 0 <= k < |xs| ==> r[k] == Decl(sliced, xs[k].locality, xs[k].name, xs[k].ctype, "parameter")
  {
    if xs == [] then []
    else
      var a := xs[|xs| - 1];
      DeclsOf(xs[..|xs| - 1], sliced) + [Decl(sliced, a.locality, a.name, a.ctype, "parameter")]
  }

  function BranchOf(a: Attr, paradigm: Paradigm): Branch {
    Branch(a.name, a.ctype, DirtyFlag(paradigm, a.name))
  }

  /** The branches of the attributes of one locality, in order. */
  function BranchesAt(xs: seq<Attr>, loc: Locality, paradigm: Paradigm): (r: seq<Branch>)
    ensures |r| <= |xs|
    ensures forall b :: b in r ==> exists a :: a in xs && a.locality == loc && b == BranchOf(a, paradigm)
    ensures forall a :: a in xs && a.locality == loc ==> BranchOf(a, paradigm) in r
  {
    if xs == [] then []
    else
      var a := xs[|xs| - 1];
      var p := xs[..|xs| - 1];
      assert xs == p + [a];
      var rest := BranchesAt(p, loc, paradigm);
      if a.locality == loc then rest + [BranchOf(a, paradigm)] else rest
  }

  /** The branch of the last semiglobal attribute, if any. */
  function LastSemiglobal(xs: seq<Attr>, paradigm: Paradigm): (r: Option<Branch>)
  {
    if xs == [] then None
    else
      var a := xs[|xs| - 1];
      if a.locality == Semiglobal then Some(BranchOf(a, paradigm))
      else LastSemiglobal(xs[..|xs| - 1], paradigm)
  }

  /** The key of a locality in the template tables. */
  function LocalityKey(l: Locality): string {
    match l
    case Local => "local"
    case Semiglobal => "semiglobal"
    case Global => "global"
  }

  /** The declaration table for one matrix, or for a matrix sliced per thread. */
  function DeclTable(singleMatrix: bool): string {
    if singleMatrix then "attribute_decl" else "attribute_sliced_matrix_decl"
  }

  /** The localities the CUDA CSR format declares and initialises: it has no semiglobal entry. */
  const CsrCudaLocalities: set<Locality> := {Local, Global}

  /** The locality of the first attribute that has no entry among `keys`, if any. */
  function MissingLocality(xs: seq<Attr>, keys: set<Locality>): (r: Option<Locality>)
    ensures r.None? <==> forall k :: 0 <= k < |xs| ==> xs[k].locality in keys
    ensures r.Some? ==> r.value !in keys
    ensures r.Some? ==>
      exists k :: 0 <= k < |xs| && xs[k].locality == r.value && (forall m :: 0 <= m < k ==> xs[m].locality in keys)
  {
    if xs == [] then None
    else
      var p, a := xs[..|xs| - 1], xs[|xs| - 1];
      assert forall m :: 0 <= m < |p| ==> p[m] == xs[m];
      var first := MissingLocality(p, keys);
      if first.Some? then first
      else if a.locality in keys then None
      else Some(a.locality)
  }

  /** The missing locality is the one of the first attribute outside `keys`. */
  lemma MissingLocalityFirst(xs: seq<Attr>, keys: set<Locality>, j: int)
    requires 0 <= j < |xs| && xs[j].locality !in keys
    requires forall m :: 0 <= m < j ==> xs[m].locality in keys
    ensures MissingLocality(xs, keys) == Some(xs[j].locality)
  {
    var k :| 0 <= k < |xs| && xs[k].locality == MissingLocality(xs, keys).value
              && forall m :: 0 <= m < k ==> xs[m].locality in keys;
  }

  lemma MissingLocalityAppend(e: seq<Attr>, x: Attr, keys: set<Locality>)
    requires MissingLocality(e, keys) == None
    ensures MissingLocality(e + [x], keys) == if x.locality in keys then None else Some(x.locality)
  {
    assert (e + [x])[..|e|] == e;
  }

  /** Under the CUDA CSR tables exactly the semiglobal attributes are missing. */
  lemma CsrCudaRejectsSemiglobal(xs: seq<Attr>)
    ensures MissingLocality(xs, CsrCudaLocalities)
         == if exists k :: 0 <= k < |xs| && xs[k].locality == Semiglobal then Some(Semiglobal) else None
  {
    var r := MissingLocality(xs, CsrCudaLocalities);
    if exists k :: 0 <= k < |xs| && xs[k].locality == Semiglobal {
      var k :| 0 <= k < |xs| && xs[k].locality == Semiglobal;
      assert xs[k].locality !in CsrCudaLocalities;
    } else {
      assert forall k :: 0 <= k < |xs| ==> xs[k].locality in CsrCudaLocalities;
    }
  }

  lemma DedupStep(xs: seq<Attr>, i: int)
    requires 0 <= i < |xs|
    ensures Dedup(xs[..i + 1]) == if xs[i].name in Names(Dedup(xs[..i])) then Dedup(xs[..i]) else Dedup(xs[..i]) + [xs[i]]
  {
    assert xs[..i + 1][..i] == xs[..i];
  }

  lemma EffectivesAppend(d: seq<Attr>, v: Attr, singleWeight: bool)
    ensures Effectives(d + [v], singleWeight) == Effectives(d, singleWeight) + [v.(locality := EffectiveLocality(v, singleWeight))]
  {
    assert (d + [v])[..|d|] == d;
  }

  lemma WovenAppend(e: seq<Attr>, x: Attr, sliced: bool, paradigm: Paradigm)
    ensures DeclsOf(e + [x], sliced) == DeclsOf(e, sliced) + [Decl(sliced, x.locality, x.name, x.ctype, "parameter")]
    ensures BranchesAt(e + [x], Local, paradigm)
         == BranchesAt(e, Local, paradigm) + (if x.locality == Local then [BranchOf(x, paradigm)] else [])
    ensures BranchesAt(e + [x], Global, paradigm)
         == BranchesAt(e, Global, paradigm) + (if x.locality == Global then [BranchOf(x, paradigm)] else [])
    ensures LastSemiglobal(e + [x], paradigm)
         == if x.locality == Semiglobal then Some(BranchOf(x, paradigm)) else LastSemiglobal(e, paradigm)
  {
    assert (e + [x])[..|e|] == e;
  }

  /** Deduplicating a prefix gives a prefix of the deduplicated whole. */
  lemma {:induction false} DedupPrefix(xs: seq<Attr>, j: int)
    requires 0 <= j <= |xs|
    ensures Dedup(xs[..j]) <= Dedup(xs)
  {
    if j < |xs| {
      var p := xs[..|xs| - 1];
      assert xs[..j] == p[..j];
      DedupPrefix(p, j);
      var d := Dedup(p);
      assert d <= Dedup(xs) by {
        assert (d + [xs[|xs| - 1]])[..|d|] == d;
      }
      PrefixTransitive(Dedup(p[..j]), d, Dedup(xs));
    } else {
      assert xs[..j] == xs;
    }
  }

  lemma PrefixTransitive<T>(a: seq<T>, b: seq<T>, c: seq<T>)
    requires a <= b && b <= c
    ensures a <= c
  {
    assert c[..|a|] == b[..|a|];
  }

  /** The attribute the weaver meets at index i, when its name is new, follows everything
      woven before it in the full woven list. */
  lemma WovenPrefix(all: seq<Attr>, i: int, singleWeight: bool)
    requires 0 <= i < |all| && all[i].name !in Names(Dedup(all[..i]))
    ensures var e := Effectives(Dedup(all[..i]), singleWeight);
      var w := Effectives(Dedup(all), singleWeight);
      |e| < |w| && w[..|e|] == e && w[|e|] == all[i].(locality := EffectiveLocality(all[i], singleWeight))
  {
    DedupStep(all, i);
    DedupPrefix(all, i + 1);
    EffectivesSnocPrefix(Dedup(all[..i]), all[i], Dedup(all), singleWeight);
  }

  /** The weaver stops at the first new attribute whose locality is missing from `keys`,
      and that is the missing locality of the whole woven list. */
  lemma MissingAt(all: seq<Attr>, i: int, singleWeight: bool, keys: set<Locality>)
    requires 0 <= i < |all| && all[i].name !in Names(Dedup(all[..i]))
    requires MissingLocality(Effectives(Dedup(all[..i]), singleWeight), keys) == None
    requires EffectiveLocality(all[i], singleWeight) !in keys
    ensures MissingLocality(Effectives(Dedup(all), singleWeight), keys) == Some(EffectiveLocality(all[i], singleWeight))
  {
    WovenPrefix(all, i, singleWeight);
    MissingAfterPrefix(Effectives(Dedup(all[..i]), singleWeight), Effectives(Dedup(all), singleWeight), keys);
  }

  lemma MissingAfterPrefix(e: seq<Attr>, w: seq<Attr>, keys: set<Locality>)
    requires |e| < |w| && w[..|e|] == e && w[|e|].locality !in keys
    requires MissingLocality(e, keys) == None
    ensures MissingLocality(w, keys) == Some(w[|e|].locality)
  {
    assert forall m :: 0 <= m < |e| ==> w[m] == e[m];
    MissingLocalityFirst(w, keys, |e|);
  }

  lemma EffectivesSnocPrefix(d: seq<Attr>, v: Attr, full: seq<Attr>, singleWeight: bool)
    requires d + [v] <= full
    ensures var e := Effectives(d, singleWeight);
      var w := Effectives(full, singleWeight);
      |e| < |w| && w[..|e|] == e && w[|e|] == v.(locality := EffectiveLocality(v, singleWeight))
  {
    var e, w := Effectives(d, singleWeight), Effectives(full, singleWeight);
    assert forall k :: 0 <= k < |d| ==> d[k] == full[k];
    assert w[..|e|] == e;
    assert full[|d|] == v;
  }

  /** What one iteration of the weaver adds: nothing for a name already seen, otherwise
      one attribute with its effective locality at the end of every woven sequence. */
  lemma WeaveStep(all: seq<Attr>, i: int, singleWeight: bool, sliced: bool, paradigm: Paradigm)
    requires 0 <= i < |all|
    ensures var d := Dedup(all[..i]);
      var v := all[i];
      var x := v.(locality := EffectiveLocality(v, singleWeight));
      var e := Effectives(d, singleWeight);
      if v.name in Names(d) then Dedup(all[..i + 1]) == d
      else
        && Dedup(all[..i + 1]) == d + [v]
        && Names(d + [v]) == Names(d) + [v.name]
        && Effectives(d + [v], singleWeight) == e + [x]
        && DeclsOf(e + [x], sliced) == DeclsOf(e, sliced) + [Decl(sliced, x.locality, x.name, x.ctype, "parameter")]
        && BranchesAt(e + [x], Local, paradigm)
           == BranchesAt(e, Local, paradigm) + (if x.locality == Local then [BranchOf(x, paradigm)] else [])
        && BranchesAt(e + [x], Global, paradigm)
           == BranchesAt(e, Global, paradigm) + (if x.locality == Global then [BranchOf(x, paradigm)] else [])
        && LastSemiglobal(e + [x], paradigm)
           == if x.locality == Semiglobal then Some(BranchOf(x, paradigm)) else LastSemiglobal(e, paradigm)
  {
    var d := Dedup(all[..i]);
    var v := all[i];
    DedupStep(all, i);
    if v.name !in Names(d) {
      assert Names(d + [v]) == Names(d) + [v.name];
      EffectivesAppend(d, v, singleWeight);
      WovenAppend(Effectives(d, singleWeight), v.(locality := EffectiveLocality(v, singleWeight)), sliced, paradigm);
    }
  }

  /** _generate_default_get_set. A transposed projection gets no declarations and empty
      accessors. Otherwise the declaration table is chosen by the number of matrices
      (`declKeys` holds its localities, None when the table is absent), and the parameters
      then the variables are woven, duplicates skipped; the first attribute whose effective
      locality has no entry in the table raises a KeyError. */
  method GenerateDefaultGetSet(paradigm: Paradigm, isTranspose: bool, singleWeight: bool, singleMatrix: bool,
                               declKeys: Option<set<Locality>>, parameters: seq<Attr>, variables: seq<Attr>)
    returns (r: Result<(seq<Decl>, Accessors)>)
    ensures isTranspose ==> r == Ok(([], Accessors([], None, [])))
    ensures !isTranspose && declKeys.None? ==> r == Err(KeyError(DeclTable(singleMatrix)))
    ensures !isTranspose && declKeys.Some? ==>
      var missing := MissingLocality(Effectives(Dedup(parameters + variables), singleWeight), declKeys.value);
      missing.Some? ==> r == Err(KeyError(LocalityKey(missing.value)))
    ensures !isTranspose && declKeys.Some? ==>
      var woven := Effectives(Dedup(parameters + variables), singleWeight);
      MissingLocality(woven, declKeys.value).None? ==>
        r == Ok((DeclsOf(woven, !singleMatrix),
                 Accessors(BranchesAt(woven, Local, paradigm), LastSemiglobal(woven, paradigm),
                           BranchesAt(woven, Global, paradigm))))
  {
    if isTranspose {
      return Ok(([], Accessors([], None, [])));
    }
    if declKeys.None? {
      return Err(KeyError(if singleMatrix then "attribute_decl" else "attribute_sliced_matrix_decl"));
    }
    var decls, acc, missing := WeaveAll(paradigm, singleWeight, !singleMatrix, declKeys.value, parameters + variables);
    if missing.Some? {
      return Err(KeyError(LocalityKey(missing.value)));
    }
    r := Ok((decls, acc));
  }

  /** The weaving loop of _generate_default_get_set over the parameters then the variables:
      it stops at the first attribute whose effective locality is missing from the
      declaration table, and otherwise declares every distinct attribute. */
  method WeaveAll(paradigm: Paradigm, singleWeight: bool, sliced: bool, keys: set<Locality>, all: seq<Attr>)
    returns (decls: seq<Decl>, acc: Accessors, missing: Option<Locality>)
    ensures var woven := Effectives(Dedup(all), singleWeight);
      && missing == MissingLocality(woven, keys)
      && (missing.None? ==>
            decls == DeclsOf(woven, sliced)
            && acc == Accessors(BranchesAt(woven, Local, paradigm), LastSemiglobal(woven, paradigm),
                                BranchesAt(woven, Global, paradigm)))
  {
    var attributes: seq<string> := [];
    decls := [];
    var local: seq<Branch> := [];
    var semiglobal: Option<Branch> := None;
    var global: seq<Branch> := [];
    var i := 0;
    ghost var seen: seq<Attr> := [];
    ghost var woven: seq<Attr> := [];
    assert all[..0] == [];
    while i < |all|
      invariant 0 <= i <= |all|
      invariant seen == Dedup(all[..i])
      invariant attributes == Names(seen)
      invariant woven == Effectives(seen, singleWeight)
      invariant MissingLocality(woven, keys) == None
      invariant decls == DeclsOf(woven, sliced)
      invariant local == BranchesAt(woven, Local, paradigm)
      invariant global == BranchesAt(woven, Global, paradigm)
      invariant semiglobal == LastSemiglobal(woven, paradigm)
    {
      var v := all[i];
      WeaveStep(all, i, singleWeight, sliced, paradigm);
      if v.name !in attributes {
        var x, declared;
        decls, local, semiglobal, global, x, declared :=
          WeaveAttribute(v, paradigm, singleWeight, sliced, keys, decls, local, semiglobal, global);
        if !declared {
          MissingAt(all, i, singleWeight, keys);
          acc := Accessors(local, semiglobal, global);
          return decls, acc, Some(x.locality);
        }
        MissingLocalityAppend(woven, x, keys);
        attributes := attributes + [v.name];
        seen := seen + [v];
        woven := woven + [x];
      }
      i := i + 1;
    }
    assert all[..i] == all;
    acc := Accessors(local, semiglobal, global);
    missing := None;
  }

  /** The body of the weaver for a name not seen before: the attribute takes its effective
      locality and gets a branch in the bucket of that locality; it is declared when the
      declaration table has an entry for that locality, and `declared` is false when the
      lookup fails. */
  method WeaveAttribute(v: Attr, paradigm: Paradigm, singleWeight: bool, sliced: bool, declKeys: set<Locality>,
                        decls: seq<Decl>, local: seq<Branch>, semiglobal: Option<Branch>, global: seq<Branch>)
    returns (decls': seq<Decl>, local': seq<Branch>, semiglobal': Option<Branch>, global': seq<Branch>,
             x: Attr, declared: bool)
    ensures x == v.(locality := EffectiveLocality(v, singleWeight))
    ensures declared <==> x.locality in declKeys
    ensures decls' == decls + (if declared then [Decl(sliced, x.locality, x.name, x.ctype, "parameter")] else [])
    ensures local' == local + (if x.locality == Local then [BranchOf(x, paradigm)] else [])
    ensures global' == global + (if x.locality == Global then [BranchOf(x, paradigm)] else [])
    ensures semiglobal' == if x.locality == Semiglobal then Some(BranchOf(x, paradigm)) else semiglobal
  {
    var locality := v.locality;
    if v.name == "w" && singleWeight {
      locality := Global;
    }
    var dirty := if paradigm == Cuda then v.name + "_dirty = true;" else "";
    var branch := Branch(v.name, v.ctype, dirty);
    local', semiglobal', global' := local, semiglobal, global;
    if locality == Local {
      local' := local + [branch];
    } else if locality == Semiglobal {
      semiglobal' := Some(branch);
    } else {
      global' := global + [branch];
    }
    x := v.(locality := locality);
    declared := locality in declKeys;
    decls' := if declared then decls + [Decl(sliced, locality, v.name, v.ctype, "parameter")] else decls;
  }

  // Properties of the woven accessors

  /** Every distinct name is declared exactly once, with the locality of its first occurrence. */
  lemma WovenDeclarationsAreDistinct(parameters: seq<Attr>, variables: seq<Attr>, singleWeight: bool, sliced: bool)
    ensures var decls := DeclsOf(Effectives(Dedup(parameters + variables), singleWeight), sliced);
      forall i, j :: 0 <= i < j < |decls| ==> decls[i].name != decls[j].name
  {
    var d := Dedup(parameters + variables);
    DedupNamesDistinct(d);
    DedupNamesDistinct(parameters + variables);
    assert forall k :: 0 <= k < |d| ==> Names(d)[k] == d[k].name;
  }

  /** With a single weight, `w` is woven into the global accessors and never into the
      local ones, whatever locality the synapse description gives it. */
  lemma SingleWeightIsGlobal(xs: seq<Attr>, paradigm: Paradigm)
    ensures forall b :: b in BranchesAt(Effectives(xs, true), Local, paradigm) ==> b.name != "w"
    ensures forall a :: a in xs && a.name == "w" ==>
      BranchOf(a, paradigm) in BranchesAt(Effectives(xs, true), Global, paradigm)
  {
    var e := Effectives(xs, true);
    forall a | a in xs && a.name == "w"
      ensures BranchOf(a, paradigm) in BranchesAt(e, Global, paradigm)
    {
      var k :| 0 <= k < |xs| && xs[k] == a;
      assert e[k] in e;
      assert BranchOf(e[k], paradigm) == BranchOf(a, paradigm);
    }
  }

  /** Only the last semiglobal attribute keeps its accessor branch: the earlier ones are
      declared but cannot be read or written through the semiglobal accessors. */
  lemma {:induction false} SemiglobalLastWins(xs: seq<Attr>, paradigm: Paradigm, k: int)
    requires 0 <= k < |xs| && xs[k].locality == Semiglobal
    requires forall m :: k < m < |xs| ==> xs[m].locality != Semiglobal
    ensures LastSemiglobal(xs, paradigm) == Some(BranchOf(xs[k], paradigm))
    decreases |xs|
  {
    if k < |xs| - 1 {
      var p := xs[..|xs| - 1];
      assert p[k] == xs[k];
      SemiglobalLastWins(p, paradigm, k);
    }
  }

  lemma {:induction false} NoSemiglobalNoBranch(xs: seq<Attr>, paradigm: Paradigm)
    ensures LastSemiglobal(xs, paradigm) == None <==> forall m :: 0 <= m < |xs| ==> xs[m].locality != Semiglobal
  {
    if xs != [] {
      var p := xs[..|xs| - 1];
      NoSemiglobalNoBranch(p, paradigm);
      assert forall m :: 0 <= m < |p| ==> p[m] == xs[m];
    }
  }

  /** The dirty-flag statement of every woven setter is present exactly under CUDA. */
  lemma DirtyFlagsOnlyUnderCuda(xs: seq<Attr>, loc: Locality, paradigm: Paradigm)
    ensures forall b :: b in BranchesAt(xs, loc, paradigm) ==>
      (b.dirtyFlag != [] <==> paradigm == Cuda) && (paradigm == Cuda ==> b.dirtyFlag == b.name + "_dirty = true;")
  {
  }

  // ---------------------------------------------------------------------------
  // _get_attr_and_type

  /** A random distribution of a synapse description. */
  datatype RandomDist = RandomDist(name: string, locality: Locality, ctype: string)

  datatype SynapseDescription = SynapseDescription(parameters: seq<Attr>, variables: seq<Attr>, randoms: seq<RandomDist>)

  /** The label and the entry found for a name. Parameters are labelled 'var' and
      variables 'par', the reverse of what the names suggest. */
  datatype Found = FoundAttr(tag: string, attr: Attr) | FoundRandom(tag: string, dist: RandomDist)

  /** `xs[k]` is the first attribute of `xs` called `name`. */
  predicate FirstNamed(xs: seq<Attr>, name: string, k: int) {
    0 <= k < |xs| && xs[k].name == name && forall m :: 0 <= m < k ==> xs[m].name != name
  }

  function FindAttr(xs: seq<Attr>, name: string): (r: Option<Attr>)
    ensures r.Some? <==> name in Names(xs)
    ensures r.Some? ==> exists k :: FirstNamed(xs, name, k) && xs[k] == r.value
  {
    if xs == [] then None
    else if xs[0].name == name then Some(xs[0])
    else
      var r := FindAttr(xs[1..], name);
      FindAttrTail(xs, name, r);
      r
  }

  /** A match in the tail, past a head of another name, is the first match of the list. */
  lemma FindAttrTail(xs: seq<Attr>, name: string, r: Option<Attr>)
    requires xs != [] && xs[0].name != name
    requires r.Some? <==> name in Names(xs[1..])
    requires r.Some? ==> exists k :: FirstNamed(xs[1..], name, k) && xs[1..][k] == r.value
    ensures r.Some? <==> name in Names(xs)
    ensures r.Some? ==> exists k :: FirstNamed(xs, name, k) && xs[k] == r.value
  {
    assert Names(xs) == [xs[0].name] + Names(xs[1..]);
    if r.Some? {
      var k :| FirstNamed(xs[1..], name, k) && xs[1..][k] == r.value;
      forall m | 0 <= m < k + 1
        ensures xs[m].name != name
      {
        if m > 0 {
          assert xs[m] == xs[1..][m - 1];
        }
      }
      assert FirstNamed(xs, name, k + 1) && xs[k + 1] == r.value;
    }
  }

  function FindRandom(xs: seq<RandomDist>, name: string): (r: Option<RandomDist>)
    ensures r.Some? <==> exists k :: 0 <= k < |xs| && xs[k].name == name
    ensures r.Some? ==> r.value in xs && r.value.name == name
  {
    if xs == [] then None
    else if xs[0].name == name then Some(xs[0])
    else
      var r := FindRandom(xs[1..], name);
      assert forall k :: 0 < k < |xs| ==> xs[k] == xs[1..][k - 1];
      r
  }

  /** _get_attr_and_type: parameters are searched first, then variables, then random
      distributions; None stands for the (None, None) of a name found nowhere. */
  function GetAttrAndType(desc: SynapseDescription, name: string): (r: Option<Found>)
    ensures r.Some? <==> name in Names(desc.parameters) || name in Names(desc.variables)
                         || exists k :: 0 <= k < |desc.randoms| && desc.randoms[k].name == name
    ensures r.Some? && r.value.tag == "var" <==> name in Names(desc.parameters)
    ensures r.Some? && r.value.tag == "par" <==> name !in Names(desc.parameters) && name in Names(desc.variables)
    ensures r.Some? && r.value.tag == "rand" <==>
      name !in Names(desc.parameters) && name !in Names(desc.variables) && exists k :: 0 <= k < |desc.randoms| && desc.randoms[k].name == name
    ensures r.Some? && r.value.FoundAttr? ==> r.value.attr.name == name
    ensures r.Some? && r.value.FoundRandom? ==> r.value.dist in desc.randoms && r.value.dist.name == name
  {
    match FindAttr(desc.parameters, name)
    case Some(a) => Some(FoundAttr("var", a))
    case None =>
      match FindAttr(desc.variables, name)
      case Some(a) => Some(FoundAttr("par", a))
      case None =>
        match FindRandom(desc.randoms, name)
        case Some(rd) => Some(FoundRandom("rand", rd))
        case None => None
  }

  // ---------------------------------------------------------------------------
  // get_bounds

  /** One entry of the ordered 'bounds' dictionary of a variable. */
  datatype Bound = Bound(key: string, value: string)

  /** One generated clamp `if(<var><index> <op> <val>) <var><index> = <val>;`. */
  datatype Clamp = Clamp(variable: string, op: char, value: string)

  /** The clamps generated for a variable, in dictionary order. */
  function BoundClamps(name: string, bounds: seq<Bound>): (r: seq<Clamp>)
    ensures |r| <= |bounds|
  {
    if bounds == [] then []
    else
      var rest := BoundClamps(name, bounds[..|bounds| - 1]);
      var b := bounds[|bounds| - 1];
      if b.key == "init" then rest
      else rest + [Clamp(name, if b.key == "min" then '<' else '>', b.value)]
  }

  /** The index placeholder left in the clamp text for the caller to fill. */
  const LocalIndex: string := "%(local_index)s"

  function RenderClamp(c: Clamp): string {
    "if(" + c.variable + LocalIndex + " " + [c.op] + " " + c.value + ")\n    "
      + c.variable + LocalIndex + " = " + c.value + ";\n"
  }

  function RenderClamps(cs: seq<Clamp>): string {
    if cs == [] then "" else RenderClamps(cs[..|cs| - 1]) + RenderClamp(cs[|cs| - 1])
  }

  /** get_bounds: the text of the clamps of a variable. */
  function GetBounds(name: string, bounds: seq<Bound>): (r: string)
    ensures (forall k :: 0 <= k < |bounds| ==> bounds[k].key == "init") ==> r == ""
  {
    NoClampsForInitOnly(name, bounds);
    RenderClamps(BoundClamps(name, bounds))
  }

  lemma {:induction false} NoClampsForInitOnly(name: string, bounds: seq<Bound>)
    ensures (forall k :: 0 <= k < |bounds| ==> bounds[k].key == "init") ==> BoundClamps(name, bounds) == []
  {
    if bounds != [] {
      NoClampsForInitOnly(name, bounds[..|bounds| - 1]);
    }
  }

  /** Each bound other than 'init' gives exactly one clamp, in order: a lower clamp ('<')
      for 'min' and an upper clamp ('>') for every other key. */
  lemma {:induction false} ClampsFollowBounds(name: string, bounds: seq<Bound>)
    ensures var cs := BoundClamps(name, bounds);
      var kept := NonInit(bounds);
      && |cs| == |kept|
      && forall k :: 0 <= k < |cs| ==>
           cs[k].variable == name && cs[k].value == kept[k].value
           && (cs[k].op == '<' <==> kept[k].key == "min")
           && (cs[k].op != '<' ==> cs[k].op == '>')
  {
    if bounds != [] {
      ClampsFollowBounds(name, bounds[..|bounds| - 1]);
    }
  }

  /** The bounds other than 'init', in order. */
  function NonInit(bounds: seq<Bound>): (r: seq<Bound>)
    ensures forall b :: b in r ==> b in bounds && b.key != "init"
    ensures forall b :: b in bounds && b.key != "init" ==> b in r
  {
    if bounds == [] then []
    else
      var b := bounds[|bounds| - 1];
      var p := bounds[..|bounds| - 1];
      assert bounds == p + [b];
      if b.key == "init" then NonInit(p) else NonInit(p) + [b]
  }
}
