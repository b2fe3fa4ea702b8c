/** Initialisation and size accounting of a projection's parameters and variables
    (ProjectionGenerator._init_parameters_variables, _determine_size_in_bytes) and the
    delay-kind choice of its declarations (_declaration_accessors). */
module ProjectionInit {
  import opened Common
  import opened ProjectionAttributes
  import FormatSelection

  // ---------------------------------------------------------------------------
  // Delay kind of the declarations

  /** The delay template chosen for the declarations, and whether a CUDA exception was
      built and dropped on the way. */
  datatype DelayDecl = DelayDecl(key: Option<string>, discardedCudaException: bool)

  /** _declaration_accessors, delay part: no delay declarations unless max_delay > 1; a
      uniform delay above one step uses the uniform template; otherwise the non-uniform
      template of the synapse kind, after dropping an exception under CUDA. */
  function DelayKey(maxDelay: int, uniformDelay: int, paradigm: Paradigm, kind: Kind): (r: DelayDecl)
    ensures r.key.None? <==> maxDelay <= 1
    ensures r.key == Some("uniform") <==> maxDelay > 1 && uniformDelay > 1
    ensures r.key == Some("nonuniform_rate_coded") <==> maxDelay > 1 && uniformDelay <= 1 && kind == Rate
    ensures r.key == Some("nonuniform_spiking") <==> maxDelay > 1 && uniformDelay <= 1 && kind != Rate
    ensures r.discardedCudaException <==> maxDelay > 1 && uniformDelay <= 1 && paradigm == Cuda
  {
    if maxDelay > 1 then
      if uniformDelay > 1 then DelayDecl(Some("uniform"), false)
      else DelayDecl(Some(if kind == Rate then "nonuniform_rate_coded" else "nonuniform_spiking"), paradigm == Cuda)
    else DelayDecl(None, false)
  }

  /** The declaration template of the chosen delay kind, read from the delay table: none
      up to max_delay 1, otherwise the entry of that kind, or the KeyError of the lookup. */
  function DeclareDelay(decl: DelayDecl, delayKeys: set<string>): (r: Result<Option<string>>)
    ensures r.Err? <==> decl.key.Some? && decl.key.value !in delayKeys
    ensures r.Err? ==> r.error == KeyError(decl.key.value)
    ensures r.Ok? ==> r.value == decl.key
  {
    match decl.key
    case None => Ok(None)
    case Some(k) => if k in delayKeys then Ok(Some(k)) else Err(KeyError(k))
  }

  /** The entries of the delay table of the CUDA CSR format, which holds the snippets of
      one non-uniform delay directly instead of one entry per delay kind. */
  const CsrCudaDelayKeys: set<string> := {"declare", "pyx_struct", "pyx_wrapper_init", "pyx_wrapper_accessor"}

  /** With the CUDA CSR format, every projection with max_delay > 1 fails the lookup of its
      delay declaration, whatever the delay kind. */
  lemma CsrCudaDelaysFail(maxDelay: int, uniformDelay: int, paradigm: Paradigm, kind: Kind)
    ensures DeclareDelay(DelayKey(maxDelay, uniformDelay, paradigm, kind), CsrCudaDelayKeys).Err?
        <==> maxDelay > 1
  {
    var decl := DelayKey(maxDelay, uniformDelay, paradigm, kind);
    if maxDelay > 1 {
      assert decl.key.value in {"uniform", "nonuniform_rate_coded", "nonuniform_spiking"};
    }
  }

  // ---------------------------------------------------------------------------
  // Initial values

  /** The default initial value of an attribute of a C++ type. */
  function DefaultInit(ctype: string): (r: string)
    ensures r == "false" <==> ctype == "bool"
    ensures r == "0" <==> ctype == "int"
    ensures r == "0.0" <==> ctype != "bool" && ctype != "int"
  {
    if ctype == "bool" then "false" else if ctype == "int" then "0" else "0.0"
  }

  /** The distribution given for the connector's weights or delays. */
  datatype Dist = NoDist | UniformDist | NormalDist | OtherDist(typeName: string)

  /** The type name an error message shows for a distribution. */
  function DistTypeName(d: Dist): string {
    match d
    case NoDist => "NoneType"
    case UniformDist => "Uniform"
    case NormalDist => "Normal"
    case OtherDist(n) => n
  }

  /** The pre-synaptic side: a population, or a view whose delays belong to its population. */
  datatype PreSide = PrePopulation(id: nat) | PreView(viewId: nat, populationId: nat)

  function IdPre(p: PreSide): nat {
    match p
    case PrePopulation(id) => id
    case PreView(_, populationId) => populationId
  }

  /** What the initialisation reads from the projection and the configuration. */
  datatype InitContext = InitContext(
    paradigm: Paradigm,
    cppPattern: bool,           // the connector is one of the patterns built in C++
    weightDist: Dist,
    delayDist: Dist,
    singleWeight: bool,
    singleSpmvMatrix: bool,
    maxDelay: int,
    synapseKind: Kind,
    pre: PreSide,
    structuralPlasticity: bool,
    hasPruning: bool,
    hasCreating: bool,
    initLocalities: set<Locality>,  // the entries of the attribute_cpp_init table
    delayKeys: set<string>)         // the entries of the delay table, each with its templates

  /** The weight initialisation. */
  datatype WeightCode =
    | NoWeightCode                                           // no attribute named w
    | ScalarFromArg                                          // w = w_dist_arg1;
    | ScalarFromValues                                       // w = values[0][0];
    | LocalFromArg(ctype: string, attrType: string, gpuCopy: bool)
    | UniformMatrix(firstRng: bool, gpuCopy: bool)           // rng[0] when one matrix
    | NormalMatrix(firstRng: bool, gpuCopy: bool)
    | FromLil(ctype: string, init: string, attrType: string) // default, then update from values

  /** The delay initialisation. */
  datatype DelayCode =
    | NoDelayCode
    | DelayFromArg                                           // delay = d_dist_arg1;
    | UniformDelayTemplate
    | DiscreteUniformDelay(firstRng: bool)                   // and max_delay = -1
    | NonuniformRateDelay(idPre: nat)
    | NonuniformSpikingDelay(idPre: nat)

  /** The initialisation of one attribute other than w. */
  datatype AttrInit = AttrInit(locality: Locality, name: string, ctype: string, init: string, attrType: string)

  datatype InitCode =
    | Generated(weight: WeightCode, delay: DelayCode, attrs: seq<AttrInit>,
                eventDriven: bool, pruning: bool, creating: bool)
    | Overridden(text: string)

  /** 'parameter' for an entry of the parameter list, 'variable' otherwise. */
  function AttrType(a: Attr, parameters: seq<Attr>): (r: string)
    ensures r == "parameter" <==> a in parameters
  {
    if a in parameters then "parameter" else "variable"
  }

  /** The code of a local weight taken from the `local` entry of the attribute_cpp_init
      table, or the KeyError of its lookup. */
  function FromLocalEntry(ctx: InitContext, code: WeightCode): Result<WeightCode> {
    if Local in ctx.initLocalities then Ok(code) else Err(KeyError(LocalityKey(Local)))
  }

  /** The weight initialisation for the attribute `w`. */
  function WeightInit(ctx: InitContext, w: Attr, attrType: string): Result<WeightCode> {
    if w.locality == Global || ctx.singleWeight then
      Ok(if ctx.cppPattern then ScalarFromArg else ScalarFromValues)
    else if w.locality == Local then
      if ctx.cppPattern then
        match ctx.weightDist
        case NoDist => FromLocalEntry(ctx, LocalFromArg(w.ctype, attrType, ctx.paradigm == Cuda))
        case UniformDist => Ok(UniformMatrix(ctx.singleSpmvMatrix, ctx.paradigm == Cuda))
        case NormalDist => Ok(NormalMatrix(ctx.singleSpmvMatrix, ctx.paradigm == Cuda))
        case OtherDist(_) => Err(NotImplemented(DistTypeName(ctx.weightDist) + " is not available."))
      else FromLocalEntry(ctx, FromLil(w.ctype, DefaultInit(w.ctype), attrType))
    else Err(NotImplemented(""))
  }

  /** The weight initialisation of a deduplicated attribute list. */
  function WeightOf(ctx: InitContext, d: seq<Attr>, parameters: seq<Attr>): Result<WeightCode> {
    match FindAttr(d, "w")
    case None => Ok(NoWeightCode)
    case Some(w) => WeightInit(ctx, w, AttrType(w, parameters))
  }

  /** The delay template a connector not built in C++ reads: `uniform` without a delay
      distribution, otherwise the non-uniform template of the synapse kind. */
  function DelayTemplateKey(ctx: InitContext): string {
    if ctx.delayDist == NoDist then "uniform"
    else if ctx.synapseKind == Rate then "nonuniform_rate_coded"
    else "nonuniform_spiking"
  }

  /** The delay code read from the delay table, or the KeyError of its lookup. */
  function FromDelayTable(ctx: InitContext, code: DelayCode): Result<DelayCode> {
    if DelayTemplateKey(ctx) in ctx.delayKeys then Ok(code) else Err(KeyError(DelayTemplateKey(ctx)))
  }

  /** The delay initialisation. The error for an unsupported delay distribution names the
      type of the weight distribution. */
  function DelayInit(ctx: InitContext): Result<DelayCode> {
    if ctx.maxDelay > 1 then
      match ctx.delayDist
      case NoDist => if ctx.cppPattern then Ok(DelayFromArg) else FromDelayTable(ctx, UniformDelayTemplate)
      case UniformDist =>
        if ctx.cppPattern then Ok(DiscreteUniformDelay(ctx.singleSpmvMatrix))
        else if ctx.synapseKind == Rate then FromDelayTable(ctx, NonuniformRateDelay(IdPre(ctx.pre)))
        else FromDelayTable(ctx, NonuniformSpikingDelay(IdPre(ctx.pre)))
      case _ => Err(NotImplemented(DistTypeName(ctx.weightDist) + " is not available."))
    else Ok(NoDelayCode)
  }

  function AttrInitOf(a: Attr, parameters: seq<Attr>): AttrInit {
    AttrInit(a.locality, a.name, a.ctype, DefaultInit(a.ctype), AttrType(a, parameters))
  }

  /** The initialisations of the attributes other than w, in order. */
  function AttrInits(d: seq<Attr>, parameters: seq<Attr>): (r: seq<AttrInit>)
    ensures |r| <= |d|
  {
    if d == [] then []
    else
      var a := d[|d| - 1];
      var rest := AttrInits(d[..|d| - 1], parameters);
      if a.name == "w" then rest else rest + [AttrInitOf(a, parameters)]
  }

  predicate HasEventDriven(variables: seq<Attr>) {
    exists k :: 0 <= k < |variables| && variables[k].update == EventDriven
  }

  /** The error one attribute raises in the initialisation loop, if any: `w` fails as its
      weight initialisation does, any other attribute when the attribute_cpp_init table has
      no entry for its locality. */
  function StepError(ctx: InitContext, v: Attr, parameters: seq<Attr>): Option<GenError> {
    if v.name == "w" then
      match WeightInit(ctx, v, AttrType(v, parameters))
      case Err(e) => Some(e)
      case Ok(_) => None
    else if v.locality in ctx.initLocalities then None
    else Some(KeyError(LocalityKey(v.locality)))
  }

  /** The attribute loop over a deduplicated list: the error of the first attribute that
      raises one, otherwise the weight code and the initialisations of the other attributes. */
  function AttrLoop(ctx: InitContext, d: seq<Attr>, parameters: seq<Attr>): Result<(WeightCode, seq<AttrInit>)> {
    if d == [] then Ok((NoWeightCode, []))
    else
      var v := d[|d| - 1];
      match AttrLoop(ctx, d[..|d| - 1], parameters)
      case Err(e) => Err(e)
      case Ok(prev) =>
        match StepError(ctx, v, parameters)
        case Some(e) => Err(e)
        case None =>
          if v.name == "w" then Ok((WeightInit(ctx, v, AttrType(v, parameters)).value, prev.1))
          else Ok((prev.0, prev.1 + [AttrInitOf(v, parameters)]))
  }

  /** The reference result of the initialisation: the error of the attribute loop first, then
      the delay error, otherwise the three code parts. */
  function InitReference(ctx: InitContext, parameters: seq<Attr>, variables: seq<Attr>): Result<InitCode> {
    match AttrLoop(ctx, Dedup(parameters + variables), parameters)
    case Err(e) => Err(e)
    case Ok(attrs) =>
      match DelayInit(ctx)
      case Err(e) => Err(e)
      case Ok(dc) =>
        Ok(Generated(attrs.0, dc, attrs.1, HasEventDriven(variables),
                     ctx.structuralPlasticity && ctx.hasPruning, ctx.structuralPlasticity && ctx.hasCreating))
  }

  lemma {:induction false} FindAttrAppend(d: seq<Attr>, v: Attr, name: string)
    ensures FindAttr(d + [v], name) == if name in Names(d) then FindAttr(d, name)
                                        else if v.name == name then Some(v) else None
  {
    if d == [] {
      assert [v][1..] == [];
    } else {
      assert (d + [v])[1..] == d[1..] + [v];
      assert Names(d) == [d[0].name] + Names(d[1..]);
      FindAttrAppend(d[1..], v, name);
    }
  }

  lemma AttrInitsAppend(d: seq<Attr>, v: Attr, parameters: seq<Attr>)
    ensures AttrInits(d + [v], parameters)
         == AttrInits(d, parameters) + (if v.name == "w" then [] else [AttrInitOf(v, parameters)])
  {
    assert (d + [v])[..|d|] == d;
  }

  /** The scan for an event-driven variable, stopping at the first. */
  method FindEventDriven(variables: seq<Attr>) returns (found: bool)
    ensures found <==> HasEventDriven(variables)
  {
    found := false;
    var k := 0;
    while k < |variables|
      invariant 0 <= k <= |variables|
      invariant !found
      invariant forall m :: 0 <= m < k ==> variables[m].update != EventDriven
    {
      if variables[k].update == EventDriven {
        found := true;
        return;
      }
      k := k + 1;
    }
  }

  /** The attribute loop of _init_parameters_variables over `all`, the parameters then the
      variables, once per name: `w` gets the weight initialisation and every other attribute
      the attribute_cpp_init entry of its locality, and the first failure aborts the loop. */
  method InitAttributes(ctx: InitContext, parameters: seq<Attr>, all: seq<Attr>)
    returns (r: Result<(WeightCode, seq<AttrInit>)>)
    ensures r == AttrLoop(ctx, Dedup(all), parameters)
  {
    var attributes: seq<string> := [];
    var weight: WeightCode := NoWeightCode;
    var code: seq<AttrInit> := [];
    var i := 0;
    ghost var seen: seq<Attr> := [];
    assert all[..0] == [];
    assert seen == Dedup(all[..0]);
    while i < |all|
      invariant 0 <= i <= |all|
      invariant seen == Dedup(all[..i])
      invariant attributes == Names(seen)
      invariant AttrLoop(ctx, seen, parameters) == Ok((weight, code))
    {
      var v := all[i];
      DedupAdvance(all, i, seen);
      if v.name !in attributes {
        var step := InitAttribute(ctx, v, parameters);
        LoopAdvance(ctx, seen, v, parameters, (weight, code), step);
        if step.Err? {
          AttrLoopFailed(ctx, seen + [v], Dedup(all), parameters);
          return Err(step.error);
        }
        match step.value {
          case Weight(wc) => weight := wc;
          case Other(init) => code := code + [init];
        }
        attributes := attributes + [v.name];
        seen := seen + [v];
      }
      assert seen == Dedup(all[..i + 1]);
      i := i + 1;
    }
    assert all[..i] == all;
    r := Ok((weight, code));
  }

  /** The outcome of the loop body for one attribute. */
  datatype Initialised = Weight(code: WeightCode) | Other(init: AttrInit)

  function AsWeight(w: Result<WeightCode>): Result<Initialised> {
    match w
    case Err(e) => Err(e)
    case Ok(wc) => Ok(Weight(wc))
  }

  /** The body of the initialisation loop for a name not seen before: `w` gets the weight
      initialisation, any other attribute its default from the attribute_cpp_init entry of
      its locality, or the KeyError of that lookup. */
  method InitAttribute(ctx: InitContext, v: Attr, parameters: seq<Attr>) returns (r: Result<Initialised>)
    ensures v.name == "w" ==> r == AsWeight(WeightInit(ctx, v, AttrType(v, parameters)))
    ensures v.name != "w" ==>
      r == if v.locality in ctx.initLocalities then Ok(Other(AttrInitOf(v, parameters)))
           else Err(KeyError(LocalityKey(v.locality)))
  {
    if v.name == "w" {
      var w := WeightInit(ctx, v, AttrType(v, parameters));
      if w.Err? {
        return Err(w.error);
      }
      return Ok(Weight(w.value));
    }
    if v.locality !in ctx.initLocalities {
      return Err(KeyError(LocalityKey(v.locality)));
    }
    var init := if v.ctype == "bool" then "false" else if v.ctype == "int" then "0" else "0.0";
    var attrType := if v in parameters then "parameter" else "variable";
    r := Ok(Other(AttrInit(v.locality, v.name, v.ctype, init, attrType)));
  }

  /** One step of the reference loop. */
  lemma LoopStep(ctx: InitContext, d: seq<Attr>, v: Attr, parameters: seq<Attr>)
    ensures AttrLoop(ctx, d + [v], parameters)
         == match AttrLoop(ctx, d, parameters)
            case Err(e) => Err(e)
            case Ok(prev) =>
              match StepError(ctx, v, parameters)
              case Some(e) => Err(e)
              case None =>
                if v.name == "w" then Ok((WeightInit(ctx, v, AttrType(v, parameters)).value, prev.1))
                else Ok((prev.0, prev.1 + [AttrInitOf(v, parameters)]))
  {
    assert (d + [v])[..|d|] == d;
  }

  /** The weight code and the initialisations after one successful loop body. */
  function Advance(prev: (WeightCode, seq<AttrInit>), s: Initialised): (WeightCode, seq<AttrInit>) {
    match s
    case Weight(wc) => (wc, prev.1)
    case Other(init) => (prev.0, prev.1 + [init])
  }

  /** The loop body for a new attribute extends the reference loop by that attribute. */
  lemma LoopAdvance(ctx: InitContext, d: seq<Attr>, v: Attr, parameters: seq<Attr>,
                    prev: (WeightCode, seq<AttrInit>), s: Result<Initialised>)
    requires AttrLoop(ctx, d, parameters) == Ok(prev)
    requires v.name == "w" ==> s == AsWeight(WeightInit(ctx, v, AttrType(v, parameters)))
    requires v.name != "w" ==>
      s == if v.locality in ctx.initLocalities then Ok(Other(AttrInitOf(v, parameters)))
           else Err(KeyError(LocalityKey(v.locality)))
    ensures s.Err? ==> AttrLoop(ctx, d + [v], parameters) == Err(s.error)
    ensures s.Ok? ==> AttrLoop(ctx, d + [v], parameters) == Ok(Advance(prev, s.value))
  {
    LoopStep(ctx, d, v, parameters);
  }

  /** One index further, the deduplicated prefix either stays or grows by the new entry,
      which then lies on the way to the whole deduplicated list. */
  lemma DedupAdvance(all: seq<Attr>, i: int, d: seq<Attr>)
    requires 0 <= i < |all| && d == Dedup(all[..i])
    ensures all[i].name in Names(d) ==> Dedup(all[..i + 1]) == d
    ensures all[i].name !in Names(d) ==>
      && Dedup(all[..i + 1]) == d + [all[i]]
      && Names(d + [all[i]]) == Names(d) + [all[i].name]
      && d + [all[i]] <= Dedup(all)
  {
    DedupStep(all, i);
    DedupPrefix(all, i + 1);
    assert Names(d + [all[i]]) == Names(d) + [all[i].name];
  }

  /** Once the loop has failed, no later attribute changes the error. */
  lemma {:induction false} AttrLoopFailed(ctx: InitContext, p: seq<Attr>, d: seq<Attr>, parameters: seq<Attr>)
    requires p <= d && AttrLoop(ctx, p, parameters).Err?
    ensures AttrLoop(ctx, d, parameters) == AttrLoop(ctx, p, parameters)
  {
    if |p| < |d| {
      var q := d[..|d| - 1];
      assert p <= q by {
        assert q[..|p|] == d[..|p|];
      }
      AttrLoopFailed(ctx, p, q, parameters);
    } else {
      assert p == d;
    }
  }

  /** _init_parameters_variables: a specific template wins; otherwise the attribute loop,
      whose weight error comes first, then the delay initialisation, whose error comes
      next, then the scan for an event-driven variable. */
  method InitParametersVariables(ctx: InitContext, specific: Option<string>,
                                 parameters: seq<Attr>, variables: seq<Attr>)
    returns (r: Result<InitCode>)
    ensures specific.Some? ==> r == Ok(Overridden(specific.value))
    ensures specific.None? ==> r == InitReference(ctx, parameters, variables)
  {
    if specific.Some? {
      return Ok(Overridden(specific.value));
    }
    var attrs := InitAttributes(ctx, parameters, parameters + variables);
    if attrs.Err? {
      return Err(attrs.error);
    }
    var delay := DelayInit(ctx);
    if delay.Err? {
      return Err(delay.error);
    }
    var eventDriven := FindEventDriven(variables);
    r := Ok(Generated(attrs.value.0, delay.value, attrs.value.1, eventDriven,
                      ctx.structuralPlasticity && ctx.hasPruning, ctx.structuralPlasticity && ctx.hasCreating));
  }

  // Properties of the initialisation

  /** A global or single weight is one scalar, taken from the first distribution argument
      for connectors built in C++ and from the first value otherwise. */
  lemma ScalarWeight(ctx: InitContext, w: Attr, attrType: string)
    requires w.locality == Global || ctx.singleWeight
    ensures WeightInit(ctx, w, attrType) == Ok(if ctx.cppPattern then ScalarFromArg else ScalarFromValues)
  {
  }

  /** The weight initialisation fails exactly for a non-scalar w that is semiglobal, that is
      local with a distribution other than none, uniform and normal on a C++ connector, or
      that is local and read from the `local` entry of a table that has none. */
  lemma WeightInitFails(ctx: InitContext, w: Attr, attrType: string)
    ensures WeightInit(ctx, w, attrType).Err? <==>
      !(w.locality == Global || ctx.singleWeight)
      && (|| w.locality == Semiglobal
          || (ctx.cppPattern && ctx.weightDist.OtherDist?)
          || ((!ctx.cppPattern || ctx.weightDist == NoDist) && Local !in ctx.initLocalities))
    ensures WeightInit(ctx, w, attrType).Err? && w.locality == Local && !ctx.weightDist.OtherDist? ==>
      WeightInit(ctx, w, attrType).error == KeyError("local")
  {
  }

  /** Only connectors built in C++ mirror the weights to the device; under CUDA they always do. */
  lemma WeightDeviceCopy(ctx: InitContext, w: Attr, attrType: string)
    requires w.locality == Local && !ctx.singleWeight && ctx.cppPattern && !ctx.weightDist.OtherDist?
    ensures var r := WeightInit(ctx, w, attrType);
      && (r.Ok? <==> ctx.weightDist != NoDist || Local in ctx.initLocalities)
      && (r.Ok? ==> (r.value.LocalFromArg? || r.value.UniformMatrix? || r.value.NormalMatrix?)
                    && (r.value.gpuCopy <==> ctx.paradigm == Cuda))
  {
  }

  /** Delays are initialised only when max_delay > 1. An unsupported delay distribution is
      reported under the type name of the weight distribution; a connector not built in C++
      reads its delay code from the delay table and fails when the entry is missing. */
  lemma DelayInitCases(ctx: InitContext)
    ensures ctx.maxDelay <= 1 ==> DelayInit(ctx) == Ok(NoDelayCode)
    ensures DelayInit(ctx).Err? <==>
      ctx.maxDelay > 1
      && (|| (ctx.delayDist != NoDist && ctx.delayDist != UniformDist)
          || (!ctx.cppPattern && DelayTemplateKey(ctx) !in ctx.delayKeys))
    ensures DelayInit(ctx).Err? && (ctx.delayDist == NoDist || ctx.delayDist == UniformDist) ==>
      DelayInit(ctx).error == KeyError(DelayTemplateKey(ctx))
    ensures DelayInit(ctx).Err? && ctx.delayDist != NoDist && ctx.delayDist != UniformDist ==>
      DelayInit(ctx).error == NotImplemented(DistTypeName(ctx.weightDist) + " is not available.")
  {
  }

  /** With the CUDA CSR format, a connector not built in C++ with max_delay > 1 fails the
      lookup of its delay initialisation for a constant or uniform delay distribution. */
  lemma CsrCudaDelayInitFails(ctx: InitContext)
    requires ctx.delayKeys == CsrCudaDelayKeys && ctx.maxDelay > 1 && !ctx.cppPattern
    requires ctx.delayDist == NoDist || ctx.delayDist == UniformDist
    ensures DelayInit(ctx) == Err(KeyError(DelayTemplateKey(ctx)))
  {
    assert DelayTemplateKey(ctx) in {"uniform", "nonuniform_rate_coded", "nonuniform_spiking"};
  }

  /** Non-uniform delays read from a view are indexed by its population. */
  lemma DelayOfView(ctx: InitContext, viewId: nat, populationId: nat)
    requires ctx.maxDelay > 1 && ctx.delayDist == UniformDist && !ctx.cppPattern
    requires ctx.pre == PreView(viewId, populationId)
    ensures DelayInit(ctx) == FromDelayTable(ctx, if ctx.synapseKind == Rate then NonuniformRateDelay(populationId)
                                                  else NonuniformSpikingDelay(populationId))
  {
  }

  /** The loop fails exactly when some attribute raises an error, and then with the error of
      the first such attribute. */
  lemma {:induction false} AttrLoopFirstError(ctx: InitContext, d: seq<Attr>, parameters: seq<Attr>)
    ensures AttrLoop(ctx, d, parameters).Err? <==> exists k :: 0 <= k < |d| && StepError(ctx, d[k], parameters).Some?
    ensures forall k :: 0 <= k < |d| && StepError(ctx, d[k], parameters).Some?
                        && (forall m :: 0 <= m < k ==> StepError(ctx, d[m], parameters).None?) ==>
      AttrLoop(ctx, d, parameters) == Err(StepError(ctx, d[k], parameters).value)
  {
    if d != [] {
      var p, v := d[..|d| - 1], d[|d| - 1];
      AttrLoopFirstError(ctx, p, parameters);
      assert forall m :: 0 <= m < |p| ==> p[m] == d[m];
      assert d == p + [v];
      LoopStep(ctx, p, v, parameters);
    }
  }

  /** When every name occurs once and the loop succeeds, its result is the weight
      initialisation of the first `w` and the default initialisations of the others. */
  lemma {:induction false} AttrLoopMatchesDefaults(ctx: InitContext, d: seq<Attr>, parameters: seq<Attr>)
    requires Distinct(Names(d))
    ensures AttrLoop(ctx, d, parameters).Ok? ==>
      && WeightOf(ctx, d, parameters) == Ok(AttrLoop(ctx, d, parameters).value.0)
      && AttrLoop(ctx, d, parameters).value.1 == AttrInits(d, parameters)
  {
    if d != [] {
      var p, v := d[..|d| - 1], d[|d| - 1];
      assert d == p + [v];
      assert Names(d) == Names(p) + [v.name];
      assert Distinct(Names(p)) by {
        assert forall i :: 0 <= i < |Names(p)| ==> Names(p)[i] == Names(d)[i];
      }
      assert v.name !in Names(p) by {
        assert forall i :: 0 <= i < |Names(p)| ==> Names(d)[i] != Names(d)[|Names(p)|];
      }
      AttrLoopMatchesDefaults(ctx, p, parameters);
      LoopStep(ctx, p, v, parameters);
      FindAttrAppend(p, v, "w");
      AttrInitsAppend(p, v, parameters);
    }
  }

  /** Over distinct names, the loop succeeds when the weight does and every other attribute
      has an entry for its locality, and then yields the weight and the default
      initialisations. */
  lemma {:induction false} LoopSucceeds(ctx: InitContext, d: seq<Attr>, parameters: seq<Attr>, weight: WeightCode)
    requires Distinct(Names(d))
    requires WeightOf(ctx, d, parameters) == Ok(weight)
    requires forall k :: 0 <= k < |d| ==> d[k].name == "w" || d[k].locality in ctx.initLocalities
    ensures AttrLoop(ctx, d, parameters) == Ok((weight, AttrInits(d, parameters)))
  {
    AttrLoopFirstError(ctx, d, parameters);
    forall k | 0 <= k < |d| ensures StepError(ctx, d[k], parameters).None? {
      if d[k].name == "w" {
        FindAttrDistinct(d, k);
      }
    }
    AttrLoopMatchesDefaults(ctx, d, parameters);
  }

  /** Over distinct names, the attribute at index k is the one found under its name. */
  lemma {:induction false} FindAttrDistinct(d: seq<Attr>, k: int)
    requires Distinct(Names(d)) && 0 <= k < |d|
    ensures FindAttr(d, d[k].name) == Some(d[k])
  {
    assert Names(d) == [d[0].name] + Names(d[1..]);
    if k > 0 {
      assert Names(d)[0] != Names(d)[k];
      assert Distinct(Names(d[1..])) by {
        assert forall i :: 0 <= i < |Names(d[1..])| ==> Names(d[1..])[i] == Names(d)[i + 1];
      }
      FindAttrDistinct(d[1..], k - 1);
    }
  }

  /** The CUDA CSR format has no semiglobal entry: the loop fails as soon as the synapse has a
      semiglobal attribute other than `w`. */
  lemma CsrCudaSemiglobalInitFails(ctx: InitContext, d: seq<Attr>, parameters: seq<Attr>, k: int)
    requires ctx.initLocalities == CsrCudaLocalities
    requires 0 <= k < |d| && d[k].name != "w" && d[k].locality == Semiglobal
    ensures AttrLoop(ctx, d, parameters).Err?
  {
    AttrLoopFirstError(ctx, d, parameters);
    assert StepError(ctx, d[k], parameters).Some?;
  }

  /** The attributes other than w are initialised once per name, never w, each with the
      default of its type and labelled by the list it comes from. */
  lemma AttrInitsAreDefaults(d: seq<Attr>, parameters: seq<Attr>)
    ensures forall a :: a in AttrInits(d, parameters) ==>
      a.name != "w" && a.init == DefaultInit(a.ctype)
      && exists x :: x in d && x.name == a.name && a.attrType == AttrType(x, parameters)
    ensures forall x :: x in d && x.name != "w" ==> AttrInitOf(x, parameters) in AttrInits(d, parameters)
  {
    AttrInitsSound(d, parameters);
    AttrInitsComplete(d, parameters);
  }

  lemma {:induction false} AttrInitsSound(d: seq<Attr>, parameters: seq<Attr>)
    ensures forall a :: a in AttrInits(d, parameters) ==>
      a.name != "w" && a.init == DefaultInit(a.ctype)
      && exists x :: x in d && x.name == a.name && a.attrType == AttrType(x, parameters)
  {
    if d != [] {
      var p, v := d[..|d| - 1], d[|d| - 1];
      AttrInitsSound(p, parameters);
      assert d == p + [v];
      AttrInitsAppend(p, v, parameters);
      var prev := AttrInits(p, parameters);
      forall a | a in AttrInits(d, parameters)
        ensures a.name != "w" && a.init == DefaultInit(a.ctype)
        ensures exists x :: x in d && x.name == a.name && a.attrType == AttrType(x, parameters)
      {
        if a in prev {
          var x :| x in p && x.name == a.name && a.attrType == AttrType(x, parameters);
          assert x in d;
        } else {
          assert v in d;
        }
      }
    }
  }

  lemma {:induction false} AttrInitsComplete(d: seq<Attr>, parameters: seq<Attr>)
    ensures forall x :: x in d && x.name != "w" ==> AttrInitOf(x, parameters) in AttrInits(d, parameters)
  {
    if d != [] {
      var p, v := d[..|d| - 1], d[|d| - 1];
      AttrInitsComplete(p, parameters);
      assert d == p + [v];
      AttrInitsAppend(p, v, parameters);
      forall x | x in d && x.name != "w"
        ensures AttrInitOf(x, parameters) in AttrInits(d, parameters)
      {
        if x in p {
          assert AttrInitOf(x, parameters) in AttrInits(p, parameters);
        }
      }
    }
  }

  // ---------------------------------------------------------------------------
  // Size in bytes

  /** The term of one attribute in the size computation. */
  datatype SizeTerm =
    | ScalarSize            // sizeof(type)
    | CapacitySize          // sizeof(type) * name.capacity()
    | NestedCapacitySize    // outer capacity plus the capacity of every row (LIL)
    | EllCooSize            // ell and coo parts of a hybrid matrix
    | NoSize                // formats without an accounting rule

  /** A commented line per attribute: its locality, whether it is a parameter, its term. */
  datatype SizeLine = SizeLine(locality: Locality, name: string, isParameter: bool, term: SizeTerm)

  datatype SizeCode = SizeCode(matrixFormat: string, lines: seq<SizeLine>) | SizeOverridden(text: string)

  function SizeTermOf(a: Attr, singleWeight: bool, format: FormatSelection.StorageFormat): SizeTerm {
    if a.name == "w" && singleWeight then ScalarSize
    else if a.locality == Global then ScalarSize
    else if a.locality == Semiglobal then CapacitySize
    else
      match format
      case Lil => NestedCapacitySize
      case Csr => CapacitySize
      case Hyb => EllCooSize
      case _ => NoSize
  }

  function SizeLineOf(a: Attr, parameters: seq<Attr>, singleWeight: bool, format: FormatSelection.StorageFormat): SizeLine {
    SizeLine(a.locality, a.name, a in parameters, SizeTermOf(a, singleWeight, format))
  }

  /** _determine_size_in_bytes: a specific template wins; otherwise the connectivity term of
      the selected matrix format, then one line per variable and then per parameter, with
      no deduplication. A failing format selection fails the whole computation. */
  method DetermineSizeInBytes(cfg: FormatSelection.Config, proj: FormatSelection.Projection, singleWeight: bool,
                              specific: Option<string>, parameters: seq<Attr>, variables: seq<Attr>)
    returns (r: Result<SizeCode>)
    ensures specific.Some? ==> r == Ok(SizeOverridden(specific.value))
    ensures specific.None? && FormatSelection.SelectSparseMatrixFormat(cfg, proj).Failed? ==>
      r == Err(FormatSelection.SelectSparseMatrixFormat(cfg, proj).error)
    ensures specific.None? && FormatSelection.SelectSparseMatrixFormat(cfg, proj).Selected? ==>
      && r.Ok? && r.value.SizeCode?
      && r.value.matrixFormat == FormatSelection.SelectSparseMatrixFormat(cfg, proj).format
      && |r.value.lines| == |variables| + |parameters|
      && forall k :: 0 <= k < |variables| + |parameters| ==>
           r.value.lines[k] == SizeLineOf((variables + parameters)[k], parameters, singleWeight, proj.format)
  {
    if specific.Some? {
      return Ok(SizeOverridden(specific.value));
    }
    var selection := FormatSelection.SelectSparseMatrixFormat(cfg, proj);
    if selection.Failed? {
      return Err(selection.error);
    }
    var all := variables + parameters;
    var lines: seq<SizeLine> := [];
    var i := 0;
    while i < |all|
      invariant 0 <= i <= |all|
      invariant |lines| == i
      invariant forall k :: 0 <= k < i ==> lines[k] == SizeLineOf(all[k], parameters, singleWeight, proj.format)
    {
      var attr := all[i];
      var isParameter := attr in parameters;
      var term: SizeTerm;
      if attr.name == "w" && singleWeight {
        term := ScalarSize;
      } else if attr.locality == Global {
        term := ScalarSize;
      } else if attr.locality == Semiglobal {
        term := CapacitySize;
      } else if proj.format == FormatSelection.Lil {
        term := NestedCapacitySize;
      } else if proj.format == FormatSelection.Csr {
        term := CapacitySize;
      } else if proj.format == FormatSelection.Hyb {
        term := EllCooSize;
      } else {
        term := NoSize;
      }
      lines := lines + [SizeLine(attr.locality, attr.name, isParameter, term)];
      i := i + 1;
    }
    r := Ok(SizeCode(selection.format, lines));
  }

  /** Size accounting does not deduplicate: an attribute listed both as a variable and as a
      parameter is counted twice. */
  lemma SizeCountsDuplicates(a: Attr, parameters: seq<Attr>, variables: seq<Attr>, singleWeight: bool,
                             format: FormatSelection.StorageFormat, j: int, k: int)
    requires 0 <= j < |variables| && 0 <= k < |parameters| && variables[j] == a && parameters[k] == a
    ensures (variables + parameters)[j] == a && (variables + parameters)[|variables| + k] == a
    ensures SizeLineOf(a, parameters, singleWeight, format).isParameter
  {
  }

  /** Only LIL, CSR and hybrid storage give a local attribute a size term. */
  lemma LocalSizeNeedsKnownFormat(a: Attr, singleWeight: bool, format: FormatSelection.StorageFormat)
    requires a.locality == Local && !(a.name == "w" && singleWeight)
    ensures SizeTermOf(a, singleWeight, format) == NoSize <==> format !in {FormatSelection.Lil, FormatSelection.Csr, FormatSelection.Hyb}
  {
  }
}
