/** The decisions the CUDA population generator takes for one population: which
    fragments fill the slots of the population header and which of them a population's
    specific template overrides, the code for delayed variables and delayed spikes, the
    host/device transfers, the stop condition, the calls of global operations, the
    clearing of post-synaptic sums, and the replacement of random variables by CURAND
    calls. Fragments are symbolic (`Tpl(key, arg)` names the template instantiated and
    for what); the error paths are the exceptions and lookups the generator performs. */
module PopulationCodegen {
  import opened Common

  /** A random distribution of a neuron description: its variable name, distribution
      class name and argument text. */
  datatype RandomVar = RandomVar(name: string, dist: string, args: string)

  /** A global operation (`min`, `max`, `mean`, ...) applied to one variable. */
  datatype GlobalOp = GlobalOp(op: string, variable: string)

  /** The parts of a neuron description the generator reads. */
  datatype Neuron = Neuron(
    kind: Kind,
    variables: seq<Attr>,
    parameters: seq<Attr>,
    randoms: seq<RandomVar>,
    functions: seq<string>,
    targets: seq<string>,
    refractory: bool)

  /** The parts of a population the generator reads. `delaySlots` is the number of
      spike buffers, `ceil(max_delay / dt)`. */
  datatype Pop = Pop(
    id: nat,
    name: string,
    size: nat,
    neuron: Neuron,
    refractory: bool,
    maxDelay: int,
    delaySlots: nat,
    delayedVariables: seq<string>,
    globalOps: seq<GlobalOp>,
    stopCondition: string,
    specific: map<string, Fragment>)

  /** The attribute a name refers to: the first variable or parameter of that name. */
  function AttrOf(n: Neuron, name: string): (r: Option<Attr>)
    ensures r.Some? ==> r.value.name == name && r.value in n.variables + n.parameters
    ensures r.None? ==> forall a :: a in n.variables + n.parameters ==> a.name != name
  {
    FindByName(n.variables + n.parameters, name)
  }

  function FindByName(attrs: seq<Attr>, name: string): (r: Option<Attr>)
    ensures r.Some? ==> r.value.name == name && r.value in attrs
    ensures r.None? ==> forall a :: a in attrs ==> a.name != name
  {
    if attrs == [] then None
    else if attrs[0].name == name then Some(attrs[0])
    else FindByName(attrs[1..], name)
  }

  predicate IsLocal(n: Neuron, name: string) {
    AttrOf(n, name).Some? && AttrOf(n, name).value.locality == Local
  }

  /** Every name refers to an attribute of the neuron. */
  predicate Resolves(n: Neuron, names: seq<string>) {
    forall k :: 0 <= k < |names| ==> AttrOf(n, names[k]).Some?
  }

  function PopTag(p: Pop): string {
    "pop" + NatToString(p.id)
  }

  // ---------------------------------------------------------------------------
  // Template dictionaries

  /** The keys of `cuda_templates`. */
  const CudaTemplateKeys: set<string> :=
    {"header", "population_header", "attr_decl", "attr_acc", "attribute_cpp_init",
     "attribute_delayed", "rng", "rate_psp", "spike_specific"}

  /** The keys of `attribute_delayed`. */
  const DelayedTemplateKeys: set<string> := {"local", "global", "reset"}

  // ---------------------------------------------------------------------------
  // Header slots and specific-template overrides

  /** The slots a specific template may override, in the order they are checked. */
  const OverrideKeys: seq<string> :=
    ["include_additional", "struct_additional", "extern_global_operations",
     "declare_spike_arrays", "declare_parameters_variables", "declare_additional",
     "declare_FR", "declare_delay", "access_parameters_variables", "access_additional",
     "init_parameters_variables", "init_spike", "init_delay", "init_FR", "init_additional",
     "reset_spike", "reset_delay", "reset_additional", "update_variables", "update_rng",
     "update_delay", "update_global_ops"]

  /** The slots whose override is honoured only for a population with delays. */
  const DelayKeys: set<string> := {"declare_delay", "init_delay", "reset_delay", "update_delay"}

  /** Whether the specific template's entry for slot `k` replaces the synthesized one,
      when the slots checked are `keys`. */
  predicate HonouredAmong(keys: seq<string>, k: string, specific: map<string, Fragment>, maxDelay: int) {
    k in keys && k in specific && (k !in DelayKeys || maxDelay > 1)
  }

  predicate Honoured(k: string, specific: map<string, Fragment>, maxDelay: int) {
    HonouredAmong(OverrideKeys, k, specific, maxDelay)
  }

  /** The slots after the overrides: the specific template wins wherever honoured. */
  function MergedAmong(keys: seq<string>, slots: map<string, Fragment>, specific: map<string, Fragment>, maxDelay: int)
    : (r: map<string, Fragment>)
    ensures r.Keys == slots.Keys
  {
    map k | k in slots :: if HonouredAmong(keys, k, specific, maxDelay) then specific[k] else slots[k]
  }

  function Merged(slots: map<string, Fragment>, specific: map<string, Fragment>, maxDelay: int)
    : (r: map<string, Fragment>)
    ensures r.Keys == slots.Keys
  {
    MergedAmong(OverrideKeys, slots, specific, maxDelay)
  }

  /** The sequence of `if '<key>' in pop._specific_template.keys(): <slot> = ...`
      statements of `header_struct`. */
  method ApplyOverrides(slots: map<string, Fragment>, specific: map<string, Fragment>, maxDelay: int)
    returns (merged: map<string, Fragment>)
    requires forall k :: k in OverrideKeys ==> k in slots
    ensures merged == Merged(slots, specific, maxDelay)
  {
    merged := OverrideLoop(OverrideKeys, slots, specific, maxDelay);
  }

  method OverrideLoop(keys: seq<string>, slots: map<string, Fragment>, specific: map<string, Fragment>, maxDelay: int)
    returns (merged: map<string, Fragment>)
    requires forall k :: k in keys ==> k in slots
    ensures merged == MergedAmong(keys, slots, specific, maxDelay)
  {
    merged := slots;
    var i := 0;
    assert MergedAmong(keys[..0], slots, specific, maxDelay) == slots;
    while i < |keys|
      invariant 0 <= i <= |keys|
      invariant merged == MergedAmong(keys[..i], slots, specific, maxDelay)
    {
      var k := keys[i];
      ghost var next := MergedAmong(keys[..i + 1], slots, specific, maxDelay);
      OverrideStep(keys, i, slots, specific, maxDelay);
      if k in specific && (k !in DelayKeys || maxDelay > 1) {
        merged := merged[k := specific[k]];
      }
      assert merged == next;
      i := i + 1;
    }
    assert keys[..i] == keys;
  }

  /** Checking one more key replaces its slot when the override is honoured. */
  lemma OverrideStep(keys: seq<string>, i: int, slots: map<string, Fragment>, specific: map<string, Fragment>, maxDelay: int)
    requires 0 <= i < |keys| && keys[i] in slots
    ensures var k := keys[i]; var before := MergedAmong(keys[..i], slots, specific, maxDelay);
      MergedAmong(keys[..i + 1], slots, specific, maxDelay)
        == if k in specific && (k !in DelayKeys || maxDelay > 1) then before[k := specific[k]] else before
  {
    var k := keys[i];
    assert keys[..i + 1] == keys[..i] + [k];
    var before := MergedAmong(keys[..i], slots, specific, maxDelay);
    var after := MergedAmong(keys[..i + 1], slots, specific, maxDelay);
    var expected := if k in specific && (k !in DelayKeys || maxDelay > 1) then before[k := specific[k]] else before;
    assert after.Keys == expected.Keys;
    forall j | j in after
      ensures after[j] == expected[j]
    {
      assert HonouredAmong(keys[..i + 1], j, specific, maxDelay)
          == (HonouredAmong(keys[..i], j, specific, maxDelay) || (j == k && HonouredAmong([k], j, specific, maxDelay)));
    }
  }

  /** Overrides: an honoured entry replaces the synthesized fragment whatever it was; a
      delay slot of a population without delays keeps its synthesized fragment whatever
      the specific template says; other slots are left alone; applying the same
      overrides again changes nothing. */
  lemma OverrideProperties(slots: map<string, Fragment>, slots2: map<string, Fragment>,
                           specific: map<string, Fragment>, specific2: map<string, Fragment>, maxDelay: int, k: string)
    requires k in slots && k in slots2
    ensures Honoured(k, specific, maxDelay) ==>
              Merged(slots, specific, maxDelay)[k] == Merged(slots2, specific, maxDelay)[k] == specific[k]
    ensures k in DelayKeys && maxDelay <= 1 ==>
              Merged(slots, specific, maxDelay)[k] == Merged(slots, specific2, maxDelay)[k] == slots[k]
    ensures k !in OverrideKeys ==> Merged(slots, specific, maxDelay)[k] == slots[k]
    ensures Merged(Merged(slots, specific, maxDelay), specific, maxDelay) == Merged(slots, specific, maxDelay)
  {
  }

  /** The fragments `header_struct` synthesizes before the overrides. The parameter and
      variable declarations, accessors and initialisations come from the generator's
      base class and are opaque here. */
  function SynthesizedSlots(p: Pop, delay: DelayCode): (r: map<string, Fragment>)
    ensures forall k :: k in OverrideKeys ==> k in r
  {
    var id := NatToString(p.id);
    var spike := p.neuron.kind == Spike;
    var refr := spike && (p.neuron.refractory || p.refractory);
    var withDelay := p.maxDelay > 1;
    map[
      "include_additional" := [],
      "struct_additional" := [],
      "extern_global_operations" := ExternGlobalOps(p.globalOps),
      "declare_spike_arrays" :=
        (if spike then [Tpl("declare_spike", id)] else []) + (if refr then [Tpl("declare_refractory", id)] else []),
      "declare_parameters_variables" := [Tpl("declare_parameters_variables", id)],
      "declare_additional" := [],
      "declare_FR" := [],
      "declare_delay" := if withDelay then delay.declare else [],
      "access_parameters_variables" := [Tpl("access_parameters_variables", id)],
      "access_additional" := [],
      "init_parameters_variables" := [Tpl("init_parameters_variables", id)],
      "init_spike" :=
        (if spike then [Tpl("init_spike", id)] else []) + (if refr then [Tpl("init_refractory", id)] else []),
      "init_delay" := if withDelay then delay.init else [],
      "init_FR" := [],
      "init_additional" := [],
      "reset_spike" :=
        (if spike then [Tpl("reset_spike", id)] else []) + (if refr then [Tpl("reset_refractory", id)] else []),
      "reset_delay" := if withDelay then delay.reset else [],
      "reset_additional" := [],
      "update_variables" := [],
      "update_rng" := [],
      "update_delay" := if withDelay then delay.update else [],
      "update_global_ops" := UpdateGlobalOpsCode(p.globalOps)
    ]
  }

  /** `extern` declarations, one per global operation. */
  function ExternGlobalOps(ops: seq<GlobalOp>): (r: Fragment)
    ensures |r| == |ops|
  {
    seq(|ops|, k requires 0 <= k < |ops| => Tpl("extern", ops[k].op))
  }

  /** What `header_struct` contributes to the network: the merged header slots, the
      transfer code, the stop condition and the per-step `update_delay` call. */
  datatype Header = Header(slots: map<string, Fragment>, hostToDevice: Fragment, deviceToHost: Fragment,
                           stop: StopCode, updateDelayCall: Fragment, gopsUpdate: Option<Fragment>)

  /** `header_struct`: the delay code is produced only with delays, the synthesized
      slots are overridden by the specific template, and the network calls
      `update_delay()` only with delays. */
  function HeaderStruct(p: Pop, ext: StopExtraction, delayKeys: set<string>, templateKeys: set<string>)
    : (r: Result<Header>)
    requires Resolves(p.neuron, p.delayedVariables) && Resolves(p.neuron, ext.dependencies)
    ensures r.Ok? ==> forall k :: k in OverrideKeys ==> k in r.value.slots
    ensures r.Ok? && p.maxDelay <= 1 ==>
              r.value.updateDelayCall == [] && forall k :: k in DelayKeys ==> k in r.value.slots && r.value.slots[k] == []
    ensures r.Ok? && p.maxDelay > 1 ==> r.value.updateDelayCall != []
    ensures r.Ok? ==> forall k :: Honoured(k, p.specific, p.maxDelay) ==> r.value.slots[k] == p.specific[k]
    ensures r.Ok? ==> (r.value.gopsUpdate.Some? <==> p.globalOps != [])
  {
    var delay := if p.maxDelay > 1 then DelayCodeOf(p, delayKeys) else Ok(DelayCode([], [], [], []));
    if delay.Err? then Err(delay.error)
    else
      var transfers := Transfers(p, templateKeys);
      if transfers.Err? then Err(transfers.error)
      else
        var slots := Merged(SynthesizedSlots(p, delay.value), p.specific, p.maxDelay);
        MergedSlots(p, delay.value);
        Ok(Header(slots, transfers.value.0, transfers.value.1, StopCondition(p, ext),
                  if p.maxDelay > 1 then [Tpl("update_delay", PopTag(p))] else [],
                  if p.globalOps != [] then Some(UpdateGlobalOpsCode(p.globalOps)) else None))
  }

  /** The merged slots cover every overridable slot, take the specific template's entry
      wherever it is honoured, and leave the delay slots empty without delays. */
  lemma MergedSlots(p: Pop, delay: DelayCode)
    ensures var m := Merged(SynthesizedSlots(p, delay), p.specific, p.maxDelay);
      && (forall k :: k in OverrideKeys ==> k in m)
      && (p.maxDelay <= 1 ==> forall k :: k in DelayKeys ==> k in m && m[k] == [])
      && (forall k :: Honoured(k, p.specific, p.maxDelay) ==> m[k] == p.specific[k])
  {
    var syn := SynthesizedSlots(p, delay);
    var m := Merged(syn, p.specific, p.maxDelay);
    forall k | Honoured(k, p.specific, p.maxDelay) ensures m[k] == p.specific[k] {
      assert k in syn;
    }
    if p.maxDelay <= 1 {
      NoDelaySlots(p, delay);
      forall k | k in DelayKeys ensures k in m && m[k] == [] {
        assert !Honoured(k, p.specific, p.maxDelay);
      }
    }
  }

  /** Without delays the synthesized delay slots are empty. */
  lemma NoDelaySlots(p: Pop, delay: DelayCode)
    requires p.maxDelay <= 1
    ensures forall k :: k in DelayKeys ==> k in SynthesizedSlots(p, delay) && SynthesizedSlots(p, delay)[k] == []
  {
    var syn := SynthesizedSlots(p, delay);
    assert syn["declare_delay"] == [] && syn["init_delay"] == [];
    assert syn["reset_delay"] == [] && syn["update_delay"] == [];
  }

  // ---------------------------------------------------------------------------
  // Global operations and post-synaptic sums

  /** `_update_globalops`: one call per global operation, in order. */
  function UpdateGlobalOpsCode(ops: seq<GlobalOp>): (r: Fragment)
  {
    seq(|ops|, k requires 0 <= k < |ops| => Tpl(ops[k].op, ops[k].variable))
  }

  method UpdateGlobalOps(ops: seq<GlobalOp>) returns (code: Fragment)
    ensures code == UpdateGlobalOpsCode(ops)
    ensures |code| == |ops|
    ensures forall k :: 0 <= k < |ops| ==> code[k] == Tpl(ops[k].op, ops[k].variable)
  {
    code := [];
    if |ops| == 0 {
      return;
    }
    var i := 0;
    while i < |ops|
      invariant 0 <= i <= |ops| && |code| == i
      invariant forall k :: 0 <= k < i ==> code[k] == Tpl(ops[k].op, ops[k].variable)
    {
      code := code + [Tpl(ops[i].op, ops[i].variable)];
      i := i + 1;
    }
  }

  /** `reset_computesum`: for a rate population, one `clear_sum` launch per target in
      sorted order; nothing for a spiking one. */
  method ResetComputesum(p: Pop) returns (code: Fragment)
    ensures p.neuron.kind != Rate ==> code == []
    ensures p.neuron.kind == Rate ==> |code| == |p.neuron.targets|
    ensures p.neuron.kind == Rate ==> forall k :: 0 <= k < |code| ==> code[k].Tpl? && code[k].key == "clear_sum"
    ensures p.neuron.kind == Rate ==>
              var ts := seq(|code|, k requires 0 <= k < |code| => code[k].arg);
              SortedStrings(ts) && multiset(ts) == multiset(p.neuron.targets)
  {
    code := [];
    var sorted := SortStrings(p.neuron.targets);
    var rate := p.neuron.kind == Rate;
    var i := 0;
    while i < |sorted|
      invariant 0 <= i <= |sorted|
      invariant !rate ==> code == []
      invariant rate ==> |code| == i && forall k :: 0 <= k < i ==> code[k] == Tpl("clear_sum", sorted[k])
    {
      if rate {
        code := code + [Tpl("clear_sum", sorted[i])];
      }
      i := i + 1;
    }
    if rate {
      ClearSumArgs(code, sorted);
      assert forall k :: 0 <= k < |code| ==> code[k].Tpl? && code[k].key == "clear_sum";
    }
  }

  /** The targets named by a list of `clear_sum` launches are the launches' arguments. */
  lemma ClearSumArgs(code: Fragment, targets: seq<string>)
    requires |code| == |targets| && forall k :: 0 <= k < |code| ==> code[k] == Tpl("clear_sum", targets[k])
    ensures seq(|code|, k requires 0 <= k < |code| => code[k].arg) == targets
  {
  }

  // ---------------------------------------------------------------------------
  // Delays

  datatype DelayCode = DelayCode(declare: Fragment, init: Fragment, update: Fragment, reset: Fragment)

  /** Instantiating `attribute_delayed[key]`: a missing key is a KeyError. */
  function DelayedTemplate(key: string, v: string, delayKeys: set<string>): Result<Fragment> {
    if key in delayKeys then Ok([Tpl(key, v)]) else Err(KeyError(key))
  }

  /** The declarations of `_delay_code`. A rate population declares a device deque per
      local delayed variable and only warns about the others; a spiking population
      declares the spike deques and may not delay any variable. */
  function DelayDeclarations(p: Pop): (r: Result<Fragment>)
    ensures r.Err? <==> p.neuron.kind != Rate && p.delayedVariables != []
  {
    if p.neuron.kind == Rate then
      Ok([Verbatim("// Delayed variables")] +
         LocalDelayedDecls(p.neuron, p.delayedVariables))
    else if p.delayedVariables != [] then
      Err(ReportedError("only spike transmission can be delayed on CUDA yet."))
    else
      Ok([Verbatim("// Delayed variables"), Tpl("spike_deques", "")])
  }

  function LocalDelayedDecls(n: Neuron, vars: seq<string>): Fragment {
    if vars == [] then []
    else
      var last := vars[|vars| - 1];
      LocalDelayedDecls(n, vars[..|vars| - 1]) + (if IsLocal(n, last) then [Tpl("delayed_decl", last)] else [])
  }

  /** The delayed-variable loop of `_delay_code`: a local variable instantiates the
      'local', 'update' and 'reset' templates in turn; a non-local one raises
      NotImplementedError. */
  function DelayedVarCode(n: Neuron, vars: seq<string>, delayKeys: set<string>): (r: Result<DelayCode>)
    decreases |vars|
  {
    if vars == [] then Ok(DelayCode([], [], [], []))
    else
      var prev := DelayedVarCode(n, vars[..|vars| - 1], delayKeys);
      var v := vars[|vars| - 1];
      if prev.Err? then prev
      else if !IsLocal(n, v) then Err(NotImplemented(v))
      else
        var init := DelayedTemplate("local", v, delayKeys);
        var update := DelayedTemplate("update", v, delayKeys);
        var reset := DelayedTemplate("reset", v, delayKeys);
        if init.Err? then Err(init.error)
        else if update.Err? then Err(update.error)
        else if reset.Err? then Err(reset.error)
        else Ok(DelayCode([], prev.value.init + init.value, prev.value.update + update.value,
                          prev.value.reset + reset.value))
  }

  /** `_delay_code`: declarations, the per-variable code, the spike deques for a
      spiking population, and the update wrapped in `if ( _active )`. */
  function DelayCodeOf(p: Pop, delayKeys: set<string>): (r: Result<DelayCode>)
  {
    var decl := DelayDeclarations(p);
    if decl.Err? then Err(decl.error)
    else
      var vars := DelayedVarCode(p.neuron, p.delayedVariables, delayKeys);
      if vars.Err? then Err(vars.error)
      else
        var spike := p.neuron.kind == Spike;
        var init := [Verbatim("// Delayed variables")] + vars.value.init +
                    (if spike then [Tpl("spike_delay_init", NatToString(p.delaySlots))] else []);
        var update := vars.value.update + (if spike then [Tpl("spike_delay_rotate", NatToString(p.id))] else []);
        Ok(DelayCode(decl.value, init,
                     [Verbatim("if ( _active ) {")] + update + [Verbatim("}")],
                     vars.value.reset))
  }

  /** With the template dictionary as written (no 'update' entry), a rate population
      whose one delayed variable is local fails with a KeyError on 'update'. */
  lemma DelayedUpdateTemplateMissing(p: Pop)
    requires p.neuron.kind == Rate && |p.delayedVariables| == 1 && IsLocal(p.neuron, p.delayedVariables[0])
    ensures DelayCodeOf(p, DelayedTemplateKeys) == Err(KeyError("update"))
  {
    var vars := p.delayedVariables;
    assert vars[..|vars| - 1] == [];
    assert DelayedVarCode(p.neuron, vars[..|vars| - 1], DelayedTemplateKeys) == Ok(DelayCode([], [], [], []));
    assert "local" in DelayedTemplateKeys && "update" !in DelayedTemplateKeys;
    assert DelayedVarCode(p.neuron, vars, DelayedTemplateKeys) == Err(KeyError("update"));
  }

  /** With an 'update' entry, the delay code of a rate population instantiates each of
      the three templates once per delayed variable, in order, and fails only on a
      non-local delayed variable. */
  lemma {:induction false} DelayedVarCodeComplete(n: Neuron, vars: seq<string>)
    ensures var r := DelayedVarCode(n, vars, DelayedTemplateKeys + {"update"});
            (r.Err? <==> exists k :: 0 <= k < |vars| && !IsLocal(n, vars[k])) &&
            (r.Ok? ==> r.value.init == seq(|vars|, k requires 0 <= k < |vars| => Tpl("local", vars[k])) &&
                       r.value.update == seq(|vars|, k requires 0 <= k < |vars| => Tpl("update", vars[k])) &&
                       r.value.reset == seq(|vars|, k requires 0 <= k < |vars| => Tpl("reset", vars[k])))
  {
    if vars != [] {
      var pre, v := vars[..|vars| - 1], vars[|vars| - 1];
      DelayedVarCodeComplete(n, pre);
      assert forall k :: 0 <= k < |pre| ==> pre[k] == vars[k];
      var keys := DelayedTemplateKeys + {"update"};
      assert "local" in keys && "update" in keys && "reset" in keys;
      var prev := DelayedVarCode(n, pre, keys);
      if prev.Ok? && IsLocal(n, v) {
        TplsSnoc("local", vars);
        TplsSnoc("update", vars);
        TplsSnoc("reset", vars);
      }
    }
  }

  /** One template instance per variable, in order, grows by one at the end. */
  lemma TplsSnoc(key: string, vars: seq<string>)
    requires vars != []
    ensures var pre := vars[..|vars| - 1];
      seq(|vars|, k requires 0 <= k < |vars| => Tpl(key, vars[k]))
        == seq(|pre|, k requires 0 <= k < |pre| => Tpl(key, pre[k])) + [Tpl(key, vars[|vars| - 1])]
  {
  }

  /** A spiking population without delayed variables gets the spike deques: one buffer
      per slot at init, and a rotation guarded by the activity flag at every update. */
  lemma SpikeDelayCode(p: Pop, delayKeys: set<string>)
    requires p.neuron.kind == Spike && p.delayedVariables == []
    ensures DelayCodeOf(p, delayKeys).Ok?
    ensures DelayCodeOf(p, delayKeys).value.init ==
              [Verbatim("// Delayed variables"), Tpl("spike_delay_init", NatToString(p.delaySlots))]
    ensures DelayCodeOf(p, delayKeys).value.update ==
              [Verbatim("if ( _active ) {"), Tpl("spike_delay_rotate", NatToString(p.id)), Verbatim("}")]
  {
  }

  // ---------------------------------------------------------------------------
  // Host/device transfers

  /** One transfer piece per variable (local or global template) and per local
      parameter; global parameters are never transferred. */
  function TransferPieces(n: Neuron, dir: string): (r: Fragment)
  {
    seq(|n.variables|, k requires 0 <= k < |n.variables| =>
          Tpl(dir + (if n.variables[k].locality == Local then "_local" else "_global"), n.variables[k].name)) +
    LocalParamTransfers(n.parameters, dir)
  }

  function LocalParamTransfers(params: seq<Attr>, dir: string): (r: Fragment)
    ensures forall k :: 0 <= k < |r| ==> r[k].Tpl? && r[k].key == dir + "_local"
    ensures forall a :: a in params && a.locality == Local ==> Tpl(dir + "_local", a.name) in r
    ensures forall x :: x in r ==> exists a :: a in params && a.locality == Local && x.arg == a.name
  {
    if params == [] then []
    else
      var last := params[|params| - 1];
      var rest := LocalParamTransfers(params[..|params| - 1], dir);
      assert forall a :: a in params ==> a in params[..|params| - 1] || a == last;
      rest + (if last.locality == Local then [Tpl(dir + "_local", last.name)] else [])
  }

  /** Whether `_memory_transfers` looks up `attribute_transfer` at all. */
  predicate NeedsTransferTemplate(n: Neuron) {
    n.variables != [] || exists a :: a in n.parameters && a.locality == Local
  }

  /** `_memory_transfers`: host-to-device and device-to-host code. The transfer
      templates are looked up in the template dictionary; the refractory periods are
      transferred inline; a specific template's code wins for either direction. */
  function Transfers(p: Pop, templateKeys: set<string>): (r: Result<(Fragment, Fragment)>)
  {
    if NeedsTransferTemplate(p.neuron) && "attribute_transfer" !in templateKeys then
      Err(KeyError("attribute_transfer"))
    else
      var refr := p.neuron.kind == Spike && (p.neuron.refractory || p.refractory);
      var htod := [Verbatim("// host to device transfers for " + p.name)] + TransferPieces(p.neuron, "HtoD") +
                  (if refr then [Tpl("HtoD_refractory", NatToString(p.id))] else []);
      var dtoh := [Verbatim("// device to host transfers for " + p.name)] + TransferPieces(p.neuron, "DtoH");
      Ok(((if "host_device_transfer" in p.specific then p.specific["host_device_transfer"] else htod),
          (if "device_host_transfer" in p.specific then p.specific["device_host_transfer"] else dtoh)))
  }

  /** The loops of `_memory_transfers` for one direction. */
  method TransferLoop(n: Neuron, dir: string) returns (code: Fragment)
    ensures code == TransferPieces(n, dir)
  {
    code := [];
    var i := 0;
    while i < |n.variables|
      invariant 0 <= i <= |n.variables|
      invariant code == seq(i, k requires 0 <= k < i =>
                  Tpl(dir + (if n.variables[k].locality == Local then "_local" else "_global"), n.variables[k].name))
    {
      var a := n.variables[i];
      code := code + [Tpl(dir + (if a.locality == Local then "_local" else "_global"), a.name)];
      i := i + 1;
    }
    var params: Fragment := [];
    var j := 0;
    while j < |n.parameters|
      invariant 0 <= j <= |n.parameters|
      invariant params == LocalParamTransfers(n.parameters[..j], dir)
    {
      var a := n.parameters[j];
      assert n.parameters[..j + 1][..j] == n.parameters[..j];
      if a.locality == Local {
        params := params + [Tpl(dir + "_local", a.name)];
      }
      j := j + 1;
    }
    assert n.parameters[..j] == n.parameters;
    code := code + params;
  }

  /** With the dictionary as written, every population with a variable or a local
      parameter fails with a KeyError on 'attribute_transfer'. */
  lemma TransferTemplateMissing(p: Pop)
    ensures Transfers(p, CudaTemplateKeys).Err? <==> NeedsTransferTemplate(p.neuron)
    ensures Transfers(p, CudaTemplateKeys).Err? ==> Transfers(p, CudaTemplateKeys).error == KeyError("attribute_transfer")
  {
  }

  /** Every transfer piece uses the local or the global template of its direction. */
  lemma TransferKeys(n: Neuron, dir: string)
    ensures forall x :: x in TransferPieces(n, dir) ==>
              x.Tpl? && (x.key == dir + "_local" || x.key == dir + "_global")
  {
    var vs := seq(|n.variables|, k requires 0 <= k < |n.variables| =>
          Tpl(dir + (if n.variables[k].locality == Local then "_local" else "_global"), n.variables[k].name));
    var ps := LocalParamTransfers(n.parameters, dir);
    assert TransferPieces(n, dir) == vs + ps;
    forall x: Piece | x in vs + ps
      ensures x.Tpl? && (x.key == dir + "_local" || x.key == dir + "_global")
    {
      if x in vs {
        var k :| 0 <= k < |vs| && vs[k] == x;
      } else {
        var k :| 0 <= k < |ps| && ps[k] == x;
      }
    }
  }

  /** The transfer pieces of one direction name every variable, with the local
      template exactly for local ones, and every local parameter. */
  lemma TransferPiecesCover(n: Neuron, dir: string, a: Attr)
    ensures a in n.variables ==>
              Tpl(dir + (if a.locality == Local then "_local" else "_global"), a.name) in TransferPieces(n, dir)
    ensures a in n.parameters && a.locality == Local ==> Tpl(dir + "_local", a.name) in TransferPieces(n, dir)
  {
    var vs := seq(|n.variables|, k requires 0 <= k < |n.variables| =>
          Tpl(dir + (if n.variables[k].locality == Local then "_local" else "_global"), n.variables[k].name));
    var ps := LocalParamTransfers(n.parameters, dir);
    assert TransferPieces(n, dir) == vs + ps;
    if a in n.variables {
      var k :| 0 <= k < |n.variables| && n.variables[k] == a;
      assert vs[k] in vs + ps;
    }
  }

  /** With an 'attribute_transfer' entry and no override, the generated code contains
      the transfer pieces of both directions. */
  lemma TransfersHoldPieces(p: Pop, templateKeys: set<string>)
    requires "attribute_transfer" in templateKeys
    requires "host_device_transfer" !in p.specific && "device_host_transfer" !in p.specific
    ensures Transfers(p, templateKeys).Ok?
    ensures forall x :: x in TransferPieces(p.neuron, "HtoD") ==> x in Transfers(p, templateKeys).value.0
    ensures forall x :: x in TransferPieces(p.neuron, "DtoH") ==> x in Transfers(p, templateKeys).value.1
  {
  }

  /** The refractory periods are transferred to the device exactly for a spiking
      population with a refractory period. */
  lemma RefractoryTransfer(p: Pop, templateKeys: set<string>)
    requires "host_device_transfer" !in p.specific && Transfers(p, templateKeys).Ok?
    ensures Tpl("HtoD_refractory", NatToString(p.id)) in Transfers(p, templateKeys).value.0 <==>
              p.neuron.kind == Spike && (p.neuron.refractory || p.refractory)
  {
    var pieces := TransferPieces(p.neuron, "HtoD");
    TransferKeys(p.neuron, "HtoD");
    var t := Tpl("HtoD_refractory", NatToString(p.id));
    assert |t.key| == 15;
    assert t !in pieces;
    var refr := p.neuron.kind == Spike && (p.neuron.refractory || p.refractory);
    var htod := [Verbatim("// host to device transfers for " + p.name)] + pieces +
                (if refr then [t] else []);
    assert Transfers(p, templateKeys).value.0 == htod;
    assert t != Verbatim("// host to device transfers for " + p.name);
  }

  /** A global parameter is not transferred in either direction. */
  lemma GlobalParametersStayOnHost(n: Neuron, dir: string, x: Piece)
    requires x in LocalParamTransfers(n.parameters, dir)
    ensures exists a :: a in n.parameters && a.locality == Local && x.arg == a.name
  {
  }

  // ---------------------------------------------------------------------------
  // Stop condition

  /** What the equation parser extracts from a stop condition: the attributes it reads,
      its C++ text, and its kind ('any' or 'all'). */
  datatype StopExtraction = StopExtraction(dependencies: seq<string>, cpp: string, kind: string)

  /** The generated `stop_condition()`: the local dependencies copied back from the
      device first, the condition, and whether it asks for any neuron or for all. */
  datatype StopCode = NoStop | StopFunction(transfers: seq<string>, condition: string, any: bool)

  function LocalDependencies(n: Neuron, deps: seq<string>): (r: seq<string>)
    requires Resolves(n, deps)
    ensures forall d :: d in r <==> d in deps && IsLocal(n, d)
  {
    if deps == [] then []
    else
      var last := deps[|deps| - 1];
      var pre := deps[..|deps| - 1];
      assert forall d :: d in deps <==> d in pre || d == last;
      LocalDependencies(n, pre) + (if IsLocal(n, last) then [last] else [])
  }

  /** `_stop_condition`: nothing without a condition; otherwise the transfers of the
      local dependencies and a function of kind 'any' exactly when the parser says so
      (every other kind behaves as 'all'). */
  function StopCondition(p: Pop, ext: StopExtraction): (r: StopCode)
    requires Resolves(p.neuron, ext.dependencies)
    ensures p.stopCondition == "" <==> r == NoStop
    ensures r.StopFunction? ==> (r.any <==> ext.kind == "any")
    ensures r.StopFunction? ==> forall d :: d in r.transfers <==> d in ext.dependencies && IsLocal(p.neuron, d)
  {
    if p.stopCondition == "" then NoStop
    else StopFunction(LocalDependencies(p.neuron, ext.dependencies), ext.cpp, ext.kind == "any")
  }

  /** The transfer loop of `_stop_condition`. */
  method StopTransfers(n: Neuron, deps: seq<string>) returns (transfers: seq<string>)
    requires Resolves(n, deps)
    ensures transfers == LocalDependencies(n, deps)
  {
    transfers := [];
    var i := 0;
    while i < |deps|
      invariant 0 <= i <= |deps|
      invariant Resolves(n, deps[..i])
      invariant transfers == LocalDependencies(n, deps[..i])
    {
      assert deps[..i + 1][..i] == deps[..i];
      if IsLocal(n, deps[i]) {
        transfers := transfers + [deps[i]];
      }
      i := i + 1;
    }
    assert deps[..i] == deps;
  }

  // ---------------------------------------------------------------------------
  // Random variables

  predicate Supported(dist: string) {
    dist == "Uniform" || dist == "Normal" || dist == "LogNormal"
  }

  /** The CURAND expression that replaces a random variable; `idx` is the state index,
      "[i]" for the local equations and "[0]" for the global ones. */
  function Term(dist: string, name: string, idx: string, a: string, b: string): string {
    if dist == "Uniform" then
      "( curand_uniform_double( &" + name + idx + " ) * (" + b + " - " + a + ") + " + a + " )"
    else if dist == "Normal" then
      "( curand_normal_double( &" + name + idx + " ) * " + b + " + " + a + " )"
    else
      "( curand_log_normal_double( &" + name + idx + ", " + a + ", " + b + ") )"
  }

  /** Why replacing one random variable fails, if it does: an unsupported distribution
      is reported; arguments without a comma have no second field. */
  function RandomError(rd: RandomVar): Option<GenError> {
    if !Supported(rd.dist) then Some(ReportedError("Unsupported random distribution on GPUs: " + rd.dist))
    else if |Split(rd.args, ',')| < 2 then Some(IndexError("list index out of range"))
    else None
  }

  predicate NamedRandoms(rds: seq<RandomVar>) {
    forall k :: 0 <= k < |rds| ==> rds[k].name != []
  }

  /** One step of `_replace_random`: `name[i]` in the local equations and `name` in the
      global ones become CURAND calls on the first two comma-separated arguments. */
  function ReplaceOne(loc: string, glob: string, rd: RandomVar): Result<(string, string)>
    requires rd.name != []
  {
    var err := RandomError(rd);
    if err.Some? then Err(err.value)
    else
      var fields := Split(rd.args, ',');
      Ok((Replace(loc, rd.name + "[i]", Term(rd.dist, rd.name, "[i]", fields[0], fields[1])),
          Replace(glob, rd.name, Term(rd.dist, rd.name, "[0]", fields[0], fields[1]))))
  }

  /** `_replace_random` over all random variables, in order; the first failing variable
      ends the loop with its error. */
  function ReplaceRandomSpec(loc: string, glob: string, rds: seq<RandomVar>): Result<(string, string)>
    requires NamedRandoms(rds)
    decreases |rds|
  {
    if rds == [] then Ok((loc, glob))
    else
      var step := ReplaceOne(loc, glob, rds[0]);
      if step.Err? then step else ReplaceRandomSpec(step.value.0, step.value.1, rds[1..])
  }

  method ReplaceRandom(loc: string, glob: string, rds: seq<RandomVar>) returns (r: Result<(string, string)>)
    requires NamedRandoms(rds)
    ensures r == ReplaceRandomSpec(loc, glob, rds)
  {
    var l, g := loc, glob;
    var i := 0;
    while i < |rds|
      invariant 0 <= i <= |rds|
      invariant ReplaceRandomSpec(l, g, rds[i..]) == ReplaceRandomSpec(loc, glob, rds)
    {
      assert rds[i..][0] == rds[i] && rds[i..][1..] == rds[i + 1..];
      var step := ReplaceOne(l, g, rds[i]);
      if step.Err? {
        return step;
      }
      l, g := step.value.0, step.value.1;
      i := i + 1;
    }
    r := Ok((l, g));
  }

  /** The replacement fails exactly when some random variable is unsupported or has
      fewer than two arguments, and then with the error of the first such variable. */
  lemma ReplaceRandomErrors(loc: string, glob: string, rds: seq<RandomVar>)
    requires NamedRandoms(rds)
    ensures ReplaceRandomSpec(loc, glob, rds).Err? <==> exists k :: 0 <= k < |rds| && RandomError(rds[k]).Some?
    ensures forall k ::
              (0 <= k < |rds| && RandomError(rds[k]).Some? && forall j :: 0 <= j < k ==> RandomError(rds[j]).None?) ==>
              ReplaceRandomSpec(loc, glob, rds) == Err(RandomError(rds[k]).value)
  {
    ReplaceRandomFails(loc, glob, rds);
    forall k | 0 <= k < |rds| && RandomError(rds[k]).Some? && forall j :: 0 <= j < k ==> RandomError(rds[j]).None?
      ensures ReplaceRandomSpec(loc, glob, rds) == Err(RandomError(rds[k]).value)
    {
      ReplaceRandomFirstError(loc, glob, rds, k);
    }
  }

  lemma {:induction false} ReplaceRandomFails(loc: string, glob: string, rds: seq<RandomVar>)
    requires NamedRandoms(rds)
    ensures ReplaceRandomSpec(loc, glob, rds).Err? <==> exists k :: 0 <= k < |rds| && RandomError(rds[k]).Some?
    decreases |rds|
  {
    if rds != [] {
      var step := ReplaceOne(loc, glob, rds[0]);
      if step.Ok? {
        var rest := rds[1..];
        ReplaceRandomFails(step.value.0, step.value.1, rest);
        if exists k :: 0 <= k < |rds| && RandomError(rds[k]).Some? {
          var k :| 0 <= k < |rds| && RandomError(rds[k]).Some?;
          assert k > 0 && rest[k - 1] == rds[k];
        }
        if exists k :: 0 <= k < |rest| && RandomError(rest[k]).Some? {
          var k :| 0 <= k < |rest| && RandomError(rest[k]).Some?;
          assert rds[k + 1] == rest[k];
        }
      }
    }
  }

  lemma {:induction false} ReplaceRandomFirstError(loc: string, glob: string, rds: seq<RandomVar>, k: int)
    requires NamedRandoms(rds)
    requires 0 <= k < |rds| && RandomError(rds[k]).Some?
    requires forall j :: 0 <= j < k ==> RandomError(rds[j]).None?
    ensures ReplaceRandomSpec(loc, glob, rds) == Err(RandomError(rds[k]).value)
    decreases |rds|
  {
    if k > 0 {
      var step := ReplaceOne(loc, glob, rds[0]);
      assert RandomError(rds[0]).None?;
      var rest := rds[1..];
      assert forall j :: 0 <= j < k - 1 ==> rest[j] == rds[j + 1];
      ReplaceRandomFirstError(step.value.0, step.value.1, rest, k - 1);
    }
  }

  /** Equations that mention no random variable are returned unchanged. */
  lemma {:induction false} ReplaceRandomUntouched(loc: string, glob: string, rds: seq<RandomVar>)
    requires NamedRandoms(rds)
    requires forall k :: 0 <= k < |rds| ==> RandomError(rds[k]).None?
    requires forall k :: 0 <= k < |rds| ==> !Contains(loc, rds[k].name + "[i]") && !Contains(glob, rds[k].name)
    ensures ReplaceRandomSpec(loc, glob, rds) == Ok((loc, glob))
  {
    if rds != [] {
      var rd := rds[0];
      var fields := Split(rd.args, ',');
      ReplaceAbsent(loc, rd.name + "[i]", Term(rd.dist, rd.name, "[i]", fields[0], fields[1]));
      ReplaceAbsent(glob, rd.name, Term(rd.dist, rd.name, "[0]", fields[0], fields[1]));
      assert ReplaceOne(loc, glob, rd) == Ok((loc, glob));
      var rest := rds[1..];
      assert forall k :: 0 <= k < |rest| ==> rest[k] == rds[k + 1];
      ReplaceRandomUntouched(loc, glob, rest);
    }
  }

  /** A local equation that is just one uniform random variable becomes a draw from the
      neuron's own state, scaled to [min, max). */
  lemma UniformLocalDraw(name: string, lo: string, hi: string)
    requires name != [] && ',' !in lo && ',' !in hi
    ensures ReplaceRandomSpec(name + "[i]", "", [RandomVar(name, "Uniform", lo + "," + hi)]) ==
              Ok((Term("Uniform", name, "[i]", lo, hi), ""))
  {
    var rd := RandomVar(name, "Uniform", lo + "," + hi);
    var rds := [rd];
    assert rds[1..] == [];
    SplitAtSeparator(lo, hi, ',');
    SplitNoSeparator(hi, ',');
    assert lo + "," + hi == lo + [','] + hi;
    assert Split(lo + "," + hi, ',') == [lo, hi];
    assert RandomError(rd) == None;
    var pat := name + "[i]";
    var term := Term("Uniform", name, "[i]", lo, hi);
    ReplaceAtFront(pat, "", term);
    assert pat + "" == pat;
    assert Replace("", pat, term) == "";
    assert Replace(pat, pat, term) == term;
    assert Replace("", name, Term("Uniform", name, "[0]", lo, hi)) == "";
    assert ReplaceOne(pat, "", rd) == Ok((term, ""));
    assert ReplaceRandomSpec(term, "", rds[1..]) == Ok((term, ""));
  }

}
