/** The code the CUDA population generator writes for the update of a spiking
    population: the step kernel's parameter lists and the arguments of its launch, the
    refractory wrapper around the local equations, the renaming of calls to local
    functions, and the spike-gathering kernel with its arguments. Equation texts come
    from the equation generator and are inputs here. */
module SpikingUpdate {
  import opened Common
  import opened PopulationCodegen
  import Kernels

  // ---------------------------------------------------------------------------
  // Kernel arguments

  /** One argument of a generated kernel: its C type and name, whether it is passed as
      a device array, and whether it is the result of a global operation (declared
      with a trailing blank). */
  datatype KernelArg = KernelArg(ctype: string, name: string, pointer: bool, opResult: bool)

  /** How the argument is declared in the kernel's parameter list. */
  function Declare(a: KernelArg): string {
    ", " + a.ctype + (if a.pointer then "* " else " ") + a.name + (if a.opResult then " " else "")
  }

  /** How the argument is passed at the launch: the device array or the host field of
      the population structure. */
  function Pass(tag: string, a: KernelArg): string {
    ", " + tag + (if a.pointer then ".gpu_" else ".") + a.name
  }

  /** An argument list rendered piece by piece. */
  function Render(args: seq<KernelArg>, f: KernelArg -> string): string {
    if args == [] then "" else Render(args[..|args| - 1], f) + f(args[|args| - 1])
  }

  lemma RenderAppend(args: seq<KernelArg>, x: KernelArg, f: KernelArg -> string)
    ensures Render(args + [x], f) == Render(args, f) + f(x)
  {
    assert (args + [x])[..|args|] == args;
  }

  function ArrayArgs(attrs: seq<Attr>): (r: seq<KernelArg>)
    ensures |r| == |attrs|
    ensures forall k :: 0 <= k < |attrs| ==> r[k] == KernelArg(attrs[k].ctype, attrs[k].name, true, false)
  {
    seq(|attrs|, k requires 0 <= k < |attrs| => KernelArg(attrs[k].ctype, attrs[k].name, true, false))
  }

  /** The parameters a kernel takes by pointer (local) or by value (global). */
  function ParamArgs(params: seq<Attr>, local: bool): (r: seq<KernelArg>)
    ensures |r| <= |params|
  {
    if params == [] then []
    else
      var last := params[|params| - 1];
      ParamArgs(params[..|params| - 1], local) +
      (if (last.locality == Local) == local then [KernelArg(last.ctype, last.name, local, false)] else [])
  }

  /** The parameters of each locality and no others. */
  lemma {:induction false} ParamArgsMembers(params: seq<Attr>, local: bool)
    ensures forall x :: x in ParamArgs(params, local) ==>
              exists a :: a in params && (a.locality == Local) == local && x == KernelArg(a.ctype, a.name, local, false)
    ensures forall a :: a in params && (a.locality == Local) == local ==>
              KernelArg(a.ctype, a.name, local, false) in ParamArgs(params, local)
  {
    if params != [] {
      var pre := params[..|params| - 1];
      ParamArgsMembers(pre, local);
      assert forall a :: a in params <==> a in pre || a == params[|params| - 1];
    }
  }

  function RandomArgs(rds: seq<RandomVar>): (r: seq<KernelArg>)
    ensures |r| == |rds|
    ensures forall k :: 0 <= k < |rds| ==> r[k] == KernelArg("curandState", rds[k].name, true, false)
  {
    seq(|rds|, k requires 0 <= k < |rds| => KernelArg("curandState", rds[k].name, true, false))
  }

  function OpArgs(ops: seq<GlobalOp>): (r: seq<KernelArg>)
    ensures |r| == |ops|
    ensures forall k :: 0 <= k < |ops| ==>
              r[k] == KernelArg("double", "_" + ops[k].op + "_" + ops[k].variable, false, true)
  {
    seq(|ops|, k requires 0 <= k < |ops| => KernelArg("double", "_" + ops[k].op + "_" + ops[k].variable, false, true))
  }

  /** The device arrays of the step kernel: variables, local parameters, random states. */
  function ArrayArgsOf(p: Pop): seq<KernelArg> {
    ArrayArgs(p.neuron.variables) + ParamArgs(p.neuron.parameters, true) + RandomArgs(p.neuron.randoms)
  }

  /** The by-value arguments of the step kernel: global parameters and global
      operation results. */
  function ValueArgsOf(p: Pop): seq<KernelArg> {
    ParamArgs(p.neuron.parameters, false) + OpArgs(p.globalOps)
  }

  /** Every variable, local parameter and random state is passed as a device array;
      every global parameter by value. */
  lemma StepKernelArguments(p: Pop, a: Attr)
    ensures a in p.neuron.variables ==> KernelArg(a.ctype, a.name, true, false) in ArrayArgsOf(p)
    ensures a in p.neuron.parameters ==>
              if a.locality == Local then KernelArg(a.ctype, a.name, true, false) in ArrayArgsOf(p)
              else KernelArg(a.ctype, a.name, false, false) in ValueArgsOf(p)
  {
    ParamArgsMembers(p.neuron.parameters, true);
    ParamArgsMembers(p.neuron.parameters, false);
    if a in p.neuron.variables {
      var k :| 0 <= k < |p.neuron.variables| && p.neuron.variables[k] == a;
      assert ArrayArgsOf(p)[k] == ArrayArgs(p.neuron.variables)[k];
    }
  }

  /** The array arguments are all device pointers and the value arguments none. */
  lemma ArgumentKinds(p: Pop)
    ensures forall x :: x in ArrayArgsOf(p) ==> x.pointer
    ensures forall x :: x in ValueArgsOf(p) ==> !x.pointer
  {
    ParamArgsMembers(p.neuron.parameters, true);
    ParamArgsMembers(p.neuron.parameters, false);
    forall x | x in ValueArgsOf(p) ensures !x.pointer {
      if x !in ParamArgs(p.neuron.parameters, false) {
        var k :| 0 <= k < |OpArgs(p.globalOps)| && OpArgs(p.globalOps)[k] == x;
      }
    }
    forall x | x in ArrayArgsOf(p) ensures x.pointer {
      if x in ArrayArgs(p.neuron.variables) {
        var k :| 0 <= k < |p.neuron.variables| && ArrayArgs(p.neuron.variables)[k] == x;
      } else if x in RandomArgs(p.neuron.randoms) {
        var k :| 0 <= k < |p.neuron.randoms| && RandomArgs(p.neuron.randoms)[k] == x;
      }
    }
  }

  lemma {:induction false} RenderConcat(xs: seq<KernelArg>, ys: seq<KernelArg>, f: KernelArg -> string)
    ensures Render(xs + ys, f) == Render(xs, f) + Render(ys, f)
    decreases |ys|
  {
    if ys == [] {
      assert xs + ys == xs;
    } else {
      var pre, y := ys[..|ys| - 1], ys[|ys| - 1];
      assert ys == pre + [y];
      assert xs + ys == (xs + pre) + [y];
      calc {
        Render(xs + ys, f);
        { RenderAppend(xs + pre, y, f); }
        Render(xs + pre, f) + f(y);
        { RenderConcat(xs, pre, f); }
        Render(xs, f) + Render(pre, f) + f(y);
        { RenderAppend(pre, y, f); }
        Render(xs, f) + Render(ys, f);
      }
    }
  }

  /** The loop over the variables. */
  method VariableArgs(attrs: seq<Attr>, f: KernelArg -> string) returns (text: string)
    ensures text == Render(ArrayArgs(attrs), f)
  {
    text := "";
    var i := 0;
    while i < |attrs|
      invariant 0 <= i <= |attrs|
      invariant text == Render(ArrayArgs(attrs[..i]), f)
    {
      var x := KernelArg(attrs[i].ctype, attrs[i].name, true, false);
      assert ArrayArgs(attrs[..i + 1]) == ArrayArgs(attrs[..i]) + [x];
      RenderAppend(ArrayArgs(attrs[..i]), x, f);
      text := text + f(x);
      i := i + 1;
    }
    assert attrs[..i] == attrs;
  }

  /** The loop over the parameters: local ones to the arrays, the others to the values. */
  method ParameterArgs(params: seq<Attr>, f: KernelArg -> string) returns (arrays: string, values: string)
    ensures arrays == Render(ParamArgs(params, true), f)
    ensures values == Render(ParamArgs(params, false), f)
  {
    arrays, values := "", "";
    var i := 0;
    while i < |params|
      invariant 0 <= i <= |params|
      invariant arrays == Render(ParamArgs(params[..i], true), f)
      invariant values == Render(ParamArgs(params[..i], false), f)
    {
      var a := params[i];
      assert params[..i + 1][..i] == params[..i];
      assert ParamArgs(params[..i + 1], true) ==
               ParamArgs(params[..i], true) + (if a.locality == Local then [KernelArg(a.ctype, a.name, true, false)] else []);
      assert ParamArgs(params[..i + 1], false) ==
               ParamArgs(params[..i], false) + (if a.locality != Local then [KernelArg(a.ctype, a.name, false, false)] else []);
      if a.locality == Local {
        assert ParamArgs(params[..i], false) + [] == ParamArgs(params[..i], false);
        RenderAppend(ParamArgs(params[..i], true), KernelArg(a.ctype, a.name, true, false), f);
        arrays := arrays + f(KernelArg(a.ctype, a.name, true, false));
      } else {
        assert ParamArgs(params[..i], true) + [] == ParamArgs(params[..i], true);
        RenderAppend(ParamArgs(params[..i], false), KernelArg(a.ctype, a.name, false, false), f);
        values := values + f(KernelArg(a.ctype, a.name, false, false));
      }
      i := i + 1;
    }
    assert params[..i] == params;
  }

  /** The loop over the random distributions: one CURAND state array each. */
  method RandomStateArgs(rds: seq<RandomVar>, f: KernelArg -> string) returns (text: string)
    ensures text == Render(RandomArgs(rds), f)
  {
    text := "";
    var i := 0;
    while i < |rds|
      invariant 0 <= i <= |rds|
      invariant text == Render(RandomArgs(rds[..i]), f)
    {
      var x := KernelArg("curandState", rds[i].name, true, false);
      assert RandomArgs(rds[..i + 1]) == RandomArgs(rds[..i]) + [x];
      RenderAppend(RandomArgs(rds[..i]), x, f);
      text := text + f(x);
      i := i + 1;
    }
    assert rds[..i] == rds;
  }

  /** The loop over the global operations: one result value each. */
  method GlobalOpArgs(ops: seq<GlobalOp>, f: KernelArg -> string) returns (text: string)
    ensures text == Render(OpArgs(ops), f)
  {
    text := "";
    var i := 0;
    while i < |ops|
      invariant 0 <= i <= |ops|
      invariant text == Render(OpArgs(ops[..i]), f)
    {
      var x := KernelArg("double", "_" + ops[i].op + "_" + ops[i].variable, false, true);
      assert OpArgs(ops[..i + 1]) == OpArgs(ops[..i]) + [x];
      RenderAppend(OpArgs(ops[..i]), x, f);
      text := text + f(x);
      i := i + 1;
    }
    assert ops[..i] == ops;
  }

  /** The loops that build the step kernel's argument lists (`var` and `par`), once
      for its declaration (`f` is `Declare`) and once for its launch (`f` passes the
      population's fields). */
  method StepKernelArgs(p: Pop, f: KernelArg -> string) returns (vars: string, pars: string)
    ensures vars == Render(ArrayArgsOf(p), f)
    ensures pars == Render(ValueArgsOf(p), f)
  {
    var v := VariableArgs(p.neuron.variables, f);
    var lp, gp := ParameterArgs(p.neuron.parameters, f);
    var rd := RandomStateArgs(p.neuron.randoms, f);
    var op := GlobalOpArgs(p.globalOps, f);
    vars := v + lp + rd;
    pars := gp + op;
    RenderConcat(ArrayArgs(p.neuron.variables), ParamArgs(p.neuron.parameters, true), f);
    RenderConcat(ArrayArgs(p.neuron.variables) + ParamArgs(p.neuron.parameters, true), RandomArgs(p.neuron.randoms), f);
    RenderConcat(ParamArgs(p.neuron.parameters, false), OpArgs(p.globalOps), f);
  }

  /** The type stripping applied to the launch arguments as written: "double*" and
      "int*" are removed from the arrays, "double" and "int" from the values. */
  function StripTypesAsWritten(vars: string, pars: string): (string, string) {
    (Replace(Replace(vars, "double*", ""), "int*", ""), Replace(Replace(pars, "double", ""), "int", ""))
  }

  /** The launch arguments hold no types, so stripping the arrays changes nothing when
      no name contains '*'. */
  lemma ArrayStripHarmless(vars: string)
    requires '*' !in vars
    ensures StripTypesAsWritten(vars, "").0 == vars
  {
    ReplaceMissingChar(vars, "double*", "", 6);
    ReplaceMissingChar(vars, "int*", "", 3);
  }

  /** A global parameter is passed as `, popN.name`. */
  lemma PassValue(tag: string, ctype: string, name: string)
    ensures Render([KernelArg(ctype, name, false, false)], a => Pass(tag, a)) == ", " + tag + "." + name
  {
    var args := [KernelArg(ctype, name, false, false)];
    assert args[..0] == [];
  }

  /** As written, a global parameter whose name starts with "int" is passed under a
      mangled name (`interval` of population 0 becomes `pop0.erval`): the stripping
      meant for types removes the letters from the name. */
  lemma ValueStripMangles(tag: string, rest: string)
    requires 'd' !in tag && 'i' !in tag && 'd' !in rest && 'i' !in rest
    ensures StripTypesAsWritten("", ", " + tag + "." + ("int" + rest)).1 == ", " + tag + "." + rest
  {
    var pre := ", " + tag + ".";
    var s := pre + ("int" + rest);
    assert 'd' !in pre && 'i' !in pre;
    assert 'd' !in s;
    ReplaceNoStart(s, "double", "");
    ReplaceAfterPrefix(pre, "int" + rest, "int", "");
    ReplaceAtFront("int", rest, "");
    ReplaceNoStart(rest, "int", "");
  }

  /** The launch arguments as intended: the value arguments passed without the type
      stripping. Each value argument then reaches the kernel under its own name. */
  lemma ValueArgumentsVerbatim(p: Pop, k: nat)
    requires k < |ValueArgsOf(p)|
    ensures Contains(Render(ValueArgsOf(p), a => Pass(PopTag(p), a)), ", " + PopTag(p) + "." + ValueArgsOf(p)[k].name)
  {
    var args := ValueArgsOf(p);
    var f := a => Pass(PopTag(p), a);
    RenderContains(args, f, k);
    assert args[k] in args;
    ArgumentKinds(p);
  }

  lemma {:induction false} RenderContains(args: seq<KernelArg>, f: KernelArg -> string, k: nat)
    requires k < |args|
    ensures Contains(Render(args, f), f(args[k]))
  {
    var pre := args[..|args| - 1];
    var s := Render(pre, f);
    var t := f(args[|args| - 1]);
    if k == |args| - 1 {
      assert OccursAt(s + t, t, |s|) by {
        assert (s + t)[|s|..|s| + |t|] == t;
      }
    } else {
      RenderContains(pre, f, k);
      assert pre[k] == args[k];
      var i :| 0 <= i <= |s| && OccursAt(s, f(pre[k]), i);
      assert (s + t)[i..i + |f(pre[k])|] == s[i..i + |f(pre[k])|];
      assert OccursAt(s + t, f(args[k]), i);
    }
  }

  // ---------------------------------------------------------------------------
  // Refractory wrapper

  const RefractoryHeader: string := ", int *refractory, int* refractory_remaining"

  function RefractoryCall(tag: string): string {
    ", " + tag + ".gpu_refractory, " + tag + ".gpu_refractory_remaining"
  }

  /** The local equations of a neuron with a refractory period: while the counter is
      positive only the conductance equations run and the counter is decremented. */
  function RefractoryWrap(conductance: string, loc: string): string {
    "\n        if( refractory_remaining[i] > 0){ // Refractory period\n" + conductance +
    "\n            // Decrement the refractory period\n            refractory_remaining[i]--;\n        } else{\n            " +
    loc + "\n        }\n        "
  }

  /** Which equations a thread runs in one step, given its refractory counter. */
  datatype Branch = ConductanceOnly | FullUpdate

  function Executed(refractory: bool, remaining: int): Branch {
    if refractory && remaining > 0 then ConductanceOnly else FullUpdate
  }

  /** After a spike sets the counter to `period`, the next `period` steps run only the
      conductance equations and every later step runs the full equations. */
  lemma RefractoryBranches(period: nat, k: nat)
    ensures Executed(true, Kernels.CountdownAfter(period, k)) == if k < period then ConductanceOnly else FullUpdate
    ensures Executed(false, Kernels.CountdownAfter(period, k)) == FullUpdate
  {
    Kernels.RefractoryPeriod(period, k);
  }

  // ---------------------------------------------------------------------------
  // Local functions

  /** The calls to a local function found in a text (`re.findall` on `name\(...\)`),
      a parameter of the model; matches are never empty. */
  type Finder = (string, string) -> seq<string>

  ghost predicate NonEmptyMatches(find: Finder) {
    forall f: string, s: string, k: int :: 0 <= k < |find(f, s)| ==> find(f, s)[k] != []
  }

  predicate NamedFunctions(funcs: seq<string>) {
    forall k :: 0 <= k < |funcs| ==> funcs[k] != []
  }

  /** A call with the function name prefixed by the population's tag. */
  function RenamedCall(tag: string, f: string, term: string): string
    requires f != []
  {
    Replace(term, f, tag + "_" + f)
  }

  /** Every listed call renamed in turn. */
  function RenameCalls(s: string, terms: seq<string>, tag: string, f: string): string
    requires f != [] && forall k :: 0 <= k < |terms| ==> terms[k] != []
  {
    if terms == [] then s
    else
      var t := terms[|terms| - 1];
      Replace(RenameCalls(s, terms[..|terms| - 1], tag, f), t, RenamedCall(tag, f, t))
  }

  /** `_replace_local_funcs` as written: the loop over the calls found in the global
      equations assigns the global equations from the local ones. */
  function LocalFuncsAsWritten(tag: string, funcs: seq<string>, glob: string, loc: string, find: Finder)
    : (string, string)
    requires NamedFunctions(funcs) && NonEmptyMatches(find)
  {
    if funcs == [] then (glob, loc)
    else
      var prev := LocalFuncsAsWritten(tag, funcs[..|funcs| - 1], glob, loc, find);
      var f := funcs[|funcs| - 1];
      var gTerms := find(f, prev.0);
      var lTerms := find(f, prev.1);
      var g := if gTerms == [] then prev.0
               else Replace(prev.1, gTerms[|gTerms| - 1], RenamedCall(tag, f, gTerms[|gTerms| - 1]));
      (g, RenameCalls(prev.1, lTerms, tag, f))
  }

  /** `_replace_local_funcs` as intended: the calls found in each text are renamed in
      that text, each distinct call once. */
  function LocalFuncs(tag: string, funcs: seq<string>, glob: string, loc: string, find: Finder)
    : (string, string)
    requires NamedFunctions(funcs) && NonEmptyMatches(find)
  {
    if funcs == [] then (glob, loc)
    else
      var prev := LocalFuncs(tag, funcs[..|funcs| - 1], glob, loc, find);
      var f := funcs[|funcs| - 1];
      (RenameCalls(prev.0, Unique(find(f, prev.0)), tag, f), RenameCalls(prev.1, Unique(find(f, prev.1)), tag, f))
  }

  /** The loop of `_replace_local_funcs`, as written: for each local function, every
      call found in the global equations sets the global equations from the local ones,
      then every call found in the local equations is renamed there, once per match. */
  method ReplaceLocalFuncs(tag: string, funcs: seq<string>, glob: string, loc: string, find: Finder)
    returns (g: string, l: string)
    requires NamedFunctions(funcs) && NonEmptyMatches(find)
    ensures (g, l) == LocalFuncsAsWritten(tag, funcs, glob, loc, find)
  {
    g, l := glob, loc;
    var i := 0;
    while i < |funcs|
      invariant 0 <= i <= |funcs|
      invariant (g, l) == LocalFuncsAsWritten(tag, funcs[..i], glob, loc, find)
    {
      assert funcs[..i + 1][..i] == funcs[..i];
      var f := funcs[i];
      g := OverwriteGlobal(tag, f, find(f, g), g, l);
      l := RenameCallsLoop(tag, f, find(f, l), l);
      i := i + 1;
    }
    assert funcs[..i] == funcs;
  }

  /** The loop over the calls found in the global equations, as written: each found
      call sets the global equations to the local ones with that call renamed, so only
      the last found call counts. */
  method OverwriteGlobal(tag: string, f: string, terms: seq<string>, glob: string, loc: string)
    returns (g: string)
    requires f != [] && forall k :: 0 <= k < |terms| ==> terms[k] != []
    ensures g == if terms == [] then glob else Replace(loc, terms[|terms| - 1], RenamedCall(tag, f, terms[|terms| - 1]))
  {
    g := glob;
    var j := 0;
    while j < |terms|
      invariant 0 <= j <= |terms|
      invariant g == if j == 0 then glob else Replace(loc, terms[j - 1], RenamedCall(tag, f, terms[j - 1]))
    {
      g := Replace(loc, terms[j], Replace(terms[j], f, tag + "_" + f));
      j := j + 1;
    }
  }

  /** The loop over the calls found in the local equations: each match, repeats
      included, is renamed in the text as it stands. */
  method RenameCallsLoop(tag: string, f: string, terms: seq<string>, loc: string) returns (l: string)
    requires f != [] && forall k :: 0 <= k < |terms| ==> terms[k] != []
    ensures l == RenameCalls(loc, terms, tag, f)
  {
    l := loc;
    var j := 0;
    while j < |terms|
      invariant 0 <= j <= |terms|
      invariant l == RenameCalls(loc, terms[..j], tag, f)
    {
      assert terms[..j + 1][..j] == terms[..j];
      l := Replace(l, terms[j], Replace(terms[j], f, tag + "_" + f));
      j := j + 1;
    }
    assert terms[..j] == terms;
  }

  /** In place, the renamed global equations depend only on the global equations and
      the renamed local ones only on the local equations. */
  lemma {:induction false} LocalFuncsSeparate(tag: string, funcs: seq<string>, glob: string, loc: string,
                                              glob2: string, loc2: string, find: Finder)
    requires NamedFunctions(funcs) && NonEmptyMatches(find)
    ensures LocalFuncs(tag, funcs, glob, loc, find).0 == LocalFuncs(tag, funcs, glob, loc2, find).0
    ensures LocalFuncs(tag, funcs, glob, loc, find).1 == LocalFuncs(tag, funcs, glob2, loc, find).1
  {
    if funcs != [] {
      LocalFuncsSeparate(tag, funcs[..|funcs| - 1], glob, loc, glob2, loc2, find);
    }
  }

  /** Texts without calls to local functions are left unchanged. */
  lemma {:induction false} LocalFuncsNoCalls(tag: string, funcs: seq<string>, glob: string, loc: string, find: Finder)
    requires NamedFunctions(funcs) && NonEmptyMatches(find)
    requires forall k :: 0 <= k < |funcs| ==> find(funcs[k], glob) == [] && find(funcs[k], loc) == []
    ensures LocalFuncs(tag, funcs, glob, loc, find) == (glob, loc)
  {
    if funcs != [] {
      LocalFuncsNoCalls(tag, funcs[..|funcs| - 1], glob, loc, find);
    }
  }

  /** As written, a global equation `f(x)` next to local equations without a call is
      replaced by the local equations; in place it becomes a call of the renamed
      function. */
  lemma GlobalEquationsLost()
    ensures var find: Finder := (f, s) => if s == "f(x)" then ["f(x)"] else [];
            LocalFuncsAsWritten("pop0", ["f"], "f(x)", "v", find) == ("v", "v") &&
            LocalFuncs("pop0", ["f"], "f(x)", "v", find) == ("pop0_f(x)", "v")
  {
    var find: Finder := (f, s) => if s == "f(x)" then ["f(x)"] else [];
    var funcs := ["f"];
    assert funcs[..0] == [];
    var renamed := RenamedCall("pop0", "f", "f(x)");
    assert "f(x)" == "f" + "(x)";
    ReplaceAtFront("f", "(x)", "pop0_f");
    ReplaceNoStart("(x)", "f", "pop0_f");
    assert renamed == "pop0_f(x)";
    ReplaceNoStart("v", "f(x)", renamed);
    assert RenameCalls("v", [], "pop0", "f") == "v";
    var one := ["f(x)"];
    assert one[..0] == [];
    assert "f(x)" + "" == "f(x)";
    ReplaceAtFront("f(x)", "", renamed);
    assert Replace("", "f(x)", renamed) == "";
    assert renamed + "" == renamed;
    assert RenameCalls("f(x)", one, "pop0", "f") == renamed;
  }

  /** As intended, a call found several times in a text, whose first character occurs
      nowhere else in that text, has each of its occurrences renamed exactly once. */
  lemma RenamedOnce(tag: string, f: string, glob: string, seps: seq<string>, t: string, find: Finder)
    requires f != [] && NonEmptyMatches(find) && |seps| >= 1 && t != []
    requires forall k :: 0 <= k < |seps| ==> t[0] !in seps[k]
    requires var found := find(f, Interleave(seps, t)); found != [] && forall k :: 0 <= k < |found| ==> found[k] == t
    ensures LocalFuncs(tag, [f], glob, Interleave(seps, t), find).1 == Interleave(seps, RenamedCall(tag, f, t))
  {
    var s := Interleave(seps, t);
    var funcs := [f];
    assert funcs[..0] == [];
    UniqueOfCopies(find(f, s), t);
    var one := [t];
    assert one[..0] == [];
    assert RenameCalls(s, one, tag, f) == Replace(s, t, RenamedCall(tag, f, t));
    ReplaceInterleave(seps, t, RenamedCall(tag, f, t));
  }

  /** A call `f(args)` renamed for population `tag` is the call with the prefix
      `tag_`, when the arguments do not hold the name's first character. */
  lemma RenamedCallPrefix(tag: string, f: string, args: string)
    requires f != [] && f[0] !in args
    ensures RenamedCall(tag, f, f + args) == tag + "_" + (f + args)
  {
    ReplaceAtFront(f, args, tag + "_" + f);
    ReplaceNoStart(args, f, tag + "_" + f);
  }

  lemma InterleaveThree(a: string, b: string, c: string, u: string)
    ensures Interleave([a, b, c], u) == a + u + b + u + c
  {
    var seps := [a, b, c];
    var tail := seps[1..];
    assert tail == [b, c] && tail[1..] == [c];
    assert Interleave(tail[1..], u) == c;
    assert Interleave(tail, u) == b + u + c;
    assert Interleave(seps, u) == a + u + (b + u + c);
  }

  /** Prefixing the two occurrences of `t` in `a + t + b + t + c` with `p`, when `t`
      cannot start inside the other pieces. */
  lemma PrefixTwoOccurrences(a: string, b: string, c: string, t: string, p: string)
    requires t != [] && t[0] !in a && t[0] !in b && t[0] !in c
    ensures Replace(a + t + b + t + c, t, p + t) == a + p + t + b + p + t + c
  {
    InterleaveThree(a, b, c, t);
    InterleaveThree(a, b, c, p + t);
    ReplaceInterleave([a, b, c], t, p + t);
    assert a + (p + t) + b + (p + t) + c == a + p + t + b + p + t + c;
  }

  /** Prefixing them a second time puts a second `p` in front of each. */
  lemma PrefixTwoOccurrencesAgain(a: string, b: string, c: string, t: string, p: string)
    requires t != [] && t[0] !in a && t[0] !in b && t[0] !in c && t[0] !in p
    ensures Replace(a + p + t + b + p + t + c, t, p + t) == a + p + p + t + b + p + p + t + c
  {
    var x, y := a + p, b + p;
    assert x + t + y + t + c == a + p + t + b + p + t + c by { }
    assert x + p + t + y + p + t + c == a + p + p + t + b + p + p + t + c by { }
    PrefixTwoOccurrences(x, y, c, t, p);
  }

  /** As written, a call that `re.findall` reports twice is renamed twice: in
      `a + t + b + t + c`, with `t` the call `f(args)`, both occurrences get the prefix
      `tag_` two times over, where the intended renaming gives it once. */
  lemma RepeatedCallPrefixedTwice(tag: string, f: string, args: string, glob: string,
                                  a: string, b: string, c: string, find: Finder)
    requires f != [] && NonEmptyMatches(find)
    requires f[0] !in args && f[0] !in tag + "_" && f[0] !in a && f[0] !in b && f[0] !in c
    requires find(f, a + (f + args) + b + (f + args) + c) == [f + args, f + args]
    ensures var t, p := f + args, tag + "_";
            LocalFuncsAsWritten(tag, [f], glob, a + t + b + t + c, find).1 == a + p + p + t + b + p + p + t + c
    ensures var t, p := f + args, tag + "_";
            LocalFuncs(tag, [f], glob, a + t + b + t + c, find).1 == a + p + t + b + p + t + c
  {
    var t, p := f + args, tag + "_";
    var s := a + t + b + t + c;
    RenamedCallPrefix(tag, f, args);
    PrefixTwoOccurrences(a, b, c, t, p);
    PrefixTwoOccurrencesAgain(a, b, c, t, p);
    var found := [t, t];
    assert found[..1] == [t] && found[..1][..0] == [];
    assert RenameCalls(s, found[..1], tag, f) == a + p + t + b + p + t + c;
    assert RenameCalls(s, found, tag, f) == a + p + p + t + b + p + p + t + c;
    var funcs := [f];
    assert funcs[..0] == [];
    assert LocalFuncsAsWritten(tag, funcs, glob, s, find).1 == RenameCalls(s, found, tag, f);
    UniqueOfCopies(found, t);
    assert LocalFuncs(tag, funcs, glob, s, find).1 == RenameCalls(s, [t], tag, f);
  }

  // ---------------------------------------------------------------------------
  // Spike gathering

  /** A reset statement of the spike description: the variable it assigns, its C++
      text and the attributes it reads. */
  datatype ResetEq = ResetEq(name: string, cpp: string, dependencies: seq<string>)

  /** The spike condition, its dependencies and the reset statements. */
  datatype SpikeDescription = SpikeDescription(cond: string, condDependencies: seq<string>, resets: seq<ResetEq>)

  /** The attributes the gathering kernel reads, duplicates included. */
  function KernelDeps(spike: SpikeDescription): (r: seq<string>)
    ensures forall d :: d in spike.condDependencies ==> d in r
  {
    spike.condDependencies + ResetDeps(spike.resets)
  }

  function ResetDeps(resets: seq<ResetEq>): (r: seq<string>)
    ensures forall k :: 0 <= k < |resets| ==> resets[k].name in r
    ensures forall k, d :: 0 <= k < |resets| && d in resets[k].dependencies ==> d in r
  {
    if resets == [] then []
    else
      var rest := ResetDeps(resets[1..]);
      assert forall k :: 1 <= k < |resets| ==> resets[k] == resets[1..][k - 1];
      [resets[0].name] + resets[0].dependencies + rest
  }

  /** The arguments of the gathering kernel, one per dependency in the order the
      de-duplicated set yields them: local attributes as device arrays, the others by
      value. */
  function GatherArgs(n: Neuron, order: seq<string>): (r: seq<KernelArg>)
    requires Resolves(n, order)
    ensures |r| == |order|
    ensures forall k :: 0 <= k < |order| ==> r[k].name == order[k] && (r[k].pointer <==> IsLocal(n, order[k]))
  {
    seq(|order|, k requires 0 <= k < |order| =>
          KernelArg(AttrOf(n, order[k]).value.ctype, order[k], IsLocal(n, order[k]), false))
  }

  /** `list(set(kernel_deps))`: the order is a parameter, any repetition-free
      arrangement of the dependencies. */
  ghost predicate DedupOrder(spike: SpikeDescription, order: seq<string>) {
    Distinct(order) && forall d :: d in order <==> d in KernelDeps(spike)
  }

  /** Every attribute the condition or a reset reads or writes is passed to the
      gathering kernel exactly once. */
  lemma GatherArgsOnce(n: Neuron, spike: SpikeDescription, order: seq<string>, d: string)
    requires Resolves(n, order) && DedupOrder(spike, order) && d in KernelDeps(spike)
    ensures exists k :: 0 <= k < |order| && GatherArgs(n, order)[k].name == d
    ensures forall k, j ::
              (0 <= k < |order| && 0 <= j < |order| && GatherArgs(n, order)[k].name == d &&
               GatherArgs(n, order)[j].name == d) ==> k == j
  {
    var k :| 0 <= k < |order| && order[k] == d;
    assert GatherArgs(n, order)[k].name == d;
  }

  /** The loop that builds the gathering kernel's parameter list and launch arguments
      (the header's list is the body's). */
  method GatherArguments(p: Pop, order: seq<string>) returns (decl: string, call: string)
    requires Resolves(p.neuron, order)
    ensures decl == Render(GatherArgs(p.neuron, order), Declare)
    ensures call == Render(GatherArgs(p.neuron, order), a => Pass(PopTag(p), a))
  {
    var tag := PopTag(p);
    ghost var f := a => Pass(PopTag(p), a);
    decl, call := "", "";
    var i := 0;
    while i < |order|
      invariant 0 <= i <= |order|
      invariant decl == Render(GatherArgs(p.neuron, order)[..i], Declare)
      invariant call == Render(GatherArgs(p.neuron, order)[..i], f)
    {
      var v := order[i];
      var attr := AttrOf(p.neuron, v).value;
      ghost var x := GatherArgs(p.neuron, order)[i];
      assert GatherArgs(p.neuron, order)[..i + 1] == GatherArgs(p.neuron, order)[..i] + [x];
      RenderAppend(GatherArgs(p.neuron, order)[..i], x, Declare);
      RenderAppend(GatherArgs(p.neuron, order)[..i], x, f);
      decl := decl + Declare(KernelArg(attr.ctype, v, attr.locality == Local, false));
      call := call + Pass(tag, KernelArg(attr.ctype, v, attr.locality == Local, false));
      i := i + 1;
    }
    assert GatherArgs(p.neuron, order)[..i] == GatherArgs(p.neuron, order);
  }

  /** The buffers the gathering kernel writes: the front of the spike deques of a
      population with delays, the plain buffers otherwise. */
  datatype EventBuffers = DelayedFront | Current

  /** The default launch arguments of the gathering kernel: the time step, the event
      count and spike buffers chosen by `buffers`, and the last-spike times. */
  function GatherDefaultArgs(tag: string, buffers: EventBuffers): string {
    var (count, spikes) := match buffers
      case DelayedFront => (".gpu_delayed_num_events.front()", ".gpu_delayed_spiked.front()")
      case Current => (".gpu_num_events", ".gpu_spiked");
    "dt, " + (tag + count) + ", " + (tag + spikes) + ", " + tag + ".gpu_last_spike"
  }

  /** The delayed launch passes the fronts of the delayed event-count and spike deques,
      right after `dt, `. */
  lemma DelayedLaunchReadsFronts(tag: string)
    ensures var d, e := tag + ".gpu_delayed_num_events.front()", tag + ".gpu_delayed_spiked.front()";
      && OccursAt(GatherDefaultArgs(tag, DelayedFront), d, 4)
      && OccursAt(GatherDefaultArgs(tag, DelayedFront), e, 4 + |d| + 2)
  {
    var d, e := tag + ".gpu_delayed_num_events.front()", tag + ".gpu_delayed_spiked.front()";
    TwoArguments("dt, ", d, ", ", e, ", " + tag + ".gpu_last_spike");
  }

  /** Without delays the launch passes the current event count and spike buffer, right
      after `dt, `. */
  lemma CurrentLaunchReadsBuffers(tag: string)
    ensures var c, f := tag + ".gpu_num_events", tag + ".gpu_spiked";
      && OccursAt(GatherDefaultArgs(tag, Current), c, 4)
      && OccursAt(GatherDefaultArgs(tag, Current), f, 4 + |c| + 2)
  {
    var c, f := tag + ".gpu_num_events", tag + ".gpu_spiked";
    TwoArguments("dt, ", c, ", ", f, ", " + tag + ".gpu_last_spike");
  }

  /** The two default argument lists differ right after the tag's `gpu_` prefix: the
      launch reads the delayed deques exactly when asked to. */
  lemma DefaultArgsDistinguishBuffers(tag: string)
    ensures var n := |"dt, " + tag + ".gpu_"|;
            |GatherDefaultArgs(tag, DelayedFront)| > n && |GatherDefaultArgs(tag, Current)| > n &&
            GatherDefaultArgs(tag, DelayedFront)[n] == 'd' && GatherDefaultArgs(tag, Current)[n] == 'n'
  {
    var post := ", " + tag + ".gpu_last_spike";
    var d, e := tag + ".gpu_delayed_num_events.front()", tag + ".gpu_delayed_spiked.front()";
    var c, f := tag + ".gpu_num_events", tag + ".gpu_spiked";
    var n := |"dt, " + tag + ".gpu_"|;
    assert GatherDefaultArgs(tag, DelayedFront) == "dt, " + d + ", " + e + post;
    assert GatherDefaultArgs(tag, Current) == "dt, " + c + ", " + f + post;
    assert ("dt, " + d + ", " + e + post)[n] == d[|tag| + 5];
    assert ("dt, " + c + ", " + f + post)[n] == c[|tag| + 5];
  }

  /** Where the two arguments of a launch list `p x sep y post` lie. */
  lemma TwoArguments(p: string, x: string, sep: string, y: string, post: string)
    ensures OccursAt(p + x + sep + y + post, x, |p|)
    ensures OccursAt(p + x + sep + y + post, y, |p| + |x| + |sep|)
  {
    var s := p + x + sep + y + post;
    assert s == p + (x + (sep + (y + post)));
    assert s[|p|..|p| + |x|] == x;
    assert s == (p + x + sep) + (y + post);
    assert s[|p| + |x| + |sep|..|p| + |x| + |sep| + |y|] == y;
  }


  // ---------------------------------------------------------------------------
  // The update of a spiking population

  /** The equation texts of a population from the equation generator: global, local
      and conductance-only local equations. */
  datatype Equations = Equations(glob: string, loc: string, conductance: string)

  /** The attributes of the templates module. */
  const CudaTemplatesModule: set<string> :=
    {"library_header", "population_header", "attribute_decl", "attribute_acc", "attribute_cpp_init",
     "attribute_delayed", "curand", "rate_psp", "spike_specific", "population_update_kernel",
     "population_update_call", "spike_gather_kernel", "spike_gather_call", "cuda_templates"}

  /** The module attributes `_update_spiking_neuron` reads, in order. */
  const UpdateTemplates: seq<string> :=
    ["population_update_kernel", "population_update_header", "population_update_call",
     "spike_gather_kernel", "spike_gather_header", "spike_gather_call"]

  function FirstMissing(names: seq<string>, attrs: set<string>): (r: Option<string>)
    ensures r.None? <==> forall k :: 0 <= k < |names| ==> names[k] in attrs
    ensures r.Some? ==> r.value in names && r.value !in attrs
  {
    if names == [] then None
    else if names[0] !in attrs then Some(names[0])
    else FirstMissing(names[1..], attrs)
  }

  /** Python's `str.isspace`: the characters that `strip()` removes. */
  predicate IsSpace(c: char) {
    c == ' ' || c == '\t' || c == '\n' || c == '\r' || c == '\U{B}' || c == '\U{C}' ||
    '\U{1C}' <= c <= '\U{1F}' || c == '\U{85}' || c == '\U{A0}' || c == '\U{1680}' ||
    '\U{2000}' <= c <= '\U{200A}' || c == '\U{2028}' || c == '\U{2029}' || c == '\U{202F}' ||
    c == '\U{205F}' || c == '\U{3000}'
  }

  const GlobalOpen: string := "\n    if ( threadIdx.x == 0)\n    {\n"
  const GlobalClose: string := "\n    }\n    __syncthreads();\n"

  /** The global equations, run by the first thread of each block followed by a
      barrier; nothing when they are blank. */
  function GlobalBlock(eqs: string): (r: string)
    ensures r == "" <==> forall k :: 0 <= k < |eqs| ==> IsSpace(eqs[k])
    ensures r != "" ==> OccursAt(r, eqs, |GlobalOpen|)
  {
    if forall k :: 0 <= k < |eqs| ==> IsSpace(eqs[k]) then ""
    else
      var r := GlobalOpen + eqs + GlobalClose;
      assert r[|GlobalOpen|..|GlobalOpen| + |eqs|] == eqs;
      r
  }

  datatype StepKernel = StepKernel(globalEqs: string, localEqs: string, refractory: bool,
                                   declVars: string, declPars: string, callVars: string, callPars: string)

  datatype GatherKernel = GatherKernel(cond: string, resets: seq<string>, refractory: bool,
                                       declArgs: string, callArgs: string, buffers: EventBuffers,
                                       defaultArgs: string)

  datatype SpikingCode = NoVariables | SpikingCode(step: StepKernel, gather: GatherKernel)

  ghost predicate UpdateInputs(p: Pop, order: seq<string>, spike: SpikeDescription, find: Finder) {
    NamedRandoms(p.neuron.randoms) && NamedFunctions(p.neuron.functions) && NonEmptyMatches(find) &&
    Resolves(p.neuron, order) && DedupOrder(spike, order)
  }

  /** `_update_spiking_neuron`: nothing without variables; otherwise the random
      variables are replaced (which may fail), the local equations are wrapped for the
      refractory period, local function calls are renamed as written, the launch
      arguments are stripped of types as written, and the step and gathering kernels are
      instantiated from the templates module (a missing attribute fails). */
  function UpdateSpikingNeuron(p: Pop, eqs: Equations, spike: SpikeDescription, order: seq<string>,
                               find: Finder, attrs: set<string>): (r: Result<SpikingCode>)
    requires UpdateInputs(p, order, spike, find)
    ensures p.neuron.variables == [] ==> r == Ok(NoVariables)
    ensures p.neuron.variables != [] && r.Ok? ==> r.value.SpikingCode?
    ensures p.neuron.variables != [] ==>
              (r.Err? <==> ReplaceRandomSpec(eqs.loc, GlobalBlock(eqs.glob), p.neuron.randoms).Err? ||
                           FirstMissing(UpdateTemplates, attrs).Some?)
  {
    if p.neuron.variables == [] then Ok(NoVariables)
    else
      var replaced := ReplaceRandomSpec(eqs.loc, GlobalBlock(eqs.glob), p.neuron.randoms);
      if replaced.Err? then Err(replaced.error)
      else
        var refr := p.neuron.refractory || p.refractory;
        var loc := if refr then RefractoryWrap(eqs.conductance, replaced.value.0) else replaced.value.0;
        var renamed := if p.neuron.functions != [] then LocalFuncsAsWritten(PopTag(p), p.neuron.functions, replaced.value.1, loc, find)
                       else (replaced.value.1, loc);
        var missing := FirstMissing(UpdateTemplates, attrs);
        if missing.Some? then Err(MissingAttribute(missing.value))
        else
          var tag := PopTag(p);
          var call := StripTypesAsWritten(Render(ArrayArgsOf(p), a => Pass(tag, a)), Render(ValueArgsOf(p), a => Pass(tag, a)));
          Ok(SpikingCode(
            StepKernel(renamed.0, renamed.1, refr,
                       Render(ArrayArgsOf(p), Declare), Render(ValueArgsOf(p), Declare), call.0, call.1),
            GatherKernel(spike.cond, ResetTexts(spike.resets), refr,
                         Render(GatherArgs(p.neuron, order), Declare),
                         Render(GatherArgs(p.neuron, order), a => Pass(tag, a)),
                         if p.maxDelay > 1 then DelayedFront else Current,
                         GatherDefaultArgs(tag, if p.maxDelay > 1 then DelayedFront else Current))))
  }

  /** A generated update declares the step kernel's arguments and passes the arrays as
      declared (the value arguments go through the type stripping of the launch), wraps
      the local equations exactly for a refractory neuron, increments the refractory counter in
      the gathering kernel exactly then, and gathers into the delayed buffers exactly
      for a population with delays. */
  lemma UpdateSpikingShape(p: Pop, eqs: Equations, spike: SpikeDescription, order: seq<string>,
                           find: Finder, attrs: set<string>)
    requires UpdateInputs(p, order, spike, find)
    requires UpdateSpikingNeuron(p, eqs, spike, order, find, attrs).Ok? && p.neuron.variables != []
    ensures var c := UpdateSpikingNeuron(p, eqs, spike, order, find, attrs).value;
            var refr := p.neuron.refractory || p.refractory;
            c.step.refractory == refr && c.gather.refractory == refr &&
            (c.gather.buffers == DelayedFront <==> p.maxDelay > 1) &&
            c.gather.defaultArgs == GatherDefaultArgs(PopTag(p), c.gather.buffers) &&
            c.step.declVars == Render(ArrayArgsOf(p), Declare) &&
            ('*' !in Render(ArrayArgsOf(p), a => Pass(PopTag(p), a)) ==>
               c.step.callVars == Render(ArrayArgsOf(p), a => Pass(PopTag(p), a))) &&
            c.step.declPars == Render(ValueArgsOf(p), Declare) &&
            c.step.callPars == StripTypesAsWritten("", Render(ValueArgsOf(p), a => Pass(PopTag(p), a))).1 &&
            c.gather.declArgs == Render(GatherArgs(p.neuron, order), Declare) &&
            c.gather.callArgs == Render(GatherArgs(p.neuron, order), a => Pass(PopTag(p), a))
  {
    var vars := Render(ArrayArgsOf(p), a => Pass(PopTag(p), a));
    if '*' !in vars {
      ArrayStripHarmless(vars);
    }
  }

  function ResetTexts(resets: seq<ResetEq>): (r: seq<string>)
    ensures |r| == |resets|
  {
    seq(|resets|, k requires 0 <= k < |resets| => resets[k].cpp)
  }

  /** As written, the templates module has no kernel prototypes, so every spiking
      population with variables and supported random variables fails on the first
      prototype. */
  lemma UpdatePrototypeMissing(p: Pop, eqs: Equations, spike: SpikeDescription, order: seq<string>, find: Finder)
    requires UpdateInputs(p, order, spike, find)
    requires p.neuron.variables != []
    requires ReplaceRandomSpec(eqs.loc, GlobalBlock(eqs.glob), p.neuron.randoms).Ok?
    ensures UpdateSpikingNeuron(p, eqs, spike, order, find, CudaTemplatesModule) ==
              Err(MissingAttribute("population_update_header"))
  {
    assert "population_update_kernel" in CudaTemplatesModule;
    assert "population_update_header" !in CudaTemplatesModule;
    assert FirstMissing(UpdateTemplates, CudaTemplatesModule) == Some("population_update_header");
  }

  /** With both prototypes present, the update fails only when a random variable
      cannot be replaced. */
  lemma UpdateWithPrototypes(p: Pop, eqs: Equations, spike: SpikeDescription, order: seq<string>, find: Finder)
    requires UpdateInputs(p, order, spike, find)
    ensures var attrs := CudaTemplatesModule + {"population_update_header", "spike_gather_header"};
            UpdateSpikingNeuron(p, eqs, spike, order, find, attrs).Err? <==>
              p.neuron.variables != [] &&
              exists k :: 0 <= k < |p.neuron.randoms| && RandomError(p.neuron.randoms[k]).Some?
  {
    var attrs := CudaTemplatesModule + {"population_update_header", "spike_gather_header"};
    assert FirstMissing(UpdateTemplates, attrs).None?;
    ReplaceRandomErrors(eqs.loc, GlobalBlock(eqs.glob), p.neuron.randoms);
  }
}
