/** The sparse-matrix format decision of a projection
    (ProjectionGenerator._select_sparse_matrix_format): from the synapse kind, the
    requested storage format and order, the paradigm, the thread count and the
    structural-plasticity switch to a C++ format declaration, its constructor
    arguments and whether the connectivity is one complete matrix or a sliced one. */
module FormatSelection {
  import opened Common

  datatype StorageFormat = Lil | Coo | Csr | Ell | Hyb | OtherFormat(name: string)

  datatype StorageOrder = PostToPre | PreToPost | OtherOrder(name: string)

  /** The pre- or post-synaptic side of a projection: a population, or a view on one.
      A view is sized by the population it is taken from. */
  datatype PopRef = Population(size: nat) | View(populationSize: nat, viewSize: nat)

  /** Process-wide configuration read by the generator. */
  datatype Config = Config(paradigm: Paradigm, numThreads: int, structuralPlasticity: bool)

  datatype Projection = Projection(
    synapseKind: Kind,
    format: StorageFormat,
    order: StorageOrder,
    pre: PopRef,
    post: PopRef,
    noSplitMatrix: bool)

  /** A CodeGeneratorException the selection builds and then drops without raising it. */
  datatype Discarded =
    | RateOrderInvalid                                   // pre_to_post on rate-coded synapses
    | LilOrderInvalid                                    // pre_to_post on spiking LIL
    | NoParadigmImplementation(kind: Kind, format: StorageFormat, paradigm: Paradigm)
    | NoFormatImplementation(kind: Kind, format: StorageFormat)
    | InvalidSynapseType(kind: Kind)

  datatype Selection =
    | Selected(format: string, args: string, singleMatrix: bool, discarded: seq<Discarded>)
    | Failed(error: GenError, discarded: seq<Discarded>)

  function PopulationSize(p: PopRef): nat {
    match p
    case Population(size) => size
    case View(populationSize, _) => populationSize
  }

  /** Constructor arguments of every sparse-matrix format: " <post size>, <pre size>". */
  function MatrixArgs(proj: Projection): string {
    " " + NatToString(PopulationSize(proj.post)) + ", " + NatToString(PopulationSize(proj.pre))
  }

  /** The format, and whether it is a single matrix, once the branch has bound them;
      None when the branch bound nothing. */
  datatype Choice = Choice(format: string, single: bool)

  function RateChoice(cfg: Config, proj: Projection): (Option<Choice>, seq<Discarded>) {
    match proj.format
    case Lil =>
      if cfg.paradigm == OpenMP then
        // the single- and the multi-threaded branch bind the same values
        if cfg.numThreads == 1 then (Some(Choice("LILMatrix<int>", true)), [])
        else (Some(Choice("LILMatrix<int>", true)), [])
      else if cfg.paradigm == Cuda then (Some(Choice("LILMatrixCUDA<int>", true)), [])
      else (None, [NoParadigmImplementation(Rate, Lil, cfg.paradigm)])
    case Coo =>
      if cfg.paradigm == OpenMP then
        if cfg.numThreads == 1 then (Some(Choice("COOMatrix<int>", true)), [])
        else (Some(Choice("COOMatrix<int>", true)), [])
      else if cfg.paradigm == Cuda then (Some(Choice("COOMatrixCUDA", true)), [])
      else (None, [NoParadigmImplementation(Rate, Coo, cfg.paradigm)])
    case Csr =>
      (Some(Choice(if cfg.paradigm == OpenMP then "CSRMatrix <int>" else "CSRMatrixCUDA", true)), [])
    case Ell => (Some(Choice("ELLMatrix<int>", true)), [])
    case Hyb => (Some(Choice("HYBMatrix<int, true>", true)), [])
    case OtherFormat(_) => (None, [NoFormatImplementation(Rate, proj.format)])
  }

  function SpikeChoice(cfg: Config, proj: Projection): (Option<Choice>, seq<Discarded>) {
    match proj.format
    case Lil =>
      var warn := if proj.order == PreToPost then [LilOrderInvalid] else [];
      if cfg.paradigm == OpenMP then
        if cfg.numThreads == 1 || proj.noSplitMatrix then (Some(Choice("LILInvMatrix<int>", true)), warn)
        else (Some(Choice("ParallelLIL<LILInvMatrix<int>, int>", false)), warn)
      else if cfg.paradigm == Cuda then (Some(Choice("LILInvMatrixCUDA <int>", true)), warn)
      else (None, warn + [NoParadigmImplementation(Spike, Lil, cfg.paradigm)])
    case Csr =>
      if proj.order == PostToPre then
        if cfg.numThreads == 1 then (Some(Choice("CSRCMatrix <int>", true)), [])
        else (Some(Choice("CSRCMatrix <int>", true)), [])
      else
        if cfg.numThreads == 1 then (Some(Choice("CSRCMatrixT <int>", true)), [])
        else (Some(Choice("CSRCMatrixTOMP <int>", false)), [])
    case _ => (None, [NoFormatImplementation(Spike, proj.format)])
  }

  /** The combinations for which a format is registered, written as a table and
      independently of the branch structure of the selection. */
  predicate Supported(cfg: Config, proj: Projection) {
    && !(cfg.structuralPlasticity && proj.format != Lil)
    && match proj.synapseKind
       case Rate =>
         || proj.format in {Csr, Ell, Hyb}
         || (proj.format in {Lil, Coo} && cfg.paradigm in {OpenMP, Cuda})
       case Spike =>
         || proj.format == Csr
         || (proj.format == Lil && cfg.paradigm in {OpenMP, Cuda})
       case OtherKind(_) => false
  }

  /** _select_sparse_matrix_format. Only structural plasticity with a non-LIL format
      raises; every other "unsupported" branch builds an exception and drops it, so the
      selection either continues or fails reading the unbound format name. */
  function SelectSparseMatrixFormat(cfg: Config, proj: Projection): (r: Selection)
    ensures r.Selected? <==> Supported(cfg, proj)
    ensures r.Failed? && r.error.InvalidConfiguration? <==> cfg.structuralPlasticity && proj.format != Lil
    ensures r.Failed? && !r.error.InvalidConfiguration? ==> r.error == UnboundLocal("sparse_matrix_format")
    ensures r.Selected? ==> r.args == MatrixArgs(proj)
  {
    if cfg.structuralPlasticity && proj.format != Lil then
      Failed(InvalidConfiguration("Structural plasticity is only allowed for LIL format."), [])
    else
      var (choice, discarded) :=
        match proj.synapseKind
        case Rate =>
          var (c, d) := RateChoice(cfg, proj);
          (c, (if proj.order == PreToPost then [RateOrderInvalid] else []) + d)
        case Spike => SpikeChoice(cfg, proj)
        case OtherKind(_) => (None, [InvalidSynapseType(proj.synapseKind)]);
      match choice
      case Some(c) => Selected(c.format, MatrixArgs(proj), c.single, discarded)
      case None => Failed(UnboundLocal("sparse_matrix_format"), discarded)
  }

  // ---------------------------------------------------------------------------
  // The rows of the decision table

  /** Structural plasticity with any format but LIL raises before anything else is decided. */
  lemma StructuralPlasticityNeedsLil(cfg: Config, proj: Projection)
    requires cfg.structuralPlasticity && proj.format != Lil
    ensures SelectSparseMatrixFormat(cfg, proj)
         == Failed(InvalidConfiguration("Structural plasticity is only allowed for LIL format."), [])
  {
  }

  /** Rate-coded LIL: the same single matrix for every thread count under openmp, the CUDA
      variant under cuda. */
  lemma RateLil(cfg: Config, proj: Projection)
    requires proj.synapseKind == Rate && proj.format == Lil && cfg.paradigm in {OpenMP, Cuda}
    ensures var r := SelectSparseMatrixFormat(cfg, proj);
      && r.Selected? && r.singleMatrix
      && r.format == (if cfg.paradigm == OpenMP then "LILMatrix<int>" else "LILMatrixCUDA<int>")
  {
  }

  /** Rate-coded CSR: the openmp matrix exactly when the paradigm is openmp, the CUDA
      matrix for every other paradigm. */
  lemma RateCsr(cfg: Config, proj: Projection)
    requires proj.synapseKind == Rate && proj.format == Csr && !cfg.structuralPlasticity
    ensures var r := SelectSparseMatrixFormat(cfg, proj);
      && r.Selected? && r.singleMatrix
      && (r.format == "CSRMatrix <int>" <==> cfg.paradigm == OpenMP)
      && (r.format != "CSRMatrix <int>" ==> r.format == "CSRMatrixCUDA")
  {
  }

  /** Rate-coded ELL and HYB ignore the paradigm and the thread count. */
  lemma RateEllHybIgnoreParadigm(cfg1: Config, cfg2: Config, proj: Projection)
    requires proj.synapseKind == Rate && proj.format in {Ell, Hyb}
    requires !cfg1.structuralPlasticity && !cfg2.structuralPlasticity
    ensures SelectSparseMatrixFormat(cfg1, proj) == SelectSparseMatrixFormat(cfg2, proj)
    ensures SelectSparseMatrixFormat(cfg1, proj).Selected?
  {
  }

  /** Spiking LIL under openmp: one LILInvMatrix when single-threaded or when splitting is
      switched off, otherwise the sliced ParallelLIL, the only non-single rate/spike LIL. */
  lemma SpikeLilOpenMP(cfg: Config, proj: Projection)
    requires proj.synapseKind == Spike && proj.format == Lil && cfg.paradigm == OpenMP
    ensures var r := SelectSparseMatrixFormat(cfg, proj);
      && r.Selected?
      && (r.singleMatrix <==> cfg.numThreads == 1 || proj.noSplitMatrix)
      && r.format == (if r.singleMatrix then "LILInvMatrix<int>" else "ParallelLIL<LILInvMatrix<int>, int>")
  {
  }

  /** Spiking CSR has no paradigm check: post_to_pre gives CSRCMatrix at any thread count,
      any other order the transposed matrix, split over threads when there are several. */
  lemma SpikeCsr(cfg: Config, proj: Projection)
    requires proj.synapseKind == Spike && proj.format == Csr && !cfg.structuralPlasticity
    ensures var r := SelectSparseMatrixFormat(cfg, proj);
      && r.Selected?
      && (proj.order == PostToPre ==> r.format == "CSRCMatrix <int>" && r.singleMatrix)
      && (proj.order != PostToPre && cfg.numThreads == 1 ==> r.format == "CSRCMatrixT <int>" && r.singleMatrix)
      && (proj.order != PostToPre && cfg.numThreads != 1 ==> r.format == "CSRCMatrixTOMP <int>" && !r.singleMatrix)
  {
  }

  /** A rate-coded projection stored pre_to_post is not rejected: the selection is the one
      of the post_to_pre projection, with the dropped exception recorded first. */
  lemma RatePreToPostOnlyConstructsException(cfg: Config, proj: Projection)
    requires proj.synapseKind == Rate && proj.order == PreToPost && !cfg.structuralPlasticity
    ensures var r := SelectSparseMatrixFormat(cfg, proj);
      var q := SelectSparseMatrixFormat(cfg, proj.(order := PostToPre));
      && (r.Selected? <==> q.Selected?)
      && (r.Selected? ==> r.format == q.format && r.args == q.args && r.singleMatrix == q.singleMatrix)
      && r.discarded == [RateOrderInvalid] + q.discarded
  {
  }

  /** A format or paradigm without a registered matrix binds no format name, so the
      selection fails at its return statement after dropping the exception it built. */
  lemma NoImplementationFailsAtReturn(cfg: Config, proj: Projection)
    requires !cfg.structuralPlasticity
    requires proj.synapseKind == Spike && proj.format !in {Lil, Csr}
    ensures SelectSparseMatrixFormat(cfg, proj)
         == Failed(UnboundLocal("sparse_matrix_format"), [NoFormatImplementation(Spike, proj.format)])
  {
  }

  // ---------------------------------------------------------------------------
  // Constructor arguments

  lemma {:induction false} DigitsHaveNoComma(n: nat)
    ensures ',' !in NatToString(n)
  {
    var s := NatToString(n);
    forall k | 0 <= k < |s| ensures s[k] != ',' {
      assert '0' <= s[k] <= '9';
    }
  }

  /** The constructor arguments split at the comma into the post size first and the pre
      size second, each the size of the underlying population when the side is a view. */
  lemma {:induction false} ArgsArePostThenPre(proj: Projection)
    ensures Split(MatrixArgs(proj), ',')
         == [" " + NatToString(PopulationSize(proj.post)), " " + NatToString(PopulationSize(proj.pre))]
  {
    var a := " " + NatToString(PopulationSize(proj.post));
    var b := " " + NatToString(PopulationSize(proj.pre));
    DigitsHaveNoComma(PopulationSize(proj.post));
    DigitsHaveNoComma(PopulationSize(proj.pre));
    assert ',' !in a;
    assert ',' !in b;
    assert MatrixArgs(proj) == a + [','] + b;
    SplitAtSeparator(a, b, ',');
    SplitNoSeparator(b, ',');
  }
}
