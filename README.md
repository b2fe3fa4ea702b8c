# ANNarchy population and projection code synthesis, modelled in Dafny

ANNarchy compiles a declarative description of neurons, synapses and connectivity
into C++/CUDA source. This project models the core of that backend: the part that
turns one population or one projection into a struct, its accessors, its
initialisation, its update kernels and its host/device transfers. It also models the
C++ that the emitted templates run.

- `format_selection.dfy` (`FormatSelection`): the choice of sparse-matrix format for
  a projection (`_select_sparse_matrix_format`). This covers every branch by synapse
  kind, storage format, paradigm, thread count and storage order. It also covers the
  exceptions that are built but never raised.
- `projection_attributes.dfy` (`ProjectionAttributes`): the declarations and the
  get/set accessor branches of a projection (`_generate_default_get_set`). It also
  covers the attribute lookup (`_get_attr_and_type`) and the clamping of bounds
  (`get_bounds`).
- `projection_init.dfy` (`ProjectionInit`): the delay declaration and the
  initialisation of weights, delays and other attributes
  (`_init_parameters_variables`). It also covers the size-in-bytes code
  (`_determine_size_in_bytes`).
- `csr_inverse.dfy` (`CsrInverse`): the two-pass inversion of a CSR matrix that the
  CUDA CSR template emits, written as functions on sequences with their properties.
- `csr_cuda.dfy` (`CsrCuda`): the CUDA CSR projection struct as classes.
  - Forward arrays, weights with dirty flag, the lazily built inverse, the
    dendrite/synapse accessors of local and global attributes, and their transfers.
  - The two passes as loops, proved equal to the functions of `CsrInverse`.
- `kernels.dfy` (`Kernels`): launch shapes and thread-to-index coverage of the
  generated kernels, the refractory countdown, spike selection and the any/all stop
  conditions.
- `population_runtime.dfy` (`PopulationRuntime`): the C++ state the population
  templates declare and what their methods do to it.
  - The struct and its activity flag, local and global attributes, and spike
    bookkeeping with refractory counters.
  - The spike and variable delay deques, post-synaptic sums and random states.
- `population_codegen.dfy` (`PopulationCodegen`): the CUDA population generator.
  - The header struct with the specific-template overrides, the delay code, and
    memory transfers.
  - Stop conditions, the global-operation update, the reset of summed inputs, and the
    replacement of random variables.
- `spiking_update.dfy` (`SpikingUpdate`): the update of a spiking population
  (`_update_spiking_neuron`).
  - Kernel arguments, the refractory wrap, renaming of local function calls, and the
    spike-gathering kernel.
  - Template lookup in the templates module.
- `common.dfy` (`Common`): shared datatypes, error kinds, string helpers and sorting.

Generated code is modelled symbolically. A fragment is a sequence of pieces: either a
template instantiated with an argument (`Tpl(key, arg)`) or verbatim text. A template
dictionary is modelled by its set of keys. Each generator is a function of that set.
On the projection side these key sets are the declaration tables, the locality
entries of `attribute_decl`/`attribute_sliced_matrix_decl` and `attribute_cpp_init`,
and the delay-kind entries of the `delay` table; the other projection templates are
taken to be present (see Left out).
For a missing template, one definition therefore gives both the behaviour as written
(a missing key raises `KeyError` or `AttributeError`) and the behaviour with the
missing entry supplied. The type stripping of the launch arguments and the renaming of
local function calls go wrong in the code itself. For these two, `UpdateSpikingNeuron`
uses the definitions as written (`StripTypesAsWritten`, `LocalFuncsAsWritten`), and
separate definitions state the intended behaviour (see Findings).

In the accessors of the generated structs, undefined C++ behaviour (reading past a
vector, a function that falls off its end) is the `Access` value `OutOfRange` or
`NoReturn`, never a value. Copies and kernels instead require their buffers to be long
enough (see Left out).

Two facts about the CSR inversion:
- A synapse-count mismatch after the inversion is only printed to `std::cerr`
  (CSR_CUDA.py:222-223). It is not a hard error, so the model records it as a
  diagnostic and carries on.
- The inversion does not always keep every synapse (see Findings).

## Model

| member | source | states |
|---|---|---|
| FormatSelection.SelectSparseMatrixFormat | ANNarchy/generator/Projection/ProjectionGenerator.py:96-220 | A format is selected exactly when the kind/format/paradigm combination has an implementation. The only raised error is InvalidConfiguration, exactly for structural plasticity with a non-LIL format. Every other failure is the unbound local `sparse_matrix_format`. A selected format carries the arguments " post, pre". |
| FormatSelection.Supported | ANNarchy/generator/Projection/ProjectionGenerator.py:110-205 | Independent table of the registered kind/format/paradigm combinations. `SelectSparseMatrixFormat` states that a format is selected exactly for these. |
| FormatSelection.RateChoice | ANNarchy/generator/Projection/ProjectionGenerator.py:110-160 | Reference definition of the rate-coded branch. `RateLil`, `RateCsr`, `RateEllHybIgnoreParadigm` and `RatePreToPostOnlyConstructsException` state what it selects. |
| FormatSelection.SpikeChoice | ANNarchy/generator/Projection/ProjectionGenerator.py:162-205 | Reference definition of the spiking branch. `SpikeLilOpenMP`, `SpikeCsr` and `NoImplementationFailsAtReturn` state what it selects and when it binds nothing. |
| FormatSelection.StructuralPlasticityNeedsLil | ANNarchy/generator/Projection/ProjectionGenerator.py:108-109 | Structural plasticity with any format but LIL fails with the configuration error and nothing discarded. |
| FormatSelection.RateLil | ANNarchy/generator/Projection/ProjectionGenerator.py:119-131 | A rate-coded LIL projection on OpenMP or CUDA selects the single matrix `LILMatrix<int>` or `LILMatrixCUDA<int>`. |
| FormatSelection.RateCsr | ANNarchy/generator/Projection/ProjectionGenerator.py:149-151 | A rate-coded CSR projection selects a single matrix: `CSRMatrix <int>` exactly on OpenMP, `CSRMatrixCUDA` otherwise. |
| FormatSelection.RateEllHybIgnoreParadigm | ANNarchy/generator/Projection/ProjectionGenerator.py:153-159 | ELL and HYB selections do not depend on the paradigm or thread count and always succeed without structural plasticity. |
| FormatSelection.SpikeLilOpenMP | ANNarchy/generator/Projection/ProjectionGenerator.py:168-185 | A spiking LIL projection on OpenMP is a single `LILInvMatrix<int>` exactly with one thread or no matrix split, and `ParallelLIL<...>` otherwise. |
| FormatSelection.SpikeCsr | ANNarchy/generator/Projection/ProjectionGenerator.py:187-202 | A spiking CSR projection selects CSRCMatrix for post-to-pre order, CSRCMatrixT with one thread, and a split CSRCMatrixTOMP otherwise. |
| FormatSelection.RatePreToPostOnlyConstructsException | ANNarchy/generator/Projection/ProjectionGenerator.py:113-114 | For rate-coded projections, pre-to-post order selects exactly what post-to-pre selects; it only adds one discarded exception. |
| FormatSelection.NoImplementationFailsAtReturn | ANNarchy/generator/Projection/ProjectionGenerator.py:204-220 | A spiking format without an implementation discards its exception and fails reading the unbound format name. |
| FormatSelection.ArgsArePostThenPre | ANNarchy/generator/Projection/ProjectionGenerator.py:212-215 | The constructor arguments split at the comma into exactly the post-synaptic size and then the pre-synaptic size. |
| ProjectionAttributes.Dedup | ANNarchy/generator/Projection/ProjectionGenerator.py:476-480 | The deduplicated attribute list is no longer than its input. |
| ProjectionAttributes.DedupNamesDistinct | ANNarchy/generator/Projection/ProjectionGenerator.py:476-480 | After deduplication no two attributes share a name. |
| ProjectionAttributes.DedupCoversNames | ANNarchy/generator/Projection/ProjectionGenerator.py:476-480 | Every input name survives deduplication. |
| ProjectionAttributes.DedupKeepsFirstOccurrences | ANNarchy/generator/Projection/ProjectionGenerator.py:476-480 | Deduplication keeps exactly the first occurrence of each name: each first occurrence is kept, and everything kept is a first occurrence. |
| ProjectionAttributes.DedupKeepsFirsts | ANNarchy/generator/Projection/ProjectionGenerator.py:476-480 | Every first occurrence of a name is kept by the deduplication. |
| ProjectionAttributes.DedupOnlyFirsts | ANNarchy/generator/Projection/ProjectionGenerator.py:476-480 | Everything the deduplication keeps is the first occurrence of its name. |
| ProjectionAttributes.EffectiveLocality | ANNarchy/generator/Projection/ProjectionGenerator.py:485-486 | `w` is global when the weight is single; every other attribute keeps its locality. |
| ProjectionAttributes.Effectives | ANNarchy/generator/Projection/ProjectionGenerator.py:482-486 | Each attribute in turn gets its effective locality, and nothing else changes. |
| ProjectionAttributes.DirtyFlag | ANNarchy/generator/Projection/ProjectionGenerator.py:489-492 | A dirty-flag statement is emitted exactly under CUDA and starts with the attribute's name. |
| ProjectionAttributes.DeclsOf | ANNarchy/generator/Projection/ProjectionGenerator.py:579-580 | One declaration per attribute, in order, with its sliced flag, locality, name and type. |
| ProjectionAttributes.BranchesAt | ANNarchy/generator/Projection/ProjectionGenerator.py:504-577 | The accessor branches of a locality are exactly the branches of the attributes with that locality. |
| ProjectionAttributes.GenerateDefaultGetSet | ANNarchy/generator/Projection/ProjectionGenerator.py:449-580 | A transposed projection emits nothing. Without a declaration table for the matrix kind, the result is the KeyError naming `attribute_decl` or `attribute_sliced_matrix_decl`. When the first attribute woven has a locality the table lacks, the result is the KeyError of that locality. Otherwise the declarations and the local/global/semiglobal branches are those of the deduplicated, effective attribute list. |
| ProjectionAttributes.WeaveAttribute | ANNarchy/generator/Projection/ProjectionGenerator.py:481-580 | An attribute not seen before takes its effective locality. It is appended to the declarations, always with attribute type "parameter", exactly when the declaration table has an entry for that locality. It gets a branch in the local or global bucket of that locality, or replaces the semiglobal branch; the other buckets are unchanged. |
| ProjectionAttributes.WeaveAll | ANNarchy/generator/Projection/ProjectionGenerator.py:475-580 | The loop over the parameters then the variables stops at the first new attribute whose effective locality has no declaration entry, and reports exactly `MissingLocality` of the woven list. When none is missing, the declarations and branches are those of the woven list. |
| ProjectionAttributes.MissingLocality | ANNarchy/generator/Projection/ProjectionGenerator.py:579 | The missing locality is none exactly when every attribute's locality has an entry. Otherwise it has no entry and belongs to an attribute all of whose predecessors have entries. |
| ProjectionAttributes.MissingLocalityFirst | ANNarchy/generator/Projection/ProjectionGenerator.py:579 | The missing locality is that of the first attribute without an entry. |
| ProjectionAttributes.MissingAt | ANNarchy/generator/Projection/ProjectionGenerator.py:475-580 | A new attribute at index i whose locality has no entry, after a prefix whose localities all have one, gives the missing locality of the whole woven list. |
| ProjectionAttributes.CsrCudaRejectsSemiglobal | ANNarchy/generator/Projection/Connectivity/CSR_CUDA.py:237-251 | With the CUDA CSR declaration table (local and global entries only), the missing locality is semiglobal exactly when some attribute is semiglobal, and none otherwise. |
| ProjectionAttributes.WovenDeclarationsAreDistinct | ANNarchy/generator/Projection/ProjectionGenerator.py:476-580 | No attribute is declared twice. |
| ProjectionAttributes.SingleWeightIsGlobal | ANNarchy/generator/Projection/ProjectionGenerator.py:485-486 | With a single weight, `w` has no local accessor branch, and every `w` has a global one. |
| ProjectionAttributes.SemiglobalLastWins | ANNarchy/generator/Projection/ProjectionGenerator.py:539-563 | The semiglobal accessor is the one of the last semiglobal attribute. |
| ProjectionAttributes.NoSemiglobalNoBranch | ANNarchy/generator/Projection/ProjectionGenerator.py:539-563 | There is no semiglobal accessor exactly when no attribute is semiglobal. |
| ProjectionAttributes.DirtyFlagsOnlyUnderCuda | ANNarchy/generator/Projection/ProjectionGenerator.py:489-492 | Every branch sets `<name>_dirty = true;` under CUDA and no flag otherwise. |
| ProjectionAttributes.FindAttr | ANNarchy/generator/Projection/ProjectionGenerator.py:617-624 | The lookup finds an attribute exactly when the name occurs, and then it is the first attribute with that name. |
| ProjectionAttributes.FindRandom | ANNarchy/generator/Projection/ProjectionGenerator.py:626-628 | A random distribution is found exactly when one has the name, and the result has that name. |
| ProjectionAttributes.GetAttrAndType | ANNarchy/generator/Projection/ProjectionGenerator.py:604-630 | The parameters are searched first (tag "var"), then the variables ("par"), then the random distributions ("rand"). The result is nothing exactly when the name is in none of them. |
| ProjectionAttributes.NoClampsForInitOnly | ANNarchy/generator/Projection/ProjectionGenerator.py:886-905 | Bounds holding only `init` produce no clamping code. |
| ProjectionAttributes.ClampsFollowBounds | ANNarchy/generator/Projection/ProjectionGenerator.py:886-905 | One clamp per non-`init` bound, in order, on the named variable with the bound's value: `<` exactly for `min`, `>` otherwise. |
| ProjectionAttributes.NonInit | ANNarchy/generator/Projection/ProjectionGenerator.py:892-894 | The kept bounds are exactly the bounds whose key is not `init`. |
| ProjectionAttributes.GetBounds | ANNarchy/generator/Projection/ProjectionGenerator.py:886-905 | The clamping code is empty when every bound is `init`. |
| ProjectionAttributes.BoundClamps | ANNarchy/generator/Projection/ProjectionGenerator.py:892-904 | No more clamps than bounds. `ClampsFollowBounds` states the full correspondence: one clamp per non-`init` bound, in order, `<` exactly for `min`. |
| ProjectionAttributes.RenderClamp | ANNarchy/generator/Projection/ProjectionGenerator.py:896-903 | Reference text of one clamp. `GetBounds` and `NoClampsForInitOnly` state that the clamping code is empty when only `init` is bounded. |
| ProjectionInit.DelayKey | ANNarchy/generator/Projection/ProjectionGenerator.py:282-299 | No delay declaration up to a maximum delay of 1. Otherwise the key is `uniform` when the uniform delay exceeds 1, and nonuniform rate-coded or spiking by kind. The CUDA exception is discarded exactly for non-uniform delays. |
| ProjectionInit.DefaultInit | ANNarchy/generator/Projection/ProjectionGenerator.py:716 | The default initial value is `false` exactly for bool, `0` exactly for int, and `0.0` otherwise. |
| ProjectionInit.AttrType | ANNarchy/generator/Projection/ProjectionGenerator.py:723 | An attribute is a `parameter` exactly when it is among the parameters. |
| ProjectionInit.FindEventDriven | ANNarchy/generator/Projection/ProjectionGenerator.py:756-763 | Reports true exactly when some variable is event-driven. |
| ProjectionInit.InitParametersVariables | ANNarchy/generator/Projection/ProjectionGenerator.py:636-782 | A specific template's code is used verbatim. Otherwise the result is the reference: the attribute-loop error first, then the delay error, else the weight, delay and attribute code. |
| ProjectionInit.InitAttributes | ANNarchy/generator/Projection/ProjectionGenerator.py:661-727 | The attribute loop over the parameters then the variables, each name once, computes `AttrLoop` of the deduplicated list: the error of the first attribute that fails, otherwise the weight code and the initialisation of every other attribute. |
| ProjectionInit.InitReference | ANNarchy/generator/Projection/ProjectionGenerator.py:661-782 | Reference result of the initialisation: the error of the attribute loop first, then the delay error, else the weight, delay and attribute code with the event-driven and structural-plasticity flags. `InitParametersVariables` is proved to compute it. |
| ProjectionInit.WeightInit | ANNarchy/generator/Projection/ProjectionGenerator.py:666-714 | Reference definition of the weight initialisation. `ScalarWeight`, `WeightInitFails` and `WeightDeviceCopy` state when it is a scalar, when it fails and when it copies to the device. |
| ProjectionInit.DelayInit | ANNarchy/generator/Projection/ProjectionGenerator.py:730-754 | Reference definition of the delay initialisation. `DelayInitCases` and `DelayOfView` state when there is delay code, when it fails with which message, and which population id a view uses. |
| ProjectionInit.ScalarWeight | ANNarchy/generator/Projection/ProjectionGenerator.py:667-671 | A global or single weight is a scalar, taken from the argument under the C++ pattern and from the values otherwise. |
| ProjectionInit.WeightInitFails | ANNarchy/generator/Projection/ProjectionGenerator.py:666-714 | Weight initialisation fails exactly for a non-scalar weight that is semiglobal, that is drawn from an unsupported distribution under the C++ pattern, or that is local and read from a missing `local` entry of the attribute_cpp_init table (the KeyError "local"). |
| ProjectionInit.WeightDeviceCopy | ANNarchy/generator/Projection/ProjectionGenerator.py:673-698 | A local weight under the C++ pattern is initialised exactly when it is drawn from a distribution or the `local` entry exists, and is then copied to the device exactly under CUDA. |
| ProjectionInit.DelayInitCases | ANNarchy/generator/Projection/ProjectionGenerator.py:730-754 | No delay code up to a maximum delay of 1. Delay initialisation fails exactly for a distribution other than none or uniform, with the message naming the weight distribution's type, or, outside the C++ pattern, when the delay table has no entry for the chosen template, with that KeyError. |
| ProjectionInit.DelayOfView | ANNarchy/generator/Projection/ProjectionGenerator.py:745-750 | For a view, the non-uniform delay code read from the delay table refers to the id of the underlying population. |
| ProjectionInit.InitAttribute | ANNarchy/generator/Projection/ProjectionGenerator.py:666-725 | The loop body for a new name: `w` gets the weight initialisation or its error; any other attribute gets its type's default when the attribute_cpp_init table has its locality, and the KeyError of that locality otherwise. |
| ProjectionInit.LoopAdvance | ANNarchy/generator/Projection/ProjectionGenerator.py:661-727 | One loop body for a new attribute extends the reference loop by that attribute: its error ends the loop, and its result updates the weight or appends the initialisation. |
| ProjectionInit.AttrLoopFailed | ANNarchy/generator/Projection/ProjectionGenerator.py:661-727 | Once the loop has failed on a prefix, the later attributes do not change the error. |
| ProjectionInit.AttrLoopFirstError | ANNarchy/generator/Projection/ProjectionGenerator.py:661-727 | The loop fails exactly when some attribute raises an error, and then with the error of the first such attribute. |
| ProjectionInit.AttrLoopMatchesDefaults | ANNarchy/generator/Projection/ProjectionGenerator.py:661-727 | Over distinct names, a successful loop yields the weight initialisation of `w` (or none) and the default initialisation of every other attribute. |
| ProjectionInit.LoopSucceeds | ANNarchy/generator/Projection/ProjectionGenerator.py:661-727 | Over distinct names, the loop succeeds with that result when the weight initialisation succeeds and every other attribute's locality has an attribute_cpp_init entry. |
| ProjectionInit.CsrCudaSemiglobalInitFails | ANNarchy/generator/Projection/Connectivity/CSR_CUDA.py:288-299 | With the CUDA CSR attribute_cpp_init table (local and global only), the loop fails whenever some attribute other than `w` is semiglobal. |
| ProjectionInit.DeclareDelay | ANNarchy/generator/Projection/ProjectionGenerator.py:282-296 | The delay declaration is a KeyError exactly when max_delay > 1 and the delay table has no entry for the chosen kind, and otherwise names that kind (none without delays). |
| ProjectionInit.CsrCudaDelaysFail | ANNarchy/generator/Projection/Connectivity/CSR_CUDA.py:363-382 | The CUDA CSR delay table holds the snippets of one delay rather than one entry per kind, so the delay declaration fails exactly when max_delay > 1. |
| ProjectionInit.CsrCudaDelayInitFails | ANNarchy/generator/Projection/Connectivity/CSR_CUDA.py:363-382 | With the CUDA CSR delay table, a connector not built in C++ with max_delay > 1 and a constant or uniform delay distribution fails the delay-initialisation lookup with the KeyError of the template key. |
| ProjectionInit.AttrInitsAreDefaults | ANNarchy/generator/Projection/ProjectionGenerator.py:661-727 | Every attribute except `w` is initialised exactly once, to its type's default, with its parameter/variable type. |
| ProjectionInit.AttrInitsSound | ANNarchy/generator/Projection/ProjectionGenerator.py:716-727 | Every generated initialisation is for a declared attribute other than `w`, sets its type's default, and carries that attribute's parameter/variable type. |
| ProjectionInit.AttrInitsComplete | ANNarchy/generator/Projection/ProjectionGenerator.py:716-727 | Every declared attribute other than `w` gets its initialisation. |
| ProjectionInit.DetermineSizeInBytes | ANNarchy/generator/Projection/ProjectionGenerator.py:804-858 | A specific template wins, and a failing format selection is returned as the error. Otherwise there is one size line per variable and then per parameter, with the selected format. |
| ProjectionInit.SizeCountsDuplicates | ANNarchy/generator/Projection/ProjectionGenerator.py:827-855 | An attribute listed as both variable and parameter is counted twice, both times as a parameter. |
| ProjectionInit.LocalSizeNeedsKnownFormat | ANNarchy/generator/Projection/ProjectionGenerator.py:841-854 | A local attribute's size is counted exactly for the LIL, CSR and HYB formats. |
| ProjectionInit.SizeLineOf | ANNarchy/generator/Projection/ProjectionGenerator.py:827-855 | Reference definition of one attribute's size line. `SizeCountsDuplicates` and `LocalSizeNeedsKnownFormat` state that duplicates count twice as parameters and that a local size needs the LIL, CSR or HYB format. |
| CsrInverse.ColumnMembers | ANNarchy/generator/Projection/Connectivity/CSR_CUDA.py:190-199 | The synapses grouped under a pre-synaptic rank are exactly those whose column index is that rank. |
| CsrInverse.AllSynsInBounds | ANNarchy/generator/Projection/Connectivity/CSR_CUDA.py:190-199 | Every synapse visited by the first pass lies in its row and within `_col_idx`. |
| CsrInverse.FlatIsOrdered | ANNarchy/generator/Projection/Connectivity/CSR_CUDA.py:190-199 | The first pass visits synapses by row, then by offset. |
| CsrInverse.FlatOffsets | ANNarchy/generator/Projection/Connectivity/CSR_CUDA.py:190-199 | For a well-formed matrix, the visited offsets are 0, 1, ... up to the row pointer. |
| CsrInverse.Pass2Shape | ANNarchy/generator/Projection/Connectivity/CSR_CUDA.py:204-220 | The second pass produces strictly increasing keys below its bound, and non-decreasing starts from 0 within the entries. |
| CsrInverse.Pass2Ranges | ANNarchy/generator/Projection/Connectivity/CSR_CUDA.py:204-220 | Each key's range of entries is exactly that key's column. |
| CsrInverse.Pass2Complete | ANNarchy/generator/Projection/Connectivity/CSR_CUDA.py:204-220 | A rank below the bound is a key exactly when its column is non-empty. |
| CsrInverse.Pass2Members | ANNarchy/generator/Projection/Connectivity/CSR_CUDA.py:204-220 | Every inverse entry is a forward synapse whose column is below the bound. |
| CsrInverse.Pass2Counts | ANNarchy/generator/Projection/Connectivity/CSR_CUDA.py:204-220 | The inverse holds, as a multiset of offsets, exactly the synapses whose column is below the bound. |
| CsrInverse.InverseOfPass2 | ANNarchy/generator/Projection/Connectivity/CSR_CUDA.py:204-223 | The inverse built from the second pass matches each key's range with that key's column, and every rank below the bound that is not a key has an empty column. |
| CsrInverse.RangesOfGrouped | ANNarchy/generator/Projection/Connectivity/CSR_CUDA.py:204-223 | Closing the start list with the total count turns a grouped result with non-empty groups into an inverse whose every range matches its column. |
| CsrInverse.ColPtrShape | ANNarchy/generator/Projection/Connectivity/CSR_CUDA.py:204-223 | `_col_ptr` has one more entry than the keys, starts at 0, does not decrease and ends at the number of entries. The keys increase strictly below the bound. |
| CsrInverse.InverseRanges | ANNarchy/generator/Projection/Connectivity/CSR_CUDA.py:204-223 | The range of every key is its column, and every rank below the bound that is not a key has an empty column. |
| CsrInverse.ColumnIsOrdered | ANNarchy/generator/Projection/Connectivity/CSR_CUDA.py:190-220 | Within a column the entries are ordered by post-synaptic rank, then offset. |
| CsrInverse.FilterKeepsOrder | ANNarchy/generator/Projection/Connectivity/CSR_CUDA.py:190-199 | Grouping by rank keeps the order of the first pass. |
| CsrInverse.InverseEntriesBelongToRows | ANNarchy/generator/Projection/Connectivity/CSR_CUDA.py:204-220 | Every entry's `_row_idx` is a row containing its `_inv_idx` offset, and its column is below the bound. |
| CsrInverse.InverseIsPermutation | ANNarchy/generator/Projection/Connectivity/CSR_CUDA.py:174-233 | For a well-formed matrix and a bound above every column index, `_inv_idx` is a permutation of 0 .. nb_synapses-1, so no synapse is lost or duplicated. |
| CsrInverse.PostSizeBoundDropsSynapses | ANNarchy/generator/Projection/Connectivity/CSR_CUDA.py:204-223 | With the post size as the bound, a synapse from pre rank 1 into a one-neuron post population is dropped from the inverse. |
| CsrInverse.Range | ANNarchy/generator/Projection/Connectivity/CSR_CUDA.py:190-199 | The sequence 0 .. n-1. |
| CsrInverse.AllSyns | ANNarchy/generator/Projection/Connectivity/CSR_CUDA.py:190-199 | Reference definition of the first pass's visiting order. `AllSynsInBounds`, `FlatIsOrdered` and `FlatOffsets` state that it stays in bounds, goes by row then offset, and covers the offsets 0 .. nb_synapses-1. |
| CsrInverse.Pass2 | ANNarchy/generator/Projection/Connectivity/CSR_CUDA.py:204-220 | One start per key. `Pass2Shape`, `Pass2Ranges`, `Pass2Complete`, `Pass2Members` and `Pass2Counts` state its shape, ranges, keys and contents. |
| CsrInverse.Invert | ANNarchy/generator/Projection/Connectivity/CSR_CUDA.py:183-223 | Reference definition of the inversion. `ColPtrShape`, `InverseRanges` and `InverseIsPermutation` state the shape of `_col_ptr`, that each range is its column, and that the inverse is a permutation when the bound covers every column. |
| CsrCuda.Gathered | ANNarchy/generator/Projection/Connectivity/CSR_CUDA.py:101-103 | A gather is defined exactly when every index read lies in range, and then it has one value per index. |
| CsrCuda.Dendrites | ANNarchy/generator/Projection/Connectivity/CSR_CUDA.py:112-114 | `get_w` is defined exactly when every dendrite is, and then its n-th element is the dendrite of the n-th rank. |
| CsrCuda.GatherDendrite | ANNarchy/generator/Projection/Connectivity/CSR_CUDA.py:94-104 | The loop over `_col_ptr[rk] .. _col_ptr[rk+1]` computes the dendrite reference. |
| CsrCuda.DendriteOfInverse | ANNarchy/generator/Projection/Connectivity/CSR_CUDA.py:94-104 | On the inverse, the dendrite at key position m is exactly the weights of that pre rank's column, in order. |
| CsrCuda.SynapseLookupFindsFirst | ANNarchy/generator/Projection/Connectivity/CSR_CUDA.py:269-273 | The synapse accessor returns a value exactly when the post rank occurs in the range, and then it is the first such entry's value. Otherwise the function falls off its end. |
| CsrCuda.LookupSynapse | ANNarchy/generator/Projection/Connectivity/CSR_CUDA.py:269-273 | The scan loop computes the synapse reference. |
| CsrCuda.CsrProjection.constructor | ANNarchy/generator/Projection/Connectivity/CSR_CUDA.py:84-86 | A fresh projection has empty arrays, no inverse, and a dirty weight. |
| CsrCuda.CsrProjection.SetRowPtr | ANNarchy/generator/Projection/Connectivity/CSR_CUDA.py:42-46 | Stores the row pointer on the host and the device; nothing else changes. |
| CsrCuda.CsrProjection.SetColIdx | ANNarchy/generator/Projection/Connectivity/CSR_CUDA.py:47-51 | Stores the column index on both sides and sets the synapse count to its length; nothing else changes. |
| CsrCuda.CsrProjection.SetWCsr | ANNarchy/generator/Projection/Connectivity/CSR_CUDA.py:89-93 | Stores the weights on both sides and leaves the dirty flag; nothing else changes. |
| CsrCuda.CsrProjection.InitLastEvent | ANNarchy/generator/Projection/Connectivity/CSR_CUDA.py:386-399 | Every synapse's last event is -10000; nothing else changes. |
| CsrCuda.CsrProjection.InverseConnectivityMatrix | ANNarchy/generator/Projection/Connectivity/CSR_CUDA.py:174-233 | Once computed, the call is a no-op. An empty row pointer only reports. Otherwise it stores `Invert` and marks the inverse computed, reporting a count mismatch without failing. |
| CsrCuda.CsrProjection.BuildInverse | ANNarchy/generator/Projection/Connectivity/CSR_CUDA.py:183-233 | The two passes store the keys, `_col_ptr`, `_row_idx` and `_inv_idx` of `Invert`, and report exactly a count mismatch. The method may change only those fields and the diagnostics. |
| CsrCuda.CsrProjection.InitFromCsr | ANNarchy/generator/Projection/Connectivity/CSR_CUDA.py:42-93 | For a well-formed matrix whose columns fit the bound, the inverse is computed without a diagnostic and `_inv_idx` is a permutation of the synapses. |
| CsrCuda.CsrProjection.GetDendriteW | ANNarchy/generator/Projection/Connectivity/CSR_CUDA.py:94-104 | Copies the device weights first if dirty, clears the flag, and returns the dendrite of rank rk. |
| CsrCuda.CsrProjection.RefreshW | ANNarchy/generator/Projection/Connectivity/CSR_CUDA.py:95-98 | A dirty weight copies `_nb_synapses` values from the device and becomes clean. |
| CsrCuda.CsrProjection.GetW | ANNarchy/generator/Projection/Connectivity/CSR_CUDA.py:105-116 | As written: the dendrites indexed by the post-rank values. |
| CsrCuda.CsrProjection.GetWByPosition | ANNarchy/generator/Projection/Connectivity/CSR_CUDA.py:105-116 | As intended: the dendrites indexed by position in `post_ranks`. |
| CsrCuda.GetWReadsPastColPtr | ANNarchy/generator/Projection/Connectivity/CSR_CUDA.py:105-116 | Two post neurons, the first with one synapse from pre rank 1: `get_w` reads past `_col_ptr`, while the positional reading returns that weight. |
| CsrCuda.OneSynapseFromRankOne | ANNarchy/generator/Projection/Connectivity/CSR_CUDA.py:174-233 | With row_ptr [0, 1, 1], col_idx [1] and post size 2, the inverse has key 1, `_col_ptr` [0, 1] and the one synapse. |
| CsrCuda.GetWByPositionReadsColumns | ANNarchy/generator/Projection/Connectivity/CSR_CUDA.py:94-116 | The positional reading is always defined on an inverse, and its m-th element is the weights of the m-th key's column. |
| CsrCuda.FirstPass | ANNarchy/generator/Projection/Connectivity/CSR_CUDA.py:190-199 | The per-rank maps hold, for each rank, the rows and offsets of its column. |
| CsrCuda.ScanRow | ANNarchy/generator/Projection/Connectivity/CSR_CUDA.py:191-198 | Scanning row i appends, in order, the row and offset of each of its synapses to the lists of that synapse's column: the result equals the reference scan `Scan` of the row's synapses, and every offset read lies inside `_col_idx`. |
| CsrCuda.ScanKey | ANNarchy/generator/Projection/Connectivity/CSR_CUDA.py:191-198 | After a scan, the lists of rank k are the lists it had before followed by the rows and offsets of the scanned synapses in column k, in scan order. |
| CsrCuda.ScanGroups | ANNarchy/generator/Projection/Connectivity/CSR_CUDA.py:190-199 | If the maps group the synapses already scanned by column, then after scanning more synapses they group all of them by column. |
| CsrCuda.ScanRowGroups | ANNarchy/generator/Projection/Connectivity/CSR_CUDA.py:190-199 | Scanning row i turns a grouping of the synapses of rows below i into a grouping of the synapses of rows up to i. |
| CsrCuda.TwoPasses | ANNarchy/generator/Projection/Connectivity/CSR_CUDA.py:183-223 | The two passes together yield the keys, `_col_ptr`, row list and offset list of `Invert`, and the final offset counter equals the number of inverted synapses. |
| CsrCuda.DendriteOfRange | ANNarchy/generator/Projection/Connectivity/CSR_CUDA.py:94-104 | When the inverse range of key m matches the synapses of that column, reading the dendrite through `_col_ptr` and `_inv_idx` yields that column's values in order, and every offset read is in range. |
| CsrCuda.Dendrite | ANNarchy/generator/Projection/Connectivity/CSR_CUDA.py:94-104 | Reference definition of `get_dendrite_<name>`. `DendriteOfInverse`, `DendriteOfRange` and `Dendrites` state that it yields a column's values in order, and when it reads out of range. |
| CsrCuda.Synapse | ANNarchy/generator/Projection/Connectivity/CSR_CUDA.py:269-273 | Reference definition of `get_synapse_<name>`. `SynapseLookupFindsFirst` states that it finds the first matching entry and otherwise falls off its end. |
| CsrCuda.SecondPass | ANNarchy/generator/Projection/Connectivity/CSR_CUDA.py:204-220 | The flattening loop produces the keys, `_col_ptr`, `_row_idx` and `_inv_idx` of `Invert`. |
| CsrCuda.GatherAll | ANNarchy/generator/Projection/Connectivity/CSR_CUDA.py:256-262 | The loop over ranks computes the `Dendrites` reference. |
| CsrCuda.CsrLocalAttribute.constructor | ANNarchy/generator/Projection/Connectivity/CSR_CUDA.py:252-277 | An empty host vector with a clean device copy. |
| CsrCuda.CsrLocalAttribute.Init | ANNarchy/generator/Projection/Connectivity/CSR_CUDA.py:289-293 | `_nb_synapses` copies of the initial value. |
| CsrCuda.CsrLocalAttribute.GetDendrite | ANNarchy/generator/Projection/Connectivity/CSR_CUDA.py:263-268 | The dendrite of rank rk through the inverse. |
| CsrCuda.CsrLocalAttribute.GetAll | ANNarchy/generator/Projection/Connectivity/CSR_CUDA.py:256-262 | The dendrites of all post ranks, by value as written. |
| CsrCuda.CsrLocalAttribute.GetSynapse | ANNarchy/generator/Projection/Connectivity/CSR_CUDA.py:269-273 | The synapse lookup reference. |
| CsrCuda.CsrLocalAttribute.SetIgnored | ANNarchy/generator/Projection/Connectivity/CSR_CUDA.py:274-276 | The empty setters change nothing. |
| CsrCuda.CsrLocalAttribute.HostToDevice | ANNarchy/generator/Projection/Connectivity/CSR_CUDA.py:302-317 | A dirty attribute copies `_nb_synapses` values to the device and becomes clean; the host is unchanged. |
| CsrCuda.CsrLocalAttribute.DeviceToHost | ANNarchy/generator/Projection/Connectivity/CSR_CUDA.py:337-348 | Copies `_nb_synapses` values from the device. |
| CsrCuda.CsrGlobalAttribute.constructor | ANNarchy/generator/Projection/Connectivity/CSR_CUDA.py:278-285 | An empty host vector with a clean device copy. |
| CsrCuda.CsrGlobalAttribute.Init | ANNarchy/generator/Projection/Connectivity/CSR_CUDA.py:294-298 | One initial value per post rank. |
| CsrCuda.CsrGlobalAttribute.Get | ANNarchy/generator/Projection/Connectivity/CSR_CUDA.py:281 | Returns the host vector. |
| CsrCuda.CsrGlobalAttribute.GetDendrite | ANNarchy/generator/Projection/Connectivity/CSR_CUDA.py:282 | Element rk when it exists; out of range otherwise. |
| CsrCuda.CsrGlobalAttribute.Set | ANNarchy/generator/Projection/Connectivity/CSR_CUDA.py:283 | Replaces the host vector without marking it dirty. |
| CsrCuda.CsrGlobalAttribute.SetDendrite | ANNarchy/generator/Projection/Connectivity/CSR_CUDA.py:284 | Writes element rk only. |
| CsrCuda.CsrGlobalAttribute.HostToDevice | ANNarchy/generator/Projection/Connectivity/CSR_CUDA.py:318-333 | A dirty attribute copies one value per post rank to the device and becomes clean. |
| CsrCuda.CsrGlobalAttribute.DeviceToHost | ANNarchy/generator/Projection/Connectivity/CSR_CUDA.py:349-360 | Copies one value per post rank from the device. |
| Kernels.LaunchBlocks | ANNarchy/generator/Population/CUDATemplates.py:384-387 | The block count covers the population and is the smallest that does. |
| Kernels.ThreadStartDecomposes | ANNarchy/generator/Population/CUDATemplates.py:366 | `threadIdx.x + blockDim.x * blockIdx.x` determines the block and the thread. |
| Kernels.StrideLoop | ANNarchy/generator/Population/CUDATemplates.py:366-377 | The kernel's `while (i < N)` loop visits the stride sequence. |
| Kernels.StrideVisitsMembers | ANNarchy/generator/Population/CUDATemplates.py:366-378 | A thread visits exactly the indices below N that are congruent to its start. |
| Kernels.StrideVisitsIncrease | ANNarchy/generator/Population/CUDATemplates.py:366-378 | A thread visits its indices in increasing order, none twice. |
| Kernels.GridStrideCoverage | ANNarchy/generator/Population/CUDATemplates.py:361-379 | Every neuron is updated by exactly one thread of the grid. |
| Kernels.GridStrideOnlyOwner | ANNarchy/generator/Population/CUDATemplates.py:361-379 | A thread that visits an index is the index's owner. |
| Kernels.OneThreadPerIndex | ANNarchy/generator/OMP/PopulationTemplate.py:419-458 | With the launch's block count, each neuron has exactly one thread whose start is that neuron. |
| Kernels.GatherCoverage | ANNarchy/generator/Population/CUDATemplates.py:407-424 | In the one-block gathering kernel, every neuron is examined by exactly one thread. |
| Kernels.Spiking | ANNarchy/generator/Population/CUDATemplates.py:407-424 | The gathered list is no longer than the population and holds only neuron ranks. |
| Kernels.SpikingMembers | ANNarchy/generator/Population/CUDATemplates.py:407-424 | A neuron is gathered exactly when its condition holds, and the list increases. |
| Kernels.Countdown | ANNarchy/generator/Population/CUDAGenerator.py:768-787 | A positive refractory counter decreases by one, and others stay. |
| Kernels.RefractoryPeriod | ANNarchy/generator/Population/CUDAGenerator.py:768-787 | After a spike the counter stays positive for exactly `refractory` steps and then is 0. |
| Kernels.StopAny | ANNarchy/generator/Population/CUDAGenerator.py:470-483 | The "any" stop condition holds exactly when some neuron satisfies it. |
| Kernels.StopAll | ANNarchy/generator/Population/CUDAGenerator.py:484-497 | The "all" stop condition holds exactly when every neuron satisfies it. |
| PopulationRuntime.Population.constructor | ANNarchy/generator/Population/CUDATemplates.py:92-158 | A struct of size 0 that is not active. |
| PopulationRuntime.Population.InitPopulation | ANNarchy/generator/Population/CUDATemplates.py:125-127 | Sets the size and activates the population. |
| PopulationRuntime.Population.SetActive | ANNarchy/generator/Population/CUDATemplates.py:115 | Sets the activity flag and keeps the size. |
| PopulationRuntime.Population.UpdateGlobalOps | ANNarchy/generator/OMP/PopulationTemplate.py:73-77 | The global operations run exactly while active. |
| PopulationRuntime.Filled | ANNarchy/generator/Population/CUDATemplates.py:219-232 | `std::vector<T>(size, v)`: size copies of v. |
| PopulationRuntime.LocalAttribute.constructor | ANNarchy/generator/Population/CUDATemplates.py:195-232 | An empty host vector with the given device copy and flag. |
| PopulationRuntime.LocalAttribute.CppInit | ANNarchy/generator/Population/CUDATemplates.py:219-226 | Fills the host vector with the initial value; the device copy equals it exactly under CUDA. |
| PopulationRuntime.LocalAttribute.Get | ANNarchy/generator/Population/CUDATemplates.py:199 | Returns the host vector. |
| PopulationRuntime.LocalAttribute.GetSingle | ANNarchy/generator/Population/CUDATemplates.py:200 | Element rk when it exists, undefined otherwise. |
| PopulationRuntime.LocalAttribute.Set | ANNarchy/generator/Population/CUDATemplates.py:201 | Replaces the host vector and, under CUDA, marks it dirty; the device copy is untouched. |
| PopulationRuntime.LocalAttribute.SetSingle | ANNarchy/generator/Population/CUDATemplates.py:202 | Writes element rk only and, under CUDA, marks the vector dirty. |
| PopulationRuntime.GlobalAttribute.constructor | ANNarchy/generator/Population/CUDATemplates.py:204-209 | Holds the given value. |
| PopulationRuntime.GlobalAttribute.CppInit | ANNarchy/generator/Population/CUDATemplates.py:227-231 | Assigns the initial value. |
| PopulationRuntime.GlobalAttribute.Get | ANNarchy/generator/Population/CUDATemplates.py:207 | Returns the value. |
| PopulationRuntime.GlobalAttribute.Set | ANNarchy/generator/Population/CUDATemplates.py:208 | Assigns the value. |
| PopulationRuntime.SetThenGet | ANNarchy/generator/Population/CUDATemplates.py:199-202 | Setting a CUDA vector and reading it back returns what was set and leaves it dirty. |
| PopulationRuntime.SpikeState.constructor | ANNarchy/generator/Population/CUDATemplates.py:308-357 | Empty spike and refractory state with clean flags. |
| PopulationRuntime.SpikeState.InitSpike | ANNarchy/generator/Population/CUDATemplates.py:308-320 | No spikes, and every last spike at -10000 on both sides with no events; the refractory state is unchanged. |
| PopulationRuntime.SpikeState.InitRefractory | ANNarchy/generator/Population/CUDATemplates.py:328-337 | Refractory periods and counters are zero on both sides and clean; the spike state is unchanged. |
| PopulationRuntime.SpikeState.InitSpikeEvent | ANNarchy/generator/OMP/PopulationTemplate.py:466-474 | Host periods and counters are zero, and the spike list is empty with last spikes at -10000; the device side is unchanged. |
| PopulationRuntime.SpikeState.ResetSpike | ANNarchy/generator/Population/CUDATemplates.py:341-345 | Clears the host spikes and last spikes only. |
| PopulationRuntime.SpikeState.ResetRefractory | ANNarchy/generator/Population/CUDATemplates.py:346-350 | Zeroes only the remaining counters, on both sides. |
| PopulationRuntime.SpikeState.SetRefractory | ANNarchy/generator/Population/CUDATemplates.py:351-357 | New host periods, marked dirty; the device periods are untouched. |
| PopulationRuntime.SpikeState.RefractoryHostToDevice | ANNarchy/generator/Population/CUDAGenerator.py:975-993 | Dirty periods copy `size` values to the device and become clean. |
| PopulationRuntime.SpikeState.UpdateRefractoryKernel | ANNarchy/generator/Population/CUDAGenerator.py:768-787 | Each neuron runs the full equations exactly when its counter is not positive, and every counter below size counts down. |
| PopulationRuntime.SpikeState.SpikeGatherKernel | ANNarchy/generator/Population/CUDATemplates.py:407-424 | The event count and the spike buffer's prefix are the spiking neurons in order. Spiking neurons get last spike t and, with refractoriness, counter = period. |
| PopulationRuntime.SpikeState.GatherStep | ANNarchy/generator/Population/CUDATemplates.py:426-447 | While active, the host event count equals the device count and the spike buffer's prefix is the spiking neurons. While inactive the kernel does not run and the device buffers keep their contents, and the host event count still takes the device count. |
| PopulationRuntime.CountdownLoop | ANNarchy/generator/Population/CUDAGenerator.py:768-787 | The loop over neurons computes, for each, whether the full equations run and the counted-down counter. |
| PopulationRuntime.GatherLoop | ANNarchy/generator/Population/CUDATemplates.py:407-424 | The gathering loop computes exactly the outcome stated by `SpikeGatherKernel`. |
| PopulationRuntime.StampSpec | ANNarchy/generator/Population/CUDATemplates.py:407-424 | The stamped array holds the mark at every neuron whose condition holds and its old entry everywhere else. |
| PopulationRuntime.SlotStep | ANNarchy/generator/Population/CUDATemplates.py:407-424 | One more neuron: a spiking neuron goes into the next free slot and the slot count grows by one; a silent neuron leaves slots and count unchanged. |
| PopulationRuntime.GatheredSpikes | ANNarchy/generator/Population/CUDATemplates.py:407-424 | The gathered slots hold each spiking neuron once and nothing else. |
| PopulationRuntime.Rotate | ANNarchy/generator/Population/CUDAGenerator.py:343-354 | The last buffer moves to the front and the others move back by one. |
| PopulationRuntime.RotateTimesSplit | ANNarchy/generator/Population/CUDAGenerator.py:343-354 | After k rotations the last k buffers lead, in order. |
| PopulationRuntime.RotationCycle | ANNarchy/generator/Population/CUDAGenerator.py:265-270 | Buffer j is at the front after exactly length - j steps, and a full cycle restores the deque. |
| PopulationRuntime.SpikeDelay.constructor | ANNarchy/generator/Population/CUDAGenerator.py:277-299 | Empty deques. |
| PopulationRuntime.SpikeDelay.Init | ANNarchy/generator/Population/CUDAGenerator.py:325-342 | One spike buffer and one counter per delay slot, each pushed to the front in turn. |
| PopulationRuntime.SpikeDelay.Update | ANNarchy/generator/Population/CUDAGenerator.py:343-360 | While active both deques rotate and the current buffers are the new fronts; otherwise nothing changes. |
| PopulationRuntime.DelayedVariable.constructor | ANNarchy/generator/Population/CUDATemplates.py:234-246 | No slots. |
| PopulationRuntime.DelayedVariable.Init | ANNarchy/generator/Population/CUDATemplates.py:235-239 | Exactly `delay` freshly allocated slots. |
| PopulationRuntime.DelayedVariable.Reset | ANNarchy/generator/Population/CUDATemplates.py:241-245 | Every slot starts with the current `size` device values. |
| PopulationRuntime.DelayedVariable.Update | ANNarchy/generator/Population/CUDAGenerator.py:265-270 | The oldest slot is overwritten with the current values and becomes the newest. |
| PopulationRuntime.Push | ANNarchy/generator/Population/CUDAGenerator.py:265-270 | The new value is in front and the rest shift back by one. |
| PopulationRuntime.PushAllDelays | ANNarchy/generator/Population/CUDAGenerator.py:265-270 | The value pushed d steps ago is in slot d. |
| PopulationRuntime.PostSynapticSum.constructor | ANNarchy/generator/Population/CUDATemplates.py:285-296 | Empty sums. |
| PopulationRuntime.PostSynapticSum.Init | ANNarchy/generator/Population/CUDATemplates.py:285-296 | `size` zeros on the host; under CUDA, copied to the device. |
| PopulationRuntime.RandomStates.constructor | ANNarchy/generator/Population/CUDATemplates.py:254-283 | No states. |
| PopulationRuntime.RandomStates.Init | ANNarchy/generator/Population/CUDATemplates.py:254-283 | One state per neuron for a local distribution, one for a global one. |
| PopulationRuntime.HostRandomVariable.constructor | ANNarchy/generator/OMP/PopulationTemplate.py:389-400 | No values. |
| PopulationRuntime.HostRandomVariable.Init | ANNarchy/generator/OMP/PopulationTemplate.py:393-396 | `size` zeros. |
| PopulationRuntime.HostRandomVariable.UpdateRng | ANNarchy/generator/OMP/PopulationTemplate.py:65-71 | While active, one draw per neuron replaces the first `size` values; otherwise nothing is drawn. |
| PopulationCodegen.AttrOf | ANNarchy/generator/Population/CUDAGenerator.py:884-887 | Finds an attribute with the name among the variables and parameters, or reports that none has it. |
| PopulationCodegen.MergedAmong | ANNarchy/generator/Population/CUDAGenerator.py:127-170 | Overriding keeps the set of slots. |
| PopulationCodegen.ApplyOverrides | ANNarchy/generator/Population/CUDAGenerator.py:127-170 | The chain of overrides computes the `Merged` reference. |
| PopulationCodegen.OverrideLoop | ANNarchy/generator/Population/CUDAGenerator.py:127-170 | Checking the slots one by one computes `MergedAmong`. |
| PopulationCodegen.OverrideStep | ANNarchy/generator/Population/CUDAGenerator.py:127-170 | Checking one more key replaces its slot with the specific template exactly when that override is honoured, and otherwise changes nothing. |
| PopulationCodegen.MergedSlots | ANNarchy/generator/Population/CUDAGenerator.py:46-170 | After the overrides, every overridable slot exists, a population without delays has empty delay slots, and every honoured override is in place. |
| PopulationCodegen.Merged | ANNarchy/generator/Population/CUDAGenerator.py:127-170 | Overriding keeps the set of slots. `MergedSlots` and `HeaderStruct` state which overrides are honoured and that delay slots are empty without delays. |
| PopulationCodegen.OverrideProperties | ANNarchy/generator/Population/CUDAGenerator.py:127-170 | An honoured specific entry wins whatever was synthesized. Delay slots ignore the specific template without delays. Other slots are untouched, and overriding twice equals overriding once. |
| PopulationCodegen.SynthesizedSlots | ANNarchy/generator/Population/CUDAGenerator.py:46-126 | Every overridable slot is synthesized. |
| PopulationCodegen.ExternGlobalOps | ANNarchy/generator/Population/CUDAGenerator.py:63-65 | One extern declaration per global operation. |
| PopulationCodegen.HeaderStruct | ANNarchy/generator/Population/CUDAGenerator.py:46-231 | Every slot is present. Without delays the delay slots and the delay call are empty, and with delays the call is there. Honoured overrides win, and there is a global-operations update exactly when there are operations. |
| PopulationCodegen.UpdateGlobalOps | ANNarchy/generator/Population/CUDAGenerator.py:504-518 | One template instance per global operation, in order, for its operation and variable. |
| PopulationCodegen.UpdateGlobalOpsCode | ANNarchy/generator/Population/CUDAGenerator.py:504-518 | One template instance per global operation, in order. `UpdateGlobalOps` is proved to compute it, and `HeaderStruct` states that it is used exactly when there are operations. |
| PopulationCodegen.ResetComputesum | ANNarchy/generator/Population/CUDAGenerator.py:233-251 | Spiking populations clear nothing. A rate-coded one clears each target once, in sorted order. |
| PopulationCodegen.DelayDeclarations | ANNarchy/generator/Population/CUDAGenerator.py:277-299 | The declarations fail exactly for a spiking population that delays variables. |
| PopulationCodegen.DelayedUpdateTemplateMissing | ANNarchy/generator/Population/CUDAGenerator.py:319 | As written: a rate-coded population delaying one local variable raises KeyError('update'). |
| PopulationCodegen.DelayedVarCodeComplete | ANNarchy/generator/Population/CUDAGenerator.py:308-322 | With an 'update' template, the delay code fails exactly when a delayed variable is not local. Otherwise each variable gets one local, one update and one reset instance, in order. |
| PopulationCodegen.SpikeDelayCode | ANNarchy/generator/Population/CUDAGenerator.py:325-360 | A spiking population initialises its slots and rotates the deques only while active. |
| PopulationCodegen.DelayCodeOf | ANNarchy/generator/Population/CUDAGenerator.py:253-362 | Reference definition of `_delay_code`. `DelayDeclarations`, `DelayedUpdateTemplateMissing` and `SpikeDelayCode` state when it fails and what a spiking population gets. |
| PopulationCodegen.DelayedVarCode | ANNarchy/generator/Population/CUDAGenerator.py:308-322 | Reference definition of the delayed-variable loop. `DelayedVarCodeComplete` states that it fails exactly for a non-local variable and otherwise emits three instances per variable. |
| PopulationCodegen.LocalParamTransfers | ANNarchy/generator/Population/CUDAGenerator.py:964-973 | Exactly the local parameters are transferred, all through the local template. |
| PopulationCodegen.TransferLoop | ANNarchy/generator/Population/CUDAGenerator.py:964-973 | The loops over variables and parameters compute the transfer pieces. |
| PopulationCodegen.TransferTemplateMissing | ANNarchy/generator/Population/CUDAGenerator.py:964-1006 | As written: the transfer code fails exactly for a population with a variable or a local parameter, raising KeyError('attribute_transfer'). |
| PopulationCodegen.TransferKeys | ANNarchy/generator/Population/CUDAGenerator.py:964-1006 | Every transfer piece uses the local or global template of its direction. |
| PopulationCodegen.TransferPiecesCover | ANNarchy/generator/Population/CUDAGenerator.py:964-1006 | Every variable is transferred with its locality's template, and every local parameter with the local one. |
| PopulationCodegen.TransfersHoldPieces | ANNarchy/generator/Population/CUDAGenerator.py:945-1013 | With the transfer template present and no specific code, generation succeeds and contains every transfer piece in both directions. |
| PopulationCodegen.RefractoryTransfer | ANNarchy/generator/Population/CUDAGenerator.py:975-993 | The refractory periods are sent to the device exactly for a refractory spiking population. |
| PopulationCodegen.GlobalParametersStayOnHost | ANNarchy/generator/Population/CUDAGenerator.py:964-973 | No global parameter is transferred. |
| PopulationCodegen.Transfers | ANNarchy/generator/Population/CUDAGenerator.py:945-1013 | Reference definition of `_memory_transfers`. `TransferTemplateMissing`, `TransfersHoldPieces` and `RefractoryTransfer` state when it fails, what it contains and when the refractory periods are sent. |
| PopulationCodegen.LocalDependencies | ANNarchy/generator/Population/CUDAGenerator.py:455-461 | The dependencies transferred are exactly the local ones. |
| PopulationCodegen.StopCondition | ANNarchy/generator/Population/CUDAGenerator.py:439-499 | There is no stop code exactly without a condition. Otherwise it is "any" exactly for that kind, and it transfers exactly the local dependencies. |
| PopulationCodegen.StopTransfers | ANNarchy/generator/Population/CUDAGenerator.py:455-461 | The dependency loop computes `LocalDependencies`. |
| PopulationCodegen.ReplaceRandom | ANNarchy/generator/Population/CUDAGenerator.py:414-437 | The loop over random distributions computes the reference replacement. |
| PopulationCodegen.ReplaceRandomErrors | ANNarchy/generator/Population/CUDAGenerator.py:414-437 | Replacement fails exactly when some distribution is unsupported or has fewer than two arguments, and it reports the first such one. |
| PopulationCodegen.ReplaceRandomFails | ANNarchy/generator/Population/CUDAGenerator.py:414-437 | Replacement fails exactly when some random variable has an unsupported distribution or too few arguments. |
| PopulationCodegen.ReplaceRandomFirstError | ANNarchy/generator/Population/CUDAGenerator.py:414-437 | When the k-th random variable is the first faulty one, replacement fails with its error. |
| PopulationCodegen.ReplaceRandomUntouched | ANNarchy/generator/Population/CUDAGenerator.py:414-437 | Equations not mentioning any distribution are unchanged. |
| PopulationCodegen.UniformLocalDraw | ANNarchy/generator/Population/CUDAGenerator.py:419-421 | A local uniform draw becomes the CURAND uniform expression over its bounds. |
| PopulationCodegen.ReplaceRandomSpec | ANNarchy/generator/Population/CUDAGenerator.py:414-437 | Reference definition of `_replace_random` over all random variables. `ReplaceRandom` is proved to compute it; `ReplaceRandomErrors`, `ReplaceRandomFails`, `ReplaceRandomFirstError` and `ReplaceRandomUntouched` state its errors and what it leaves alone. |
| PopulationCodegen.ReplaceOne | ANNarchy/generator/Population/CUDAGenerator.py:418-437 | Reference definition of one replacement step. `UniformLocalDraw` states the local uniform case. |
| PopulationCodegen.RandomError | ANNarchy/generator/Population/CUDAGenerator.py:418-437 | Why one random variable cannot be replaced. `ReplaceRandomFirstError` states that the first such error is the one reported. |
| PopulationCodegen.Term | ANNarchy/generator/Population/CUDAGenerator.py:419-433 | The CURAND expression for one draw. `UniformLocalDraw` states it for a local uniform draw. |
| SpikingUpdate.ArrayArgs | ANNarchy/generator/Population/CUDAGenerator.py:719-723 | One pointer argument per variable, with its type and name. |
| SpikingUpdate.ParamArgsMembers | ANNarchy/generator/Population/CUDAGenerator.py:726-730 | The parameter arguments of a locality are exactly the parameters with that locality: pointers for local, values for global. |
| SpikingUpdate.RandomArgs | ANNarchy/generator/Population/CUDAGenerator.py:733-734 | One `curandState` pointer per random distribution. |
| SpikingUpdate.OpArgs | ANNarchy/generator/Population/CUDAGenerator.py:737-738 | One double argument `_<op>_<var>` per global operation. |
| SpikingUpdate.StepKernelArguments | ANNarchy/generator/Population/CUDAGenerator.py:719-738 | Every variable and local parameter is passed as an array, and every global parameter by value. |
| SpikingUpdate.ArgumentKinds | ANNarchy/generator/Population/CUDAGenerator.py:719-738 | Array arguments are pointers and value arguments are not. |
| SpikingUpdate.VariableArgs | ANNarchy/generator/Population/CUDAGenerator.py:719-723 | The variable loop renders the array arguments. |
| SpikingUpdate.ParameterArgs | ANNarchy/generator/Population/CUDAGenerator.py:726-730 | The parameter loop renders local and global arguments separately. |
| SpikingUpdate.RandomStateArgs | ANNarchy/generator/Population/CUDAGenerator.py:733-734 | The random loop renders the state arguments. |
| SpikingUpdate.GlobalOpArgs | ANNarchy/generator/Population/CUDAGenerator.py:737-738 | The operation loop renders the operation arguments. |
| SpikingUpdate.StepKernelArgs | ANNarchy/generator/Population/CUDAGenerator.py:824-843 | The call loops render the array arguments and then the value arguments. |
| SpikingUpdate.ArrayStripHarmless | ANNarchy/generator/Population/CUDAGenerator.py:850 | Removing pointer types from launch arguments without `*` changes nothing. |
| SpikingUpdate.PassValue | ANNarchy/generator/Population/CUDAGenerator.py:824-843 | A value argument is passed as `, popN.<name>`. |
| SpikingUpdate.ValueStripMangles | ANNarchy/generator/Population/CUDAGenerator.py:851 | As written: stripping "int" from value arguments removes it from a name like `interval`. |
| SpikingUpdate.ValueArgumentsVerbatim | ANNarchy/generator/Population/CUDAGenerator.py:845-853 | As intended: every value argument is passed under its full name. |
| SpikingUpdate.RenderContains | ANNarchy/generator/Population/CUDAGenerator.py:824-843 | The rendering contains the rendering of each argument. |
| SpikingUpdate.Declare | ANNarchy/generator/Population/CUDAGenerator.py:716-738 | Reference text of a kernel parameter. `ArgumentKinds` and `UpdateSpikingShape` state which arguments are pointers and that the kernels declare them. |
| SpikingUpdate.Pass | ANNarchy/generator/Population/CUDAGenerator.py:824-843 | Reference text of a launch argument. `PassValue` and `RenderContains` state how a value is passed and that each argument appears in the call. |
| SpikingUpdate.StripTypesAsWritten | ANNarchy/generator/Population/CUDAGenerator.py:850-851 | As written: the type stripping of the launch arguments. `ArrayStripHarmless` and `ValueStripMangles` state that it is harmless on the arrays and mangles value names containing "int". |
| SpikingUpdate.RefractoryBranches | ANNarchy/generator/Population/CUDAGenerator.py:768-787 | After a spike, a refractory neuron runs only the conductance equations for exactly the period. A non-refractory neuron always runs the full update. |
| SpikingUpdate.RefractoryWrap | ANNarchy/generator/Population/CUDAGenerator.py:768-787 | Reference text of the refractory wrap. `RefractoryBranches` states which equations run during and after the period. |
| SpikingUpdate.GlobalBlock | ANNarchy/generator/Population/CUDAGenerator.py:742-751 | The global block is empty exactly when the equations are blank (Python's `str.isspace`), and otherwise holds the equations right after the opening `if ( threadIdx.x == 0)`. |
| SpikingUpdate.ReplaceLocalFuncs | ANNarchy/generator/Population/CUDAGenerator.py:395-412 | As written: the renaming loop computes `LocalFuncsAsWritten`. A call found in the global equations assigns the renamed local equations to the global ones, and every match, repeats included, is renamed in turn. |
| SpikingUpdate.OverwriteGlobal | ANNarchy/generator/Population/CUDAGenerator.py:404-406 | As written: without a match the global equations are unchanged; otherwise they become the local equations with the last match renamed. |
| SpikingUpdate.RenameCallsLoop | ANNarchy/generator/Population/CUDAGenerator.py:408-410 | Each match in the local equations is renamed in turn, repeats included. |
| SpikingUpdate.LocalFuncsSeparate | ANNarchy/generator/Population/CUDAGenerator.py:395-412 | The renamed global equations depend only on the global text, and the local ones only on the local text. |
| SpikingUpdate.LocalFuncsNoCalls | ANNarchy/generator/Population/CUDAGenerator.py:395-412 | Texts calling no local function are unchanged. |
| SpikingUpdate.GlobalEquationsLost | ANNarchy/generator/Population/CUDAGenerator.py:401-411 | As written, a call in the global equations replaces them by the local equations. Renaming each text separately keeps them. |
| SpikingUpdate.LocalFuncsAsWritten | ANNarchy/generator/Population/CUDAGenerator.py:395-412 | As written: reference definition of the renaming. `GlobalEquationsLost` and `RepeatedCallPrefixedTwice` state that it loses the global equations and prefixes a repeated call twice. |
| SpikingUpdate.LocalFuncs | ANNarchy/generator/Population/CUDAGenerator.py:395-412 | As intended: each text renamed separately, each distinct call once. `LocalFuncsSeparate`, `LocalFuncsNoCalls` and `RenamedOnce` state its properties. |
| SpikingUpdate.RepeatedCallPrefixedTwice | ANNarchy/generator/Population/CUDAGenerator.py:408-410 | As written: in `a + t + b + t + c`, with `t` the call `f(args)` that `re.findall` reports twice, each occurrence gets the prefix `tag_` twice. The intended renaming gives it once. |
| SpikingUpdate.RenamedOnce | ANNarchy/generator/Population/CUDAGenerator.py:395-412 | As intended: when every match of `f` is the call `t`, however often it occurs, each occurrence of `t` is prefixed exactly once. |
| SpikingUpdate.KernelDeps | ANNarchy/generator/Population/CUDAGenerator.py:874-881 | The gather dependencies include every dependency of the condition. |
| SpikingUpdate.ResetDeps | ANNarchy/generator/Population/CUDAGenerator.py:874-881 | They include every reset variable and its dependencies. |
| SpikingUpdate.GatherArgs | ANNarchy/generator/Population/CUDAGenerator.py:884-894 | One argument per dependency, in order, a pointer exactly for a local attribute. |
| SpikingUpdate.GatherArgsOnce | ANNarchy/generator/Population/CUDAGenerator.py:874-894 | Every attribute read or written by the condition or a reset is passed exactly once. |
| SpikingUpdate.GatherArguments | ANNarchy/generator/Population/CUDAGenerator.py:884-894 | The loop renders the declaration and the call of the gathering arguments. |
| SpikingUpdate.GatherDefaultArgs | ANNarchy/generator/Population/CUDAGenerator.py:926-929 | Reference text of the gathering launch's default arguments. `UpdateSpikingShape` states that the delayed deques are used exactly with delays. |
| SpikingUpdate.DefaultArgsDistinguishBuffers | ANNarchy/generator/Population/CUDAGenerator.py:926-929 | The two default argument lists differ right after `gpu_`: the delayed one reads `gpu_delayed_...`, the other `gpu_num_events`. |
| SpikingUpdate.DelayedLaunchReadsFronts | ANNarchy/generator/Population/CUDAGenerator.py:926-927 | With delays the launch passes `<tag>.gpu_delayed_num_events.front()` right after `dt, `, then `<tag>.gpu_delayed_spiked.front()`. |
| SpikingUpdate.CurrentLaunchReadsBuffers | ANNarchy/generator/Population/CUDAGenerator.py:928-929 | Without delays the launch passes `<tag>.gpu_num_events` right after `dt, `, then `<tag>.gpu_spiked`. |
| SpikingUpdate.FirstMissing | ANNarchy/generator/Population/CUDAGenerator.py:798-937 | No attribute is missing exactly when all are present; otherwise the first missing one is reported. |
| SpikingUpdate.UpdateSpikingNeuron | ANNarchy/generator/Population/CUDAGenerator.py:699-943 | Nothing is generated without variables. Otherwise generation fails exactly when a random variable cannot be replaced or a template attribute is missing. Local function calls are renamed as written (`LocalFuncsAsWritten`), and the launch arguments are stripped of types as written (`StripTypesAsWritten`). |
| SpikingUpdate.UpdateSpikingShape | ANNarchy/generator/Population/CUDAGenerator.py:768-937 | Both kernels are refractory exactly for a refractory population or neuron, and they gather into the delayed buffers exactly with delays, with the matching default arguments. Declarations render the arguments. The array call equals its declaration's arguments when no `*` occurs, and the value call is the as-written type stripping of the passed values. |
| SpikingUpdate.ResetTexts | ANNarchy/generator/Population/CUDAGenerator.py:861-866 | One reset text per reset equation. |
| SpikingUpdate.UpdatePrototypeMissing | ANNarchy/generator/Population/CUDAGenerator.py:814-820 | As written: with variables and replaceable random variables, the update fails on the missing `population_update_header`. |
| SpikingUpdate.UpdateWithPrototypes | ANNarchy/generator/Population/CUDAGenerator.py:699-943 | With both prototypes present, the update fails exactly when a population with variables has a random variable that cannot be replaced. |
| Common.SortStrings | ANNarchy/generator/Population/CUDAGenerator.py:233-251 | The sorted targets are ordered and a permutation of the input. |

## Left out

- Writing the header to a file (CUDAGenerator.py:207-209) is I/O and is left out.
- The verbose print in the format selection is left out.
- `Global._error` is taken to abort generation. `Global.py` is not part of this model.
- Regular-expression matching of function calls is a parameter: `Finder` returns the matches of a function name in a text.
  - The model assumes only that matches are non-empty.
- The equation texts from the equation generator are inputs. Equation parsing and code generation are not part of this model.
- The ordering of `list(set(...))` for the gathering dependencies is a parameter.
  - The model requires only that it is duplicate-free and holds the same names.
- The number of delay slots is given. The floating-point ceiling that computes it is left out.
- Contents of freshly `cudaMalloc`ed buffers are parameters, because they are unspecified.
- Kernels that use `atomicAdd` are modelled by their sequential outcome in ascending neuron order, one legal serialisation. Concurrency is left out.
- Doubles are `real` values. No floating-point arithmetic is modelled.
- The global `host_to_device` text of the CSR template reads `post_ranks().size`, which does not compile. The model uses `post_ranks.size()`.
- `strip()` of whitespace around the generated call arguments is left out.
- `IsSpace` is Python's `str.isspace` as a fixed list of characters; the Unicode database behind it is not modelled.
- PAPI profiling annotations and `_DEBUG` blocks are left out.
- The Cython wrapper templates are left out, except `set_refractory`.
- `_update_rate_neuron`, `_local_functions`, `_init_fr`, `_update_random_distributions`, `_connectivity_init` and `_clear_container` are not part of this model.
- The base-class methods of `PopulationGenerator.py` are not part of this model.
- ANNarchy's random-distribution objects are reduced to their type name and argument string.
- The `pow` rewriting of the update kernel (CUDAGenerator.py:789-790) is left out. The model assumes the equation texts it receives are already rewritten.
- SpikingUpdate.UpdateSpikingNeuron: assumes that the base class `PopulationGenerator` provides `_check_and_apply_pow_fix`. Lines 789-790 call it as a method, while the module imports only the free function `check_and_apply_pow_fix` (line 32) and calls that elsewhere (lines 393 and 621-622). `PopulationGenerator.py` is not part of this model; if it lacks the method, line 789 raises AttributeError before the templates are read at line 814.
- The update generation and local-function collection are not run by `HeaderStruct`. The update call slots are taken from `UpdateSpikingNeuron`'s model separately.
- PopulationCodegen.HeaderStruct: does not run the update generation (CUDAGenerator.py:101-104) or `_local_functions`. It states the slots, overrides and delay and global-operation parts, not the update call text.
- Template tables of the projection generator other than the declaration tables and the locality and delay-kind entries are taken to be present. Each delay-table entry is taken to hold both `declare` and `init` (ProjectionGenerator.py:295-296, 736-749). The `event_driven` table is taken to hold `cpp_init`, which the CUDA CSR format defines (CSR_CUDA.py:386-399).
- Device and host buffers are taken to be at least as long as the population size or the synapse count that a copy or kernel walks. `Common.Copy`, `PopulationRuntime.SpikeState.RefractoryHostToDevice`, `SpikeGatherKernel`, `GatherStep`, `DelayedVariable` and the CSR `RefreshW`, `HostToDevice` and `DeviceToHost` require it rather than modelling an out-of-bounds `cudaMemcpy` or kernel write.
- PopulationRuntime.SpikeState.GatherStep: models the launch without delays only. With max_delay > 1 the launch writes to the fronts of the delayed deques (CUDAGenerator.py:926-927), while the host still copies `gpu_num_events` (CUDATemplates.py:440), which is only allocated and zeroed (CUDATemplates.py:317-319) and which the delay rotation does not redirect: it redirects `gpu_spiked` only (CUDAGenerator.py:343-353). The model does not state the stale host count this gives.
- PopulationCodegen.Transfers: tests the `locality` field of an attribute, where the source tests membership of its name in the neuron description's `local` list (CUDAGenerator.py:966-971, and likewise in the delay code at lines 279 and 317). The two are taken to agree. `SpikingUpdate.GatherArgs` and `PopulationCodegen.LocalDependencies` test the `locality` field as the source does (CUDAGenerator.py:455-461, 884-894).

## Findings

| source | as written | input that shows it | evidently intended | confidence | as-written member | corrected member |
|---|---|---|---|---|---|---|
| ANNarchy/generator/Projection/Connectivity/CSR_CUDA.py:204-220 | The second pass of the inversion iterates pre-synaptic ranks but stops at the post-synaptic size | row_ptr [0, 1], col_idx [1], post size 1: the one synapse is missing from the inverse | Iterate up to the pre-synaptic size, so the inverse is a permutation of all synapses | not executed | CsrInverse.PostSizeBoundDropsSynapses | CsrInverse.InverseIsPermutation |
| ANNarchy/generator/Projection/Connectivity/CSR_CUDA.py:105-116 | `get_w` passes the values of `post_ranks` to `get_dendrite_w`, which indexes `_col_ptr` by position | row_ptr [0, 1, 1], col_idx [1], post size 2: post_ranks is [1] and `_col_ptr` is [0, 1], so `_col_ptr[2]` is read | Pass the position in `post_ranks` | not executed | CsrCuda.GetWReadsPastColPtr | CsrCuda.GetWByPositionReadsColumns |
| ANNarchy/generator/Population/CUDAGenerator.py:851 | Types are removed from the value arguments by replacing "double" and "int" anywhere in the text | a global parameter `interval` is passed as `pop0.erval` | Build the call from the names, without types | not executed | SpikingUpdate.ValueStripMangles | SpikingUpdate.ValueArgumentsVerbatim |
| ANNarchy/generator/Population/CUDAGenerator.py:967-973 | The transfer code looks up `attribute_transfer`, which `cuda_templates` does not define | any population with a variable: KeyError | A transfer template in the dictionary | not executed | PopulationCodegen.TransferTemplateMissing | PopulationCodegen.TransfersHoldPieces |
| ANNarchy/generator/Population/CUDAGenerator.py:319 | The delay code instantiates `attribute_delayed['update']`, which does not exist | a rate-coded population delaying one local variable: KeyError | An update template for delayed variables | not executed | PopulationCodegen.DelayedUpdateTemplateMissing | PopulationCodegen.DelayedVarCodeComplete |
| ANNarchy/generator/Population/CUDAGenerator.py:814-820 | The update reads `population_update_header` and `spike_gather_header`, which the templates module does not define | any spiking population with variables and supported random variables: AttributeError | Kernel prototype templates in the module | not executed | SpikingUpdate.UpdatePrototypeMissing | SpikingUpdate.UpdateWithPrototypes |
| ANNarchy/generator/Population/CUDAGenerator.py:406 | Renaming a function call in the global equations assigns the renamed local equations to the global ones | global "f(x)", local "v", local function f: the global equations become "v" | Rename each text separately | not executed | SpikingUpdate.GlobalEquationsLost | SpikingUpdate.LocalFuncsSeparate |
| ANNarchy/generator/Population/CUDAGenerator.py:403-410 | `re.findall` reports a call once per occurrence, and each report renames every occurrence again | local "f(x)+f(x)", local function f, population 0: the text becomes "pop0_pop0_f(x)+pop0_pop0_f(x)" | Rename each distinct call once | not executed | SpikingUpdate.RepeatedCallPrefixedTwice | SpikingUpdate.RenamedOnce |
