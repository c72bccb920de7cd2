# LHEProcessor, modelled in Dafny

This project models the `LHEProcessor` class of `lheprocessor/lheprocessor.py`,
the bookkeeping core of the LHE processing step of MadMiner. A processor keeps

- an ordered list of sample (LHE) file names;
- a registry of observables, as two ordered dictionaries keyed by the
  observable's name: its definition, and whether it is required;
- the accumulated `observations` (observable name → one value per event) and
  `weights` (a matrix whose rows are benchmarks and whose columns are events),
  both unset (`None`) until the first sample has been analysed.

`analyse_lhe_samples` parses every registered file and merges the result into
the accumulated fields: the first result is adopted as it is; every later one
must have the same number of benchmarks and the same number of observables
(otherwise a `ValueError` is raised before anything changes); then the weight
rows are concatenated and each accumulated observable is extended, one key after
another. A key the new sample lacks trips an assertion only after the weights
and the earlier keys have already been extended, leaving the accumulator partly
updated. Nothing is reset between calls.

The wider repository also contains morphing-basis machinery (benchmarks,
morphing components and weights); none of it is in this source file, and it is
not part of this model.

## Layout

- `wrappers.dfy` — `Option`, for Python's `None`.
- `ordered_dict.dfy` — `OrderedDicts`: Python's `OrderedDict` as a key-order
  sequence plus a map, under a well-formedness subset type.
- `matrix.dfy` — `Matrices`: the 2-D weights array as a sequence of rows, and
  `np.hstack` on it.
- `merging.dfy` — `Merging`: the merge of one sample (`Merge`) and the loop over
  all samples (`Run`) as functions, with the properties proved about them.
- `lhe_processor.dfy` — `LheProcessor`: the class itself; its methods update its
  fields in place and are proved equal to the functions of `Merging`.

The element type of observations and weights is a type parameter: the code
only compares shapes and concatenates, it does no arithmetic on the values.
The LHE parser is a function the caller passes to `AnalyseLheSamples`.

## Model

| member | source | states |
|---|---|---|
| OrderedDicts.Set | lheprocessor/lheprocessor.py:66-67 | `d[k] = v` on an `OrderedDict`: `k` now maps to `v`, every other key keeps its value; an existing key keeps its position and the key count, a new key is appended after all earlier keys; no key is ever listed twice |
| OrderedDicts.Size | lheprocessor/lheprocessor.py:100 | `len(d)` is the number of distinct keys in the dictionary |
| Matrices.HStack | lheprocessor/lheprocessor.py:105 | stacking two matrices with the same number of rows keeps the row count; each row is the old row followed by the new row |
| Matrices.HStackColumns | lheprocessor/lheprocessor.py:105 | an `n`-column and an `m`-column matrix stack to an `n + m`-column matrix |
| Merging.ExtendFrom | lheprocessor/lheprocessor.py:107-111 | the key loop never adds, drops or reorders accumulated observables |
| Merging.FirstMissing | lheprocessor/lheprocessor.py:107-110 | the position of the first accumulated key (from a given position on) that the incoming sample lacks: all keys before it are present, the key at it is absent |
| Merging.ExtendFromSpec | lheprocessor/lheprocessor.py:107-111 | the key loop reports exactly the first missing key (or none); keys before it become old sequence followed by the incoming one, all other keys keep their old sequence |
| Merging.Merge | lheprocessor/lheprocessor.py:90-111 | after any merge, raised or not, observations and weights are both set |
| Merging.MergeAdoptsFirstSample | lheprocessor/lheprocessor.py:91-94 | with nothing accumulated, the first sample's observations and weights are adopted unchanged and nothing is raised |
| Merging.MergeChecksFirst | lheprocessor/lheprocessor.py:96-103 | the benchmark-count error is raised exactly when the row counts differ, the observable-count error exactly when row counts agree and observable counts differ, and either leaves the accumulator unchanged |
| Merging.MergeAppends | lheprocessor/lheprocessor.py:105-111 | a merge succeeds exactly when both counts agree and every accumulated observable is in the sample; then the row count is unchanged, each row is old row + new row, observables keep their order and each becomes old sequence + new sequence |
| Merging.MergePartialUpdate | lheprocessor/lheprocessor.py:105-111 | when an observable is missing, the counts agreed, the reported key is the first missing one, the weights are already stacked, the keys before it are already extended and the rest are unchanged |
| Merging.MergeRaisesMissing | lheprocessor/lheprocessor.py:105-111 | the missing-observable assertion fires exactly when both counts agree and some accumulated observable is absent from the sample, and it names the first absent one in key order |
| Merging.MergeDoneIffFits | lheprocessor/lheprocessor.py:96-111 | a merge into a set state succeeds exactly when the sample has the accumulated benchmark count, observable count and every accumulated observable; then the benchmark count and observable order are kept |
| Merging.MergeAddsEvents | lheprocessor/lheprocessor.py:105-111 | merging `m` events into `n` accumulated events gives `n + m` entries in every weight row and every observable |
| Merging.Run | lheprocessor/lheprocessor.py:79-111 | the file loop keeps observations and weights both set or both unset, and leaves them set once any file was processed |
| Merging.RunAppendsRows | lheprocessor/lheprocessor.py:79-105 | a loop that raises nothing keeps the benchmark count and appends to each weight row every sample's row, in file order |
| Merging.RunAppendsObservables | lheprocessor/lheprocessor.py:79-111 | a loop that raises nothing keeps the observables in order and appends to each one every sample's sequence, in file order |
| Merging.RunFromUnset | lheprocessor/lheprocessor.py:79-111 | from the unset state, a loop that raises nothing takes the first sample's benchmark count and observable order and collects every sample's data in file order |
| Merging.RunDoneIff | lheprocessor/lheprocessor.py:79-111 | from a set state, the file loop raises nothing exactly when every sample has the accumulated benchmark count and observable count and every accumulated observable |
| Merging.RunTwiceAppendsAgain | lheprocessor/lheprocessor.py:77-111 | if a first analysis from the unset state raises nothing, a second one over the same samples raises nothing either and leaves every row and every observable holding all samples' data twice over |
| Merging.RunStopsAtFirstError | lheprocessor/lheprocessor.py:79-111 | a loop that raises returns exactly what the first raising merge returns, applied to the state the earlier files produced |
| LheProcessor.LHEProcessor.constructor | lheprocessor/lheprocessor.py:17-31 | a new processor has no samples, empty registries, and observations and weights unset |
| LheProcessor.LHEProcessor.AddLheSample | lheprocessor/lheprocessor.py:33-37 | the file name is appended at the end, duplicates allowed; no other field changes |
| LheProcessor.LHEProcessor.AddObservable | lheprocessor/lheprocessor.py:59-67 | both registries are updated by the same key, so they keep naming the same observables in the same order; re-adding a name overwrites definition and flag in place; only the two registries change |
| LheProcessor.LHEProcessor.ExtendObservations | lheprocessor/lheprocessor.py:107-111 | the in-place key loop leaves the observations and reports the missing key exactly as `ExtendFrom` says |
| LheProcessor.LHEProcessor.MergeSample | lheprocessor/lheprocessor.py:90-111 | the in-place merge of one sample raises and leaves the fields exactly as `Merge` says, keeping the class invariant |
| LheProcessor.LHEProcessor.AnalyseLheSamples | lheprocessor/lheprocessor.py:77-111 | the in-place loop over the registered files raises and leaves observations and weights exactly as `Run` over the parsed samples says, starting from the current (not reset) state; samples and registries are untouched |

## Left out

- `general_init` and every `logging.info` call: process-wide logging set-up with no effect on the processor's state. The constructor's `debug` argument is only passed to `general_init` and is dropped.
- `run_delphes`, `read_observables_from_file`, `set_default_observables` and `save` sit inside string literals in the source: they are not methods of the class and are not modelled (they would run an external program and write HDF5 files).
- `extract_observables_from_lhe_file` is not part of this model: the parser is a pure function parameter returning an observations dictionary and a weights matrix per file; its file I/O and its own exceptions are not modelled.
- The numeric values in observations and weights: only shapes and order matter to the processor, so the element type is left generic.
- numpy shapes: weights are taken to be 2-D (rows = benchmarks) and each observation 1-D. `np.hstack` of 2-D arrays accepts any column counts and fails only when the row counts differ, which the benchmark-count check rules out first, or when the arrays have different dimensions, which a sequence of rows cannot express.
- Aliasing: the first parsed dictionary is adopted by reference in the source and later updated in place; the model works on values, so the parser's own copy is not affected.
- The assertion on a missing observable (lines 108-110) is modelled as the error `ObservableMissing`. When Python runs with assertions disabled, `this_observations[key]` at line 111 raises a `KeyError` instead, before that key is written; the state is then the same, and the model does not tell the two exception types apart. The text of the error messages is not modelled, only the error kind and the two counts.
- The state where exactly one of `observations` and `weights` is `None` cannot be reached (the class invariant rules it out), so the errors it would cause are not modelled: an `AttributeError` from `self.weights.shape` at line 96 when only `weights` is `None`, and a `TypeError` from `len(self.observations)` at line 100 when only `observations` is `None`.
