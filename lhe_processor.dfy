/**
 * The `LHEProcessor` class: a list of sample files, a registry of observables
 * (definition and "required" flag, each an ordered dictionary keyed by the
 * observable's name), and the observations and weights accumulated from
 * parsing every sample. Parsing a file is done by a function the caller
 * supplies (`extract`), standing for the LHE parser.
 */
module LheProcessor {
  import opened Wrappers
  import opened OrderedDicts
  import opened Matrices
  import opened Merging

  type FileName = string

  /** An observable's definition, an expression over the event's particles. */
  type Definition = string

  /** The LHE parser: a sample file and the observables to compute give that file's observations and weights. */
  type Extractor<T> = (FileName, OrderedDict<Definition>, OrderedDict<bool>) -> Sample<T>

  /** What the parser yields for each file, in file order. */
  function ParseAll<T>(files: seq<FileName>, observables: OrderedDict<Definition>,
                       required: OrderedDict<bool>, extract: Extractor<T>): (samples: seq<Sample<T>>)
    ensures |samples| == |files|
    ensures forall i :: 0 <= i < |files| ==> samples[i] == extract(files[i], observables, required)
  {
    seq(|files|, i requires 0 <= i < |files| => extract(files[i], observables, required))
  }

  class LHEProcessor<T> {
    var lheSampleFilenames: seq<FileName>
    var observables: OrderedDict<Definition>
    var observablesRequired: OrderedDict<bool>
    var observations: Option<Observations<T>>
    var weights: Option<Matrix<T>>

    /**
     * The two registries name the same observables in the same order, and
     * the accumulated observations and weights are both unset or both set.
     */
    ghost predicate Valid()
      reads this
    {
      observables.keys == observablesRequired.keys && BothOrNeither(State())
    }

    /** The accumulated fields as one value. */
    function State(): (acc: Accumulated<T>)
      reads this
    {
      Accumulated(observations, weights)
    }

    /** No samples, no observables, nothing accumulated. */
    constructor ()
      ensures Valid()
      ensures lheSampleFilenames == []
      ensures observables.keys == [] && observables.entries == map[]
      ensures observablesRequired.keys == [] && observablesRequired.entries == map[]
      ensures observations == None && weights == None
    {
      lheSampleFilenames := [];
      observables := Empty();
      observablesRequired := Empty();
      observations := None;
      weights := None;
    }

    /** Appends a sample file; the same file may be added more than once. */
    method AddLheSample(filename: FileName)
      requires Valid()
      modifies this`lheSampleFilenames
      ensures Valid()
      ensures lheSampleFilenames == old(lheSampleFilenames) + [filename]
    {
      lheSampleFilenames := lheSampleFilenames + [filename];
    }

    /**
     * Registers (or redefines) an observable: both registries map `name` to
     * the new definition and flag; a new name goes last in both, an existing
     * one keeps its place, and every other entry is untouched.
     */
    method AddObservable(name: Key, definition: Definition, required: bool := false)
      requires Valid()
      modifies this`observables, this`observablesRequired
      ensures Valid()
      ensures observables == Set(old(observables), name, definition)
      ensures observablesRequired == Set(old(observablesRequired), name, required)
      ensures name in old(observables.entries) ==> observables.keys == old(observables.keys)
      ensures name !in old(observables.entries) ==> observables.keys == old(observables.keys) + [name]
    {
      observables := Set(observables, name, definition);
      observablesRequired := Set(observablesRequired, name, required);
    }

    /**
     * The loop `for key in observations: observations[key] = hstack(...)`:
     * extends each accumulated observable in order, and stops at the first
     * one the incoming sample lacks, reporting its name.
     */
    method ExtendObservations(incoming: Observations<T>) returns (missing: Option<Key>)
      requires observations.Some?
      modifies this`observations
      ensures observations.Some?
      ensures (missing, observations.value) == ExtendFrom(old(observations.value), incoming, 0)
    {
      ghost var start := observations.value;
      var current := observations.value;
      var keys := current.keys;
      var i := 0;
      while i < |keys|
        invariant 0 <= i <= |keys|
        invariant observations == Some(current) && current.keys == keys
        invariant ExtendFrom(current, incoming, i) == ExtendFrom(start, incoming, 0)
      {
        var key := keys[i];
        if key !in incoming.entries {
          return Some(key);
        }
        current := Set(current, key, current.entries[key] + incoming.entries[key]);
        observations := Some(current);
        i := i + 1;
      }
      return None;
    }

    /**
     * Merges one parsed sample into the accumulated fields: adopts it when
     * nothing is accumulated yet, otherwise checks the counts, stacks the
     * weights and then extends each accumulated observable in turn.
     */
    method MergeSample(s: Sample<T>) returns (status: Status)
      requires Valid()
      modifies this`observations, this`weights
      ensures Valid()
      ensures (status, State()) == Merge(old(State()), s)
    {
      if observations.None? && weights.None? {
        observations := Some(s.observations);
        weights := Some(s.weights);
        return Done;
      }
      var obs, w := observations.value, weights.value;
      if |w| != |s.weights| {
        return Raised(WeightCountMismatch(|w|, |s.weights|));
      }
      if Size(obs) != Size(s.observations) {
        return Raised(ObservationCountMismatch(Size(obs), Size(s.observations)));
      }
      weights := Some(HStack(w, s.weights));
      var missing := ExtendObservations(s.observations);
      status := if missing.Some? then Raised(ObservableMissing(missing.value)) else Done;
    }

    /**
     * Parses every registered sample in order and merges it, stopping at the
     * first error. Nothing is reset first, so data already accumulated stays
     * in front of what this call adds.
     */
    method AnalyseLheSamples(extract: Extractor<T>) returns (status: Status)
      requires Valid()
      modifies this`observations, this`weights
      ensures Valid()
      ensures (status, State()) ==
              Run(ParseAll(lheSampleFilenames, observables, observablesRequired, extract), old(State()))
    {
      ghost var samples := ParseAll(lheSampleFilenames, observables, observablesRequired, extract);
      var i := 0;
      while i < |lheSampleFilenames|
        invariant 0 <= i <= |lheSampleFilenames|
        invariant Valid()
        invariant Run(samples[i..], State()) == Run(samples, old(State()))
      {
        var s := extract(lheSampleFilenames[i], observables, observablesRequired);
        assert samples[i..][0] == s && samples[i..][1..] == samples[i + 1..];
        status := MergeSample(s);
        if status.Raised? {
          return;
        }
        i := i + 1;
      }
      return Done;
    }
  }
}
