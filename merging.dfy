/**
 * What `LHEProcessor.analyse_lhe_samples` does to the accumulated
 * `observations` and `weights`, as functions of values: the merge of one
 * parsed sample (`Merge`) and the loop over all samples (`Run`), with the
 * properties the merge promises proved about them.
 */
module Merging {
  import opened Wrappers
  import opened OrderedDicts
  import opened Matrices

  /** Per observable, its value in each event of a sample, in event order. */
  type Observations<T> = OrderedDict<seq<T>>

  /** What the parser yields for one sample file. */
  datatype Sample<T> = Sample(observations: Observations<T>, weights: Matrix<T>)

  /** The two accumulated fields; `None` is Python's `None`. */
  datatype Accumulated<T> = Accumulated(observations: Option<Observations<T>>, weights: Option<Matrix<T>>)

  /** The exceptions the merge raises. */
  datatype Error =
    | WeightCountMismatch(accumulated: nat, incoming: nat)       // ValueError on the benchmark count
    | ObservationCountMismatch(accumulated: nat, incoming: nat)  // ValueError on the observable count
    | ObservableMissing(name: Key)                               // AssertionError on a missing key

  datatype Status = Done | Raised(error: Error)

  /** The accumulator is either entirely unset or entirely set. */
  predicate BothOrNeither<T>(acc: Accumulated<T>)
  {
    acc.observations.None? <==> acc.weights.None?
  }

  /** `acc` is set and the sample has the same number of benchmarks and observables. */
  predicate ShapesAgree<T>(acc: Accumulated<T>, s: Sample<T>)
    requires acc.observations.Some? && acc.weights.Some?
  {
    |acc.weights.value| == |s.weights| && |acc.observations.value.keys| == |s.observations.keys|
  }

  /**
   * The loop `for key in observations: observations[key] = hstack(...)`,
   * from the key at position `i` on. It stops at the first key the incoming
   * sample lacks and reports it, keeping what the earlier keys received.
   */
  function ExtendFrom<T>(d: Observations<T>, incoming: Observations<T>, i: nat): (r: (Option<Key>, Observations<T>))
    requires i <= |d.keys|
    ensures r.1.keys == d.keys
    decreases |d.keys| - i
  {
    if i == |d.keys| then (None, d)
    else
      var k := d.keys[i];
      if k !in incoming.entries then (Some(k), d)
      else ExtendFrom(Set(d, k, d.entries[k] + incoming.entries[k]), incoming, i + 1)
  }

  /** The position of the first key from `i` on that `present` lacks, or `|keys|` if none. */
  function FirstMissing<V>(keys: seq<Key>, present: map<Key, V>, i: nat): (j: nat)
    requires i <= |keys|
    ensures i <= j <= |keys|
    ensures forall m :: i <= m < j ==> keys[m] in present
    ensures j < |keys| ==> keys[j] !in present
    decreases |keys| - i
  {
    if i == |keys| || keys[i] !in present then i else FirstMissing(keys, present, i + 1)
  }

  /**
   * `d'` is `d` with the keys at positions `i` up to `j` (exclusive) extended
   * by their incoming sequences, and every other key unchanged.
   */
  ghost predicate ExtendedBetween<T>(d: Observations<T>, d': Observations<T>, incoming: Observations<T>, i: nat, j: nat)
    requires i <= j <= |d.keys|
    requires forall m :: i <= m < j ==> d.keys[m] in incoming.entries
  {
    && d'.keys == d.keys
    && (forall m :: 0 <= m < |d.keys| && i <= m < j ==>
          d'.entries[d.keys[m]] == d.entries[d.keys[m]] + incoming.entries[d.keys[m]])
    && (forall m :: 0 <= m < |d.keys| && !(i <= m < j) ==> d'.entries[d.keys[m]] == d.entries[d.keys[m]])
  }

  /** Extending the key at position `i` first, then keys `i + 1` up to `j`, extends keys `i` up to `j`. */
  lemma ExtendedBetweenStep<T>(d: Observations<T>, r: Observations<T>, incoming: Observations<T>, i: nat, j: nat)
    requires i < j <= |d.keys|
    requires forall m :: i <= m < j ==> d.keys[m] in incoming.entries
    requires ExtendedBetween(Set(d, d.keys[i], d.entries[d.keys[i]] + incoming.entries[d.keys[i]]), r, incoming, i + 1, j)
    ensures ExtendedBetween(d, r, incoming, i, j)
  {
  }

  /**
   * The key loop in closed form: the keys before the first missing one are
   * extended, in place and order; the rest keep their old sequences.
   */
  lemma {:induction false} ExtendFromSpec<T>(d: Observations<T>, incoming: Observations<T>, i: nat)
    requires i <= |d.keys|
    ensures var j := FirstMissing(d.keys, incoming.entries, i);
      && ExtendFrom(d, incoming, i).0 == (if j < |d.keys| then Some(d.keys[j]) else None)
      && ExtendedBetween(d, ExtendFrom(d, incoming, i).1, incoming, i, j)
    decreases |d.keys| - i
  {
    if i < |d.keys| && d.keys[i] in incoming.entries {
      var k := d.keys[i];
      var d' := Set(d, k, d.entries[k] + incoming.entries[k]);
      ExtendFromSpec(d', incoming, i + 1);
      assert ExtendFrom(d, incoming, i) == ExtendFrom(d', incoming, i + 1);
      ExtendedBetweenStep(d, ExtendFrom(d', incoming, i + 1).1, incoming, i, FirstMissing(d.keys, incoming.entries, i));
    }
  }

  /**
   * One iteration of the loop over sample files: adopt the first sample,
   * otherwise check the benchmark and observable counts, then stack the
   * weights and extend every accumulated observable in its order.
   */
  function Merge<T>(acc: Accumulated<T>, s: Sample<T>): (r: (Status, Accumulated<T>))
    requires BothOrNeither(acc)
    ensures BothOrNeither(r.1) && r.1.observations.Some?
  {
    if acc.observations.None? && acc.weights.None? then
      (Done, Accumulated(Some(s.observations), Some(s.weights)))
    else
      var obs, w := acc.observations.value, acc.weights.value;
      if |w| != |s.weights| then
        (Raised(WeightCountMismatch(|w|, |s.weights|)), acc)
      else if Size(obs) != Size(s.observations) then
        (Raised(ObservationCountMismatch(Size(obs), Size(s.observations))), acc)
      else
        var w' := HStack(w, s.weights);
        var (missing, obs') := ExtendFrom(obs, s.observations, 0);
        (if missing.Some? then Raised(ObservableMissing(missing.value)) else Done,
         Accumulated(Some(obs'), Some(w')))
  }

  /** The loop over all sample files, which stops at the first exception. */
  function Run<T>(samples: seq<Sample<T>>, acc: Accumulated<T>): (r: (Status, Accumulated<T>))
    requires BothOrNeither(acc)
    ensures BothOrNeither(r.1)
    ensures samples != [] ==> r.1.observations.Some?
    decreases |samples|
  {
    if samples == [] then (Done, acc)
    else
      var (status, acc') := Merge(acc, samples[0]);
      if status.Raised? then (status, acc') else Run(samples[1..], acc')
  }

  /** When nothing is accumulated yet, the sample's observations and weights are adopted unchanged. */
  lemma MergeAdoptsFirstSample<T>(s: Sample<T>)
    ensures Merge(Accumulated(None, None), s) == (Done, Accumulated(Some(s.observations), Some(s.weights)))
  {
  }

  /**
   * The two consistency checks run before anything is changed: each fires
   * exactly when its count differs, and a refused sample leaves the
   * accumulator as it was.
   */
  lemma MergeChecksFirst<T>(acc: Accumulated<T>, s: Sample<T>)
    requires acc.observations.Some? && acc.weights.Some?
    ensures var (status, acc') := Merge(acc, s);
      var obs, w := acc.observations.value, acc.weights.value;
      && (status == Raised(WeightCountMismatch(|w|, |s.weights|)) <==> |w| != |s.weights|)
      && (status == Raised(ObservationCountMismatch(|obs.entries|, |s.observations.entries|)) <==>
            |w| == |s.weights| && |obs.entries| != |s.observations.entries|)
      && (status.Raised? && !status.error.ObservableMissing? ==> acc' == acc)
  {
  }

  /**
   * A merge succeeds exactly when both counts agree and the sample has every
   * accumulated observable; then the weights keep their rows, each row being
   * the old row followed by the sample's, and every observable keeps its
   * position and becomes its old sequence followed by the sample's.
   */
  lemma MergeAppends<T>(acc: Accumulated<T>, s: Sample<T>)
    requires acc.observations.Some? && acc.weights.Some?
    ensures var (status, acc') := Merge(acc, s);
      var obs, w := acc.observations.value, acc.weights.value;
      && (status == Done <==>
            ShapesAgree(acc, s) && forall k :: k in obs.entries ==> k in s.observations.entries)
      && (status == Done ==>
            && acc'.weights.Some? && |acc'.weights.value| == |w|
            && (forall r :: 0 <= r < |w| ==> acc'.weights.value[r] == w[r] + s.weights[r])
            && acc'.observations.Some? && acc'.observations.value.keys == obs.keys
            && forall k :: k in obs.entries ==>
                 acc'.observations.value.entries[k] == obs.entries[k] + s.observations.entries[k])
  {
    var obs, w := acc.observations.value, acc.weights.value;
    if ShapesAgree(acc, s) {
      ExtendFromSpec(obs, s.observations, 0);
      var j := FirstMissing(obs.keys, s.observations.entries, 0);
      var obs' := ExtendFrom(obs, s.observations, 0).1;
      if forall k :: k in obs.entries ==> k in s.observations.entries {
        forall k | k in obs.entries
          ensures obs'.entries[k] == obs.entries[k] + s.observations.entries[k]
        {
          var m :| 0 <= m < |obs.keys| && obs.keys[m] == k;
        }
        var w' := HStack(w, s.weights);
        forall r | 0 <= r < |w| ensures w'[r] == w[r] + s.weights[r] {
          assert w'[r] == w'[r][..|w[r]|] + w'[r][|w[r]|..];
        }
      }
    }
  }

  /**
   * A missing observable is reported only after the weights have been
   * stacked and the observables listed before it have been extended: the
   * accumulator is left partly updated.
   */
  lemma MergePartialUpdate<T>(acc: Accumulated<T>, s: Sample<T>, name: Key)
    requires acc.observations.Some? && acc.weights.Some?
    requires Merge(acc, s).0 == Raised(ObservableMissing(name))
    ensures var acc' := Merge(acc, s).1;
      var obs, w := acc.observations.value, acc.weights.value;
      var j := FirstMissing(obs.keys, s.observations.entries, 0);
      && ShapesAgree(acc, s)
      && j < |obs.keys| && obs.keys[j] == name && name !in s.observations.entries
      && acc'.weights == Some(HStack(w, s.weights))
      && acc'.observations.Some? && acc'.observations.value.keys == obs.keys
      && (forall m :: 0 <= m < j ==>
            acc'.observations.value.entries[obs.keys[m]] ==
              obs.entries[obs.keys[m]] + s.observations.entries[obs.keys[m]])
      && (forall m :: j <= m < |obs.keys| ==>
            acc'.observations.value.entries[obs.keys[m]] == obs.entries[obs.keys[m]])
  {
    ExtendFromSpec(acc.observations.value, s.observations, 0);
  }

  /**
   * The assertion fires exactly when both counts agree but some accumulated
   * observable is absent from the sample, and it names the first such
   * observable in key order.
   */
  lemma MergeRaisesMissing<T>(acc: Accumulated<T>, s: Sample<T>)
    requires acc.observations.Some? && acc.weights.Some?
    ensures var status := Merge(acc, s).0;
      var keys := acc.observations.value.keys;
      && (status.Raised? && status.error.ObservableMissing? <==>
            ShapesAgree(acc, s) && exists m :: 0 <= m < |keys| && keys[m] !in s.observations.entries)
      && (status.Raised? && status.error.ObservableMissing? ==>
            status.error.name == keys[FirstMissing(keys, s.observations.entries, 0)])
  {
    var keys := acc.observations.value.keys;
    var j := FirstMissing(keys, s.observations.entries, 0);
    if ShapesAgree(acc, s) {
      ExtendFromSpec(acc.observations.value, s.observations, 0);
      if exists m :: 0 <= m < |keys| && keys[m] !in s.observations.entries {
        var m :| 0 <= m < |keys| && keys[m] !in s.observations.entries;
        assert j < |keys|;
      }
    }
  }

  /** Every observable and every benchmark row holds one entry per event, for `n` events. */
  ghost predicate HasEvents<T>(obs: Observations<T>, w: Matrix<T>, n: nat)
  {
    HasColumns(w, n) && forall k :: k in obs.entries ==> |obs.entries[k]| == n
  }

  /** A successful merge of `m` events into `n` accumulated events gives `n + m` events. */
  lemma MergeAddsEvents<T>(acc: Accumulated<T>, s: Sample<T>, n: nat, m: nat)
    requires acc.observations.Some? && acc.weights.Some?
    requires HasEvents(acc.observations.value, acc.weights.value, n)
    requires HasEvents(s.observations, s.weights, m)
    requires Merge(acc, s).0 == Done
    ensures HasEvents(Merge(acc, s).1.observations.value, Merge(acc, s).1.weights.value, n + m)
  {
    MergeAppends(acc, s);
  }

  /** Row `r` of every sample's weights, one sample after another. */
  function RowAcross<T>(samples: seq<Sample<T>>, r: nat): (row: seq<T>)
    decreases |samples|
  {
    if samples == [] then []
    else (if r < |samples[0].weights| then samples[0].weights[r] else []) + RowAcross(samples[1..], r)
  }

  /** Observable `k` of every sample, one sample after another. */
  function ObservableAcross<T>(samples: seq<Sample<T>>, k: Key): (values: seq<T>)
    decreases |samples|
  {
    if samples == [] then []
    else (if k in samples[0].observations.entries then samples[0].observations.entries[k] else [])
         + ObservableAcross(samples[1..], k)
  }

  /** Appending `x` then `rest` is appending `x + rest`. */
  lemma AppendThenAppend<T>(a: seq<T>, x: seq<T>, rest: seq<T>, whole: seq<T>, result: seq<T>)
    requires whole == x + rest && result == (a + x) + rest
    ensures result == a + whole
  {
  }

  /**
   * A run over all samples that raises nothing appends, to every weight row,
   * each sample's row in file order; the number of rows does not change.
   */
  lemma {:induction false} RunAppendsRows<T>(samples: seq<Sample<T>>, acc: Accumulated<T>)
    requires acc.observations.Some? && acc.weights.Some?
    requires Run(samples, acc).0 == Done
    ensures var acc' := Run(samples, acc).1;
      var w := acc.weights.value;
      && acc'.weights.Some? && |acc'.weights.value| == |w|
      && forall r :: 0 <= r < |w| ==> acc'.weights.value[r] == w[r] + RowAcross(samples, r)
    decreases |samples|
  {
    if samples != [] {
      var s := samples[0];
      var acc1 := Merge(acc, s).1;
      MergeAppends(acc, s);
      RunAppendsRows(samples[1..], acc1);
      var w, w1, w' := acc.weights.value, acc1.weights.value, Run(samples, acc).1.weights.value;
      forall r | 0 <= r < |w| ensures w'[r] == w[r] + RowAcross(samples, r) {
        AppendThenAppend(w[r], s.weights[r], RowAcross(samples[1..], r), RowAcross(samples, r), w'[r]);
      }
    }
  }

  /**
   * A run over all samples that raises nothing appends, to every accumulated
   * observable, each sample's sequence in file order; the observables keep
   * their order.
   */
  lemma {:induction false} RunAppendsObservables<T>(samples: seq<Sample<T>>, acc: Accumulated<T>)
    requires acc.observations.Some? && acc.weights.Some?
    requires Run(samples, acc).0 == Done
    ensures var acc' := Run(samples, acc).1;
      var obs := acc.observations.value;
      && acc'.observations.Some? && acc'.observations.value.keys == obs.keys
      && forall k :: k in obs.entries ==>
           acc'.observations.value.entries[k] == obs.entries[k] + ObservableAcross(samples, k)
    decreases |samples|
  {
    if samples != [] {
      var s := samples[0];
      var acc1 := Merge(acc, s).1;
      MergeAppends(acc, s);
      RunAppendsObservables(samples[1..], acc1);
      var obs, obs' := acc.observations.value, Run(samples, acc).1.observations.value;
      forall k | k in obs.entries
        ensures obs'.entries[k] == obs.entries[k] + ObservableAcross(samples, k)
      {
        AppendThenAppend(obs.entries[k], s.observations.entries[k], ObservableAcross(samples[1..], k),
                         ObservableAcross(samples, k), obs'.entries[k]);
      }
    }
  }

  /**
   * Starting from the unset accumulator, a run that raises nothing adopts
   * the first sample's observables and benchmark count, and collects every
   * sample's data in file order.
   */
  lemma RunFromUnset<T>(samples: seq<Sample<T>>)
    requires samples != []
    requires Run(samples, Accumulated(None, None)).0 == Done
    ensures var acc' := Run(samples, Accumulated(None, None)).1;
      && acc'.weights.Some? && |acc'.weights.value| == |samples[0].weights|
      && (forall r :: 0 <= r < |samples[0].weights| ==> acc'.weights.value[r] == RowAcross(samples, r))
      && acc'.observations.Some? && acc'.observations.value.keys == samples[0].observations.keys
      && forall k :: k in samples[0].observations.entries ==>
           acc'.observations.value.entries[k] == ObservableAcross(samples, k)
  {
    var s := samples[0];
    RunAppendsRows(samples[1..], Accumulated(Some(s.observations), Some(s.weights)));
    RunAppendsObservables(samples[1..], Accumulated(Some(s.observations), Some(s.weights)));
  }

  /**
   * A sample fits an accumulator with `rows` benchmarks and observables
   * `keys` when it has as many benchmarks and observables and contains every
   * one of those keys.
   */
  predicate Fits<T>(rows: nat, keys: seq<Key>, s: Sample<T>)
  {
    && |s.weights| == rows && |s.observations.keys| == |keys|
    && forall m :: 0 <= m < |keys| ==> keys[m] in s.observations.entries
  }

  /**
   * One merge succeeds exactly when the sample fits, and then the
   * accumulator keeps its benchmark count and observables.
   */
  lemma MergeDoneIffFits<T>(acc: Accumulated<T>, s: Sample<T>)
    requires acc.observations.Some? && acc.weights.Some?
    ensures Merge(acc, s).0 == Done <==> Fits(|acc.weights.value|, acc.observations.value.keys, s)
    ensures Merge(acc, s).0 == Done ==>
      && Merge(acc, s).1.weights.Some? && |Merge(acc, s).1.weights.value| == |acc.weights.value|
      && Merge(acc, s).1.observations.Some? && Merge(acc, s).1.observations.value.keys == acc.observations.value.keys
  {
    MergeAppends(acc, s);
  }

  /**
   * From a set accumulator, a run raises nothing exactly when every sample
   * fits the accumulator's benchmark count and observables.
   */
  lemma {:induction false} RunDoneIff<T>(samples: seq<Sample<T>>, acc: Accumulated<T>)
    requires acc.observations.Some? && acc.weights.Some?
    ensures Run(samples, acc).0 == Done <==>
      forall i :: 0 <= i < |samples| ==>
        Fits(|acc.weights.value|, acc.observations.value.keys, samples[i])
    decreases |samples|
  {
    if samples != [] {
      var rows, keys := |acc.weights.value|, acc.observations.value.keys;
      var acc1 := Merge(acc, samples[0]).1;
      MergeDoneIffFits(acc, samples[0]);
      if Merge(acc, samples[0]).0 == Done {
        RunDoneIff(samples[1..], acc1);
        assert Run(samples, acc) == Run(samples[1..], acc1);
        assert forall i :: 1 <= i < |samples| ==> samples[i] == samples[1..][i - 1];
      }
    }
  }

  /**
   * Nothing resets the accumulator: a second run over samples that all
   * merged once raises nothing either, and appends every sample's data
   * again after the first run's.
   */
  lemma RunTwiceAppendsAgain<T>(samples: seq<Sample<T>>)
    requires samples != []
    requires Run(samples, Accumulated(None, None)).0 == Done
    ensures Run(samples, Run(samples, Accumulated(None, None)).1).0 == Done
    ensures var second := Run(samples, Run(samples, Accumulated(None, None)).1).1;
      && second.weights.Some? && |second.weights.value| == |samples[0].weights|
      && (forall r :: 0 <= r < |samples[0].weights| ==>
            second.weights.value[r] == RowAcross(samples, r) + RowAcross(samples, r))
      && second.observations.Some? && second.observations.value.keys == samples[0].observations.keys
      && forall k :: k in samples[0].observations.entries ==>
           second.observations.value.entries[k] == ObservableAcross(samples, k) + ObservableAcross(samples, k)
  {
    var s := samples[0];
    var adopted := Accumulated(Some(s.observations), Some(s.weights));
    var first := Run(samples, Accumulated(None, None)).1;
    RunFromUnset(samples);
    assert Run(samples, Accumulated(None, None)) == Run(samples[1..], adopted);
    RunDoneIff(samples[1..], adopted);
    RunDoneIff(samples, first);
    forall i | 0 <= i < |samples| ensures Fits(|s.weights|, s.observations.keys, samples[i]) {
      if i == 0 {
        assert forall m :: 0 <= m < |s.observations.keys| ==> s.observations.keys[m] in s.observations.entries;
      } else {
        assert samples[i] == samples[1..][i - 1];
      }
    }
    RunAppendsRows(samples, first);
    RunAppendsObservables(samples, first);
  }

  /** Dropping the head of the first `j + 1` elements gives the first `j` elements of the tail. */
  lemma TailOfPrefix<X>(xs: seq<X>, j: nat)
    requires j < |xs|
    ensures xs[..j + 1][1..] == xs[1..][..j]
  {
  }

  /** Running the first `j + 1` samples is merging the first one, then running the next `j`. */
  lemma RunPrefixUnfold<T>(samples: seq<Sample<T>>, acc: Accumulated<T>, j: nat)
    requires BothOrNeither(acc) && j < |samples|
    requires Merge(acc, samples[0]).0 == Done
    ensures Run(samples[..j + 1], acc) == Run(samples[1..][..j], Merge(acc, samples[0]).1)
  {
    var prefix := samples[..j + 1];
    var acc1 := Merge(acc, samples[0]).1;
    assert prefix != [] && prefix[0] == samples[0];
    assert Run(prefix, acc) == Run(prefix[1..], acc1);
    TailOfPrefix(samples, j);
  }

  /**
   * A run that raises stops at the first sample whose merge raises: what it
   * returns is that merge's outcome, applied to the accumulator the earlier
   * samples produced.
   */
  lemma {:induction false} RunStopsAtFirstError<T>(samples: seq<Sample<T>>, acc: Accumulated<T>)
    requires BothOrNeither(acc)
    requires Run(samples, acc).0.Raised?
    ensures exists j :: 0 <= j < |samples| && Run(samples[..j], acc).0 == Done &&
              Merge(Run(samples[..j], acc).1, samples[j]) == Run(samples, acc)
    decreases |samples|
  {
    var (status, acc1) := Merge(acc, samples[0]);
    if status.Raised? {
      assert samples[..0] == [];
      assert Run(samples[..0], acc).0 == Done &&
        Merge(Run(samples[..0], acc).1, samples[0]) == Run(samples, acc);
    } else {
      var rest := samples[1..];
      assert Run(samples, acc) == Run(rest, acc1);
      RunStopsAtFirstError(rest, acc1);
      var j :| 0 <= j < |rest| && Run(rest[..j], acc1).0 == Done &&
        Merge(Run(rest[..j], acc1).1, rest[j]) == Run(rest, acc1);
      RunPrefixUnfold(samples, acc, j);
      assert samples[j + 1] == rest[j];
      assert Run(samples[..j + 1], acc).0 == Done &&
        Merge(Run(samples[..j + 1], acc).1, samples[j + 1]) == Run(samples, acc);
    }
  }
}
