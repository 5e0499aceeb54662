/** The forward segmentation sampler of sample_forwards as functions of the
    pass's tables, the backward messages and the random draws: which runs it
    records, how it fills stateseq, and the shape of the result. */
module ForwardSampler {
  import opened Scores
  import opened Tables
  import opened WordLikelihood

  /** One entry (state, (lo, hi)) of state_ranges. */
  datatype Run = Run(state: nat, lo: nat, hi: nat)

  /** The runs a sampling pass records, and whether it got to the end (ok)
      or stopped at a failed duration assertion. */
  datatype Trace = Trace(runs: seq<Run>, ok: bool)

  /** The random draws of the k-th run: the word sample_discrete picks and
      the uniform threshold durprob. */
  datatype Draws = Draws(state: nat -> nat, threshold: nat -> real)
  {
    ghost predicate Valid(stateDim: nat)
    {
      forall k :: state(k) < stateDim
    }
  }

  /** The pass's tables and the backward messages betal and betastarl, read as
      T x state_dim tables. */
  ghost predicate SamplerArgs(tb: Tables, betal: Table, betastarl: Table)
  {
    tb.Valid() && IsMatrix(betal, tb.T, |tb.words|) && IsMatrix(betastarl, tb.T, |tb.words|)
  }

  /** The inner loop: from candidate index dur with threshold durprob left,
      the dur it exits with. A zero prior skips; a candidate that fits before
      T consumes p_d; the first candidate at or past T ends the loop one
      further on. */
  ghost function DrawDuration(tb: Tables, betal: Table, betastarl: Table,
                              idx: nat, state: nat, dur: nat, durprob: real): nat
    requires SamplerArgs(tb, betal, betastarl) && idx < tb.T && state < |tb.words|
    decreases tb.T - dur
  {
    if durprob <= 0.0 then dur
    else
      var prior := Prior(tb, state, dur);
      if prior == 0.0 then DrawDuration(tb, betal, betastarl, idx, state, dur + 1, durprob)
      else if idx + dur < tb.T then
        DrawDuration(tb, betal, betastarl, idx, state, dur + 1, durprob - DurationMass(tb, betal, betastarl, idx, state, dur))
      else dur + 1
  }

  /** p_d: the posterior weight of the run [idx, idx + dur + 1) for the word,
      exp(loglik + betal[idx + dur] - betastarl[idx]) times the prior. */
  ghost function DurationMass(tb: Tables, betal: Table, betastarl: Table,
                              idx: nat, state: nat, dur: nat): real
    requires SamplerArgs(tb, betal, betastarl) && idx + dur < tb.T && state < |tb.words|
  {
    var loglik := BlockScore(tb, idx, idx + dur + 1, tb.words[state]);
    tb.num.messTerm(loglik, betal[idx + dur][state], betastarl[idx][state]) * Prior(tb, state, dur)
  }

  /** p_d_prior: the word's duration probability at dur + 1, or 1 past T. */
  ghost function Prior(tb: Tables, state: nat, dur: nat): real
    requires tb.Valid() && state < |tb.words|
  {
    if dur < tb.T then tb.num.exp(tb.aDl[dur][state]) else 1.0
  }

  /** One turn of the inner loop with threshold left and prior zero: skip. */
  lemma DrawDurationSkip(tb: Tables, betal: Table, betastarl: Table,
                         idx: nat, state: nat, dur: nat, durprob: real)
    requires SamplerArgs(tb, betal, betastarl) && idx < tb.T && state < |tb.words| && 0.0 < durprob
    requires Prior(tb, state, dur) == 0.0
    ensures DrawDuration(tb, betal, betastarl, idx, state, dur, durprob)
         == DrawDuration(tb, betal, betastarl, idx, state, dur + 1, durprob)
  {
  }

  /** One turn with threshold left for a duration that fits before T: consume p_d. */
  lemma DrawDurationConsume(tb: Tables, betal: Table, betastarl: Table,
                            idx: nat, state: nat, dur: nat, durprob: real)
    requires SamplerArgs(tb, betal, betastarl) && idx + dur < tb.T && state < |tb.words| && 0.0 < durprob
    requires Prior(tb, state, dur) != 0.0
    ensures DrawDuration(tb, betal, betastarl, idx, state, dur, durprob)
         == DrawDuration(tb, betal, betastarl, idx, state, dur + 1,
                         durprob - DurationMass(tb, betal, betastarl, idx, state, dur))
  {
  }

  /** One turn with threshold left for a duration that does not fit: stop one further on. */
  lemma DrawDurationStop(tb: Tables, betal: Table, betastarl: Table,
                         idx: nat, state: nat, dur: nat, durprob: real)
    requires SamplerArgs(tb, betal, betastarl) && idx < tb.T <= idx + dur && state < |tb.words| && 0.0 < durprob
    requires Prior(tb, state, dur) != 0.0
    ensures DrawDuration(tb, betal, betastarl, idx, state, dur, durprob) == dur + 1
  {
  }

  /** The outer loop from run k at position idx. */
  ghost function Sample(tb: Tables, betal: Table, betastarl: Table,
                        draws: Draws, k: nat, idx: nat): Trace
    requires SamplerArgs(tb, betal, betastarl) && draws.Valid(|tb.words|)
    decreases tb.T - idx
  {
    if idx >= tb.T then Trace([], true)
    else
      var state := draws.state(k);
      var word := tb.words[state];
      var dur := DrawDuration(tb, betal, betastarl, idx, state, |word| - 1, draws.threshold(k));
      if !Fits(tb.words, Run(state, idx, idx + dur)) then Trace([], false)
      else
        var rest := Sample(tb, betal, betastarl, draws, k + 1, idx + dur);
        Trace([Run(state, idx, idx + dur)] + rest.runs, rest.ok)
  }

  /** One turn of the outer loop: the run drawn at (k, idx) either fails the
      duration assertions and ends the trace, or heads it. */
  lemma SampleStep(tb: Tables, betal: Table, betastarl: Table, draws: Draws, k: nat, idx: nat)
    requires SamplerArgs(tb, betal, betastarl) && draws.Valid(|tb.words|) && idx < tb.T
    ensures var word := tb.words[draws.state(k)];
            var dur := DrawDuration(tb, betal, betastarl, idx, draws.state(k), |word| - 1, draws.threshold(k));
            var rest := Sample(tb, betal, betastarl, draws, k + 1, idx + dur);
            Sample(tb, betal, betastarl, draws, k, idx)
            == if Fits(tb.words, Run(draws.state(k), idx, idx + dur)) then Trace([Run(draws.state(k), idx, idx + dur)] + rest.runs, rest.ok)
               else Trace([], false)
  {
  }

  /** A whole pass as seen from inside the outer loop: the runs recorded so
      far, then what the loop records from run k at idx. */
  ghost function Resume(tb: Tables, betal: Table, betastarl: Table, draws: Draws,
                        runs: seq<Run>, k: nat, idx: nat): Trace
    requires SamplerArgs(tb, betal, betastarl) && draws.Valid(|tb.words|)
  {
    var rest := Sample(tb, betal, betastarl, draws, k, idx);
    Trace(runs + rest.runs, rest.ok)
  }

  /** The duration assertions sample_forwards makes of a drawn run: it is not
      empty and it is at least as long as its word. */
  predicate Fits(words: seq<seq<nat>>, r: Run)
    requires r.state < |words|
  {
    r.hi - r.lo > 0 && r.hi - r.lo >= |words[r.state]|
  }

  /** One turn of the outer loop leaves the whole pass unchanged: a run that
      passes the duration assertions is recorded and the loop resumes at
      k + 1, r.hi; one that fails ends the pass with the runs so far. */
  lemma ResumeStep(tb: Tables, betal: Table, betastarl: Table, draws: Draws,
                   runs: seq<Run>, k: nat, idx: nat, r: Run)
    requires SamplerArgs(tb, betal, betastarl) && draws.Valid(|tb.words|) && idx < tb.T
    requires r.state == draws.state(k) && r.lo == idx && idx <= r.hi
    requires r.hi - idx == DrawDuration(tb, betal, betastarl, idx, r.state,
                                        |tb.words[r.state]| - 1, draws.threshold(k))
    ensures Fits(tb.words, r) ==>
              Resume(tb, betal, betastarl, draws, runs + [r], k + 1, r.hi)
              == Resume(tb, betal, betastarl, draws, runs, k, idx)
    ensures !Fits(tb.words, r) ==> Resume(tb, betal, betastarl, draws, runs, k, idx) == Trace(runs, false)
  {
    var rest := Sample(tb, betal, betastarl, draws, k + 1, r.hi);
    SampleStep(tb, betal, betastarl, draws, k, idx);
    if Fits(tb.words, r) {
      assert (runs + [r]) + rest.runs == runs + ([r] + rest.runs);
    } else {
      assert runs + [] == runs;
    }
  }

  /** Before the loop has recorded a run, the pass still to come is the whole pass. */
  lemma ResumeAtStart(tb: Tables, betal: Table, betastarl: Table, draws: Draws)
    requires SamplerArgs(tb, betal, betastarl) && draws.Valid(|tb.words|)
    ensures Resume(tb, betal, betastarl, draws, [], 0, 0) == Sample(tb, betal, betastarl, draws, 0, 0)
  {
    var rest := Sample(tb, betal, betastarl, draws, 0, 0);
    assert [] + rest.runs == rest.runs;
  }

  /** Once the loop reaches T, the runs recorded are the whole pass. */
  lemma ResumeAtEnd(tb: Tables, betal: Table, betastarl: Table, draws: Draws,
                    runs: seq<Run>, k: nat, idx: nat)
    requires SamplerArgs(tb, betal, betastarl) && draws.Valid(|tb.words|) && tb.T <= idx
    ensures Resume(tb, betal, betastarl, draws, runs, k, idx) == Trace(runs, true)
  {
    assert runs + [] == runs;
  }

  /** stateseq[r.lo:r.hi] = r.state: the slice is clipped to the sequence. */
  function Paint(s: seq<int>, r: Run): (p: seq<int>)
    ensures |p| == |s|
  {
    seq(|s|, i requires 0 <= i < |s| => if r.lo <= i < r.hi then r.state else s[i])
  }

  /** stateseq after np.zeros(T) and one slice assignment per recorded run. */
  function Painted(runs: seq<Run>, T: nat): (s: seq<int>)
    ensures |s| == T
  {
    if runs == [] then seq(T, _ => 0) else Paint(Painted(runs[..|runs| - 1], T), runs[|runs| - 1])
  }

  /** Runs that are non-empty, start at lo and each start where the previous ended. */
  predicate Chain(runs: seq<Run>, lo: nat)
  {
    && (|runs| > 0 ==> runs[0].lo == lo)
    && (forall i :: 0 <= i < |runs| ==> runs[i].lo < runs[i].hi)
    && (forall i :: 0 <= i < |runs| - 1 ==> runs[i + 1].lo == runs[i].hi)
  }

  /** The inner loop ends where it starts only when the threshold is already
      spent; otherwise it raises dur at least once and at most to one past
      max(dur, T). */
  lemma {:induction false} DrawDurationBounds(tb: Tables, betal: Table, betastarl: Table,
                                              idx: nat, state: nat, dur: nat, durprob: real)
    requires SamplerArgs(tb, betal, betastarl) && idx < tb.T && state < |tb.words|
    ensures durprob <= 0.0 ==> DrawDuration(tb, betal, betastarl, idx, state, dur, durprob) == dur
    ensures 0.0 < durprob ==> dur < DrawDuration(tb, betal, betastarl, idx, state, dur, durprob) <= Max(dur, tb.T) + 1
    decreases tb.T - dur
  {
    if 0.0 < durprob {
      var prior := Prior(tb, state, dur);
      if prior == 0.0 {
        DrawDurationBounds(tb, betal, betastarl, idx, state, dur + 1, durprob);
      } else if idx + dur < tb.T {
        DrawDurationBounds(tb, betal, betastarl, idx, state, dur + 1,
                           durprob - DurationMass(tb, betal, betastarl, idx, state, dur));
      }
    }
  }

  /** Runs that form a chain from lo, each labelled with a state below
      |words|, at least as long as that state's word, and starting before T. */
  predicate Segments(words: seq<seq<nat>>, T: nat, runs: seq<Run>, lo: nat)
  {
    && Chain(runs, lo)
    && forall i :: 0 <= i < |runs| ==>
         && runs[i].state < |words|
         && runs[i].hi - runs[i].lo >= |words[runs[i].state]|
         && runs[i].lo < T
  }

  /** Every recorded run is non-empty, at least as long as its word and
      starts before T, and the runs are contiguous from idx. */
  lemma {:induction false} SampleShape(tb: Tables, betal: Table, betastarl: Table,
                                       draws: Draws, k: nat, idx: nat)
    requires SamplerArgs(tb, betal, betastarl) && draws.Valid(|tb.words|)
    ensures Segments(tb.words, tb.T, Sample(tb, betal, betastarl, draws, k, idx).runs, idx)
    decreases tb.T - idx
  {
    if idx < tb.T {
      var state := draws.state(k);
      var word := tb.words[state];
      var dur := DrawDuration(tb, betal, betastarl, idx, state, |word| - 1, draws.threshold(k));
      if Fits(tb.words, Run(state, idx, idx + dur)) {
        SampleShape(tb, betal, betastarl, draws, k + 1, idx + dur);
        var rest := Sample(tb, betal, betastarl, draws, k + 1, idx + dur);
        assert Sample(tb, betal, betastarl, draws, k, idx).runs == [Run(state, idx, idx + dur)] + rest.runs;
        SegmentsCons(tb.words, tb.T, Run(state, idx, idx + dur), rest.runs, idx);
      }
    }
  }

  /** A pass from idx < T that gets to the end records a last run that
      reaches T or beyond. */
  lemma {:induction false} SampleReachesEnd(tb: Tables, betal: Table, betastarl: Table,
                                            draws: Draws, k: nat, idx: nat)
    requires SamplerArgs(tb, betal, betastarl) && draws.Valid(|tb.words|) && idx < tb.T
    ensures var tr := Sample(tb, betal, betastarl, draws, k, idx);
      tr.ok ==> |tr.runs| > 0 && tb.T <= tr.runs[|tr.runs| - 1].hi
    decreases tb.T - idx
  {
    var state := draws.state(k);
    var word := tb.words[state];
    var dur := DrawDuration(tb, betal, betastarl, idx, state, |word| - 1, draws.threshold(k));
    if Fits(tb.words, Run(state, idx, idx + dur)) {
      var rest := Sample(tb, betal, betastarl, draws, k + 1, idx + dur);
      var runs := [Run(state, idx, idx + dur)] + rest.runs;
      assert Sample(tb, betal, betastarl, draws, k, idx) == Trace(runs, rest.ok);
      if idx + dur < tb.T {
        SampleReachesEnd(tb, betal, betastarl, draws, k + 1, idx + dur);
        if rest.ok {
          assert runs[|runs| - 1] == rest.runs[|rest.runs| - 1];
        }
      } else {
        assert rest == Trace([], true);
      }
    }
  }

  /** A run from lo that fits its word, followed by segments from where it
      ends, gives segments from lo. */
  lemma SegmentsCons(words: seq<seq<nat>>, T: nat, r: Run, rest: seq<Run>, lo: nat)
    requires r.lo == lo < r.hi && lo < T && r.state < |words| && r.hi - r.lo >= |words[r.state]|
    requires Segments(words, T, rest, r.hi)
    ensures Segments(words, T, [r] + rest, lo)
  {
    var runs := [r] + rest;
    forall i | 0 < i < |runs|
      ensures runs[i] == rest[i - 1]
    {
    }
  }

  /** In a chain, a run ends no later than any later run starts. */
  lemma {:induction false} ChainOrdered(runs: seq<Run>, lo: nat, i: nat, j: nat)
    requires Chain(runs, lo) && i < j < |runs|
    ensures runs[i].hi <= runs[j].lo
    decreases j - i
  {
    if i + 1 < j {
      ChainOrdered(runs, lo, i + 1, j);
    }
  }

  /** Slice assignments of a chain leave each position of a run holding that
      run's word. */
  lemma {:induction false} PaintedAt(runs: seq<Run>, lo: nat, T: nat, i: nat, p: nat)
    requires Chain(runs, lo) && i < |runs| && runs[i].lo <= p < runs[i].hi && p < T
    ensures Painted(runs, T)[p] == runs[i].state
    decreases |runs|
  {
    var last := |runs| - 1;
    if i < last {
      ChainOrdered(runs, lo, i, last);
      assert Chain(runs[..last], lo);
      PaintedAt(runs[..last], lo, T, i, p);
    }
  }

  /** A chain from lo covers every position from lo up to its last end. */
  lemma {:induction false} ChainCovers(runs: seq<Run>, lo: nat, p: nat) returns (i: nat)
    requires Chain(runs, lo) && |runs| > 0 && lo <= p < runs[|runs| - 1].hi
    ensures i < |runs| && runs[i].lo <= p < runs[i].hi
    decreases |runs|
  {
    var last := |runs| - 1;
    if runs[last].lo <= p {
      i := last;
    } else {
      assert Chain(runs[..last], lo);
      i := ChainCovers(runs[..last], lo, p);
    }
  }

  /** A completed pass from position 0: its runs start at 0, are contiguous,
      each at least as long as its word, and every position of [0, T) holds
      in stateseq the word of the run that contains it. */
  lemma SampledSegmentation(tb: Tables, betal: Table, betastarl: Table, draws: Draws)
    requires SamplerArgs(tb, betal, betastarl) && draws.Valid(|tb.words|) && 0 < tb.T
    ensures var tr := Sample(tb, betal, betastarl, draws, 0, 0);
      tr.ok ==>
        && Segments(tb.words, tb.T, tr.runs, 0)
        && |tr.runs| > 0
        && (forall p :: 0 <= p < tb.T ==>
              exists i :: 0 <= i < |tr.runs| && tr.runs[i].lo <= p < tr.runs[i].hi
                          && Painted(tr.runs, tb.T)[p] == tr.runs[i].state)
  {
    var tr := Sample(tb, betal, betastarl, draws, 0, 0);
    SampleShape(tb, betal, betastarl, draws, 0, 0);
    SampleReachesEnd(tb, betal, betastarl, draws, 0, 0);
    if tr.ok {
      var runs := tr.runs;
      assert Segments(tb.words, tb.T, runs, 0) && |runs| > 0 && tb.T <= runs[|runs| - 1].hi;
      forall p | 0 <= p < tb.T
        ensures exists i :: 0 <= i < |runs| && runs[i].lo <= p < runs[i].hi
                            && Painted(runs, tb.T)[p] == runs[i].state
      {
        var i := ChainCovers(runs, 0, p);
        PaintedAt(runs, 0, tb.T, i, p);
      }
    }
  }

  /** Positive thresholds make every run pass the duration assertions: the
      inner loop then raises dur at least once from len(word) - 1, so the pass
      from any position gets to the end. (np.random.random() can return 0.0;
      a zero threshold leaves dur at len(word) - 1, which fails dur > 0 for a
      one-letter word and dur >= len(word) otherwise.) */
  lemma {:induction false} PositiveThresholdsSucceed(tb: Tables, betal: Table, betastarl: Table,
                                                     draws: Draws, k: nat, idx: nat)
    requires SamplerArgs(tb, betal, betastarl) && draws.Valid(|tb.words|)
    requires forall k' :: draws.threshold(k') > 0.0
    ensures Sample(tb, betal, betastarl, draws, k, idx).ok
    decreases tb.T - idx
  {
    if idx < tb.T {
      var state := draws.state(k);
      var word := tb.words[state];
      DrawDurationBounds(tb, betal, betastarl, idx, state, |word| - 1, draws.threshold(k));
      var dur := DrawDuration(tb, betal, betastarl, idx, state, |word| - 1, draws.threshold(k));
      PositiveThresholdsSucceed(tb, betal, betastarl, draws, k + 1, idx + dur);
    }
  }

  /** A zero threshold for the first run fails the pass at once. */
  lemma ZeroThresholdFails(tb: Tables, betal: Table, betastarl: Table, draws: Draws)
    requires SamplerArgs(tb, betal, betastarl) && draws.Valid(|tb.words|) && 0 < tb.T
    requires draws.threshold(0) == 0.0
    ensures Sample(tb, betal, betastarl, draws, 0, 0) == Trace([], false)
  {
    DrawDurationBounds(tb, betal, betastarl, 0, draws.state(0), |tb.words[draws.state(0)]| - 1, 0.0);
  }

  /** The last recorded range can end past T: with one one-letter word, T = 1
      and a threshold that the only duration fitting before T does not use up,
      the else-branch records (0, (0, 2)). The message term here is the
      constant 0, which ignores betal and betastarl; with messages consistent
      with the tables, the masses of the durations that fit add up to at least
      1 in exact arithmetic, so a threshold below 1 outlives them all only
      through floating-point rounding. The example shows what the code does
      when that happens, not a typical pass. */
  lemma LastRunCanOvershoot(betal: Table, betastarl: Table)
    requires IsMatrix(betal, 1, 1) && IsMatrix(betastarl, 1, 1)
    ensures var num := Numerics((a: Score, b: Score) => if a.NegInf? then b else a,
                                (x: real) => Fin(x), (s: Score) => 1.0,
                                (a: Score, b: Score, c: Score) => 0.0);
            var tb := Tables(1, [[0]], 1, num, [[Fin(0.0)]], [[Fin(0.0)]], [[Fin(0.0)]], [[Fin(0.0)]]);
            tb.Valid()
            && Sample(tb, betal, betastarl, Draws((k: nat) => 0, (k: nat) => 0.5), 0, 0)
               == Trace([Run(0, 0, 2)], true)
  {
    var num := Numerics((a: Score, b: Score) => if a.NegInf? then b else a,
                        (x: real) => Fin(x), (s: Score) => 1.0,
                        (a: Score, b: Score, c: Score) => 0.0);
    var tb := Tables(1, [[0]], 1, num, [[Fin(0.0)]], [[Fin(0.0)]], [[Fin(0.0)]], [[Fin(0.0)]]);
    assert tb.Valid();
    var draws := Draws((k: nat) => 0, (k: nat) => 0.5);
    assert DrawDuration(tb, betal, betastarl, 0, 0, 1, 0.5) == 2;
    assert DrawDuration(tb, betal, betastarl, 0, 0, 0, 0.5) == 2;
  }
}
