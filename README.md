# HSMMState: a Dafny model of the discrete skeleton of dahsmm's inference engine

`dahsmm/states.py` defines `HSMMState`, the per-sequence inference engine of a
hierarchical hidden semi-Markov model. A segmentation labels every time step
with a *word*, and every word is a fixed sequence of *letters*. This project
models the parts of the engine that are not floating-point numerics:

- the lazily built log-likelihood tables `Al`, `aDl`, `aBl` and `dl`, and
  `clear_caches`;
- the letter-level table `alphal` of `likelihood_block_word`. It is filled in
  place one band per column, and its `d = t` term reads row -1;
- `cumulative_likelihoods`, which reads the last column of every word's table;
- the truncated backward recursion `messages_backwards`. Its write to
  `betal[t - 1]` wraps around at `t = 0`, and the last row is then reset;
- the two-level sampling loop `sample_forwards`, which records runs
  `(state, (idx, idx + dur))` and slice-assigns `stateseq`;
- `resample`, which chains the three.

Scores are `NegInf | Fin(r)` with exact addition (`Scores.Add`). `np.log`,
`np.exp`, `np.logaddexp.reduce` and the message term
`exp(loglik + betal - betastarl)` are function-valued parameters
(`Tables.Numerics`). The only fact assumed about the log-add is that log 0 is
its identity. The random choices of `sample_forwards` come in as an oracle
(`ForwardSampler.Draws`): for the k-th run, the word that `sample_discrete`
picks and the uniform threshold `durprob`.

The class `States.HsmmState` keeps the source's fields. The caches are
`Option` fields, and `alphal`, `betal`, `betastarl` and `stateseq` are arrays
written in place. Its ghost field `pass` records the tables that the current
pass reads: each one is either the cached table or the table its first read
will build (`PassOf`). Every method is proved against ghost functions of the
other modules, evaluated at `pass`:

- `WordLikelihood.Alpha` and `BlockScore`;
- `BackwardMessages.Beta` and `BetaStar`;
- `ForwardSampler.DrawDuration` and `Sample`.

Lemmas then state what those functions mean.

Modules: `Scores` (scores, log-add fold), `Tables` (model, numerics, table
builders, numpy negative indexing), `WordLikelihood`, `BackwardMessages`,
`ForwardSampler`, `States` (the class and its in-place helpers).

Details of the code that the model keeps:

- the prior is 1 once `dur >= T` (line 128);
- `betal[t - 1]` log-adds `betastarl[t] + Al` along axis 1, so it reads
  `Al[w, w2]` (line 103);
- the last recorded range can end past `T` (lines 143-150): see
  `ForwardSampler.LastRunCanOvershoot`;
- a threshold of exactly 0.0, which `np.random.random()` can return, leaves
  `dur` at `len(word) - 1`; that fails `dur > 0` (line 147) for a one-letter
  word and `dur >= len(word)` (line 148) otherwise: see
  `ForwardSampler.ZeroThresholdFails`.

## Model

| member | source | states |
|---|---|---|
| States.HsmmState.constructor | dahsmm/states.py:6-12 | stores data, model and T = len(data); every cache is empty and the pass reads the tables built from scratch |
| States.HsmmState.ClearCaches | dahsmm/states.py:16-24 | sets `_Al`, `_aDl`, `_aBl`, `_dl`, `_cache_alphal`, `_durations`, `_stateseq_norep` and `state_ranges` to None; afterwards every table read is a fresh build from the current model |
| States.HsmmState.GetAl | dahsmm/states.py:58-63 | when the cache is empty, builds log A and stores it; otherwise returns the cached table unchanged; the tables the pass reads do not change |
| States.HsmmState.GetADl | dahsmm/states.py:40-48 | the same lazy contract for aDl; row d-1, column w holds word w's duration log-likelihood at d (Tables.ADlTable) |
| States.HsmmState.GetABl | dahsmm/states.py:65-72 | the same lazy contract for aBl; row t, column l holds letter l's log-likelihood of observation t |
| States.HsmmState.GetDl | dahsmm/states.py:74-82 | the same lazy contract for dl; row d-1, column l holds letter l's duration log-likelihood at d |
| Tables.PyIndex | dahsmm/states.py:103 | numpy indexing: an index i in [-n, n) names row i mod n, so -1 is the last row |
| Tables.AlTable | dahsmm/states.py:58-63 | defines Al: cell (w, w2) is log A[w, w2]; the table is state_dim x state_dim |
| Tables.ADlTable | dahsmm/states.py:40-48 | defines aDl: cell (d - 1, w) is word w's duration log-likelihood at d, for d in 1..T; the table is T x state_dim |
| Tables.ABlTable | dahsmm/states.py:65-72 | defines aBl: cell (t, l) is letter l's emission log-likelihood of observation t; the table is T x letter_dim |
| Tables.DlTable | dahsmm/states.py:74-82 | defines dl: cell (d - 1, l) is letter l's duration log-likelihood at d; the table is T x letter_dim |
| WordLikelihood.EmitSum | dahsmm/states.py:177 | defines np.sum(aBl[lo:hi, l]) as the sum of letter l's emission scores over rows [lo, hi) |
| WordLikelihood.Alpha | dahsmm/states.py:172-183 | defines alphal[t, j] after the loops: log 0 outside column j's band; for j = 0 the emission sum over [start, start + t + 1) plus dl[t, l]; for j > 0 the log-add of AlphaTerms |
| WordLikelihood.AlphaTerm | dahsmm/states.py:179-183 | defines the d-th operand: letter j emits over [start + t - d, start + t + 1) with duration d + 1, after alphal[t - d - 1, j - 1], where row -1 is the last row |
| WordLikelihood.BlockScore | dahsmm/states.py:185 | defines what likelihood_block_word returns: alphal[-1, -1] of the table over [start, min(T, stop)) |
| States.HsmmState.LikelihoodBlockWord | dahsmm/states.py:167-185 | allocates a fresh tsize x len(word) table with tsize = min(T, stop) - start and keeps it as `_cache_alphal`; every cell equals Alpha; cells outside the bands stay log 0; the result is the block score of the word over [start, stop); dl is read exactly when len(word) <= tsize |
| States.FillAlpha | dahsmm/states.py:174-183 | the column loop leaves every cell equal to Alpha and every cell outside the bands at log 0 |
| States.FillBand | dahsmm/states.py:175-183 | one column j: the cells at offsets j..tsize-len(word)+j are written in order, and no other column changes |
| States.CellTermsAreAlphaTerms | dahsmm/states.py:179-183 | once the columns before j are final, the list the loop log-adds into alphal[t, j] is Alpha's list of terms, including the d = t term read at row -1 |
| WordLikelihood.WrapReadIsNegInf | dahsmm/states.py:179-183 | the d = t term reads row tsize-1 of column j-1; that cell is outside column j-1's band, so it is log 0 |
| WordLikelihood.AlphaWithoutWrap | dahsmm/states.py:179-183 | within the band of column j > 0, alphal[t, j] is the log-add of the terms d < t alone; the wrapped term contributes nothing |
| WordLikelihood.ShortBlockIsNegInf | dahsmm/states.py:168-185 | a block shorter than its word scores log 0 |
| WordLikelihood.SingleStepScore | dahsmm/states.py:176-177 | a one-letter word over one step scores aBl[start, l] + dl[0, l] |
| WordLikelihood.AlphaPrefix | dahsmm/states.py:174-175 | a table over a shorter block agrees with the table over a longer block at every cell of the shorter table's bands |
| States.HsmmState.LastColumnInto | dahsmm/states.py:160-163 | one turn of the loop: column w becomes the last column of word w's table, and no other column changes |
| States.LastColumnsAreBlockScores | dahsmm/states.py:155-165 | a table whose column w is word w's last column holds in row k word w's score over [start, start + k + 1) |
| WordLikelihood.LastColumnIsBlockScore | dahsmm/states.py:155-165 | row k of the last column is the score of the word occupying exactly [start, start + k + 1) |
| States.HsmmState.CumulativeLikelihoods | dahsmm/states.py:155-165 | returns a fresh (min(T, stop) - start) x state_dim table whose column w is the last column of word w's table, so row k holds word w's score over [start, start + k + 1) |
| States.HsmmState.MessagesBackwards | dahsmm/states.py:89-106 | allocates betal and betastarl as T x state_dim and stores them on the object; on return every cell equals Beta and BetaStar for the horizon trunc, which includes the all-zero last row of betal |
| States.HsmmState.ZeroMessages | dahsmm/states.py:94-95 | the two fresh zero arrays satisfy the loop invariant at t = T: no row computed yet, last row of betal zero |
| States.HsmmState.BackwardPass | dahsmm/states.py:98-104 | the reverse loop over t takes the invariant from t = T down to t = 0 |
| States.HsmmState.BackwardStep | dahsmm/states.py:99-103 | one turn at t: row t of betastarl and then row t - 1 of betal become right |
| States.BetaStarRow | dahsmm/states.py:99-102 | writes row t of betastarl as the log-add of the aligned window; every earlier row is left as it was |
| States.WindowTermsAreBetaStarTerms | dahsmm/states.py:99-101 | with betal right from row t on, the window's terms are the terms BetaStar log-adds |
| States.BetalFrom | dahsmm/states.py:98-105 | before row t of betastarl is written, betal is right on rows t..T-1, because the last row still holds the zero the recursion expects |
| States.BetaRow | dahsmm/states.py:103 | writes betal[t - 1] from betastarl[t] + Al along axis 1; at t = 0 this write lands on row T-1 and breaks only that row |
| States.NextTermsAreBetaTerms | dahsmm/states.py:103 | row w of betastarl[t] + Al holds the terms Beta log-adds at t - 1 |
| States.LastRowZero | dahsmm/states.py:105 | resetting betal[-1] to zero repairs the wrapped write; afterwards both arrays are right everywhere |
| BackwardMessages.Cum | dahsmm/states.py:100 | defines row k, column w of cumulative_likelihoods(t, t + trunc): the last column of word w's table over [t, min(T, t + trunc)) |
| BackwardMessages.Beta | dahsmm/states.py:103-105 | defines betal[t, w]: 0 on the last row, otherwise the log-add over w2 of betastarl[t + 1, w2] + Al[w, w2] |
| BackwardMessages.BetaStar | dahsmm/states.py:99-102 | defines betastarl[t, w]: the log-add of BetaStarTerm over k < min(trunc, T - t) |
| BackwardMessages.BetaStarTerm | dahsmm/states.py:100 | defines the k-th operand: betal[t + k, w] + Cum(t, k, w) + aDl[k, w] |
| BackwardMessages.BetaStarOverDurations | dahsmm/states.py:99-101 | betastarl[t, w] log-adds, over durations d in 1..min(trunc, T - t), betal[t + d - 1, w] + the block score of word w over [t, t + d) + aDl[d - 1, w]; these are the block scores that likelihood_block_word returns |
| BackwardMessages.BetaAgrees | dahsmm/states.py:103 | with horizons of at least T, betal[t] agrees once betastarl agrees on all later rows |
| BackwardMessages.BetaStarAgrees | dahsmm/states.py:99-101 | with horizons of at least T, betastarl[t] agrees once betal agrees on rows t.. |
| BackwardMessages.TruncationExact | dahsmm/states.py:89-104 | every horizon trunc >= T gives the same betal and betastarl: the truncation changes nothing on sequences no longer than trunc |
| ForwardSampler.Prior | dahsmm/states.py:128 | defines p_d_prior: aD[dur, state] while dur < T, else 1 |
| ForwardSampler.DurationMass | dahsmm/states.py:137-139 | defines p_d: the message term of likelihood_block_word(idx, idx + dur + 1, word), betal[idx + dur, state] and betastarl[idx, state], times the prior |
| ForwardSampler.DrawDuration | dahsmm/states.py:125-145 | defines the dur the inner loop exits with: it stops when durprob <= 0; a zero prior skips; a fitting duration subtracts p_d; the first non-fitting one stops at dur + 1 |
| ForwardSampler.Sample | dahsmm/states.py:116-152 | defines the outer loop from run k at idx: it stops at idx >= T or at a failed assertion, and otherwise records (state, (idx, idx + dur)) and moves to idx + dur |
| ForwardSampler.Paint | dahsmm/states.py:149 | defines the slice assignment stateseq[lo:hi] = state, clipped to the sequence |
| ForwardSampler.Painted | dahsmm/states.py:112-149 | defines stateseq as np.zeros(T) followed by the runs' slice assignments, in order |
| ForwardSampler.DrawDurationSkip | dahsmm/states.py:132-134 | a zero prior raises dur by one and leaves durprob unchanged |
| ForwardSampler.DrawDurationConsume | dahsmm/states.py:136-142 | a duration that fits before T subtracts p_d from durprob and raises dur by one |
| ForwardSampler.DrawDurationStop | dahsmm/states.py:143-145 | the first duration that does not fit raises dur by one and ends the inner loop |
| ForwardSampler.DrawDurationBounds | dahsmm/states.py:125-145 | the inner loop terminates; with durprob > 0 it raises dur at least once and exits with dur <= max(len(word) - 1, T) + 1 |
| States.DrawDurationTurn | dahsmm/states.py:127-145 | the three cases of one inner turn in the form the method uses; a turn that does not stop has dur < T |
| States.HsmmState.DurationTurn | dahsmm/states.py:127-145 | one inner turn raises dur by exactly one; durprob loses p_d when the prior is nonzero and idx + dur < T and is kept otherwise; the turn stops exactly when the prior is nonzero and idx + dur >= T; the inner loop's outcome is kept |
| States.HsmmState.RunMass | dahsmm/states.py:136-139 | p_d is the message term of likelihood_block_word(idx, idx + dur + 1, word), betal[idx + dur, state] and betastarl[idx, state], times the prior |
| States.HsmmState.DrawRunDuration | dahsmm/states.py:124-145 | the inner loop started at dur = len(word) - 1 exits with DrawDuration's value |
| ForwardSampler.SampleStep | dahsmm/states.py:116-152 | one outer turn either fails the duration assertions, which ends the trace, or records the run (state, (idx, idx + dur)) at the head of the trace |
| ForwardSampler.Fits | dahsmm/states.py:147-148 | the two duration assertions: dur > 0 and dur >= len(word) |
| ForwardSampler.ResumeStep | dahsmm/states.py:122-152 | a drawn run that passes the assertions and is recorded leaves the whole pass unchanged as seen from k + 1 at idx + dur; one that fails ends it with the runs so far |
| ForwardSampler.ResumeAtStart | dahsmm/states.py:113-114 | with no runs recorded, the pass still to come is the whole pass |
| ForwardSampler.ResumeAtEnd | dahsmm/states.py:116 | once idx >= T, the recorded runs are the whole pass and it succeeded |
| States.HsmmState.DrawRun | dahsmm/states.py:122-148 | draws run k at idx and reports whether it passes the assertions, relating both outcomes to the whole pass |
| States.HsmmState.SampleRuns | dahsmm/states.py:114-152 | the outer loop from idx = 0 with nothing recorded ends with exactly the runs and success of the whole pass, and stateseq painted with those runs |
| States.HsmmState.SampleRun | dahsmm/states.py:122-152 | one outer turn: a run that passes the assertions is slice-assigned into stateseq, (state(k), (idx, idx')) is appended to state_ranges and k moves on by one; a failing run leaves k, idx and state_ranges as they were |
| States.PaintRun | dahsmm/states.py:149 | stateseq[idx:idx+dur] = state, with the slice clipped to the array |
| States.PaintedSnoc | dahsmm/states.py:149-150 | painting one more run applies its slice assignment on top of the earlier runs |
| States.HsmmState.SampleForwards | dahsmm/states.py:108-152 | stateseq is a fresh length-T array; state_ranges, stateseq and success are exactly those of Sample(0, 0) for the given draws and messages |
| ForwardSampler.SampleShape | dahsmm/states.py:116-152 | every recorded run is non-empty, at least as long as its word and starts before T; the runs are contiguous from idx |
| ForwardSampler.SampleReachesEnd | dahsmm/states.py:116-152 | a pass that gets to the end records a last run that ends at T or later |
| ForwardSampler.SegmentsCons | dahsmm/states.py:150-152 | a valid run followed by valid runs from where it ends gives valid runs from its start |
| ForwardSampler.ChainOrdered | dahsmm/states.py:152 | idx strictly increases: a run ends no later than any later run starts |
| ForwardSampler.PaintedAt | dahsmm/states.py:149 | after all slice assignments, a position inside run i holds run i's state |
| ForwardSampler.ChainCovers | dahsmm/states.py:116-152 | contiguous runs from lo cover every position from lo up to the last run's end |
| ForwardSampler.SampledSegmentation | dahsmm/states.py:108-152 | a completed pass from 0 records contiguous runs from 0, each at least as long as its word, and every position in [0, T) of stateseq holds the state of the run containing it |
| ForwardSampler.PositiveThresholdsSucceed | dahsmm/states.py:125-148 | when every threshold is positive, every run passes the duration assertions and the pass from any position gets to the end |
| ForwardSampler.ZeroThresholdFails | dahsmm/states.py:125-148 | a zero threshold for the first run leaves dur at len(word) - 1, fails one of the two duration assertions (dur > 0 for a one-letter word) and records nothing |
| ForwardSampler.LastRunCanOvershoot | dahsmm/states.py:143-150 | with T = 1, a one-letter word and a threshold not used up by the only duration that fits, the recorded range is (0, (0, 2)), which ends past T |
| States.HsmmState.Resample | dahsmm/states.py:84-87 | clears every cache first, so the pass reads only tables built from the current model; then betal and betastarl are Beta and BetaStar at horizon 60, and stateseq and state_ranges are the sampled pass over them; the run-length caches `_durations` and `_stateseq_norep` are still empty on return |
| Scores.LogSumDropLast | dahsmm/states.py:179-183 | a trailing log 0 operand does not change the log-add reduction |
| Scores.LogSumAllNegInf | dahsmm/states.py:179-183 | a log-add of log 0 values is log 0 |
| WordLikelihood.ImpossibleLetterColumn | dahsmm/states.py:176-183 | a letter whose every duration has log-likelihood log 0 has a column of log 0 throughout |
| WordLikelihood.DeadColumnPropagates | dahsmm/states.py:178-183 | a column of log 0 throughout makes every later column log 0 |
| WordLikelihood.ImpossibleLetterBlock | dahsmm/states.py:167-185 | a word containing a letter of no possible duration scores log 0 on every block |

## Left out

- Floating point: `np.log`, `np.exp`, `np.logaddexp.reduce` and the message term are abstract parameters. Only log 0 being the identity of the log-add is assumed, so no numeric value is computed and no rounding is modelled.
- The normalisation of `nextstate_dist` (lines 117-120), `sample_discrete` and `np.random.random` (lines 122-123) are replaced by the oracle `Draws`. The model therefore says nothing about the distribution of the sampled word or threshold. This includes the use of `A` and `init_dist.pi_0` (lines 54-56, 115, 151).
- The float assertions on `p_d_prior` and `p_d` (lines 129-130, 140) are not modelled. A failed `dur > 0` / `dur >= len(word)` assertion (lines 147-148) is modelled as `ok == false`, with the runs and stateseq recorded so far, instead of as a raised exception.
- `np.nan_to_num` on the emission log-likelihoods (line 70) and the distributions' `log_likelihood` methods are not modelled. The tables are built from the model's given log-likelihood functions (`Tables.Model`).
- `stateseq_norep` and `durations` (lines 26-38) are thin wrappers over the external `rle`, and `durations` reads an attribute that the file never defines. Their cache fields exist and `ClearCaches` resets them; the properties themselves are not modelled.
- The tables are built whole as sequences (`Tables.AlTable` and the rest), not filled column by column in place.
- `__init__` runs a whole pass and then reads `self.betal` (lines 12-14). The constructor stops after `clear_caches`; `Resample` models the pass. `self.letters` (line 11) is never used.
- States.HsmmState.MessagesBackwards: requires T > 0 and trunc > 0. With trunc = 0, cumulative_likelihoods builds a table with no rows, and `alphal[-1, -1]` (line 185) raises IndexError. With T = 0, `betal[-1] = 0.0` (line 105) raises IndexError. Neither error path is modelled.
- States.HsmmState.LikelihoodBlockWord: requires start < min(T, stop). When start = min(T, stop), the table has no rows and `alphal[-1, -1]` (line 185) raises IndexError. When start > min(T, stop), `np.ones` (line 172) rejects the negative size. Neither error path is modelled.
- States.HsmmState.CumulativeLikelihoods: requires start < min(T, stop), for the same reason: such a block raises in its first call to likelihood_block_word.
- States.HsmmState.Resample: requires T > 0. With an empty sequence, `messages_backwards` would reset `betal[-1]` of an empty array, which numpy rejects.
- Integer width: `stateseq` is int32 in the source, but the model's states are unbounded naturals.
