/** HSMMState: the per-sequence inference engine. It holds one observation
    sequence and the model, builds its four log-likelihood tables lazily,
    runs the truncated backward recursion and samples a segmentation
    forwards. Every method is proved against the functions of the other
    modules, evaluated at the tables the pass reads. */
module States {
  import opened Scores
  import opened Tables
  import opened WordLikelihood
  import opened BackwardMessages
  import opened ForwardSampler

  /** messages_backwards' default horizon, the one resample uses. */
  const DefaultTrunc: nat := 60

  class HsmmState {
    const data: seq<Observation>
    const T: nat
    const num: Numerics
    var model: Model

    // the lazily built tables; None until first read
    var alCache: Option<Table>
    var aDlCache: Option<Table>
    var aBlCache: Option<Table>
    var dlCache: Option<Table>

    // the alpha table of the last likelihood_block_word call
    var alphaCache: array2?<Score>

    // run-length summaries of the sampled sequence; this model never fills them
    var durationsCache: Option<seq<nat>>
    var stateseqNorepCache: Option<seq<int>>

    var stateRanges: Option<seq<Run>>
    var stateseq: array<int>
    var betal: array2?<Score>
    var betastarl: array2?<Score>

    // the tables the current pass reads (see Valid)
    ghost var pass: Tables

    /** The data, the model and the numerics fit together. */
    ghost predicate WellFormed()
      reads this`model
    {
      T == |data| && model.Valid() && num.Valid()
    }

    /** WellFormed, and `pass` is the tables the current pass reads. */
    ghost predicate Valid()
      reads this`model, this`pass, this`alCache, this`aDlCache, this`aBlCache, this`dlCache
    {
      && WellFormed() && pass.Valid()
      && pass.T == T && pass.words == model.wordList && pass.num == num
      && PassOf(pass, model, data, num, alCache, aDlCache, aBlCache, dlCache)
    }

    /** The tables built from scratch from the current model and data. */
    ghost function Fresh(): (tb: Tables)
      reads this
      requires WellFormed()
      ensures tb.Valid()
    {
      Tables(T, model.wordList, model.letterDim, num,
             AlTable(model, num), ADlTable(model, T), ABlTable(model, data), DlTable(model, T))
    }

    /** Every cache clear_caches resets is empty. */
    ghost predicate Cleared()
      reads this
    {
      && alCache.None? && aDlCache.None? && aBlCache.None? && dlCache.None?
      && alphaCache == null && durationsCache.None? && stateseqNorepCache.None?
      && stateRanges.None?
    }

    /** Stores the data and the model with an empty stateseq and no cached table. */
    constructor (data: seq<Observation>, model: Model, num: Numerics)
      requires model.Valid() && num.Valid()
      ensures this.data == data && T == |data| && this.model == model && this.num == num
      ensures stateseq.Length == 0 && betal == null && betastarl == null
      ensures Cleared() && Valid() && pass == Fresh()
    {
      this.data := data;
      T := |data|;
      this.model := model;
      this.num := num;
      stateseq := new int[0];
      betal := null;
      betastarl := null;
      alCache, aDlCache, aBlCache, dlCache := None, None, None, None;
      alphaCache := null;
      durationsCache, stateseqNorepCache := None, None;
      stateRanges := None;
      pass := Tables(|data|, model.wordList, model.letterDim, num,
                     AlTable(model, num), ADlTable(model, |data|), ABlTable(model, data), DlTable(model, |data|));
    }

    /** Drops every derived table and result summary, so the next reads
        rebuild them from the current model. */
    method ClearCaches()
      requires WellFormed()
      modifies this`alCache, this`aDlCache, this`aBlCache, this`dlCache, this`alphaCache,
               this`durationsCache, this`stateseqNorepCache, this`stateRanges, this`pass
      ensures Cleared() && Valid() && pass == Fresh()
    {
      alCache, aDlCache, aBlCache, dlCache := None, None, None, None;
      alphaCache := null;
      durationsCache, stateseqNorepCache := None, None;
      stateRanges := None;
      pass := Fresh();
    }

    /** The Al property: log A, built on the first read and kept. */
    method GetAl() returns (al: Table)
      requires Valid()
      modifies this`alCache
      ensures Valid() && pass == old(pass)
      ensures alCache == Some(al) && al == pass.al
      ensures old(alCache).Some? ==> al == old(alCache).value
      ensures old(alCache).None? ==> al == AlTable(model, num)
    {
      if alCache.None? {
        alCache := Some(AlTable(model, num));
      }
      al := alCache.value;
    }

    /** The aDl property: word duration log-likelihoods, built on the first read and kept. */
    method GetADl() returns (aDl: Table)
      requires Valid()
      modifies this`aDlCache
      ensures Valid() && pass == old(pass)
      ensures aDlCache == Some(aDl) && aDl == pass.aDl
      ensures old(aDlCache).Some? ==> aDl == old(aDlCache).value
      ensures old(aDlCache).None? ==> aDl == ADlTable(model, T)
    {
      if aDlCache.None? {
        aDlCache := Some(ADlTable(model, T));
      }
      aDl := aDlCache.value;
    }

    /** The aBl property: letter emission log-likelihoods, built on the first read and kept. */
    method GetABl() returns (aBl: Table)
      requires Valid()
      modifies this`aBlCache
      ensures Valid() && pass == old(pass)
      ensures aBlCache == Some(aBl) && aBl == pass.aBl
      ensures old(aBlCache).Some? ==> aBl == old(aBlCache).value
      ensures old(aBlCache).None? ==> aBl == ABlTable(model, data)
    {
      if aBlCache.None? {
        aBlCache := Some(ABlTable(model, data));
      }
      aBl := aBlCache.value;
    }

    /** The dl property: letter duration log-likelihoods, built on the first read and kept. */
    method GetDl() returns (dl: Table)
      requires Valid()
      modifies this`dlCache
      ensures Valid() && pass == old(pass)
      ensures dlCache == Some(dl) && dl == pass.dl
      ensures old(dlCache).Some? ==> dl == old(dlCache).value
      ensures old(dlCache).None? ==> dl == DlTable(model, T)
    {
      if dlCache.None? {
        dlCache := Some(DlTable(model, T));
      }
      dl := dlCache.value;
    }

    /** likelihood_block_word: fills alpha over the rows [start, min(T, stop))
        one column (letter) at a time, each column only inside its band, keeps
        the table, and returns its bottom-right cell. */
    method LikelihoodBlockWord(start: nat, stop: nat, word: seq<nat>) returns (r: Score)
      requires Valid() && WordOk(word, model.letterDim) && start < Min(T, stop)
      modifies this`alphaCache, this`aBlCache, this`dlCache
      ensures Valid() && pass == old(pass) && aBlCache.Some?
      ensures dlCache.Some? <==> old(dlCache).Some? || |word| <= Min(T, stop) - start
      ensures alphaCache != null && fresh(alphaCache)
      ensures alphaCache.Length0 == Min(T, stop) - start && alphaCache.Length1 == |word|
      ensures forall t, j {:trigger alphaCache[t, j]} :: 0 <= t < alphaCache.Length0 && 0 <= j < |word| ==>
                alphaCache[t, j] == Alpha(pass, start, alphaCache.Length0, word, t, j)
      ensures forall t, j {:trigger alphaCache[t, j]} :: (0 <= t < alphaCache.Length0 && 0 <= j < |word| &&
                !InBand(alphaCache.Length0, |word|, t, j)) ==> alphaCache[t, j] == NegInf
      ensures r == BlockScore(pass, start, stop, word)
    {
      var tsize := Min(T, stop) - start;
      var aBl := GetABl();
      var alpha := new Score[tsize, |word|]((_, _) => NegInf);
      alphaCache := alpha;
      // self.dl is read at every cell of the bands, which are non-empty
      // exactly when the block is at least as long as the word
      var dl: Table := [];
      if |word| <= tsize {
        dl := GetDl();
      }
      FillAlpha(pass, alpha, aBl, dl, num.logAdd, start, word);
      r := alpha[tsize - 1, |word| - 1];
    }

    /** cumulative_likelihoods: column w is the last column of word w's
        table over [start, min(T, stop)); row k is therefore the score of
        word w occupying exactly [start, start + k + 1). */
    method CumulativeLikelihoods(start: nat, stop: nat) returns (ret: array2<Score>)
      requires Valid() && start < Min(T, stop)
      modifies this`alphaCache, this`aBlCache, this`dlCache
      ensures Valid() && pass == old(pass) && aBlCache.Some?
      ensures fresh(ret) && ret.Length0 == Min(T, stop) - start && ret.Length1 == model.StateDim()
      ensures forall k, w {:trigger ret[k, w]} :: 0 <= k < ret.Length0 && 0 <= w < ret.Length1 ==>
                ret[k, w] == Alpha(pass, start, ret.Length0, model.wordList[w], k, |model.wordList[w]| - 1)
      ensures forall k, w {:trigger ret[k, w]} :: 0 <= k < ret.Length0 && 0 <= w < ret.Length1 ==>
                ret[k, w] == BlockScore(pass, start, start + k + 1, model.wordList[w])
    {
      var tsize := Min(T, stop) - start;
      ret := new Score[tsize, model.StateDim()]((_, _) => Fin(0.0));
      for w := 0 to model.StateDim()
        invariant Valid() && pass == old(pass) && (w > 0 ==> aBlCache.Some?)
        invariant forall k, c {:trigger ret[k, c]} :: 0 <= k < tsize && 0 <= c < w ==>
                    ret[k, c] == Alpha(pass, start, tsize, model.wordList[c], k, |model.wordList[c]| - 1)
      {
        LastColumnInto(start, stop, ret, w);
      }
      LastColumnsAreBlockScores(pass, ret, start);
    }

    /** One turn of cumulative_likelihoods' loop: ret[:, w] = alphal[:, -1]
        for word w's table; the other columns are left as they were. */
    method LastColumnInto(start: nat, stop: nat, ret: array2<Score>, w: nat)
      requires Valid() && start < Min(T, stop) && w < model.StateDim()
      requires ret.Length0 == Min(T, stop) - start && ret.Length1 == model.StateDim()
      modifies this`alphaCache, this`aBlCache, this`dlCache, ret
      ensures Valid() && pass == old(pass) && aBlCache.Some?
      ensures forall k {:trigger ret[k, w]} :: 0 <= k < ret.Length0 ==>
                ret[k, w] == Alpha(pass, start, ret.Length0, model.wordList[w], k, |model.wordList[w]| - 1)
      ensures forall k, c {:trigger ret[k, c]} :: 0 <= k < ret.Length0 && 0 <= c < ret.Length1 && c != w ==>
                ret[k, c] == old(ret[k, c])
    {
      var word := model.wordList[w];
      var _ := LikelihoodBlockWord(start, stop, word);
      var alphal := alphaCache;
      forall k | 0 <= k < ret.Length0 {
        ret[k, w] := alphal[k, |word| - 1];
      }
    }

    /** messages_backwards: fills betastarl and betal from the last row up,
        row t of betastarl from the rows of betal at and after t, row t - 1
        of betal from row t of betastarl (at t == 0 that is row -1, which the
        final assignment resets to zero). */
    method MessagesBackwards(trunc: nat) returns (bl: array2<Score>, bsl: array2<Score>)
      requires Valid() && 0 < T && 0 < trunc
      modifies this`betal, this`betastarl, this`alCache, this`aDlCache, this`aBlCache,
               this`dlCache, this`alphaCache
      ensures Valid() && pass == old(pass) && alCache.Some? && aDlCache.Some? && aBlCache.Some?
      ensures fresh(bl) && fresh(bsl) && betal == bl && betastarl == bsl
      ensures Shaped(bl, T, model.StateDim()) && Shaped(bsl, T, model.StateDim())
      ensures forall t, w {:trigger bl[t, w]} :: 0 <= t < T && 0 <= w < model.StateDim() ==>
                bl[t, w] == Beta(pass, trunc, t, w)
      ensures forall t, w {:trigger bsl[t, w]} :: 0 <= t < T && 0 <= w < model.StateDim() ==>
                bsl[t, w] == BetaStar(pass, trunc, t, w)
    {
      var al := GetAl();
      var aDl := GetADl();
      bl, bsl := ZeroMessages(trunc);
      BackwardPass(trunc, bl, bsl, al, aDl);
      LastRowZero(pass, trunc, bl, bsl);
    }

    /** self.betal = betal = zeros((T, state_dim)), likewise betastarl. */
    method ZeroMessages(trunc: nat) returns (bl: array2<Score>, bsl: array2<Score>)
      requires Valid() && 0 < T && 0 < trunc
      modifies this`betal, this`betastarl
      ensures fresh(bl) && fresh(bsl) && bl != bsl && betal == bl && betastarl == bsl
      ensures BackwardFrom(pass, trunc, bl, bsl, T)
    {
      bl := new Score[T, model.StateDim()]((_, _) => Fin(0.0));
      bsl := new Score[T, model.StateDim()]((_, _) => Fin(0.0));
      betal, betastarl := bl, bsl;
    }

    /** messages_backwards' loop: t runs down from T - 1 to 0. */
    method BackwardPass(trunc: nat, bl: array2<Score>, bsl: array2<Score>, al: Table, aDl: Table)
      requires Valid() && al == pass.al && aDl == pass.aDl && bl != bsl
      requires BackwardFrom(pass, trunc, bl, bsl, T)
      modifies this`alphaCache, this`aBlCache, this`dlCache, bl, bsl
      ensures Valid() && aBlCache.Some? && BackwardFrom(pass, trunc, bl, bsl, 0)
    {
      var t: nat := T;
      while t > 0
        invariant t <= T && Valid() && (t < T ==> aBlCache.Some?)
        invariant BackwardFrom(pass, trunc, bl, bsl, t)
      {
        t := t - 1;
        BackwardStep(trunc, bl, bsl, al, aDl, t);
      }
    }

    /** One turn of messages_backwards' loop at t: betastarl[t] from the
        cumulative table of [t, t + trunc), then betal[t - 1] from it. */
    method BackwardStep(trunc: nat, bl: array2<Score>, bsl: array2<Score>, al: Table, aDl: Table, t: nat)
      requires Valid() && al == pass.al && aDl == pass.aDl && bl != bsl
      requires BackwardFrom(pass, trunc, bl, bsl, t + 1)
      modifies this`alphaCache, this`aBlCache, this`dlCache, bl, bsl
      ensures Valid() && pass == old(pass) && aBlCache.Some?
      ensures BackwardFrom(pass, trunc, bl, bsl, t)
    {
      var cum := CumulativeLikelihoods(t, t + trunc);
      assert cum.Length0 == Window(T, trunc, t);
      BetaStarRow(pass, trunc, bl, bsl, cum, aDl, num.logAdd, t);
      BetaRow(pass, trunc, bl, bsl, al, num.logAdd, t);
    }

    /** p_d for the run [idx, idx + dur + 1) of word `state`, given its prior:
        the message term of the block's likelihood times the prior. */
    method RunMass(bl: array2<Score>, bsl: array2<Score>, ghost blv: Table, ghost bslv: Table,
                   idx: nat, state: nat, dur: nat, prior: real)
      returns (pd: real)
      requires Valid() && Messages(pass, bl, bsl, blv, bslv)
      requires idx + dur < T && state < model.StateDim() && prior == Prior(pass, state, dur)
      modifies this`alphaCache, this`aBlCache, this`dlCache
      ensures Valid()
      ensures pd == DurationMass(pass, blv, bslv, idx, state, dur)
    {
      var b, bs := bl[idx + dur, state], bsl[idx, state];
      assert b == blv[idx + dur][state] && bs == bslv[idx][state];
      var word := model.wordList[state];
      assert word == pass.words[state] && num == pass.num;
      var loglik := LikelihoodBlockWord(idx, idx + dur + 1, word);
      pd := num.messTerm(loglik, b, bs) * prior;
    }

    /** sample_forwards' inner loop for the run starting at idx with word
        `state`: from dur = len(word) - 1, raise dur while the threshold
        durprob stays positive, skipping durations of prior zero and
        subtracting p_d for each that fits before T; the first that does not
        fit ends the loop one further on. */
    method DrawRunDuration(bl: array2<Score>, bsl: array2<Score>, ghost blv: Table, ghost bslv: Table,
                           aDl: Table, idx: nat, state: nat, durprob0: real)
      returns (dur: nat)
      requires Valid() && aDl == pass.aDl && Messages(pass, bl, bsl, blv, bslv)
      requires idx < T && state < model.StateDim()
      modifies this`alphaCache, this`aBlCache, this`dlCache
      ensures Valid()
      ensures dur == DrawDuration(pass, blv, bslv, idx, state, |pass.words[state]| - 1, durprob0)
    {
      var word := model.wordList[state];
      ghost var target := DrawDuration(pass, blv, bslv, idx, state, |word| - 1, durprob0);
      dur := |word| - 1;
      var durprob := durprob0;
      while durprob > 0.0
        invariant Valid()
        invariant DrawDuration(pass, blv, bslv, idx, state, dur, durprob) == target
        decreases T - dur
      {
        var stop;
        dur, durprob, stop := DurationTurn(bl, bsl, blv, bslv, aDl, idx, state, dur, durprob);
        if stop {
          break;
        }
      }
    }

    /** One turn of the inner loop with threshold left: a zero prior skips, a
        duration that fits before T consumes p_d, and one that does not fit
        stops the loop one further on. */
    method DurationTurn(bl: array2<Score>, bsl: array2<Score>, ghost blv: Table, ghost bslv: Table,
                        aDl: Table, idx: nat, state: nat, dur: nat, durprob: real)
      returns (dur': nat, durprob': real, stop: bool)
      requires Valid() && aDl == pass.aDl && Messages(pass, bl, bsl, blv, bslv)
      requires idx < T && state < model.StateDim() && 0.0 < durprob
      modifies this`alphaCache, this`aBlCache, this`dlCache
      ensures Valid()
      ensures dur' == dur + 1 && (!stop ==> dur < T)
      ensures stop == (Prior(pass, state, dur) != 0.0 && T <= idx + dur)
      ensures durprob' == if Prior(pass, state, dur) != 0.0 && idx + dur < T
                          then durprob - DurationMass(pass, blv, bslv, idx, state, dur) else durprob
      ensures DrawDuration(pass, blv, bslv, idx, state, dur, durprob)
           == if stop then dur' else DrawDuration(pass, blv, bslv, idx, state, dur', durprob')
    {
      var prior := if dur < T then num.exp(aDl[dur][state]) else 1.0;
      dur', durprob', stop := dur + 1, durprob, false;
      var pd := 0.0;
      if prior == 0.0 {
      } else if idx + dur < T {
        pd := RunMass(bl, bsl, blv, bslv, idx, state, dur, prior);
        durprob' := durprob - pd;
      } else {
        stop := true;
      }
      DrawDurationTurn(pass, blv, bslv, idx, state, dur, durprob, prior, pd, durprob', stop);
    }

    /** sample_forwards: from idx = 0, draw a word and a duration per run,
        stop at the first run that fails the duration assertions (ok is then
        false), otherwise paint stateseq[idx:idx+dur] with the word and record
        the run, until idx reaches T. */
    method SampleForwards(bl: array2<Score>, bsl: array2<Score>, draws: Draws) returns (ok: bool)
      requires Valid() && Shaped(bl, T, model.StateDim()) && Shaped(bsl, T, model.StateDim())
      requires draws.Valid(model.StateDim())
      modifies this`stateseq, this`stateRanges, this`aDlCache, this`alphaCache, this`aBlCache, this`dlCache
      ensures Valid() && aDlCache.Some?
      ensures fresh(stateseq) && stateseq.Length == T
      ensures ok == Sample(pass, Rows(bl), Rows(bsl), draws, 0, 0).ok
      ensures stateRanges == Some(Sample(pass, Rows(bl), Rows(bsl), draws, 0, 0).runs)
      ensures stateseq[..] == Painted(Sample(pass, Rows(bl), Rows(bsl), draws, 0, 0).runs, T)
    {
      ghost var blv, bslv := Rows(bl), Rows(bsl);
      var aDl := GetADl();
      var states := new int[T](_ => 0);
      stateseq := states;
      stateRanges := Some([]);
      ghost var whole := Sample(pass, blv, bslv, draws, 0, 0);
      ResumeAtStart(pass, blv, bslv, draws);
      var runs;
      assert states[..] == Painted([], T);
      ok, runs := SampleRuns(bl, bsl, blv, bslv, aDl, draws, states, whole);
    }

    /** sample_forwards' outer loop, from idx = 0 with no run recorded: run
        after run until idx reaches T or a run fails the duration assertions. */
    method SampleRuns(bl: array2<Score>, bsl: array2<Score>, ghost blv: Table, ghost bslv: Table,
                      aDl: Table, draws: Draws, states: array<int>, ghost whole: Trace)
      returns (ok: bool, runs: seq<Run>)
      requires Valid() && aDlCache == Some(aDl) && aDl == pass.aDl && Messages(pass, bl, bsl, blv, bslv)
      requires draws.Valid(model.StateDim())
      requires stateseq == states && states.Length == T
      requires stateRanges == Some([]) && states[..] == Painted([], T)
      requires whole == Resume(pass, blv, bslv, draws, [], 0, 0)
      modifies this`alphaCache, this`aBlCache, this`dlCache, this`stateRanges, states
      ensures Valid() && aDlCache == old(aDlCache)
      ensures stateRanges == Some(runs) && states[..] == Painted(runs, T)
      ensures whole == Trace(runs, ok)
    {
      var idx: nat := 0;
      var k: nat := 0;
      ok, runs := true, [];
      while ok && idx < T
        invariant Valid() && aDlCache == Some(aDl) && Messages(pass, bl, bsl, blv, bslv)
        invariant stateRanges == Some(runs) && states[..] == Painted(runs, T)
        invariant whole == if ok then Resume(pass, blv, bslv, draws, runs, k, idx) else Trace(runs, false)
        decreases T - idx, ok
      {
        ok, k, idx, runs := SampleRun(bl, bsl, blv, bslv, aDl, draws, states, k, idx, runs, whole);
      }
      if ok {
        ResumeAtEnd(pass, blv, bslv, draws, runs, k, idx);
      }
    }

    /** One turn of sample_forwards' outer loop: draw run k at idx; if it
        passes the duration assertions, paint stateseq[idx:idx+dur] with its
        word and record it. */
    method SampleRun(bl: array2<Score>, bsl: array2<Score>, ghost blv: Table, ghost bslv: Table,
                     aDl: Table, draws: Draws, states: array<int>, k: nat, idx: nat, runs: seq<Run>, ghost whole: Trace)
      returns (ok: bool, k': nat, idx': nat, runs': seq<Run>)
      requires Valid() && aDl == pass.aDl && Messages(pass, bl, bsl, blv, bslv)
      requires draws.Valid(model.StateDim()) && idx < T
      requires stateseq == states && states.Length == T
      requires stateRanges == Some(runs) && states[..] == Painted(runs, T)
      requires whole == Resume(pass, blv, bslv, draws, runs, k, idx)
      modifies this`alphaCache, this`aBlCache, this`dlCache, this`stateRanges, states
      ensures Valid() && aDlCache == old(aDlCache)
      ensures stateRanges == Some(runs') && states[..] == Painted(runs', T)
      ensures whole == if ok then Resume(pass, blv, bslv, draws, runs', k', idx') else Trace(runs', false)
      ensures ok ==> Fits(pass.words, Run(draws.state(k), idx, idx'))
      ensures ok ==> k' == k + 1 && runs' == runs + [Run(draws.state(k), idx, idx')]
      ensures !ok ==> k' == k && idx' == idx && runs' == runs
    {
      var run;
      ok, run := DrawRun(bl, bsl, blv, bslv, aDl, draws, k, idx, runs);
      k', idx', runs' := k, idx, runs;
      if ok {
        PaintRun(states, run);
        PaintedSnoc(runs, run, T);
        runs' := runs + [run];
        stateRanges := Some(runs');
        k', idx' := k + 1, run.hi;
      }
    }

    /** One turn of sample_forwards' outer loop, for run k at idx: draw the
        run's duration and test it against the duration assertions. A run
        that passes them moves the loop on to run k + 1 at idx + dur without
        changing the rest of the pass (Resume); one that fails ends it. */
    method DrawRun(bl: array2<Score>, bsl: array2<Score>, ghost blv: Table, ghost bslv: Table,
                   aDl: Table, draws: Draws, k: nat, idx: nat, ghost runs: seq<Run>)
      returns (fits: bool, run: Run)
      requires Valid() && aDl == pass.aDl && Messages(pass, bl, bsl, blv, bslv)
      requires draws.Valid(model.StateDim()) && idx < T
      modifies this`alphaCache, this`aBlCache, this`dlCache
      ensures Valid() && aDlCache == old(aDlCache)
      ensures run.state == draws.state(k) && run.lo == idx && idx <= run.hi
      ensures fits == Fits(pass.words, run)
      ensures fits ==> Resume(pass, blv, bslv, draws, runs + [run], k + 1, run.hi) == Resume(pass, blv, bslv, draws, runs, k, idx)
      ensures !fits ==> Resume(pass, blv, bslv, draws, runs, k, idx) == Trace(runs, false)
    {
      var state := draws.state(k);
      var word := model.wordList[state];
      var dur := DrawRunDuration(bl, bsl, blv, bslv, aDl, idx, state, draws.threshold(k));
      run := Run(state, idx, idx + dur);
      ResumeStep(pass, blv, bslv, draws, runs, k, idx, run);
      fits := Fits(model.wordList, run);
    }

    /** resample: drop every cache, run the backward pass with the default
        horizon, then sample forwards. Every table the pass reads is built from
        the current model: no table cached before the call survives it. */
    method Resample(draws: Draws) returns (ok: bool)
      requires WellFormed() && 0 < T && draws.Valid(model.StateDim())
      modifies this`alCache, this`aDlCache, this`aBlCache, this`dlCache, this`alphaCache,
               this`durationsCache, this`stateseqNorepCache, this`stateRanges, this`pass,
               this`betal, this`betastarl, this`stateseq
      ensures Valid() && pass == Fresh()
      ensures durationsCache.None? && stateseqNorepCache.None?
      ensures alCache == Some(pass.al) && aDlCache == Some(pass.aDl)
      ensures betal != null && betastarl != null && fresh(betal) && fresh(betastarl)
      ensures Shaped(betal, T, model.StateDim()) && Shaped(betastarl, T, model.StateDim())
      ensures forall t, w {:trigger betal[t, w]} :: 0 <= t < T && 0 <= w < model.StateDim() ==>
                betal[t, w] == Beta(pass, DefaultTrunc, t, w)
      ensures forall t, w {:trigger betastarl[t, w]} :: 0 <= t < T && 0 <= w < model.StateDim() ==>
                betastarl[t, w] == BetaStar(pass, DefaultTrunc, t, w)
      ensures fresh(stateseq) && stateseq.Length == T
      ensures ok == Sample(pass, Rows(betal), Rows(betastarl), draws, 0, 0).ok
      ensures stateRanges == Some(Sample(pass, Rows(betal), Rows(betastarl), draws, 0, 0).runs)
      ensures stateseq[..] == Painted(Sample(pass, Rows(betal), Rows(betastarl), draws, 0, 0).runs, T)
    {
      ClearCaches();
      var bl, bsl := MessagesBackwards(DefaultTrunc);
      ok := SampleForwards(bl, bsl, draws);
    }
  }

  /** A table whose column w is the last column of word w's table over
      [start, start + rows) holds in row k the score of word w over
      [start, start + k + 1). */
  lemma LastColumnsAreBlockScores(tb: Tables, ret: array2<Score>, start: nat)
    requires tb.Valid() && 0 < ret.Length0 && start + ret.Length0 <= tb.T && ret.Length1 == |tb.words|
    requires forall k, w {:trigger ret[k, w]} :: 0 <= k < ret.Length0 && 0 <= w < ret.Length1 ==>
               ret[k, w] == Alpha(tb, start, ret.Length0, tb.words[w], k, |tb.words[w]| - 1)
    ensures forall k, w {:trigger ret[k, w]} :: 0 <= k < ret.Length0 && 0 <= w < ret.Length1 ==>
              ret[k, w] == BlockScore(tb, start, start + k + 1, tb.words[w])
  {
    forall k, w | 0 <= k < ret.Length0 && 0 <= w < ret.Length1
      ensures ret[k, w] == BlockScore(tb, start, start + k + 1, tb.words[w])
    {
      LastColumnIsBlockScore(tb, start, ret.Length0, tb.words[w], k);
    }
  }

  /** The three ways one turn of the inner loop can go, in terms of the
      prior and p_d the method computed. */
  lemma DrawDurationTurn(tb: Tables, bl: Table, bsl: Table, idx: nat, state: nat, dur: nat,
                         durprob: real, prior: real, pd: real, durprob': real, stop: bool)
    requires SamplerArgs(tb, bl, bsl) && idx < tb.T && state < |tb.words| && 0.0 < durprob
    requires prior == Prior(tb, state, dur)
    requires prior != 0.0 && idx + dur < tb.T ==> pd == DurationMass(tb, bl, bsl, idx, state, dur)
    requires stop == (prior != 0.0 && tb.T <= idx + dur)
    requires durprob' == if prior != 0.0 && idx + dur < tb.T then durprob - pd else durprob
    ensures !stop ==> dur < tb.T
    ensures DrawDuration(tb, bl, bsl, idx, state, dur, durprob)
         == if stop then dur + 1 else DrawDuration(tb, bl, bsl, idx, state, dur + 1, durprob')
  {
    if prior == 0.0 {
      DrawDurationSkip(tb, bl, bsl, idx, state, dur, durprob);
    } else if idx + dur < tb.T {
      DrawDurationConsume(tb, bl, bsl, idx, state, dur, durprob);
    } else {
      DrawDurationStop(tb, bl, bsl, idx, state, dur, durprob);
    }
  }

  predicate Shaped(a: array2<Score>, rows: nat, cols: nat)
  {
    a.Length0 == rows && a.Length1 == cols
  }

  /** The message arrays of a pass have its shape and read as blv and bslv. */
  ghost predicate Messages(tb: Tables, bl: array2<Score>, bsl: array2<Score>, blv: Table, bslv: Table)
    reads bl, bsl
  {
    && tb.Valid() && Shaped(bl, tb.T, |tb.words|) && Shaped(bsl, tb.T, |tb.words|)
    && blv == Rows(bl) && bslv == Rows(bsl)
  }

  /** A message array read as a table of rows. */
  ghost function Rows(a: array2<Score>): (m: Table)
    reads a
    ensures IsMatrix(m, a.Length0, a.Length1)
    ensures forall i, j :: 0 <= i < a.Length0 && 0 <= j < a.Length1 ==> m[i][j] == a[i, j]
  {
    seq(a.Length0, i requires 0 <= i < a.Length0 reads a =>
      seq(a.Length1, j requires 0 <= j < a.Length1 reads a => a[i, j]))
  }

  /** Column w of betal[t:t+trunc] + cumulative_likelihoods(t, t + trunc)
      + aDl[:min(trunc, T - t)]: the operands the backward loop log-adds into
      betastarl[t, w]. */
  function WindowTerms(bl: array2<Score>, cum: array2<Score>, aDl: Table, t: nat, w: nat): (s: seq<Score>)
    reads bl, cum
    requires t + cum.Length0 <= bl.Length0 && cum.Length0 <= |aDl| && w < bl.Length1 && w < cum.Length1
    requires forall k :: 0 <= k < |aDl| ==> w < |aDl[k]|
    ensures |s| == cum.Length0
  {
    seq(cum.Length0, k requires 0 <= k < cum.Length0 reads bl, cum =>
      Add(Add(bl[t + k, w], cum[k, w]), aDl[k][w]))
  }

  /** Row w of betastarl[t] + Al: the operands the backward loop log-adds
      into betal[t - 1, w]. */
  function NextTerms(bsl: array2<Score>, al: Table, t: nat, w: nat): (s: seq<Score>)
    reads bsl
    requires t < bsl.Length0 && w < |al| && |al[w]| == bsl.Length1
    ensures |s| == bsl.Length1
  {
    seq(bsl.Length1, w2 requires 0 <= w2 < bsl.Length1 reads bsl => Add(bsl[t, w2], al[w][w2]))
  }

  /** With betal right from row t on and the cumulative table of [t, t + trunc),
      the window's operands are those BetaStar reduces. */
  lemma WindowTermsAreBetaStarTerms(tb: Tables, trunc: nat, bl: array2<Score>, cum: array2<Score>, t: nat, w: nat)
    requires tb.Valid() && 0 < trunc && t < tb.T && w < |tb.words|
    requires Shaped(bl, tb.T, |tb.words|) && Shaped(cum, Window(tb.T, trunc, t), |tb.words|)
    requires forall k :: 0 <= k < cum.Length0 ==>
               cum[k, w] == Alpha(tb, t, Min(tb.T, t + trunc) - t, tb.words[w], k, |tb.words[w]| - 1)
    requires forall r :: t <= r < tb.T ==> bl[r, w] == Beta(tb, trunc, r, w)
    ensures WindowTerms(bl, cum, tb.aDl, t, w) == BetaStarTerms(tb, trunc, t, w)
  {
    var got := WindowTerms(bl, cum, tb.aDl, t, w);
    var want := BetaStarTerms(tb, trunc, t, w);
    forall k | 0 <= k < cum.Length0
      ensures got[k] == want[k]
    {
      assert want[k] == BetaStarTerm(tb, trunc, t, w, k);
    }
  }

  /** With betastarl right on row t, row w of betastarl[t] + Al holds the
      operands Beta reduces at t - 1. */
  lemma NextTermsAreBetaTerms(tb: Tables, trunc: nat, bsl: array2<Score>, t: nat, w: nat)
    requires tb.Valid() && 0 < trunc && 0 < t < tb.T && w < |tb.words|
    requires Shaped(bsl, tb.T, |tb.words|)
    requires forall w2 :: 0 <= w2 < |tb.words| ==> bsl[t, w2] == BetaStar(tb, trunc, t, w2)
    ensures NextTerms(bsl, tb.al, t, w) == BetaTerms(tb, trunc, t - 1, w)
  {
    var got := NextTerms(bsl, tb.al, t, w);
    var want := BetaTerms(tb, trunc, t - 1, w);
    forall w2 | 0 <= w2 < |tb.words|
      ensures got[w2] == want[w2]
    {
    }
  }

  /** The tables a pass over `data` reads: each cached table, or the one its
      first read will build and keep. */
  ghost predicate PassOf(tb: Tables, model: Model, data: seq<Observation>, num: Numerics,
                         alCache: Option<Table>, aDlCache: Option<Table>,
                         aBlCache: Option<Table>, dlCache: Option<Table>)
    requires model.Valid()
  {
    tb == Tables(|data|, model.wordList, model.letterDim, num,
                 Memo(alCache, AlTable(model, num)), Memo(aDlCache, ADlTable(model, |data|)),
                 Memo(aBlCache, ABlTable(model, data)), Memo(dlCache, DlTable(model, |data|)))
  }

  /** stateseq[idx:idx+dur] = state: the slice is clipped to the array. */
  method PaintRun(painted: array<int>, r: Run)
    modifies painted
    ensures painted[..] == Paint(old(painted[..]), r)
  {
    forall p | r.lo <= p < painted.Length && p < r.hi {
      painted[p] := r.state;
    }
  }

  /** Painting one more run paints over the runs before it. */
  lemma PaintedSnoc(runs: seq<Run>, r: Run, T: nat)
    ensures Painted(runs + [r], T) == Paint(Painted(runs, T), r)
  {
    assert (runs + [r])[..|runs|] == runs;
  }

  /** The backward loop's invariant on entry with t: betastarl is right on
      rows t.., betal on rows t - 1.. except the last, which still holds its
      initial zero while t > 0. */
  ghost predicate BackwardFrom(tb: Tables, trunc: nat, bl: array2<Score>, bsl: array2<Score>, t: nat)
    reads bl, bsl
  {
    && tb.Valid() && 0 < trunc && 0 < tb.T && t <= tb.T
    && Shaped(bl, tb.T, |tb.words|) && Shaped(bsl, tb.T, |tb.words|)
    && (forall r, w :: t <= r < tb.T && 0 <= w < |tb.words| ==> bsl[r, w] == BetaStar(tb, trunc, r, w))
    && (forall r, w :: 0 <= r && t <= r + 1 < tb.T && 0 <= w < |tb.words| ==> bl[r, w] == Beta(tb, trunc, r, w))
    && (0 < t ==> forall r, w :: r + 1 == tb.T && 0 <= w < |tb.words| ==> bl[r, w] == Fin(0.0))
  }

  /** betastarl[t] = logaddexp.reduce(betal[t:t+trunc] + cum + aDl[:min(trunc, T-t)], axis = 0). */
  method BetaStarRow(ghost tb: Tables, trunc: nat, bl: array2<Score>, bsl: array2<Score>,
                     cum: array2<Score>, aDl: Table, logAdd: (Score, Score) -> Score, t: nat)
    requires BackwardFrom(tb, trunc, bl, bsl, t + 1) && aDl == tb.aDl && logAdd == tb.num.logAdd
    requires bl != bsl && cum != bsl && Shaped(cum, Window(tb.T, trunc, t), |tb.words|)
    requires forall k, w :: 0 <= k < cum.Length0 && 0 <= w < |tb.words| ==>
               cum[k, w] == Alpha(tb, t, Min(tb.T, t + trunc) - t, tb.words[w], k, |tb.words[w]| - 1)
    modifies bsl
    ensures BackwardFrom(tb, trunc, bl, bsl, t + 1)
    ensures forall w :: 0 <= w < |tb.words| ==> bsl[t, w] == BetaStar(tb, trunc, t, w)
  {
    forall w | 0 <= w < |tb.words|
      ensures LogSum(logAdd, WindowTerms(bl, cum, aDl, t, w)) == BetaStar(tb, trunc, t, w)
    {
      BetalFrom(tb, trunc, bl, bsl, t, w);
      WindowTermsAreBetaStarTerms(tb, trunc, bl, cum, t, w);
    }
    forall w | 0 <= w < bsl.Length1 {
      bsl[t, w] := LogSum(logAdd, WindowTerms(bl, cum, aDl, t, w));
    }
  }

  /** Before row t of betastarl is filled, betal is right on rows t and after. */
  lemma BetalFrom(tb: Tables, trunc: nat, bl: array2<Score>, bsl: array2<Score>, t: nat, w: nat)
    requires BackwardFrom(tb, trunc, bl, bsl, t + 1) && w < |tb.words|
    ensures forall r :: t <= r < tb.T ==> bl[r, w] == Beta(tb, trunc, r, w)
  {
    forall r | t <= r < tb.T
      ensures bl[r, w] == Beta(tb, trunc, r, w)
    {
      if r + 1 == tb.T {
        assert bl[r, w] == Fin(0.0);
      }
    }
  }

  /** betal[t - 1] = logaddexp.reduce(betastarl[t] + Al, axis = 1); at t == 0
      the row written is the last. */
  method BetaRow(ghost tb: Tables, trunc: nat, bl: array2<Score>, bsl: array2<Score>,
                 al: Table, logAdd: (Score, Score) -> Score, t: nat)
    requires BackwardFrom(tb, trunc, bl, bsl, t + 1) && al == tb.al && logAdd == tb.num.logAdd
    requires bl != bsl && forall w :: 0 <= w < |tb.words| ==> bsl[t, w] == BetaStar(tb, trunc, t, w)
    modifies bl
    ensures BackwardFrom(tb, trunc, bl, bsl, t)
  {
    var prev := PyIndex(t - 1, bl.Length0);
    forall w | 0 <= w < bl.Length1 {
      bl[prev, w] := LogSum(logAdd, NextTerms(bsl, al, t, w));
    }
    if 0 < t {
      forall w | 0 <= w < |tb.words|
        ensures bl[prev, w] == Beta(tb, trunc, prev, w)
      {
        NextTermsAreBetaTerms(tb, trunc, bsl, t, w);
      }
    }
  }

  /** betal[-1] = 0.0, after which both tables are right everywhere. */
  method LastRowZero(ghost tb: Tables, trunc: nat, bl: array2<Score>, bsl: array2<Score>)
    requires BackwardFrom(tb, trunc, bl, bsl, 0) && bl != bsl
    modifies bl
    ensures forall r, w :: 0 <= r < tb.T && 0 <= w < |tb.words| ==>
              bl[r, w] == Beta(tb, trunc, r, w) && bsl[r, w] == BetaStar(tb, trunc, r, w)
  {
    var last := bl.Length0 - 1;
    forall w | 0 <= w < bl.Length1 {
      bl[last, w] := Fin(0.0);
    }
  }

  /** likelihood_block_word's loops over a table alpha that starts out all
      log 0: every cell ends up holding Alpha, and the cells outside the
      bands keep log 0. */
  method FillAlpha(ghost tb: Tables, alpha: array2<Score>, aBl: Table, dl: Table,
                   logAdd: (Score, Score) -> Score, start: nat, word: seq<nat>)
    requires BlockArgs(tb, start, alpha.Length0, word) && alpha.Length1 == |word|
    requires aBl == tb.aBl && logAdd == tb.num.logAdd && (|word| <= alpha.Length0 ==> dl == tb.dl)
    requires forall u, c :: 0 <= u < alpha.Length0 && 0 <= c < |word| ==> alpha[u, c] == NegInf
    modifies alpha
    ensures forall u, c :: 0 <= u < alpha.Length0 && 0 <= c < |word| ==>
              alpha[u, c] == Alpha(tb, start, alpha.Length0, word, u, c)
    ensures forall u, c :: (0 <= u < alpha.Length0 && 0 <= c < |word| &&
              !InBand(alpha.Length0, |word|, u, c)) ==> alpha[u, c] == NegInf
  {
    for j := 0 to |word|
      invariant forall u, c :: 0 <= u < alpha.Length0 && 0 <= c < j ==>
                  alpha[u, c] == Alpha(tb, start, alpha.Length0, word, u, c)
      invariant forall u, c :: 0 <= u < alpha.Length0 && j <= c < |word| ==> alpha[u, c] == NegInf
    {
      FillBand(tb, alpha, aBl, dl, logAdd, start, word, j);
    }
  }

  /** One pass of likelihood_block_word's column loop: writes column j of
      alpha at the offsets of its band, in order, and nothing else. */
  method FillBand(ghost tb: Tables, alpha: array2<Score>, aBl: Table, dl: Table,
                  logAdd: (Score, Score) -> Score, start: nat, word: seq<nat>, j: nat)
    requires BlockArgs(tb, start, alpha.Length0, word) && alpha.Length1 == |word| && j < |word|
    requires aBl == tb.aBl && logAdd == tb.num.logAdd && (|word| <= alpha.Length0 ==> dl == tb.dl)
    requires forall u, c :: 0 <= u < alpha.Length0 && 0 <= c < j ==>
               alpha[u, c] == Alpha(tb, start, alpha.Length0, word, u, c)
    requires forall u :: 0 <= u < alpha.Length0 ==> alpha[u, j] == NegInf
    modifies alpha
    ensures forall u :: 0 <= u < alpha.Length0 ==> alpha[u, j] == Alpha(tb, start, alpha.Length0, word, u, j)
    ensures forall u, c :: 0 <= u < alpha.Length0 && 0 <= c < alpha.Length1 && c != j ==>
              alpha[u, c] == old(alpha[u, c])
  {
    var tsize := alpha.Length0;
    var l := word[j];
    var t := j;
    while t < tsize - |word| + j + 1
      invariant j <= t && (t <= tsize - |word| + j + 1 || t == j)
      invariant forall u, c :: 0 <= u < tsize && 0 <= c < alpha.Length1 && c != j ==>
                  alpha[u, c] == old(alpha[u, c])
      invariant forall u :: 0 <= u < tsize && u < t ==> alpha[u, j] == Alpha(tb, start, tsize, word, u, j)
      invariant forall u :: t <= u < tsize ==> alpha[u, j] == NegInf
      decreases tsize - |word| + j + 1 - t
    {
      var v;
      if j == 0 {
        v := Add(EmitSum(aBl, l, start, start + t + 1), dl[t][l]);
      } else {
        CellTermsAreAlphaTerms(tb, alpha, start, word, t, j);
        v := LogSum(logAdd, CellTerms(alpha, aBl, dl, start, word, t, j));
      }
      assert v == Alpha(tb, start, tsize, word, t, j);
      alpha[t, j] := v;
      t := t + 1;
    }
  }

  /** The list likelihood_block_word log-adds into alpha[t, j] for j > 0: for
      each d in 0..t, the emission sum of letter j over the last d + 1 rows,
      its duration log-likelihood at d + 1, and alpha[t - d - 1, j - 1]. */
  function CellTerms(alpha: array2<Score>, aBl: Table, dl: Table, start: nat, word: seq<nat>, t: nat, j: nat)
    : (s: seq<Score>)
    reads alpha
    requires 0 < j < |word| == alpha.Length1 && t < alpha.Length0
    requires start + alpha.Length0 <= |aBl| && alpha.Length0 <= |dl|
    requires forall u :: 0 <= u < |aBl| ==> word[j] < |aBl[u]|
    requires forall u :: 0 <= u < |dl| ==> word[j] < |dl[u]|
    ensures |s| == t + 1
  {
    seq(t + 1, d requires 0 <= d < t + 1 reads alpha =>
      Add(Add(EmitSum(aBl, word[j], start + t - d, start + t + 1), dl[d][word[j]]),
          alpha[PyIndex(t - d - 1, alpha.Length0), j - 1]))
  }

  /** Once the columns before j hold their Alpha values, the list the method
      builds is the list Alpha reduces. */
  lemma CellTermsAreAlphaTerms(tb: Tables, alpha: array2<Score>, start: nat, word: seq<nat>, t: nat, j: nat)
    requires BlockArgs(tb, start, alpha.Length0, word)
    requires 0 < j < |word| == alpha.Length1 && t < alpha.Length0
    requires forall u, c :: 0 <= u < alpha.Length0 && 0 <= c < j ==>
               alpha[u, c] == Alpha(tb, start, alpha.Length0, word, u, c)
    ensures CellTerms(alpha, tb.aBl, tb.dl, start, word, t, j) == AlphaTerms(tb, start, alpha.Length0, word, t, j)
  {
    var got := CellTerms(alpha, tb.aBl, tb.dl, start, word, t, j);
    var want := AlphaTerms(tb, start, alpha.Length0, word, t, j);
    forall d | 0 <= d < t + 1
      ensures got[d] == want[d]
    {
      assert want[d] == AlphaTerm(tb, start, alpha.Length0, word, t, j, d);
    }
  }
}
