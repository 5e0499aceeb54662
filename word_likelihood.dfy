/** The letter-level dynamic program that scores one word occupying one
    time block: the table alpha[t, j] of likelihood_block_word, cell by cell,
    and what follows from its band limits. */
module WordLikelihood {
  import opened Scores
  import opened Tables

  /** np.sum(aBl[lo:hi, l]): letter l's emission scores summed over rows [lo, hi). */
  function EmitSum(aBl: Table, l: nat, lo: nat, hi: nat): Score
    requires lo <= hi <= |aBl| && forall u :: 0 <= u < |aBl| ==> l < |aBl[u]|
    decreases hi - lo
  {
    if lo == hi then Fin(0.0) else Add(EmitSum(aBl, l, lo, hi - 1), aBl[hi - 1][l])
  }

  /** Arguments under which the table of `word` over [start, start + tsize) exists. */
  ghost predicate BlockArgs(tb: Tables, start: nat, tsize: nat, word: seq<nat>)
  {
    tb.Valid() && WordOk(word, tb.letterDim) && start + tsize <= tb.T
  }

  /** The cells the loops write in column j: offsets j .. tsize - |word| + j. */
  predicate InBand(tsize: nat, wordLen: nat, t: nat, j: nat)
  {
    j <= t <= tsize - wordLen + j
  }

  /** alpha[t, j] once the table of `word` over [start, start + tsize) is filled. */
  ghost function Alpha(tb: Tables, start: nat, tsize: nat, word: seq<nat>, t: nat, j: nat): Score
    requires BlockArgs(tb, start, tsize, word) && t < tsize && j < |word|
    decreases j, 2
  {
    if !InBand(tsize, |word|, t, j) then NegInf
    else if j == 0 then Add(EmitSum(tb.aBl, word[0], start, start + t + 1), tb.dl[t][word[0]])
    else LogSum(tb.num.logAdd, AlphaTerms(tb, start, tsize, word, t, j))
  }

  /** The list the log-add reduces for alpha[t, j], j > 0: one operand per d in 0..t. */
  ghost function AlphaTerms(tb: Tables, start: nat, tsize: nat, word: seq<nat>, t: nat, j: nat): (s: seq<Score>)
    requires BlockArgs(tb, start, tsize, word) && t < tsize && 0 < j < |word|
    ensures |s| == t + 1
    decreases j, 1
  {
    seq(t + 1, d requires 0 <= d < t + 1 => AlphaTerm(tb, start, tsize, word, t, j, d))
  }

  /** The d-th operand of the log-add that fills alpha[t, j] for j > 0: letter j
      runs d + 1 steps ending at t, after letter j - 1 ends at t - d - 1.
      For d == t that row is -1, which numpy reads as the last row. */
  ghost function AlphaTerm(tb: Tables, start: nat, tsize: nat, word: seq<nat>, t: nat, j: nat, d: nat): Score
    requires BlockArgs(tb, start, tsize, word) && t < tsize && 0 < j < |word| && d <= t
    decreases j, 0
  {
    Add(Add(EmitSum(tb.aBl, word[j], start + t - d, start + t + 1), tb.dl[d][word[j]]),
        Alpha(tb, start, tsize, word, PyIndex(t - d - 1, tsize), j - 1))
  }

  /** What likelihood_block_word(start, stop, word) returns: alpha[-1, -1]. */
  ghost function BlockScore(tb: Tables, start: nat, stop: nat, word: seq<nat>): Score
    requires tb.Valid() && WordOk(word, tb.letterDim) && start < Min(tb.T, stop)
  {
    var tsize := Min(tb.T, stop) - start;
    Alpha(tb, start, tsize, word, tsize - 1, |word| - 1)
  }

  /** The wraparound read alpha[-1, j - 1] lies above column j - 1's band. */
  lemma WrapReadIsNegInf(tb: Tables, start: nat, tsize: nat, word: seq<nat>, j: nat)
    requires BlockArgs(tb, start, tsize, word) && 0 < j < |word| && 0 < tsize
    ensures Alpha(tb, start, tsize, word, tsize - 1, j - 1) == NegInf
  {
  }

  /** For j > 0 the wraparound operand d == t contributes nothing: alpha[t, j]
      is the log-add over run lengths 1..t only. */
  lemma AlphaWithoutWrap(tb: Tables, start: nat, tsize: nat, word: seq<nat>, t: nat, j: nat)
    requires BlockArgs(tb, start, tsize, word) && t < tsize && 0 < j < |word|
    requires InBand(tsize, |word|, t, j)
    ensures 0 < t
    ensures Alpha(tb, start, tsize, word, t, j)
         == LogSum(tb.num.logAdd, seq(t, d requires 0 <= d < t => AlphaTerm(tb, start, tsize, word, t, j, d)))
  {
    var all := AlphaTerms(tb, start, tsize, word, t, j);
    WrapReadIsNegInf(tb, start, tsize, word, j);
    assert all[t] == AlphaTerm(tb, start, tsize, word, t, j, t) == NegInf;
    LogSumDropLast(tb.num.logAdd, all);
    assert all[..t] == seq(t, d requires 0 <= d < t => AlphaTerm(tb, start, tsize, word, t, j, d));
  }

  /** A block shorter than the word cannot hold it: its score is log 0. */
  lemma ShortBlockIsNegInf(tb: Tables, start: nat, stop: nat, word: seq<nat>)
    requires tb.Valid() && WordOk(word, tb.letterDim) && start < Min(tb.T, stop)
    requires Min(tb.T, stop) - start < |word|
    ensures BlockScore(tb, start, stop, word) == NegInf
  {
  }

  /** A one-letter word over a one-step block scores that step's emission plus
      the letter's duration log-likelihood at 1. */
  lemma SingleStepScore(tb: Tables, start: nat, l: nat)
    requires tb.Valid() && l < tb.letterDim && start < tb.T
    ensures BlockScore(tb, start, start + 1, [l]) == Add(tb.aBl[start][l], tb.dl[0][l])
  {
    assert EmitSum(tb.aBl, l, start, start + 1) == Add(Fin(0.0), tb.aBl[start][l]);
  }

  /** Cells at or below the band top of a shorter block do not depend on the
      block's length: the longer table agrees with the shorter one there. */
  lemma {:induction false} AlphaPrefix(tb: Tables, start: nat, small: nat, big: nat, word: seq<nat>, t: nat, j: nat)
    requires BlockArgs(tb, start, big, word) && small <= big
    requires j < |word| && t < small && t <= small - |word| + j
    ensures Alpha(tb, start, small, word, t, j) == Alpha(tb, start, big, word, t, j)
    decreases j
  {
    if t >= j && j > 0 {
      var sm := AlphaTerms(tb, start, small, word, t, j);
      var bg := AlphaTerms(tb, start, big, word, t, j);
      forall d | 0 <= d < t + 1
        ensures sm[d] == bg[d]
      {
        assert sm[d] == AlphaTerm(tb, start, small, word, t, j, d);
        assert bg[d] == AlphaTerm(tb, start, big, word, t, j, d);
        if d < t {
          AlphaPrefix(tb, start, small, big, word, t - d - 1, j - 1);
        } else {
          WrapReadIsNegInf(tb, start, small, word, j);
          WrapReadIsNegInf(tb, start, big, word, j);
        }
      }
      assert sm == bg;
    }
  }

  /** A letter whose duration distribution gives every duration log 0 makes
      its whole column log 0: every operand of its cells adds a dl entry of
      that letter. */
  lemma ImpossibleLetterColumn(tb: Tables, start: nat, tsize: nat, word: seq<nat>, j0: nat, t: nat)
    requires BlockArgs(tb, start, tsize, word) && j0 < |word| && t < tsize
    requires forall d :: 0 <= d < tb.T ==> tb.dl[d][word[j0]] == NegInf
    ensures Alpha(tb, start, tsize, word, t, j0) == NegInf
  {
    if InBand(tsize, |word|, t, j0) && j0 > 0 {
      var terms := AlphaTerms(tb, start, tsize, word, t, j0);
      forall d | 0 <= d < t + 1
        ensures terms[d] == NegInf
      {
        assert terms[d] == AlphaTerm(tb, start, tsize, word, t, j0, d);
      }
      LogSumAllNegInf(tb.num.logAdd, terms);
    }
  }

  /** A column that is log 0 throughout keeps every later column log 0: each
      operand of a later cell adds a cell of the column before it. */
  lemma {:induction false} DeadColumnPropagates(tb: Tables, start: nat, tsize: nat, word: seq<nat>,
                                                j0: nat, t: nat, j: nat)
    requires BlockArgs(tb, start, tsize, word) && j0 <= j < |word| && t < tsize
    requires forall u :: 0 <= u < tsize ==> Alpha(tb, start, tsize, word, u, j0) == NegInf
    ensures Alpha(tb, start, tsize, word, t, j) == NegInf
    decreases j
  {
    if j > j0 && InBand(tsize, |word|, t, j) {
      var terms := AlphaTerms(tb, start, tsize, word, t, j);
      forall d | 0 <= d < t + 1
        ensures terms[d] == NegInf
      {
        assert terms[d] == AlphaTerm(tb, start, tsize, word, t, j, d);
        DeadColumnPropagates(tb, start, tsize, word, j0, PyIndex(t - d - 1, tsize), j - 1);
      }
      LogSumAllNegInf(tb.num.logAdd, terms);
    }
  }

  /** A word with a letter of no possible duration scores log 0 on every block. */
  lemma ImpossibleLetterBlock(tb: Tables, start: nat, stop: nat, word: seq<nat>, j0: nat)
    requires tb.Valid() && WordOk(word, tb.letterDim) && start < Min(tb.T, stop) && j0 < |word|
    requires forall d :: 0 <= d < tb.T ==> tb.dl[d][word[j0]] == NegInf
    ensures BlockScore(tb, start, stop, word) == NegInf
  {
    var tsize := Min(tb.T, stop) - start;
    forall u | 0 <= u < tsize
      ensures Alpha(tb, start, tsize, word, u, j0) == NegInf
    {
      ImpossibleLetterColumn(tb, start, tsize, word, j0, u);
    }
    DeadColumnPropagates(tb, start, tsize, word, j0, tsize - 1, |word| - 1);
  }

  /** Row k of the last column of a block's table is the score of the word
      occupying exactly the block's first k + 1 steps. */
  lemma LastColumnIsBlockScore(tb: Tables, start: nat, tsize: nat, word: seq<nat>, k: nat)
    requires BlockArgs(tb, start, tsize, word) && k < tsize
    ensures Alpha(tb, start, tsize, word, k, |word| - 1) == BlockScore(tb, start, start + k + 1, word)
  {
    AlphaPrefix(tb, start, k + 1, tsize, word, k, |word| - 1);
  }
}
