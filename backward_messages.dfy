/** The truncated backward recursion of messages_backwards, as functions of
    the pass's tables: betal[t, w] and betastarl[t, w]. */
module BackwardMessages {
  import opened Scores
  import opened Tables
  import opened WordLikelihood

  /** The rows the loop at t combines: betal[t:t+trunc], the cumulative table
      and aDl[:min(trunc, T-t)] all have this many. */
  function Window(T: nat, trunc: nat, t: nat): nat
    requires t < T
  {
    Min(trunc, T - t)
  }

  /** Row k, column w of cumulative_likelihoods(t, t + trunc): the last column
      of word w's table over [t, t + trunc) clipped to T. */
  ghost function Cum(tb: Tables, trunc: nat, t: nat, k: nat, w: nat): Score
    requires tb.Valid() && t < tb.T && w < |tb.words| && k < Window(tb.T, trunc, t)
  {
    var word := tb.words[w];
    Alpha(tb, t, Min(tb.T, t + trunc) - t, word, k, |word| - 1)
  }

  /** betal[t, w]: zero on the last row, otherwise the log-add over the next
      word w2 of betastarl[t + 1, w2] + Al[w, w2]. */
  ghost function Beta(tb: Tables, trunc: nat, t: nat, w: nat): Score
    requires tb.Valid() && 0 < trunc && t < tb.T && w < |tb.words|
    decreases tb.T - t, 1
  {
    if t == tb.T - 1 then Fin(0.0) else LogSum(tb.num.logAdd, BetaTerms(tb, trunc, t, w))
  }

  /** The operands of betal[t, w] for t < T - 1, one per next word. */
  ghost function BetaTerms(tb: Tables, trunc: nat, t: nat, w: nat): (s: seq<Score>)
    requires tb.Valid() && 0 < trunc && t < tb.T - 1 && w < |tb.words|
    ensures |s| == |tb.words|
    decreases tb.T - t, 0
  {
    seq(|tb.words|, w2 requires 0 <= w2 < |tb.words| => Add(BetaStar(tb, trunc, t + 1, w2), tb.al[w][w2]))
  }

  /** betastarl[t, w]: the log-add over k < min(trunc, T - t) of
      betal[t + k, w] + cumulative row k + aDl[k, w]. */
  ghost function BetaStar(tb: Tables, trunc: nat, t: nat, w: nat): Score
    requires tb.Valid() && 0 < trunc && t < tb.T && w < |tb.words|
    decreases tb.T - t, 4
  {
    LogSum(tb.num.logAdd, BetaStarTerms(tb, trunc, t, w))
  }

  ghost function BetaStarTerms(tb: Tables, trunc: nat, t: nat, w: nat): (s: seq<Score>)
    requires tb.Valid() && 0 < trunc && t < tb.T && w < |tb.words|
    ensures |s| == Window(tb.T, trunc, t)
    decreases tb.T - t, 3
  {
    seq(Window(tb.T, trunc, t), k requires 0 <= k < Window(tb.T, trunc, t) => BetaStarTerm(tb, trunc, t, w, k))
  }

  ghost function BetaStarTerm(tb: Tables, trunc: nat, t: nat, w: nat, k: nat): Score
    requires tb.Valid() && 0 < trunc && t < tb.T && w < |tb.words| && k < Window(tb.T, trunc, t)
    decreases tb.T - t, 2
  {
    Add(Add(Beta(tb, trunc, t + k, w), Cum(tb, trunc, t, k, w)), tb.aDl[k][w])
  }

  /** One operand of betastarl[t, w], with the cumulative row read as a block score. */
  ghost function DurationTerm(tb: Tables, trunc: nat, t: nat, w: nat, k: nat): Score
    requires tb.Valid() && 0 < trunc && t < tb.T && w < |tb.words| && k < Window(tb.T, trunc, t)
  {
    Add(Add(Beta(tb, trunc, t + k, w), BlockScore(tb, t, t + k + 1, tb.words[w])), tb.aDl[k][w])
  }

  ghost function DurationTerms(tb: Tables, trunc: nat, t: nat, w: nat): (s: seq<Score>)
    requires tb.Valid() && 0 < trunc && t < tb.T && w < |tb.words|
    ensures |s| == Window(tb.T, trunc, t)
  {
    seq(Window(tb.T, trunc, t), k requires 0 <= k < Window(tb.T, trunc, t) => DurationTerm(tb, trunc, t, w, k))
  }

  /** The cumulative table computes what the recursion means: row d - 1 is the
      score of word w occupying exactly [t, t + d), so betastarl[t, w] log-adds,
      over durations d in 1..min(trunc, T - t), betal[t + d - 1, w] plus that
      block score plus aDl[d - 1, w]. */
  lemma BetaStarOverDurations(tb: Tables, trunc: nat, t: nat, w: nat)
    requires tb.Valid() && 0 < trunc && t < tb.T && w < |tb.words|
    ensures BetaStar(tb, trunc, t, w) == LogSum(tb.num.logAdd, DurationTerms(tb, trunc, t, w))
  {
    var n := Window(tb.T, trunc, t);
    var lhs := BetaStarTerms(tb, trunc, t, w);
    var rhs := DurationTerms(tb, trunc, t, w);
    forall k | 0 <= k < n
      ensures lhs[k] == rhs[k]
    {
      assert lhs[k] == BetaStarTerm(tb, trunc, t, w, k);
      assert rhs[k] == DurationTerm(tb, trunc, t, w, k);
      LastColumnIsBlockScore(tb, t, Min(tb.T, t + trunc) - t, tb.words[w], k);
    }
    assert lhs == rhs;
  }

  /** With horizons of at least T, betal[t, w] agrees once betastarl[t + 1]
      does. */
  lemma BetaAgrees(tb: Tables, trunc1: nat, trunc2: nat, t: nat, w: nat)
    requires tb.Valid() && tb.T <= trunc1 && tb.T <= trunc2 && t < tb.T && w < |tb.words|
    requires forall r, w2 :: t < r < tb.T && 0 <= w2 < |tb.words| ==>
               BetaStar(tb, trunc1, r, w2) == BetaStar(tb, trunc2, r, w2)
    ensures Beta(tb, trunc1, t, w) == Beta(tb, trunc2, t, w)
  {
    if t < tb.T - 1 {
      var next1 := BetaTerms(tb, trunc1, t, w);
      var next2 := BetaTerms(tb, trunc2, t, w);
      assert forall w2 :: 0 <= w2 < |tb.words| ==> next1[w2] == next2[w2];
      assert next1 == next2;
    }
  }

  /** With horizons of at least T, betastarl[t, w] agrees once betal[t:, w]
      does: both windows run to T. */
  lemma BetaStarAgrees(tb: Tables, trunc1: nat, trunc2: nat, t: nat, w: nat)
    requires tb.Valid() && tb.T <= trunc1 && tb.T <= trunc2 && t < tb.T && w < |tb.words|
    requires forall r :: t <= r < tb.T ==> Beta(tb, trunc1, r, w) == Beta(tb, trunc2, r, w)
    ensures BetaStar(tb, trunc1, t, w) == BetaStar(tb, trunc2, t, w)
  {
    var terms1 := BetaStarTerms(tb, trunc1, t, w);
    var terms2 := BetaStarTerms(tb, trunc2, t, w);
    forall k | 0 <= k < tb.T - t
      ensures terms1[k] == terms2[k]
    {
      assert terms1[k] == BetaStarTerm(tb, trunc1, t, w, k);
      assert terms2[k] == BetaStarTerm(tb, trunc2, t, w, k);
      assert Min(tb.T, t + trunc1) == Min(tb.T, t + trunc2) == tb.T;
      assert Cum(tb, trunc1, t, k, w) == Cum(tb, trunc2, t, k, w);
      assert Beta(tb, trunc1, t + k, w) == Beta(tb, trunc2, t + k, w);
    }
    assert terms1 == terms2;
  }

  /** Any horizon of at least T gives the same messages: truncation at
      trunc >= T is exact. */
  lemma {:induction false} TruncationExact(tb: Tables, trunc1: nat, trunc2: nat, t: nat, w: nat)
    requires tb.Valid() && tb.T <= trunc1 && tb.T <= trunc2 && t < tb.T && w < |tb.words|
    ensures Beta(tb, trunc1, t, w) == Beta(tb, trunc2, t, w)
    ensures BetaStar(tb, trunc1, t, w) == BetaStar(tb, trunc2, t, w)
    decreases tb.T - t
  {
    forall r, w2 | t < r < tb.T && 0 <= w2 < |tb.words|
      ensures Beta(tb, trunc1, r, w2) == Beta(tb, trunc2, r, w2)
      ensures BetaStar(tb, trunc1, r, w2) == BetaStar(tb, trunc2, r, w2)
    {
      TruncationExact(tb, trunc1, trunc2, r, w2);
    }
    BetaAgrees(tb, trunc1, trunc2, t, w);
    BetaStarAgrees(tb, trunc1, trunc2, t, w);
  }
}
