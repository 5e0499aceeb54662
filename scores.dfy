/** Log-domain scores: log 0 (minus infinity) or a finite real.
    Addition is exact; log-add-exp is a parameter of which only one
    fact is known, that log 0 is its identity. */
module Scores {

  datatype Score = NegInf | Fin(v: real)

  /** Exact addition of two log-probabilities; log 0 absorbs. */
  function Add(a: Score, b: Score): Score
  {
    if a.NegInf? || b.NegInf? then NegInf else Fin(a.v + b.v)
  }

  /** The one property assumed of log-add-exp: log 0 is its identity on both sides. */
  ghost predicate IsLogAdd(logAdd: (Score, Score) -> Score)
  {
    forall x :: logAdd(NegInf, x) == x && logAdd(x, NegInf) == x
  }

  /** A left-to-right reduction of a non-empty sequence with `logAdd`,
      as numpy's logaddexp.reduce folds its operand. */
  function LogSum(logAdd: (Score, Score) -> Score, s: seq<Score>): Score
    requires |s| > 0
  {
    if |s| == 1 then s[0] else logAdd(LogSum(logAdd, s[..|s| - 1]), s[|s| - 1])
  }

  /** A trailing log 0 does not change a reduction. */
  lemma LogSumDropLast(logAdd: (Score, Score) -> Score, s: seq<Score>)
    requires IsLogAdd(logAdd) && |s| > 1 && s[|s| - 1] == NegInf
    ensures LogSum(logAdd, s) == LogSum(logAdd, s[..|s| - 1])
  {
  }

  /** A reduction of nothing but log 0 is log 0. */
  lemma {:induction false} LogSumAllNegInf(logAdd: (Score, Score) -> Score, s: seq<Score>)
    requires IsLogAdd(logAdd) && |s| > 0
    requires forall i :: 0 <= i < |s| ==> s[i] == NegInf
    ensures LogSum(logAdd, s) == NegInf
  {
    if |s| > 1 {
      LogSumAllNegInf(logAdd, s[..|s| - 1]);
    }
  }
}
