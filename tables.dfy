/** The model an inference pass reads, the numerics it treats as opaque,
    and the four log-likelihood tables derived from them. */
module Tables {
  import opened Scores

  datatype Option<T> = None | Some(value: T)

  /** A two-dimensional table of scores, row-major. */
  type Table = seq<seq<Score>>

  /** One observation vector. */
  type Observation = seq<real>

  predicate IsMatrix(m: Table, rows: nat, cols: nat)
  {
    |m| == rows && forall i :: 0 <= i < rows ==> |m[i]| == cols
  }

  function Min(a: int, b: int): int
  {
    if a <= b then a else b
  }

  function Max(a: int, b: int): int
  {
    if a <= b then b else a
  }

  /** numpy's reading of an index into an axis of length n: -1 is the last element. */
  function PyIndex(i: int, n: nat): (k: nat)
    requires i < n && i + n >= 0
    ensures k == i % n
  {
    if i < 0 then n + i else i
  }

  /** A word is a non-empty sequence of letter ids below letterDim. */
  predicate WordOk(word: seq<nat>, letterDim: nat)
  {
    |word| > 0 && forall i :: 0 <= i < |word| ==> word[i] < letterDim
  }

  /** The model of one pass: the vocabulary, the transition matrix A, and the
      log-likelihood capability of each letter's emission and duration
      distribution and of each word's duration distribution. */
  datatype Model = Model(
    wordList: seq<seq<nat>>,
    letterDim: nat,
    trans: seq<seq<real>>,
    obsLogLik: (nat, Observation) -> Score,
    durLogLik: (nat, nat) -> Score,
    wordDurLogLik: (nat, nat) -> Score)
  {
    function StateDim(): nat
    {
      |wordList|
    }

    predicate Valid()
    {
      && |wordList| > 0
      && (forall w :: 0 <= w < |wordList| ==> WordOk(wordList[w], letterDim))
      && |trans| == |wordList|
      && (forall i :: 0 <= i < |trans| ==> |trans[i]| == |wordList|)
    }
  }

  /** The floating-point operations the engine relies on, left abstract:
      log-add-exp, log, exp, and the sampler's message term
      exp(loglik + betal - betastarl). */
  datatype Numerics = Numerics(
    logAdd: (Score, Score) -> Score,
    log: real -> Score,
    exp: Score -> real,
    messTerm: (Score, Score, Score) -> real)
  {
    ghost predicate Valid()
    {
      IsLogAdd(logAdd) && forall s :: exp(s) >= 0.0
    }
  }

  /** Al: the elementwise log of A, state_dim x state_dim. (The comprehensions
      below guard their indices instead of carrying a `requires`; under
      Model.Valid() the guards always hold.) */
  function AlTable(m: Model, num: Numerics): (al: Table)
    requires m.Valid()
    ensures IsMatrix(al, m.StateDim(), m.StateDim())
  {
    seq(m.StateDim(), (i: nat) =>
      seq(m.StateDim(), (j: nat) => if i < |m.trans| && j < |m.trans[i]| then num.log(m.trans[i][j]) else NegInf))
  }

  /** aDl: row d-1, column w is word w's duration log-likelihood at d, for d in 1..T. */
  function ADlTable(m: Model, T: nat): (aDl: Table)
    ensures IsMatrix(aDl, T, m.StateDim())
  {
    seq(T, (d: nat) => seq(m.StateDim(), (w: nat) => m.wordDurLogLik(w, d + 1)))
  }

  /** aBl: row t, column l is letter l's emission log-likelihood of observation t. */
  function ABlTable(m: Model, data: seq<Observation>): (aBl: Table)
    ensures IsMatrix(aBl, |data|, m.letterDim)
  {
    seq(|data|, (t: nat) =>
      seq(m.letterDim, (l: nat) => if t < |data| then m.obsLogLik(l, data[t]) else NegInf))
  }

  /** dl: row d-1, column l is letter l's duration log-likelihood at d, for d in 1..T. */
  function DlTable(m: Model, T: nat): (dl: Table)
    ensures IsMatrix(dl, T, m.letterDim)
  {
    seq(T, (d: nat) => seq(m.letterDim, (l: nat) => m.durLogLik(l, d + 1)))
  }

  /** What a lazy table yields: the cached table if there is one, else a fresh build. */
  function Memo(cache: Option<Table>, build: Table): Table
  {
    if cache.Some? then cache.value else build
  }

  /** The tables one pass reads, with the model dimensions and the numerics. */
  datatype Tables = Tables(
    T: nat,
    words: seq<seq<nat>>,
    letterDim: nat,
    num: Numerics,
    al: Table,
    aDl: Table,
    aBl: Table,
    dl: Table)
  {
    ghost predicate Valid()
    {
      && |words| > 0
      && (forall w :: 0 <= w < |words| ==> WordOk(words[w], letterDim))
      && num.Valid()
      && IsMatrix(al, |words|, |words|)
      && IsMatrix(aDl, T, |words|)
      && IsMatrix(aBl, T, letterDim)
      && IsMatrix(dl, T, letterDim)
    }
  }
}
