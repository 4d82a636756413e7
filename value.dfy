/** Scores, terminal states and the alpha-beta value triplet (src/value.rs). */
module Values {

  /** A score: a real number or one of the two infinite sentinels. */
  datatype ExtReal = NegInf | Fin(r: real) | PosInf

  /** The order of scores: -inf below every real, +inf above. */
  predicate Le(a: ExtReal, b: ExtReal) {
    a.NegInf? || b.PosInf? || (a.Fin? && b.Fin? && a.r <= b.r)
  }

  predicate Lt(a: ExtReal, b: ExtReal) {
    !Le(b, a)
  }

  /** The larger of two scores, as `f32::max`. */
  function Max(a: ExtReal, b: ExtReal): (m: ExtReal)
    ensures Le(a, m) && Le(b, m) && (m == a || m == b)
  {
    if Le(a, b) then b else a
  }

  /** The smaller of two scores, as `f32::min`. */
  function Min(a: ExtReal, b: ExtReal): (m: ExtReal)
    ensures Le(m, a) && Le(m, b) && (m == a || m == b)
  {
    if Le(a, b) then a else b
  }

  /** `Le` is a total order. */
  lemma LeTotalOrder(a: ExtReal, b: ExtReal, c: ExtReal)
    ensures Le(a, a)
    ensures Le(a, b) || Le(b, a)
    ensures Le(a, b) && Le(b, a) ==> a == b
    ensures Le(a, b) && Le(b, c) ==> Le(a, c)
  {
  }

  /** Describes a cutoff event. */
  datatype Cutoff = NoCutoff | Alpha | Beta

  /** A classified state with its score, always seen from the initiator.
      Every variant carries its score in `score`. */
  datatype TerminalState =
    | Win(score: ExtReal)
    | Defeat(score: ExtReal)
    | Retreat(score: ExtReal)
    | Remain(score: ExtReal)
    | Heuristic(score: ExtReal)

  /** A state is negative when its score is below zero. */
  predicate IsNegative(t: TerminalState) {
    Lt(t.score, Fin(0.0))
  }

  /** Equality of terminal states compares scores only. */
  predicate ScoreEq(a: TerminalState, b: TerminalState) {
    a.score == b.score
  }

  /** Ordering of terminal states compares scores only. */
  predicate ScoreLt(a: TerminalState, b: TerminalState) {
    Lt(a.score, b.score)
  }

  /** Comparisons look through the variant: a win and a heuristic estimate
      with the same score are equal and neither is below the other. */
  lemma ComparisonIgnoresVariant(x: ExtReal)
    ensures ScoreEq(Win(x), Heuristic(x)) && Win(x) != Heuristic(x)
    ensures !ScoreLt(Win(x), Heuristic(x)) && !ScoreLt(Heuristic(x), Win(x))
  {
  }

  /** `IsNegative` holds exactly for -inf and for negative reals. */
  lemma NegativeMeansBelowZero(t: TerminalState)
    ensures IsNegative(t) <==> t.score.NegInf? || (t.score.Fin? && t.score.r < 0.0)
  {
  }

  /** A value triplet in alpha-beta pruning: the window (alpha, beta)
      around the current value. */
  datatype Value = Value(alpha: ExtReal, value: TerminalState, beta: ExtReal)

  /** A value with the widest window. */
  function New(v: TerminalState): (r: Value)
    ensures r.alpha == NegInf && r.beta == PosInf && r.value == v
  {
    NewWith(NegInf, v, PosInf)
  }

  function NewWith(alpha: ExtReal, v: TerminalState, beta: ExtReal): (r: Value)
    ensures r.alpha == alpha && r.value == v && r.beta == beta
  {
    Value(alpha, v, beta)
  }

  /** A copy with a new current value; the window is kept (the source's
      doc comment speaks of overwriting alpha, the code does not). */
  function WithValue(self: Value, v: TerminalState): (r: Value)
    ensures r.value == v && r.alpha == self.alpha && r.beta == self.beta
  {
    NewWith(self.alpha, v, self.beta)
  }

  /** A finite current score at or below alpha. */
  predicate IsAlphaCutoff(self: Value) {
    self.value.score.Fin? && Le(self.value.score, self.alpha)
  }

  /** A finite current score at or above beta. */
  predicate IsBetaCutoff(self: Value) {
    self.value.score.Fin? && Le(self.beta, self.value.score)
  }

  /** The infinite sentinels never cut, and a fresh window cuts nothing. */
  lemma CutoffsNeedFiniteScore(self: Value, v: TerminalState)
    ensures !self.value.score.Fin? ==> !IsAlphaCutoff(self) && !IsBetaCutoff(self)
    ensures !IsAlphaCutoff(New(v)) && !IsBetaCutoff(New(v))
  {
  }

  /** Both cutoffs at once only happen when the window is closed. */
  lemma BothCutoffsCloseWindow(self: Value)
    requires IsAlphaCutoff(self) && IsBetaCutoff(self)
    ensures Le(self.beta, self.alpha)
  {
    LeTotalOrder(self.beta, self.value.score, self.alpha);
  }
}
