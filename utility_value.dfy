/** The five-way terminal classification of a conflict (src/utility_value.rs). */
module UtilityValue {
  import opened PartyMembers
  import opened Parties
  import opened Conflicts
  import opened Values

  /** Total damage taken by `ms`. */
  function DamageSum(ms: seq<PartyMember>): (s: real)
    ensures (forall i :: 0 <= i < |ms| ==> ms[i].damageTaken >= 0.0) ==> s >= 0.0
  {
    if |ms| == 0 then 0.0 else ms[0].damageTaken + DamageSum(ms[1..])
  }

  /** Total remaining health of `ms`, each member's health capped below at zero. */
  function HealthSum(ms: seq<PartyMember>): (s: real)
    ensures s >= 0.0
    ensures (exists i :: 0 <= i < |ms| && !IsDead(ms[i])) ==> s > 0.0
  {
    if |ms| == 0 then 0.0
    else
      assert forall i :: 1 <= i < |ms| ==> ms[1..][i - 1] == ms[i];
      MaxReal(ms[0].health, 0.0) + HealthSum(ms[1..])
  }

  /** Members never hit by a negative damage have a non-negative damage sum. */
  predicate DamageNonNegative(p: Party) {
    forall i :: 0 <= i < |p.members| ==> p.members[i].damageTaken >= 0.0
  }

  /** Classifies a state from the initiator's side. The initiator's defeat
      or retreat is looked at first, then the opponent's; scores of losses
      sum the damage taken, other scores the health left, and the soft
      outcomes (retreat, remain, ongoing) are scaled by 0.1. */
  function GetUtility(state: Conflict): (r: TerminalState)
    ensures r.score.Fin?
    ensures r.Defeat? <==> IsDefeated(state.initiator)
    ensures r.Retreat? <==> !IsDefeated(state.initiator) && state.initiator.hasRetreated
    ensures r.Win? <==> !IsDefeated(state.initiator) && !state.initiator.hasRetreated
                        && IsDefeated(state.opponent)
    ensures r.Remain? <==> !IsDefeated(state.initiator) && !state.initiator.hasRetreated
                           && !IsDefeated(state.opponent) && state.opponent.hasRetreated
    ensures r.Defeat? ==> r.score == Fin(-DamageSum(state.initiator.members))
    ensures r.Retreat? ==> r.score == Fin(0.1 * -DamageSum(state.initiator.members))
    ensures r.Win? ==> r.score == Fin(HealthSum(state.initiator.members))
    ensures r.Remain? || r.Heuristic? ==> r.score == Fin(0.1 * HealthSum(state.initiator.members))
  {
    if IsDefeated(state.initiator) || state.initiator.hasRetreated then
      var utility := -DamageSum(state.initiator.members);
      if IsDefeated(state.initiator) then Defeat(Fin(utility)) else Retreat(Fin(utility * 0.1))
    else
      var utility := HealthSum(state.initiator.members);
      if IsDefeated(state.opponent) then Win(Fin(utility))
      else if state.opponent.hasRetreated then Remain(Fin(utility * 0.1))
      else Heuristic(Fin(utility * 0.1))
  }

  /** Sign of every classification: losses score at most zero, every other
      outcome strictly above zero, since the initiator then has a living member. */
  lemma UtilitySigns(state: Conflict)
    requires DamageNonNegative(state.initiator)
    ensures var r := GetUtility(state);
      (r.Defeat? || r.Retreat? ==> r.score.r <= 0.0) &&
      (r.Win? || r.Remain? || r.Heuristic? ==> r.score.r > 0.0)
  {
    if !IsDefeated(state.initiator) {
      NotDefeatedHasLivingMember(state.initiator);
    }
  }

  /** The assertion guarding the loss score, as written: it demands a
      strictly negative score whenever the initiator is defeated or has retreated. */
  predicate LossAssertionAsWritten(state: Conflict) {
    (IsDefeated(state.initiator) || state.initiator.hasRetreated) ==>
      -DamageSum(state.initiator.members) < 0.0
  }

  /** A retreat before taking any damage breaks that assertion. */
  lemma LossAssertionFailsOnCleanRetreat()
    ensures var m := PartyMember(0, 10.0, 0.0, Weapons.Stick(1.0));
      var s := Conflict(0, Party(0, [m], true), Party(1, [m], false));
      !LossAssertionAsWritten(s) && GetUtility(s) == Retreat(Fin(0.0))
  {
    var m := PartyMember(0, 10.0, 0.0, Weapons.Stick(1.0));
    assert DamageSum([m]) == 0.0 + DamageSum([m][1..]);
  }

  /** The assertion the loss path can keep: the score is at most zero. */
  predicate LossAssertionCorrected(state: Conflict) {
    (IsDefeated(state.initiator) || state.initiator.hasRetreated) ==>
      -DamageSum(state.initiator.members) <= 0.0
  }

  lemma LossAssertionCorrectedHolds(state: Conflict)
    requires DamageNonNegative(state.initiator)
    ensures LossAssertionCorrected(state)
  {
  }

  /** The assertion on the health score holds: an initiator that is neither
      defeated nor retreated keeps a strictly positive health sum. */
  lemma HealthAssertionHolds(state: Conflict)
    requires !IsDefeated(state.initiator) && !state.initiator.hasRetreated
    ensures HealthSum(state.initiator.members) > 0.0
  {
    NotDefeatedHasLivingMember(state.initiator);
  }
}
