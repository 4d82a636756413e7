/** The three-way evaluator of the search (`Solver::get_utility`, src/solver.rs). */
module SolverUtility {
  import opened PartyMembers
  import opened Parties
  import opened Conflicts
  import opened Values
  import UtilityValue

  /** Scores a state from the initiator's side: a defeated initiator loses
      with minus its total damage taken; otherwise the initiator's health
      sum is a win when the opponent is defeated and, scaled by 0.1, an
      estimate when the fight is still open. Retreats are not looked at. */
  function GetUtility(state: Conflict): (r: TerminalState)
    ensures r.Win? || r.Defeat? || r.Heuristic?
    ensures r.score.Fin?
    ensures r.Defeat? <==> IsDefeated(state.initiator)
    ensures r.Win? <==> !IsDefeated(state.initiator) && IsDefeated(state.opponent)
    ensures r.Defeat? ==> r.score.r == -UtilityValue.DamageSum(state.initiator.members)
    ensures r.Win? ==> r.score.r == UtilityValue.HealthSum(state.initiator.members)
    ensures r.Heuristic? ==> r.score.r == 0.1 * UtilityValue.HealthSum(state.initiator.members)
  {
    if IsDefeated(state.initiator) then
      Defeat(Fin(-UtilityValue.DamageSum(state.initiator.members)))
    else
      var utility := UtilityValue.HealthSum(state.initiator.members);
      if IsDefeated(state.opponent) then Win(Fin(utility)) else Heuristic(Fin(utility * 0.1))
  }

  /** While neither side has retreated, the search's evaluator and the
      five-way classification agree exactly, variant and score. */
  lemma AgreesWithFiveWayUtility(state: Conflict)
    requires !state.initiator.hasRetreated && !state.opponent.hasRetreated
    ensures GetUtility(state) == UtilityValue.GetUtility(state)
  {
  }

  /** Signs of the search's scores: a defeat scores at most zero; a win or
      an estimate scores strictly above zero, since the initiator then has
      a living member. */
  lemma UtilitySigns(state: Conflict)
    requires UtilityValue.DamageNonNegative(state.initiator)
    ensures var r := GetUtility(state);
      (r.Defeat? ==> r.score.r <= 0.0) && (!r.Defeat? ==> r.score.r > 0.0)
  {
    if !IsDefeated(state.initiator) {
      NotDefeatedHasLivingMember(state.initiator);
    }
  }

  /** The assertion guarding the defeat score, as written: a defeated
      initiator must score strictly below zero. */
  predicate DefeatAssertionAsWritten(state: Conflict) {
    IsDefeated(state.initiator) ==> -UtilityValue.DamageSum(state.initiator.members) < 0.0
  }

  /** An initiator whose only member enters the fight already dead, having
      taken no damage, is defeated with the score zero and breaks it. */
  lemma DefeatAssertionFailsOnUnhurtDefeat()
    ensures var m := PartyMember(0, 0.0, 0.0, Weapons.Stick(10.0));
      var s := Conflict(0, Party(0, [m], false), Party(1, [m.(health := 25.0)], false));
      !DefeatAssertionAsWritten(s) && GetUtility(s) == Defeat(Fin(0.0))
  {
    var m := PartyMember(0, 0.0, 0.0, Weapons.Stick(10.0));
    assert UtilityValue.DamageSum([m]) == 0.0 + UtilityValue.DamageSum([m][1..]);
  }

  /** The assertion the defeat path can keep: the score is at most zero. */
  predicate DefeatAssertionCorrected(state: Conflict) {
    IsDefeated(state.initiator) ==> -UtilityValue.DamageSum(state.initiator.members) <= 0.0
  }

  lemma DefeatAssertionCorrectedHolds(state: Conflict)
    requires UtilityValue.DamageNonNegative(state.initiator)
    ensures DefeatAssertionCorrected(state)
    ensures GetUtility(state).Defeat? ==> GetUtility(state).score.r <= 0.0
  {
  }
}
