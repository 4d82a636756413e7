/** Actions and the addresses of combatants (src/action.rs, and `Participant`
    from src/party.rs, which lives here so that the module graph has no cycle). */
module Actions {
  import opened Wrappers
  import opened Weapons

  /** A simple attack: the weapon used, if any, and the damage it inflicts. */
  datatype SimpleAttackAction = SimpleAttackAction(weapon: Option<Weapon>, damage: real)

  /** An action to be taken; a simple attack is the only kind. */
  datatype Action = SimpleAttack(attack: SimpleAttackAction)

  /** The stable address of one combatant: its party and its id there. */
  datatype Participant = Participant(partyId: nat, memberId: nat)

  /** A party member targets another party member. */
  datatype TargetedAction = TargetedAction(action: Action, source: Participant, target: Participant)

  /** A move: the party flees, or one member acts on another. */
  datatype AppliedAction = Flee | Targeted(targeted: TargetedAction)
}
