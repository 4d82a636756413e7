/** A combatant and how it takes a hit (src/party_member.rs). */
module PartyMembers {
  import opened Wrappers
  import opened Weapons
  import opened Actions

  /** A party member. `health` is clamped at zero by every hit;
      `damageTaken` sums the raw damage of every hit that landed. */
  datatype PartyMember = PartyMember(id: nat, health: real, damageTaken: real, weapon: Weapon)

  /** A member is dead once its health has reached zero. */
  predicate IsDead(m: PartyMember) {
    m.health <= 0.0
  }

  /** A member may act while it is alive. */
  predicate CanAct(m: PartyMember) {
    !IsDead(m)
  }

  /** An action can be applied to a target while the target is alive. */
  predicate IsApplicable(target: PartyMember, a: Action) {
    !IsDead(target)
  }

  function MaxReal(x: real, y: real): real {
    if x >= y then x else y
  }

  /** Applies a simple attack. The first component tells whether it took
      hold (it does not on a dead member); the second is the member after it. */
  function HandleSimpleAttack(m: PartyMember, attack: SimpleAttackAction): (r: (bool, PartyMember))
    ensures r.0 <==> !IsDead(m)
    ensures !r.0 ==> r.1 == m
    ensures r.0 ==> r.1.health >= 0.0
    ensures r.0 ==> r.1.health == if m.health - attack.damage >= 0.0 then m.health - attack.damage else 0.0
    ensures r.0 ==> r.1.damageTaken == m.damageTaken + attack.damage
    ensures r.1.id == m.id && r.1.weapon == m.weapon
  {
    if IsDead(m) then (false, m)
    else (true, m.(health := MaxReal(m.health - attack.damage, 0.0),
                   damageTaken := m.damageTaken + attack.damage))
  }

  /** Handles an action by its kind; a simple attack is the only kind. */
  function HandleAction(m: PartyMember, a: Action): (r: (bool, PartyMember))
    ensures r.0 <==> !IsDead(m)
    ensures !r.0 ==> r.1 == m
    ensures r.0 ==> r.1.health >= 0.0
    ensures r.0 ==> r.1.health == MaxReal(m.health - a.attack.damage, 0.0)
    ensures r.0 ==> r.1.damageTaken == m.damageTaken + a.attack.damage
    ensures r.1.id == m.id && r.1.weapon == m.weapon
  {
    match a
    case SimpleAttack(attack) => HandleSimpleAttack(m, attack)
  }

  /** Damage dealt by a weapon. */
  function WeaponDamage(w: Weapon): real {
    match w
    case Stick(d) => d
    case Fists(d) => d
  }

  /** The attack a member makes with its own weapon. */
  function Attack(m: PartyMember): Action {
    SimpleAttack(SimpleAttackAction(Some(m.weapon), WeaponDamage(m.weapon)))
  }

  /** Registers the member's attack actions behind those already collected. */
  function AddAttackActions(m: PartyMember, actions: seq<Action>): (r: seq<Action>)
    ensures |r| == |actions| + 1 && r[..|actions|] == actions
    ensures r[|actions|].SimpleAttack?
    ensures r[|actions|].attack.weapon == Some(m.weapon)
    ensures r[|actions|].attack.damage == m.weapon.damage
  {
    actions + [Attack(m)]
  }

  /** All actions the member can take: exactly one attack with its weapon. */
  function ActionsOf(m: PartyMember): (r: seq<Action>)
    ensures r == [Attack(m)]
  {
    AddAttackActions(m, [])
  }

  /** A hit on a living member at least as large as its health kills it,
      leaves its health at zero and still counts the full damage. */
  lemma OverkillCountsFullDamage(m: PartyMember, damage: real)
    requires !IsDead(m) && damage >= m.health
    ensures var r := HandleAction(m, SimpleAttack(SimpleAttackAction(None, damage)));
      r.0 && IsDead(r.1) && r.1.health == 0.0 && r.1.damageTaken == m.damageTaken + damage
  {
  }

  /** Death is final: a member that cannot act never acts again, and a
      living member dies exactly when the hit is at least its health. */
  lemma DeathIsPermanent(m: PartyMember, a: Action)
    ensures var r := HandleAction(m, a).1;
      && (!CanAct(m) ==> !CanAct(r))
      && (CanAct(m) ==> (IsDead(r) <==> a.attack.damage >= m.health))
  {
  }

  /** The move generator's filter on targets agrees with the handler: an
      action is applicable to a target exactly when the hit takes hold. */
  lemma ApplicableIffHitTakesHold(target: PartyMember, a: Action)
    ensures IsApplicable(target, a) <==> HandleAction(target, a).0
  {
  }

  /** A dead member stays dead and unchanged, whatever hits it. */
  lemma DeadIsImmune(m: PartyMember, a: Action)
    requires IsDead(m)
    ensures HandleAction(m, a) == (false, m)
  {
  }
}
