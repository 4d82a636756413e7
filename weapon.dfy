/** Weapons (src/weapon.rs). */
module Weapons {

  /** A weapon; every kind deals a fixed amount of damage on a hit.
      `Fists` is matched in src/party_member.rs and used by the tests,
      so it is kept beside `Stick`. */
  datatype Weapon = Stick(damage: real) | Fists(damage: real)
}
