/** The state of a conflict at one turn (src/conflict.rs). */
module Conflicts {
  import opened Parties

  /** `initiator` and `opponent` name the same two sides for the whole
      search; which side moves is kept by the search node, not here. */
  datatype Conflict = Conflict(turn: nat, initiator: Party, opponent: Party)
}
