/** A party, or faction, in a conflict (src/party.rs). */
module Parties {
  import opened PartyMembers

  /** A party. `hasRetreated` records that the party left the conflict;
      the newer utility evaluator reads it and nothing in the search sets it. */
  datatype Party = Party(id: nat, members: seq<PartyMember>, hasRetreated: bool)

  /** True when every member in `ms` is dead, checked front to back. */
  predicate AllDead(ms: seq<PartyMember>)
    ensures AllDead(ms) <==> forall i :: 0 <= i < |ms| ==> IsDead(ms[i])
  {
    |ms| == 0 || (IsDead(ms[0]) && AllDead(ms[1..]))
  }

  /** A party is defeated when all its members are dead; an empty party is. */
  predicate IsDefeated(p: Party) {
    AllDead(p.members)
  }

  /** A party is defeated exactly when it has no living member. */
  lemma NotDefeatedHasLivingMember(p: Party)
    ensures !IsDefeated(p) <==> exists k :: 0 <= k < |p.members| && !IsDead(p.members[k])
  {
  }

  /** Every member's id is its position. The search looks members up by id
      as a position, so it relies on this. */
  predicate IdsAreIndices(p: Party) {
    forall i :: 0 <= i < |p.members| ==> p.members[i].id == i
  }

  /** The size of the party. */
  function Len(p: Party): (n: nat)
    ensures n == |p.members|
  {
    |p.members|
  }

  /** `ms` with its first member of id `m.id` replaced by `m`. */
  function Replaced(ms: seq<PartyMember>, m: PartyMember): (r: seq<PartyMember>)
    ensures |r| == |ms|
  {
    if |ms| == 0 then []
    else if ms[0].id == m.id then [m] + ms[1..]
    else [ms[0]] + Replaced(ms[1..], m)
  }

  /** Replacing the member at the first matching index, reached after
      passing only non-matching members, is what `Replaced` describes. */
  lemma {:induction false} ReplacedAtFirstMatch(ms: seq<PartyMember>, m: PartyMember, k: nat)
    requires k < |ms| && ms[k].id == m.id
    requires forall j :: 0 <= j < k ==> ms[j].id != m.id
    ensures Replaced(ms, m) == ms[k := m]
  {
    if k > 0 {
      ReplacedAtFirstMatch(ms[1..], m, k - 1);
      assert ms[1..][k - 1 := m] == ms[k := m][1..];
    }
  }

  /** Without a matching member, `Replaced` changes nothing. */
  lemma {:induction false} ReplacedNoMatch(ms: seq<PartyMember>, m: PartyMember)
    requires forall j :: 0 <= j < |ms| ==> ms[j].id != m.id
    ensures Replaced(ms, m) == ms
  {
    if |ms| > 0 {
      ReplacedNoMatch(ms[1..], m);
    }
  }

  /** Replaces the first member whose id is that of `member` and stops;
      the party's id, size, order and other members are kept. */
  method ReplaceMember(p: Party, member: PartyMember) returns (r: Party)
    ensures r == p.(members := Replaced(p.members, member))
  {
    var ms := p.members;
    var i := 0;
    while i < |ms|
      invariant 0 <= i <= |ms| && ms == p.members
      invariant forall j :: 0 <= j < i ==> ms[j].id != member.id
    {
      if ms[i].id == member.id {
        ReplacedAtFirstMatch(ms, member, i);
        ms := ms[i := member];
        break;
      }
      i := i + 1;
    }
    if i == |ms| {
      ReplacedNoMatch(ms, member);
    }
    r := p.(members := ms);
  }

  /** `Replaced` overwrites exactly one position, the first with a matching
      id, and keeps every other member; with no match it is the identity. */
  lemma {:induction false} ReplacedOneMember(ms: seq<PartyMember>, m: PartyMember, k: nat)
    requires k < |ms|
    ensures Replaced(ms, m)[k] ==
      if ms[k].id == m.id && forall j :: 0 <= j < k ==> ms[j].id != m.id then m else ms[k]
  {
    if ms[0].id != m.id && k > 0 {
      ReplacedOneMember(ms[1..], m, k - 1);
      assert forall j :: 0 <= j < k - 1 ==> ms[1..][j] == ms[j + 1];
    }
  }

  /** With ids equal to positions, replacing member `m` changes position
      `m.id` only. */
  lemma ReplacedById(ms: seq<PartyMember>, m: PartyMember)
    requires forall i :: 0 <= i < |ms| ==> ms[i].id == i
    requires m.id < |ms|
    ensures Replaced(ms, m) == ms[m.id := m]
  {
    ReplacedAtFirstMatch(ms, m, m.id);
  }

  /** Replacing twice with the same member is replacing once. */
  lemma {:induction false} ReplacedIdempotent(ms: seq<PartyMember>, m: PartyMember)
    ensures Replaced(Replaced(ms, m), m) == Replaced(ms, m)
  {
    if |ms| > 0 && ms[0].id != m.id {
      ReplacedIdempotent(ms[1..], m);
    }
  }

  /** Replacing keeps every member's id, so positions keep their ids. */
  lemma {:induction false} ReplacedKeepsIds(ms: seq<PartyMember>, m: PartyMember)
    ensures forall i :: 0 <= i < |ms| ==> Replaced(ms, m)[i].id == ms[i].id
  {
    if |ms| > 0 && ms[0].id != m.id {
      ReplacedKeepsIds(ms[1..], m);
    }
  }
}
