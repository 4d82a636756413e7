/** The resumable move generator (src/action_iterator.rs).

    Both iterators are cursors stored inside search nodes and cloned with
    them, so they are values here: `TargetNext` and `Next` take a cursor and
    return the advanced one. `Pending` and `Moves` list everything a cursor
    has still to emit, in order; each step is proved to emit the head of
    that list and to leave its tail. */
module ActionIterators {
  import opened Wrappers
  import opened Actions
  import opened PartyMembers
  import opened Parties
  import opened Weapons

  /** Rust's half-open `Range<usize>`. */
  datatype Range = Range(start: nat, end: nat)

  /** Pairs each action of a member with every target index in turn.
      `iter` holds the member's actions not drawn yet (`None` once the
      iterator is used up); `action` is the one being paired. */
  datatype ActionTargetIterator =
    ActionTargetIterator(enemyIndex: nat, enemies: Range, iter: Option<seq<Action>>, action: Option<Action>)

  /** An action is drawn only right after the index was reset to the start. */
  predicate TargetValid(t: ActionTargetIterator) {
    t.iter.Some? && t.action.None? ==> t.enemyIndex == t.enemies.start
  }

  function NewTargetIterator(member: PartyMember, enemies: Range): (t: ActionTargetIterator)
    ensures TargetValid(t) && t.enemies == enemies && t.enemyIndex == enemies.start
    ensures t.iter == Some(ActionsOf(member)) && t.action.None?
  {
    ActionTargetIterator(enemies.start, enemies, Some(ActionsOf(member)), None)
  }

  /** `(a, from), (a, from + 1), ..., (a, to - 1)`. */
  function Span(a: Action, from: nat, to: nat): seq<(Action, nat)> {
    seq(if from < to then to - from else 0, k => (a, from + k))
  }

  /** What a freshly drawn action yields: the start index always, even
      when the range is empty, then the rest of the range. */
  function PerAction(a: Action, r: Range): seq<(Action, nat)> {
    [(a, r.start)] + Span(a, r.start + 1, r.end)
  }

  function AllTargets(actions: seq<Action>, r: Range): seq<(Action, nat)> {
    if |actions| == 0 then [] else PerAction(actions[0], r) + AllTargets(actions[1..], r)
  }

  /** Everything the target iterator has still to emit, in order. */
  function Pending(t: ActionTargetIterator): seq<(Action, nat)> {
    if t.iter.None? then []
    else if t.action.Some? && t.enemyIndex < t.enemies.end then
      Span(t.action.value, t.enemyIndex, t.enemies.end) + AllTargets(t.iter.value, t.enemies)
    else AllTargets(t.iter.value, t.enemies)
  }

  lemma SpanCons(a: Action, from: nat, to: nat)
    requires from < to
    ensures Span(a, from, to) == [(a, from)] + Span(a, from + 1, to)
  {
  }

  /** An iterator that must draw a new action and has one left emits that
      action against the start index first. */
  lemma PendingOnDraw(t: ActionTargetIterator)
    requires t.iter.Some? && |t.iter.value| > 0 && (t.action.None? || t.enemyIndex >= t.enemies.end)
    ensures Pending(t) == [(t.iter.value[0], t.enemies.start)] +
      Pending(ActionTargetIterator(t.enemies.start + 1, t.enemies, Some(t.iter.value[1..]), Some(t.iter.value[0])))
  {
    var a, r := t.iter.value[0], t.enemies;
    if r.start + 1 >= r.end {
      assert Span(a, r.start + 1, r.end) == [];
    }
  }

  /** An iterator that must draw a new action and has none left is done. */
  lemma PendingWhenUsedUp(t: ActionTargetIterator)
    requires t.iter == Some([]) && (t.action.None? || t.enemyIndex >= t.enemies.end)
    ensures Pending(t) == []
  {
  }

  /** An iterator inside its range emits its action against the current index. */
  lemma PendingOnContinue(t: ActionTargetIterator)
    requires t.iter.Some? && t.action.Some? && t.enemyIndex < t.enemies.end
    ensures Pending(t) == [(t.action.value, t.enemyIndex)] + Pending(t.(enemyIndex := t.enemyIndex + 1))
  {
    var a, i, r := t.action.value, t.enemyIndex, t.enemies;
    SpanCons(a, i, r.end);
    if i + 1 >= r.end {
      assert Span(a, i + 1, r.end) == [];
    }
  }

  /** Emits the current action against the next target, drawing a new
      action after the last target, and `None` once the actions run out. */
  method TargetNext(t: ActionTargetIterator) returns (item: Option<(Action, nat)>, t': ActionTargetIterator)
    requires TargetValid(t)
    ensures TargetValid(t') && t'.enemies == t.enemies
    ensures Pending(t) == if item.Some? then [item.value] + Pending(t') else []
    ensures item.None? ==> t'.iter.None?
    ensures item.Some? ==> t'.iter.Some? && t'.enemyIndex == item.value.1 + 1
    ensures t'.iter.Some? ==> t'.action.Some?
    ensures t'.iter.Some? ==>
      (t'.action == t.action && t'.iter == t.iter) ||
      (t.iter.Some? && |t.iter.value| > 0 && t'.action == Some(t.iter.value[0]) && t'.iter == Some(t.iter.value[1..]))
  {
    if t.iter.None? {
      return None, t;
    }
    var index, action := t.enemyIndex, t.action;
    if index >= t.enemies.end {
      // Reset to the first enemy and require a new action.
      index, action := t.enemies.start, None;
    }
    var actions := t.iter.value;
    if action.None? {
      if |actions| == 0 {
        // The actions are used up: discard the generator.
        PendingWhenUsedUp(t);
        return None, t.(enemyIndex := index, iter := None, action := None);
      }
      PendingOnDraw(t);
      action, actions := Some(actions[0]), actions[1..];
    } else {
      PendingOnContinue(t);
    }
    item := Some((action.value, index));
    t' := ActionTargetIterator(index + 1, t.enemies, Some(actions), action);
  }

  /** Over a non-empty range, a fresh iterator of a member pairs its one
      attack with every index of the range in ascending order. */
  lemma FreshTargetIteratorEmitsRange(member: PartyMember, r: Range)
    requires r.start < r.end
    ensures Pending(NewTargetIterator(member, r)) == Span(Attack(member), r.start, r.end)
  {
    var a := Attack(member);
    assert ActionsOf(member)[1..] == [];
    calc {
      Pending(NewTargetIterator(member, r));
      AllTargets([a], r);
      PerAction(a, r) + AllTargets([], r);
      { SpanCons(a, r.start, r.end); }
      Span(a, r.start, r.end);
    }
  }

  /** Over an empty range the iterator still emits the start index once
      per action, an index outside the range. */
  lemma EmptyRangeEmitsStart(member: PartyMember, r: Range)
    requires r.start == r.end
    ensures Pending(NewTargetIterator(member, r)) == [(Attack(member), r.start)]
  {
    assert ActionsOf(member)[1..] == [];
    assert AllTargets([Attack(member)], r) == PerAction(Attack(member), r) + AllTargets([], r);
  }

  /** Selects the acting members in `currentRange` in turn, each paired
      with every target of `opponent` for each of its actions. */
  datatype ActionIterator =
    ActionIterator(current: Party, opponent: Party, currentIndex: nat, currentRange: Range,
                   iter: Option<ActionTargetIterator>)

  function New(current: Party, opponent: Party): (it: ActionIterator)
    ensures it.currentRange == Range(0, |current.members|) && it.currentIndex == 0 && it.iter.None?
    ensures it.current == current && it.opponent == opponent
  {
    NewIn(current, opponent, Range(0, Len(current)))
  }

  function NewIn(current: Party, opponent: Party, currentRange: Range): (it: ActionIterator)
    ensures it.currentIndex == currentRange.start && it.iter.None?
    ensures it.current == current && it.opponent == opponent && it.currentRange == currentRange
  {
    ActionIterator(current, opponent, currentRange.start, currentRange, None)
  }

  /** The inner iterator of `member` over `n` targets: the member's one
      attack is either still to be drawn or is being paired. */
  predicate TargetFor(member: PartyMember, n: nat, t: ActionTargetIterator) {
    && t.enemies == Range(0, n)
    && TargetValid(t)
    && (t.iter.Some? ==>
          && t.enemyIndex <= n
          && ((t.action.None? && t.iter.value == ActionsOf(member)) ||
              (t.action == Some(Attack(member)) && t.iter.value == [])))
  }

  /** The cursor addresses existing members, the opponent has a member to
      index (the source indexes target 0 even when it has none), and an
      inner iterator exists only for the member under the cursor. */
  predicate Valid(it: ActionIterator) {
    && it.currentRange.end <= |it.current.members|
    && |it.opponent.members| > 0
    && (it.iter.Some? ==>
          && it.currentIndex < it.currentRange.end
          && CanAct(it.current.members[it.currentIndex])
          && TargetFor(it.current.members[it.currentIndex], |it.opponent.members|, it.iter.value))
  }

  lemma NewIsValid(current: Party, opponent: Party)
    requires |opponent.members| > 0
    ensures Valid(New(current, opponent))
  {
  }

  /** What the inner iterator of a member still emits: only target
      indices, at most one per target, all with the member's attack. */
  lemma PendingOfTargetFor(member: PartyMember, n: nat, t: ActionTargetIterator)
    requires n > 0 && TargetFor(member, n, t)
    ensures |Pending(t)| <= n
    ensures forall j :: 0 <= j < |Pending(t)| ==> Pending(t)[j].1 < n && Pending(t)[j].0 == Attack(member)
  {
    if t.iter.Some? && t.action.None? {
      assert ActionsOf(member)[1..] == [];
      assert Pending(t) == PerAction(Attack(member), Range(0, n)) + AllTargets([], Range(0, n));
    }
  }

  /** The moves built from the pairs `ps` of acting member `k`: pairs whose
      target is dead are dropped. The inner iterator only yields indices of
      existing targets (`PendingOfTargetFor`), so the range test never
      drops a pair it produced. */
  function Emit(current: Party, opponent: Party, k: nat, ps: seq<(Action, nat)>): seq<AppliedAction>
    requires k < |current.members|
  {
    if |ps| == 0 then []
    else
      (if ps[0].1 < |opponent.members| && IsApplicable(opponent.members[ps[0].1], ps[0].0) then
         [Targeted(TargetedAction(ps[0].0,
                                  Participant(current.id, current.members[k].id),
                                  Participant(opponent.id, opponent.members[ps[0].1].id)))]
       else [])
      + Emit(current, opponent, k, ps[1..])
  }

  /** The inner iterator the cursor uses for member `currentIndex`. */
  function TargetOf(it: ActionIterator): ActionTargetIterator
    requires it.currentIndex < |it.current.members|
  {
    if it.iter.Some? then it.iter.value
    else NewTargetIterator(it.current.members[it.currentIndex], Range(0, |it.opponent.members|))
  }

  /** Everything the iterator has still to emit, in order: members ascend,
      members that cannot act are skipped, and for each member all its
      targets are paired with one action before the next action. */
  function Moves(it: ActionIterator): seq<AppliedAction>
    requires Valid(it)
    decreases it.currentRange.end - it.currentIndex
  {
    if it.currentIndex >= it.currentRange.end then []
    else
      var next := it.(currentIndex := it.currentIndex + 1, iter := None);
      var m := it.current.members[it.currentIndex];
      if !CanAct(m) then Moves(next)
      else
        PendingOfTargetFor(m, |it.opponent.members|, TargetOf(it));
        Emit(it.current, it.opponent, it.currentIndex, Pending(TargetOf(it))) + Moves(next)
  }

  /** How much work the inner iterator of the current member has left. */
  function CursorWork(it: ActionIterator): nat {
    if it.iter.Some? then |Pending(it.iter.value)|
    else if it.currentIndex < |it.current.members| then
      1 + |Pending(TargetOf(it))|
    else 0
  }

  /** A member that cannot act is stepped over without emitting anything. */
  lemma MovesSkipMember(it: ActionIterator)
    requires Valid(it) && it.currentIndex < it.currentRange.end
    requires !CanAct(it.current.members[it.currentIndex])
    ensures Valid(it.(currentIndex := it.currentIndex + 1))
    ensures Moves(it.(currentIndex := it.currentIndex + 1)) == Moves(it)
  {
  }

  /** Creating the inner iterator of the member under the cursor changes
      nothing that is still to be emitted. */
  lemma MovesStartMember(it: ActionIterator)
    requires Valid(it) && it.currentIndex < it.currentRange.end && it.iter.None?
    requires CanAct(it.current.members[it.currentIndex])
    ensures var t := NewTargetIterator(it.current.members[it.currentIndex], Range(0, |it.opponent.members|));
      Valid(it.(iter := Some(t))) && Moves(it.(iter := Some(t))) == Moves(it)
  {
    var m := it.current.members[it.currentIndex];
    var t := NewTargetIterator(m, Range(0, |it.opponent.members|));
    assert TargetOf(it.(iter := Some(t))) == TargetOf(it);
  }

  /** An exhausted inner iterator hands over to the next member. */
  lemma MovesMemberDone(it: ActionIterator)
    requires Valid(it) && it.iter.Some? && Pending(it.iter.value) == []
    ensures Valid(it.(currentIndex := it.currentIndex + 1, iter := None))
    ensures Moves(it.(currentIndex := it.currentIndex + 1, iter := None)) == Moves(it)
  {
  }

  /** One pair taken from the inner iterator becomes a move exactly when
      its target is alive. */
  lemma MovesMemberStep(it: ActionIterator, p: (Action, nat), t': ActionTargetIterator)
    requires Valid(it) && it.iter.Some?
    requires Pending(it.iter.value) == [p] + Pending(t')
    requires TargetValid(t') && t'.enemies == it.iter.value.enemies && t'.iter.Some? && t'.action.Some?
    requires t'.enemyIndex == p.1 + 1
    requires (t'.action == it.iter.value.action && t'.iter == it.iter.value.iter) ||
      (|it.iter.value.iter.value| > 0 && t'.action == Some(it.iter.value.iter.value[0]) &&
       t'.iter == Some(it.iter.value.iter.value[1..]))
    ensures p.1 < |it.opponent.members|
    ensures Valid(it.(iter := Some(t')))
    ensures Moves(it) ==
      (if IsApplicable(it.opponent.members[p.1], p.0) then
         [Targeted(TargetedAction(p.0, Participant(it.current.id, it.current.members[it.currentIndex].id),
                                  Participant(it.opponent.id, it.opponent.members[p.1].id)))]
       else []) + Moves(it.(iter := Some(t')))
  {
    MemberStepValid(it, p, t');
    MovesHeadStep(it, p, t');
  }

  /** The moves before and after the inner iterator gives up its first
      pair `p`, once both cursors are known to be valid. */
  lemma MovesHeadStep(it: ActionIterator, p: (Action, nat), t': ActionTargetIterator)
    requires Valid(it) && it.iter.Some? && Valid(it.(iter := Some(t')))
    requires p.1 < |it.opponent.members|
    requires Pending(it.iter.value) == [p] + Pending(t')
    ensures Moves(it) ==
      (if IsApplicable(it.opponent.members[p.1], p.0) then
         [Targeted(TargetedAction(p.0, Participant(it.current.id, it.current.members[it.currentIndex].id),
                                  Participant(it.opponent.id, it.opponent.members[p.1].id)))]
       else []) + Moves(it.(iter := Some(t')))
  {
    var k := it.currentIndex;
    var it2 := it.(iter := Some(t'));
    var next := it.(currentIndex := k + 1, iter := None);
    assert it2.(currentIndex := k + 1, iter := None) == next;
    MovesOfActingMember(it);
    MovesOfActingMember(it2);
    EmitCons(it.current, it.opponent, k, p, Pending(t'));
    var head :=
      if IsApplicable(it.opponent.members[p.1], p.0) then
        [Targeted(TargetedAction(p.0, Participant(it.current.id, it.current.members[k].id),
                                 Participant(it.opponent.id, it.opponent.members[p.1].id)))]
      else [];
    ShiftHead(Moves(it), Moves(it2), Emit(it.current, it.opponent, k, Pending(it.iter.value)),
              Emit(it.current, it.opponent, k, Pending(t')), head, Moves(next));
  }

  /** A common head moves across a shared tail. */
  lemma ShiftHead(a: seq<AppliedAction>, b: seq<AppliedAction>, x: seq<AppliedAction>, y: seq<AppliedAction>,
                  head: seq<AppliedAction>, tail: seq<AppliedAction>)
    requires a == x + tail && b == y + tail && x == head + y
    ensures a == head + b
  {
  }

  /** The inner iterator after the step is still the current member's. */
  lemma MemberStepValid(it: ActionIterator, p: (Action, nat), t': ActionTargetIterator)
    requires Valid(it) && it.iter.Some?
    requires Pending(it.iter.value) == [p] + Pending(t')
    requires TargetValid(t') && t'.enemies == it.iter.value.enemies && t'.iter.Some? && t'.action.Some?
    requires t'.enemyIndex == p.1 + 1
    requires (t'.action == it.iter.value.action && t'.iter == it.iter.value.iter) ||
      (|it.iter.value.iter.value| > 0 && t'.action == Some(it.iter.value.iter.value[0]) &&
       t'.iter == Some(it.iter.value.iter.value[1..]))
    ensures p.1 < |it.opponent.members|
    ensures Valid(it.(iter := Some(t')))
  {
    var k, t := it.currentIndex, it.iter.value;
    var m, n := it.current.members[k], |it.opponent.members|;
    PendingOfTargetFor(m, n, t);
    assert Pending(t)[0] == p;
    TargetForStep(m, n, t, t');
  }

  /** The moves of a cursor on an acting member: what its inner iterator
      emits against living targets, then the moves of the next members. */
  lemma MovesOfActingMember(it: ActionIterator)
    requires Valid(it) && it.currentIndex < it.currentRange.end && CanAct(it.current.members[it.currentIndex])
    ensures Moves(it) == Emit(it.current, it.opponent, it.currentIndex, Pending(TargetOf(it)))
                         + Moves(it.(currentIndex := it.currentIndex + 1, iter := None))
  {
    PendingOfTargetFor(it.current.members[it.currentIndex], |it.opponent.members|, TargetOf(it));
  }

  /** The first pending pair becomes a move exactly when its target is alive. */
  lemma EmitCons(current: Party, opponent: Party, k: nat, p: (Action, nat), ps: seq<(Action, nat)>)
    requires k < |current.members| && p.1 < |opponent.members|
    ensures Emit(current, opponent, k, [p] + ps) ==
      (if IsApplicable(opponent.members[p.1], p.0) then
         [Targeted(TargetedAction(p.0, Participant(current.id, current.members[k].id),
                                  Participant(opponent.id, opponent.members[p.1].id)))]
       else []) + Emit(current, opponent, k, ps)
  {
    assert ([p] + ps)[1..] == ps;
  }

  /** A step of the inner iterator keeps it the iterator of the same member. */
  lemma TargetForStep(m: PartyMember, n: nat, t: ActionTargetIterator, t': ActionTargetIterator)
    requires TargetFor(m, n, t) && t.iter.Some?
    requires TargetValid(t') && t'.enemies == t.enemies && t'.iter.Some? && t'.action.Some?
    requires t'.enemyIndex <= n
    requires (t'.action == t.action && t'.iter == t.iter) ||
      (|t.iter.value| > 0 && t'.action == Some(t.iter.value[0]) && t'.iter == Some(t.iter.value[1..]))
    ensures TargetFor(m, n, t')
  {
  }

  /** Emits the next move: the head of `Moves`, leaving its tail; `None`
      when nothing is left, and then nothing is left afterwards either. */
  method Next(it: ActionIterator) returns (item: Option<AppliedAction>, it': ActionIterator)
    requires Valid(it)
    ensures Valid(it')
    ensures it'.current == it.current && it'.opponent == it.opponent && it'.currentRange == it.currentRange
    ensures Moves(it) == if item.Some? then [item.value] + Moves(it') else []
    ensures item.None? ==> Moves(it') == []
  {
    it' := it;
    while true
      invariant Valid(it')
      invariant it'.current == it.current && it'.opponent == it.opponent && it'.currentRange == it.currentRange
      invariant Moves(it') == Moves(it)
      decreases it'.currentRange.end - it'.currentIndex, CursorWork(it')
    {
      if it'.currentIndex >= it'.currentRange.end {
        item := None;
        return;
      }
      var member := it'.current.members[it'.currentIndex];
      if !CanAct(member) {
        MovesSkipMember(it');
        it' := it'.(currentIndex := it'.currentIndex + 1);
        continue;
      }
      if it'.iter.None? {
        MovesStartMember(it');
        it' := it'.(iter := Some(NewTargetIterator(member, Range(0, |it'.opponent.members|))));
      }
      var step, t' := TargetNext(it'.iter.value);
      match step
      case None =>
        MovesMemberDone(it');
        it' := it'.(currentIndex := it'.currentIndex + 1, iter := None);
      case Some(p) =>
        MovesMemberStep(it', p, t');
        var (action, targetIndex) := p;
        it' := it'.(iter := Some(t'));
        var target := it'.opponent.members[targetIndex];
        if !IsApplicable(target, action) {
          continue;
        }
        var source := Participant(it'.current.id, member.id);
        var targetId := Participant(it'.opponent.id, target.id);
        item := Some(Targeted(TargetedAction(action, source, targetId)));
        return;
    }
  }

  /** The cursor has run past its range: it emits nothing more. */
  lemma ExhaustedStaysExhausted(it: ActionIterator)
    requires Valid(it) && it.currentIndex >= it.currentRange.end
    ensures Moves(it) == []
  {
  }

  lemma {:induction false} EmitLength(current: Party, opponent: Party, k: nat, ps: seq<(Action, nat)>)
    requires k < |current.members|
    ensures |Emit(current, opponent, k, ps)| <= |ps|
  {
    if |ps| > 0 {
      EmitLength(current, opponent, k, ps[1..]);
    }
  }

  /** At most one move per remaining member and target (each member has
      exactly one action). */
  lemma {:induction false} MovesBound(it: ActionIterator)
    requires Valid(it)
    ensures |Moves(it)| <= (if it.currentIndex < it.currentRange.end then it.currentRange.end - it.currentIndex else 0) * |it.opponent.members|
    decreases it.currentRange.end - it.currentIndex
  {
    if it.currentIndex < it.currentRange.end {
      var next := it.(currentIndex := it.currentIndex + 1, iter := None);
      MovesBound(next);
      var m := it.current.members[it.currentIndex];
      var n := |it.opponent.members|;
      var rest := it.currentRange.end - it.currentIndex;
      if CanAct(m) {
        PendingOfTargetFor(m, n, TargetOf(it));
        EmitLength(it.current, it.opponent, it.currentIndex, Pending(TargetOf(it)));
      }
      assert |Moves(it)| <= n + (rest - 1) * n;
      assert n + (rest - 1) * n == rest * n;
    }
  }

  /** A move of `current` against `opponent`: a living member of `current`
      attacks a living member of `opponent` with its own weapon, and the
      move names both by party id and member id. */
  predicate MoveFrom(current: Party, opponent: Party, mv: AppliedAction) {
    && mv.Targeted?
    && mv.targeted.source.partyId == current.id
    && mv.targeted.target.partyId == opponent.id
    && (exists k :: 0 <= k < |current.members| && current.members[k].id == mv.targeted.source.memberId
                    && CanAct(current.members[k]) && mv.targeted.action == Attack(current.members[k]))
    && (exists t :: 0 <= t < |opponent.members| && opponent.members[t].id == mv.targeted.target.memberId
                    && !IsDead(opponent.members[t]))
  }

  lemma {:induction false} EmitMovesFrom(current: Party, opponent: Party, k: nat, ps: seq<(Action, nat)>)
    requires k < |current.members| && CanAct(current.members[k])
    requires forall j :: 0 <= j < |ps| ==> ps[j].1 < |opponent.members| && ps[j].0 == Attack(current.members[k])
    ensures forall j :: 0 <= j < |Emit(current, opponent, k, ps)| ==> MoveFrom(current, opponent, Emit(current, opponent, k, ps)[j])
  {
    if |ps| > 0 {
      EmitMovesFrom(current, opponent, k, ps[1..]);
      var t := ps[0].1;
      assert 0 <= t < |opponent.members| && opponent.members[t].id == opponent.members[t].id;
    }
  }

  /** Every move the iterator emits is a move of its party against the
      opponent, addressed by the right party and member ids. */
  lemma {:induction false} MovesAreMovesFrom(it: ActionIterator)
    requires Valid(it)
    ensures forall j :: 0 <= j < |Moves(it)| ==> MoveFrom(it.current, it.opponent, Moves(it)[j])
    decreases it.currentRange.end - it.currentIndex
  {
    if it.currentIndex < it.currentRange.end {
      var next := it.(currentIndex := it.currentIndex + 1, iter := None);
      MovesAreMovesFrom(next);
      var m := it.current.members[it.currentIndex];
      if CanAct(m) {
        PendingOfTargetFor(m, |it.opponent.members|, TargetOf(it));
        EmitMovesFrom(it.current, it.opponent, it.currentIndex, Pending(TargetOf(it)));
      }
    }
  }

  /** The move of member `k` of `current` attacking target `j` of `opponent`. */
  function MoveOf(current: Party, opponent: Party, k: nat, j: nat): AppliedAction
    requires k < |current.members| && j < |opponent.members|
  {
    Targeted(TargetedAction(Attack(current.members[k]),
                            Participant(current.id, current.members[k].id),
                            Participant(opponent.id, opponent.members[j].id)))
  }

  /** The moves of member `k` against targets `from` onwards, in order. */
  function Row(current: Party, opponent: Party, k: nat, from: nat): seq<AppliedAction>
    requires k < |current.members| && from <= |opponent.members|
  {
    seq(|opponent.members| - from, j requires 0 <= j < |opponent.members| - from =>
      MoveOf(current, opponent, k, from + j))
  }

  /** The rows of members `k` up to `end`, in order. */
  function Grid(current: Party, opponent: Party, k: nat, end: nat): seq<AppliedAction>
    requires end <= |current.members|
    decreases end - k
  {
    if k >= end then [] else Row(current, opponent, k, 0) + Grid(current, opponent, k + 1, end)
  }

  predicate AllAlive(p: Party) {
    forall i :: 0 <= i < |p.members| ==> !IsDead(p.members[i])
  }

  /** Against living targets every pair of a member's span becomes a move. */
  lemma {:induction false} EmitSpanAllAlive(current: Party, opponent: Party, k: nat, from: nat)
    requires k < |current.members| && from <= |opponent.members| && AllAlive(opponent)
    ensures Emit(current, opponent, k, Span(Attack(current.members[k]), from, |opponent.members|))
      == Row(current, opponent, k, from)
    decreases |opponent.members| - from
  {
    var a, n := Attack(current.members[k]), |opponent.members|;
    if from < n {
      SpanCons(a, from, n);
      EmitSpanAllAlive(current, opponent, k, from + 1);
      assert Span(a, from, n)[1..] == Span(a, from + 1, n);
      assert Row(current, opponent, k, from) == [MoveOf(current, opponent, k, from)] + Row(current, opponent, k, from + 1);
    }
  }

  /** When everybody is alive, a cursor between members emits, member by
      member, the attack on each target in target order. */
  lemma {:induction false} MovesAllAlive(it: ActionIterator)
    requires Valid(it) && it.iter.None? && AllAlive(it.current) && AllAlive(it.opponent)
    ensures Moves(it) == Grid(it.current, it.opponent, it.currentIndex, it.currentRange.end)
    decreases it.currentRange.end - it.currentIndex
  {
    if it.currentIndex < it.currentRange.end {
      var k, n := it.currentIndex, |it.opponent.members|;
      var m := it.current.members[k];
      var next := it.(currentIndex := k + 1);
      assert next == it.(currentIndex := k + 1, iter := None);
      MovesAllAlive(next);
      assert CanAct(m);
      assert TargetOf(it) == NewTargetIterator(m, Range(0, n));
      FreshTargetIteratorEmitsRange(m, Range(0, n));
      EmitSpanAllAlive(it.current, it.opponent, k, 0);
      calc {
        Moves(it);
        Emit(it.current, it.opponent, k, Pending(TargetOf(it))) + Moves(next);
        Row(it.current, it.opponent, k, 0) + Grid(it.current, it.opponent, k + 1, it.currentRange.end);
      }
    }
  }

  /** A fresh iterator over parties whose members are all alive emits every
      (member, target) pair: members in order, and for each member every
      target in order. */
  lemma NewEmitsAllPairs(current: Party, opponent: Party)
    requires |opponent.members| > 0 && AllAlive(current) && AllAlive(opponent)
    ensures Valid(New(current, opponent))
    ensures Moves(New(current, opponent)) == Grid(current, opponent, 0, |current.members|)
    ensures |Moves(New(current, opponent))| == |current.members| * |opponent.members|
  {
    MovesAllAlive(New(current, opponent));
    GridLength(current, opponent, 0, |current.members|);
  }

  lemma {:induction false} GridLength(current: Party, opponent: Party, k: nat, end: nat)
    requires k <= end <= |current.members|
    ensures |Grid(current, opponent, k, end)| == (end - k) * |opponent.members|
    decreases end - k
  {
    if k < end {
      GridLength(current, opponent, k + 1, end);
      assert (end - k) * |opponent.members| == |opponent.members| + (end - (k + 1)) * |opponent.members|;
    }
  }

  /** Two heroes, a stick and fists, against two villains: each hero in
      turn attacks the first villain, then the second, and then nothing is left. */
  lemma TwoHeroesAgainstTwoVillains()
    ensures var heroes := Party(0, [PartyMember(0, 25.0, 0.0, Stick(10.0)), PartyMember(1, 25.0, 0.0, Fists(5.0))], false);
      var villains := Party(1, [PartyMember(0, 25.0, 0.0, Stick(10.0)), PartyMember(1, 25.0, 0.0, Stick(10.0))], false);
      var stick := SimpleAttack(SimpleAttackAction(Some(Stick(10.0)), 10.0));
      var fists := SimpleAttack(SimpleAttackAction(Some(Fists(5.0)), 5.0));
      Valid(New(heroes, villains)) &&
      Moves(New(heroes, villains)) ==
        [Targeted(TargetedAction(stick, Participant(0, 0), Participant(1, 0))),
         Targeted(TargetedAction(stick, Participant(0, 0), Participant(1, 1))),
         Targeted(TargetedAction(fists, Participant(0, 1), Participant(1, 0))),
         Targeted(TargetedAction(fists, Participant(0, 1), Participant(1, 1)))]
  {
    var heroes := Party(0, [PartyMember(0, 25.0, 0.0, Stick(10.0)), PartyMember(1, 25.0, 0.0, Fists(5.0))], false);
    var villains := Party(1, [PartyMember(0, 25.0, 0.0, Stick(10.0)), PartyMember(1, 25.0, 0.0, Stick(10.0))], false);
    NewEmitsAllPairs(heroes, villains);
    assert Grid(heroes, villains, 2, 2) == [];
    assert Grid(heroes, villains, 1, 2) == Row(heroes, villains, 1, 0);
  }

  /** A living target among the pending pairs yields at least one move. */
  lemma {:induction false} EmitHitsLivingTarget(current: Party, opponent: Party, k: nat, ps: seq<(Action, nat)>, j: nat)
    requires k < |current.members|
    requires j < |ps| && ps[j].1 < |opponent.members| && !IsDead(opponent.members[ps[j].1])
    ensures Emit(current, opponent, k, ps) != []
  {
    if j > 0 {
      EmitHitsLivingTarget(current, opponent, k, ps[1..], j - 1);
    }
  }

  /** A cursor that has yet to reach a member able to act, while some
      target is alive, has a move left. */
  lemma {:induction false} MovesReachLivingPair(it: ActionIterator, k: nat, t: nat)
    requires Valid(it) && it.iter.None? && it.currentIndex <= k < it.currentRange.end
    requires CanAct(it.current.members[k]) && t < |it.opponent.members| && !IsDead(it.opponent.members[t])
    ensures Moves(it) != []
    decreases k - it.currentIndex
  {
    var next := it.(currentIndex := it.currentIndex + 1, iter := None);
    var m := it.current.members[it.currentIndex];
    if it.currentIndex < k {
      MovesReachLivingPair(next, k, t);
      if CanAct(m) {
        MovesOfActingMember(it);
      } else {
        MovesSkipMember(it);
        assert it.(currentIndex := it.currentIndex + 1) == next;
      }
    } else {
      var n := |it.opponent.members|;
      FreshTargetIteratorEmitsRange(m, Range(0, n));
      var ps := Pending(TargetOf(it));
      assert ps[t] == (Attack(m), t);
      EmitHitsLivingTarget(it.current, it.opponent, k, ps, t);
    }
  }

  /** A side has a move against the other exactly when neither is defeated. */
  lemma MovesNonEmptyIff(current: Party, opponent: Party)
    requires |opponent.members| > 0
    ensures Valid(New(current, opponent))
    ensures Moves(New(current, opponent)) != [] <==> !IsDefeated(current) && !IsDefeated(opponent)
  {
    var it := New(current, opponent);
    NewIsValid(current, opponent);
    if Moves(it) != [] {
      MovesAreMovesFrom(it);
      assert MoveFrom(current, opponent, Moves(it)[0]);
    }
    if !IsDefeated(current) && !IsDefeated(opponent) {
      NotDefeatedHasLivingMember(current);
      NotDefeatedHasLivingMember(opponent);
      var k :| 0 <= k < |current.members| && !IsDead(current.members[k]);
      var t :| 0 <= t < |opponent.members| && !IsDead(opponent.members[t]);
      MovesReachLivingPair(it, k, t);
    }
  }
}
