/** Search nodes, the moves between their states, and the update of a
    parent from a finished child (src/solver.rs). The search keeps its
    nodes in an append-only sequence addressed by index; a node is a value
    that the search copies, changes and writes back. */
module SearchTree {
  import opened Wrappers
  import opened Actions
  import opened PartyMembers
  import opened Parties
  import opened Conflicts
  import opened Values
  import opened ActionIterators

  /** A node of the game tree. `id` is its index in the arena; the
      write-only list of child ids kept by the source is not modelled. */
  datatype Node = Node(
    id: nat,
    parentId: Option<nat>,
    turn: nat,
    depth: nat,
    actionIter: Option<ActionIterator>,
    isMaximizing: bool,
    value: Value,
    bestChild: Option<nat>,
    action: Option<AppliedAction>,
    state: Conflict)

  /** The root: no parent, no action, maximizing, with the value
      `Heuristic(-inf)` in the widest window. The parameter is named after
      the search depth but becomes the root's depth; the search passes 0. */
  function NewRoot(conflict: Conflict, maxDepth: nat): (n: Node)
    ensures n.id == 0 && n.parentId.None? && n.action.None? && n.bestChild.None?
    ensures n.depth == maxDepth && n.turn == 0 && n.isMaximizing && n.state == conflict
    ensures n.value == Values.New(Heuristic(NegInf)) && n.actionIter.None?
    ensures !IsAlphaCutoff(n.value) && !IsBetaCutoff(n.value)
  {
    Node(0, None, 0, maxDepth, None, true, Values.New(Heuristic(NegInf)), None, None, conflict)
  }

  /** The worst value for the side to move: -inf for the maximizer, +inf
      for the minimizer. */
  function InitialValue(isMaximizing: bool): TerminalState {
    Heuristic(if isMaximizing then NegInf else PosInf)
  }

  /** The cutoffs the search tests before expanding a node, in the
      source's order: a maximizer whose value reached beta, a minimizer
      whose value fell to alpha, and a minimizer whose value is already
      negative. */
  predicate InCutoff(n: Node) {
    || (n.isMaximizing && IsBetaCutoff(n.value))
    || (!n.isMaximizing && IsAlphaCutoff(n.value))
    || (!n.isMaximizing && IsNegative(n.value.value))
  }

  /** A child reached by `action`. It inherits the parent's window and
      starts at the worst value for its own side, so it never starts cut off. */
  function Branch(id: nat, parentId: nat, parentValue: Value, isMaximizing: bool, depth: nat,
                  turn: nat, state: Conflict, action: AppliedAction): (n: Node)
    ensures n.id == id && n.parentId == Some(parentId) && n.action == Some(action)
    ensures n.isMaximizing == isMaximizing && n.depth == depth && n.turn == turn && n.state == state
    ensures n.value.alpha == parentValue.alpha && n.value.beta == parentValue.beta
    ensures n.value.value == InitialValue(isMaximizing)
    ensures n.bestChild.None? && n.actionIter.None?
    ensures !IsAlphaCutoff(n.value) && !IsBetaCutoff(n.value) && (IsNegative(n.value.value) <==> isMaximizing)
  {
    Node(id, Some(parentId), turn, depth, None, isMaximizing,
         if isMaximizing then WithValue(parentValue, Heuristic(NegInf))
         else WithValue(parentValue, Heuristic(PosInf)),
         None, Some(action), state)
  }

  /** The side to move: the initiator on maximizing nodes. */
  function Mover(s: Conflict, isMaximizing: bool): Party {
    if isMaximizing then s.initiator else s.opponent
  }

  /** The side being attacked. */
  function Target(s: Conflict, isMaximizing: bool): Party {
    if isMaximizing then s.opponent else s.initiator
  }

  /** The state after `hit` replaces its namesake on the attacked side.
      The sides keep their labels: the initiator stays the initiator. */
  function ApplyHit(s: Conflict, isMaximizing: bool, hit: PartyMember): Conflict {
    var target := Target(s, isMaximizing);
    var target' := target.(members := Replaced(target.members, hit));
    if isMaximizing then Conflict(s.turn + 1, s.initiator, target')
    else Conflict(s.turn + 1, target', s.opponent)
  }

  /** The state a move of the side to move leads to: its target takes the
      hit. The target is looked up by its member id used as a position. */
  function Successor(s: Conflict, isMaximizing: bool, mv: AppliedAction): Conflict
    requires mv.Targeted? && mv.targeted.target.memberId < |Target(s, isMaximizing).members|
  {
    var target := Target(s, isMaximizing);
    ApplyHit(s, isMaximizing, HandleAction(target.members[mv.targeted.target.memberId], mv.targeted.action).1)
  }

  /** `mv` is a move of the side to move in `s`, and `s'` is the state it
      leads to. */
  predicate StepTo(s: Conflict, isMaximizing: bool, mv: AppliedAction, s': Conflict) {
    && mv.Targeted?
    && MoveFrom(Mover(s, isMaximizing), Target(s, isMaximizing), mv)
    && mv.targeted.target.memberId < |Target(s, isMaximizing).members|
    && s' == Successor(s, isMaximizing, mv)
  }

  /** A step changes exactly one member, the target, of the attacked side
      (found by id, which is its position); it keeps the moving side, both
      party ids and the sizes, and counts one more turn. */
  lemma StepChangesOneMember(s: Conflict, isMaximizing: bool, mv: AppliedAction, s': Conflict)
    requires StepTo(s, isMaximizing, mv, s')
    requires IdsAreIndices(Target(s, isMaximizing))
    ensures var target := Target(s, isMaximizing);
      var t := mv.targeted.target.memberId;
      && s'.turn == s.turn + 1
      && Mover(s', isMaximizing) == Mover(s, isMaximizing)
      && Target(s', isMaximizing) ==
           target.(members := target.members[t := HandleAction(target.members[t], mv.targeted.action).1])
      && s'.initiator.id == s.initiator.id && s'.opponent.id == s.opponent.id
  {
    var target := Target(s, isMaximizing);
    var t := mv.targeted.target.memberId;
    var hit := HandleAction(target.members[t], mv.targeted.action).1;
    assert hit.id == t;
    ReplacedById(target.members, hit);
  }

  /** What stays fixed along every line of play from `root`: party ids,
      sizes, ids equal to positions and the retreat flags. */
  predicate LabelsKept(root: Conflict, s: Conflict) {
    && s.initiator.id == root.initiator.id && s.opponent.id == root.opponent.id
    && |s.initiator.members| == |root.initiator.members|
    && |s.opponent.members| == |root.opponent.members|
    && IdsAreIndices(s.initiator) && IdsAreIndices(s.opponent)
    && s.initiator.hasRetreated == root.initiator.hasRetreated
    && s.opponent.hasRetreated == root.opponent.hasRetreated
  }

  lemma StepKeepsLabels(root: Conflict, s: Conflict, isMaximizing: bool, mv: AppliedAction, s': Conflict)
    requires LabelsKept(root, s) && StepTo(s, isMaximizing, mv, s')
    ensures LabelsKept(root, s')
  {
    StepChangesOneMember(s, isMaximizing, mv, s');
    var target := Target(s, isMaximizing);
    var t := mv.targeted.target.memberId;
    var hit := HandleAction(target.members[t], mv.targeted.action).1;
    assert hit.id == t;
    assert IdsAreIndices(Target(s', isMaximizing));
  }

  /** The score kinds the search produces: never a retreat or a remain. */
  predicate SolverValue(v: TerminalState) {
    v.Win? || v.Defeat? || v.Heuristic?
  }

  /** Updates the parent of a finished `child` from the child's value. A
      maximizing parent keeps the larger score, a minimizing one the
      smaller; the best child changes only on a strict improvement. Then
      the parent's own cutoff is tested, and if there is none its alpha
      (maximizing) or beta (minimizing) is tightened by the child's score.
      The root has no parent and nothing happens. */
  function PropagateToParent(nodes: seq<Node>, child: Node): (r: (seq<Node>, Cutoff))
    requires child.parentId.Some? ==> child.parentId.value < |nodes|
    ensures |r.0| == |nodes|
    ensures child.parentId.None? ==> r == (nodes, NoCutoff)
    ensures child.parentId.Some? ==>
      var p := child.parentId.value;
      var old_ := nodes[p];
      var new_ := r.0[p];
      var c := child.value.value;
      && (forall j :: 0 <= j < |nodes| && j != p ==> r.0[j] == nodes[j])
      && new_ == old_.(value := new_.value, bestChild := new_.bestChild)
      && (old_.isMaximizing ==>
            && new_.value.value.score == Max(old_.value.value.score, c.score)
            && new_.value.value == (if Lt(old_.value.value.score, c.score) then c else old_.value.value)
            && new_.bestChild == (if Lt(old_.value.value.score, c.score) then Some(child.id) else old_.bestChild)
            && new_.value.beta == old_.value.beta
            && (r.1 == Beta <==> IsBetaCutoff(new_.value))
            && r.1 != Alpha
            && new_.value.alpha == if r.1 == Beta then old_.value.alpha else Max(old_.value.alpha, c.score))
      && (!old_.isMaximizing ==>
            && new_.value.value.score == Min(old_.value.value.score, c.score)
            && new_.value.value == (if Lt(c.score, old_.value.value.score) then c else old_.value.value)
            && new_.bestChild == (if Lt(c.score, old_.value.value.score) then Some(child.id) else old_.bestChild)
            && new_.value.alpha == old_.value.alpha
            && (r.1 == Alpha <==> IsAlphaCutoff(new_.value))
            && r.1 != Beta
            && new_.value.beta == if r.1 == Alpha then old_.value.beta else Min(old_.value.beta, c.score))
  {
    if child.parentId.None? then (nodes, NoCutoff)
    else
      var p := child.parentId.value;
      var parent := nodes[p];
      var c := child.value.value;
      if parent.isMaximizing then
        var improved := ScoreLt(parent.value.value, c);
        var v := if improved then parent.value.(value := c) else parent.value;
        var best := if improved then Some(child.id) else parent.bestChild;
        if IsBetaCutoff(v) then (nodes[p := parent.(value := v, bestChild := best)], Beta)
        else (nodes[p := parent.(value := v.(alpha := Max(v.alpha, c.score)), bestChild := best)], NoCutoff)
      else
        var improved := ScoreLt(c, parent.value.value);
        var v := if improved then parent.value.(value := c) else parent.value;
        var best := if improved then Some(child.id) else parent.bestChild;
        if IsAlphaCutoff(v) then (nodes[p := parent.(value := v, bestChild := best)], Alpha)
        else (nodes[p := parent.(value := v.(beta := Min(v.beta, c.score)), bestChild := best)], NoCutoff)
  }
}
