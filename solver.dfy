/** The search: depth-limited minimax with alpha-beta pruning over an
    append-only node arena, driven by an explicit depth-first stack
    (src/solver.rs). The trace logging of the source is not modelled. */
module Solver {
  import opened Wrappers
  import opened Actions
  import opened PartyMembers
  import opened Parties
  import opened Conflicts
  import opened Values
  import opened ActionIterators
  import opened SolverUtility
  import opened SearchTree
  import opened Arena
  import opened SearchOrder

  /** The kind of outcome, with the root's score. */
  datatype OutcomeType = Win(score: ExtReal) | Lose(score: ExtReal) | Unknown(score: ExtReal)

  /** One step of the predicted line. `isInitiatorTurn` is the flag of the
      node reached, so it tells whether the initiator moves next. */
  datatype Event = Event(turn: nat, isInitiatorTurn: bool, action: AppliedAction, state: Conflict, depth: nat)

  /** The result of a search: the outcome, the predicted line, and the
      numbers of node visits and of cutoffs. */
  datatype Outcome = Outcome(outcome: OutcomeType, timeline: seq<Event>, evaluations: nat, cuts: nat)

  /** Whether an expansion appended a child. Either way it carries the
      expanded node with its cursor moved on. */
  datatype ExpansionResult = Expanded(node: Node) | Exhausted(node: Node)

  /** Maps the root's value to the outcome: a win is a win, a defeat a
      loss, and an estimate leaves the outcome open, with the same score. */
  function OutcomeOf(v: TerminalState): (o: OutcomeType)
    requires SolverValue(v)
    ensures o.score == v.score
    ensures o.Win? <==> v.Win?
    ensures o.Lose? <==> v.Defeat?
    ensures o.Unknown? <==> v.Heuristic?
  {
    if v.Win? then OutcomeType.Win(v.score)
    else if v.Defeat? then Lose(v.score)
    else Unknown(v.score)
  }

  /** The outcome read off a final state names who won: a win exactly when
      the opponent is beaten and the initiator is not, a loss exactly when
      the initiator is beaten, an open outcome otherwise. */
  lemma OutcomeOfFinalState(s: Conflict)
    ensures OutcomeOf(GetUtility(s)).Win? <==> !IsDefeated(s.initiator) && IsDefeated(s.opponent)
    ensures OutcomeOf(GetUtility(s)).Lose? <==> IsDefeated(s.initiator)
    ensures OutcomeOf(GetUtility(s)).Unknown? <==> !IsDefeated(s.initiator) && !IsDefeated(s.opponent)
  {
  }

  /** The first move of a node's cursor comes from the side to move, and
      its target, looked up by member id as a position, is alive; so the
      move lands and leads to its successor state. */
  lemma ExpandedMoveLands(node: Node, mv: AppliedAction)
    requires CursorOK(node)
    requires |Target(node.state, node.isMaximizing).members| > 0
    requires IdsAreIndices(Target(node.state, node.isMaximizing))
    requires Valid(StartCursor(node)) && |Moves(StartCursor(node))| > 0 && mv == Moves(StartCursor(node))[0]
    ensures mv.Targeted?
    ensures mv.targeted.source.partyId == Mover(node.state, node.isMaximizing).id
    ensures mv.targeted.target.partyId == Target(node.state, node.isMaximizing).id
    ensures mv.targeted.target.memberId < |Target(node.state, node.isMaximizing).members|
    ensures !IsDead(Target(node.state, node.isMaximizing).members[mv.targeted.target.memberId])
    ensures StepTo(node.state, node.isMaximizing, mv, Successor(node.state, node.isMaximizing, mv))
  {
    var it := StartCursor(node);
    MovesAreMovesFrom(it);
    assert MoveFrom(it.current, it.opponent, mv);
  }

  /** Expands `node` by one move. On the first visit the node's cursor is
      created over the side to move against the other side; then the next
      move is taken from it. If there is one and it lands, the child it
      leads to is appended to the arena, and the node's id and then the
      child's id are pushed, so that the child is explored first. The node
      comes back with its cursor moved on; when no move is left, it comes
      back exhausted and nothing else changes. */
  method MinimaxExpand(node: Node, nodes: seq<Node>, frontier: seq<nat>)
      returns (res: ExpansionResult, nodes': seq<Node>, frontier': seq<nat>)
    requires CursorOK(node)
    requires |Target(node.state, node.isMaximizing).members| > 0
    requires IdsAreIndices(Target(node.state, node.isMaximizing))
    ensures Valid(StartCursor(node))
    ensures SameFrame(res.node, node) && res.node.value == node.value && res.node.bestChild == node.bestChild
    ensures CursorOK(res.node) && res.node.actionIter.Some?
    ensures res.Exhausted? ==>
      && nodes' == nodes && frontier' == frontier
      && Moves(StartCursor(node)) == [] && Moves(res.node.actionIter.value) == []
    ensures res.Expanded? ==>
      && |Moves(StartCursor(node))| > 0
      && var mv := Moves(StartCursor(node))[0];
         && Moves(StartCursor(node)) == [mv] + Moves(res.node.actionIter.value)
         && mv.Targeted? && mv.targeted.target.memberId < |Target(node.state, node.isMaximizing).members|
         && StepTo(node.state, node.isMaximizing, mv, Successor(node.state, node.isMaximizing, mv))
         && nodes' == nodes + [Branch(|nodes|, node.id, node.value, !node.isMaximizing, node.depth + 1,
                                      node.turn + 1, Successor(node.state, node.isMaximizing, mv), mv)]
         && frontier' == frontier + [node.id, |nodes|]
  {
    // Select the side to move and the side it attacks.
    var current := Mover(node.state, node.isMaximizing);
    var opponent := Target(node.state, node.isMaximizing);
    var n := node;
    // On the first visit create the cursor; later visits resume it.
    if n.actionIter.None? {
      NewIsValid(current, opponent);
      n := n.(actionIter := Some(ActionIterators.New(current, opponent)));
    }
    assert n.actionIter.value == StartCursor(node);
    var sourcePartyId := current.id;
    var item, it' := Next(n.actionIter.value);
    n := n.(actionIter := Some(it'));
    if item.Some? {
      var mv := item.value;
      ExpandedMoveLands(node, mv);
      var sourceId := mv.targeted.source.memberId;
      assert mv.targeted.source.partyId == sourcePartyId;
      var targetPartyId := mv.targeted.target.partyId;
      assert targetPartyId == opponent.id;
      var targetId := mv.targeted.target.memberId;
      // The target is looked up by its member id used as a position.
      var target := opponent.members[targetId];
      var action := mv.targeted.action;
      var hit := HandleAction(target, action);
      if hit.0 {
        // Branch off with the target replaced by its updated state.
        var opponent' := ReplaceMember(opponent, hit.1);
        var state := if n.isMaximizing then Conflict(node.state.turn + 1, current, opponent')
                     else Conflict(node.state.turn + 1, opponent', current);
        assert state == Successor(node.state, node.isMaximizing, mv);
        var applied := Targeted(TargetedAction(action, Participant(sourcePartyId, sourceId),
                                               Participant(targetPartyId, targetId)));
        assert applied == mv;
        var child := Branch(|nodes|, n.id, n.value, !n.isMaximizing, n.depth + 1, n.turn + 1, state, applied);
        assert child == Branch(|nodes|, node.id, node.value, !node.isMaximizing, node.depth + 1,
                               node.turn + 1, Successor(node.state, node.isMaximizing, mv), mv);
        // The node goes back on the stack below its child.
        frontier' := frontier + [n.id];
        frontier' := frontier' + [child.id];
        assert frontier' == frontier + [node.id, |nodes|];
        nodes' := nodes + [child];
        return Expanded(n), nodes', frontier';
      }
    }
    return Exhausted(n), nodes, frontier;
  }

  /** The moves of the root's side against the other side, in order. */
  function OpeningMoves(root: Conflict): seq<AppliedAction>
    requires |root.opponent.members| > 0
  {
    NewIsValid(root.initiator, root.opponent);
    Moves(ActionIterators.New(root.initiator, root.opponent))
  }

  /** How far the root has got. While the arena holds the root alone, the
      root is still to be visited, or it was finished without a move (the
      depth limit is 0 or there is no opening move). Once a child exists
      there was an opening move, and the root has a best child unless its
      first child, node 1, is still on the stack. Only a minimizing node
      tightens its beta, so the maximizing root keeps beta at +inf and is
      never cut off: once finished below a positive depth limit, its cursor
      has run dry. */
  predicate RootProgress(nodes: seq<Node>, stack: seq<nat>, root: Conflict, maxDepth: nat)
    requires |nodes| > 0 && |root.opponent.members| > 0
  {
    && nodes[0].value.beta == PosInf
    && (stack == [] && maxDepth > 0 ==>
          nodes[0].actionIter.Some? && Valid(nodes[0].actionIter.value) && Moves(nodes[0].actionIter.value) == [])
    && (|nodes| == 1 ==>
          (stack == [0] && nodes[0].actionIter.None?) ||
          (stack == [] && (maxDepth == 0 || OpeningMoves(root) == [])))
    && (|nodes| > 1 ==>
          && maxDepth > 0 && OpeningMoves(root) != []
          && (nodes[0].bestChild.Some? || 1 in stack))
  }

  /** Finishing the top of the stack keeps `RootProgress`. When the root
      is alone it finishes only at the depth limit or without a move. */
  lemma FinishProgress(nodes: seq<Node>, stack: seq<nat>, root: Conflict, maxDepth: nat, node': Node)
    requires |root.opponent.members| > 0
    requires SearchInv(nodes, stack, root, maxDepth) && RootProgress(nodes, stack, root, maxDepth) && |stack| > 0
    requires var id := stack[|stack| - 1];
      && SameFrame(node', nodes[id]) && node'.bestChild == nodes[id].bestChild && CursorOK(node')
      && node'.value.value == (if nodes[id].bestChild.Some? then nodes[id].value.value else GetUtility(node'.state))
    requires node'.parentId.Some? ==> node'.parentId.value < |nodes|
    requires |nodes| == 1 ==>
      nodes[0].depth == maxDepth || (Valid(StartCursor(nodes[0])) && Moves(StartCursor(nodes[0])) == [])
    requires stack[|stack| - 1] == 0 ==>
      && node'.value.beta == nodes[0].value.beta
      && (maxDepth == 0 || (node'.actionIter.Some? && Valid(node'.actionIter.value) && Moves(node'.actionIter.value) == []))
    ensures var id := stack[|stack| - 1];
      RootProgress(PropagateToParent(nodes[id := node'], node').0, stack[..|stack| - 1], root, maxDepth)
  {
    var id := stack[|stack| - 1];
    var s := stack[..|stack| - 1];
    var after := PropagateToParent(nodes[id := node'], node').0;
    assert ShapeAt(nodes, id, root, maxDepth);
    assert ShapeAt(nodes, 0, root, maxDepth);
    if |nodes| == 1 {
      assert id == 0;
    } else if id == 1 {
      assert Linked(nodes, 1);
      assert BestAt(nodes, stack, 0);
      FinishedValueFinite(nodes, stack, root, maxDepth, node');
    } else if 1 in stack {
      assert 1 in s;
    } else if id != 0 {
      assert Linked(nodes, id);
    }
  }

  /** Expanding the top of the stack keeps `RootProgress`: the first
      expansion of the root shows an opening move and pushes node 1. */
  lemma ExpandProgress(nodes: seq<Node>, stack: seq<nat>, root: Conflict, maxDepth: nat, node': Node, child: Node)
    requires |root.opponent.members| > 0
    requires SearchInv(nodes, stack, root, maxDepth) && RootProgress(nodes, stack, root, maxDepth) && |stack| > 0
    requires Settled(nodes, stack, maxDepth)
    requires var node := nodes[stack[|stack| - 1]];
      && node.depth < maxDepth && node'.value == node.value && node'.bestChild == node.bestChild
      && Valid(StartCursor(node)) && Moves(StartCursor(node)) != []
    ensures RootProgress(nodes[stack[|stack| - 1] := node'] + [child], stack + [|nodes|], root, maxDepth)
  {
    var id := stack[|stack| - 1];
    assert ShapeAt(nodes, 0, root, maxDepth);
    if |nodes| == 1 {
      assert id == 0;
    } else {
      assert 1 in stack ==> 1 in stack + [|nodes|];
    }
  }

  /** Propagation reads and writes only the child's parent, so what the
      child's own slot held beforehand does not matter once the child is
      written back there. */
  lemma PropagateIgnoresChildSlot(x: seq<Node>, y: seq<Node>, child: Node)
    requires |x| == |y| && child.id < |x|
    requires forall j :: 0 <= j < |x| && j != child.id ==> x[j] == y[j]
    requires child.parentId.Some? ==> child.parentId.value < |x| && child.parentId.value != child.id
    ensures PropagateToParent(x, child).0[child.id := child] == PropagateToParent(y, child).0[child.id := child]
  {
  }

  /** What the search loop needs to know of the node on top of the stack. */
  lemma TopFacts(nodes: seq<Node>, stack: seq<nat>, root: Conflict, maxDepth: nat)
    requires |root.initiator.members| > 0 && |root.opponent.members| > 0
    requires SearchInv(nodes, stack, root, maxDepth) && RootProgress(nodes, stack, root, maxDepth) && |stack| > 0
    ensures var id := stack[|stack| - 1];
      var n := nodes[id];
      && id < |nodes| && n.id == id && n.depth <= maxDepth && CursorOK(n)
      && LabelsKept(root, n.state)
      && |Target(n.state, n.isMaximizing).members| > 0 && IdsAreIndices(Target(n.state, n.isMaximizing))
      && (n.parentId.Some? ==> n.parentId.value < id)
      && (n.bestChild.Some? ==> n.depth < maxDepth && n.value.value.score.Fin? && |nodes| > 1)
      && (n.bestChild.None? ==>
            && !IsAlphaCutoff(n.value) && !IsBetaCutoff(n.value) && !n.value.value.score.Fin?
            && (!n.isMaximizing ==> !IsNegative(n.value.value)))
      && (|nodes| == 1 ==> id == 0 && n.depth == 0 && n.actionIter.None?
                           && StartCursor(n) == ActionIterators.New(root.initiator, root.opponent))
  {
    var id := stack[|stack| - 1];
    assert ShapeAt(nodes, id, root, maxDepth) && BestAt(nodes, stack, id) && CursorOK(nodes[id]);
    if id > 0 {
      assert Linked(nodes, id);
    }
    BestChildIsDeeper(nodes, stack, root, maxDepth, id);
    if nodes[id].bestChild.None? {
      NoBestChildNoCutoff(nodes, stack, root, maxDepth, id);
    }
  }

  /** The root is never cut off: it maximizes, and with beta at +inf a
      finite score never reaches beta. */
  lemma RootNeverCut(nodes: seq<Node>, stack: seq<nat>, root: Conflict, maxDepth: nat)
    requires |root.opponent.members| > 0
    requires SearchInv(nodes, stack, root, maxDepth) && RootProgress(nodes, stack, root, maxDepth)
    ensures nodes[0].isMaximizing && !IsBetaCutoff(nodes[0].value)
  {
    assert ShapeAt(nodes, 0, root, maxDepth);
  }

  /** Settling a node at the depth limit with its state's utility keeps
      the invariants and lowers the work left. */
  lemma LeafKeeps(nodes: seq<Node>, stack: seq<nat>, root: Conflict, maxDepth: nat, after: seq<Node>, stack': seq<nat>)
    requires |root.initiator.members| > 0 && |root.opponent.members| > 0
    requires SearchInv(nodes, stack, root, maxDepth) && RootProgress(nodes, stack, root, maxDepth) && |stack| > 0
    requires Settled(nodes, stack, maxDepth)
    requires nodes[stack[|stack| - 1]].depth == maxDepth
    requires var id := stack[|stack| - 1];
      var n := nodes[id].(value := WithValue(nodes[id].value, GetUtility(nodes[id].state)));
      && n.id == id && (n.parentId.Some? ==> n.parentId.value < |nodes|)
      && after == PropagateToParent(nodes[id := n], n).0
    requires stack' == stack[..|stack| - 1]
    ensures SearchInv(after, stack', root, maxDepth) && RootProgress(after, stack', root, maxDepth)
    ensures Settled(after, stack', maxDepth)
    ensures SumWork(after, stack', maxDepth, Budget(root)) < SumWork(nodes, stack, maxDepth, Budget(root))
  {
    var id := stack[|stack| - 1];
    var n := nodes[id].(value := WithValue(nodes[id].value, GetUtility(nodes[id].state)));
    TopFacts(nodes, stack, root, maxDepth);
    FinishKeeps(nodes, stack, root, maxDepth, n);
    FinishProgress(nodes, stack, root, maxDepth, n);
    FinishSettled(nodes, stack, root, maxDepth, n);
  }

  /** Cutting off the node on top of the stack, which keeps the value of
      its best child, keeps the invariants and lowers the work left. */
  lemma CutKeeps(nodes: seq<Node>, stack: seq<nat>, root: Conflict, maxDepth: nat, after: seq<Node>, stack': seq<nat>)
    requires |root.initiator.members| > 0 && |root.opponent.members| > 0
    requires SearchInv(nodes, stack, root, maxDepth) && RootProgress(nodes, stack, root, maxDepth) && |stack| > 0
    requires Settled(nodes, stack, maxDepth)
    requires var node := nodes[stack[|stack| - 1]];
      && InCutoff(node)
      && (node.parentId.Some? ==> node.parentId.value < |nodes|)
      && after == PropagateToParent(nodes, node).0
    requires stack' == stack[..|stack| - 1]
    ensures SearchInv(after, stack', root, maxDepth) && RootProgress(after, stack', root, maxDepth)
    ensures Settled(after, stack', maxDepth)
    ensures SumWork(after, stack', maxDepth, Budget(root)) < SumWork(nodes, stack, maxDepth, Budget(root))
  {
    var id := stack[|stack| - 1];
    TopFacts(nodes, stack, root, maxDepth);
    RootNeverCut(nodes, stack, root, maxDepth);
    assert nodes[id := nodes[id]] == nodes;
    FinishKeeps(nodes, stack, root, maxDepth, nodes[id]);
    FinishProgress(nodes, stack, root, maxDepth, nodes[id]);
    FinishSettled(nodes, stack, root, maxDepth, nodes[id]);
  }

  /** Settling an exhausted node on top of the stack, with the value of
      its best child if it found a finite one and its state's utility
      otherwise, keeps the invariants and lowers the work left. */
  lemma ExhaustedKeeps(nodes: seq<Node>, stack: seq<nat>, root: Conflict, maxDepth: nat, n: Node,
                       after: seq<Node>, stack': seq<nat>)
    requires |root.initiator.members| > 0 && |root.opponent.members| > 0
    requires SearchInv(nodes, stack, root, maxDepth) && RootProgress(nodes, stack, root, maxDepth) && |stack| > 0
    requires Settled(nodes, stack, maxDepth)
    requires var node := nodes[stack[|stack| - 1]];
      && SameFrame(n, node) && n.bestChild == node.bestChild && CursorOK(n)
      && n.value == node.value.(value := if node.value.value.score.Fin? then node.value.value else GetUtility(n.state))
      && Valid(StartCursor(node)) && Moves(StartCursor(node)) == []
      && n.actionIter.Some? && Moves(n.actionIter.value) == []
    requires n.id < |nodes| && (n.parentId.Some? ==> n.parentId.value < |nodes|)
    requires after == PropagateToParent(nodes[n.id := n], n).0[n.id := n]
    requires stack' == stack[..|stack| - 1]
    ensures SearchInv(after, stack', root, maxDepth) && RootProgress(after, stack', root, maxDepth)
    ensures Settled(after, stack', maxDepth)
    ensures SumWork(after, stack', maxDepth, Budget(root)) < SumWork(nodes, stack, maxDepth, Budget(root))
  {
    TopFacts(nodes, stack, root, maxDepth);
    FinishKeeps(nodes, stack, root, maxDepth, n);
    FinishProgress(nodes, stack, root, maxDepth, n);
    FinishSettled(nodes, stack, root, maxDepth, n);
    var p := PropagateToParent(nodes[n.id := n], n).0;
    assert p[n.id := n] == p;
  }

  /** Expanding the node on top of the stack by its first move `mv`: the
      node, with its cursor one move further, goes back into its slot, a
      child for the move is appended, and both go on the stack. The
      invariant survives and the measure drops. */
  lemma ExpandedKeeps(nodes: seq<Node>, stack: seq<nat>, root: Conflict, maxDepth: nat, n: Node, mv: AppliedAction,
                      after: seq<Node>, stack': seq<nat>)
    requires |root.initiator.members| > 0 && |root.opponent.members| > 0
    requires SearchInv(nodes, stack, root, maxDepth) && RootProgress(nodes, stack, root, maxDepth) && |stack| > 0
    requires Settled(nodes, stack, maxDepth)
    requires var node := nodes[stack[|stack| - 1]];
      && node.depth < maxDepth
      && SameFrame(n, node) && n.value == node.value && n.bestChild == node.bestChild
      && CursorOK(n) && n.actionIter.Some?
      && Valid(StartCursor(node)) && Moves(StartCursor(node)) == [mv] + Moves(n.actionIter.value)
      && mv.Targeted? && mv.targeted.target.memberId < |Target(node.state, node.isMaximizing).members|
      && StepTo(node.state, node.isMaximizing, mv, Successor(node.state, node.isMaximizing, mv))
    requires var node := nodes[stack[|stack| - 1]];
      var child := Branch(|nodes|, node.id, node.value, !node.isMaximizing, node.depth + 1, node.turn + 1,
                          Successor(node.state, node.isMaximizing, mv), mv);
      && n.id < |nodes| + 1
      && after == (nodes + [child])[n.id := n]
      && stack' == stack[..|stack| - 1] + [node.id, |nodes|]
    ensures SearchInv(after, stack', root, maxDepth) && RootProgress(after, stack', root, maxDepth)
    ensures Settled(after, stack', maxDepth)
    ensures SumWork(after, stack', maxDepth, Budget(root)) < SumWork(nodes, stack, maxDepth, Budget(root))
  {
    var id := stack[|stack| - 1];
    var node := nodes[id];
    TopFacts(nodes, stack, root, maxDepth);
    CursorStepShrinks(root, node, n, mv);
    var state' := Successor(node.state, node.isMaximizing, mv);
    var child := Branch(|nodes|, id, node.value, !node.isMaximizing, node.depth + 1, node.turn + 1, state', mv);
    ExpandKeeps(nodes, stack, root, maxDepth, n, state', mv);
    ExpandProgress(nodes, stack, root, maxDepth, n, child);
    ExpandSettled(nodes, stack, root, maxDepth, n, child, mv);
    assert node.id == id;
    assert after == nodes[id := n] + [child];
    assert stack' == stack + [|nodes|];
  }

  /** Settles an exhausted node `n`: its value is stored in its slot, it
      is propagated to its parent, and then the whole node is written back.
      The result is the propagation from the arena holding `n`. */
  method Settle(nodes: seq<Node>, n: Node) returns (nodes': seq<Node>)
    requires n.id < |nodes|
    requires n.parentId.Some? ==> n.parentId.value < |nodes| && n.parentId.value != n.id
    ensures nodes' == PropagateToParent(nodes[n.id := n], n).0[n.id := n]
  {
    nodes' := nodes[n.id := nodes[n.id].(value := n.value)];
    PropagateIgnoresChildSlot(nodes', nodes[n.id := n], n);
    nodes' := PropagateToParent(nodes', n).0;
    nodes' := nodes'[n.id := n];
  }

  /** One round of the search loop on the node `n` on top of the stack, in
      the source's order. A node at the depth limit takes its state's
      utility, is propagated to its parent and popped. Otherwise a
      maximizing node in a beta cutoff, or a minimizing node in an alpha
      cutoff or holding a negative value, is cut: propagated as it is and
      popped. Any other node takes the next move of its cursor `m`: with a
      move left, it goes back into its slot with the cursor one move
      further, the child for that move is appended, and the node and then
      the child are pushed; with none left, it takes its best child's value
      if it found a finite one and its state's utility otherwise, is
      propagated, written back and popped. */
  predicate Round(nodes: seq<Node>, dfs: seq<nat>, root: Conflict, maxDepth: nat,
                  nodes': seq<Node>, dfs': seq<nat>, cut: bool)
    requires SearchInv(nodes, dfs, root, maxDepth) && |dfs| > 0
    requires |root.initiator.members| > 0 && |root.opponent.members| > 0
  {
    TopShape(nodes, dfs, root, maxDepth);
    var id := dfs[|dfs| - 1];
    var n := nodes[id];
    var pop := dfs[..|dfs| - 1];
    && (cut <==> n.depth != maxDepth && InCutoff(n))
    && (n.depth == maxDepth ==>
          var leaf := n.(value := WithValue(n.value, GetUtility(n.state)));
          dfs' == pop && nodes' == PropagateToParent(nodes[id := leaf], leaf).0)
    && (cut ==> dfs' == pop && nodes' == PropagateToParent(nodes, n).0)
    && (n.depth != maxDepth && !cut ==>
          && id < |nodes'|
          && var m := nodes'[id];
          && SameFrame(m, n) && m.bestChild == n.bestChild && CursorOK(m) && m.actionIter.Some?
          && (Moves(StartCursor(n)) == [] ==>
                && Moves(m.actionIter.value) == []
                && m.value == n.value.(value := if n.value.value.score.Fin? then n.value.value else GetUtility(n.state))
                && dfs' == pop
                && nodes' == PropagateToParent(nodes[id := m], m).0[id := m])
          && (Moves(StartCursor(n)) != [] ==>
                var mv := Moves(StartCursor(n))[0];
                && Moves(StartCursor(n)) == [mv] + Moves(m.actionIter.value)
                && m.value == n.value
                && mv.Targeted? && mv.targeted.target.memberId < |Target(n.state, n.isMaximizing).members|
                && dfs' == pop + [id, |nodes|]
                && nodes' == (nodes + [Branch(|nodes|, id, n.value, !n.isMaximizing, n.depth + 1, n.turn + 1,
                                              Successor(n.state, n.isMaximizing, mv), mv)])[id := m]))
  }

  /** A node at the depth limit, settled with its utility and popped, is
      the round `Round` describes. */
  lemma RoundLeaf(nodes: seq<Node>, dfs: seq<nat>, root: Conflict, maxDepth: nat, after: seq<Node>, dfs': seq<nat>)
    requires SearchInv(nodes, dfs, root, maxDepth) && |dfs| > 0
    requires |root.initiator.members| > 0 && |root.opponent.members| > 0
    requires var id := dfs[|dfs| - 1];
      var n := nodes[id];
      var leaf := n.(value := WithValue(n.value, GetUtility(n.state)));
      && n.depth == maxDepth && (n.parentId.Some? ==> n.parentId.value < |nodes|)
      && after == PropagateToParent(nodes[id := leaf], leaf).0
      && dfs' == dfs[..|dfs| - 1]
    ensures Round(nodes, dfs, root, maxDepth, after, dfs', false)
  {
    TopShape(nodes, dfs, root, maxDepth);
  }

  /** A node in cutoff, propagated as it is and popped, is the round
      `Round` describes. */
  lemma RoundCut(nodes: seq<Node>, dfs: seq<nat>, root: Conflict, maxDepth: nat, after: seq<Node>, dfs': seq<nat>)
    requires SearchInv(nodes, dfs, root, maxDepth) && |dfs| > 0
    requires |root.initiator.members| > 0 && |root.opponent.members| > 0
    requires var n := nodes[dfs[|dfs| - 1]];
      && n.depth != maxDepth
      && InCutoff(n)
      && (n.parentId.Some? ==> n.parentId.value < |nodes|)
      && after == PropagateToParent(nodes, n).0
      && dfs' == dfs[..|dfs| - 1]
    ensures Round(nodes, dfs, root, maxDepth, after, dfs', true)
  {
    TopShape(nodes, dfs, root, maxDepth);
  }

  /** The facts about the expanded node `m` common to both outcomes of an
      expansion. */
  predicate ExpandedFrom(nodes: seq<Node>, dfs: seq<nat>, maxDepth: nat, m: Node)
    requires |dfs| > 0 && dfs[|dfs| - 1] < |nodes|
  {
    var n := nodes[dfs[|dfs| - 1]];
    && n.depth != maxDepth
    && !InCutoff(n)
    && SameFrame(m, n) && m.bestChild == n.bestChild && CursorOK(m) && m.actionIter.Some?
  }

  /** An exhausted node, settled, written back and popped, is the round
      `Round` describes. */
  lemma RoundExhausted(nodes: seq<Node>, dfs: seq<nat>, root: Conflict, maxDepth: nat, m: Node,
                       after: seq<Node>, dfs': seq<nat>)
    requires SearchInv(nodes, dfs, root, maxDepth) && |dfs| > 0
    requires |root.initiator.members| > 0 && |root.opponent.members| > 0
    requires ExpandedFrom(nodes, dfs, maxDepth, m)
    requires var id := dfs[|dfs| - 1];
      var n := nodes[id];
      && Valid(StartCursor(n)) && Moves(StartCursor(n)) == [] && Moves(m.actionIter.value) == []
      && m.value == n.value.(value := if n.value.value.score.Fin? then n.value.value else GetUtility(n.state))
      && (m.parentId.Some? ==> m.parentId.value < |nodes|)
      && after == PropagateToParent(nodes[id := m], m).0[id := m]
      && dfs' == dfs[..|dfs| - 1]
    ensures Round(nodes, dfs, root, maxDepth, after, dfs', false)
  {
    TopShape(nodes, dfs, root, maxDepth);
  }

  /** A node expanded by its first move `mv`, written back and pushed
      below the appended child, is the round `Round` describes. */
  lemma RoundExpanded(nodes: seq<Node>, dfs: seq<nat>, root: Conflict, maxDepth: nat, m: Node, mv: AppliedAction,
                      after: seq<Node>, dfs': seq<nat>)
    requires SearchInv(nodes, dfs, root, maxDepth) && |dfs| > 0
    requires |root.initiator.members| > 0 && |root.opponent.members| > 0
    requires ExpandedFrom(nodes, dfs, maxDepth, m)
    requires var id := dfs[|dfs| - 1];
      var n := nodes[id];
      && Valid(StartCursor(n)) && Moves(StartCursor(n)) == [mv] + Moves(m.actionIter.value)
      && m.value == n.value
      && mv.Targeted? && mv.targeted.target.memberId < |Target(n.state, n.isMaximizing).members|
      && dfs' == dfs[..|dfs| - 1] + [id, |nodes|]
      && after == (nodes + [Branch(|nodes|, id, n.value, !n.isMaximizing, n.depth + 1, n.turn + 1,
                                   Successor(n.state, n.isMaximizing, mv), mv)])[id := m]
    ensures Round(nodes, dfs, root, maxDepth, after, dfs', false)
  {
    TopShape(nodes, dfs, root, maxDepth);
  }

  /** One round of the search loop, as `Round` describes it. The arena
      stays well formed and settled, and the work left shrinks. */
  method Explore(nodes: seq<Node>, dfs: seq<nat>, ghost conflict: Conflict, maxDepth: nat)
      returns (nodes': seq<Node>, dfs': seq<nat>, cut: bool)
    requires |conflict.initiator.members| > 0 && |conflict.opponent.members| > 0
    requires SearchInv(nodes, dfs, conflict, maxDepth) && RootProgress(nodes, dfs, conflict, maxDepth) && |dfs| > 0
    requires Settled(nodes, dfs, maxDepth)
    ensures Round(nodes, dfs, conflict, maxDepth, nodes', dfs', cut)
    ensures SearchInv(nodes', dfs', conflict, maxDepth) && RootProgress(nodes', dfs', conflict, maxDepth)
    ensures Settled(nodes', dfs', maxDepth)
    ensures SumWork(nodes', dfs', maxDepth, Budget(conflict)) < SumWork(nodes, dfs, maxDepth, Budget(conflict))
  {
    var id := dfs[|dfs| - 1];
    dfs' := dfs[..|dfs| - 1];
    var node := nodes[id];
    TopFacts(nodes, dfs, conflict, maxDepth);
    TopShape(nodes, dfs, conflict, maxDepth);
    cut := false;

    // The look-ahead limit ends the search below this node.
    if node.depth == maxDepth {
      node := node.(value := WithValue(node.value, GetUtility(node.state)));
      nodes' := nodes[node.id := nodes[node.id].(value := node.value)];
      nodes' := PropagateToParent(nodes', node).0;
      LeafKeeps(nodes, dfs, conflict, maxDepth, nodes', dfs');
      RoundLeaf(nodes, dfs, conflict, maxDepth, nodes', dfs');
      return;
    }

    // Beta cutoff on a maximizing node, alpha cutoff on a minimizing
    // node, or a minimizing node that already found a defeat.
    if (node.isMaximizing && IsBetaCutoff(node.value))
       || (!node.isMaximizing && IsAlphaCutoff(node.value))
       || (!node.isMaximizing && IsNegative(node.value.value))
    {
      cut := true;
      nodes' := PropagateToParent(nodes, node).0;
      CutKeeps(nodes, dfs, conflict, maxDepth, nodes', dfs');
      RoundCut(nodes, dfs, conflict, maxDepth, nodes', dfs');
      return;
    }

    var res, expanded, frontier := MinimaxExpand(node, nodes, dfs');
    var n := res.node;
    if res.Exhausted? {
      // A finite value came from a best child; otherwise the node is terminal.
      var value := if n.value.value.score.Fin? then n.value.value else GetUtility(n.state);
      n := n.(value := n.value.(value := value));
      nodes' := Settle(nodes, n);
      ExhaustedKeeps(nodes, dfs, conflict, maxDepth, n, nodes', dfs');
      RoundExhausted(nodes, dfs, conflict, maxDepth, n, nodes', dfs');
    } else {
      // The node goes back into the arena.
      nodes', dfs' := expanded[n.id := n], frontier;
      ExpandedKeeps(nodes, dfs, conflict, maxDepth, n, Moves(StartCursor(node))[0], nodes', dfs');
      RoundExpanded(nodes, dfs, conflict, maxDepth, n, Moves(StartCursor(node))[0], nodes', dfs');
    }
  }

  /** The search: depth-first from the root over an explicit stack, one
      call of `Explore` per popped node, counting visits and cutoffs; at
      the end the predicted line is read off the best children. The
      outcome is absent where the source panics: when the root has no
      best child, which happens exactly when the depth limit is 0 or the
      initiator has no opening move. The finished arena is returned as the
      ghost `tree`: every node dominates its children (a maximizing node's
      score is at least theirs, a minimizing node's at most), a node with
      a best child has that child's value, and the predicted line is the
      chain of best children from the root. The line ends at the depth
      limit or in a state where one side is defeated. The root is never
      cut off, so below a positive limit it branches on every opening
      move, and the first move of the line scores at least as well as
      every other. Every node of the tree stopped only at the depth
      limit, in cutoff, or when its cursor ran dry. */
  method Minimax(conflict: Conflict, maxDepth: nat) returns (r: Option<Outcome>, ghost tree: seq<Node>)
    requires |conflict.initiator.members| > 0 && |conflict.opponent.members| > 0
    requires IdsAreIndices(conflict.initiator) && IdsAreIndices(conflict.opponent)
    ensures SearchInv(tree, [], conflict, maxDepth) && Settled(tree, [], maxDepth) && BacktrackReady(tree)
    ensures forall c :: 0 < c < |tree| ==>
      tree[c].parentId.Some? && tree[c].parentId.value < c && Dominates(tree[tree[c].parentId.value], tree[c])
    ensures r.Some? <==> maxDepth > 0 && OpeningMoves(conflict) != []
    ensures r.Some? <==> tree[0].bestChild.Some?
    ensures r.Some? ==>
      var tl := r.value.timeline;
      && tl == Timeline(tree, tree[0].bestChild.value)
      && 0 < |tl| <= maxDepth
      && Play(conflict, true, 0, tl)
      && r.value.outcome == OutcomeOf(GetUtility(tl[|tl| - 1].state))
      && (|tl| == maxDepth || IsDefeated(tl[|tl| - 1].state.initiator) || IsDefeated(tl[|tl| - 1].state.opponent))
      && r.value.cuts <= r.value.evaluations
    ensures maxDepth > 0 ==> ChildMoves(tree, 0) == OpeningMoves(conflict)
    ensures r.Some? ==> RootChoice(tree, r.value)
    ensures forall i :: 0 <= i < |tree| ==> Stopped(tree[i], maxDepth)
  {
    var nodes, evaluations, pruningCuts := Search(conflict, maxDepth);
    FinalTree(nodes, conflict, maxDepth);
    tree := nodes;
    r := Backtrack(nodes, evaluations, pruningCuts);
  }

  /** The search loop of `Minimax`: pops nodes until the stack is empty,
      one call of `Explore` each, and leaves the finished arena. */
  method Search(conflict: Conflict, maxDepth: nat) returns (nodes: seq<Node>, evaluations: nat, pruningCuts: nat)
    requires |conflict.initiator.members| > 0 && |conflict.opponent.members| > 0
    requires IdsAreIndices(conflict.initiator) && IdsAreIndices(conflict.opponent)
    ensures SearchInv(nodes, [], conflict, maxDepth) && RootProgress(nodes, [], conflict, maxDepth)
    ensures Settled(nodes, [], maxDepth)
    ensures pruningCuts <= evaluations
  {
    // The search starts on a maximizing root with the value -inf.
    nodes := [NewRoot(conflict, 0)];
    evaluations := 0;
    pruningCuts := 0;
    var dfs := [0];
    InitialSearchInv(conflict, maxDepth);
    InitialSettled(conflict, maxDepth);
    while |dfs| > 0
      invariant SearchInv(nodes, dfs, conflict, maxDepth)
      invariant RootProgress(nodes, dfs, conflict, maxDepth)
      invariant Settled(nodes, dfs, maxDepth)
      invariant pruningCuts <= evaluations
      decreases SumWork(nodes, dfs, maxDepth, Budget(conflict))
    {
      evaluations := evaluations + 1;
      var cut;
      nodes, dfs, cut := Explore(nodes, dfs, conflict, maxDepth);
      if cut {
        pruningCuts := pruningCuts + 1;
      }
    }
  }

  /** What the finished search leaves: an arena ready to be read, whose
      nodes dominate their children, whose root has a best child exactly
      when the depth limit is positive and there is an opening move, and
      whose chain of best children is a line of play from the conflict,
      within the limit, that ends at the limit or with a defeated side and
      whose last state's utility is the root's value. */
  lemma FinalTree(nodes: seq<Node>, root: Conflict, maxDepth: nat)
    requires |root.initiator.members| > 0 && |root.opponent.members| > 0
    requires SearchInv(nodes, [], root, maxDepth) && RootProgress(nodes, [], root, maxDepth)
    requires Settled(nodes, [], maxDepth)
    ensures BacktrackReady(nodes)
    ensures forall c :: 0 < c < |nodes| ==>
      nodes[c].parentId.Some? && nodes[c].parentId.value < c && Dominates(nodes[nodes[c].parentId.value], nodes[c])
    ensures nodes[0].bestChild.Some? <==> maxDepth > 0 && OpeningMoves(root) != []
    ensures nodes[0].bestChild.Some? ==>
      var tl := Timeline(nodes, nodes[0].bestChild.value);
      var last := tl[|tl| - 1].state;
      && 0 < |tl| <= maxDepth
      && Play(root, true, 0, tl)
      && OutcomeOf(nodes[0].value.value) == OutcomeOf(GetUtility(last))
      && (|tl| == maxDepth || IsDefeated(last.initiator) || IsDefeated(last.opponent))
    ensures maxDepth > 0 ==> ChildMoves(nodes, 0) == OpeningMoves(root)
    ensures forall c :: 0 < c < |nodes| && nodes[c].parentId == Some(0) ==>
      Le(nodes[c].value.value.score, nodes[0].value.value.score)
    ensures forall i :: 0 <= i < |nodes| ==> Stopped(nodes[i], maxDepth)
    ensures nodes[0].bestChild.Some? ==>
      var b := nodes[0].bestChild.value;
      && 0 < b < |nodes| && nodes[b].parentId == Some(0)
      && nodes[b].value.value.score == nodes[0].value.value.score
      && nodes[b].action == Some(Timeline(nodes, b)[0].action)
  {
    assert BestAt(nodes, [], 0) && ShapeAt(nodes, 0, root, maxDepth);
    FinalLine(nodes, root, maxDepth);
    FinalOrder(nodes, root, maxDepth);
    RootCovered(nodes, root, maxDepth);
    forall i | 0 <= i < |nodes|
      ensures Stopped(nodes[i], maxDepth)
    {
      assert StopsAt(nodes, [], maxDepth, i);
    }
  }

  /** The root is never cut off, so below a positive depth limit the
      finished search has branched on every opening move, once each and
      in the order the cursor emits them. */
  lemma RootCovered(nodes: seq<Node>, root: Conflict, maxDepth: nat)
    requires |root.initiator.members| > 0 && |root.opponent.members| > 0
    requires SearchInv(nodes, [], root, maxDepth) && RootProgress(nodes, [], root, maxDepth)
    requires Settled(nodes, [], maxDepth)
    ensures maxDepth > 0 ==> ChildMoves(nodes, 0) == OpeningMoves(root)
  {
    if maxDepth > 0 {
      assert ShapeAt(nodes, 0, root, maxDepth) && CursorOK(nodes[0]) && CoveredAt(nodes, 0);
      assert FreshCursor(nodes[0]) == ActionIterators.New(root.initiator, root.opponent);
    }
  }

  /** In a finished arena every node but the root hangs below an earlier
      node, which dominates it. */
  lemma FinalOrder(nodes: seq<Node>, root: Conflict, maxDepth: nat)
    requires SearchInv(nodes, [], root, maxDepth) && Settled(nodes, [], maxDepth)
    ensures forall c :: 0 < c < |nodes| ==>
      nodes[c].parentId.Some? && nodes[c].parentId.value < c && Dominates(nodes[nodes[c].parentId.value], nodes[c])
  {
    forall c | 0 < c < |nodes|
      ensures nodes[c].parentId.Some? && nodes[c].parentId.value < c
      ensures Dominates(nodes[nodes[c].parentId.value], nodes[c])
    {
      assert ShapeAt(nodes, c, root, maxDepth) && Linked(nodes, c);
      assert OrderedAt(nodes, [], nodes[c].parentId.value);
    }
  }

  /** In a finished arena a node's best child is the best of its
      children for the node's side: no child of a maximizing node scores
      above it, and no child of a minimizing node below it. */
  lemma BestChildIsExtreme(nodes: seq<Node>, root: Conflict, maxDepth: nat, i: nat, c: nat)
    requires SearchInv(nodes, [], root, maxDepth) && Settled(nodes, [], maxDepth)
    requires i < |nodes| && nodes[i].bestChild.Some? && c < |nodes| && nodes[c].parentId == Some(i)
    ensures var b := nodes[i].bestChild.value;
      b < |nodes| && nodes[b].parentId == Some(i)
      && (nodes[i].isMaximizing ==> Le(nodes[c].value.value.score, nodes[b].value.value.score))
      && (!nodes[i].isMaximizing ==> Le(nodes[b].value.value.score, nodes[c].value.value.score))
  {
    assert BestAt(nodes, [], i) && OrderedAt(nodes, [], i);
  }

  /** The first move of the predicted line is the move of one of the
      root's children, that child scores the outcome, and no child of the
      root scores above it. */
  predicate RootChoice(tree: seq<Node>, o: Outcome) {
    && |o.timeline| > 0
    && (exists b :: 0 < b < |tree| && tree[b].parentId == Some(0) && tree[b].action == Some(o.timeline[0].action)
                    && tree[b].value.value.score == o.outcome.score)
    && forall c :: 0 < c < |tree| && tree[c].parentId == Some(0) ==> Le(tree[c].value.value.score, o.outcome.score)
  }

  /** What reading the line off the arena relies on: best children point
      forward inside the arena, every node but the root has an action,
      and the root's value is one the search produces. */
  predicate BacktrackReady(nodes: seq<Node>) {
    && |nodes| > 0
    && SolverValue(nodes[0].value.value)
    && forall i :: 0 <= i < |nodes| ==>
         && (nodes[i].bestChild.Some? ==> i < nodes[i].bestChild.value < |nodes|)
         && (i > 0 ==> nodes[i].action.Some?)
  }

  /** The event recorded for a node reached by an action. */
  function EventOf(n: Node): Event
    requires n.action.Some?
  {
    Event(n.turn, n.isMaximizing, n.action.value, n.state, n.depth)
  }

  /** The events from node `i` down its chain of best children. */
  function Timeline(nodes: seq<Node>, i: nat): seq<Event>
    requires BacktrackReady(nodes) && 0 < i < |nodes|
    decreases |nodes| - i
  {
    [EventOf(nodes[i])] + (if nodes[i].bestChild.Some? then Timeline(nodes, nodes[i].bestChild.value) else [])
  }

  /** Reads the outcome off the root's value and the predicted line off
      the chain of best children, starting at the root's best child. The
      source panics when the root has no best child; the result is then
      absent. */
  method Backtrack(nodes: seq<Node>, evaluations: nat, pruningCuts: nat) returns (r: Option<Outcome>)
    requires BacktrackReady(nodes)
    ensures r.None? <==> nodes[0].bestChild.None?
    ensures r.Some? ==>
      r.value == Outcome(OutcomeOf(nodes[0].value.value), Timeline(nodes, nodes[0].bestChild.value),
                         evaluations, pruningCuts)
  {
    var outcome := OutcomeOf(nodes[0].value.value);
    if nodes[0].bestChild.None? {
      return None;
    }
    var node := nodes[0].bestChild.value;
    var stack := [EventOf(nodes[node])];
    while nodes[node].bestChild.Some?
      invariant 0 < node < |nodes| && |stack| > 0
      invariant stack + Timeline(nodes, node)[1..] == Timeline(nodes, nodes[0].bestChild.value)
      decreases |nodes| - node
    {
      node := nodes[node].bestChild.value;
      stack := stack + [EventOf(nodes[node])];
    }
    return Some(Outcome(outcome, stack, evaluations, pruningCuts));
  }

  /** `events` is a line of play from state `s` at depth `d`, with the
      initiator to move when `isMaximizing`: each event is a move of the
      side to move and the state it leads to, one turn and one level
      further, and records whether the initiator moves next. */
  predicate Play(s: Conflict, isMaximizing: bool, d: nat, events: seq<Event>)
    decreases |events|
  {
    |events| == 0 ||
      var e := events[0];
      && StepTo(s, isMaximizing, e.action, e.state)
      && e.turn == d + 1 && e.depth == d + 1 && e.isInitiatorTurn == !isMaximizing
      && Play(e.state, !isMaximizing, d + 1, events[1..])
  }

  /** Turn and depth of a node agree: both start at 0 and grow by one per move. */
  lemma {:induction false} TurnIsDepth(nodes: seq<Node>, root: Conflict, maxDepth: nat, i: nat)
    requires Shape(nodes, root, maxDepth) && i < |nodes|
    ensures nodes[i].turn == nodes[i].depth
    decreases i
  {
    assert ShapeAt(nodes, i, root, maxDepth);
    if i > 0 {
      assert Linked(nodes, i);
      TurnIsDepth(nodes, root, maxDepth, nodes[i].parentId.value);
    }
  }

  /** In a finished arena, the chain of best children below node `i` is a
      line of play from `i`'s parent that stays within the depth limit and
      ends in a state whose utility is `i`'s value. */
  lemma {:induction false} ChainLine(nodes: seq<Node>, root: Conflict, maxDepth: nat, i: nat)
    requires SearchInv(nodes, [], root, maxDepth) && BacktrackReady(nodes) && 0 < i < |nodes|
    ensures nodes[i].parentId.Some? && nodes[i].parentId.value < i
    ensures var p := nodes[nodes[i].parentId.value];
      var tl := Timeline(nodes, i);
      && Play(p.state, p.isMaximizing, p.depth, tl)
      && p.depth + |tl| <= maxDepth
      && nodes[i].value.value == GetUtility(tl[|tl| - 1].state)
    decreases |nodes| - i
  {
    assert ShapeAt(nodes, i, root, maxDepth) && Linked(nodes, i) && BestAt(nodes, [], i);
    TurnIsDepth(nodes, root, maxDepth, nodes[i].parentId.value);
    var tl := Timeline(nodes, i);
    if nodes[i].bestChild.Some? {
      var c := nodes[i].bestChild.value;
      ChainLine(nodes, root, maxDepth, c);
      assert tl[1..] == Timeline(nodes, c);
      assert tl[|tl| - 1] == Timeline(nodes, c)[|Timeline(nodes, c)| - 1];
    }
  }

  /** In a finished, settled arena, the chain of best children below node
      `i` ends at the depth limit or in a state with a defeated side. */
  lemma {:induction false} ChainEnds(nodes: seq<Node>, root: Conflict, maxDepth: nat, i: nat)
    requires |root.initiator.members| > 0 && |root.opponent.members| > 0
    requires SearchInv(nodes, [], root, maxDepth) && Settled(nodes, [], maxDepth)
    requires BacktrackReady(nodes) && 0 < i < |nodes|
    ensures var tl := Timeline(nodes, i);
      var last := tl[|tl| - 1].state;
      nodes[i].depth + |tl| == maxDepth + 1 || IsDefeated(last.initiator) || IsDefeated(last.opponent)
    decreases |nodes| - i
  {
    var tl := Timeline(nodes, i);
    if nodes[i].bestChild.Some? {
      var c := nodes[i].bestChild.value;
      assert BestAt(nodes, [], i) && ShapeAt(nodes, c, root, maxDepth) && Linked(nodes, c);
      ChainEnds(nodes, root, maxDepth, c);
      assert tl[1..] == Timeline(nodes, c);
      assert tl[|tl| - 1] == Timeline(nodes, c)[|Timeline(nodes, c)| - 1];
    } else {
      LeafEnds(nodes, root, maxDepth, i);
    }
  }

  /** A finished node without a best child is at the depth limit, or one
      side of its state is defeated. */
  lemma LeafEnds(nodes: seq<Node>, root: Conflict, maxDepth: nat, i: nat)
    requires |root.initiator.members| > 0 && |root.opponent.members| > 0
    requires SearchInv(nodes, [], root, maxDepth) && Settled(nodes, [], maxDepth)
    requires i < |nodes| && nodes[i].bestChild.None?
    ensures var s := nodes[i].state;
      nodes[i].depth == maxDepth || IsDefeated(s.initiator) || IsDefeated(s.opponent)
  {
    var n := nodes[i];
    assert EndsAt(nodes, [], maxDepth, i) && ShapeAt(nodes, i, root, maxDepth);
    if n.depth != maxDepth {
      MovesNonEmptyIff(Mover(n.state, n.isMaximizing), Target(n.state, n.isMaximizing));
    }
  }

  /** In a finished arena the predicted line from the root is a line of
      play from the conflict, at most `maxDepth` moves long, and its last
      state's utility is the root's value. */
  lemma FinalLine(nodes: seq<Node>, root: Conflict, maxDepth: nat)
    requires |root.initiator.members| > 0 && |root.opponent.members| > 0
    requires SearchInv(nodes, [], root, maxDepth) && Settled(nodes, [], maxDepth)
    ensures BacktrackReady(nodes)
    ensures nodes[0].bestChild.Some? ==>
      var tl := Timeline(nodes, nodes[0].bestChild.value);
      var last := tl[|tl| - 1].state;
      && 0 < |tl| <= maxDepth
      && Play(root, true, 0, tl)
      && nodes[0].value.value == GetUtility(last)
      && (|tl| == maxDepth || IsDefeated(last.initiator) || IsDefeated(last.opponent))
  {
    forall i | 0 <= i < |nodes|
      ensures nodes[i].bestChild.Some? ==> i < nodes[i].bestChild.value < |nodes|
      ensures i > 0 ==> nodes[i].action.Some?
    {
      assert BestAt(nodes, [], i) && ShapeAt(nodes, i, root, maxDepth);
      if i > 0 {
        assert Linked(nodes, i);
      }
    }
    assert BestAt(nodes, [], 0) && ShapeAt(nodes, 0, root, maxDepth);
    if nodes[0].bestChild.Some? {
      var b := nodes[0].bestChild.value;
      ChainLine(nodes, root, maxDepth, b);
      assert ShapeAt(nodes, b, root, maxDepth) && Linked(nodes, b);
      ChainEnds(nodes, root, maxDepth, b);
    }
  }

  /** Predicts the line of play that resolves the conflict in favour of
      the initiator. The depth limit is raised to at least 1, so an outcome
      exists exactly when neither side is already defeated; the predicted
      line is then between 1 and that many moves long, each move legal, and
      the outcome is read off the state the line ends in, which is at that
      depth or has a defeated side. Every opening move is tried, and the
      ghost `tree` shows that none scores above the chosen one, and that
      every node stopped only at the depth limit, in cutoff, or when its
      cursor ran dry. */
  method Engage(conflict: Conflict, maxDepth: nat) returns (r: Option<Outcome>, ghost tree: seq<Node>)
    requires |conflict.initiator.members| > 0 && |conflict.opponent.members| > 0
    requires IdsAreIndices(conflict.initiator) && IdsAreIndices(conflict.opponent)
    ensures r.Some? <==> !IsDefeated(conflict.initiator) && !IsDefeated(conflict.opponent)
    ensures r.Some? ==>
      var tl := r.value.timeline;
      var depth := if maxDepth >= 1 then maxDepth else 1;
      && 0 < |tl| <= depth
      && Play(conflict, true, 0, tl)
      && r.value.outcome == OutcomeOf(GetUtility(tl[|tl| - 1].state))
      && (|tl| == depth || IsDefeated(tl[|tl| - 1].state.initiator) || IsDefeated(tl[|tl| - 1].state.opponent))
      && r.value.cuts <= r.value.evaluations
    ensures ChildMoves(tree, 0) == OpeningMoves(conflict)
    ensures r.Some? ==> RootChoice(tree, r.value)
    ensures forall i :: 0 <= i < |tree| ==> Stopped(tree[i], if maxDepth >= 1 then maxDepth else 1)
  {
    var depth := if maxDepth >= 1 then maxDepth else 1;
    MovesNonEmptyIff(conflict.initiator, conflict.opponent);
    r, tree := Minimax(conflict, depth);
  }
}
