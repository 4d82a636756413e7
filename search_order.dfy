/** What the finished part of the search tree says about the line the
    search picks (src/solver.rs): the score of a finished child never beats
    its parent's for the parent's side, and a finished node without a best
    child never branched and stopped at the depth limit or where the side
    to move had no move. */
module SearchOrder {
  import opened Wrappers
  import opened Actions
  import opened Parties
  import opened Conflicts
  import opened Values
  import opened ActionIterators
  import opened SearchTree
  import opened SolverUtility
  import opened Arena

  /** No node of the arena hangs below node `i`. */
  predicate Childless(nodes: seq<Node>, i: nat) {
    forall c :: 0 <= c < |nodes| ==> nodes[c].parentId != Some(i)
  }

  /** The score of `p` is at least that of `c` when `p` maximizes, and at
      most when it minimizes. */
  predicate Dominates(p: Node, c: Node) {
    if p.isMaximizing then Le(c.value.value.score, p.value.value.score)
    else Le(p.value.value.score, c.value.value.score)
  }

  /** The moves node `i` branched on, in the order its children were
      appended to the arena. */
  function ChildMoves(nodes: seq<Node>, i: nat): seq<AppliedAction>
    decreases |nodes|
  {
    if |nodes| == 0 then []
    else
      var last := nodes[|nodes| - 1];
      ChildMoves(nodes[..|nodes| - 1], i) + (if last.parentId == Some(i) && last.action.Some? then [last.action.value] else [])
  }

  /** Every move node `i` branched on has a child in the arena. */
  lemma {:induction false} ChildOfMove(nodes: seq<Node>, i: nat, k: nat)
    requires k < |ChildMoves(nodes, i)|
    ensures exists c :: 0 <= c < |nodes| && nodes[c].parentId == Some(i) && nodes[c].action == Some(ChildMoves(nodes, i)[k])
    decreases |nodes|
  {
    var init := nodes[..|nodes| - 1];
    if k < |ChildMoves(init, i)| {
      ChildOfMove(init, i, k);
      var c :| 0 <= c < |init| && init[c].parentId == Some(i) && init[c].action == Some(ChildMoves(init, i)[k]);
      assert nodes[c] == init[c];
    } else {
      assert nodes[|nodes| - 1].action == Some(ChildMoves(nodes, i)[k]);
    }
  }

  /** Only the parents and the actions of the nodes decide `ChildMoves`. */
  lemma {:induction false} ChildMovesFrame(a: seq<Node>, b: seq<Node>, i: nat)
    requires |a| == |b| && forall j :: 0 <= j < |a| ==> SameFrame(a[j], b[j])
    ensures ChildMoves(a, i) == ChildMoves(b, i)
    decreases |a|
  {
    if |a| > 0 {
      ChildMovesFrame(a[..|a| - 1], b[..|b| - 1], i);
    }
  }

  /** A node without a child branched on no move. */
  lemma {:induction false} ChildlessMoves(nodes: seq<Node>, i: nat)
    requires Childless(nodes, i)
    ensures ChildMoves(nodes, i) == []
    decreases |nodes|
  {
    if |nodes| > 0 {
      var init := nodes[..|nodes| - 1];
      forall c | 0 <= c < |init|
        ensures init[c].parentId != Some(i)
      {
        assert init[c] == nodes[c];
      }
      ChildlessMoves(init, i);
    }
  }

  /** The moves node `i` branched on, followed by the moves its cursor has
      still to emit, are all the moves of its side against the other
      side, in order: each move is tried once and none is skipped. */
  predicate CoveredAt(nodes: seq<Node>, i: nat)
    requires i < |nodes|
  {
    var n := nodes[i];
    CursorOK(n) && |Target(n.state, n.isMaximizing).members| > 0 ==>
      ChildMoves(nodes, i) + Moves(StartCursor(n)) == Moves(FreshCursor(n))
  }

  /** Node `i` dominates each of its finished children. */
  predicate OrderedAt(nodes: seq<Node>, stack: seq<nat>, i: nat)
    requires i < |nodes|
  {
    forall c :: 0 <= c < |nodes| && nodes[c].parentId == Some(i) && c !in stack ==> Dominates(nodes[i], nodes[c])
  }

  /** A finished node without a best child is a leaf of the search: it has
      no child, and it is at the depth limit or its side to move has no
      move against the other side. */
  predicate EndsAt(nodes: seq<Node>, stack: seq<nat>, maxDepth: nat, i: nat)
    requires i < |nodes|
  {
    var n := nodes[i];
    n.bestChild.None? && i !in stack ==>
      && Childless(nodes, i)
      && (|| n.depth == maxDepth
          || (|Target(n.state, n.isMaximizing).members| > 0 && Moves(FreshCursor(n)) == []))
  }

  /** Why a finished node stopped: it is at the depth limit, it was in
      cutoff, or its own cursor has no move left. A finished node is
      never changed again, so this stays true. */
  predicate Stopped(n: Node, maxDepth: nat) {
    || n.depth == maxDepth
    || InCutoff(n)
    || (n.actionIter.Some? && Valid(n.actionIter.value) && Moves(n.actionIter.value) == [])
  }

  predicate StopsAt(nodes: seq<Node>, stack: seq<nat>, maxDepth: nat, i: nat)
    requires i < |nodes|
  {
    i !in stack ==> Stopped(nodes[i], maxDepth)
  }

  predicate Settled(nodes: seq<Node>, stack: seq<nat>, maxDepth: nat) {
    forall i :: 0 <= i < |nodes| ==>
      && CoveredAt(nodes, i) && OrderedAt(nodes, stack, i) && EndsAt(nodes, stack, maxDepth, i)
      && StopsAt(nodes, stack, maxDepth, i)
  }

  /** The root alone on the stack is settled. */
  lemma InitialSettled(root: Conflict, maxDepth: nat)
    ensures Settled([NewRoot(root, 0)], [0], maxDepth)
  {
    ChildlessMoves([NewRoot(root, 0)], 0);
  }

  /** The node on top of the stack without a best child has no child: its
      children are off the stack, finished with finite scores, and a
      finite score would have replaced the infinite start value. */
  lemma TopChildless(nodes: seq<Node>, stack: seq<nat>, root: Conflict, maxDepth: nat)
    requires SearchInv(nodes, stack, root, maxDepth) && Settled(nodes, stack, maxDepth) && |stack| > 0
    requires nodes[stack[|stack| - 1]].bestChild.None?
    ensures Childless(nodes, stack[|stack| - 1])
  {
    var id := stack[|stack| - 1];
    assert BestAt(nodes, stack, id) && OrderedAt(nodes, stack, id);
    TopChildrenFinished(nodes, stack, root, maxDepth);
  }

  /** The children of the node on top of the stack are finished, with
      finite scores. */
  lemma TopChildrenFinished(nodes: seq<Node>, stack: seq<nat>, root: Conflict, maxDepth: nat)
    requires SearchInv(nodes, stack, root, maxDepth) && |stack| > 0
    ensures forall c :: 0 <= c < |nodes| && nodes[c].parentId == Some(stack[|stack| - 1]) ==>
      c !in stack && nodes[c].value.value.score.Fin?
  {
    var id := stack[|stack| - 1];
    forall c | 0 <= c < |nodes| && nodes[c].parentId == Some(id)
      ensures c !in stack && nodes[c].value.value.score.Fin?
    {
      assert ShapeAt(nodes, c, root, maxDepth) && Linked(nodes, c);
      assert nodes[c].depth == |stack|;
      assert BestAt(nodes, stack, c);
    }
  }

  /** The facts about a finished node `node'` that settling it relies on. */
  predicate FinishedNode(nodes: seq<Node>, stack: seq<nat>, maxDepth: nat, node': Node)
    requires |stack| > 0 && stack[|stack| - 1] < |nodes|
  {
    var node := nodes[stack[|stack| - 1]];
    && SameFrame(node', node) && node'.bestChild == node.bestChild && CursorOK(node')
    && node'.value.value == (if node.bestChild.Some? then node.value.value else GetUtility(node'.state))
    && (node'.parentId.Some? ==> node'.parentId.value < |nodes|)
    && (|| node'.actionIter == node.actionIter
        || (&& Valid(StartCursor(node)) && Moves(StartCursor(node)) == []
            && node'.actionIter.Some? && Moves(node'.actionIter.value) == []))
    && (node'.bestChild.None? ==>
          node'.depth == maxDepth || (Valid(StartCursor(node)) && Moves(StartCursor(node)) == []))
    && Stopped(node', maxDepth)
  }

  /** Finishing the node on top of the stack, propagating it and popping
      it keeps the arena settled. */
  lemma FinishSettled(nodes: seq<Node>, stack: seq<nat>, root: Conflict, maxDepth: nat, node': Node)
    requires |root.initiator.members| > 0 && |root.opponent.members| > 0
    requires SearchInv(nodes, stack, root, maxDepth) && Settled(nodes, stack, maxDepth) && |stack| > 0
    requires FinishedNode(nodes, stack, maxDepth, node')
    ensures var id := stack[|stack| - 1];
      Settled(PropagateToParent(nodes[id := node'], node').0, stack[..|stack| - 1], maxDepth)
  {
    var id := stack[|stack| - 1];
    var after := PropagateToParent(nodes[id := node'], node').0;
    var s := stack[..|stack| - 1];
    FinishFrame(nodes, stack, root, maxDepth, node');
    if nodes[id].bestChild.None? {
      TopChildless(nodes, stack, root, maxDepth);
    }
    forall i | 0 <= i < |after|
      ensures CoveredAt(after, i) && OrderedAt(after, s, i) && EndsAt(after, s, maxDepth, i)
      ensures StopsAt(after, s, maxDepth, i)
    {
      FinishCovered(nodes, stack, root, maxDepth, node', i);
      FinishOrdered(nodes, stack, root, maxDepth, node', i);
      FinishEnds(nodes, stack, root, maxDepth, node', i);
      FinishStops(nodes, stack, root, maxDepth, node', i);
    }
  }

  lemma FinishStops(nodes: seq<Node>, stack: seq<nat>, root: Conflict, maxDepth: nat, node': Node, i: nat)
    requires SearchInv(nodes, stack, root, maxDepth) && Settled(nodes, stack, maxDepth) && |stack| > 0
    requires FinishedNode(nodes, stack, maxDepth, node') && i < |nodes|
    ensures var id := stack[|stack| - 1];
      StopsAt(PropagateToParent(nodes[id := node'], node').0, stack[..|stack| - 1], maxDepth, i)
  {
    var id := stack[|stack| - 1];
    var after := PropagateToParent(nodes[id := node'], node').0;
    var s := stack[..|stack| - 1];
    FinishFrame(nodes, stack, root, maxDepth, node');
    if i != id && i !in s {
      assert i !in stack && StopsAt(nodes, stack, maxDepth, i);
      assert Some(i) != node'.parentId;
      assert after[i] == nodes[i];
    }
  }

  /** How finishing changes the arena: the finished node takes its slot,
      its parent changes only its value and best child, the rest is kept,
      and so is every node's parent. */
  lemma FinishFrame(nodes: seq<Node>, stack: seq<nat>, root: Conflict, maxDepth: nat, node': Node)
    requires SearchInv(nodes, stack, root, maxDepth) && |stack| > 0
    requires FinishedNode(nodes, stack, maxDepth, node')
    ensures var id := stack[|stack| - 1];
      var after := PropagateToParent(nodes[id := node'], node').0;
      && |after| == |nodes| && after[id] == node'
      && (node'.parentId.Some? ==> |stack| > 1 && node'.parentId.value == stack[|stack| - 2])
      && (forall j :: 0 <= j < |nodes| ==> SameFrame(after[j], nodes[j]))
      && (forall j :: 0 <= j < |nodes| && j != id ==> after[j].actionIter == nodes[j].actionIter)
      && (forall j :: 0 <= j < |nodes| && j != id && Some(j) != node'.parentId ==> after[j] == nodes[j])
      && (forall j :: 0 <= j < |nodes| ==> (Childless(after, j) <==> Childless(nodes, j)))
  {
    var id := stack[|stack| - 1];
    ParentBelowTop(nodes, stack, root, maxDepth);
    assert ShapeAt(nodes, id, root, maxDepth);
    var after := PropagateToParent(nodes[id := node'], node').0;
    assert after[id] == node';
    forall j | 0 <= j < |nodes|
      ensures SameFrame(after[j], nodes[j])
    {
    }
  }

  lemma FinishCovered(nodes: seq<Node>, stack: seq<nat>, root: Conflict, maxDepth: nat, node': Node, i: nat)
    requires |root.initiator.members| > 0 && |root.opponent.members| > 0
    requires SearchInv(nodes, stack, root, maxDepth) && Settled(nodes, stack, maxDepth) && |stack| > 0
    requires FinishedNode(nodes, stack, maxDepth, node') && i < |nodes|
    ensures var id := stack[|stack| - 1];
      CoveredAt(PropagateToParent(nodes[id := node'], node').0, i)
  {
    var id := stack[|stack| - 1];
    var after := PropagateToParent(nodes[id := node'], node').0;
    FinishFrame(nodes, stack, root, maxDepth, node');
    assert CoveredAt(nodes, i);
    assert SameFrame(after[i], nodes[i]);
    ChildMovesFrame(after, nodes, i);
    if i == id {
      assert ShapeAt(nodes, id, root, maxDepth) && CursorOK(nodes[id]);
      assert FreshCursor(node') == FreshCursor(nodes[id]);
    } else {
      assert after[i].actionIter == nodes[i].actionIter;
      assert StartCursor(after[i]) == StartCursor(nodes[i]);
      assert FreshCursor(after[i]) == FreshCursor(nodes[i]);
    }
  }

  lemma FinishOrdered(nodes: seq<Node>, stack: seq<nat>, root: Conflict, maxDepth: nat, node': Node, i: nat)
    requires SearchInv(nodes, stack, root, maxDepth) && Settled(nodes, stack, maxDepth) && |stack| > 0
    requires FinishedNode(nodes, stack, maxDepth, node') && i < |nodes|
    requires nodes[stack[|stack| - 1]].bestChild.None? ==> Childless(nodes, stack[|stack| - 1])
    ensures var id := stack[|stack| - 1];
      OrderedAt(PropagateToParent(nodes[id := node'], node').0, stack[..|stack| - 1], i)
  {
    var id := stack[|stack| - 1];
    var after := PropagateToParent(nodes[id := node'], node').0;
    var s := stack[..|stack| - 1];
    FinishFrame(nodes, stack, root, maxDepth, node');
    assert OrderedAt(nodes, stack, i);
    forall c | 0 <= c < |after| && after[c].parentId == Some(i) && c !in s
      ensures Dominates(after[i], after[c])
    {
      assert SameFrame(after[c], nodes[c]);
      if c == id {
        // The parent takes the max (min) of its old score and the child's.
        assert after[c] == node' && node'.parentId == Some(i);
      } else {
        assert c !in stack;
        assert Some(c) != node'.parentId;
        assert after[c] == nodes[c] && Dominates(nodes[i], nodes[c]);
        if Some(i) == node'.parentId {
          var old_, new_ := nodes[i].value.value.score, after[i].value.value.score;
          LeTotalOrder(nodes[c].value.value.score, old_, new_);
          LeTotalOrder(new_, old_, nodes[c].value.value.score);
        } else if i == id {
          assert nodes[id].bestChild.Some?;
        }
      }
    }
  }

  lemma FinishEnds(nodes: seq<Node>, stack: seq<nat>, root: Conflict, maxDepth: nat, node': Node, i: nat)
    requires |root.initiator.members| > 0 && |root.opponent.members| > 0
    requires SearchInv(nodes, stack, root, maxDepth) && Settled(nodes, stack, maxDepth) && |stack| > 0
    requires FinishedNode(nodes, stack, maxDepth, node') && i < |nodes|
    requires nodes[stack[|stack| - 1]].bestChild.None? ==> Childless(nodes, stack[|stack| - 1])
    ensures var id := stack[|stack| - 1];
      EndsAt(PropagateToParent(nodes[id := node'], node').0, stack[..|stack| - 1], maxDepth, i)
  {
    var id := stack[|stack| - 1];
    var after := PropagateToParent(nodes[id := node'], node').0;
    var s := stack[..|stack| - 1];
    FinishFrame(nodes, stack, root, maxDepth, node');
    if after[i].bestChild.None? && i !in s {
      assert EndsAt(nodes, stack, maxDepth, i) && CoveredAt(nodes, i);
      assert ShapeAt(nodes, i, root, maxDepth) && CursorOK(nodes[i]);
      if i == id {
        ChildlessMoves(nodes, id);
        assert FreshCursor(node') == FreshCursor(nodes[id]);
      } else {
        assert Some(i) != node'.parentId;
        assert after[i] == nodes[i];
      }
    }
  }

  /** Expanding the node on top of the stack by its cursor's first move
      `mv`, writing it back with its cursor moved on and pushing a fresh
      child for `mv` keeps the arena settled. */
  lemma ExpandSettled(nodes: seq<Node>, stack: seq<nat>, root: Conflict, maxDepth: nat, node': Node, child: Node,
                      mv: AppliedAction)
    requires SearchInv(nodes, stack, root, maxDepth) && Settled(nodes, stack, maxDepth) && |stack| > 0
    requires var node := nodes[stack[|stack| - 1]];
      && SameFrame(node', node) && node'.value == node.value && node'.bestChild == node.bestChild
      && CursorOK(node') && node'.actionIter.Some? && Valid(StartCursor(node))
      && Moves(StartCursor(node)) == [mv] + Moves(node'.actionIter.value)
    requires child.parentId == Some(stack[|stack| - 1]) && child.actionIter.None? && child.action == Some(mv)
    ensures Settled(nodes[stack[|stack| - 1] := node'] + [child], stack + [|nodes|], maxDepth)
  {
    var id := stack[|stack| - 1];
    var after := nodes[id := node'] + [child];
    var stack' := stack + [|nodes|];
    forall i | 0 <= i < |after|
      ensures CoveredAt(after, i) && OrderedAt(after, stack', i) && EndsAt(after, stack', maxDepth, i)
      ensures StopsAt(after, stack', maxDepth, i)
    {
      if i < |nodes| {
        assert CoveredAt(nodes, i);
      }
      ExpandCovered(nodes, stack, root, maxDepth, node', child, mv, i);
      if i < |nodes| {
        assert OrderedAt(nodes, stack, i) && EndsAt(nodes, stack, maxDepth, i) && StopsAt(nodes, stack, maxDepth, i);
        if i == id {
          assert after[|nodes|].parentId == Some(i);
        } else {
          assert after[i] == nodes[i];
        }
        if Childless(after, i) {
          forall c | 0 <= c < |nodes|
            ensures nodes[c].parentId != Some(i)
          {
            assert after[c].parentId != Some(i);
          }
        }
        forall c | 0 <= c < |after| && after[c].parentId == Some(i) && c !in stack'
          ensures Dominates(after[i], after[c])
        {
          assert c < |nodes| && c !in stack;
        }
        if i !in stack' {
          assert after[i] == nodes[i];
          assert Childless(nodes, i) ==> Childless(after, i);
        }
      } else {
        assert i == |nodes|;
        NewChildChildless(nodes, root, maxDepth, id, node', child);
      }
    }
  }

  /** No node of a well-formed arena hangs below the slot one past its
      end, also after a node is written back in its frame. */
  lemma NewChildChildless(nodes: seq<Node>, root: Conflict, maxDepth: nat, id: nat, node': Node, child: Node)
    requires Shape(nodes, root, maxDepth) && id < |nodes| && SameFrame(node', nodes[id])
    requires child.parentId.Some? && child.parentId.value < |nodes|
    ensures Childless(nodes[id := node'] + [child], |nodes|)
  {
    var after := nodes[id := node'] + [child];
    forall c | 0 <= c < |after|
      ensures after[c].parentId != Some(|nodes|)
    {
      if c < |nodes| {
        assert ShapeAt(nodes, c, root, maxDepth);
        if c > 0 {
          assert Linked(nodes, c);
        }
      }
    }
  }

  /** Expanding by `mv` moves `mv` from the front of the node's cursor to
      the end of its children's moves, and the new child has taken no
      move yet; so every node stays covered. */
  lemma ExpandCovered(nodes: seq<Node>, stack: seq<nat>, root: Conflict, maxDepth: nat, node': Node, child: Node,
                      mv: AppliedAction, i: nat)
    requires SearchInv(nodes, stack, root, maxDepth) && |stack| > 0
    requires var node := nodes[stack[|stack| - 1]];
      && SameFrame(node', node) && CursorOK(node') && node'.actionIter.Some? && Valid(StartCursor(node))
      && Moves(StartCursor(node)) == [mv] + Moves(node'.actionIter.value)
    requires child.parentId == Some(stack[|stack| - 1]) && child.actionIter.None? && child.action == Some(mv)
    requires i <= |nodes| && (i < |nodes| ==> CoveredAt(nodes, i))
    ensures CoveredAt(nodes[stack[|stack| - 1] := node'] + [child], i)
  {
    var id := stack[|stack| - 1];
    var after := nodes[id := node'] + [child];
    if i == id {
      assert CursorOK(nodes[i]);
      ExpandCoveredTop(nodes, id, node', child, mv);
    } else if i < |nodes| {
      ExpandCoveredOther(nodes, id, node', child, i);
    } else {
      NewChildChildless(nodes, root, maxDepth, id, node', child);
      ChildlessMoves(after, i);
    }
  }

  /** The expanded node itself: `mv` leaves its cursor and joins its
      children's moves. */
  lemma ExpandCoveredTop(nodes: seq<Node>, id: nat, node': Node, child: Node, mv: AppliedAction)
    requires id < |nodes| && CoveredAt(nodes, id) && CursorOK(nodes[id])
    requires SameFrame(node', nodes[id]) && CursorOK(node') && node'.actionIter.Some? && Valid(StartCursor(nodes[id]))
    requires Moves(StartCursor(nodes[id])) == [mv] + Moves(node'.actionIter.value)
    requires child.parentId == Some(id) && child.action == Some(mv)
    ensures CoveredAt(nodes[id := node'] + [child], id)
  {
    var mid := nodes[id := node'];
    var after := mid + [child];
    assert after[..|after| - 1] == mid;
    forall j | 0 <= j < |mid|
      ensures SameFrame(mid[j], nodes[j])
    {
    }
    ChildMovesFrame(mid, nodes, id);
    assert ChildMoves(after, id) == ChildMoves(nodes, id) + [mv];
    assert FreshCursor(node') == FreshCursor(nodes[id]);
  }

  /** Any other old node keeps its children's moves and its cursor. */
  lemma ExpandCoveredOther(nodes: seq<Node>, id: nat, node': Node, child: Node, i: nat)
    requires id < |nodes| && i < |nodes| && i != id && CoveredAt(nodes, i)
    requires SameFrame(node', nodes[id]) && child.parentId == Some(id)
    ensures CoveredAt(nodes[id := node'] + [child], i)
  {
    var mid := nodes[id := node'];
    var after := mid + [child];
    assert after[..|after| - 1] == mid;
    forall j | 0 <= j < |mid|
      ensures SameFrame(mid[j], nodes[j])
    {
    }
    ChildMovesFrame(mid, nodes, i);
    assert ChildMoves(after, i) == ChildMoves(nodes, i);
    assert after[i] == nodes[i];
  }
}
