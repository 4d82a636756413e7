/** What holds of the search's node arena and its depth-first stack
    between two iterations of the search loop (src/solver.rs), and the
    measure that shrinks at every iteration. */
module Arena {
  import opened Wrappers
  import opened Actions
  import opened Parties
  import opened Conflicts
  import opened Values
  import opened ActionIterators
  import opened SearchTree
  import opened SolverUtility

  /** The fields a node gets at creation and never changes. */
  predicate SameFrame(a: Node, b: Node) {
    && a.id == b.id && a.parentId == b.parentId && a.turn == b.turn && a.depth == b.depth
    && a.isMaximizing == b.isMaximizing && a.action == b.action && a.state == b.state
  }

  /** Node `i` hangs below an earlier node, one level deeper and one turn
      later, with the other side to move, and its state follows from the
      parent's by its action. */
  predicate Linked(nodes: seq<Node>, i: nat)
    requires i < |nodes|
  {
    var n := nodes[i];
    && n.parentId.Some? && n.parentId.value < i
    && var p := nodes[n.parentId.value];
       && n.depth == p.depth + 1 && n.turn == p.turn + 1 && n.isMaximizing == !p.isMaximizing
       && n.action.Some? && StepTo(p.state, p.isMaximizing, n.action.value, n.state)
  }

  /** The creation-time facts of node `i`: its id is its index, it is no
      deeper than the limit, its state keeps the labels of `root`; node 0
      is the root and every other node is linked to its parent. */
  predicate ShapeAt(nodes: seq<Node>, i: nat, root: Conflict, maxDepth: nat)
    requires i < |nodes|
  {
    var n := nodes[i];
    && n.id == i && n.depth <= maxDepth && LabelsKept(root, n.state)
    && (i == 0 ==> n.parentId.None? && n.depth == 0 && n.turn == 0 && n.isMaximizing
                   && n.action.None? && n.state == root)
    && (i > 0 ==> Linked(nodes, i))
  }

  predicate Shape(nodes: seq<Node>, root: Conflict, maxDepth: nat) {
    forall i :: 0 <= i < |nodes| ==> ShapeAt(nodes, i, root, maxDepth)
  }

  /** A node's move cursor, once created, enumerates the moves of the side
      to move against the other side, over all its members. */
  predicate CursorOK(n: Node) {
    n.actionIter.Some? ==>
      var it := n.actionIter.value;
      && Valid(it)
      && it.current == Mover(n.state, n.isMaximizing)
      && it.opponent == Target(n.state, n.isMaximizing)
      && it.currentRange == Range(0, |it.current.members|)
  }

  predicate Cursors(nodes: seq<Node>) {
    forall i :: 0 <= i < |nodes| ==> CursorOK(nodes[i])
  }

  /** The value bookkeeping of node `i`. A best child is a later child of
      the node that has finished (is off the stack), and the node's value
      is that child's, a finite one. Without a best child, a node still on
      the stack has the worst value for its side, and a finished node has
      its state's utility. */
  predicate BestAt(nodes: seq<Node>, stack: seq<nat>, i: nat)
    requires i < |nodes|
  {
    var n := nodes[i];
    && SolverValue(n.value.value)
    && (n.bestChild.Some? ==>
          var c := n.bestChild.value;
          && i < c < |nodes| && nodes[c].parentId == Some(i) && c !in stack
          && n.value.value == nodes[c].value.value && n.value.value.score.Fin?)
    && (n.bestChild.None? && i in stack ==> n.value.value == InitialValue(n.isMaximizing))
    && (n.bestChild.None? && i !in stack ==> n.value.value == GetUtility(n.state))
  }

  predicate Best(nodes: seq<Node>, stack: seq<nat>) {
    forall i :: 0 <= i < |nodes| ==> BestAt(nodes, stack, i)
  }

  /** The stack is a path down from the root: entry `k` is a node at
      depth `k` whose parent is entry `k - 1`. */
  predicate StackChain(nodes: seq<Node>, stack: seq<nat>) {
    && (|stack| > 0 ==> stack[0] == 0)
    && (forall k :: 0 <= k < |stack| ==> stack[k] < |nodes| && nodes[stack[k]].depth == k)
    && (forall k :: 0 < k < |stack| ==> nodes[stack[k]].parentId == Some(stack[k - 1]))
  }

  predicate SearchInv(nodes: seq<Node>, stack: seq<nat>, root: Conflict, maxDepth: nat) {
    && |nodes| > 0
    && Shape(nodes, root, maxDepth)
    && Cursors(nodes)
    && Best(nodes, stack)
    && StackChain(nodes, stack)
  }

  /** The search starts from a valid state: the root alone, on the stack. */
  lemma InitialSearchInv(root: Conflict, maxDepth: nat)
    requires IdsAreIndices(root.initiator) && IdsAreIndices(root.opponent)
    ensures SearchInv([NewRoot(root, 0)], [0], root, maxDepth)
  {
  }

  // ----- The termination measure -----

  /** Most moves any node has: every member of one side against every
      member of the other. */
  function Budget(root: Conflict): nat {
    |root.initiator.members| * |root.opponent.members|
  }

  /** A bound on the iterations a fresh node at depth `d` can take,
      counting those of its whole subtree. */
  function Subtree(d: nat, maxDepth: nat, m: nat): (w: nat)
    ensures w >= 1
    decreases maxDepth - d
  {
    if d >= maxDepth then 1 else 1 + m * (Subtree(d + 1, maxDepth, m) + 1)
  }

  /** The moves a node has left: those of its cursor, or the budget
      before the cursor exists. */
  function Remaining(n: Node, m: nat): nat {
    if n.actionIter.Some? && Valid(n.actionIter.value) then |Moves(n.actionIter.value)| else m
  }

  /** A bound on the iterations node `n` can still take. */
  function Work(n: Node, maxDepth: nat, m: nat): (w: nat)
    ensures w >= 1
  {
    if n.depth >= maxDepth then 1 else 1 + Remaining(n, m) * (Subtree(n.depth + 1, maxDepth, m) + 1)
  }

  function SumWork(nodes: seq<Node>, stack: seq<nat>, maxDepth: nat, m: nat): nat
    requires forall k :: 0 <= k < |stack| ==> stack[k] < |nodes|
  {
    if |stack| == 0 then 0
    else SumWork(nodes, stack[..|stack| - 1], maxDepth, m) + Work(nodes[stack[|stack| - 1]], maxDepth, m)
  }

  /** The measure only reads the depth and cursor of the nodes on the stack. */
  lemma {:induction false} SumWorkFrame(nodes: seq<Node>, nodes': seq<Node>, stack: seq<nat>, maxDepth: nat, m: nat)
    requires forall k :: 0 <= k < |stack| ==> stack[k] < |nodes| && stack[k] < |nodes'|
    requires forall k :: 0 <= k < |stack| ==>
      nodes'[stack[k]].depth == nodes[stack[k]].depth && nodes'[stack[k]].actionIter == nodes[stack[k]].actionIter
    ensures SumWork(nodes', stack, maxDepth, m) == SumWork(nodes, stack, maxDepth, m)
    decreases |stack|
  {
    if |stack| > 0 {
      SumWorkFrame(nodes, nodes', stack[..|stack| - 1], maxDepth, m);
    }
  }

  // ----- Preservation -----

  /** Changing only what a node may change keeps the arena's shape. */
  lemma ShapeFrame(nodes: seq<Node>, nodes': seq<Node>, root: Conflict, maxDepth: nat)
    requires Shape(nodes, root, maxDepth) && |nodes'| == |nodes|
    requires forall i :: 0 <= i < |nodes| ==> SameFrame(nodes'[i], nodes[i])
    ensures Shape(nodes', root, maxDepth)
  {
    forall i | 0 <= i < |nodes'|
      ensures ShapeAt(nodes', i, root, maxDepth)
    {
      assert ShapeAt(nodes, i, root, maxDepth);
      if i > 0 {
        assert Linked(nodes, i);
      }
    }
  }

  /** The node on top of the stack sits at its own index, below its
      parent's, and its cursor (its own or a fresh one) is well formed. */
  lemma TopShape(nodes: seq<Node>, stack: seq<nat>, root: Conflict, maxDepth: nat)
    requires SearchInv(nodes, stack, root, maxDepth) && |stack| > 0
    requires |root.initiator.members| > 0 && |root.opponent.members| > 0
    ensures var id := stack[|stack| - 1];
      var n := nodes[id];
      && id < |nodes| && n.id == id && (n.parentId.Some? ==> n.parentId.value < id)
      && CursorOK(n) && |Target(n.state, n.isMaximizing).members| > 0 && Valid(StartCursor(n))
  {
    var id := stack[|stack| - 1];
    assert ShapeAt(nodes, id, root, maxDepth) && CursorOK(nodes[id]);
    if id > 0 {
      assert Linked(nodes, id);
    }
  }

  /** Node `id` on top of the stack is not below it. */
  lemma TopNotBelow(nodes: seq<Node>, stack: seq<nat>)
    requires StackChain(nodes, stack) && |stack| > 0
    ensures stack[|stack| - 1] !in stack[..|stack| - 1]
  {
  }

  /** The parent of the top of the stack is the entry below it. */
  lemma ParentBelowTop(nodes: seq<Node>, stack: seq<nat>, root: Conflict, maxDepth: nat)
    requires SearchInv(nodes, stack, root, maxDepth) && |stack| > 0
    ensures var id := stack[|stack| - 1];
      (nodes[id].parentId.None? <==> |stack| == 1)
      && (|stack| > 1 ==> nodes[id].parentId == Some(stack[|stack| - 2]))
  {
    var id := stack[|stack| - 1];
    assert ShapeAt(nodes, id, root, maxDepth);
    if |stack| == 1 {
      assert id == 0;
    } else {
      assert nodes[id].depth == |stack| - 1;
      assert id != 0;
      assert Linked(nodes, id);
    }
  }

  /** A node with a best child is above the depth limit. */
  lemma BestChildIsDeeper(nodes: seq<Node>, stack: seq<nat>, root: Conflict, maxDepth: nat, i: nat)
    requires SearchInv(nodes, stack, root, maxDepth) && i < |nodes|
    ensures nodes[i].bestChild.Some? ==> nodes[i].depth < maxDepth
  {
    if nodes[i].bestChild.Some? {
      var c := nodes[i].bestChild.value;
      assert BestAt(nodes, stack, i);
      assert ShapeAt(nodes, c, root, maxDepth);
      assert Linked(nodes, c);
    }
  }

  /** Without a best child a node on the stack is not cut off: its value
      is the infinite start value, and a minimizer's is not negative. */
  lemma NoBestChildNoCutoff(nodes: seq<Node>, stack: seq<nat>, root: Conflict, maxDepth: nat, i: nat)
    requires SearchInv(nodes, stack, root, maxDepth) && i < |nodes| && i in stack
    requires nodes[i].bestChild.None?
    ensures !IsAlphaCutoff(nodes[i].value) && !IsBetaCutoff(nodes[i].value)
    ensures !nodes[i].value.value.score.Fin?
    ensures !nodes[i].isMaximizing ==> !IsNegative(nodes[i].value.value)
  {
    assert BestAt(nodes, stack, i);
  }

  /** Finishing the node on top of the stack: it gets its final value (the
      one of its best child, or else its state's utility), is written back,
      propagated to its parent and popped. The invariant survives and the
      measure drops. */
  lemma FinishKeeps(nodes: seq<Node>, stack: seq<nat>, root: Conflict, maxDepth: nat, node': Node)
    requires SearchInv(nodes, stack, root, maxDepth) && |stack| > 0
    requires var id := stack[|stack| - 1];
      && SameFrame(node', nodes[id]) && node'.bestChild == nodes[id].bestChild && CursorOK(node')
      && node'.value.value == (if nodes[id].bestChild.Some? then nodes[id].value.value else GetUtility(node'.state))
    requires node'.parentId.Some? ==> node'.parentId.value < |nodes|
    ensures var id := stack[|stack| - 1];
      var after := PropagateToParent(nodes[id := node'], node').0;
      && SearchInv(after, stack[..|stack| - 1], root, maxDepth)
      && after[id] == node'
      && SumWork(after, stack[..|stack| - 1], maxDepth, Budget(root)) < SumWork(nodes, stack, maxDepth, Budget(root))
  {
    FinishFrameKeeps(nodes, stack, root, maxDepth, node');
    FinishBestKeeps(nodes, stack, root, maxDepth, node');
  }

  /** The part of finishing that concerns the arena's shape, cursors, the
      popped stack and the measure. */
  lemma FinishFrameKeeps(nodes: seq<Node>, stack: seq<nat>, root: Conflict, maxDepth: nat, node': Node)
    requires SearchInv(nodes, stack, root, maxDepth) && |stack| > 0
    requires var id := stack[|stack| - 1];
      && SameFrame(node', nodes[id]) && node'.bestChild == nodes[id].bestChild && CursorOK(node')
    requires node'.parentId.Some? ==> node'.parentId.value < |nodes|
    ensures var id := stack[|stack| - 1];
      var after := PropagateToParent(nodes[id := node'], node').0;
      && |after| == |nodes| && after[id] == node'
      && Shape(after, root, maxDepth) && Cursors(after) && StackChain(after, stack[..|stack| - 1])
      && SumWork(after, stack[..|stack| - 1], maxDepth, Budget(root)) < SumWork(nodes, stack, maxDepth, Budget(root))
  {
    var id := stack[|stack| - 1];
    var s := stack[..|stack| - 1];
    TopNotBelow(nodes, stack);
    assert ShapeAt(nodes, id, root, maxDepth);
    if id > 0 {
      assert Linked(nodes, id);
    }
    var x := nodes[id := node'];
    var after := PropagateToParent(x, node').0;
    assert after[id] == node';
    forall i | 0 <= i < |nodes|
      ensures SameFrame(after[i], nodes[i])
    {
    }
    ShapeFrame(nodes, after, root, maxDepth);
    assert Cursors(after);
    assert StackChain(after, s);
    SumWorkFrame(nodes, after, s, maxDepth, Budget(root));
  }

  /** The part of finishing that concerns the value bookkeeping. */
  lemma FinishBestKeeps(nodes: seq<Node>, stack: seq<nat>, root: Conflict, maxDepth: nat, node': Node)
    requires SearchInv(nodes, stack, root, maxDepth) && |stack| > 0
    requires var id := stack[|stack| - 1];
      && SameFrame(node', nodes[id]) && node'.bestChild == nodes[id].bestChild
      && node'.value.value == (if nodes[id].bestChild.Some? then nodes[id].value.value else GetUtility(node'.state))
    requires node'.parentId.Some? ==> node'.parentId.value < |nodes|
    ensures var id := stack[|stack| - 1];
      Best(PropagateToParent(nodes[id := node'], node').0, stack[..|stack| - 1])
  {
    var id := stack[|stack| - 1];
    var s := stack[..|stack| - 1];
    assert ShapeAt(nodes, id, root, maxDepth);
    ParentBelowTop(nodes, stack, root, maxDepth);
    TopNotBelow(nodes, stack);
    var x := nodes[id := node'];
    var after := PropagateToParent(x, node').0;
    assert after[id] == node';
    assert forall i :: 0 <= i < |nodes| && i != id && Some(i) != node'.parentId ==> after[i] == nodes[i];
    assert BestAt(nodes, stack, id);
    FinishedValueFinite(nodes, stack, root, maxDepth, node');
    forall i | 0 <= i < |after|
      ensures BestAt(after, s, i)
    {
      assert BestAt(nodes, stack, i);
      if Some(i) == node'.parentId {
        FinishParentBest(nodes, stack, root, maxDepth, node', i);
      }
    }
  }

  /** The finished node's value is finite. */
  lemma FinishedValueFinite(nodes: seq<Node>, stack: seq<nat>, root: Conflict, maxDepth: nat, node': Node)
    requires SearchInv(nodes, stack, root, maxDepth) && |stack| > 0
    requires var id := stack[|stack| - 1];
      node'.value.value == (if nodes[id].bestChild.Some? then nodes[id].value.value else GetUtility(node'.state))
    ensures node'.value.value.score.Fin? && SolverValue(node'.value.value)
  {
    assert BestAt(nodes, stack, stack[|stack| - 1]);
  }

  /** The parent of the finished node keeps its bookkeeping: if it adopts
      the finished node as best child, that node is now off the stack. */
  lemma FinishParentBest(nodes: seq<Node>, stack: seq<nat>, root: Conflict, maxDepth: nat, node': Node, p: nat)
    requires SearchInv(nodes, stack, root, maxDepth) && |stack| > 1
    requires var id := stack[|stack| - 1];
      && SameFrame(node', nodes[id]) && node'.bestChild == nodes[id].bestChild
      && node'.value.value.score.Fin? && SolverValue(node'.value.value)
      && node'.parentId == Some(p) && p == stack[|stack| - 2]
    ensures var id := stack[|stack| - 1];
      BestAt(PropagateToParent(nodes[id := node'], node').0, stack[..|stack| - 1], p)
  {
    var id := stack[|stack| - 1];
    var s := stack[..|stack| - 1];
    TopNotBelow(nodes, stack);
    assert p in s;
    assert ShapeAt(nodes, id, root, maxDepth) && Linked(nodes, id);
    var x := nodes[id := node'];
    var after := PropagateToParent(x, node').0;
    assert BestAt(nodes, stack, p);
    if after[p].bestChild != nodes[p].bestChild {
      assert after[p].bestChild == Some(id);
      assert after[p].value.value == node'.value.value;
    } else if nodes[p].bestChild.Some? {
      var c := nodes[p].bestChild.value;
      assert c != id && c != p;
      assert after[c] == nodes[c];
    }
  }

  /** The cursor a node enumerates from: its own, or a fresh one over the
      side to move against the other side. */
  function StartCursor(n: Node): ActionIterator {
    if n.actionIter.Some? then n.actionIter.value else FreshCursor(n)
  }

  /** The cursor a node creates on its first visit. */
  function FreshCursor(n: Node): ActionIterator {
    ActionIterators.New(Mover(n.state, n.isMaximizing), Target(n.state, n.isMaximizing))
  }

  /** Taking one move from a node's cursor lowers the moves it has left. */
  lemma CursorStepShrinks(root: Conflict, node: Node, node': Node, mv: AppliedAction)
    requires CursorOK(node) && LabelsKept(root, node.state) && |root.opponent.members| > 0
    requires |root.initiator.members| > 0
    requires Valid(StartCursor(node)) && node'.actionIter.Some? && Valid(node'.actionIter.value)
    requires Moves(StartCursor(node)) == [mv] + Moves(node'.actionIter.value)
    ensures Remaining(node', Budget(root)) < Remaining(node, Budget(root))
  {
    if node.actionIter.None? {
      var it := StartCursor(node);
      MovesBound(it);
      var a, b := |root.initiator.members|, |root.opponent.members|;
      if !node.isMaximizing {
        assert b * a == a * b;
      }
    }
  }

  /** Arithmetic of the measure: a node with one move fewer plus a fresh
      child one level down weigh less than the node did. */
  lemma WorkDrops(r: nat, r': nat, sub: nat)
    requires r' < r
    ensures 1 + r' * (sub + 1) + sub < 1 + r * (sub + 1)
  {
    assert r' * (sub + 1) <= (r - 1) * (sub + 1);
    assert (r - 1) * (sub + 1) + sub + 1 == r * (sub + 1);
  }

  /** Expanding the node on top of the stack: its cursor moves on, it is
      written back, and a child reached by one landing move is appended to
      the arena and pushed above it. The invariant survives and the measure
      drops. */
  lemma ExpandKeeps(nodes: seq<Node>, stack: seq<nat>, root: Conflict, maxDepth: nat,
                    node': Node, state': Conflict, mv: AppliedAction)
    requires SearchInv(nodes, stack, root, maxDepth) && |stack| > 0
    requires var node := nodes[stack[|stack| - 1]];
      && node.depth < maxDepth
      && SameFrame(node', node) && node'.bestChild == node.bestChild && node'.value == node.value
      && CursorOK(node') && node'.actionIter.Some?
      && Remaining(node', Budget(root)) < Remaining(node, Budget(root))
      && StepTo(node.state, node.isMaximizing, mv, state')
    ensures var id := stack[|stack| - 1];
      var node := nodes[id];
      var child := Branch(|nodes|, id, node.value, !node.isMaximizing, node.depth + 1, node.turn + 1, state', mv);
      var after := nodes[id := node'] + [child];
      && SearchInv(after, stack + [|nodes|], root, maxDepth)
      && SumWork(after, stack + [|nodes|], maxDepth, Budget(root)) < SumWork(nodes, stack, maxDepth, Budget(root))
  {
    var id := stack[|stack| - 1];
    var node := nodes[id];
    var child := Branch(|nodes|, id, node.value, !node.isMaximizing, node.depth + 1, node.turn + 1, state', mv);
    var after := nodes[id := node'] + [child];
    ExpandShape(nodes, stack, root, maxDepth, node', state', mv);
    ExpandBest(nodes, stack, root, maxDepth, node', child);
    assert Cursors(after);
    assert StackChain(after, stack + [|nodes|]);
    ExpandMeasure(nodes, stack, root, maxDepth, node', child);
  }

  lemma ExpandShape(nodes: seq<Node>, stack: seq<nat>, root: Conflict, maxDepth: nat,
                    node': Node, state': Conflict, mv: AppliedAction)
    requires SearchInv(nodes, stack, root, maxDepth) && |stack| > 0
    requires var node := nodes[stack[|stack| - 1]];
      && node.depth < maxDepth && SameFrame(node', node)
      && StepTo(node.state, node.isMaximizing, mv, state')
    ensures var id := stack[|stack| - 1];
      var node := nodes[id];
      var child := Branch(|nodes|, id, node.value, !node.isMaximizing, node.depth + 1, node.turn + 1, state', mv);
      Shape(nodes[id := node'] + [child], root, maxDepth)
  {
    var id := stack[|stack| - 1];
    var node := nodes[id];
    var child := Branch(|nodes|, id, node.value, !node.isMaximizing, node.depth + 1, node.turn + 1, state', mv);
    var mid := nodes[id := node'];
    assert ShapeAt(nodes, id, root, maxDepth);
    StepKeepsLabels(root, node.state, node.isMaximizing, mv, state');
    forall i | 0 <= i < |nodes|
      ensures SameFrame(mid[i], nodes[i])
    {
    }
    ShapeFrame(nodes, mid, root, maxDepth);
    assert Linked(mid + [child], |mid|);
    ShapeExtend(mid, child, root, maxDepth);
  }

  /** Appending a node whose own creation-time facts hold keeps the shape. */
  lemma ShapeExtend(nodes: seq<Node>, child: Node, root: Conflict, maxDepth: nat)
    requires Shape(nodes, root, maxDepth) && ShapeAt(nodes + [child], |nodes|, root, maxDepth)
    ensures Shape(nodes + [child], root, maxDepth)
  {
    var after := nodes + [child];
    forall i | 0 <= i < |nodes|
      ensures ShapeAt(after, i, root, maxDepth)
    {
      assert ShapeAt(nodes, i, root, maxDepth);
      if i > 0 {
        assert Linked(nodes, i);
        assert after[nodes[i].parentId.value] == nodes[nodes[i].parentId.value];
      }
    }
  }

  lemma ExpandBest(nodes: seq<Node>, stack: seq<nat>, root: Conflict, maxDepth: nat, node': Node, child: Node)
    requires SearchInv(nodes, stack, root, maxDepth) && |stack| > 0
    requires var node := nodes[stack[|stack| - 1]];
      SameFrame(node', node) && node'.bestChild == node.bestChild && node'.value == node.value
    requires child.bestChild.None? && child.value.value == InitialValue(child.isMaximizing)
    ensures Best(nodes[stack[|stack| - 1] := node'] + [child], stack + [|nodes|])
  {
    var id := stack[|stack| - 1];
    var after := nodes[id := node'] + [child];
    var stack' := stack + [|nodes|];
    forall i | 0 <= i < |after|
      ensures BestAt(after, stack', i)
    {
      if i < |nodes| {
        assert BestAt(nodes, stack, i);
        assert i in stack' <==> i in stack;
      }
    }
  }

  lemma ExpandMeasure(nodes: seq<Node>, stack: seq<nat>, root: Conflict, maxDepth: nat, node': Node, child: Node)
    requires SearchInv(nodes, stack, root, maxDepth) && |stack| > 0
    requires var node := nodes[stack[|stack| - 1]];
      && node.depth < maxDepth && node'.depth == node.depth
      && Remaining(node', Budget(root)) < Remaining(node, Budget(root))
    requires child.depth == nodes[stack[|stack| - 1]].depth + 1 && child.actionIter.None?
    ensures SumWork(nodes[stack[|stack| - 1] := node'] + [child], stack + [|nodes|], maxDepth, Budget(root))
      < SumWork(nodes, stack, maxDepth, Budget(root))
  {
    var id := stack[|stack| - 1];
    var node := nodes[id];
    var m := Budget(root);
    var after := nodes[id := node'] + [child];
    var stack' := stack + [|nodes|];
    var s := stack[..|stack| - 1];
    TopNotBelow(nodes, stack);
    assert stack'[..|stack'| - 1] == stack;
    SumWorkFrame(nodes, after, s, maxDepth, m);
    assert SumWork(after, stack, maxDepth, m) == SumWork(after, s, maxDepth, m) + Work(node', maxDepth, m);
    assert Work(child, maxDepth, m) == Subtree(node.depth + 1, maxDepth, m);
    WorkDrops(Remaining(node, m), Remaining(node', m), Subtree(node.depth + 1, maxDepth, m));
  }
}
