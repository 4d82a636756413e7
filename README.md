# Autobattler search engine, modelled in Dafny

This project models the adversarial search at the heart of the autobattler.
Two parties fight: the initiator and the opponent. Each member of the side to
move attacks one living member of the other side.

`Solver::engage` predicts the initiator's best line of play. It runs a
depth-limited minimax with alpha-beta pruning and three domain rules:

- a node at the depth limit is scored by a utility function;
- a maximizing node whose value reaches beta, or a minimizing node whose
  value falls to alpha, is cut off;
- a minimizing node that already holds a negative value is cut off too.

The search runs over an append-only arena of nodes addressed by index. It is
driven by an explicit depth-first stack. Each node resumes a move cursor, the
`ActionIterator`, across its visits. At the end the predicted line is read
off the chain of best children.

Modules, one per source file:

- `PartyMembers`: a member, its death, and how it takes a hit.
- `Parties`: a party, its defeat, and replacing a member by id.
- `Values`: extended-real scores, the terminal states, and the alpha-beta value triplet.
- `UtilityValue`: the five-way terminal classification.
- `ActionIterators`: the two resumable move cursors. Each is specified by the
  sequence of moves it still has to emit.
- `SolverUtility`: the search's three-way utility.
- `SearchTree`: nodes, branching, the step between states, and propagation to a parent.
- `Arena`: the invariant of the arena and stack between loop rounds, and the
  termination measure.
- `SearchOrder`: the order the finished part of the tree keeps. Every node
  dominates its finished children. Every finished node stopped at the depth
  limit, in cutoff, or with its cursor run dry. A finished node without a best child
  stopped at the depth limit or where the side to move had no move.
- `Solver`: expansion, the search loop, backtracking and `engage`.
- `Wrappers`, `Weapons`, `Actions`, `Conflicts`: the plain data types the core uses.

Rust structs that the program clones freely are Dafny values. This covers
`PartyMember`, `Party`, `Conflict`, `Node` and the iterators. An operation
that mutates one through `&mut self` becomes a function or method that
returns the updated value. Where the source loops, the model keeps the loop:

- `Parties.ReplaceMember`
- `ActionIterators.TargetNext` and `ActionIterators.Next`
- `Solver.Search`, the loop of `Solver.Minimax` (the loop body is `Solver.Explore`)
- `Solver.Backtrack`

Each of these is proved against a specification:

- `Parties.Replaced`
- `ActionIterators.Pending` and `ActionIterators.Moves`
- `Solver.Round`, which states one round of the loop in the source's order.
  The loop keeps the invariants `Arena.SearchInv` and `SearchOrder.Settled`.
- `Solver.Timeline`

The `f32` scores are `real`s. The infinities are the sentinels `NegInf` and
`PosInf` of `Values.ExtReal`.

Where the code and its description disagree, the model follows the code:

- `TerminalState` (src/value.rs:17-24) declares only `Win`, `Defeat` and
  `Heuristic`, but src/utility_value.rs also builds `Retreat` and `Remain`.
  The model has all five. The search produces only the first three, and
  `SearchTree.SolverValue` keeps that as an invariant.
- `AppliedAction` is the enum `Flee | Targeted(..)` of src/action.rs. The
  solver and the iterator always build `Targeted` and never emit `Flee`.
- `can_act` means "not dead". `is_applicable` means "the target is not dead".
  `has_retreated` is a flag on the party that nothing in the search sets.
- The depth limit is tested before any cutoff (src/solver.rs:60).
- When `handle_action` refuses a move, the node is treated as exhausted
  (src/solver.rs:206, 269); the model proves this cannot happen.
- The doc comment of `with_value` says it overwrites alpha. The code keeps
  the window and replaces only the current value.
- `Node::new_root` names its parameter after the search depth, but uses it as
  the root's depth. The search passes 0.
- `minimax_expand` looks up the target by its member id used as a position
  (src/solver.rs:200). The search therefore requires ids equal to positions
  (`Parties.IdsAreIndices`); the model proves that every step keeps this.
- `Event.is_initiator_turn` is copied from the node reached
  (src/solver.rs:290). It says whether the initiator moves next.

## Model

| member | source | states |
|---|---|---|
| PartyMembers.HandleSimpleAttack | src/party_member.rs:41-56 | the attack takes hold exactly when the member is alive; a dead member is returned unchanged; otherwise health becomes max(health - damage, 0) and damage taken grows by the full damage; id and weapon are kept |
| PartyMembers.HandleAction | src/party_member.rs:27-31 | dispatches on the action kind: it takes hold exactly when the member is alive, a dead member is unchanged, otherwise health becomes max(health - damage, 0) (never negative) and damage taken grows by the full damage; id and weapon are kept |
| PartyMembers.DeathIsPermanent | src/party_member.rs:19-21 | a member is dead at health 0 or below and then cannot act, whatever hits it; a living member dies from a hit exactly when the damage is at least its health |
| PartyMembers.ApplicableIffHitTakesHold | src/action_iterator.rs:95-100 | an action is applicable to a target exactly when the target's handler accepts it, so the move generator's filter and the handler agree |
| PartyMembers.OverkillCountsFullDamage | src/party_member.rs:49-53 | a hit at least as large as the health kills, leaves health exactly 0 and still adds the full raw damage (the overkill test) |
| PartyMembers.DeadIsImmune | src/party_member.rs:42-44 | a dead member refuses every action and is unchanged |
| PartyMembers.AddAttackActions | src/party_member.rs:67-77 | appends exactly one simple attack carrying the member's weapon and that weapon's damage, keeping the earlier entries |
| PartyMembers.ActionsOf | src/party_member.rs:60-64 | a member's actions are exactly its one weapon attack |
| Parties.NotDefeatedHasLivingMember | src/party.rs:27-29 | a party is not defeated exactly when it has a living member (defeat means all members are dead, so an empty party is defeated) |
| Parties.ReplaceMember | src/party.rs:33-40 | the loop replaces the first member with a matching id and stops; the result is the party with its members `Replaced` and everything else kept |
| Parties.ReplacedAtFirstMatch | src/party.rs:34-38 | when the first matching id is at position k, the result overwrites exactly position k |
| Parties.ReplacedNoMatch | src/party.rs:34-40 | without a member of that id, replacing changes nothing |
| Parties.ReplacedOneMember | src/party.rs:33-40 | every position other than the first match keeps its member; size and order are kept |
| Parties.ReplacedIdempotent | src/party.rs:33-40 | replacing twice with the same member equals replacing once |
| Parties.ReplacedKeepsIds | src/party.rs:33-40 | replacing keeps the id at every position |
| Parties.ReplacedById | src/party.rs:33-40 | with ids equal to positions, replacing member m changes position m.id only |
| Values.Max | src/solver.rs:334-335 | `f32::max` on scores: an upper bound of both arguments and equal to one of them |
| Values.Min | src/solver.rs:347 | `f32::min` on scores: a lower bound of both arguments and equal to one of them |
| Values.LeTotalOrder | src/value.rs:140-144 | the order of scores, with -inf below and +inf above every real, is a total order |
| Values.ComparisonIgnoresVariant | src/value.rs:134-144 | equality and ordering of terminal states compare scores only: a win and an estimate with the same score are equal and neither is below the other |
| Values.NegativeMeansBelowZero | src/value.rs:107-109 | a state is negative exactly when its score is -inf or a negative real |
| Values.New | src/value.rs:51-53 | a new value has alpha -inf, beta +inf and the given state |
| Values.WithValue | src/value.rs:61-63 | replaces the current state and keeps both alpha and beta |
| Values.CutoffsNeedFiniteScore | src/value.rs:66-75 | an infinite score never cuts, and a fresh value cuts neither way |
| Values.BothCutoffsCloseWindow | src/value.rs:66-75 | an alpha and a beta cutoff at once imply beta <= alpha |
| UtilityValue.HealthSum | src/utility_value.rs:32-37 | the sum of healths capped below at 0 is non-negative, and positive when some member is alive |
| UtilityValue.DamageSum | src/utility_value.rs:10-15 | the damage sum is non-negative when every member's damage is |
| UtilityValue.GetUtility | src/utility_value.rs:5-50 | the five-way classification: defeat and retreat of the initiator take priority over the opponent's defeat, then its retreat; each variant is characterised both ways with its exact score (-damage, 0.1 x -damage, health, 0.1 x health, 0.1 x health) |
| UtilityValue.UtilitySigns | src/utility_value.rs:6-49 | with non-negative damages, defeat and retreat score at most 0, and win, remain and estimate strictly above 0 |
| UtilityValue.LossAssertionFailsOnCleanRetreat | src/utility_value.rs:16 | a retreating initiator with no damage taken breaks the strict assertion; its score is Retreat(0) |
| UtilityValue.LossAssertionCorrectedHolds | src/utility_value.rs:16 | the non-strict form of the assertion holds whenever damages are non-negative |
| UtilityValue.HealthAssertionHolds | src/utility_value.rs:38 | the strict assertion on the health sum holds: an initiator that is neither defeated nor retreated has a positive health sum |
| ActionIterators.NewTargetIterator | src/action_iterator.rs:123-132 | a fresh target cursor starts at the range start, holds the member's actions and has drawn none |
| ActionIterators.TargetNext | src/action_iterator.rs:138-164 | each call emits the head of `Pending` and leaves the rest pending, or returns None when nothing is pending and discards the action source |
| ActionIterators.FreshTargetIteratorEmitsRange | src/action_iterator.rs:173-229 | a fresh target cursor over s..e with s < e emits (a, s), ..., (a, e-1) and then nothing |
| ActionIterators.EmptyRangeEmitsStart | src/action_iterator.rs:141-155 | over an empty range the target cursor still emits the start index once, which would be out of bounds in the caller |
| ActionIterators.New | src/action_iterator.rs:47-50 | a fresh cursor covers all members of the current party, from index 0 |
| ActionIterators.NewIn | src/action_iterator.rs:54-62 | a fresh cursor over a member range starts at its start, with no inner cursor |
| ActionIterators.NewIsValid | src/action_iterator.rs:47-62 | a fresh cursor against a non-empty opponent is well formed |
| ActionIterators.Next | src/action_iterator.rs:68-119 | the loop returns the head of `Moves` and leaves the rest, or None when no move is left; parties and member range are kept |
| ActionIterators.MovesSkipMember | src/action_iterator.rs:75-79 | a member that cannot act is skipped: moving past it leaves the moves unchanged |
| ActionIterators.MovesStartMember | src/action_iterator.rs:81-85 | creating the inner cursor for an acting member leaves the moves unchanged |
| ActionIterators.MovesMemberDone | src/action_iterator.rs:88-92 | an exhausted inner cursor moves on to the next member without losing moves |
| ActionIterators.ExhaustedStaysExhausted | src/action_iterator.rs:70-73 | once the index reaches the end of the range, no move is left, so every later call returns None |
| ActionIterators.MovesBound | src/action_iterator.rs:70-92 | at most (members left) x (opponent size) moves are emitted (one action per member) |
| ActionIterators.MovesAreMovesFrom | src/action_iterator.rs:93-115 | every emitted move has source (current id, id of an acting member), that member's attack, and target (opponent id, id of a living opponent); dead targets are skipped |
| ActionIterators.MovesAllAlive | src/action_iterator.rs:6-12 | when all are alive, members ascend and each member's targets ascend, all targets of an action before the next member |
| ActionIterators.NewEmitsAllPairs | src/action_iterator.rs:6-12 | when all are alive, a fresh cursor emits every member x target pair in order, exactly |members| x |opponents| of them |
| ActionIterators.TwoHeroesAgainstTwoVillains | src/action_iterator.rs:231-348 | two heroes against two villains give exactly the moves (0 to 0), (0 to 1), (1 to 0), (1 to 1), in that order |
| ActionIterators.MovesNonEmptyIff | src/action_iterator.rs:68-119 | a side has a move against the other exactly when neither side is defeated |
| SolverUtility.GetUtility | src/solver.rs:357-393 | the search's utility is Win, Defeat or Heuristic with a finite score: a defeat exactly when the initiator is defeated, scored -damage; a win exactly when only the opponent is defeated, scored health; otherwise an estimate of 0.1 x health |
| SolverUtility.AgreesWithFiveWayUtility | src/solver.rs:357-393 | while neither side has retreated, the search's utility equals the five-way classification |
| SolverUtility.UtilitySigns | src/solver.rs:357-393 | with non-negative damages, a defeat scores at most 0 and a win or estimate strictly above 0 |
| SolverUtility.DefeatAssertionFailsOnUnhurtDefeat | src/solver.rs:368 | an initiator whose one member starts dead with no damage is defeated with score 0 and breaks the strict assertion |
| SolverUtility.DefeatAssertionCorrectedHolds | src/solver.rs:368 | the non-strict form of the assertion holds whenever damages are non-negative |
| SearchTree.NewRoot | src/solver.rs:476-490 | the root has id 0, no parent or action, is maximizing at turn 0, and holds Heuristic(-inf) in the widest window |
| SearchTree.Branch | src/solver.rs:494-521 | a child records its parent and action; it flips the side with depth + 1 and turn + 1, inherits the parent's alpha and beta, starts at the worst value for its own side, and is not cut off |
| SearchTree.StepChangesOneMember | src/solver.rs:205-224 | a step replaces exactly the target member of the attacked side; the moving side, party ids and sizes are kept, and the turn grows by one |
| SearchTree.StepKeepsLabels | src/solver.rs:212-224 | the initiator and opponent labels never swap: ids, sizes, ids-equal-positions and retreat flags are kept by every step |
| SearchTree.PropagateToParent | src/solver.rs:314-353 | a maximizing parent takes the max and a minimizing one the min; the best child changes only on strict improvement; a beta (alpha) cutoff is reported exactly when the new value is in cutoff, and otherwise alpha (beta) moves to the max (min) with the child's score; nothing else changes; the root has no parent and nothing happens |
| Arena.InitialSearchInv | src/solver.rs:37-43 | the root alone on the stack satisfies the search invariant |
| Arena.FinishKeeps | src/solver.rs:60-149 | finishing the top node, propagating it and popping it keeps the invariant (ids equal indices, depth bound, best child a finished later child with the same value) and lowers the work left |
| Arena.ExpandKeeps | src/solver.rs:241-262 | expanding the top node by a landing move keeps the invariant and lowers the work left |
| Arena.BestChildIsDeeper | src/solver.rs:60-69 | a node with a best child is above the depth limit, so a node at the limit is never expanded |
| Arena.NoBestChildNoCutoff | src/solver.rs:71-101 | a node on the stack without a best child holds an infinite value and so is never cut off |
| Arena.TopShape | src/solver.rs:44-48 | the popped node sits at its own index, below its parent, and its cursor is well formed |
| SearchOrder.InitialSettled | src/solver.rs:37-43 | the root alone on the stack satisfies the order invariant |
| SearchOrder.TopChildless | src/solver.rs:106-130 | a node on top of the stack without a best child has no child: a finished child's finite score would have replaced the infinite start value |
| SearchOrder.FinishSettled | src/solver.rs:314-353 | finishing, propagating and popping the top node keeps every node dominating its finished children (the parent's new score is the max or min of its old one and the child's), keeps untouched cursors full, leaves a node without a best child at the depth limit or without a move, and leaves the finished node stopped: at the depth limit, in cutoff, or with its cursor run dry |
| SearchOrder.ExpandSettled | src/solver.rs:241-262 | expanding the top node and pushing its fresh child keeps the order invariant, including the stopping rule of every finished node |
| Arena.CursorStepShrinks | src/solver.rs:185-192 | taking a move from a node's cursor lowers the moves it has left |
| Solver.OutcomeOf | src/solver.rs:277-282 | the root's value maps Win to Win, Defeat to Lose and Heuristic to Unknown, with the same score |
| Solver.OutcomeOfFinalState | src/solver.rs:277-282 | read off a final state, the outcome is a win exactly when only the opponent is defeated, and a loss exactly when the initiator is defeated |
| Solver.MinimaxExpand | src/solver.rs:164-270 | creates the cursor on the first visit and takes its next move; if one lands, it appends the child built from the step and pushes the parent's id and then the child's; otherwise the node is exhausted, nothing is added, and no move was left |
| Solver.Settle | src/solver.rs:137-149 | storing an exhausted node's value, propagating and writing the node back is the propagation from the arena holding the node |
| Solver.Explore | src/solver.rs:44-150 | one round of the loop is `Round`: `cut` holds exactly when the node is not at the depth limit and is a maximizer in beta cutoff or a minimizer in alpha cutoff or holding a negative value; a node at the limit takes its utility, is propagated and popped; a cut node is propagated as it is and popped; otherwise the node's next move appends its child and pushes node and child, or, with no move left, the node takes its best child's finite value or else its utility, is propagated, written back and popped; the invariants hold and the work left shrinks |
| Solver.RoundLeaf | src/solver.rs:60-69 | settling a node at the depth limit with its utility and popping it is the depth-limit case of `Round` |
| Solver.RoundCut | src/solver.rs:71-101 | propagating a node in cutoff as it is and popping it is the cutoff case of `Round` |
| Solver.RoundExhausted | src/solver.rs:106-149 | settling an exhausted node, propagating it and writing it back is the exhausted case of `Round` |
| Solver.RoundExpanded | src/solver.rs:104-149 | writing back a node expanded by its first move below its new child is the expansion case of `Round` |
| Solver.Minimax | src/solver.rs:34-153 | terminates; the outcome exists exactly when the depth limit is positive and the initiator has an opening move; below a positive limit the root's children are exactly the initiator's opening moves, each once and in the cursor's order, since the root is never cut; the first move of the predicted line is a child of the root that scores the outcome, and no child of the root scores above it; every node of the finished tree stopped at the depth limit, in cutoff (beta on a maximizer, alpha or a negative value on a minimizer), or with its cursor run dry, so each node tried every reply until one of these held; in the finished tree every node dominates its children (a maximizer's score is at least theirs, a minimizer's at most) and the predicted line is the chain of best children from the root; that line is a legal line of play from the conflict, at most the depth limit long, ending at the limit or with a defeated side, and the outcome is the utility of its last state; cuts never exceed evaluations |
| Solver.Search | src/solver.rs:37-150 | the loop runs until the stack is empty and leaves an arena that keeps the invariants `SearchInv` and `Settled`, with the root's beta still +inf and its cursor run dry below a positive limit; cuts never exceed evaluations |
| Solver.FinalTree | src/solver.rs:152 | the finished arena can be read, its nodes dominate their children, the root has a best child exactly when the limit is positive and there is an opening move, the root's children are exactly the opening moves below a positive limit, the root's best child is a child that carries the root's score and the first move of the line, every node stopped at the limit, in cutoff or with its cursor run dry, and the chain of best children is a legal line that ends at the limit or with a defeated side and scores the root's value |
| Solver.RootCovered | src/solver.rs:71-130 | the maximizing root keeps beta at +inf, so it is never cut off and, once finished below a positive limit, has branched on every opening move exactly once, in order |
| Solver.FinalOrder | src/solver.rs:314-353 | in the finished arena every node but the root hangs below an earlier node that dominates it |
| Solver.BestChildIsExtreme | src/solver.rs:322-340 | a node's best child is the best of its children for the node's side: no child of a maximizer scores above it, none of a minimizer below it |
| Solver.LeafEnds | src/solver.rs:104-130 | a finished node without a best child is at the depth limit or has a defeated side |
| Solver.ChainEnds | src/solver.rs:286-302 | the chain of best children below a node ends at the depth limit or in a state with a defeated side |
| Solver.Backtrack | src/solver.rs:273-310 | absent exactly when the root has no best child (the source panics); otherwise the outcome of the root's value, the events of the chain of best children, and the counters |
| Solver.ChainLine | src/solver.rs:286-302 | below a node, the chain of best children is a line of play from its parent, within the depth limit, ending in a state whose utility is the node's value |
| Solver.FinalLine | src/solver.rs:286-302 | in a finished arena the predicted line is a line of play from the conflict, with depth and turn growing by one per event, at most the depth limit long, and the root's value is the utility of its last state |
| Solver.TurnIsDepth | src/solver.rs:241-247 | every node's turn equals its depth |
| Solver.Engage | src/solver.rs:21-24 | clamps the depth limit to at least 1; an outcome exists exactly when neither side is defeated; every opening move of the initiator is tried, once each, and the chosen first move scores the outcome while no other opening move scores above it; every node of the search tree stopped only at the depth limit, in cutoff, or with no move left; the line is between 1 and the limit long, ends at the limit or with a defeated side, and scores the outcome |

## Left out

- Solver.Minimax: `evaluations` and `cuts` are only bounded (cuts <= evaluations). Their exact values are not stated.
- Solver.Minimax, Solver.Engage: both parties must be non-empty, with member ids equal to positions. The source panics otherwise: an empty opponent leads to an out-of-bounds index, an empty initiator to a missing best child, and ids that are not positions break the lookup at src/solver.rs:200.
- Solver.Minimax: global optimality of the predicted line against the full game tree is not stated. The "minimizer already negative" cutoff (src/solver.rs:92-101) is a heuristic rather than sound pruning, so the result is not plain minimax. The model states the local order the search keeps instead: every node dominates the children it explored, the line follows best children, and the root, which is never cut, explores every opening move and picks one that none of the others beats. Every other node explores its replies until it reaches the depth limit, one of the three cutoffs, or the end of its moves.
- PartyMembers.HandleSimpleAttack, Parties.ReplaceMember, SearchTree.PropagateToParent: the in-place updates through `&mut` are updates of values. The mutated structs are owned clones that nothing else aliases.
- The scenario tests `simple_fight_works` and `complex_fight_works` (src/solver.rs:541-611) are not modelled. They need the whole search evaluated at depths 200 and 100.
- The `child_nodes` list of a node (src/solver.rs:258, 463) is not modelled. It is written and never read.
- `trace!` logging and the `Display`/`Debug` impls are not modelled.
- src/main.rs (console output, name generation, logger setup) is not part of this model.
- `f32` arithmetic is not modelled: rounding, NaN and -0.0. Scores are exact reals with infinite sentinels.
- Integer widths (`usize`) are unbounded here. No counter or index in the search can come near the limit.
- The flag `has_retreated` is a field of `Party`, since the source does not define it. The `Flee` action is never emitted, because nothing in the source emits it.

## Findings

| source | as written | input that shows it | evidently intended | confidence | as-written member | corrected member |
|---|---|---|---|---|---|---|
| src/utility_value.rs:16 | `debug_assert!(utility < 0.0)` on the defeat-or-retreat path | an initiator that retreats before taking any damage: the damage sum is 0 | `utility <= 0.0`: a retreat without damage is a legitimate zero score | high, not executed | UtilityValue.LossAssertionFailsOnCleanRetreat | UtilityValue.LossAssertionCorrectedHolds |
| src/solver.rs:368 | `debug_assert!(utility < 0.0)` on the defeat path | an initiator whose only member enters with health 0 and no damage taken: defeated, score 0 | `utility <= 0.0` | medium (needs a member that starts dead), not executed | SolverUtility.DefeatAssertionFailsOnUnhurtDefeat | SolverUtility.DefeatAssertionCorrectedHolds |
