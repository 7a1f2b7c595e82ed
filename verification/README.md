# Dragoon enemy AI — a Dafny model

This project models the enemy-coordination core of Dragoon, an Unreal Engine melee game.
Dragoon enemies share a player's *attack circle*. The circle has eight slots around the
player, an **enemy budget** that limits which enemies may engage, and an **attack budget**
that limits how many attacks run at once. A game-wide *blackboard* holds four things:

- a roster of agents out of combat and a roster of agents in combat;
- a 27×27×27 n-gram table of the player's attack ids;
- a bounded history of those ids, which feeds attack prediction;
- the last three ids seen.

Each enemy's *controller* is a small state machine. A new state can be requested at any
time, also by the states themselves from inside their callbacks, and the switch happens
when the controller next checks its ready flag. The controller asks the circle for attack
budget, reacts to an incoming attack id by splitting it into a direction and a type, and
cleans up the circle and the blackboard when its agent dies.

Every class is an immutable datatype, and every mutating member is a pure function from
the old state to the new one. Modules:

| module | file | models |
|---|---|---|
| `Prelude` | prelude.dfy | null-able pointers (`Option`), the error log (`Logged`), integer vectors, squared distance, C++ truncating `/` and `%` |
| `Arrays` | arrays.dfy | `TArray::Find` (index or -1), `TArray::Remove` (all occurrences) |
| `Tables` | tables.dfy | `TMap` as a sparse array of pairs with a free list of holes: `Add`, `Remove`, `Find`/`operator[]`, `FindKey` |
| `EnemyAgent` | enemy_agent.dfy | the agent pointer and its score, the combat flags, `FAttack` and attack ids |
| `AttackCircle` | attack_circle.dfy | slots, the slot-choice scan, join/remove, the two budgets |
| `AIBlackboard` | blackboard.dfy | the rosters, recording an attack, the prediction tallies |
| `AIController` | controller.dfy | the state machine, the attack gate, reacting to an attack, death clean-up |

Modelling choices:

- **Conditions.** `TArray::Find` returns an index, and the blackboard uses that index directly
  as a condition. The model keeps it that way: `Truthy(i)` is `i != 0`, so "found at index 0"
  counts as false.
- **Iteration order.** A `TMap` keeps its pairs in a sparse array. A removed pair leaves a
  hole, the next new key fills the most recently freed hole, and adding an existing key
  replaces its value in place. Iteration and `FindKey` visit the array in index order.
  - The occupied, offset and location maps only get keys from `Initialize`, so their order is
    `AttackCircle.InitOrder`, which is not the order the enum declares the slots in.
  - The occupant map gets its keys from `AssignAgentToSlot`, so its order is the order the
    slots were assigned in, with removed slots' places reused. `Tables` models this, and
    `AttackCircle.SlotOf` is `FindKey` on it.
- **State callbacks.** The states' `StateTick`, `ExitState` and `EnterState` bodies are not
  modelled, but each may call `SwapState`. `AIController.Requests` says which state, if any,
  each callback requests, and `AIController.Tick` and `AIController.TransitionBetweenStates`
  apply those requests at the point where the callback runs.
- **The NULL distance.** `float bestDistance = NULL` is 0.0 in the program, and the model keeps
  the same sentinel.
- **Budgets.** The budgets are C++ `int`s. The model uses unbounded integers, and the
  uninitialised budgets of a circle that was never initialised are 0.
- **The code wins.** Where the program's own comments and its code disagree, the model follows
  the code:
  - `FAttack`'s id is the *sum* of the two ordinals (EnemyAgent.h:170), while the decoder's
    comments in DragoonAIController.cpp:78-80 and :85-87 read `attackID % 9` as the direction
    and `attackID / 9` as the type, which only inverts `type*9 + direction`;
  - `RemoveAgent` tests `Find` as a boolean;
  - `HaveAgentJoinCombat` leaves the agent in both rosters;
  - a dead agent's enemy score is never returned to the circle, although
    DragoonAIController.cpp:42 says the agent is removed "from attack circle", and
    `RemoveAgentFromCircle` (AttackCircle.h:109-113) only clears the agent's slot.

  The intended versions are modelled alongside; see "## Findings".

## Model

| member | source | states |
|---|---|---|
| Arrays.Find | Source/Dragoon/DragoonAIBlackboard.cpp:43-45 | -1 exactly when the element is absent, otherwise the index of its first occurrence |
| Arrays.RemoveAll | Source/Dragoon/DragoonAIBlackboard.cpp:44 | every occurrence goes, every other element stays with its multiplicity, an absent element leaves the array unchanged, a surviving head stays the head, and duplicate-freedom is kept |
| Arrays.RemoveAllKeepsOrder | Source/Dragoon/DragoonAIBlackboard.cpp:44 | the removal is stable: two surviving elements keep their relative order |
| Arrays.RemoveAllAppendFresh | Source/Dragoon/AttackCircle.cpp:30 | removing an element that was appended to an array not holding it gives back the array |
| Tables.EmptyTable | Source/Dragoon/AttackCircle.h:62 | a new map is a valid table with no keys |
| Tables.Get | Source/Dragoon/AttackCircle.h:62 | a key has no value exactly when no live cell holds it |
| Tables.GetMeansCell | Source/Dragoon/AttackCircle.h:62 | in a valid table, a key maps to a value exactly when some cell holds that pair |
| Tables.Add | Source/Dragoon/AttackCircle.cpp:166 | the key maps to the new value and every other key keeps its value and its cell; an existing key keeps its cell, a new key fills the most recently freed hole, which leaves the free list, or else goes at the end; the rest of the free list is kept |
| Tables.Remove | Source/Dragoon/AttackCircle.cpp:50 | the key is gone and every other key keeps its value and its cell; an absent key changes nothing; a present key's cell is pushed on the front of the free list, which is otherwise kept, so holes are reused last in, first out |
| Tables.FindKey | Source/Dragoon/AttackCircle.cpp:61-66 | None exactly when no key maps to the value; otherwise a key that maps to it, held in the earliest such cell |
| Tables.KeysOfIsGet | Source/Dragoon/AttackCircle.cpp:47-48 | the keys whose cells hold a value are exactly the keys that map to it |
| EnemyAgent.NewAgentStatus | Source/Dragoon/EnemyAgent.h:46 | a new agent is not in combat, not dead and not busy |
| EnemyAgent.JoinCombat | Source/Dragoon/EnemyAgent.h:70-73 | the agent is in combat afterwards; its dead and busy flags are untouched |
| EnemyAgent.LeaveCombat | Source/Dragoon/EnemyAgent.h:75-78 | the agent is out of combat afterwards; its dead and busy flags are untouched |
| EnemyAgent.DefaultAttack | Source/Dragoon/EnemyAgent.h:154-159 | the default attack has id 0, no target, and a valid direction and type |
| EnemyAgent.LeaveAfterJoinCombat | Source/Dragoon/EnemyAgent.h:70-78 | leaving combat undoes joining it for an agent out of combat, and joining undoes leaving for an agent in combat |
| EnemyAgent.DefaultAttackDecodes | Source/Dragoon/EnemyAgent.h:154-159 | the default attack's id splits back into its own direction and type |
| EnemyAgent.MakeAttack | Source/Dragoon/EnemyAgent.h:167-172 | the constructor stores direction, type and target; its id lies in 0..10, so ids 11..26 are never produced |
| EnemyAgent.EncodeAttackId | Source/Dragoon/EnemyAgent.h:148 | the intended id is a valid n-gram index, and the controller's `% 9` and `/ 9` give back the direction and the type |
| EnemyAgent.EncodeAfterDecode | Source/Dragoon/DragoonAIController.cpp:79-80 | every id in 0..26 splits into a valid direction and type that encode back to that id |
| EnemyAgent.DecodeAfterEncode | Source/Dragoon/DragoonAIController.cpp:84-87 | splitting an encoded id gives back the pair it was built from |
| EnemyAgent.EncodeAttackIdInjective | Source/Dragoon/EnemyAgent.h:148 | two attacks get the same intended id if and only if they have the same direction and type |
| EnemyAgent.AttackIdsCollide | Source/Dragoon/EnemyAgent.h:170 | two different attacks, (1, 0) and (0, 1), get the same constructed id |
| EnemyAgent.ConstructedIdMisdecodes | Source/Dragoon/EnemyAgent.h:170 | the constructed ids of (0, 1) and (8, 2) split into (1, 0) and (1, 1), which are different attacks |
| AttackCircle.NewCircle | Source/Dragoon/AttackCircle.cpp:6-9 | a default circle has no player, no members, no occupants and the default maxima |
| AttackCircle.UpdateCircleLocation | Source/Dragoon/AttackCircle.cpp:34-43 | the centre moves to the player, and each slot with an offset is placed at centre plus offset; nothing else changes |
| AttackCircle.UpdateCircleLocationIdempotent | Source/Dragoon/AttackCircle.cpp:34-43 | re-centring twice on the same player position is the same as re-centring once |
| AttackCircle.Initialize | Source/Dragoon/AttackCircle.cpp:91-128 | without a player nothing changes; with one, both budgets are reset to their maxima, all eight slots are free with scaled offsets, and the members and occupants are kept |
| AttackCircle.NewCircleFor | Source/Dragoon/AttackCircle.cpp:17-20 | a circle built for a player is initialised: both budgets are at their maxima, which are the defaults of 10, and every slot is free |
| AttackCircle.SetPlayer | Source/Dragoon/AttackCircle.cpp:87-89 | the player is set and nothing else changes |
| AttackCircle.ConstructorIsSetPlayerThenInitialize | Source/Dragoon/AttackCircle.cpp:17-20 | the player constructor is the default circle with the player set and then initialised; before `Initialize`, the enemy and attack budgets of a circle given a player are still 0 |
| AttackCircle.NewCircleBudgetsAreDefaults | Source/Dragoon/AttackCircle.h:30-34 | both budgets of a fresh circle start at 10 |
| AttackCircle.EightSlots | Source/Dragoon/AttackCircle.h:11-20 | the initialisation order lists each of the eight slots exactly once |
| AttackCircle.FreeAmong | Source/Dragoon/AttackCircle.cpp:137-141 | the free list holds exactly the unoccupied slots, in map order, without repeats |
| AttackCircle.ScanAsWritten | Source/Dragoon/AttackCircle.cpp:143-157 | when every free slot has a positive distance, the scan returns a free slot at minimal distance, the earliest one on a tie |
| AttackCircle.CheckForClosestAvailableSlot | Source/Dragoon/AttackCircle.cpp:130-163 | returns a free slot when there is one, Front when there is none, and the nearest free slot when no distance is zero |
| AttackCircle.ScanClosest | Source/Dragoon/AttackCircle.h:162-167 | the corrected scan: None exactly for an empty list, otherwise a member at minimal distance, the earliest on a tie |
| AttackCircle.ClosestFreeSlot | Source/Dragoon/AttackCircle.h:162-167 | the corrected choice: None exactly when no slot is free, otherwise the free slot nearest the requester |
| AttackCircle.CheckAgreesWhenNoZeroDistance | Source/Dragoon/AttackCircle.cpp:149-156 | with no free slot at distance zero, the program's choice equals the corrected choice |
| AttackCircle.ScanSkipsZeroDistanceHead | Source/Dragoon/AttackCircle.cpp:149-152 | a first free slot at distance 0 is overwritten by the next candidate |
| AttackCircle.ZeroDistanceSlotPassedOver | Source/Dragoon/AttackCircle.cpp:134 | a requester standing on the free Front slot of an empty circle is sent to a different slot |
| AttackCircle.AllFreeIsInitOrder | Source/Dragoon/AttackCircle.cpp:99-107 | in an initialised circle with every slot free, the free list is the whole initialisation order |
| AttackCircle.AssignAgentToSlot | Source/Dragoon/AttackCircle.cpp:165-168 | the agent becomes the slot's occupant through `TMap::Add`, and the slot is marked occupied; every other slot keeps its occupant and its flag, and nothing else changes |
| AttackCircle.JoinCircle | Source/Dragoon/AttackCircle.cpp:22-32 | admitted exactly when the score fits the enemy budget; then the budget drops by the score, the agent is appended, it is added to the occupant map under the chosen slot, that slot is marked occupied, and nothing else changes; a refusal changes nothing |
| AttackCircle.FullCircleJoinDisplacesFront | Source/Dragoon/AttackCircle.cpp:132 | when every slot is taken, an admitted agent overwrites the Front occupant |
| AttackCircle.SlotOf | Source/Dragoon/AttackCircle.cpp:47-48 | None exactly when the agent occupies no slot; otherwise a slot it occupies, the first of its slots in the occupant map's order |
| AttackCircle.RemoveAgentFromCircle | Source/Dragoon/AttackCircle.cpp:45-57 | an agent holding no slot leaves the circle unchanged and logs an error; otherwise its first slot in the occupant map's order is removed from that map and marked free, the agent keeps its other slots, and nothing else changes |
| AttackCircle.RemovedAgentHoldsNoSlot | Source/Dragoon/AttackCircle.h:109-113 | after removal, an agent that held at most one slot holds none |
| AttackCircle.RemovalFollowsAssignmentOrder | Source/Dragoon/AttackCircle.cpp:47-51 | an agent given Right and then Front holds both; removing it frees Right, the earlier assignment, and leaves it on Front |
| AttackCircle.GetLocationForAgent | Source/Dragoon/AttackCircle.cpp:59-68 | an agent without a slot gets its own position back and the circle is untouched; otherwise the circle is exactly the one re-centred on the player, and the agent gets its slot's new location, the player position plus the slot's offset |
| AttackCircle.CanAgentPerformAttack | Source/Dragoon/AttackCircle.cpp:70-77 | granted exactly when the score fits the attack budget, which then drops by the score; nothing changes on refusal |
| AttackCircle.AgentAttackFinished | Source/Dragoon/AttackCircle.cpp:79-85 | the score is returned, and the budget is capped at its maximum |
| AttackCircle.ReserveThenFinishRestores | Source/Dragoon/AttackCircle.h:129-134 | a granted attack followed by its finish restores an in-range circle exactly |
| AttackCircle.JoinKeepsEnemyBudgetAccounted | Source/Dragoon/AttackCircle.cpp:24-30 | joining keeps "available + members' scores = maximum" |
| AttackCircle.RemoveKeepsEnemyBudgetAccounted | Source/Dragoon/AttackCircle.cpp:45-57 | removal keeps the same accounting, because neither the member list nor the budget changes |
| AttackCircle.RemovedAgentStaysCharged | Source/Dragoon/AttackCircle.cpp:48-51 | a removed agent is still a member and its score is still charged |
| AttackCircle.ScoreSumRemoveAll | Source/Dragoon/AttackCircle.cpp:29-30 | dropping every occurrence of an agent from the members lowers their total score by its score once per occurrence |
| AttackCircle.LeaveCircleIntended | Source/Dragoon/AttackCircle.h:109-113 | the corrected leave: the slot is freed as in the program, the agent is no longer a member while the other members stay, its charged score is returned, and the budget stays accounted for |
| AttackCircle.JoinThenLeaveRestoresBudget | Source/Dragoon/AttackCircle.cpp:22-32 | joining and then leaving by the corrected leave gives back the original enemy budget and member list |
| AttackCircle.ScenarioThreeJoins | Source/Dragoon/AttackCircle.cpp:22-32 | with a budget of 10, agents scoring 4 and 5 are admitted, an agent scoring 6 is refused, and 1 remains |
| AIBlackboard.NewBlackboard | Source/Dragoon/DragoonAIBlackboard.cpp:14-21 | an empty, valid and partitioned blackboard: empty rosters and history, the three last ids `atk1`, `atk2`, `atk3` at 0 as the header initialises them (DragoonAIBlackboard.h:30-31), both history flags clear, and an all-zero n-gram table, which the model assumes (see "## Left out") |
| AIBlackboard.RegisterAgent | Source/Dragoon/DragoonAIBlackboard.cpp:33-39 | a registered agent is unchanged; a new one is appended to the out-of-combat roster; partitioning and validity are kept |
| AIBlackboard.RegisterAgentIdempotent | Source/Dragoon/DragoonAIBlackboard.cpp:34-36 | registering twice is the same as registering once |
| AIBlackboard.RemoveAgent | Source/Dragoon/DragoonAIBlackboard.cpp:41-49 | the agent stays in combat exactly when it heads the in-combat roster; it stays out of combat when it was there, unless it heads the in-combat roster but not the out-of-combat one; the error is logged exactly when it heads both; no other agent moves |
| AIBlackboard.RemoveAgentKeepsIdleAgent | Source/Dragoon/DragoonAIBlackboard.cpp:43-46 | an agent registered only out of combat stays registered, and no error is logged |
| AIBlackboard.RemoveAgentSilentOnUnregistered | Source/Dragoon/DragoonAIBlackboard.h:67-71 | removing an unregistered agent logs no error |
| AIBlackboard.RemoveAgentLogsForRegisteredHead | Source/Dragoon/DragoonAIBlackboard.cpp:43-48 | removing the agent at the head of both rosters logs an error and removes nothing |
| AIBlackboard.RemoveAgentIntended | Source/Dragoon/DragoonAIBlackboard.h:67-71 | the corrected removal: the agent leaves whichever roster holds it, and an error is logged exactly when neither does |
| AIBlackboard.HaveAgentJoinCombat | Source/Dragoon/DragoonAIBlackboard.cpp:51-61 | a refused request changes nothing; otherwise the agent is appended to the in-combat roster and its combat flag is set |
| AIBlackboard.JoinLeavesAgentInBothArrays | Source/Dragoon/DragoonAIBlackboard.cpp:57-58 | every accepted join leaves the agent in both rosters, so the rosters are no longer partitioned |
| AIBlackboard.HaveAgentJoinCombatIntended | Source/Dragoon/DragoonAIBlackboard.h:73-77 | the corrected join moves the agent from the out-of-combat roster to the in-combat one and keeps the rosters partitioned |
| AIBlackboard.HaveAgentFleeCombat | Source/Dragoon/DragoonAIBlackboard.cpp:63-73 | a refused request changes nothing; an accepted request for the head of the in-combat roster leaves the rosters as they were; for any other agent it moves the agent out; the combat flag is cleared when accepted |
| AIBlackboard.FleeKeepsHeadInCombat | Source/Dragoon/DragoonAIBlackboard.cpp:69-70 | an accepted flee for the head of the in-combat roster leaves the agent in combat |
| AIBlackboard.HaveAgentFleeCombatIntended | Source/Dragoon/DragoonAIBlackboard.h:79-83 | the corrected flee moves the agent from the in-combat roster to the out-of-combat one and keeps the rosters partitioned |
| AIBlackboard.NewAgentCanJoinCombat | Source/Dragoon/DragoonAIBlackboard.cpp:51-61 | a newly registered agent, with a new agent's flags, is not refused when it asks to join combat |
| AIBlackboard.JoinThenFleeIntendedRestores | Source/Dragoon/DragoonAIBlackboard.h:73-83 | an accepted corrected join followed by the corrected flee is itself accepted, and gives back the agent's flags and each roster's membership |
| AIBlackboard.RecordPlayerAttack | Source/Dragoon/DragoonAIBlackboard.cpp:75-102 | nothing changes with nobody in combat; otherwise the window shifts in the new id, exactly one n-gram cell goes up by one, the history gains the id and drops its oldest entry exactly when it was full, and validity is kept |
| AIBlackboard.PredictNextAttack | Source/Dragoon/DragoonAIBlackboard.cpp:118-150 | before history is used, sets the flag once three ids are stored; afterwards, `recent` counts each follower of the last two ids in the history and `cumulative` holds exactly the non-zero n-gram cells after them |
| AIController.BeginPlay | Source/Dragoon/DragoonAIController.cpp:137-154 | the agent is registered and the controller starts in Guard with another Guard pending |
| AIController.SwapState | Source/Dragoon/DragoonAIController.cpp:59-65 | a null request is ignored; otherwise the request becomes the pending state with the flag raised, and the current state is untouched |
| AIController.LastSwapWins | Source/Dragoon/DragoonAIController.cpp:61-64 | of two requests before a tick, only the later one counts |
| AIController.Incoming | Source/Dragoon/DragoonAIController.cpp:156-162 | the state that becomes current is the one `ExitState` requests, if it requests one, and otherwise the pending state |
| AIController.TransitionBetweenStates | Source/Dragoon/DragoonAIController.cpp:156-174 | the old state exits before the incoming one enters, and an incoming None enters nothing; the incoming state becomes current; the pending slot then holds only what `EnterState` requested, and the flag is cleared; the flag tracks the pending state exactly when nothing entered or `EnterState` requested nothing |
| AIController.TransitionBetweenStatesIntended | Source/Dragoon/DragoonAIController.cpp:156-174 | the corrected transition, with the flag cleared before `EnterState`: the same events, current and pending states, and the flag always tracks the pending state |
| AIController.Tick | Source/Dragoon/DragoonAIController.cpp:114-135 | a dead agent does nothing; otherwise the state ticks first, a transition that is due after the tick (including one `StateTick` requested) follows, the move comes last, and without a due transition nothing else changes; the target location is kept, and the flag keeps tracking the pending state when `EnterState` requests nothing |
| AIController.SwapTakesEffectAtNextTick | Source/Dragoon/DragoonAIController.cpp:127-132 | a state requested between ticks is current after the next tick of a live agent, and the old state exited |
| AIController.SwapFromStateTickTakesEffectSameTick | Source/Dragoon/DragoonAIController.cpp:127-132 | a swap requested from `StateTick` is applied in the same tick: tick, exit, enter, move, in that order |
| AIController.EnterRequestIsStranded | Source/Dragoon/DragoonAIController.cpp:165-173 | a swap requested from `EnterState` stays pending with the flag cleared, and the next tick does not apply it |
| AIController.EnterRequestAppliedNextTick | Source/Dragoon/DragoonAIController.cpp:165-173 | with the corrected transition, a swap requested from `EnterState` stays pending with the flag raised and is current after the next tick |
| AIController.AttackPlayer | Source/Dragoon/DragoonAIController.cpp:53-57 | the attack is performed exactly when the circle grants its score; only then is attack budget consumed |
| AIController.AttackThenFinishRestoresBudget | Source/Dragoon/AttackCircle.cpp:79-85 | a performed attack that then finishes leaves the circle as it was |
| AIController.ReactToIncomingAttack | Source/Dragoon/DragoonAIController.cpp:67-100 | a busy agent ignores the attack; otherwise the predicted or random id is split with `% 9` and `/ 9`, and a valid id yields a valid pair that encodes back to it |
| AIController.AgentHasDied | Source/Dragoon/DragoonAIController.cpp:41-51 | a non-member's circle is untouched and nothing is logged for it; a member's circle is exactly the circle's own removal, with its error exactly when the member holds no slot; members and the enemy budget stay as they were; the blackboard and its error are exactly those of the blackboard's removal |

## Left out

- Perception (`SenseUpdate` and the sight configuration): it only stores engine data.
- Float vector maths: normalising the offsets and multiplying them by `offsetScale` is a parameter `scale` of `AttackCircle.Initialize`, and positions are integer vectors, so float rounding in `DistSquared` is not modelled.
- `FMath::FRand`, `FMath::RandRange` and `predictionConfidence` are outside inputs: `AIController.ReactToIncomingAttack` takes the coin's outcome and the random id as parameters.
- Engine effects (`MoveToLocation`, `UnPossess`, `Destroy`, `Super::Tick`/`BeginPlay`, and `new`/`delete` of state objects) are not modelled, apart from events in the tick trace. `UE_LOG` is reduced to an "error logged" flag.
- The behaviour states' `EnterState`/`StateTick`/`ExitState` bodies, and `ChooseAttack`, `PerformAttack`, `ParryAttack`, `DodgeAttack` and `IsBusy`: their files are not part of this model. The states are tags, the chosen attack score is a parameter, and busy/dead are flags.
- `GetNewSlotForAgent` and `CanAgentJoinCircle` are declared but never defined.
- The reaction dispatch on the attack type is empty, so it is not modelled. The body that reacts to the target in `RecordPlayerAttack` is empty as well.
- `DragoonAIBlackboard::AgentHasDied` only forwards to the controller's `AgentHasDied`, which is modelled.
- `PredictNextAttack` builds its two tallies and never combines them. `historyWeight` and `nextAttackPrediction` are never used, so no prediction is modelled.
- The destructors only clear fields, so they are not modelled.
- AttackCircle.JoinCircle: does not model 32-bit overflow of `availableEnemyScore - score`, because the scores are small game constants.
- AttackCircle.CanAgentPerformAttack: does not model 32-bit overflow of the subtraction, for the same reason.
- AttackCircle.AgentAttackFinished: does not model 32-bit overflow of `availableAttackScore + attackScore`, for the same reason.
- AttackCircle.RemovedAgentHoldsNoSlot: assumes the agent holds at most one slot. `JoinCircle` (AttackCircle.cpp:22-32) never checks membership, so a member that joins again is given a second slot (a full circle giving it Front is one case), and then removal frees only the first.
- Several requires clauses stand for dereferences that would crash in the program:
  - AttackCircle.JoinCircle: the circle must have been initialised, because `operator[]` on a missing slot key fails.
  - AttackCircle.UpdateCircleLocation: a player must be set.
  - AIBlackboard.RecordPlayerAttack: with agents in combat, the attack needs a target and an id in 0..26, because the target's name is read and the id indexes the n-gram table.
  - AttackCircle.CheckForClosestAvailableSlot, AttackCircle.FreeSlots and AttackCircle.ClosestFreeSlot: every slot must have entries in the occupied and location maps, because `circleSlotLocations[ slot.Key ]` on a missing key fails.
  - AttackCircle.AssignAgentToSlot: the slot must be a key of the occupied map, because `circleSlotOccupied[ slot ]` fails otherwise.
  - AttackCircle.RemoveAgentFromCircle and AIController.AgentHasDied: every occupied slot must be a key of the occupied map, for the same `operator[]` reason.
  - AttackCircle.GetLocationForAgent: an agent holding a slot needs a player and an offset for the slot, because `UpdateCircleLocation` reads the player and `*circleSlotOffset.Find( slot )` dereferences the result.
  - AIController.TransitionBetweenStates: a current state must exist, because `currentState->ExitState` dereferences it.
  - AIController.Tick: a due transition needs a current state, for the same reason.
- AIController.Tick: uses the transition as written, so it inherits the stranded `EnterState` request (see "## Findings"); its flag-tracking clause holds only when `EnterState` requests nothing.
- Members that take a circle require its occupant map to satisfy `Tables.Valid`: keys are unique, and the free list names distinct holes. Every `TMap` keeps this invariant, and the model proves that `Tables.Add` and `Tables.Remove` keep it.
- AIBlackboard.RecordPlayerAttack: does not model 32-bit overflow of the n-gram counter `attackNGram[ atk1 ][ atk2 ][ atk3 ]++`, because that needs more than two billion recorded attacks.
- AIBlackboard.NewBlackboard: the constructor (DragoonAIBlackboard.cpp:14-21) never clears `attackNGram`, and the header gives it no initialiser, so its cells start with whatever the allocation held. The model assumes an all-zero table.
- The default `FAttack` direction and type are taken as ordinal 0. DragoonCharacter.h, which declares those enums, is not part of this model.

## Findings

| source | as written | input that shows it | evidently intended | confidence | as-written member | corrected member |
|---|---|---|---|---|---|---|
| Source/Dragoon/AttackCircle.cpp:134 | `bestDistance` starts at NULL (0.0), and a distance of 0.0 is read as "no candidate yet" | an empty, initialised circle, requester standing exactly on the Front slot | a separate "no candidate yet" state, so the zero-distance slot wins | high; not executed | AttackCircle.CheckForClosestAvailableSlot, AttackCircle.ZeroDistanceSlotPassedOver | AttackCircle.ClosestFreeSlot |
| Source/Dragoon/AttackCircle.cpp:132 | with no free slot, the scan returns the default Front | a circle whose eight slots are all occupied, joined by an agent whose score still fits the budget | no slot offered (the header promises "the closest, empty slot") | medium; not executed | AttackCircle.FullCircleJoinDisplacesFront | AttackCircle.ClosestFreeSlot |
| Source/Dragoon/EnemyAgent.h:170 | `id = direction + type` | attacks (direction 1, type 0) and (direction 0, type 1) both get id 1 | `id = type * 9 + direction`, which the controller's `% 9` and `/ 9` invert | high; not executed | EnemyAgent.MakeAttack, EnemyAgent.AttackIdsCollide | EnemyAgent.EncodeAttackId, EnemyAgent.EncodeAttackIdInjective |
| Source/Dragoon/DragoonAIBlackboard.cpp:43-45 | the index `Find` returns is used as a boolean | an agent only in the out-of-combat roster: `Find` on the in-combat roster gives -1, which is true, so only the in-combat removal runs and the agent stays registered | `Contains`, or a test against `INDEX_NONE` | high; not executed | AIBlackboard.RemoveAgent, AIBlackboard.RemoveAgentKeepsIdleAgent | AIBlackboard.RemoveAgentIntended |
| Source/Dragoon/DragoonAIBlackboard.cpp:57-58 | joining combat adds the agent without removing it from the out-of-combat roster (through the `RemoveAgent` above) | any accepted join, because the joining agent is never in the in-combat roster | the agent moves from one roster to the other | high; not executed | AIBlackboard.HaveAgentJoinCombat, AIBlackboard.JoinLeavesAgentInBothArrays | AIBlackboard.HaveAgentJoinCombatIntended |
| Source/Dragoon/DragoonAIBlackboard.cpp:69-70 | fleeing re-registers an agent that `RemoveAgent` did not remove | the agent at the head of the in-combat roster flees | the agent moves back to the out-of-combat roster | high; not executed | AIBlackboard.HaveAgentFleeCombat, AIBlackboard.FleeKeepsHeadInCombat | AIBlackboard.HaveAgentFleeCombatIntended |
| Source/Dragoon/DragoonAIController.cpp:43-44 | a dying member's slot is freed, but it stays in `enemiesInCircle` and its enemy score is never returned | a member scoring 4 in a circle with budget 10 dies: the available score stays at 6 for good | the member leaves the circle and its score goes back to the enemy budget | medium; not executed | AttackCircle.RemoveAgentFromCircle, AttackCircle.RemovedAgentStaysCharged | AttackCircle.LeaveCircleIntended, AttackCircle.JoinThenLeaveRestoresBudget |
| Source/Dragoon/DragoonAIController.cpp:165-173 | the ready flag is cleared after the new state's `EnterState` runs, so a swap that `EnterState` requests is left pending with the flag down | Guard current, Alert pending, and Alert's `EnterState` requests Attack: Attack stays pending and no later tick enters it | the flag is cleared before `EnterState`, so the request is applied at the next tick | medium; not executed | AIController.TransitionBetweenStates, AIController.EnterRequestIsStranded | AIController.TransitionBetweenStatesIntended, AIController.EnterRequestAppliedNextTick |

The controller (`AIController.AgentHasDied`, `AIController.BeginPlay`, `AIController.Tick`) calls
the blackboard, circle and transition members that model the code as written, because they
describe what the program does.
The corrected members stand beside them, each with its intended property proved.
