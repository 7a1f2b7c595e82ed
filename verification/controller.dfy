/**
  The per-agent controller (DragoonAIController.cpp): a state machine whose transitions are
  requested at any time, by other code or by the states themselves from their callbacks, and
  applied at a tick; the budget-gated attack; the reaction to an incoming attack id; and the
  clean-up when the agent dies. State behaviours are opaque tags: the swaps they request are
  parameters, and what they do is recorded as events in a trace.
 */
module AIController {
  import opened Prelude
  import opened EnemyAgent
  import opened AttackCircle
  import opened AIBlackboard

  /** The concrete behaviour states; their Enter/Tick/Exit bodies are not part of this model. */
  datatype StateTag = GuardState | AlertState | AttackState

  /** What a tick asks of the outside world, in order. */
  datatype Event = Ticked(state: StateTag) | Exited(state: StateTag) | Entered(state: StateTag) | MovedTo(target: Vec)

  /** currentState, nextState (None is null), bIsStateChangeReady and targetLoc. */
  datatype Controller = Controller(current: Option<StateTag>, next: Option<StateTag>, stateChangeReady: bool, targetLoc: Vec)

  datatype Step = Step(controller: Controller, events: seq<Event>)

  /** The ready flag is raised exactly when a next state is pending. */
  ghost predicate PendingConsistent(ctl: Controller) {
    ctl.stateChangeReady <==> ctl.next.Some?
  }

  datatype Started = Started(controller: Controller, board: Blackboard)

  /** BeginPlay: registers the agent and starts in Guard with a further Guard pending. */
  function BeginPlay(bb: Blackboard, agent: Agent): (r: Started)
    ensures r.controller.current == Some(GuardState) && r.controller.next == Some(GuardState)
    ensures r.controller.stateChangeReady && PendingConsistent(r.controller)
    ensures r.board == RegisterAgent(bb, agent)
    ensures agent in r.board.notInCombat || agent in r.board.inCombat
  {
    Started(Controller(Some(GuardState), Some(GuardState), true, Origin), RegisterAgent(bb, agent))
  }

  /**
    SwapState: a null request is ignored; otherwise the request becomes the pending state and
    the ready flag is raised. The current state is never touched.
   */
  function SwapState(ctl: Controller, newState: Option<StateTag>): (r: Controller)
    ensures newState.None? ==> r == ctl
    ensures newState.Some? ==> r.next == newState && r.stateChangeReady
    ensures r.current == ctl.current && r.targetLoc == ctl.targetLoc
    ensures PendingConsistent(ctl) ==> PendingConsistent(r)
  {
    if newState.Some? then ctl.(next := newState, stateChangeReady := true) else ctl
  }

  /** Of two requests before a tick, the later one wins. */
  lemma LastSwapWins(ctl: Controller, s1: StateTag, s2: StateTag)
    ensures SwapState(SwapState(ctl, Some(s1)), Some(s2)) == SwapState(ctl, Some(s2))
  {
  }

  /**
    What the state objects ask for from inside their callbacks. A state may call SwapState
    from StateTick, ExitState or EnterState; None means the callback requests nothing.
   */
  datatype Requests = Requests(onTick: Option<StateTag>, onExit: Option<StateTag>, onEnter: Option<StateTag>)

  const NoRequests := Requests(None, None, None)

  /** The state that becomes current in a transition: a request made in ExitState replaces the pending one. */
  function Incoming(ctl: Controller, req: Requests): (r: Option<StateTag>)
    ensures req.onExit.Some? ==> r == req.onExit
    ensures req.onExit.None? ==> r == ctl.next
  {
    SwapState(ctl, req.onExit).next
  }

  /**
    TransitionBetweenStates, as written: the old state exits (and may request a swap), the
    pending state becomes current and the pending slot is cleared, the new state enters (and
    may request a swap), and only then is the ready flag cleared. A swap requested in
    EnterState is therefore left pending with the flag down.
   */
  function TransitionBetweenStates(ctl: Controller, req: Requests): (r: Step)
    requires ctl.current.Some?
    ensures Incoming(ctl, req).Some? ==> r.events == [Exited(ctl.current.value), Entered(Incoming(ctl, req).value)]
    ensures Incoming(ctl, req).None? ==> r.events == [Exited(ctl.current.value)]
    ensures r.controller.current == Incoming(ctl, req)
    ensures r.controller.next == if Incoming(ctl, req).Some? then req.onEnter else None
    ensures !r.controller.stateChangeReady
    ensures r.controller.targetLoc == ctl.targetLoc
    ensures PendingConsistent(r.controller) <==> Incoming(ctl, req).None? || req.onEnter.None?
  {
    var exited := SwapState(ctl, req.onExit);
    var swapped := exited.(current := exited.next, next := None);
    var entered := if swapped.current.Some? then SwapState(swapped, req.onEnter) else swapped;
    var events := if swapped.current.Some? then [Entered(swapped.current.value)] else [];
    Step(entered.(stateChangeReady := false), [Exited(ctl.current.value)] + events)
  }

  /**
    TransitionBetweenStates with the flag cleared before the new state enters, so that a swap
    requested in EnterState stays pending with the flag raised.
   */
  function TransitionBetweenStatesIntended(ctl: Controller, req: Requests): (r: Step)
    requires ctl.current.Some?
    ensures r.events == TransitionBetweenStates(ctl, req).events
    ensures r.controller.current == Incoming(ctl, req)
    ensures r.controller.next == TransitionBetweenStates(ctl, req).controller.next
    ensures r.controller.targetLoc == ctl.targetLoc
    ensures PendingConsistent(r.controller)
  {
    var exited := SwapState(ctl, req.onExit);
    var swapped := exited.(current := exited.next, next := None, stateChangeReady := false);
    var entered := if swapped.current.Some? then SwapState(swapped, req.onEnter) else swapped;
    var events := if swapped.current.Some? then [Entered(swapped.current.value)] else [];
    Step(entered, [Exited(ctl.current.value)] + events)
  }

  /** A transition is applied at a tick when the flag is raised and a next state is pending. */
  predicate TransitionDue(ctl: Controller) {
    ctl.stateChangeReady && ctl.next.Some?
  }

  /** The controller once the current state has ticked: StateTick may request a swap. */
  function AfterStateTick(ctl: Controller, req: Requests): (r: Controller)
    ensures ctl.current.None? || req.onTick.None? ==> r == ctl
    ensures ctl.current.Some? && req.onTick.Some? ==> r == SwapState(ctl, req.onTick)
  {
    if ctl.current.Some? then SwapState(ctl, req.onTick) else ctl
  }

  /**
    Tick: nothing at all happens for a dead agent. Otherwise the current state ticks first and
    may request a swap, then a due transition is applied (exit before enter), and the move
    towards the target location comes last. Without a due transition nothing else changes.
   */
  function Tick(ctl: Controller, st: AgentStatus, req: Requests): (r: Step)
    requires st.dead || !TransitionDue(ctl) || ctl.current.Some?
    ensures st.dead ==> r == Step(ctl, [])
    ensures !st.dead ==> |r.events| >= 1 && r.events[|r.events| - 1] == MovedTo(ctl.targetLoc)
    ensures !st.dead && ctl.current.Some? ==> r.events[0] == Ticked(ctl.current.value)
    ensures !st.dead && !TransitionDue(AfterStateTick(ctl, req)) ==>
      && r.controller == AfterStateTick(ctl, req)
      && r.events == (if ctl.current.Some? then [Ticked(ctl.current.value)] else []) + [MovedTo(ctl.targetLoc)]
    ensures !st.dead && TransitionDue(AfterStateTick(ctl, req)) ==>
      && ctl.current.Some?
      && var t := TransitionBetweenStates(AfterStateTick(ctl, req), req);
         r.controller == t.controller && r.events == [Ticked(ctl.current.value)] + t.events + [MovedTo(ctl.targetLoc)]
    ensures r.controller.targetLoc == ctl.targetLoc
    ensures PendingConsistent(ctl) && req.onEnter.None? ==> PendingConsistent(r.controller)
  {
    if st.dead then Step(ctl, [])
    else
      var ticked := if ctl.current.Some? then [Ticked(ctl.current.value)] else [];
      var c := AfterStateTick(ctl, req);
      var moved := if TransitionDue(c) then TransitionBetweenStates(c, req) else Step(c, []);
      Step(moved.controller, ticked + moved.events + [MovedTo(moved.controller.targetLoc)])
  }

  /** A state requested by SwapState between ticks is entered at the next tick of a live agent, after the old state exits. */
  lemma SwapTakesEffectAtNextTick(ctl: Controller, s: StateTag, st: AgentStatus)
    requires ctl.current.Some? && !st.dead
    ensures var r := Tick(SwapState(ctl, Some(s)), st, NoRequests);
      r.controller.current == Some(s) && Exited(ctl.current.value) in r.events && Entered(s) in r.events
  {
  }

  /**
    A swap the current state requests from its own StateTick is applied in the same tick, even
    when nothing was pending before the tick.
   */
  lemma SwapFromStateTickTakesEffectSameTick(ctl: Controller, s: StateTag, st: AgentStatus)
    requires ctl.current.Some? && !st.dead
    ensures var r := Tick(ctl, st, Requests(Some(s), None, None));
      && r.controller.current == Some(s)
      && r.events == [Ticked(ctl.current.value), Exited(ctl.current.value), Entered(s), MovedTo(ctl.targetLoc)]
  {
  }

  /**
    Counterexample: when the entering state requests a swap from EnterState, the request is
    left pending with the ready flag down, and the following ticks never apply it.
   */
  lemma EnterRequestIsStranded(ctl: Controller, s: StateTag, st: AgentStatus)
    requires ctl.current.Some? && ctl.next.Some?
    ensures var r := TransitionBetweenStates(ctl, Requests(None, None, Some(s))).controller;
      && r.next == Some(s) && !r.stateChangeReady && !PendingConsistent(r)
      && Tick(r, st, NoRequests).controller == r
  {
  }

  /** With the flag cleared before entering, a swap requested in EnterState is applied at the next tick. */
  lemma EnterRequestAppliedNextTick(ctl: Controller, s: StateTag, st: AgentStatus)
    requires ctl.current.Some? && ctl.next.Some? && !st.dead
    ensures var r := TransitionBetweenStatesIntended(ctl, Requests(None, None, Some(s))).controller;
      && r.next == Some(s) && r.stateChangeReady
      && Tick(r, st, NoRequests).controller.current == Some(s)
  {
  }

  datatype AttackOutcome = AttackOutcome(circle: Circle, performed: bool)

  /**
    AttackPlayer: the chosen attack is performed exactly when the circle grants its score, so
    attack budget is only consumed for attacks that are actually performed.
   */
  function AttackPlayer(c: Circle, attackChoice: int): (r: AttackOutcome)
    ensures r.performed <==> attackChoice <= c.availableAttackScore
    ensures r.performed ==> r.circle.availableAttackScore == c.availableAttackScore - attackChoice
    ensures r.circle == c.(availableAttackScore := r.circle.availableAttackScore)
    ensures !r.performed ==> r.circle == c
  {
    var reservation := CanAgentPerformAttack(c, attackChoice);
    AttackOutcome(reservation.circle, reservation.granted)
  }

  /** An attack that is performed and then finished leaves an in-range attack budget as it was. */
  lemma AttackThenFinishRestoresBudget(c: Circle, attackChoice: int)
    requires c.availableAttackScore <= c.maxAttackScore
    requires AttackPlayer(c, attackChoice).performed
    ensures AgentAttackFinished(AttackPlayer(c, attackChoice).circle, attackChoice) == c
  {
    ReserveThenFinishRestores(c, attackChoice);
  }

  /** How the agent reacts: not at all, or to an attack of the given direction and type. */
  datatype Reaction = Ignored | Respond(direction: int, attackType: int)

  /**
    ReactToIncomingAttack: a busy agent ignores the attack. Otherwise the predicted id is used
    when the coin says to trust it, and the random id otherwise; the chosen id is split into
    direction (id % 9) and type (id / 9). For a valid id the pair is a valid direction and type
    that encodes back to the chosen id.
   */
  function ReactToIncomingAttack(st: AgentStatus, attackId: int, trustPrediction: bool, randomId: int): (r: Reaction)
    requires IsAttackId(randomId)
    ensures st.busy ==> r == Ignored
    ensures !st.busy ==> r.Respond?
    ensures !st.busy ==>
      var chosen := if trustPrediction then attackId else randomId;
      (r.direction, r.attackType) == DecodeAttackId(chosen)
    ensures !st.busy && (trustPrediction ==> IsAttackId(attackId)) ==>
      && IsDirection(r.direction) && IsAttackType(r.attackType)
      && EncodeAttackId(r.direction, r.attackType) == (if trustPrediction then attackId else randomId)
  {
    if st.busy then Ignored
    else
      var chosen := if trustPrediction then attackId else randomId;
      var decoded := DecodeAttackId(chosen);
      Respond(decoded.0, decoded.1)
  }

  /** The circle and blackboard after a death, and whether each removal wrote an error line. */
  datatype Cleanup = Cleanup(circle: Circle, board: Blackboard, circleErrorLogged: bool, boardErrorLogged: bool)

  /**
    AgentHasDied: the agent's slot is released only if the agent is a circle member, and then
    the agent is removed from the blackboard. The member list and the enemy budget are left as
    they were, so a dead member keeps its score charged against the circle. A member holding
    no slot leaves the circle unchanged and the circle logs an error.
   */
  function AgentHasDied(c: Circle, bb: Blackboard, agent: Agent): (r: Cleanup)
    requires OccupantsTracked(c)
    ensures agent !in c.enemiesInCircle ==> r.circle == c && !r.circleErrorLogged
    ensures agent in c.enemiesInCircle ==> r.circle == RemoveAgentFromCircle(c, agent).value
    ensures r.circleErrorLogged <==> agent in c.enemiesInCircle && HeldSlots(c, agent) == {}
    ensures agent in c.enemiesInCircle && HoldsAtMostOneSlot(c, agent) ==> HeldSlots(r.circle, agent) == {}
    ensures r.circle.enemiesInCircle == c.enemiesInCircle
    ensures r.circle.availableEnemyScore == c.availableEnemyScore
    ensures r.board == RemoveAgent(bb, agent).value
    ensures r.boardErrorLogged == RemoveAgent(bb, agent).errorLogged
  {
    var circle := if agent in c.enemiesInCircle then RemoveAgentFromCircle(c, agent) else Logged(c, false);
    var board := RemoveAgent(bb, agent);
    Cleanup(circle.value, board.value, circle.errorLogged, board.errorLogged)
  }
}
