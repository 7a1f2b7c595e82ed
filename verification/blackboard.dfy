/**
  The AI blackboard (DragoonAIBlackboard.h / .cpp): the roster of registered agents, split into
  an idle array and an in-combat array, and the record of the player's attacks used for
  prediction: a three-id recency window, a 27x27x27 n-gram counter table and a bounded history.
 */
module AIBlackboard {
  import opened Prelude
  import opened Arrays
  import opened EnemyAgent

  /** maxHistorySize: the history holds at most this many attack ids. */
  const MaxHistorySize := 50

  /**
    The blackboard's state. `ngram` holds the non-zero cells of attackNGram; an absent triple
    reads as 0. atk1..atk3 are the window, oldest first.
   */
  datatype Blackboard = Blackboard(
    notInCombat: seq<Agent>,
    inCombat: seq<Agent>,
    ngram: map<(int, int, int), nat>,
    history: seq<int>,
    atk1: int,
    atk2: int,
    atk3: int,
    historyFull: bool,
    historyUsed: bool)

  /** attackNGram[a][b][c]. */
  function Cell(ngram: map<(int, int, int), nat>, a: int, b: int, c: int): nat {
    if (a, b, c) in ngram then ngram[(a, b, c)] else 0
  }

  /**
    What every reachable blackboard satisfies: the history never exceeds its capacity and the
    full flag says exactly when it is at capacity; history is only used once it holds three
    attacks; every id is a valid n-gram index; and the window mirrors the tail of the history.
   */
  ghost predicate Valid(b: Blackboard) {
    && |b.history| <= MaxHistorySize
    && (b.historyFull <==> |b.history| == MaxHistorySize)
    && (b.historyUsed ==> |b.history| >= 3)
    && (forall i :: 0 <= i < |b.history| ==> IsAttackId(b.history[i]))
    && IsAttackId(b.atk1) && IsAttackId(b.atk2) && IsAttackId(b.atk3)
    && WindowMirrorsHistory(b)
  }

  ghost predicate WindowMirrorsHistory(b: Blackboard) {
    var h := b.history;
    && (|h| >= 1 ==> b.atk3 == h[|h| - 1])
    && (|h| >= 2 ==> b.atk2 == h[|h| - 2])
    && (|h| >= 3 ==> b.atk1 == h[|h| - 3])
  }

  /**
    The rosters as the header's comments describe them (agents "not currently" and agents "in"
    the attack circle): neither array repeats an agent and no agent is in both, so each
    registered agent is in exactly one of them.
   */
  ghost predicate Partitioned(b: Blackboard) {
    && NoDuplicates(b.notInCombat)
    && NoDuplicates(b.inCombat)
    && (forall a :: a in b.inCombat ==> a !in b.notInCombat)
  }

  /**
    The constructor: empty rosters, empty history and a zero window. The program never clears
    attackNGram; the all-zero n-gram table is an assumption of this model.
   */
  function NewBlackboard(): (r: Blackboard)
    ensures Valid(r) && Partitioned(r)
    ensures r.notInCombat == [] && r.inCombat == [] && r.history == []
    ensures r.atk1 == 0 && r.atk2 == 0 && r.atk3 == 0
    ensures !r.historyFull && !r.historyUsed
    ensures forall a, b, c :: Cell(r.ngram, a, b, c) == 0
  {
    Blackboard([], [], map[], [], 0, 0, 0, false, false)
  }

  // ---------------------------------------------------------------------------------------
  // Roster

  /** RegisterAgent: appends to the idle array unless the agent is already in either array. */
  function RegisterAgent(b: Blackboard, agent: Agent): (r: Blackboard)
    ensures agent in b.notInCombat || agent in b.inCombat ==> r == b
    ensures agent !in b.notInCombat && agent !in b.inCombat ==>
      r == b.(notInCombat := b.notInCombat + [agent])
    ensures agent in r.notInCombat || agent in r.inCombat
    ensures Partitioned(b) ==> Partitioned(r)
  {
    if agent in b.notInCombat || agent in b.inCombat then b
    else
      AppendFreshKeepsNoDuplicates(b.notInCombat, agent);
      b.(notInCombat := b.notInCombat + [agent])
  }

  /** Registering twice is the same as registering once. */
  lemma RegisterAgentIdempotent(b: Blackboard, agent: Agent)
    ensures RegisterAgent(RegisterAgent(b, agent), agent) == RegisterAgent(b, agent)
  {
  }

  /**
    RemoveAgent, as written: each array is tested with the INDEX returned by TArray::Find used as
    a condition, so the test is true when the agent is absent (-1) and false when the agent is at
    index 0. The agent therefore leaves the in-combat array unless it heads it; the idle array
    is only touched when the agent heads the in-combat array; and the error is logged exactly
    when the agent heads both arrays.
   */
  function RemoveAgent(b: Blackboard, agent: Agent): (r: Logged<Blackboard>)
    ensures agent in r.value.inCombat <==> |b.inCombat| > 0 && b.inCombat[0] == agent
    ensures agent in r.value.notInCombat <==>
      agent in b.notInCombat && (|b.inCombat| > 0 && b.inCombat[0] == agent ==> b.notInCombat[0] == agent)
    ensures r.errorLogged <==>
      |b.inCombat| > 0 && b.inCombat[0] == agent && |b.notInCombat| > 0 && b.notInCombat[0] == agent
    ensures forall a :: a != agent ==> (a in r.value.inCombat <==> a in b.inCombat)
    ensures forall a :: a != agent ==> (a in r.value.notInCombat <==> a in b.notInCombat)
    ensures r.value == b.(inCombat := r.value.inCombat, notInCombat := r.value.notInCombat)
    ensures Partitioned(b) ==> Partitioned(r.value)
  {
    if Truthy(Find(b.inCombat, agent)) then
      Logged(b.(inCombat := RemoveAll(b.inCombat, agent)), false)
    else if Truthy(Find(b.notInCombat, agent)) then
      Logged(b.(notInCombat := RemoveAll(b.notInCombat, agent)), false)
    else
      Logged(b, true)
  }

  /**
    Counterexamples to the documented RemoveAgent: an idle agent that is not in combat is never
    removed, an unregistered agent raises no error, and an agent heading both arrays raises the
    error although it is registered.
   */
  lemma RemoveAgentKeepsIdleAgent(b: Blackboard, agent: Agent)
    requires agent in b.notInCombat && agent !in b.inCombat
    ensures agent in RemoveAgent(b, agent).value.notInCombat
    ensures !RemoveAgent(b, agent).errorLogged
  {
  }

  lemma RemoveAgentSilentOnUnregistered(b: Blackboard, agent: Agent)
    requires agent !in b.notInCombat && agent !in b.inCombat
    ensures !RemoveAgent(b, agent).errorLogged
  {
  }

  lemma RemoveAgentLogsForRegisteredHead(b: Blackboard, agent: Agent)
    requires |b.inCombat| > 0 && b.inCombat[0] == agent
    requires |b.notInCombat| > 0 && b.notInCombat[0] == agent
    ensures RemoveAgent(b, agent).errorLogged
    ensures agent in RemoveAgent(b, agent).value.inCombat
  {
  }

  /**
    RemoveAgent as documented: the agent is afterwards in neither array, the error is logged
    exactly when it was in neither, and every other agent keeps its place.
   */
  function RemoveAgentIntended(b: Blackboard, agent: Agent): (r: Logged<Blackboard>)
    ensures agent !in r.value.inCombat && agent !in r.value.notInCombat
    ensures r.errorLogged <==> agent !in b.inCombat && agent !in b.notInCombat
    ensures forall a :: a != agent ==> (a in r.value.inCombat <==> a in b.inCombat)
    ensures forall a :: a != agent ==> (a in r.value.notInCombat <==> a in b.notInCombat)
    ensures r.value == b.(inCombat := r.value.inCombat, notInCombat := r.value.notInCombat)
    ensures Partitioned(b) ==> Partitioned(r.value)
  {
    Logged(b.(inCombat := RemoveAll(b.inCombat, agent), notInCombat := RemoveAll(b.notInCombat, agent)),
           agent !in b.inCombat && agent !in b.notInCombat)
  }

  datatype RosterStep = RosterStep(board: Blackboard, status: AgentStatus)

  /** The guard of HaveAgentJoinCombat: dead, already flagged in combat, already in combat, or not idle. */
  predicate JoinRefused(b: Blackboard, agent: Agent, st: AgentStatus) {
    st.dead || st.inCombat || agent in b.inCombat || agent !in b.notInCombat
  }

  /**
    HaveAgentJoinCombat, as written: a refused request changes nothing; otherwise the agent is
    appended to the in-combat array and flagged in combat, but the removal through RemoveAgent
    targets the in-combat array (where Find reports -1), so the idle array is never changed.
   */
  function HaveAgentJoinCombat(b: Blackboard, agent: Agent, st: AgentStatus): (r: RosterStep)
    ensures JoinRefused(b, agent, st) ==> r == RosterStep(b, st)
    ensures !JoinRefused(b, agent, st) ==>
      && r.board == b.(inCombat := b.inCombat + [agent])
      && r.status.inCombat && r.status == JoinCombat(st)
  {
    if JoinRefused(b, agent, st) then RosterStep(b, st)
    else
      var removed := RemoveAgent(b, agent).value;
      RosterStep(removed.(inCombat := removed.inCombat + [agent]), JoinCombat(st))
  }

  /** A successful join as written leaves the agent in BOTH arrays, breaking the partition. */
  lemma JoinLeavesAgentInBothArrays(b: Blackboard, agent: Agent, st: AgentStatus)
    requires !JoinRefused(b, agent, st)
    ensures agent in HaveAgentJoinCombat(b, agent, st).board.inCombat
    ensures agent in HaveAgentJoinCombat(b, agent, st).board.notInCombat
    ensures !Partitioned(HaveAgentJoinCombat(b, agent, st).board)
  {
    var r := HaveAgentJoinCombat(b, agent, st).board;
    assert r.inCombat[|r.inCombat| - 1] == agent;
  }

  /** HaveAgentJoinCombat as documented: the agent moves from the idle array to the combat array. */
  function HaveAgentJoinCombatIntended(b: Blackboard, agent: Agent, st: AgentStatus): (r: RosterStep)
    ensures JoinRefused(b, agent, st) ==> r == RosterStep(b, st)
    ensures !JoinRefused(b, agent, st) ==>
      && agent in r.board.inCombat && agent !in r.board.notInCombat && r.status == JoinCombat(st)
      && (forall a :: a in r.board.inCombat || a in r.board.notInCombat <==> a in b.inCombat || a in b.notInCombat)
    ensures Partitioned(b) ==> Partitioned(r.board)
  {
    if JoinRefused(b, agent, st) then RosterStep(b, st)
    else
      AppendFreshKeepsNoDuplicates(b.inCombat, agent);
      RosterStep(b.(notInCombat := RemoveAll(b.notInCombat, agent), inCombat := b.inCombat + [agent]), JoinCombat(st))
  }

  /** The guard of HaveAgentFleeCombat: dead, not flagged in combat, not in combat, or already idle. */
  predicate FleeRefused(b: Blackboard, agent: Agent, st: AgentStatus) {
    st.dead || !st.inCombat || agent !in b.inCombat || agent in b.notInCombat
  }

  /**
    HaveAgentFleeCombat, as written: a refused request changes nothing. Otherwise the agent's
    flag is cleared; if the agent heads the in-combat array RemoveAgent misses it and the
    re-registration sees it still in combat, so both arrays stay as they were; otherwise it
    moves to the end of the idle array.
   */
  function HaveAgentFleeCombat(b: Blackboard, agent: Agent, st: AgentStatus): (r: RosterStep)
    ensures FleeRefused(b, agent, st) ==> r == RosterStep(b, st)
    ensures !FleeRefused(b, agent, st) ==> r.status == LeaveCombat(st) && !r.status.inCombat
    ensures !FleeRefused(b, agent, st) && b.inCombat[0] == agent ==> r.board == b
    ensures !FleeRefused(b, agent, st) && b.inCombat[0] != agent ==>
      && agent !in r.board.inCombat
      && r.board == b.(inCombat := RemoveAll(b.inCombat, agent), notInCombat := b.notInCombat + [agent])
  {
    if FleeRefused(b, agent, st) then RosterStep(b, st)
    else
      var removed := RemoveAgent(b, agent).value;
      RosterStep(RegisterAgent(removed, agent), LeaveCombat(st))
  }

  /** Counterexample: an agent heading the combat array that flees stays in it, no longer flagged in combat. */
  lemma FleeKeepsHeadInCombat(b: Blackboard, agent: Agent, st: AgentStatus)
    requires !FleeRefused(b, agent, st)
    requires b.inCombat[0] == agent
    ensures agent in HaveAgentFleeCombat(b, agent, st).board.inCombat
    ensures !HaveAgentFleeCombat(b, agent, st).status.inCombat
  {
  }

  /** A newly spawned agent that has just been registered may join combat. */
  lemma NewAgentCanJoinCombat(b: Blackboard, agent: Agent)
    requires agent !in b.inCombat && agent !in b.notInCombat
    ensures !JoinRefused(RegisterAgent(b, agent), agent, NewAgentStatus())
  {
  }

  /** HaveAgentFleeCombat as documented: the agent moves from the combat array to the idle array. */
  function HaveAgentFleeCombatIntended(b: Blackboard, agent: Agent, st: AgentStatus): (r: RosterStep)
    ensures FleeRefused(b, agent, st) ==> r == RosterStep(b, st)
    ensures !FleeRefused(b, agent, st) ==>
      && agent !in r.board.inCombat && agent in r.board.notInCombat && r.status == LeaveCombat(st)
      && (forall a :: a in r.board.inCombat || a in r.board.notInCombat <==> a in b.inCombat || a in b.notInCombat)
    ensures Partitioned(b) ==> Partitioned(r.board)
  {
    if FleeRefused(b, agent, st) then RosterStep(b, st)
    else
      AppendFreshKeepsNoDuplicates(b.notInCombat, agent);
      RosterStep(b.(inCombat := RemoveAll(b.inCombat, agent), notInCombat := b.notInCombat + [agent]), LeaveCombat(st))
  }

  /**
    The corrected join and flee are inverse: after a join, fleeing is allowed, the agent's flags
    are back to what they were, and each array holds the same agents as before the join.
   */
  lemma JoinThenFleeIntendedRestores(b: Blackboard, agent: Agent, st: AgentStatus)
    requires !JoinRefused(b, agent, st)
    ensures var j := HaveAgentJoinCombatIntended(b, agent, st);
      && !FleeRefused(j.board, agent, j.status)
      && var f := HaveAgentFleeCombatIntended(j.board, agent, j.status);
         && f.status == st
         && (forall a :: a in f.board.inCombat <==> a in b.inCombat)
         && (forall a :: a in f.board.notInCombat <==> a in b.notInCombat)
  {
    var j := HaveAgentJoinCombatIntended(b, agent, st);
    assert j.board.inCombat == b.inCombat + [agent];
    assert j.board.notInCombat == RemoveAll(b.notInCombat, agent);
    LeaveAfterJoinCombat(st);
  }

  // ---------------------------------------------------------------------------------------
  // Attack record

  /**
    RecordPlayerAttack: a no-op while nobody is in combat. Otherwise the window shifts to
    (atk2, atk3, id), exactly the n-gram cell for the new window gains one, and the id is
    appended to the history, whose oldest entry is dropped exactly when it was already full.
    The caller must give a valid id and a non-null target (the target's name is logged).
   */
  function RecordPlayerAttack(b: Blackboard, atk: PlayerAttack): (r: Blackboard)
    requires Valid(b)
    requires |b.inCombat| == 0 || (atk.target.Some? && IsAttackId(atk.id))
    ensures Valid(r)
    ensures |b.inCombat| == 0 ==> r == b
    ensures |b.inCombat| > 0 ==>
      && (r.atk1, r.atk2, r.atk3) == (b.atk2, b.atk3, atk.id)
      && Cell(r.ngram, b.atk2, b.atk3, atk.id) == Cell(b.ngram, b.atk2, b.atk3, atk.id) + 1
      && (forall x, y, z :: (x, y, z) != (b.atk2, b.atk3, atk.id) ==> Cell(r.ngram, x, y, z) == Cell(b.ngram, x, y, z))
      && r.history == (if |b.history| == MaxHistorySize then b.history[1..] else b.history) + [atk.id]
      && r.history[|r.history| - 1] == atk.id
      && r.notInCombat == b.notInCombat && r.inCombat == b.inCombat && r.historyUsed == b.historyUsed
    ensures forall x, y, z :: Cell(r.ngram, x, y, z) >= Cell(b.ngram, x, y, z)
    ensures |r.history| >= |b.history|
  {
    if |b.inCombat| == 0 then b
    else
      var a1, a2, a3 := b.atk2, b.atk3, atk.id;
      var ngram := b.ngram[(a1, a2, a3) := Cell(b.ngram, a1, a2, a3) + 1];
      var pushed :=
        if !b.historyFull then
          var h := b.history + [a3];
          (h, |h| == MaxHistorySize)
        else
          (b.history[1..] + [a3], true);
      Blackboard(b.notInCombat, b.inCombat, ngram, pushed.0, a1, a2, a3, pushed.1, b.historyUsed)
  }

  // ---------------------------------------------------------------------------------------
  // Prediction tallies

  /** The history has ids a, b, c at positions i, i+1, i+2. */
  predicate MatchesAt(h: seq<int>, i: int, a: int, b: int, c: int)
    requires 0 <= i && i + 2 < |h|
  {
    h[i] == a && h[i + 1] == b && h[i + 2] == c
  }

  /** Number of start positions i < n at which (a, b, c) occurs in the history. */
  function OccurrencesBefore(h: seq<int>, a: int, b: int, c: int, n: nat): nat
    requires n + 2 <= |h|
  {
    if n == 0 then 0
    else OccurrencesBefore(h, a, b, c, n - 1) + (if MatchesAt(h, n - 1, a, b, c) then 1 else 0)
  }

  /** How often c followed the pair (a, b) anywhere in the history. */
  function RecentCount(h: seq<int>, a: int, b: int, c: int): nat {
    if |h| < 3 then 0 else OccurrencesBefore(h, a, b, c, |h| - 2)
  }

  /**
    PredictNextAttack. The first call that finds at least three attacks in the history only
    turns history use on. Once it is on, the call computes the two tallies for the current
    pair (atk2, atk3): `recent` maps each id to the number of times it followed the pair in the
    history, and `cumulative` maps each id with a positive n-gram count at [atk2][atk3] to that
    count. The blackboard itself does not change, and no prediction is written.
   */
  method PredictNextAttack(b: Blackboard) returns (r: Blackboard, recent: map<int, nat>, cumulative: map<int, nat>)
    requires Valid(b)
    ensures Valid(r)
    ensures !b.historyUsed ==> r == b.(historyUsed := |b.history| >= 3) && recent == map[] && cumulative == map[]
    ensures b.historyUsed ==> r == b
    ensures b.historyUsed ==> forall id :: id in recent <==> RecentCount(b.history, b.atk2, b.atk3, id) > 0
    ensures b.historyUsed ==> forall id :: id in recent ==> recent[id] == RecentCount(b.history, b.atk2, b.atk3, id)
    ensures b.historyUsed ==> forall id :: id in cumulative <==> IsAttackId(id) && Cell(b.ngram, b.atk2, b.atk3, id) > 0
    ensures b.historyUsed ==> forall id :: id in cumulative ==> cumulative[id] == Cell(b.ngram, b.atk2, b.atk3, id)
  {
    recent := map[];
    cumulative := map[];
    if !b.historyUsed {
      r := b.(historyUsed := |b.history| >= 3);
      return;
    }
    r := b;
    var h := b.history;
    var i := 0;
    while i < |h| - 2
      invariant 0 <= i <= |h| - 2
      invariant forall id :: id in recent <==> OccurrencesBefore(h, b.atk2, b.atk3, id, i) > 0
      invariant forall id :: id in recent ==> recent[id] == OccurrencesBefore(h, b.atk2, b.atk3, id, i)
    {
      if h[i] == b.atk2 && h[i + 1] == b.atk3 {
        var next := h[i + 2];
        if next in recent {
          recent := recent[next := recent[next] + 1];
        } else {
          recent := recent[next := 1];
        }
      }
      i := i + 1;
    }
    var j := 0;
    while j < IdCount
      invariant 0 <= j <= IdCount
      invariant forall id :: id in cumulative <==> 0 <= id < j && Cell(b.ngram, b.atk2, b.atk3, id) > 0
      invariant forall id :: id in cumulative ==> cumulative[id] == Cell(b.ngram, b.atk2, b.atk3, id)
    {
      if Cell(b.ngram, b.atk2, b.atk3, j) > 0 {
        cumulative := cumulative[j := Cell(b.ngram, b.atk2, b.atk3, j)];
      }
      j := j + 1;
    }
  }
}
