/**
  The attack circle (AttackCircle.h / AttackCircle.cpp): eight slots around the player, an
  enemy-score budget that gates joining the circle and an attack-score budget that gates
  starting an attack. Every operation is a pure step from one circle value to the next.
 */
module AttackCircle {
  import opened Prelude
  import opened EnemyAgent
  import opened Arrays
  import Tables

  /** EAttackCircleSlot, in declaration order. */
  datatype Slot = Front | FrontRight | Right | BackRight | Back | BackLeft | Left | FrontLeft

  /**
    The order in which Initialize adds the slots to the tables. No slot table ever loses a key
    of circleSlotOccupied, so iterating that table always visits the slots in this order.
   */
  const InitOrder: seq<Slot> := [Front, FrontRight, FrontLeft, Left, Right, Back, BackRight, BackLeft]

  /** Position of a slot in InitOrder. */
  function Rank(s: Slot): (r: nat)
    ensures r < |InitOrder| && InitOrder[r] == s
  {
    match s
    case Front => 0
    case FrontRight => 1
    case FrontLeft => 2
    case Left => 3
    case Right => 4
    case Back => 5
    case BackRight => 6
    case BackLeft => 7
  }

  /** The unnormalised slot directions Initialize starts from, in player-relative space. */
  function Direction(s: Slot): Vec {
    match s
    case Front => Vec(1, 0, 0)
    case FrontRight => Vec(1, 1, 0)
    case FrontLeft => Vec(1, -1, 0)
    case Left => Vec(0, -1, 0)
    case Right => Vec(0, 1, 0)
    case Back => Vec(-1, 0, 0)
    case BackRight => Vec(-1, 1, 0)
    case BackLeft => Vec(-1, -1, 0)
  }

  /** Default maxima of the two budgets. */
  const DefaultMaxEnemyScore := 10
  const DefaultMaxAttackScore := 10

  /** Identity of the player character; None is the null pointer. */
  type PlayerRef = nat

  /**
    The circle's state. `locations` is circleSlotLocations, which UpdateCircleLocation and
    CheckForClosestAvailableSlot use although AttackCircle.h never declares it.
   */
  datatype Circle = Circle(
    maxEnemyScore: int,
    maxAttackScore: int,
    availableEnemyScore: int,
    availableAttackScore: int,
    center: Vec,
    player: Option<PlayerRef>,
    enemiesInCircle: seq<Agent>,
    occupant: Tables.Table<Slot, Agent>,
    offset: map<Slot, Vec>,
    occupied: map<Slot, bool>,
    locations: map<Slot, Vec>)

  /** All three keyed slot tables hold an entry for every slot, as Initialize leaves them. */
  ghost predicate SlotTablesFilled(c: Circle) {
    forall s: Slot :: s in c.occupied && s in c.offset && s in c.locations
  }

  /** Filled slot tables and a well-formed occupant table: what JoinCircle relies on. */
  ghost predicate Initialized(c: Circle) {
    SlotTablesFilled(c) && Tables.Valid(c.occupant)
  }

  /** Every slot with an occupant has an occupied flag to clear. */
  ghost predicate OccupantsTracked(c: Circle) {
    && Tables.Valid(c.occupant)
    && forall s :: Tables.Get(c.occupant, s).Some? ==> s in c.occupied
  }

  /** The default constructor: no player, default maxima, empty tables, zeroed budgets. */
  function NewCircle(): (r: Circle)
    ensures r.player.None? && r.enemiesInCircle == []
    ensures Tables.Valid(r.occupant) && forall s :: Tables.Get(r.occupant, s).None?
    ensures r.maxEnemyScore == DefaultMaxEnemyScore && r.maxAttackScore == DefaultMaxAttackScore
  {
    Circle(DefaultMaxEnemyScore, DefaultMaxAttackScore, 0, 0, Origin, None, [], Tables.EmptyTable(), map[], map[], map[])
  }

  // ---------------------------------------------------------------------------------------
  // Location of the circle

  /** Centres the circle on the player and recomputes the world location of every offset slot. */
  function UpdateCircleLocation(c: Circle, playerPos: Vec): (r: Circle)
    requires c.player.Some?
    ensures r.center == playerPos
    ensures r.locations.Keys == c.locations.Keys + c.offset.Keys
    ensures forall s :: s in c.offset ==> r.locations[s] == Plus(playerPos, c.offset[s])
    ensures forall s :: s in c.locations && s !in c.offset ==> r.locations[s] == c.locations[s]
    ensures r == c.(center := r.center, locations := r.locations)
  {
    var refreshed := map s | s in c.offset :: Plus(playerPos, c.offset[s]);
    c.(center := playerPos, locations := c.locations + refreshed)
  }

  /** Re-centring twice on the same player position is the same as re-centring once. */
  lemma UpdateCircleLocationIdempotent(c: Circle, playerPos: Vec)
    requires c.player.Some?
    ensures UpdateCircleLocation(UpdateCircleLocation(c, playerPos), playerPos) == UpdateCircleLocation(c, playerPos)
  {
    var once := UpdateCircleLocation(c, playerPos);
    var twice := UpdateCircleLocation(once, playerPos);
    assert twice.locations == once.locations;
  }

  /**
    Initialize: a no-op without a player; otherwise both budgets return to their maxima, all
    eight slots are marked free, the offsets are set from the slot directions and the circle
    is centred on the player. `scale` stands for the float normalise-then-multiply-by-
    offsetScale step. The occupant table and the member list are left as they were.
   */
  function Initialize(c: Circle, playerPos: Vec, scale: Vec -> Vec): (r: Circle)
    ensures c.player.None? ==> r == c
    ensures c.player.Some? ==>
      && SlotTablesFilled(r)
      && r.availableEnemyScore == r.maxEnemyScore == c.maxEnemyScore
      && r.availableAttackScore == r.maxAttackScore == c.maxAttackScore
      && (forall s: Slot :: !r.occupied[s])
      && (forall s: Slot :: r.offset[s] == scale(Direction(s)))
      && r.center == playerPos
      && (forall s: Slot :: r.locations[s] == Plus(playerPos, r.offset[s]))
      && r.occupant == c.occupant && r.enemiesInCircle == c.enemiesInCircle && r.player == c.player
  {
    if c.player.None? then c
    else UpdateCircleLocation(ResetSlots(c, scale), playerPos)
  }

  /** The table-filling part of Initialize: full budgets, every slot free, scaled offsets. */
  function ResetSlots(c: Circle, scale: Vec -> Vec): (r: Circle)
    ensures forall s: Slot :: s in r.occupied && !r.occupied[s]
    ensures forall s: Slot :: s in r.offset && r.offset[s] == scale(Direction(s))
    ensures r == c.(availableEnemyScore := c.maxEnemyScore, availableAttackScore := c.maxAttackScore,
                    occupied := r.occupied, offset := r.offset)
  {
    EightSlots();
    var free := map s: Slot | s in InitOrder :: false;
    var offsets := map s: Slot | s in InitOrder :: scale(Direction(s));
    c.(availableEnemyScore := c.maxEnemyScore,
       availableAttackScore := c.maxAttackScore,
       occupied := c.occupied + free,
       offset := c.offset + offsets)
  }

  /** The AttackCircle(player) constructor: set the player, then Initialize. */
  function NewCircleFor(p: PlayerRef, playerPos: Vec, scale: Vec -> Vec): (r: Circle)
    ensures Initialized(r) && r.player == Some(p)
    ensures r.enemiesInCircle == [] && forall s :: Tables.Get(r.occupant, s).None?
    ensures forall s: Slot :: !r.occupied[s]
    ensures r.availableEnemyScore == r.maxEnemyScore == DefaultMaxEnemyScore
    ensures r.availableAttackScore == r.maxAttackScore == DefaultMaxAttackScore
  {
    Initialize(NewCircle().(player := Some(p)), playerPos, scale)
  }

  /** SetPlayer: points the circle at another player; nothing else changes until Initialize runs. */
  function SetPlayer(c: Circle, p: PlayerRef): (r: Circle)
    ensures r.player == Some(p)
    ensures r == c.(player := r.player)
  {
    c.(player := Some(p))
  }

  /** The player constructor is the default constructor followed by SetPlayer and Initialize. */
  lemma ConstructorIsSetPlayerThenInitialize(p: PlayerRef, playerPos: Vec, scale: Vec -> Vec)
    ensures NewCircleFor(p, playerPos, scale) == Initialize(SetPlayer(NewCircle(), p), playerPos, scale)
    ensures SetPlayer(NewCircle(), p).availableEnemyScore == 0
    ensures SetPlayer(NewCircle(), p).availableAttackScore == 0
    ensures NewCircleFor(p, playerPos, scale).availableEnemyScore == DefaultMaxEnemyScore
  {
  }

  /** With the default maxima, both budget getters read 10 right after construction with a player. */
  lemma NewCircleBudgetsAreDefaults(p: PlayerRef, playerPos: Vec, scale: Vec -> Vec)
    ensures NewCircleFor(p, playerPos, scale).availableEnemyScore == 10
    ensures NewCircleFor(p, playerPos, scale).availableAttackScore == 10
  {
  }

  /** InitOrder enumerates the eight slots, each exactly once. */
  lemma EightSlots()
    ensures |InitOrder| == 8
    ensures forall s: Slot :: s in InitOrder
    ensures forall i, j :: 0 <= i < j < |InitOrder| ==> InitOrder[i] != InitOrder[j]
  {
    forall s: Slot
      ensures s in InitOrder
    {
      assert InitOrder[Rank(s)] == s;
    }
  }

  // ---------------------------------------------------------------------------------------
  // Closest free slot

  /** A slot sequence strictly ascending in InitOrder. */
  ghost predicate RankSorted(slots: seq<Slot>) {
    forall i, j :: 0 <= i < j < |slots| ==> Rank(slots[i]) < Rank(slots[j])
  }

  /** The free slots among `order`, in that order (the first loop of CheckForClosestAvailableSlot). */
  function FreeAmong(order: seq<Slot>, occupied: map<Slot, bool>): (r: seq<Slot>)
    requires forall s :: s in order ==> s in occupied
    ensures forall s :: s in r <==> s in order && !occupied[s]
    ensures RankSorted(order) ==> RankSorted(r)
  {
    if |order| == 0 then []
    else
      var rest := FreeAmong(order[1..], occupied);
      assert forall s :: s in order[1..] ==> s in order;
      if occupied[order[0]] then rest
      else
        assert RankSorted(order) ==> RankSorted([order[0]] + rest) by {
          if RankSorted(order) {
            TailRankSorted(order);
            ConsRankSorted(order[0], rest);
          }
        }
        [order[0]] + rest
  }

  /** The tail of a rank-sorted list is rank-sorted, and its head ranks below every later slot. */
  lemma TailRankSorted(order: seq<Slot>)
    requires RankSorted(order) && |order| > 0
    ensures RankSorted(order[1..])
    ensures forall s :: s in order[1..] ==> Rank(order[0]) < Rank(s)
  {
    forall s | s in order[1..]
      ensures Rank(order[0]) < Rank(s)
    {
      var k :| 0 <= k < |order[1..]| && order[1..][k] == s;
      assert order[k + 1] == s;
    }
  }

  /** A slot ranked below every slot of a rank-sorted list can go in front of it. */
  lemma ConsRankSorted(x: Slot, rest: seq<Slot>)
    requires RankSorted(rest)
    requires forall s :: s in rest ==> Rank(x) < Rank(s)
    ensures RankSorted([x] + rest)
  {
    var r := [x] + rest;
    forall i, j | 0 <= i < j < |r|
      ensures Rank(r[i]) < Rank(r[j])
    {
      assert r[j] == rest[j - 1];
      if i > 0 {
        assert r[i] == rest[i - 1];
      }
    }
  }

  /** Dropping the last slot of a rank-sorted list keeps it rank-sorted, below that last slot. */
  lemma InitRankSorted(free: seq<Slot>)
    requires RankSorted(free) && |free| > 0
    ensures RankSorted(free[..|free| - 1])
    ensures forall t :: t in free[..|free| - 1] ==> t in free && Rank(t) < Rank(free[|free| - 1])
  {
    var init := free[..|free| - 1];
    forall t | t in init
      ensures t in free && Rank(t) < Rank(free[|free| - 1])
    {
      var k :| 0 <= k < |init| && init[k] == t;
      assert free[k] == t;
    }
  }

  lemma InitOrderRankSorted()
    ensures RankSorted(InitOrder)
  {
    forall i, j | 0 <= i < j < |InitOrder|
      ensures Rank(InitOrder[i]) < Rank(InitOrder[j])
    {
    }
  }

  /** The slots whose occupied flag is false, in table order. */
  function FreeSlots(c: Circle): (r: seq<Slot>)
    requires SlotTablesFilled(c)
    ensures forall s :: s in r <==> !c.occupied[s]
    ensures RankSorted(r)
  {
    InitOrderRankSorted();
    EightSlots();
    FreeAmong(InitOrder, c.occupied)
  }

  function Dist(pos: Vec, loc: map<Slot, Vec>, s: Slot): nat
    requires s in loc
  {
    DistSquared(pos, loc[s])
  }

  ghost predicate AllPositive(slots: seq<Slot>, pos: Vec, loc: map<Slot, Vec>)
    requires forall s :: s in slots ==> s in loc
  {
    forall s :: s in slots ==> Dist(pos, loc, s) > 0
  }

  /**
    The second loop of CheckForClosestAvailableSlot, as written: (best slot, best distance)
    start at (ACS_Front, NULL), and NULL is the float 0. A candidate replaces the best when the
    best distance equals 0 or when it is strictly closer. Provided no free slot lies at
    distance 0, the result is the nearest slot, the earliest one on a tie.
   */
  function ScanAsWritten(free: seq<Slot>, pos: Vec, loc: map<Slot, Vec>): (r: (Slot, nat))
    requires forall s :: s in free ==> s in loc
    requires RankSorted(free)
    ensures |free| == 0 ==> r == (Front, 0)
    ensures |free| > 0 ==> r.0 in free && r.1 == Dist(pos, loc, r.0)
    ensures AllPositive(free, pos, loc) ==>
      forall s :: s in free ==> r.1 <= Dist(pos, loc, s) && (Dist(pos, loc, s) == r.1 ==> Rank(r.0) <= Rank(s))
  {
    if |free| == 0 then (Front, 0)
    else
      var init := free[..|free| - 1];
      var s := free[|free| - 1];
      InitRankSorted(free);
      var prev := ScanAsWritten(init, pos, loc);
      var d := Dist(pos, loc, s);
      if prev.1 == 0 then (s, d)
      else if d < prev.1 then (s, d)
      else prev
  }

  /** CheckForClosestAvailableSlot, as written. */
  function CheckForClosestAvailableSlot(c: Circle, pos: Vec): (r: Slot)
    requires SlotTablesFilled(c)
    ensures (exists s :: !c.occupied[s]) ==> !c.occupied[r]
    ensures (forall s :: c.occupied[s]) ==> r == Front
    ensures (forall s :: !c.occupied[s] ==> Dist(pos, c.locations, s) > 0) ==>
      forall s :: !c.occupied[s] ==>
        && Dist(pos, c.locations, r) <= Dist(pos, c.locations, s)
        && (Dist(pos, c.locations, s) == Dist(pos, c.locations, r) ==> Rank(r) <= Rank(s))
  {
    var free := FreeSlots(c);
    assert |free| > 0 ==> free[0] in free;
    ScanAsWritten(free, pos, c.locations).0
  }

  /**
    The scan with a real "no candidate yet" state: the nearest slot of `free`, the earliest one
    on a tie, whatever the distances are.
   */
  function ScanClosest(free: seq<Slot>, pos: Vec, loc: map<Slot, Vec>): (r: Option<(Slot, nat)>)
    requires forall s :: s in free ==> s in loc
    requires RankSorted(free)
    ensures r.None? <==> |free| == 0
    ensures r.Some? ==> r.value.0 in free && r.value.1 == Dist(pos, loc, r.value.0)
    ensures r.Some? ==>
      forall s :: s in free ==> r.value.1 <= Dist(pos, loc, s) && (Dist(pos, loc, s) == r.value.1 ==> Rank(r.value.0) <= Rank(s))
  {
    if |free| == 0 then None
    else
      var init := free[..|free| - 1];
      var s := free[|free| - 1];
      InitRankSorted(free);
      var prev := ScanClosest(init, pos, loc);
      var d := Dist(pos, loc, s);
      if prev.None? || d < prev.value.1 then Some((s, d)) else prev
  }

  /**
    The closest empty slot, as the header documents it: None when every slot is occupied,
    otherwise a free slot at minimal distance, ties going to the earliest slot.
   */
  function ClosestFreeSlot(c: Circle, pos: Vec): (r: Option<Slot>)
    requires SlotTablesFilled(c)
    ensures r.None? <==> forall s :: c.occupied[s]
    ensures r.Some? ==> !c.occupied[r.value]
    ensures r.Some? ==> forall s :: !c.occupied[s] ==>
      && Dist(pos, c.locations, r.value) <= Dist(pos, c.locations, s)
      && (Dist(pos, c.locations, s) == Dist(pos, c.locations, r.value) ==> Rank(r.value) <= Rank(s))
  {
    var free := FreeSlots(c);
    assert |free| > 0 ==> free[0] in free;
    match ScanClosest(free, pos, c.locations)
    case None => None
    case Some(best) => Some(best.0)
  }

  /** When no free slot lies at distance 0 the search as written agrees with the documented one. */
  lemma CheckAgreesWhenNoZeroDistance(c: Circle, pos: Vec)
    requires SlotTablesFilled(c)
    requires exists s :: !c.occupied[s]
    requires forall s :: !c.occupied[s] ==> Dist(pos, c.locations, s) > 0
    ensures ClosestFreeSlot(c, pos) == Some(CheckForClosestAvailableSlot(c, pos))
  {
    var a := CheckForClosestAvailableSlot(c, pos);
    var b := ClosestFreeSlot(c, pos).value;
    assert Rank(a) <= Rank(b) && Rank(b) <= Rank(a);
    assert InitOrder[Rank(a)] == a && InitOrder[Rank(b)] == b;
  }

  /**
    The scan as written passes over a candidate at distance 0: if the first free slot is at
    distance 0 and every later one is farther, the scan never returns the first slot.
   */
  lemma {:induction false} ScanSkipsZeroDistanceHead(free: seq<Slot>, pos: Vec, loc: map<Slot, Vec>)
    requires forall s :: s in free ==> s in loc
    requires RankSorted(free)
    requires |free| >= 2
    requires Dist(pos, loc, free[0]) == 0
    requires forall i :: 1 <= i < |free| ==> Dist(pos, loc, free[i]) > 0
    ensures ScanAsWritten(free, pos, loc).0 != free[0]
    ensures ScanAsWritten(free, pos, loc).1 > 0
    decreases |free|
  {
    var init := free[..|free| - 1];
    var s := free[|free| - 1];
    assert Rank(free[0]) < Rank(s);
    if |free| == 2 {
      assert init == [free[0]];
      assert ScanAsWritten([free[0]], pos, loc) == (free[0], 0);
    } else {
      assert forall t :: t in init ==> t in free;
      assert forall i, j :: 0 <= i < j < |init| ==> init[i] == free[i] && init[j] == free[j];
      ScanSkipsZeroDistanceHead(init, pos, loc);
    }
  }

  /**
    Counterexample to "returns the closest, empty slot": a requester standing exactly on the
    free Front slot, with every slot free and no other slot at that spot, is not given Front,
    although Front is at distance 0 and the slot it is given is farther away.
   */
  lemma ZeroDistanceSlotPassedOver(c: Circle, pos: Vec)
    requires SlotTablesFilled(c)
    requires forall s :: !c.occupied[s]
    requires pos == c.locations[Front]
    requires forall s :: s != Front ==> c.locations[s] != pos
    ensures CheckForClosestAvailableSlot(c, pos) != Front
    ensures Dist(pos, c.locations, Front) < Dist(pos, c.locations, CheckForClosestAvailableSlot(c, pos))
  {
    var free := FreeSlots(c);
    FreeHeadIsFront(free);
    forall i | 1 <= i < |free|
      ensures Dist(pos, c.locations, free[i]) > 0
    {
      assert free[i] != Front;
    }
    var r := ScanAsWritten(free, pos, c.locations);
    ScanSkipsZeroDistanceHead(free, pos, c.locations);
    assert CheckForClosestAvailableSlot(c, pos) == r.0;
  }

  /** A rank-sorted list holding Front and FrontRight starts with Front and has more after it. */
  lemma FreeHeadIsFront(free: seq<Slot>)
    requires RankSorted(free)
    requires Front in free && FrontRight in free
    ensures |free| >= 2 && free[0] == Front
    ensures forall i :: 1 <= i < |free| ==> free[i] != Front
  {
    forall j | 1 <= j < |free|
      ensures free[j] != Front
    {
      assert Rank(free[0]) < Rank(free[j]);
    }
  }

  lemma {:induction false} FreeAmongAllFree(order: seq<Slot>, occupied: map<Slot, bool>)
    requires forall s :: s in order ==> s in occupied && !occupied[s]
    ensures FreeAmong(order, occupied) == order
  {
    if |order| > 0 {
      assert forall s :: s in order[1..] ==> s in order;
      FreeAmongAllFree(order[1..], occupied);
    }
  }

  lemma AllFreeIsInitOrder(c: Circle)
    requires SlotTablesFilled(c)
    requires forall s :: !c.occupied[s]
    ensures FreeSlots(c) == InitOrder
  {
    FreeAmongAllFree(InitOrder, c.occupied);
  }

  // ---------------------------------------------------------------------------------------
  // Joining and leaving

  /**
    AssignAgentToSlot: the slot's occupant becomes the agent through TMap::Add (so a slot that
    already had an occupant keeps its place in the table's order) and its flag is set.
   */
  function AssignAgentToSlot(c: Circle, agent: Agent, slot: Slot): (r: Circle)
    requires slot in c.occupied
    requires Tables.Valid(c.occupant)
    ensures Tables.Valid(r.occupant)
    ensures Tables.Get(r.occupant, slot) == Some(agent)
    ensures slot in r.occupied && r.occupied[slot]
    ensures forall t :: t != slot ==> Tables.Get(r.occupant, t) == Tables.Get(c.occupant, t)
    ensures r.occupant == Tables.Add(c.occupant, slot, agent)
    ensures r.occupied.Keys == c.occupied.Keys
    ensures forall t :: t != slot && t in c.occupied ==> r.occupied[t] == c.occupied[t]
    ensures r == c.(occupant := r.occupant, occupied := r.occupied)
  {
    c.(occupant := Tables.Add(c.occupant, slot, agent), occupied := c.occupied[slot := true])
  }

  /**
    JoinCircle: admitted exactly when the agent's enemy score fits the available enemy score.
    On admission the agent takes the slot the closest-slot search picks, the budget drops by
    exactly the agent's score and the agent is appended to the member list. A refused request
    changes nothing.
   */
  function JoinCircle(c: Circle, attacker: Agent, pos: Vec): (r: Circle)
    requires Initialized(c)
    ensures Initialized(r)
    ensures attacker.enemyScore > c.availableEnemyScore ==> r == c
    ensures attacker.enemyScore <= c.availableEnemyScore ==>
      && r.availableEnemyScore == c.availableEnemyScore - attacker.enemyScore
      && r.enemiesInCircle == c.enemiesInCircle + [attacker]
      && var s := CheckForClosestAvailableSlot(c, pos);
         && r.occupant == Tables.Add(c.occupant, s, attacker)
         && Tables.Get(r.occupant, s) == Some(attacker)
         && r.occupied == c.occupied[s := true]
         && r == c.(availableEnemyScore := r.availableEnemyScore, enemiesInCircle := r.enemiesInCircle,
                    occupant := r.occupant, occupied := r.occupied)
    ensures c.availableEnemyScore >= 0 ==> r.availableEnemyScore >= 0
  {
    if attacker.enemyScore <= c.availableEnemyScore then
      var placed := AssignAgentToSlot(c, attacker, CheckForClosestAvailableSlot(c, pos));
      placed.(availableEnemyScore := placed.availableEnemyScore - attacker.enemyScore,
              enemiesInCircle := placed.enemiesInCircle + [attacker])
    else c
  }

  /**
    Counterexample to "the closest, empty slot" when nothing is free: with every slot occupied,
    an admitted attacker is put on Front, displacing its occupant from the table while that
    occupant stays in the member list.
   */
  lemma FullCircleJoinDisplacesFront(c: Circle, attacker: Agent, pos: Vec)
    requires Initialized(c)
    requires forall s :: c.occupied[s]
    requires attacker.enemyScore <= c.availableEnemyScore
    ensures Tables.Get(JoinCircle(c, attacker, pos).occupant, Front) == Some(attacker)
    ensures forall a :: a in c.enemiesInCircle ==> a in JoinCircle(c, attacker, pos).enemiesInCircle
  {
  }

  /** The set of slots whose occupant is the agent. */
  ghost function HeldSlots(c: Circle, agent: Agent): set<Slot> {
    Tables.KeysOf(c.occupant, agent)
  }

  /**
    The slot the agent holds: the first one in the occupant table's iteration order, which is
    the order the slots were assigned in, with removed slots' places reused (TMap::FindKey, and
    the first match of the removal loop).
   */
  function SlotOf(c: Circle, agent: Agent): (r: Option<Slot>)
    requires Tables.Valid(c.occupant)
    ensures r.None? <==> HeldSlots(c, agent) == {}
    ensures r.Some? ==> r.value in HeldSlots(c, agent)
    ensures r.Some? ==> forall i, s :: Tables.CellIs(c.occupant, i, s, agent) ==>
      Tables.KeyIndex(c.occupant.cells, r.value) <= i
  {
    Tables.KeysOfIsGet(c.occupant, agent);
    Tables.FindKey(c.occupant, agent)
  }

  /**
    RemoveAgentFromCircle: frees the slot the agent holds (its occupied flag is cleared and its
    occupant entry removed); the enemy budget and the member list are not touched. An agent that
    holds no slot leaves the circle unchanged and an error is logged.
   */
  function RemoveAgentFromCircle(c: Circle, agent: Agent): (r: Logged<Circle>)
    requires OccupantsTracked(c)
    ensures SlotOf(c, agent).None? ==> r.value == c && r.errorLogged
    ensures SlotOf(c, agent).Some? ==>
      && !r.errorLogged
      && var s := SlotOf(c, agent).value;
         && r.value == c.(occupant := Tables.Remove(c.occupant, s), occupied := c.occupied[s := false])
         && HeldSlots(r.value, agent) == HeldSlots(c, agent) - {s}
    ensures r.value.availableEnemyScore == c.availableEnemyScore
    ensures r.value.enemiesInCircle == c.enemiesInCircle
    ensures OccupantsTracked(r.value)
    ensures Initialized(c) ==> Initialized(r.value)
  {
    match SlotOf(c, agent)
    case None => Logged(c, true)
    case Some(s) =>
      var r := c.(occupant := Tables.Remove(c.occupant, s), occupied := c.occupied[s := false]);
      Tables.KeysOfIsGet(c.occupant, agent);
      Tables.KeysOfIsGet(r.occupant, agent);
      Logged(r, false)
  }

  /** An agent that held a single slot holds none after being removed. */
  lemma RemovedAgentHoldsNoSlot(c: Circle, agent: Agent)
    requires OccupantsTracked(c)
    requires HoldsAtMostOneSlot(c, agent)
    ensures HeldSlots(RemoveAgentFromCircle(c, agent).value, agent) == {}
  {
  }

  /**
    The removal loop follows the occupant table's order, not the slots' order: an agent given
    Right and then Front loses Right when it is removed, and keeps Front.
   */
  lemma RemovalFollowsAssignmentOrder(c: Circle, a: Agent)
    requires SlotTablesFilled(c)
    requires c.occupant == Tables.EmptyTable()
    ensures var c2 := AssignAgentToSlot(AssignAgentToSlot(c, a, Right), a, Front);
      && HeldSlots(c2, a) == {Right, Front}
      && SlotOf(c2, a) == Some(Right)
      && Tables.Get(RemoveAgentFromCircle(c2, a).value.occupant, Right).None?
      && Tables.Get(RemoveAgentFromCircle(c2, a).value.occupant, Front) == Some(a)
  {
    AssignRightThenFront(c, a);
    RightThenFrontTable(a);
  }

  /** In the two-cell table (Right, a), (Front, a): the agent's keys, its first key, and removal. */
  lemma RightThenFrontTable(a: Agent)
    ensures var t := Tables.Table([Some((Right, a)), Some((Front, a))], []);
      && Tables.Valid(t)
      && Tables.KeysOf(t, a) == {Right, Front}
      && Tables.FindKey(t, a) == Some(Right)
      && Tables.Get(Tables.Remove(t, Right), Right).None?
      && Tables.Get(Tables.Remove(t, Right), Front) == Some(a)
  {
    var t := Tables.Table([Some((Right, a)), Some((Front, a))], []);
    assert Tables.CellIs(t, 0, Right, a) && Tables.CellIs(t, 1, Front, a);
    Tables.GetFromCell(t, 1, Front, a);
    assert Tables.KeysOf(t, a) == {Right, Front} by {
      forall s | s in Tables.KeysOf(t, a)
        ensures s == Right || s == Front
      {
      }
      assert t.cells[0].value.0 in Tables.KeysOf(t, a);
      assert t.cells[1].value.0 in Tables.KeysOf(t, a);
    }
  }

  /** The occupant table after assigning Right and then Front in an empty table. */
  lemma AssignRightThenFront(c: Circle, a: Agent)
    requires SlotTablesFilled(c)
    requires c.occupant == Tables.EmptyTable()
    ensures AssignAgentToSlot(AssignAgentToSlot(c, a, Right), a, Front).occupant
      == Tables.Table([Some((Right, a)), Some((Front, a))], [])
  {
    var c1 := AssignAgentToSlot(c, a, Right);
    assert c1.occupant == Tables.Add(Tables.EmptyTable(), Right, a);
    Tables.AddTwoToEmpty(Right, Front, a, a);
  }

  ghost predicate HoldsAtMostOneSlot(c: Circle, agent: Agent) {
    forall s, t :: s in HeldSlots(c, agent) && t in HeldSlots(c, agent) ==> s == t
  }

  /**
    GetLocationForAgent: an agent without a slot gets its own position back and the circle is
    untouched; otherwise the circle is re-centred on the player and the result is the freshly
    computed world location of the agent's slot, centre plus offset.
   */
  function GetLocationForAgent(c: Circle, agent: Agent, agentPos: Vec, playerPos: Vec): (r: (Vec, Circle))
    requires Tables.Valid(c.occupant)
    requires SlotOf(c, agent).Some? ==> c.player.Some? && SlotOf(c, agent).value in c.offset
    ensures SlotOf(c, agent).None? ==> r == (agentPos, c)
    ensures SlotOf(c, agent).Some? ==>
      var s := SlotOf(c, agent).value;
      && r.0 == Plus(playerPos, c.offset[s])
      && r.1.center == playerPos
      && s in r.1.locations && r.0 == r.1.locations[s]
      && r.1 == UpdateCircleLocation(c, playerPos)
  {
    match SlotOf(c, agent)
    case None => (agentPos, c)
    case Some(s) =>
      var moved := UpdateCircleLocation(c, playerPos);
      (Plus(moved.center, moved.offset[s]), moved)
  }

  // ---------------------------------------------------------------------------------------
  // Attack budget

  datatype Reservation = Reservation(circle: Circle, granted: bool)

  /**
    CanAgentPerformAttack: true exactly when the attack score fits the available attack score;
    then exactly that score is reserved. A refusal changes nothing.
   */
  function CanAgentPerformAttack(c: Circle, attackScore: int): (r: Reservation)
    ensures r.granted <==> attackScore <= c.availableAttackScore
    ensures r.granted ==> r.circle == c.(availableAttackScore := c.availableAttackScore - attackScore)
    ensures !r.granted ==> r.circle == c
    ensures c.availableAttackScore >= 0 ==> r.circle.availableAttackScore >= 0
  {
    if attackScore <= c.availableAttackScore then
      Reservation(c.(availableAttackScore := c.availableAttackScore - attackScore), true)
    else Reservation(c, false)
  }

  /**
    AgentAttackFinished: returns the score to the pool, clamped so the available attack score
    never ends above its maximum.
   */
  function AgentAttackFinished(c: Circle, attackScore: int): (r: Circle)
    ensures r.availableAttackScore <= c.maxAttackScore
    ensures c.availableAttackScore + attackScore <= c.maxAttackScore ==> r.availableAttackScore == c.availableAttackScore + attackScore
    ensures c.availableAttackScore + attackScore > c.maxAttackScore ==> r.availableAttackScore == c.maxAttackScore
    ensures r == c.(availableAttackScore := r.availableAttackScore)
  {
    var returned := c.availableAttackScore + attackScore;
    c.(availableAttackScore := if returned > c.maxAttackScore then c.maxAttackScore else returned)
  }

  /** A granted reservation followed by finishing the same attack restores a pool that was within its maximum. */
  lemma ReserveThenFinishRestores(c: Circle, attackScore: int)
    requires c.availableAttackScore <= c.maxAttackScore
    requires CanAgentPerformAttack(c, attackScore).granted
    ensures AgentAttackFinished(CanAgentPerformAttack(c, attackScore).circle, attackScore) == c
  {
  }

  // ---------------------------------------------------------------------------------------
  // Enemy budget accounting

  function ScoreSum(agents: seq<Agent>): int {
    if |agents| == 0 then 0 else agents[0].enemyScore + ScoreSum(agents[1..])
  }

  lemma {:induction false} ScoreSumAppend(agents: seq<Agent>, a: Agent)
    ensures ScoreSum(agents + [a]) == ScoreSum(agents) + a.enemyScore
  {
    if |agents| > 0 {
      assert (agents + [a])[1..] == agents[1..] + [a];
      ScoreSumAppend(agents[1..], a);
    }
  }

  /** The available enemy score plus the scores of all members equals the maximum. */
  ghost predicate EnemyBudgetAccounted(c: Circle) {
    c.availableEnemyScore + ScoreSum(c.enemiesInCircle) == c.maxEnemyScore
  }

  /**
    Joining and removing keep the enemy budget accounted for, so, while the available score
    stays non-negative, the members' total score never exceeds the maximum.
   */
  lemma JoinKeepsEnemyBudgetAccounted(c: Circle, attacker: Agent, pos: Vec)
    requires Initialized(c)
    requires EnemyBudgetAccounted(c)
    ensures EnemyBudgetAccounted(JoinCircle(c, attacker, pos))
    ensures c.availableEnemyScore >= 0 ==> ScoreSum(JoinCircle(c, attacker, pos).enemiesInCircle) <= c.maxEnemyScore
  {
    ScoreSumAppend(c.enemiesInCircle, attacker);
  }

  lemma RemoveKeepsEnemyBudgetAccounted(c: Circle, agent: Agent)
    requires OccupantsTracked(c)
    requires EnemyBudgetAccounted(c)
    ensures EnemyBudgetAccounted(RemoveAgentFromCircle(c, agent).value)
  {
  }

  /**
    A removed agent stays charged: its score is not returned to the enemy budget and it stays in
    the member list, so the budget it held is never released.
   */
  lemma RemovedAgentStaysCharged(c: Circle, agent: Agent)
    requires OccupantsTracked(c)
    requires agent in c.enemiesInCircle
    ensures agent in RemoveAgentFromCircle(c, agent).value.enemiesInCircle
    ensures RemoveAgentFromCircle(c, agent).value.availableEnemyScore == c.availableEnemyScore
  {
  }

  /** Removing every occurrence of an agent removes its score once per occurrence. */
  lemma {:induction false} ScoreSumRemoveAll(agents: seq<Agent>, a: Agent)
    ensures ScoreSum(RemoveAll(agents, a)) == ScoreSum(agents) - a.enemyScore * multiset(agents)[a]
  {
    if |agents| > 0 {
      var tail := agents[1..];
      ScoreSumRemoveAll(tail, a);
      CountHead(agents, a);
      ScoreSumRemoveAllHead(agents, a);
      var m := multiset(tail)[a];
      assert ScoreSum(agents) == agents[0].enemyScore + ScoreSum(tail);
      if agents[0] == a {
        assert multiset(agents)[a] == m + 1;
        MulSucc(a.enemyScore, m);
      } else {
        assert multiset(agents)[a] == m;
      }
    }
  }

  /** How often the agent occurs, split into the head and the tail. */
  lemma CountHead(agents: seq<Agent>, a: Agent)
    requires |agents| > 0
    ensures multiset(agents)[a] == multiset(agents[1..])[a] + (if agents[0] == a then 1 else 0)
  {
    assert agents == [agents[0]] + agents[1..];
    assert multiset(agents) == multiset([agents[0]]) + multiset(agents[1..]);
  }

  /** The score left after removing the agent, split into the head and the tail. */
  lemma ScoreSumRemoveAllHead(agents: seq<Agent>, a: Agent)
    requires |agents| > 0
    ensures ScoreSum(RemoveAll(agents, a))
      == ScoreSum(RemoveAll(agents[1..], a)) + (if agents[0] == a then 0 else agents[0].enemyScore)
  {
    var rest := RemoveAll(agents[1..], a);
    if agents[0] != a {
      assert RemoveAll(agents, a) == [agents[0]] + rest;
      assert ([agents[0]] + rest)[1..] == rest;
    }
  }

  lemma MulSucc(x: int, m: int)
    ensures x * (m + 1) == x * m + x
  {
  }

  /**
    Leaving the circle as the enemy budget needs it: the slot is freed as RemoveAgentFromCircle
    frees it, and the agent also leaves the member list and gets back the score charged for
    every time it joined. The budget stays accounted for.
   */
  function LeaveCircleIntended(c: Circle, agent: Agent): (r: Logged<Circle>)
    requires OccupantsTracked(c)
    ensures agent !in r.value.enemiesInCircle
    ensures forall a :: a != agent ==> (a in r.value.enemiesInCircle <==> a in c.enemiesInCircle)
    ensures r.value.availableEnemyScore == c.availableEnemyScore + agent.enemyScore * multiset(c.enemiesInCircle)[agent]
    ensures EnemyBudgetAccounted(c) ==> EnemyBudgetAccounted(r.value)
    ensures var freed := RemoveAgentFromCircle(c, agent);
      && r.value.occupant == freed.value.occupant && r.value.occupied == freed.value.occupied
      && r.errorLogged == freed.errorLogged
  {
    var freed := RemoveAgentFromCircle(c, agent);
    ScoreSumRemoveAll(c.enemiesInCircle, agent);
    var refund := agent.enemyScore * multiset(c.enemiesInCircle)[agent];
    Logged(freed.value.(enemiesInCircle := RemoveAll(c.enemiesInCircle, agent),
                        availableEnemyScore := c.availableEnemyScore + refund), freed.errorLogged)
  }

  /** After the intended leave, the budget is back to what it was before the agent joined. */
  lemma JoinThenLeaveRestoresBudget(c: Circle, attacker: Agent, pos: Vec)
    requires Initialized(c)
    requires attacker !in c.enemiesInCircle
    requires attacker.enemyScore <= c.availableEnemyScore
    ensures LeaveCircleIntended(JoinCircle(c, attacker, pos), attacker).value.availableEnemyScore == c.availableEnemyScore
    ensures LeaveCircleIntended(JoinCircle(c, attacker, pos), attacker).value.enemiesInCircle == c.enemiesInCircle
  {
    var j := JoinCircle(c, attacker, pos);
    assert multiset(j.enemiesInCircle)[attacker] == 1 by {
      assert multiset(j.enemiesInCircle) == multiset(c.enemiesInCircle) + multiset([attacker]);
    }
    RemoveAllAppendFresh(c.enemiesInCircle, attacker);
    assert j.availableEnemyScore == c.availableEnemyScore - attacker.enemyScore;
    assert j.enemiesInCircle == c.enemiesInCircle + [attacker];
    var l := LeaveCircleIntended(j, attacker);
    assert l.value.availableEnemyScore == j.availableEnemyScore + attacker.enemyScore * 1;
  }

  /** Scenario: scores 4, 5, 6 against a fresh budget of 10 admit the first two and leave 1. */
  lemma ScenarioThreeJoins(c: Circle, a4: Agent, a5: Agent, a6: Agent, p4: Vec, p5: Vec, p6: Vec)
    requires Initialized(c)
    requires c.availableEnemyScore == 10
    requires a4.enemyScore == 4 && a5.enemyScore == 5 && a6.enemyScore == 6
    ensures var r := JoinCircle(JoinCircle(JoinCircle(c, a4, p4), a5, p5), a6, p6);
      r.availableEnemyScore == 1 && r.enemiesInCircle == c.enemiesInCircle + [a4, a5]
  {
    var c1 := JoinCircle(c, a4, p4);
    JoinCharges(c, a4, p4);
    var c2 := JoinCircle(c1, a5, p5);
    JoinCharges(c1, a5, p5);
    assert c2.enemiesInCircle == c.enemiesInCircle + [a4] + [a5];
    JoinCharges(c2, a6, p6);
  }

  /** The budget and membership effect of one join, and nothing else. */
  lemma JoinCharges(c: Circle, attacker: Agent, pos: Vec)
    requires Initialized(c)
    ensures Initialized(JoinCircle(c, attacker, pos))
    ensures attacker.enemyScore > c.availableEnemyScore ==> JoinCircle(c, attacker, pos) == c
    ensures attacker.enemyScore <= c.availableEnemyScore ==>
      && JoinCircle(c, attacker, pos).availableEnemyScore == c.availableEnemyScore - attacker.enemyScore
      && JoinCircle(c, attacker, pos).enemiesInCircle == c.enemiesInCircle + [attacker]
  {
  }
}
