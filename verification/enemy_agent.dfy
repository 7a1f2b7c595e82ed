/**
  The enemy agent as the rest of the core sees it (EnemyAgent.h): an identity carrying the
  enemy score it was constructed with, its combat flags, and the FAttack record that describes
  one player attack together with its integer id.
 */
module EnemyAgent {
  import opened Prelude

  /**
    An agent pointer. Two pointers are the same agent exactly when they are equal; the enemy
    score is fixed by the AEnemyAgent(int score) constructor and read through GetEnemyScore.
   */
  datatype Agent = Agent(id: nat, enemyScore: int)

  /** The agent's mutable flags: bIsInCombat, and the dead and busy queries it answers. */
  datatype AgentStatus = AgentStatus(inCombat: bool, dead: bool, busy: bool)

  /** A freshly spawned agent: bIsInCombat starts false. */
  function NewAgentStatus(): (r: AgentStatus)
    ensures !r.inCombat && !r.dead && !r.busy
  {
    AgentStatus(false, false, false)
  }

  /** JoinCombat sets bIsInCombat (drawing the sword is animation and is not modelled). */
  function JoinCombat(st: AgentStatus): (r: AgentStatus)
    ensures r.inCombat
    ensures r.dead == st.dead && r.busy == st.busy
  {
    st.(inCombat := true)
  }

  /** LeaveCombat clears bIsInCombat. */
  function LeaveCombat(st: AgentStatus): (r: AgentStatus)
    ensures !r.inCombat
    ensures r.dead == st.dead && r.busy == st.busy
  {
    st.(inCombat := false)
  }

  /** Leaving combat undoes joining it, and joining undoes leaving. */
  lemma LeaveAfterJoinCombat(st: AgentStatus)
    ensures !st.inCombat ==> LeaveCombat(JoinCombat(st)) == st
    ensures st.inCombat ==> JoinCombat(LeaveCombat(st)) == st
  {
  }

  /** Attack directions and types are enumerators with contiguous ordinals from 0. */
  const DirectionCount := 9
  const TypeCount := 3
  const IdCount := 27

  predicate IsDirection(d: int) { 0 <= d < DirectionCount }
  predicate IsAttackType(t: int) { 0 <= t < TypeCount }
  /** A valid index into each dimension of the 27x27x27 n-gram table. */
  predicate IsAttackId(id: int) { 0 <= id < IdCount }

  /** Ordinals the default FAttack uses (AD_DownwardRightSlash, AT_Quick), taken as the first enumerators. */
  const DefaultDirection := 0
  const DefaultType := 0

  /** FAttack: direction, type, the derived id and the attacked agent (null allowed). */
  datatype PlayerAttack = PlayerAttack(direction: int, attackType: int, id: int, target: Option<Agent>)

  /** The default FAttack constructor: id is NULL, that is 0, and the target is null. */
  function DefaultAttack(): (r: PlayerAttack)
    ensures r.id == 0 && r.target.None?
    ensures IsDirection(r.direction) && IsAttackType(r.attackType)
  {
    PlayerAttack(DefaultDirection, DefaultType, 0, None)
  }

  /**
    The FAttack(dir, type, enemy) constructor as written: the id is the SUM of the two ordinals,
    so it only ranges over 0..10 and does not follow the type*9 + direction layout.
   */
  function MakeAttack(dir: int, atkType: int, enemy: Option<Agent>): (r: PlayerAttack)
    requires IsDirection(dir) && IsAttackType(atkType)
    ensures r.direction == dir && r.attackType == atkType && r.target == enemy
    ensures 0 <= r.id <= 10 && IsAttackId(r.id)
  {
    PlayerAttack(dir, atkType, dir + atkType, enemy)
  }

  /** The intended id: type-major, 9 directions per type, covering 0..26 exactly once. */
  function EncodeAttackId(dir: int, atkType: int): (id: int)
    requires IsDirection(dir) && IsAttackType(atkType)
    ensures IsAttackId(id)
    ensures CppRem(id, DirectionCount) == dir && CppDiv(id, DirectionCount) == atkType
  {
    atkType * DirectionCount + dir
  }

  /** The decoding ReactToIncomingAttack applies: direction = id % 9, type = id / 9 (C++ operators). */
  function DecodeAttackId(id: int): (r: (int, int))
  {
    (CppRem(id, DirectionCount), CppDiv(id, DirectionCount))
  }

  /** The default attack's id 0 splits back into the default direction and type. */
  lemma DefaultAttackDecodes()
    ensures DecodeAttackId(DefaultAttack().id) == (DefaultAttack().direction, DefaultAttack().attackType)
  {
  }

  /** Every valid id decodes to a valid (direction, type) pair that encodes back to the same id. */
  lemma EncodeAfterDecode(id: int)
    requires IsAttackId(id)
    ensures IsDirection(DecodeAttackId(id).0) && IsAttackType(DecodeAttackId(id).1)
    ensures EncodeAttackId(DecodeAttackId(id).0, DecodeAttackId(id).1) == id
  {
  }

  /** Decoding inverts the intended encoding on all 27 combinations. */
  lemma DecodeAfterEncode(dir: int, atkType: int)
    requires IsDirection(dir) && IsAttackType(atkType)
    ensures DecodeAttackId(EncodeAttackId(dir, atkType)) == (dir, atkType)
  {
  }

  /** The intended encoding identifies each of the 27 attacks uniquely. */
  lemma EncodeAttackIdInjective(d1: int, t1: int, d2: int, t2: int)
    requires IsDirection(d1) && IsAttackType(t1) && IsDirection(d2) && IsAttackType(t2)
    ensures EncodeAttackId(d1, t1) == EncodeAttackId(d2, t2) <==> d1 == d2 && t1 == t2
  {
    DecodeAfterEncode(d1, t1);
    DecodeAfterEncode(d2, t2);
  }

  /** The constructor's sum does not identify attacks uniquely: two different attacks share an id. */
  lemma AttackIdsCollide(enemy: Option<Agent>)
    ensures MakeAttack(1, 0, enemy).id == MakeAttack(0, 1, enemy).id
    ensures MakeAttack(1, 0, enemy) != MakeAttack(0, 1, enemy)
  {
  }

  /** The constructor's id does not decode back to the attack it was built from. */
  lemma ConstructedIdMisdecodes(enemy: Option<Agent>)
    ensures DecodeAttackId(MakeAttack(0, 1, enemy).id) == (1, 0)
    ensures DecodeAttackId(MakeAttack(8, 2, enemy).id) == (1, 1)
  {
  }
}
