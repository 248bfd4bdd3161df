/**
  Entities, creatures and the turn actions of `com_Creature`: rolling
  damage, attacking, taking damage, dying, and moving with its
  bump-to-attack rule, over an explicit game session instead of the
  global `GAME` object.
 */
module Combat {
  import opened Wrappers
  import opened Grid
  import opened Rects
  import opened Text

  /** The `death_function` a creature is built with: none, or `death_monster`. */
  datatype OnDeath = NoDeath | MonsterDeath

  /** `com_Creature`: something that can move and fight. */
  datatype Creature = Creature(
    nameInstance: string,
    maxHp: int,
    hp: int,
    numDice: nat,
    damageDice: int,
    baseDef: int,
    deathFunction: OnDeath)

  /** The constructor with its defaults: one six-sided die, no defense, 10 hp, no death function. */
  function NewCreature(nameInstance: string, numDice: nat := 1, damageDice: int := 6, baseDef: int := 0,
                       hp: int := 10, deathFunction: OnDeath := NoDeath): (c: Creature)
    ensures c.hp == c.maxHp == hp
  {
    Creature(nameInstance, hp, hp, numDice, damageDice, baseDef, deathFunction)
  }

  /** `AI_test`, the only AI component of this version. */
  datatype Ai = AiTest

  /**
    `obj_Entity`. Python tells entities apart by object identity; here
    each carries an `id` standing for that identity. The glyph is a code
    point.
   */
  datatype Entity = Entity(id: nat, x: int, y: int, glyph: int, creature: Option<Creature>, ai: Option<Ai>)

  /** One entry of `message_history`: the text and its color name. */
  datatype Message = Message(text: string, color: string)

  /** `obj_Game`: the current map and rooms, the entities on the map, and the message log. */
  datatype Session = Session(grid: Grid, rooms: seq<Rect>, entities: seq<Entity>, messages: seq<Message>)

  /** No two list entries are the same object. */
  predicate UniqueIds(es: seq<Entity>)
  {
    forall i, j :: 0 <= i < |es| && 0 <= j < |es| && i != j ==> es[i].id != es[j].id
  }

  /** Every entity on the map can fight: the attack code reads `target.creature` unguarded. */
  predicate AllCreatures(es: seq<Entity>)
  {
    forall i :: 0 <= i < |es| ==> es[i].creature.Some?
  }

  /** What the game keeps true of its entity list. */
  predicate ValidSession(s: Session)
  {
    UniqueIds(s.entities) && AllCreatures(s.entities)
  }

  /** `obj_Game.game_message`: log one message at the end. */
  function GameMessage(s: Session, msg: string, color: string): (s': Session)
    ensures s'.messages == s.messages + [Message(msg, color)]
    ensures s'.grid == s.grid && s'.rooms == s.rooms && s'.entities == s.entities
  {
    s.(messages := s.messages + [Message(msg, color)])
  }

  /** `obj_Game.add_entity`: append an entity unless it is `None`; nothing else changes. */
  function AddEntity(s: Session, e: Option<Entity>): (s': Session)
    ensures s'.grid == s.grid && s'.rooms == s.rooms && s'.messages == s.messages
    ensures e.None? ==> s'.entities == s.entities
    ensures e.Some? ==> |s'.entities| == |s.entities| + 1 && s'.entities[|s.entities|] == e.value
    ensures forall i :: 0 <= i < |s.entities| ==> s'.entities[i] == s.entities[i]
  {
    if e.Some? then s.(entities := s.entities + [e.value]) else s
  }

  /** Adding an entity with a fresh identity keeps the list's invariant. */
  lemma AddEntityKeepsValid(s: Session, e: Entity)
    requires ValidSession(s) && e.creature.Some?
    requires forall i :: 0 <= i < |s.entities| ==> s.entities[i].id != e.id
    ensures ValidSession(AddEntity(s, Some(e)))
  {
  }

  // ---------------------------------------------------------------------
  // Dice

  /** The running total of `roll`, added left to right. */
  function Sum(xs: seq<int>): int
  {
    if |xs| == 0 then 0 else Sum(xs[..|xs| - 1]) + xs[|xs| - 1]
  }

  /** Each draw of a `dice`-`sides` roll: one value from `[1, sides]` per die. */
  predicate DiceDraws(dice: nat, sides: int, draws: seq<int>)
  {
    |draws| == dice && forall i :: 0 <= i < |draws| ==> 1 <= draws[i] <= sides
  }

  lemma {:induction false} SumBounds(xs: seq<int>, sides: int)
    requires forall i :: 0 <= i < |xs| ==> 1 <= xs[i] <= sides
    ensures |xs| <= Sum(xs) <= |xs| * sides
    decreases |xs|
  {
    if |xs| > 0 {
      var front := xs[..|xs| - 1];
      assert forall i :: 0 <= i < |front| ==> front[i] == xs[i];
      SumBounds(front, sides);
      assert (|xs| - 1) * sides + sides == |xs| * sides;
    }
  }

  /** `roll(dice, sides)`: the total of the draws, between `dice` and `dice * sides`. */
  function Roll(dice: nat, sides: int, draws: seq<int>): (r: int)
    requires DiceDraws(dice, sides, draws)
    ensures dice <= r <= dice * sides
  {
    SumBounds(draws, sides);
    Sum(draws)
  }

  /** The `attack_mod` property: a roll of the creature's damage dice. */
  function AttackMod(c: Creature, draws: seq<int>): (r: int)
    requires DiceDraws(c.numDice, c.damageDice, draws)
    ensures c.numDice <= r <= c.numDice * c.damageDice
  {
    Roll(c.numDice, c.damageDice, draws)
  }

  // ---------------------------------------------------------------------
  // Looking entities up

  /** The position of the first entity that is this object, if any. */
  function IndexOfId(es: seq<Entity>, id: nat): (r: Option<nat>)
    ensures r.Some? ==> r.value < |es| && es[r.value].id == id
    ensures r.Some? ==> forall j :: 0 <= j < r.value ==> es[j].id != id
    ensures r.None? ==> forall j :: 0 <= j < |es| ==> es[j].id != id
  {
    if |es| == 0 then None
    else if es[0].id == id then Some(0)
    else match IndexOfId(es[1..], id)
      case None => None
      case Some(k) => Some(k + 1)
  }

  /** With unique identities the first match is the only one. */
  lemma IndexOfUnique(es: seq<Entity>, i: nat)
    requires UniqueIds(es) && i < |es|
    ensures IndexOfId(es, es[i].id) == Some(i)
  {
  }

  /** The entity the given identity stands for. */
  function EntityOf(s: Session, id: nat): (e: Entity)
    requires IndexOfId(s.entities, id).Some?
    ensures e in s.entities && e.id == id
  {
    s.entities[IndexOfId(s.entities, id).value]
  }

  /**
    `map_check_for_creature(x, y, exclude_entity)` with an exclusion: the
    position in the list of the first entity standing on (x, y) that is not
    the excluded one. The source returns the entity; the position in the
    list identifies it here.
   */
  function MapCheckForCreature(es: seq<Entity>, x: int, y: int, exclude: nat): (r: Option<nat>)
    ensures r.Some? ==> r.value < |es| && es[r.value].id != exclude && es[r.value].x == x && es[r.value].y == y
    ensures r.Some? ==> forall j :: 0 <= j < r.value ==> !(es[j].id != exclude && es[j].x == x && es[j].y == y)
    ensures r.None? ==> forall j :: 0 <= j < |es| ==> !(es[j].id != exclude && es[j].x == x && es[j].y == y)
  {
    if |es| == 0 then None
    else if es[0].id != exclude && es[0].x == x && es[0].y == y then Some(0)
    else match MapCheckForCreature(es[1..], x, y, exclude)
      case None => None
      case Some(k) => Some(k + 1)
  }

  /**
    `list.remove(entity)`: drop the first entry that is this object and
    keep every other entry in order.
   */
  function RemoveFirst(es: seq<Entity>, id: nat): (r: seq<Entity>)
    requires IndexOfId(es, id).Some?
    ensures |r| == |es| - 1
    ensures forall j :: 0 <= j < IndexOfId(es, id).value ==> r[j] == es[j]
    ensures forall j :: IndexOfId(es, id).value <= j < |r| ==> r[j] == es[j + 1]
  {
    if es[0].id == id then es[1..]
    else [es[0]] + RemoveFirst(es[1..], id)
  }

  // ---------------------------------------------------------------------
  // Combat

  /** The hp report `take_damage` logs, in white. */
  function HpMessage(c: Creature): Message
  {
    Message(c.nameInstance + "'s hp is " + IntToString(c.hp) + "/" + IntToString(c.maxHp), "white")
  }

  /** The report `attack` logs, in red. */
  function AttackMessage(attacker: Creature, target: Creature, damage: int): Message
  {
    Message(attacker.nameInstance + " attacks " + target.nameInstance + " for " + IntToString(damage) + " damage!", "red")
  }

  /** The report `death_monster` logs, in gray. */
  function DeathMessage(c: Creature): Message
  {
    Message(c.nameInstance + " is dead!", "gray")
  }

  /**
    `death_monster(monster)`: log the death, strip the creature and AI
    components, and take the entity off the map. The stripped entity is
    returned alongside the session.
   */
  function DeathMonster(s: Session, i: nat): (r: (Session, Entity))
    requires i < |s.entities| && s.entities[i].creature.Some?
    requires UniqueIds(s.entities)
    ensures r.0.messages == s.messages + [DeathMessage(s.entities[i].creature.value)]
    ensures r.0.grid == s.grid && r.0.rooms == s.rooms
    ensures r.0.entities == s.entities[..i] + s.entities[i + 1..]
    ensures r.1.id == s.entities[i].id && r.1.creature.None? && r.1.ai.None?
  {
    var e := s.entities[i];
    var s1 := GameMessage(s, DeathMessage(e.creature.value).text, DeathMessage(e.creature.value).color);
    var corpse := e.(creature := None, ai := None);
    IndexOfUnique(s.entities, i);
    var rest := RemoveFirst(s1.entities, e.id);
    assert rest == s.entities[..i] + s.entities[i + 1..];
    (s1.(entities := rest), corpse)
  }

  /** The creature dies of this much damage and has `death_monster` to remove it. */
  predicate Dies(c: Creature, damage: int)
  {
    c.hp - damage <= 0 && c.deathFunction == MonsterDeath
  }

  /**
    `take_damage`: subtract the damage, log the new hp, and run the death
    function when hp has dropped to 0 or below and there is one.
   */
  function TakeDamage(s: Session, i: nat, damage: int): (s': Session)
    requires i < |s.entities| && s.entities[i].creature.Some?
    requires UniqueIds(s.entities)
    ensures var c := s.entities[i].creature.value;
      var hurt := c.(hp := c.hp - damage);
      && s'.grid == s.grid && s'.rooms == s.rooms
      && s'.messages == s.messages + [HpMessage(hurt)] + (if Dies(c, damage) then [DeathMessage(hurt)] else [])
      && (Dies(c, damage) ==> s'.entities == s.entities[..i] + s.entities[i + 1..])
      && (!Dies(c, damage) ==> s'.entities == s.entities[i := s.entities[i].(creature := Some(hurt))])
  {
    var e := s.entities[i];
    var c := e.creature.value;
    var hurt := c.(hp := c.hp - damage);
    var s1 := s.(entities := s.entities[i := e.(creature := Some(hurt))]);
    var s2 := GameMessage(s1, HpMessage(hurt).text, HpMessage(hurt).color);
    if hurt.hp <= 0 && c.deathFunction != NoDeath then
      DeathMonster(s2, i).0
    else s2
  }

  /** `attack(target, damage)`: log the attack, then the target takes the damage. */
  function Attack(s: Session, attacker: Creature, i: nat, damage: int): (s': Session)
    requires i < |s.entities| && s.entities[i].creature.Some?
    requires UniqueIds(s.entities)
    ensures s'.grid == s.grid && s'.rooms == s.rooms
    ensures var t := s.entities[i].creature.value;
      |s'.messages| == |s.messages| + (if Dies(t, damage) then 3 else 2) &&
      s'.messages[..|s.messages|] == s.messages &&
      s'.messages[|s.messages|] == AttackMessage(attacker, t, damage) &&
      s'.messages[|s.messages| + 1] == HpMessage(t.(hp := t.hp - damage)) &&
      (Dies(t, damage) ==> s'.messages[|s.messages| + 2] == DeathMessage(t))
    ensures var t := s.entities[i].creature.value;
      Dies(t, damage) ==> s'.entities == s.entities[..i] + s.entities[i + 1..]
    ensures var t := s.entities[i].creature.value;
      !Dies(t, damage) ==>
        s'.entities == s.entities[i := s.entities[i].(creature := Some(t.(hp := t.hp - damage)))]
  {
    var t := s.entities[i].creature.value;
    var m := AttackMessage(attacker, t, damage);
    var s1 := GameMessage(s, m.text, m.color);
    var s' := TakeDamage(s1, i, damage);
    assert s'.messages[..|s.messages|] == s.messages;
    s'
  }

  /** Taking an entry out of a valid list leaves it valid. */
  lemma RemovalKeepsValid(es: seq<Entity>, i: nat)
    requires UniqueIds(es) && AllCreatures(es) && i < |es|
    ensures UniqueIds(es[..i] + es[i + 1..]) && AllCreatures(es[..i] + es[i + 1..])
  {
    var r := es[..i] + es[i + 1..];
    assert forall j :: 0 <= j < |r| ==> r[j] == es[if j < i then j else j + 1];
  }

  /** Replacing an entry by one with the same identity and a creature leaves the list valid. */
  lemma UpdateKeepsValid(es: seq<Entity>, i: nat, e: Entity)
    requires UniqueIds(es) && AllCreatures(es) && i < |es|
    requires e.id == es[i].id && e.creature.Some?
    ensures UniqueIds(es[i := e]) && AllCreatures(es[i := e])
  {
  }

  /** An attack leaves the entity list valid, whether or not the target dies. */
  lemma AttackKeepsValid(s: Session, attacker: Creature, i: nat, damage: int)
    requires ValidSession(s) && i < |s.entities|
    ensures ValidSession(Attack(s, attacker, i, damage))
  {
    var t := s.entities[i].creature.value;
    if Dies(t, damage) {
      RemovalKeepsValid(s.entities, i);
    } else {
      UpdateKeepsValid(s.entities, i, s.entities[i].(creature := Some(t.(hp := t.hp - damage))));
      assert Attack(s, attacker, i, damage).entities == s.entities[i := s.entities[i].(creature := Some(t.(hp := t.hp - damage)))];
    }
  }

  // ---------------------------------------------------------------------
  // Movement

  /**
    Python's reading of a list index: -1 is the last element. `move` can
    index the map with a destination of -1, because its lower-bound checks
    look at the current coordinate.
   */
  function PyIndex(i: int, n: int): (k: int)
    requires -n <= i < n
    ensures 0 <= k < n
    ensures k == i || k == i + n
  {
    if i < 0 then i + n else i
  }

  /**
    The two guards at the top of `move`, as written: y and x are both
    compared with `len(current_map)`, the map's width, and the lower bound
    is tested on the current coordinate rather than the destination.
   */
  predicate Rejected(s: Session, e: Entity, dx: int, dy: int)
  {
    e.y + dy >= |s.grid| || e.y < 0 || e.x + dx >= |s.grid| || e.x < 0
  }

  /**
    The random values `move` reads: one per attack die of the mover, and
    only when it attacks; a plain step or a refused move reads none.
   */
  predicate MoveDice(s: Session, id: nat, dx: int, dy: int, dice: seq<int>)
    requires IndexOfId(s.entities, id).Some?
    requires EntityOf(s, id).creature.Some?
  {
    var e := EntityOf(s, id);
    var c := e.creature.value;
    !Rejected(s, e, dx, dy) && MapCheckForCreature(s.entities, e.x + dx, e.y + dy, id).Some? ==>
      DiceDraws(c.numDice, c.damageDice, dice)
  }

  /** The map lookup `move` performs for a destination that passed the guards. */
  predicate DestinationIndexable(s: Session, e: Entity, dx: int, dy: int)
  {
    !Rejected(s, e, dx, dy) ==> -|s.grid| <= e.x + dx && -|s.grid| <= e.y + dy
  }

  /** The mover steps: the guards pass, nobody else stands there, and the (wrapped) tile is open. */
  predicate Steps(s: Session, e: Entity, dx: int, dy: int)
    requires Square(s.grid) && DestinationIndexable(s, e, dx, dy)
  {
    && !Rejected(s, e, dx, dy)
    && MapCheckForCreature(s.entities, e.x + dx, e.y + dy, e.id).None?
    && !s.grid[PyIndex(e.x + dx, |s.grid|)][PyIndex(e.y + dy, |s.grid|)]
  }

  /**
    `com_Creature.move(dx, dy)` for the entity with identity `id`. Bounds
    reject with no change; else a creature standing on the destination is
    attacked, and the mover stays put; else the mover steps by exactly
    (dx, dy) if the tile is open and nothing changes if it is blocked.
    `dice` holds the values the attack roll would draw.
   */
  function Move(s: Session, id: nat, dx: int, dy: int, dice: seq<int>): (s': Session)
    requires ValidSession(s) && Square(s.grid)
    requires IndexOfId(s.entities, id).Some?
    requires MoveDice(s, id, dx, dy, dice)
    requires DestinationIndexable(s, EntityOf(s, id), dx, dy)
    ensures ValidSession(s')
    ensures s'.grid == s.grid && s'.rooms == s.rooms
    ensures Rejected(s, EntityOf(s, id), dx, dy) ==> s' == s
    ensures IndexOfId(s'.entities, id).Some?
    ensures var e := EntityOf(s, id);
      if Steps(s, e, dx, dy) then EntityOf(s', id) == e.(x := e.x + dx, y := e.y + dy)
      else EntityOf(s', id) == e
    ensures var e := EntityOf(s, id);
      !Rejected(s, e, dx, dy) && MapCheckForCreature(s.entities, e.x + dx, e.y + dy, id).Some? ==>
        s' == Attack(s, e.creature.value, MapCheckForCreature(s.entities, e.x + dx, e.y + dy, id).value,
                     AttackMod(e.creature.value, dice))
    ensures var e := EntityOf(s, id);
      MapCheckForCreature(s.entities, e.x + dx, e.y + dy, id).None? ==>
        && s'.messages == s.messages
        && |s'.entities| == |s.entities|
        && (forall j :: 0 <= j < |s.entities| && s.entities[j].id != id ==> s'.entities[j] == s.entities[j])
  {
    var k := IndexOfId(s.entities, id).value;
    var e := s.entities[k];
    assert EntityOf(s, id) == e && e.id == id;
    var w := |s.grid|;
    if e.y + dy >= w || e.y < 0 then s
    else if e.x + dx >= w || e.x < 0 then s
    else
      var tx := e.x + dx;
      var ty := e.y + dy;
      var target := MapCheckForCreature(s.entities, tx, ty, e.id);
      var tileIsWall := s.grid[PyIndex(tx, w)][PyIndex(ty, w)];
      if target.Some? then
        assert DiceDraws(e.creature.value.numDice, e.creature.value.damageDice, dice);
        var s' := Attack(s, e.creature.value, target.value, AttackMod(e.creature.value, dice));
        MoverSurvivesAttack(s, e.creature.value, target.value, AttackMod(e.creature.value, dice), k);
        AttackKeepsValid(s, e.creature.value, target.value, AttackMod(e.creature.value, dice));
        s'
      else if !tileIsWall then
        var s' := s.(entities := s.entities[k := e.(x := tx, y := ty)]);
        StepKeepsOthers(s, k, e.(x := tx, y := ty));
        s'
      else s
  }

  /** Replacing the mover's entry by its moved self keeps the session well formed and touches nobody else. */
  lemma StepKeepsOthers(s: Session, k: nat, moved: Entity)
    requires ValidSession(s) && k < |s.entities|
    requires moved.id == s.entities[k].id && moved.creature.Some?
    ensures ValidSession(s.(entities := s.entities[k := moved]))
    ensures IndexOfId(s.entities[k := moved], moved.id) == Some(k)
    ensures EntityOf(s.(entities := s.entities[k := moved]), moved.id) == moved
    ensures forall j :: 0 <= j < |s.entities| && s.entities[j].id != moved.id ==> s.entities[k := moved][j] == s.entities[j]
  {
    UpdateKeepsValid(s.entities, k, moved);
    IndexOfUnique(s.entities[k := moved], k);
  }

  /** Whoever else is attacked, the attacker stays in the list, unchanged. */
  lemma MoverSurvivesAttack(s: Session, attacker: Creature, i: nat, damage: int, k: nat)
    requires ValidSession(s) && i < |s.entities| && k < |s.entities| && i != k
    ensures IndexOfId(Attack(s, attacker, i, damage).entities, s.entities[k].id).Some?
    ensures EntityOf(Attack(s, attacker, i, damage), s.entities[k].id) == s.entities[k]
  {
    var s' := Attack(s, attacker, i, damage);
    AttackKeepsValid(s, attacker, i, damage);
    var k' := if Dies(s.entities[i].creature.value, damage) && i < k then k - 1 else k;
    assert s'.entities[k'] == s.entities[k];
    IndexOfUnique(s'.entities, k');
  }
}

/**
  The lower-bound guards of `move` test the current coordinate, so a step
  from column or row 0 towards -1 passes them; the map lookup then reads
  the opposite edge through Python's negative indexing, and the entity
  can end up off the map. This module shows it and gives the evidently
  intended move, which tests the destination.
 */
module MoveBounds {
  import opened Wrappers
  import opened Grid
  import opened Combat

  /** The entity stands on the (square) map. */
  predicate OnMap(s: Session, e: Entity)
  {
    InBounds(s.grid, Cell(e.x, e.y))
  }

  /** A 3 x 3 map whose only floor is (2, 1), with the player at (0, 1). */
  function EdgeExample(): (s: Session)
    ensures ValidSession(s) && Square(s.grid)
  {
    Session(
      [[true, true, true], [true, true, true], [true, false, true]],
      [],
      [Entity(0, 0, 1, '@' as int, Some(NewCreature("Player")), None)],
      [])
  }

  /**
    As written: moving the player left from (0, 1) reads `map[-1][1]`,
    which is the open cell (2, 1), and the player steps to (-1, 1).
   */
  lemma MoveLeavesMap()
    ensures OnMap(EdgeExample(), EntityOf(EdgeExample(), 0))
    ensures IndexOfId(Move(EdgeExample(), 0, -1, 0, [1]).entities, 0).Some?
    ensures EntityOf(Move(EdgeExample(), 0, -1, 0, [1]), 0).x == -1
    ensures !OnMap(EdgeExample(), EntityOf(Move(EdgeExample(), 0, -1, 0, [1]), 0))
  {
    var s := EdgeExample();
    assert EntityOf(s, 0) == s.entities[0];
    assert MapCheckForCreature(s.entities, -1, 1, 0).None?;
    assert Steps(s, EntityOf(s, 0), -1, 0);
  }

  /**
    `move` with the guards testing the destination: a move whose
    destination lies below 0 is rejected like one beyond the far edge.
    An entity on the map stays on the map.
   */
  function MoveChecked(s: Session, id: nat, dx: int, dy: int, dice: seq<int>): (s': Session)
    requires ValidSession(s) && Square(s.grid)
    requires IndexOfId(s.entities, id).Some?
    requires MoveDice(s, id, dx, dy, dice)
    ensures ValidSession(s') && s'.grid == s.grid
    ensures IndexOfId(s'.entities, id).Some?
    ensures OnMap(s, EntityOf(s, id)) ==> OnMap(s', EntityOf(s', id))
    ensures var e := EntityOf(s, id);
      e.x + dx < 0 || e.y + dy < 0 ==> s' == s
    ensures var e := EntityOf(s, id);
      e.x + dx >= 0 && e.y + dy >= 0 ==> s' == Move(s, id, dx, dy, dice)
  {
    var e := EntityOf(s, id);
    if e.x + dx < 0 || e.y + dy < 0 then s
    else Move(s, id, dx, dy, dice)
  }
}
