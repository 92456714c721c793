/** The static reference tables of the game screen (KWGameVC.swift's
    `setupAvailableCats`, `setupAvailableAbilities`,
    `setupAvailableChanceCards`), and the phase and move names. Every table
    is a sequence whose index is the card's id, so looking a card up by id is
    indexing, and an id past the end is Swift's out-of-range trap. */
module Catalog {
  import opened Basics

  datatype Cat = Cat(catID: nat, title: string, health: nat, inbornAbilityID: nat)

  /** An ability card. Four slots of the table hold cards left at
      `KWAbilityCard`'s defaults (hunting, recycling, loneliness, spotlight);
      they are `Unset`. */
  datatype Ability =
    | Ability(id: nat, title: string, phase: nat, coolDown: nat)
    | Unset

  datatype ChanceCard = ChanceCard(id: nat, title: string, kind: string, basicCardID: nat)

  const Cats: seq<Cat> := [
    Cat(0, "Persian Cat", 10, 0),
    Cat(1, "Ragdoll Cat", 5, 1)
  ]

  /** The one ability the player can trigger: critical hit. */
  const CriticalHitID: nat := 7

  const Abilities: seq<Ability> := [
    Ability(0, "Rejuvenation", 5, 10),
    Ability(1, "Gentleman", 0, 1),
    Unset,
    Unset,
    Unset,
    Unset,
    Ability(6, "Attacker", 0, 1),
    Ability(CriticalHitID, "Critical Hit", 1, 10)
  ]

  const PurrChance := "Purr Chance"
  const GuardChance := "Guard Chance"
  const ScratchChance := "Scratch Chance"

  const ChanceCards: seq<ChanceCard> := [
    ChanceCard(0, "Double Purring", PurrChance, 0),
    ChanceCard(1, "Guaranteed Purring", PurrChance, 0),
    ChanceCard(2, "Purr and Draw", PurrChance, 0),
    ChanceCard(3, "Reverse Scratch", GuardChance, 1),
    ChanceCard(4, "Guard and Heal", GuardChance, 1),
    ChanceCard(5, "Guard and Draw", GuardChance, 1),
    ChanceCard(6, "Can't Reverse", ScratchChance, 2),
    ChanceCard(7, "Can't Guard", ScratchChance, 2),
    ChanceCard(8, "Double Scratch", ScratchChance, 2)
  ]

  /** `ability.id != 7` fails only for critical hit: every other card,
      the unset ones included, is passive. */
  predicate IsActive(a: Ability) {
    a.Ability? && a.id == CriticalHitID
  }

  /** `availableCats[id]`. */
  function CatOf(id: int): (r: Result<Cat>)
    ensures r.Ok? <==> 0 <= id < |Cats|
    ensures r.Ok? ==> r.value.catID == id && r.value.health > 0 && 0 <= r.value.inbornAbilityID < |Abilities|
    ensures r.Ok? ==> Abilities[r.value.inbornAbilityID].Ability? && !IsActive(Abilities[r.value.inbornAbilityID])
    ensures r.Trap? ==> r.fault == IndexOutOfRange
  {
    if 0 <= id < |Cats| then Ok(Cats[id]) else Trap(IndexOutOfRange)
  }

  /** `availableAbilities[id]`. */
  function AbilityOf(id: int): (r: Result<Ability>)
    ensures r.Ok? <==> 0 <= id < |Abilities|
    ensures r.Ok? && r.value.Ability? ==> r.value.id == id && r.value.phase <= 5
    ensures r.Ok? ==> (r.value.Unset? <==> 2 <= id <= 5)
    ensures r.Ok? ==> (IsActive(r.value) <==> id == CriticalHitID)
    ensures r.Trap? ==> r.fault == IndexOutOfRange
  {
    if 0 <= id < |Abilities| then Ok(Abilities[id]) else Trap(IndexOutOfRange)
  }

  /** `availableChanceCards[id]`: card i answers basic move i / 3 (purr,
      guard, scratch), and its kind names that move. */
  function ChanceCardOf(id: int): (r: Result<ChanceCard>)
    ensures r.Ok? <==> 0 <= id < |ChanceCards|
    ensures r.Ok? ==> r.value.id == id && r.value.basicCardID == id / 3
    ensures r.Ok? ==> r.value.kind == [PurrChance, GuardChance, ScratchChance][id / 3]
    ensures r.Trap? ==> r.fault == IndexOutOfRange
  {
    if 0 <= id < |ChanceCards| then Ok(ChanceCards[id]) else Trap(IndexOutOfRange)
  }

  /** No two chance cards share a title, so a title names one card. */
  lemma ChanceTitlesDistinct(i: nat, j: nat)
    requires i < |ChanceCards| && j < |ChanceCards|
    requires ChanceCards[i].title == ChanceCards[j].title
    ensures i == j
  {
    assert ChanceCards[i].title[..3] == ChanceCards[j].title[..3];
  }

  // ---------------------------------------------------------------------------
  // Names

  const PhaseNames: seq<string> := [
    "Before Game", "Prelude", "Enacting Strategies", "Showing Cards", "Strategy Settlement", "Postlude"
  ]

  /** `phaseToString`. */
  function PhaseToString(phase: int): (r: string)
    ensures 0 <= phase < |PhaseNames| ==> r == PhaseNames[phase]
    ensures r == "Phase Unknown" <==> !(0 <= phase < |PhaseNames|)
  {
    match phase
    case 0 => "Before Game"
    case 1 => "Prelude"
    case 2 => "Enacting Strategies"
    case 3 => "Showing Cards"
    case 4 => "Strategy Settlement"
    case 5 => "Postlude"
    case _ => "Phase Unknown"
  }

  /** `moveIDToString`, used for the opponent's revealed move: the three basic
      moves and skipping. */
  function MoveIDToString(move: int): (r: string)
    ensures r == "Unknown" <==> !(0 <= move <= 3)
    ensures 0 <= move <= 2 ==> r == MoveToString(move)
    ensures move == 3 ==> r == "Skip"
  {
    match move
    case 0 => "Purr"
    case 1 => "Guard"
    case 2 => "Scratch"
    case 3 => "Skip"
    case _ => "Unknown"
  }

  /** `moveToString`, used for the player's own move: the three basic moves
      only, each named after its chance-card kind. */
  function MoveToString(move: int): (r: string)
    ensures r == "Unknown" <==> !(0 <= move <= 2)
    ensures 0 <= move <= 2 ==> r + " Chance" == [PurrChance, GuardChance, ScratchChance][move]
  {
    match move
    case 0 => "Purr"
    case 1 => "Guard"
    case 2 => "Scratch"
    case _ => "Unknown"
  }

  /** Distinct phases have distinct names, and so do distinct moves: the
      names identify what they name. */
  lemma NamesIdentify(p: int, q: int)
    ensures PhaseToString(p) == PhaseToString(q) && PhaseToString(p) != "Phase Unknown" ==> p == q
    ensures MoveIDToString(p) == MoveIDToString(q) && MoveIDToString(p) != "Unknown" ==> p == q
  {
    if PhaseToString(p) == PhaseToString(q) && PhaseToString(p) != "Phase Unknown" {
      assert PhaseToString(p)[..2] == PhaseToString(q)[..2];
    }
    if MoveIDToString(p) == MoveIDToString(q) && MoveIDToString(p) != "Unknown" {
      assert MoveIDToString(p)[..2] == MoveIDToString(q)[..2];
    }
  }
}
