/** The game screen's logic (KWGameVC.swift) with the UIKit side pulled out:
    the six-phase turn machine with its win/lose checks, the staged cooldown
    of the one usable ability, the local gates on moves, chance cards and
    ability use, the strategy label, and the dispatcher that turns each
    inbound frame into a change of player and opponent state.

    Everything the screen does is a step from one `State` to the next, with
    the requests it hands the network layer and the alerts it raises. A
    Swift runtime trap (an index past the end, a nil force-unwrap) is a
    `Trap` result. */
module Game {
  import opened Basics
  import Flags
  import Catalog
  import Codec
  import Connection

  // `KWGamePhase`
  const BeforeGame: int := 0
  const Prelude: int := 1
  const EnactingStrategies: int := 2
  const ShowingCards: int := 3
  const StrategySettlement: int := 4
  const Postlude: int := 5

  /** The health that ends the match. */
  const WinningHP: int := 20

  /** The cooldown of the usable ability: -1 until it is granted, 10 when it
      is ready, 0 just after use, 5 half-way back. */
  const NotGranted: int := -1
  const Ready: int := 10

  datatype State = State(
    phase: int,
    playerCat: Option<Catalog.Cat>,
    playerHP: int,
    abilities: seq<Catalog.Ability>,
    cooldown: int,
    hand: seq<Catalog.ChanceCard>,
    opponentCat: Option<Catalog.Cat>,
    opponentHP: int,
    abilityDescription: string,
    strategyDescription: string,
    chanceCardDescription: string,
    selectedCatID: Option<int>,
    selectedMoveID: int,
    selectedChanceCardID: int)

  /** The screen as it loads: before the game, nothing chosen. */
  const Initial: State := State(BeforeGame, None, 0, [], NotGranted, [], None, 0, "", "", "", None, -1, -1)

  /** The alerts the screen raises; the text beyond what is kept here is
      presentation. */
  datatype Notice =
    | PhaseStarts(phase: int)
    | YouLose
    | YouWin
    | WrongPhase
    | PassiveAbility
    | OnCooldown
    | CatSelected(catTitle: string)
    | CatSelectFailed(catTitle: string)
    | AbilityUsed
    | MoveSelected(move: string)
    | ChanceSelected(chanceTitle: string)
    | OpponentMove(move: string)
    | OpponentChance(chanceTitle: string)

  /** One step's outcome: the next state, the requests sent, the alerts shown. */
  datatype Effect = Effect(state: State, sent: seq<Codec.Request>, notices: seq<Notice>)

  function Unchanged(s: State): Effect {
    Effect(s, [], [])
  }

  // ---------------------------------------------------------------------------
  // Strategy label

  /** `updateStrategyLabel`, as written: the separator before the chance card
      is decided by the strategy text alone. */
  function StrategyLabelAsWritten(ability: string, strategy: string, chance: string): string {
    var t1 := if ability != "" then ability else "";
    var t2 := if strategy != "" then t1 + (if ability != "" then " + " else "") + strategy else t1;
    var t3 := if chance != "" then t2 + (if strategy != "" then " + " else "") + chance else t2;
    if t3 == "" then "No strategy" else t3
  }

  /** The label with the separator placed whenever text precedes the chance
      card. */
  function StrategyLabel(ability: string, strategy: string, chance: string): string {
    var t1 := if ability != "" then ability else "";
    var t2 := if strategy != "" then t1 + (if t1 != "" then " + " else "") + strategy else t1;
    var t3 := if chance != "" then t2 + (if t2 != "" then " + " else "") + chance else t2;
    if t3 == "" then "No strategy" else t3
  }

  function NonEmpty(parts: seq<string>): (r: seq<string>)
    ensures |r| <= |parts|
    ensures forall i :: 0 <= i < |r| ==> r[i] != ""
  {
    if parts == [] then []
    else if parts[0] == "" then NonEmpty(parts[1..])
    else [parts[0]] + NonEmpty(parts[1..])
  }

  /** The parts in order with `sep` between neighbours. */
  function Join(parts: seq<string>, sep: string): string {
    if parts == [] then ""
    else if |parts| == 1 then parts[0]
    else parts[0] + sep + Join(parts[1..], sep)
  }

  // ---------------------------------------------------------------------------
  // The phase machine

  predicate Loses(s: State) {
    s.playerHP == 0 || s.opponentHP == WinningHP
  }

  predicate Wins(s: State) {
    s.playerHP == WinningHP || s.opponentHP == 0
  }

  /** The staged recharge at the postlude boundary: 0 and 5 each move up by
      5; any other value (not granted, ready) stays. */
  function NextCooldown(c: int): (r: int)
    ensures c == 0 ==> r == 5
    ensures c == 5 ==> r == Ready
    ensures c != 0 && c != 5 ==> r == c
  {
    if c == 0 || c == 5 then c + 5 else c
  }

  /** `startNextPhase`. The loss alert comes first and does not stop the
      step; a win stops it with nothing changed. Otherwise postlude wraps to
      prelude, recharging the cooldown and clearing the round's descriptions,
      and any other phase moves one on. */
  function StartNextPhase(s: State): (r: (State, seq<Notice>))
    ensures Loses(s) ==> |r.1| >= 1 && r.1[0] == YouLose
    ensures !Loses(s) && Wins(s) ==> r.1 == [YouWin]
    ensures Loses(s) && Wins(s) ==> r.1 == [YouLose, YouWin]
    ensures Loses(s) && !Wins(s) ==> r.1 == [YouLose, PhaseStarts(r.0.phase)]
    ensures !Loses(s) && !Wins(s) ==> r.1 == [PhaseStarts(r.0.phase)]
    ensures Wins(s) ==> r.0 == s
    ensures !Wins(s) ==> r.0.phase == (if s.phase == Postlude then Prelude else s.phase + 1)
    ensures !Wins(s) ==> |r.1| >= 1 && r.1[|r.1| - 1] == PhaseStarts(r.0.phase)
    ensures !Wins(s) ==> r.0.cooldown == (if s.phase == Postlude then NextCooldown(s.cooldown) else s.cooldown)
    ensures !Wins(s) && s.phase == Postlude ==>
      r.0.abilityDescription == "" && r.0.strategyDescription == "" && r.0.chanceCardDescription == ""
    ensures !Wins(s) && s.phase != Postlude ==>
      && r.0.abilityDescription == s.abilityDescription
      && r.0.strategyDescription == s.strategyDescription
      && r.0.chanceCardDescription == s.chanceCardDescription
    ensures !Wins(s) ==> r.0 == s.(phase := r.0.phase, cooldown := r.0.cooldown,
      abilityDescription := r.0.abilityDescription, strategyDescription := r.0.strategyDescription,
      chanceCardDescription := r.0.chanceCardDescription)
    ensures r.0.playerHP == s.playerHP && r.0.opponentHP == s.opponentHP
  {
    var lost: seq<Notice> := if Loses(s) then [YouLose] else [];
    if Wins(s) then (s, lost + [YouWin])
    else if s.phase == Postlude then
      (s.(phase := Prelude, cooldown := NextCooldown(s.cooldown),
          abilityDescription := "", strategyDescription := "", chanceCardDescription := ""),
       lost + [PhaseStarts(Prelude)])
    else
      (s.(phase := s.phase + 1), lost + [PhaseStarts(s.phase + 1)])
  }

  // ---------------------------------------------------------------------------
  // What the player does

  /** `tableView(_:didHighlightRowAt:)` on the cat table: remember the cat. */
  function CatRowHighlighted(s: State, row: int): (r: Result<Effect>)
    ensures r.Trap? <==> !(0 <= row < |Catalog.Cats|)
    ensures r.Ok? ==> r.value == Unchanged(s.(selectedCatID := Some(row)))
  {
    match Catalog.CatOf(row)
    case Trap(f) => Trap(f)
    case Ok(cat) => Ok(Unchanged(s.(selectedCatID := Some(cat.catID))))
  }

  /** `fight`: ask for the remembered cat, if there is one. */
  function FightPressed(s: State): (r: Effect)
    ensures r.state == s
    ensures r.sent == if s.selectedCatID.Some? then [Codec.SelectCat(s.selectedCatID.value)] else []
  {
    match s.selectedCatID
    case None => Unchanged(s)
    case Some(id) => Effect(s, [Codec.SelectCat(id)], [])
  }

  /** `basicMoveButtenPressed`: a move may be chosen only while strategies
      are enacted, and the move chosen is remembered for the reply. */
  function MovePressed(s: State, tag: int): (r: Effect)
    ensures s.phase == EnactingStrategies ==> r == Effect(s.(selectedMoveID := tag), [Codec.SelectMove(tag)], [])
    ensures s.phase != EnactingStrategies ==> r == Effect(s, [], [WrongPhase])
  {
    if s.phase == EnactingStrategies then Effect(s.(selectedMoveID := tag), [Codec.SelectMove(tag)], [])
    else Effect(s, [], [WrongPhase])
  }

  /** `basicMoveButtenPressed` as written: the tag lands in a local constant
      that shadows the property, so the property keeps its old value. */
  function MovePressedAsWritten(s: State, tag: int): (r: Effect)
    ensures r.state == s
    ensures r.sent == if s.phase == EnactingStrategies then [Codec.SelectMove(tag)] else []
  {
    if s.phase == EnactingStrategies then Effect(s, [Codec.SelectMove(tag)], [])
    else Effect(s, [], [WrongPhase])
  }

  /** `abilityButtonPressed`: the ability in the tapped slot is used only if
      it is critical hit, its phase is now, and the cooldown is ready; the
      cooldown then drops to 0 at once. Every refusal leaves the state as it
      was and says why. */
  function AbilityPressed(s: State, tag: int): (r: Result<Effect>)
    ensures r.Trap? <==> !(0 <= tag < |s.abilities|)
    ensures r.Ok? ==>
      var a := s.abilities[tag];
      (r.value.sent != [] <==> Catalog.IsActive(a) && a.phase == s.phase && s.cooldown == Ready)
    ensures r.Ok? && r.value.sent != [] ==>
      r.value.sent == [Codec.UseAbility(Catalog.CriticalHitID)] && r.value.state == s.(cooldown := 0)
    ensures r.Ok? && r.value.sent == [] ==>
      r.value.state == s && |r.value.notices| == 1 && r.value.notices[0] in {PassiveAbility, WrongPhase, OnCooldown}
  {
    if !(0 <= tag < |s.abilities|) then Trap(IndexOutOfRange)
    else
      var ability := s.abilities[tag];
      if !Catalog.IsActive(ability) then Ok(Effect(s, [], [PassiveAbility]))
      else if ability.phase != s.phase then Ok(Effect(s, [], [WrongPhase]))
      else if s.cooldown == Ready then Ok(Effect(s.(cooldown := 0), [Codec.UseAbility(ability.id)], []))
      else Ok(Effect(s, [], [OnCooldown]))
  }

  /** `collectionView(_:didHighlightItemAt:)`: a chance card may be played
      only while strategies are enacted; its id is remembered for the reply. */
  function ChanceCardHighlighted(s: State, row: int): (r: Result<Effect>)
    ensures r.Trap? <==> s.phase == EnactingStrategies && !(0 <= row < |s.hand|)
    ensures r.Ok? && s.phase == EnactingStrategies ==>
      var id := s.hand[row].id;
      r.value == Effect(s.(selectedChanceCardID := id), [Codec.SelectChanceCard(id)], [])
    ensures s.phase != EnactingStrategies ==> r == Ok(Effect(s, [], [WrongPhase]))
  {
    if s.phase == EnactingStrategies then
      if 0 <= row < |s.hand| then
        var id := s.hand[row].id;
        Ok(Effect(s.(selectedChanceCardID := id), [Codec.SelectChanceCard(id)], []))
      else Trap(IndexOutOfRange)
    else Ok(Effect(s, [], [WrongPhase]))
  }

  // ---------------------------------------------------------------------------
  // The dispatcher's handlers

  /** A select-cat reply: size 1 means the remembered cat is the player's;
      its inborn ability joins the list, its health becomes the player's,
      and a ready request goes out. Any other size changes nothing. Both
      branches force-unwrap the remembered cat. */
  function SelectCatReply(s: State, bodySize: nat): (r: Result<Effect>)
    ensures r.Trap? <==> s.selectedCatID.None? || !(0 <= s.selectedCatID.value < |Catalog.Cats|)
    ensures r.Ok? && bodySize == 1 ==>
      var cat := Catalog.Cats[s.selectedCatID.value];
      && r.value.state == s.(playerCat := Some(cat), abilities := s.abilities + [Catalog.Abilities[cat.inbornAbilityID]],
                             playerHP := cat.health)
      && r.value.sent == [Codec.Ready]
    ensures r.Ok? && bodySize != 1 ==> r.value.state == s && r.value.sent == []
  {
    if s.selectedCatID.None? then Trap(NilUnwrap)
    else
      match Catalog.CatOf(s.selectedCatID.value)
      case Trap(f) => Trap(f)
      case Ok(cat) =>
        if bodySize == 1 then
          match Catalog.AbilityOf(cat.inbornAbilityID)
          case Trap(f) => Trap(f)
          case Ok(inborn) =>
            Ok(Effect(s.(playerCat := Some(cat), abilities := s.abilities + [inborn], playerHP := cat.health),
                      [Codec.Ready], [CatSelected(cat.title)]))
        else Ok(Effect(s, [], [CatSelectFailed(cat.title)]))
  }

  /** The opponent's cat: it and its health become the opponent's. */
  function OpponentCatReveal(s: State, id: int): (r: Result<Effect>)
    ensures r.Trap? <==> !(0 <= id < |Catalog.Cats|)
    ensures r.Ok? ==>
      r.value == Unchanged(s.(opponentCat := Some(Catalog.Cats[id]), opponentHP := Catalog.Cats[id].health))
  {
    match Catalog.CatOf(id)
    case Trap(f) => Trap(f)
    case Ok(cat) => Ok(Unchanged(s.(opponentCat := Some(cat), opponentHP := cat.health)))
  }

  /** The random ability: it joins the list, and if the list's second entry
      is critical hit the cooldown becomes ready. The second entry is read
      unconditionally, so a grant before any cat traps. */
  function RandomAbilityGrant(s: State, id: int): (r: Result<Effect>)
    ensures r.Trap? <==> !(0 <= id < |Catalog.Abilities|) || s.abilities == []
    ensures r.Ok? ==>
      var abilities := s.abilities + [Catalog.Abilities[id]];
      r.value == Unchanged(s.(abilities := abilities,
                              cooldown := if Catalog.IsActive(abilities[1]) then Ready else s.cooldown))
  {
    match Catalog.AbilityOf(id)
    case Trap(f) => Trap(f)
    case Ok(ability) =>
      var abilities := s.abilities + [ability];
      if |abilities| < 2 then Trap(IndexOutOfRange)
      else Ok(Unchanged(s.(abilities := abilities,
                           cooldown := if Catalog.IsActive(abilities[1]) then Ready else s.cooldown)))
  }

  /** The catalog cards named by a run of ids, in order; an unknown id traps. */
  function CardsOf(ids: Bytes): (r: Result<seq<Catalog.ChanceCard>>)
    ensures r.Trap? <==> exists i :: 0 <= i < |ids| && ids[i] >= |Catalog.ChanceCards|
    ensures r.Ok? ==> |r.value| == |ids| && forall i :: 0 <= i < |ids| ==> r.value[i] == Catalog.ChanceCards[ids[i]]
  {
    if ids == [] then Ok([])
    else
      match Catalog.ChanceCardOf(ids[0])
      case Trap(f) => Trap(f)
      case Ok(card) =>
        match CardsOf(ids[1..])
        case Trap(f) =>
          assert exists i :: 0 <= i < |ids[1..]| && ids[1..][i] >= |Catalog.ChanceCards|;
          Trap(f)
        case Ok(rest) =>
          assert forall i :: 1 <= i < |ids| ==> ids[i] == ids[1..][i - 1];
          Ok([card] + rest)
  }

  /** A batch of chance cards replaces the hand. */
  function GainChances(s: State, ids: Bytes): (r: Result<Effect>)
    ensures r.Trap? <==> exists i :: 0 <= i < |ids| && ids[i] >= |Catalog.ChanceCards|
    ensures r.Ok? ==> r.value.state == s.(hand := r.value.state.hand) && r.value.sent == []
    ensures r.Ok? ==> (|r.value.state.hand| == |ids| &&
      forall i :: 0 <= i < |ids| ==> r.value.state.hand[i] == Catalog.ChanceCards[ids[i]])
  {
    match CardsOf(ids)
    case Trap(f) => Trap(f)
    case Ok(cards) => Ok(Unchanged(s.(hand := cards)))
  }

  /** The gain-chances loop as written: the hand is emptied inside the loop,
      once per id, before that id's card is added. */
  function GainChancesAsWritten(hand: seq<Catalog.ChanceCard>, ids: Bytes): (r: Result<seq<Catalog.ChanceCard>>)
    decreases |ids|
    ensures r.Trap? <==> exists i :: 0 <= i < |ids| && ids[i] >= |Catalog.ChanceCards|
    ensures r.Ok? && ids == [] ==> r.value == hand
    ensures r.Ok? && ids != [] ==> r.value == [Catalog.ChanceCards[ids[|ids| - 1]]]
  {
    if ids == [] then Ok(hand)
    else
      match Catalog.ChanceCardOf(ids[0])
      case Trap(f) => Trap(f)
      case Ok(card) =>
        var r := GainChancesAsWritten([card], ids[1..]);
        assert r.Trap? ==> exists i :: 0 <= i < |ids[1..]| && ids[1..][i] >= |Catalog.ChanceCards|;
        assert forall i :: 1 <= i < |ids| ==> ids[i] == ids[1..][i - 1];
        r
  }

  /** A move reply: 1 confirms the remembered move, which becomes the
      strategy text; 0 and anything else change nothing. */
  function SelectMoveReply(s: State, answer: int): (r: Effect)
    ensures answer == 1 ==>
      var move := Catalog.MoveToString(s.selectedMoveID);
      r == Effect(s.(strategyDescription := move), [], [MoveSelected(move)])
    ensures answer != 1 ==> r == Unchanged(s)
  {
    if answer == 1 then
      var move := Catalog.MoveToString(s.selectedMoveID);
      Effect(s.(strategyDescription := move), [], [MoveSelected(move)])
    else Unchanged(s)
  }

  /** Where the first card with the given id sits, or the hand's length when
      there is none (the Swift loop's index after a full pass). */
  function FirstIndexOf(hand: seq<Catalog.ChanceCard>, id: int): (i: nat)
    ensures i <= |hand|
    ensures i < |hand| ==> hand[i].id == id
    ensures forall j :: 0 <= j < i ==> hand[j].id != id
  {
    if hand == [] then 0
    else if hand[0].id == id then 0
    else 1 + FirstIndexOf(hand[1..], id)
  }

  /** `remove(at:)` of the first card with the id: traps when none has it. */
  function RemoveFirst(hand: seq<Catalog.ChanceCard>, id: int): (r: Result<seq<Catalog.ChanceCard>>)
    ensures r.Trap? <==> forall j :: 0 <= j < |hand| ==> hand[j].id != id
    ensures r.Ok? ==>
      var i := FirstIndexOf(hand, id);
      && i < |hand| && hand[i].id == id
      && r.value == hand[..i] + hand[i + 1..]
      && multiset(r.value) + multiset{hand[i]} == multiset(hand)
  {
    var i := FirstIndexOf(hand, id);
    if i < |hand| then
      assert hand == hand[..i] + [hand[i]] + hand[i + 1..];
      Ok(hand[..i] + hand[i + 1..])
    else Trap(IndexOutOfRange)
  }

  /** A chance reply: 1 confirms the remembered card, whose title becomes
      the chance text and whose first copy leaves the hand. */
  function SelectChanceReply(s: State, answer: int): (r: Result<Effect>)
    ensures r.Trap? <==> (answer == 1 &&
      (!(0 <= s.selectedChanceCardID < |Catalog.ChanceCards|) ||
       forall j :: 0 <= j < |s.hand| ==> s.hand[j].id != s.selectedChanceCardID))
    ensures r.Ok? && answer == 1 ==>
      var i := FirstIndexOf(s.hand, s.selectedChanceCardID);
      && i < |s.hand|
      && r.value.state == s.(chanceCardDescription := Catalog.ChanceCards[s.selectedChanceCardID].title,
                             hand := s.hand[..i] + s.hand[i + 1..])
      && r.value.sent == []
    ensures answer != 1 ==> r == Ok(Unchanged(s))
  {
    if answer != 1 then Ok(Unchanged(s))
    else
      match Catalog.ChanceCardOf(s.selectedChanceCardID)
      case Trap(f) => Trap(f)
      case Ok(card) =>
        match RemoveFirst(s.hand, s.selectedChanceCardID)
        case Trap(f) => Trap(f)
        case Ok(hand) =>
          Ok(Effect(s.(chanceCardDescription := card.title, hand := hand), [], [ChanceSelected(card.title)]))
  }

  /** The opponent's chance card, shown by title; an unknown id traps. */
  function RevealChance(s: State, id: int): (r: Result<Effect>)
    ensures r.Trap? <==> !(0 <= id < |Catalog.ChanceCards|)
    ensures r.Ok? ==> r.value == Effect(s, [], [OpponentChance(Catalog.ChanceCards[id].title)])
  {
    match Catalog.ChanceCardOf(id)
    case Trap(f) => Trap(f)
    case Ok(card) => Ok(Effect(s, [], [OpponentChance(card.title)]))
  }

  /** The first byte of a body, when there is one. */
  function FirstByte(body: Option<Bytes>): (r: Option<byte>)
    ensures r.Some? <==> body.Some? && |body.value| > 0
    ensures r.Some? ==> r.value == body.value[0]
  {
    if body.Some? && |body.value| > 0 then Some(body.value[0]) else None
  }

  /** The flags the dispatcher has a case for. */
  const Handled: set<byte> := {
    Flags.SelectCat, Flags.NextPhase, Flags.OpponentCat, Flags.RandomAbility, Flags.GainChances,
    Flags.UseAbility, Flags.SelectMove, Flags.SelectChance, Flags.RevealMove, Flags.RevealChance,
    Flags.PlayerGainHP, Flags.OpponentGainHP
  }

  /** `parseGameServerResponse`, with the body taken from the frame: each
      flag's handler, every body-carrying one skipped when the body is nil or
      empty, and unknown flags ignored. */
  function Dispatch(s: State, frame: Connection.Delivered): (r: Result<Effect>)
    ensures frame.flag == Flags.SelectCat ==> r == SelectCatReply(s, frame.bodySize)
    ensures frame.flag == Flags.NextPhase ==> r == Ok(Effect(StartNextPhase(s).0, [], StartNextPhase(s).1))
    ensures frame.flag == Flags.OpponentCat && FirstByte(frame.body).Some? ==>
      r == OpponentCatReveal(s, frame.body.value[0])
    ensures frame.flag == Flags.RandomAbility && FirstByte(frame.body).Some? ==>
      r == RandomAbilityGrant(s, frame.body.value[0])
    ensures frame.flag == Flags.GainChances && FirstByte(frame.body).Some? ==>
      r == GainChances(s, frame.body.value)
    ensures frame.flag == Flags.UseAbility && FirstByte(frame.body).Some? ==>
      r == Ok(Effect(s, [], if frame.body.value[0] == 1 then [AbilityUsed] else []))
    ensures frame.flag == Flags.SelectMove && FirstByte(frame.body).Some? ==>
      r == Ok(SelectMoveReply(s, frame.body.value[0]))
    ensures frame.flag == Flags.SelectChance && FirstByte(frame.body).Some? ==>
      r == SelectChanceReply(s, frame.body.value[0])
    ensures frame.flag == Flags.RevealMove && FirstByte(frame.body).Some? ==>
      r == Ok(Effect(s, [], [OpponentMove(Catalog.MoveIDToString(frame.body.value[0]))]))
    ensures frame.flag == Flags.RevealChance && FirstByte(frame.body).Some? ==>
      r == RevealChance(s, frame.body.value[0])
    ensures frame.flag !in Handled ==> r == Ok(Unchanged(s))
    ensures frame.flag == Flags.PlayerGainHP && FirstByte(frame.body).Some? ==>
      r == Ok(Unchanged(s.(playerHP := frame.body.value[0] as int)))
    ensures frame.flag == Flags.OpponentGainHP && FirstByte(frame.body).Some? ==>
      r == Ok(Unchanged(s.(opponentHP := frame.body.value[0] as int)))
    ensures frame.flag != Flags.SelectCat && frame.flag != Flags.NextPhase && FirstByte(frame.body).None? ==>
      r == Ok(Unchanged(s))
    ensures r.Ok? ==> r.value.state.phase == s.phase || frame.flag == Flags.NextPhase
    ensures r.Ok? && r.value.sent != [] ==> frame.flag == Flags.SelectCat && r.value.sent == [Codec.Ready]
  {
    var flag := frame.flag;
    var arg := FirstByte(frame.body);
    if flag == Flags.SelectCat then SelectCatReply(s, frame.bodySize)
    else if flag == Flags.NextPhase then
      var (next, notices) := StartNextPhase(s);
      Ok(Effect(next, [], notices))
    else if arg.None? then Ok(Unchanged(s))
    else if flag == Flags.OpponentCat then OpponentCatReveal(s, arg.value)
    else if flag == Flags.RandomAbility then RandomAbilityGrant(s, arg.value)
    else if flag == Flags.GainChances then GainChances(s, frame.body.value)
    else if flag == Flags.UseAbility then
      Ok(Effect(s, [], if arg.value == 1 then [AbilityUsed] else []))
    else if flag == Flags.SelectMove then Ok(SelectMoveReply(s, arg.value))
    else if flag == Flags.SelectChance then SelectChanceReply(s, arg.value)
    else if flag == Flags.RevealMove then
      Ok(Effect(s, [], [OpponentMove(Catalog.MoveIDToString(arg.value))]))
    else if flag == Flags.RevealChance then RevealChance(s, arg.value)
    else if flag == Flags.PlayerGainHP then Ok(Unchanged(s.(playerHP := arg.value)))
    else if flag == Flags.OpponentGainHP then Ok(Unchanged(s.(opponentHP := arg.value)))
    else Ok(Unchanged(s))
  }

  /** The dispatcher as written: it looks the body up under the size's key,
      and a size is never a byte array, so every frame arrives bodiless. */
  function DispatchAsWritten(s: State, frame: Connection.Delivered): (r: Result<Effect>)
    ensures frame.flag != Flags.SelectCat && frame.flag != Flags.NextPhase ==> r == Ok(Unchanged(s))
  {
    Dispatch(s, Connection.Delivered(frame.flag, frame.bodySize, None))
  }

  // ---------------------------------------------------------------------------
  // One step

  datatype Event =
    | Received(frame: Connection.Delivered)
    | CatRowTapped(row: int)
    | FightTapped
    | MoveTapped(tag: int)
    | AbilityTapped(tag: int)
    | ChanceCardTapped(row: int)
    | ReadyTapped

  function Step(s: State, e: Event): Result<Effect> {
    match e
    case Received(frame) => Dispatch(s, frame)
    case CatRowTapped(row) => CatRowHighlighted(s, row)
    case FightTapped => Ok(FightPressed(s))
    case MoveTapped(tag) => Ok(MovePressed(s, tag))
    case AbilityTapped(tag) => AbilityPressed(s, tag)
    case ChanceCardTapped(row) => ChanceCardHighlighted(s, row)
    case ReadyTapped => Ok(Effect(s, [Codec.Ready], []))
  }

  /** A run of events from a state: the final state, and everything sent and
      shown on the way, or the first trap. */
  function Run(s: State, events: seq<Event>): Result<Effect>
    decreases |events|
  {
    if events == [] then Ok(Unchanged(s))
    else
      match Step(s, events[0])
      case Trap(f) => Trap(f)
      case Ok(first) =>
        match Run(first.state, events[1..])
        case Trap(f) => Trap(f)
        case Ok(rest) => Ok(Effect(rest.state, first.sent + rest.sent, first.notices + rest.notices))
  }
}
