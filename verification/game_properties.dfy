/** What holds of the game screen over any run of events: the invariant
    every step keeps, the phase cycle, where the cooldown may change, the
    strategy label, and the defects of the code as written next to the
    behaviour the model uses instead. */
module GameProperties {
  import opened Basics
  import Flags
  import Catalog
  import Codec
  import Connection
  import opened Game

  const MoveNames: set<string> := {"Purr", "Guard", "Scratch", "Unknown"}

  const ChanceTitles: set<string> := set c | c in Catalog.ChanceCards :: c.title

  /** The invariant: the phase is one of the six, the cooldown one of its
      four stages, the descriptions are texts the screen can produce, every
      card comes from the catalog, every HP is a byte's worth, and every
      remembered id names a catalog entry (or nothing yet). */
  predicate Valid(s: State) {
    && BeforeGame <= s.phase <= Postlude
    && s.cooldown in {NotGranted, 0, 5, Ready}
    && s.abilityDescription == ""
    && (s.strategyDescription == "" || s.strategyDescription in MoveNames)
    && (s.chanceCardDescription == "" || s.chanceCardDescription in ChanceTitles)
    && (forall i :: 0 <= i < |s.hand| ==> s.hand[i] in Catalog.ChanceCards)
    && (forall i :: 0 <= i < |s.abilities| ==> s.abilities[i] in Catalog.Abilities)
    && (s.playerCat.Some? ==> s.playerCat.value in Catalog.Cats)
    && (s.opponentCat.Some? ==> s.opponentCat.value in Catalog.Cats)
    && 0 <= s.playerHP < 256 && 0 <= s.opponentHP < 256
    && (s.selectedCatID.Some? ==> 0 <= s.selectedCatID.value < |Catalog.Cats|)
    && -1 <= s.selectedChanceCardID < |Catalog.ChanceCards|
  }

  lemma InitialValid()
    ensures Valid(Initial)
  {
  }

  lemma SelectCatKeepsValid(s: State, bodySize: nat)
    requires Valid(s) && SelectCatReply(s, bodySize).Ok?
    ensures Valid(SelectCatReply(s, bodySize).value.state)
  {
    var s' := SelectCatReply(s, bodySize).value.state;
    if bodySize == 1 {
      var cat := Catalog.Cats[s.selectedCatID.value];
      assert s'.abilities == s.abilities + [Catalog.Abilities[cat.inbornAbilityID]];
      forall i | 0 <= i < |s'.abilities| ensures s'.abilities[i] in Catalog.Abilities {
        if i < |s.abilities| { assert s'.abilities[i] == s.abilities[i]; }
      }
    }
  }

  lemma RandomAbilityKeepsValid(s: State, id: int)
    requires Valid(s) && RandomAbilityGrant(s, id).Ok?
    ensures Valid(RandomAbilityGrant(s, id).value.state)
  {
    var s' := RandomAbilityGrant(s, id).value.state;
    assert s'.abilities == s.abilities + [Catalog.Abilities[id]];
    forall i | 0 <= i < |s'.abilities| ensures s'.abilities[i] in Catalog.Abilities {
      if i < |s.abilities| { assert s'.abilities[i] == s.abilities[i]; }
    }
  }

  lemma GainChancesKeepsValid(s: State, ids: Bytes)
    requires Valid(s) && GainChances(s, ids).Ok?
    ensures Valid(GainChances(s, ids).value.state)
  {
    var s' := GainChances(s, ids).value.state;
    forall i | 0 <= i < |s'.hand| ensures s'.hand[i] in Catalog.ChanceCards {
      assert s'.hand[i] == Catalog.ChanceCards[ids[i]];
    }
  }

  lemma SelectChanceKeepsValid(s: State, answer: int)
    requires Valid(s) && SelectChanceReply(s, answer).Ok?
    ensures Valid(SelectChanceReply(s, answer).value.state)
  {
    if answer == 1 {
      var id := s.selectedChanceCardID;
      var i := FirstIndexOf(s.hand, id);
      var hand := s.hand[..i] + s.hand[i + 1..];
      RemovedKeepsCatalog(s.hand, i);
      TitleKnown(id);
      assert SelectChanceReply(s, answer).value.state ==
        s.(chanceCardDescription := Catalog.ChanceCards[id].title, hand := hand);
    }
  }

  /** Taking one card out of a hand of catalog cards leaves catalog cards. */
  lemma RemovedKeepsCatalog(hand: seq<Catalog.ChanceCard>, i: nat)
    requires i < |hand|
    requires forall j :: 0 <= j < |hand| ==> hand[j] in Catalog.ChanceCards
    ensures var rest := hand[..i] + hand[i + 1..];
      forall j :: 0 <= j < |rest| ==> rest[j] in Catalog.ChanceCards
  {
    var rest := hand[..i] + hand[i + 1..];
    forall j | 0 <= j < |rest| ensures rest[j] in Catalog.ChanceCards {
      if j < i { assert rest[j] == hand[j]; } else { assert rest[j] == hand[j + 1]; }
    }
  }

  lemma TitleKnown(id: int)
    requires 0 <= id < |Catalog.ChanceCards|
    ensures Catalog.ChanceCards[id].title in ChanceTitles
  {
    assert Catalog.ChanceCards[id] in Catalog.ChanceCards;
  }

  lemma NextPhaseKeepsValid(s: State)
    requires Valid(s)
    ensures Valid(StartNextPhase(s).0)
  {
  }

  /** The frames whose handler reads the body's first byte and changes
      more than the alerts. */
  lemma BodyFrameKeepsValid(s: State, frame: Connection.Delivered)
    requires Valid(s) && Dispatch(s, frame).Ok?
    requires frame.flag != Flags.SelectCat && frame.flag != Flags.NextPhase && FirstByte(frame.body).Some?
    requires frame.flag in {Flags.OpponentCat, Flags.RandomAbility, Flags.GainChances, Flags.SelectChance}
    ensures Valid(Dispatch(s, frame).value.state)
  {
    var flag := frame.flag;
    var arg := frame.body.value[0];
    if flag == Flags.OpponentCat {
      assert Catalog.Cats[arg] in Catalog.Cats;
    } else if flag == Flags.RandomAbility {
      RandomAbilityKeepsValid(s, arg);
    } else if flag == Flags.GainChances {
      GainChancesKeepsValid(s, frame.body.value);
    } else {
      SelectChanceKeepsValid(s, arg);
    }
  }

  /** Every name the player's move can be given is a known move name. */
  lemma MoveNameKnown(move: int)
    ensures Catalog.MoveToString(move) in MoveNames
  {
  }

  /** The remaining frames change at most the strategy text or an HP. */
  lemma OtherFrameState(s: State, frame: Connection.Delivered)
    requires Dispatch(s, frame).Ok?
    requires frame.flag != Flags.SelectCat && frame.flag != Flags.NextPhase
    requires frame.flag !in {Flags.OpponentCat, Flags.RandomAbility, Flags.GainChances, Flags.SelectChance}
    ensures var t := Dispatch(s, frame).value.state;
      && t == s.(strategyDescription := t.strategyDescription, playerHP := t.playerHP, opponentHP := t.opponentHP)
      && (t.strategyDescription == s.strategyDescription || t.strategyDescription == Catalog.MoveToString(s.selectedMoveID))
      && (t.playerHP == s.playerHP || 0 <= t.playerHP < 256)
      && (t.opponentHP == s.opponentHP || 0 <= t.opponentHP < 256)
  {
    var flag := frame.flag;
    var arg := FirstByte(frame.body);
    if arg.Some? {
      if flag == Flags.SelectMove {
        assert Dispatch(s, frame) == Ok(SelectMoveReply(s, arg.value));
      } else if flag == Flags.RevealChance {
        assert Dispatch(s, frame) == RevealChance(s, arg.value);
      }
    }
  }

  lemma OtherFrameKeepsValid(s: State, frame: Connection.Delivered)
    requires Valid(s) && Dispatch(s, frame).Ok?
    requires frame.flag != Flags.SelectCat && frame.flag != Flags.NextPhase
    requires frame.flag !in {Flags.OpponentCat, Flags.RandomAbility, Flags.GainChances, Flags.SelectChance}
    ensures Valid(Dispatch(s, frame).value.state)
  {
    OtherFrameState(s, frame);
    MoveNameKnown(s.selectedMoveID);
  }

  /** Every frame the dispatcher accepts keeps the invariant. */
  lemma DispatchKeepsValid(s: State, frame: Connection.Delivered)
    requires Valid(s) && Dispatch(s, frame).Ok?
    ensures Valid(Dispatch(s, frame).value.state)
  {
    var flag := frame.flag;
    if flag == Flags.SelectCat {
      SelectCatKeepsValid(s, frame.bodySize);
    } else if flag == Flags.NextPhase {
      NextPhaseKeepsValid(s);
    } else if flag in {Flags.OpponentCat, Flags.RandomAbility, Flags.GainChances, Flags.SelectChance} {
      if FirstByte(frame.body).Some? {
        BodyFrameKeepsValid(s, frame);
      }
    } else {
      OtherFrameKeepsValid(s, frame);
    }
  }

  /** Every step that does not trap keeps the invariant. */
  lemma StepKeepsValid(s: State, e: Event)
    requires Valid(s) && Step(s, e).Ok?
    ensures Valid(Step(s, e).value.state)
  {
    if e.Received? {
      assert Step(s, e) == Dispatch(s, e.frame);
      DispatchKeepsValid(s, e.frame);
    } else {
      ActionKeepsValid(s, e);
    }
  }

  /** The player's own actions keep the invariant. */
  lemma ActionKeepsValid(s: State, e: Event)
    requires Valid(s) && !e.Received? && Step(s, e).Ok?
    ensures Valid(Step(s, e).value.state)
  {
    match e
    case CatRowTapped(row) =>
      assert Step(s, e) == CatRowHighlighted(s, row);
    case FightTapped =>
      assert Step(s, e) == Ok(FightPressed(s));
    case MoveTapped(tag) =>
      assert Step(s, e) == Ok(MovePressed(s, tag));
    case AbilityTapped(tag) =>
      AbilityKeepsValid(s, tag);
    case ChanceCardTapped(row) =>
      ChanceTapKeepsValid(s, row);
    case ReadyTapped =>
  }

  lemma AbilityKeepsValid(s: State, tag: int)
    requires Valid(s) && AbilityPressed(s, tag).Ok?
    ensures Valid(AbilityPressed(s, tag).value.state)
  {
    var s' := AbilityPressed(s, tag).value.state;
    assert s' == s || s' == s.(cooldown := 0);
  }

  lemma ChanceTapKeepsValid(s: State, row: int)
    requires Valid(s) && ChanceCardHighlighted(s, row).Ok?
    ensures Valid(ChanceCardHighlighted(s, row).value.state)
  {
    if s.phase == EnactingStrategies {
      assert s.hand[row] in Catalog.ChanceCards;
    }
  }

  /** So every run from a valid state, the screen as it loads among them,
      ends in a valid state. */
  lemma {:induction false} RunKeepsValid(s: State, events: seq<Event>)
    requires Valid(s) && Run(s, events).Ok?
    ensures Valid(Run(s, events).value.state)
    decreases |events|
  {
    if events != [] {
      StepKeepsValid(s, events[0]);
      RunKeepsValid(Step(s, events[0]).value.state, events[1..]);
    }
  }

  // ---------------------------------------------------------------------------
  // The phase cycle

  const NextPhaseFrame: Event := Received(Connection.Delivered(Flags.NextPhase, 0, None))

  function NextPhaseFrames(k: nat): (r: seq<Event>)
    ensures |r| == k
  {
    if k == 0 then [] else [NextPhaseFrame] + NextPhaseFrames(k - 1)
  }

  /** The lose alert is shown exactly when the player has lost: an ordinary
      phase change or a plain win never announces a loss. */
  lemma LoseAlertOnlyWhenLosing(s: State)
    ensures YouLose in StartNextPhase(s).1 <==> Loses(s)
  {
  }

  /** Short of a win, k next-phase frames from any in-game phase land on
      prelude plus (phase - prelude + k) mod 5: the phases run prelude to
      postlude and back, and before-game is never seen again. */
  lemma {:induction false} PhaseCycle(s: State, k: nat)
    requires Prelude <= s.phase <= Postlude && !Wins(s)
    ensures Run(s, NextPhaseFrames(k)).Ok?
    ensures Run(s, NextPhaseFrames(k)).value.state.phase == CyclePhase(s.phase, k)
  {
    RunFollowsCycle(s, k);
    PhaseAfterMod(s.phase, k);
  }

  /** The in-game phase k steps from p, by arithmetic: prelude plus
      (p - prelude + k) mod 5. */
  function CyclePhase(p: int, k: nat): int {
    Prelude + (p - Prelude + k) % 5
  }

  /** The phase after the in-game phase p: postlude wraps to prelude. */
  function NextInCycle(p: int): int {
    if p == Postlude then Prelude else p + 1
  }

  /** The in-game phase k steps round the cycle from p. */
  function PhaseAfter(p: int, k: nat): int
    decreases k
  {
    if k == 0 then p else PhaseAfter(NextInCycle(p), k - 1)
  }

  /** Short of a win, k next-phase frames follow the cycle step by step. */
  lemma {:induction false} RunFollowsCycle(s: State, k: nat)
    requires Prelude <= s.phase <= Postlude && !Wins(s)
    ensures Run(s, NextPhaseFrames(k)).Ok?
    ensures Run(s, NextPhaseFrames(k)).value.state.phase == PhaseAfter(s.phase, k)
    decreases k
  {
    if k > 0 {
      var next := NextPhaseOnce(s, k);
      RunFollowsCycle(next, k - 1);
    }
  }

  /** k steps round the cycle, in arithmetic. */
  lemma {:induction false} PhaseAfterMod(p: int, k: nat)
    requires Prelude <= p <= Postlude
    ensures PhaseAfter(p, k) == CyclePhase(p, k)
    decreases k
  {
    if k > 0 {
      PhaseAfterMod(NextInCycle(p), k - 1);
      CycleArith(p, NextInCycle(p), k);
    }
  }

  /** The first of k next-phase frames, short of a win: it moves to the
      cycle's successor, still short of a win, from where the other k - 1
      frames run. */
  lemma NextPhaseOnce(s: State, k: nat) returns (next: State)
    requires Prelude <= s.phase <= Postlude && !Wins(s) && k > 0
    ensures next.phase == NextInCycle(s.phase)
    ensures !Wins(next)
    ensures Run(next, NextPhaseFrames(k - 1)).Ok? ==>
      && Run(s, NextPhaseFrames(k)).Ok?
      && Run(s, NextPhaseFrames(k)).value.state == Run(next, NextPhaseFrames(k - 1)).value.state
  {
    NextPhaseFramesCons(k);
    NextPhaseNoWin(s);
    next := Step(s, NextPhaseFrame).value.state;
    if Run(next, NextPhaseFrames(k - 1)).Ok? {
      RunFirst(s, NextPhaseFrames(k));
    }
  }

  /** k next-phase frames are one such frame followed by k - 1 more. */
  lemma NextPhaseFramesCons(k: nat)
    requires k > 0
    ensures NextPhaseFrames(k)[0] == NextPhaseFrame && NextPhaseFrames(k)[1..] == NextPhaseFrames(k - 1)
  {
  }

  /** Short of a win, a next-phase frame moves to the cycle's successor and
      leaves the game still short of a win. */
  lemma NextPhaseNoWin(s: State)
    requires Prelude <= s.phase <= Postlude && !Wins(s)
    ensures Step(s, NextPhaseFrame).Ok?
    ensures var next := Step(s, NextPhaseFrame).value.state;
      && next.phase == (if s.phase == Postlude then Prelude else s.phase + 1)
      && !Wins(next)
  {
    NextPhaseStep(s);
    var next := StartNextPhase(s).0;
    assert next.playerHP == s.playerHP && next.opponentHP == s.opponentHP;
  }

  /** One step of the cycle in arithmetic: moving to the next phase uses up
      one of the k steps. */
  lemma CycleArith(p: int, q: int, k: nat)
    requires Prelude <= p <= Postlude && k > 0
    requires q == if p == Postlude then Prelude else p + 1
    ensures (q - Prelude + (k - 1)) % 5 == (p - Prelude + k) % 5
  {
    if p == Postlude {
      assert p - Prelude + k == (k - 1) + 5;
    }
  }

  /** A next-phase frame is `startNextPhase`, sending nothing. */
  lemma NextPhaseStep(s: State)
    ensures Step(s, NextPhaseFrame) == Ok(Effect(StartNextPhase(s).0, [], StartNextPhase(s).1))
  {
    assert Step(s, NextPhaseFrame) == Dispatch(s, NextPhaseFrame.frame);
  }

  /** A run that does not trap ends where the run of its tail, from the
      first step's state, ends. */
  lemma RunFirst(s: State, events: seq<Event>)
    requires events != [] && Step(s, events[0]).Ok?
    requires Run(Step(s, events[0]).value.state, events[1..]).Ok?
    ensures Run(s, events).Ok?
    ensures Run(s, events).value.state == Run(Step(s, events[0]).value.state, events[1..]).value.state
  {
  }

  /** A step moves the phase only on a next-phase frame, and then to the
      next phase in the cycle: from an in-game phase it stays in game. */
  lemma StepPhase(s: State, e: Event)
    requires Step(s, e).Ok?
    ensures var p := Step(s, e).value.state.phase;
      p == s.phase || (e.Received? && e.frame.flag == Flags.NextPhase &&
                       p == (if s.phase == Postlude then Prelude else s.phase + 1))
  {
  }

  /** Once the game has started, no run returns to before-game. */
  lemma {:induction false} PhaseNeverReturnsToBeforeGame(s: State, events: seq<Event>)
    requires Prelude <= s.phase <= Postlude && Run(s, events).Ok?
    ensures Prelude <= Run(s, events).value.state.phase <= Postlude
    decreases |events|
  {
    if events != [] {
      StepPhase(s, events[0]);
      PhaseNeverReturnsToBeforeGame(Step(s, events[0]).value.state, events[1..]);
    }
  }

  // ---------------------------------------------------------------------------
  // The cooldown

  /** The cooldown changes at three points only: ready to 0 when the ability
      is used, to ready when critical hit is granted, and 0 to 5 or 5 to 10
      when postlude wraps to prelude. */
  lemma CooldownChangesOnlyAt(s: State, e: Event)
    requires Step(s, e).Ok?
    requires Step(s, e).value.state.cooldown != s.cooldown
    ensures var c := Step(s, e).value.state.cooldown;
      || (e.AbilityTapped? && s.cooldown == Ready && c == 0)
      || (e.Received? && e.frame.flag == Flags.RandomAbility && c == Ready)
      || (e.Received? && e.frame.flag == Flags.NextPhase && s.phase == Postlude &&
          (s.cooldown == 0 || s.cooldown == 5) && c == s.cooldown + 5)
  {
  }

  // ---------------------------------------------------------------------------
  // The strategy label

  /** The label of the current state. */
  function Label(s: State): string {
    StrategyLabel(s.abilityDescription, s.strategyDescription, s.chanceCardDescription)
  }

  /** The label is the non-empty descriptions joined by " + " in the order
      ability, strategy, chance, or "No strategy" when all are empty. */
  lemma StrategyLabelJoinsParts(a: string, st: string, c: string)
    ensures StrategyLabel(a, st, c) ==
      if a == "" && st == "" && c == "" then "No strategy" else Join(NonEmpty([a, st, c]), " + ")
  {
    NonEmptyThree(a, st, c);
    var sep := " + ";
    if a != "" {
      if st != "" {
        if c != "" {
          JoinThree(a, st, c, sep);
          assert StrategyLabel(a, st, c) == a + sep + st + sep + c;
        } else {
          JoinTwo(a, st, sep);
        }
      } else if c != "" {
        JoinTwo(a, c, sep);
      }
    } else if st != "" && c != "" {
      JoinTwo(st, c, sep);
    }
  }

  lemma JoinTwo(x: string, y: string, sep: string)
    ensures Join([x, y], sep) == x + sep + y
  {
    assert [x, y][1..] == [y];
  }

  lemma JoinThree(x: string, y: string, z: string, sep: string)
    ensures Join([x, y, z], sep) == x + sep + y + sep + z
  {
    assert [x, y, z][1..] == [y, z];
    JoinTwo(y, z, sep);
  }

  /** The non-empty parts of three, in order. */
  lemma NonEmptyThree(a: string, st: string, c: string)
    ensures NonEmpty([a, st, c]) ==
      (if a == "" then [] else [a]) + (if st == "" then [] else [st]) + (if c == "" then [] else [c])
  {
    var parts := [a, st, c];
    assert parts[1..] == [st, c] && parts[1..][1..] == [c] && [c][1..] == [];
    var tail2 := NonEmpty([c]);
    var tail1 := NonEmpty([st, c]);
    assert tail2 == if c == "" then [] else [c];
    assert tail1 == if st == "" then tail2 else [st] + tail2;
  }

  /** "No strategy" contains no '+', so a label that joins two parts is not
      it. */
  lemma JoinedIsNotNoStrategy(x: string, rest: string)
    ensures x + " + " + rest != "No strategy"
  {
    var j := x + " + " + rest;
    assert j[|x| + 1] == '+';
    assert forall i :: 0 <= i < |"No strategy"| ==> "No strategy"[i] != '+';
  }

  /** The label reads "No strategy" exactly when nothing has been chosen,
      as long as no description is itself that text. */
  lemma NoStrategyIffNothingChosen(a: string, st: string, c: string)
    requires a != "No strategy" && st != "No strategy" && c != "No strategy"
    ensures StrategyLabel(a, st, c) == "No strategy" <==> a == "" && st == "" && c == ""
  {
    if a != "" && st != "" {
      if c != "" {
        JoinedIsNotNoStrategy(a, st + " + " + c);
        assert a + " + " + st + " + " + c == a + " + " + (st + " + " + c);
      } else {
        JoinedIsNotNoStrategy(a, st);
      }
    } else if a != "" && c != "" {
      JoinedIsNotNoStrategy(a, c);
    } else if st != "" && c != "" {
      JoinedIsNotNoStrategy(st, c);
    }
  }

  /** The written label agrees with the intended one except when there is
      ability and chance text but no strategy text, where the separator
      between them is missing. */
  lemma LabelAsWrittenAgrees(a: string, st: string, c: string)
    ensures StrategyLabelAsWritten(a, st, c) == StrategyLabel(a, st, c) <==> !(a != "" && st == "" && c != "")
  {
    if a != "" && st == "" && c != "" {
      assert |StrategyLabelAsWritten(a, st, c)| == |a| + |c|;
      assert |StrategyLabel(a, st, c)| == |a| + 3 + |c|;
    }
  }

  /** The missing separator, on an input. */
  lemma LabelAsWrittenDropsSeparator()
    ensures StrategyLabelAsWritten("A", "", "C") == "AC"
    ensures StrategyLabel("A", "", "C") == "A + C"
  {
  }

  /** In this screen no ability text is ever set, so the defect never shows:
      on every valid state the two labels agree. */
  lemma LabelDefectLatent(s: State)
    requires Valid(s)
    ensures StrategyLabelAsWritten(s.abilityDescription, s.strategyDescription, s.chanceCardDescription) == Label(s)
  {
    LabelAsWrittenAgrees(s.abilityDescription, s.strategyDescription, s.chanceCardDescription);
  }

  /** On every valid state, "No strategy" shows exactly when nothing has been
      chosen this round. */
  lemma LabelOfValidState(s: State)
    requires Valid(s)
    ensures Label(s) == "No strategy" <==>
      s.abilityDescription == "" && s.strategyDescription == "" && s.chanceCardDescription == ""
  {
    assert "No strategy" !in MoveNames;
    NoStrategyIsNoTitle();
    NoStrategyIffNothingChosen(s.abilityDescription, s.strategyDescription, s.chanceCardDescription);
  }

  /** No chance card is titled "No strategy": no title starts with 'N'. */
  lemma NoStrategyIsNoTitle()
    ensures "No strategy" !in ChanceTitles
  {
    var initials := seq(|Catalog.ChanceCards|, i requires 0 <= i < |Catalog.ChanceCards| => Catalog.ChanceCards[i].title[0]);
    assert initials == "DGPRGGCCD";
    forall t | t in ChanceTitles ensures t != "No strategy" {
      var i :| 0 <= i < |Catalog.ChanceCards| && Catalog.ChanceCards[i].title == t;
    }
  }

  // ---------------------------------------------------------------------------
  // Defects of the code as written

  /** The body looked up under the size's key: a player-HP frame with body 7
      changes nothing as written, and sets the player's HP to 7 when the body
      is taken from the frame. */
  lemma BodyKeyDropsHealth(s: State)
    requires s.playerHP != 7
    ensures DispatchAsWritten(s, Connection.Delivered(Flags.PlayerGainHP, 1, Some([7]))) == Ok(Unchanged(s))
    ensures Dispatch(s, Connection.Delivered(Flags.PlayerGainHP, 1, Some([7]))) == Ok(Unchanged(s.(playerHP := 7)))
  {
  }

  /** The hand emptied inside the loop: a batch [2, 5] leaves only card 5 as
      written, and cards 2 and 5 when the batch replaces the hand. */
  lemma GainChancesKeepsOnlyLast(s: State)
    ensures GainChancesAsWritten(s.hand, [2, 5]) == Ok([Catalog.ChanceCards[5]])
    ensures GainChances(s, [2, 5]).Ok?
    ensures GainChances(s, [2, 5]).value.state.hand == [Catalog.ChanceCards[2], Catalog.ChanceCards[5]]
  {
    var r := GainChances(s, [2, 5]).value.state.hand;
    assert |r| == 2 && r[0] == Catalog.ChanceCards[2] && r[1] == Catalog.ChanceCards[5];
  }

  /** The shadowed move id: the property stays at its initial -1, so a
      confirmed basic move is described as "Unknown" as written, and by its
      own name when the move is remembered. */
  lemma ShadowedMoveIsUnknown(s: State, tag: int)
    requires s.phase == EnactingStrategies && s.selectedMoveID == -1 && 0 <= tag <= 2
    ensures SelectMoveReply(MovePressedAsWritten(s, tag).state, 1).state.strategyDescription == "Unknown"
    ensures SelectMoveReply(MovePressed(s, tag).state, 1).state.strategyDescription == Catalog.MoveToString(tag)
    ensures Catalog.MoveToString(tag) != "Unknown"
  {
  }

  // ---------------------------------------------------------------------------
  // A whole exchange

  /** Picking the Persian cat, fighting and receiving the server's yes: the
      requests are the cat selection and then ready, and the player holds
      the Persian cat at its full health with its inborn ability. */
  lemma SelectCatScenario()
    ensures var events := [CatRowTapped(0), FightTapped,
                           Received(Connection.Delivered(Flags.SelectCat, 1, Some([1])))];
      var r := Run(Initial, events);
      && r.Ok?
      && r.value.sent == [Codec.SelectCat(0), Codec.Ready]
      && r.value.state.playerCat == Some(Catalog.Cats[0])
      && r.value.state.playerHP == 10
      && r.value.state.abilities == [Catalog.Abilities[0]]
  {
    var events := [CatRowTapped(0), FightTapped,
                   Received(Connection.Delivered(Flags.SelectCat, 1, Some([1])))];
    var s1 := Initial.(selectedCatID := Some(0));
    assert Step(Initial, events[0]) == Ok(Unchanged(s1));
    assert Step(s1, events[1]) == Ok(Effect(s1, [Codec.SelectCat(0)], []));
    var s3 := s1.(playerCat := Some(Catalog.Cats[0]), abilities := [Catalog.Abilities[0]], playerHP := 10);
    assert Dispatch(s1, events[2].frame) == SelectCatReply(s1, 1);
    var e3 := SelectCatReply(s1, 1).value;
    assert e3.state == s3 && e3.sent == [Codec.Ready];
    assert Step(s1, events[2]) == Ok(e3);
    assert [events[2]][1..] == [];
    assert Run(e3.state, []) == Ok(Unchanged(e3.state));
    assert e3.sent + [] == [Codec.Ready] && e3.notices + [] == e3.notices;
    assert Run(s1, [events[2]]) == Ok(Effect(s3, [Codec.Ready], e3.notices));
    var tail := events[1..];
    assert tail[0] == FightTapped && tail[1..] == [events[2]];
    assert Step(s1, tail[0]) == Ok(Effect(s1, [Codec.SelectCat(0)], []));
    assert [] + e3.notices == e3.notices;
    assert [Codec.SelectCat(0)] + [Codec.Ready] == [Codec.SelectCat(0), Codec.Ready];
    assert Run(s1, tail) == Ok(Effect(s3, [Codec.SelectCat(0)] + [Codec.Ready], [] + e3.notices));
    assert Run(s1, events[1..]) == Ok(Effect(s3, [Codec.SelectCat(0), Codec.Ready], e3.notices));
  }
}
