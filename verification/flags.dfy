/** The one-byte message kinds of the game-server protocol
    (`GameServerFlag` in KWNetwork.swift). The names `selectChanceCard`,
    `gainPlayerHP` and `gainHP`, which the client uses but never defines, are
    taken to mean `SelectChance` and `PlayerGainHP`. */
module Flags {
  import opened Basics

  // login & logout
  const Login: byte := 0
  const Logout: byte := 1

  // user profile
  const UserProfile: byte := 3
  const AllCards: byte := 4
  const CatCards: byte := 5
  const BasicCards: byte := 6
  const ChanceCards: byte := 7
  const AbilityCards: byte := 8

  // match
  const FindMatch: byte := 2
  const EndMatch: byte := 9
  const NextPhase: byte := 98
  const Ready: byte := 99
  const SelectCat: byte := 100
  const UseAbility: byte := 101
  const OpponentCat: byte := 49
  const PlayerGainHP: byte := 50
  const OpponentGainHP: byte := 51
  const DamageModified: byte := 52
  const OpponentDamageModified: byte := 53
  const GainChance: byte := 54
  const OpponentGainChance: byte := 55
  const RandomAbility: byte := 56
  const GainChances: byte := 57
  const SelectMove: byte := 102
  const SelectChance: byte := 103
  const RevealMove: byte := 58
  const RevealChance: byte := 59
}
