# KittyWar client core in Dafny

KittyWar is an iOS card game. Two players each pick a cat, then play rounds of
six phases against each other on a game server. This project models the
client's two central pieces:

- **The game-server protocol layer** (`KWNetwork`):
  - the table of one-byte flags;
  - the inbound frame `[flag][3-byte big-endian body size][body]` and how a
    reply is parsed as an int, a string or an int array;
  - the outbound frame `[flag][24-byte token][3-byte size][payload]` built
    by `getMessagePrefix`;
  - the login handshake, and the reply test each request applies;
  - the replies spread over several reads (cat selection, showing cards,
    strategy settlement);
  - the background read loop that turns the byte stream into posted frames,
    with its start guard.
- **The game screen** (`KWGameVC`):
  - the phase machine with its win and lose checks;
  - the staged cooldown of the one usable ability, critical hit;
  - the local gates on moves, chance cards and abilities;
  - the strategy label;
  - the cat, ability and chance-card tables;
  - the dispatcher that applies each server frame to the player's and the
    opponent's state.

Everything is pure. The network is modelled as the bytes each read hands
back: `read(n)` gives at most `n` of the bytes on offer, or `nil`. The
screen is a function from a `State` and an `Event` to an `Effect`, which
holds the new state, the requests handed to the network layer, and the
alerts shown. A Swift runtime trap is a `Trap` result, not a precondition.
Traps cover an index past the end, a force-unwrap of `nil`, and a reply
that is not valid UTF-8.

Files:

| file | contents |
|---|---|
| `basics.dfy` | bytes, `Option`, `Result`, faults |
| `big_endian.dfy` | big-endian integers |
| `utf8.dfy` | a strict UTF-8 codec, and Foundation's reading of text |
| `decimal.dfy` | decimal text of ids |
| `flags.dfy` | the flag table |
| `codec.dfy` | frame parsing, prefixes and requests |
| `connection.dfy` | handshake, reply tests, multi-read replies, read loop |
| `catalog.dfy` | the card tables and names |
| `game.dfy` | the screen's state machine |
| `game_properties.dfy` | invariants, phase lemmas, label lemmas, counterexamples |

## Model

| member | source | states |
|---|---|---|
| BigEndian.ValueOfToBytes | KittyWar/KittyWar/KWNetwork.swift:376-377 | writing n in k big-endian bytes and reading them back gives n mod 256^k |
| BigEndian.ToBytesOfValue | KittyWar/KittyWar/KWNetwork.swift:326-329 | reading bytes as a big-endian number and writing it back in as many bytes gives the same bytes |
| BigEndian.LeadingZeros | KittyWar/KittyWar/KWNetwork.swift:327 | prefixing zero bytes (the five pad bytes) does not change the value |
| BigEndian.SuffixOfToBytes | KittyWar/KittyWar/KWNetwork.swift:377 | the last j bytes of the k-byte writing of n are the j-byte writing of n |
| BigEndian.Value3 | KittyWar/KittyWar/KWNetwork.swift:326-329 | three bytes read big-endian are b0·65536 + b1·256 + b2 |
| Utf8.Encode | KittyWar/KittyWar/KWNetwork.swift:373 | the encoding is at least as long as the text, and exactly as long for ASCII text |
| Utf8.DecodeEncode | KittyWar/KittyWar/KWNetwork.swift:345 | decoding the UTF-8 encoding of a string gives the string back |
| Utf8.EncodeDecode | KittyWar/KittyWar/KWNetwork.swift:847 | bytes that decode encode back to the same bytes, so decoding is injective |
| Utf8.ReadText | KittyWar/KittyWar/KWNetwork.swift:345 | answers a string iff the bytes are UTF-8; drops the decoded text's first scalar exactly when the bytes start with EF BB BF, so the text's encoding is the bytes after that mark |
| Utf8.ReadTextOfEncode | KittyWar/KittyWar/KWNetwork.swift:345 | text not starting with the byte-order mark reads back from its encoding unchanged |
| Utf8.ReadTextDropsBom | KittyWar/KittyWar/KWNetwork.swift:847 | a byte-order mark written in front of text is dropped on reading |
| Utf8.EncodeAscii | KittyWar/KittyWar/KWNetwork.swift:390-392 | an ASCII string's byte count equals its character count, so the login size field is right for it |
| Decimal.Text | KittyWar/KittyWar/KWNetwork.swift:473 | `"\(id)"` is ASCII digits, one character exactly when 0 <= id <= 9 |
| Decimal.ReadText | KittyWar/KittyWar/KWNetwork.swift:473 | reading the decimal text of n gives n back |
| Codec.DecodeHeader | KittyWar/KittyWar/KWNetwork.swift:322-329 | the flag is byte 0; the size is bytes 1..3 big-endian, below 2^24, and those bytes are the 3-byte writing of the size |
| Codec.EncodeFrame | KittyWar/KittyWar/KWNetwork.swift:887-894 | a frame whose header decodes back to its flag and body length, with the body after it |
| Codec.ParseResponse | KittyWar/KittyWar/KWNetwork.swift:318-360 | traps iff the reply is shorter than 4 bytes or a string body is not UTF-8; no body value unless the reply is longer than 4; int is byte 4; the int array is the body byte by byte; the string is the body read as UTF-8 with one leading byte-order mark dropped, so its encoding is the body after that mark |
| Codec.ParseIntFrame | KittyWar/KittyWar/KWNetwork.swift:337-341 | parsing an encoded one-byte int frame gives back its flag, size 1 and the int |
| Codec.ParseStringFrame | KittyWar/KittyWar/KWNetwork.swift:342-346 | a string frame whose text does not start with a byte-order mark parses back to its flag, size and text |
| Codec.ParseEmptyFrame | KittyWar/KittyWar/KWNetwork.swift:337 | an encoded empty frame gives its flag, size 0 and no body for every body type |
| Codec.BytesToInt | KittyWar/KittyWar/KWNetwork.swift:836-842 | the first byte, or 0 for no bytes |
| Codec.BytesToString | KittyWar/KittyWar/KWNetwork.swift:844-851 | "" for no bytes; traps iff non-empty bytes are not UTF-8; else the bytes read as UTF-8 with one leading byte-order mark dropped, so the string's encoding is the bytes after that mark |
| Codec.BytesToIntArray | KittyWar/KittyWar/KWNetwork.swift:853-861 | one int per byte, in order, each equal to its byte |
| Codec.IntToByteArray | KittyWar/KittyWar/KWNetwork.swift:376 | eight bytes whose big-endian value is the number mod 2^64 |
| Codec.MessagePrefix | KittyWar/KittyWar/KWNetwork.swift:364-380 | the flag, then the token's UTF-8 bytes, then three bytes whose big-endian value is the size mod 2^24 |
| Codec.PrefixHeaderDecodes | KittyWar/KittyWar/KWNetwork.swift:364-380 | the prefix's flag and size field, read back as an inbound header, give the flag and the size mod 2^24 |
| Codec.EncodeRequest | KittyWar/KittyWar/KWNetwork.swift:471-473 | a request frame is the prefix with the request's flag and declared size, followed by its payload |
| Codec.DeclaredSizeMatchesPayload | KittyWar/KittyWar/KWNetwork.swift:471-473 | the declared size equals the payload length iff every id sent is a single digit and the username is ASCII |
| Codec.DigitTextIsOneByte | KittyWar/KittyWar/KWNetwork.swift:473 | the encoded text of an id is one byte exactly when the id is 0..9 |
| Codec.ServerReadsRequest | KittyWar/KittyWar/KWNetwork.swift:364-380 | with a 24-byte token and a declared size equal to the payload length, a server reading the frame by its size field recovers flag, token and payload, and the bytes after the frame are left as they were |
| Codec.ServerReadsFrame | KittyWar/KittyWar/KWNetwork.swift:364-380 | a server splitting a laid-out frame whose size field is the payload length recovers flag, token and payload, and leaves the following bytes untouched |
| Codec.ServerMisreadsTwoDigitId | KittyWar/KittyWar/KWNetwork.swift:471-473 | selecting cat 12 declares size 1, so the server reads "1" and leaves "2" on the wire |
| Connection.Take | KittyWar/KittyWar/KWNetwork.swift:399 | `read(n)`: nil iff nothing is offered; otherwise a prefix of what is offered, at most n bytes, and all of it when it fits |
| Connection.CheckReply | KittyWar/KittyWar/KWNetwork.swift:658-662 | traps iff the reply is under 4 bytes; otherwise accepted iff the reply's flag, size field and first body byte pass the request's test |
| Connection.ConnectToGameServer | KittyWar/KittyWar/KWNetwork.swift:383-426 | already connected means no traffic; sends the login frame iff connecting succeeds; connected iff the reply is flag 0, size 1, int 1; traps iff a reply under 4 bytes arrives |
| Connection.ConnectedStaysConnected | KittyWar/KittyWar/KWNetwork.swift:384-386 | after a handshake that connects, a second handshake on the resulting link sends nothing and stays connected whatever the network does |
| Connection.SendRequest | KittyWar/KittyWar/KWNetwork.swift:639-673 | traps exactly when the handshake traps, or when it connects, the send succeeds and the reply is shorter than 4 bytes; accepted only after a successful handshake and send, and then the reply passes the request's test; the last frame sent is the request's frame; unconnected sends nothing |
| Connection.TakeKeepsVerdict | KittyWar/KittyWar/KWNetwork.swift:652 | a read of at least 5 bytes keeps every byte the reply test looks at |
| Connection.ReadyForCatSelection | KittyWar/KittyWar/KWNetwork.swift:505-562 | nothing iff a read is nil; a 4-byte cat, ability or card reply traps at the force-unwrap; else the cat and ability are byte 4 and the cards are bytes 4.. |
| Connection.ReadyForShowingCard | KittyWar/KittyWar/KWNetwork.swift:675-723 | nothing iff a read is nil; the revealed move and chance ids are byte 4 of their replies, absent for 4-byte replies |
| Connection.AssignHP | KittyWar/KittyWar/KWNetwork.swift:756-774 | an HP frame with flag 50 sets the player's HP, any other flag sets the opponent's, from byte 4 |
| Connection.ReadyForStrategySettlement | KittyWar/KittyWar/KWNetwork.swift:725-796 | nothing iff a read is nil; traps iff a reply is under 4 bytes; HP routed by flag 50; HP starts at 0; the chance cards are bytes 4.. of a 10-byte read, present iff that reply has a body |
| Connection.LoopIteration | KittyWar/KittyWar/KWNetwork.swift:877-901 | nothing for a nil or short header; else the flag and size decoded from it, and a body read only when the size is positive |
| Connection.Read | KittyWar/KittyWar/KWNetwork.swift:877 | a stream read: nil at the end, else the next bytes, at most n, and the rest of the stream after them |
| Connection.ReadLoopRecoversFrames | KittyWar/KittyWar/KWNetwork.swift:875-915 | a stream of well-formed frames is posted as exactly those frames, in order, each with its flag, size and body |
| Connection.ShortBodyIsPosted | KittyWar/KittyWar/KWNetwork.swift:897-901 | a body cut short by the end of the stream is still posted, with the declared size and the bytes that arrived |
| Connection.StartReadingAsWritten | KittyWar/KittyWar/KWNetwork.swift:863-872 | the guard as written: the loop is launched exactly when connected and already marked started, and the flag never changes |
| Connection.StartReading | KittyWar/KittyWar/KWNetwork.swift:863-872 | the intended guard: launches iff connected and not yet started, and marks it started |
| Connection.StartReadingAsWrittenNeverLaunches | KittyWar/KittyWar/KWNetwork.swift:868-870 | from the initial state, no sequence of calls ever launches the read loop |
| Connection.StartReadingLaunchesOnce | KittyWar/KittyWar/KWNetwork.swift:863-874 | with the intended guard, a sequence of calls launches the loop once if any call is connected, else never |
| Catalog.CatOf | KittyWar/KittyWar/KWGameVC.swift:254-272 | traps iff the id is out of range; the cat has that id, positive health and a passive inborn ability |
| Catalog.AbilityOf | KittyWar/KittyWar/KWGameVC.swift:274-326 | traps iff out of range; slots 2 to 5 unset; the card has its id and a phase up to 5; active iff it is critical hit |
| Catalog.ChanceCardOf | KittyWar/KittyWar/KWGameVC.swift:328-409 | traps iff out of range; card i answers basic move i/3 and its kind names that move |
| Catalog.ChanceTitlesDistinct | KittyWar/KittyWar/KWGameVC.swift:328-409 | a fact of the constant chance table: no two entries share a title, so a title names one card |
| Catalog.PhaseToString | KittyWar/KittyWar/KWGameVC.swift:100-117 | phases 0..5 get their names; "Phase Unknown" iff out of range |
| Catalog.MoveIDToString | KittyWar/KittyWar/KWGameVC.swift:119-132 | agrees with the player's move names on 0..2, 3 is "Skip", "Unknown" iff out of 0..3 |
| Catalog.MoveToString | KittyWar/KittyWar/KWGameVC.swift:432-443 | "Unknown" iff out of 0..2; otherwise the name plus " Chance" is that move's chance kind |
| Catalog.NamesIdentify | KittyWar/KittyWar/KWGameVC.swift:100-132 | a fact of the constant name tables: distinct phases and distinct moves have distinct known names |
| Game.NextCooldown | KittyWar/KittyWar/KWGameVC.swift:200-203 | cooldown stages 0 and 5 advance by 5, every other value is kept |
| Game.StartNextPhase | KittyWar/KittyWar/KWGameVC.swift:185-213 | the lose alert appears exactly when losing, and then first; losing and winning give [lose, win], winning alone [win], neither just the next phase's start notice; on winning, the state is unchanged; else the phase advances with Postlude going to Prelude, the cooldown stages and descriptions are cleared at Postlude and kept in every other phase, and nothing else changes |
| Game.CatRowHighlighted | KittyWar/KittyWar/KWGameVC.swift:504-512 | traps iff the row is not a cat; else only the selected cat changes, to that row |
| Game.FightPressed | KittyWar/KittyWar/KWGameVC.swift:412-418 | no state change; a cat request iff a cat is selected, for that cat |
| Game.MovePressed | KittyWar/KittyWar/KWGameVC.swift:420-430 | in Enacting Strategies the move is recorded and requested; in any other phase only a wrong-phase alert |
| Game.MovePressedAsWritten | KittyWar/KittyWar/KWGameVC.swift:420-430 | as written: the move is requested but the state never records it |
| Game.AbilityPressed | KittyWar/KittyWar/KWGameVC.swift:445-465 | traps iff the tag is out of range; requests the ability iff it is active, of this phase and at cooldown 10, and then the cooldown is 0; otherwise one alert and no state change |
| Game.ChanceCardHighlighted | KittyWar/KittyWar/KWGameVC.swift:541-551 | outside Enacting Strategies, only an alert; inside, traps iff the row is past the hand; else records and requests that card |
| Game.SelectCatReply | KittyWar/KittyWar/KWGameVC.swift:559-583 | traps iff no valid cat is selected; on size 1 the player gets that cat, its HP and its inborn ability, and sends ready; other sizes change nothing |
| Game.OpponentCatReveal | KittyWar/KittyWar/KWGameVC.swift:595-607 | traps iff the id is not a cat; else the opponent's cat and HP are that cat's |
| Game.RandomAbilityGrant | KittyWar/KittyWar/KWGameVC.swift:608-621 | traps iff the id is out of range or there is no inborn ability; else the ability joins the list and the cooldown becomes ready exactly when the second entry is critical hit |
| Game.CardsOf | KittyWar/KittyWar/KWGameVC.swift:624-627 | traps iff some id is not a card; else the cards for the ids, in order |
| Game.GainChances | KittyWar/KittyWar/KWGameVC.swift:622-631 | the intended hand: traps iff some id is not a card; else the hand becomes the cards for the ids in order, and nothing else changes |
| Game.GainChancesAsWritten | KittyWar/KittyWar/KWGameVC.swift:622-631 | as written: the hand ends holding only the card of the last id |
| Game.SelectMoveReply | KittyWar/KittyWar/KWGameVC.swift:644-657 | answer 1 records the move's description; any other answer changes nothing |
| Game.FirstIndexOf | KittyWar/KittyWar/KWGameVC.swift:671-676 | the index of the first card with the id, or the hand's length when none has it |
| Game.RemoveFirst | KittyWar/KittyWar/KWGameVC.swift:670-678 | traps iff no card has the id; else exactly the first such card is removed, so the hand loses one element of that multiset |
| Game.SelectChanceReply | KittyWar/KittyWar/KWGameVC.swift:658-681 | on answer 1 it traps iff the card is not in the hand; else it records the description and removes the card; other answers change nothing |
| Game.RevealChance | KittyWar/KittyWar/KWGameVC.swift:691-699 | traps iff the id is not a card; else one alert with the card's title |
| Game.Dispatch | KittyWar/KittyWar/KWGameVC.swift:553-712 | routes each flag to its handler: cat selection to the select-cat reply, next phase to StartNextPhase, and, when the body has a first byte, opponent cat, random ability, gain chances, use ability, select move, select chance, reveal move and reveal chance to their handlers with that byte (gain chances with the whole body); HP frames set the player's and the opponent's HP to the first byte; bodiless frames other than cat selection and next phase, and unknown flags, change nothing; only next phase moves the phase; only cat selection sends, and it sends ready |
| Game.DispatchAsWritten | KittyWar/KittyWar/KWGameVC.swift:553-556 | as written: the body is looked up under the size key, so every frame that needs a body changes nothing |
| GameProperties.InitialValid | KittyWar/KittyWar/KWGameVC.swift:79-98 | the screen's initial values satisfy the state invariant |
| GameProperties.DispatchKeepsValid | KittyWar/KittyWar/KWGameVC.swift:553-712 | every server frame keeps the invariant: phase 0..5, cooldown in {-1, 0, 5, 10}, catalog cards, HP in a byte, known descriptions |
| GameProperties.StepKeepsValid | KittyWar/KittyWar/KWGameVC.swift:412-551 | every player action and server frame keeps the invariant |
| GameProperties.RunKeepsValid | KittyWar/KittyWar/KWGameVC.swift:185-213 | any sequence of events from a valid state keeps the invariant |
| GameProperties.PhaseCycle | KittyWar/KittyWar/KWGameVC.swift:197-212 | k phase changes without a win move Prelude..Postlude round a 5-cycle: phase becomes CyclePhase, Prelude + (phase − Prelude + k) mod 5 |
| GameProperties.RunFollowsCycle | KittyWar/KittyWar/KWGameVC.swift:197-212 | k next-phase frames without a win never trap and move the phase one successor at a time, Postlude wrapping to Prelude |
| GameProperties.LoseAlertOnlyWhenLosing | KittyWar/KittyWar/KWGameVC.swift:187-189 | the lose alert is among a phase change's notices exactly when the player's cat has 0 HP or the opponent's has 20 |
| GameProperties.StepPhase | KittyWar/KittyWar/KWGameVC.swift:584-594 | an event leaves the phase alone unless it is a next-phase frame, which advances it as startNextPhase does |
| GameProperties.PhaseNeverReturnsToBeforeGame | KittyWar/KittyWar/KWGameVC.swift:197-212 | once the game has left Before Game, no sequence of events brings it back |
| GameProperties.CooldownChangesOnlyAt | KittyWar/KittyWar/KWGameVC.swift:200-203 | the cooldown changes only on a Postlude-to-Prelude change, a critical-hit use, or a random-ability grant |
| GameProperties.StrategyLabelJoinsParts | KittyWar/KittyWar/KWGameVC.swift:163-183 | the intended label is the non-empty parts (ability, strategy, chance) joined by " + ", or "No strategy" when all are empty |
| GameProperties.NoStrategyIffNothingChosen | KittyWar/KittyWar/KWGameVC.swift:178-180 | the label reads "No strategy" iff all three descriptions are empty |
| GameProperties.LabelAsWrittenAgrees | KittyWar/KittyWar/KWGameVC.swift:170-176 | the as-written label equals the intended one iff not (ability set, strategy empty, chance set) |
| GameProperties.LabelAsWrittenDropsSeparator | KittyWar/KittyWar/KWGameVC.swift:174-175 | ability "A", no strategy and chance "C" give "AC" as written and "A + C" as intended |
| GameProperties.LabelDefectLatent | KittyWar/KittyWar/KWGameVC.swift:146-150 | with the ability description empty, as every state of this screen has it, the two labels agree |
| GameProperties.LabelOfValidState | KittyWar/KittyWar/KWGameVC.swift:163-183 | in every valid state, where descriptions are known move names and card titles, "No strategy" shows iff nothing has been chosen |
| GameProperties.BodyKeyDropsHealth | KittyWar/KittyWar/KWGameVC.swift:556 | a health frame with body [7] sets the player's HP to 7 as intended but leaves it unchanged as written |
| GameProperties.GainChancesKeepsOnlyLast | KittyWar/KittyWar/KWGameVC.swift:624-626 | gaining cards [2, 5] leaves the hand holding one card as written and two as intended |
| GameProperties.ShadowedMoveIsUnknown | KittyWar/KittyWar/KWGameVC.swift:424 | pressing purr and having it accepted describes the move as "Unknown" as written and "Purr" as intended |
| GameProperties.SelectCatScenario | KittyWar/KittyWar/KWGameVC.swift:559-579 | highlighting the Persian cat, fighting and receiving the accepted reply sends the cat request then ready, and gives the player health 10 |

## Left out

- HTTP registration and login are outside the core. Only the game-server socket is modelled.
- The TCP socket is a parameter: whether connect and send succeed, and the bytes each read hands back. Timeouts are not modelled.
- `DispatchQueue` concurrency is left out. Each reply is applied in the order it arrives, as one step.
- `NotificationCenter` and UIKit are left out. Alerts become `Notice` values. Labels, images, buttons and table cell sizing (CGFloat arithmetic) are not modelled.
- `print` output is not modelled.
- The introduction texts and image names of the cards are not modelled. The tables keep ids, titles, kinds, phases, cooldowns and health.
- `DSConvertor` and `KWUserDefaults` are not part of this model. The model assumes:
  - `stringToBytes` is UTF-8;
  - Foundation's `String(data:encoding: .utf8)` reads strict UTF-8 and drops one leading byte-order mark (U+FEFF), as Utf8.ReadText states; Foundation is not part of this model;
  - `intToByteArray` is 8-byte big-endian;
  - the stored token is 24 bytes.
- `KWNetwork.shared.ready()` is not defined in KWNetwork.swift. It is modelled as sending the ready frame, flag 99 with size 0.
- `GameServerFlag` does not define `selectChanceCard` (used at KWNetwork.swift:803 and 821), `gainHP` (KWGameVC.swift:700) or `gainPlayerHP` (KWNetwork.swift:756 and 770). The model reads `selectChanceCard` as `selectChance` (103, KWNetwork.swift:85), and both `gainHP` and `gainPlayerHP` as `playerGainHP` (50, KWNetwork.swift:76). `gainPlayerHP` is read that way in Connection.AssignHP and Connection.ReadyForStrategySettlement.
- Codec.EncodeRequest: `username.characters.count` counts grapheme clusters in Swift. The model counts Unicode scalars. The two agree on ASCII names, which Utf8.EncodeAscii covers.
- Connection.ReadLoop stops at the end of the stream. The source spins forever on a nil read.
- Connection.ReadLoop follows the code in posting a body cut short by the end of the stream. It does not report a framing fault.
- Game.AbilityPressed resets the cooldown locally when the button is pressed, as the code does. It does not wait for the server's acceptance.
- The ability slots 2 to 5 hold `KWAbilityCard` defaults that the file never sets. The model takes them to be passive (`Unset`), on the assumption that the default id of `KWAbilityCard` is not 7. KWAbilityCard is not part of this model.
- The notifications that `findMatch` and `selectCat` post are screen plumbing. Only their reply tests are modelled.
- Codec.ServerMisreadsTwoDigitId is not listed as a finding. Every id in the catalog is a single digit, so no real request is misframed.

## Findings

| source | as written | input that shows it | evidently intended | confidence | as-written member | corrected member |
|---|---|---|---|---|---|---|
| KittyWar/KittyWar/KWNetwork.swift:868-870 | returns unless reading has already started | any call sequence from the initial state: the read loop is never launched | return if reading has already started | not executed | Connection.StartReadingAsWrittenNeverLaunches | Connection.StartReadingLaunchesOnce |
| KittyWar/KittyWar/KWGameVC.swift:556 | the body is read under the `bodySize` key, which holds an `Int` | a player-health frame with body [7]: HP stays unchanged | read it under the `body` key | not executed | GameProperties.BodyKeyDropsHealth | Game.Dispatch |
| KittyWar/KittyWar/KWGameVC.swift:624-626 | the hand is emptied inside the loop over the gained cards | gaining cards [2, 5]: the hand ends with one card | empty the hand once, then append every card | not executed | GameProperties.GainChancesKeepsOnlyLast | Game.GainChances |
| KittyWar/KittyWar/KWGameVC.swift:424 | `let selectedMoveID` declares a local that shadows the property | pressing purr and having it accepted: the move is described as "Unknown" | assign the property | not executed | GameProperties.ShadowedMoveIsUnknown | Game.MovePressed |
| KittyWar/KittyWar/KWGameVC.swift:174-175 | the separator before the chance card is chosen by testing the strategy text only | ability "A", no strategy, chance "C": the label is "AC" | test whether any earlier part is non-empty | not executed; latent, since the ability text is always empty here | GameProperties.LabelAsWrittenDropsSeparator | GameProperties.StrategyLabelJoinsParts |
