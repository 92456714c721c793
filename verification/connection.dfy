/** The connection side of KWNetwork.swift: the login handshake, the yes/no
    test each request applies to the server's reply, the request paths that
    read several replies in a row, and the continuous read loop that hands
    every inbound frame to the game screen.

    Socket I/O is not modelled: what a read returns is an input. A read of n
    bytes answers at most n of the bytes on offer (`Take`), or nil. */
module Connection {
  import opened Basics
  import Flags
  import BigEndian
  import Codec

  /** `TCPClient.read(n)`: at most n of the bytes on offer, or nil. */
  function Take(offered: Option<Bytes>, n: nat): (r: Option<Bytes>)
    ensures r.Some? <==> offered.Some?
    ensures r.Some? ==> |r.value| <= n && |r.value| <= |offered.value| && r.value == offered.value[..|r.value|]
    ensures r.Some? && |offered.value| <= n ==> r.value == offered.value
  {
    match offered
    case None => None
    case Some(b) => if |b| <= n then Some(b) else Some(b[..n])
  }

  // ---------------------------------------------------------------------------
  // Reply tests

  /** The test a request applies to the parsed reply before it reports success. */
  predicate Accepts(req: Codec.Request, p: Codec.Parsed) {
    match req
    case Login(_) => p.flag == Flags.Login && p.sizeOfBody == 1 && p.bodyInt == Some(1)
    case FindMatch => p.flag == Flags.FindMatch && p.sizeOfBody == 1
    case SelectCat(_) => p.flag == Flags.SelectCat && p.sizeOfBody == 1
    case Ready => p.flag == Flags.NextPhase && p.sizeOfBody == 0
    case UseAbility(_) => p.flag == Flags.UseAbility || p.flag == Flags.DamageModified
    case SelectMove(_) => p.flag == Flags.SelectMove && p.sizeOfBody == 1 && p.bodyInt == Some(1)
    case SelectChanceCard(_) => p.flag == Flags.SelectChance && p.sizeOfBody == 1 && p.bodyInt == Some(1)
  }

  predicate SizeFieldIs(response: Bytes, n: nat)
    requires |response| >= Codec.HeaderSize
  {
    response[1] as int * 65536 + response[2] as int * 256 + response[3] as int == n
  }

  predicate FirstBodyByteIsOne(response: Bytes) {
    |response| > Codec.HeaderSize && response[Codec.HeaderSize] == 1
  }

  /** The same tests read directly off the reply's bytes: byte 0 is the flag,
      bytes 1..3 the size, byte 4 the first body byte. */
  predicate AcceptedOnWire(req: Codec.Request, response: Bytes)
    requires |response| >= Codec.HeaderSize
  {
    match req
    case Login(_) => response[0] == Flags.Login && SizeFieldIs(response, 1) && FirstBodyByteIsOne(response)
    case FindMatch => response[0] == Flags.FindMatch && SizeFieldIs(response, 1)
    case SelectCat(_) => response[0] == Flags.SelectCat && SizeFieldIs(response, 1)
    case Ready => response[0] == Flags.NextPhase && SizeFieldIs(response, 0)
    case UseAbility(_) => response[0] == Flags.UseAbility || response[0] == Flags.DamageModified
    case SelectMove(_) => response[0] == Flags.SelectMove && SizeFieldIs(response, 1) && FirstBodyByteIsOne(response)
    case SelectChanceCard(_) =>
      response[0] == Flags.SelectChance && SizeFieldIs(response, 1) && FirstBodyByteIsOne(response)
  }

  /** Parse the reply as a single-int body and apply the request's test.
      A reply shorter than the header traps. */
  function CheckReply(req: Codec.Request, response: Bytes): (r: Result<bool>)
    ensures r.Trap? <==> |response| < Codec.HeaderSize
    ensures r.Ok? ==> (r.value <==> AcceptedOnWire(req, response))
  {
    match Codec.ParseResponse(response, Codec.IntBody)
    case Trap(f) => Trap(f)
    case Ok(p) => Ok(Accepts(req, p))
  }

  // ---------------------------------------------------------------------------
  // Login handshake

  /** What the client keeps about its game-server socket. */
  datatype Link = Link(isConnectedToGameServer: bool, startedReadingAndParsingResponses: bool)

  const Fresh: Link := Link(false, false)

  /** The socket's answers during one handshake attempt. */
  datatype HandshakeIO = HandshakeIO(connectSucceeds: bool, sendSucceeds: bool, reply: Option<Bytes>)

  /** The handshake's result, the link afterwards and the frames written. */
  datatype Handshake = Handshake(connected: bool, link: Link, sent: seq<Bytes>)

  /** The login handshake's yes/no test, read off the reply's bytes. */
  predicate LoginReplyOk(reply: Bytes) {
    |reply| > Codec.HeaderSize && reply[0] == Flags.Login &&
    reply[1] == 0 && reply[2] == 0 && reply[3] == 1 && reply[4] == 1
  }

  /** `connectToGameServer`: once connected, true at once and nothing is sent.
      Otherwise connect, send the login frame and read one reply; the link is
      connected exactly when that reply has flag 0, size 1 and body 1. */
  function ConnectToGameServer(link: Link, token: string, username: string, io: HandshakeIO): (r: Result<Handshake>)
    ensures link.isConnectedToGameServer ==> r == Ok(Handshake(true, link, []))
    ensures r.Ok? ==> r.value.connected == r.value.link.isConnectedToGameServer
    ensures r.Ok? ==> r.value.link.startedReadingAndParsingResponses == link.startedReadingAndParsingResponses
    ensures !link.isConnectedToGameServer ==>
      (r.Trap? <==>
        io.connectSucceeds && io.sendSucceeds && io.reply.Some? && |io.reply.value| < Codec.HeaderSize)
    ensures !link.isConnectedToGameServer && r.Ok? ==>
      (r.value.connected <==>
        io.connectSucceeds && io.sendSucceeds && io.reply.Some? && LoginReplyOk(io.reply.value))
    ensures !link.isConnectedToGameServer && r.Ok? ==>
      r.value.sent == if io.connectSucceeds && io.sendSucceeds
                      then [Codec.EncodeRequest(token, Codec.Login(username))] else []
  {
    if link.isConnectedToGameServer then Ok(Handshake(true, link, []))
    else
      var loginData := Codec.EncodeRequest(token, Codec.Login(username));
      if !io.connectSucceeds then Ok(Handshake(false, link, []))
      else if !io.sendSucceeds then Ok(Handshake(false, link, []))
      else
        match Take(io.reply, 1024 * 10)
        case None => Ok(Handshake(false, link, [loginData]))
        case Some(response) =>
          match CheckReply(Codec.Login(username), response)
          case Trap(f) => Trap(f)
          case Ok(success) =>
            Ok(Handshake(success, link.(isConnectedToGameServer := success), [loginData]))
  }

  /** Once a handshake connects, every later call on the link it leaves
      answers true and writes nothing, whatever the socket would do. */
  lemma ConnectedStaysConnected(link: Link, token: string, username: string, io: HandshakeIO, io': HandshakeIO)
    requires ConnectToGameServer(link, token, username, io).Ok?
    requires ConnectToGameServer(link, token, username, io).value.connected
    ensures var link' := ConnectToGameServer(link, token, username, io).value.link;
      ConnectToGameServer(link', token, username, io') == Ok(Handshake(true, link', []))
  {
  }

  /** How many bytes a request's reply read asks for. */
  function ReplyReadSize(req: Codec.Request): nat {
    match req
    case UseAbility(_) => 5
    case SelectMove(_) => 5
    case SelectChanceCard(_) => 5
    case _ => 1024 * 10
  }

  /** One request after the handshake: whether it was accepted, the link
      afterwards, and every frame written. */
  datatype Exchange = Exchange(link: Link, sent: seq<Bytes>, accepted: bool)

  /** `findMatch`, `selectCat`, `useAbility`, `sendReadyMessageToGameServer`,
      `selectMove`, `selectChanceCard`: make sure of the connection, send the
      request, read one reply and apply the request's test. Nothing goes out
      without a connection. */
  function SendRequest(link: Link, token: string, username: string, handshake: HandshakeIO,
                       req: Codec.Request, sendSucceeds: bool, reply: Option<Bytes>): (r: Result<Exchange>)
    requires !req.Login?
    ensures var hs := ConnectToGameServer(link, token, username, handshake);
      r.Trap? <==>
        hs.Trap? || (hs.value.connected && sendSucceeds && reply.Some? && |reply.value| < Codec.HeaderSize)
    ensures r.Ok? && r.value.accepted ==>
      && r.value.link.isConnectedToGameServer && sendSucceeds && reply.Some?
      && |reply.value| >= Codec.HeaderSize && AcceptedOnWire(req, reply.value)
    ensures r.Ok? && r.value.link.isConnectedToGameServer && sendSucceeds ==>
      |r.value.sent| >= 1 && r.value.sent[|r.value.sent| - 1] == Codec.EncodeRequest(token, req)
    ensures r.Ok? && !r.value.link.isConnectedToGameServer ==>
      !r.value.accepted && forall i :: 0 <= i < |r.value.sent| ==> r.value.sent[i] != Codec.EncodeRequest(token, req)
    ensures (r.Ok? && r.value.link.isConnectedToGameServer && sendSucceeds && reply.Some? &&
             |reply.value| >= Codec.HeaderSize) ==> (r.value.accepted <==> AcceptedOnWire(req, reply.value))
  {
    match ConnectToGameServer(link, token, username, handshake)
    case Trap(f) => Trap(f)
    case Ok(h) =>
      if !h.connected then
        HandshakeSendsOnlyLogin(link, token, username, handshake, req);
        Ok(Exchange(h.link, h.sent, false))
      else SendOnLink(h, token, req, sendSucceeds, reply)
  }

  /** The part after a successful handshake: send, read the reply, test it. */
  function SendOnLink(h: Handshake, token: string, req: Codec.Request, sendSucceeds: bool,
                      reply: Option<Bytes>): (r: Result<Exchange>)
    ensures r.Trap? <==> sendSucceeds && reply.Some? && |reply.value| < Codec.HeaderSize
    ensures r.Ok? ==> r.value.link == h.link
    ensures r.Ok? ==> r.value.sent == h.sent + (if sendSucceeds then [Codec.EncodeRequest(token, req)] else [])
    ensures r.Ok? && r.value.accepted ==>
      sendSucceeds && reply.Some? && |reply.value| >= Codec.HeaderSize && AcceptedOnWire(req, reply.value)
    ensures (r.Ok? && sendSucceeds && reply.Some? && |reply.value| >= Codec.HeaderSize) ==>
      (r.value.accepted <==> AcceptedOnWire(req, reply.value))
  {
    if !sendSucceeds then Ok(Exchange(h.link, h.sent, false))
    else
      var sent := h.sent + [Codec.EncodeRequest(token, req)];
      match Take(reply, ReplyReadSize(req))
      case None => Ok(Exchange(h.link, sent, false))
      case Some(response) =>
        TakeKeepsVerdict(req, reply.value, ReplyReadSize(req));
        match CheckReply(req, response)
        case Trap(f) => Trap(f)
        case Ok(accepted) => Ok(Exchange(h.link, sent, accepted))
  }

  /** A reply cut to at least five bytes gets the same verdict as the whole
      reply: the tests look at the first five bytes only. */
  lemma TakeKeepsVerdict(req: Codec.Request, reply: Bytes, n: nat)
    requires n >= 5
    ensures var t := Take(Some(reply), n).value;
      && (|t| >= Codec.HeaderSize <==> |reply| >= Codec.HeaderSize)
      && (|reply| >= Codec.HeaderSize ==> (AcceptedOnWire(req, t) <==> AcceptedOnWire(req, reply)))
  {
  }

  /** The handshake writes nothing but login frames, so never the frame of
      any other request. */
  lemma HandshakeSendsOnlyLogin(link: Link, token: string, username: string, io: HandshakeIO, req: Codec.Request)
    requires !req.Login? && ConnectToGameServer(link, token, username, io).Ok?
    ensures var sent := ConnectToGameServer(link, token, username, io).value.sent;
      forall i :: 0 <= i < |sent| ==> sent[i] != Codec.EncodeRequest(token, req)
  {
    var sent := ConnectToGameServer(link, token, username, io).value.sent;
    assert forall i :: 0 <= i < |sent| ==> sent[i] == Codec.EncodeRequest(token, Codec.Login(username));
    RequestsDiffer(token, username, req);
  }

  /** A login frame is never mistaken for another request: their flags differ. */
  lemma RequestsDiffer(token: string, username: string, req: Codec.Request)
    requires !req.Login?
    ensures Codec.EncodeRequest(token, Codec.Login(username)) != Codec.EncodeRequest(token, req)
  {
    assert Codec.EncodeRequest(token, Codec.Login(username))[0] == Flags.Login;
    assert Codec.EncodeRequest(token, req)[0] == Codec.RequestFlag(req);
  }

  // ---------------------------------------------------------------------------
  // Requests that read several replies in a row

  /** What `sendReadyForCatSelectionMessageToGameServer` posts. */
  datatype SetupGame = SetupGame(opponentCatID: int, randomAbilityID: int, chanceCards: seq<int>)

  /** After the ready frame: a 4-byte ready reply, the opponent's cat (5), the
      random ability (5) and the chance cards (6), none of whose flags are
      checked. A nil read abandons quietly; a missing body value traps when it
      is force-unwrapped. */
  function ReadyForCatSelection(ready: Option<Bytes>, opponentCat: Option<Bytes>,
                                randomAbility: Option<Bytes>, chanceCards: Option<Bytes>): (r: Result<Option<SetupGame>>)
    ensures r == Ok(None) <==>
      ready.None? ||
      (|ready.value| >= 4 && (opponentCat.None? ||
      (|opponentCat.value| >= 4 && (randomAbility.None? ||
      (|randomAbility.value| >= 4 && chanceCards.None?)))))
    ensures r.Trap? <==>
      ready.Some? && (|ready.value| < 4 ||
      (opponentCat.Some? && (|opponentCat.value| < 4 ||
      (randomAbility.Some? && (|randomAbility.value| < 4 ||
      (chanceCards.Some? && (|chanceCards.value| < 4 ||
      |opponentCat.value| == 4 || |randomAbility.value| == 4 || |chanceCards.value| == 4)))))))
    ensures r.Ok? && r.value.Some? ==>
      var g := r.value.value;
      && opponentCat.Some? && randomAbility.Some? && chanceCards.Some?
      && |opponentCat.value| > 4 && g.opponentCatID == opponentCat.value[4] as int
      && |randomAbility.value| > 4 && g.randomAbilityID == randomAbility.value[4] as int
      && 1 <= |g.chanceCards| <= 2 && |g.chanceCards| <= |chanceCards.value| - 4
      && forall i :: 0 <= i < |g.chanceCards| ==> g.chanceCards[i] == chanceCards.value[4 + i] as int
  {
    match Take(ready, 4)
    case None => Ok(None)
    case Some(readyResponse) =>
      match Codec.ParseResponse(readyResponse, Codec.IntBody)
      case Trap(f) => Trap(f)
      case Ok(_) =>
        match Take(opponentCat, 5)
        case None => Ok(None)
        case Some(opponentCatResponse) =>
          match Codec.ParseResponse(opponentCatResponse, Codec.IntBody)
          case Trap(f) => Trap(f)
          case Ok(opp) =>
            match Take(randomAbility, 5)
            case None => Ok(None)
            case Some(randomAbilityResponse) =>
              match Codec.ParseResponse(randomAbilityResponse, Codec.IntBody)
              case Trap(f) => Trap(f)
              case Ok(ability) =>
                match Take(chanceCards, 6)
                case None => Ok(None)
                case Some(chanceCardsResponse) =>
                  match Codec.ParseResponse(chanceCardsResponse, Codec.IntArrayBody)
                  case Trap(f) => Trap(f)
                  case Ok(chances) =>
                    if opp.bodyInt.None? || ability.bodyInt.None? || chances.bodyIntArray.None? then Trap(NilUnwrap)
                    else
                      assert chanceCardsResponse == chanceCards.value[..|chanceCardsResponse|];
                      Ok(Some(SetupGame(opp.bodyInt.value, ability.bodyInt.value, chances.bodyIntArray.value)))
  }

  /** What `sendReadyForShowingCard` posts: the opponent's move and chance
      card, each nil when its reply carried no body. */
  datatype ShowingCards = ShowingCards(opponentMoveID: Option<int>, opponentChanceID: Option<int>)

  /** After the ready frame: a 4-byte ready reply and two 5-byte replies, the
      opponent's move and the opponent's chance card, flags unchecked. */
  function ReadyForShowingCard(ready: Option<Bytes>, opponentMove: Option<Bytes>,
                               opponentChance: Option<Bytes>): (r: Result<Option<ShowingCards>>)
    ensures r.Trap? <==>
      ready.Some? && (|ready.value| < 4 ||
      (opponentMove.Some? && (|opponentMove.value| < 4 ||
      (opponentChance.Some? && |opponentChance.value| < 4))))
    ensures r.Ok? ==> (r.value.Some? <==> ready.Some? && opponentMove.Some? && opponentChance.Some?)
    ensures r.Ok? && r.value.Some? ==>
      var s := r.value.value;
      && (s.opponentMoveID.Some? <==> |opponentMove.value| > 4)
      && (s.opponentMoveID.Some? ==> s.opponentMoveID.value == opponentMove.value[4] as int)
      && (s.opponentChanceID.Some? <==> |opponentChance.value| > 4)
      && (s.opponentChanceID.Some? ==> s.opponentChanceID.value == opponentChance.value[4] as int)
  {
    match Take(ready, 4)
    case None => Ok(None)
    case Some(readyResponse) =>
      match Codec.ParseResponse(readyResponse, Codec.IntBody)
      case Trap(f) => Trap(f)
      case Ok(_) =>
        match Take(opponentMove, 5)
        case None => Ok(None)
        case Some(moveResponse) =>
          match Codec.ParseResponse(moveResponse, Codec.IntBody)
          case Trap(f) => Trap(f)
          case Ok(move) =>
            match Take(opponentChance, 5)
            case None => Ok(None)
            case Some(chanceResponse) =>
              match Codec.ParseResponse(chanceResponse, Codec.IntBody)
              case Trap(f) => Trap(f)
              case Ok(chance) => Ok(Some(ShowingCards(move.bodyInt, chance.bodyInt)))
  }

  /** What `sendReadyForStrategySettlement` posts. */
  datatype Settlement = Settlement(playerHP: Option<int>, opponentHP: Option<int>, chanceCards: Option<seq<int>>)

  /** Where one HP reply lands: on the player for the player-HP flag, on the
      opponent for any other flag. */
  function AssignHP(flag: byte, hp: Option<int>, playerHP: Option<int>, opponentHP: Option<int>): (r: (Option<int>, Option<int>))
    ensures flag == Flags.PlayerGainHP ==> r == (hp, opponentHP)
    ensures flag != Flags.PlayerGainHP ==> r == (playerHP, hp)
  {
    if flag == Flags.PlayerGainHP then (hp, opponentHP) else (playerHP, hp)
  }

  /** After the ready frame: a 4-byte ready reply, two 5-byte HP replies and
      up to 10 bytes of chance cards. Both HPs start at 0. */
  function ReadyForStrategySettlement(ready: Option<Bytes>, hp1: Option<Bytes>, hp2: Option<Bytes>,
                                      chanceCards: Option<Bytes>): (r: Result<Option<Settlement>>)
    ensures r.Ok? ==> (r.value.Some? <==> ready.Some? && hp1.Some? && hp2.Some? && chanceCards.Some?)
    ensures r.Trap? <==>
      ready.Some? && (|ready.value| < 4 ||
      (hp1.Some? && (|hp1.value| < 4 ||
      (hp2.Some? && (|hp2.value| < 4 ||
      (chanceCards.Some? && |chanceCards.value| < 4))))))
    ensures r.Ok? && r.value.Some? ==> |hp1.value| >= 4 && |hp2.value| >= 4
    ensures r.Ok? && r.value.Some? && |hp1.value| >= 4 && |hp2.value| >= 4 ==>
      var s := r.value.value;
      var f1, f2 := hp1.value[0], hp2.value[0];
      var v1 := if |hp1.value| > 4 then Some(hp1.value[4] as int) else None;
      var v2 := if |hp2.value| > 4 then Some(hp2.value[4] as int) else None;
      && (f2 == Flags.PlayerGainHP ==> s.playerHP == v2)
      && (f2 != Flags.PlayerGainHP ==> s.opponentHP == v2)
      && (f1 == Flags.PlayerGainHP && f2 != Flags.PlayerGainHP ==> s.playerHP == v1)
      && (f1 != Flags.PlayerGainHP && f2 == Flags.PlayerGainHP ==> s.opponentHP == v1)
      && (f1 == Flags.PlayerGainHP && f2 == Flags.PlayerGainHP ==> s.opponentHP == Some(0))
      && (f1 != Flags.PlayerGainHP && f2 != Flags.PlayerGainHP ==> s.playerHP == Some(0))
      && (s.chanceCards.Some? <==> |chanceCards.value| > 4)
      && (s.chanceCards.Some? ==>
            && 1 <= |s.chanceCards.value| <= 6 && |s.chanceCards.value| <= |chanceCards.value| - 4
            && forall i :: 0 <= i < |s.chanceCards.value| ==> s.chanceCards.value[i] == chanceCards.value[4 + i] as int)
  {
    match Take(ready, 4)
    case None => Ok(None)
    case Some(readyResponse) =>
      match Codec.ParseResponse(readyResponse, Codec.IntBody)
      case Trap(f) => Trap(f)
      case Ok(_) =>
        match Take(hp1, 5)
        case None => Ok(None)
        case Some(hpResponse1) =>
          match Codec.ParseResponse(hpResponse1, Codec.IntBody)
          case Trap(f) => Trap(f)
          case Ok(p1) =>
            var (playerHP, opponentHP) := AssignHP(p1.flag, p1.bodyInt, Some(0), Some(0));
            match Take(hp2, 5)
            case None => Ok(None)
            case Some(hpResponse2) =>
              match Codec.ParseResponse(hpResponse2, Codec.IntBody)
              case Trap(f) => Trap(f)
              case Ok(p2) =>
                var (playerHP', opponentHP') := AssignHP(p2.flag, p2.bodyInt, playerHP, opponentHP);
                match Take(chanceCards, 10)
                case None => Ok(None)
                case Some(chanceCardsResponse) =>
                  match Codec.ParseResponse(chanceCardsResponse, Codec.IntArrayBody)
                  case Trap(f) => Trap(f)
                  case Ok(chances) => Ok(Some(Settlement(playerHP', opponentHP', chances.bodyIntArray)))
  }

  // ---------------------------------------------------------------------------
  // The continuous read loop

  /** The dictionary the loop posts for one frame. */
  datatype Delivered = Delivered(flag: byte, bodySize: nat, body: Option<Bytes>)

  /** One pass of the loop, given what the header read returned and what the
      body read would return: no dispatch for a nil or short header; the body
      is read only when the declared size is positive, and is whatever that
      read returned. */
  function LoopIteration(header: Option<Bytes>, body: Option<Bytes>): (r: Option<Delivered>)
    ensures r.None? <==> header.None? || |header.value| < Codec.HeaderSize
    ensures r.Some? ==>
      && r.value.flag == header.value[0]
      && r.value.bodySize == header.value[1] as int * 65536 + header.value[2] as int * 256 + header.value[3] as int
      && (r.value.body == if r.value.bodySize > 0 then body else None)
  {
    match header
    case None => None
    case Some(h) =>
      if |h| < Codec.HeaderSize then None
      else
        var hd := Codec.DecodeHeader(h);
        Some(Delivered(hd.flag, hd.bodySize, if hd.bodySize > 0 then body else None))
  }

  /** A blocking read on a stream that ends: nil once nothing is left,
      otherwise the next n bytes, or all that is left when fewer remain. */
  function Read(stream: Bytes, n: nat): (r: (Option<Bytes>, Bytes))
    requires n > 0
    ensures stream == [] ==> r == (None, [])
    ensures stream != [] ==> r.0.Some? && r.0.value + r.1 == stream && |r.0.value| == if |stream| < n then |stream| else n
  {
    if stream == [] then (None, [])
    else if |stream| < n then (Some(stream), [])
    else (Some(stream[..n]), stream[n..])
  }

  /** Every frame the loop posts, in order, while reading the given stream to
      its end. */
  function ReadLoop(stream: Bytes): seq<Delivered>
    decreases |stream|
  {
    if stream == [] then []
    else
      var (header, afterHeader) := Read(stream, Codec.HeaderSize);
      var size := if |header.value| >= Codec.HeaderSize then Codec.DecodeHeader(header.value).bodySize else 0;
      var (body, afterBody) := if size > 0 then Read(afterHeader, size) else (None, afterHeader);
      assert |afterBody| <= |afterHeader| < |stream|;
      var next := ReadLoop(afterBody);
      match LoopIteration(header, body)
      case None => next
      case Some(d) => [d] + next
  }

  /** A frame as the server writes it. */
  datatype WireFrame = WireFrame(flag: byte, body: Bytes)

  predicate Writable(fs: seq<WireFrame>) {
    forall i :: 0 <= i < |fs| ==> |fs[i].body| < Codec.MaxBodySize
  }

  function EncodeFrames(fs: seq<WireFrame>): Bytes
    requires Writable(fs)
  {
    if fs == [] then [] else Codec.EncodeFrame(fs[0].flag, fs[0].body) + EncodeFrames(fs[1..])
  }

  /** What the loop posts for a frame: its flag and size, and its body unless
      the body is empty. */
  function Posted(f: WireFrame): Delivered {
    Delivered(f.flag, |f.body|, if |f.body| > 0 then Some(f.body) else None)
  }

  function AllPosted(fs: seq<WireFrame>): (r: seq<Delivered>)
    ensures |r| == |fs|
  {
    if fs == [] then [] else [Posted(fs[0])] + AllPosted(fs[1..])
  }

  /** Round trip: on a stream of whole frames, the loop posts each frame once,
      in order, with its flag, size and body. */
  lemma {:induction false} ReadLoopRecoversFrames(fs: seq<WireFrame>)
    requires Writable(fs)
    ensures ReadLoop(EncodeFrames(fs)) == AllPosted(fs)
  {
    if fs != [] {
      var f := fs[0];
      var e := Codec.EncodeFrame(f.flag, f.body);
      var tail := EncodeFrames(fs[1..]);
      var stream := e + tail;
      assert stream[..Codec.HeaderSize] == e[..Codec.HeaderSize];
      assert stream[Codec.HeaderSize..] == f.body + tail by {
        assert e[Codec.HeaderSize..] == f.body;
      }
      if |f.body| > 0 {
        assert (f.body + tail)[..|f.body|] == f.body;
        assert (f.body + tail)[|f.body|..] == tail;
      }
      ReadFrameAt(stream, f, tail);
      ReadLoopRecoversFrames(fs[1..]);
    }
  }

  /** One loop step on a stream that starts with a whole frame. */
  lemma ReadFrameAt(stream: Bytes, f: WireFrame, tail: Bytes)
    requires |f.body| < Codec.MaxBodySize
    requires stream == Codec.EncodeFrame(f.flag, f.body) + tail
    ensures ReadLoop(stream) == [Posted(f)] + ReadLoop(tail)
  {
    var e := Codec.EncodeFrame(f.flag, f.body);
    var (header, afterHeader) := Read(stream, Codec.HeaderSize);
    assert header.value == e[..Codec.HeaderSize];
    assert Codec.DecodeHeader(header.value) == Codec.DecodeHeader(e);
    assert afterHeader == f.body + tail by {
      assert e[Codec.HeaderSize..] == f.body;
    }
    if |f.body| > 0 {
      var (body, afterBody) := Read(afterHeader, |f.body|);
      assert (f.body + tail)[..|f.body|] == f.body;
      assert body == Some(f.body) && afterBody == tail;
    }
  }

  /** A body cut short by the end of the stream is posted as it is, with the
      declared size: nothing reports the missing bytes. */
  lemma ShortBodyIsPosted(flag: byte, declared: nat, available: Bytes)
    requires 0 < |available| < declared < Codec.MaxBodySize
    ensures ReadLoop([flag] + BigEndian.ToBytes(declared, 3) + available) ==
      [Delivered(flag, declared, Some(available))]
  {
    var stream := [flag] + BigEndian.ToBytes(declared, 3) + available;
    var (header, afterHeader) := Read(stream, Codec.HeaderSize);
    HeaderOf(flag, declared, available);
    assert afterHeader == available;
    var (body, afterBody) := Read(afterHeader, declared);
    assert body == Some(available) && afterBody == [];
    assert LoopIteration(header, body) == Some(Delivered(flag, declared, Some(available)));
  }

  /** The first four bytes of a stream that starts with a flag and a
      three-byte size decode to that flag and size. */
  lemma HeaderOf(flag: byte, n: nat, rest: Bytes)
    requires n < Codec.MaxBodySize
    ensures var s := [flag] + BigEndian.ToBytes(n, 3) + rest;
      Codec.DecodeHeader(s[..Codec.HeaderSize]) == Codec.Header(flag, n)
  {
    var h := [flag] + BigEndian.ToBytes(n, 3);
    assert ([flag] + BigEndian.ToBytes(n, 3) + rest)[..Codec.HeaderSize] == h;
    var x := Codec.DecodeHeader(h).bodySize;
    assert BigEndian.ToBytes(x, 3) == BigEndian.ToBytes(n, 3) by {
      assert h[1..4] == BigEndian.ToBytes(n, 3);
    }
    BigEndian.ValueOfToBytes(x, 3);
    BigEndian.ValueOfToBytes(n, 3);
    Codec.Pow256Three();
    Codec.SmallMod(x);
    Codec.SmallMod(n);
    assert x == BigEndian.Value(BigEndian.ToBytes(n, 3)) == n;
  }

  // ---------------------------------------------------------------------------
  // Starting the read loop

  /** `startReadingGameServerResponse` as written: after connecting, it
      returns unless the loop has ALREADY been started, so the flag that would
      be set afterwards is never set. Answers whether a loop is launched, and
      the flag afterwards. */
  function StartReadingAsWritten(started: bool, connected: bool): (r: (bool, bool))
    ensures r.0 <==> connected && started
    ensures r.1 == started
  {
    if !connected then (false, started)
    else if !started then (false, started)
    else (true, true)
  }

  /** The evident intent: launch the loop the first time through, and never
      again once it runs. */
  function StartReading(started: bool, connected: bool): (r: (bool, bool))
    ensures r.0 <==> connected && !started
    ensures r.1 <==> started || connected
  {
    if !connected then (false, started)
    else if started then (false, started)
    else (true, true)
  }

  /** Loops launched over a run of calls (each call's connect outcome given). */
  function LaunchesAsWritten(started: bool, calls: seq<bool>): nat
    decreases |calls|
  {
    if calls == [] then 0
    else
      var (launch, started') := StartReadingAsWritten(started, calls[0]);
      (if launch then 1 else 0) + LaunchesAsWritten(started', calls[1..])
  }

  function Launches(started: bool, calls: seq<bool>): nat
    decreases |calls|
  {
    if calls == [] then 0
    else
      var (launch, started') := StartReading(started, calls[0]);
      (if launch then 1 else 0) + Launches(started', calls[1..])
  }

  /** As written, the loop never starts: from the initial flag (false), no
      run of calls launches it, so no inbound frame is ever posted. */
  lemma {:induction false} StartReadingAsWrittenNeverLaunches(calls: seq<bool>)
    ensures LaunchesAsWritten(false, calls) == 0
  {
    if calls != [] {
      StartReadingAsWrittenNeverLaunches(calls[1..]);
    }
  }

  /** With the guard the right way round, the loop is launched exactly once,
      at the first call that finds the client connected. */
  lemma {:induction false} StartReadingLaunchesOnce(calls: seq<bool>)
    ensures Launches(false, calls) == if true in calls then 1 else 0
  {
    if calls != [] {
      if calls[0] {
        NoRelaunch(calls[1..]);
      } else {
        StartReadingLaunchesOnce(calls[1..]);
        assert true in calls <==> true in calls[1..];
      }
    }
  }

  lemma {:induction false} NoRelaunch(calls: seq<bool>)
    ensures Launches(true, calls) == 0
  {
    if calls != [] {
      NoRelaunch(calls[1..]);
    }
  }
}
