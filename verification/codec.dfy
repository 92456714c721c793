/** The game-server frame codec of KWNetwork.swift.

    Inbound frames are `[flag:1][size:3, big-endian][body]`; outbound requests
    put the session token between the flag and the size:
    `[flag:1][token][size:3][payload]`. The token is the UTF-8 writing of the
    stored token string, 24 bytes long for a token the web server issued. */
module Codec {
  import opened Basics
  import BigEndian
  import Utf8
  import Decimal
  import Flags

  const HeaderSize: nat := 4
  const TokenSize: nat := 24
  /** One more than the largest size three bytes can carry. */
  const MaxBodySize: nat := 0x100_0000

  lemma Pow256Three()
    ensures BigEndian.Pow256(3) == MaxBodySize
  {
  }

  /** A size that fits in three bytes is its own remainder. */
  lemma SmallMod(x: nat)
    requires x < MaxBodySize
    ensures x % MaxBodySize == x
  {
  }

  // ---------------------------------------------------------------------------
  // Inbound frames

  datatype Header = Header(flag: byte, bodySize: nat)

  /** Header decoding: the flag is the first byte; the size is the next three
      bytes behind five zero bytes, read as a big-endian 64-bit integer. */
  function DecodeHeader(h: Bytes): (r: Header)
    requires |h| >= HeaderSize
    ensures r.flag == h[0]
    ensures r.bodySize == h[1] as int * 65536 + h[2] as int * 256 + h[3] as int
    ensures r.bodySize < MaxBodySize
    ensures BigEndian.ToBytes(r.bodySize, 3) == h[1..4]
  {
    var sizeBytes := h[1..4];
    BigEndian.LeadingZeros([0, 0, 0, 0, 0], sizeBytes);
    BigEndian.ToBytesOfValue(sizeBytes);
    BigEndian.Value3(sizeBytes);
    Pow256Three();
    Header(h[0], BigEndian.Value([0, 0, 0, 0, 0] + sizeBytes))
  }

  /** How the server writes a frame to the client (the inverse of the header
      decoding followed by the body). */
  function EncodeFrame(flag: byte, body: Bytes): (r: Bytes)
    requires |body| < MaxBodySize
    ensures |r| == HeaderSize + |body| && r[HeaderSize..] == body
    ensures DecodeHeader(r) == Header(flag, |body|)
  {
    var sizeBytes := BigEndian.ToBytes(|body|, 3);
    var r := [flag] + sizeBytes + body;
    BigEndian.ValueOfToBytes(|body|, 3);
    Pow256Three();
    assert BigEndian.Value(sizeBytes) == |body|;
    assert r[1..4] == sizeBytes;
    BigEndian.LeadingZeros([0, 0, 0, 0, 0], sizeBytes);
    r
  }

  /** How a response body is to be read (`KWNetwork.BodyType`). */
  datatype BodyType = IntBody | StringBody | IntArrayBody | JsonBody

  /** The tuple `parseGameServerResponse` returns. */
  datatype Parsed = Parsed(
    flag: byte,
    sizeOfBody: nat,
    bodyString: Option<string>,
    bodyInt: Option<int>,
    bodyIntArray: Option<seq<int>>)

  /** One int per byte, in order. */
  function IntsOf(b: Bytes): (r: seq<int>)
    ensures |r| == |b|
    ensures forall i :: 0 <= i < |b| ==> r[i] == b[i] as int
  {
    if b == [] then [] else [b[0] as int] + IntsOf(b[1..])
  }

  /** `parseGameServerResponse`: the header of the response, and its bytes
      after the header read the way bodyType says. The body is taken from
      what was read, whatever the size field declares. A response shorter than
      the header traps (the size bytes are subscripted), and so does a string
      body that is not UTF-8 (it is force-unwrapped when logged); a string
      body is read as Foundation reads it, dropping a leading byte-order
      mark. */
  function ParseResponse(response: Bytes, bodyType: BodyType): (r: Result<Parsed>)
    ensures r.Trap? <==>
      |response| < HeaderSize ||
      (bodyType == StringBody && |response| > HeaderSize && Utf8.Decode(response[HeaderSize..]).None?)
    ensures r.Ok? ==> Header(r.value.flag, r.value.sizeOfBody) == DecodeHeader(response)
    ensures r.Ok? ==> (r.value.bodyInt.Some? <==> bodyType == IntBody && |response| > HeaderSize)
    ensures r.Ok? && r.value.bodyInt.Some? ==> r.value.bodyInt.value == response[HeaderSize] as int
    ensures r.Ok? ==> (r.value.bodyIntArray.Some? <==> bodyType == IntArrayBody && |response| > HeaderSize)
    ensures r.Ok? && r.value.bodyIntArray.Some? ==>
      var a := r.value.bodyIntArray.value;
      |a| == |response| - HeaderSize &&
      forall i :: 0 <= i < |a| ==> a[i] == response[HeaderSize + i] as int
    ensures r.Ok? ==> (r.value.bodyString.Some? <==> bodyType == StringBody && |response| > HeaderSize)
    ensures r.Ok? && r.value.bodyString.Some? ==>
      Utf8.Encode(r.value.bodyString.value) == Utf8.AfterBom(response[HeaderSize..])
  {
    if |response| < HeaderSize then Trap(IndexOutOfRange)
    else
      var h := DecodeHeader(response);
      var body := response[HeaderSize..];
      if |response| <= HeaderSize then Ok(Parsed(h.flag, h.bodySize, None, None, None))
      else
        match bodyType
        case IntBody => Ok(Parsed(h.flag, h.bodySize, None, Some(response[HeaderSize] as int), None))
        case StringBody =>
          (match Utf8.ReadText(body)
           case None => Trap(NilUnwrap)
           case Some(text) => Ok(Parsed(h.flag, h.bodySize, Some(text), None, None)))
        case IntArrayBody => Ok(Parsed(h.flag, h.bodySize, None, None, Some(IntsOf(body))))
        case JsonBody => Ok(Parsed(h.flag, h.bodySize, None, None, None))
  }

  /** A one-byte int body written by the server parses back to its flag, size
      1 and the byte. */
  lemma ParseIntFrame(flag: byte, x: byte)
    ensures ParseResponse(EncodeFrame(flag, [x]), IntBody) == Ok(Parsed(flag, 1, None, Some(x as int), None))
  {
    assert EncodeFrame(flag, [x])[HeaderSize] == x;
  }

  /** A non-empty string body written by the server parses back to its
      flag, size and text, provided the text does not start with a
      byte-order mark (one that does would lose it). */
  lemma ParseStringFrame(flag: byte, text: string)
    requires text != [] && text[0] != Utf8.Bom
    requires |Utf8.Encode(text)| < MaxBodySize
    ensures ParseResponse(EncodeFrame(flag, Utf8.Encode(text)), StringBody) ==
      Ok(Parsed(flag, |Utf8.Encode(text)|, Some(text), None, None))
  {
    Utf8.ReadTextOfEncode(text);
  }

  /** An empty body parses back to its flag and size 0, with no body value of
      any kind. */
  lemma ParseEmptyFrame(flag: byte, bodyType: BodyType)
    ensures ParseResponse(EncodeFrame(flag, []), bodyType) == Ok(Parsed(flag, 0, None, None, None))
  {
  }

  // ---------------------------------------------------------------------------
  // Byte helpers

  /** `bytesToInt`: the first byte, or 0 for no bytes. */
  function BytesToInt(bytes: Bytes): (r: int)
    ensures 0 <= r < 256
    ensures |bytes| == 0 ==> r == 0
    ensures |bytes| > 0 ==> r == bytes[0] as int
  {
    if |bytes| > 0 then bytes[0] as int else 0
  }

  /** `bytesToString`: "" for no bytes; otherwise the UTF-8 text the bytes
      spell with a leading byte-order mark dropped, trapping on bytes that
      are not UTF-8 (the result is force-unwrapped). */
  function BytesToString(bytes: Bytes): (r: Result<string>)
    ensures |bytes| == 0 ==> r == Ok("")
    ensures r.Trap? <==> Utf8.Decode(bytes).None?
    ensures r.Ok? ==> Utf8.Encode(r.value) == Utf8.AfterBom(bytes)
  {
    if |bytes| > 0 then
      match Utf8.ReadText(bytes)
      case None => Trap(NilUnwrap)
      case Some(text) => Ok(text)
    else Ok("")
  }

  /** `bytesToIntArray`: one int per byte, in order. */
  method BytesToIntArray(bytes: Bytes) returns (intArray: seq<int>)
    ensures |intArray| == |bytes|
    ensures forall i :: 0 <= i < |bytes| ==> intArray[i] == bytes[i] as int
  {
    intArray := [];
    var k := 0;
    while k < |bytes|
      invariant 0 <= k <= |bytes|
      invariant |intArray| == k
      invariant forall i :: 0 <= i < k ==> intArray[i] == bytes[i] as int
    {
      intArray := intArray + [bytes[k] as int];
      k := k + 1;
    }
  }

  // ---------------------------------------------------------------------------
  // Outbound requests

  /** `DSConvertor.intToByteArray`, taken to be the eight-byte big-endian
      writing of a Swift `Int` (only non-negative sizes are passed to it). */
  function IntToByteArray(n: nat): (r: Bytes)
    ensures |r| == 8
    ensures BigEndian.Value(r) == n % BigEndian.Pow256(8)
  {
    BigEndian.ValueOfToBytes(n, 8);
    BigEndian.ToBytes(n, 8)
  }

  /** `getMessagePrefix`: the flag, the token bytes, then the last three bytes
      of the size's eight-byte writing, i.e. the size modulo 2^24. */
  function MessagePrefix(flag: byte, token: string, sizeOfData: nat): (r: Bytes)
    ensures |r| == 1 + |Utf8.Encode(token)| + 3
    ensures r[0] == flag
    ensures r[1..1 + |Utf8.Encode(token)|] == Utf8.Encode(token)
    ensures BigEndian.Value(r[|r| - 3..]) == sizeOfData % MaxBodySize
  {
    var sizeByteArray := IntToByteArray(sizeOfData);
    var r := [flag] + Utf8.Encode(token) + sizeByteArray[5..];
    BigEndian.SuffixOfToBytes(sizeOfData, 8, 3);
    BigEndian.ValueOfToBytes(sizeOfData, 3);
    Pow256Three();
    assert r[|r| - 3..] == sizeByteArray[5..];
    r
  }

  /** Seen through the header rule, the prefix's flag and size bytes give back
      the flag and the size, for any size that fits in three bytes. */
  lemma PrefixHeaderDecodes(flag: byte, token: string, n: nat)
    requires n < MaxBodySize
    ensures var p := MessagePrefix(flag, token, n);
      DecodeHeader([p[0]] + p[|p| - 3..]) == Header(flag, n)
  {
    var p := MessagePrefix(flag, token, n);
    var sizeBytes := p[|p| - 3..];
    SmallMod(n);
    assert |sizeBytes| == 3 && BigEndian.Value(sizeBytes) == n;
    var h := [p[0]] + sizeBytes;
    assert h[0] == flag && h[1] == sizeBytes[0] && h[2] == sizeBytes[1] && h[3] == sizeBytes[2];
    BigEndian.Value3(sizeBytes);
    assert DecodeHeader(h).bodySize == n;
  }

  /** The requests the client sends. */
  datatype Request =
    | Login(username: string)
    | FindMatch
    | SelectCat(catID: int)
    | Ready
    | UseAbility(abilityID: int)
    | SelectMove(moveID: int)
    | SelectChanceCard(chanceCardID: int)

  function RequestFlag(req: Request): byte {
    match req
    case Login(_) => Flags.Login
    case FindMatch => Flags.FindMatch
    case SelectCat(_) => Flags.SelectCat
    case Ready => Flags.Ready
    case UseAbility(_) => Flags.UseAbility
    case SelectMove(_) => Flags.SelectMove
    case SelectChanceCard(_) => Flags.SelectChance
  }

  /** The size the request declares: the username's character count for a
      login, 0 for the bodiless requests, and 1 for every single-id request. */
  function DeclaredSize(req: Request): nat {
    match req
    case Login(username) => |username|
    case FindMatch => 0
    case Ready => 0
    case _ => 1
  }

  /** The bytes after the size: the username's bytes, nothing, or the decimal
      text of the id. */
  function Payload(req: Request): Bytes {
    match req
    case Login(username) => Utf8.Encode(username)
    case FindMatch => []
    case Ready => []
    case SelectCat(id) => Utf8.Encode(Decimal.Text(id))
    case UseAbility(id) => Utf8.Encode(Decimal.Text(id))
    case SelectMove(id) => Utf8.Encode(Decimal.Text(id))
    case SelectChanceCard(id) => Utf8.Encode(Decimal.Text(id))
  }

  /** The bytes a request puts on the wire. */
  function EncodeRequest(token: string, req: Request): (r: Bytes)
    ensures var t := |Utf8.Encode(token)|;
      && |r| == t + 4 + |Payload(req)|
      && r[0] == RequestFlag(req)
      && r[1..1 + t] == Utf8.Encode(token)
      && BigEndian.Value(r[1 + t..4 + t]) == DeclaredSize(req) % MaxBodySize
      && r[4 + t..] == Payload(req)
  {
    var prefix := MessagePrefix(RequestFlag(req), token, DeclaredSize(req));
    PrefixThenPayload(prefix, Payload(req), |Utf8.Encode(token)|);
    prefix + Payload(req)
  }

  /** The parts of a prefix of t + 4 bytes followed by a payload. */
  lemma PrefixThenPayload(prefix: Bytes, payload: Bytes, t: nat)
    requires |prefix| == t + 4
    ensures var r := prefix + payload;
      && |r| == t + 4 + |payload|
      && r[0] == prefix[0]
      && r[1..1 + t] == prefix[1..1 + t]
      && r[1 + t..4 + t] == prefix[|prefix| - 3..]
      && r[4 + t..] == payload
  {
  }

  /** The declared size matches the payload exactly when the username is
      ASCII, for a login, and when the id is a single digit 0..9, for a
      single-id request. */
  lemma DeclaredSizeMatchesPayload(req: Request)
    ensures DeclaredSize(req) == |Payload(req)| <==>
      match req
      case Login(username) => Utf8.IsAscii(username)
      case FindMatch => true
      case Ready => true
      case SelectCat(id) => 0 <= id <= 9
      case UseAbility(id) => 0 <= id <= 9
      case SelectMove(id) => 0 <= id <= 9
      case SelectChanceCard(id) => 0 <= id <= 9
  {
    match req
    case Login(_) =>
    case FindMatch =>
    case Ready =>
    case SelectCat(id) => DigitTextIsOneByte(id);
    case UseAbility(id) => DigitTextIsOneByte(id);
    case SelectMove(id) => DigitTextIsOneByte(id);
    case SelectChanceCard(id) => DigitTextIsOneByte(id);
  }

  lemma DigitTextIsOneByte(id: int)
    ensures |Utf8.Encode(Decimal.Text(id))| == 1 <==> 0 <= id <= 9
  {
  }

  // ---------------------------------------------------------------------------
  // The server's reading of a request (a reference for the round trip)

  /** A request as the server separates it: flag, token, payload. */
  datatype Inbound = Inbound(flag: byte, token: Bytes, payload: Bytes)

  /** The server reads a flag, a 24-byte token, a 3-byte size and that many
      payload bytes, and leaves the rest of the stream for the next request. */
  function ServerRead(stream: Bytes): (r: Option<(Inbound, Bytes)>)
    ensures r.Some? ==> |r.value.1| < |stream|
  {
    if |stream| < TokenSize + 4 then None
    else
      var size := BigEndian.Value(stream[1 + TokenSize..4 + TokenSize]);
      if |stream| < TokenSize + 4 + size then None
      else
        var inbound := Inbound(stream[0], stream[1..1 + TokenSize], stream[4 + TokenSize..4 + TokenSize + size]);
        Some((inbound, stream[4 + TokenSize + size..]))
  }

  /** Round trip: with a 24-byte token and a declared size that matches the
      payload, the server reads back the flag, the token and the payload, and
      the bytes after the request are left untouched. */
  lemma ServerReadsRequest(token: string, req: Request, more: Bytes)
    requires |Utf8.Encode(token)| == TokenSize
    requires DeclaredSize(req) == |Payload(req)| < MaxBodySize
    ensures ServerRead(EncodeRequest(token, req) + more) ==
      Some((Inbound(RequestFlag(req), Utf8.Encode(token), Payload(req)), more))
  {
    var e := EncodeRequest(token, req);
    SmallMod(DeclaredSize(req));
    ServerReadsLaidOut(e, Utf8.Encode(token), Payload(req), more);
  }

  /** A request laid out as flag, token, size field and payload, with the
      size field equal to the payload length, is read back whole. */
  lemma ServerReadsLaidOut(e: Bytes, t: Bytes, payload: Bytes, more: Bytes)
    requires |t| == TokenSize && |e| == TokenSize + 4 + |payload|
    requires e[1..1 + TokenSize] == t && e[4 + TokenSize..] == payload
    requires BigEndian.Value(e[1 + TokenSize..4 + TokenSize]) == |payload|
    ensures ServerRead(e + more) == Some((Inbound(e[0], t, payload), more))
  {
    var sizeBytes := e[1 + TokenSize..4 + TokenSize];
    assert e[..1] == [e[0]];
    SplitFour(e, 1, 1 + TokenSize, 4 + TokenSize);
    assert e == [e[0]] + t + sizeBytes + payload;
    ServerReadsFrame(e[0], t, sizeBytes, payload, more);
  }

  /** A sequence is the concatenation of its slices at three cut points. */
  lemma SplitFour<T>(e: seq<T>, i: nat, j: nat, k: nat)
    requires i <= j <= k <= |e|
    ensures e == e[..i] + e[i..j] + e[j..k] + e[k..]
  {
    assert e[..k] == e[..i] + e[i..j] + e[j..k];
  }

  /** The server's reading of one laid-out request followed by more bytes. */
  lemma ServerReadsFrame(flag: byte, t: Bytes, sizeBytes: Bytes, payload: Bytes, more: Bytes)
    requires |t| == TokenSize && |sizeBytes| == 3
    requires BigEndian.Value(sizeBytes) == |payload|
    ensures ServerRead([flag] + t + sizeBytes + payload + more) == Some((Inbound(flag, t, payload), more))
  {
    var s := [flag] + t + sizeBytes + payload + more;
    var n := |payload|;
    assert s[1..1 + TokenSize] == t;
    assert s[1 + TokenSize..4 + TokenSize] == sizeBytes;
    assert s[4 + TokenSize..4 + TokenSize + n] == payload;
    assert s[4 + TokenSize + n..] == more;
  }

  /** A two-digit id breaks the framing: `selectCat(12)` declares one byte, so
      the server takes "1" as the id and "2" as the start of the next request. */
  lemma ServerMisreadsTwoDigitId(token: string)
    requires |Utf8.Encode(token)| == TokenSize
    ensures ServerRead(EncodeRequest(token, SelectCat(12))) ==
      Some((Inbound(Flags.SelectCat, Utf8.Encode(token), ['1' as byte]), ['2' as byte]))
  {
    var e := EncodeRequest(token, SelectCat(12));
    TwelvePayload();
    assert |e| == TokenSize + 6;
    assert e[4 + TokenSize..] == ['1' as byte, '2' as byte];
    assert DeclaredSize(SelectCat(12)) == 1;
    SmallMod(1);
    assert BigEndian.Value(e[1 + TokenSize..4 + TokenSize]) == 1;
    ServerReadsShort(e, 1);
    assert e[4 + TokenSize..5 + TokenSize] == ['1' as byte];
    assert e[5 + TokenSize..] == ['2' as byte];
  }

  /** The payload of `selectCat(12)`: the two digit bytes. */
  lemma TwelvePayload()
    ensures Payload(SelectCat(12)) == ['1' as byte, '2' as byte]
  {
    assert Decimal.DigitChar(1) == '1' && Decimal.DigitChar(2) == '2';
    assert Decimal.Text(12) == "12";
    assert "12"[1..] == "2";
    assert "2"[1..] == "";
  }

  /** Whatever follows the size field, the server takes exactly the size
      field's count of bytes as the payload. */
  lemma ServerReadsShort(e: Bytes, size: nat)
    requires |e| >= TokenSize + 4 + size
    requires BigEndian.Value(e[1 + TokenSize..4 + TokenSize]) == size
    ensures ServerRead(e) ==
      Some((Inbound(e[0], e[1..1 + TokenSize], e[4 + TokenSize..4 + TokenSize + size]), e[4 + TokenSize + size..]))
  {
  }
}
