/**
 Packets of the chat protocol (chats/p2p/protocol/protocol.c, layout in chats/p2p/README): a header
 of twelve bytes, the signature "p2pmu", the command, the body length and two CRCs, then the body.

 The C code reads the 16-bit fields in the order of the host; `ByteOrder` says which it is.
 */
module Protocol {
  import opened BitDivision
  import opened Crc16

  datatype ByteOrder = LittleEndian | BigEndian

  /** `p2p_header_validation_result_t` */
  datatype HeaderResult = Valid | InvalidSignature | InvalidCmd | InvalidLength | InvalidCrcHeader

  const HEADER_SIZE := 12
  /** The bytes before the two CRCs, which the header CRC covers. */
  const COVERED := 8
  const SIGNATURE: seq<bv8> := [0x70, 0x32, 0x70, 0x6D, 0x75]
  const CMD_MAX: bv8 := 9

  /** The more significant byte of a 16-bit field */
  function High(order: ByteOrder, a: bv8, b: bv8): bv8 {
    match order
    case LittleEndian => b
    case BigEndian => a
  }

  /** The less significant one */
  function Low(order: ByteOrder, a: bv8, b: bv8): bv8 {
    match order
    case LittleEndian => a
    case BigEndian => b
  }

  function U16(order: ByteOrder, a: bv8, b: bv8): bv16 {
    ((High(order, a, b) as bv16) << 8) | (Low(order, a, b) as bv16)
  }

  /** The length field as the number that `p2p_skip_packet` adds. */
  function LengthField(order: ByteOrder, h: seq<bv8>): (n: nat)
    requires |h| >= HEADER_SIZE
    ensures n < 0x1_0000
  {
    (High(order, h[6], h[7]) as int) * 256 + Low(order, h[6], h[7]) as int
  }

  /** The switch of `p2p_validate_header`: the body sizes a command allows. */
  predicate LengthAllowed(cmd: bv8, length: nat) {
    match cmd
    case 0 => length == 16  // CONNECT
    case 1 => length >= 2   // REFERENCE
    case 2 => length == 0   // CHANNEL_SWITCH
    case 3 => length == 19  // REFERENCE_ADD
    case 4 => length == 16  // REFERENCE_REMOVE
    case 5 => length == 16  // QUIT
    case 6 => length == 16  // PING
    case 7 => length == 1   // ACCEPT
    case _ => true          // MESSAGE
  }

  /** What `p2p_validate_header` answers for the header at the start of `h`. */
  function Verdict(order: ByteOrder, h: seq<bv8>): HeaderResult
    requires |h| >= HEADER_SIZE
  {
    if h[..5] != SIGNATURE then InvalidSignature
    else if h[5] >= CMD_MAX then InvalidCmd
    else if Crc(h[..COVERED]) != U16(order, h[8], h[9]) then InvalidCrcHeader
    else if !LengthAllowed(h[5], LengthField(order, h)) then InvalidLength
    else Valid
  }

  /** `p2p_validate_header` */
  method ValidateHeader(order: ByteOrder, h: seq<bv8>) returns (r: HeaderResult)
    requires |h| >= HEADER_SIZE
    ensures r == Verdict(order, h)
  {
    var i := 0;
    while i < 5
      invariant 0 <= i <= 5 && h[..i] == SIGNATURE[..i]
    {
      if SIGNATURE[i] != h[i] {
        assert h[..5][i] != SIGNATURE[i];
        return InvalidSignature;
      }
      i := i + 1;
    }
    assert SIGNATURE[..5] == SIGNATURE;
    if h[5] >= CMD_MAX { return InvalidCmd; }
    var crc := ComputeCrc(h[..COVERED]);
    if crc != U16(order, h[8], h[9]) { return InvalidCrcHeader; }
    if !LengthAllowed(h[5], LengthField(order, h)) { return InvalidLength; }
    return Valid;
  }

  /** `p2p_skip_packet`: where the next packet starts */
  function Skip(order: ByteOrder, h: seq<bv8>): (n: nat)
    requires |h| >= HEADER_SIZE
    ensures n >= 12
  {
    HEADER_SIZE + LengthField(order, h)
  }

  // ---------- writing packets ----------

  datatype Packet = Packet(cmd: bv8, body: seq<bv8>, crcData: bv16)

  predicate WellFormed(p: Packet) {
    p.cmd < CMD_MAX && |p.body| < 0x1_0000 && LengthAllowed(p.cmd, |p.body|)
  }

  function ByteOf(n: nat): bv8
    requires n < 256
  {
    if n == 0 then 0 else ByteOf(n - 1) + 1
  }

  /** The bytes of a 16-bit field, in order */
  function Placed(order: ByteOrder, high: bv8, low: bv8): (r: seq<bv8>)
    ensures |r| == 2 && High(order, r[0], r[1]) == high && Low(order, r[0], r[1]) == low
  {
    match order
    case LittleEndian => [low, high]
    case BigEndian => [high, low]
  }

  function PutLength(order: ByteOrder, n: nat): (r: seq<bv8>)
    requires n < 0x1_0000
    ensures |r| == 2
  {
    Placed(order, ByteOf(n / 256), ByteOf(n % 256))
  }

  function PutU16(order: ByteOrder, v: bv16): (r: seq<bv8>)
    ensures |r| == 2
  {
    Placed(order, (v >> 8) as bv8, (v & 0xFF) as bv8)
  }

  /** The bytes of a header before its CRCs */
  function Lead(order: ByteOrder, cmd: bv8, length: nat): (r: seq<bv8>)
    requires length < 0x1_0000
    ensures |r| == COVERED
  {
    SIGNATURE + [cmd] + PutLength(order, length)
  }

  /** A header with its own CRC */
  function Header(order: ByteOrder, cmd: bv8, length: nat, crcData: bv16): (r: seq<bv8>)
    requires length < 0x1_0000
    ensures |r| == HEADER_SIZE
  {
    var lead := Lead(order, cmd, length);
    lead + PutU16(order, Crc(lead)) + PutU16(order, crcData)
  }

  function Start(order: ByteOrder, p: Packet): (r: seq<bv8>)
    requires WellFormed(p)
    ensures |r| == COVERED
  {
    Lead(order, p.cmd, |p.body|)
  }

  function Bytes(order: ByteOrder, p: Packet): (r: seq<bv8>)
    requires WellFormed(p)
    ensures |r| == HEADER_SIZE + |p.body|
  {
    Header(order, p.cmd, |p.body|, p.crcData) + p.body
  }

  function Stream(order: ByteOrder, ps: seq<Packet>): seq<bv8>
    requires forall i :: 0 <= i < |ps| ==> WellFormed(ps[i])
  {
    if ps == [] then [] else Bytes(order, ps[0]) + Stream(order, ps[1..])
  }

  lemma NextByte(b: bv8)
    requires b < 255
    ensures (b + 1) as int == b as int + 1
  {
  }

  lemma {:induction false} ByteOfNat(n: nat)
    requires n < 256
    ensures ByteOf(n) as int == n
  {
    if n > 0 {
      ByteOfNat(n - 1);
      NextByte(ByteOf(n - 1));
    }
  }

  lemma HighByte(a: bv8, v: bv16)
    requires a == (v >> 8) as bv8
    ensures a as bv16 == v >> 8
  {
  }

  lemma LowByte(a: bv8, v: bv16)
    requires a == (v & 0xFF) as bv8
    ensures a as bv16 == v & 0xFF
  {
  }

  lemma Halves(v: bv16)
    ensures ((v >> 8) << 8) | (v & 0xFF) == v
  {
  }

  lemma U16RoundTrip(order: ByteOrder, v: bv16)
    ensures U16(order, PutU16(order, v)[0], PutU16(order, v)[1]) == v
  {
    var s := PutU16(order, v);
    HighByte(High(order, s[0], s[1]), v);
    LowByte(Low(order, s[0], s[1]), v);
    Halves(v);
  }

  // ---------- reading packets back ----------

  datatype Parsed = Done(packets: seq<Packet>) | Broken

  /** The packet that an accepted header announces */
  function Announced(order: ByteOrder, s: seq<bv8>): Packet
    requires |s| >= HEADER_SIZE && Skip(order, s) <= |s|
  {
    Packet(s[5], s[HEADER_SIZE..Skip(order, s)], U16(order, s[10], s[11]))
  }

  /** Validate, take the body, skip, and again, until the bytes are used up. */
  function Parse(order: ByteOrder, s: seq<bv8>): Parsed
    decreases |s|
  {
    if s == [] then Done([])
    else if |s| < HEADER_SIZE || Verdict(order, s) != Valid || |s| < Skip(order, s) then Broken
    else
      var n := Skip(order, s);
      match Parse(order, s[n..])
      case Broken => Broken
      case Done(ps) => Done([Announced(order, s)] + ps)
  }

  /** The fields of a header are where they belong. */
  lemma HeaderFields(order: ByteOrder, cmd: bv8, length: nat, crcData: bv16, rest: seq<bv8>)
    requires length < 0x1_0000
    ensures var s, lead := Header(order, cmd, length, crcData) + rest, Lead(order, cmd, length);
      && s[..5] == SIGNATURE && s[5] == cmd && s[..COVERED] == lead && s[6..8] == PutLength(order, length)
      && s[8..10] == PutU16(order, Crc(lead)) && s[10..12] == PutU16(order, crcData) && s[HEADER_SIZE..] == rest
  {
  }

  lemma ThreePieces(a: seq<bv8>, b: seq<bv8>, c: seq<bv8>)
    ensures var s := a + b + c;
      s == a + (b + c) && s[|a|..|a| + |b|] == b && s[|a| + |b|..] == c
  {
  }

  /** The body of a packet follows, and then what comes behind. */
  lemma Fields(order: ByteOrder, p: Packet, rest: seq<bv8>)
    requires WellFormed(p)
    ensures var s := Bytes(order, p) + rest;
      && s == Header(order, p.cmd, |p.body|, p.crcData) + (p.body + rest)
      && s[HEADER_SIZE..HEADER_SIZE + |p.body|] == p.body && s[HEADER_SIZE + |p.body|..] == rest
  {
    ThreePieces(Header(order, p.cmd, |p.body|, p.crcData), p.body, rest);
  }

  lemma LengthRoundTrip(order: ByteOrder, h: seq<bv8>, n: nat)
    requires |h| >= HEADER_SIZE && n < 0x1_0000 && h[6..8] == PutLength(order, n)
    ensures LengthField(order, h) == n
  {
    ByteOfNat(n % 256);
    ByteOfNat(n / 256);
    assert h[6] == h[6..8][0] && h[7] == h[6..8][1];
  }

  /**
   The verdict on a header that carries its own CRC, whatever follows: an unknown command comes before
   a length that the command does not have.
   */
  lemma HeaderVerdict(order: ByteOrder, cmd: bv8, length: nat, crcData: bv16, rest: seq<bv8>)
    requires length < 0x1_0000
    ensures var s := Header(order, cmd, length, crcData) + rest;
      && (cmd >= CMD_MAX ==> Verdict(order, s) == InvalidCmd)
      && (cmd < CMD_MAX && !LengthAllowed(cmd, length) ==> Verdict(order, s) == InvalidLength)
      && (cmd < CMD_MAX && LengthAllowed(cmd, length) ==> Verdict(order, s) == Valid)
      && LengthField(order, s) == length && s[5] == cmd && U16(order, s[10], s[11]) == crcData
  {
    var s := Header(order, cmd, length, crcData) + rest;
    HeaderFields(order, cmd, length, crcData, rest);
    LengthRoundTrip(order, s, length);
    U16RoundTrip(order, Crc(Lead(order, cmd, length)));
    U16RoundTrip(order, crcData);
    assert s[8] == s[8..10][0] && s[9] == s[8..10][1];
    assert s[10] == s[10..12][0] && s[11] == s[10..12][1];
  }

  /** A packet is accepted whatever follows it, and skipping it lands exactly behind it. */
  lemma PacketIsAccepted(order: ByteOrder, p: Packet, rest: seq<bv8>)
    requires WellFormed(p)
    ensures var s := Bytes(order, p) + rest;
      && Verdict(order, s) == Valid && Skip(order, s) == |Bytes(order, p)|
      && U16(order, s[10], s[11]) == p.crcData && s[5] == p.cmd && s[..COVERED] == Start(order, p)
  {
    Fields(order, p, rest);
    HeaderFields(order, p.cmd, |p.body|, p.crcData, p.body + rest);
    HeaderVerdict(order, p.cmd, |p.body|, p.crcData, p.body + rest);
  }

  lemma ParseTakesOne(order: ByteOrder, p: Packet, rest: seq<bv8>)
    requires WellFormed(p) && Parse(order, rest).Done?
    ensures Parse(order, Bytes(order, p) + rest) == Done([p] + Parse(order, rest).packets)
  {
    PacketIsAccepted(order, p, rest);
    Fields(order, p, rest);
  }

  lemma StreamOfFirst(order: ByteOrder, p: Packet, ps: seq<Packet>)
    requires WellFormed(p) && forall i :: 0 <= i < |ps| ==> WellFormed(ps[i])
    ensures (forall i :: 0 <= i < |ps| + 1 ==> WellFormed(([p] + ps)[i]))
    ensures Stream(order, [p] + ps) == Bytes(order, p) + Stream(order, ps)
  {
    assert ([p] + ps)[1..] == ps;
  }

  lemma StreamParsesOn(order: ByteOrder, p: Packet, ps: seq<Packet>)
    requires WellFormed(p) && (forall i :: 0 <= i < |ps| ==> WellFormed(ps[i]))
    ensures (forall i :: 0 <= i < |ps| + 1 ==> WellFormed(([p] + ps)[i]))
    ensures Parse(order, Stream(order, ps)) == Done(ps) ==> Parse(order, Stream(order, [p] + ps)) == Done([p] + ps)
  {
    StreamOfFirst(order, p, ps);
    if Parse(order, Stream(order, ps)) == Done(ps) { ParseTakesOne(order, p, Stream(order, ps)); }
  }

  /** Packets laid end to end are all accepted, each boundary is met, and every field comes back. */
  lemma {:induction false} StreamParses(order: ByteOrder, ps: seq<Packet>)
    requires forall i :: 0 <= i < |ps| ==> WellFormed(ps[i])
    ensures Parse(order, Stream(order, ps)) == Done(ps)
    decreases |ps|
  {
    if ps != [] {
      var p, rest := ps[0], ps[1..];
      assert ps == [p] + rest;
      StreamParses(order, rest);
      StreamParsesOn(order, p, rest);
    }
  }

  lemma LastByte(b: bv8)
    requires b > 0
    ensures (b - 1) as int == b as int - 1
  {
  }

  lemma {:induction false} NatOfByte(b: bv8)
    ensures ByteOf(b as int) == b
    decreases b as int
  {
    if b > 0 {
      LastByte(b);
      NatOfByte(b - 1);
    }
  }

  lemma HighOfJoined(high: bv8, low: bv8)
    ensures ((((high as bv16) << 8) | (low as bv16)) >> 8) as bv8 == high
  {
  }

  lemma LowOfJoined(high: bv8, low: bv8)
    ensures ((((high as bv16) << 8) | (low as bv16)) & 0xFF) as bv8 == low
  {
  }

  /** What is read from a 16-bit field is written back as it was. */
  lemma U16WritesBack(order: ByteOrder, a: bv8, b: bv8)
    ensures PutU16(order, U16(order, a, b)) == [a, b]
  {
    HighOfJoined(High(order, a, b), Low(order, a, b));
    LowOfJoined(High(order, a, b), Low(order, a, b));
  }

  lemma Digits(high: nat, low: nat)
    requires low < 256
    ensures (high * 256 + low) / 256 == high && (high * 256 + low) % 256 == low
  {
  }

  lemma LengthOfDigits(order: ByteOrder, high: nat, low: nat)
    requires high < 256 && low < 256
    ensures PutLength(order, high * 256 + low) == Placed(order, ByteOf(high), ByteOf(low))
  {
    Digits(high, low);
  }

  lemma LengthDigits(order: ByteOrder, h: seq<bv8>) returns (high: nat, low: nat)
    requires |h| >= HEADER_SIZE
    ensures high < 256 && low < 256 && LengthField(order, h) == high * 256 + low
    ensures ByteOf(high) == High(order, h[6], h[7]) && ByteOf(low) == Low(order, h[6], h[7])
  {
    high, low := High(order, h[6], h[7]) as int, Low(order, h[6], h[7]) as int;
    NatOfByte(High(order, h[6], h[7]));
    NatOfByte(Low(order, h[6], h[7]));
  }

  lemma LengthWritesBack(order: ByteOrder, h: seq<bv8>)
    requires |h| >= HEADER_SIZE
    ensures PutLength(order, LengthField(order, h)) == h[6..8]
  {
    var high, low := LengthDigits(order, h);
    LengthOfDigits(order, high, low);
    PlacedIsField(order, h[6], h[7]);
    assert h[6..8] == [h[6], h[7]];
  }

  lemma PlacedIsField(order: ByteOrder, a: bv8, b: bv8)
    ensures Placed(order, High(order, a, b), Low(order, a, b)) == [a, b]
  {
  }

  lemma AnnouncedStart(order: ByteOrder, s: seq<bv8>)
    requires |s| >= HEADER_SIZE && Verdict(order, s) == Valid && Skip(order, s) <= |s|
    ensures WellFormed(Announced(order, s)) && Start(order, Announced(order, s)) == s[..COVERED]
  {
    LengthWritesBack(order, s);
    assert s[..COVERED] == s[..5] + [s[5]] + s[6..8];
  }

  lemma InPieces(s: seq<bv8>, n: nat)
    requires HEADER_SIZE <= n <= |s|
    ensures s[..n] == s[..COVERED] + [s[8], s[9]] + [s[10], s[11]] + s[HEADER_SIZE..n]
  {
  }

  /** It is well formed, and its bytes are those that were read. */
  lemma AcceptedIsPacket(order: ByteOrder, s: seq<bv8>)
    requires |s| >= HEADER_SIZE && Verdict(order, s) == Valid && Skip(order, s) <= |s|
    ensures WellFormed(Announced(order, s)) && Bytes(order, Announced(order, s)) + s[Skip(order, s)..] == s
  {
    AnnouncedStart(order, s);
    U16WritesBack(order, s[8], s[9]);
    U16WritesBack(order, s[10], s[11]);
    InPieces(s, Skip(order, s));
    assert s == s[..Skip(order, s)] + s[Skip(order, s)..];
  }

  lemma ParsedFirst(order: ByteOrder, s: seq<bv8>)
    requires s != [] && Parse(order, s).Done?
    ensures |s| >= HEADER_SIZE && Verdict(order, s) == Valid && Skip(order, s) <= |s|
    ensures var rest := s[Skip(order, s)..];
      Parse(order, rest).Done? && Parse(order, s).packets == [Announced(order, s)] + Parse(order, rest).packets
  {
  }

  /** Whatever is accepted is a stream of well-formed packets. */
  lemma {:induction false} ParsedIsStream(order: ByteOrder, s: seq<bv8>)
    requires Parse(order, s).Done?
    ensures var ps := Parse(order, s).packets;
      (forall i :: 0 <= i < |ps| ==> WellFormed(ps[i])) && Stream(order, ps) == s
    decreases |s|
  {
    if s != [] {
      ParsedFirst(order, s);
      var p, rest := Announced(order, s), s[Skip(order, s)..];
      AcceptedIsPacket(order, s);
      ParsedIsStream(order, rest);
      StreamOfFirst(order, p, Parse(order, rest).packets);
    }
  }

  /** So the byte strings that are accepted are exactly the streams of well-formed packets. */
  lemma ParsesIffStream(order: ByteOrder, s: seq<bv8>, ps: seq<Packet>)
    ensures Parse(order, s) == Done(ps) <==>
      (forall i :: 0 <= i < |ps| ==> WellFormed(ps[i])) && Stream(order, ps) == s
  {
    if Parse(order, s) == Done(ps) { ParsedIsStream(order, s); }
    if (forall i :: 0 <= i < |ps| ==> WellFormed(ps[i])) && Stream(order, ps) == s { StreamParses(order, ps); }
  }

  // ---------- the bodies ----------

  const NICKNAME_LENGTH := 16

  type Name = s: seq<bv8> | |s| == NICKNAME_LENGTH witness [0, 0, 0, 0, 0, 0, 0, 0, 0, 0, 0, 0, 0, 0, 0, 0]

  /** `struct p2p_reference_entry`, packed */
  datatype ReferenceEntry = ReferenceEntry(nickname: Name, port: bv16, ipFirstChar: bv8)

  /** The structures that follow a header; those that are open at their end carry the rest. */
  datatype Body =
    | Connect(nickname: Name)
    | Reference(clientsCount: bv16, entries: seq<bv8>)
    | ChannelSwitch
    | ReferenceAdd(entry: ReferenceEntry)
    | ReferenceRemove(nickname: Name)
    | Quit(nickname: Name)
    | Ping(nickname: Name)
    | Accept(code: bv8)
    | Message(text: seq<bv8>)

  function Command(b: Body): bv8 {
    match b
    case Connect(_) => 0
    case Reference(_, _) => 1
    case ChannelSwitch => 2
    case ReferenceAdd(_) => 3
    case ReferenceRemove(_) => 4
    case Quit(_) => 5
    case Ping(_) => 6
    case Accept(_) => 7
    case Message(_) => 8
  }

  function Encoded(order: ByteOrder, b: Body): seq<bv8> {
    match b
    case Connect(nickname) => nickname
    case Reference(count, entries) => PutU16(order, count) + entries
    case ChannelSwitch => []
    case ReferenceAdd(entry) => entry.nickname + PutU16(order, entry.port) + [entry.ipFirstChar]
    case ReferenceRemove(nickname) => nickname
    case Quit(nickname) => nickname
    case Ping(nickname) => nickname
    case Accept(code) => [code]
    case Message(text) => text
  }

  /** A body of that command and length */
  function SomeBody(cmd: bv8, length: nat): Body
    requires cmd < CMD_MAX && LengthAllowed(cmd, length)
  {
    var name: Name := [0, 0, 0, 0, 0, 0, 0, 0, 0, 0, 0, 0, 0, 0, 0, 0];
    match cmd
    case 0 => Connect(name)
    case 1 => Reference(0, seq(length - 2, _ => 0))
    case 2 => ChannelSwitch
    case 3 => ReferenceAdd(ReferenceEntry(name, 0, 0))
    case 4 => ReferenceRemove(name)
    case 5 => Quit(name)
    case 6 => Ping(name)
    case 7 => Accept(0)
    case _ => Message(seq(length, _ => 0))
  }

  /** The lengths that a command is allowed are exactly the lengths of its bodies. */
  lemma AllowedIffBody(order: ByteOrder, cmd: bv8, length: nat)
    requires cmd < CMD_MAX
    ensures LengthAllowed(cmd, length) <==> exists b :: Command(b) == cmd && |Encoded(order, b)| == length
  {
    if LengthAllowed(cmd, length) {
      var b := SomeBody(cmd, length);
      assert Command(b) == cmd && |Encoded(order, b)| == length;
    }
  }

  /** So a packet around any body is accepted. */
  lemma BodyIsAccepted(order: ByteOrder, b: Body, crcData: bv16, rest: seq<bv8>)
    requires |Encoded(order, b)| < 0x1_0000
    ensures var p := Packet(Command(b), Encoded(order, b), crcData);
      WellFormed(p) && Verdict(order, Bytes(order, p) + rest) == Valid
  {
    AllowedIffBody(order, Command(b), |Encoded(order, b)|);
    PacketIsAccepted(order, Packet(Command(b), Encoded(order, b), crcData), rest);
  }

  // ---------- refusals ----------

  /** A wrong byte in the signature comes before everything else. */
  lemma BadSignature(order: ByteOrder, cmd: bv8, length: nat, crcData: bv16, rest: seq<bv8>, i: nat, c: bv8)
    requires length < 0x1_0000 && i < 5 && c != SIGNATURE[i]
    ensures Verdict(order, (Header(order, cmd, length, crcData) + rest)[i := c]) == InvalidSignature
  {
    var h := (Header(order, cmd, length, crcData) + rest)[i := c];
    assert h[..5][i] == c;
  }

  /** An unknown command comes before the CRC, which no longer fits, and the length. */
  lemma BadCommand(order: ByteOrder, p: Packet, rest: seq<bv8>, cmd: bv8)
    requires WellFormed(p) && cmd >= CMD_MAX
    ensures Verdict(order, (Bytes(order, p) + rest)[5 := cmd]) == InvalidCmd
  {
    var s := Bytes(order, p) + rest;
    PacketIsAccepted(order, p, rest);
    assert s[5 := cmd][..5] == s[..5];
  }

  /** A wrong CRC comes before a length that the command does not have. */
  lemma BadCrc(order: ByteOrder, cmd: bv8, length: nat, a: bv8, b: bv8, tail: seq<bv8>)
    requires length < 0x1_0000 && cmd < CMD_MAX && |tail| >= 2 && U16(order, a, b) != Crc(Lead(order, cmd, length))
    ensures Verdict(order, Lead(order, cmd, length) + [a, b] + tail) == InvalidCrcHeader
  {
    var h := Lead(order, cmd, length) + [a, b] + tail;
    assert h[..5] == SIGNATURE && h[..COVERED] == Lead(order, cmd, length);
  }

  /** And a length that no body of the command has is refused when all the rest is right. */
  lemma BadLength(order: ByteOrder, cmd: bv8, length: nat, crcData: bv16, rest: seq<bv8>)
    requires length < 0x1_0000 && cmd < CMD_MAX
    requires forall b :: Command(b) == cmd ==> |Encoded(order, b)| != length
    ensures Verdict(order, Header(order, cmd, length, crcData) + rest) == InvalidLength
  {
    AllowedIffBody(order, cmd, length);
    HeaderVerdict(order, cmd, length, crcData, rest);
  }

  /**
   A valid header whose eight covered bytes are changed, within sixteen consecutive bits, is rejected;
   for its CRC, when signature and command are still what they were.
   */
  lemma CorruptedHeaderIsRejected(order: ByteOrder, h: seq<bv8>, h': seq<bv8>, start: nat)
    requires |h| >= HEADER_SIZE && |h'| >= HEADER_SIZE && Verdict(order, h) == Valid
    requires h[8] == h'[8] && h[9] == h'[9] && h[..COVERED] != h'[..COVERED]
    requires DifferInWindow(BitsOf(h[..COVERED]), BitsOf(h'[..COVERED]), start)
    ensures Verdict(order, h') != Valid
    ensures h[..6] == h'[..6] ==> Verdict(order, h') == InvalidCrcHeader
  {
    BurstIsDetected(h[..COVERED], h'[..COVERED], start);
    if h[..6] == h'[..6] {
      assert h'[..5] == h'[..6][..5] && h[..5] == h[..6][..5] && h[5] == h[..6][5] == h'[5];
    }
  }

  /** Which byte comes first: the number 0x1234 on a machine of either order. */
  lemma OrderOfBytes(h: seq<bv8>)
    requires |h| >= HEADER_SIZE
    ensures PutU16(LittleEndian, 0x1234) == [0x34, 0x12] && PutU16(BigEndian, 0x1234) == [0x12, 0x34]
    ensures h[6..8] == [0x34, 0x12] ==> LengthField(LittleEndian, h) == 0x1234
    ensures h[6..8] == [0x12, 0x34] ==> LengthField(BigEndian, h) == 0x1234
  {
    assert h[6] == h[6..8][0] && h[7] == h[6..8][1];
  }

  // ---------- handing packets on ----------

  datatype Handler = NoHandler | Handle(run: seq<bv8> -> bv16)

  /** `p2p_packet_validation_code_t` with what is or-ed into it */
  datatype Outcome = HeaderInvalid(why: HeaderResult) | DataInvalidCrc | NotHandled | HandlerError(code: bv16) | Ok

  /**
   `p2p_utilize_packet` as the text has it: the "data" CRC is taken over the covered bytes of the
   header once more, where chats/p2p/README puts the CRC of the body.
   */
  function Utilize(order: ByteOrder, h: seq<bv8>, body: seq<bv8>, handlers: bv8 -> Handler): Outcome
    requires |h| >= HEADER_SIZE
  {
    if Verdict(order, h) != Valid then HeaderInvalid(Verdict(order, h))
    else if Crc(h[..COVERED]) != U16(order, h[10], h[11]) then DataInvalidCrc
    else match handlers(h[5])
      case NoHandler => NotHandled
      case Handle(run) => if run(body) != 0 then HandlerError(run(body)) else Ok
  }

  /** A refused header reaches no handler, and the reason is reported. */
  lemma RefusedIsReported(order: ByteOrder, h: seq<bv8>, body: seq<bv8>, handlers: bv8 -> Handler)
    requires |h| >= HEADER_SIZE
    ensures Utilize(order, h, body, handlers).HeaderInvalid? <==> Verdict(order, h) != Valid
    ensures Verdict(order, h) != Valid ==> Utilize(order, h, body, handlers).why == Verdict(order, h)
  {
  }

  /** So behind a valid header the second CRC passes exactly when it repeats the first. */
  lemma DataCrcRepeatsHeaderCrc(order: ByteOrder, h: seq<bv8>, body: seq<bv8>, handlers: bv8 -> Handler)
    requires |h| >= HEADER_SIZE && Verdict(order, h) == Valid
    ensures Utilize(order, h, body, handlers) != DataInvalidCrc <==> U16(order, h[10], h[11]) == U16(order, h[8], h[9])
  {
  }

  /** A packet built as documented reaches its handler exactly when the CRCs of body and header happen to agree. */
  lemma DocumentedPacketPasses(order: ByteOrder, p: Packet, handlers: bv8 -> Handler)
    requires WellFormed(p) && p.crcData == Crc(p.body)
    ensures Utilize(order, Bytes(order, p), p.body, handlers) != DataInvalidCrc <==> Crc(p.body) == Crc(Start(order, p))
  {
    PacketIsAccepted(order, p, []);
    Fields(order, p, []);
    assert Bytes(order, p) + [] == Bytes(order, p);
    DataCrcRepeatsHeaderCrc(order, Bytes(order, p), p.body, handlers);
  }

  /**
   A packet that gets through is given, with its body, to the handler of its command, and the outcome
   is what the handler makes of it; without a handler nothing happens.
   */
  lemma HandlerDecides(order: ByteOrder, p: Packet, rest: seq<bv8>, handlers: bv8 -> Handler)
    requires WellFormed(p) && p.crcData == Crc(Start(order, p))
    ensures var outcome := Utilize(order, Bytes(order, p) + rest, p.body, handlers);
      && (handlers(p.cmd) == NoHandler <==> outcome == NotHandled)
      && (handlers(p.cmd).Handle? ==>
            && (outcome == Ok <==> handlers(p.cmd).run(p.body) == 0)
            && (outcome != Ok ==> outcome == HandlerError(handlers(p.cmd).run(p.body))))
  {
    PacketIsAccepted(order, p, rest);
  }

  /** That the documented packets are not all accepted: of the two ACCEPT packets with codes 0 and 1 one is refused. */
  lemma DocumentedPacketRefused(order: ByteOrder, handlers: bv8 -> Handler) returns (p: Packet)
    ensures WellFormed(p) && p.crcData == Crc(p.body)
    ensures Utilize(order, Bytes(order, p), p.body, handlers) == DataInvalidCrc
  {
    var a, b := Packet(7, [0], Crc([0])), Packet(7, [1], Crc([1]));
    BurstIsDetected([0], [1], 0);
    DocumentedPacketPasses(order, a, handlers);
    DocumentedPacketPasses(order, b, handlers);
    assert Start(order, a) == Start(order, b);
    p := if Crc([0]) == Crc(Start(order, a)) then b else a;
  }
}
