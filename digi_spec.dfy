/** The digipeater of digi.cpp as functions on its state: the 255-byte frame
    buffer `pkt`, the beacon and telemetry deadlines, the statistics, the
    duplicate table and the frames handed to the radio. Each function gives
    the state after one routine of the source; the class Digi.Digipeater
    runs the same routines in place and is proved against these.

    The radio, the clock and the sensors are inputs: a received frame, the
    tick `clk` (the global `wdt_clk`) and the sensor readings. What the
    radio sends is recorded in `sent`. */
module DigiSpec {
  import opened Bytes
  import opened Callsign
  import opened FrameCodec
  import opened RoundTrip
  import opened DecodeTrip
  import opened Timer
  import opened Crc16
  import opened DupTable
  import opened DigiFrame

  const PKT_SIZE: nat := 255
  /** Frames shorter than this are dropped: two addresses, control, PID and
      one byte of data. */
  const MIN_FRAME: nat := 17
  /** The longest frame the rules handle within `pkt`: they read up to 19
      bytes past the end of the address field and grow the frame by 7. */
  const MAX_FRAME: nat := 236

  const B1_INTERVAL: Tick := 1800
  const B2_INTERVAL: Tick := 1550
  const B3_INTERVAL: Tick := 1750
  const TELEM_INTERVAL: Tick := 950

  /** The table TelemSequence, entry by entry, of which telemetry frame
      each step of the cycle sends: 1 a T# report, 4 EQNS, 3 UNIT, 2 PARM;
      0 (entry 15) closes the cycle. Entries 0-2, 4-6, 8-10 and 12-14 are 1. */
  function TelemSequence(k: nat): nat {
    match k
    case 3 => 4
    case 7 => 3
    case 11 => 2
    case 15 => 0
    case _ => 1
  }

  /** '<', 0xFF, 0x01: the head of a frame sent as monitor text. */
  const OE_HEADER: seq<bv8> := [0x3C, 0xFF, 0x01]
  const LT: bv8 := 0x3C
  const SPACE: bv8 := 0x20
  const LBRACE: bv8 := 0x7B
  const ZERO: bv8 := 0x30

  /** The bytes of an ASCII string. */
  function Ascii(s: string): (r: seq<bv8>)
    ensures |r| == |s|
  {
    seq(|s|, i requires 0 <= i < |s| => (s[i] as int % 256) as bv8)
  }

  const B1_COMMENT: seq<bv8> := Ascii("433.775 MHz 20dbm B125 SF12 CR45")
  const B2_COMMENT: seq<bv8> := Ascii("Lora digi V2.1")
  const QUERY_ALL: seq<bv8> := Ascii("?APRS?")
  const QUERY_STATUS: seq<bv8> := Ascii("?APRSS")
  const ACK: seq<bv8> := Ascii(":ack")
  const PARM: seq<bv8> := Ascii("PARM.Vbatt,ExtT,IntT,Pres")
  const UNIT: seq<bv8> := Ascii("UNIT.Volt,C,C,kPa")
  const EQNS: seq<bv8> := Ascii("EQNS.0,0.008,2.5,0,0.5,") + Ascii("-60,0,0.5,-60,0,0.1,90")
  const TELEM_TAIL: seq<bv8> := Ascii(",000,00000000")

  // ---------------------------------------------------------------------
  // Configuration, sensors and state

  /** The station: MYCALL, BCN_DEST, BCN_PATH (at most one entry) and
      BCN_POSITION. */
  datatype Config = Config(call: Addr, dest: Addr, path: Option<Addr>, position: seq<bv8>)

  /** Canonical addresses, and a position text that sprintf_P copies as it
      stands: no NUL and no '%'. */
  predicate ValidConfig(c: Config) {
    && ValidAddr(c.call) && ValidAddr(c.dest)
    && (c.path.Some? ==> ValidAddr(c.path.value))
    && |c.position| <= 100
    && forall i :: 0 <= i < |c.position| ==> c.position[i] != 0 && c.position[i] != 0x25
  }

  /** The configuration project.h gives: destination APZDG2-1, no path. */
  function ProjectConfig(call: Addr, position: seq<bv8>): (c: Config)
    ensures c.call == call && c.position == position
    ensures AddrText(c.dest) == Ascii("APZDG2-1") && c.path.None?
  {
    var c := Config(call, Addr(Ascii("APZDG2"), 1), None, position);
    assert Dec(1) == [DigitChar(1)];
    c
  }

  /** The readings the beacons and telemetry print: the cell voltage in mV,
      the sleep flag, the external temperature as dtostrf formats it, and
      the four telemetry values already scaled to a byte. */
  datatype Sensors = Sensors(battMv: nat, sleeping: bool, extTemp: seq<bv8>, params: seq<nat>)

  predicate ValidSensors(s: Sensors) {
    && s.battMv < 0x1_0000
    && |s.extTemp| <= 5 && NoNul(s.extTemp)
    && |s.params| == 4 && forall i :: 0 <= i < 4 ==> s.params[i] < 256
  }

  /** A 16-bit `unsigned int`: the statistics counters. */
  type Word = x: nat | x < 0x1_0000

  /** A position in `pkt`, up to just past its end. */
  type Index = x: nat | x <= PKT_SIZE

  /** DigiSendTelem's static `seq`: a step of the telemetry cycle. */
  type CycleStep = x: nat | x < 15

  /** DigiSendTelem's static `seq_cnt`, an `unsigned char`. */
  type Octet = x: nat | x < 256

  /** The digipeater's globals. `telemSeq` and `telemCnt` are
      DigiSendTelem's static `seq` and `seq_cnt`. */
  datatype Node = Node(
    pkt: seq<bv8>, index: Index, oeFormat: bool,
    beacon1: Tick, beacon2: Tick, beacon3: Tick, telem: Tick,
    rx: Word, digi: Word, tx: Word, oe: Word, bin: Word,
    telemSeq: CycleStep, telemCnt: Octet,
    dup: seq<DupSlot>, sent: seq<seq<bv8>>)

  predicate Good(n: Node) {
    |n.pkt| == PKT_SIZE && |n.dup| == DUP_MAXFRAME
  }

  /** The state with new contents of the frame buffer and the duplicate
      table, both of their fixed sizes. */
  function Buffers(n: Node, pkt: seq<bv8>, dup: seq<DupSlot>): (r: Node)
    requires Good(n) && |pkt| == PKT_SIZE && |dup| == DUP_MAXFRAME
    ensures Good(r) && r.pkt == pkt && r.dup == dup
  {
    n.(pkt := pkt, dup := dup)
  }

  /** `x++` on a 16-bit `unsigned int`. */
  function Inc(x: Word): (r: Word)
    ensures r == x + 1 || (x == 0xFFFF && r == 0)
  {
    (x + 1) % 0x1_0000
  }

  // ---------------------------------------------------------------------
  // Building and sending frames

  /** The path of the frames the station originates. */
  function BeaconPath(c: Config): seq<Hop> {
    if c.path.Some? then [Hop(c.path.value, false)] else []
  }

  /** A frame the station originates, with the payload `info`. */
  function Outgoing(c: Config, info: seq<bv8>): Monitor {
    Monitor(c.call, c.dest, BeaconPath(c), info)
  }

  /** The header CreatePacket writes: the frame of an empty payload. */
  function HeaderFrame(c: Config): (r: seq<bv8>)
    requires ValidConfig(c)
    ensures |r| == 16 + 7 * |BeaconPath(c)| <= 23
  {
    FrameOf(Outgoing(c, []))
  }

  /** CreatePacket: the header at the head of `pkt`, `index` just past it. */
  function CreateStep(n: Node, c: Config): (r: Node)
    requires Good(n) && ValidConfig(c)
    ensures Good(r)
  {
    n.(pkt := Put(n.pkt, 0, HeaderFrame(c)), index := |HeaderFrame(c)|)
  }

  /** `index += sprintf(&pkt[index], ...)` printing `x`: the text and its
      NUL go to `index`, which moves past the text. */
  function PrintStep(n: Node, x: seq<bv8>): (r: Node)
    requires Good(n) && n.index + |x| + 1 <= PKT_SIZE
    ensures Good(r)
  {
    n.(pkt := Put(n.pkt, n.index, x + [0]), index := n.index + |x|)
  }

  /** `pkt` starts with the header CreatePacket writes. */
  predicate HasHeader(p: seq<bv8>, c: Config)
    requires ValidConfig(c)
  {
    |HeaderFrame(c)| <= |p| && p[..|HeaderFrame(c)|] == HeaderFrame(c)
  }

  /** Monitor text of the frame in `data[..len]`, as DecodeAX25 writes it
      after the three bytes '<', 0xFF, 0x01 and strlen measures it. */
  function OeFrame(data: seq<bv8>, len: nat): (r: seq<bv8>)
    requires len <= |data| && len < 0x100 && PathCount(data, 0).Some?
  {
    OE_HEADER + TakeUntilNul(Decode(data, len))
  }

  /** SendPacket: the frame `pkt[..index]` goes out as monitor text when more
      text frames than binary ones have been heard, as it stands otherwise;
      the transmit counter counts it. */
  function SendStep(n: Node): (r: Node)
    requires Good(n) && PathCount(n.pkt, 0).Some?
    ensures Good(r)
  {
    var f := if n.oe > n.bin then OeFrame(n.pkt, n.index) else n.pkt[..n.index];
    n.(sent := n.sent + [f], tx := Inc(n.tx))
  }

  /** DigiRepeat(pkt, len): the frame goes out in the format it came in;
      the digipeat counter counts it. */
  function RepeatStep(n: Node, len: nat): (r: Node)
    requires Good(n) && len <= PKT_SIZE && PathCount(n.pkt, 0).Some?
    ensures Good(r)
  {
    var f := if n.oeFormat then OeFrame(n.pkt, len) else n.pkt[..len];
    n.(sent := n.sent + [f], digi := Inc(n.digi))
  }

  /** A header CreatePacket wrote survives what is printed after it, and
      DecodeAX25 finds its end-of-address bit. */
  lemma HeaderKept(p: seq<bv8>, c: Config, off: nat, x: seq<bv8>)
    requires ValidConfig(c) && HasHeader(p, c)
    requires |HeaderFrame(c)| <= off && off + |x| <= |p|
    ensures HasHeader(Put(p, off, x), c)
  {
    PutAt(p, off, x);
  }

  lemma HeaderPathCount(p: seq<bv8>, c: Config)
    requires ValidConfig(c) && HasHeader(p, c)
    ensures PathCount(p, 0) == Some(|BeaconPath(c)|)
  {
    FramePathCount(Outgoing(c, []), p);
  }

  lemma CreatedHeader(n: Node, c: Config)
    requires Good(n) && ValidConfig(c)
    ensures HasHeader(CreateStep(n, c).pkt, c)
  {
    PutAt(n.pkt, 0, HeaderFrame(c));
    var p := CreateStep(n, c).pkt;
    assert p[..|HeaderFrame(c)|] == HeaderFrame(c);
  }

  /** Two texts printed one after the other: the second overwrites the
      NUL of the first. */
  lemma PrintTwice(n: Node, x: seq<bv8>, y: seq<bv8>)
    requires Good(n) && n.index + |x| + |y| + 1 <= PKT_SIZE
    ensures PrintStep(PrintStep(n, x), y) == PrintStep(n, x + y)
  {
    PutOver(n.pkt, n.index, x, [0], y + [0]);
    assert x + (y + [0]) == x + y + [0];
  }

  /** CreatePacket, the texts `x` printed after the header, then SendPacket. */
  function SendText(n: Node, c: Config, x: seq<bv8>): (r: Node)
    requires Good(n) && ValidConfig(c) && |x| <= 200
    ensures Good(r)
  {
    var n1 := CreateStep(n, c);
    var n2 := PrintStep(n1, x);
    CreatedHeader(n, c);
    HeaderKept(n1.pkt, c, n1.index, x + [0]);
    HeaderPathCount(n2.pkt, c);
    SendStep(n2)
  }

  // ---------------------------------------------------------------------
  // Beacons and telemetry

  /** `%-9s`: the text, padded with spaces to nine characters. */
  function Pad9(s: seq<bv8>): (r: seq<bv8>)
    ensures |s| <= 9 ==> |r| == 9
    ensures |s| >= 9 ==> r == s
  {
    if |s| >= 9 then s else s + seq(9 - |s|, _ => SPACE)
  }

  /** `:%-9s:` with the station's callsign: the addressee field of an APRS
      message. */
  function Header(c: Config): (r: seq<bv8>)
    requires ValidConfig(c)
    ensures |r| == 11
  {
    assert |Dec(c.call.ssid)| <= 2;
    [COLON] + Pad9(AddrText(c.call)) + [COLON]
  }

  /** The last `k` decimal digits of `v`, most significant first: `%0ku`
      when `v` has at most `k` digits. */
  function ZeroPad(v: nat, k: nat): (r: seq<bv8>)
    ensures |r| == k
  {
    if k == 0 then [] else ZeroPad(v / 10, k - 1) + [DigitChar(v % 10)]
  }

  /** `%03u` of a byte. */
  function Pad3(v: nat): (r: seq<bv8>)
    requires v < 1000
    ensures |r| == 3
  {
    ZeroPad(v, 3)
  }

  /** The status report of beacon 2: cell voltage, sleep flag,
      temperature and the received, digipeated and sent counts. */
  function StatusText(s: Sensors, rx: Word, digi: Word, tx: Word): (r: seq<bv8>)
    requires ValidSensors(s)
    ensures |r| <= 60
  {
    [GT] + Dec(s.battMv) + Ascii("mV (") + (if s.sleeping then Ascii("SLP") else Ascii("ACT"))
    + Ascii(") T=") + s.extTemp + Ascii("C R") + Dec(rx) + Ascii("D") + Dec(digi)
    + Ascii("T") + Dec(tx)
  }

  /** The payload of beacon `id`: position and comment for beacons 0 and 1,
      the status report for beacon 2. */
  function BeaconText(n: Node, c: Config, id: nat, s: Sensors): (r: seq<bv8>)
    requires Good(n) && ValidConfig(c) && ValidSensors(s) && id <= 2
    ensures |r| <= 200
  {
    if id == 2 then StatusText(s, n.rx, n.digi, n.tx)
    else c.position + (if id == 0 then B1_COMMENT else B2_COMMENT)
  }

  /** DigiSendBeacon(id). */
  function BeaconStep(n: Node, c: Config, id: nat, s: Sensors): (r: Node)
    requires Good(n) && ValidConfig(c) && ValidSensors(s) && id <= 2
    ensures Good(r)
  {
    SendText(n, c, BeaconText(n, c, id, s))
  }

  /** The body of telemetry frame `kind`: a T# report with the frame number
      and the four values, or one of the PARM, UNIT and EQNS definitions. */
  function TelemText(kind: nat, cnt: nat, s: Sensors): (r: seq<bv8>)
    requires ValidSensors(s) && cnt < 256
    ensures |r| <= 100
  {
    if kind == 1 then
      Ascii("T#") + Pad3(cnt) + [COMMA] + Pad3(s.params[0]) + [COMMA] + Pad3(s.params[1])
      + [COMMA] + Pad3(s.params[2]) + [COMMA] + Pad3(s.params[3]) + TELEM_TAIL
    else if kind == 2 then PARM
    else if kind == 3 then UNIT
    else if kind == 4 then EQNS
    else []
  }

  /** The step of the telemetry cycle after `k`: back to 0 where the table
      holds 0. */
  function NextTelem(k: nat): (r: nat)
    requires k < 15
    ensures r < 15
  {
    if TelemSequence(k + 1) == 0 then 0 else k + 1
  }

  /** The end of DigiSendTelem: the cycle moves on, back to its start where
      the table holds 0, and the report number counts a report, modulo 256. */
  function TelemAdvance(n: Node): (r: Node)
    requires Good(n)
    ensures Good(r)
  {
    var kind := TelemSequence(n.telemSeq);
    n.(telemSeq := NextTelem(n.telemSeq),
       telemCnt := if kind == 1 then (n.telemCnt + 1) % 256 else n.telemCnt)
  }

  /** DigiSendTelem: the definitions are sent as APRS messages to the
      station itself (so the addressee header comes first), the reports
      without it; then the cycle moves on. */
  function TelemStep(n: Node, c: Config, s: Sensors): (r: Node)
    requires Good(n) && ValidConfig(c) && ValidSensors(s)
    ensures Good(r)
  {
    var kind := TelemSequence(n.telemSeq);
    var head := if kind != 1 then Header(c) else [];
    TelemAdvance(SendText(n, c, head + TelemText(kind, n.telemCnt, s)))
  }

  // ---------------------------------------------------------------------
  // Reading a received frame

  /** The information field DigiRules keys the duplicate table on:
      `size - DataIndex` bytes from DataIndex, none when that is negative. */
  function Payload(p: seq<bv8>, d: nat, len: nat): seq<bv8>
    requires len <= |p|
  {
    if d <= len then p[d..len] else []
  }

  /** NodeCall: the station's address as asc2AXcall packs MYCALL. */
  function NodeCall(c: Config): (r: seq<bv8>)
    requires ValidConfig(c)
    ensures |r| == 7 && r[6] & END_BIT == 0
  {
    OctetBits(c.call.ssid, false, false);
    AddrBytes(c.call, false)
  }

  /** The source address is the station's own: callsign bytes equal and
      SSID bits equal under the mask 0x1E. */
  predicate FromNode(p: seq<bv8>, c: Config)
    requires |p| >= 14 && ValidConfig(c)
  {
    var nc := NodeCall(c);
    p[7..13] == nc[..6] && p[13] & SSID_MASK == nc[6] & SSID_MASK
  }

  /** The value of the message number after '{' at `b`: digits up to the
      end of the frame, accumulated in a 16-bit `int` and printed with
      `%u`. */
  function Tag(p: seq<bv8>, b: nat, len: nat): (r: nat)
    requires len <= |p|
    ensures r < 0x1_0000
  {
    Digits(p[..len], b + 1, 0) % 0x1_0000
  }

  /** The acknowledgement of message number `tag` to the station `caller`. */
  function AckText(caller: seq<bv8>, tag: nat): (r: seq<bv8>)
    requires |caller| <= 9 && tag < 0x1_0000
    ensures |r| <= 30
  {
    [COLON] + Pad9(caller) + ACK + Dec(tag)
  }

  /** A message addressed to the station: `?APRSS` right after the header
      makes the status beacon due; a message number after '{' is
      acknowledged to the sender (its callsign read before CreatePacket
      overwrites the frame, and copied by `%s` up to a NUL); the message is
      never digipeated. */
  function MessageStep(n: Node, c: Config, len: nat, d: nat, clk: Tick): (r: Node)
    requires Good(n) && ValidConfig(c) && len <= PKT_SIZE && d + 17 <= PKT_SIZE
    ensures Good(r)
  {
    var p := n.pkt;
    var n1 := if p[d + 11..d + 17] == QUERY_STATUS then n.(beacon3 := clk) else n;
    match FindAny(p[..len], d, {LBRACE})
    case None => n1
    case Some(b) =>
      var caller := TakeUntilNul(Unpack(p, 7));
      SendText(n1, c, AckText(caller, Tag(p, b, len)))
  }

  /** The destination-SSID rule: the SSID of the destination drops by one,
      the payload goes to the duplicate table, the station's address is
      inserted after the path entries already repeated, and the frame is
      digipeated seven bytes longer. */
  function SsidStep(n: Node, c: Config, len: nat, d: nat, clk: Tick): (r: Node)
    requires Good(n) && ValidConfig(c) && len <= MAX_FRAME && Structured(n.pkt, len)
    requires 1 <= DestSsid(n.pkt) <= WIDEN_MAX
    ensures Good(r)
  {
    SsidFrameEnds(n.pkt, len, NodeCall(c));
    RepeatStep(SsidEdited(n, c, len, d, clk), len + 7)
  }

  /** The state the destination-SSID rule hands to DigiRepeat: the payload
      of the decremented frame added to the duplicate table, the frame
      edited by SsidEdit; its address field is one entry longer. */
  function SsidEdited(n: Node, c: Config, len: nat, d: nat, clk: Tick): (r: Node)
    requires Good(n) && ValidConfig(c) && len <= MAX_FRAME && Structured(n.pkt, len)
    requires 1 <= DestSsid(n.pkt) <= WIDEN_MAX
    ensures Good(r) && r.pkt == SsidEdit(n.pkt, len, NodeCall(c))
  {
    var p := n.pkt;
    Buffers(n, SsidEdit(p, len, NodeCall(c)),
            Added(n.dup, Crc(Payload(SsidDecremented(p), d, len)), clk))
  }

  /** The path entries of a structured frame before the last carry no end
      bit. */
  lemma PathOpen(p: seq<bv8>, len: nat)
    requires len <= |p| && Structured(p, len)
    ensures forall j :: 0 <= j && j + 1 < EndHop(p, len) ==> p[20 + 7 * j] & END_BIT == 0
  {
    forall j | 0 <= j && j + 1 < EndHop(p, len)
      ensures p[20 + 7 * j] & END_BIT == 0
    {
      EndHopBits(p, len, j + 1);
    }
  }

  /** The WIDEn-N rule on the first path entry not yet repeated, when it
      reads WIDEn-N: the frame is edited by WideEdit, its payload (moved
      with it) goes to the duplicate table and it is digipeated. */
  function WideStep(n: Node, c: Config, len: nat, d: nat, clk: Tick): (r: Node)
    requires Good(n) && ValidConfig(c) && len <= MAX_FRAME && Structured(n.pkt, len)
    requires EndHop(n.pkt, len) > 0
    ensures Good(r)
  {
    var p := n.pkt;
    var m := EndHop(p, len);
    PathOpen(p, len);
    match FirstUnrepeated(p, 0, m)
    case None => n
    case Some(k) =>
      if !IsWide(p, k) then n
      else
        WideOpen(p, len, NodeCall(c), k);
        RepeatStep(WideEdited(n, c, len, d, clk, k), WideEdit(p, len, NodeCall(c), k).1)
  }

  /** The state the WIDEn-N rule on entry k hands to DigiRepeat: the frame
      edited by WideEdit and the payload, moved with the frame's tail,
      added to the duplicate table. */
  function WideEdited(n: Node, c: Config, len: nat, d: nat, clk: Tick, k: nat): (r: Node)
    requires Good(n) && ValidConfig(c) && len <= MAX_FRAME && Structured(n.pkt, len)
    requires k < EndHop(n.pkt, len) && IsWide(n.pkt, k)
    ensures Good(r) && r.pkt == WideEdit(n.pkt, len, NodeCall(c), k).0
  {
    var p := n.pkt;
    var (p', len') := WideEdit(p, len, NodeCall(c), k);
    Buffers(n, p', Added(n.dup, Crc(Payload(p', d + (len' - len), len')), clk))
  }

  /** A frame the WIDEn-N rule edits still has a well-formed address
      field. */
  lemma WideOpen(p: seq<bv8>, len: nat, nc: seq<bv8>, k: nat)
    requires len + 7 <= |p| && |nc| == 7 && Structured(p, len)
    requires k < EndHop(p, len) && IsWide(p, k)
    ensures PathCount(WideEdit(p, len, nc, k).0, 0).Some?
  {
    StructuredPathCount(p, len);
    WideFrameEnds(p, len, nc, k);
  }

  /** The rules after the duplicate test, for a frame not addressed to the
      station as a message: `?APRS?` makes beacon 1 due, then the
      destination-SSID rule or, for a frame with a path, the WIDEn-N rule
      applies. */
  function ForwardStep(n: Node, c: Config, len: nat, d: nat, clk: Tick): (r: Node)
    requires Good(n) && ValidConfig(c) && len <= MAX_FRAME && Structured(n.pkt, len)
    requires d + 6 <= PKT_SIZE
    ensures Good(r)
  {
    var p := n.pkt;
    var n1 := if p[d..d + 6] == QUERY_ALL then n.(beacon1 := clk) else n;
    if 1 <= DestSsid(p) <= WIDEN_MAX then SsidStep(n1, c, len, d, clk)
    else if p[13] & END_BIT != 0 then n1
    else WideStep(n1, c, len, d, clk)
  }

  /** The duplicate test and what follows it: the lapsed entries are
      cleared; a frame whose payload is held is dropped; a message to the
      station goes to MessageStep, any other frame to ForwardStep. */
  function DupStep(n: Node, c: Config, len: nat, d: nat, clk: Tick): (r: Node)
    requires Good(n) && ValidConfig(c) && len <= MAX_FRAME && Structured(n.pkt, len)
    requires d + 17 <= PKT_SIZE
    ensures Good(r)
  {
    var p := n.pkt;
    var n1 := n.(dup := Expired(n.dup, clk));
    if Holds(n.dup, Crc(Payload(p, d, len)), clk) then n1
    else if p[d..d + 11] == Header(c) then MessageStep(n1, c, len, d, clk)
    else ForwardStep(n1, c, len, d, clk)
  }

  /** DigiRules(pkt, len) at tick `clk`. A frame is dropped when the byte
      after the address field is not the UI control byte or when the
      station sent it; the payload starts after the control and PID
      bytes. */
  function RulesStep(n: Node, c: Config, len: nat, clk: Tick): (r: Node)
    requires Good(n) && ValidConfig(c) && len <= MAX_FRAME && Structured(n.pkt, len)
    ensures Good(r)
  {
    var p := n.pkt;
    var e := FirstOdd(p, 0, len);
    if p[e + 1] != CONTROL_UI then n
    else if FromNode(p, c) then n
    else DupStep(n, c, len, e + 3, clk)
  }

  // ---------------------------------------------------------------------
  // The poll loop

  /** A received frame the model covers: no longer than MAX_FRAME, and, when
      it is monitor text, text whose frame is no longer either. */
  predicate RxFits(f: seq<bv8>) {
    && |f| <= MAX_FRAME
    && (|f| >= MIN_FRAME && f[0] == LT && f[1] == 0xFF ==>
          EncodeExtent(TakeUntilNul(f[3..])) <= MAX_FRAME)
  }

  /** A received frame in `pkt`: too short, dropped; monitor text (after
      '<', 0xFF) is packed into a frame by EncodeAX25 and counted as text,
      anything else counted as binary; a frame failing the spot check is
      dropped, the others counted and handed to DigiRules. */
  function ReceiveStep(n: Node, c: Config, f: seq<bv8>, clk: Tick): (r: Node)
    requires Good(n) && ValidConfig(c) && RxFits(f)
    ensures Good(r)
  {
    var (n1, len) := Landed(n, f);
    if |f| < MIN_FRAME then n1 else SpotCheckStep(n1, c, len, clk)
  }

  /** The frame stored into `pkt`, and its length; from MIN_FRAME bytes on,
      monitor text is packed into a frame by EncodeAX25 and counted as
      text, anything else is counted as binary. */
  function Landed(n: Node, f: seq<bv8>): (r: (Node, nat))
    requires Good(n) && RxFits(f)
    ensures Good(r.0) && r.1 <= MAX_FRAME
  {
    var (p, len, text) := Arrived(n.pkt, f);
    if |f| < MIN_FRAME then (n.(pkt := p), len)
    else if text then (n.(pkt := p, oeFormat := true, oe := Inc(n.oe)), len)
    else (n.(pkt := p, oeFormat := false, bin := Inc(n.bin)), len)
  }

  /** The buffer `p` after the frame `f` arrives, the frame's length and
      whether it was monitor text: `f` is stored at the head of `p`; from
      MIN_FRAME bytes on, text behind '<', 0xFF (copied up to its NUL) is
      packed into a frame by EncodeAX25 in its place. */
  function Arrived(p: seq<bv8>, f: seq<bv8>): (r: (seq<bv8>, nat, bool))
    requires |p| == PKT_SIZE && RxFits(f)
    ensures |r.0| == PKT_SIZE && r.1 <= MAX_FRAME
    ensures r.2 <==> |f| >= MIN_FRAME && f[0] == LT && f[1] == 0xFF
    ensures !r.2 ==> r.0 == Put(p, 0, f) && r.1 == |f|
  {
    var q := Put(p, 0, f);
    if |f| >= MIN_FRAME && f[0] == LT && f[1] == 0xFF then
      var t := TakeUntilNul(f[3..]);
      EncodeLength(t, q);
      var (q', len) := EncodeOnto(t, q);
      (q', len, true)
    else (q, |f|, false)
  }

  /** The spot check of DigiPoll, then DigiRules. */
  function SpotCheckStep(n: Node, c: Config, len: nat, clk: Tick): (r: Node)
    requires Good(n) && ValidConfig(c) && len <= MAX_FRAME
    ensures Good(r)
  {
    if !Structured(n.pkt, len) then n
    else RulesStep(n.(rx := Inc(n.rx)), c, len, clk)
  }

  /** DigiPoll at tick `clk`, with `rx` the frame the radio has received,
      if any: the frame is handled first; otherwise the first due of beacon
      1, beacon 2, beacon 3 and telemetry is sent and its deadline moved one
      interval past `after`, the tick as read again once the transmission
      is over (the watchdog interrupt advances it meanwhile). The second
      value is DigiPoll's result: 1 when it did something, 0 when it had
      nothing to do. */
  function PollStep(n: Node, c: Config, clk: Tick, after: Tick, rx: Option<seq<bv8>>, s: Sensors): (r: (Node, int))
    requires Good(n) && ValidConfig(c) && ValidSensors(s)
    requires rx.Some? ==> RxFits(rx.value)
    ensures Good(r.0)
  {
    if rx.Some? then (ReceiveStep(n, c, rx.value, clk), 1)
    else if TimerOverflow(n.beacon1, clk) then
      (BeaconStep(n, c, 0, s).(beacon1 := Add(after, B1_INTERVAL)), 1)
    else LaterTimers(n, c, clk, after, s)
  }

  /** The timers DigiPoll tests after beacon 1, in order. */
  function LaterTimers(n: Node, c: Config, clk: Tick, after: Tick, s: Sensors): (r: (Node, int))
    requires Good(n) && ValidConfig(c) && ValidSensors(s)
    ensures Good(r.0)
  {
    if TimerOverflow(n.beacon2, clk) then
      (BeaconStep(n, c, 1, s).(beacon2 := Add(after, B2_INTERVAL)), 1)
    else LastTimers(n, c, clk, after, s)
  }

  /** The timers DigiPoll tests last: beacon 3, then telemetry. */
  function LastTimers(n: Node, c: Config, clk: Tick, after: Tick, s: Sensors): (r: (Node, int))
    requires Good(n) && ValidConfig(c) && ValidSensors(s)
    ensures Good(r.0)
  {
    if TimerOverflow(n.beacon3, clk) then
      (BeaconStep(n, c, 2, s).(beacon3 := Add(after, B3_INTERVAL)), 1)
    else if TimerOverflow(n.telem, clk) then
      (TelemStep(n, c, s).(telem := Add(after, TELEM_INTERVAL)), 1)
    else (n, 0)
  }

  /** DigiInit: every deadline one interval past `clk`. */
  function InitStep(n: Node, clk: Tick): (r: Node)
    ensures Good(n) ==> Good(r)
  {
    n.(beacon1 := Add(clk, B1_INTERVAL), beacon2 := Add(clk, B2_INTERVAL),
       beacon3 := Add(clk, B3_INTERVAL), telem := Add(clk, TELEM_INTERVAL))
  }
}
