/** The digipeater of digi.cpp as it runs: its globals are the fields of a
    Digipeater, its routines the methods, each proved to leave the state
    the matching function of DigiSpec gives.

    The radio is reduced to what it hands over and what it is handed: a
    received frame is a parameter of DigiPoll, a sent one is appended to
    `sent`. The tick `wdt_clk` and the sensor readings are parameters. */
module Digi {
  import opened Bytes
  import opened Callsign
  import opened FrameCodec
  import opened RoundTrip
  import opened DecodeTrip
  import opened Timer
  import opened Crc16
  import opened DupTable
  import opened DigiFrame
  import opened DigiSpec
  import opened Rules

  class Digipeater {
    /** MYCALL, BCN_DEST, BCN_PATH and BCN_POSITION. */
    const cfg: Config
    /** The frame buffer `pkt[255]`. */
    const pkt: array<bv8>
    /** The duplicate table `DupFrame[DUP_MAXFRAME]`. */
    const dupFrame: array<DupSlot>

    var index: Index
    var oeFormat: bool
    var beacon1: Tick
    var beacon2: Tick
    var beacon3: Tick
    var telem: Tick
    var rx: Word
    var digi: Word
    var tx: Word
    var oe: Word
    var bin: Word
    var telemSeq: CycleStep
    var telemCnt: Octet
    /** The frames handed to the radio, oldest first. */
    var sent: seq<seq<bv8>>

    function State(): Node
      reads this, pkt, dupFrame
    {
      Node(pkt[..], index, oeFormat, beacon1, beacon2, beacon3, telem,
           rx, digi, tx, oe, bin, telemSeq, telemCnt, dupFrame[..], sent)
    }

    ghost predicate Valid()
      reads this, pkt, dupFrame
      ensures Valid() ==> Good(State())
    {
      ValidConfig(cfg) && pkt.Length == PKT_SIZE && dupFrame.Length == DUP_MAXFRAME
    }

    /** Power-up: the globals of a C program start at zero. */
    constructor (c: Config)
      requires ValidConfig(c)
      ensures Valid() && cfg == c
      ensures State() == Node(seq(PKT_SIZE, _ => 0), 0, false, 0, 0, 0, 0, 0, 0, 0, 0, 0,
                              0, 0, seq(DUP_MAXFRAME, _ => EMPTY), [])
      ensures fresh(pkt) && fresh(dupFrame)
    {
      cfg := c;
      pkt := new bv8[PKT_SIZE](_ => 0);
      dupFrame := new DupSlot[DUP_MAXFRAME](_ => EMPTY);
      index, oeFormat := 0, false;
      beacon1, beacon2, beacon3, telem := 0, 0, 0, 0;
      rx, digi, tx, oe, bin := 0, 0, 0, 0, 0;
      telemSeq, telemCnt := 0, 0;
      sent := [];
    }

    /** CreatePacket: the header written at the head of `pkt`, `index`
      just past it. */
    method CreatePacket()
      requires Valid()
      modifies this, pkt
      ensures Valid() && State() == CreateStep(old(State()), cfg)
    {
      index := WriteHeader(cfg, pkt);
    }

    /** `index += sprintf(&pkt[index], ...)` with `x` the text the format
      gives: the text and its NUL are written, `index` moves past the
      text. */
    method Print(x: seq<bv8>)
      requires Valid() && index + |x| + 1 <= PKT_SIZE
      modifies this, pkt
      ensures Valid() && State() == PrintStep(old(State()), x)
    {
      ghost var n0 := State();
      Store(pkt, index, x + [0]);
      index := index + |x|;
      assert State() == n0.(pkt := Put(n0.pkt, n0.index, x + [0]), index := n0.index + |x|);
    }

    /** SendPacket: the frame goes out as monitor text behind '<', 0xFF,
      0x01 when more text frames than binary ones have been heard, as it
      stands otherwise. */
    method SendPacket()
      requires Valid() && PathCount(pkt[..], 0).Some?
      modifies this
      ensures Valid() && State() == SendStep(old(State()))
    {
      ghost var n0 := State();
      var f: seq<bv8>;
      if oe > bin {
        var text := DecodeAX25(pkt[..], index);
        f := OE_HEADER + TakeUntilNul(text);
      } else {
        f := pkt[..index];
      }
      sent := sent + [f];
      tx := Inc(tx);
      assert State() == n0.(sent := n0.sent + [f], tx := Inc(n0.tx));
    }

    /** DigiRepeat(pkt, len): the frame goes out in the format it came in. */
    method DigiRepeat(len: nat)
      requires Valid() && len <= PKT_SIZE && PathCount(pkt[..], 0).Some?
      modifies this
      ensures Valid() && State() == RepeatStep(old(State()), len)
    {
      ghost var n0 := State();
      var f: seq<bv8>;
      if oeFormat {
        var text := DecodeAX25(pkt[..], len);
        f := OE_HEADER + TakeUntilNul(text);
      } else {
        f := pkt[..len];
      }
      sent := sent + [f];
      digi := Inc(digi);
      assert State() == n0.(sent := n0.sent + [f], digi := Inc(n0.digi));
    }

    /** CreatePacket, one `sprintf` of `x`, SendPacket. */
    method SendText(x: seq<bv8>)
      requires Valid() && |x| <= 200
      modifies this, pkt
      ensures Valid() && State() == DigiSpec.SendText(old(State()), cfg, x)
    {
      ghost var n0 := State();
      CreatePacket();
      ghost var n1 := State();
      CreatedHeader(n0, cfg);
      Print(x);
      HeaderKept(n1.pkt, cfg, n1.index, x + [0]);
      HeaderPathCount(pkt[..], cfg);
      SendPacket();
    }

    /** CreatePacket, `sprintf` of `x` unless it is empty, `sprintf` of `y`,
      SendPacket: the second text goes over the NUL the first left. */
    method SendTexts(x: seq<bv8>, y: seq<bv8>)
      requires Valid() && |x| + |y| <= 200
      modifies this, pkt
      ensures Valid() && State() == DigiSpec.SendText(old(State()), cfg, x + y)
    {
      if |x| == 0 {
        assert x + y == y;
        SendText(y);
      } else {
        SendTwo(State(), cfg, x, y);
        CreatePacket();
        Print(x);
        Print(y);
        SendPacket();
      }
    }

    /** DigiSendBeacon(id): the position and comment of beacon 0 or 1, each
      printed by its own `sprintf`, or the status report of beacon 2. */
    method DigiSendBeacon(id: nat, s: Sensors)
      requires Valid() && ValidSensors(s) && id <= 2
      modifies this, pkt
      ensures Valid() && State() == BeaconStep(old(State()), cfg, id, s)
    {
      if id == 2 {
        SendText(StatusText(s, rx, digi, tx));
      } else {
        var comment := if id == 0 then B1_COMMENT else B2_COMMENT;
        SendTexts(cfg.position, comment);
      }
    }

    /** DigiSendTelem: the addressee header for the definitions, then the
      body of the current step of the cycle; the cycle moves on, back to
      its start where the table holds 0, and the report number counts the
      reports. */
    method DigiSendTelem(s: Sensors)
      requires Valid() && ValidSensors(s)
      modifies this, pkt
      ensures Valid() && State() == TelemStep(old(State()), cfg, s)
    {
      var kind := TelemSequence(telemSeq);
      var head := if kind != 1 then Header(cfg) else [];
      SendTexts(head, TelemText(kind, telemCnt, s));
      NextTelemStep();
    }

    /** The end of DigiSendTelem: `seq` moves on, back to 0 where the table
      holds 0, and `seq_cnt` counts a report. */
    method NextTelemStep()
      requires Valid()
      modifies this
      ensures Valid() && State() == TelemAdvance(old(State()))
    {
      var next := telemSeq + 1;
      if TelemSequence(telemSeq) == 1 {
        telemCnt := (telemCnt + 1) % 256;
      }
      telemSeq := if TelemSequence(next) == 0 then 0 else next;
    }

    /** DigiInit: every deadline one interval past `clk`. Waking the radio
      is not modelled. */
    method DigiInit(clk: Tick)
      requires Valid()
      modifies this
      ensures Valid() && State() == InitStep(old(State()), clk)
    {
      beacon1 := Add(clk, B1_INTERVAL);
      beacon2 := Add(clk, B2_INTERVAL);
      beacon3 := Add(clk, B3_INTERVAL);
      telem := Add(clk, TELEM_INTERVAL);
    }

    /** DigiPoll at tick `clk`; `rxFrame` is what `rxAvailable` hands over,
      if anything. A received frame is handled first; otherwise the first
      due of beacon 1, beacon 2, beacon 3 and telemetry is sent and its
      deadline moved one interval past `after`, the tick read again after
      the transmission. Returns 1 when something was done, 0 otherwise. */
    method DigiPoll(clk: Tick, after: Tick, rxFrame: Option<seq<bv8>>, s: Sensors) returns (r: int)
      requires Valid() && ValidSensors(s) && (rxFrame.Some? ==> RxFits(rxFrame.value))
      modifies this, pkt, dupFrame
      ensures Valid() && (State(), r) == PollStep(old(State()), cfg, clk, after, rxFrame, s)
    {
      if rxFrame.Some? {
        Receive(rxFrame.value, clk);
        return 1;
      }
      if TimerOverflow(beacon1, clk) {
        DigiSendBeacon(0, s);
        beacon1 := Add(after, B1_INTERVAL);
        return 1;
      }
      r := PollLater(clk, after, s);
    }

    /** DigiPoll after the received frame and beacon 1: beacon 2, beacon
      3, then telemetry. */
    method PollLater(clk: Tick, after: Tick, s: Sensors) returns (r: int)
      requires Valid() && ValidSensors(s)
      modifies this, pkt
      ensures Valid() && (State(), r) == LaterTimers(old(State()), cfg, clk, after, s)
    {
      if TimerOverflow(beacon2, clk) {
        DigiSendBeacon(1, s);
        beacon2 := Add(after, B2_INTERVAL);
        return 1;
      }
      r := PollLast(clk, after, s);
    }

    /** The last two timers of DigiPoll: beacon 3, then telemetry. */
    method PollLast(clk: Tick, after: Tick, s: Sensors) returns (r: int)
      requires Valid() && ValidSensors(s)
      modifies this, pkt
      ensures Valid() && (State(), r) == LastTimers(old(State()), cfg, clk, after, s)
    {
      if TimerOverflow(beacon3, clk) {
        DigiSendBeacon(2, s);
        beacon3 := Add(after, B3_INTERVAL);
        return 1;
      }
      if TimerOverflow(telem, clk) {
        DigiSendTelem(s);
        telem := Add(after, TELEM_INTERVAL);
        return 1;
      }
      return 0;
    }

    /** The received-frame branch of DigiPoll: the frame lands in `pkt`;
      one shorter than 17 bytes is dropped; monitor text behind '<', 0xFF
      is copied out (up to its NUL, as the zeroed copy buffer makes it) and
      packed back into `pkt` by EncodeAX25. */
    method Receive(f: seq<bv8>, clk: Tick)
      requires Valid() && RxFits(f)
      modifies this, pkt, dupFrame
      ensures Valid() && State() == ReceiveStep(old(State()), cfg, f, clk)
    {
      var len := Land(f);
      if |f| < MIN_FRAME {
        return;
      }
      SpotCheck(len, clk);
    }

    /** The frame stored into `pkt` and, from MIN_FRAME bytes on, monitor
      text packed into a frame in its place; the length is returned. */
    method Land(f: seq<bv8>) returns (len: nat)
      requires Valid() && RxFits(f)
      modifies this, pkt
      ensures Valid() && (State(), len) == Landed(old(State()), f)
    {
      var text;
      len, text := Arrive(pkt, f);
      if |f| < MIN_FRAME {
        return;
      }
      if text {
        oeFormat := true;
        oe := Inc(oe);
      } else {
        oeFormat := false;
        bin := Inc(bin);
      }
    }

    /** The spot check of DigiPoll: the first byte with the end bit must lie
      in the frame, end an address and not be the destination's; then the
      frame is counted and handed to DigiRules. (With no such byte the C
      loop leaves `i == length`, so the test on the stale `c` and the
      alignment test reject together.) */
    method SpotCheck(len: nat, clk: Tick)
      requires Valid() && len <= MAX_FRAME
      modifies this, pkt, dupFrame
      ensures Valid() && State() == SpotCheckStep(old(State()), cfg, len, clk)
    {
      var e := ScanEnd(pkt[..], len);
      if e == len || (e + 1) % 7 != 0 || e == 6 {
        return;
      }
      rx := Inc(rx);
      DigiRules(len, clk);
    }

    /** DigiRules(pkt, len) at tick `clk`: the control byte after the
      address field must be UI, the source must not be the station; the
      payload starts after control and PID. */
    method DigiRules(len: nat, clk: Tick)
      requires Valid() && len <= MAX_FRAME && Structured(pkt[..], len)
      modifies this, pkt, dupFrame
      ensures Valid() && State() == RulesStep(old(State()), cfg, len, clk)
    {
      var e := ScanEnd(pkt[..], len);
      if pkt[e + 1] != CONTROL_UI {
        return;
      }
      var nc := MakeNodeCall(cfg);
      var same := SameStation(pkt[..], nc);
      if same {
        return;
      }
      DupRule(len, e + 3, clk, nc);
    }

    /** The duplicate test of DigiRules, then the message branch for a
      frame that opens with the station's addressee header, the
      forwarding rules for any other. */
    method DupRule(len: nat, d: nat, clk: Tick, nc: seq<bv8>)
      requires Valid() && len <= MAX_FRAME && Structured(pkt[..], len)
      requires d + 17 <= PKT_SIZE && nc == NodeCall(cfg)
      modifies this, pkt, dupFrame
      ensures Valid() && State() == DupStep(old(State()), cfg, len, d, clk)
    {
      var dup := TestDup(dupFrame, Payload(pkt[..], d, len), clk);
      if dup {
        return;
      }
      var msg := SameBytes(pkt[..], d, Header(cfg));
      if msg {
        MessageRule(len, d, clk);
      } else {
        ForwardRule(len, d, clk, nc);
      }
    }

    /** The message branch: MessageHandler's `?APRSS` test, then the scan
      for '{' and the acknowledgement of the number after it. */
    method MessageRule(len: nat, d: nat, clk: Tick)
      requires Valid() && len <= MAX_FRAME && d + 17 <= PKT_SIZE
      modifies this, pkt
      ensures Valid() && State() == MessageStep(old(State()), cfg, len, d, clk)
    {
      var status := SameBytes(pkt[..], d + 11, QUERY_STATUS);
      if status {
        beacon3 := clk;
      }
      var b := FindBrace(pkt[..], d, len);
      if b.Some? {
        var tag := ReadTag(pkt[..], b.value, len);
        var call := AXCall2Asc(pkt[..], 7);
        SendText(AckText(TakeUntilNul(call), tag));
      }
    }

    /** The rules after the message test: `?APRS?` makes beacon 1 due; a
      destination SSID from 1 to WIDEN_MAX selects the SSID rule; a frame
      without path is dropped; the WIDEn-N rule takes the rest. */
    method ForwardRule(len: nat, d: nat, clk: Tick, nc: seq<bv8>)
      requires Valid() && len <= MAX_FRAME && Structured(pkt[..], len)
      requires d + 6 <= PKT_SIZE && nc == NodeCall(cfg)
      modifies this, pkt, dupFrame
      ensures Valid() && State() == ForwardStep(old(State()), cfg, len, d, clk)
    {
      var query := SameBytes(pkt[..], d, QUERY_ALL);
      if query {
        beacon1 := clk;
      }
      var ssid := SsidBits(pkt[6]);
      if ssid != 0 && ssid <= WIDEN_MAX {
        SsidRule(len, d, clk, nc);
      } else if pkt[13] & END_BIT == 0 {
        WideRule(len, d, clk, nc);
      }
    }

    /** The destination-SSID rule: SSID decremented, payload added to the
      duplicate table, the station's address inserted after the repeated
      entries, the frame digipeated seven bytes longer. */
    method SsidRule(len: nat, d: nat, clk: Tick, nc: seq<bv8>)
      requires Valid() && len <= MAX_FRAME && Structured(pkt[..], len)
      requires 1 <= DestSsid(pkt[..]) <= WIDEN_MAX && nc == NodeCall(cfg)
      modifies this, pkt, dupFrame
      ensures Valid() && State() == SsidStep(old(State()), cfg, len, d, clk)
    {
      SsidRewrite(len, d, clk, nc);
      DigiRepeat(len + 7);
    }

    /** The destination-SSID rule up to DigiRepeat: the destination SSID
      decremented, the payload added to the duplicate table, the station's
      address inserted after the entries already repeated. */
    method SsidRewrite(len: nat, d: nat, clk: Tick, nc: seq<bv8>)
      requires Valid() && len <= MAX_FRAME && Structured(pkt[..], len)
      requires 1 <= DestSsid(pkt[..]) <= WIDEN_MAX && nc == NodeCall(cfg)
      modifies pkt, dupFrame
      ensures Valid() && State() == SsidEdited(old(State()), cfg, len, d, clk)
      ensures PathCount(pkt[..], 0) == Some(EndHop(old(pkt[..]), len) + 1)
    {
      ghost var n0 := State();
      SsidEditBuffers(pkt, dupFrame, len, d, clk, nc);
      SsidFrameEnds(n0.pkt, len, nc);
      assert State() == n0.(pkt := pkt[..], dup := dupFrame[..]);
    }

    /** The WIDEn-N rule: the first path entry not yet repeated, when it
      reads WIDEn-N, is edited by WideApply; the payload, moved with it,
      goes to the duplicate table and the frame is digipeated. */
    method WideRule(len: nat, d: nat, clk: Tick, nc: seq<bv8>)
      requires Valid() && len <= MAX_FRAME && Structured(pkt[..], len)
      requires EndHop(pkt[..], len) > 0 && nc == NodeCall(cfg)
      modifies this, pkt, dupFrame
      ensures Valid() && State() == WideStep(old(State()), cfg, len, d, clk)
    {
      PathOpen(pkt[..], len);
      var k := FindUnrepeated(pkt[..], EndHop(pkt[..], len));
      if k.None? {
        return;
      }
      var wide := CheckWide(pkt[..], k.value);
      if !wide {
        return;
      }
      WideOpen(pkt[..], len, nc, k.value);
      var len' := WideRewrite(len, d, clk, nc, k.value);
      DigiRepeat(len');
    }

    /** The WIDEn-N rule on entry k up to DigiRepeat: the frame edited by
      WideApply, the payload, moved with the tail, added to the duplicate
      table; the new length is returned. */
    method WideRewrite(len: nat, d: nat, clk: Tick, nc: seq<bv8>, k: nat) returns (len': nat)
      requires Valid() && len <= MAX_FRAME && Structured(pkt[..], len)
      requires k < EndHop(pkt[..], len) && IsWide(pkt[..], k) && nc == NodeCall(cfg)
      modifies pkt, dupFrame
      ensures Valid() && State() == WideEdited(old(State()), cfg, len, d, clk, k)
      ensures len' == WideEdit(old(pkt[..]), len, nc, k).1
    {
      ghost var n0 := State();
      len' := WideEditBuffers(pkt, dupFrame, len, d, clk, nc, k);
      assert State() == n0.(pkt := pkt[..], dup := dupFrame[..]);
    }
  }

  /** A frame built by CreatePacket and two `sprintf`s is the frame of
      both texts. */
  lemma SendTwo(n: Node, c: Config, x: seq<bv8>, y: seq<bv8>)
    requires Good(n) && ValidConfig(c) && |x| + |y| <= 200
    ensures var n1 := CreateStep(n, c);
      && n1.index + |x| + |y| + 1 <= PKT_SIZE
      && var n3 := PrintStep(PrintStep(n1, x), y);
      && PathCount(n3.pkt, 0).Some?
      && SendStep(n3) == SendText(n, c, x + y)
  {
    var n1 := CreateStep(n, c);
    PrintTwice(n1, x, y);
    CreatedHeader(n, c);
    HeaderKept(n1.pkt, c, n1.index, x + y + [0]);
    HeaderPathCount(PrintStep(n1, x + y).pkt, c);
  }

  /** The writes of CreatePacket: destination, source and the optional
      path entry packed from their text, the end bit on the last, then
      control and PID; `i` is the length written. */
  method WriteHeader(c: Config, pkt: array<bv8>) returns (i: nat)
    requires ValidConfig(c) && pkt.Length == PKT_SIZE
    modifies pkt
    ensures pkt[..] == Put(old(pkt[..]), 0, HeaderFrame(c)) && i == |HeaderFrame(c)|
  {
    ghost var p0 := pkt[..];
    Asc2AXCall(AddrText(c.dest), 0, pkt, 0);
    ghost var p1 := pkt[..];
    Asc2AXCall(AddrText(c.call), 0, pkt, 7);
    ghost var p2 := pkt[..];
    i := 14;
    if c.path.Some? {
      Asc2AXCall(AddrText(c.path.value), 0, pkt, i);
      i := i + 7;
    }
    ghost var p3 := pkt[..];
    pkt[i - 1] := pkt[i - 1] | END_BIT;
    ghost var p4 := pkt[..];
    pkt[i] := CONTROL_UI;
    ghost var p5 := pkt[..];
    i := i + 1;
    pkt[i] := PID_NONE;
    HeaderWrites(c, i - 1, p0, p1, p2, p3, p4, p5, pkt[..]);
    i := i + 1;
  }

  /** The writes of CreatePacket, buffer by buffer, leave the header frame
      at the head of the buffer. */
  lemma HeaderWrites(c: Config, e: nat, p0: seq<bv8>, p1: seq<bv8>, p2: seq<bv8>, p3: seq<bv8>,
                      p4: seq<bv8>, p5: seq<bv8>, p6: seq<bv8>)
    requires ValidConfig(c) && |p0| == PKT_SIZE
    requires e == if c.path.Some? then 21 else 14
    requires p1 == Put(p0, 0, Pack(AddrText(c.dest), 0))
    requires p2 == Put(p1, 7, Pack(AddrText(c.call), 0))
    requires p3 == if c.path.Some? then Put(p2, 14, Pack(AddrText(c.path.value), 0)) else p2
    requires p4 == p3[e - 1 := p3[e - 1] | END_BIT]
    requires p5 == p4[e := CONTROL_UI]
    requires p6 == p5[e + 1 := PID_NONE]
    ensures p6 == Put(p0, 0, HeaderFrame(c)) && e + 2 == |HeaderFrame(c)|
  {
    var a := AddressWrites(c, p0, p1, p2, p3);
    HeaderAddress(c, a);
    PutMark(p0, a);
    var a' := a[|a| - 1 := a[|a| - 1] | END_BIT];
    PutSnoc(p0, a', CONTROL_UI);
    PutSnoc(p0, a' + [CONTROL_UI], PID_NONE);
    assert a' + [CONTROL_UI] + [PID_NONE] == HeaderFrame(c);
  }

  /** The three asc2AXcall writes of CreatePacket leave the packed
      addresses `a`, one after the other, at the head of the buffer. */
  lemma AddressWrites(c: Config, p0: seq<bv8>, p1: seq<bv8>, p2: seq<bv8>, p3: seq<bv8>)
      returns (a: seq<bv8>)
    requires ValidConfig(c) && |p0| == PKT_SIZE
    requires p1 == Put(p0, 0, Pack(AddrText(c.dest), 0))
    requires p2 == Put(p1, 7, Pack(AddrText(c.call), 0))
    requires p3 == if c.path.Some? then Put(p2, 14, Pack(AddrText(c.path.value), 0)) else p2
    ensures a == AddrBytes(c.dest, false) + AddrBytes(c.call, false)
                 + (if c.path.Some? then AddrBytes(c.path.value, false) else [])
    ensures p3 == Put(p0, 0, a)
  {
    PackAddrAlone(c.dest);
    PackAddrAlone(c.call);
    a := AddrBytes(c.dest, false);
    PutPut(p0, 0, a, AddrBytes(c.call, false));
    a := a + AddrBytes(c.call, false);
    if c.path.Some? {
      PackAddrAlone(c.path.value);
      PutPut(p0, 0, a, AddrBytes(c.path.value, false));
      a := a + AddrBytes(c.path.value, false);
    } else {
      assert a + [] == a;
    }
  }

  /** The address field of the station's frames: destination, source and
      the optional path entry, packed one after the other. */
  lemma HeaderAddress(c: Config, a: seq<bv8>)
    requires ValidConfig(c)
    requires a == AddrBytes(c.dest, false) + AddrBytes(c.call, false)
                  + (if c.path.Some? then AddrBytes(c.path.value, false) else [])
    ensures a == AddressField(Outgoing(c, []))
    ensures HeaderFrame(c) == a[|a| - 1 := a[|a| - 1] | END_BIT] + [CONTROL_UI, PID_NONE]
  {
    var m := Outgoing(c, []);
    if c.path.Some? {
      assert PathBytes(m.path) == AddrBytes(c.path.value, false) + PathBytes([]);
    }
  }

  /** Setting a bit in the last byte written is writing it set. */
  lemma PutMark(buf: seq<bv8>, x: seq<bv8>)
    requires 1 <= |x| <= |buf|
    ensures var b := Put(buf, 0, x);
      b[|x| - 1 := b[|x| - 1] | END_BIT] == Put(buf, 0, x[|x| - 1 := x[|x| - 1] | END_BIT])
  {
    var b := Put(buf, 0, x);
    assert b == x + buf[|x|..];
  }

  /** A byte stored right after what was written extends it. */
  lemma PutSnoc(buf: seq<bv8>, x: seq<bv8>, v: bv8)
    requires |x| < |buf|
    ensures Put(buf, 0, x)[|x| := v] == Put(buf, 0, x + [v])
  {
    var b := Put(buf, 0, x);
    assert b == x + buf[|x|..];
    assert buf[|x|..] == [buf[|x|]] + buf[|x| + 1..];
  }
}
