/** What the digipeater promises, stated about the functions of DigiSpec
    (and so, through the contracts of Digi.Digipeater, about the routines
    of digi.cpp): the frames the station sends, the frames it drops, the
    message and query handling, the two digipeating rules, the poll
    loop's timer priority and the telemetry cycle. */
module DigiProps {
  import opened Bytes
  import opened Callsign
  import opened FrameCodec
  import opened RoundTrip
  import opened DecodeTrip
  import opened Timer
  import opened Crc16
  import opened DupTable
  import opened DigiFrame
  import opened DigiSpec

  // ---------------------------------------------------------------------
  // Frames the station originates

  lemma PlainNoNul(s: seq<bv8>)
    requires Plain(s)
    ensures NoNul(s)
  {
  }

  lemma NoNulJoin(a: seq<bv8>, b: seq<bv8>)
    requires NoNul(a) && NoNul(b)
    ensures NoNul(a + b)
  {
    forall i | 0 <= i < |a + b|
      ensures (a + b)[i] != 0
    {
      if i >= |a| {
        assert (a + b)[i] == b[i - |a|];
      }
    }
  }

  lemma {:induction false} PathNoNul(hs: seq<Hop>)
    requires ValidPath(hs)
    ensures NoNul(PathText(hs))
  {
    if |hs| > 0 {
      var h := hs[0];
      AddrTextPlain(h.addr);
      PlainNoNul(AddrText(h.addr));
      NoNulJoin([COMMA], AddrText(h.addr));
      NoNulJoin([COMMA] + AddrText(h.addr), if h.repeated then [STAR] else []);
      PathNoNul(hs[1..]);
      NoNulJoin(HopMonitor(h), PathText(hs[1..]));
    }
  }

  /** Monitor text is a C string: callsigns and SSIDs are alphanumerics
      and dashes, the marks are printable and the payload has no NUL. */
  lemma MonitorNoNul(m: Monitor)
    requires Canonical(m)
    ensures NoNul(MonitorText(m))
  {
    AddrTextPlain(m.src);
    AddrTextPlain(m.dst);
    PlainNoNul(AddrText(m.src));
    PlainNoNul(AddrText(m.dst));
    PathNoNul(m.path);
    var s := AddrText(m.src) + [GT];
    NoNulJoin(AddrText(m.src), [GT]);
    NoNulJoin(s, AddrText(m.dst));
    NoNulJoin(s + AddrText(m.dst), PathText(m.path));
    NoNulJoin(s + AddrText(m.dst) + PathText(m.path), [COLON]);
    NoNulJoin(s + AddrText(m.dst) + PathText(m.path) + [COLON], m.info);
  }

  /** The frame of a payload the station originates is the header
      CreatePacket writes followed by the payload. */
  lemma FrameOfPayload(c: Config, x: seq<bv8>)
    requires ValidConfig(c) && NoNul(x)
    ensures FrameOf(Outgoing(c, x)) == HeaderFrame(c) + x
  {
    var m := Outgoing(c, x);
    var m0 := Outgoing(c, []);
    assert AddressField(m) == AddressField(m0);
  }

  /** What SendPacket hands to the radio for a frame the station
      originates with payload `x`: monitor text behind '<', 0xFF, 0x01
      when more text frames than binary ones have been heard, the frame
      itself otherwise. */
  function Framed(n: Node, c: Config, x: seq<bv8>): seq<bv8>
    requires ValidConfig(c) && NoNul(x)
  {
    if n.oe > n.bin then OE_HEADER + MonitorText(Outgoing(c, x)) else FrameOf(Outgoing(c, x))
  }

  /** After CreatePacket and the printed payload `x`, `pkt` holds the
      frame of `x` and `index` is its length. */
  lemma PrintedFrame(n: Node, c: Config, x: seq<bv8>)
    requires Good(n) && ValidConfig(c) && |x| <= 200 && NoNul(x)
    ensures var n2 := PrintStep(CreateStep(n, c), x);
            && n2.index == |FrameOf(Outgoing(c, x))|
            && n2.pkt[..n2.index] == FrameOf(Outgoing(c, x))
  {
    FrameOfPayload(c, x);
    PrintedAfter(n.pkt, HeaderFrame(c), x);
  }

  /** A text printed right after what was written at the head of a buffer
      continues it. */
  lemma PrintedAfter(buf: seq<bv8>, y: seq<bv8>, z: seq<bv8>)
    requires |y| + |z| + 1 <= |buf|
    ensures Put(Put(buf, 0, y), |y|, z + [0])[..|y| + |z|] == y + z
  {
    var p1 := Put(buf, 0, y);
    assert p1[..|y|] == y;
    var p2 := Put(p1, |y|, z + [0]);
    assert p2 == y + (z + [0]) + p1[|y| + |z| + 1..];
  }

  /** CreatePacket, printing and SendPacket send one frame and change only
      the frame buffer, `index`, the frames sent and the transmit count. */
  lemma SendTextKeeps(n: Node, c: Config, x: seq<bv8>)
    requires Good(n) && ValidConfig(c) && |x| <= 200
    ensures var r := SendText(n, c, x);
            && |r.sent| == |n.sent| + 1 && r.sent[..|n.sent|] == n.sent
            && r == n.(pkt := r.pkt, index := r.index, sent := r.sent, tx := r.tx)
  {
  }

  /** CreatePacket, a printed payload and SendPacket send one frame: the
      UI frame from the station's call to its destination over its path
      with that payload, or, in text mode, exactly the monitor text of
      that frame. Nothing else of the state but the frame buffer and the
      transmit count changes. */
  lemma SendTextSends(n: Node, c: Config, x: seq<bv8>)
    requires Good(n) && ValidConfig(c) && |x| <= 200 && NoNul(x)
    ensures var r := SendText(n, c, x);
            && r.sent == n.sent + [Framed(n, c, x)] && r.tx == Inc(n.tx)
            && r == n.(pkt := r.pkt, index := r.index, sent := r.sent, tx := r.tx)
  {
    var m := Outgoing(c, x);
    var n2 := PrintStep(CreateStep(n, c), x);
    PrintedFrame(n, c, x);
    if n.oe > n.bin {
      DecodeFrame(m, n2.pkt);
      MonitorNoNul(m);
      TakeUntilNulOfNoNul(MonitorText(m), []);
      assert MonitorText(m) + [] == MonitorText(m);
    }
  }

  // ---------------------------------------------------------------------
  // Frames received as monitor text

  /** The C string behind the three head bytes of received monitor text
      is that text. */
  lemma ReceivedText(m: Monitor, tail: seq<bv8>)
    requires Canonical(m) && (tail == [] || tail[0] == 0)
    ensures TakeUntilNul((OE_HEADER + MonitorText(m) + tail)[3..]) == MonitorText(m)
  {
    assert (OE_HEADER + MonitorText(m) + tail)[3..] == MonitorText(m) + tail;
    MonitorNoNul(m);
    TakeUntilNulOfNoNul(MonitorText(m), tail);
  }

  /** Monitor text arriving in the buffer `p` is packed by EncodeAX25 into
      its frame at the head of the buffer. */
  lemma TextArrives(p: seq<bv8>, m: Monitor, tail: seq<bv8>)
    requires |p| == PKT_SIZE && Canonical(m) && |FrameOf(m)| <= MAX_FRAME
    requires tail == [] || tail[0] == 0
    requires MIN_FRAME <= |OE_HEADER + MonitorText(m) + tail| <= MAX_FRAME
    ensures RxFits(OE_HEADER + MonitorText(m) + tail)
    ensures var f := OE_HEADER + MonitorText(m) + tail;
            Arrived(p, f) == (Put(Put(p, 0, f), 0, FrameOf(m)), |FrameOf(m)|, true)
  {
    var f := OE_HEADER + MonitorText(m) + tail;
    ReceivedText(m, tail);
    EncodeMonitor(m, Put(p, 0, f));
  }

  /** A frame received as monitor text behind '<', 0xFF, 0x01 (up to its
      NUL, if any) lands in `pkt` as the frame of that text, with its
      length, and is counted as text; digipeated unchanged it would go back
      out as the same text. */
  lemma TextFrameLands(n: Node, m: Monitor, tail: seq<bv8>)
    requires Good(n) && Canonical(m) && |FrameOf(m)| <= MAX_FRAME
    requires tail == [] || tail[0] == 0
    requires MIN_FRAME <= |OE_HEADER + MonitorText(m) + tail| <= MAX_FRAME
    ensures RxFits(OE_HEADER + MonitorText(m) + tail)
    ensures var (r, len) := Landed(n, OE_HEADER + MonitorText(m) + tail);
            && len == |FrameOf(m)| && r.pkt[..len] == FrameOf(m)
            && r.oeFormat && r.oe == Inc(n.oe) && r.bin == n.bin
            && r == n.(pkt := r.pkt, oeFormat := true, oe := r.oe)
            && PathCount(r.pkt, 0).Some? && OeFrame(r.pkt, len) == OE_HEADER + MonitorText(m)
  {
    var f := OE_HEADER + MonitorText(m) + tail;
    TextArrives(n.pkt, m, tail);
    var b := Put(Put(n.pkt, 0, f), 0, FrameOf(m));
    assert b[..|FrameOf(m)|] == FrameOf(m);
    DecodeFrame(m, b);
    MonitorNoNul(m);
    TakeUntilNulOfNoNul(MonitorText(m), []);
    assert MonitorText(m) + [] == MonitorText(m);
  }

  // ---------------------------------------------------------------------
  // Messages to the station

  /** The acknowledgement is a C string. */
  lemma AckNoNul(caller: seq<bv8>, tag: nat)
    requires |caller| <= 9 && tag < 0x1_0000 && NoNul(caller)
    ensures NoNul(AckText(caller, tag))
  {
    DecDigits(tag);
    assert NoNul(ACK);
    assert NoNul(Pad9(caller));
    NoNulJoin([COLON], Pad9(caller));
    NoNulJoin([COLON] + Pad9(caller), ACK);
    NoNulJoin([COLON] + Pad9(caller) + ACK, Dec(tag));
  }

  /** The acknowledgement of a message: sent to the message's source, it
      carries `:ack` and the message number, which reads back as the
      number. */
  function AckFor(n: Node, c: Config, len: nat, b: nat): (r: seq<bv8>)
    requires Good(n) && ValidConfig(c) && len <= PKT_SIZE
    ensures NoNul(r)
  {
    var caller := TakeUntilNul(Unpack(n.pkt, 7));
    TakeUntilNulPrefix(Unpack(n.pkt, 7));
    AckNoNul(caller, Tag(n.pkt, b, len));
    AckText(caller, Tag(n.pkt, b, len))
  }

  /** The number an acknowledgement carries reads back as the tag. */
  lemma AckNumber(caller: seq<bv8>, tag: nat)
    requires |caller| <= 9 && tag < 0x1_0000
    ensures var a := AckText(caller, tag);
            && a[..1] == [COLON] && a[1..10] == Pad9(caller) && a[10..14] == ACK
            && Digits(a, 14, 0) == tag
  {
    var a := AckText(caller, tag);
    assert a == [COLON] + Pad9(caller) + ACK + Dec(tag);
    assert |ACK| == 4;
    DigitsShift([COLON] + Pad9(caller) + ACK, Dec(tag), 0, 0);
    DigitsDec(tag);
  }

  /** MessageHandler: `?APRSS` right after the addressee header makes the
      status beacon due at once; a message number after '{' is
      acknowledged with one frame to the sender; nothing else is sent and
      neither the duplicate table nor the digipeat count changes. */
  lemma MessageAcks(n: Node, c: Config, len: nat, d: nat, clk: Tick)
    requires Good(n) && ValidConfig(c) && len <= PKT_SIZE && d + 17 <= PKT_SIZE
    ensures var r := MessageStep(n, c, len, d, clk);
            && r.beacon3 == (if n.pkt[d + 11..d + 17] == QUERY_STATUS then clk else n.beacon3)
            && r.beacon1 == n.beacon1 && r.beacon2 == n.beacon2 && r.telem == n.telem
            && r.digi == n.digi && r.dup == n.dup && r.rx == n.rx
            && r.sent == n.sent + match FindAny(n.pkt[..len], d, {LBRACE})
                                  case None => []
                                  case Some(b) => [Framed(n, c, AckFor(n, c, len, b))]
  {
    var p := n.pkt;
    var n1 := if p[d + 11..d + 17] == QUERY_STATUS then n.(beacon3 := clk) else n;
    match FindAny(p[..len], d, {LBRACE})
    case None =>
    case Some(b) =>
      SendTextSends(n1, c, AckFor(n, c, len, b));
  }

  /** After `?APRSS` the status beacon is overdue at every later tick up to
      half the tick range ahead. */
  lemma StatusQueryDue(n: Node, c: Config, len: nat, d: nat, clk: Tick, later: Tick)
    requires Good(n) && ValidConfig(c) && len <= PKT_SIZE && d + 17 <= PKT_SIZE
    requires n.pkt[d + 11..d + 17] == QUERY_STATUS && 0 < later <= HALF
    ensures TimerOverflow(MessageStep(n, c, len, d, clk).beacon3, Add(clk, later))
  {
    MessageAcks(n, c, len, d, clk);
    DeadlinePassed(clk, later);
  }

  /** A message to the station is never digipeated and never enters the
      duplicate table: past the duplicate test only the lapsed entries are
      cleared and at most the acknowledgement is sent. */
  lemma MessageNotRepeated(n: Node, c: Config, len: nat, d: nat, clk: Tick)
    requires Good(n) && ValidConfig(c) && len <= MAX_FRAME && Structured(n.pkt, len)
    requires d + 17 <= PKT_SIZE && n.pkt[d..d + 11] == Header(c)
    ensures var r := DupStep(n, c, len, d, clk);
            && r.digi == n.digi && r.dup == Expired(n.dup, clk)
            && n.sent <= r.sent && |r.sent| <= |n.sent| + 1
  {
    if !Holds(n.dup, Crc(Payload(n.pkt, d, len)), clk) {
      MessageAcks(n.(dup := Expired(n.dup, clk)), c, len, d, clk);
    }
  }

  // ---------------------------------------------------------------------
  // Frames DigiRules drops

  /** A frame that is not UI, or that the station sent itself, leaves
      every part of the state as it was. */
  lemma NotUiOrOwnDropped(n: Node, c: Config, len: nat, clk: Tick)
    requires Good(n) && ValidConfig(c) && len <= MAX_FRAME && Structured(n.pkt, len)
    requires n.pkt[FirstOdd(n.pkt, 0, len) + 1] != CONTROL_UI || FromNode(n.pkt, c)
    ensures RulesStep(n, c, len, clk) == n
  {
  }

  /** A frame whose payload the table holds is dropped; the duplicate test
      has only cleared the lapsed entries. */
  lemma DuplicateDropped(n: Node, c: Config, len: nat, d: nat, clk: Tick)
    requires Good(n) && ValidConfig(c) && len <= MAX_FRAME && Structured(n.pkt, len)
    requires d + 17 <= PKT_SIZE && Holds(n.dup, Crc(Payload(n.pkt, d, len)), clk)
    ensures DupStep(n, c, len, d, clk) == n.(dup := Expired(n.dup, clk))
  {
  }

  /** A frame whose destination SSID selects no rule and whose source
      carries the end-of-address bit (no path) is dropped after the
      `?APRS?` test. */
  lemma NoPathDropped(n: Node, c: Config, len: nat, d: nat, clk: Tick)
    requires Good(n) && ValidConfig(c) && len <= MAX_FRAME && Structured(n.pkt, len)
    requires d + 6 <= PKT_SIZE
    requires !(1 <= DestSsid(n.pkt) <= WIDEN_MAX) && n.pkt[13] & END_BIT != 0
    ensures var r := ForwardStep(n, c, len, d, clk);
            && r.pkt == n.pkt && r.sent == n.sent && r.dup == n.dup
            && r == (if n.pkt[d..d + 6] == QUERY_ALL then n.(beacon1 := clk) else n)
  {
  }

  // ---------------------------------------------------------------------
  // What DigiRules leaves alone

  /** The parts of the state DigiRules never changes: the counts of frames
      received, heard as text and heard as binary, the format of the frame
      in hand, the beacon 2 and telemetry deadlines and the telemetry
      cycle. */
  predicate RulesKeep(r: Node, n: Node) {
    && r.rx == n.rx && r.oe == n.oe && r.bin == n.bin && r.oeFormat == n.oeFormat
    && r.beacon2 == n.beacon2 && r.telem == n.telem
    && r.telemSeq == n.telemSeq && r.telemCnt == n.telemCnt
  }

  lemma MessageKeeps(n: Node, c: Config, len: nat, d: nat, clk: Tick)
    requires Good(n) && ValidConfig(c) && len <= PKT_SIZE && d + 17 <= PKT_SIZE
    ensures RulesKeep(MessageStep(n, c, len, d, clk), n)
  {
    var p := n.pkt;
    var n1 := if p[d + 11..d + 17] == QUERY_STATUS then n.(beacon3 := clk) else n;
    match FindAny(p[..len], d, {LBRACE})
    case None =>
    case Some(b) =>
      SendTextKeeps(n1, c, AckText(TakeUntilNul(Unpack(p, 7)), Tag(p, b, len)));
  }

  lemma ForwardKeeps(n: Node, c: Config, len: nat, d: nat, clk: Tick)
    requires Good(n) && ValidConfig(c) && len <= MAX_FRAME && Structured(n.pkt, len)
    requires d + 6 <= PKT_SIZE
    ensures RulesKeep(ForwardStep(n, c, len, d, clk), n)
  {
    var n1 := if n.pkt[d..d + 6] == QUERY_ALL then n.(beacon1 := clk) else n;
    if 1 <= DestSsid(n.pkt) <= WIDEN_MAX {
      SsidKeeps(n1, c, len, d, clk);
    } else if n.pkt[13] & END_BIT == 0 {
      WideKeeps(n1, c, len, d, clk);
    }
  }

  lemma SsidKeeps(n: Node, c: Config, len: nat, d: nat, clk: Tick)
    requires Good(n) && ValidConfig(c) && len <= MAX_FRAME && Structured(n.pkt, len)
    requires 1 <= DestSsid(n.pkt) <= WIDEN_MAX
    ensures RulesKeep(SsidStep(n, c, len, d, clk), n)
  {
  }

  lemma WideKeeps(n: Node, c: Config, len: nat, d: nat, clk: Tick)
    requires Good(n) && ValidConfig(c) && len <= MAX_FRAME && Structured(n.pkt, len)
    requires EndHop(n.pkt, len) > 0
    ensures RulesKeep(WideStep(n, c, len, d, clk), n)
  {
  }

  /** DigiRules counts no received frame and leaves the format flag, the
      beacon 2 and telemetry deadlines and the telemetry cycle alone. */
  lemma RulesKeeps(n: Node, c: Config, len: nat, clk: Tick)
    requires Good(n) && ValidConfig(c) && len <= MAX_FRAME && Structured(n.pkt, len)
    ensures RulesKeep(RulesStep(n, c, len, clk), n)
  {
    var p := n.pkt;
    var e := FirstOdd(p, 0, len);
    if p[e + 1] == CONTROL_UI && !FromNode(p, c) {
      var d := e + 3;
      var n1 := n.(dup := Expired(n.dup, clk));
      if !Holds(n.dup, Crc(Payload(p, d, len)), clk) {
        if p[d..d + 11] == Header(c) {
          MessageKeeps(n1, c, len, d, clk);
        } else {
          ForwardKeeps(n1, c, len, d, clk);
        }
      }
    }
  }

  /** A received frame is counted once as text or as binary when it has
      MIN_FRAME bytes, and counted as received when it also passes the spot
      check; DigiRules adds no count of its own. */
  lemma ReceiveCounts(n: Node, c: Config, f: seq<bv8>, clk: Tick)
    requires Good(n) && ValidConfig(c) && RxFits(f)
    ensures var r := ReceiveStep(n, c, f, clk);
            var (n1, len) := Landed(n, f);
            var text := |f| >= MIN_FRAME && f[0] == LT && f[1] == 0xFF;
            && r.rx == (if |f| >= MIN_FRAME && Structured(n1.pkt, len) then Inc(n.rx) else n.rx)
            && r.oe == (if text then Inc(n.oe) else n.oe)
            && r.bin == (if |f| >= MIN_FRAME && !text then Inc(n.bin) else n.bin)
            && r.oeFormat == (if |f| >= MIN_FRAME then text else n.oeFormat)
  {
    var (n1, len) := Landed(n, f);
    if |f| >= MIN_FRAME && Structured(n1.pkt, len) {
      RulesKeeps(n1.(rx := Inc(n1.rx)), c, len, clk);
    }
  }

  // ---------------------------------------------------------------------
  // The two digipeating rules

  /** What the destination-SSID rule leaves of a state with the given frame,
      table, digipeat count, frames sent and format: the frame edited by
      SsidEdit, its address field one entry longer, goes out seven bytes
      longer (as it stands when it came in binary), the digipeat count
      counts it, and the payload of the decremented frame is added to the
      duplicate table. */
  predicate SsidRepeated(r: Node, p: seq<bv8>, dup: seq<DupSlot>, digi: Word, sent: seq<seq<bv8>>,
                         oeFormat: bool, c: Config, len: nat, d: nat, clk: Tick)
    requires ValidConfig(c) && |p| == PKT_SIZE && |dup| == DUP_MAXFRAME && len <= MAX_FRAME
    requires Structured(p, len)
    requires 1 <= DestSsid(p) <= WIDEN_MAX
  {
    && r.pkt == SsidEdit(p, len, NodeCall(c)) && |r.pkt| == PKT_SIZE
    && PathCount(r.pkt, 0) == Some(EndHop(p, len) + 1)
    && r.dup == Added(dup, Crc(Payload(SsidDecremented(p), d, len)), clk)
    && r.digi == Inc(digi)
    && |r.sent| == |sent| + 1 && r.sent[..|sent|] == sent
    && (!oeFormat ==> r.sent[|sent|] == r.pkt[..len + 7])
  }

  lemma SsidStepEdits(n: Node, c: Config, len: nat, d: nat, clk: Tick)
    requires Good(n) && ValidConfig(c) && len <= MAX_FRAME && Structured(n.pkt, len)
    requires 1 <= DestSsid(n.pkt) <= WIDEN_MAX
    ensures SsidRepeated(SsidStep(n, c, len, d, clk), n.pkt, n.dup, n.digi, n.sent, n.oeFormat,
                         c, len, d, clk)
  {
    SsidFrameEnds(n.pkt, len, NodeCall(c));
  }

  /** The beacon 1 deadline after the `?APRS?` test: the tick when the
      payload starts with `?APRS?`, the old deadline otherwise. */
  function QueriedBeacon1(n: Node, d: nat, clk: Tick): Tick
    requires Good(n) && d + 6 <= PKT_SIZE
  {
    if n.pkt[d..d + 6] == QUERY_ALL then clk else n.beacon1
  }

  /** Which rule ForwardStep applies: whatever follows, `?APRS?` sets beacon
      1 to the tick and leaves it so; then a destination SSID of 1 to 3
      selects the destination-SSID rule alone, and otherwise a frame with a
      path goes to the WIDEn-N rule, both on the state the query left. */
  lemma ForwardDispatch(n: Node, c: Config, len: nat, d: nat, clk: Tick)
    requires Good(n) && ValidConfig(c) && len <= MAX_FRAME && Structured(n.pkt, len)
    requires d + 6 <= PKT_SIZE
    ensures ForwardStep(n, c, len, d, clk).beacon1 == QueriedBeacon1(n, d, clk)
    ensures 1 <= DestSsid(n.pkt) <= WIDEN_MAX ==>
              ForwardStep(n, c, len, d, clk)
              == SsidStep(n.(beacon1 := QueriedBeacon1(n, d, clk)), c, len, d, clk)
    ensures !(1 <= DestSsid(n.pkt) <= WIDEN_MAX) && n.pkt[13] & END_BIT == 0 ==>
              EndHop(n.pkt, len) > 0
              && ForwardStep(n, c, len, d, clk)
                 == WideStep(n.(beacon1 := QueriedBeacon1(n, d, clk)), c, len, d, clk)
  {
    assert n.(beacon1 := n.beacon1) == n;
  }

  /** The destination-SSID rule as DigiRules reaches it: with a destination
      SSID of 1 to 3, ForwardStep edits and sends the frame by the
      destination-SSID rule alone, never trying the WIDEn-N rule, and beacon
      1 is what the `?APRS?` test made it. */
  lemma SsidRuleRepeats(n: Node, c: Config, len: nat, d: nat, clk: Tick)
    requires Good(n) && ValidConfig(c) && len <= MAX_FRAME && Structured(n.pkt, len)
    requires d + 6 <= PKT_SIZE
    requires 1 <= DestSsid(n.pkt) <= WIDEN_MAX
    ensures var r := ForwardStep(n, c, len, d, clk);
            && r == SsidStep(n.(beacon1 := QueriedBeacon1(n, d, clk)), c, len, d, clk)
            && r.beacon1 == QueriedBeacon1(n, d, clk)
            && SsidRepeated(r, n.pkt, n.dup, n.digi, n.sent, n.oeFormat, c, len, d, clk)
  {
    var n1 := n.(beacon1 := QueriedBeacon1(n, d, clk));
    ForwardDispatch(n, c, len, d, clk);
    SsidStepEdits(n1, c, len, d, clk);
  }

  /** FirstUnrepeated finds the first entry without the repeated bit. */
  lemma FirstUnrepeatedIs(p: seq<bv8>, m: nat, k: nat)
    requires 13 + 7 * m < |p| && p[13 + 7 * m] & END_BIT != 0
    requires forall j :: 0 <= j && j + 1 < m ==> p[20 + 7 * j] & END_BIT == 0
    requires k < m && p[20 + 7 * k] & REPEATED == 0
    requires forall j :: 0 <= j < k ==> p[20 + 7 * j] & REPEATED != 0
    ensures FirstUnrepeated(p, 0, m) == Some(k)
  {
  }

  /** The WIDEn-N rule acts only on the first path entry not yet
      repeated, `k`, and only when it reads WIDEn-N: otherwise the frame is
      dropped. */
  lemma WideRuleSkips(n: Node, c: Config, len: nat, d: nat, clk: Tick, k: nat)
    requires Good(n) && ValidConfig(c) && len <= MAX_FRAME && Structured(n.pkt, len)
    requires k < EndHop(n.pkt, len) && n.pkt[20 + 7 * k] & REPEATED == 0
    requires forall j :: 0 <= j < k ==> n.pkt[20 + 7 * j] & REPEATED != 0
    requires !IsWide(n.pkt, k)
    ensures WideStep(n, c, len, d, clk) == n
  {
    PathOpen(n.pkt, len);
    FirstUnrepeatedIs(n.pkt, EndHop(n.pkt, len), k);
  }

  /** When the first path entry not yet repeated, `k`, reads WIDEn-N, the
      frame edited by WideEdit goes out (as it stands when it came in
      binary) and its payload, moved with it, enters the duplicate
      table. */
  lemma WideRuleRepeats(n: Node, c: Config, len: nat, d: nat, clk: Tick, k: nat)
    requires Good(n) && ValidConfig(c) && len <= MAX_FRAME && Structured(n.pkt, len)
    requires k < EndHop(n.pkt, len) && n.pkt[20 + 7 * k] & REPEATED == 0
    requires forall j :: 0 <= j < k ==> n.pkt[20 + 7 * j] & REPEATED != 0
    requires IsWide(n.pkt, k)
    ensures var r := WideStep(n, c, len, d, clk);
            var (p', len') := WideEdit(n.pkt, len, NodeCall(c), k);
            && r.pkt == p' && r.digi == Inc(n.digi)
            && r.dup == Added(n.dup, Crc(Payload(p', d + (len' - len), len')), clk)
            && |r.sent| == |n.sent| + 1 && r.sent[..|n.sent|] == n.sent
            && (!n.oeFormat ==> r.sent[|n.sent|] == p'[..len'])
  {
    WideOpen(n.pkt, len, NodeCall(c), k);
    WideStepAt(n, c, len, d, clk, k);
    WideEditedIs(n, c, len, d, clk, k);
    RepeatSends(WideEdited(n, c, len, d, clk, k), WideEdit(n.pkt, len, NodeCall(c), k).1);
  }

  lemma WideEditedIs(n: Node, c: Config, len: nat, d: nat, clk: Tick, k: nat)
    requires Good(n) && ValidConfig(c) && len <= MAX_FRAME && Structured(n.pkt, len)
    requires k < EndHop(n.pkt, len) && IsWide(n.pkt, k)
    ensures var (p', len') := WideEdit(n.pkt, len, NodeCall(c), k);
            WideEdited(n, c, len, d, clk, k)
            == n.(pkt := p', dup := Added(n.dup, Crc(Payload(p', d + (len' - len), len')), clk))
  {
  }

  /** DigiRepeat sends the frame in hand once, as it stands when it came in
      binary, and counts it; it changes nothing else. */
  lemma RepeatSends(e: Node, len: nat)
    requires Good(e) && len <= PKT_SIZE && PathCount(e.pkt, 0).Some?
    ensures var r := RepeatStep(e, len);
            && r == e.(sent := r.sent, digi := Inc(e.digi))
            && |r.sent| == |e.sent| + 1 && r.sent[..|e.sent|] == e.sent
            && (!e.oeFormat ==> r.sent[|e.sent|] == e.pkt[..len])
  {
  }

  /** The WIDEn-N rule edits entry `k` and hands the frame to DigiRepeat. */
  lemma WideStepAt(n: Node, c: Config, len: nat, d: nat, clk: Tick, k: nat)
    requires Good(n) && ValidConfig(c) && len <= MAX_FRAME && Structured(n.pkt, len)
    requires k < EndHop(n.pkt, len) && n.pkt[20 + 7 * k] & REPEATED == 0
    requires forall j :: 0 <= j < k ==> n.pkt[20 + 7 * j] & REPEATED != 0
    requires IsWide(n.pkt, k) && PathCount(WideEdit(n.pkt, len, NodeCall(c), k).0, 0).Some?
    ensures WideStep(n, c, len, d, clk)
            == RepeatStep(WideEdited(n, c, len, d, clk, k), WideEdit(n.pkt, len, NodeCall(c), k).1)
  {
    PathOpen(n.pkt, len);
    FirstUnrepeatedIs(n.pkt, EndHop(n.pkt, len), k);
  }

  /** A frame whose path entries are all repeated is dropped by the WIDEn-N
      rule. */
  lemma WideRuleAllRepeated(n: Node, c: Config, len: nat, d: nat, clk: Tick)
    requires Good(n) && ValidConfig(c) && len <= MAX_FRAME && Structured(n.pkt, len)
    requires EndHop(n.pkt, len) > 0
    requires forall j :: 0 <= j < EndHop(n.pkt, len) ==> n.pkt[20 + 7 * j] & REPEATED != 0
    ensures WideStep(n, c, len, d, clk) == n
  {
    PathOpen(n.pkt, len);
  }

  // ---------------------------------------------------------------------
  // Beacons, telemetry and the poll loop

  /** A text of 8-bit characters other than NUL is a C string. */
  lemma AsciiNoNul(s: string)
    requires forall ch :: ch in s ==> 0 < ch as int < 256
    ensures NoNul(Ascii(s))
  {
    forall i | 0 <= i < |s|
      ensures Ascii(s)[i] != 0
    {
      assert s[i] in s;
    }
  }

  lemma CommentsNoNul()
    ensures NoNul(B1_COMMENT) && NoNul(B2_COMMENT)
  {
    AsciiNoNul("433.775 MHz 20dbm B125 SF12 CR45");
    AsciiNoNul("Lora digi V2.1");
  }

  lemma DefinitionsNoNul()
    ensures NoNul(PARM) && NoNul(UNIT) && NoNul(EQNS)
  {
    AsciiNoNul("PARM.Vbatt,ExtT,IntT,Pres");
    AsciiNoNul("UNIT.Volt,C,C,kPa");
    EqnsNoNul();
  }

  lemma EqnsNoNul()
    ensures NoNul(EQNS)
  {
    AsciiNoNul("EQNS.0,0.008,2.5,0,0.5,");
    AsciiNoNul("-60,0,0.5,-60,0,0.1,90");
    NoNulJoin(Ascii("EQNS.0,0.008,2.5,0,0.5,"), Ascii("-60,0,0.5,-60,0,0.1,90"));
  }

  lemma StatusWordsNoNul()
    ensures NoNul(Ascii("mV (")) && NoNul(Ascii("SLP")) && NoNul(Ascii("ACT"))
    ensures NoNul(Ascii(") T=")) && NoNul(Ascii("C R")) && NoNul(Ascii("D")) && NoNul(Ascii("T"))
  {
    AsciiNoNul("mV (");
    AsciiNoNul("SLP");
    AsciiNoNul("ACT");
    AsciiNoNul(") T=");
    AsciiNoNul("C R");
    AsciiNoNul("D");
    AsciiNoNul("T");
  }

  lemma DecNoNul(v: nat)
    ensures NoNul(Dec(v))
  {
    DecDigits(v);
  }

  lemma {:induction false} ZeroPadNoNul(v: nat, k: nat)
    ensures NoNul(ZeroPad(v, k))
  {
    if k > 0 {
      ZeroPadNoNul(v / 10, k - 1);
      NoNulJoin(ZeroPad(v / 10, k - 1), [DigitChar(v % 10)]);
    }
  }

  /** The status report is a C string. */
  lemma StatusNoNul(s: Sensors, rx: Word, digi: Word, tx: Word)
    requires ValidSensors(s)
    ensures NoNul(StatusText(s, rx, digi, tx))
  {
    StatusWordsNoNul();
    DecNoNul(s.battMv);
    DecNoNul(rx);
    DecNoNul(digi);
    DecNoNul(tx);
    var mode := if s.sleeping then Ascii("SLP") else Ascii("ACT");
    var t0 := [GT] + Dec(s.battMv);
    NoNulJoin([GT], Dec(s.battMv));
    NoNulJoin(t0, Ascii("mV ("));
    var t1 := t0 + Ascii("mV (");
    NoNulJoin(t1, mode);
    NoNulJoin(t1 + mode, Ascii(") T="));
    var t2 := t1 + mode + Ascii(") T=");
    NoNulJoin(t2, s.extTemp);
    NoNulJoin(t2 + s.extTemp, Ascii("C R"));
    var t3 := t2 + s.extTemp + Ascii("C R");
    NoNulJoin(t3, Dec(rx));
    NoNulJoin(t3 + Dec(rx), Ascii("D"));
    var t4 := t3 + Dec(rx) + Ascii("D");
    NoNulJoin(t4, Dec(digi));
    NoNulJoin(t4 + Dec(digi), Ascii("T"));
    NoNulJoin(t4 + Dec(digi) + Ascii("T"), Dec(tx));
  }

  /** Every beacon payload is a C string. */
  lemma BeaconNoNul(n: Node, c: Config, id: nat, s: Sensors)
    requires Good(n) && ValidConfig(c) && ValidSensors(s) && id <= 2
    ensures NoNul(BeaconText(n, c, id, s))
  {
    if id == 2 {
      StatusNoNul(s, n.rx, n.digi, n.tx);
    } else {
      CommentsNoNul();
      NoNulJoin(c.position, if id == 0 then B1_COMMENT else B2_COMMENT);
    }
  }

  /** DigiSendBeacon(id) sends one frame carrying the beacon's payload:
      position and comment for beacons 0 and 1, the status report with
      the received, digipeated and sent counts for beacon 2. */
  lemma BeaconSends(n: Node, c: Config, id: nat, s: Sensors)
    requires Good(n) && ValidConfig(c) && ValidSensors(s) && id <= 2
    ensures var r := BeaconStep(n, c, id, s);
            && NoNul(BeaconText(n, c, id, s))
            && r.sent == n.sent + [Framed(n, c, BeaconText(n, c, id, s))]
            && r.tx == Inc(n.tx)
            && r == n.(pkt := r.pkt, index := r.index, sent := r.sent, tx := r.tx)
  {
    BeaconNoNul(n, c, id, s);
    SendTextSends(n, c, BeaconText(n, c, id, s));
  }

  /** The telemetry payloads are C strings. */
  lemma TelemNoNul(c: Config, kind: nat, cnt: nat, s: Sensors)
    requires ValidConfig(c) && ValidSensors(s) && cnt < 256
    ensures NoNul((if kind != 1 then Header(c) else []) + TelemText(kind, cnt, s))
  {
    var head := if kind != 1 then Header(c) else [];
    if kind != 1 {
      AddrTextPlain(c.call);
      PlainNoNul(AddrText(c.call));
      assert NoNul(Pad9(AddrText(c.call)));
      NoNulJoin([COLON], Pad9(AddrText(c.call)));
      NoNulJoin([COLON] + Pad9(AddrText(c.call)), [COLON]);
    }
    var t := TelemText(kind, cnt, s);
    if kind == 1 {
      var v := s.params;
      ZeroPadNoNul(cnt, 3);
      ZeroPadNoNul(v[0], 3);
      ZeroPadNoNul(v[1], 3);
      ZeroPadNoNul(v[2], 3);
      ZeroPadNoNul(v[3], 3);
      AsciiNoNul("T#");
      AsciiNoNul(",000,00000000");
      var t0 := Ascii("T#") + Pad3(cnt) + [COMMA];
      NoNulJoin(Ascii("T#"), Pad3(cnt));
      NoNulJoin(Ascii("T#") + Pad3(cnt), [COMMA]);
      NoNulJoin(t0, Pad3(v[0]));
      NoNulJoin(t0 + Pad3(v[0]), [COMMA]);
      var t1 := t0 + Pad3(v[0]) + [COMMA];
      NoNulJoin(t1, Pad3(v[1]));
      NoNulJoin(t1 + Pad3(v[1]), [COMMA]);
      var t2 := t1 + Pad3(v[1]) + [COMMA];
      NoNulJoin(t2, Pad3(v[2]));
      NoNulJoin(t2 + Pad3(v[2]), [COMMA]);
      var t3 := t2 + Pad3(v[2]) + [COMMA];
      NoNulJoin(t3, Pad3(v[3]));
      NoNulJoin(t3 + Pad3(v[3]), TELEM_TAIL);
    } else {
      DefinitionsNoNul();
    }
    NoNulJoin(head, t);
  }

  /** DigiSendTelem sends one frame: a T# report with the report number,
      or, addressed to the station itself, the PARM, UNIT or EQNS
      definition the cycle has reached; the cycle moves on and a report
      advances the report number modulo 256. */
  lemma TelemSends(n: Node, c: Config, s: Sensors)
    requires Good(n) && ValidConfig(c) && ValidSensors(s)
    ensures var r := TelemStep(n, c, s);
            var kind := TelemSequence(n.telemSeq);
            && NoNul((if kind != 1 then Header(c) else []) + TelemText(kind, n.telemCnt, s))
            && r.sent == n.sent + [Framed(n, c, (if kind != 1 then Header(c) else [])
                                                + TelemText(kind, n.telemCnt, s))]
            && r.tx == Inc(n.tx) && r.telemSeq == NextTelem(n.telemSeq)
            && r.telemCnt == (if kind == 1 then (n.telemCnt + 1) % 256 else n.telemCnt)
            && r == n.(pkt := r.pkt, index := r.index, sent := r.sent, tx := r.tx,
                       telemSeq := r.telemSeq, telemCnt := r.telemCnt)
  {
    var kind := TelemSequence(n.telemSeq);
    var x := (if kind != 1 then Header(c) else []) + TelemText(kind, n.telemCnt, s);
    TelemNoNul(c, kind, n.telemCnt, s);
    SendTextSends(n, c, x);
    assert TelemStep(n, c, s) == TelemAdvance(SendText(n, c, x));
  }

  /** The telemetry cycle has fifteen steps: steps 3, 7 and 11 (counting
      from 0) send EQNS, UNIT and PARM, the other twelve send T# reports. */
  lemma TelemCycle(k: nat)
    requires k < 15
    ensures NextTelem(k) == (k + 1) % 15
    ensures TelemSequence(k) in {1, 2, 3, 4}
    ensures TelemSequence(k) != 1 <==> k == 3 || k == 7 || k == 11
  {
    match k
    case 0 => case 1 => case 2 => case 3 => case 4 => case 5 => case 6 => case 7 =>
    case 8 => case 9 => case 10 => case 11 => case 12 => case 13 =>
    case 14 =>
  }

  /** The deadline of timer `i` in the order DigiPoll tests them: beacon 1,
      beacon 2, beacon 3, telemetry. */
  function Deadline(n: Node, i: nat): Tick
    requires i < 4
  {
    if i == 0 then n.beacon1 else if i == 1 then n.beacon2
    else if i == 2 then n.beacon3 else n.telem
  }

  /** The interval timer `i` is rearmed with. */
  function Interval(i: nat): (r: Tick)
    requires i < 4
    ensures 0 < r < HALF
  {
    if i == 0 then B1_INTERVAL else if i == 1 then B2_INTERVAL
    else if i == 2 then B3_INTERVAL else TELEM_INTERVAL
  }

  /** The first timer in DigiPoll's order whose deadline is behind `clk`. */
  function FirstDue(n: Node, clk: Tick): (r: Option<nat>)
    ensures r.Some? ==> r.value < 4 && TimerOverflow(Deadline(n, r.value), clk)
    ensures forall j :: 0 <= j < 4 && (r.None? || j < r.value) ==> !TimerOverflow(Deadline(n, j), clk)
  {
    if TimerOverflow(n.beacon1, clk) then Some(0)
    else if TimerOverflow(n.beacon2, clk) then Some(1)
    else if TimerOverflow(n.beacon3, clk) then Some(2)
    else if TimerOverflow(n.telem, clk) then Some(3)
    else None
  }

  /** DigiPoll with no frame received: when no timer is due at `clk` it
      does nothing and returns 0; otherwise it sends one frame for the first
      due timer only, rearms that timer one interval past the tick `after`
      read once the frame is sent, so that it is not due then, nor at `clk`
      when the transmission took less than 2^31 ticks minus the interval,
      and returns 1. The other timers, the duplicate table and the received
      and digipeated counts stay as they were. */
  lemma PollPriority(n: Node, c: Config, clk: Tick, after: Tick, s: Sensors)
    requires Good(n) && ValidConfig(c) && ValidSensors(s)
    ensures var (r, res) := PollStep(n, c, clk, after, None, s);
            match FirstDue(n, clk)
            case None => r == n && res == 0
            case Some(i) =>
              && res == 1
              && Deadline(r, i) == Add(after, Interval(i)) && !TimerOverflow(Deadline(r, i), after)
              && (Sub(after, clk) + Interval(i) < HALF ==> !TimerOverflow(Deadline(r, i), clk))
              && (forall j :: 0 <= j < 4 && j != i ==> Deadline(r, j) == Deadline(n, j))
              && |r.sent| == |n.sent| + 1 && r.sent[..|n.sent|] == n.sent
              && r.dup == n.dup && r.rx == n.rx && r.digi == n.digi
  {
    PollFirstDue(n, c, clk, after, s);
    match FirstDue(n, clk)
    case None =>
    case Some(i) =>
      DeadlineAhead(after, Interval(i));
      if Sub(after, clk) + Interval(i) < HALF {
        DeadlineAheadLater(clk, after, Interval(i));
      }
      PollSends(n, c, s, i);
  }

  /** The frame sent for timer `i`: a beacon or telemetry. */
  function Fire(n: Node, c: Config, s: Sensors, i: nat): (r: Node)
    requires Good(n) && ValidConfig(c) && ValidSensors(s) && i < 4
    ensures Good(r)
  {
    if i < 3 then BeaconStep(n, c, i, s) else TelemStep(n, c, s)
  }

  /** The state with deadline `i` set to `t`. */
  function Rearm(m: Node, i: nat, t: Tick): (r: Node)
    requires i < 4
    ensures Deadline(r, i) == t
    ensures forall j :: 0 <= j < 4 && j != i ==> Deadline(r, j) == Deadline(m, j)
    ensures r.sent == m.sent && r.dup == m.dup && r.rx == m.rx && r.digi == m.digi
  {
    if i == 0 then m.(beacon1 := t) else if i == 1 then m.(beacon2 := t)
    else if i == 2 then m.(beacon3 := t) else m.(telem := t)
  }

  /** DigiPoll with no frame fires the first timer due at `clk` and rearms
      it one interval past the tick `after` read after the send. */
  lemma PollFirstDue(n: Node, c: Config, clk: Tick, after: Tick, s: Sensors)
    requires Good(n) && ValidConfig(c) && ValidSensors(s)
    ensures PollStep(n, c, clk, after, None, s)
            == match FirstDue(n, clk)
               case None => (n, 0)
               case Some(i) => (Rearm(Fire(n, c, s, i), i, Add(after, Interval(i))), 1)
  {
    if !TimerOverflow(n.beacon1, clk) {
      LaterTimersFirstDue(n, c, clk, after, s);
    }
  }

  lemma LaterTimersFirstDue(n: Node, c: Config, clk: Tick, after: Tick, s: Sensors)
    requires Good(n) && ValidConfig(c) && ValidSensors(s) && !TimerOverflow(n.beacon1, clk)
    ensures LaterTimers(n, c, clk, after, s)
            == match FirstDue(n, clk)
               case None => (n, 0)
               case Some(i) => (Rearm(Fire(n, c, s, i), i, Add(after, Interval(i))), 1)
  {
  }

  /** The beacon or telemetry frame of timer `i` keeps every deadline. */
  lemma PollSends(n: Node, c: Config, s: Sensors, i: nat)
    requires Good(n) && ValidConfig(c) && ValidSensors(s) && i < 4
    ensures var m := Fire(n, c, s, i);
            && (forall j :: 0 <= j < 4 ==> Deadline(m, j) == Deadline(n, j))
            && |m.sent| == |n.sent| + 1 && m.sent[..|n.sent|] == n.sent
            && m.dup == n.dup && m.rx == n.rx && m.digi == n.digi
  {
    if i < 3 {
      SendTextKeeps(n, c, BeaconText(n, c, i, s));
    } else {
      var kind := TelemSequence(n.telemSeq);
      var x := (if kind != 1 then Header(c) else []) + TelemText(kind, n.telemCnt, s);
      SendTextKeeps(n, c, x);
      assert TelemStep(n, c, s) == TelemAdvance(SendText(n, c, x));
    }
  }

  /** Right after DigiInit at `clk` no timer is due: every deadline lies
      one interval ahead, so a DigiPoll at the same tick with no frame
      received does nothing and returns 0. */
  lemma InitIdle(n: Node, c: Config, clk: Tick, after: Tick, s: Sensors)
    requires Good(n) && ValidConfig(c) && ValidSensors(s)
    ensures FirstDue(InitStep(n, clk), clk).None?
    ensures PollStep(InitStep(n, clk), c, clk, after, None, s) == (InitStep(n, clk), 0)
  {
    DeadlineAhead(clk, B1_INTERVAL);
    DeadlineAhead(clk, B2_INTERVAL);
    DeadlineAhead(clk, B3_INTERVAL);
    DeadlineAhead(clk, TELEM_INTERVAL);
    PollFirstDue(InitStep(n, clk), c, clk, after, s);
  }
}
