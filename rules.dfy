/** The loops DigiRules and DigiPoll run over the frame buffer, each proved
    to compute the function of DigiFrame or DigiSpec that describes it. */
module Rules {
  import opened Bytes
  import opened Callsign
  import opened FrameCodec
  import opened Timer
  import opened Crc16
  import opened DupTable
  import opened DigiFrame
  import opened DigiSpec

  /** The bytes of `y` stored into `pkt` from `off` on (`memcpy`, or a
    copy loop). */
  method Store(pkt: array<bv8>, off: nat, y: seq<bv8>)
    requires off + |y| <= pkt.Length
    modifies pkt
    ensures pkt[..] == Put(old(pkt[..]), off, y)
  {
    ghost var p0 := pkt[..];
    forall i | 0 <= i < |y| {
      pkt[off + i] := y[i];
    }
    PutIs(p0, off, y, pkt[..]);
  }

  /** The frame `f` arriving in `pkt`: stored at its head and, when it is
      monitor text, the text copied out up to its NUL (the zeroed copy
      buffer makes it so) and packed back into `pkt` by EncodeAX25. */
  method Arrive(pkt: array<bv8>, f: seq<bv8>) returns (len: nat, text: bool)
    requires pkt.Length == PKT_SIZE && RxFits(f)
    modifies pkt
    ensures (pkt[..], len, text) == Arrived(old(pkt[..]), f)
  {
    ghost var p0 := pkt[..];
    Store(pkt, 0, f);
    PutAt(p0, 0, f);
    len := |f|;
    text := false;
    if len < MIN_FRAME {
      return;
    }
    if pkt[0] == LT && pkt[1] == 0xFF {
      assert pkt[3..len] == f[3..];
      var t := TakeUntilNul(pkt[3..len]);
      EncodeLength(t, pkt[..]);
      len := EncodeAX25(t, pkt);
      text := true;
    }
  }

  /** The DataIndex loop of DigiRules and the search of DigiPoll's spot
    check: the first byte before `len` with the end-of-address bit set, or
    `len`. */
  method ScanEnd(p: seq<bv8>, len: nat) returns (e: nat)
    requires len <= |p|
    ensures e == FirstOdd(p, 0, len)
  {
    e := 0;
    while e < len && p[e] & END_BIT == 0
      invariant e <= len
      invariant FirstOdd(p, e, len) == FirstOdd(p, 0, len)
    {
      e := e + 1;
    }
  }

  /** asc2AXcall(MYCALL, NodeCall): the station's address packed into a
    seven-byte buffer. */
  method MakeNodeCall(c: Config) returns (nc: seq<bv8>)
    requires ValidConfig(c)
    ensures nc == NodeCall(c)
  {
    var a := new bv8[7];
    Asc2AXCall(AddrText(c.call), 0, a, 0);
    PackAddrAlone(c.call);
    nc := a[..];
    assert nc == Put(nc, 0, NodeCall(c));
  }

  /** The flag loop comparing the source address with the station's: the
    six callsign bytes, then the SSID bits of the seventh. */
  method SameStation(p: seq<bv8>, nc: seq<bv8>) returns (same: bool)
    requires |p| >= 14 && |nc| == 7
    ensures same <==> p[7..13] == nc[..6] && p[13] & SSID_MASK == nc[6] & SSID_MASK
  {
    same := true;
    var i := 0;
    while i < 7
      invariant 0 <= i <= 7
      invariant forall j :: 0 <= j < i && j < 6 ==> p[7 + j] == nc[j]
      invariant i == 7 ==> p[13] & SSID_MASK == nc[6] & SSID_MASK
    {
      if i != 6 {
        if p[7 + i] != nc[i] {
          same := false;
          assert p[7..13][i] != nc[..6][i];
          break;
        }
      } else if p[13] & SSID_MASK != nc[6] & SSID_MASK {
        same := false;
        break;
      }
      i := i + 1;
    }
    if same {
      assert p[7..13] == nc[..6];
    }
  }

  /** `memcmp(&p[at], s, |s|) == 0`, and the flag loop matching `?APRS?`. */
  method SameBytes(p: seq<bv8>, at: nat, s: seq<bv8>) returns (same: bool)
    requires at + |s| <= |p|
    ensures same <==> p[at..at + |s|] == s
  {
    same := true;
    var i := 0;
    while i < |s|
      invariant 0 <= i <= |s|
      invariant forall j :: 0 <= j < i ==> p[at + j] == s[j]
    {
      if p[at + i] != s[i] {
        same := false;
        assert p[at..at + |s|][i] != s[i];
        break;
      }
      i := i + 1;
    }
  }

  /** The scan of a message for '{' from the start of its payload. */
  method FindBrace(p: seq<bv8>, d: nat, len: nat) returns (b: Option<nat>)
    requires len <= |p|
    ensures b == FindAny(p[..len], d, {LBRACE})
  {
    var i := d;
    while i < len && p[i] != LBRACE
      invariant d <= i && (i <= len || i == d)
      invariant FindAny(p[..len], i, {LBRACE}) == FindAny(p[..len], d, {LBRACE})
      decreases len - i
    {
      i := i + 1;
    }
    b := if i < len then Some(i) else None;
  }

  /** The tag loop after '{': the digits up to the end of the frame,
    accumulated in a 16-bit `int`, so modulo 2^16 at every step. The loop
    reads the byte at `len` before it tests the bound. */
  method ReadTag(p: seq<bv8>, b: nat, len: nat) returns (tag: nat)
    requires b < len < |p|
    ensures tag == Tag(p, b, len)
  {
    ghost var s := p[..len];
    var i := b + 1;
    tag := 0;
    while IsDigit(p[i]) && i < len
      invariant b + 1 <= i <= len && tag < 0x1_0000
      invariant Digits(s, i, tag) % 0x1_0000 == Digits(s, b + 1, 0) % 0x1_0000
      decreases len - i
    {
      ghost var acc := tag * 10 + (p[i] - 0x30) as nat;
      tag := (tag * 10 + (p[i] - 0x30) as nat) % 0x1_0000;
      DigitsMod(s, i + 1, tag, acc);
      i := i + 1;
    }
  }

  /** Reading digits on from two accumulators equal modulo 2^16 gives
    values equal modulo 2^16. */
  lemma {:induction false} DigitsMod(s: seq<bv8>, i: nat, a: nat, b: nat)
    requires a % 0x1_0000 == b % 0x1_0000
    ensures Digits(s, i, a) % 0x1_0000 == Digits(s, i, b) % 0x1_0000
    decreases |s| - i
  {
    if i < |s| && IsDigit(s[i]) {
      var d := (s[i] - 0x30) as nat;
      ModStep(a, d);
      ModStep(b, d);
      DigitsMod(s, i + 1, a * 10 + d, b * 10 + d);
    }
  }

  /** The PathIndex loop of the destination-SSID rule: the byte of the
    entry before which the station's address goes. */
  method SkipPath(p: seq<bv8>, ghost m: nat) returns (at: nat)
    requires 13 + 7 * m < |p| && p[13 + 7 * m] & END_BIT != 0
    ensures at == 14 + 7 * SkipRepeated(p, 0, m)
  {
    at := 14;
    ghost var k := 0;
    while p[at - 1] & END_BIT == 0 && p[at + 6] & REPEATED != 0
      invariant k <= m && at == 14 + 7 * k
      invariant SkipRepeated(p, k, m) == SkipRepeated(p, 0, m)
      decreases m - k
    {
      at := at + 7;
      k := k + 1;
    }
  }

  /** The loop `for (i = size - 1; i >= at; i--) p[i + 7] = p[i]`, here
    with `i` one above the C index: the tail from `at` moves up seven
    bytes, copied from its end so that nothing is read after it is
    overwritten. */
  method MakeRoom(p: array<bv8>, at: nat, len: nat)
    requires at <= len && len + 7 <= p.Length
    modifies p
    ensures p[..] == Shift(old(p[..]), at, len)
  {
    ghost var p0 := p[..];
    var i := len;
    while i > at
      invariant at <= i <= len && p.Length == |p0|
      invariant forall q :: 0 <= q < i + 7 || len + 7 <= q < p.Length ==> p[q] == p0[q]
      invariant forall q :: i + 7 <= q < len + 7 ==> p[q] == p0[q - 7]
    {
      i := i - 1;
      p[i + 7] := p[i];
    }
    assert p[..] == Shift(p0, at, len);
  }

  /** The destination-SSID rule's edit at byte `at`: room made, the
    station's address copied in, the end bit taken over from the address
    before together with the has-been-repeated bit, and cleared there. */
  method InsertStation(p: array<bv8>, at: nat, len: nat, nc: seq<bv8>)
    requires 1 <= at <= len && |nc| == 7 && len + 7 <= p.Length
    modifies p
    ensures p[..] == MarkInsert(old(p[..]), at, len, nc)
  {
    ghost var p0 := p[..];
    MakeRoom(p, at, len);
    Store(p, at, nc);
    InsertIsCopy(p0, at, len, nc);
    assert p[..] == Insert(p0, at, len, nc);
    MarkHop(p, at);
  }

  /** The two bit updates after the copy: the inserted SSID byte takes the
    end bit of the address before and the has-been-repeated bit; the
    address before loses its end bit. */
  method MarkHop(p: array<bv8>, at: nat)
    requires 1 <= at && at + 7 <= p.Length
    modifies p
    ensures var p2 := old(p[..]);
      var p3 := p2[at + 6 := p2[at + 6] | (p2[at - 1] & END_BIT) | REPEATED];
      p[..] == p3[at - 1 := p3[at - 1] & 0xFE]
  {
    p[at + 6] := p[at + 6] | (p[at - 1] & END_BIT) | REPEATED;
    p[at - 1] := p[at - 1] & 0xFE;
  }

  /** The loop of the WIDEn-N rule: from entry 0, the first path entry not
    yet repeated, stopping after the last entry. */
  method FindUnrepeated(p: seq<bv8>, ghost m: nat) returns (r: Option<nat>)
    requires 0 < m && 13 + 7 * m < |p| && p[13 + 7 * m] & END_BIT != 0
    requires forall j :: 0 <= j && j + 1 < m ==> p[20 + 7 * j] & END_BIT == 0
    ensures r == FirstUnrepeated(p, 0, m)
  {
    var at := 14;
    var k := 0;
    while p[at + 6] & REPEATED != 0 && p[at + 6] & END_BIT == 0
      invariant k < m && at == 14 + 7 * k
      invariant FirstUnrepeated(p, k, m) == FirstUnrepeated(p, 0, m)
      decreases m - k
    {
      at := at + 7;
      k := k + 1;
    }
    r := if p[at + 6] & REPEATED == 0 then Some(k) else None;
  }

  /** The flag tests of the WIDEn-N rule on entry k: callsign WIDE, SSID
    from 1 to WIDEN_MAX, the digit after WIDE from '1' to WIDEN_MAX. */
  method CheckWide(p: seq<bv8>, k: nat) returns (wide: bool)
    requires 20 + 7 * k < |p|
    ensures wide == IsWide(p, k)
  {
    var at := 14 + 7 * k;
    var ssid := SsidBits(p[at + 6]);
    wide := true;
    var i := 0;
    while i < 4
      invariant 0 <= i <= 4
      invariant wide <==> forall j :: 0 <= j < i ==> p[at + j] == WIDE_CALL[j]
    {
      if p[at + i] != WIDE_CALL[i] {
        wide := false;
      }
      i := i + 1;
    }
    if !wide {
      ghost var j :| 0 <= j < 4 && p[at + j] != WIDE_CALL[j];
      assert p[at..at + 4][j] != WIDE_CALL[j];
    }
    if ssid == 0 || ssid > WIDEN_MAX {
      wide := false;
    }
    var c := p[at + 4] >> 1;
    if c < 0x31 || c > 0x30 + WIDEN_MAX {
      wide := false;
    }
  }

  /** The station's address copied over the entry at byte `at`: the six
    callsign bytes, its SSID bits into the SSID byte, then the
    has-been-repeated bit. */
  method PutStation(p: array<bv8>, at: nat, nc: seq<bv8>)
    requires at + 7 <= p.Length && |nc| == 7
    modifies p
    ensures p[..] == Station(old(p[..]), at, nc)
  {
    ghost var p0 := p[..];
    Store(p, at, nc[..6]);
    ghost var p3 := p[..];
    p[at + 6] := (p[at + 6] & 0xE1) | (nc[6] & SSID_MASK);
    ghost var p4 := p[..];
    assert p4 == p3[at + 6 := (p3[at + 6] & 0xE1) | (nc[6] & SSID_MASK)];
    p[at + 6] := p[at + 6] | REPEATED;
    assert p[..] == p4[at + 6 := p4[at + 6] | REPEATED];
    StationIsCopy(p0, at, nc);
  }

  /** The edit of the WIDEn-N rule on entry k: N counted down; while it is
    above zero the entry moves up with its old SSID byte cleared and the
    frame grows by seven bytes; the station's address goes in at the
    entry's old place. The new length is returned. */
  method WideApply(p: array<bv8>, len: nat, nc: seq<bv8>, k: nat) returns (len': nat)
    requires len + 7 <= p.Length && |nc| == 7 && 21 + 7 * k <= len && 1 <= HopSsid(p[..], k)
    modifies p
    ensures (p[..], len') == WideEdit(old(p[..]), len, nc, k)
  {
    ghost var p0 := p[..];
    var at := 14 + 7 * k;
    var ssid := SsidBits(p[at + 6]) - 1;
    p[at + 6] := WithSsid(p[at + 6], ssid);
    assert p[..] == Counted(p0, k);
    len' := len;
    if ssid != 0 {
      MakeRoom(p, at, len);
      ghost var p1 := p[..];
      p[at + 6] := 0;
      assert p[..] == p1[at + 6 := 0];
      len' := len + 7;
    }
    PutStation(p, at, nc);
  }

  /** The destination-SSID rule's edits: the destination SSID decremented,
    the payload of the frame so changed added to the duplicate table, the
    station's address inserted at the byte the PathIndex loop stops at. */
  method SsidEditBuffers(pkt: array<bv8>, dupFrame: array<DupSlot>, len: nat, d: nat, clk: Tick,
                         nc: seq<bv8>)
    requires pkt.Length == PKT_SIZE && dupFrame.Length == DUP_MAXFRAME && |nc| == 7
    requires len <= MAX_FRAME && Structured(pkt[..], len) && 1 <= DestSsid(pkt[..])
    modifies pkt, dupFrame
    ensures pkt[..] == SsidEdit(old(pkt[..]), len, nc)
    ensures dupFrame[..] == Added(old(dupFrame[..]), Crc(Payload(SsidDecremented(old(pkt[..])), d, len)), clk)
  {
    ghost var p0 := pkt[..];
    ghost var m := EndHop(p0, len);
    pkt[6] := WithSsid(pkt[6], SsidBits(pkt[6]) - 1);
    assert pkt[..] == SsidDecremented(p0);
    AddDupList(dupFrame, Payload(pkt[..], d, len), clk);
    var at := SkipPath(pkt[..], m);
    InsertStation(pkt, at, len, nc);
  }

  /** The WIDEn-N rule's edits on entry k: the frame rewritten by
    WideApply, then its payload, found seven bytes further on when the
    frame grew, added to the duplicate table. */
  method WideEditBuffers(pkt: array<bv8>, dupFrame: array<DupSlot>, len: nat, d: nat, clk: Tick,
                         nc: seq<bv8>, k: nat) returns (len': nat)
    requires pkt.Length == PKT_SIZE && dupFrame.Length == DUP_MAXFRAME && |nc| == 7
    requires len <= MAX_FRAME && 21 + 7 * k <= len && 1 <= HopSsid(pkt[..], k)
    modifies pkt, dupFrame
    ensures (pkt[..], len') == WideEdit(old(pkt[..]), len, nc, k)
    ensures dupFrame[..] == Added(old(dupFrame[..]), Crc(Payload(pkt[..], d + (len' - len), len')), clk)
  {
    len' := WideApply(pkt, len, nc, k);
    AddDupList(dupFrame, Payload(pkt[..], d + (len' - len), len'), clk);
  }
}
