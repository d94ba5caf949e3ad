/** DecodeAX25 on a frame EncodeAX25 built: the monitor text comes back. */
module DecodeTrip {
  import opened Bytes
  import opened Callsign
  import opened FrameCodec
  import opened RoundTrip

  /** A packed address, with the end-of-address bit set when it is the last
      address of the frame. */
  function Marked(b: seq<bv8>, last: bool): (r: seq<bv8>)
    requires |b| == 7
    ensures |r| == 7
  {
    if last then b[6 := b[6] | END_BIT] else b
  }

  /** `data` holds the packed address `a` at `off`. */
  predicate AddrAt(data: seq<bv8>, off: nat, a: Addr, repeated: bool, last: bool)
    requires ValidAddr(a)
  {
    off + 7 <= |data| && data[off..off + 7] == Marked(AddrBytes(a, repeated), last)
  }

  /** AXCall2asc reads only the seven bytes at `off`. */
  lemma {:induction false} UnpackSlice(a: seq<bv8>, off: nat)
    requires off + 7 <= |a|
    ensures Unpack(a, off) == Unpack(a[off..off + 7], 0)
  {
    var s := a[off..off + 7];
    assert CallChars(a, off) == CallChars(s, 0);
    assert s[6] == a[off + 6];
  }

  /** An SSID byte asc2AXcall writes has the end-of-address bit clear and bit
      7 set exactly when the address is marked repeated. */
  lemma {:induction false} OctetBits(v: int, repeated: bool, last: bool)
    ensures var b := SsidOctet(v, repeated);
            var c := if last then b | END_BIT else b;
            (c & END_BIT != 0 <==> last) && (c & REPEATED != 0 <==> repeated)
  {
  }

  /** The end-of-address bit of an address EncodeAX25 wrote is set only on
      the last. */
  lemma {:induction false} AddrAtEnd(data: seq<bv8>, off: nat, a: Addr, repeated: bool, last: bool)
    requires ValidAddr(a) && AddrAt(data, off, a, repeated, last)
    ensures data[off + 6] & END_BIT != 0 <==> last
  {
    var b := AddrBytes(a, repeated);
    assert data[off + 6] == data[off..off + 7][6];
    assert b[6] == SsidOctet(a.ssid, repeated);
    OctetBits(a.ssid, repeated, last);
  }

  /** What DecodeAX25 reads from an address EncodeAX25 wrote: its text, its
      end-of-address bit and its has-been-repeated bit. */
  lemma {:induction false} AddrAtReads(data: seq<bv8>, off: nat, a: Addr, repeated: bool, last: bool)
    requires ValidAddr(a) && AddrAt(data, off, a, repeated, last)
    ensures Unpack(data, off) == AddrText(a)
    ensures data[off + 6] & END_BIT != 0 <==> last
    ensures data[off + 6] & REPEATED != 0 <==> repeated
  {
    var b := AddrBytes(a, repeated);
    UnpackSlice(data, off);
    if last {
      UnpackIgnoresEndBit(b, 0);
    }
    UnpackAddr(a, repeated);
    assert data[off + 6] == data[off..off + 7][6];
    assert b[6] == SsidOctet(a.ssid, repeated);
    OctetBits(a.ssid, repeated, last);
  }

  /** The search for the end-of-address bit stops at the first address that
      carries it. */
  lemma {:induction false} PathCountFrom(data: seq<bv8>, k: nat, n: nat)
    requires k <= n && 13 + 7 * n < |data|
    requires forall j :: k <= j < n ==> !LastAddr(data, j)
    requires LastAddr(data, n)
    ensures PathCount(data, k) == Some(n)
    decreases n - k
  {
    if k < n {
      PathCountFrom(data, k + 1, n);
    }
  }

  lemma {:induction false} PathTextAppend(xs: seq<Hop>, ys: seq<Hop>)
    ensures PathText(xs + ys) == PathText(xs) + PathText(ys)
  {
    if |xs| > 0 {
      assert (xs + ys)[0] == xs[0] && (xs + ys)[1..] == xs[1..] + ys;
      PathTextAppend(xs[1..], ys);
      AppendAssoc(HopMonitor(xs[0]), PathText(xs[1..]), PathText(ys));
    } else {
      assert xs + ys == ys;
    }
  }

  /** The path text of the first `n + 1` entries ends with entry `n`. */
  lemma {:induction false} PathTextSnoc(hs: seq<Hop>, n: nat)
    requires n < |hs|
    ensures PathText(hs[..n + 1]) == PathText(hs[..n]) + HopMonitor(hs[n])
  {
    assert hs[..n + 1] == hs[..n] + [hs[n]];
    PathTextAppend(hs[..n], [hs[n]]);
    assert [hs[n]][1..] == [];
  }

  /** The path entries of a frame read back as the monitor text of `hs`
      when entry k, at 14 + 7k, reads back as that of hop k. */
  lemma {:induction false} HopsOfPath(data: seq<bv8>, hs: seq<Hop>, n: nat)
    requires n <= |hs| && 14 + 7 * |hs| <= |data|
    requires forall k :: 0 <= k < |hs| ==> HopText(data, 14 + 7 * k) == HopMonitor(hs[k])
    ensures Hops(data, n) == PathText(hs[..n])
  {
    if n > 0 {
      var k := n - 1;
      HopsOfPath(data, hs, k);
      PathTextSnoc(hs, k);
      var h := HopText(data, 14 + 7 * k);
      assert h == HopMonitor(hs[k]);
      assert Hops(data, n) == Hops(data, k) + h;
    }
  }

  /** Entry k of the packed path is the packed address of hop k. */
  lemma {:induction false} PathBytesAt(hs: seq<Hop>, k: nat)
    requires ValidPath(hs) && k < |hs|
    ensures PathBytes(hs)[7 * k..7 * k + 7] == AddrBytes(hs[k].addr, hs[k].repeated)
  {
    var x := AddrBytes(hs[0].addr, hs[0].repeated);
    assert PathBytes(hs) == x + PathBytes(hs[1..]);
    if k > 0 {
      assert ValidPath(hs[1..]) by {
        forall j | 0 <= j < |hs| - 1 ensures ValidAddr(hs[1..][j].addr) {
          assert hs[1..][j] == hs[j + 1];
        }
      }
      PathBytesAt(hs[1..], k - 1);
      assert hs[1..][k - 1] == hs[k];
      assert (x + PathBytes(hs[1..]))[7 * k..7 * k + 7] == PathBytes(hs[1..])[7 * (k - 1)..7 * (k - 1) + 7];
    }
  }

  /** Seven bytes of an address field `a` as they stand in a buffer that
      begins with the field, its last byte marked, and any `tail`. */
  lemma {:induction false} MarkSlice(a: seq<bv8>, tail: seq<bv8>, data: seq<bv8>, off: nat)
    requires off + 7 <= |a| && |a| + |tail| <= |data|
    requires data[..|a| + |tail|] == a[|a| - 1 := a[|a| - 1] | END_BIT] + tail
    ensures data[off..off + 7] == Marked(a[off..off + 7], off + 7 == |a|)
  {
    var f := a[|a| - 1 := a[|a| - 1] | END_BIT] + tail;
    var mk := Marked(a[off..off + 7], off + 7 == |a|);
    forall j | 0 <= j < 7
      ensures data[off + j] == mk[j]
    {
      assert data[off + j] == f[off + j];
    }
  }

  /** The bytes after the address field, control and PID of such a buffer are
      the payload. */
  lemma {:induction false} InfoSlice(a: seq<bv8>, info: seq<bv8>, data: seq<bv8>)
    requires 1 <= |a| && |a| + 2 + |info| <= |data|
    requires data[..|a| + 2 + |info|] == a[|a| - 1 := a[|a| - 1] | END_BIT] + ([CONTROL_UI, PID_NONE] + info)
    ensures data[|a| + 2..|a| + 2 + |info|] == info
  {
    var f := a[|a| - 1 := a[|a| - 1] | END_BIT] + ([CONTROL_UI, PID_NONE] + info);
    forall j | 0 <= j < |info|
      ensures data[|a| + 2 + j] == info[j]
    {
      assert data[|a| + 2 + j] == f[|a| + 2 + j];
    }
  }

  /** A buffer that begins with the frame of `m`, as one the address field
      and the rest. */
  lemma {:induction false} FrameSplit(m: Monitor, data: seq<bv8>)
    requires Canonical(m) && |FrameOf(m)| <= |data| && data[..|FrameOf(m)|] == FrameOf(m)
    ensures var a := AddressField(m);
            data[..|a| + 2 + |m.info|] == a[|a| - 1 := a[|a| - 1] | END_BIT] + ([CONTROL_UI, PID_NONE] + m.info)
  {
    var a := AddressField(m);
    assert FrameOf(m) == a[|a| - 1 := a[|a| - 1] | END_BIT] + ([CONTROL_UI, PID_NONE] + m.info);
  }

  /** Where the source and destination of `m` sit in its frame. */
  lemma {:induction false} FrameHead(m: Monitor, data: seq<bv8>)
    requires Canonical(m) && |FrameOf(m)| <= |data| && data[..|FrameOf(m)|] == FrameOf(m)
    ensures AddrAt(data, 0, m.dst, false, false)
    ensures AddrAt(data, 7, m.src, false, |m.path| == 0)
  {
    var a := AddressField(m);
    var tail := [CONTROL_UI, PID_NONE] + m.info;
    FrameSplit(m, data);
    MarkSlice(a, tail, data, 0);
    MarkSlice(a, tail, data, 7);
    assert a[0..7] == AddrBytes(m.dst, false);
    assert a[7..14] == AddrBytes(m.src, false);
  }

  /** Where path entry k of `m` sits in its frame. */
  lemma {:induction false} FrameHop(m: Monitor, data: seq<bv8>, k: nat)
    requires Canonical(m) && |FrameOf(m)| <= |data| && data[..|FrameOf(m)|] == FrameOf(m)
    requires k < |m.path|
    ensures AddrAt(data, 14 + 7 * k, m.path[k].addr, m.path[k].repeated, k == |m.path| - 1)
  {
    var a := AddressField(m);
    var hs := m.path;
    FrameSplit(m, data);
    MarkSlice(a, [CONTROL_UI, PID_NONE] + m.info, data, 14 + 7 * k);
    PathBytesAt(hs, k);
    var d := AddrBytes(m.dst, false) + AddrBytes(m.src, false);
    assert a == d + PathBytes(hs);
    assert a[14 + 7 * k..14 + 7 * k + 7] == PathBytes(hs)[7 * k..7 * k + 7];
  }

  /** A path entry EncodeAX25 wrote reads back as its monitor text. */
  lemma {:induction false} AddrAtHop(data: seq<bv8>, off: nat, h: Hop, last: bool)
    requires ValidAddr(h.addr) && AddrAt(data, off, h.addr, h.repeated, last)
    ensures HopText(data, off) == HopMonitor(h)
  {
    AddrAtReads(data, off, h.addr, h.repeated, last);
  }

  /** Path entry k of the frame of `m` reads back as its monitor text. */
  lemma {:induction false} FrameHopReads(m: Monitor, data: seq<bv8>, k: nat)
    requires Canonical(m) && |FrameOf(m)| <= |data| && data[..|FrameOf(m)|] == FrameOf(m)
    requires k < |m.path|
    ensures HopText(data, 14 + 7 * k) == HopMonitor(m.path[k])
  {
    FrameHop(m, data, k);
    AddrAtHop(data, 14 + 7 * k, m.path[k], k == |m.path| - 1);
  }

  /** The source of the frame of `m` is its last address only when the
      path is empty. */
  lemma {:induction false} FrameSourceEnd(m: Monitor, data: seq<bv8>)
    requires Canonical(m) && |FrameOf(m)| <= |data| && data[..|FrameOf(m)|] == FrameOf(m)
    ensures 13 < |data| && (LastAddr(data, 0) <==> |m.path| == 0)
  {
    FrameHead(m, data);
    AddrAtEnd(data, 7, m.src, false, |m.path| == 0);
  }

  /** Path entry k of the frame of `m` is its last address only when it is
      the last entry. */
  lemma {:induction false} FrameHopEnd(m: Monitor, data: seq<bv8>, k: nat)
    requires Canonical(m) && |FrameOf(m)| <= |data| && data[..|FrameOf(m)|] == FrameOf(m)
    requires k < |m.path|
    ensures 20 + 7 * k < |data| && (LastAddr(data, k + 1) <==> k == |m.path| - 1)
  {
    var h := m.path[k];
    FrameHop(m, data, k);
    AddrAtEnd(data, 14 + 7 * k, h.addr, h.repeated, k == |m.path| - 1);
  }

  /** The end-of-address bit of the frame of `m` is on its last address. */
  lemma {:induction false} FramePathCount(m: Monitor, data: seq<bv8>)
    requires Canonical(m) && |FrameOf(m)| <= |data| && data[..|FrameOf(m)|] == FrameOf(m)
    ensures PathCount(data, 0) == Some(|m.path|)
  {
    var n := |m.path|;
    FrameSourceEnd(m, data);
    forall j | 1 <= j <= n
      ensures 13 + 7 * j < |data| && (LastAddr(data, j) <==> j == n)
    {
      FrameHopEnd(m, data, j - 1);
    }
    PathCountFrom(data, 0, n);
  }

  /** The payload of the frame of `m` is the payload of `m`. */
  lemma {:induction false} FrameInfo(m: Monitor, data: seq<bv8>)
    requires Canonical(m) && |FrameOf(m)| <= |data| && data[..|FrameOf(m)|] == FrameOf(m)
    ensures InfoText(data, |FrameOf(m)|, 16 + 7 * |m.path|) == m.info
  {
    FrameSplit(m, data);
    InfoSlice(AddressField(m), m.info, data);
    TakeUntilNulOfNoNul(m.info, []);
    assert m.info + [] == m.info;
  }

  /** DecodeAX25 reads the frame EncodeAX25 builds for canonical monitor text
      back into that text, whatever follows the frame in the buffer; the
      address field ends at the last path entry (at the source when there is
      none). */
  lemma {:induction false} DecodeFrame(m: Monitor, data: seq<bv8>)
    requires Canonical(m) && |FrameOf(m)| < 0x100
    requires |FrameOf(m)| <= |data| && data[..|FrameOf(m)|] == FrameOf(m)
    ensures PathCount(data, 0) == Some(|m.path|)
    ensures Decode(data, |FrameOf(m)|) == MonitorText(m)
  {
    var n := |m.path|;
    FramePathCount(m, data);
    FrameHead(m, data);
    AddrAtReads(data, 0, m.dst, false, false);
    AddrAtReads(data, 7, m.src, false, n == 0);
    forall k | 0 <= k < n
      ensures HopText(data, 14 + 7 * k) == HopMonitor(m.path[k])
    {
      FrameHopReads(m, data, k);
    }
    HopsOfPath(data, m.path, n);
    assert m.path[..n] == m.path;
    FrameInfo(m, data);
  }

  /** Text to frame to text: DecodeAX25 gives back the canonical monitor text
      EncodeAX25 was given, reading the buffer up to the length EncodeAX25
      returned. */
  lemma {:induction false} EncodeThenDecode(m: Monitor, buf: seq<bv8>)
    requires Canonical(m) && |FrameOf(m)| <= |buf| && |FrameOf(m)| < 0x100
    ensures EncodeExtent(MonitorText(m)) <= |buf|
    ensures var (b, r) := EncodeOnto(MonitorText(m), buf);
            r == |FrameOf(m)| && r <= |b| && PathCount(b, 0).Some? && Decode(b, r) == MonitorText(m)
  {
    EncodeMonitor(m, buf);
    var b := Put(buf, 0, FrameOf(m));
    assert b[..|FrameOf(m)|] == FrameOf(m);
    DecodeFrame(m, b);
  }

  /** EncodeAX25 then DecodeAX25 on one buffer, as DigiPoll (frames given
      as text) and DigiRepeat (the monitor copy) use them. */
  method EncodeDecode(m: Monitor, out: array<bv8>) returns (text: seq<bv8>)
    requires Canonical(m) && |FrameOf(m)| <= out.Length && |FrameOf(m)| < 0x100
    modifies out
    ensures text == MonitorText(m)
  {
    EncodeThenDecode(m, out[..]);
    var r := EncodeAX25(MonitorText(m), out);
    text := DecodeAX25(out[..], r);
  }
}
