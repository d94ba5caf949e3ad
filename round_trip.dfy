/** The monitor text of a canonical UI frame and the frame itself, and how
    EncodeAX25 and DecodeAX25 carry one into the other. */
module RoundTrip {
  import opened Bytes
  import opened Callsign
  import opened FrameCodec

  /** A path entry: an address and its has-been-repeated mark. */
  datatype Hop = Hop(addr: Addr, repeated: bool)

  /** A UI frame as monitor text names it. */
  datatype Monitor = Monitor(src: Addr, dst: Addr, path: seq<Hop>, info: seq<bv8>)

  predicate ValidPath(hs: seq<Hop>) {
    forall k :: 0 <= k < |hs| ==> ValidAddr(hs[k].addr)
  }

  /** Canonical monitor text: canonical addresses, '*' only on path entries
      (the datatype has no place for it elsewhere) and a payload that is a C
      string. */
  predicate Canonical(m: Monitor) {
    ValidAddr(m.src) && ValidAddr(m.dst) && ValidPath(m.path) && NoNul(m.info)
  }

  /** `,CALL-N` and a '*' when the entry has been repeated. */
  function HopMonitor(h: Hop): seq<bv8> {
    [COMMA] + AddrText(h.addr) + (if h.repeated then [STAR] else [])
  }

  function PathText(hs: seq<Hop>): seq<bv8> {
    if |hs| == 0 then [] else HopMonitor(hs[0]) + PathText(hs[1..])
  }

  /** `SRC>DEST,HOP*,...:payload`. */
  function MonitorText(m: Monitor): seq<bv8> {
    AddrText(m.src) + [GT] + AddrText(m.dst) + PathText(m.path) + [COLON] + m.info
  }

  function PathBytes(hs: seq<Hop>): (r: seq<bv8>)
    requires ValidPath(hs)
    ensures |r| == 7 * |hs|
  {
    if |hs| == 0 then [] else AddrBytes(hs[0].addr, hs[0].repeated) + PathBytes(hs[1..])
  }

  /** Destination, source, then the path entries, seven bytes each. */
  function AddressField(m: Monitor): (r: seq<bv8>)
    requires Canonical(m)
    ensures |r| == 14 + 7 * |m.path|
  {
    AddrBytes(m.dst, false) + AddrBytes(m.src, false) + PathBytes(m.path)
  }

  /** The UI frame: the address field with the end-of-address bit on its
      last byte, control 0x03, PID 0xF0 and the payload. */
  function FrameOf(m: Monitor): (r: seq<bv8>)
    requires Canonical(m)
    ensures |r| == 16 + 7 * |m.path| + |m.info|
  {
    var a := AddressField(m);
    a[|a| - 1 := a[|a| - 1] | END_BIT] + [CONTROL_UI, PID_NONE] + m.info
  }

  // ---------------------------------------------------------------------
  // Characters of an address

  /** Alphanumerics, the dash and digits: what AddrText is made of. */
  predicate Plain(s: seq<bv8>) {
    forall k :: 0 <= k < |s| ==> IsAlnum(s[k]) || s[k] == DASH
  }

  lemma {:induction false} AddrTextPlain(a: Addr)
    requires ValidAddr(a)
    ensures Plain(AddrText(a))
  {
    if a.ssid != 0 {
      var d := Dec(a.ssid);
      forall k | 0 <= k < |AddrText(a)|
        ensures IsAlnum(AddrText(a)[k]) || AddrText(a)[k] == DASH
      {
        if k > |a.call| {
          assert AddrText(a)[k] == d[k - |a.call| - 1];
        }
      }
    }
  }

  /** A search for any of `cs` passes over plain text when `cs` holds no
      alphanumeric and no dash. */
  lemma {:induction false} SkipPlain(x: seq<bv8>, y: seq<bv8>, cs: set<bv8>)
    requires Plain(x)
    requires forall c :: c in cs ==> !IsAlnum(c) && c != DASH
    ensures FindAny(x + y, 0, cs) ==
            (match FindAny(y, 0, cs)
             case None => None
             case Some(q) => Some(|x| + q))
  {
    FindAnySkip(x, y, 0, cs);
  }

  /** The first of ',', ':' and '*' past plain text is the first one after it. */
  lemma {:induction false} StarFirstSkip(x: seq<bv8>, y: seq<bv8>)
    requires Plain(x)
    ensures StarFirst(x + y) == StarFirst(y)
  {
    SkipPlain(x, y, MARKS);
    var m := FindAny(y, 0, MARKS);
    if m.Some? {
      assert (x + y)[|x| + m.value] == y[m.value];
    }
  }

  /** Text that starts with one of the marks: StarFirst reads that mark. */
  lemma {:induction false} StarFirstHead(y: seq<bv8>)
    requires |y| > 0 && y[0] in MARKS
    ensures StarFirst(y) == (y[0] == STAR)
  {
  }

  /** Text that goes on with a path: its first mark is ',' or ':'. */
  lemma {:induction false} NotStarBeforePath(hs: seq<Hop>, info: seq<bv8>)
    ensures |PathText(hs) + [COLON] + info| > 0
    ensures (PathText(hs) + [COLON] + info)[0] in PATH_MARKS
    ensures !StarFirst(PathText(hs) + [COLON] + info)
  {
    var y := PathText(hs) + [COLON] + info;
    if |hs| > 0 {
      assert y[0] == HopMonitor(hs[0])[0] == COMMA;
    }
    StarFirstHead(y);
  }

  // ---------------------------------------------------------------------
  // Writing into a buffer

  /** The same when the second half is written first, as EncodeAX25 writes
      the source before the destination. */
  lemma {:induction false} PutSwap(buf: seq<bv8>, off: nat, x: seq<bv8>, y: seq<bv8>)
    requires off + |x| + |y| <= |buf|
    ensures Put(Put(buf, off + |x|, y), off, x) == Put(buf, off, x + y)
  {
    var e := off + |x|;
    var p := Put(buf, e, y);
    assert p == buf[..e] + (y + buf[e + |y|..]);
    assert p[..off] == buf[..off];
    assert p[e..] == y + buf[e + |y|..];
  }

  lemma {:induction false} PutNothing(buf: seq<bv8>, off: nat)
    requires off <= |buf|
    ensures Put(buf, off, []) == buf
  {
    assert buf[..off] + buf[off..] == buf;
  }

  // ---------------------------------------------------------------------
  // EncodeAX25 on canonical text

  /** The characters of an address are none of the delimiters. */
  lemma {:induction false} PlainNotMark(c: bv8)
    requires IsAlnum(c) || c == DASH
    ensures c !in PATH_MARKS && c !in MARKS && c != GT && c != 0
  {
  }

  /** What `t` holds from `p` on, when that is `a` followed by `b`. */
  lemma {:induction false} Ahead(t: seq<bv8>, p: nat, a: seq<bv8>, b: seq<bv8>)
    requires p <= |t| && t[p..] == a + b
    ensures p + |a| <= |t| && t[p + |a|..] == b
  {
    assert t[p..][|a|..] == b;
  }

  /** A path entry followed by `w`, taken apart: ',', the address text, the
      '*' when the entry has been repeated, then `w`. */
  lemma {:induction false} HopMonitorSplit(h: Hop, w: seq<bv8>)
    ensures HopMonitor(h) + w
            == [COMMA] + (AddrText(h.addr) + ((if h.repeated then [STAR] else []) + w))
  {
  }

  /** A path entry at `p`, followed by `w`: the ',' that starts it, and the
      search for the next ',' or ':', which passes over the entry to `q`. */
  lemma {:induction false} HopAhead(t: seq<bv8>, p: nat, h: Hop, w: seq<bv8>, q: nat)
    requires ValidAddr(h.addr)
    requires p <= |t| && t[p..] == HopMonitor(h) + w && q == p + |HopMonitor(h)|
    ensures p < |t| && t[p] == COMMA
    ensures q <= |t| && t[q..] == w
    ensures FindAny(t, p + 1, PATH_MARKS) == FindAny(t, q, PATH_MARKS)
  {
    var x := AddrText(h.addr);
    var star: seq<bv8> := if h.repeated then [STAR] else [];
    HopMonitorSplit(h, w);
    AddrTextPlain(h.addr);
    EntryAhead(t, p, x, star, w, q);
  }

  /** HopAhead for the parts of the entry's text: ',', the plain address
      text `x` and the optional '*'. */
  lemma {:induction false} EntryAhead(t: seq<bv8>, p: nat, x: seq<bv8>, star: seq<bv8>, w: seq<bv8>, q: nat)
    requires Plain(x) && (star == [] || star == [STAR])
    requires p <= |t| && t[p..] == [COMMA] + (x + (star + w)) && q == p + 1 + |x| + |star|
    ensures p < |t| && t[p] == COMMA
    ensures q <= |t| && t[q..] == w
    ensures FindAny(t, p + 1, PATH_MARKS) == FindAny(t, q, PATH_MARKS)
  {
    assert t[p] == t[p..][0];
    Ahead(t, p, [COMMA], x + (star + w));
    Ahead(t, p + 1, x, star + w);
    Ahead(t, p + 1 + |x|, star, w);
    SkipHop(t, p + 1, x, star, w, q);
  }

  /** The address asc2AXcall packs after the ',' of a path entry: bit 7 is
      set iff the entry carries a '*', since no '*' follows before the next
      ',' or ':'. */
  lemma {:induction false} HopPack(t: seq<bv8>, p: nat, h: Hop, w: seq<bv8>)
    requires ValidAddr(h.addr) && !StarFirst(w) && Delimited(w)
    requires p <= |t| && t[p..] == HopMonitor(h) + w
    ensures p + 1 <= |t| && Pack(t, p + 1) == AddrBytes(h.addr, h.repeated)
  {
    var x := AddrText(h.addr);
    var star: seq<bv8> := if h.repeated then [STAR] else [];
    HopMonitorSplit(h, w);
    Ahead(t, p, [COMMA], x + (star + w));
    if h.repeated {
      StarFirstHead(star + w);
    } else {
      assert star + w == w;
    }
    PackAddr(h.addr, star + w);
    PackAt(t, p + 1);
  }

  /** The ',' or ':' search from the head of a path entry's address lands
      where the search after the entry does. */
  lemma {:induction false} SkipHop(t: seq<bv8>, i: nat, x: seq<bv8>, star: seq<bv8>, w: seq<bv8>, j: nat)
    requires Plain(x) && (star == [] || star == [STAR])
    requires i <= |t| && t[i..] == x + (star + w) && j == i + |x| + |star|
    ensures j <= |t|
    ensures FindAny(t, i, PATH_MARKS) == FindAny(t, j, PATH_MARKS)
  {
    var y := t[i..];
    var a := x + star;
    assert y == a + w;
    assert t == t[..i] + y;
    forall k | 0 <= k < |a|
      ensures a[k] !in PATH_MARKS
    {
      if k < |x| {
        assert a[k] == x[k];
        PlainNotMark(x[k]);
      }
    }
    FindAnySkip(a, w, 0, PATH_MARKS);
    FindAnyShift(a, w, 0, PATH_MARKS);
    FindAnyShift(t[..i], y, 0, PATH_MARKS);
    FindAnyShift(t[..i], y, |a|, PATH_MARKS);
  }

  /** The path loop does the same from any point before the next mark. */
  lemma {:induction false} PathExtentFrom(t: seq<bv8>, a: nat, c: nat, pos: nat)
    requires FindAny(t, a, PATH_MARKS) == FindAny(t, c, PATH_MARKS)
    ensures PathExtent(t, a, pos) == PathExtent(t, c, pos)
  {
  }

  lemma {:induction false} EncodePathFrom(t: seq<bv8>, a: nat, c: nat, pos: nat, buf: seq<bv8>)
    requires FindAny(t, a, PATH_MARKS) == FindAny(t, c, PATH_MARKS)
    requires 14 <= pos && PathExtent(t, a, pos) <= |buf|
    ensures PathExtent(t, c, pos) <= |buf|
    ensures EncodePath(t, a, pos, buf) == EncodePath(t, c, pos, buf)
  {
    PathExtentFrom(t, a, c, pos);
  }

  /** Path text split after its first entry. */
  lemma {:induction false} PathTextSplit(hs: seq<Hop>, info: seq<bv8>)
    requires |hs| > 0
    ensures PathText(hs) + [COLON] + info == HopMonitor(hs[0]) + (PathText(hs[1..]) + [COLON] + info)
  {
  }

  /** How far the path loop writes on text that goes on with the path entries
      `hs`, ':' and the payload. */
  lemma {:induction false} PathExtentText(t: seq<bv8>, p: nat, pos: nat, hs: seq<Hop>, info: seq<bv8>)
    requires ValidPath(hs)
    requires p <= |t| && t[p..] == PathText(hs) + [COLON] + info
    ensures PathExtent(t, p, pos) == pos + 7 * |hs| + 2 + |info|
    decreases |hs|
  {
    if |hs| == 0 {
      Ahead(t, p, [COLON], info);
      assert t[p] == t[p..][0];
      assert FindAny(t, p, PATH_MARKS) == Some(p);
    } else {
      var w := PathText(hs[1..]) + [COLON] + info;
      var p' := p + |HopMonitor(hs[0])|;
      PathTextSplit(hs, info);
      NotStarBeforePath(hs[1..], info);
      assert ValidAddr(hs[0].addr);
      HopAhead(t, p, hs[0], w, p');
      assert FindAny(t, p, PATH_MARKS) == Some(p);
      assert PathExtent(t, p, pos) == PathExtent(t, p + 1, pos + 7);
      assert ValidPath(hs[1..]);
      PathExtentText(t, p', pos + 7, hs[1..], info);
      PathExtentFrom(t, p + 1, p', pos + 7);
    }
  }

  /** The path loop on text that goes on with the path entries `hs`, ':' and
      the payload: every entry is packed seven bytes further on, which gives
      `b`, then the end of the frame follows at `e`. */
  lemma {:induction false} EncodePathText(t: seq<bv8>, p: nat, pos: nat, buf: seq<bv8>, hs: seq<Hop>, info: seq<bv8>,
                                         b: seq<bv8>, e: nat)
    requires ValidPath(hs)
    requires p <= |t| && t[p..] == PathText(hs) + [COLON] + info
    requires 14 <= pos && e == pos + 7 * |hs| && e + 2 + |info| <= |buf|
    requires b == Put(buf, pos, PathBytes(hs))
    ensures PathExtent(t, p, pos) <= |buf|
    ensures EncodePath(t, p, pos, buf) == FrameEnd(b, e, info)
    decreases |hs|
  {
    PathExtentText(t, p, pos, hs, info);
    if |hs| == 0 {
      Ahead(t, p, [COLON], info);
      assert t[p] == t[p..][0];
      EncodePathColon(t, p, pos, buf, p);
      PutNothing(buf, pos);
    } else {
      var p' := p + |HopMonitor(hs[0])|;
      var b1 := Put(buf, pos, AddrBytes(hs[0].addr, hs[0].repeated));
      PathTextSplit(hs, info);
      NotStarBeforePath(hs[1..], info);
      assert ValidAddr(hs[0].addr);
      EncodeHop(t, p, pos, buf, hs[0], PathText(hs[1..]) + [COLON] + info, p', b1);
      PutPathStep(buf, pos, hs);
      EncodePathText(t, p', pos + 7, b1, hs[1..], info, b, e);
    }
  }

  /** One round of the path loop on a path entry `h` followed by `w`: its
      address is packed at `pos` and the loop goes on after the entry, at
      `q`. */
  lemma {:induction false} EncodeHop(t: seq<bv8>, p: nat, pos: nat, buf: seq<bv8>, h: Hop, w: seq<bv8>,
                                    q: nat, b1: seq<bv8>)
    requires ValidAddr(h.addr) && !StarFirst(w) && Delimited(w)
    requires p <= |t| && t[p..] == HopMonitor(h) + w && q == p + |HopMonitor(h)|
    requires 14 <= pos && PathExtent(t, p, pos) <= |buf| && pos + 7 <= |buf|
    requires b1 == Put(buf, pos, AddrBytes(h.addr, h.repeated))
    ensures q <= |t| && t[q..] == w
    ensures PathExtent(t, q, pos + 7) <= |b1|
    ensures EncodePath(t, p, pos, buf) == EncodePath(t, q, pos + 7, b1)
  {
    HopAhead(t, p, h, w, q);
    HopPack(t, p, h, w);
    CommaStep(t, p, q, pos, buf, AddrBytes(h.addr, h.repeated), b1);
  }

  /** The path loop at a ',' whose address packs to `ab`, when the next
      search from after the ',' lands where one from `q` does. */
  lemma {:induction false} CommaStep(t: seq<bv8>, p: nat, q: nat, pos: nat, buf: seq<bv8>, ab: seq<bv8>, b1: seq<bv8>)
    requires p < |t| && t[p] == COMMA
    requires FindAny(t, p + 1, PATH_MARKS) == FindAny(t, q, PATH_MARKS)
    requires Pack(t, p + 1) == ab
    requires 14 <= pos && PathExtent(t, p, pos) <= |buf| && pos + 7 <= |buf|
    requires b1 == Put(buf, pos, ab)
    ensures PathExtent(t, q, pos + 7) <= |b1|
    ensures EncodePath(t, p, pos, buf) == EncodePath(t, q, pos + 7, b1)
  {
    EncodePathComma(t, p, pos, buf, p);
    EncodePathFrom(t, p + 1, q, pos + 7, b1);
  }

  /** Packing the first entry, then the rest seven bytes on, packs the path. */
  lemma {:induction false} PutPathStep(buf: seq<bv8>, pos: nat, hs: seq<Hop>)
    requires ValidPath(hs) && |hs| > 0
    requires pos + 7 * |hs| <= |buf|
    ensures ValidPath(hs[1..])
    ensures Put(Put(buf, pos, AddrBytes(hs[0].addr, hs[0].repeated)), pos + 7, PathBytes(hs[1..]))
            == Put(buf, pos, PathBytes(hs))
  {
    assert ValidPath(hs[1..]);
    var ab := AddrBytes(hs[0].addr, hs[0].repeated);
    PutPut(buf, pos, ab, PathBytes(hs[1..]));
    assert PathBytes(hs) == ab + PathBytes(hs[1..]);
  }

  /** Searches that start anywhere in a stretch free of `cs` end at the same
      place. */
  lemma {:induction false} FindAnyFrom(s: seq<bv8>, a: nat, c: nat, cs: set<bv8>)
    requires a <= c <= |s|
    requires forall k :: a <= k < c ==> s[k] !in cs
    ensures FindAny(s, a, cs) == FindAny(s, c, cs)
    decreases c - a
  {
    if a < c {
      FindAnyFrom(s, a + 1, c, cs);
    }
  }

  /** Monitor text as the source, '>' and what follows it. */
  lemma {:induction false} MonitorTextSplit(m: Monitor)
    ensures MonitorText(m)
            == AddrText(m.src) + ([GT] + (AddrText(m.dst) + (PathText(m.path) + [COLON] + m.info)))
  {
  }

  /** asc2AXcall at the head of canonical monitor text packs the source;
      its has-been-repeated bit stays clear. */
  lemma {:induction false} PackSource(m: Monitor)
    requires Canonical(m)
    ensures Pack(MonitorText(m), 0) == AddrBytes(m.src, false)
  {
    var d := AddrText(m.dst);
    var tail := PathText(m.path) + [COLON] + m.info;
    MonitorTextSplit(m);
    AddrTextPlain(m.dst);
    NotStarBeforePath(m.path, m.info);
    StarFirstAfterDest(d, tail);
    assert [GT] + (d + tail) == [GT] + d + tail;
    PackAddr(m.src, [GT] + (d + tail));
  }

  /** The '>' EncodeAX25 looks for is the one after the source. */
  lemma {:induction false} FindSeparator(m: Monitor)
    requires Canonical(m)
    ensures FindAny(MonitorText(m), 0, {GT}) == Some(|AddrText(m.src)|)
  {
    var rest := [GT] + (AddrText(m.dst) + (PathText(m.path) + [COLON] + m.info));
    MonitorTextSplit(m);
    AddrTextPlain(m.src);
    SkipPlain(AddrText(m.src), rest, {GT});
    assert rest[0] == GT;
  }

  /** After the '>': the destination, packed with its bit 7 clear, and the
      path text from `p0` on. */
  lemma {:induction false} PackDest(m: Monitor, g: nat, p0: nat)
    requires Canonical(m)
    requires g == |AddrText(m.src)| + 1 && p0 == g + |AddrText(m.dst)|
    ensures g <= |MonitorText(m)| && Pack(MonitorText(m), g) == AddrBytes(m.dst, false)
    ensures p0 <= |MonitorText(m)| && MonitorText(m)[p0..] == PathText(m.path) + [COLON] + m.info
  {
    var t := MonitorText(m);
    var d := AddrText(m.dst);
    var tail := PathText(m.path) + [COLON] + m.info;
    MonitorTextSplit(m);
    Ahead(t, 0, AddrText(m.src), [GT] + (d + tail));
    Ahead(t, g - 1, [GT], d + tail);
    Ahead(t, g, d, tail);
    NotStarBeforePath(m.path, m.info);
    PackAddr(m.dst, tail);
    PackAt(t, g);
  }

  /** The path loop's first search, from the start of the text, lands where
      one from the end of the destination does. */
  lemma {:induction false} PathSearchStart(m: Monitor, p0: nat)
    requires Canonical(m)
    requires p0 == |AddrText(m.src)| + 1 + |AddrText(m.dst)|
    ensures FindAny(MonitorText(m), 0, PATH_MARKS) == FindAny(MonitorText(m), p0, PATH_MARKS)
  {
    MonitorTextSplit(m);
    AddrTextPlain(m.src);
    AddrTextPlain(m.dst);
    SkipHead(MonitorText(m), AddrText(m.src), AddrText(m.dst), PathText(m.path) + [COLON] + m.info, p0);
  }

  /** No ',' or ':' before the path: the search from the start of the text
      lands where the one from the end of the destination does. */
  lemma {:induction false} SkipHead(t: seq<bv8>, s: seq<bv8>, d: seq<bv8>, tail: seq<bv8>, p0: nat)
    requires Plain(s) && Plain(d)
    requires t == s + ([GT] + (d + tail)) && p0 == |s| + 1 + |d|
    ensures FindAny(t, 0, PATH_MARKS) == FindAny(t, p0, PATH_MARKS)
  {
    var a := s + [GT] + d;
    assert t == a + tail;
    forall k | 0 <= k < |a|
      ensures a[k] !in PATH_MARKS
    {
      if k < |s| {
        assert a[k] == s[k];
        PlainNotMark(s[k]);
      } else if k > |s| {
        assert a[k] == d[k - |s| - 1];
        PlainNotMark(d[k - |s| - 1]);
      }
    }
    FindAnySkip(a, tail, 0, PATH_MARKS);
    FindAnyShift(a, tail, 0, PATH_MARKS);
  }

  /** The address field written at the head of the buffer, then the end of
      the frame, is the frame written there. */
  lemma {:induction false} FrameEndOf(m: Monitor, buf: seq<bv8>)
    requires Canonical(m) && |FrameOf(m)| <= |buf|
    ensures FrameEnd(Put(buf, 0, AddressField(m)), 14 + 7 * |m.path|, m.info)
            == (Put(buf, 0, FrameOf(m)), |FrameOf(m)|)
  {
    var a := AddressField(m);
    FrameEndPut(buf, a, m.info);
    assert FrameOf(m) == a[|a| - 1 := a[|a| - 1] | END_BIT] + ([CONTROL_UI, PID_NONE] + m.info);
  }

  /** The source packed at 7, the destination at 0 and the path from 14 on
      make the address field. */
  lemma {:induction false} PutAddressField(m: Monitor, buf: seq<bv8>)
    requires Canonical(m) && |FrameOf(m)| <= |buf|
    ensures var b0 := Put(Put(buf, 7, AddrBytes(m.src, false)), 0, AddrBytes(m.dst, false));
            Put(b0, 14, PathBytes(m.path)) == Put(buf, 0, AddressField(m))
  {
    var sb, db := AddrBytes(m.src, false), AddrBytes(m.dst, false);
    PutSwap(buf, 0, db, sb);
    PutPut(buf, 0, db + sb, PathBytes(m.path));
  }

  /** EncodeAX25 writes exactly the frame's bytes on canonical monitor text. */
  lemma {:induction false} EncodeMonitorExtent(m: Monitor)
    requires Canonical(m)
    ensures EncodeExtent(MonitorText(m)) == |FrameOf(m)|
  {
    var t := MonitorText(m);
    var g := |AddrText(m.src)| + 1;
    var p0 := g + |AddrText(m.dst)|;
    FindSeparator(m);
    PackDest(m, g, p0);
    PathSearchStart(m, p0);
    PathExtentFrom(t, 0, p0, 14);
    PathExtentText(t, p0, 14, m.path, m.info);
  }

  /** The first steps of EncodeAX25 on canonical monitor text: the source
      packed at 7, the '>' found and the destination packed at 0. */
  lemma {:induction false} EncodeMonitorHead(m: Monitor, buf: seq<bv8>, b0: seq<bv8>)
    requires Canonical(m) && EncodeExtent(MonitorText(m)) <= |buf|
    requires b0 == Put(Put(buf, 7, AddrBytes(m.src, false)), 0, AddrBytes(m.dst, false))
    ensures PathExtent(MonitorText(m), 0, 14) <= |b0|
    ensures EncodeOnto(MonitorText(m), buf) == EncodePath(MonitorText(m), 0, 14, b0)
  {
    var g := |AddrText(m.src)|;
    PackSource(m);
    FindSeparator(m);
    PackDest(m, g + 1, g + 1 + |AddrText(m.dst)|);
    EncodeOntoHead(MonitorText(m), buf, g, AddrBytes(m.src, false), AddrBytes(m.dst, false), b0);
  }

  /** The path loop of EncodeAX25 on canonical monitor text completes the
      frame the head started. */
  lemma {:induction false} EncodeMonitorPath(m: Monitor, buf: seq<bv8>, b0: seq<bv8>)
    requires Canonical(m) && |FrameOf(m)| <= |buf|
    requires b0 == Put(Put(buf, 7, AddrBytes(m.src, false)), 0, AddrBytes(m.dst, false))
    requires PathExtent(MonitorText(m), 0, 14) <= |b0|
    ensures EncodePath(MonitorText(m), 0, 14, b0) == (Put(buf, 0, FrameOf(m)), |FrameOf(m)|)
  {
    var t := MonitorText(m);
    var g := |AddrText(m.src)| + 1;
    var p0 := g + |AddrText(m.dst)|;
    PackDest(m, g, p0);
    PathSearchStart(m, p0);
    var b := Put(buf, 0, AddressField(m));
    PutAddressField(m, buf);
    EncodePathText(t, p0, 14, b0, m.path, m.info, b, 14 + 7 * |m.path|);
    EncodePathFrom(t, 0, p0, 14, b0);
    FrameEndOf(m, buf);
  }

  /** EncodeAX25 turns canonical monitor text into its frame and returns the
      frame's length: destination at bytes 0-6, source at 7-13, path entry k
      at 14 + 7k, the end-of-address bit only on the last address byte, then
      0x03, 0xF0 and the payload. */
  lemma {:induction false} EncodeMonitor(m: Monitor, buf: seq<bv8>)
    requires Canonical(m) && |FrameOf(m)| <= |buf|
    ensures EncodeExtent(MonitorText(m)) == |FrameOf(m)|
    ensures EncodeOnto(MonitorText(m), buf) == (Put(buf, 0, FrameOf(m)), |FrameOf(m)|)
  {
    var b0 := Put(Put(buf, 7, AddrBytes(m.src, false)), 0, AddrBytes(m.dst, false));
    EncodeMonitorExtent(m);
    EncodeMonitorHead(m, buf, b0);
    EncodeMonitorPath(m, buf, b0);
  }

  /** '>' is none of the marks, so the source's '*' search goes on through
      the destination to the ',' or ':' after it. */
  lemma {:induction false} StarFirstAfterDest(d: seq<bv8>, tail: seq<bv8>)
    requires Plain(d)
    ensures StarFirst([GT] + d + tail) == StarFirst(tail)
  {
    StarFirstSkip(d, tail);
    var y := [GT] + d + tail;
    assert y == [GT] + (d + tail);
    assert y[1..] == d + tail;
    FindAnyFrom(y, 0, 1, MARKS);
    FindAnyShift([GT], d + tail, 0, MARKS);
  }
}
