/** EncodeAX25 and DecodeAX25 of ax25_util.cpp: a UI frame and its monitor
    text `SRC>DEST,HOP*,...:payload`.

    A UI frame is its address field (destination, source, then up to eight
    path entries, seven bytes each, the last one carrying the end-of-address
    bit), the control byte 0x03, the PID 0xF0 and the information field. */
module FrameCodec {
  import opened Bytes
  import opened Callsign

  const CONTROL_UI: bv8 := 0x03
  const PID_NONE: bv8 := 0xF0

  /** The characters EncodeAX25's path loop looks for with strpbrk. */
  const PATH_MARKS: set<bv8> := {COMMA, COLON}

  /** One past the last byte EncodeAX25's path loop writes, when it starts
      searching at `p` with the next address due at `pos`. */
  function PathExtent(t: seq<bv8>, p: nat, pos: nat): (r: nat)
    ensures r >= pos
    decreases |t| - p
  {
    match FindAny(t, p, PATH_MARKS)
    case None => pos
    case Some(q) =>
      if t[q] == COLON then pos + 2 + (|t| - (q + 1)) else PathExtent(t, q + 1, pos + 7)
  }

  /** One past the last byte EncodeAX25 writes for the text `t`; the source
      never compares it with the size of its output buffer. */
  function EncodeExtent(t: seq<bv8>): (r: nat)
    ensures r >= 14
  {
    if FindAny(t, 0, {GT}).None? then 14 else PathExtent(t, 0, 14)
  }

  /** The tail EncodeAX25 writes once the path loop meets the ':' with the
      next address due at `e`: the end-of-address bit on the byte before `e`,
      then control, PID and the payload; with the value returned. */
  function FrameEnd(b: seq<bv8>, e: nat, info: seq<bv8>): (seq<bv8>, nat)
    requires 1 <= e && e + 2 + |info| <= |b|
  {
    (Put(b[e - 1 := b[e - 1] | END_BIT], e, [CONTROL_UI, PID_NONE] + info), e + 2 + |info|)
  }

  /** The path loop of EncodeAX25 and what follows it: the new buffer and the
      value returned, 0 when no ':' ends the path. */
  function EncodePath(t: seq<bv8>, p: nat, pos: nat, buf: seq<bv8>): (r: (seq<bv8>, nat))
    requires 14 <= pos && PathExtent(t, p, pos) <= |buf|
    ensures |r.0| == |buf|
    decreases |t| - p
  {
    match FindAny(t, p, PATH_MARKS)
    case None => (buf, 0)
    case Some(q) =>
      if t[q] == COLON then FrameEnd(buf, pos, t[q + 1..])
      else
        EncodePath(t, q + 1, pos + 7, Put(buf, pos, Pack(t, q + 1)))
  }

  /** EncodeAX25(in, out) on the text `t` (the C string's content) and the
      buffer `buf`: the source address goes to bytes 7-13 first; without a
      '>' the function stops there and returns 0; otherwise the destination
      goes to bytes 0-6 and the path loop follows. */
  function EncodeOnto(t: seq<bv8>, buf: seq<bv8>): (r: (seq<bv8>, nat))
    requires EncodeExtent(t) <= |buf|
    ensures |r.0| == |buf|
  {
    var b := Put(buf, 7, Pack(t, 0));
    match FindAny(t, 0, {GT})
    case None => (b, 0)
    case Some(g) => EncodePath(t, 0, 14, Put(b, 0, Pack(t, g + 1)))
  }

  /** EncodeOnto once the source packs to `sb`, the '>' is at `g` and the
      destination after it packs to `db`: the path loop follows on the buffer
      holding both. */
  lemma {:induction false} EncodeOntoHead(t: seq<bv8>, buf: seq<bv8>, g: nat, sb: seq<bv8>, db: seq<bv8>, b0: seq<bv8>)
    requires EncodeExtent(t) <= |buf|
    requires FindAny(t, 0, {GT}) == Some(g) && Pack(t, 0) == sb && Pack(t, g + 1) == db
    requires b0 == Put(Put(buf, 7, sb), 0, db)
    ensures PathExtent(t, 0, 14) <= |b0|
    ensures EncodeOnto(t, buf) == EncodePath(t, 0, 14, b0)
  {
  }

  /** The end of the frame written after an address field `a` written at the
      head of the buffer: the field with its last byte marked, then control,
      PID and payload. */
  lemma {:induction false} FrameEndPut(buf: seq<bv8>, a: seq<bv8>, info: seq<bv8>)
    requires 1 <= |a| && |a| + 2 + |info| <= |buf|
    ensures FrameEnd(Put(buf, 0, a), |a|, info)
            == (Put(buf, 0, a[|a| - 1 := a[|a| - 1] | END_BIT] + ([CONTROL_UI, PID_NONE] + info)), |a| + 2 + |info|)
  {
    var e := |a|;
    var z := [CONTROL_UI, PID_NONE] + info;
    var a' := a[e - 1 := a[e - 1] | END_BIT];
    var b := Put(buf, 0, a);
    assert b == a + buf[e..];
    assert b[e - 1 := b[e - 1] | END_BIT] == a' + buf[e..];
    assert (a' + buf[e..])[..e] == a';
    assert (a' + buf[e..])[e + |z|..] == buf[e + |z|..];
    assert Put(buf, 0, a' + z) == a' + z + buf[e + |z|..];
  }

  /** The path loop gives up, returning 0, exactly when no ':' follows the
      point where it starts searching. */
  lemma {:induction false} EncodePathFails(t: seq<bv8>, p: nat, pos: nat, buf: seq<bv8>)
    requires 14 <= pos && PathExtent(t, p, pos) <= |buf|
    ensures EncodePath(t, p, pos, buf).1 == 0 <==> forall i :: p <= i < |t| ==> t[i] != COLON
    decreases |t| - p
  {
    FindAnyFirst(t, p, PATH_MARKS);
    match FindAny(t, p, PATH_MARKS)
    case None =>
    case Some(q) =>
      if t[q] != COLON {
        EncodePathFails(t, q + 1, pos + 7, Put(buf, pos, Pack(t, q + 1)));
      }
  }

  /** EncodeAX25 fails, returning 0, exactly when the text has no '>' or no
      ':' at all. */
  lemma {:induction false} EncodeFails(t: seq<bv8>, buf: seq<bv8>)
    requires EncodeExtent(t) <= |buf|
    ensures EncodeOnto(t, buf).1 == 0 <==> GT !in t || COLON !in t
  {
    FindAnyFirst(t, 0, {GT});
    var b := Put(buf, 7, Pack(t, 0));
    match FindAny(t, 0, {GT})
    case None =>
    case Some(g) =>
      EncodePathFails(t, 0, 14, Put(b, 0, Pack(t, g + 1)));
  }

  /** The path loop returns 0 or one past the last byte it writes. */
  lemma {:induction false} EncodePathLength(t: seq<bv8>, p: nat, pos: nat, buf: seq<bv8>)
    requires 14 <= pos && PathExtent(t, p, pos) <= |buf|
    ensures EncodePath(t, p, pos, buf).1 in {0, PathExtent(t, p, pos)}
    decreases |t| - p
  {
    match FindAny(t, p, PATH_MARKS)
    case None =>
    case Some(q) =>
      if t[q] != COLON {
        EncodePathLength(t, q + 1, pos + 7, Put(buf, pos, Pack(t, q + 1)));
      }
  }

  /** EncodeAX25 returns 0 or the length of the frame it writes, which is
      never more than the buffer holds. */
  lemma {:induction false} EncodeLength(t: seq<bv8>, buf: seq<bv8>)
    requires EncodeExtent(t) <= |buf|
    ensures EncodeOnto(t, buf).1 in {0, EncodeExtent(t)}
  {
    var b := Put(buf, 7, Pack(t, 0));
    match FindAny(t, 0, {GT})
    case None =>
    case Some(g) =>
      EncodePathLength(t, 0, 14, Put(b, 0, Pack(t, g + 1)));
  }

  /** EncodeAX25: packs monitor text into `out` through a write cursor. */
  method EncodeAX25(t: seq<bv8>, out: array<bv8>) returns (r: nat)
    requires EncodeExtent(t) <= out.Length
    modifies out
    ensures (out[..], r) == EncodeOnto(t, old(out[..]))
  {
    Asc2AXCall(t, 0, out, 7);
    var g := FindAny(t, 0, {GT});
    if g.None? {
      return 0;
    }
    Asc2AXCall(t, g.value + 1, out, 0);
    r := EncodePathLoop(t, out);
  }

  /** The path loop of EncodeAX25: one address after each ',' until the ':'
      that ends the path. */
  method EncodePathLoop(t: seq<bv8>, out: array<bv8>) returns (r: nat)
    requires PathExtent(t, 0, 14) <= out.Length
    modifies out
    ensures (out[..], r) == EncodePath(t, 0, 14, old(out[..]))
  {
    var pos, p := 14, 0;
    while true
      invariant 14 <= pos && p <= |t|
      invariant PathExtent(t, p, pos) <= out.Length
      invariant EncodePath(t, p, pos, out[..]) == EncodePath(t, 0, 14, old(out[..]))
      decreases |t| - p
    {
      var m := FindAny(t, p, PATH_MARKS);
      if m.None? {
        assert EncodePath(t, p, pos, out[..]) == (out[..], 0);
        return 0;
      }
      var q := m.value;
      if t[q] == COLON {
        ghost var b := out[..];
        EncodePathColon(t, p, pos, b, q);
        r := EncodeInfo(t, q + 1, pos, out);
        return;
      }
      EncodePathComma(t, p, pos, out[..], q);
      p := q + 1;
      Asc2AXCall(t, p, out, pos);
      pos := pos + 7;
    }
  }

  /** EncodePath when the search from `p` stops at a ':'. */
  lemma {:induction false} EncodePathColon(t: seq<bv8>, p: nat, pos: nat, buf: seq<bv8>, q: nat)
    requires 14 <= pos && PathExtent(t, p, pos) <= |buf|
    requires FindAny(t, p, PATH_MARKS) == Some(q) && t[q] == COLON
    ensures pos + 2 + (|t| - (q + 1)) <= |buf|
    ensures EncodePath(t, p, pos, buf) == FrameEnd(buf, pos, t[q + 1..])
  {
  }

  /** EncodePath when the search from `p` stops at a ',': one address is
      packed at `pos` and the search goes on after the ','. */
  lemma {:induction false} EncodePathComma(t: seq<bv8>, p: nat, pos: nat, buf: seq<bv8>, q: nat)
    requires 14 <= pos && PathExtent(t, p, pos) <= |buf|
    requires FindAny(t, p, PATH_MARKS) == Some(q) && t[q] != COLON
    ensures PathExtent(t, p, pos) == PathExtent(t, q + 1, pos + 7)
    ensures EncodePath(t, p, pos, buf) == EncodePath(t, q + 1, pos + 7, Put(buf, pos, Pack(t, q + 1)))
  {
  }

  /** The end of EncodeAX25: the end-of-address bit on the last address, the
      control and PID bytes, then the information field `t[p..]`. */
  method EncodeInfo(t: seq<bv8>, p: nat, pos: nat, out: array<bv8>) returns (r: nat)
    requires 14 <= pos && p <= |t| && pos + 2 + (|t| - p) <= out.Length
    modifies out
    ensures (out[..], r) == FrameEnd(old(out[..]), pos, t[p..])
  {
    out[pos - 1] := out[pos - 1] | END_BIT;
    ghost var c := out[..];
    out[pos] := CONTROL_UI;
    out[pos + 1] := PID_NONE;
    PutIs(c, pos, [CONTROL_UI, PID_NONE], out[..]);
    r := CopyText(t, p, out, pos + 2);
    PutPut(c, pos, [CONTROL_UI, PID_NONE], t[p..]);
  }

  /** The copy loop at the end of EncodeAX25: the rest of the text from `p`
      on, written from `r0` on; returns where the write cursor stops. */
  method CopyText(t: seq<bv8>, p: nat, out: array<bv8>, r0: nat) returns (r: nat)
    requires p <= |t| && r0 + (|t| - p) <= out.Length
    modifies out
    ensures out[..] == Put(old(out[..]), r0, t[p..])
    ensures r == r0 + (|t| - p)
  {
    ghost var c, x := out[..], t[p..];
    assert x[..0] == [];
    assert c == Put(c, r0, x[..0]);
    var i := p;
    r := r0;
    while i < |t|
      invariant p <= i <= |t| && r == r0 + (i - p)
      invariant out[..] == Put(c, r0, x[..i - p])
    {
      out[r] := t[i];
      PutStep(c, r0, x, i - p);
      r, i := r + 1, i + 1;
    }
    assert x[..i - p] == x;
  }

  /** The number of path entries of a frame: the least `n` at or above `k`
      whose byte 13 + 7n, the SSID byte of entry n - 1 (of the source when n
      is 0), carries the end-of-address bit. */
  function PathCount(data: seq<bv8>, k: nat): (r: Option<nat>)
    ensures r.Some? ==> k <= r.value && 13 + 7 * r.value < |data|
    ensures r.Some? ==> LastAddr(data, r.value)
    ensures r.Some? ==> forall j :: k <= j < r.value ==> !LastAddr(data, j)
    decreases |data| - 7 * k
  {
    if 13 + 7 * k >= |data| then None
    else if LastAddr(data, k) then Some(k)
    else PathCount(data, k + 1)
  }

  /** True when the address that ends at byte 13 + 7k (the source when k is
      0, path entry k - 1 otherwise) carries the end-of-address bit. */
  predicate LastAddr(data: seq<bv8>, k: nat)
    requires 13 + 7 * k < |data|
  {
    data[13 + 7 * k] & END_BIT != 0
  }

  /** An address byte 13 + 7k without the end-of-address bit lies before the
      last address. */
  lemma {:induction false} PathCountBelow(data: seq<bv8>, k: nat)
    requires PathCount(data, 0).Some? && k <= PathCount(data, 0).value
    requires 13 + 7 * k < |data| && !LastAddr(data, k)
    ensures k < PathCount(data, 0).value
  {
  }

  /** The first address byte at 13 + 7k with the end-of-address bit is the
      last address. */
  lemma {:induction false} PathCountAt(data: seq<bv8>, k: nat)
    requires PathCount(data, 0).Some? && k <= PathCount(data, 0).value
    requires 13 + 7 * k < |data| && LastAddr(data, k)
    ensures k == PathCount(data, 0).value
  {
  }

  /** Monitor text of one path entry: ",CALL" and a '*' when its
      has-been-repeated bit is set. */
  function HopText(a: seq<bv8>, off: nat): (r: seq<bv8>)
    requires off + 7 <= |a|
  {
    [COMMA] + Unpack(a, off) + (if a[off + 6] & REPEATED != 0 then [STAR] else [])
  }

  /** Monitor text of the first `n` path entries, which start at byte 14. */
  function Hops(data: seq<bv8>, n: nat): (r: seq<bv8>)
    requires 14 + 7 * n <= |data|
  {
    if n == 0 then [] else Hops(data, n - 1) + HopText(data, 7 + 7 * n)
  }

  /** The information field as strncat copies it: at most `len - i` bytes and
      up to the first NUL. When `i` is past `len` the count is negative, which
      size_t turns into an unbounded copy: then it runs to the first NUL, and
      the model stops it at the end of the buffer. */
  function InfoText(data: seq<bv8>, len: nat, i: nat): (r: seq<bv8>)
    requires len <= |data|
  {
    TakeUntilNul(if i <= len then data[i..len] else if i <= |data| then data[i..] else [])
  }

  /** The monitor text DecodeAX25 builds for a frame whose address field has
      `n` path entries: source, '>', destination, the path entries, ':' and
      the information field, which starts two bytes after the address field. */
  function DecodeWith(data: seq<bv8>, len: nat, n: nat): (r: seq<bv8>)
    requires len <= |data| && 14 + 7 * n <= |data|
  {
    Unpack(data, 7) + [GT] + Unpack(data, 0) + Hops(data, n) + [COLON] + InfoText(data, len, 16 + 7 * n)
  }

  /** DecodeAX25(data, len): the path runs up to the entry with the
      end-of-address bit. */
  function Decode(data: seq<bv8>, len: nat): (r: seq<bv8>)
    requires len <= |data| && len < 0x100 && PathCount(data, 0).Some?
  {
    DecodeWith(data, len, PathCount(data, 0).value)
  }

  lemma {:induction false} AppendAssoc(a: seq<bv8>, b: seq<bv8>, c: seq<bv8>)
    ensures (a + b) + c == a + (b + c)
  {
  }

  /** DecodeAX25: appends one address after the other, strcat style. */
  method DecodeAX25(data: seq<bv8>, len: nat) returns (out: seq<bv8>)
    requires len <= |data| && len < 0x100 && PathCount(data, 0).Some?
    ensures out == Decode(data, len)
  {
    var src := AXCall2Asc(data, 7);
    var dst := AXCall2Asc(data, 0);
    var path, i := DecodePath(data, src + [GT] + dst);
    var info := InfoField(data, len, i + 7 + 2);
    out := path + [COLON] + info;
  }

  /** The path loop of DecodeAX25: appends every path entry to `head` and
      leaves `i` at the last address of the frame. */
  method DecodePath(data: seq<bv8>, head: seq<bv8>) returns (out: seq<bv8>, i: nat)
    requires PathCount(data, 0).Some?
    ensures out == head + Hops(data, PathCount(data, 0).value)
    ensures i == 7 + 7 * PathCount(data, 0).value
  {
    ghost var n := PathCount(data, 0).value;
    out, i := head, 7;
    ghost var k := 0;
    while data[i + 6] & END_BIT == 0
      invariant i == 7 + 7 * k && k <= n
      invariant out == head + Hops(data, k)
      decreases n - k
    {
      PathCountBelow(data, k);
      i, k := i + 7, k + 1;
      var hop := HopAt(data, i);
      AppendAssoc(head, Hops(data, k - 1), hop);
      out := out + hop;
    }
    PathCountAt(data, k);
  }

  /** One path entry as DecodeAX25 appends it. */
  method HopAt(a: seq<bv8>, off: nat) returns (hop: seq<bv8>)
    requires off + 7 <= |a|
    ensures hop == HopText(a, off)
  {
    var call := AXCall2Asc(a, off);
    hop := [COMMA] + call;
    if a[off + 6] & REPEATED != 0 {
      hop := hop + [STAR];
    }
  }

  /** The strncat of DecodeAX25: `len - i` bytes of the information field,
      a count that is negative when the frame ends before `i`. */
  method InfoField(data: seq<bv8>, len: nat, i: nat) returns (info: seq<bv8>)
    requires len <= |data|
    ensures info == InfoText(data, len, i)
  {
    var c: int := len - i;
    if c >= 0 {
      info := TakeUntilNul(data[i..len]);
    } else if i <= |data| {
      info := TakeUntilNul(data[i..]);
    } else {
      info := [];
    }
  }
}
