/** The packed AX.25 address field and its text form: asc2AXcall and
    AXCall2asc of ax25_util.cpp.

    Section 3.12 of the AX.25 Link Access Protocol v2.2 lays an address out as
    six callsign bytes, each an ASCII character shifted left by one, then an
    SSID byte holding the SSID in bits 1-4, the end-of-address bit in bit 0 and
    the has-been-repeated bit in bit 7. Bits 5 and 6 are reserved and set. */
module Callsign {
  import opened Bytes

  const PAD: bv8 := 0x40        // ' ' << 1: an unused callsign position
  const SSID_BASE: bv8 := 0x60  // the two reserved bits of the SSID byte
  const END_BIT: bv8 := 0x01
  const REPEATED: bv8 := 0x80
  const SSID_MASK: bv8 := 0x1E

  const DASH: bv8 := 0x2D
  const COMMA: bv8 := 0x2C
  const COLON: bv8 := 0x3A
  const STAR: bv8 := 0x2A
  const GT: bv8 := 0x3E

  /** The characters strpbrk looks for after an address in monitor text. */
  const MARKS: set<bv8> := {COMMA, COLON, STAR}

  /** A callsign character as an address stores it: shifted left by one. */
  function CallByte(c: bv8): bv8 {
    c << 1
  }

  /** The SSID bits of an address byte for the number `v`; asc2AXcall keeps
      only its low four bits. */
  function SsidField(v: int): bv8 {
    ((v % 16) as bv8) << 1
  }

  /** An SSID byte: reserved bits, SSID and the has-been-repeated bit. */
  function SsidOctet(v: int, repeated: bool): bv8 {
    var b := SSID_BASE | SsidField(v);
    if repeated then b | REPEATED else b
  }

  /** The SSID byte asc2AXcall writes once `n` callsign characters are taken:
      the number after a dash (or 0), and bit 7 when the first of ',', ':'
      and '*' from there on is '*'. */
  function SsidByte(t: seq<bv8>, n: nat): bv8
    requires n <= |t|
  {
    var dash := n < |t| && t[n] == DASH;
    var mark := FindAny(t, if dash then n + 1 else n, MARKS);
    SsidOctet(if dash then Atoi(t, n + 1) else 0, mark.Some? && t[mark.value] == STAR)
  }

  /** The SSID byte is the same wherever the text sits. */
  lemma {:induction false} SsidByteShift(x: seq<bv8>, y: seq<bv8>, n: nat)
    requires n <= |y|
    ensures SsidByte(x + y, |x| + n) == SsidByte(y, n)
  {
    var t := x + y;
    var dash := n < |y| && y[n] == DASH;
    if n < |y| {
      assert t[|x| + n] == y[n];
    }
    var from := if dash then n + 1 else n;
    FindAnyShift(x, y, from, MARKS);
    var m := FindAny(y, from, MARKS);
    if m.Some? {
      assert t[|x| + m.value] == y[m.value];
    }
    if dash {
      AtoiShift(x, y, n + 1);
    }
  }

  lemma {:induction false} SsidFieldZero()
    ensures SSID_BASE | SsidField(0) == SSID_BASE
  {
  }

  /** The bytes asc2AXcall writes from output position `k` on, with its
      input cursor at `i`: a callsign position takes the next character when
      it is alphanumeric and moves the cursor on, and is padding otherwise;
      the SSID byte follows the six positions. */
  function PackFrom(t: seq<bv8>, i: nat, k: nat): (r: seq<bv8>)
    requires i <= |t| && k <= 6
    ensures |r| == 7 - k
    decreases 6 - k, |t|
  {
    if k == 6 then [SsidByte(t, i)]
    else if i < |t| && IsAlnum(t[i]) then [CallByte(t[i])] + PackFrom(t, i + 1, k + 1)
    else [PAD] + PackFrom(t, i, k + 1)
  }

  /** The seven bytes asc2AXcall writes for the text that starts at index
      `i` of `t`. */
  function Pack(t: seq<bv8>, i: nat): (r: seq<bv8>)
    requires i <= |t|
    ensures |r| == 7
  {
    PackFrom(t, i, 0)
  }

  /** asc2AXcall packs the same bytes wherever the text sits. */
  lemma {:induction false} PackFromShift(x: seq<bv8>, y: seq<bv8>, i: nat, k: nat)
    requires i <= |y| && k <= 6
    ensures PackFrom(x + y, |x| + i, k) == PackFrom(y, i, k)
    decreases 6 - k
  {
    if k == 6 {
      SsidByteShift(x, y, i);
    } else {
      if i < |y| {
        assert (x + y)[|x| + i] == y[i];
      }
      if i < |y| && IsAlnum(y[i]) {
        PackFromShift(x, y, i + 1, k + 1);
      } else {
        PackFromShift(x, y, i, k + 1);
      }
    }
  }

  /** Pack at an index is Pack of the text from there on. */
  lemma {:induction false} PackAt(t: seq<bv8>, i: nat)
    requires i <= |t|
    ensures Pack(t, i) == Pack(t[i..], 0)
  {
    assert t == t[..i] + t[i..];
    PackFromShift(t[..i], t[i..], 0, 0);
  }

  /** asc2AXcall(in, out): writes the seven address bytes for the text at
      index `from` of `t` to `out[off..off+7]`, moving an input and an output
      cursor. */
  method Asc2AXCall(t: seq<bv8>, from: nat, out: array<bv8>, off: nat)
    requires from <= |t| && off + 7 <= out.Length
    modifies out
    ensures out[..] == Put(old(out[..]), off, Pack(t, from))
  {
    ghost var x := Pack(t, from);
    assert x[0..] == x;
    var i, k := from, 0;
    while k < 6
      invariant from <= i <= |t| && k <= 6
      invariant forall j :: 0 <= j < k ==> out[off + j] == x[j]
      invariant forall j :: 0 <= j < out.Length && !(off <= j < off + k) ==> out[j] == old(out[j])
      invariant x[k..] == PackFrom(t, i, k)
    {
      if i < |t| && IsAlnum(t[i]) {
        DropCons(x, k, CallByte(t[i]), PackFrom(t, i + 1, k + 1));
        out[off + k] := CallByte(t[i]);
        i := i + 1;
      } else {
        DropCons(x, k, PAD, PackFrom(t, i, k + 1));
        out[off + k] := PAD;
      }
      k := k + 1;
    }
    DropCons(x, 6, SsidByte(t, i), []);
    var ssid := SsidAt(t, i);
    out[off + 6] := ssid;
    PutIs(old(out[..]), off, x, out[..]);
  }

  /** The second half of asc2AXcall, once the input cursor stands at `i`: an
      SSID after a dash, then the search for the '*' marker. */
  method SsidAt(t: seq<bv8>, i: nat) returns (ssid: bv8)
    requires i <= |t|
    ensures ssid == SsidByte(t, i)
  {
    var v, j := 0, i;
    ssid := SSID_BASE;
    if j < |t| && t[j] == DASH {
      j := j + 1;
      v := Atoi(t, j);
      ssid := SSID_BASE | SsidField(v);
    } else {
      SsidFieldZero();
    }
    var p := FindAny(t, j, MARKS);
    var star := p.Some? && t[p.value] == STAR;
    if star {
      ssid := ssid | REPEATED;
    }
  }

  /** What AXCall2asc keeps of a callsign byte: padding becomes NUL. */
  function CallChar(b: bv8): bv8 {
    if b == PAD then 0 else b >> 1
  }

  /** The SSID held in bits 1-4 of an address's seventh byte. */
  function SsidOf(b: bv8): (n: nat)
    ensures n <= 15
  {
    ((b >> 1) & 0x0F) as nat
  }

  /** What sprintf's "-%u" prints for the SSID of the byte `b`, written out
      for the sixteen values bits 1-4 can hold; nothing when it is zero. */
  function SsidText(b: bv8): (r: seq<bv8>)
    ensures |r| <= 3
  {
    var n := SsidOf(b);
    if n == 0 then []
    else if n < 10 then [DASH, DigitChar(n)]
    else [DASH, DigitChar(1), DigitChar(n - 10)]
  }

  /** SsidText agrees with "-" followed by the decimal form of the SSID. */
  lemma {:induction false} SsidTextDec(b: bv8)
    ensures SsidText(b) == if SsidOf(b) == 0 then [] else [DASH] + Dec(SsidOf(b))
  {
    var n := SsidOf(b);
    if n != 0 {
      DecSsid(n);
    }
  }

  /** "%u" of an SSID from 1 to 15: one digit, or '1' and one more. */
  lemma {:induction false} DecSsid(n: nat)
    requires 1 <= n <= 15
    ensures Dec(n) == if n < 10 then [DigitChar(n)] else [DigitChar(1), DigitChar(n - 10)]
  {
    if n >= 10 {
      assert n / 10 == 1 && n % 10 == n - 10;
      assert Dec(n) == Dec(1) + [DigitChar(n - 10)];
    }
  }

  /** The text AXCall2asc returns for the address at offset `off` of `a`:
      the callsign up to its first padding byte, then "-N" only when the SSID
      N is not zero. */
  function Unpack(a: seq<bv8>, off: nat): (r: seq<bv8>)
    requires off + 7 <= |a|
    ensures |r| <= 9
  {
    TakeUntilNul(CallChars(a, off)) + SsidText(a[off + 6])
  }

  /** The six callsign characters of the address at `off`, shifted back. */
  function CallChars(a: seq<bv8>, off: nat): (r: seq<bv8>)
    requires off + 7 <= |a|
    ensures |r| == 6
  {
    seq(6, j requires 0 <= j < 6 => CallChar(a[off + j]))
  }

  /** AXCall2asc: fills a zeroed buffer with the shifted-back callsign
      characters, then prints "-N" at the end of the string when N != 0. */
  method AXCall2Asc(buf: seq<bv8>, off: nat) returns (call: seq<bv8>)
    requires off + 7 <= |buf|
    ensures call == Unpack(buf, off)
  {
    var c := UnshiftCall(buf, off);
    var ssid := (buf[off + 6] >> 1) & 0x0F;
    call := TakeUntilNul(c);
    if ssid != 0 {
      call := call + [DASH] + Dec(ssid as nat);
    }
    SsidTextDec(buf[off + 6]);
  }

  /** The loop of AXCall2asc over the six callsign bytes: a zeroed buffer
      takes each byte that is not padding, shifted back by one. */
  method UnshiftCall(buf: seq<bv8>, off: nat) returns (c: seq<bv8>)
    requires off + 7 <= |buf|
    ensures c == CallChars(buf, off)
  {
    c := [0, 0, 0, 0, 0, 0];
    for j := 0 to 6
      invariant |c| == 6
      invariant forall i :: 0 <= i < j ==> c[i] == CallChar(buf[off + i])
      invariant forall i :: j <= i < 6 ==> c[i] == 0
    {
      if buf[off + j] != PAD {
        c := c[j := buf[off + j] >> 1];
      }
    }
  }

  /** An address as monitor text names it: `CALL` or `CALL-N`. */
  datatype Addr = Addr(call: seq<bv8>, ssid: nat)

  /** A canonical address: one to six alphanumerics and an SSID of 0-15. */
  predicate ValidAddr(a: Addr) {
    && 1 <= |a.call| <= 6
    && (forall i :: 0 <= i < |a.call| ==> IsAlnum(a.call[i]))
    && a.ssid <= 15
  }

  /** Monitor text of an address; the SSID is omitted when it is zero and
      written without leading zeros otherwise. */
  function AddrText(a: Addr): seq<bv8> {
    a.call + (if a.ssid == 0 then [] else [DASH] + Dec(a.ssid))
  }

  /** The callsign positions `k` to 5 of a packed address holding `call`:
      shifted characters, then padding. */
  function CallField(call: seq<bv8>, k: nat): (r: seq<bv8>)
    requires k <= 6
    ensures |r| == 6 - k
    decreases 6 - k, |call|
  {
    if k == 6 then []
    else [if k < |call| then CallByte(call[k]) else PAD] + CallField(call, k + 1)
  }

  /** The packed form of a canonical address, end-of-address bit clear. */
  function AddrBytes(a: Addr, repeated: bool): (r: seq<bv8>)
    requires ValidAddr(a)
    ensures |r| == 7
  {
    CallField(a.call, 0) + [SsidOctet(a.ssid, repeated)]
  }

  /** Byte `j` of the callsign positions from `k` on. */
  lemma {:induction false} CallFieldAt(call: seq<bv8>, k: nat, j: nat)
    requires k <= j < 6
    ensures CallField(call, k)[j - k] == if j < |call| then CallByte(call[j]) else PAD
    decreases j - k
  {
    if k < j {
      CallFieldAt(call, k + 1, j);
    }
  }

  /** Past the callsign, every position is padding. */
  lemma {:induction false} CallFieldPad(call: seq<bv8>, k: nat)
    requires |call| <= k <= 6
    ensures CallField(call, k) == CallField([], k)
    decreases 6 - k
  {
    if k < 6 {
      CallFieldPad(call, k + 1);
    }
  }

  /** True when the first of ',', ':' and '*' in `rest` is '*'. */
  predicate StarFirst(rest: seq<bv8>) {
    var m := FindAny(rest, 0, MARKS);
    m.Some? && rest[m.value] == STAR
  }

  /** What may follow an address in monitor text. */
  predicate Delimited(rest: seq<bv8>) {
    |rest| > 0 && rest[0] in {GT, COMMA, COLON, STAR}
  }

  /** asc2AXcall on canonical address text, followed by a delimiter, packs
      exactly that address; bit 7 is set iff the first of ',', ':' and '*'
      after it is '*'. */
  lemma {:induction false} PackAddr(a: Addr, rest: seq<bv8>)
    requires ValidAddr(a) && Delimited(rest)
    ensures Pack(AddrText(a) + rest, 0) == AddrBytes(a, StarFirst(rest))
  {
    PackCall(a, rest, 0);
  }

  /** asc2AXcall on a canonical address that ends its C string, as a
      configured callsign does: that address, bit 7 clear. */
  lemma {:induction false} PackAddrAlone(a: Addr)
    requires ValidAddr(a)
    ensures Pack(AddrText(a), 0) == AddrBytes(a, false)
  {
    PackCallAlone(a, 0);
  }

  lemma {:induction false} PackCallAlone(a: Addr, k: nat)
    requires ValidAddr(a) && k <= |a.call|
    ensures PackFrom(AddrText(a), k, k) == CallField(a.call, k) + [SsidOctet(a.ssid, false)]
    decreases |a.call| - k
  {
    if k < |a.call| {
      assert AddrText(a)[k] == a.call[k];
      PackCallAlone(a, k + 1);
    } else if a.ssid == 0 {
      CallFieldPad(a.call, k);
      assert AddrText(a) == a.call;
      PackEnd(a.call, k);
    } else {
      PackSsidAlone(a);
    }
  }

  /** The SSID part of PackCallAlone: '-', the digits, the end of the text. */
  lemma PackSsidAlone(a: Addr)
    requires ValidAddr(a) && a.ssid != 0
    ensures PackFrom(AddrText(a), |a.call|, |a.call|) == CallField(a.call, |a.call|) + [SsidOctet(a.ssid, false)]
  {
    var k := |a.call|;
    var t := AddrText(a);
    CallFieldPad(a.call, k);
    var x := a.call + [DASH];
    assert t == x + Dec(a.ssid) && t[k] == DASH;
    PackStop(t, k, k);
    AtoiShift(x, Dec(a.ssid), 0);
    assert Dec(a.ssid) + [] == Dec(a.ssid);
    AtoiDec(a.ssid, []);
    assert t == a.call + [DASH] + Dec(a.ssid) + [];
    DashStar(a.call, a.ssid, []);
    SsidByteUnfold(t, k, a.ssid, false);
  }

  /** At the end of the text, every remaining position is padding. */
  lemma {:induction false} PackEnd(t: seq<bv8>, k: nat)
    requires k <= 6
    ensures PackFrom(t, |t|, k) == CallField([], k) + [SsidByte(t, |t|)]
    decreases 6 - k
  {
    if k < 6 {
      PackEnd(t, k + 1);
    }
  }

  /** The callsign characters from position `k` on, then the SSID byte. */
  lemma {:induction false} PackCall(a: Addr, rest: seq<bv8>, k: nat)
    requires ValidAddr(a) && Delimited(rest) && k <= |a.call|
    ensures PackFrom(AddrText(a) + rest, k, k) == CallField(a.call, k) + [SsidOctet(a.ssid, StarFirst(rest))]
    decreases |a.call| - k
  {
    var t := AddrText(a) + rest;
    if k < |a.call| {
      assert t[k] == a.call[k];
      PackCall(a, rest, k + 1);
    } else {
      assert t[k] == (if a.ssid == 0 then rest[0] else DASH);
      PackStop(t, k, k);
      CallFieldPad(a.call, k);
      PackAddrSsid(a, rest);
    }
  }

  /** Once the input cursor stands on a character that is not alphanumeric,
      every remaining position is padding. */
  lemma {:induction false} PackStop(t: seq<bv8>, i: nat, k: nat)
    requires i < |t| && !IsAlnum(t[i]) && k <= 6
    ensures PackFrom(t, i, k) == CallField([], k) + [SsidByte(t, i)]
    decreases 6 - k
  {
    if k < 6 {
      PackStop(t, i, k + 1);
    }
  }

  /** The SSID byte asc2AXcall writes after a canonical address. */
  lemma {:induction false} PackAddrSsid(a: Addr, rest: seq<bv8>)
    requires ValidAddr(a) && Delimited(rest)
    ensures SsidByte(AddrText(a) + rest, |a.call|) == SsidOctet(a.ssid, StarFirst(rest))
  {
    if a.ssid == 0 {
      assert AddrText(a) + rest == a.call + rest;
      SsidByteNoDash(a.call, rest);
    } else {
      assert AddrText(a) + rest == a.call + [DASH] + Dec(a.ssid) + rest;
      SsidByteDash(a.call, a.ssid, rest);
    }
  }

  /** Without a dash, the SSID is 0 and the '*' search starts right after the
      callsign. */
  lemma {:induction false} SsidByteNoDash(call: seq<bv8>, rest: seq<bv8>)
    requires Delimited(rest)
    ensures SsidByte(call + rest, |call|) == SsidOctet(0, StarFirst(rest))
  {
    var t := call + rest;
    assert t[|call|] == rest[0];
    FindAnyShift(call, rest, 0, MARKS);
    var m := FindAny(rest, 0, MARKS);
    if m.Some? {
      assert t[|call| + m.value] == rest[m.value];
    }
    SsidByteUnfold(t, |call|, 0, StarFirst(rest));
  }

  /** After a dash, atoi reads the SSID back and the '*' search starts right
      after the dash, skipping the digits. */
  lemma {:induction false} SsidByteDash(call: seq<bv8>, v: nat, rest: seq<bv8>)
    requires Delimited(rest)
    ensures SsidByte(call + [DASH] + Dec(v) + rest, |call|) == SsidOctet(v, StarFirst(rest))
  {
    var t := call + [DASH] + Dec(v) + rest;
    var n := |call|;
    assert t[n] == DASH;
    DashValue(call, v, rest);
    DashStar(call, v, rest);
    SsidByteUnfold(t, n, v, StarFirst(rest));
  }

  /** atoi after the dash reads the SSID back. */
  lemma {:induction false} DashValue(call: seq<bv8>, v: nat, rest: seq<bv8>)
    requires Delimited(rest)
    ensures |call| + 1 <= |call + [DASH] + Dec(v) + rest|
    ensures Atoi(call + [DASH] + Dec(v) + rest, |call| + 1) == v
  {
    assert call + [DASH] + Dec(v) + rest == (call + [DASH]) + (Dec(v) + rest);
    AtoiShift(call + [DASH], Dec(v) + rest, 0);
    AtoiDec(v, rest);
  }

  /** The '*' search from after the dash passes over the digits. */
  lemma {:induction false} DashStar(call: seq<bv8>, v: nat, rest: seq<bv8>)
    ensures var t := call + [DASH] + Dec(v) + rest;
      var m := FindAny(t, |call| + 1, MARKS);
      (m.Some? && t[m.value] == STAR) == StarFirst(rest)
  {
    DecDigits(v);
    DigitsStar(call + [DASH], Dec(v), rest);
  }

  /** The '*' search from the head of a run of digits passes over them. */
  lemma {:induction false} DigitsStar(x: seq<bv8>, digits: seq<bv8>, rest: seq<bv8>)
    requires forall i :: 0 <= i < |digits| ==> IsDigit(digits[i])
    ensures var t := x + digits + rest;
      var m := FindAny(t, |x|, MARKS);
      (m.Some? && t[m.value] == STAR) == StarFirst(rest)
  {
    var y := x + digits;
    var t := y + rest;
    forall k | |x| <= k < |y|
      ensures y[k] !in MARKS
    {
      assert y[k] == digits[k - |x|];
      DigitNotMark(y[k]);
    }
    FindAnySkip(y, rest, |x|, MARKS);
    var m := FindAny(rest, 0, MARKS);
    if m.Some? {
      assert t[|y| + m.value] == rest[m.value];
    }
  }

  /** SsidByte by cases, stated for the two lemmas above. */
  lemma {:induction false} SsidByteUnfold(t: seq<bv8>, n: nat, v: int, star: bool)
    requires n <= |t|
    requires var dash := n < |t| && t[n] == DASH;
      && v == (if dash then Atoi(t, n + 1) else 0)
      && var m := FindAny(t, if dash then n + 1 else n, MARKS);
         star == (m.Some? && t[m.value] == STAR)
    ensures SsidByte(t, n) == SsidOctet(v, star)
  {
  }

  lemma {:induction false} DigitNotMark(c: bv8)
    requires IsDigit(c)
    ensures c !in MARKS
  {
  }

  /** AXCall2asc undoes asc2AXcall on a canonical address, whatever its
      has-been-repeated bit. */
  lemma {:induction false} UnpackAddr(a: Addr, repeated: bool)
    requires ValidAddr(a)
    ensures Unpack(AddrBytes(a, repeated), 0) == AddrText(a)
  {
    var b := AddrBytes(a, repeated);
    var m := |a.call|;
    var chars := CallChars(b, 0);
    forall j | 0 <= j < m
      ensures chars[j] == a.call[j]
    {
      CallFieldAt(a.call, 0, j);
      assert b[j] == CallByte(a.call[j]);
      CallCharOfCallByte(a.call[j]);
    }
    if m < 6 {
      CallFieldAt(a.call, 0, m);
      assert b[m] == PAD;
    }
    assert chars[m..] == [] || chars[m] == 0;
    assert chars == a.call + chars[m..];
    TakeUntilNulOfNoNul(a.call, chars[m..]);
    assert Unpack(b, 0) == TakeUntilNul(chars) + SsidText(b[6]);
    assert b[6] == SsidOctet(a.ssid, repeated);
    SsidOfOctet(a.ssid, repeated);
    SsidTextDec(b[6]);
  }

  /** Shifting an alphanumeric back undoes asc2AXcall's shift, and never
      yields the padding byte. */
  lemma {:induction false} CallCharOfCallByte(c: bv8)
    requires IsAlnum(c)
    ensures CallByte(c) != PAD && CallChar(CallByte(c)) == c
  {
  }

  /** The SSID AXCall2asc reads from an SSID byte is the one stored. */
  lemma {:induction false} SsidOfOctet(v: nat, repeated: bool)
    requires v < 16
    ensures SsidOf(SsidOctet(v, repeated)) == v
  {
  }

  /** AXCall2asc does not look at the end-of-address bit. */
  lemma {:induction false} UnpackIgnoresEndBit(a: seq<bv8>, off: nat)
    requires off + 7 <= |a|
    ensures Unpack(a[off + 6 := a[off + 6] | END_BIT], off) == Unpack(a, off)
  {
    var a' := a[off + 6 := a[off + 6] | END_BIT];
    assert SsidText(a'[off + 6]) == SsidText(a[off + 6]);
    assert CallChars(a', off) == CallChars(a, off);
  }
}
