/** The byte-level edits DigiRules of digi.cpp makes to a received frame in
    place: finding the end of the address field, the destination-SSID rule
    (insert the station's address after the entries already repeated) and
    the WIDEn-N rule (count the entry down and put the station's address
    before it or in its place), and where the end-of-address bit ends up.

    `nc` is NodeCall, the station's address as asc2AXcall packs MYCALL. */
module DigiFrame {
  import opened Bytes
  import opened Callsign
  import opened FrameCodec
  import opened DecodeTrip

  const WIDEN_MAX: bv8 := 3
  /** "WIDE" as an address field holds it, each character shifted left. */
  const WIDE_CALL: seq<bv8> := [0xAE, 0x92, 0x88, 0x8A]

  /** An SSID byte with its SSID field replaced by `s`, as
      `(b & 0xE1) | (s << 1)`: reserved, has-been-repeated and
      end-of-address bits kept. */
  function WithSsid(b: bv8, s: bv8): bv8 {
    (b & 0xE1) | (s << 1)
  }

  /** The SSID field of an address byte. */
  function SsidBits(b: bv8): bv8 {
    (b & SSID_MASK) >> 1
  }

  /** Replacing the SSID field keeps every other bit and reads back. */
  lemma WithSsidKeeps(b: bv8, s: bv8)
    requires s <= 15
    ensures WithSsid(b, s) & END_BIT == b & END_BIT
    ensures WithSsid(b, s) & REPEATED == b & REPEATED
    ensures WithSsid(b, s) & 0x60 == b & 0x60
    ensures SsidBits(WithSsid(b, s)) == s
  {
  }

  // ---------------------------------------------------------------------
  // The address field

  /** The DataIndex loop: the first byte of `p[i..len]` with bit 0 set, or
      `len`. */
  function FirstOdd(p: seq<bv8>, i: nat, len: nat): (r: nat)
    requires i <= len <= |p|
    ensures i <= r <= len
    ensures r < len ==> p[r] & END_BIT != 0
    ensures forall j :: i <= j < r ==> p[j] & END_BIT == 0
    decreases len - i
  {
    if i == len then len else if p[i] & END_BIT != 0 then i else FirstOdd(p, i + 1, len)
  }

  /** DigiPoll's spot check: the first byte with bit 0 set lies within the
      frame, ends an address (its position plus one is a multiple of seven)
      and is not the destination's. */
  predicate Structured(p: seq<bv8>, len: nat)
    requires len <= |p|
  {
    var e := FirstOdd(p, 0, len);
    e < len && (e + 1) % 7 == 0 && e != 6
  }

  /** The number of path entries of a structured frame: its address field
      ends at byte 13 + 7 * EndHop. */
  function EndHop(p: seq<bv8>, len: nat): (m: nat)
    requires len <= |p| && Structured(p, len)
    ensures 13 + 7 * m == FirstOdd(p, 0, len) < len
  {
    (FirstOdd(p, 0, len) - 13) / 7
  }

  /** Only the last address of a structured frame carries the end bit. */
  lemma EndHopBits(p: seq<bv8>, len: nat, j: nat)
    requires len <= |p| && Structured(p, len) && j <= EndHop(p, len)
    ensures p[13 + 7 * j] & END_BIT != 0 <==> j == EndHop(p, len)
  {
    assert 13 + 7 * j <= FirstOdd(p, 0, len);
  }

  /** DecodeAX25 finds the same end of the address field. */
  lemma StructuredPathCount(p: seq<bv8>, len: nat)
    requires len <= |p| && Structured(p, len)
    ensures PathCount(p, 0) == Some(EndHop(p, len))
  {
    var m := EndHop(p, len);
    forall j | 0 <= j <= m
      ensures 13 + 7 * j < |p| && (LastAddr(p, j) <==> j == m)
    {
      EndHopBits(p, len, j);
    }
    PathCountFrom(p, 0, m);
  }

  /** The SSID of the destination address. */
  function DestSsid(p: seq<bv8>): bv8
    requires |p| >= 7
  {
    SsidBits(p[6])
  }

  // ---------------------------------------------------------------------
  // Moving the tail of the frame

  /** The copy loop `for (i = size - 1; i >= at; i--) p[i + 7] = p[i]`: the
      bytes `at..len` move up by seven, the seven bytes from `at` stay. */
  function Shift(p: seq<bv8>, at: nat, len: nat): (r: seq<bv8>)
    requires at <= len && len + 7 <= |p|
    ensures |r| == |p|
  {
    seq(|p|, i requires 0 <= i < |p| => if at + 7 <= i < len + 7 then p[i - 7] else p[i])
  }

  /** Shift is the copy of `p[at..len]` to `at + 7`. */
  lemma ShiftIsCopy(p: seq<bv8>, at: nat, len: nat)
    requires at <= len && len + 7 <= |p|
    ensures Shift(p, at, len) == Put(p, at + 7, p[at..len])
  {
    var y := p[at..len];
    var r := Put(p, at + 7, y);
    assert r == p[..at + 7] + y + p[len + 7..];
    forall q | at + 7 <= q < len + 7
      ensures r[q] == p[q - 7]
    {
      assert y[q - at - 7] == p[q - 7];
    }
  }

  /** The copy loop followed by a memcpy of `x` to `at`. */
  function Insert(p: seq<bv8>, at: nat, len: nat, x: seq<bv8>): (r: seq<bv8>)
    requires at <= len && |x| == 7 && len + 7 <= |p|
    ensures |r| == |p|
  {
    seq(|p|, i requires 0 <= i < |p| =>
      if at <= i < at + 7 then x[i - at] else if at + 7 <= i < len + 7 then p[i - 7] else p[i])
  }

  /** Insert is the memcpy of `x` over the shifted frame. */
  lemma InsertIsCopy(p: seq<bv8>, at: nat, len: nat, x: seq<bv8>)
    requires at <= len && |x| == 7 && len + 7 <= |p|
    ensures Insert(p, at, len, x) == Put(Shift(p, at, len), at, x)
  {
    var s := Shift(p, at, len);
    assert Put(s, at, x) == s[..at] + x + s[at + 7..];
  }

  // ---------------------------------------------------------------------
  // The destination-SSID rule

  /** The PathIndex loop of the destination-SSID rule: from entry `k`, skip
      entries while the address before holds no end bit and the entry has
      been repeated. The address field ends at entry `m`, so the loop stops
      there at the latest. */
  function SkipRepeated(p: seq<bv8>, k: nat, m: nat): (r: nat)
    requires k <= m && 13 + 7 * m < |p| && p[13 + 7 * m] & END_BIT != 0
    ensures k <= r <= m
    ensures forall j :: k <= j < r ==> p[20 + 7 * j] & REPEATED != 0
    ensures p[13 + 7 * r] & END_BIT != 0 || p[20 + 7 * r] & REPEATED == 0
    decreases m - k
  {
    if p[13 + 7 * k] & END_BIT == 0 && p[20 + 7 * k] & REPEATED != 0 then SkipRepeated(p, k + 1, m)
    else k
  }

  /** The frame with the destination SSID one lower. */
  function SsidDecremented(p: seq<bv8>): (r: seq<bv8>)
    requires |p| >= 7 && 1 <= DestSsid(p)
    ensures |r| == |p|
  {
    p[6 := WithSsid(p[6], DestSsid(p) - 1)]
  }

  /** The entry before which the station's address goes. */
  function SsidSlot(p: seq<bv8>, len: nat): (k: nat)
    requires len <= |p| && Structured(p, len) && 1 <= DestSsid(p)
    ensures k <= EndHop(p, len)
  {
    SkipRepeated(SsidDecremented(p), 0, EndHop(p, len))
  }

  /** The station's address `nc` inserted before byte `at`, marked
      repeated, taking over the end bit of the address before it. */
  function MarkInsert(p: seq<bv8>, at: nat, len: nat, nc: seq<bv8>): (r: seq<bv8>)
    requires 1 <= at <= len && |nc| == 7 && len + 7 <= |p|
    ensures |r| == |p|
  {
    var p2 := Insert(p, at, len, nc);
    var p3 := p2[at + 6 := p2[at + 6] | (p2[at - 1] & END_BIT) | REPEATED];
    p3[at - 1 := p3[at - 1] & 0xFE]
  }

  /** The end bits after MarkInsert before entry k: the address before the
      inserted one loses its end bit, the inserted one takes it over, the
      others keep theirs, moved up by one entry past the insertion. */
  lemma MarkInsertAt(p: seq<bv8>, k: nat, len: nat, nc: seq<bv8>, j: nat)
    requires 14 + 7 * k <= len && |nc| == 7 && len + 7 <= |p| && nc[6] & END_BIT == 0
    requires 13 + 7 * j < len + 7
    ensures var r := MarkInsert(p, 14 + 7 * k, len, nc);
      && (j < k ==> (LastAddr(r, j) <==> LastAddr(p, j)))
      && (j == k ==> !LastAddr(r, j))
      && (j == k + 1 ==> (LastAddr(r, j) <==> LastAddr(p, k)))
      && (j > k + 1 ==> (LastAddr(r, j) <==> LastAddr(p, j - 1)))
  {
    var q := 13 + 7 * j;
    if j == k + 1 {
      OrEndBit(nc[6], p[13 + 7 * k]);
    } else if j > k + 1 {
      assert q - 7 == 13 + 7 * (j - 1);
    }
  }

  /** The frame after the destination-SSID rule: the SSID decremented, the
      station's address `nc` inserted at entry SsidSlot, marked repeated,
      and the end bit moved to it from the address before when that one
      was the last. */
  function SsidEdit(p: seq<bv8>, len: nat, nc: seq<bv8>): (r: seq<bv8>)
    requires len + 7 <= |p| && |nc| == 7 && Structured(p, len) && 1 <= DestSsid(p)
    ensures |r| == |p|
  {
    MarkInsert(SsidDecremented(p), 14 + 7 * SsidSlot(p, len), len, nc)
  }

  /** Of the addresses up to the end of the address field only the last
      carries the end bit. */
  lemma EndBitAt(p: seq<bv8>, j: nat)
    requires PathCount(p, 0).Some? && j <= PathCount(p, 0).value
    ensures 13 + 7 * j < |p| && (p[13 + 7 * j] & END_BIT != 0 <==> j == PathCount(p, 0).value)
  {
    assert j < PathCount(p, 0).value ==> !LastAddr(p, j);
  }

  /** Inserting the station's address before entry `k`, within the
      address field, makes the field one entry longer. */
  lemma MarkInsertEnds(p: seq<bv8>, k: nat, len: nat, nc: seq<bv8>)
    requires PathCount(p, 0).Some? && k <= PathCount(p, 0).value
    requires 13 + 7 * PathCount(p, 0).value < len && len + 7 <= |p|
    requires |nc| == 7 && nc[6] & END_BIT == 0
    ensures PathCount(MarkInsert(p, 14 + 7 * k, len, nc), 0) == Some(PathCount(p, 0).value + 1)
  {
    var m := PathCount(p, 0).value;
    var at := 14 + 7 * k;
    var r := MarkInsert(p, at, len, nc);
    forall j | 0 <= j <= m + 1
      ensures 13 + 7 * j < |r| && (LastAddr(r, j) <==> j == m + 1)
    {
      MarkInsertAt(p, k, len, nc, j);
      if j <= k {
        EndBitAt(p, j);
      } else if j == k + 1 {
        EndBitAt(p, k);
      } else {
        EndBitAt(p, j - 1);
      }
    }
    PathCountFrom(r, 0, m + 1);
  }

  lemma OrEndBit(a: bv8, b: bv8)
    requires a & END_BIT == 0
    ensures (a | (b & END_BIT) | REPEATED) & END_BIT == b & END_BIT
  {
  }

  /** Decrementing the destination SSID leaves the address field's end
      where it was. */
  lemma SsidDecrementedEnds(p: seq<bv8>)
    requires |p| >= 7 && 1 <= DestSsid(p) && PathCount(p, 0).Some?
    ensures PathCount(SsidDecremented(p), 0) == PathCount(p, 0)
  {
    var m := PathCount(p, 0).value;
    var p1 := SsidDecremented(p);
    forall j | 0 <= j <= m
      ensures 13 + 7 * j < |p1| && (LastAddr(p1, j) <==> j == m)
    {
      EndBitAt(p, j);
    }
    PathCountFrom(p1, 0, m);
  }

  /** After the destination-SSID rule the address field ends one entry
      later. */
  lemma SsidFrameEnds(p: seq<bv8>, len: nat, nc: seq<bv8>)
    requires len + 7 <= |p| && |nc| == 7 && nc[6] & END_BIT == 0
    requires Structured(p, len) && 1 <= DestSsid(p)
    ensures PathCount(SsidEdit(p, len, nc), 0) == Some(EndHop(p, len) + 1)
  {
    StructuredPathCount(p, len);
    SsidDecrementedEnds(p);
    MarkInsertEnds(SsidDecremented(p), SsidSlot(p, len), len, nc);
  }

  // ---------------------------------------------------------------------
  // The WIDEn-N rule

  /** The path entry the WIDE rule looks at, from entry `k`: the first not
      yet repeated; none when the entries up to the last have all been. */
  function FirstUnrepeated(p: seq<bv8>, k: nat, m: nat): (r: Option<nat>)
    requires k < m && 13 + 7 * m < |p| && p[13 + 7 * m] & END_BIT != 0
    requires forall j :: k <= j && j + 1 < m ==> p[20 + 7 * j] & END_BIT == 0
    ensures r.Some? ==> k <= r.value < m && p[20 + 7 * r.value] & REPEATED == 0
    ensures forall j :: k <= j < (if r.Some? then r.value else m) ==> p[20 + 7 * j] & REPEATED != 0
    decreases m - k
  {
    if p[20 + 7 * k] & REPEATED == 0 then Some(k)
    else if p[20 + 7 * k] & END_BIT != 0 then None
    else FirstUnrepeated(p, k + 1, m)
  }

  /** The SSID of path entry k. */
  function HopSsid(p: seq<bv8>, k: nat): bv8
    requires 20 + 7 * k < |p|
  {
    SsidBits(p[20 + 7 * k])
  }

  /** Path entry k reads WIDEn-N with n and N from 1 to WIDEN_MAX; the sixth
      callsign byte is not looked at. */
  predicate IsWide(p: seq<bv8>, k: nat)
    requires 20 + 7 * k < |p|
  {
    var at := 14 + 7 * k;
    && p[at..at + 4] == WIDE_CALL
    && 1 <= HopSsid(p, k) <= WIDEN_MAX
    && 0x31 <= p[at + 4] >> 1 <= 0x30 + WIDEN_MAX
  }

  /** The station's address written over the entry at byte `at`: the
      callsign of `nc`, the SSID bits of `nc` and the has-been-repeated bit;
      the reserved and end-of-address bits of the byte that was there stay. */
  function Station(p: seq<bv8>, at: nat, nc: seq<bv8>): (r: seq<bv8>)
    requires at + 7 <= |p| && |nc| == 7
    ensures |r| == |p|
  {
    seq(|p|, i requires 0 <= i < |p| =>
      if at <= i < at + 6 then nc[i - at]
      else if i == at + 6 then (p[i] & 0xE1) | (nc[6] & SSID_MASK) | REPEATED
      else p[i])
  }

  /** Station is the copy of the six callsign bytes followed by the two
      updates of the SSID byte. */
  lemma StationIsCopy(p: seq<bv8>, at: nat, nc: seq<bv8>)
    requires at + 7 <= |p| && |nc| == 7
    ensures var p3 := Put(p, at, nc[..6]);
      var p4 := p3[at + 6 := (p3[at + 6] & 0xE1) | (nc[6] & SSID_MASK)];
      Station(p, at, nc) == p4[at + 6 := p4[at + 6] | REPEATED]
  {
    assert Put(p, at, nc[..6]) == p[..at] + nc[..6] + p[at + 6..];
  }

  lemma StationIndex(p: seq<bv8>, at: nat, nc: seq<bv8>, q: nat)
    requires at + 7 <= |p| && |nc| == 7 && q < |p|
    ensures var r := Station(p, at, nc);
      && (q == at + 6 ==> r[q] & END_BIT == p[q] & END_BIT && r[q] & REPEATED != 0)
      && (q == at + 6 ==> SsidBits(r[q]) == SsidBits(nc[6]))
  {
    StationBits(p[at + 6], nc[6]);
  }

  /** The station's SSID byte keeps the end bit of the byte it replaces and
      takes the SSID of `x`. */
  lemma StationBits(b: bv8, x: bv8)
    ensures var c := (b & 0xE1) | (x & SSID_MASK) | REPEATED;
      c & END_BIT == b & END_BIT && c & REPEATED != 0 && SsidBits(c) == SsidBits(x)
  {
  }

  /** The frame after the WIDEn-N rule on entry k, and its new length. N
      drops by one. While it stays above zero the entry moves up by seven
      bytes, with its SSID byte's end bit cleared at the old place, and the
      station's address goes before it; otherwise the station's address
      takes the entry's place. */
  function WideEdit(p: seq<bv8>, len: nat, nc: seq<bv8>, k: nat): (r: (seq<bv8>, nat))
    requires len + 7 <= |p| && |nc| == 7 && 21 + 7 * k <= len
    requires 1 <= HopSsid(p, k)
    ensures |r.0| == |p| && r.1 == if HopSsid(p, k) == 1 then len else len + 7
  {
    if HopSsid(p, k) == 1 then (Station(Counted(p, k), 14 + 7 * k, nc), len)
    else (Station(Moved(p, len, k), 14 + 7 * k, nc), len + 7)
  }

  /** The frame with N of entry k one lower. */
  function Counted(p: seq<bv8>, k: nat): (r: seq<bv8>)
    requires 20 + 7 * k < |p| && 1 <= HopSsid(p, k)
    ensures |r| == |p|
  {
    p[20 + 7 * k := WithSsid(p[20 + 7 * k], HopSsid(p, k) - 1)]
  }

  /** Counting N down keeps every other byte and the end bit. */
  lemma CountedIndex(p: seq<bv8>, k: nat, q: nat)
    requires 20 + 7 * k < |p| && 1 <= HopSsid(p, k) && q < |p|
    ensures q != 20 + 7 * k ==> Counted(p, k)[q] == p[q]
    ensures Counted(p, k)[q] & END_BIT == p[q] & END_BIT
  {
    WithSsidKeeps(p[20 + 7 * k], HopSsid(p, k) - 1);
  }

  /** The counted-down entry k moved up by seven bytes, with the end bit
      left in the old place cleared. */
  function Moved(p: seq<bv8>, len: nat, k: nat): (r: seq<bv8>)
    requires len + 7 <= |p| && 21 + 7 * k <= len && 1 <= HopSsid(p, k)
    ensures |r| == |p|
  {
    Shift(Counted(p, k), 14 + 7 * k, len)[20 + 7 * k := 0]
  }

  /** Replacing entry k by the station's address keeps the end bit of
      every address. */
  lemma WideReplaceAt(p: seq<bv8>, nc: seq<bv8>, k: nat, j: nat)
    requires 20 + 7 * k < |p| && 1 <= HopSsid(p, k) && |nc| == 7 && 13 + 7 * j < |p|
    ensures LastAddr(Station(Counted(p, k), 14 + 7 * k, nc), j) <==> LastAddr(p, j)
  {
    var at := 14 + 7 * k;
    var q := 13 + 7 * j;
    StationIndex(Counted(p, k), at, nc, q);
    CountedIndex(p, k, q);
  }

  /** When N reaches zero the station's address replaces the entry and the
      address field ends where it did. */
  lemma WideReplaceEnds(p: seq<bv8>, len: nat, nc: seq<bv8>, k: nat)
    requires PathCount(p, 0).Some? && k < PathCount(p, 0).value
    requires 13 + 7 * PathCount(p, 0).value < len && len + 7 <= |p| && |nc| == 7
    requires HopSsid(p, k) == 1
    ensures PathCount(WideEdit(p, len, nc, k).0, 0) == PathCount(p, 0)
  {
    var m := PathCount(p, 0).value;
    var r := WideEdit(p, len, nc, k).0;
    forall j | 0 <= j <= m
      ensures 13 + 7 * j < |r| && (LastAddr(r, j) <==> j == m)
    {
      WideReplaceAt(p, nc, k, j);
      EndBitAt(p, j);
    }
    PathCountFrom(r, 0, m);
  }

  /** The end bit of address j after the WIDE rule inserted the station's
      address before entry k. */
  lemma WideInsertAt(p: seq<bv8>, len: nat, nc: seq<bv8>, k: nat, j: nat)
    requires len + 7 <= |p| && 21 + 7 * k <= len && 1 <= HopSsid(p, k) && |nc| == 7
    requires 13 + 7 * j < len + 7
    ensures var r := Station(Moved(p, len, k), 14 + 7 * k, nc);
      && (j <= k ==> (LastAddr(r, j) <==> LastAddr(p, j)))
      && (j == k + 1 ==> !LastAddr(r, j))
      && (j > k + 1 ==> (LastAddr(r, j) <==> LastAddr(p, j - 1)))
  {
    var at := 14 + 7 * k;
    var p2 := Moved(p, len, k);
    var q := 13 + 7 * j;
    StationIndex(p2, at, nc, q);
    MovedIndex(p, len, k, q);
    if j > k + 1 {
      assert q - 7 == 13 + 7 * (j - 1);
    }
  }

  /** The bytes of Moved: before the entry as they were, the entry's seven
      bytes duplicated with the first copy's end bit cleared, the rest of
      the frame seven bytes up. */
  lemma MovedIndex(p: seq<bv8>, len: nat, k: nat, q: nat)
    requires len + 7 <= |p| && 21 + 7 * k <= len && 1 <= HopSsid(p, k) && q < |p|
    ensures q < 14 + 7 * k ==> Moved(p, len, k)[q] == p[q]
    ensures q == 20 + 7 * k ==> Moved(p, len, k)[q] == 0
    ensures 21 + 7 * k <= q < len + 7 && q != 27 + 7 * k ==> Moved(p, len, k)[q] == p[q - 7]
    ensures q == 27 + 7 * k ==> Moved(p, len, k)[q] & END_BIT == p[q - 7] & END_BIT
  {
    var at := 14 + 7 * k;
    WithSsidKeeps(p[at + 6], HopSsid(p, k) - 1);
  }

  /** While N stays above zero the station's address goes before the entry
      and the address field ends one entry later. */
  lemma WideInsertEnds(p: seq<bv8>, len: nat, nc: seq<bv8>, k: nat)
    requires PathCount(p, 0).Some? && k < PathCount(p, 0).value
    requires 13 + 7 * PathCount(p, 0).value < len && len + 7 <= |p| && |nc| == 7
    requires 2 <= HopSsid(p, k)
    ensures PathCount(WideEdit(p, len, nc, k).0, 0) == Some(PathCount(p, 0).value + 1)
  {
    var m := PathCount(p, 0).value;
    var r := WideEdit(p, len, nc, k).0;
    forall j | 0 <= j <= m + 1
      ensures 13 + 7 * j < |r| && (LastAddr(r, j) <==> j == m + 1)
    {
      WideInsertAt(p, len, nc, k, j);
      if j <= k {
        EndBitAt(p, j);
      } else if j > k + 1 {
        EndBitAt(p, j - 1);
      }
    }
    PathCountFrom(r, 0, m + 1);
  }

  /** After the WIDEn-N rule on a path entry before the last address, the
      address field still ends at the same entry, or one later when the
      station's address was inserted. */
  lemma WideFrameEnds(p: seq<bv8>, len: nat, nc: seq<bv8>, k: nat)
    requires PathCount(p, 0).Some? && k < PathCount(p, 0).value
    requires 13 + 7 * PathCount(p, 0).value < len && len + 7 <= |p| && |nc| == 7
    requires 1 <= HopSsid(p, k)
    ensures PathCount(WideEdit(p, len, nc, k).0, 0)
      == Some(if HopSsid(p, k) == 1 then PathCount(p, 0).value else PathCount(p, 0).value + 1)
  {
    if HopSsid(p, k) == 1 {
      WideReplaceEnds(p, len, nc, k);
    } else {
      WideInsertEnds(p, len, nc, k);
    }
  }
}
