/** DoCRC of digi.cpp: the bitwise, reflected CRC-16 (polynomial 0x8408,
    seed 0xFFFF, no final XOR) that keys the duplicate table.

    The register is a `bv16`; the data byte is promoted to 16 bits as C
    promotes an `unsigned char`. */
module Crc16 {

  const POLY: bv16 := 0x8408
  const SEED: bv16 := 0xFFFF

  /** POLY when bit 0 of `b` is set, 0 otherwise. */
  function PolyIf(b: bv16): bv16 {
    POLY & -(b & 1)
  }

  /** One round of DoCRC's loop: the register shifts right and the
      polynomial is folded in when the low bits of the register and of the
      data differ. */
  function BitStep(crc: bv16, c: bv16): bv16 {
    (crc >> 1) ^ PolyIf(crc ^ c)
  }

  /** The last `n` rounds of DoCRC, when `c` holds the data bits still to
      come. */
  function CrcBits(crc: bv16, c: bv16, n: nat): bv16
    requires n <= 8
    decreases n
  {
    if n == 0 then crc else CrcBits(BitStep(crc, c), c >> 1, n - 1)
  }

  /** DoCRC(crc, c): the CRC register after the eight data bits of `c`,
      least significant first. */
  function CrcByte(crc: bv16, c: bv8): bv16 {
    CrcBits(crc, Promote(c), 8)
  }

  /** An `unsigned char` promoted to 16 bits, written bit by bit. */
  function Promote(c: bv8): (r: bv16)
    ensures r < 0x100
  {
    (if c & 0x01 != 0 then 0x01 else 0) | (if c & 0x02 != 0 then 0x02 else 0)
    | (if c & 0x04 != 0 then 0x04 else 0) | (if c & 0x08 != 0 then 0x08 else 0)
    | (if c & 0x10 != 0 then 0x10 else 0) | (if c & 0x20 != 0 then 0x20 else 0)
    | (if c & 0x40 != 0 then 0x40 else 0) | (if c & 0x80 != 0 then 0x80 else 0)
  }

  /** One round of DoCRC as the loop body writes it. */
  lemma BitStepIs(crc: bv16, c: bv16)
    ensures BitStep(crc, c) == if (crc ^ (c & 1)) & 1 != 0 then (crc >> 1) ^ POLY else crc >> 1
  {
  }

  /** DoCRC as the source writes it: eight rounds of a loop that shifts the
      register and the data byte (held promoted to 16 bits). */
  method DoCRC(crc0: bv16, c0: bv8) returns (crc: bv16)
    ensures crc == CrcByte(crc0, c0)
  {
    crc := crc0;
    var c := Promote(c0);
    for i := 0 to 8
      invariant CrcBits(crc, c, 8 - i) == CrcByte(crc0, c0)
    {
      BitStepIs(crc, c);
      var xorInt := crc ^ (c & 1);
      crc := crc >> 1;
      if xorInt & 1 != 0 {
        crc := crc ^ POLY;
      }
      c := c >> 1;
    }
  }

  /** The CRC of the bytes `p` folded onto the register `crc`. */
  function CrcFrom(crc: bv16, p: seq<bv8>): bv16
    decreases |p|
  {
    if |p| == 0 then crc else CrcFrom(CrcByte(crc, p[0]), p[1..])
  }

  /** The key TestDup and AddDupList compute for a payload. */
  function Crc(p: seq<bv8>): bv16 {
    CrcFrom(SEED, p)
  }

  /** Folding a payload in two pieces is folding it at once. */
  lemma {:induction false} CrcFromAppend(crc: bv16, p: seq<bv8>, q: seq<bv8>)
    ensures CrcFrom(crc, p + q) == CrcFrom(CrcFrom(crc, p), q)
    decreases |p|
  {
    if |p| > 0 {
      var crc' := CrcByte(crc, p[0]);
      assert (p + q)[0] == p[0];
      assert (p + q)[1..] == p[1..] + q;
      assert CrcFrom(crc, p + q) == CrcFrom(crc', p[1..] + q);
      CrcFromAppend(crc', p[1..], q);
    } else {
      assert p + q == q;
    }
  }

  /** The payload loop of TestDup and AddDupList. */
  method PayloadCrc(p: seq<bv8>) returns (crc: bv16)
    ensures crc == Crc(p)
  {
    crc := SEED;
    for i := 0 to |p|
      invariant crc == CrcFrom(SEED, p[..i])
    {
      CrcFromAppend(SEED, p[..i], [p[i]]);
      assert p[..i + 1] == p[..i] + [p[i]];
      crc := DoCRC(crc, p[i]);
    }
    assert p[..|p|] == p;
  }

  /** The register after "123456789" is 0x6F91, the check value of this
      CRC (known as CRC-16/MCRF4XX). */
  lemma CheckValue()
    ensures Crc([0x31, 0x32, 0x33, 0x34, 0x35, 0x36, 0x37, 0x38, 0x39]) == 0x6F91
  {
    assert CrcByte(0xFFFF, 0x31) == 0x2F8D;
    assert CrcByte(0x2F8D, 0x32) == 0x4D53;
    assert CrcByte(0x4D53, 0x33) == 0x634B;
    assert CrcByte(0x634B, 0x34) == 0x8B13;
    assert CrcByte(0x8B13, 0x35) == 0x44BF;
    assert CrcByte(0x44BF, 0x36) == 0x198D;
    assert CrcByte(0x198D, 0x37) == 0x1AC8;
    assert CrcByte(0x1AC8, 0x38) == 0xF795;
    assert CrcByte(0xF795, 0x39) == 0x6F91;
  }

  /** The low and the high byte of the register, the order in which a
      reflected CRC is appended to the bytes it covers. */
  function LowByte(x: bv16): bv8 {
    (x & 0xFF) as bv8
  }

  function HighByte(x: bv16): bv8 {
    (x >> 8) as bv8
  }

  /** The low `n` bits of `x` and `y` agree. */
  predicate Agree(x: bv16, y: bv16, n: nat)
    decreases n
  {
    n == 0 || ((x ^ y) & 1 == 0 && Agree(x >> 1, y >> 1, n - 1))
  }

  /** `x` shifted right one bit at a time, `n` times. */
  function Shifted(x: bv16, n: nat): bv16
    decreases n
  {
    if n == 0 then x else Shifted(x >> 1, n - 1)
  }

  /** Rounds whose data bits equal the register's low bits only shift the
      register: the polynomial is never folded in. */
  lemma {:induction false} Drain(x: bv16, y: bv16, n: nat)
    requires n <= 8 && Agree(x, y, n)
    ensures CrcBits(x, y, n) == Shifted(x, n)
    decreases n
  {
    if n > 0 {
      assert BitStep(x, y) == x >> 1;
      Drain(x >> 1, y >> 1, n - 1);
    }
  }

  /** Eight rounds whose data bits are the register's own low byte shift
      that byte out. */
  lemma DrainByte(x: bv16)
    ensures CrcBits(x, x & 0xFF, 8) == x >> 8
  {
    assert Agree(x, x & 0xFF, 8);
    Drain(x, x & 0xFF, 8);
    assert Shifted(x, 8) == x >> 8;
  }

  lemma PromoteIs(c: bv8)
    ensures Promote(c) == c as bv16
  {
  }

  /** Folding the register's own two bytes, low byte first, into it clears
      it. */
  lemma ResidueByte(crc: bv16)
    ensures CrcByte(CrcByte(crc, LowByte(crc)), HighByte(crc)) == 0
  {
    PromoteIs(LowByte(crc));
    PromoteIs(HighByte(crc));
    DrainByte(crc);
    DrainByte(crc >> 8);
  }

  /** The residue property of a reflected CRC without final XOR: a payload
      followed by its own CRC, low byte first, has CRC 0. Together with the
      check value it ties Crc to CRC-16/MCRF4XX. */
  lemma CrcResidue(p: seq<bv8>)
    ensures Crc(p + [LowByte(Crc(p)), HighByte(Crc(p))]) == 0
  {
    var crc := Crc(p);
    CrcFromAppend(SEED, p, [LowByte(crc), HighByte(crc)]);
    ResidueByte(crc);
    var lo, hi := LowByte(crc), HighByte(crc);
    assert [lo, hi][1..] == [hi];
    assert CrcFrom(crc, [lo, hi]) == CrcFrom(CrcByte(crc, lo), [hi]);
    assert CrcFrom(CrcByte(crc, lo), [hi]) == CrcFrom(CrcByte(CrcByte(crc, lo), hi), []);
  }
}
