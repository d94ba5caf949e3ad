/** The duplicate table of digi.cpp: DUP_MAXFRAME slots, each holding the
    CRC of a frame's information field and the tick at which the entry
    lapses (0 marks an empty slot). TestDup looks a payload up and clears
    lapsed slots; AddDupList stores a payload in the first empty slot, or
    over the entry that lapses first when the table is full.

    The global `wdt_clk` is the parameter `clk`; the global table is the
    array `frames` the digipeater owns. */
module DupTable {
  import opened Timer
  import opened Crc16
  import opened Bytes

  const DUP_MAXFRAME: nat := 5
  /** Seconds an entry is kept. */
  const DUP_DELAY: Tick := 40

  datatype DupSlot = DupSlot(time: Tick, crc: bv16)

  const EMPTY: DupSlot := DupSlot(0, 0)

  /** The slot after TestDup's clearing step at tick `clk`. */
  function Expire(s: DupSlot, clk: Tick): DupSlot {
    if TimerOverflow(s.time, clk) then s.(time := 0) else s
  }

  /** The table after TestDup's clearing pass. */
  function Expired(t: seq<DupSlot>, clk: Tick): (r: seq<DupSlot>)
    ensures |r| == |t|
  {
    seq(|t|, i requires 0 <= i < |t| => Expire(t[i], clk))
  }

  /** A slot that is occupied and has not lapsed at `clk`. */
  predicate Live(s: DupSlot, clk: Tick) {
    s.time != 0 && !TimerOverflow(s.time, clk)
  }

  /** TestDup's verdict: some live slot carries the key. */
  predicate Holds(t: seq<DupSlot>, key: bv16, clk: Tick) {
    exists i :: 0 <= i < |t| && Live(t[i], clk) && t[i].crc == key
  }

  /** TestDup(p, size): computes the payload's CRC, clears every lapsed slot
      and reports whether a live slot holds that CRC. */
  method TestDup(frames: array<DupSlot>, p: seq<bv8>, clk: Tick) returns (dup: bool)
    modifies frames
    ensures frames[..] == Expired(old(frames[..]), clk)
    ensures dup == Holds(old(frames[..]), Crc(p), clk)
  {
    ghost var t := frames[..];
    var key := PayloadCrc(p);
    dup := false;
    var i := 0;
    while i < frames.Length
      invariant 0 <= i <= frames.Length
      invariant frames[..i] == Expired(t, clk)[..i]
      invariant frames[i..] == t[i..]
      invariant dup <==> exists j :: 0 <= j < i && Live(t[j], clk) && t[j].crc == key
    {
      assert frames[i] == t[i];
      if TimerOverflow(frames[i].time, clk) {
        frames[i] := frames[i].(time := 0);
      }
      assert frames[..i + 1] == Expired(t, clk)[..i + 1];
      assert frames[i + 1..] == t[i + 1..];
      if frames[i].time != 0 && frames[i].crc == key {
        dup := true;
      }
      i := i + 1;
    }
    assert frames[..] == frames[..i];
  }

  /** The first empty slot, searched from `i`. */
  function FirstEmptyFrom(t: seq<DupSlot>, i: nat): (r: Option<nat>)
    requires i <= |t|
    ensures r.Some? ==> i <= r.value < |t| && t[r.value].time == 0
    ensures forall j :: i <= j < (if r.Some? then r.value else |t|) ==> t[j].time != 0
    decreases |t| - i
  {
    if i == |t| then None
    else if t[i].time == 0 then Some(i)
    else FirstEmptyFrom(t, i + 1)
  }

  /** The slot of the oldest-lapsing entry among t[0..|t|), scanning from
      `i` with `o` the best so far: a later slot wins only when its time is
      strictly before the best one's, read as a signed 32-bit difference. */
  function OldestFrom(t: seq<DupSlot>, i: nat, o: nat): (r: nat)
    requires o < i <= |t|
    ensures r < |t|
    decreases |t| - i
  {
    if i == |t| then o
    else OldestFrom(t, i + 1, if TimerOverflow(t[i].time, t[o].time) then i else o)
  }

  /** The slot AddDupList overwrites. */
  function AddIndex(t: seq<DupSlot>): (r: nat)
    requires 0 < |t|
    ensures r < |t|
    ensures (exists j :: 0 <= j < |t| && t[j].time == 0) ==>
      t[r].time == 0 && forall j :: 0 <= j < r ==> t[j].time != 0
  {
    var e := FirstEmptyFrom(t, 0);
    if e.Some? then e.value else OldestFrom(t, 1, 0)
  }

  /** The table after AddDupList stores `key` at tick `clk`. */
  function Added(t: seq<DupSlot>, key: bv16, clk: Tick): seq<DupSlot>
    requires 0 < |t|
  {
    t[AddIndex(t) := DupSlot(Add(clk, DUP_DELAY), key)]
  }

  /** AddDupList(p, size): stores the payload's CRC with the deadline
      `clk + DUP_DELAY` in the slot AddIndex chooses. */
  method AddDupList(frames: array<DupSlot>, p: seq<bv8>, clk: Tick)
    requires 0 < frames.Length
    modifies frames
    ensures frames[..] == Added(old(frames[..]), Crc(p), clk)
  {
    var key := PayloadCrc(p);
    var i := 0;
    while i < frames.Length
      invariant 0 <= i <= frames.Length
      invariant FirstEmptyFrom(frames[..], i) == FirstEmptyFrom(frames[..], 0)
    {
      if frames[i].time == 0 {
        frames[i] := DupSlot(Add(clk, DUP_DELAY), key);
        return;
      }
      i := i + 1;
    }
    var oldest := 0;
    var oldestTime := frames[0].time;
    i := 1;
    while i < frames.Length
      invariant 1 <= i <= frames.Length
      invariant oldest < i && oldestTime == frames[oldest].time
      invariant OldestFrom(frames[..], i, oldest) == OldestFrom(frames[..], 1, 0)
    {
      if Signed(Sub(frames[i].time, oldestTime)) < 0 {
        oldest := i;
        oldestTime := frames[i].time;
      }
      i := i + 1;
    }
    frames[oldest] := DupSlot(Add(clk, DUP_DELAY), key);
  }

  /** Clearing twice clears nothing more. */
  lemma ExpireTwice(t: seq<DupSlot>, clk: Tick)
    ensures Expired(Expired(t, clk), clk) == Expired(t, clk)
  {
  }

  /** Clearing keeps every key and empties exactly the slots that are not
      live. */
  lemma ExpiredSlots(t: seq<DupSlot>, clk: Tick, i: nat)
    requires i < |t|
    ensures Expired(t, clk)[i].crc == t[i].crc
    ensures Expired(t, clk)[i].time != 0 <==> Live(t[i], clk)
    ensures Live(t[i], clk) ==> Expired(t, clk)[i] == t[i]
  {
  }

  /** A second TestDup at the same tick gives the same verdict. */
  lemma HoldsAfterExpire(t: seq<DupSlot>, key: bv16, clk: Tick)
    ensures Holds(Expired(t, clk), key, clk) == Holds(t, key, clk)
  {
    if Holds(t, key, clk) {
      var i :| 0 <= i < |t| && Live(t[i], clk) && t[i].crc == key;
      assert Expired(t, clk)[i] == t[i];
    }
    if Holds(Expired(t, clk), key, clk) {
      var i :| 0 <= i < |t| && Live(Expired(t, clk)[i], clk) && Expired(t, clk)[i].crc == key;
      assert Expired(t, clk)[i] == t[i];
    }
  }

  /** A frame just stored is found by TestDup at the same tick, unless the
      deadline `clk + DUP_DELAY` wraps to 0, the empty mark. */
  lemma AddThenTest(t: seq<DupSlot>, key: bv16, clk: Tick)
    requires 0 < |t|
    requires Add(clk, DUP_DELAY) != 0
    ensures Holds(Added(t, key, clk), key, clk)
  {
    DeadlineAhead(clk, DUP_DELAY);
    var i := AddIndex(t);
    assert Live(Added(t, key, clk)[i], clk);
  }

  /** At tick 2^32 - 40 the deadline wraps to 0: the entry AddDupList
      stores reads as an empty slot and TestDup does not find it. */
  lemma AddThenTestWraps(key: bv16)
    ensures !Holds(Added([EMPTY, EMPTY, EMPTY, EMPTY, EMPTY], key, TICKS - 40), key, TICKS - 40)
  {
    var t := [EMPTY, EMPTY, EMPTY, EMPTY, EMPTY];
    assert AddIndex(t) == 0;
    var a := Added(t, key, TICKS - 40);
    assert a[0].time == 0;
    assert forall i :: 0 <= i < |a| ==> a[i].time == 0;
  }

  /** The key of slot `j` seen from tick `base`: how far its time lies
      ahead. */
  function Ahead(t: seq<DupSlot>, j: nat, base: Tick): Tick
    requires j < |t|
  {
    Sub(t[j].time, base)
  }

  /** OldestFrom picks the slot whose time comes first when every time lies
      less than 2^31 ticks ahead of `base`, keeping the lowest slot among
      equal times. */
  lemma {:induction false} OldestFromIsFirst(t: seq<DupSlot>, i: nat, o: nat, base: Tick)
    requires o < i <= |t|
    requires forall j :: 0 <= j < |t| ==> Ahead(t, j, base) < HALF
    requires forall j :: 0 <= j < i ==> Ahead(t, o, base) <= Ahead(t, j, base)
    requires forall j :: 0 <= j < o ==> Ahead(t, o, base) < Ahead(t, j, base)
    ensures forall j :: 0 <= j < |t| ==> Ahead(t, OldestFrom(t, i, o), base) <= Ahead(t, j, base)
    ensures forall j :: 0 <= j < OldestFrom(t, i, o) ==> Ahead(t, OldestFrom(t, i, o), base) < Ahead(t, j, base)
    decreases |t| - i
  {
    if i < |t| {
      assert Ahead(t, i, base) < HALF && Ahead(t, o, base) < HALF;
      OverflowIsBefore(t[i].time, t[o].time, base);
      var o' := if TimerOverflow(t[i].time, t[o].time) then i else o;
      OldestFromIsFirst(t, i + 1, o', base);
    }
  }

  /** When the table is full right after TestDup's clearing pass at `clk`,
      AddDupList overwrites the entry that lapses soonest (the lowest slot
      among equals). */
  lemma FullEvictsSoonest(t0: seq<DupSlot>, clk: Tick)
    requires 0 < |t0|
    requires forall j :: 0 <= j < |t0| ==> Expired(t0, clk)[j].time != 0
    ensures var t := Expired(t0, clk);
      forall j :: 0 <= j < |t| ==> Ahead(t, AddIndex(t), clk) <= Ahead(t, j, clk)
    ensures var t := Expired(t0, clk);
      forall j :: 0 <= j < AddIndex(t) ==> Ahead(t, AddIndex(t), clk) < Ahead(t, j, clk)
  {
    var t := Expired(t0, clk);
    forall j | 0 <= j < |t|
      ensures Ahead(t, j, clk) < HALF
    {
      ExpiredSlots(t0, clk, j);
    }
    OldestFromIsFirst(t, 1, 0, clk);
  }
}
