/** The digipeater's time keeping (digi.cpp): deadlines on the 32-bit
    watchdog tick `wdt_clk`, compared so that they survive the tick's
    wrap-around, and the persistence draw of WaitClearChannel.

    A `uint32_t` is modelled as an integer below 2^32 and its wrapping
    arithmetic is written out with `%`. */
module Timer {
  import opened Bytes

  const TICKS: int := 0x1_0000_0000
  const HALF: int := 0x8000_0000

  type Tick = x: int | 0 <= x < TICKS

  /** `a + b` in `uint32_t` arithmetic. */
  function Add(a: Tick, b: Tick): (r: Tick)
    ensures r == a + b || r == a + b - TICKS
  {
    (a + b) % TICKS
  }

  /** `a - b` in `uint32_t` arithmetic. */
  function Sub(a: Tick, b: Tick): (r: Tick)
    ensures r == a - b || r == a - b + TICKS
  {
    (a - b) % TICKS
  }

  /** A 32-bit pattern read as a two's-complement `long`. */
  function Signed(x: Tick): (r: int)
    ensures -HALF <= r < HALF
    ensures (r - x) % TICKS == 0
  {
    if x < HALF then x else x - TICKS
  }

  /** TimerOverflow(value): true once the deadline `value` is behind the tick
      `clk`, that is when `value - clk`, wrapped to 32 bits and read as a
      signed `long`, is negative. */
  function TimerOverflow(value: Tick, clk: Tick): (r: bool)
    ensures r <==> HALF <= Sub(value, clk)
  {
    Signed(Sub(value, clk)) < 0
  }

  /** A deadline armed `k` ticks ahead, with k below 2^31, is not yet due:
      every timer the digipeater arms at `wdt_clk + interval` waits. */
  lemma DeadlineAhead(clk: Tick, k: Tick)
    requires k < HALF
    ensures !TimerOverflow(Add(clk, k), clk)
  {
  }

  /** A deadline armed `k` ticks past a later reading `after` of the tick
      is not yet due at the earlier tick `clk` either, as long as the
      time between the readings and `k` together stay below 2^31. */
  lemma DeadlineAheadLater(clk: Tick, after: Tick, k: Tick)
    requires Sub(after, clk) + k < HALF
    ensures !TimerOverflow(Add(after, k), clk)
  {
    assert Add(after, k) == Add(clk, Sub(after, clk) + k);
    DeadlineAhead(clk, Sub(after, clk) + k);
  }

  /** A deadline that lies `d` ticks behind the tick, 0 < d <= 2^31, is due,
      across the wrap-around of the tick as well. */
  lemma DeadlinePassed(value: Tick, d: Tick)
    requires 0 < d <= HALF
    ensures TimerOverflow(value, Add(value, d))
  {
  }

  /** Within half the tick range the wrap-safe test is the plain comparison
      of the deadline with the tick, both seen from a common origin `base`. */
  lemma OverflowIsBefore(value: Tick, clk: Tick, base: Tick)
    requires Sub(value, base) < HALF && Sub(clk, base) < HALF
    ensures TimerOverflow(value, clk) <==> Sub(value, base) < Sub(clk, base)
  {
  }

  const CHANNEL_PERSIST: int := 63

  /** The persistence loop of WaitClearChannel, with the values random(0,256)
      returns as `draws`: the slot-time waits are not modelled. The loop
      goes on while the draw exceeds CHANNEL_PERSIST, so the radio sends
      after the first draw of at most 63; `None` when no such draw comes. */
  method WaitClearChannel(draws: seq<int>) returns (slot: Option<nat>)
    ensures slot.Some? ==> slot.value < |draws| && draws[slot.value] <= CHANNEL_PERSIST
    ensures forall j :: 0 <= j < (if slot.Some? then slot.value else |draws|) ==> draws[j] > CHANNEL_PERSIST
  {
    var i := 0;
    while i < |draws|
      invariant i <= |draws|
      invariant forall j :: 0 <= j < i ==> draws[j] > CHANNEL_PERSIST
    {
      if draws[i] <= CHANNEL_PERSIST {
        return Some(i);
      }
      i := i + 1;
    }
    return None;
  }
}
