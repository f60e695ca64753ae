/** The silent-mode window of reParams: a time window, packed as the decimal number
    HHMMHHMM (start, then end), during which the device keeps quiet. `Monitor` holds
    the module statics `stateSilentMode` and `cbSilentMode` and runs `silentModeCheck`. */
module SilentMode {

  newtype uint32 = x: int | 0 <= x < 0x1_0000_0000

  /** Conversion to `uint16_t`: keeps the low 16 bits. */
  function ToUint16(x: int): (r: int)
    ensures 0 <= r < 0x1_0000
    ensures 0 <= x < 0x1_0000 ==> r == x
  {
    x % 0x1_0000
  }

  /** Conversion to `int16_t`: two's-complement wrap-around. */
  function ToInt16(x: int): (r: int)
    ensures -0x8000 <= r < 0x8000
    ensures -0x8000 <= x < 0x8000 ==> r == x
  {
    var m := x % 0x1_0000;
    if m >= 0x8000 then m - 0x1_0000 else m
  }

  /** `t1`: the start of the window, HHMM. */
  function WindowStart(ts: uint32): int
  {
    ToUint16(ts as int / 10000)
  }

  /** `t2`: the end of the window, HHMM. */
  function WindowEnd(ts: uint32): int
  {
    ts as int % 10000
  }

  /** `t0`: the current time of day as HHMM. */
  function Clock(hour: int, minute: int): int
  {
    ToInt16(hour * 100 + minute)
  }

  /** The mode `silentModeCheck` computes for the window `ts` at `hour:minute`. */
  function InWindow(ts: uint32, hour: int, minute: int): (silent: bool)
    ensures var start, end, now := WindowStart(ts), WindowEnd(ts), Clock(hour, minute);
      start < end ==> (silent <==> start <= now < end)
    ensures var start, end, now := WindowStart(ts), WindowEnd(ts), Clock(hour, minute);
      end <= start ==> (silent <==> now >= start || now < end)
  {
    var t1, t2, t0 := WindowStart(ts), WindowEnd(ts), Clock(hour, minute);
    if t1 < t2 then t0 >= t1 && t0 < t2 else !(t0 >= t2 && t1 > t0)
  }

  /** For a normalised `struct tm` the clock reading is exactly hour * 100 + minute. */
  lemma ClockOfNormalisedTime(hour: int, minute: int)
    requires 0 <= hour < 24 && 0 <= minute < 60
    ensures Clock(hour, minute) == hour * 100 + minute
  {
  }

  /** The HHMMHHMM number for a window from `start` to `end`. */
  function Pack(start: nat, end: nat): (ts: uint32)
    requires start < 10000 && end < 10000
    ensures WindowStart(ts) == start && WindowEnd(ts) == end
  {
    var n := start * 10000 + end;
    assert n / 10000 == start && n % 10000 == end by {
      DivModUnique(n, start, end);
    }
    n as uint32
  }

  lemma DivModUnique(n: int, q: int, r: int)
    requires 0 <= r < 10000 && n == q * 10000 + r
    ensures n / 10000 == q && n % 10000 == r
  {
  }

  /** A window whose start equals its end covers the whole day. */
  lemma EmptyWindowAlwaysSilent(ts: uint32, hour: int, minute: int)
    requires WindowStart(ts) == WindowEnd(ts)
    ensures InWindow(ts, hour, minute)
  {
  }

  /** Swapping start and end of a proper window gives exactly the complementary window:
      at every time of day one of the two is silent and the other is not. */
  lemma SwappedWindowIsComplement(start: nat, end: nat, hour: int, minute: int)
    requires start < 10000 && end < 10000 && start != end
    ensures InWindow(Pack(start, end), hour, minute) != InWindow(Pack(end, start), hour, minute)
  {
  }

  /** The state flag after one check: a zero window leaves it alone, otherwise it follows
      the window. */
  function NextMode(state: bool, ts: uint32, hour: int, minute: int): (next: bool)
    ensures ts == 0 ==> next == state
    ensures ts != 0 ==> next == InWindow(ts, hour, minute)
  {
    if ts > 0 then InWindow(ts, hour, minute) else state
  }

  /** Running the check twice with the same inputs changes nothing the second time. */
  lemma NextModeIdempotent(state: bool, ts: uint32, hour: int, minute: int)
    ensures var once := NextMode(state, ts, hour, minute);
      NextMode(once, ts, hour, minute) == once
  {
  }

  /** The module statics `stateSilentMode` and `cbSilentMode`; `notified` records the
      arguments of every call of the callback. */
  class Monitor {
    var state: bool
    var hasCallback: bool
    var notified: seq<bool>

    constructor ()
      ensures !state && !hasCallback && notified == []
    {
      state := false;
      hasCallback := false;
      notified := [];
    }

    /** `isSilentMode` */
    method IsSilentMode() returns (silent: bool)
      ensures silent == state
    {
      silent := state;
    }

    /** `silentModeSetCallback`: installs (or with `false`, clears) the callback. */
    method SetCallback(installed: bool)
      modifies this`hasCallback
      ensures hasCallback == installed
    {
      hasCallback := installed;
    }

    /** `silentModeCheck`: recompute the mode; only when it differs from the stored one
        does the flag change and the callback run, with the new mode. */
    method Check(ts: uint32, hour: int, minute: int)
      modifies this`state, this`notified
      ensures state == NextMode(old(state), ts, hour, minute)
      ensures notified == old(notified) +
        (if state != old(state) && hasCallback then [state] else [])
    {
      if ts > 0 {
        var t1 := WindowStart(ts);
        var t2 := WindowEnd(ts);
        var t0 := Clock(hour, minute);
        var newSilentMode := if t1 < t2 then t0 >= t1 && t0 < t2 else !(t0 >= t2 && t1 > t0);
        if state != newSilentMode {
          state := newSilentMode;
          if hasCallback {
            notified := notified + [state];
          }
        }
      }
    }
  }
}
