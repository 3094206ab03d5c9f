/** Poco's Timestamp (Foundation/src/Timestamp.cpp): a signed 64-bit count of
    microseconds since the UNIX epoch, with its conversions from epoch
    seconds, from UUID time (100-nanosecond ticks since 1582-10-15, the time
    base of section 4.1.4 of RFC 4122) and from and to Windows FILETIME
    (100-nanosecond ticks since 1601-01-01, split into two 32-bit words).
    Reading the system clock (update and the default constructor) is not part
    of this model. */
module Timestamp {
  import opened FixedWidth

  /** resolution(): microseconds per second. */
  const RESOLUTION: int := 1000000

  /** The UNIX epoch in UUID time, (0x01b21dd2 << 32) + 0x13814000. */
  const UTC_EPOCH: int := 0x01B2_1DD2_1381_4000

  /** The UNIX epoch as a FILETIME, high word 0x019DB1DE, low word 0xD53E8000. */
  const FILETIME_EPOCH: int := 0x019D_B1DE_D53E_8000

  /** C++ integer division, which truncates toward zero (d > 0). */
  function CDiv(a: int, d: int): (q: int)
    requires d > 0
    ensures a >= 0 ==> 0 <= a - d * q < d
    ensures a < 0 ==> -d < a - d * q <= 0
  {
    if a >= 0 then a / d else -((-a) / d)
  }

  /** fromEpochTime(t): t seconds as microseconds, in Int64 arithmetic. */
  function FromEpochTime(t: Int64): (ts: Int64)
    ensures (ts - t * RESOLUTION) % TWO_64 == 0
    ensures -TWO_63 <= t * RESOLUTION < TWO_63 ==> ts == t * RESOLUTION
  {
    WrapInt64(t * RESOLUTION)
  }

  /** fromUtcTime(val): the UUID time moved to the UNIX epoch and divided by
      10, truncating toward zero. */
  function FromUtcTime(v: Int64): (ts: Int64)
    ensures v - UTC_EPOCH >= 0 ==> 0 <= v - UTC_EPOCH - 10 * ts < 10
    ensures -TWO_63 <= v - UTC_EPOCH < 0 ==> -10 < v - UTC_EPOCH - 10 * ts <= 0
  {
    CDiv(WrapInt64(v - UTC_EPOCH), 10)
  }

  /** fromFileTimeNP(low, high): the 64-bit FILETIME minus the epoch, in
      unsigned 64-bit arithmetic, divided by 10. */
  function FromFileTimeNP(low: UInt32, high: UInt32): (ts: Int64)
    ensures var d := (high * TWO_32 + low - FILETIME_EPOCH) % TWO_64;
      0 <= ts && 10 * ts <= d < 10 * ts + 10
  {
    var d := (high * TWO_32 + low - FILETIME_EPOCH) % TWO_64;
    d / 10
  }

  class Timestamp {
    var ts: Int64

    /** Timestamp(tv). */
    constructor (tv: Int64)
      ensures ts == tv
    {
      ts := tv;
    }

    /** The copy constructor. */
    constructor Copy(other: Timestamp)
      ensures ts == other.ts
    {
      ts := other.ts;
    }

    /** operator = (const Timestamp&). */
    method Assign(other: Timestamp)
      modifies this
      ensures ts == old(other.ts) && other.ts == old(other.ts)
    {
      ts := other.ts;
    }

    /** operator = (TimeVal). */
    method AssignValue(tv: Int64)
      modifies this
      ensures ts == tv
    {
      ts := tv;
    }

    /** swap: exchanges the two values (nothing changes when both are one). */
    method Swap(other: Timestamp)
      modifies this, other
      ensures ts == old(other.ts) && other.ts == old(ts)
    {
      var t := ts;
      ts := other.ts;
      other.ts := t;
    }

    /** toFileTimeNP: _ts * 10 plus the epoch in unsigned 64-bit arithmetic,
        split into its low and high 32-bit words. */
    method ToFileTimeNP() returns (low: UInt32, high: UInt32)
      ensures high * TWO_32 + low == (ts * 10 + FILETIME_EPOCH) % TWO_64
    {
      var quad: UInt64 := WrapInt64(ts * 10) % TWO_64;
      quad := (quad + FILETIME_EPOCH) % TWO_64;
      low := quad % TWO_32;
      high := quad / TWO_32;
    }
  }

  /** Epoch seconds convert to whole seconds' worth of microseconds and back. */
  lemma FromEpochTimeSeconds(t: Int64)
    requires -TWO_63 <= t * RESOLUTION < TWO_63
    ensures FromEpochTime(t) % RESOLUTION == 0
    ensures CDiv(FromEpochTime(t), RESOLUTION) == t
  {
    var ts := FromEpochTime(t);
    assert ts == t * RESOLUTION;
    if ts < 0 {
      assert -ts == (-t) * RESOLUTION;
    }
  }

  /** UUID time built from a timestamp (ts * 10 + the epoch, as utcTime()
      in Timestamp.h computes it) converts back to the same timestamp. */
  lemma UtcRoundTrip(ts: Int64)
    requires -TWO_63 <= ts * 10 + UTC_EPOCH < TWO_63
    requires -TWO_63 <= ts * 10
    ensures FromUtcTime(ts * 10 + UTC_EPOCH) == ts
  {
    var r := FromUtcTime(ts * 10 + UTC_EPOCH);
    assert ts * 10 + UTC_EPOCH - UTC_EPOCH == ts * 10;
    assert -10 < 10 * (ts - r) < 10;
  }

  /** Ticks on either side of the UNIX epoch round toward it: 15 ticks
      before gives -1 (floor division would give -2), 15 ticks after gives 1,
      so the conversion is symmetric about the epoch. */
  lemma FromUtcTimeTruncates()
    ensures FromUtcTime(UTC_EPOCH - 15) == -1
    ensures FromUtcTime(UTC_EPOCH + 15) == 1
    ensures FromUtcTime(UTC_EPOCH - 15) == -FromUtcTime(UTC_EPOCH + 15)
  {
  }

  /** toFileTimeNP followed by fromFileTimeNP gives the timestamp back when
      ts * 10 is a non-negative 64-bit unsigned value. */
  lemma FileTimeRoundTrip(ts: Int64, low: UInt32, high: UInt32)
    requires 0 <= ts * 10 < TWO_64
    requires high * TWO_32 + low == (ts * 10 + FILETIME_EPOCH) % TWO_64
    ensures FromFileTimeNP(low, high) == ts
  {
    var q := high * TWO_32 + low;
    if ts * 10 + FILETIME_EPOCH < TWO_64 {
      assert q == ts * 10 + FILETIME_EPOCH;
    } else {
      assert q == ts * 10 + FILETIME_EPOCH - TWO_64;
      assert (q - FILETIME_EPOCH) % TWO_64 == ts * 10;
    }
  }

  /** A timestamp before the UNIX epoch does not survive the round trip: the
      unsigned subtraction in fromFileTimeNP wraps, so -1 comes back as
      (2^64 - 10) / 10. */
  lemma FileTimeBeforeEpoch(low: UInt32, high: UInt32)
    requires high * TWO_32 + low == (-1 * 10 + FILETIME_EPOCH) % TWO_64
    ensures FromFileTimeNP(low, high) == 1844674407370955160
  {
  }
}
