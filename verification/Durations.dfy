/** Durations and their conversion to a 32-bit count of microseconds. */
module Durations {
  import opened Basics

  /** Whole seconds and nanoseconds below one second. */
  datatype Duration = Duration(secs: u64, nanos: u32)

  predicate Normal(d: Duration) {
    d.nanos < 1_000_000_000
  }

  function FromMillis(ms: u64): (d: Duration)
    ensures Normal(d)
    ensures d.secs * 1000 + d.nanos / 1_000_000 == ms && d.nanos % 1_000_000 == 0
  {
    Duration(ms / 1000, (ms % 1000) * 1_000_000)
  }

  function CheckedU64(x: nat): Option<u64> {
    if x < 0x1_0000_0000_0000_0000 then Some(x) else None
  }

  /** The checked conversion of the source, one checked step after the other: it succeeds exactly
      when the unbounded value is below 2^32 - 1, and is then that value. */
  function AsMicros32(d: Duration): (r: Outcome<u32>)
    ensures r == if d.secs * 1_000_000 + d.nanos / 1000 < 0xffff_ffff then Ok(d.secs * 1_000_000 + d.nanos / 1000) else Err(Overflow)
  {
    match CheckedU64(d.secs * 1_000_000)
    case None => Err(Overflow)
    case Some(us) =>
      match CheckedU64(us + d.nanos / 1000)
      case None => Err(Overflow)
      case Some(x) => if x >= 0xffff_ffff then Err(Overflow) else Ok(x)
  }

  /** The bus reset command accepts exactly durations up to 4294967 ms. */
  lemma MillisAccepted(ms: u32)
    ensures AsMicros32(FromMillis(ms)) == if ms <= 4_294_967 then Ok(1000 * ms) else Err(Overflow)
  {
  }
}
