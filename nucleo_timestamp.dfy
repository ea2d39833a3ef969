/** The tick clock of the `nucleo_postcard` firmware: a 1 ms system tick count turned into the
    whole seconds and sub-second microseconds the time-protocol client asks for. Every
    operation is on the source's fixed-width unsigned types, so the verifier checks that no
    intermediate value overflows or underflows. */
module NucleoTimestamp {

  newtype u32 = x: int | 0 <= x < 0x1_0000_0000
  newtype u64 = x: int | 0 <= x < 0x1_0000_0000_0000_0000

  const TICKS_PER_SEC: u32 := 1_000

  /** The tick count captured by `init`; reading the hardware counter is not modelled. */
  datatype TimestampGen = TimestampGen(durationTicks: u32)

  /** Whole seconds elapsed: the largest s with s seconds' worth of ticks not exceeding the count. */
  function TimestampSec(gen: TimestampGen): (s: u64)
    ensures s as int * 1000 <= gen.durationTicks as int < (s as int + 1) * 1000
  {
    (gen.durationTicks / TICKS_PER_SEC) as u64
  }

  /** Sub-second part in microseconds: a whole number of milliseconds below one second. */
  function TimestampSubsecMicros(gen: TimestampGen): (us: u32)
    ensures us < 1_000_000 && us % 1_000 == 0
    ensures us as int == (gen.durationTicks as int % 1000) * 1000
  {
    (gen.durationTicks - TimestampSec(gen) as u32 * TICKS_PER_SEC) * 1_000
  }

  /** Seconds and microseconds together give back the tick count exactly, in microseconds. */
  lemma Reconstruction(gen: TimestampGen)
    ensures TimestampSec(gen) as int * 1_000_000 + TimestampSubsecMicros(gen) as int
         == gen.durationTicks as int * 1_000
  {
  }
}
