/**
 * The store's counter record (`bucketstorestats`): ten unsigned 64-bit counters,
 * each of which wraps around on overflow as Go's `uint64` addition does.
 */
module StoreStats {
  import opened Items

  const Modulus64: int := 0x1_0000_0000_0000_0000

  /** `a + b` on `uint64`. */
  function Add64(a: U64, b: U64): (r: U64)
    ensures a + b < Modulus64 ==> r == a + b
    ensures a + b >= Modulus64 ==> r == a + b - Modulus64
  {
    (a + b) % Modulus64
  }

  /** A value copy of the ten counters. */
  datatype Counters = Counters(
    totFlush: U64, totRead: U64, totWrite: U64, totStat: U64,
    flushErrors: U64, readErrors: U64, writeErrors: U64, statErrors: U64,
    readBytes: U64, writeBytes: U64)

  const Zero := Counters(0, 0, 0, 0, 0, 0, 0, 0, 0, 0)

  /** Field-by-field wrap-around sum. */
  function Sum(a: Counters, b: Counters): Counters {
    Counters(
      Add64(a.totFlush, b.totFlush), Add64(a.totRead, b.totRead),
      Add64(a.totWrite, b.totWrite), Add64(a.totStat, b.totStat),
      Add64(a.flushErrors, b.flushErrors), Add64(a.readErrors, b.readErrors),
      Add64(a.writeErrors, b.writeErrors), Add64(a.statErrors, b.statErrors),
      Add64(a.readBytes, b.readBytes), Add64(a.writeBytes, b.writeBytes))
  }

  /** Adding into a zero record yields an exact copy: `Stats()` returns the counters unchanged. */
  lemma SumZeroLeft(c: Counters)
    ensures Sum(Zero, c) == c
  {
  }

  class Stats {
    var totFlush: U64
    var totRead: U64
    var totWrite: U64
    var totStat: U64
    var flushErrors: U64
    var readErrors: U64
    var writeErrors: U64
    var statErrors: U64
    var readBytes: U64
    var writeBytes: U64

    function Snapshot(): Counters
      reads this
    {
      Counters(totFlush, totRead, totWrite, totStat,
               flushErrors, readErrors, writeErrors, statErrors,
               readBytes, writeBytes)
    }

    /** `&bucketstorestats{}`: every counter zero. */
    constructor ()
      ensures Snapshot() == Zero
    {
      totFlush, totRead, totWrite, totStat := 0, 0, 0, 0;
      flushErrors, readErrors, writeErrors, statErrors := 0, 0, 0, 0;
      readBytes, writeBytes := 0, 0;
    }

    /** `bss.Add(in)`: adds each counter of `in` into the same counter here. */
    method Add(other: Stats)
      modifies this
      ensures Snapshot() == Sum(old(Snapshot()), old(other.Snapshot()))
    {
      var sum := Sum(Snapshot(), other.Snapshot());
      totFlush, totRead, totWrite, totStat := sum.totFlush, sum.totRead, sum.totWrite, sum.totStat;
      flushErrors, readErrors, writeErrors, statErrors := sum.flushErrors, sum.readErrors, sum.writeErrors, sum.statErrors;
      readBytes, writeBytes := sum.readBytes, sum.writeBytes;
    }
  }
}
