/** `checkMemoryUsage` (backend/server.js): admit new work unless more than
    80% of system memory is in use. */
module MemoryGuard {

  /** One reading of `os.totalmem()` and `os.freemem()`, in bytes. */
  datatype MemoryReading = MemoryReading(total: nat, free: nat)

  /** `checkMemoryUsage()` on one reading: deny exactly when
      `(total - free) / total > 0.8`. With `total == 0` the division gives
      NaN or -Infinity, the comparison is false, and `checkMemoryUsage` admits.
      `MEMORY_THRESHOLD = 0.8` is kept as the exact fraction 4/5. */
  predicate Admits(m: MemoryReading) {
    m.total == 0 || 5 * (m.total - m.free) <= 4 * m.total
  }

  /** The integer test is `checkMemoryUsage`'s ratio test, read over the reals. */
  lemma AdmitsIffRatioWithinThreshold(m: MemoryReading)
    requires m.total > 0
    ensures Admits(m) <==> (m.total - m.free) as real / m.total as real <= 0.8
  {
    var used := (m.total - m.free) as real;
    var total := m.total as real;
    var ratio := used / total;
    assert ratio * total == used;
    if ratio <= 0.8 {
      assert ratio * total <= 0.8 * total;
    } else {
      assert ratio * total > 0.8 * total;
    }
  }
}
