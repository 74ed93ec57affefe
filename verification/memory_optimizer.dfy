/**
 * The memory monitor's decisions. The operating system is read elsewhere: every
 * decision here is a pure function of a `MemorySnapshot` the caller passes in,
 * and of the configured ceiling `maxMemoryGB` (3.5 by default, fixed once the
 * monitor is created).
 */
module MemoryOptimizer {
  import opened Wrappers

  /** One reading of process and system memory, in MB and percent. */
  datatype MemorySnapshot = MemorySnapshot(
    processMB: real,
    systemPercent: real,
    availableMB: real,
    totalMB: real)

  const DefaultMaxMemoryGB: real := 3.5

  /** The resident size above which the process counts as near its ceiling. */
  function ProcessThresholdMB(maxMemoryGB: real): real {
    maxMemoryGB * 1024.0 * 0.9
  }

  /** `check_memory_limit`: true while there is room, false once the process is
      above 90% of its ceiling or the system above 90% used. */
  predicate CheckMemoryLimit(maxMemoryGB: real, m: MemorySnapshot) {
    !(m.processMB > ProcessThresholdMB(maxMemoryGB)) && !(m.systemPercent > 90.0)
  }

  /** Both limits are strict: with the default ceiling, exactly 3225.6 MB and
      exactly 90% still leave room, and going over either one does not. */
  lemma CheckMemoryLimitBoundaries()
    ensures CheckMemoryLimit(DefaultMaxMemoryGB, MemorySnapshot(3225.6, 90.0, 0.0, 0.0))
    ensures !CheckMemoryLimit(DefaultMaxMemoryGB, MemorySnapshot(3225.7, 50.0, 0.0, 0.0))
    ensures !CheckMemoryLimit(DefaultMaxMemoryGB, MemorySnapshot(100.0, 90.5, 0.0, 0.0))
  {
    DefaultProcessThreshold();
  }

  /** Less memory in use never turns "room left" into "near the limit". */
  lemma CheckMemoryLimitMonotone(maxMemoryGB: real, m: MemorySnapshot, m': MemorySnapshot)
    requires m'.processMB <= m.processMB && m'.systemPercent <= m.systemPercent
    ensures CheckMemoryLimit(maxMemoryGB, m) ==> CheckMemoryLimit(maxMemoryGB, m')
  {
  }

  /** With the default ceiling of 3.5 GB the process threshold is 3225.6 MB. */
  lemma DefaultProcessThreshold()
    ensures ProcessThresholdMB(DefaultMaxMemoryGB) == 3225.6
  {
  }

  /** The decision inside `cleanup_memory`: reclaim when forced or when the
      limit check fails. */
  function ShouldReclaim(force: bool, maxMemoryGB: real, m: MemorySnapshot): (reclaim: bool)
    ensures !reclaim ==> !force && CheckMemoryLimit(maxMemoryGB, m)
    ensures force || m.systemPercent > 90.0 || m.processMB > ProcessThresholdMB(maxMemoryGB) ==> reclaim
  {
    force || !CheckMemoryLimit(maxMemoryGB, m)
  }

  /** `get_optimal_batch_size`: 1 below 1 GB available, half the base (at least
      1) below 2 GB, the base otherwise. */
  function GetOptimalBatchSize(baseBatchSize: int, m: MemorySnapshot): (size: int)
    ensures baseBatchSize >= 1 ==> 1 <= size <= baseBatchSize
    ensures m.availableMB < 1024.0 ==> size == 1
    ensures 1024.0 <= m.availableMB < 2048.0 ==> size == Max(1, baseBatchSize / 2)
    ensures m.availableMB >= 2048.0 ==> size == baseBatchSize
  {
    var availableGB := m.availableMB / 1024.0;
    if availableGB < 1.0 then 1
    else if availableGB < 2.0 then Max(1, baseBatchSize / 2)
    else baseBatchSize
  }

  /** More available memory never yields a smaller batch. */
  lemma BatchSizeMonotone(baseBatchSize: int, m: MemorySnapshot, m': MemorySnapshot)
    requires baseBatchSize >= 1
    requires m.availableMB <= m'.availableMB
    ensures GetOptimalBatchSize(baseBatchSize, m) <= GetOptimalBatchSize(baseBatchSize, m')
  {
  }

  /** Python's `x // 2` and `x // 4` (floor division, which Dafny's Euclidean
      division matches for a positive divisor). */
  function Half(x: int): int { x / 2 }

  function Quarter(x: int): int { x / 4 }

  /** `get_optimal_chunk_size` as the code is written: the `> 80` test comes
      first, so the `> 90` branch that would quarter the size is never taken.
      The document length is not consulted. */
  function GetOptimalChunkSizeAsWritten(documentLength: int, baseChunkSize: int, m: MemorySnapshot): (size: int)
    ensures m.systemPercent > 80.0 ==> size == baseChunkSize / 2
    ensures m.systemPercent <= 80.0 ==> size == baseChunkSize
  {
    if m.systemPercent > 80.0 then Half(baseChunkSize)
    else if m.systemPercent > 90.0 then Quarter(baseChunkSize)
    else baseChunkSize
  }

  /** `get_optimal_chunk_size` with its branches in the intended order: the base
      above 80% halved, above 90% quartered, unchanged otherwise. */
  function GetOptimalChunkSize(documentLength: int, baseChunkSize: int, m: MemorySnapshot): (size: int)
    ensures 0 <= baseChunkSize ==> baseChunkSize / 4 <= size <= baseChunkSize
    ensures m.systemPercent <= 80.0 ==> size == baseChunkSize
    ensures 80.0 < m.systemPercent <= 90.0 ==> size == baseChunkSize / 2
    ensures 90.0 < m.systemPercent ==> size == baseChunkSize / 4
  {
    if m.systemPercent > 90.0 then Quarter(baseChunkSize)
    else if m.systemPercent > 80.0 then Half(baseChunkSize)
    else baseChunkSize
  }

  /** Above 90% the code as written halves where the quartering branch was
      meant to apply: at 95% a base of 512 gives 256, not 128. */
  lemma AsWrittenNeverQuarters(baseChunkSize: int, m: MemorySnapshot)
    requires baseChunkSize >= 2 && m.systemPercent > 90.0
    ensures GetOptimalChunkSizeAsWritten(0, baseChunkSize, m) == Half(baseChunkSize)
    ensures GetOptimalChunkSizeAsWritten(0, baseChunkSize, m) > GetOptimalChunkSize(0, baseChunkSize, m)
    ensures GetOptimalChunkSizeAsWritten(0, 512, MemorySnapshot(0.0, 95.0, 0.0, 0.0)) == 256
  {
  }

  /** The recommended size for a base of 512: 512 at 70%, 256 at 85%, 128 at 95%. */
  lemma ChunkSizeExamples()
    ensures GetOptimalChunkSize(0, 512, MemorySnapshot(0.0, 70.0, 0.0, 0.0)) == 512
    ensures GetOptimalChunkSize(0, 512, MemorySnapshot(0.0, 85.0, 0.0, 0.0)) == 256
    ensures GetOptimalChunkSize(0, 512, MemorySnapshot(0.0, 95.0, 0.0, 0.0)) == 128
  {
  }

  /** Higher system utilisation never yields a larger chunk size. */
  lemma ChunkSizeNonIncreasing(documentLength: int, baseChunkSize: int, m: MemorySnapshot, m': MemorySnapshot)
    requires 0 <= baseChunkSize
    requires m.systemPercent <= m'.systemPercent
    ensures GetOptimalChunkSize(documentLength, baseChunkSize, m') <= GetOptimalChunkSize(documentLength, baseChunkSize, m)
  {
  }

  /** Under pressure a base of 1 becomes 0, in the code as written and in the
      intended order alike: a window of zero words, which the chunker cannot
      advance with. */
  lemma ChunkSizeCanBeZero(documentLength: int, m: MemorySnapshot)
    requires m.systemPercent > 80.0
    ensures GetOptimalChunkSize(documentLength, 1, m) == 0
    ensures GetOptimalChunkSizeAsWritten(documentLength, 1, m) == 0
  {
  }

  /** The default base of 512 never drops to 50 words or fewer, whatever the
      snapshot: it always exceeds the default overlap. */
  lemma DefaultChunkSizeExceedsOverlap(documentLength: int, m: MemorySnapshot)
    ensures GetOptimalChunkSize(documentLength, 512, m) >= 128
    ensures GetOptimalChunkSizeAsWritten(documentLength, 512, m) >= 256
  {
  }
}
