/** The counters of the counting allocator as values: the process totals, the class rows, and a span over both. */
module AllocLedger {

  datatype AllocClass =
    | BlockBytes
    | CarriedBlock
    | SlabAppend
    | BucketIndex
    | DirtyObjects
    | StagedOutcome
    | LogRecord
    | IndexLogDelta
    | CacheInvalidation
    | CacheRead
    | RecencyStamp

  const CLASS_COUNT: nat := 11
  const UNCLASSIFIED: nat := 255

  const ALL: seq<AllocClass> := [
    BlockBytes, CarriedBlock, SlabAppend, BucketIndex, DirtyObjects, StagedOutcome, LogRecord, IndexLogDelta,
    CacheInvalidation, CacheRead, RecencyStamp]

  function Slot(c: AllocClass): (s: nat)
    ensures s < CLASS_COUNT && ALL[s] == c
  {
    match c
    case BlockBytes => 0
    case CarriedBlock => 1
    case SlabAppend => 2
    case BucketIndex => 3
    case DirtyObjects => 4
    case StagedOutcome => 5
    case LogRecord => 6
    case IndexLogDelta => 7
    case CacheInvalidation => 8
    case CacheRead => 9
    case RecencyStamp => 10
  }

  /** Every row belongs to exactly one class. */
  lemma SlotsAreDense(i: nat)
    requires i < CLASS_COUNT
    ensures Slot(ALL[i]) == i
  {
  }

  function Saturating(a: nat, b: nat): nat {
    if a > b then a - b else 0
  }

  // ---- Rows ----

  datatype ClassCounts = ClassCounts(allocs: nat, allocBytes: nat, frees: nat, freeBytes: nat) {
    function Since(earlier: ClassCounts): ClassCounts {
      ClassCounts(
        Saturating(allocs, earlier.allocs), Saturating(allocBytes, earlier.allocBytes),
        Saturating(frees, earlier.frees), Saturating(freeBytes, earlier.freeBytes))
    }

    function Plus(other: ClassCounts): ClassCounts {
      ClassCounts(
        allocs + other.allocs, allocBytes + other.allocBytes, frees + other.frees, freeBytes + other.freeBytes)
    }

    /** Column by column. */
    predicate AtMost(other: ClassCounts) {
      allocs <= other.allocs && allocBytes <= other.allocBytes && frees <= other.frees && freeBytes <= other.freeBytes
    }
  }

  type Ledger = rows: seq<ClassCounts> | |rows| == CLASS_COUNT witness seq(CLASS_COUNT, i => ClassCounts(0, 0, 0, 0))

  function NoCounts(): Ledger {
    seq(CLASS_COUNT, i => ClassCounts(0, 0, 0, 0))
  }

  /** The first `n` rows added up. */
  function SumTo(rows: seq<ClassCounts>, n: nat): ClassCounts
    requires n <= |rows|
  {
    if n == 0 then ClassCounts(0, 0, 0, 0) else SumTo(rows, n - 1).Plus(rows[n - 1])
  }

  function Sum(ledger: Ledger): ClassCounts {
    SumTo(ledger, CLASS_COUNT)
  }

  /** The rows added up by a left-to-right fold. */
  method Summed(ledger: Ledger) returns (total: ClassCounts)
    ensures total == Sum(ledger)
  {
    total := ClassCounts(0, 0, 0, 0);
    for i := 0 to CLASS_COUNT
      invariant total == SumTo(ledger, i)
    {
      total := total.Plus(ledger[i]);
    }
  }

  method LedgerPlus(a: Ledger, b: Ledger) returns (rows: Ledger)
    ensures forall i :: 0 <= i < CLASS_COUNT ==> rows[i] == a[i].Plus(b[i])
    ensures Sum(rows) == Sum(a).Plus(Sum(b))
  {
    rows := NoCounts();
    for slot := 0 to CLASS_COUNT
      invariant forall i :: 0 <= i < slot ==> rows[i] == a[i].Plus(b[i])
    {
      rows := rows[slot := a[slot].Plus(b[slot])];
    }
    SumPlus(a, b, rows, CLASS_COUNT);
  }

  method LedgerSince(later: Ledger, earlier: Ledger) returns (rows: Ledger)
    ensures rows == SinceRows(later, earlier)
  {
    rows := NoCounts();
    for slot := 0 to CLASS_COUNT
      invariant forall i :: 0 <= i < slot ==> rows[i] == later[i].Since(earlier[i])
    {
      rows := rows[slot := later[slot].Since(earlier[slot])];
    }
  }

  function SinceRows(later: Ledger, earlier: Ledger): Ledger {
    seq(CLASS_COUNT, i requires 0 <= i < CLASS_COUNT => later[i].Since(earlier[i]))
  }

  lemma PlusSwaps(a: ClassCounts, b: ClassCounts, c: ClassCounts, d: ClassCounts)
    ensures a.Plus(b).Plus(c.Plus(d)) == a.Plus(c).Plus(b.Plus(d))
  {
  }

  lemma {:induction false} SumPlus(a: Ledger, b: Ledger, c: Ledger, n: nat)
    requires n <= CLASS_COUNT && forall i :: 0 <= i < CLASS_COUNT ==> c[i] == a[i].Plus(b[i])
    ensures SumTo(c, n) == SumTo(a, n).Plus(SumTo(b, n))
  {
    if n == 0 {
      assert SumTo(a, 0) == SumTo(b, 0) == SumTo(c, 0) == ClassCounts(0, 0, 0, 0);
    } else {
      SumPlus(a, b, c, n - 1);
      PlusSwaps(SumTo(a, n - 1), SumTo(b, n - 1), a[n - 1], b[n - 1]);
    }
  }

  lemma {:induction false} SumUpdate(rows: Ledger, i: nat, d: ClassCounts, n: nat)
    requires i < CLASS_COUNT && n <= CLASS_COUNT
    ensures SumTo(rows[i := rows[i].Plus(d)], n) == if i < n then SumTo(rows, n).Plus(d) else SumTo(rows, n)
  {
    if n > 0 {
      SumUpdate(rows, i, d, n - 1);
    }
  }

  lemma {:induction false} SumOfNothing(rows: Ledger, n: nat)
    requires n <= CLASS_COUNT && forall i :: 0 <= i < CLASS_COUNT ==> rows[i] == ClassCounts(0, 0, 0, 0)
    ensures SumTo(rows, n) == ClassCounts(0, 0, 0, 0)
  {
    if n > 0 {
      SumOfNothing(rows, n - 1);
    }
  }

  lemma {:induction false} SumAtMost(a: Ledger, b: Ledger, n: nat)
    requires n <= CLASS_COUNT && forall i :: 0 <= i < CLASS_COUNT ==> a[i].AtMost(b[i])
    ensures SumTo(a, n).AtMost(SumTo(b, n))
  {
    if n > 0 {
      SumAtMost(a, b, n - 1);
    }
  }

  /** When no column has shrunk, the differences add back up. */
  lemma SumSince(later: Ledger, earlier: Ledger)
    requires forall i :: 0 <= i < CLASS_COUNT ==> earlier[i].AtMost(later[i])
    ensures Sum(earlier).Plus(Sum(SinceRows(later, earlier))) == Sum(later)
  {
    SumPlus(earlier, SinceRows(later, earlier), later, CLASS_COUNT);
  }

  // ---- Totals ----

  datatype AllocCounts = AllocCounts(allocs: nat, allocBytes: nat, chunkBytes: nat, frees: nat, freeBytes: nat) {
    function Outstanding(): int {
      allocs - frees
    }

    function Since(earlier: AllocCounts): AllocCounts {
      AllocCounts(
        Saturating(allocs, earlier.allocs), Saturating(allocBytes, earlier.allocBytes),
        Saturating(chunkBytes, earlier.chunkBytes), Saturating(frees, earlier.frees),
        Saturating(freeBytes, earlier.freeBytes))
    }

    function Plus(other: AllocCounts): AllocCounts {
      AllocCounts(
        allocs + other.allocs, allocBytes + other.allocBytes, chunkBytes + other.chunkBytes, frees + other.frees,
        freeBytes + other.freeBytes)
    }

    // What each allocator hook adds.

    function ChargeAlloc(size: nat, chunk: nat): AllocCounts {
      this.(allocs := allocs + 1, allocBytes := allocBytes + size, chunkBytes := chunkBytes + chunk)
    }

    function ChargeFree(size: nat): AllocCounts {
      this.(frees := frees + 1, freeBytes := freeBytes + size)
    }

    function ChargeRealloc(size: nat, newSize: nat, chunk: nat, newChunk: nat): AllocCounts {
      this.(
        allocs := allocs + 1,
        allocBytes := if newSize > size then allocBytes + (newSize - size) else allocBytes,
        chunkBytes := chunkBytes + Saturating(newChunk, chunk))
    }
  }

  // ---- Spans ----

  datatype ClassifiedCounts = ClassifiedCounts(total: AllocCounts, classes: Ledger) {
    function ResidualAllocs(): int {
      total.allocs - Sum(classes).allocs
    }

    function ResidualBytes(): int {
      total.allocBytes - Sum(classes).allocBytes
    }
  }

  /** Two spans added together keep the sum of their residuals. */
  method SpanPlus(a: ClassifiedCounts, b: ClassifiedCounts) returns (r: ClassifiedCounts)
    ensures r.total == a.total.Plus(b.total)
    ensures forall i :: 0 <= i < CLASS_COUNT ==> r.classes[i] == a.classes[i].Plus(b.classes[i])
    ensures r.ResidualAllocs() == a.ResidualAllocs() + b.ResidualAllocs()
    ensures r.ResidualBytes() == a.ResidualBytes() + b.ResidualBytes()
  {
    var rows := LedgerPlus(a.classes, b.classes);
    r := ClassifiedCounts(a.total.Plus(b.total), rows);
  }
}
