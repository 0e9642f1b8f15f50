/**
 The process totals against the heap they are about: what the differences of counters say about live
 blocks, and when the chunk column is a bound on the request column.
 */
module AllocHeap {
  import opened AllocLedger
  import opened Totals

  /**
   A block: its request and chunk now, the largest request and chunk it has had since the span opened,
   and the chunk it had at that moment (zero if the span allocated it).
   */
  datatype Cell = Cell(live: bool, size: nat, chunk: nat, peak: nat, top: nat, base: nat)

  type Heap = seq<Cell>

  datatype Step = Take(size: nat, chunk: nat) | Give(id: nat) | Resize(id: nat, size: nat, chunk: nat)

  predicate Valid(heap: Heap, step: Step) {
    step.Take? || (step.id < |heap| && heap[step.id].live)
  }

  function Max(a: nat, b: nat): nat {
    if a > b then a else b
  }

  function Next(heap: Heap, step: Step): Heap
    requires Valid(heap, step)
  {
    match step
    case Take(size, chunk) => heap + [Cell(true, size, chunk, size, chunk, 0)]
    case Give(id) => heap[id := heap[id].(live := false)]
    case Resize(id, size, chunk) =>
      var cell := heap[id];
      heap[id := cell.(size := size, chunk := chunk, peak := Max(cell.peak, size), top := Max(cell.top, chunk))]
  }

  /** What the allocator's hooks count for a step. */
  function Charge(counts: AllocCounts, heap: Heap, step: Step): AllocCounts
    requires Valid(heap, step)
  {
    match step
    case Take(size, chunk) => counts.ChargeAlloc(size, chunk)
    case Give(id) => counts.ChargeFree(heap[id].size)
    case Resize(id, size, chunk) => counts.ChargeRealloc(heap[id].size, size, heap[id].chunk, chunk)
  }

  predicate ValidRun(heap: Heap, steps: seq<Step>)
    decreases |steps|
  {
    steps == [] || (Valid(heap, steps[0]) && ValidRun(Next(heap, steps[0]), steps[1..]))
  }

  function HeapAfter(heap: Heap, steps: seq<Step>): Heap
    requires ValidRun(heap, steps)
    decreases |steps|
  {
    if steps == [] then heap else HeapAfter(Next(heap, steps[0]), steps[1..])
  }

  function CountsAfter(counts: AllocCounts, heap: Heap, steps: seq<Step>): AllocCounts
    requires ValidRun(heap, steps)
    decreases |steps|
  {
    if steps == [] then counts
    else CountsAfter(Charge(counts, heap, steps[0]), Next(heap, steps[0]), steps[1..])
  }

  // ---- Adding up over a heap ----

  /** What one step does to a total: the new cell's share, or the change of one cell's. */
  lemma TotalStep(heap: Heap, step: Step, f: Cell -> int)
    requires Valid(heap, step)
    ensures var after := Next(heap, step);
      Total(after, f) == Total(heap, f)
        + if step.Take? then f(after[|heap|]) else f(after[step.id]) - f(heap[step.id])
  {
    match step
    case Take(size, chunk) => TotalAppend(heap, Next(heap, step)[|heap|], f);
    case _ => TotalUpdate(heap, step.id, Next(heap, step)[step.id], f);
  }

  // ---- The live heap ----

  function LiveSize(cell: Cell): int {
    if cell.live then cell.size else 0
  }

  function LiveOne(cell: Cell): int {
    if cell.live then 1 else 0
  }

  function LiveBytes(heap: Heap): int {
    Total(heap, LiveSize)
  }

  function LiveBlocks(heap: Heap): int {
    Total(heap, LiveOne)
  }

  function ShrunkBy(heap: Heap, step: Step): nat
    requires Valid(heap, step)
  {
    if step.Resize? then Saturating(heap[step.id].size, step.size) else 0
  }

  /** The bytes that shrinking reallocations gave back. */
  function Shrunk(heap: Heap, steps: seq<Step>): nat
    requires ValidRun(heap, steps)
    decreases |steps|
  {
    if steps == [] then 0 else ShrunkBy(heap, steps[0]) + Shrunk(Next(heap, steps[0]), steps[1..])
  }

  function Reallocs(steps: seq<Step>): nat {
    if steps == [] then 0 else (if steps[0].Resize? then 1 else 0) + Reallocs(steps[1..])
  }

  lemma HeapLawStep(counts: AllocCounts, heap: Heap, step: Step)
    requires Valid(heap, step)
    ensures var after := Charge(counts, heap, step);
      && (after.allocBytes - after.freeBytes) - (counts.allocBytes - counts.freeBytes)
         == LiveBytes(Next(heap, step)) - LiveBytes(heap) + ShrunkBy(heap, step)
      && after.Outstanding() - counts.Outstanding()
         == LiveBlocks(Next(heap, step)) - LiveBlocks(heap) + (if step.Resize? then 1 else 0)
  {
    TotalStep(heap, step, LiveSize);
    TotalStep(heap, step, LiveOne);
  }

  lemma {:induction false} HeapLawRun(counts: AllocCounts, heap: Heap, steps: seq<Step>)
    requires ValidRun(heap, steps)
    ensures var after := CountsAfter(counts, heap, steps);
      && (after.allocBytes - after.freeBytes) - (counts.allocBytes - counts.freeBytes)
         == LiveBytes(HeapAfter(heap, steps)) - LiveBytes(heap) + Shrunk(heap, steps)
      && after.Outstanding() - counts.Outstanding()
         == LiveBlocks(HeapAfter(heap, steps)) - LiveBlocks(heap) + Reallocs(steps)
    decreases |steps|
  {
    hide Charge;
    hide Next;
    hide ShrunkBy;
    hide Total;
    if steps != [] {
      HeapLawStep(counts, heap, steps[0]);
      HeapLawRun(Charge(counts, heap, steps[0]), Next(heap, steps[0]), steps[1..]);
    }
  }

  predicate Grown(earlier: AllocCounts, later: AllocCounts) {
    && earlier.allocs <= later.allocs && earlier.allocBytes <= later.allocBytes
    && earlier.chunkBytes <= later.chunkBytes && earlier.frees <= later.frees && earlier.freeBytes <= later.freeBytes
  }

  lemma {:induction false} CountsOnlyGrow(counts: AllocCounts, heap: Heap, steps: seq<Step>)
    requires ValidRun(heap, steps)
    ensures Grown(counts, CountsAfter(counts, heap, steps))
    decreases |steps|
  {
    if steps != [] {
      assert Grown(counts, Charge(counts, heap, steps[0]));
      CountsOnlyGrow(Charge(counts, heap, steps[0]), Next(heap, steps[0]), steps[1..]);
    }
  }

  /** A span's counts, as a probe started before the steps and stopped after them reports them. */
  function Probed(counts: AllocCounts, heap: Heap, steps: seq<Step>): AllocCounts
    requires ValidRun(heap, steps)
  {
    CountsAfter(counts, heap, steps).Since(counts)
  }

  /** What a span's byte and call columns say about the heap, for every run. */
  lemma HeapLaw(counts: AllocCounts, heap: Heap, steps: seq<Step>)
    requires ValidRun(heap, steps)
    ensures var span := Probed(counts, heap, steps);
      && span.allocBytes - span.freeBytes
         == LiveBytes(HeapAfter(heap, steps)) - LiveBytes(heap) + Shrunk(heap, steps)
      && span.Outstanding() == LiveBlocks(HeapAfter(heap, steps)) - LiveBlocks(heap) + Reallocs(steps)
  {
    hide CountsAfter;
    hide HeapAfter;
    hide Shrunk;
    hide Reallocs;
    hide Total;
    hide ValidRun;
    HeapLawRun(counts, heap, steps);
    CountsOnlyGrow(counts, heap, steps);
  }

  /** A span that frees as many blocks as it takes reports nothing outstanding exactly if it never reallocated. */
  lemma BalancedSpan(counts: AllocCounts, heap: Heap, steps: seq<Step>)
    requires ValidRun(heap, steps) && LiveBlocks(HeapAfter(heap, steps)) == LiveBlocks(heap)
    ensures Probed(counts, heap, steps).Outstanding() == 0 <==> Reallocs(steps) == 0
  {
    HeapLaw(counts, heap, steps);
  }

  // ---- The chunk column ----

  /** A chunk is wider than its request. */
  predicate Roomy(step: Step) {
    !step.Give? ==> step.chunk > step.size
  }

  predicate AllRoomy(steps: seq<Step>) {
    forall s <- steps :: Roomy(s)
  }

  /** A heap as a span finds it. */
  predicate AtOpen(heap: Heap) {
    forall c <- heap :: c.live && c.chunk > c.size && c.peak == c.size && c.top == c.chunk && c.base == c.chunk
  }

  predicate Tracked(heap: Heap) {
    forall c <- heap :: c.chunk <= c.top && c.base <= c.top && c.peak < c.top
  }

  /** The set-aside bytes a block's requests cannot do without, beyond those it had when the span opened. */
  function Need(cell: Cell): int {
    Saturating(cell.peak + 1, cell.base)
  }

  function Spread(cell: Cell): int {
    cell.top - cell.base
  }

  lemma TrackedStep(heap: Heap, step: Step)
    requires Valid(heap, step) && Tracked(heap) && Roomy(step)
    ensures Tracked(Next(heap, step))
  {
    var after := Next(heap, step);
    forall c | c in after
      ensures c.chunk <= c.top && c.base <= c.top && c.peak < c.top
    {
      var i :| 0 <= i < |after| && after[i] == c;
      if i < |heap| {
        assert heap[i] in heap;
      }
    }
  }

  lemma SpreadStep(counts: AllocCounts, heap: Heap, step: Step)
    requires Valid(heap, step) && Tracked(heap)
    ensures Charge(counts, heap, step).chunkBytes - counts.chunkBytes
         >= Total(Next(heap, step), Spread) - Total(heap, Spread)
  {
    TotalStep(heap, step, Spread);
    if !step.Take? {
      assert heap[step.id] in heap;
    }
  }

  lemma {:induction false} SpreadRun(counts: AllocCounts, heap: Heap, steps: seq<Step>)
    requires ValidRun(heap, steps) && Tracked(heap) && AllRoomy(steps)
    ensures Tracked(HeapAfter(heap, steps))
    ensures CountsAfter(counts, heap, steps).chunkBytes - counts.chunkBytes
         >= Total(HeapAfter(heap, steps), Spread) - Total(heap, Spread)
    decreases |steps|
  {
    hide Total;
    if steps != [] {
      assert steps[0] in steps;
      TrackedStep(heap, steps[0]);
      SpreadStep(counts, heap, steps[0]);
      SpreadRun(Charge(counts, heap, steps[0]), Next(heap, steps[0]), steps[1..]);
    }
  }

  lemma NeedWithinSpread(heap: Heap)
    requires Tracked(heap)
    ensures Total(heap, Need) <= Total(heap, Spread)
  {
    forall i | 0 <= i < |heap|
      ensures Need(heap[i]) <= Spread(heap[i])
    {
      assert heap[i] in heap;
    }
    TotalAtMost(heap, heap, Need, Spread);
  }

  lemma OpenHeapOwesNothing(heap: Heap)
    requires AtOpen(heap)
    ensures Tracked(heap) && Total(heap, Spread) == 0 && Total(heap, Need) == 0
  {
    TotalZero(heap, Spread);
    TotalZero(heap, Need);
  }

  const ZERO: AllocCounts := AllocCounts(0, 0, 0, 0, 0)

  function ChunkColumn(heap: Heap, steps: seq<Step>): nat
    requires ValidRun(heap, steps)
  {
    CountsAfter(ZERO, heap, steps).chunkBytes
  }

  function RequestColumn(heap: Heap, steps: seq<Step>): nat
    requires ValidRun(heap, steps)
  {
    CountsAfter(ZERO, heap, steps).allocBytes
  }

  function Needed(heap: Heap, steps: seq<Step>): int
    requires ValidRun(heap, steps)
  {
    Total(HeapAfter(heap, steps), Need)
  }

  /** Whatever chunks the allocator hands out, it sets aside what the blocks need. */
  lemma ChunkColumnCoversNeed(heap: Heap, steps: seq<Step>)
    requires AtOpen(heap) && ValidRun(heap, steps) && AllRoomy(steps)
    ensures ChunkColumn(heap, steps) >= Needed(heap, steps)
  {
    OpenHeapOwesNothing(heap);
    SpreadRun(ZERO, heap, steps);
    NeedWithinSpread(HeapAfter(heap, steps));
  }

  // ---- The same requests with other chunks ----

  predicate SameRequest(a: Step, b: Step) {
    match a
    case Take(size, _) => b.Take? && b.size == size
    case Give(id) => b == a
    case Resize(id, size, _) => b.Resize? && b.id == id && b.size == size
  }

  predicate SameRequests(a: seq<Step>, b: seq<Step>) {
    |a| == |b| && forall i :: 0 <= i < |a| ==> SameRequest(a[i], b[i])
  }

  predicate SameCell(a: Cell, b: Cell) {
    a.live == b.live && a.size == b.size && a.peak == b.peak && a.base == b.base
  }

  predicate SameShape(a: Heap, b: Heap) {
    |a| == |b| && forall i :: 0 <= i < |a| ==> SameCell(a[i], b[i])
  }

  lemma SameShapeStep(a: Heap, b: Heap, s: Step, t: Step, m: AllocCounts, n: AllocCounts)
    requires SameShape(a, b) && SameRequest(s, t) && Valid(a, s) && m.allocBytes == n.allocBytes
    ensures Valid(b, t) && SameShape(Next(a, s), Next(b, t))
    ensures Charge(m, a, s).allocBytes == Charge(n, b, t).allocBytes
  {
  }

  lemma {:induction false} SameShapeRun(
    a: Heap, b: Heap, s: seq<Step>, t: seq<Step>, m: AllocCounts, n: AllocCounts)
    requires SameShape(a, b) && SameRequests(s, t) && ValidRun(a, s) && m.allocBytes == n.allocBytes
    ensures ValidRun(b, t) && SameShape(HeapAfter(a, s), HeapAfter(b, t))
    ensures CountsAfter(m, a, s).allocBytes == CountsAfter(n, b, t).allocBytes
    decreases |s|
  {
    hide SameShape;
    hide Next;
    hide Charge;
    hide Valid;
    if s != [] {
      SameShapeStep(a, b, s[0], t[0], m, n);
      SameShapeRun(
        Next(a, s[0]), Next(b, t[0]), s[1..], t[1..], Charge(m, a, s[0]), Charge(n, b, t[0]));
    }
  }

  lemma SameRequestsAgree(heap: Heap, s: seq<Step>, t: seq<Step>)
    requires ValidRun(heap, s) && SameRequests(s, t)
    ensures ValidRun(heap, t)
    ensures RequestColumn(heap, t) == RequestColumn(heap, s) && Needed(heap, t) == Needed(heap, s)
  {
    SameShapeRun(heap, heap, s, t, ZERO, ZERO);
    var a, b := HeapAfter(heap, s), HeapAfter(heap, t);
    TotalAtMost(a, b, Need, Need);
    TotalAtMost(b, a, Need, Need);
  }

  /** An allocator that sets aside as little as it may. */
  function Frugal(heap: Heap, step: Step): Step
    requires Valid(heap, step)
  {
    match step
    case Take(size, _) => Take(size, size + 1)
    case Give(_) => step
    case Resize(id, size, _) => Resize(id, size, Max(heap[id].base, Max(heap[id].peak, size) + 1))
  }

  function AllFrugal(heap: Heap, steps: seq<Step>): seq<Step>
    requires ValidRun(heap, steps)
    decreases |steps|
  {
    if steps == [] then [] else [Frugal(heap, steps[0])] + AllFrugal(Next(heap, steps[0]), steps[1..])
  }

  /** Every live block has exactly the chunk it cannot do without. */
  predicate Tight(heap: Heap) {
    forall c <- heap :: c.live ==> c.chunk == Max(c.base, c.peak + 1)
  }

  lemma FrugalIsSame(heap: Heap, steps: seq<Step>)
    requires ValidRun(heap, steps)
    ensures SameRequests(steps, AllFrugal(heap, steps)) && AllRoomy(AllFrugal(heap, steps))
    decreases |steps|
  {
    if steps != [] {
      FrugalIsSame(Next(heap, steps[0]), steps[1..]);
      assert Roomy(Frugal(heap, steps[0]));
    }
  }

  lemma FrugalStep(counts: AllocCounts, a: Heap, b: Heap, step: Step)
    requires Valid(a, step) && SameShape(a, b) && Tight(b)
    ensures Valid(b, Frugal(a, step)) && SameShape(Next(a, step), Next(b, Frugal(a, step)))
    ensures Tight(Next(b, Frugal(a, step)))
    ensures Charge(counts, b, Frugal(a, step)).chunkBytes - counts.chunkBytes
         == Total(Next(b, Frugal(a, step)), Need) - Total(b, Need)
  {
    var frugal := Frugal(a, step);
    SameShapeStep(a, b, step, frugal, counts, counts);
    TotalStep(b, frugal, Need);
    if !step.Take? {
      assert b[step.id] in b;
      assert SameCell(a[step.id], b[step.id]);
    }
    var after := Next(b, frugal);
    forall c | c in after && c.live
      ensures c.chunk == Max(c.base, c.peak + 1)
    {
      var i :| 0 <= i < |after| && after[i] == c;
      if i < |b| {
        assert b[i] in b;
      }
    }
  }

  lemma {:induction false} FrugalRun(counts: AllocCounts, a: Heap, b: Heap, steps: seq<Step>)
    requires ValidRun(a, steps) && SameShape(a, b) && Tight(b)
    ensures ValidRun(b, AllFrugal(a, steps))
    ensures SameShape(HeapAfter(a, steps), HeapAfter(b, AllFrugal(a, steps)))
    ensures CountsAfter(counts, b, AllFrugal(a, steps)).chunkBytes - counts.chunkBytes
         == Total(HeapAfter(b, AllFrugal(a, steps)), Need) - Total(b, Need)
    decreases |steps|
  {
    hide Next;
    hide Charge;
    hide Frugal;
    hide Total;
    hide SameShape;
    hide Tight;
    hide Valid;
    if steps != [] {
      var first := Frugal(a, steps[0]);
      var rest := AllFrugal(Next(a, steps[0]), steps[1..]);
      assert AllFrugal(a, steps)[0] == first && AllFrugal(a, steps)[1..] == rest;
      FrugalStep(counts, a, b, steps[0]);
      FrugalRun(Charge(counts, b, first), Next(a, steps[0]), Next(b, first), steps[1..]);
    }
  }

  lemma FrugalSpendsNeed(heap: Heap, steps: seq<Step>)
    requires AtOpen(heap) && ValidRun(heap, steps)
    ensures ValidRun(heap, AllFrugal(heap, steps))
    ensures ChunkColumn(heap, AllFrugal(heap, steps)) == Needed(heap, steps)
  {
    FrugalIsSame(heap, steps);
    SameRequestsAgree(heap, steps, AllFrugal(heap, steps));
    OpenHeapOwesNothing(heap);
    FrugalRun(ZERO, heap, heap, steps);
  }

  /**
   The chunk column bounds the request column under every allocator, whatever chunks it hands out for
   these requests, if and only if the bytes requested do not exceed what the blocks' peaks need.
   */
  lemma ChunkColumnExact(heap: Heap, steps: seq<Step>)
    requires AtOpen(heap) && ValidRun(heap, steps)
    ensures (forall other: seq<Step> :: SameRequests(steps, other) && AllRoomy(other) ==>
        ValidRun(heap, other) && ChunkColumn(heap, other) >= RequestColumn(heap, other))
      <==> RequestColumn(heap, steps) <= Needed(heap, steps)
  {
    hide ChunkColumn;
    hide RequestColumn;
    hide Needed;
    var frugal := AllFrugal(heap, steps);
    FrugalIsSame(heap, steps);
    FrugalSpendsNeed(heap, steps);
    SameRequestsAgree(heap, steps, frugal);
    if RequestColumn(heap, steps) <= Needed(heap, steps) {
      forall other: seq<Step> | SameRequests(steps, other) && AllRoomy(other)
        ensures ValidRun(heap, other) && ChunkColumn(heap, other) >= RequestColumn(heap, other)
      {
        SameRequestsAgree(heap, steps, other);
        ChunkColumnCoversNeed(heap, other);
      }
    } else {
      assert SameRequests(steps, frugal) && AllRoomy(frugal);
      assert ChunkColumn(heap, frugal) < RequestColumn(heap, frugal);
    }
  }

  // ---- A span that only grows its own blocks ----

  predicate GrowsOwn(heap: Heap, old_: nat, steps: seq<Step>)
    requires ValidRun(heap, steps)
    decreases |steps|
  {
    steps == []
    || ((steps[0].Resize? ==> steps[0].id >= old_ && steps[0].size >= heap[steps[0].id].size)
        && GrowsOwn(Next(heap, steps[0]), old_, steps[1..]))
  }

  function OwnPeak(cell: Cell): int {
    if cell.base == 0 then cell.peak else 0
  }

  /** The first `old_` blocks were there before; the others have never been smaller than they are. */
  predicate OwnOnlyGrew(heap: Heap, old_: nat) {
    forall i :: 0 <= i < |heap| ==> if i < old_ then heap[i].base > 0 else heap[i].base == 0 && heap[i].peak == heap[i].size
  }

  lemma {:induction false} OwnGrowth(counts: AllocCounts, heap: Heap, old_: nat, steps: seq<Step>)
    requires ValidRun(heap, steps) && old_ <= |heap| && OwnOnlyGrew(heap, old_) && GrowsOwn(heap, old_, steps)
    ensures CountsAfter(counts, heap, steps).allocBytes - counts.allocBytes
         == Total(HeapAfter(heap, steps), OwnPeak) - Total(heap, OwnPeak)
    decreases |steps|
  {
    hide Total;
    if steps != [] {
      TotalStep(heap, steps[0], OwnPeak);
      OwnGrowth(Charge(counts, heap, steps[0]), Next(heap, steps[0]), old_, steps[1..]);
    }
  }

  /** Without shrinking, and without touching older blocks, the chunk column is never below the request column. */
  lemma ChunkColumnCoversGrowth(heap: Heap, steps: seq<Step>)
    requires AtOpen(heap) && ValidRun(heap, steps) && AllRoomy(steps) && GrowsOwn(heap, |heap|, steps)
    ensures ChunkColumn(heap, steps) >= RequestColumn(heap, steps)
  {
    forall i | 0 <= i < |heap|
      ensures heap[i].base > 0
    {
      assert heap[i] in heap;
    }
    OwnGrowth(ZERO, heap, |heap|, steps);
    TotalZero(heap, OwnPeak);
    var after := HeapAfter(heap, steps);
    TotalAtMost(after, after, OwnPeak, Need);
    ChunkColumnCoversNeed(heap, steps);
  }

  lemma ThreeSteps(heap: Heap, a: Step, b: Step, c: Step)
    requires Valid(heap, a) && Valid(Next(heap, a), b) && Valid(Next(Next(heap, a), b), c)
    ensures ValidRun(heap, [a, b, c])
    ensures CountsAfter(ZERO, heap, [a, b, c])
         == Charge(Charge(Charge(ZERO, heap, a), Next(heap, a), b), Next(Next(heap, a), b), c)
  {
    hide Next;
    hide Charge;
    hide Valid;
    var h1 := Next(heap, a);
    var h2 := Next(h1, b);
    assert [a, b, c][1..] == [b, c] && [b, c][1..] == [c] && [c][1..] == [];
    assert ValidRun(Next(h2, c), []) && ValidRun(h2, [c]) && ValidRun(h1, [b, c]);
    var c1 := Charge(ZERO, heap, a);
    var c2 := Charge(c1, h1, b);
    assert CountsAfter(c2, h2, [c]) == Charge(c2, h2, c);
    assert CountsAfter(c1, h1, [b, c]) == Charge(c2, h2, c);
  }

  /** Shrinking and growing again is charged twice in requests and once in chunks. */
  lemma ShrinkThenGrow()
    ensures var steps := [Take(100, 112), Resize(0, 1, 112), Resize(0, 100, 112)];
      && ValidRun([], steps) && AllRoomy(steps)
      && RequestColumn([], steps) == 199 && ChunkColumn([], steps) == 112
  {
    hide CountsAfter;
    hide ValidRun;
    ThreeSteps([], Take(100, 112), Resize(0, 1, 112), Resize(0, 100, 112));
  }

  /** A block from before the span can grow inside its chunk, which the chunk column does not see. */
  lemma OldBlockGrows()
    ensures var heap := [Cell(true, 100, 112, 100, 112, 112)];
      var steps := [Resize(0, 104, 112)];
      && AtOpen(heap) && ValidRun(heap, steps) && AllRoomy(steps)
      && RequestColumn(heap, steps) == 4 && ChunkColumn(heap, steps) == 0
  {
    var heap := [Cell(true, 100, 112, 100, 112, 112)];
    var steps := [Resize(0, 104, 112)];
    assert steps[1..] == [];
    assert CountsAfter(ZERO, heap, steps) == Charge(ZERO, heap, steps[0]);
  }

  /** A span that frees all it takes, with one reallocation on the way, still reports one call outstanding. */
  lemma ReallocIsOutstanding()
    ensures var steps := [Take(8, 16), Resize(0, 16, 24), Give(0)];
      && ValidRun([], steps) && LiveBlocks(HeapAfter([], steps)) == LiveBlocks([]) == 0
      && Probed(ZERO, [], steps).Outstanding() == 1
  {
    hide CountsAfter;
    hide HeapAfter;
    hide ValidRun;
    var a, b, c := Take(8, 16), Resize(0, 16, 24), Give(0);
    ThreeSteps([], a, b, c);
    HeapAfterThree([], a, b, c);
    var end := Next(Next(Next([], a), b), c);
    assert end[..0] == [] && !end[0].live;
  }

  lemma HeapAfterThree(heap: Heap, a: Step, b: Step, c: Step)
    requires ValidRun(heap, [a, b, c])
    ensures Valid(heap, a) && Valid(Next(heap, a), b) && Valid(Next(Next(heap, a), b), c)
    ensures HeapAfter(heap, [a, b, c]) == Next(Next(Next(heap, a), b), c)
  {
    hide Next;
    hide Valid;
    assert [a, b, c][1..] == [b, c] && [b, c][1..] == [c] && [c][1..] == [];
    var h1 := Next(heap, a);
    assert ValidRun(h1, [b, c]);
    var h2 := Next(h1, b);
    assert ValidRun(h2, [c]);
    assert HeapAfter(h2, [c]) == Next(h2, c);
    assert HeapAfter(h1, [b, c]) == Next(h2, c);
  }
}
