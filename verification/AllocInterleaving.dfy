/**
 Several threads inside the allocator's hook while a span is opened and closed, one atomic operation at
 a time. Each thread bumps the process totals first and its class row after; the span loads the totals
 first when it opens and last when it closes. Loads and increments are taken in one total order.
 */
module AllocInterleaving {
  import opened Bytes
  import opened AllocLedger
  import opened Totals

  /** Where a thread is between its increments; the scope is the row it will charge, if any. */
  datatype Phase =
    | Idle
    | Counted(scope: Option<nat>, size: nat)
    | Sized(scope: Option<nat>, size: nat)
    | RowCounted(slot: nat, size: nat)

  /** What was true when the span loaded a total. */
  datatype Snapshot = Snapshot(rows: Ledger, unscoped: nat, pending: int)

  /**
   The counters, the threads, and what the span has loaded so far. The other fields are history: the
   allocations counted so far outside every class, and the snapshots taken by the span's first two loads.
   */
  datatype State = State(
    calls: nat,
    bytes: nat,
    rows: Ledger,
    threads: seq<Phase>,
    loads: seq<nat>,
    unscoped: nat,
    unscopedBytes: nat,
    atCalls: Snapshot,
    atBytes: Snapshot)

  datatype Move = Begin(thread: nat, scope: Option<nat>, size: nat) | Advance(thread: nat) | Load

  const ROWS: nat := CLASS_COUNT
  const OPEN_LOADS: nat := 2 + 2 * CLASS_COUNT
  const ALL_LOADS: nat := 2 * OPEN_LOADS

  /** The span's `k`th load: totals then rows to open, rows then totals to close. */
  function Loaded(s: State, k: nat): nat
    requires k < ALL_LOADS
  {
    if k == 0 || k == 46 then s.calls
    else if k == 1 || k == 47 then s.bytes
    else
      var r := if k < OPEN_LOADS then k - 2 else k - OPEN_LOADS;
      if r % 2 == 0 then s.rows[r / 2].allocs else s.rows[r / 2].allocBytes
  }

  /** Row `i` is loaded twice, column by column, at the same distance. */
  lemma LoadedRow(s: State, i: nat, column: nat)
    requires i < ROWS && column < 2
    ensures Loaded(s, 2 + 2 * i + column) == Loaded(s, 24 + 2 * i + column)
    ensures Loaded(s, 24 + 2 * i + column) == if column == 0 then s.rows[i].allocs else s.rows[i].allocBytes
  {
  }

  // ---- Steps ----

  predicate Valid(s: State, m: Move) {
    match m
    case Begin(thread, scope, _) =>
      thread < |s.threads| && s.threads[thread].Idle? && (scope.Some? ==> scope.value < ROWS)
    case Advance(thread) => thread < |s.threads| && !s.threads[thread].Idle?
    case Load => |s.loads| < ALL_LOADS
  }

  predicate InRows(phase: Phase) {
    match phase
    case Idle => true
    case Counted(scope, _) => scope.Some? ==> scope.value < ROWS
    case Sized(scope, _) => scope.Some? ==> scope.value < ROWS
    case RowCounted(slot, _) => slot < ROWS
  }

  predicate Shaped(s: State) {
    |s.loads| <= ALL_LOADS && forall t :: 0 <= t < |s.threads| ==> InRows(s.threads[t])
  }

  /** One more increment by a thread in the middle of its hook. */
  function Advanced(s: State, t: nat): State
    requires Shaped(s) && t < |s.threads| && !s.threads[t].Idle?
  {
    match s.threads[t]
    case Counted(scope, size) =>
      s.(
        bytes := s.bytes + size,
        unscopedBytes := if scope.None? then s.unscopedBytes + size else s.unscopedBytes,
        threads := s.threads[t := Sized(scope, size)])
    case Sized(scope, size) =>
      if scope.None? then s.(threads := s.threads[t := Idle])
      else
        s.(
          rows := s.rows[scope.value := s.rows[scope.value].Plus(ClassCounts(1, 0, 0, 0))],
          threads := s.threads[t := RowCounted(scope.value, size)])
    case RowCounted(slot, size) =>
      s.(
        rows := s.rows[slot := s.rows[slot].Plus(ClassCounts(0, size, 0, 0))],
        threads := s.threads[t := Idle])
  }

  function Next(s: State, m: Move): State
    requires Shaped(s) && Valid(s, m)
  {
    match m
    case Begin(t, scope, size) =>
      s.(
        calls := s.calls + 1,
        unscoped := if scope.None? then s.unscoped + 1 else s.unscoped,
        threads := s.threads[t := Counted(scope, size)])
    case Advance(t) => Advanced(s, t)
    case Load =>
      var k := |s.loads|;
      s.(
        loads := s.loads + [Loaded(s, k)],
        atCalls := if k == 0 then Snapshot(s.rows, s.unscoped, Pending(s)) else s.atCalls,
        atBytes := if k == 1 then Snapshot(s.rows, s.unscopedBytes, PendingBytes(s)) else s.atBytes)
  }

  // ---- Allocations that have reached the totals but not yet their row ----

  function PendingCall(phase: Phase): int {
    match phase
    case Counted(scope, _) => if scope.Some? then 1 else 0
    case Sized(scope, _) => if scope.Some? then 1 else 0
    case _ => 0
  }

  function PendingSize(phase: Phase): int {
    match phase
    case Sized(scope, size) => if scope.Some? then size else 0
    case RowCounted(_, size) => size
    case _ => 0
  }

  function Pending(s: State): int {
    Total(s.threads, PendingCall)
  }

  function PendingBytes(s: State): int {
    Total(s.threads, PendingSize)
  }

  lemma PendingIsNotNegative(s: State)
    ensures Pending(s) >= 0 && PendingBytes(s) >= 0
  {
    TotalNonNegative(s.threads, PendingCall);
    TotalNonNegative(s.threads, PendingSize);
  }

  // ---- Conservation: every counted allocation is in a row, outside every class, or on its way ----

  predicate Conserved(s: State) {
    && s.calls == Sum(s.rows).allocs + s.unscoped + Pending(s)
    && s.bytes == Sum(s.rows).allocBytes + s.unscopedBytes + PendingBytes(s)
  }

  lemma NextConserves(s: State, m: Move)
    requires Shaped(s) && Valid(s, m) && Conserved(s)
    ensures Shaped(Next(s, m)) && Conserved(Next(s, m))
  {
    hide SumTo;
    hide Total;
    var after := Next(s, m);
    if !m.Load? {
      TotalUpdate(s.threads, m.thread, after.threads[m.thread], PendingCall);
      TotalUpdate(s.threads, m.thread, after.threads[m.thread], PendingSize);
      var phase := s.threads[m.thread];
      if phase.Sized? && phase.scope.Some? {
        SumUpdate(s.rows, phase.scope.value, ClassCounts(1, 0, 0, 0), CLASS_COUNT);
      } else if phase.RowCounted? {
        SumUpdate(s.rows, phase.slot, ClassCounts(0, phase.size, 0, 0), CLASS_COUNT);
      }
    }
  }

  // ---- Counters only grow ----

  predicate RowsAtMost(a: Ledger, b: Ledger) {
    forall i :: 0 <= i < ROWS ==> a[i].AtMost(b[i])
  }

  predicate Later(s: State, t: State) {
    && s.calls <= t.calls && s.bytes <= t.bytes && RowsAtMost(s.rows, t.rows)
    && s.unscoped <= t.unscoped && s.unscopedBytes <= t.unscopedBytes
  }

  lemma NextIsLater(s: State, m: Move)
    requires Shaped(s) && Valid(s, m)
    ensures Later(s, Next(s, m))
  {
  }

  lemma LoadedGrows(s: State, t: State, k: nat)
    requires Later(s, t) && k < ALL_LOADS
    ensures Loaded(s, k) <= Loaded(t, k)
  {
  }

  // ---- What the loads say ----

  /** The rows as the span read them when it opened, and when it closed. */
  function OpenRows(loads: seq<nat>): Ledger
    requires |loads| == ALL_LOADS
  {
    seq(CLASS_COUNT, i requires 0 <= i < CLASS_COUNT => ClassCounts(loads[2 + 2 * i], loads[3 + 2 * i], 0, 0))
  }

  function CloseRows(loads: seq<nat>): Ledger
    requires |loads| == ALL_LOADS
  {
    seq(CLASS_COUNT, i requires 0 <= i < CLASS_COUNT => ClassCounts(loads[24 + 2 * i], loads[25 + 2 * i], 0, 0))
  }

  function Span(loads: seq<nat>): ClassifiedCounts
    requires |loads| == ALL_LOADS
  {
    ClassifiedCounts(
      AllocCounts(Saturating(loads[46], loads[0]), Saturating(loads[47], loads[1]), 0, 0, 0),
      SinceRows(CloseRows(loads), OpenRows(loads)))
  }

  /** Every load so far is at most what the counter holds now. */
  predicate LoadsBelow(s: State) {
    |s.loads| <= ALL_LOADS && forall k :: 0 <= k < |s.loads| ==> s.loads[k] <= Loaded(s, k)
  }

  /** Row loads at close are at least the ones at open, which are at least the rows when the total was loaded. */
  predicate LoadsOrdered(s: State) {
    && (forall k :: 2 <= k < |s.loads| && k < 24 ==>
      s.loads[k] >= if k % 2 == 0 then s.atCalls.rows[(k - 2) / 2].allocs else s.atBytes.rows[(k - 2) / 2].allocBytes)
    && (forall k :: 24 <= k < |s.loads| && k < 46 ==> s.loads[k - 22] <= s.loads[k])
    && (|s.loads| > 46 ==> s.loads[0] <= s.loads[46])
    && (|s.loads| > 47 ==> s.loads[1] <= s.loads[47])
  }

  predicate SnapshotCalls(s: State) {
    |s.loads| > 0 ==>
      && s.loads[0] == Sum(s.atCalls.rows).allocs + s.atCalls.unscoped + s.atCalls.pending
      && RowsAtMost(s.atCalls.rows, s.rows) && s.atCalls.unscoped <= s.unscoped
  }

  predicate SnapshotBytes(s: State) {
    |s.loads| > 1 ==>
      && s.loads[1] == Sum(s.atBytes.rows).allocBytes + s.atBytes.unscoped + s.atBytes.pending
      && RowsAtMost(s.atBytes.rows, s.rows) && s.atBytes.unscoped <= s.unscopedBytes
  }

  /** The closing totals cover the closing rows and whatever ran outside every class before the span. */
  predicate TotalsCover(s: State) {
    && (|s.loads| > 46 ==> s.loads[46] >= SumClosed(s.loads, 0, ROWS) + s.atCalls.unscoped)
    && (|s.loads| > 47 ==> s.loads[47] >= SumClosed(s.loads, 1, ROWS) + s.atBytes.unscoped)
  }

  /** The first `n` closing rows added up, in one column. */
  function SumClosed(loads: seq<nat>, column: nat, n: nat): nat
    requires n <= ROWS && column < 2 && |loads| >= 46
  {
    if n == 0 then 0 else SumClosed(loads, column, n - 1) + loads[24 + 2 * (n - 1) + column]
  }

  lemma {:induction false} SumClosedBelow(s: State, column: nat, n: nat)
    requires n <= ROWS && column < 2 && 46 <= |s.loads| && LoadsBelow(s)
    ensures SumClosed(s.loads, column, n)
         <= if column == 0 then SumTo(s.rows, n).allocs else SumTo(s.rows, n).allocBytes
  {
    if n > 0 {
      hide Loaded;
      SumClosedBelow(s, column, n - 1);
      var k := 24 + 2 * (n - 1) + column;
      assert s.loads[k] <= Loaded(s, k);
      LoadedRow(s, n - 1, column);
    }
  }

  lemma {:induction false} SumClosedStays(a: seq<nat>, b: seq<nat>, column: nat, n: nat)
    requires n <= ROWS && column < 2 && |a| >= 46 && |b| >= 46 && a[..46] == b[..46]
    ensures SumClosed(a, column, n) == SumClosed(b, column, n)
  {
    if n > 0 {
      SumClosedStays(a, b, column, n - 1);
      var k := 24 + 2 * (n - 1) + column;
      assert a[k] == a[..46][k] && b[k] == b[..46][k];
    }
  }

  ghost predicate Inv(s: State) {
    && Shaped(s) && Conserved(s) && LoadsBelow(s) && LoadsOrdered(s) && SnapshotCalls(s) && SnapshotBytes(s)
    && TotalsCover(s)
  }

  // ---- The invariant is kept ----

  /** A step of a thread. */
  lemma ThreadKeeps(s: State, m: Move)
    requires Inv(s) && Valid(s, m) && !m.Load?
    ensures Inv(Next(s, m))
  {
    hide Sum;
    hide Total;
    hide Loaded;
    hide SumClosed;
    var t := Next(s, m);
    NextConserves(s, m);
    NextIsLater(s, m);
    assert t.loads == s.loads && t.atCalls == s.atCalls && t.atBytes == s.atBytes;
    forall k | 0 <= k < |t.loads|
      ensures t.loads[k] <= Loaded(t, k)
    {
      LoadedGrows(s, t, k);
    }
    forall i | 0 <= i < ROWS && |s.loads| > 0
      ensures s.atCalls.rows[i].AtMost(t.rows[i])
    {
      assert s.atCalls.rows[i].AtMost(s.rows[i]) && s.rows[i].AtMost(t.rows[i]);
    }
    forall i | 0 <= i < ROWS && |s.loads| > 1
      ensures s.atBytes.rows[i].AtMost(t.rows[i])
    {
      assert s.atBytes.rows[i].AtMost(s.rows[i]) && s.rows[i].AtMost(t.rows[i]);
    }
  }

  lemma LoadKeepsBelow(s: State)
    requires Inv(s) && Valid(s, Load)
    ensures LoadsBelow(Next(s, Load))
  {
    hide Sum;
    hide Total;
    hide SumClosed;
    hide Conserved;
    var t := Next(s, Load);
    forall k | 0 <= k < |t.loads|
      ensures t.loads[k] <= Loaded(t, k)
    {
      assert Loaded(t, k) == Loaded(s, k);
    }
  }

  lemma NextLoadOrdered(s: State)
    requires Inv(s) && Valid(s, Load)
    ensures var n := |s.loads|;
      && (2 <= n < 24 && n % 2 == 0 ==> s.atCalls.rows[(n - 2) / 2].allocs <= Loaded(s, n))
      && (2 <= n < 24 && n % 2 == 1 ==> s.atBytes.rows[(n - 2) / 2].allocBytes <= Loaded(s, n))
      && (24 <= n < 46 ==> s.loads[n - 22] <= Loaded(s, n))
      && (n == 46 ==> s.loads[0] <= Loaded(s, 46))
      && (n == 47 ==> s.loads[1] <= Loaded(s, 47))
  {
    hide Sum;
    hide Total;
    hide SumClosed;
    hide Conserved;
    hide LoadsOrdered;
    hide TotalsCover;
    var n := |s.loads|;
    if 2 <= n < 24 {
      LoadedRow(s, (n - 2) / 2, (n - 2) % 2);
      assert s.atCalls.rows[(n - 2) / 2].AtMost(s.rows[(n - 2) / 2]);
      assert s.atBytes.rows[(n - 2) / 2].AtMost(s.rows[(n - 2) / 2]);
    } else if 24 <= n < 46 {
      LoadedRow(s, (n - 24) / 2, (n - 24) % 2);
    }
  }

  lemma LoadKeepsOrder(s: State)
    requires Inv(s) && Valid(s, Load)
    ensures LoadsOrdered(Next(s, Load))
  {
    hide Sum;
    hide Total;
    hide SumClosed;
    hide Conserved;
    hide Loaded;
    NextLoadOrdered(s);
  }

  lemma LoadKeepsTotals(s: State)
    requires Inv(s) && Valid(s, Load)
    ensures SnapshotCalls(Next(s, Load)) && SnapshotBytes(Next(s, Load)) && TotalsCover(Next(s, Load))
  {
    hide SumTo;
    hide Total;
    hide LoadsBelow;
    hide LoadsOrdered;
    var t := Next(s, Load);
    var n := |s.loads|;
    PendingIsNotNegative(s);
    if n >= 46 {
      assert t.loads[..46] == s.loads[..46];
      SumClosedStays(s.loads, t.loads, 0, ROWS);
      SumClosedStays(s.loads, t.loads, 1, ROWS);
      SumClosedBelow(s, 0, ROWS);
      SumClosedBelow(s, 1, ROWS);
    }
  }

  lemma LoadKeeps(s: State)
    requires Inv(s) && Valid(s, Load)
    ensures Inv(Next(s, Load))
  {
    hide LoadsBelow;
    hide LoadsOrdered;
    hide SnapshotCalls;
    hide SnapshotBytes;
    hide TotalsCover;
    NextConserves(s, Load);
    LoadKeepsBelow(s);
    LoadKeepsOrder(s);
    LoadKeepsTotals(s);
  }

  // ---- Runs ----

  function Init(threads: nat): State {
    var nothing := Snapshot(NoCounts(), 0, 0);
    State(0, 0, NoCounts(), seq(threads, i => Idle), [], 0, 0, nothing, nothing)
  }

  ghost predicate ValidRun(s: State, moves: seq<Move>)
    requires Shaped(s)
    decreases |moves|
  {
    moves == [] || (Valid(s, moves[0]) && Shaped(Next(s, moves[0])) && ValidRun(Next(s, moves[0]), moves[1..]))
  }

  ghost function After(s: State, moves: seq<Move>): State
    requires Shaped(s) && ValidRun(s, moves)
    decreases |moves|
  {
    if moves == [] then s else After(Next(s, moves[0]), moves[1..])
  }

  lemma InitHolds(threads: nat)
    ensures Inv(Init(threads))
  {
    hide SumTo;
    hide Total;
    var s := Init(threads);
    SumOfNothing(s.rows, CLASS_COUNT);
    TotalZero(s.threads, PendingCall);
    TotalZero(s.threads, PendingSize);
  }

  lemma {:induction false} RunKeeps(s: State, moves: seq<Move>)
    requires Shaped(s) && Inv(s) && ValidRun(s, moves)
    ensures Inv(After(s, moves))
    decreases |moves|
  {
    hide Inv;
    hide Next;
    if moves != [] {
      if moves[0].Load? {
        LoadKeeps(s);
      } else {
        ThreadKeeps(s, moves[0]);
      }
      RunKeeps(Next(s, moves[0]), moves[1..]);
    }
  }

  /** Once taken, a snapshot stays. */
  lemma {:induction false} SnapshotsStay(s: State, moves: seq<Move>)
    requires Shaped(s) && ValidRun(s, moves)
    ensures |s.loads| <= |After(s, moves).loads|
    ensures |s.loads| > 0 ==> After(s, moves).atCalls == s.atCalls
    ensures |s.loads| > 1 ==> After(s, moves).atBytes == s.atBytes
    decreases |moves|
  {
    if moves != [] {
      SnapshotsStay(Next(s, moves[0]), moves[1..]);
    }
  }

  // ---- The residual ----

  lemma {:induction false} SumOfCloseRows(loads: seq<nat>, n: nat)
    requires |loads| == ALL_LOADS && n <= ROWS
    ensures SumTo(CloseRows(loads), n).allocs == SumClosed(loads, 0, n)
    ensures SumTo(CloseRows(loads), n).allocBytes == SumClosed(loads, 1, n)
  {
    if n > 0 {
      SumOfCloseRows(loads, n - 1);
    }
  }

  lemma RowsInOrder(s: State)
    requires Inv(s) && |s.loads| == ALL_LOADS
    ensures RowsAtMost(OpenRows(s.loads), CloseRows(s.loads))
    ensures Sum(s.atCalls.rows).allocs <= Sum(OpenRows(s.loads)).allocs
    ensures Sum(s.atBytes.rows).allocBytes <= Sum(OpenRows(s.loads)).allocBytes
  {
    hide Conserved;
    hide SnapshotCalls;
    hide SnapshotBytes;
    hide TotalsCover;
    hide LoadsBelow;
    var rows := OpenRows(s.loads);
    forall i | 0 <= i < ROWS
      ensures rows[i].AtMost(CloseRows(s.loads)[i])
    {
      assert s.loads[24 + 2 * i - 22] <= s.loads[24 + 2 * i] && s.loads[25 + 2 * i - 22] <= s.loads[25 + 2 * i];
    }
    forall i | 0 <= i < ROWS
      ensures s.atCalls.rows[i].allocs <= rows[i].allocs && s.atBytes.rows[i].allocBytes <= rows[i].allocBytes
    {
      var k := 2 + 2 * i;
      assert k % 2 == 0 && (k - 2) / 2 == i && (k + 1) % 2 == 1 && (k + 1 - 2) / 2 == i;
      assert s.loads[k] >= s.atCalls.rows[i].allocs && s.loads[k + 1] >= s.atBytes.rows[i].allocBytes;
    }
    SumColumnsAtMost(s.atCalls.rows, s.atBytes.rows, rows, ROWS);
  }

  lemma {:induction false} SumColumnsAtMost(a: Ledger, b: Ledger, c: Ledger, n: nat)
    requires n <= ROWS
    requires forall i :: 0 <= i < ROWS ==> a[i].allocs <= c[i].allocs && b[i].allocBytes <= c[i].allocBytes
    ensures SumTo(a, n).allocs <= SumTo(c, n).allocs && SumTo(b, n).allocBytes <= SumTo(c, n).allocBytes
  {
    if n > 0 {
      SumColumnsAtMost(a, b, c, n - 1);
    }
  }

  lemma ResidualBound(s: State)
    requires Inv(s) && |s.loads| == ALL_LOADS
    ensures Span(s.loads).ResidualAllocs() >= -s.atCalls.pending
    ensures Span(s.loads).ResidualBytes() >= -s.atBytes.pending
  {
    hide SumTo;
    hide Conserved;
    hide LoadsBelow;
    RowsInOrder(s);
    SumOfCloseRows(s.loads, ROWS);
    SumSince(CloseRows(s.loads), OpenRows(s.loads));
  }

  /**
   In every interleaving, a span claims at most as many allocations more than were made as there were
   threads between their total and their row when it loaded the call total.
   */
  lemma ResidualAllocsBound(threads: nat, before: seq<Move>, after: seq<Move>)
    requires ValidRun(Init(threads), before)
    requires var s := After(Init(threads), before); Shaped(s) && s.loads == [] && ValidRun(s, [Load] + after)
    ensures var s := After(Init(threads), before);
      var end := After(s, [Load] + after);
      |end.loads| == ALL_LOADS ==>
        && Span(end.loads).ResidualAllocs() >= -Pending(s)
        && (Pending(s) == 0 ==> Span(end.loads).ResidualAllocs() >= 0)
  {
    hide Inv;
    hide Total;
    hide Span;
    InitHolds(threads);
    RunKeeps(Init(threads), before);
    var s := After(Init(threads), before);
    var moves := [Load] + after;
    assert moves[0] == Load && moves[1..] == after;
    RunKeeps(s, moves);
    SnapshotsStay(Next(s, Load), after);
    if |After(s, moves).loads| == ALL_LOADS {
      ResidualBound(After(s, moves));
    }
  }

  /** The same for bytes, with the threads between their byte total and their row's bytes at the second load. */
  lemma ResidualBytesBound(threads: nat, before: seq<Move>, after: seq<Move>)
    requires ValidRun(Init(threads), before)
    requires var s := After(Init(threads), before); Shaped(s) && |s.loads| == 1 && ValidRun(s, [Load] + after)
    ensures var s := After(Init(threads), before);
      var end := After(s, [Load] + after);
      |end.loads| == ALL_LOADS ==>
        && Span(end.loads).ResidualBytes() >= -PendingBytes(s)
        && (PendingBytes(s) == 0 ==> Span(end.loads).ResidualBytes() >= 0)
  {
    hide Inv;
    hide Total;
    hide Span;
    InitHolds(threads);
    RunKeeps(Init(threads), before);
    var s := After(Init(threads), before);
    var moves := [Load] + after;
    assert moves[0] == Load && moves[1..] == after;
    RunKeeps(s, moves);
    SnapshotsStay(Next(s, Load), after);
    if |After(s, moves).loads| == ALL_LOADS {
      ResidualBound(After(s, moves));
    }
  }

  // ---- The bound is reached ----

  function Loads(n: nat): seq<Move> {
    seq(n, i => Load)
  }

  /** What `n` loads in a row return, from the `k`th on. */
  function LoadedFrom(s: State, k: nat, n: nat): (r: seq<nat>)
    requires k + n <= ALL_LOADS
    ensures |r| == n && forall i :: 0 <= i < n ==> r[i] == Loaded(s, k + i)
  {
    seq<nat>(n, i requires 0 <= i < n => Loaded(s, k + i))
  }

  /** The counters and the threads, without what a span does. */
  predicate SameCounters(s: State, t: State) {
    && s.calls == t.calls && s.bytes == t.bytes && s.rows == t.rows && s.threads == t.threads
    && s.unscoped == t.unscoped && s.unscopedBytes == t.unscopedBytes
  }

  lemma {:induction false} LoadsRead(s: State, n: nat)
    requires Shaped(s) && |s.loads| + n <= ALL_LOADS
    ensures ValidRun(s, Loads(n)) && SameCounters(s, After(s, Loads(n)))
    ensures After(s, Loads(n)).loads == s.loads + LoadedFrom(s, |s.loads|, n)
    decreases n
  {
    hide Loaded;
    if n == 0 {
      assert s.loads + LoadedFrom(s, |s.loads|, 0) == s.loads;
    } else {
      var t := Next(s, Load);
      assert Loads(n)[0] == Load && Loads(n)[1..] == Loads(n - 1);
      assert Shaped(t);
      LoadsRead(t, n - 1);
      LoadsDependOnCounters(s, t);
      assert t.loads + LoadedFrom(t, |t.loads|, n - 1) == s.loads + LoadedFrom(s, |s.loads|, n);
    }
  }

  lemma LoadsDependOnCounters(s: State, t: State)
    requires s.calls == t.calls && s.bytes == t.bytes && s.rows == t.rows
    ensures forall k :: 0 <= k < ALL_LOADS ==> Loaded(s, k) == Loaded(t, k)
  {
  }

  lemma {:induction false} RunsJoin(s: State, a: seq<Move>, b: seq<Move>)
    requires Shaped(s) && ValidRun(s, a) && Shaped(After(s, a)) && ValidRun(After(s, a), b)
    ensures ValidRun(s, a + b) && After(s, a + b) == After(After(s, a), b)
    decreases |a|
  {
    hide Next;
    if a == [] {
      assert a + b == b;
    } else {
      assert (a + b)[0] == a[0] && (a + b)[1..] == a[1..] + b;
      RunsJoin(Next(s, a[0]), a[1..], b);
    }
  }

  lemma OneMove(s: State, m: Move)
    requires Shaped(s) && Valid(s, m) && Shaped(Next(s, m))
    ensures ValidRun(s, [m]) && After(s, [m]) == Next(s, m)
  {
    assert [m][1..] == [];
  }

  // ---- Letting every thread reach its row, and no further ----

  /** The steps that take a thread past the count of its row, or past its bytes. */
  function ToRow(phase: Phase, t: nat, bytes: bool): seq<Move> {
    match phase
    case Counted(scope, _) => if scope.Some? && !bytes then [Advance(t), Advance(t)] else []
    case Sized(scope, _) =>
      if scope.None? then [] else if bytes then [Advance(t), Advance(t)] else [Advance(t)]
    case RowCounted(_, _) => if bytes then [Advance(t)] else []
    case Idle => []
  }

  /** A thread has been let go on: nothing of it is pending, and no total has moved but the other column's. */
  predicate Drained(s: State, e: State, bytes: bool) {
    && Shaped(e) && e.loads == s.loads && |e.threads| == |s.threads| && RowsAtMost(s.rows, e.rows)
    && (if bytes then e.bytes == s.bytes && e.unscopedBytes == s.unscopedBytes
        else e.calls == s.calls && e.unscoped == s.unscoped)
  }

  function PendingOf(bytes: bool): Phase -> int {
    if bytes then PendingSize else PendingCall
  }

  predicate OthersStay(s: State, e: State, t: nat) {
    |e.threads| == |s.threads| && forall i :: 0 <= i < |s.threads| && i != t ==> e.threads[i] == s.threads[i]
  }

  lemma OneAdvance(s: State, t: nat, bytes: bool)
    requires Shaped(s) && t < |s.threads| && !s.threads[t].Idle? && (bytes ==> !s.threads[t].Counted?)
    ensures Drained(s, Next(s, Advance(t)), bytes) && OthersStay(s, Next(s, Advance(t)), t)
    ensures ValidRun(s, [Advance(t)]) && After(s, [Advance(t)]) == Next(s, Advance(t))
  {
    var e := Next(s, Advance(t));
    assert Shaped(e);
    OneMove(s, Advance(t));
    NextIsLater(s, Advance(t));
  }

  lemma TwoAdvances(s: State, t: nat, bytes: bool)
    requires Shaped(s) && t < |s.threads| && !s.threads[t].Idle? && (bytes ==> !s.threads[t].Counted?)
    requires var m := Next(s, Advance(t));
      Shaped(m) && t < |m.threads| && !m.threads[t].Idle? && (bytes ==> !m.threads[t].Counted?)
    ensures ValidRun(s, [Advance(t), Advance(t)])
    ensures After(s, [Advance(t), Advance(t)]) == Next(Next(s, Advance(t)), Advance(t))
    ensures var e := Next(Next(s, Advance(t)), Advance(t)); Drained(s, e, bytes) && OthersStay(s, e, t)
  {
    hide Next;
    hide Shaped;
    hide ValidRun;
    hide After;
    hide RowsAtMost;
    var m := Next(s, Advance(t));
    OneAdvance(s, t, bytes);
    OneAdvance(m, t, bytes);
    RunsJoin(s, [Advance(t)], [Advance(t)]);
    assert [Advance(t)] + [Advance(t)] == [Advance(t), Advance(t)];
    RowsStillAtMost(s.rows, m.rows, Next(m, Advance(t)).rows);
  }

  lemma OneDrained(s: State, t: nat, bytes: bool)
    requires Shaped(s) && t < |s.threads|
    ensures var moves := ToRow(s.threads[t], t, bytes);
      && ValidRun(s, moves)
      && var e := After(s, moves);
        Drained(s, e, bytes) && PendingOf(bytes)(e.threads[t]) == 0 && OthersStay(s, e, t)
  {
    var moves := ToRow(s.threads[t], t, bytes);
    hide RowsAtMost;
    if |moves| == 2 {
      OneAdvance(s, t, bytes);
      TwoAdvances(s, t, bytes);
    } else if |moves| == 1 {
      OneAdvance(s, t, bytes);
    } else {
      RowsAtMostSelf(s.rows);
    }
  }

  ghost function Drains(s: State, n: nat, bytes: bool): seq<Move>
    requires n <= |s.threads|
  {
    if n == 0 then [] else Drains(s, n - 1, bytes) + ToRow(s.threads[n - 1], n - 1, bytes)
  }

  lemma {:induction false} AllDrained(s: State, n: nat, bytes: bool)
    requires Shaped(s) && n <= |s.threads|
    ensures DrainedTo(s, n, bytes)
  {
    if n > 0 {
      hide *;
      AllDrained(s, n - 1, bytes);
      DrainsOneMore(s, n, bytes);
    } else {
      RowsAtMostSelf(s.rows);
    }
  }

  ghost predicate DrainedTo(s: State, n: nat, bytes: bool)
    requires Shaped(s) && n <= |s.threads|
  {
    && ValidRun(s, Drains(s, n, bytes))
    && var e := After(s, Drains(s, n, bytes));
      && Drained(s, e, bytes)
      && (forall i :: 0 <= i < n ==> PendingOf(bytes)(e.threads[i]) == 0)
      && (forall i :: n <= i < |s.threads| ==> e.threads[i] == s.threads[i])
  }

  lemma DrainsOneMore(s: State, n: nat, bytes: bool)
    requires Shaped(s) && 0 < n <= |s.threads| && DrainedTo(s, n - 1, bytes)
    ensures DrainedTo(s, n, bytes)
  {
    hide Shaped;
    hide ToRow;
    hide ValidRun;
    hide After;
    hide PendingOf;
    hide RowsAtMost;
    var e := After(s, Drains(s, n - 1, bytes));
    var more := ToRow(e.threads[n - 1], n - 1, bytes);
    OneDrained(e, n - 1, bytes);
    RunsJoin(s, Drains(s, n - 1, bytes), more);
    RowsStillAtMost(s.rows, e.rows, After(e, more).rows);
  }

  lemma RowsAtMostSelf(a: Ledger)
    ensures RowsAtMost(a, a)
  {
  }

  lemma RowsStillAtMost(a: Ledger, b: Ledger, c: Ledger)
    requires RowsAtMost(a, b) && RowsAtMost(b, c)
    ensures RowsAtMost(a, c)
  {
    forall i | 0 <= i < ROWS
      ensures a[i].AtMost(c[i])
    {
      assert a[i].AtMost(b[i]) && b[i].AtMost(c[i]);
    }
  }

  /** A span that opens on `s`, waits for the threads, and closes. */
  ghost function Worst(s: State, bytes: bool): seq<Move>
    requires |s.loads| <= 24
  {
    Loads(24 - |s.loads|) + Drains(s, |s.threads|, bytes) + Loads(24)
  }

  lemma DrainsAgree(s: State, t: State, n: nat, bytes: bool)
    requires s.threads == t.threads && n <= |s.threads|
    ensures Drains(s, n, bytes) == Drains(t, n, bytes)
  {
    if n > 0 {
      DrainsAgree(s, t, n - 1, bytes);
    }
  }

  lemma WorstRuns(s: State, bytes: bool) returns (e: State)
    requires Inv(s) && |s.loads| <= 2
    ensures ValidRun(s, Worst(s, bytes)) && Inv(e)
    ensures (if bytes then e.bytes == s.bytes && e.unscopedBytes == s.unscopedBytes && PendingBytes(e) == 0
             else e.calls == s.calls && e.unscoped == s.unscoped && Pending(e) == 0)
    ensures RowsAtMost(s.rows, e.rows)
    ensures After(s, Worst(s, bytes)).loads
         == s.loads + LoadedFrom(s, |s.loads|, 24 - |s.loads|) + LoadedFrom(e, 24, 24)
  {
    hide Inv;
    hide Loaded;
    hide ValidRun;
    hide After;
    hide Next;
    ShapedByInv(s);
    var n := |s.threads|;
    var opening, waiting, closing := Loads(24 - |s.loads|), Drains(s, n, bytes), Loads(24);
    LoadsRead(s, 24 - |s.loads|);
    RunKeeps(s, opening);
    var o := After(s, opening);
    ShapedByInv(o);
    DrainsAgree(s, o, n, bytes);
    AllDrained(o, n, bytes);
    RunKeeps(o, waiting);
    e := After(o, waiting);
    NothingPending(e, bytes);
    LoadsRead(e, 24);
    RunsJoin(s, opening, waiting);
    RunsJoin(s, opening + waiting, closing);
  }

  lemma ShapedByInv(s: State)
    requires Inv(s)
    ensures Shaped(s) && Conserved(s)
  {
  }

  lemma NothingPending(e: State, bytes: bool)
    requires forall i :: 0 <= i < |e.threads| ==> PendingOf(bytes)(e.threads[i]) == 0
    ensures if bytes then PendingBytes(e) == 0 else Pending(e) == 0
  {
    TotalZero(e.threads, PendingOf(bytes));
  }

  /** The rows of a span whose loads were not disturbed. */
  lemma QuietSpan(s: State, e: State, loads: seq<nat>)
    requires |loads| == ALL_LOADS && RowsAtMost(s.rows, e.rows)
    requires forall k :: 2 <= k < 24 ==> loads[k] == Loaded(s, k)
    requires forall k :: 24 <= k < 46 ==> loads[k] == Loaded(e, k)
    ensures var classes := Sum(Span(loads).classes);
      && classes.allocs == Sum(e.rows).allocs - Sum(s.rows).allocs
      && classes.allocBytes == Sum(e.rows).allocBytes - Sum(s.rows).allocBytes
  {
    hide SumTo;
    hide Loaded;
    var first, last := OpenRows(loads), CloseRows(loads);
    forall i | 0 <= i < ROWS
      ensures first[i].allocs == s.rows[i].allocs && first[i].allocBytes == s.rows[i].allocBytes
      ensures last[i].allocs == e.rows[i].allocs && last[i].allocBytes == e.rows[i].allocBytes
      ensures first[i].AtMost(last[i])
    {
      LoadedRow(s, i, 0);
      LoadedRow(s, i, 1);
      LoadedRow(e, i, 0);
      LoadedRow(e, i, 1);
      assert s.rows[i].AtMost(e.rows[i]);
    }
    SumColumnsAtMost(s.rows, s.rows, first, ROWS);
    SumColumnsAtMost(first, first, s.rows, ROWS);
    SumColumnsAtMost(e.rows, e.rows, last, ROWS);
    SumColumnsAtMost(last, last, e.rows, ROWS);
    SumSince(last, first);
  }

  lemma WorstResidual(s: State, bytes: bool)
    requires Inv(s) && (if bytes then |s.loads| == 1 else s.loads == [])
    ensures ValidRun(s, Worst(s, bytes)) && |After(s, Worst(s, bytes)).loads| == ALL_LOADS
    ensures var span := Span(After(s, Worst(s, bytes)).loads);
      if bytes then span.ResidualBytes() == -PendingBytes(s) else span.ResidualAllocs() == -Pending(s)
  {
    hide Inv;
    hide ValidRun;
    hide After;
    hide Total;
    hide SumTo;
    hide Span;
    hide Loaded;
    var e := WorstRuns(s, bytes);
    ShapedByInv(s);
    ShapedByInv(e);
    var loads := After(s, Worst(s, bytes)).loads;
    assert forall k :: |s.loads| <= k < 24 ==> loads[k] == Loaded(s, k);
    assert forall k :: 24 <= k < 48 ==> loads[k] == Loaded(e, k);
    QuietSpan(s, e, loads);
    TotalsOfSpan(s, e, loads, bytes);
  }

  lemma TotalsOfSpan(s: State, e: State, loads: seq<nat>, bytes: bool)
    requires |loads| == ALL_LOADS
    requires if bytes then loads[1] == Loaded(s, 1) && loads[47] == Loaded(e, 47) && e.bytes == s.bytes
             else loads[0] == Loaded(s, 0) && loads[46] == Loaded(e, 46) && e.calls == s.calls
    ensures if bytes then Span(loads).total.allocBytes == 0 else Span(loads).total.allocs == 0
  {
  }

  // ---- When a residual can be negative ----

  /** A span runs over `[Load] + after`, from its next load to its last. */
  ghost predicate Closes(s: State, after: seq<Move>) {
    Shaped(s) && ValidRun(s, [Load] + after) && |After(s, [Load] + after).loads| == ALL_LOADS
  }

  ghost function SpanAfter(s: State, after: seq<Move>): ClassifiedCounts
    requires Closes(s, after)
  {
    Span(After(s, [Load] + after).loads)
  }

  lemma WorstStartsWithLoad(s: State, bytes: bool) returns (after: seq<Move>)
    requires |s.loads| < 24
    ensures Worst(s, bytes) == [Load] + after
  {
    after := Worst(s, bytes)[1..];
    assert Worst(s, bytes)[0] == Load;
  }

  lemma Reachable(threads: nat, before: seq<Move>)
    requires ValidRun(Init(threads), before)
    ensures Inv(After(Init(threads), before))
  {
    hide Inv;
    InitHolds(threads);
    RunKeeps(Init(threads), before);
  }

  /** The bound is reached from every reachable state: some way to go on gives exactly that residual. */
  lemma ResidualAllocsReached(threads: nat, before: seq<Move>) returns (after: seq<Move>)
    requires ValidRun(Init(threads), before) && After(Init(threads), before).loads == []
    ensures var s := After(Init(threads), before);
      Closes(s, after) && SpanAfter(s, after).ResidualAllocs() == -Pending(s)
  {
    hide Inv;
    hide ValidRun;
    hide After;
    hide Total;
    hide Span;
    hide Worst;
    Reachable(threads, before);
    var s := After(Init(threads), before);
    ShapedByInv(s);
    WorstResidual(s, false);
    after := WorstStartsWithLoad(s, false);
  }

  lemma ResidualBytesReached(threads: nat, before: seq<Move>) returns (after: seq<Move>)
    requires ValidRun(Init(threads), before) && |After(Init(threads), before).loads| == 1
    ensures var s := After(Init(threads), before);
      Closes(s, after) && SpanAfter(s, after).ResidualBytes() == -PendingBytes(s)
  {
    hide Inv;
    hide ValidRun;
    hide After;
    hide Total;
    hide Span;
    hide Worst;
    Reachable(threads, before);
    var s := After(Init(threads), before);
    ShapedByInv(s);
    WorstResidual(s, true);
    after := WorstStartsWithLoad(s, true);
  }

  /** However the run goes on, the residual is not negative, exactly when no thread is between its total and its row. */
  lemma ResidualAllocsExact(threads: nat, before: seq<Move>)
    requires ValidRun(Init(threads), before) && After(Init(threads), before).loads == []
    ensures var s := After(Init(threads), before);
      (forall after: seq<Move> :: Closes(s, after) ==> SpanAfter(s, after).ResidualAllocs() >= 0) <==> Pending(s) == 0
  {
    hide ValidRun;
    hide After;
    hide Span;
    hide Total;
    var s := After(Init(threads), before);
    PendingIsNotNegative(s);
    if Pending(s) == 0 {
      forall after: seq<Move> | Closes(s, after)
        ensures SpanAfter(s, after).ResidualAllocs() >= 0
      {
        ResidualAllocsBound(threads, before, after);
      }
    } else {
      var after := ResidualAllocsReached(threads, before);
      assert Closes(s, after);
    }
  }

  /** The same for bytes, from the load of the byte total on. */
  lemma ResidualBytesExact(threads: nat, before: seq<Move>)
    requires ValidRun(Init(threads), before) && |After(Init(threads), before).loads| == 1
    ensures var s := After(Init(threads), before);
      (forall after: seq<Move> :: Closes(s, after) ==> SpanAfter(s, after).ResidualBytes() >= 0)
      <==> PendingBytes(s) == 0
  {
    hide ValidRun;
    hide After;
    hide Span;
    hide Total;
    var s := After(Init(threads), before);
    PendingIsNotNegative(s);
    if PendingBytes(s) == 0 {
      forall after: seq<Move> | Closes(s, after)
        ensures SpanAfter(s, after).ResidualBytes() >= 0
      {
        ResidualBytesBound(threads, before, after);
      }
    } else {
      var after := ResidualBytesReached(threads, before);
      assert Closes(s, after);
    }
  }

  /** One thread that has counted its call, and a span that opens on it: one call too many in the rows. */
  lemma NegativeResidual() returns (before: seq<Move>, after: seq<Move>)
    ensures ValidRun(Init(1), before)
    ensures Closes(After(Init(1), before), after) && SpanAfter(After(Init(1), before), after).ResidualAllocs() == -1
  {
    hide Span;
    before := [Begin(0, Some(0), 8)];
    OneMove(Init(1), before[0]);
    var s := After(Init(1), before);
    assert s.threads == [] + [Counted(Some(0), 8)];
    TotalAppend([], s.threads[0], PendingCall);
    after := ResidualAllocsReached(1, before);
  }

  lemma BytesAdded() returns (before: seq<Move>)
    ensures ValidRun(Init(1), before)
    ensures var s := After(Init(1), before); s.threads == [Sized(Some(0), 8)] && |s.loads| == 1
  {
    var begin, size := Begin(0, Some(0), 8), Advance(0);
    var a := Next(Init(1), begin);
    assert a.threads == [Counted(Some(0), 8)];
    var b := Next(a, size);
    assert b.threads == [Sized(Some(0), 8)];
    var c := Next(b, Load);
    assert Shaped(c);
    OneMove(Init(1), begin);
    OneMove(a, size);
    OneMove(b, Load);
    assert |c.loads| == 1 && c.threads == [Sized(Some(0), 8)];
    hide *;
    RunsJoin(Init(1), [begin], [size]);
    RunsJoin(Init(1), [begin] + [size], [Load]);
    before := [begin] + [size] + [Load];
  }

  /** One thread that has added its eight bytes to the total, and a span that has loaded the call total. */
  lemma NegativeBytes() returns (before: seq<Move>, after: seq<Move>)
    ensures ValidRun(Init(1), before)
    ensures Closes(After(Init(1), before), after) && SpanAfter(After(Init(1), before), after).ResidualBytes() == -8
  {
    before := BytesAdded();
    var s := After(Init(1), before);
    assert PendingBytes(s) == 8 by {
      hide After;
      assert s.threads == [] + [Sized(Some(0), 8)];
      TotalAppend([], s.threads[0], PendingSize);
    }
    hide *;
    after := ResidualBytesReached(1, before);
  }
}
