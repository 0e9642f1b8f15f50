/**
 The counting allocator on one thread: what its hooks charge, the class scope that nests and is
 restored on unwind, and spans measured over arbitrary work.

 `Run` threads the thread-local class through the work; `Events` is an independent account that reads
 the class off the work's own nesting. `RunCharges` shows that they agree.
 */
module AllocProbe {
  import opened Bytes
  import opened AllocLedger

  // ---- The hooks ----

  /** All counters, and the class that charges go to now. */
  datatype Counters = Counters(totals: AllocCounts, rows: Ledger, current: nat)

  function ChargeClassAlloc(c: Counters, size: nat): Counters {
    if c.current < CLASS_COUNT then
      c.(rows := c.rows[c.current := c.rows[c.current].Plus(ClassCounts(1, size, 0, 0))])
    else c
  }

  function ChargeClassFree(c: Counters, size: nat): Counters {
    if c.current < CLASS_COUNT then
      c.(rows := c.rows[c.current := c.rows[c.current].Plus(ClassCounts(0, 0, 1, size))])
    else c
  }

  function OnAlloc(c: Counters, size: nat, chunk: nat): Counters {
    ChargeClassAlloc(c.(totals := c.totals.ChargeAlloc(size, chunk)), size)
  }

  function OnFree(c: Counters, size: nat): Counters {
    ChargeClassFree(c.(totals := c.totals.ChargeFree(size)), size)
  }

  function OnRealloc(c: Counters, size: nat, newSize: nat, chunk: nat, newChunk: nat): Counters {
    ChargeClassAlloc(
      c.(totals := c.totals.ChargeRealloc(size, newSize, chunk, newChunk)), Saturating(newSize, size))
  }

  // ---- Work, and what running it does ----

  /** What a piece of code does to the allocator, scopes and panics included. */
  datatype Work =
    | Done
    | Alloc(size: nat, chunk: nat)
    | Free(size: nat)
    | Realloc(size: nat, newSize: nat, chunk: nat, newChunk: nat)
    | Panic
    | Then(first: Work, second: Work)
    | Within(cls: AllocClass, body: Work)
    | Catch(body: Work)

  datatype Ran = Ran(counters: Counters, panicked: bool)

  function Run(c: Counters, w: Work): Ran
    decreases w
  {
    match w
    case Done => Ran(c, false)
    case Alloc(size, chunk) => Ran(OnAlloc(c, size, chunk), false)
    case Free(size) => Ran(OnFree(c, size), false)
    case Realloc(size, newSize, chunk, newChunk) => Ran(OnRealloc(c, size, newSize, chunk, newChunk), false)
    case Panic => Ran(c, true)
    case Then(first, second) => (var r := Run(c, first); if r.panicked then r else Run(r.counters, second))
    case Within(cls, body) =>
      var r := Run(c.(current := Slot(cls)), body);
      Ran(r.counters.(current := c.current), r.panicked)
    case Catch(body) => Ran(Run(c, body).counters, false)
  }

  // ---- An account of the same work from its text ----

  datatype Event = Took(scope: Option<AllocClass>, bytes: nat, chunk: nat) | Gave(scope: Option<AllocClass>, bytes: nat)

  datatype Trace = Trace(events: seq<Event>, panicked: bool)

  /** The events of `w` in order, each with the innermost class that encloses it. */
  function Events(w: Work, scope: Option<AllocClass>): Trace {
    match w
    case Done => Trace([], false)
    case Alloc(size, chunk) => Trace([Took(scope, size, chunk)], false)
    case Free(size) => Trace([Gave(scope, size)], false)
    case Realloc(size, newSize, chunk, newChunk) =>
      Trace([Took(scope, Saturating(newSize, size), Saturating(newChunk, chunk))], false)
    case Panic => Trace([], true)
    case Then(first, second) =>
      var t := Events(first, scope);
      if t.panicked then t
      else var u := Events(second, scope); Trace(t.events + u.events, u.panicked)
    case Within(cls, body) => Events(body, Some(cls))
    case Catch(body) => Trace(Events(body, scope).events, false)
  }

  function EventTotal(e: Event): AllocCounts {
    match e
    case Took(_, bytes, chunk) => AllocCounts(1, bytes, chunk, 0, 0)
    case Gave(_, bytes) => AllocCounts(0, 0, 0, 1, bytes)
  }

  function EventRow(e: Event): ClassCounts {
    match e
    case Took(_, bytes, _) => ClassCounts(1, bytes, 0, 0)
    case Gave(_, bytes) => ClassCounts(0, 0, 1, bytes)
  }

  function Total(events: seq<Event>): AllocCounts {
    if events == [] then AllocCounts(0, 0, 0, 0, 0) else EventTotal(events[0]).Plus(Total(events[1..]))
  }

  /** What the events in one scope add up to; `None` is no scope at all. */
  function Row(events: seq<Event>, scope: Option<AllocClass>): ClassCounts {
    if events == [] then ClassCounts(0, 0, 0, 0)
    else
      var rest := Row(events[1..], scope);
      if events[0].scope == scope then EventRow(events[0]).Plus(rest) else rest
  }

  lemma {:induction false} TotalConcat(a: seq<Event>, b: seq<Event>)
    ensures Total(a + b) == Total(a).Plus(Total(b))
  {
    if a == [] {
      assert a + b == b;
    } else {
      assert (a + b)[0] == a[0] && (a + b)[1..] == a[1..] + b;
      TotalConcat(a[1..], b);
    }
  }

  lemma {:induction false} RowConcat(a: seq<Event>, b: seq<Event>, scope: Option<AllocClass>)
    ensures Row(a + b, scope) == Row(a, scope).Plus(Row(b, scope))
  {
    if a == [] {
      assert a + b == b;
    } else {
      assert (a + b)[0] == a[0] && (a + b)[1..] == a[1..] + b;
      RowConcat(a[1..], b, scope);
    }
  }

  predicate InScope(c: Counters) {
    c.current < CLASS_COUNT || c.current == UNCLASSIFIED
  }

  function Scope(c: Counters): Option<AllocClass>
    requires InScope(c)
  {
    if c.current < CLASS_COUNT then Some(ALL[c.current]) else None
  }

  /** The counters with a list of events charged on top of them, and the same class in scope. */
  ghost predicate Charged(before: Counters, after: Counters, events: seq<Event>) {
    && after.current == before.current
    && after.totals == before.totals.Plus(Total(events))
    && forall i :: 0 <= i < CLASS_COUNT ==> after.rows[i] == before.rows[i].Plus(Row(events, Some(ALL[i])))
  }

  lemma NothingCharged(c: Counters)
    ensures Charged(c, c, [])
  {
  }

  lemma OneCharged(before: Counters, after: Counters, e: Event)
    requires InScope(before) && e.scope == Scope(before) && after.current == before.current
    requires after.totals == before.totals.Plus(EventTotal(e))
    requires after.rows == if before.current < CLASS_COUNT
      then before.rows[before.current := before.rows[before.current].Plus(EventRow(e))] else before.rows
    ensures Charged(before, after, [e])
  {
    assert [e][1..] == [];
    assert Total([e]) == EventTotal(e).Plus(Total([]));
    forall i | 0 <= i < CLASS_COUNT
      ensures after.rows[i] == before.rows[i].Plus(Row([e], Some(ALL[i])))
    {
      SlotsAreDense(i);
      if before.current < CLASS_COUNT {
        SlotsAreDense(before.current);
      }
      assert Row([e], Some(ALL[i])) == if i == before.current then EventRow(e) else ClassCounts(0, 0, 0, 0);
    }
  }

  lemma TotalsAssociate(a: AllocCounts, b: AllocCounts, c: AllocCounts)
    ensures a.Plus(b).Plus(c) == a.Plus(b.Plus(c))
  {
  }

  lemma RowsAssociate(a: ClassCounts, b: ClassCounts, c: ClassCounts)
    ensures a.Plus(b).Plus(c) == a.Plus(b.Plus(c))
  {
  }

  lemma BothCharged(a: Counters, b: Counters, c: Counters, first: seq<Event>, second: seq<Event>)
    requires Charged(a, b, first) && Charged(b, c, second)
    ensures Charged(a, c, first + second)
  {
    TotalConcat(first, second);
    TotalsAssociate(a.totals, Total(first), Total(second));
    forall i | 0 <= i < CLASS_COUNT
      ensures c.rows[i] == a.rows[i].Plus(Row(first + second, Some(ALL[i])))
    {
      RowConcat(first, second, Some(ALL[i]));
      RowsAssociate(a.rows[i], Row(first, Some(ALL[i])), Row(second, Some(ALL[i])));
    }
  }

  /**
   For every piece of work, panicking or not: the class in scope afterwards is the one before, the totals
   grow by every event, and each class row grows by exactly the events whose innermost scope it is.
   */
  lemma {:induction false} RunCharges(c: Counters, w: Work)
    requires InScope(c)
    ensures Run(c, w).panicked == Events(w, Scope(c)).panicked
    ensures Charged(c, Run(c, w).counters, Events(w, Scope(c)).events)
    decreases w
  {
    hide Charged;
    var scope := Scope(c);
    match w
    case Done => NothingCharged(c);
    case Panic => NothingCharged(c);
    case Alloc(size, chunk) => OneCharged(c, OnAlloc(c, size, chunk), Took(scope, size, chunk));
    case Free(size) => OneCharged(c, OnFree(c, size), Gave(scope, size));
    case Realloc(size, newSize, chunk, newChunk) =>
      OneCharged(
        c, OnRealloc(c, size, newSize, chunk, newChunk),
        Took(scope, Saturating(newSize, size), Saturating(newChunk, chunk)));
    case Then(first, second) =>
      RunCharges(c, first);
      var between := Run(c, first).counters;
      KeepsScope(c, between, Events(first, scope).events);
      if !Run(c, first).panicked {
        RunCharges(between, second);
        BothCharged(c, between, Run(between, second).counters, Events(first, scope).events, Events(second, scope).events);
      }
    case Within(cls, body) =>
      var entered := c.(current := Slot(cls));
      RunCharges(entered, body);
      Rescoped(c, Slot(cls), Run(entered, body).counters, Events(body, Some(cls)).events);
    case Catch(body) => RunCharges(c, body);
  }

  lemma KeepsScope(a: Counters, b: Counters, events: seq<Event>)
    requires InScope(a) && Charged(a, b, events)
    ensures InScope(b) && Scope(b) == Scope(a)
  {
  }

  lemma Rescoped(c: Counters, slot: nat, after: Counters, events: seq<Event>)
    requires Charged(c.(current := slot), after, events)
    ensures Charged(c, after.(current := c.current), events)
  {
  }

  /** Entering the class one is already in changes nothing. */
  lemma NestingIsIdempotent(c: Counters, cls: AllocClass, w: Work)
    requires InScope(c)
    ensures Run(c, Within(cls, Within(cls, w))) == Run(c, Within(cls, w))
  {
    var entered := c.(current := Slot(cls));
    RunCharges(entered, w);
    assert Run(entered, w).counters.(current := Slot(cls)) == Run(entered, w).counters;
  }

  // ---- Nothing is lost and nothing is counted twice ----

  function Rows(events: seq<Event>): Ledger {
    seq(CLASS_COUNT, i requires 0 <= i < CLASS_COUNT => Row(events, Some(ALL[i])))
  }

  lemma RowsOfNext(e: Event, events: seq<Event>)
    ensures var more := Rows([e] + events);
      more == if e.scope.Some? then Rows(events)[Slot(e.scope.value) := Rows(events)[Slot(e.scope.value)].Plus(EventRow(e))]
              else Rows(events)
  {
    var all := [e] + events;
    assert all[0] == e && all[1..] == events;
    forall i | 0 <= i < CLASS_COUNT
      ensures Row(all, Some(ALL[i]))
           == if e.scope == Some(ALL[i]) then Row(events, Some(ALL[i])).Plus(EventRow(e)) else Row(events, Some(ALL[i]))
    {
    }
    if e.scope.Some? {
      forall i | 0 <= i < CLASS_COUNT
        ensures e.scope == Some(ALL[i]) <==> i == Slot(e.scope.value)
      {
        SlotsAreDense(i);
      }
    }
  }

  lemma {:induction false} EveryEventHasOneRow(events: seq<Event>)
    ensures Total(events).allocs == Row(events, None).allocs + Sum(Rows(events)).allocs
    ensures Total(events).allocBytes == Row(events, None).allocBytes + Sum(Rows(events)).allocBytes
    ensures Total(events).frees == Row(events, None).frees + Sum(Rows(events)).frees
    ensures Total(events).freeBytes == Row(events, None).freeBytes + Sum(Rows(events)).freeBytes
  {
    hide SumTo;
    if events == [] {
      SumOfNothing(Rows(events), CLASS_COUNT);
    } else {
      var e, rest := events[0], events[1..];
      assert events == [e] + rest;
      EveryEventHasOneRow(rest);
      RowsOfNext(e, rest);
      if e.scope.Some? {
        SumUpdate(Rows(rest), Slot(e.scope.value), EventRow(e), CLASS_COUNT);
      }
    }
  }

  // ---- Spans ----

  /** The span from one reading of the counters to a later one. */
  function Span(earlier: Counters, later: Counters): ClassifiedCounts {
    ClassifiedCounts(later.totals.Since(earlier.totals), SinceRows(later.rows, earlier.rows))
  }

  lemma SpanOfCharges(before: Counters, after: Counters, events: seq<Event>)
    requires Charged(before, after, events)
    ensures Span(before, after).total == Total(events)
    ensures Span(before, after).classes == Rows(events)
  {
    forall i | 0 <= i < CLASS_COUNT
      ensures SinceRows(after.rows, before.rows)[i] == Rows(events)[i]
    {
    }
  }

  /** The residual of a span is exactly what its work allocated with no class in scope. */
  lemma ResidualIsUnclassified(c: Counters, w: Work)
    requires InScope(c)
    ensures var span := Span(c, Run(c, w).counters);
      var unclassified := Row(Events(w, Scope(c)).events, None);
      span.ResidualAllocs() == unclassified.allocs && span.ResidualBytes() == unclassified.allocBytes
  {
    hide SumTo;
    hide Charged;
    var events := Events(w, Scope(c)).events;
    RunCharges(c, w);
    SpanOfCharges(c, Run(c, w).counters, events);
    EveryEventHasOneRow(events);
  }

  // ---- The allocator itself ----

  class CountingAllocator {
    var allocCalls: nat
    var allocBytes: nat
    var allocChunkBytes: nat
    var freeCalls: nat
    var freeBytes: nat
    const slots: array<ClassCounts>
    var currentClass: nat

    ghost predicate Valid()
      reads this
    {
      slots.Length == CLASS_COUNT
    }

    function State(): Counters
      requires Valid()
      reads this, slots
    {
      Counters(AllocCounts(allocCalls, allocBytes, allocChunkBytes, freeCalls, freeBytes), slots[..], currentClass)
    }

    constructor ()
      ensures Valid() && fresh(slots)
      ensures State() == Counters(AllocCounts(0, 0, 0, 0, 0), NoCounts(), 255)
    {
      allocCalls, allocBytes, allocChunkBytes, freeCalls, freeBytes := 0, 0, 0, 0, 0;
      currentClass := UNCLASSIFIED;
      slots := new ClassCounts[CLASS_COUNT](i => ClassCounts(0, 0, 0, 0));
      new;
      assert slots[..] == NoCounts();
    }

    method ChargeAlloc(size: nat)
      requires Valid()
      modifies slots
      ensures Valid() && State() == ChargeClassAlloc(old(State()), size)
    {
      var slot := currentClass;
      if slot < CLASS_COUNT {
        slots[slot] := slots[slot].Plus(ClassCounts(1, size, 0, 0));
      }
    }

    method ChargeFree(size: nat)
      requires Valid()
      modifies slots
      ensures Valid() && State() == ChargeClassFree(old(State()), size)
    {
      var slot := currentClass;
      if slot < CLASS_COUNT {
        slots[slot] := slots[slot].Plus(ClassCounts(0, 0, 1, size));
      }
    }

    method Alloc(size: nat, chunk: nat)
      requires Valid()
      modifies this, slots
      ensures Valid() && State() == OnAlloc(old(State()), size, chunk)
    {
      allocCalls := allocCalls + 1;
      allocBytes := allocBytes + size;
      ChargeAlloc(size);
      allocChunkBytes := allocChunkBytes + chunk;
    }

    method Dealloc(size: nat)
      requires Valid()
      modifies this, slots
      ensures Valid() && State() == OnFree(old(State()), size)
    {
      freeCalls := freeCalls + 1;
      freeBytes := freeBytes + size;
      ChargeFree(size);
    }

    method Realloc(size: nat, newSize: nat, chunk: nat, newChunk: nat)
      requires Valid()
      modifies this, slots
      ensures Valid() && State() == OnRealloc(old(State()), size, newSize, chunk, newChunk)
    {
      allocCalls := allocCalls + 1;
      if newSize > size {
        allocBytes := allocBytes + (newSize - size);
      }
      ChargeAlloc(Saturating(newSize, size));
      allocChunkBytes := allocChunkBytes + Saturating(newChunk, chunk);
    }

    /** Enter a class; the caller keeps the class to go back to. */
    method Enter(cls: AllocClass) returns (previous: nat)
      requires Valid()
      modifies this`currentClass
      ensures Valid() && previous == old(currentClass) && State() == old(State()).(current := Slot(cls))
    {
      previous := currentClass;
      currentClass := Slot(cls);
    }

    method Leave(previous: nat)
      requires Valid()
      modifies this`currentClass
      ensures Valid() && State() == old(State()).(current := previous)
    {
      currentClass := previous;
    }

    /** Work carried out against the hooks; however it ends, the scopes it entered are left. */
    method Perform(w: Work) returns (panicked: bool)
      requires Valid()
      modifies this, slots
      ensures Valid() && Ran(State(), panicked) == Run(old(State()), w)
      decreases w
    {
      match w
      case Done => panicked := false;
      case Panic => panicked := true;
      case Alloc(size, chunk) =>
        Alloc(size, chunk);
        panicked := false;
      case Free(size) =>
        Dealloc(size);
        panicked := false;
      case Realloc(size, newSize, chunk, newChunk) =>
        Realloc(size, newSize, chunk, newChunk);
        panicked := false;
      case Then(first, second) =>
        panicked := Perform(first);
        if !panicked {
          panicked := Perform(second);
        }
      case Within(cls, body) =>
        var previous := Enter(cls);
        panicked := Perform(body);
        Leave(previous);
      case Catch(body) =>
        var caught := Perform(body);
        panicked := false;
    }

    /** A span around some work. */
    method Measure(w: Work) returns (span: ClassifiedCounts)
      requires Valid() && InScope(State())
      modifies this, slots
      ensures Valid() && State() == Run(old(State()), w).counters
      ensures currentClass == old(currentClass)
      ensures var events := old(Events(w, Scope(State())).events);
        && span.total == Total(events) && span.classes == Rows(events)
        && span.ResidualAllocs() == Row(events, None).allocs && span.ResidualBytes() == Row(events, None).allocBytes
    {
      hide SumTo;
      ghost var before := State();
      var atOpen := AllocCounts(allocCalls, allocBytes, allocChunkBytes, freeCalls, freeBytes);
      var rowsAtOpen := slots[..];
      var _ := Perform(w);
      var atClose := AllocCounts(allocCalls, allocBytes, allocChunkBytes, freeCalls, freeBytes);
      var classes := LedgerSince(slots[..], rowsAtOpen);
      span := ClassifiedCounts(atClose.Since(atOpen), classes);
      RunCharges(before, w);
      SpanOfCharges(before, State(), Events(w, Scope(before)).events);
      ResidualIsUnclassified(before, w);
    }
  }
}
