/** getchar interrupted by the keyboard handler between any two of its statements (src/libs/scan.c,
    src/libs/queue.c, src/drivers/keyboard.c). The handler runs with interrupts off (src/cpu/idt.c:28),
    so it is one step. */
module Interrupts {
  import opened Words
  import opened InputQueue
  import opened Keyboard

  const TAB: byte := 9

  /** Where getchar is: before its test that the queue is empty; before the same test inside
      queue_dequeue; before reading the value, moving the head, changing the size; returned to the
      loop that drops tabs. */
  datatype Pc = Waiting | Entering | Reading | Moving(c: byte) | Shrinking(c: byte) | Returning(c: byte)

  /** The machine, with three records of its past: the characters queued by the handler, those that
      queue_dequeue returned, and those that getchar returned. */
  datatype System = System(
    ring: Ring, keys: State, pc: Pc, accepted: seq<byte>, dequeued: seq<byte>, delivered: seq<byte>)

  /** One statement of getchar, or one interrupt. */
  datatype Event = Statement | Interrupt(scan: byte)

  function Start(capacity: int, values: seq<byte>): System {
    System(Ring(values, 0, 0, 0, capacity), START, Waiting, [], [], [])
  }

  function Advance(s: System): System {
    match s.pc
    case Waiting => if s.ring.size <= 0 then s else s.(pc := Entering)
    case Entering => if s.ring.size <= 0 then s.(pc := Returning(EMPTY)) else s.(pc := Reading)
    case Reading => if 0 <= s.ring.head < |s.ring.values| then s.(pc := Moving(s.ring.values[s.ring.head])) else s
    case Moving(c) =>
      if 0 <= s.ring.head < s.ring.capacity then
        s.(ring := s.ring.(head := Next(s.ring.head, s.ring.capacity)), pc := Shrinking(c))
      else s
    case Shrinking(c) => s.(ring := s.ring.(size := s.ring.size - 1), pc := Returning(c))
    case Returning(c) =>
      s.(pc := Waiting, dequeued := s.dequeued + [c],
         delivered := if c == TAB then s.delivered else s.delivered + [c])
  }

  /** The handler queues what its scancode types, if anything and if there is room. */
  function Interrupted(layout: Layout, s: System, scan: byte): System
    requires layout.Valid()
  {
    var (keys, c) := Handle(layout, s.keys, scan);
    if c == 0 then s.(keys := keys)
    else
      var (ring, room) := Pushed(s.ring, c);
      s.(keys := keys, ring := ring, accepted := if room then s.accepted + [c] else s.accepted)
  }

  function Step(layout: Layout, s: System, e: Event): System
    requires layout.Valid()
  {
    match e
    case Statement => Advance(s)
    case Interrupt(scan) => Interrupted(layout, s, scan)
  }

  function Run(layout: Layout, s: System, events: seq<Event>): System
    requires layout.Valid()
    decreases |events|
  {
    if events == [] then s else Step(layout, Run(layout, s, events[..|events| - 1]), events[|events| - 1])
  }

  // What every interleaving keeps.

  /** The characters really queued: one fewer than the size says while a removal has moved the head
      and not yet the size. */
  function Waits(s: System): int {
    if s.pc.Shrinking? then s.ring.size - 1 else s.ring.size
  }

  /** The character taken off the queue and not yet returned. */
  function InFlight(s: System): seq<byte> {
    if s.pc.Shrinking? || s.pc.Returning? then [s.pc.c] else []
  }

  function WithoutTabs(s: seq<byte>): seq<byte> {
    if s == [] then []
    else WithoutTabs(s[..|s| - 1]) + if s[|s| - 1] == TAB then [] else [s[|s| - 1]]
  }

  predicate Conserves(s: System) {
    && Holds(s.ring, Waits(s))
    && s.accepted == s.dequeued + InFlight(s) + Queued(s.ring, Waits(s))
    && s.delivered == WithoutTabs(s.dequeued)
  }

  predicate Invariant(s: System) {
    && Conserves(s)
    && (s.pc.Entering? || s.pc.Reading? || s.pc.Moving? ==> s.ring.size > 0)
    && (s.pc.Moving? ==> s.pc.c == Queued(s.ring, s.ring.size)[0])
  }

  /** What is queued depends on the size field only through its bounds. */
  lemma SizeIsNotContents(r: Ring, n: int, size: int)
    requires Holds(r, n) && n <= size <= r.size
    ensures Holds(r.(size := size), n) && Queued(r.(size := size), n) == Queued(r, n)
  {}

  lemma ReturnKeeps(s: System)
    requires Conserves(s) && s.pc.Returning?
    ensures Conserves(Advance(s))
  {
    var s' := Advance(s);
    assert s'.dequeued[..|s'.dequeued| - 1] == s.dequeued;
    hide Holds, Queued;
    assert s'.accepted == s'.dequeued + Queued(s'.ring, Waits(s'));
  }

  lemma MoveKeeps(s: System)
    requires Invariant(s) && s.pc.Moving?
    ensures Conserves(Advance(s))
  {
    hide Holds, Queued, Next, WithoutTabs;
    HeadMoves(s.ring, s.ring.size);
    var q := Queued(s.ring, s.ring.size);
    assert q == [q[0]] + q[1..];
    assert s.dequeued + q == s.dequeued + [q[0]] + q[1..];
  }

  lemma StatementKeeps(s: System)
    requires Invariant(s)
    ensures Invariant(Advance(s))
  {
    match s.pc
    case Returning(c) => ReturnKeeps(s);
    case Moving(c) => MoveKeeps(s);
    case Shrinking(c) => ShrinkKeeps(s);
    case Reading => ReadKeeps(s);
    case _ => TestKeeps(s);
  }

  lemma ShrinkKeeps(s: System)
    requires Conserves(s) && s.pc.Shrinking?
    ensures Conserves(Advance(s)) && Advance(s).pc.Returning?
  {
    hide Holds, Queued, WithoutTabs, Next;
    SizeIsNotContents(s.ring, Waits(s), s.ring.size - 1);
  }

  lemma ReadKeeps(s: System)
    requires Invariant(s) && s.pc == Reading
    ensures Invariant(Advance(s))
  {
    hide Holds, Queued, WithoutTabs, Next;
    HeadMoves(s.ring, s.ring.size);
  }

  lemma TestKeeps(s: System)
    requires Invariant(s) && (s.pc == Waiting || s.pc == Entering)
    ensures Invariant(Advance(s))
  {
    hide Holds, Queued, WithoutTabs, Next;
  }

  /** The handler adds at most one character, at the end. */
  lemma InterruptConserves(layout: Layout, s: System, scan: byte)
    requires layout.Valid() && Conserves(s)
    ensures Conserves(Interrupted(layout, s, scan))
    ensures s.ring.size <= Interrupted(layout, s, scan).ring.size
    ensures Queued(s.ring, Waits(s)) <= Queued(Interrupted(layout, s, scan).ring, Waits(Interrupted(layout, s, scan)))
  {
    hide Handle, Pushed, Holds, Queued, WithoutTabs;
    var c := Handle(layout, s.keys, scan).1;
    EnqueueAppends(s.ring, Waits(s), c);
    var past, q := s.dequeued + InFlight(s), Queued(s.ring, Waits(s));
    assert past + q + [c] == past + (q + [c]);
  }

  lemma InterruptKeeps(layout: Layout, s: System, scan: byte)
    requires layout.Valid() && Invariant(s)
    ensures Invariant(Interrupted(layout, s, scan))
  {
    InterruptConserves(layout, s, scan);
    hide Handle, Pushed, Holds, Queued, Conserves;
  }

  lemma StepKeeps(layout: Layout, s: System, e: Event)
    requires layout.Valid() && Invariant(s)
    ensures Invariant(Step(layout, s, e))
  {
    match e
    case Statement => StatementKeeps(s);
    case Interrupt(scan) => InterruptKeeps(layout, s, scan);
  }

  lemma {:induction false} RunKeeps(layout: Layout, s: System, events: seq<Event>)
    requires layout.Valid() && Invariant(s)
    ensures Invariant(Run(layout, s, events))
    decreases |events|
  {
    hide Invariant, Step;
    if events != [] {
      RunKeeps(layout, s, events[..|events| - 1]);
      StepKeeps(layout, Run(layout, s, events[..|events| - 1]), events[|events| - 1]);
    }
  }

  /** For every interleaving of statements and interrupts: what queue_dequeue returned, what it is
      returning, and what is queued are together exactly the accepted characters in order; getchar
      returned the first of these without the tabs; queue_dequeue never finds the queue empty. */
  lemma CharactersAreConserved(layout: Layout, capacity: nat, values: seq<byte>, events: seq<Event>)
    requires layout.Valid() && |values| == capacity
    ensures var s := Run(layout, Start(capacity, values), events);
            && Holds(s.ring, Waits(s))
            && s.accepted == s.dequeued + InFlight(s) + Queued(s.ring, Waits(s))
            && s.delivered == WithoutTabs(s.dequeued)
            && (s.pc.Entering? ==> Advance(s).pc == Reading)
  {
    var start := Start(capacity, values);
    StartKeeps(capacity, values);
    RunKeeps(layout, start, events);
    hide Run, Holds, Queued, WithoutTabs;
  }

  /** A typed character is refused only when as many characters as the capacity have been accepted
      and not yet returned. */
  lemma RefusedOnlyWhenFull(layout: Layout, s: System, scan: byte)
    requires layout.Valid() && Invariant(s) && Handle(layout, s.keys, scan).1 != 0
    ensures var s' := Interrupted(layout, s, scan);
            if s.ring.size < s.ring.capacity then s'.accepted == s.accepted + [Handle(layout, s.keys, scan).1]
            else s'.accepted == s.accepted && |s.accepted| - |s.dequeued| >= s.ring.capacity
  {
    hide Handle, Pushed, Holds, Queued;
    EnqueueAppends(s.ring, Waits(s), Handle(layout, s.keys, scan).1);
  }

  // What was typed.

  /** The scancodes of the interrupts. */
  function Scans(events: seq<Event>): seq<byte>
    decreases |events|
  {
    if events == [] then []
    else Scans(events[..|events| - 1]) + if events[|events| - 1].Interrupt? then [events[|events| - 1].scan] else []
  }

  /** The characters that the first n scancodes of a history type, read off the history itself. */
  function TypedBy(layout: Layout, history: seq<byte>, n: nat): seq<byte>
    requires layout.Valid() && n <= |history|
  {
    if n == 0 then []
    else
      var c := CharacterAt(layout, history, n - 1);
      TypedBy(layout, history, n - 1) + if c == 0 then [] else [c]
  }

  lemma {:induction false} LaterState(layout: Layout, history: seq<byte>, scan: byte, n: nat)
    requires layout.Valid() && n <= |history|
    ensures After(layout, history + [scan], n) == After(layout, history, n)
  {
    hide Handle;
    if n > 0 {
      LaterState(layout, history, scan, n - 1);
    }
  }

  lemma {:induction false} LaterScans(layout: Layout, history: seq<byte>, scan: byte, n: nat)
    requires layout.Valid() && n <= |history|
    ensures TypedBy(layout, history + [scan], n) == TypedBy(layout, history, n)
  {
    hide Handle, After, CharacterAt;
    if n > 0 {
      LaterScans(layout, history, scan, n - 1);
      LaterState(layout, history, scan, n - 1);
      TypesByHistory(layout, history, n - 1);
      TypesByHistory(layout, history + [scan], n - 1);
    }
  }

  /** One more scancode types what the handler does with it. */
  lemma TypedNext(layout: Layout, scans: seq<byte>, scan: byte)
    requires layout.Valid()
    ensures var keys, c := After(layout, scans, |scans|), Handle(layout, After(layout, scans, |scans|), scan).1;
            && After(layout, scans + [scan], |scans| + 1) == Handle(layout, keys, scan).0
            && TypedBy(layout, scans + [scan], |scans| + 1) ==
               TypedBy(layout, scans, |scans|) + if c == 0 then [] else [c]
  {
    hide CharacterAt;
    LaterScans(layout, scans, scan, |scans|);
    LaterState(layout, scans, scan, |scans|);
    TypesByHistory(layout, scans + [scan], |scans|);
    hide Handle;
  }

  /** The keyboard's state is the one its scancodes lead to, and everything typed was accepted. */
  predicate KeepsUp(layout: Layout, s: System, scans: seq<byte>)
    requires layout.Valid()
  {
    s.keys == After(layout, scans, |scans|) && s.accepted == TypedBy(layout, scans, |scans|)
  }

  lemma InterruptKeepsUp(layout: Layout, s: System, scans: seq<byte>, scan: byte)
    requires layout.Valid() && Invariant(s) && KeepsUp(layout, s, scans)
    requires |TypedBy(layout, scans + [scan], |scans| + 1)| <= s.ring.capacity
    ensures KeepsUp(layout, Interrupted(layout, s, scan), scans + [scan])
  {
    TypedNext(layout, scans, scan);
    if Handle(layout, s.keys, scan).1 != 0 {
      RefusedOnlyWhenFull(layout, s, scan);
    }
    hide Handle, Pushed, Invariant, TypedBy, After;
  }

  /** The capacity is never changed. */
  lemma {:induction false} CapacityStays(layout: Layout, s: System, events: seq<Event>)
    requires layout.Valid()
    ensures Run(layout, s, events).ring.capacity == s.ring.capacity
    decreases |events|
  {
    hide Handle;
    if events != [] {
      CapacityStays(layout, s, events[..|events| - 1]);
    }
  }

  lemma {:induction false} RunKeepsUp(layout: Layout, s: System, events: seq<Event>)
    requires layout.Valid() && Invariant(s) && KeepsUp(layout, s, [])
    requires |TypedBy(layout, Scans(events), |Scans(events)|)| <= s.ring.capacity
    ensures KeepsUp(layout, Run(layout, s, events), Scans(events))
    decreases |events|
  {
    hide Invariant, Handle, After, Interrupted, CharacterAt, TypedBy;
    if events != [] {
      var front, last := events[..|events| - 1], events[|events| - 1];
      if last.Interrupt? {
        TypedNext(layout, Scans(front), last.scan);
      } else {
        assert Scans(events) == Scans(front);
      }
      RunKeepsUp(layout, s, front);
      if last.Interrupt? {
        RunKeeps(layout, s, front);
        CapacityStays(layout, s, front);
        InterruptKeepsUp(layout, Run(layout, s, front), Scans(front), last.scan);
      }
    }
  }

  /** No interrupt of the run that types a character meets a size field at the capacity. */
  predicate AlwaysRoom(layout: Layout, s: System, events: seq<Event>)
    requires layout.Valid()
    decreases |events|
  {
    events == [] ||
    (var front, last := events[..|events| - 1], events[|events| - 1];
     var t := Run(layout, s, front);
     && AlwaysRoom(layout, s, front)
     && (last.Interrupt? && Handle(layout, t.keys, last.scan).1 != 0 ==> t.ring.size < t.ring.capacity))
  }

  /** At the end of a run: the keyboard's state is that of the scancodes, at most what was typed was
      accepted, and all of it exactly when there was always room. */
  predicate AcceptsExactly(layout: Layout, s: System, events: seq<Event>)
    requires layout.Valid()
  {
    var t, typed := Run(layout, s, events), TypedBy(layout, Scans(events), |Scans(events)|);
    && t.keys == After(layout, Scans(events), |Scans(events)|) && |t.accepted| <= |typed|
    && (t.accepted == typed <==> AlwaysRoom(layout, s, events))
  }

  lemma InterruptAccepts(layout: Layout, s: System, front: seq<Event>, scan: byte)
    requires layout.Valid() && Invariant(Run(layout, s, front)) && AcceptsExactly(layout, s, front)
    ensures AcceptsExactly(layout, s, front + [Interrupt(scan)])
  {
    hide Invariant, Handle, Pushed, TypedBy, After;
    var events := front + [Interrupt(scan)];
    assert events[..|events| - 1] == front;
    TypedNext(layout, Scans(front), scan);
    var t, typed := Run(layout, s, front), TypedBy(layout, Scans(front), |Scans(front)|);
    var c := Handle(layout, t.keys, scan).1;
    if c != 0 {
      RefusedOnlyWhenFull(layout, t, scan);
      LastEquals(t.accepted, typed, c);
    }
  }

  lemma LastEquals(a: seq<byte>, b: seq<byte>, c: byte)
    ensures a + [c] == b + [c] <==> a == b
  {
    assert (a + [c])[..|a|] == a && (b + [c])[..|b|] == b;
  }

  lemma {:induction false} RunAccepts(layout: Layout, s: System, events: seq<Event>)
    requires layout.Valid() && Invariant(s) && s.keys == START && s.accepted == []
    ensures AcceptsExactly(layout, s, events)
    decreases |events|
  {
    hide Invariant, Handle, After, Interrupted, AcceptsExactly;
    if events == [] {
      NothingYet(layout, s);
    } else {
      var front, last := events[..|events| - 1], events[|events| - 1];
      assert front + [last] == events;
      RunAccepts(layout, s, front);
      RunKeeps(layout, s, front);
      if last.Interrupt? {
        InterruptAccepts(layout, s, front, last.scan);
      } else {
        StatementAccepts(layout, s, front);
      }
    }
  }

  lemma NothingYet(layout: Layout, s: System)
    requires layout.Valid() && s.keys == START && s.accepted == []
    ensures AcceptsExactly(layout, s, [])
  {}

  lemma StatementAccepts(layout: Layout, s: System, front: seq<Event>)
    requires layout.Valid() && AcceptsExactly(layout, s, front)
    ensures AcceptsExactly(layout, s, front + [Statement])
  {
    hide Handle, After, TypedBy;
    var events := front + [Statement];
    assert events[..|events| - 1] == front;
    assert Scans(events) == Scans(front);
  }

  /** For every interleaving: what was returned, what is in flight and what is queued are all that the
      scancodes typed, in order, exactly when no typing interrupt met a size field at the capacity. */
  lemma NothingTypedIsLostExactly(layout: Layout, capacity: nat, values: seq<byte>, events: seq<Event>)
    requires layout.Valid() && |values| == capacity
    ensures var s := Run(layout, Start(capacity, values), events);
            && Holds(s.ring, Waits(s))
            && (s.dequeued + InFlight(s) + Queued(s.ring, Waits(s)) == TypedBy(layout, Scans(events), |Scans(events)|)
                <==> AlwaysRoom(layout, Start(capacity, values), events))
  {
    hide Run, Scans, Holds, Queued, WithoutTabs, Invariant, AlwaysRoom;
    StartKeeps(capacity, values);
    CharactersAreConserved(layout, capacity, values, events);
    RunAccepts(layout, Start(capacity, values), events);
  }

  /** In particular nothing is lost while no more has been typed than the queue holds. */
  lemma NothingTypedIsLost(layout: Layout, capacity: nat, values: seq<byte>, events: seq<Event>)
    requires layout.Valid() && |values| == capacity
    requires |TypedBy(layout, Scans(events), |Scans(events)|)| <= capacity
    ensures var s := Run(layout, Start(capacity, values), events);
            && Holds(s.ring, Waits(s))
            && s.dequeued + InFlight(s) + Queued(s.ring, Waits(s)) == TypedBy(layout, Scans(events), |Scans(events)|)
            && s.delivered == WithoutTabs(s.dequeued)
  {
    hide Run, Scans, Holds, Queued, WithoutTabs, Invariant;
    StartKeeps(capacity, values);
    CharactersAreConserved(layout, capacity, values, events);
    RunKeepsUp(layout, Start(capacity, values), events);
  }

  lemma StartKeeps(capacity: nat, values: seq<byte>)
    requires |values| == capacity
    ensures Invariant(Start(capacity, values))
  {
    var start := Start(capacity, values);
    assert Queued(start.ring, 0) == [];
  }

  // getchar makes progress under any interrupts.

  function Statements(events: seq<Event>): nat {
    if events == [] then 0
    else Statements(events[..|events| - 1]) + if events[|events| - 1].Statement? then 1 else 0
  }

  function Rank(pc: Pc): nat {
    match pc
    case Waiting => 0
    case Entering => 1
    case Reading => 2
    case Moving(_) => 3
    case Shrinking(_) => 4
    case Returning(_) => 5
  }

  /** Between its first test and its return. */
  predicate Underway(s: System, t: System, k: nat) {
    && Invariant(t) && Rank(t.pc) == k && (k == 0 ==> t.ring.size > 0)
    && t.dequeued == s.dequeued && s.accepted <= t.accepted
  }

  lemma StepProgresses(layout: Layout, s: System, t: System, k: nat, e: Event)
    requires layout.Valid() && Underway(s, t, k)
    ensures var t' := Step(layout, t, e);
            if e.Interrupt? then Underway(s, t', k)
            else if k < 5 then Underway(s, t', k + 1)
            else t'.pc == Waiting && s.accepted <= t'.accepted && |t'.dequeued| == |s.dequeued| + 1
  {
    StepKeeps(layout, t, e);
    if e.Interrupt? {
      InterruptConserves(layout, t, e.scan);
    } else if k == 2 || k == 3 {
      HeadMoves(t.ring, t.ring.size);
    }
    hide Handle, Pushed, Holds, Queued, Conserves;
  }

  lemma {:induction false} RunProgresses(layout: Layout, s: System, events: seq<Event>)
    requires layout.Valid() && Invariant(s) && s.pc == Waiting && s.ring.size > 0 && Statements(events) <= 5
    ensures Underway(s, Run(layout, s, events), Statements(events))
    decreases |events|
  {
    if events != [] {
      var before := events[..|events| - 1];
      RunProgresses(layout, s, before);
      StepProgresses(layout, s, Run(layout, s, before), Statements(before), events[|events| - 1]);
      hide Underway, Step;
    }
  }

  /** When a character is queued, the sixth statement takes back the one that was first, whatever
      interrupts come between; getchar returns it, unless it is a tab. */
  lemma SixStatementsReturn(layout: Layout, s: System, events: seq<Event>)
    requires layout.Valid() && Invariant(s) && s.pc == Waiting && s.ring.size > 0
    requires Statements(events) == 5
    ensures var t := Run(layout, s, events + [Statement]);
            var first := Queued(s.ring, s.ring.size)[0];
            && t.pc == Waiting && t.dequeued == s.dequeued + [first]
            && t.delivered == s.delivered + if first == TAB then [] else [first]
  {
    hide Invariant, Conserves, Step, Holds, Queued, WithoutTabs;
    var all := events + [Statement];
    assert all[..|all| - 1] == events;
    RunProgresses(layout, s, events);
    RunKeeps(layout, s, all);
    StepProgresses(layout, s, Run(layout, s, events), 5, Statement);
    FirstTaken(s, Run(layout, s, all));
  }

  lemma FirstTaken(s: System, t: System)
    requires Invariant(s) && Invariant(t) && s.pc == t.pc == Waiting && s.ring.size > 0
    requires s.accepted <= t.accepted && |t.dequeued| == |s.dequeued| + 1
    ensures Holds(s.ring, s.ring.size)
    ensures var first := Queued(s.ring, s.ring.size)[0];
            && t.dequeued == s.dequeued + [first]
            && t.delivered == s.delivered + if first == TAB then [] else [first]
  {
    hide Holds, Queued, WithoutTabs;
    assert s.dequeued + InFlight(s) == s.dequeued && t.dequeued + InFlight(t) == t.dequeued;
    NextTaken(s.dequeued, Queued(s.ring, Waits(s)), t.dequeued, Queued(t.ring, Waits(t)));
    OneMore(s.dequeued, Queued(s.ring, Waits(s))[0]);
  }

  lemma OneMore(taken: seq<byte>, c: byte)
    ensures WithoutTabs(taken + [c]) == WithoutTabs(taken) + if c == TAB then [] else [c]
  {
    assert (taken + [c])[..|taken|] == taken;
  }

  lemma NextTaken(was: seq<byte>, queue: seq<byte>, taken: seq<byte>, rest: seq<byte>)
    requires queue != [] && |taken| == |was| + 1 && was + queue <= taken + rest
    ensures taken == was + [queue[0]]
  {
    assert (was + queue)[..|taken|] == (taken + rest)[..|taken|] == taken;
  }

  /** With no interrupt between them, the statements of queue_dequeue do what Queue.Dequeue does, on an empty
      queue too. */
  lemma UndisturbedIsDequeue(s: System)
    requires Holds(s.ring, s.ring.size) && s.pc == Entering
    ensures var (ring, c) := Popped(s.ring); var t := s.(ring := ring, pc := Returning(c));
            if s.ring.size == 0 then Advance(s) == t else Advance(Advance(Advance(Advance(s)))) == t
  {
    if s.ring.size > 0 {
      HeadMoves(s.ring, s.ring.size);
    }
  }

  // If the size were changed by a load and a store.

  predicate OnlyInterrupts(events: seq<Event>) {
    forall i :: 0 <= i < |events| ==> events[i].Interrupt?
  }

  lemma {:induction false} InterruptsConserve(layout: Layout, s: System, events: seq<Event>)
    requires layout.Valid() && Conserves(s) && OnlyInterrupts(events)
    ensures var t := Run(layout, s, events);
            && Conserves(t) && t.pc == s.pc && t.dequeued == s.dequeued && t.delivered == s.delivered
            && s.accepted <= t.accepted && t.ring.size - s.ring.size == |t.accepted| - |s.accepted|
    decreases |events|
  {
    if events != [] {
      var front, scan := events[..|events| - 1], events[|events| - 1].scan;
      var before := Run(layout, s, front);
      InterruptsConserve(layout, s, front);
      InterruptConserves(layout, before, scan);
      EnqueueAppends(before.ring, Waits(before), Handle(layout, before.keys, scan).1);
      hide Handle, Pushed, Conserves, Holds, Queued;
    }
  }

  lemma ConservesCounts(s: System)
    requires Conserves(s)
    ensures |s.accepted| == |s.dequeued| + |InFlight(s)| + Waits(s)
  {}

  /** With the size loaded, then interrupts, then stored one less: characters are conserved exactly
      when no interrupt in between queued one. */
  lemma TornDecrementExactly(layout: Layout, s: System, events: seq<Event>)
    requires layout.Valid() && Invariant(s) && s.pc.Shrinking? && OnlyInterrupts(events)
    ensures var t := Run(layout, s, events);
            Conserves(t.(ring := t.ring.(size := s.ring.size - 1), pc := Returning(s.pc.c))) <==>
            t.accepted == s.accepted
  {
    InterruptsConserve(layout, s, events);
    var t := Run(layout, s, events);
    var torn := t.(ring := t.ring.(size := s.ring.size - 1), pc := Returning(s.pc.c));
    hide Run;
    if t.accepted == s.accepted {
      SizeIsNotContents(t.ring, Waits(t), t.ring.size - 1);
    } else if Conserves(torn) {
      ConservesCounts(t);
      ConservesCounts(torn);
      assert false;
    }
    hide Holds, Queued;
  }
}
