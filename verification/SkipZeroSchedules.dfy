/** Concrete schedules of the skip-zero queue, at any capacity: how they are put together, and the opening moves that
    the counterexamples share. */
module SkipZeroSchedules {
  import opened Masks
  import opened SkipZeroQueue
  import opened SkipZeroRefinement

  const ITEM := 7

  /** What matters of a state with three threads: the slot of ticket -1, that all others are free, the counters, and
      where the threads are. */
  ghost predicate Shows(s: State, stored: bool, filled: bool, inn: int, out: int, t0: Thread, t1: Thread, t2: Thread) {
    && s.inn == inn && s.out == out
    && |s.threads| == 3 && s.threads[0] == t0 && s.threads[1] == t1 && s.threads[2] == t2
    && s.Shape() && s.size >= 1
    && (stored ==> s.buffer[s.size - 1] == ITEM) && (s.isfree[s.size - 1] <==> !filled)
    && forall x | 0 <= x < s.size - 1 :: s.isfree[x]
  }

  /** Ticket -1 uses the last slot, ticket 0 the first. */
  lemma LastSlot(size: nat)
    requires PowerOfTwo(size)
    ensures Slot(size, -1) == size - 1 && Slot(size, 0) == 0
  {
    ModuloUnique(-1, size, -1, size - 1);
    ModuloUnique(0, size, 0, 0);
  }

  // ----- Putting schedules together -----

  /** Step j of a thread that starts a call and then goes on by itself. */
  function Calling(call: Label, j: nat): Label {
    if j == 0 then call else Label(call.thread, Proceed)
  }

  /** One more step of a schedule, and what it adds to the deliveries. */
  lemma Extend(init: State, run: seq<Label>, l: Label, s: State, e: Event)
    requires init.Shape() && s == Exec(init, run) && e == EventOf(s, l)
    ensures Exec(init, run + [l]) == Next(s, l)
    ensures Deliveries(init, run + [l]) ==
            Deliveries(init, run) + if e.PopReturned? then [Delivery(e.ticket, e.value)] else []
  {
    ExecExtends(init, run, l);
    var longer := run + [l];
    assert longer[..|longer| - 1] == run && longer[|longer| - 1] == l;
  }

  lemma ExtendSilently(init: State, run: seq<Label>, l: Label, s: State)
    requires init.Shape() && s == Exec(init, run) && !EventOf(s, l).PopReturned?
    ensures Exec(init, run + [l]) == Next(s, l) && Deliveries(init, run + [l]) == Deliveries(init, run)
  {
    ExecExtends(init, run, l);
    var longer := run + [l];
    assert longer[..|longer| - 1] == run && longer[|longer| - 1] == l;
    var ds := Deliveries(init, run);
    assert Deliveries(init, longer) == ds + [];
  }

  lemma ExecExtends(init: State, run: seq<Label>, l: Label)
    requires init.Shape()
    ensures Exec(init, run + [l]) == Next(Exec(init, run), l)
  {
    var longer := run + [l];
    assert longer[..|longer| - 1] == run && longer[|longer| - 1] == l;
  }

  /** A property of states that each of the first steps of a call carries on, none of them a return from pop. */
  ghost predicate CarriedOn(call: Label, p: (nat, State) -> bool, last: nat) {
    forall j: nat, s: State :: j < last && s.Shape() && p(j, s) ==>
      p(j + 1, Next(s, Calling(call, j))) && !EventOf(s, Calling(call, j)).PopReturned?
  }

  lemma CarryOne(init: State, run: seq<Label>, call: Label, p: (nat, State) -> bool, j: nat, last: nat, s: State)
    returns (run': seq<Label>, s': State)
    requires init.Shape() && s == Exec(init, run) && CarriedOn(call, p, last) && j < last && p(j, s)
    ensures s' == Exec(init, run') && p(j + 1, s') && Deliveries(init, run') == Deliveries(init, run)
  {
    run', s' := run + [Calling(call, j)], Next(s, Calling(call, j));
    ExtendSilently(init, run, Calling(call, j), s);
  }

  /** Those steps, one after another. */
  lemma {:induction false} Carry(init: State, run: seq<Label>, call: Label, p: (nat, State) -> bool, j: nat, last: nat)
    returns (run': seq<Label>, s: State)
    requires init.Shape() && p(0, Exec(init, run)) && CarriedOn(call, p, last) && j <= last
    ensures s == Exec(init, run') && p(j, s) && Deliveries(init, run') == Deliveries(init, run)
    decreases j
  {
    if j == 0 {
      run', s := run, Exec(init, run);
    } else {
      run', s := Carry(init, run, call, p, j - 1, last);
      run', s := CarryOne(init, run', call, p, j - 1, last, s);
    }
  }

  // ----- Opening moves -----

  /** Thread 0 pushes an item under ticket -1, wherever thread 1 is. */
  ghost predicate Pushing1(j: nat, s: State, t1: Thread) {
    match j
    case 0 => Shows(s, false, false, -1, -1, Idle, t1, Idle)
    case 1 => Shows(s, false, false, -1, -1, PushLoadIn(ITEM, true), t1, Idle)
    case 2 => Shows(s, false, false, -1, -1, PushReloadIn(ITEM, true, -1, true), t1, Idle)
    case 3 => Shows(s, false, false, -1, -1, PushTestFull(ITEM, true, -1, -1, true), t1, Idle)
    case 4 => Shows(s, false, false, -1, -1, PushReloadIn(ITEM, true, -1, false), t1, Idle)
    case 5 => Shows(s, false, false, -1, -1, PushTestFull(ITEM, true, -1, -1, false), t1, Idle)
    case 6 => Shows(s, false, false, -1, -1, PushTestFree(ITEM, true, -1), t1, Idle)
    case 7 => Shows(s, false, false, -1, -1, PushCas(ITEM, true, -1), t1, Idle)
    case 8 => Shows(s, false, false, 0, -1, PushStore(ITEM, -1), t1, Idle)
    case 9 => Shows(s, true, false, 0, -1, PushPublish(ITEM, -1), t1, Idle)
    case 10 => Shows(s, true, true, 0, -1, Idle, t1, Idle)
    case _ => false
  }

  lemma Pushing1From0(j: nat, s: State, t1: Thread)
    requires 0 <= j < 5 && Pushing1(j, s, t1)
    ensures var l := Calling(Label(0, CallPush(ITEM, true)), j);
            Pushing1(j + 1, Next(s, l), t1) && !EventOf(s, l).PopReturned?
  {
    LastSlot(s.size);
    match j
    case 0 =>
    case 1 =>
    case 2 =>
    case 3 =>
    case 4 =>
    case _ =>
  }

  lemma Pushing1From5(j: nat, s: State, t1: Thread)
    requires 5 <= j < 8 && Pushing1(j, s, t1)
    ensures var l := Calling(Label(0, CallPush(ITEM, true)), j);
            Pushing1(j + 1, Next(s, l), t1) && !EventOf(s, l).PopReturned?
  {
    LastSlot(s.size);
    match j
    case 5 =>
    case 6 =>
    case 7 =>
    case _ =>
  }

  lemma Pushing1From8(j: nat, s: State, t1: Thread)
    requires 8 <= j < 10 && Pushing1(j, s, t1)
    ensures var l := Calling(Label(0, CallPush(ITEM, true)), j);
            Pushing1(j + 1, Next(s, l), t1) && !EventOf(s, l).PopReturned?
  {
    LastSlot(s.size);
    match j
    case 8 =>
    case 9 =>
    case _ =>
  }

  /** Thread 1 claims ticket -1 and stops before reading the slot, wherever thread 2 is. */
  ghost predicate Claiming1(j: nat, s: State, t2: Thread) {
    match j
    case 0 => Shows(s, true, true, 0, -1, Idle, Idle, t2)
    case 1 => Shows(s, true, true, 0, -1, Idle, PopLoadOut(true), t2)
    case 2 => Shows(s, true, true, 0, -1, Idle, PopReloadOut(true, -1, true), t2)
    case 3 => Shows(s, true, true, 0, -1, Idle, PopTestEmpty(true, -1, -1, true), t2)
    case 4 => Shows(s, true, true, 0, -1, Idle, PopReloadOut(true, -1, false), t2)
    case 5 => Shows(s, true, true, 0, -1, Idle, PopTestEmpty(true, -1, -1, false), t2)
    case 6 => Shows(s, true, true, 0, -1, Idle, PopTestFree(true, -1), t2)
    case 7 => Shows(s, true, true, 0, -1, Idle, PopCas(true, -1), t2)
    case 8 => Shows(s, true, true, 0, 0, Idle, PopRead(-1), t2)
    case _ => false
  }

  lemma Claiming1From0(j: nat, s: State, t2: Thread)
    requires 0 <= j < 4 && Claiming1(j, s, t2)
    ensures var l := Calling(Label(1, CallPop(true)), j);
            Claiming1(j + 1, Next(s, l), t2) && !EventOf(s, l).PopReturned?
  {
    LastSlot(s.size);
    match j
    case 0 =>
    case 1 =>
    case 2 =>
    case 3 =>
    case _ =>
  }

  lemma Claiming1From4(j: nat, s: State, t2: Thread)
    requires 4 <= j < 8 && Claiming1(j, s, t2)
    ensures var l := Calling(Label(1, CallPop(true)), j);
            Claiming1(j + 1, Next(s, l), t2) && !EventOf(s, l).PopReturned?
  {
    LastSlot(s.size);
    match j
    case 4 =>
    case 5 =>
    case 6 =>
    case 7 =>
    case _ =>
  }

  /** Thread 2 moves `out` past ticket 0 and is refused. */
  ghost predicate Skipping(j: nat, s: State) {
    match j
    case 0 => Shows(s, true, true, 0, 0, Idle, PopRead(-1), Idle)
    case 1 => Shows(s, true, true, 0, 0, Idle, PopRead(-1), PopLoadOut(false))
    case 2 => Shows(s, true, true, 0, 0, Idle, PopRead(-1), PopSkipZero(false))
    case 3 => Shows(s, true, true, 0, 1, Idle, PopRead(-1), PopTestEmpty(false, 0, 0, true))
    case 4 => Shows(s, true, true, 0, 1, Idle, PopRead(-1), Idle)
    case _ => false
  }

  lemma SkippingFrom0(j: nat, s: State)
    requires 0 <= j < 4 && Skipping(j, s)
    ensures var l := Calling(Label(2, CallPop(false)), j);
            Skipping(j + 1, Next(s, l)) && !EventOf(s, l).PopReturned?
  {
    LastSlot(s.size);
    match j
    case 0 =>
    case 1 =>
    case 2 =>
    case 3 =>
    case _ =>
  }

  /** Thread 2 calls again: ticket 1 is not `in`, so its refusal test does not find the queue empty. */
  ghost predicate Returning(j: nat, s: State) {
    match j
    case 0 => Shows(s, true, true, 0, 1, Idle, PopRead(-1), Idle)
    case 1 => Shows(s, true, true, 0, 1, Idle, PopRead(-1), PopLoadOut(false))
    case 2 => Shows(s, true, true, 0, 1, Idle, PopRead(-1), PopTestEmpty(false, 1, 1, true))
    case 3 => Shows(s, true, true, 0, 1, Idle, PopRead(-1), PopTestEmpty(false, 1, 1, false))
    case _ => false
  }

  lemma ReturningFrom0(j: nat, s: State)
    requires 0 <= j < 3 && Returning(j, s)
    ensures var l := Calling(Label(2, CallPop(false)), j);
            Returning(j + 1, Next(s, l)) && !EventOf(s, l).PopReturned?
  {
    LastSlot(s.size);
    match j
    case 0 =>
    case 1 =>
    case 2 =>
    case _ =>
  }

  lemma PushOne(init: State, run: seq<Label>, t1: Thread) returns (run': seq<Label>)
    requires init.Shape() && Pushing1(0, Exec(init, run), t1)
    ensures Pushing1(10, Exec(init, run'), t1) && Deliveries(init, run') == Deliveries(init, run)
  {
    var call := Label(0, CallPush(ITEM, true));
    var p: (nat, State) -> bool := (j: nat, t: State) => Pushing1(j, t, t1);
    forall j: nat, t: State | j < 10 && t.Shape() && p(j, t)
      ensures p(j + 1, Next(t, Calling(call, j))) && !EventOf(t, Calling(call, j)).PopReturned?
    {
      if j < 5 {
        Pushing1From0(j, t, t1);
      } else if j < 8 {
        Pushing1From5(j, t, t1);
      } else {
        Pushing1From8(j, t, t1);
      }
    }
    var s;
    run', s := Carry(init, run, call, p, 10, 10);
  }

  lemma ClaimOne(init: State, run: seq<Label>, t2: Thread) returns (run': seq<Label>)
    requires init.Shape() && Claiming1(0, Exec(init, run), t2)
    ensures Claiming1(8, Exec(init, run'), t2) && Deliveries(init, run') == Deliveries(init, run)
  {
    var call := Label(1, CallPop(true));
    var p: (nat, State) -> bool := (j: nat, t: State) => Claiming1(j, t, t2);
    forall j: nat, t: State | j < 8 && t.Shape() && p(j, t)
      ensures p(j + 1, Next(t, Calling(call, j))) && !EventOf(t, Calling(call, j)).PopReturned?
    {
      if j < 4 {
        Claiming1From0(j, t, t2);
      } else {
        Claiming1From4(j, t, t2);
      }
    }
    var s;
    run', s := Carry(init, run, call, p, 8, 8);
  }

  lemma SkipZero(init: State, run: seq<Label>) returns (run': seq<Label>)
    requires init.Shape() && Skipping(0, Exec(init, run))
    ensures Skipping(4, Exec(init, run')) && Deliveries(init, run') == Deliveries(init, run)
  {
    var call := Label(2, CallPop(false));
    var p: (nat, State) -> bool := (j: nat, t: State) => Skipping(j, t);
    forall j: nat, t: State | j < 4 && t.Shape() && p(j, t)
      ensures p(j + 1, Next(t, Calling(call, j))) && !EventOf(t, Calling(call, j)).PopReturned?
    {
      SkippingFrom0(j, t);
    }
    var s;
    run', s := Carry(init, run, call, p, 4, 4);
  }

  lemma ComeBack(init: State, run: seq<Label>) returns (run': seq<Label>)
    requires init.Shape() && Returning(0, Exec(init, run))
    ensures Returning(3, Exec(init, run')) && Deliveries(init, run') == Deliveries(init, run)
  {
    var call := Label(2, CallPop(false));
    var p: (nat, State) -> bool := (j: nat, t: State) => Returning(j, t);
    forall j: nat, t: State | j < 3 && t.Shape() && p(j, t)
      ensures p(j + 1, Next(t, Calling(call, j))) && !EventOf(t, Calling(call, j)).PopReturned?
    {
      ReturningFrom0(j, t);
    }
    var s;
    run', s := Carry(init, run, call, p, 3, 3);
  }

  /** The opening: ticket -1 is claimed but not read, ticket 0 is skipped by `out` only, and thread 2 has passed its
      refusal test with ticket 1. */
  lemma Opening(size: nat) returns (run: seq<Label>)
    requires PowerOfTwo(size)
    ensures Returning(3, Exec(Initial(size, 3), run)) && Deliveries(Initial(size, 3), run) == []
  {
    var init := Initial(size, 3);
    run := PushOne(init, [], Idle);
    run := ClaimOne(init, run, Idle);
    run := SkipZero(init, run);
    run := ComeBack(init, run);
  }
}
