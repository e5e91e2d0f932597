/** The skip-zero queue at capacity 1 and 2, where tickets -1 and 1 share a slot: a schedule that delivers one item
    twice, so that exactly-once delivery holds for capacities from 4 on and for no smaller one. */
module SkipZeroSmall {
  import opened Masks
  import opened SkipZeroQueue
  import opened SkipZeroInvariant
  import opened SkipZeroRefinement
  import opened SkipZeroSchedules

  lemma SmallSize(size: nat)
    requires PowerOfTwo(size) && size < 4
    ensures Slot(size, -1) == size - 1 && Slot(size, 1) == size - 1
  {
    LastSlot(size);
    assert size != 3;
  }

  /** Thread 2 goes on with ticket 1, which was never pushed: the slot is still filled, so it claims the ticket
      and reads the item of ticket -1. */
  ghost predicate ClaimingAhead(j: nat, s: State) {
    match j
    case 0 => Shows(s, true, true, 0, 1, Idle, PopRead(-1), PopTestEmpty(false, 1, 1, false)) && s.size < 4
    case 1 => Shows(s, true, true, 0, 1, Idle, PopRead(-1), PopTestFree(false, 1)) && s.size < 4
    case 2 => Shows(s, true, true, 0, 1, Idle, PopRead(-1), PopCas(false, 1)) && s.size < 4
    case 3 => Shows(s, true, true, 0, 2, Idle, PopRead(-1), PopRead(1)) && s.size < 4
    case 4 => Shows(s, true, true, 0, 2, Idle, PopRead(-1), PopRelease(1, ITEM)) && s.size < 4
    case _ => false
  }

  lemma ClaimAhead(j: nat, s: State)
    requires j < 4 && ClaimingAhead(j, s)
    ensures ClaimingAhead(j + 1, Next(s, Label(2, Proceed))) && !EventOf(s, Label(2, Proceed)).PopReturned?
  {
    SmallSize(s.size);
    match j
    case 0 =>
    case 1 =>
    case 2 =>
    case 3 =>
    case _ =>
  }

  lemma ReadAhead(init: State, run: seq<Label>) returns (run': seq<Label>, s: State)
    requires init.Shape() && ClaimingAhead(0, Exec(init, run))
    ensures s == Exec(init, run') && ClaimingAhead(4, s) && Deliveries(init, run') == Deliveries(init, run)
  {
    var call := Label(2, Proceed);
    var p: (nat, State) -> bool := (j: nat, t: State) => ClaimingAhead(j, t);
    forall j: nat, t: State | j < 4 && t.Shape() && p(j, t)
      ensures p(j + 1, Next(t, Calling(call, j))) && !EventOf(t, Calling(call, j)).PopReturned?
    {
      ClaimAhead(j, t);
    }
    run', s := Carry(init, run, call, p, 4, 4);
  }

  /** One push, two pops that return its item; the second ticket was never pushed. */
  lemma DeliveredTwice(size: nat) returns (run: seq<Label>)
    requires PowerOfTwo(size) && size < 4
    ensures Deliveries(Initial(size, 3), run) == [Delivery(1, ITEM), Delivery(-1, ITEM)]
    ensures Exec(Initial(size, 3), run).inn == 0
  {
    var init := Initial(size, 3);
    run := Opening(size);
    var s;
    run, s := ReadAhead(init, run);
    run := BothReturn(init, run, s);
  }

  /** Thread 1 reads the same slot; both return the one item. */
  lemma BothReturn(init: State, run: seq<Label>, s: State) returns (run': seq<Label>)
    requires init.Shape() && s == Exec(init, run) && ClaimingAhead(4, s) && Deliveries(init, run) == []
    ensures Deliveries(init, run') == [Delivery(1, ITEM), Delivery(-1, ITEM)] && Exec(init, run').inn == 0
  {
    var first, second := Label(1, Proceed), Label(2, Proceed);
    var t, u := Returns(s);
    ExtendSilently(init, run, first, s);
    Extend(init, run + [first], second, t, PopReturned(1, ITEM));
    Extend(init, run + [first] + [second], first, u, PopReturned(-1, ITEM));
    run' := run + [first] + [second] + [first];
  }

  lemma Returns(s: State) returns (t: State, u: State)
    requires ClaimingAhead(4, s)
    ensures t == Next(s, Label(1, Proceed)) && !EventOf(s, Label(1, Proceed)).PopReturned?
    ensures u == Next(t, Label(2, Proceed)) && EventOf(t, Label(2, Proceed)) == PopReturned(1, ITEM)
    ensures EventOf(u, Label(1, Proceed)) == PopReturned(-1, ITEM) && Next(u, Label(1, Proceed)).inn == 0
  {
    SmallSize(s.size);
    t := Next(s, Label(1, Proceed));
    assert t.threads[1] == PopRelease(-1, ITEM) && t.threads[2] == PopRelease(1, ITEM);
    u := Next(t, Label(2, Proceed));
    assert u.threads[1] == PopRelease(-1, ITEM);
  }

  /** The ledger has an entry for each ticket that `in` has passed, at any capacity. */
  lemma {:induction false} LedgerLength(size: nat, n: nat, run: seq<Label>)
    requires PowerOfTwo(size)
    ensures |Ledger(Initial(size, n), run)| == Exec(Initial(size, n), run).inn + 1
    decreases |run|
  {
    if run != [] {
      var before := run[..|run| - 1];
      LedgerLength(size, n, before);
      RecordLength(Exec(Initial(size, n), before), Ledger(Initial(size, n), before), run[|run| - 1]);
    }
  }

  lemma RecordLength(s: State, ledger: seq<Ticket>, l: Label)
    requires s.Shape()
    ensures |Record(s, ledger, l)| - |ledger| == Next(s, l).inn - s.inn
  {
  }

  ghost predicate AlwaysOnce(size: nat)
    requires PowerOfTwo(size)
  {
    forall n: nat, run: seq<Label> :: DeliversOnce(Ledger(Initial(size, n), run), Deliveries(Initial(size, n), run))
  }

  /** Every item is delivered exactly once in every run, if and only if the capacity is at least 4. */
  lemma ExactlyOnceIffFour(size: nat)
    requires PowerOfTwo(size)
    ensures AlwaysOnce(size) <==> size >= 4
  {
    if size >= 4 {
      forall n: nat, run: seq<Label>
        ensures DeliversOnce(Ledger(Initial(size, n), run), Deliveries(Initial(size, n), run))
      {
        DeliveredExactlyOnce(size, n, run);
      }
    } else {
      var run := DeliveredTwice(size);
      LedgerLength(size, 3, run);
      assert Deliveries(Initial(size, 3), run)[0].ticket == 1;
      assert !DeliversOnce(Ledger(Initial(size, 3), run), Deliveries(Initial(size, 3), run));
    }
  }
}
