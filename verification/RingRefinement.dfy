/** The ring queue refines an atomic bounded FIFO queue, and delivers every ticket once. */
module RingRefinement {
  import opened Masks
  import opened RingQueue
  import opened RingInvariant

  // ----- The specification: a FIFO of bounded length whose operations take effect at once -----

  datatype Call = NoCall | Pushing(item: int) | Pushed | Popping | Popped(value: int)
  datatype Fifo = Fifo(queue: seq<int>, calls: seq<Call>)

  function InitialFifo(n: nat): Fifo {
    Fifo([], seq(n, _ => NoCall))
  }

  /** Thread k takes one step with visible event e: it enters a call, takes effect on the queue
      (or does nothing), or leaves the call with the answer its effect produced. */
  ghost predicate FifoStep(capacity: nat, a: Fifo, a': Fifo, k: nat, e: Event) {
    if k >= |a.calls| then a' == a && e == Silent else
    match e
    case PushCalled(item) => a.calls[k] == NoCall && a' == Moves(a, k, a.queue, Pushing(item))
    case PopCalled => a.calls[k] == NoCall && a' == Moves(a, k, a.queue, Popping)
    case PushReturned => a.calls[k] == Pushed && a' == Moves(a, k, a.queue, NoCall)
    case PopReturned(value) => a.calls[k] == Popped(value) && a' == Moves(a, k, a.queue, NoCall)
    case Silent =>
      || a' == a
      || (a.calls[k].Pushing? && |a.queue| < capacity && a' == Moves(a, k, a.queue + [a.calls[k].item], Pushed))
      || (a.calls[k].Popping? && a.queue != [] && a' == Moves(a, k, a.queue[1..], Popped(a.queue[0])))
  }

  function Moves(a: Fifo, k: nat, queue: seq<int>, c: Call): Fifo
    requires k < |a.calls|
  {
    Fifo(queue, a.calls[k := c])
  }

  // ----- The abstraction -----

  function Items(ledger: seq<Ticket>): (items: seq<int>)
    ensures |items| == |ledger|
    ensures forall t | 0 <= t < |items| :: items[t] == ledger[t].item
  {
    seq(|ledger|, t requires 0 <= t < |ledger| => ledger[t].item)
  }

  function CallOf(th: Thread, ledger: seq<Ticket>): Call {
    match th
    case Idle => NoCall
    case PushLoadIn(item) => Pushing(item)
    case PushTestFull(item, _) => Pushing(item)
    case PushTestSlot(item, _) => Pushing(item)
    case PushCas(item, _) => Pushing(item)
    case PushStore(_, _) => Pushed
    case PopRead(o) => if 0 <= o < |ledger| then Popped(ledger[o].item) else Popping
    case PopRelease(_, r) => Popped(r)
    case _ => Popping
  }

  /** The tickets between `out` and `in`, whether or not their stores have happened yet. */
  function Abstract(s: State, ledger: seq<Ticket>): Fifo
    requires 0 <= s.out <= s.inn == |ledger|
  {
    Fifo(Items(ledger)[s.out..], seq(|s.threads|, k requires 0 <= k < |s.threads| => CallOf(s.threads[k], ledger)))
  }

  /** The threads that do not move stay in the same call. */
  lemma OtherCalls(s: State, ledger: seq<Ticket>, s': State, ledger': seq<Ticket>, k: nat)
    requires Inv(s, ledger) && Inv(s', ledger') && k < |s.threads| == |s'.threads|
    requires s'.threads == s.threads[k := s'.threads[k]]
    requires |ledger| <= |ledger'| && forall t | 0 <= t < |ledger| :: ledger'[t].item == ledger[t].item
    ensures var a, a' := Abstract(s, ledger), Abstract(s', ledger');
            a' == Moves(a, k, a'.queue, CallOf(s'.threads[k], ledger'))
  {
    forall j: nat | j < |s.threads| && j != k
      ensures CallOf(s'.threads[j], ledger') == CallOf(s.threads[j], ledger)
    {
      assert ThreadOk(s, ledger, j);
    }
    assert Abstract(s', ledger').calls == Abstract(s, ledger).calls[k := CallOf(s'.threads[k], ledger')];
  }

  ghost predicate Claims(s: State, l: Label)
    requires l.thread < |s.threads|
  {
    l.action.Proceed? && s.threads[l.thread].PushCas? && s.threads[l.thread].i == s.inn
  }

  ghost predicate Takes(s: State, l: Label)
    requires l.thread < |s.threads|
  {
    l.action.Proceed? && s.threads[l.thread].PopCas? && s.threads[l.thread].o == s.out
  }

  /** Only the two successful compare-and-swaps change the queue. */
  lemma QueueEffect(s: State, ledger: seq<Ticket>, l: Label)
    requires Inv(s, ledger) && Inv(Next(s, l), Record(s, ledger, l)) && l.thread < |s.threads|
    ensures var q, q' := Abstract(s, ledger).queue, Abstract(Next(s, l), Record(s, ledger, l)).queue;
            if Claims(s, l) then |q| < s.size && q' == q + [s.threads[l.thread].item]
            else if Takes(s, l) then q == [ledger[s.out].item] + q'
            else q' == q
  {
    assert ThreadOk(s, ledger, l.thread);
    var items, items' := Items(ledger), Items(Record(s, ledger, l));
    if Claims(s, l) {
      assert items' == items + [s.threads[l.thread].item];
    } else {
      assert items' == items;
    }
  }

  lemma StepRefines(s: State, ledger: seq<Ticket>, l: Label)
    requires Inv(s, ledger) && Inv(Next(s, l), Record(s, ledger, l))
    ensures FifoStep(s.size, Abstract(s, ledger), Abstract(Next(s, l), Record(s, ledger, l)), l.thread, EventOf(s, l))
  {
    var k, s', ledger' := l.thread, Next(s, l), Record(s, ledger, l);
    if k < |s.threads| {
      QueueEffect(s, ledger, l);
      OtherCalls(s, ledger, s', ledger', k);
      assert ThreadOk(s, ledger, k);
      forall t | 0 <= t < |ledger| && ledger[t].life.Taken? && s.threads[k] == PopRead(t)
        ensures s.buffer[Slot(s.size, t)] == ledger[t].item
      {
        assert TicketOk(s, ledger, t) && SlotOk(s, ledger, t);
      }
      ThreadRefines(s, ledger, l);
    }
  }

  /** The moving thread's call changes as the specification allows. */
  lemma ThreadRefines(s: State, ledger: seq<Ticket>, l: Label)
    requires s.Shape() && |ledger| == s.inn && l.thread < |s.threads| && ThreadOk(s, ledger, l.thread)
    requires forall t | 0 <= t < |ledger| && ledger[t].life.Taken? && s.threads[l.thread] == PopRead(t) ::
               s.buffer[Slot(s.size, t)] == ledger[t].item
    ensures var c := CallOf(s.threads[l.thread], ledger);
            var c' := CallOf(Next(s, l).threads[l.thread], Record(s, ledger, l));
            match EventOf(s, l)
            case PushCalled(item) => c == NoCall && c' == Pushing(item)
            case PopCalled => c == NoCall && c' == Popping
            case PushReturned => c == Pushed && c' == NoCall
            case PopReturned(value) => c == Popped(value) && c' == NoCall
            case Silent =>
              if Claims(s, l) then c == Pushing(s.threads[l.thread].item) && c' == Pushed
              else if Takes(s, l) then s.out < s.inn && c == Popping && c' == Popped(ledger[s.out].item)
              else c' == c
  {
    match l.action
    case CallPush(_) =>
    case CallPop =>
    case _ =>
  }

  /** `fifos` is a run of the specification that shows the same events as the schedule. */
  ghost predicate Explains(size: nat, n: nat, run: seq<Label>, fifos: seq<Fifo>)
    requires PowerOfTwo(size)
  {
    && |fifos| == |run| + 1
    && fifos[0] == InitialFifo(n)
    && forall j: nat | j < |run| ::
         FifoStep(size, fifos[j], fifos[j + 1], run[j].thread, EventOf(Exec(Initial(size, n), run[..j]), run[j]))
  }

  /** Every interleaving of any number of threads is explained by the atomic FIFO of capacity
      `size`: same calls, same returns, same answers, in the same order. */
  lemma {:induction false} RefinesFifo(size: nat, n: nat, run: seq<Label>) returns (fifos: seq<Fifo>)
    requires PowerOfTwo(size)
    ensures Explains(size, n, run, fifos)
    ensures var s := Exec(Initial(size, n), run);
            Inv(s, Ledger(Initial(size, n), run)) && fifos[|run|] == Abstract(s, Ledger(Initial(size, n), run))
    decreases |run|
  {
    var init := Initial(size, n);
    InitialInv(size, n);
    ExecKeepsInv(init, run);
    if run == [] {
      fifos := [InitialFifo(n)];
      assert Abstract(init, []) == InitialFifo(n);
    } else {
      var before, last := run[..|run| - 1], run[|run| - 1];
      var earlier := RefinesFifo(size, n, before);
      StepRefines(Exec(init, before), Ledger(init, before), last);
      fifos := earlier + [Abstract(Exec(init, run), Ledger(init, run))];
      forall j: nat | j < |run|
        ensures FifoStep(size, fifos[j], fifos[j + 1], run[j].thread, EventOf(Exec(init, run[..j]), run[j]))
      {
        if j < |before| { assert before[..j] == run[..j]; }
      }
    }
  }

  // ----- Ownership and delivery -----

  function HeldTicket(th: Thread): int
    requires Owner(th)
  {
    if th.PushStore? then th.i else th.o
  }

  /** The counters stay within one lap, and two threads never hold the same slot, although the slot
      test and the compare-and-swap are separate steps. */
  lemma SlotsHaveOneOwner(size: nat, n: nat, run: seq<Label>)
    requires PowerOfTwo(size)
    ensures var s := Exec(Initial(size, n), run);
            && 0 <= s.inn - s.out <= size
            && forall j, k | 0 <= j < k < n && Owner(s.threads[j]) && Owner(s.threads[k]) ::
                 Slot(size, HeldTicket(s.threads[j])) != Slot(size, HeldTicket(s.threads[k]))
  {
    var s, ledger := Exec(Initial(size, n), run), Ledger(Initial(size, n), run);
    InitialInv(size, n);
    ExecKeepsInv(Initial(size, n), run);
    forall j, k | 0 <= j < k < n && Owner(s.threads[j]) && Owner(s.threads[k])
      ensures Slot(size, HeldTicket(s.threads[j])) != Slot(size, HeldTicket(s.threads[k]))
    {
      var t, u := HeldTicket(s.threads[j]), HeldTicket(s.threads[k]);
      assert ThreadOk(s, ledger, j) && ThreadOk(s, ledger, k);
      assert TicketOk(s, ledger, t) && TicketOk(s, ledger, u);
      LapIsInjective(size, t, u);
    }
  }

  datatype Delivery = Delivery(ticket: int, value: int, popper: nat)

  /** The pops that have returned, with the ticket each one claimed, the value it gave back and its thread. */
  function Deliveries(s: State, run: seq<Label>): seq<Delivery>
    requires s.Shape()
  {
    if run == [] then [] else
    var before, l := run[..|run| - 1], run[|run| - 1];
    var state := Exec(s, before);
    Deliveries(s, before) +
    if l.thread < |state.threads| && (l.action.Proceed? || l.action.LoseCas?) && state.threads[l.thread].PopRelease?
    then [Delivery(state.threads[l.thread].o, state.threads[l.thread].r, l.thread)] else []
  }

  ghost predicate DeliversOnce(ledger: seq<Ticket>, ds: seq<Delivery>) {
    && (forall j | 0 <= j < |ds| :: 0 <= ds[j].ticket < |ledger| && ledger[ds[j].ticket].life.Released? &&
                                    ds[j].value == ledger[ds[j].ticket].item)
    && (forall i, j | 0 <= i < j < |ds| :: ds[i].ticket != ds[j].ticket)
    && (forall t | 0 <= t < |ledger| && ledger[t].life.Released? :: exists j :: 0 <= j < |ds| && ds[j].ticket == t)
  }

  /** A step either returns a taken ticket and releases it, or releases nothing. */
  lemma ReleaseEffect(s: State, ledger: seq<Ticket>, l: Label, ledger': seq<Ticket>, returned: bool)
    requires Inv(s, ledger) && l.thread < |s.threads| && ledger' == Record(s, ledger, l)
    requires returned <==> (l.action.Proceed? || l.action.LoseCas?) && s.threads[l.thread].PopRelease?
    ensures |ledger| <= |ledger'| && forall t | 0 <= t < |ledger| :: ledger'[t].item == ledger[t].item
    ensures forall t | 0 <= t < |ledger'| :: ledger'[t].life.Released? <==>
              (t < |ledger| && ledger[t].life.Released?) || (returned && t == s.threads[l.thread].o)
    ensures returned ==> var PopRelease(o, r) := s.threads[l.thread];
              0 <= o < |ledger| && !ledger[o].life.Released? && r == ledger[o].item
  {
    assert ThreadOk(s, ledger, l.thread);
    var th := s.threads[l.thread];
    if th.PushStore? { assert TicketOk(s, ledger, th.i); }
    if th.PopCas? && 0 <= s.out < |ledger| { assert TicketOk(s, ledger, s.out); }
  }

  /** Adding one delivery of a ticket just released keeps the books exact. */
  lemma DeliverOne(ledger: seq<Ticket>, ledger': seq<Ticket>, ds: seq<Delivery>, ds': seq<Delivery>, d: Delivery,
                   returned: bool)
    requires DeliversOnce(ledger, ds) && ds' == if returned then ds + [d] else ds
    requires |ledger| <= |ledger'| && forall t | 0 <= t < |ledger| :: ledger'[t].item == ledger[t].item
    requires forall t | 0 <= t < |ledger'| :: ledger'[t].life.Released? <==>
               (t < |ledger| && ledger[t].life.Released?) || (returned && t == d.ticket)
    requires returned ==>
               0 <= d.ticket < |ledger| && !ledger[d.ticket].life.Released? && d.value == ledger[d.ticket].item
    ensures DeliversOnce(ledger', ds')
  {
    forall t | 0 <= t < |ledger'| && ledger'[t].life.Released?
      ensures exists j :: 0 <= j < |ds'| && ds'[j].ticket == t
    {
      if t < |ledger| && ledger[t].life.Released? {
        var j :| 0 <= j < |ds| && ds[j].ticket == t;
        assert ds'[j].ticket == t;
      } else {
        assert ds'[|ds|].ticket == t;
      }
    }
  }

  /** Each released ticket was returned by exactly one pop, with the item pushed under it; nothing
      else was ever returned. */
  lemma {:induction false} DeliveredExactlyOnce(size: nat, n: nat, run: seq<Label>)
    requires PowerOfTwo(size)
    ensures DeliversOnce(Ledger(Initial(size, n), run), Deliveries(Initial(size, n), run))
    decreases |run|
  {
    if run != [] {
      var init, before, l := Initial(size, n), run[..|run| - 1], run[|run| - 1];
      var s, ledger, ds := Exec(init, before), Ledger(init, before), Deliveries(init, before);
      DeliveredExactlyOnce(size, n, before);
      InitialInv(size, n);
      ExecKeepsInv(init, before);
      if l.thread < n {
        var returned := (l.action.Proceed? || l.action.LoseCas?) && s.threads[l.thread].PopRelease?;
        var th := s.threads[l.thread];
        var d := if returned then Delivery(th.o, th.r, l.thread) else Delivery(0, 0, 0);
        ReleaseEffect(s, ledger, l, Ledger(init, run), returned);
        DeliverOne(ledger, Ledger(init, run), ds, Deliveries(init, run), d, returned);
      } else {
        assert Ledger(init, run) == ledger && Deliveries(init, run) == ds;
      }
    }
  }

  /** When no call is in progress, every ticket below `out` has been delivered, every ticket from
      `out` on waits in its own slot, and all other slots are free. */
  lemma QuiescentQueue(size: nat, n: nat, run: seq<Label>)
    requires PowerOfTwo(size)
    requires forall k | 0 <= k < n :: Exec(Initial(size, n), run).threads[k].Idle?
    ensures var s, ledger := Exec(Initial(size, n), run), Ledger(Initial(size, n), run);
            && 0 <= s.out <= s.inn == |ledger| <= s.out + size
            && (forall t | 0 <= t < s.out :: ledger[t].life.Released?)
            && (forall t | s.out <= t < s.inn :: s.buffer[Slot(size, t)] == ledger[t].item)
            && (forall t | s.inn - size <= t < s.out :: s.buffer[Slot(size, t)] == 0)
  {
    var s, ledger := Exec(Initial(size, n), run), Ledger(Initial(size, n), run);
    InitialInv(size, n);
    ExecKeepsInv(Initial(size, n), run);
    forall t | 0 <= t < s.inn
      ensures ledger[t].life == if t < s.out then Released else Written
    {
      assert TicketOk(s, ledger, t);
    }
    forall t | s.inn - size <= t < s.inn
      ensures s.buffer[Slot(size, t)] == if t < s.out then 0 else ledger[t].item
    {
      assert SlotOk(s, ledger, t);
    }
  }
}
