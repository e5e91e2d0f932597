/** The skip-zero queue refines an atomic bounded FIFO that hands out the tickets -1, 1, 2, 3, ... */
module SkipZeroRefinement {
  import opened Masks
  import opened SkipZeroQueue
  import opened SkipZeroInvariant

  // ----- The specification -----

  datatype Entry = Entry(ticket: int, item: int)
  /** What a call is doing, with the flag and the item that its caller gave. */
  datatype Call =
    | NoCall | Pushing(item: int, wait: bool) | Pushed(ticket: int) | Popping(wait: bool) | Popped(entry: Entry)
  datatype Fifo = Fifo(queue: seq<Entry>, next: int, calls: seq<Call>)

  function InitialFifo(n: nat): Fifo {
    Fifo([], -1, seq(n, _ => NoCall))
  }

  function After(ticket: int): int {
    if ticket == -1 then 1 else ticket + 1
  }

  function Moves(a: Fifo, k: nat, queue: seq<Entry>, next: int, c: Call): Fifo
    requires k < |a.calls|
  {
    Fifo(queue, next, a.calls[k := c])
  }

  /** No room: the queue is full, or, while the skipped ticket 0 still takes up a place on the first
      lap, one short of full. */
  ghost predicate NoRoom(capacity: nat, a: Fifo) {
    |a.queue| == capacity || (|a.queue| == capacity - 1 && a.next <= capacity)
  }

  /** A push takes the next ticket, a pop takes the oldest entry; a refused push found no room and a
      refused pop found nothing, at the moment of the refusal, and neither was called to wait. */
  ghost predicate FifoStep(capacity: nat, a: Fifo, a': Fifo, k: nat, e: Event) {
    if k >= |a.calls| then a' == a && e == Silent else
    match e
    case PushCalled(item, wait) =>
      a.calls[k] == NoCall && a' == Moves(a, k, a.queue, a.next, Pushing(item, wait))
    case PopCalled(wait) => a.calls[k] == NoCall && a' == Moves(a, k, a.queue, a.next, Popping(wait))
    case PushReturned(ticket) => a.calls[k] == Pushed(ticket) && a' == Moves(a, k, a.queue, a.next, NoCall)
    case PopReturned(ticket, value) =>
      a.calls[k] == Popped(Entry(ticket, value)) && a' == Moves(a, k, a.queue, a.next, NoCall)
    case PushRefused =>
      && a.calls[k].Pushing? && !a.calls[k].wait && NoRoom(capacity, a)
      && a' == Moves(a, k, a.queue, a.next, NoCall)
    case PopRefused =>
      a.calls[k] == Popping(false) && a.queue == [] && a' == Moves(a, k, a.queue, a.next, NoCall)
    case Silent =>
      || a' == a
      || (a.calls[k].Pushing? && |a.queue| < capacity &&
          a' == Moves(a, k, a.queue + [Entry(a.next, a.calls[k].item)], After(a.next), Pushed(a.next)))
      || (a.calls[k].Popping? && a.queue != [] && a' == Moves(a, k, a.queue[1..], a.next, Popped(a.queue[0])))
  }

  // ----- The abstraction -----

  /** The entries of the tickets from t on, without ticket 0. */
  function Waiting(ledger: seq<Ticket>, t: int): seq<Entry>
    requires t >= -1
    decreases |ledger| - t
  {
    if t >= |ledger| - 1 then [] else
    (if t == 0 then [] else [Entry(t, ledger[t + 1].item)]) + Waiting(ledger, t + 1)
  }

  lemma {:induction false} WaitingLength(ledger: seq<Ticket>, t: int)
    requires -1 <= t <= |ledger| - 1
    ensures |Waiting(ledger, t)| == |ledger| - 1 - t - (if t <= 0 < |ledger| - 1 then 1 else 0)
    decreases |ledger| - t
  {
    if t < |ledger| - 1 { WaitingLength(ledger, t + 1); }
  }

  lemma {:induction false} WaitingAppend(ledger: seq<Ticket>, x: Ticket, t: int)
    requires -1 <= t <= |ledger| - 1
    ensures Waiting(ledger + [x], t) ==
              Waiting(ledger, t) + if |ledger| == 1 then [] else [Entry(|ledger| - 1, x.item)]
    decreases |ledger| - t
  {
    if t < |ledger| - 1 {
      WaitingAppend(ledger, x, t + 1);
    } else {
      assert Waiting(ledger + [x], t + 1) == [];
    }
  }

  lemma {:induction false} WaitingDepends(ledger: seq<Ticket>, ledger': seq<Ticket>, t: int)
    requires t >= -1 && |ledger| == |ledger'| && forall u | 0 <= u < |ledger| :: ledger[u].item == ledger'[u].item
    ensures Waiting(ledger', t) == Waiting(ledger, t)
    decreases |ledger| - t
  {
    if t < |ledger| - 1 { WaitingDepends(ledger, ledger', t + 1); }
  }

  function CallOf(th: Thread, ledger: seq<Ticket>): Call {
    match th
    case Idle => NoCall
    case PushLoadIn(item, wait) => Pushing(item, wait)
    case PushReloadIn(item, wait, _, _) => Pushing(item, wait)
    case PushTestFull(item, wait, _, _, _) => Pushing(item, wait)
    case PushTestFree(item, wait, _) => Pushing(item, wait)
    case PushCas(item, wait, _) => Pushing(item, wait)
    case PushStore(_, i) => Pushed(i)
    case PushPublish(_, i) => Pushed(i)
    case PopLoadOut(wait) => Popping(wait)
    case PopSkipZero(wait) => Popping(wait)
    case PopReloadOut(wait, _, _) => Popping(wait)
    case PopTestEmpty(wait, _, _, _) => Popping(wait)
    case PopTestFree(wait, _) => Popping(wait)
    case PopCas(wait, _) => Popping(wait)
    case PopRead(o) => Popped(Entry(o, ItemOf(ledger, o)))
    case PopRelease(o, r) => Popped(Entry(o, r))
  }

  function Abstract(s: State, ledger: seq<Ticket>): Fifo
    requires s.out >= -1
  {
    Fifo(Waiting(ledger, s.out), if s.inn == 0 then 1 else s.inn,
         seq(|s.threads|, k requires 0 <= k < |s.threads| => CallOf(s.threads[k], ledger)))
  }

  ghost predicate Claims(s: State, l: Label)
    requires l.thread < |s.threads|
  {
    l.action.Proceed? && s.threads[l.thread].PushCas? && s.threads[l.thread].i == s.inn && s.inn != 0
  }

  ghost predicate Takes(s: State, l: Label)
    requires l.thread < |s.threads|
  {
    l.action.Proceed? && s.threads[l.thread].PopCas? && s.threads[l.thread].o == s.out
  }

  /** What a step does to the counters and to the items on record. */
  lemma CounterEffect(s: State, ledger: seq<Ticket>, l: Label)
    requires s.Shape() && l.thread < |s.threads| && |ledger| == s.inn + 1
    ensures var s', ledger' := Next(s, l), Record(s, ledger, l);
            if Claims(s, l) || (s.inn == 0 && s'.inn != 0)
            then s'.inn == s.inn + 1 && s'.out == s.out &&
                 exists x: Ticket :: ledger' == ledger + [x] && (s.inn == 0 || x.item == s.threads[l.thread].item)
            else s'.inn == s.inn && |ledger'| == |ledger| &&
                 (forall u | 0 <= u < |ledger| :: ledger'[u].item == ledger[u].item) &&
                 (s'.out == if Takes(s, l) then s.out + 1 else if s'.out != s.out then 1 else s.out) &&
                 (s'.out != s.out && !Takes(s, l) ==> s.out == 0)
  {
    var th := s.threads[l.thread];
    if l.action.Proceed? && th.PushCas? && th.i == s.inn {
      var x := Ticket(th.item, if th.i == 0 then Skipped else Life.Claimed(l.thread));
      assert Record(s, ledger, l) == ledger + [x];
    }
  }

  /** Only the successful compare-and-swaps on tickets other than 0 change the queue. */
  lemma QueueEffect(s: State, ledger: seq<Ticket>, l: Label)
    requires Inv(s, ledger) && l.thread < |s.threads|
    ensures var s', ledger' := Next(s, l), Record(s, ledger, l);
            var q, q' := Waiting(ledger, s.out), Waiting(ledger', s'.out);
            s'.out >= -1 &&
            if Claims(s, l)
            then |q| < s.size && s'.inn == s.inn + 1 && q' == q + [Entry(s.inn, s.threads[l.thread].item)]
            else (s'.inn == s.inn || (s.inn == 0 && s'.inn == 1)) &&
                 if Takes(s, l) then q == [Entry(s.out, ItemOf(ledger, s.out))] + q' else q' == q
  {
    assert ThreadOk(s, ledger, l.thread);
    CounterEffect(s, ledger, l);
    var s', ledger' := Next(s, l), Record(s, ledger, l);
    if Claims(s, l) || (s.inn == 0 && s'.inn != 0) {
      var x: Ticket :| ledger' == ledger + [x] && (s.inn == 0 || x.item == s.threads[l.thread].item);
      if s.out <= s.inn {
        WaitingAppend(ledger, x, s.out);
        WaitingLength(ledger, s.out);
      }
    } else {
      WaitingDepends(ledger, ledger', s'.out);
      if Takes(s, l) { assert TicketOk(s, ledger, s.out); }
    }
  }

  /** The moving thread's call changes as the specification allows. */
  ghost predicate CallMoves(s: State, ledger: seq<Ticket>, l: Label)
    requires s.Shape() && l.thread < |s.threads|
  {
    var c, c' := CallOf(s.threads[l.thread], ledger), CallOf(Next(s, l).threads[l.thread], Record(s, ledger, l));
    match EventOf(s, l)
    case PushCalled(item, wait) => c == NoCall && c' == Pushing(item, wait)
    case PopCalled(wait) => c == NoCall && c' == Popping(wait)
    case PushReturned(ticket) => c == Pushed(ticket) && c' == NoCall
    case PopReturned(ticket, value) => c == Popped(Entry(ticket, value)) && c' == NoCall
    case PushRefused => c.Pushing? && !c.wait && c' == NoCall && s.inn == s.out + s.size
    case PopRefused => c == Popping(false) && c' == NoCall && s.inn <= s.out
    case Silent =>
      if Claims(s, l) then c == Pushing(s.threads[l.thread].item, s.threads[l.thread].wait) && c' == Pushed(s.inn)
      else if Takes(s, l) then c.Popping? && c' == Popped(Entry(s.out, ItemOf(ledger, s.out)))
      else c' == c
  }

  lemma PushCallMoves(s: State, ledger: seq<Ticket>, l: Label)
    requires s.Shape() && |ledger| == s.inn + 1 && l.thread < |s.threads|
    requires CountersOk(s) && ThreadOk(s, ledger, l.thread)
    requires SkipZeroQueue.Pushing(s.threads[l.thread])
    ensures CallMoves(s, ledger, l)
  {
    match l.action
    case CallPush(_, _) =>
    case CallPop(_) =>
    case _ =>
  }

  lemma PopCallMoves(s: State, ledger: seq<Ticket>, l: Label)
    requires s.Shape() && |ledger| == s.inn + 1 && l.thread < |s.threads|
    requires CountersOk(s) && ThreadOk(s, ledger, l.thread)
    requires !SkipZeroQueue.Pushing(s.threads[l.thread])
    requires s.threads[l.thread].PopRead? ==>
               s.buffer[Slot(s.size, s.threads[l.thread].o)] == ItemOf(ledger, s.threads[l.thread].o)
    ensures CallMoves(s, ledger, l)
  {
    if InTake(s.threads[l.thread]) { TakeCallMoves(s, ledger, l); } else { SeekCallMoves(s, ledger, l); }
  }

  /** The part of pop from the compare-and-swap on. */
  ghost predicate InTake(th: Thread) {
    th.PopCas? || th.PopRead? || th.PopRelease?
  }

  lemma TakeCallMoves(s: State, ledger: seq<Ticket>, l: Label)
    requires s.Shape() && |ledger| == s.inn + 1 && l.thread < |s.threads|
    requires CountersOk(s) && ThreadOk(s, ledger, l.thread)
    requires InTake(s.threads[l.thread])
    requires s.threads[l.thread].PopRead? ==>
               s.buffer[Slot(s.size, s.threads[l.thread].o)] == ItemOf(ledger, s.threads[l.thread].o)
    ensures CallMoves(s, ledger, l)
  {
    match l.action
    case CallPush(_, _) =>
    case CallPop(_) =>
    case _ =>
  }

  lemma SeekCallMoves(s: State, ledger: seq<Ticket>, l: Label)
    requires s.Shape() && |ledger| == s.inn + 1 && l.thread < |s.threads|
    requires CountersOk(s) && ThreadOk(s, ledger, l.thread)
    requires !SkipZeroQueue.Pushing(s.threads[l.thread]) && !InTake(s.threads[l.thread])
    ensures CallMoves(s, ledger, l)
  {
    match l.action
    case CallPush(_, _) =>
    case CallPop(_) =>
    case _ =>
  }

  lemma OtherCalls(s: State, ledger: seq<Ticket>, l: Label)
    requires Inv(s, ledger) && l.thread < |s.threads|
    ensures var s', ledger' := Next(s, l), Record(s, ledger, l);
            forall k: nat | k < |s.threads| && k != l.thread ::
              CallOf(s'.threads[k], ledger') == CallOf(s.threads[k], ledger)
  {
    var s', ledger' := Next(s, l), Record(s, ledger, l);
    CounterEffect(s, ledger, l);
    forall k: nat | k < |s.threads| && k != l.thread
      ensures CallOf(s'.threads[k], ledger') == CallOf(s.threads[k], ledger)
    {
      assert ThreadOk(s, ledger, k);
      OthersStay(s, l, k);
    }
  }

  lemma OthersStay(s: State, l: Label, k: nat)
    requires s.Shape() && l.thread < |s.threads| && k < |s.threads| && k != l.thread
    ensures Next(s, l).threads[k] == s.threads[k]
  {
    AdvanceStays(s, l.thread, l.action.LoseCas?, k);
  }

  lemma AdvanceStays(s: State, j: nat, lose: bool, k: nat)
    requires s.Shape() && j < |s.threads| && k < |s.threads| && k != j
    ensures AfterAdvance(s, j, lose).threads[k] == s.threads[k]
  {
    if SkipZeroQueue.Pushing(s.threads[j]) {
    } else {
    }
  }

  lemma MoverMoves(s: State, ledger: seq<Ticket>, l: Label)
    requires Inv(s, ledger) && l.thread < |s.threads|
    ensures CallMoves(s, ledger, l)
  {
    var th := s.threads[l.thread];
    assert ThreadOk(s, ledger, l.thread);
    if th.PopRead? {
      assert TicketOk(s, ledger, th.o) && SlotOk(s, ledger, th.o);
    }
    if SkipZeroQueue.Pushing(th) { PushCallMoves(s, ledger, l); } else { PopCallMoves(s, ledger, l); }
  }

  lemma StepRefines(s: State, ledger: seq<Ticket>, l: Label)
    requires Inv(s, ledger) && Inv(Next(s, l), Record(s, ledger, l))
    ensures FifoStep(s.size, Abstract(s, ledger), Abstract(Next(s, l), Record(s, ledger, l)), l.thread, EventOf(s, l))
  {
    var k, s', ledger' := l.thread, Next(s, l), Record(s, ledger, l);
    if k < |s.threads| {
      MoverMoves(s, ledger, l);
      QueueEffect(s, ledger, l);
      OtherCalls(s, ledger, l);
      var a, a' := Abstract(s, ledger), Abstract(s', ledger');
      assert a' == Moves(a, k, a'.queue, a'.next, CallOf(s'.threads[k], ledger'));
      if EventOf(s, l).PushRefused? { WaitingLength(ledger, s.out); }
    }
  }

  ghost predicate Explains(size: nat, n: nat, run: seq<Label>, fifos: seq<Fifo>)
    requires PowerOfTwo(size) && size >= 4
  {
    && |fifos| == |run| + 1
    && fifos[0] == InitialFifo(n)
    && forall j: nat | j < |run| ::
         FifoStep(size, fifos[j], fifos[j + 1], run[j].thread, EventOf(Exec(Initial(size, n), run[..j]), run[j]))
  }

  /** Every interleaving, with waiting and refusing calls mixed, is explained by the atomic FIFO. */
  lemma {:induction false} RefinesFifo(size: nat, n: nat, run: seq<Label>) returns (fifos: seq<Fifo>)
    requires PowerOfTwo(size) && size >= 4
    ensures Explains(size, n, run, fifos)
    ensures var s, ledger := Exec(Initial(size, n), run), Ledger(Initial(size, n), run);
            Inv(s, ledger) && fifos[|run|] == Abstract(s, ledger)
    decreases |run|
  {
    var init := Initial(size, n);
    InitialInv(size, n);
    ExecKeepsInv(init, run);
    if run == [] {
      fifos := [InitialFifo(n)];
      assert Abstract(init, []) == InitialFifo(n);
    } else {
      var before, last := run[..|run| - 1], run[|run| - 1];
      var earlier := RefinesFifo(size, n, before);
      StepRefines(Exec(init, before), Ledger(init, before), last);
      fifos := earlier + [Abstract(Exec(init, run), Ledger(init, run))];
      forall j: nat | j < |run|
        ensures FifoStep(size, fifos[j], fifos[j + 1], run[j].thread, EventOf(Exec(init, run[..j]), run[j]))
      {
        if j < |before| { assert before[..j] == run[..j]; }
      }
    }
  }

  // ----- Counters, tickets and refusals -----

  /** The counters in every reachable state: `out` passes `in` only as (0, 1), they stay within one
      lap, and no two threads hold the same slot. */
  lemma CountersAndOwners(size: nat, n: nat, run: seq<Label>)
    requires PowerOfTwo(size) && size >= 4
    ensures var s := Exec(Initial(size, n), run);
            && (s.out <= s.inn || (s.inn == 0 && s.out == 1)) && s.inn - s.out <= size
            && forall j, k | 0 <= j < k < n && Owner(s.threads[j]) && Owner(s.threads[k]) ::
                 Slot(size, HeldTicket(s.threads[j])) != Slot(size, HeldTicket(s.threads[k]))
  {
    var s, ledger := Exec(Initial(size, n), run), Ledger(Initial(size, n), run);
    InitialInv(size, n);
    ExecKeepsInv(Initial(size, n), run);
    forall j, k | 0 <= j < k < n && Owner(s.threads[j]) && Owner(s.threads[k])
      ensures Slot(size, HeldTicket(s.threads[j])) != Slot(size, HeldTicket(s.threads[k]))
    {
      var t, u := HeldTicket(s.threads[j]), HeldTicket(s.threads[k]);
      assert ThreadOk(s, ledger, j) && ThreadOk(s, ledger, k);
      assert TicketOk(s, ledger, t) && TicketOk(s, ledger, u);
      LapIsInjective(size, t, u);
    }
  }

  function HeldTicket(th: Thread): int
    requires Owner(th)
  {
    if th.PushStore? || th.PushPublish? then th.i else th.o
  }

  /** 0 means refusal: no successful call ever returns it, and ticket 0 never carries an item. */
  lemma TicketZeroIsNeverReturned(size: nat, n: nat, run: seq<Label>, l: Label)
    requires PowerOfTwo(size) && size >= 4
    ensures EventOf(Exec(Initial(size, n), run), l) != PushReturned(0)
    ensures forall value :: EventOf(Exec(Initial(size, n), run), l) != PopReturned(0, value)
    ensures !Filled(Ledger(Initial(size, n), run), 0)
  {
    var s, ledger := Exec(Initial(size, n), run), Ledger(Initial(size, n), run);
    InitialInv(size, n);
    ExecKeepsInv(Initial(size, n), run);
    if s.inn > 0 { assert TicketOk(s, ledger, 0); }
    if l.thread < n { assert ThreadOk(s, ledger, l.thread); }
  }

  /** A call that must not wait passes its wait loop at once, except a push that loaded ticket -1 and
      a pop that loaded ticket -1 or 1: only those can find the counters moved against them between
      the refusal test and the wait loop. */
  lemma TryCallsDoNotWait(size: nat, n: nat, run: seq<Label>, k: nat)
    requires PowerOfTwo(size) && size >= 4 && k < n
    ensures var s := Exec(Initial(size, n), run); var th, s' := s.threads[k], AfterAdvance(s, k, false);
            && (th.PushTestFull? && !th.wait && !th.first && th.i != -1 ==> s'.threads[k].PushTestFree?)
            && (th.PopTestEmpty? && !th.wait && !th.first && th.o != -1 && th.o != 1 ==> s'.threads[k].PopTestFree?)
  {
    InitialInv(size, n);
    ExecKeepsInv(Initial(size, n), run);
    assert ThreadOk(Exec(Initial(size, n), run), Ledger(Initial(size, n), run), k);
  }

  // ----- Refusals -----

  /** Label j of the run began the call that thread k is in after the run: it found the thread idle, and the thread has
      not been idle since. */
  ghost predicate Began(init: State, run: seq<Label>, k: nat, j: nat)
    requires init.Shape() && k < |init.threads|
  {
    && j < |run| && run[j].thread == k && (run[j].action.CallPush? || run[j].action.CallPop?)
    && Exec(init, run[..j]).threads[k].Idle?
    && forall i: nat | j < i <= |run| :: !Exec(init, run[..i]).threads[k].Idle?
  }

  /** A thread inside a call keeps what the caller gave. */
  ghost predicate Serves(th: Thread, action: Action) {
    match CallOf(th, [])
    case NoCall => false
    case Pushing(item, wait) => action == CallPush(item, wait)
    case Pushed(_) => action.CallPush?
    case Popping(wait) => action == CallPop(wait)
    case Popped(_) => action.CallPop?
  }

  lemma ServesStill(s: State, k: nat, l: Label, action: Action)
    requires s.Shape() && k < |s.threads|
    requires if s.threads[k].Idle? then l.thread == k && l.action == action && (action.CallPush? || action.CallPop?)
             else Serves(s.threads[k], action)
    ensures Next(s, l).threads[k].Idle? || Serves(Next(s, l).threads[k], action)
  {
    if l.thread < |s.threads| && l.thread != k {
      OthersStay(s, l, k);
    } else if !s.threads[k].Idle? {
      AdvanceServes(s, k, l.action.LoseCas?, action);
    }
  }

  lemma AdvanceServes(s: State, k: nat, lose: bool, action: Action)
    requires s.Shape() && k < |s.threads| && Serves(s.threads[k], action)
    ensures AfterAdvance(s, k, lose).threads[k].Idle? || Serves(AfterAdvance(s, k, lose).threads[k], action)
  {
    if SkipZeroQueue.Pushing(s.threads[k]) {
      PushServes(s, k, lose, action);
    } else if InTake(s.threads[k]) {
      TakeServes(s, k, lose, action);
    } else {
      SeekServes(s, k, lose, action);
    }
  }

  lemma PushServes(s: State, k: nat, lose: bool, action: Action)
    requires s.Shape() && k < |s.threads| && Serves(s.threads[k], action)
    requires SkipZeroQueue.Pushing(s.threads[k])
    ensures AfterAdvance(s, k, lose).threads[k].Idle? || Serves(AfterAdvance(s, k, lose).threads[k], action)
  {
  }

  lemma TakeServes(s: State, k: nat, lose: bool, action: Action)
    requires s.Shape() && k < |s.threads| && Serves(s.threads[k], action)
    requires InTake(s.threads[k])
    ensures AfterAdvance(s, k, lose).threads[k].Idle? || Serves(AfterAdvance(s, k, lose).threads[k], action)
  {
  }

  lemma SeekServes(s: State, k: nat, lose: bool, action: Action)
    requires s.Shape() && k < |s.threads| && Serves(s.threads[k], action)
    requires !SkipZeroQueue.Pushing(s.threads[k]) && !InTake(s.threads[k])
    ensures AfterAdvance(s, k, lose).threads[k].Idle? || Serves(AfterAdvance(s, k, lose).threads[k], action)
  {
  }

  lemma {:induction false} BeganCall(init: State, run: seq<Label>, k: nat) returns (j: nat)
    requires init.Shape() && k < |init.threads| && init.threads[k].Idle? && !Exec(init, run).threads[k].Idle?
    ensures Began(init, run, k, j) && Serves(Exec(init, run).threads[k], run[j].action)
    decreases |run|
  {
    var before, l := run[..|run| - 1], run[|run| - 1];
    var s := Exec(init, before);
    assert run[..|run|] == run;
    if s.threads[k].Idle? {
      j := |before|;
      if l.thread < |s.threads| && l.thread != k { OthersStay(s, l, k); }
      ServesStill(s, k, l, l.action);
    } else {
      j := BeganCall(init, before, k);
      ServesStill(s, k, l, run[j].action);
      assert before[..j] == run[..j];
      forall i: nat | j < i <= |run| ensures !Exec(init, run[..i]).threads[k].Idle? {
        if i < |run| { assert before[..i] == run[..i]; }
      }
    }
  }

  /** Only calls that were made with `wait` false are refused, whatever the run and the capacity: the last call label
      that found the thread idle says so. */
  lemma OnlyTryCallsAreRefused(size: nat, n: nat, run: seq<Label>, l: Label)
    requires PowerOfTwo(size)
    ensures var init := Initial(size, n);
            match EventOf(Exec(init, run), l)
            case PushRefused => exists j: nat, item ::
              Began(init, run, l.thread, j) && run[j].action == CallPush(item, false)
            case PopRefused => exists j: nat :: Began(init, run, l.thread, j) && run[j].action == CallPop(false)
            case _ => true
  {
    var init := Initial(size, n);
    var e := EventOf(Exec(init, run), l);
    if e.PushRefused? || e.PopRefused? {
      var j := BeganCall(init, run, l.thread);
      if e.PushRefused? { assert run[j].action == CallPush(run[j].action.item, false); }
    }
  }

  // ----- Delivery -----

  datatype Delivery = Delivery(ticket: int, value: int)

  /** The pops that have returned, with their tickets and items. */
  function Deliveries(s: State, run: seq<Label>): seq<Delivery>
    requires s.Shape()
  {
    if run == [] then [] else
    var before, l := run[..|run| - 1], run[|run| - 1];
    var e := EventOf(Exec(s, before), l);
    Deliveries(s, before) + if e.PopReturned? then [Delivery(e.ticket, e.value)] else []
  }

  ghost predicate DeliversOnce(ledger: seq<Ticket>, ds: seq<Delivery>) {
    && (forall j | 0 <= j < |ds| ::
          && -1 <= ds[j].ticket < |ledger| - 1 && ds[j].ticket != 0
          && LifeOf(ledger, ds[j].ticket).Released? && ds[j].value == ItemOf(ledger, ds[j].ticket))
    && (forall i, j | 0 <= i < j < |ds| :: ds[i].ticket != ds[j].ticket)
    && (forall t | -1 <= t < |ledger| - 1 && LifeOf(ledger, t).Released? ::
          exists j :: 0 <= j < |ds| && ds[j].ticket == t)
  }

  /** Each released ticket was returned by exactly one pop, with the item pushed under it. */
  lemma {:induction false} DeliveredExactlyOnce(size: nat, n: nat, run: seq<Label>)
    requires PowerOfTwo(size) && size >= 4
    ensures DeliversOnce(Ledger(Initial(size, n), run), Deliveries(Initial(size, n), run))
    decreases |run|
  {
    if run != [] {
      var init, before, l := Initial(size, n), run[..|run| - 1], run[|run| - 1];
      var s, ledger, ds := Exec(init, before), Ledger(init, before), Deliveries(init, before);
      DeliveredExactlyOnce(size, n, before);
      InitialInv(size, n);
      ExecKeepsInv(init, before);
      if l.thread < n { ReleaseEffect(s, ledger, l); }
      var ledger', ds' := Ledger(init, run), Deliveries(init, run);
      forall t | -1 <= t < |ledger'| - 1 && LifeOf(ledger', t).Released?
        ensures exists j :: 0 <= j < |ds'| && ds'[j].ticket == t
      {
        if t < |ledger| - 1 && LifeOf(ledger, t).Released? {
          var j :| 0 <= j < |ds| && ds[j].ticket == t;
          assert ds'[j].ticket == t;
        } else {
          assert ds'[|ds|].ticket == t;
        }
      }
    }
  }

  /** A step either returns a taken ticket and releases it, or releases nothing. */
  ghost predicate Releases(ledger: seq<Ticket>, ledger': seq<Ticket>, e: Event) {
    && |ledger| <= |ledger'|
    && (forall t | -1 <= t < |ledger| - 1 :: ItemOf(ledger', t) == ItemOf(ledger, t))
    && (forall t | -1 <= t < |ledger'| - 1 :: LifeOf(ledger', t).Released? <==>
          (t < |ledger| - 1 && LifeOf(ledger, t).Released?) || (e.PopReturned? && e.ticket == t))
    && (e.PopReturned? ==>
          && -1 <= e.ticket < |ledger| - 1 && e.ticket != 0
          && !LifeOf(ledger, e.ticket).Released? && e.value == ItemOf(ledger, e.ticket))
  }

  lemma ReleaseEffect(s: State, ledger: seq<Ticket>, l: Label)
    requires Inv(s, ledger) && l.thread < |s.threads|
    ensures Releases(ledger, Record(s, ledger, l), EventOf(s, l))
  {
    assert ThreadOk(s, ledger, l.thread);
    var th := s.threads[l.thread];
    if th.PopRelease? {
      assert TicketOk(s, ledger, th.o);
    } else if th.PushPublish? || th.PushStore? {
      assert TicketOk(s, ledger, th.i);
    } else if th.PopCas? {
      CasReleasesNothing(s, ledger, l);
    }
  }

  lemma CasReleasesNothing(s: State, ledger: seq<Ticket>, l: Label)
    requires Inv(s, ledger) && l.thread < |s.threads| && s.threads[l.thread].PopCas?
    ensures Releases(ledger, Record(s, ledger, l), EventOf(s, l))
  {
    assert ThreadOk(s, ledger, l.thread);
    var o := s.threads[l.thread].o;
    if o == s.out { assert TicketOk(s, ledger, o); }
  }
}
