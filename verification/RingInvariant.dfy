/** The life cycle of tickets, and what every interleaving of the ring queue keeps. */
module RingInvariant {
  import opened Masks
  import opened RingQueue

  /** A ticket is claimed by the push that advances `in`, written by its store, taken by the pop
      that advances `out`, and released when that pop frees the slot. */
  datatype Life = Claimed(holder: nat) | Written | Taken(holder: nat) | Released
  datatype Ticket = Ticket(item: int, pusher: nat, life: Life)

  /** The history of a schedule: one entry per ticket handed out so far.  It observes the steps
      and never influences them. */
  function Record(s: State, ledger: seq<Ticket>, l: Label): seq<Ticket> {
    if l.thread >= |s.threads| || !(l.action.Proceed? || l.action.LoseCas?) then ledger else
    match s.threads[l.thread]
    case PushCas(item, i) =>
      if s.inn == i && l.action.Proceed? then ledger + [Ticket(item, l.thread, Claimed(l.thread))] else ledger
    case PushStore(_, i) => Relive(ledger, i, Written)
    case PopCas(o) =>
      if s.out == o && l.action.Proceed? then Relive(ledger, o, Taken(l.thread)) else ledger
    case PopRelease(o, _) => Relive(ledger, o, Released)
    case _ => ledger
  }

  function Relive(ledger: seq<Ticket>, t: int, life: Life): seq<Ticket> {
    if 0 <= t < |ledger| then ledger[t := ledger[t].(life := life)] else ledger
  }

  function Ledger(s: State, run: seq<Label>): seq<Ticket>
    requires s.Shape()
  {
    if run == [] then [] else
    var before := run[..|run| - 1];
    Record(Exec(s, before), Ledger(s, before), run[|run| - 1])
  }

  /** What the slot of ticket t holds. */
  ghost function Content(ledger: seq<Ticket>, t: int): int
    requires t < |ledger|
  {
    if t < 0 || ledger[t].life.Claimed? || ledger[t].life.Released? then 0 else ledger[t].item
  }

  ghost predicate SlotOk(s: State, ledger: seq<Ticket>, t: int)
    requires s.Shape() && t < |ledger|
  {
    s.buffer[Slot(s.size, t)] == Content(ledger, t)
  }

  ghost predicate TicketOk(s: State, ledger: seq<Ticket>, t: nat)
    requires t < |ledger|
  {
    && ledger[t].item != 0
    && (t < s.inn - s.size ==> ledger[t].life.Released?)
    && (t < s.out <==> ledger[t].life.Taken? || ledger[t].life.Released?)
    && match ledger[t].life
       case Claimed(k) => k < |s.threads| && s.threads[k] == PushStore(ledger[t].item, t)
       case Taken(k) => k < |s.threads| && (s.threads[k] == PopRead(t) || s.threads[k] == PopRelease(t, ledger[t].item))
       case _ => true
  }

  /** What a thread may rely on.  The stale-local cases say exactly what a later successful
      compare-and-swap will have established. */
  ghost predicate ThreadOk(s: State, ledger: seq<Ticket>, k: nat)
    requires s.Shape() && |ledger| == s.inn && k < |s.threads|
  {
    match s.threads[k]
    case Idle => true
    case PushLoadIn(item) => item != 0
    case PushTestFull(item, i) => item != 0 && 0 <= i <= s.inn
    case PushTestSlot(item, i) => item != 0 && 0 <= i <= s.inn && (i == s.inn ==> s.inn < s.out + s.size)
    case PushCas(item, i) =>
      && item != 0 && 0 <= i <= s.inn
      && (i == s.inn ==> s.inn < s.out + s.size && (i < s.size || ledger[i - s.size].life.Released?))
    case PushStore(item, i) => 0 <= i < s.inn && ledger[i] == Ticket(item, k, Claimed(k))
    case PopLoadOut => true
    case PopTestEmpty(o) => 0 <= o <= s.out
    case PopTestSlot(o) => 0 <= o <= s.out && (o == s.out ==> s.out < s.inn)
    case PopCas(o) => 0 <= o <= s.out && (o == s.out ==> s.out < s.inn && ledger[o].life.Written?)
    case PopRead(o) => 0 <= o < s.out && o < s.inn && ledger[o].life == Taken(k)
    case PopRelease(o, r) => 0 <= o < s.out && o < s.inn && ledger[o].life == Taken(k) && r == ledger[o].item
  }

  ghost predicate Inv(s: State, ledger: seq<Ticket>) {
    && s.Shape()
    && |ledger| == s.inn
    && 0 <= s.out <= s.inn <= s.out + s.size
    && (forall t | s.inn - s.size <= t < s.inn :: SlotOk(s, ledger, t))
    && (forall t: nat | t < |ledger| :: TicketOk(s, ledger, t))
    && (forall k: nat | k < |s.threads| :: ThreadOk(s, ledger, k))
  }

  ghost predicate Owner(th: Thread) {
    th.PushStore? || th.PopRead? || th.PopRelease?
  }

  lemma InitialInv(size: nat, n: nat)
    requires PowerOfTwo(size)
    ensures Inv(Initial(size, n), [])
  {
  }

  /** Steps that touch neither memory nor ownership. */
  lemma PrivateStep(s: State, ledger: seq<Ticket>, k: nat, th: Thread)
    requires Inv(s, ledger) && k < |s.threads|
    requires !Owner(s.threads[k]) && !Owner(th)
    requires ThreadOk(At(s, k, th), ledger, k)
    ensures Inv(At(s, k, th), ledger)
  {
    var s' := At(s, k, th);
    forall t | s'.inn - s'.size <= t < s'.inn ensures SlotOk(s', ledger, t) {
      assert SlotOk(s, ledger, t);
    }
    forall t: nat | t < |ledger| ensures TicketOk(s', ledger, t) {
      assert TicketOk(s, ledger, t);
    }
    forall j: nat | j < |s'.threads| ensures ThreadOk(s', ledger, j) {
      assert ThreadOk(s, ledger, j);
    }
  }

  lemma ClaimStep(s: State, ledger: seq<Ticket>, k: nat)
    requires Inv(s, ledger) && k < |s.threads|
    requires s.threads[k].PushCas? && s.threads[k].i == s.inn
    ensures Inv(AfterAdvance(s, k, false), Record(s, ledger, Label(k, Proceed)))
  {
    var s', ledger' := AfterAdvance(s, k, false), Record(s, ledger, Label(k, Proceed));
    var i := s.inn;
    assert ThreadOk(s, ledger, k);
    forall t | s'.inn - s'.size <= t < s'.inn ensures SlotOk(s', ledger', t) {
      if t == i {
        LapSharesSlot(s.size, i);
        assert SlotOk(s, ledger, i - s.size);
      } else {
        assert SlotOk(s, ledger, t);
      }
    }
    forall t: nat | t < |ledger'| ensures TicketOk(s', ledger', t) {
      if t < i { assert TicketOk(s, ledger, t); }
    }
    forall j: nat | j < |s'.threads| ensures ThreadOk(s', ledger', j) {
      assert ThreadOk(s, ledger, j);
    }
  }

  /** Overwriting one slot leaves the other slots of the lap alone. */
  lemma OtherSlots(s: State, s': State, ledger: seq<Ticket>, ledger': seq<Ticket>, t: int, x: int)
    requires s.Shape() && |ledger| == |ledger'| == s.inn == s'.inn && s'.size == s.size
    requires s.inn - s.size <= t < s.inn
    requires s'.buffer == s.buffer[Slot(s.size, t) := x]
    requires forall u | 0 <= u < |ledger| && u != t :: ledger'[u] == ledger[u]
    requires forall u | s.inn - s.size <= u < s.inn :: SlotOk(s, ledger, u)
    requires Content(ledger', t) == x
    ensures s'.Shape()
    ensures forall u | s.inn - s.size <= u < s.inn :: SlotOk(s', ledger', u)
  {
    forall u | s.inn - s.size <= u < s.inn ensures SlotOk(s', ledger', u) {
      if u != t {
        LapIsInjective(s.size, u, t);
        assert SlotOk(s, ledger, u);
      }
    }
  }

  lemma StoreStep(s: State, ledger: seq<Ticket>, k: nat)
    requires Inv(s, ledger) && k < |s.threads|
    requires s.threads[k].PushStore?
    ensures Inv(AfterAdvance(s, k, false), Record(s, ledger, Label(k, Proceed)))
  {
    var s', ledger' := AfterAdvance(s, k, false), Record(s, ledger, Label(k, Proceed));
    var PushStore(item, i) := s.threads[k];
    assert ThreadOk(s, ledger, k) && TicketOk(s, ledger, i);
    OtherSlots(s, s', ledger, ledger', i, item);
    forall t: nat | t < |ledger'| ensures TicketOk(s', ledger', t) {
      assert TicketOk(s, ledger, t);
    }
    forall j: nat | j < |s'.threads| ensures ThreadOk(s', ledger', j) {
      assert ThreadOk(s, ledger, j);
    }
  }

  lemma TakeStep(s: State, ledger: seq<Ticket>, k: nat)
    requires Inv(s, ledger) && k < |s.threads|
    requires s.threads[k].PopCas? && s.threads[k].o == s.out
    ensures Inv(AfterAdvance(s, k, false), Record(s, ledger, Label(k, Proceed)))
  {
    var s', ledger' := AfterAdvance(s, k, false), Record(s, ledger, Label(k, Proceed));
    assert ThreadOk(s, ledger, k);
    forall t | s'.inn - s'.size <= t < s'.inn ensures SlotOk(s', ledger', t) {
      assert SlotOk(s, ledger, t);
    }
    forall t: nat | t < |ledger'| ensures TicketOk(s', ledger', t) {
      assert TicketOk(s, ledger, t);
    }
    forall j: nat | j < |s'.threads| ensures ThreadOk(s', ledger', j) {
      assert ThreadOk(s, ledger, j);
    }
  }

  lemma ReadStep(s: State, ledger: seq<Ticket>, k: nat)
    requires Inv(s, ledger) && k < |s.threads|
    requires s.threads[k].PopRead?
    ensures Inv(AfterAdvance(s, k, false), ledger)
  {
    var s' := AfterAdvance(s, k, false);
    var o := s.threads[k].o;
    assert ThreadOk(s, ledger, k) && TicketOk(s, ledger, o) && SlotOk(s, ledger, o);
    forall t | s'.inn - s'.size <= t < s'.inn ensures SlotOk(s', ledger, t) {
      assert SlotOk(s, ledger, t);
    }
    forall t: nat | t < |ledger| ensures TicketOk(s', ledger, t) {
      assert TicketOk(s, ledger, t);
    }
    forall j: nat | j < |s'.threads| ensures ThreadOk(s', ledger, j) {
      assert ThreadOk(s, ledger, j);
    }
  }

  lemma ReleaseStep(s: State, ledger: seq<Ticket>, k: nat)
    requires Inv(s, ledger) && k < |s.threads|
    requires s.threads[k].PopRelease?
    ensures Inv(AfterAdvance(s, k, false), Record(s, ledger, Label(k, Proceed)))
  {
    var s', ledger' := AfterAdvance(s, k, false), Record(s, ledger, Label(k, Proceed));
    var o := s.threads[k].o;
    assert ThreadOk(s, ledger, k) && TicketOk(s, ledger, o);
    OtherSlots(s, s', ledger, ledger', o, 0);
    forall t: nat | t < |ledger'| ensures TicketOk(s', ledger', t) {
      assert TicketOk(s, ledger, t);
    }
    forall j: nat | j < |s'.threads| ensures ThreadOk(s', ledger', j) {
      assert ThreadOk(s, ledger, j);
    }
  }

  /** A free slot seen by a push that still holds the current `in` was released one lap earlier. */
  lemma FreeSlotIsReleased(s: State, ledger: seq<Ticket>)
    requires Inv(s, ledger) && s.inn < s.out + s.size
    ensures s.buffer[Slot(s.size, s.inn)] == 0 <==> s.inn < s.size || ledger[s.inn - s.size].life.Released?
  {
    LapSharesSlot(s.size, s.inn);
    assert SlotOk(s, ledger, s.inn - s.size);
    if s.inn >= s.size { assert TicketOk(s, ledger, s.inn - s.size); }
  }

  /** A filled slot seen by a pop that still holds the current `out` carries that very ticket. */
  lemma FilledSlotIsWritten(s: State, ledger: seq<Ticket>)
    requires Inv(s, ledger) && s.out < s.inn
    ensures s.buffer[Slot(s.size, s.out)] != 0 <==> ledger[s.out].life.Written?
  {
    assert SlotOk(s, ledger, s.out) && TicketOk(s, ledger, s.out);
  }

  function Advancing(lose: bool): Action {
    if lose then LoseCas else Proceed
  }

  lemma PushKeepsInv(s: State, ledger: seq<Ticket>, k: nat, lose: bool)
    requires Inv(s, ledger) && k < |s.threads|
    requires var th := s.threads[k]; th.PushLoadIn? || th.PushTestFull? || th.PushTestSlot? || th.PushCas?
    ensures Inv(AfterAdvance(s, k, lose), Record(s, ledger, Label(k, Advancing(lose))))
  {
    assert ThreadOk(s, ledger, k);
    match s.threads[k]
    case PushLoadIn(item) => PrivateStep(s, ledger, k, PushTestFull(item, s.inn));
    case PushTestFull(item, i) =>
      if i - s.out != s.size { PrivateStep(s, ledger, k, PushTestSlot(item, i)); }
    case PushTestSlot(item, i) =>
      if i == s.inn { FreeSlotIsReleased(s, ledger); }
      PrivateStep(s, ledger, k, if s.buffer[Slot(s.size, i)] != 0 then PushLoadIn(item) else PushCas(item, i));
    case PushCas(item, i) =>
      if s.inn == i && !lose { ClaimStep(s, ledger, k); } else { PrivateStep(s, ledger, k, PushLoadIn(item)); }
  }

  lemma PopKeepsInv(s: State, ledger: seq<Ticket>, k: nat, lose: bool)
    requires Inv(s, ledger) && k < |s.threads|
    requires var th := s.threads[k]; th.PopLoadOut? || th.PopTestEmpty? || th.PopTestSlot? || th.PopCas?
    ensures Inv(AfterAdvance(s, k, lose), Record(s, ledger, Label(k, Advancing(lose))))
  {
    assert ThreadOk(s, ledger, k);
    match s.threads[k]
    case PopLoadOut => PrivateStep(s, ledger, k, PopTestEmpty(s.out));
    case PopTestEmpty(o) =>
      if o != s.inn { PrivateStep(s, ledger, k, PopTestSlot(o)); }
    case PopTestSlot(o) =>
      if o == s.out { FilledSlotIsWritten(s, ledger); }
      PrivateStep(s, ledger, k, if s.buffer[Slot(s.size, o)] == 0 then PopLoadOut else PopCas(o));
    case PopCas(o) =>
      if s.out == o && !lose { TakeStep(s, ledger, k); } else { PrivateStep(s, ledger, k, PopLoadOut); }
  }

  lemma AdvanceKeepsInv(s: State, ledger: seq<Ticket>, k: nat, lose: bool)
    requires Inv(s, ledger) && k < |s.threads|
    ensures Inv(AfterAdvance(s, k, lose), Record(s, ledger, Label(k, Advancing(lose))))
  {
    match s.threads[k]
    case Idle =>
    case PushStore(_, _) => StoreStep(s, ledger, k);
    case PopRead(_) => ReadStep(s, ledger, k);
    case PopRelease(_, _) => ReleaseStep(s, ledger, k);
    case PushLoadIn(_) => PushKeepsInv(s, ledger, k, lose);
    case PushTestFull(_, _) => PushKeepsInv(s, ledger, k, lose);
    case PushTestSlot(_, _) => PushKeepsInv(s, ledger, k, lose);
    case PushCas(_, _) => PushKeepsInv(s, ledger, k, lose);
    case _ => PopKeepsInv(s, ledger, k, lose);
  }

  /** Every step of every thread keeps the invariant. */
  lemma NextKeepsInv(s: State, ledger: seq<Ticket>, l: Label)
    requires Inv(s, ledger)
    ensures Inv(Next(s, l), Record(s, ledger, l))
  {
    if l.thread < |s.threads| {
      match l.action
      case CallPush(item) =>
        if s.threads[l.thread].Idle? && item != 0 { PrivateStep(s, ledger, l.thread, PushLoadIn(item)); }
      case CallPop =>
        if s.threads[l.thread].Idle? { PrivateStep(s, ledger, l.thread, PopLoadOut); }
      case Proceed => AdvanceKeepsInv(s, ledger, l.thread, false);
      case LoseCas => AdvanceKeepsInv(s, ledger, l.thread, true);
    }
  }

  lemma {:induction false} ExecKeepsInv(s: State, run: seq<Label>)
    requires Inv(s, [])
    ensures Inv(Exec(s, run), Ledger(s, run))
    decreases |run|
  {
    if run != [] {
      var before := run[..|run| - 1];
      ExecKeepsInv(s, before);
      NextKeepsInv(Exec(s, before), Ledger(s, before), run[|run| - 1]);
    }
  }
}
