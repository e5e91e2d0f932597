/** Ticket life cycles in the skip-zero queue, and what every interleaving keeps. */
module SkipZeroInvariant {
  import opened Masks
  import opened SkipZeroQueue

  datatype Life = Claimed(holder: nat) | Written | Taken(holder: nat) | Released | Skipped
  datatype Ticket = Ticket(item: int, life: Life)

  /** The history of a schedule: entry t + 1 is ticket t. */
  function Record(s: State, ledger: seq<Ticket>, l: Label): seq<Ticket> {
    if l.thread >= |s.threads| || !(l.action.Proceed? || l.action.LoseCas?) then ledger else
    match s.threads[l.thread]
    case PushCas(item, _, i) =>
      if s.inn != i || l.action.LoseCas? then ledger
      else ledger + [Ticket(item, if i == 0 then Skipped else Claimed(l.thread))]
    case PushPublish(_, i) => Relive(ledger, i, Written)
    case PopCas(_, o) => if s.out != o || l.action.LoseCas? then ledger else Relive(ledger, o, Taken(l.thread))
    case PopRelease(o, _) => Relive(ledger, o, Released)
    case _ => ledger
  }

  function Relive(ledger: seq<Ticket>, t: int, life: Life): seq<Ticket> {
    if -1 <= t < |ledger| - 1 then ledger[t + 1 := ledger[t + 1].(life := life)] else ledger
  }

  function Ledger(s: State, run: seq<Label>): seq<Ticket>
    requires s.Shape()
  {
    if run == [] then [] else
    var before := run[..|run| - 1];
    Record(Exec(s, before), Ledger(s, before), run[|run| - 1])
  }

  function LifeOf(ledger: seq<Ticket>, t: int): Life {
    if -1 <= t < |ledger| - 1 then ledger[t + 1].life else Released
  }

  function ItemOf(ledger: seq<Ticket>, t: int): int {
    if -1 <= t < |ledger| - 1 then ledger[t + 1].item else 0
  }

  /** A slot is occupied from the publishing store of its ticket to the release. */
  ghost predicate Filled(ledger: seq<Ticket>, t: int) {
    LifeOf(ledger, t).Written? || LifeOf(ledger, t).Taken?
  }

  ghost predicate SlotOk(s: State, ledger: seq<Ticket>, t: int)
    requires s.Shape()
  {
    && (s.isfree[Slot(s.size, t)] <==> !Filled(ledger, t))
    && (Filled(ledger, t) ==> s.buffer[Slot(s.size, t)] == ItemOf(ledger, t))
  }

  ghost predicate TicketOk(s: State, ledger: seq<Ticket>, t: int) {
    && (t < s.inn - s.size ==> LifeOf(ledger, t).Released? || LifeOf(ledger, t).Skipped?)
    && (t == 0 <==> LifeOf(ledger, t).Skipped?)
    && (t < s.out && t != 0 <==> LifeOf(ledger, t).Taken? || LifeOf(ledger, t).Released?)
    && match LifeOf(ledger, t)
       case Claimed(k) =>
         && k < |s.threads|
         && (s.threads[k] == PushStore(ItemOf(ledger, t), t) || s.threads[k] == PushPublish(ItemOf(ledger, t), t))
       case Taken(k) =>
         && k < |s.threads|
         && (s.threads[k] == PopRead(t) || s.threads[k] == PopRelease(t, ItemOf(ledger, t)))
       case _ => true
  }

  ghost predicate ThreadOk(s: State, ledger: seq<Ticket>, j: nat)
    requires s.Shape() && j < |s.threads|
  {
    match s.threads[j]
    case Idle => true
    case PushLoadIn(_, _) => true
    case PushReloadIn(_, _, i, _) => i == -1
    case PushTestFull(_, wait, i, k, first) =>
      && -1 <= i <= k <= s.inn && (i >= 0 ==> k == i)
      && (!first && !wait && i >= 0 ==> i < s.out + s.size)
    case PushTestFree(_, _, i) => -1 <= i <= s.inn && (i == s.inn ==> s.inn < s.out + s.size)
    case PushCas(_, _, i) =>
      && -1 <= i <= s.inn
      && (i == s.inn ==> s.inn < s.out + s.size && !Filled(ledger, i - s.size) && !LifeOf(ledger, i - s.size).Claimed?)
    case PushStore(item, i) => -1 <= i < s.inn && LifeOf(ledger, i) == Claimed(j) && ItemOf(ledger, i) == item
    case PushPublish(item, i) =>
      && -1 <= i < s.inn && LifeOf(ledger, i) == Claimed(j)
      && ItemOf(ledger, i) == item && s.buffer[Slot(s.size, i)] == item
    case PopLoadOut(_) => true
    case PopSkipZero(_) => true
    case PopReloadOut(_, o, _) => o == -1
    case PopTestEmpty(wait, o, k, first) =>
      && -1 <= o <= k <= s.out && (o >= 0 ==> k == o) && (o == 0 ==> s.out >= 1)
      && (!first && !wait && o >= 0 && o != 1 ==> o < s.inn)
    case PopTestFree(_, o) => -1 <= o <= s.out && (o == 0 ==> s.out >= 1) && (o == s.out ==> o < s.inn || o == 1)
    case PopCas(_, o) =>
      -1 <= o <= s.out && (o == 0 ==> s.out >= 1) && (o == s.out ==> o < s.inn && LifeOf(ledger, o).Written?)
    case PopRead(o) => -1 <= o < s.inn && LifeOf(ledger, o) == Taken(j)
    case PopRelease(o, r) => -1 <= o < s.inn && LifeOf(ledger, o) == Taken(j) && r == ItemOf(ledger, o)
  }

  /** `out` passes `in` in one state only: a consumer may skip ticket 0 before any producer does. */
  ghost predicate CountersOk(s: State) {
    -1 <= s.out && -1 <= s.inn <= s.out + s.size && (s.out <= s.inn || (s.inn == 0 && s.out == 1))
  }

  ghost predicate Inv(s: State, ledger: seq<Ticket>) {
    && s.Shape() && s.size >= 4 && |ledger| == s.inn + 1 && CountersOk(s)
    && (forall t | s.inn - s.size <= t < s.inn :: SlotOk(s, ledger, t))
    && (forall t | -1 <= t < s.inn :: TicketOk(s, ledger, t))
    && (forall j: nat | j < |s.threads| :: ThreadOk(s, ledger, j))
  }

  ghost predicate Owner(th: Thread) {
    th.PushStore? || th.PushPublish? || th.PopRead? || th.PopRelease?
  }

  lemma InitialInv(size: nat, n: nat)
    requires PowerOfTwo(size) && size >= 4
    ensures Inv(Initial(size, n), [])
  {
  }

  /** Steps that touch neither memory nor ownership. */
  lemma PrivateStep(s: State, ledger: seq<Ticket>, j: nat, th: Thread)
    requires Inv(s, ledger) && j < |s.threads|
    requires !Owner(s.threads[j]) && !Owner(th)
    requires ThreadOk(At(s, j, th), ledger, j)
    ensures Inv(At(s, j, th), ledger)
  {
    var s' := At(s, j, th);
    forall t | s'.inn - s'.size <= t < s'.inn ensures SlotOk(s', ledger, t) { assert SlotOk(s, ledger, t); }
    forall t | -1 <= t < s'.inn ensures TicketOk(s', ledger, t) { assert TicketOk(s, ledger, t); }
    forall i: nat | i < |s'.threads| ensures ThreadOk(s', ledger, i) { assert ThreadOk(s, ledger, i); }
  }

  ghost predicate IsClaim(s: State, ledger: seq<Ticket>, j: nat, s': State, ledger': seq<Ticket>) {
    && j < |s.threads| && s.threads[j].PushCas? && s.threads[j].i == s.inn
    && var PushCas(item, wait, i) := s.threads[j];
    && s' == At(s.(inn := i + 1), j, if i == 0 then PushLoadIn(item, wait) else PushStore(item, i))
    && ledger' == ledger + [Ticket(item, if i == 0 then Skipped else Claimed(j))]
  }

  lemma ClaimSlots(s: State, ledger: seq<Ticket>, j: nat, s': State, ledger': seq<Ticket>)
    requires Inv(s, ledger) && IsClaim(s, ledger, j, s', ledger')
    ensures forall t | s'.inn - s'.size <= t < s'.inn :: SlotOk(s', ledger', t)
  {
    var i := s.inn;
    assert ThreadOk(s, ledger, j);
    forall t | s'.inn - s'.size <= t < s'.inn ensures SlotOk(s', ledger', t) {
      if t == i {
        LapSharesSlot(s.size, i);
        assert SlotOk(s, ledger, i - s.size);
      } else {
        assert SlotOk(s, ledger, t);
      }
    }
  }

  lemma ClaimTickets(s: State, ledger: seq<Ticket>, j: nat, s': State, ledger': seq<Ticket>)
    requires Inv(s, ledger) && IsClaim(s, ledger, j, s', ledger')
    ensures CountersOk(s') && forall t | -1 <= t < s'.inn :: TicketOk(s', ledger', t)
  {
    assert ThreadOk(s, ledger, j);
    forall t | -1 <= t < s'.inn ensures TicketOk(s', ledger', t) {
      if t < s.inn { assert TicketOk(s, ledger, t); }
    }
  }

  lemma ClaimStep(s: State, ledger: seq<Ticket>, j: nat, s': State, ledger': seq<Ticket>)
    requires Inv(s, ledger) && IsClaim(s, ledger, j, s', ledger')
    ensures Inv(s', ledger')
  {
    ClaimSlots(s, ledger, j, s', ledger');
    ClaimTickets(s, ledger, j, s', ledger');
    forall k: nat | k < |s'.threads| ensures ThreadOk(s', ledger', k) { assert ThreadOk(s, ledger, k); }
  }

  /** Changing the slot of one ticket leaves the other slots of the lap alone. */
  lemma OtherSlots(s: State, s': State, ledger: seq<Ticket>, ledger': seq<Ticket>, t: int)
    requires s.Shape() && s'.Shape() && s'.size == s.size && s.inn == s'.inn
    requires s.inn - s.size <= t < s.inn
    requires forall x | 0 <= x < s.size && x != Slot(s.size, t) ::
               s'.buffer[x] == s.buffer[x] && s'.isfree[x] == s.isfree[x]
    requires forall u | u != t :: LifeOf(ledger', u) == LifeOf(ledger, u) && ItemOf(ledger', u) == ItemOf(ledger, u)
    requires forall u | s.inn - s.size <= u < s.inn :: SlotOk(s, ledger, u)
    requires SlotOk(s', ledger', t)
    ensures forall u | s.inn - s.size <= u < s.inn :: SlotOk(s', ledger', u)
  {
    forall u | s.inn - s.size <= u < s.inn ensures SlotOk(s', ledger', u) {
      if u != t {
        LapIsInjective(s.size, u, t);
        assert SlotOk(s, ledger, u);
      }
    }
  }

  ghost predicate IsStore(s: State, j: nat, s': State)
    requires s.Shape()
  {
    && j < |s.threads| && s.threads[j].PushStore?
    && var PushStore(item, i) := s.threads[j];
    && s' == At(s.(buffer := s.buffer[Slot(s.size, i) := item]), j, PushPublish(item, i))
  }

  lemma StoreThreads(s: State, ledger: seq<Ticket>, j: nat, s': State)
    requires Inv(s, ledger) && IsStore(s, j, s')
    ensures forall k: nat | k < |s'.threads| :: ThreadOk(s', ledger, k)
  {
    var i := s.threads[j].i;
    assert ThreadOk(s, ledger, j) && TicketOk(s, ledger, i);
    forall k: nat | k < |s'.threads| ensures ThreadOk(s', ledger, k) {
      assert ThreadOk(s, ledger, k);
      if s.threads[k].PushPublish? && k != j {
        assert TicketOk(s, ledger, s.threads[k].i);
        LapIsInjective(s.size, i, s.threads[k].i);
      }
    }
  }

  lemma StoreStep(s: State, ledger: seq<Ticket>, j: nat, s': State)
    requires Inv(s, ledger) && IsStore(s, j, s')
    ensures Inv(s', ledger)
  {
    var i := s.threads[j].i;
    assert ThreadOk(s, ledger, j) && TicketOk(s, ledger, i) && SlotOk(s, ledger, i);
    OtherSlots(s, s', ledger, ledger, i);
    StoreThreads(s, ledger, j, s');
    forall t | -1 <= t < s'.inn ensures TicketOk(s', ledger, t) { assert TicketOk(s, ledger, t); }
  }

  /** The tickets after one of them moves on to a life that needs no holder. */
  lemma OtherTickets(s: State, ledger: seq<Ticket>, j: nat, t: int, life: Life)
    requires Inv(s, ledger) && j < |s.threads| && -1 <= t < s.inn
    requires (LifeOf(ledger, t) == Claimed(j) && life == Written) || (LifeOf(ledger, t) == Taken(j) && life == Released)
    ensures forall u | -1 <= u < s.inn :: TicketOk(At(s, j, Idle), Relive(ledger, t, life), u)
  {
    assert TicketOk(s, ledger, t);
    forall u | -1 <= u < s.inn ensures TicketOk(At(s, j, Idle), Relive(ledger, t, life), u) {
      assert TicketOk(s, ledger, u);
    }
  }

  lemma OtherThread(s: State, ledger: seq<Ticket>, j: nat, t: int, life: Life, k: nat)
    requires s.Shape() && |ledger| == s.inn + 1 && j < |s.threads| && -1 <= t < s.inn && TicketOk(s, ledger, t)
    requires (LifeOf(ledger, t) == Claimed(j) && life == Written) || (LifeOf(ledger, t) == Taken(j) && life == Released)
    requires k < |s.threads| && k != j && ThreadOk(s, ledger, k)
    ensures ThreadOk(At(s, j, Idle), Relive(ledger, t, life), k)
  {
  }

  lemma OtherThreads(s: State, ledger: seq<Ticket>, j: nat, t: int, life: Life)
    requires Inv(s, ledger) && j < |s.threads| && -1 <= t < s.inn
    requires (LifeOf(ledger, t) == Claimed(j) && life == Written) || (LifeOf(ledger, t) == Taken(j) && life == Released)
    ensures forall k: nat | k < |s.threads| :: ThreadOk(At(s, j, Idle), Relive(ledger, t, life), k)
  {
    assert TicketOk(s, ledger, t);
    forall k: nat | k < |s.threads| ensures ThreadOk(At(s, j, Idle), Relive(ledger, t, life), k) {
      assert ThreadOk(s, ledger, k);
      if k != j { OtherThread(s, ledger, j, t, life, k); }
    }
  }

  /** Tickets and threads do not depend on the free flags. */
  lemma FlagsOnly(s: State, s': State, ledger: seq<Ticket>)
    requires s.Shape() && s'.Shape() && s' == s.(isfree := s'.isfree)
    requires forall t | -1 <= t < s.inn :: TicketOk(s, ledger, t)
    requires forall k: nat | k < |s.threads| :: ThreadOk(s, ledger, k)
    ensures forall t | -1 <= t < s'.inn :: TicketOk(s', ledger, t)
    ensures forall k: nat | k < |s'.threads| :: ThreadOk(s', ledger, k)
  {
    forall t | -1 <= t < s'.inn ensures TicketOk(s', ledger, t) { assert TicketOk(s, ledger, t); }
    forall k: nat | k < |s'.threads| ensures ThreadOk(s', ledger, k) { assert ThreadOk(s, ledger, k); }
  }

  lemma PublishStep(s: State, ledger: seq<Ticket>, j: nat, s': State, ledger': seq<Ticket>)
    requires Inv(s, ledger) && j < |s.threads| && s.threads[j].PushPublish?
    requires s' == At(s.(isfree := s.isfree[Slot(s.size, s.threads[j].i) := false]), j, Idle)
    requires ledger' == Relive(ledger, s.threads[j].i, Written)
    ensures Inv(s', ledger')
  {
    var i := s.threads[j].i;
    assert ThreadOk(s, ledger, j) && TicketOk(s, ledger, i);
    OtherSlots(s, s', ledger, ledger', i);
    OtherTickets(s, ledger, j, i, Written);
    OtherThreads(s, ledger, j, i, Written);
    FlagsOnly(At(s, j, Idle), s', ledger');
  }

  ghost predicate IsTake(s: State, ledger: seq<Ticket>, j: nat, s': State, ledger': seq<Ticket>) {
    && j < |s.threads| && s.threads[j].PopCas? && s.threads[j].o == s.out
    && s' == At(s.(out := s.out + 1), j, PopRead(s.out)) && ledger' == Relive(ledger, s.out, Taken(j))
  }

  lemma TakeSlots(s: State, ledger: seq<Ticket>, j: nat, s': State, ledger': seq<Ticket>)
    requires Inv(s, ledger) && IsTake(s, ledger, j, s', ledger')
    ensures forall t | s'.inn - s'.size <= t < s'.inn :: SlotOk(s', ledger', t)
  {
    assert ThreadOk(s, ledger, j);
    forall t | s'.inn - s'.size <= t < s'.inn ensures SlotOk(s', ledger', t) { assert SlotOk(s, ledger, t); }
  }

  lemma TakeTickets(s: State, ledger: seq<Ticket>, j: nat, s': State, ledger': seq<Ticket>)
    requires Inv(s, ledger) && IsTake(s, ledger, j, s', ledger')
    ensures CountersOk(s') && forall t | -1 <= t < s'.inn :: TicketOk(s', ledger', t)
  {
    assert ThreadOk(s, ledger, j);
    forall t | -1 <= t < s'.inn ensures TicketOk(s', ledger', t) { assert TicketOk(s, ledger, t); }
  }

  lemma TakeThreads(s: State, ledger: seq<Ticket>, j: nat, s': State, ledger': seq<Ticket>)
    requires Inv(s, ledger) && IsTake(s, ledger, j, s', ledger')
    ensures forall k: nat | k < |s'.threads| :: ThreadOk(s', ledger', k)
  {
    assert ThreadOk(s, ledger, j);
    forall k: nat | k < |s'.threads| ensures ThreadOk(s', ledger', k) { assert ThreadOk(s, ledger, k); }
  }

  lemma TakeStep(s: State, ledger: seq<Ticket>, j: nat, s': State, ledger': seq<Ticket>)
    requires Inv(s, ledger) && IsTake(s, ledger, j, s', ledger')
    ensures Inv(s', ledger')
  {
    TakeSlots(s, ledger, j, s', ledger');
    TakeTickets(s, ledger, j, s', ledger');
    TakeThreads(s, ledger, j, s', ledger');
  }

  /** A consumer moves `out` past ticket 0. */
  lemma SkipStep(s: State, ledger: seq<Ticket>, j: nat, s': State)
    requires Inv(s, ledger) && j < |s.threads| && s.threads[j].PopSkipZero? && s.out == 0
    requires s' == At(s.(out := 1), j, AskEmpty(s.threads[j].wait, 0, true))
    ensures Inv(s', ledger)
  {
    forall t | s'.inn - s'.size <= t < s'.inn ensures SlotOk(s', ledger, t) { assert SlotOk(s, ledger, t); }
    forall t | -1 <= t < s'.inn ensures TicketOk(s', ledger, t) { assert TicketOk(s, ledger, t); }
    forall k: nat | k < |s'.threads| ensures ThreadOk(s', ledger, k) { assert ThreadOk(s, ledger, k); }
  }

  lemma ReadStep(s: State, ledger: seq<Ticket>, j: nat, s': State)
    requires Inv(s, ledger) && j < |s.threads| && s.threads[j].PopRead?
    requires var o := s.threads[j].o; s' == At(s, j, PopRelease(o, s.buffer[Slot(s.size, o)]))
    ensures Inv(s', ledger)
  {
    ReadTickets(s, ledger, j, s');
    assert ThreadOk(s, ledger, j) && TicketOk(s, ledger, s.threads[j].o) && SlotOk(s, ledger, s.threads[j].o);
    forall t | s'.inn - s'.size <= t < s'.inn ensures SlotOk(s', ledger, t) { assert SlotOk(s, ledger, t); }
    forall k: nat | k < |s'.threads| ensures ThreadOk(s', ledger, k) { assert ThreadOk(s, ledger, k); }
  }

  lemma ReadTickets(s: State, ledger: seq<Ticket>, j: nat, s': State)
    requires Inv(s, ledger) && j < |s.threads| && s.threads[j].PopRead?
    requires var o := s.threads[j].o; s' == At(s, j, PopRelease(o, s.buffer[Slot(s.size, o)]))
    ensures forall t | -1 <= t < s'.inn :: TicketOk(s', ledger, t)
  {
    var o := s.threads[j].o;
    assert ThreadOk(s, ledger, j) && TicketOk(s, ledger, o) && SlotOk(s, ledger, o);
    forall t | -1 <= t < s'.inn ensures TicketOk(s', ledger, t) { assert TicketOk(s, ledger, t); }
  }

  lemma ReleaseStep(s: State, ledger: seq<Ticket>, j: nat, s': State, ledger': seq<Ticket>)
    requires Inv(s, ledger) && j < |s.threads| && s.threads[j].PopRelease?
    requires s' == At(s.(isfree := s.isfree[Slot(s.size, s.threads[j].o) := true]), j, Idle)
    requires ledger' == Relive(ledger, s.threads[j].o, Released)
    ensures Inv(s', ledger')
  {
    var o := s.threads[j].o;
    assert ThreadOk(s, ledger, j) && TicketOk(s, ledger, o);
    OtherSlots(s, s', ledger, ledger', o);
    OtherTickets(s, ledger, j, o, Released);
    OtherThreads(s, ledger, j, o, Released);
    FlagsOnly(At(s, j, Idle), s', ledger');
  }

  /** A free slot seen by a push that still holds the current `in` has no unfinished ticket one lap back. */
  lemma FreeSlotIsFinished(s: State, ledger: seq<Ticket>)
    requires Inv(s, ledger) && s.inn < s.out + s.size && s.isfree[Slot(s.size, s.inn)]
    ensures !Filled(ledger, s.inn - s.size) && !LifeOf(ledger, s.inn - s.size).Claimed?
  {
    var t := s.inn - s.size;
    LapSharesSlot(s.size, s.inn);
    assert SlotOk(s, ledger, t);
    if t >= -1 { assert TicketOk(s, ledger, t); }
  }

  /** A filled slot seen by a pop that still holds the current `out` carries that very ticket; for
      ticket 1 before `in` has passed it, the slot is free because the capacity exceeds 2. */
  lemma FilledSlotIsWritten(s: State, ledger: seq<Ticket>)
    requires Inv(s, ledger) && (s.out < s.inn || s.out == 1) && s.out != 0
    ensures !s.isfree[Slot(s.size, s.out)] ==> s.out < s.inn && LifeOf(ledger, s.out).Written?
  {
    if s.out < s.inn {
      assert SlotOk(s, ledger, s.out) && TicketOk(s, ledger, s.out);
    } else {
      LapSharesSlot(s.size, s.out);
      assert SlotOk(s, ledger, s.out - s.size);
    }
  }

  function Advancing(lose: bool): Action {
    if lose then LoseCas else Proceed
  }

  /** The full test keeps what it has learnt about a current ticket. */
  lemma FullTestStep(s: State, ledger: seq<Ticket>, j: nat, lose: bool)
    requires s.Shape() && CountersOk(s) && j < |s.threads| && ThreadOk(s, ledger, j)
    requires var th := s.threads[j]; th.PushLoadIn? || th.PushReloadIn? || th.PushTestFull?
    ensures var th' := AfterAdvance(s, j, lose).threads[j];
            AfterAdvance(s, j, lose) == At(s, j, th') && !Owner(th') && ThreadOk(At(s, j, th'), ledger, j)
  {
  }

  lemma EmptyTestStep(s: State, ledger: seq<Ticket>, j: nat, lose: bool)
    requires s.Shape() && CountersOk(s) && j < |s.threads| && ThreadOk(s, ledger, j)
    requires var th := s.threads[j]; th.PopLoadOut? || th.PopReloadOut? || th.PopTestEmpty?
    ensures var th' := AfterAdvance(s, j, lose).threads[j];
            AfterAdvance(s, j, lose) == At(s, j, th') && !Owner(th') && ThreadOk(At(s, j, th'), ledger, j)
  {
  }

  lemma FullTestKeepsInv(s: State, ledger: seq<Ticket>, j: nat, lose: bool)
    requires Inv(s, ledger) && j < |s.threads|
    requires var th := s.threads[j]; th.PushLoadIn? || th.PushReloadIn? || th.PushTestFull?
    ensures Inv(AfterAdvance(s, j, lose), ledger)
  {
    assert ThreadOk(s, ledger, j);
    FullTestStep(s, ledger, j, lose);
    PrivateStep(s, ledger, j, AfterAdvance(s, j, lose).threads[j]);
  }

  lemma EmptyTestKeepsInv(s: State, ledger: seq<Ticket>, j: nat, lose: bool)
    requires Inv(s, ledger) && j < |s.threads|
    requires var th := s.threads[j]; th.PopLoadOut? || th.PopReloadOut? || th.PopTestEmpty?
    ensures Inv(AfterAdvance(s, j, lose), ledger)
  {
    assert ThreadOk(s, ledger, j);
    EmptyTestStep(s, ledger, j, lose);
    PrivateStep(s, ledger, j, AfterAdvance(s, j, lose).threads[j]);
  }

  lemma TakeKeepsInv(s: State, ledger: seq<Ticket>, j: nat, lose: bool)
    requires Inv(s, ledger) && j < |s.threads| && (s.threads[j].PopCas? || s.threads[j].PopTestFree?)
    ensures Inv(AfterAdvance(s, j, lose), Record(s, ledger, Label(j, Advancing(lose))))
  {
    assert ThreadOk(s, ledger, j);
    match s.threads[j]
    case PopCas(wait, o) =>
      if s.out != o || lose {
        PrivateStep(s, ledger, j, PopLoadOut(wait));
      } else {
        TakeStep(s, ledger, j, AfterAdvance(s, j, lose), Record(s, ledger, Label(j, Advancing(lose))));
      }
    case PopTestFree(wait, o) =>
      if o == s.out { FilledSlotIsWritten(s, ledger); }
      PrivateStep(s, ledger, j, if s.isfree[Slot(s.size, o)] then PopLoadOut(wait) else PopCas(wait, o));
  }

  lemma PushKeepsInv(s: State, ledger: seq<Ticket>, j: nat, lose: bool)
    requires Inv(s, ledger) && j < |s.threads| && Pushing(s.threads[j])
    ensures Inv(AfterAdvance(s, j, lose), Record(s, ledger, Label(j, Advancing(lose))))
  {
    var s', ledger' := AfterAdvance(s, j, lose), Record(s, ledger, Label(j, Advancing(lose)));
    assert ThreadOk(s, ledger, j);
    match s.threads[j]
    case PushCas(item, wait, i) =>
      if s.inn != i || lose {
        PrivateStep(s, ledger, j, PushLoadIn(item, wait));
      } else {
        ClaimStep(s, ledger, j, s', ledger');
      }
    case PushStore(_, _) => StoreStep(s, ledger, j, s');
    case PushPublish(_, _) => PublishStep(s, ledger, j, s', ledger');
    case PushTestFree(item, wait, i) =>
      if i == s.inn && s.isfree[Slot(s.size, i)] { FreeSlotIsFinished(s, ledger); }
      PrivateStep(s, ledger, j, if s.isfree[Slot(s.size, i)] then PushCas(item, wait, i) else PushLoadIn(item, wait));
    case PushLoadIn(_, _) => FullTestKeepsInv(s, ledger, j, lose);
    case PushReloadIn(_, _, _, _) => FullTestKeepsInv(s, ledger, j, lose);
    case PushTestFull(_, _, _, _, _) => FullTestKeepsInv(s, ledger, j, lose);
  }

  lemma PopKeepsInv(s: State, ledger: seq<Ticket>, j: nat, lose: bool)
    requires Inv(s, ledger) && j < |s.threads| && !Pushing(s.threads[j]) && !s.threads[j].Idle?
    ensures Inv(AfterAdvance(s, j, lose), Record(s, ledger, Label(j, Advancing(lose))))
  {
    var s', ledger' := AfterAdvance(s, j, lose), Record(s, ledger, Label(j, Advancing(lose)));
    assert ThreadOk(s, ledger, j);
    match s.threads[j]
    case PopCas(_, _) => TakeKeepsInv(s, ledger, j, lose);
    case PopTestFree(_, _) => TakeKeepsInv(s, ledger, j, lose);
    case PopSkipZero(wait) =>
      if s.out != 0 || lose { PrivateStep(s, ledger, j, PopLoadOut(wait)); } else { SkipStep(s, ledger, j, s'); }
    case PopRead(_) => ReadStep(s, ledger, j, s');
    case PopRelease(_, _) => ReleaseStep(s, ledger, j, s', ledger');
    case PopLoadOut(_) => EmptyTestKeepsInv(s, ledger, j, lose);
    case PopReloadOut(_, _, _) => EmptyTestKeepsInv(s, ledger, j, lose);
    case PopTestEmpty(_, _, _, _) => EmptyTestKeepsInv(s, ledger, j, lose);
  }

  /** Every step of every thread keeps the invariant. */
  lemma NextKeepsInv(s: State, ledger: seq<Ticket>, l: Label)
    requires Inv(s, ledger)
    ensures Inv(Next(s, l), Record(s, ledger, l))
  {
    if l.thread < |s.threads| {
      match l.action
      case CallPush(item, wait) =>
        if s.threads[l.thread].Idle? { PrivateStep(s, ledger, l.thread, PushLoadIn(item, wait)); }
      case CallPop(wait) =>
        if s.threads[l.thread].Idle? { PrivateStep(s, ledger, l.thread, PopLoadOut(wait)); }
      case _ =>
        if Pushing(s.threads[l.thread]) {
          PushKeepsInv(s, ledger, l.thread, l.action.LoseCas?);
        } else if !s.threads[l.thread].Idle? {
          PopKeepsInv(s, ledger, l.thread, l.action.LoseCas?);
        }
    }
  }

  lemma {:induction false} ExecKeepsInv(s: State, run: seq<Label>)
    requires Inv(s, [])
    ensures Inv(Exec(s, run), Ledger(s, run))
    decreases |run|
  {
    if run != [] {
      var before := run[..|run| - 1];
      ExecKeepsInv(s, before);
      NextKeepsInv(Exec(s, before), Ledger(s, before), run[|run| - 1]);
    }
  }
}
