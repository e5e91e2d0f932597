/** When a call of the skip-zero queue, waiting or refusing, returns when it is run alone; and when the queue is stuck.
    Both sides skip ticket 0, `out` may pass `in` there, and negative tickets are reloaded. */
module SkipZeroProgress {
  import opened Masks
  import opened SkipZeroQueue
  import opened SkipZeroInvariant

  /** Thread k takes n steps by itself, without spurious compare-and-swap failures. */
  function Solo(s: State, k: nat, n: nat): (s': State)
    requires s.Shape() && k < |s.threads|
    ensures s'.Shape() && |s'.threads| == |s.threads|
    decreases n
  {
    if n == 0 then s else Solo(AfterAdvance(s, k, false), k, n - 1)
  }

  ghost predicate Finishes(s: State, k: nat)
    requires s.Shape() && k < |s.threads|
  {
    exists n: nat :: Solo(s, k, n).threads[k].Idle?
  }

  ghost predicate Offering(th: Thread) {
    Pushing(th) && !Owner(th)
  }

  ghost predicate Seeking(th: Thread) {
    !Pushing(th) && !Owner(th) && !th.Idle?
  }

  /** Room and a free slot for the next ticket; at ticket 0 there always is, for ticket 1. */
  ghost predicate CanPush(s: State)
    requires s.Shape()
  {
    s.inn == 0 || (s.inn - s.out < s.size && s.isfree[Slot(s.size, s.inn)])
  }

  /** A published item under the next ticket; at ticket 0 that is ticket 1. */
  ghost predicate CanPop(s: State)
    requires s.Shape()
  {
    var o := if s.out == 0 then 1 else s.out;
    o < s.inn && !s.isfree[Slot(s.size, o)]
  }

  ghost predicate Unblocked(s: State, k: nat)
    requires s.Shape() && k < |s.threads|
  {
    var th := s.threads[k];
    Owner(th) || (Offering(th) && CanPush(s)) || (Seeking(th) && CanPop(s))
  }

  ghost predicate Full(s: State) {
    s.inn - s.out == s.size
  }

  /** A call that loads its ticket now would be refused: the ring is full, or nothing is left once 0 is skipped. */
  ghost predicate WillRefuse(s: State, th: Thread) {
    if Pushing(th) then Full(s) else s.inn == s.out || (s.out == 0 && s.inn == 1)
  }

  /** The next step is the refusal. */
  ghost predicate RefusedNow(s: State, th: Thread) {
    match th
    case PushTestFull(_, _, _, k, first) => first && k - s.out >= s.size
    case PopTestEmpty(_, _, k, first) => first && k == s.inn
    case _ => false
  }

  /** The call is past its refusal test, or has passed it with an old counter, and stays in its wait loop: with ticket
      -1, which is reloaded, at a full or empty queue, or with ticket 1 when `in` has caught up with it. */
  ghost predicate Trapped(s: State, th: Thread) {
    match th
    case PushReloadIn(_, _, _, first) => !first && Full(s)
    case PushTestFull(_, _, i, k, first) =>
      i < 0 && Full(s) && (if first then k - s.out < s.size else k - s.out >= s.size)
    case PopReloadOut(_, _, first) => !first && s.inn == s.out
    case PopTestEmpty(_, o, k, first) =>
      if o < 0 then s.inn == s.out && (if first then k != s.inn else k == s.inn) else !first && o == s.inn
    case _ => false
  }

  /** A call that must not wait, and that is going to be refused. */
  ghost predicate Refusable(s: State, k: nat)
    requires k < |s.threads|
  {
    var th := s.threads[k];
    (Offering(th) || Seeking(th)) && !th.wait && (RefusedNow(s, th) || (WillRefuse(s, th) && !Trapped(s, th)))
  }

  /** Steps left until the call returns, counting a retry for a stale ticket and another for the skip of ticket 0. */
  function Remaining(s: State, k: nat): nat
    requires k < |s.threads|
  {
    var skipIn, skipOut := if s.inn == 0 then 20 else 0, if s.out == 0 then 8 else 0;
    match s.threads[k]
    case Idle => 0
    case PushPublish(_, _) => 1
    case PushStore(_, _) => 2
    case PushCas(_, _, i) => skipIn + if i == s.inn then 3 else 10
    case PushTestFree(_, _, i) => skipIn + if i == s.inn then 4 else 11
    case PushTestFull(_, _, i, _, first) => skipIn + (if first then 2 else 0) + if i == s.inn then 5 else 12
    case PushReloadIn(_, _, i, first) => skipIn + (if first then 2 else 0) + if i == s.inn then 6 else 13
    case PushLoadIn(_, _) => skipIn + 9
    case PopRelease(_, _) => 1
    case PopRead(_) => 2
    case PopCas(_, o) => skipOut + if o == s.out then 3 else 10
    case PopTestFree(_, o) => skipOut + if o == s.out then 4 else 11
    case PopTestEmpty(_, o, _, first) => skipOut + (if first then 2 else 0) + if o == s.out then 5 else 12
    case PopReloadOut(_, o, first) => skipOut + (if first then 2 else 0) + if o == s.out then 6 else 13
    case PopLoadOut(_) => skipOut + 9
    case PopSkipZero(_) => if s.out == 0 then 16 else 10
  }

  /** Tickets 0 and 1 find their slots free when `in` gets to them: the ring has not been round once. */
  lemma EarlySlotsAreFree(s: State, ledger: seq<Ticket>)
    requires Inv(s, ledger) && (s.inn == 0 || s.inn == 1)
    ensures s.isfree[Slot(s.size, s.inn)]
  {
    LapSharesSlot(s.size, s.inn);
    assert SlotOk(s, ledger, s.inn - s.size);
  }

  lemma OwnerAdvances(s: State, k: nat)
    requires s.Shape() && k < |s.threads| && Owner(s.threads[k])
    ensures var s' := AfterAdvance(s, k, false);
            Remaining(s', k) < Remaining(s, k) && (s'.threads[k].Idle? || Unblocked(s', k))
  {
  }

  lemma PushAdvances(s: State, ledger: seq<Ticket>, k: nat)
    requires Inv(s, ledger) && k < |s.threads| && Offering(s.threads[k]) && CanPush(s)
    ensures var s' := AfterAdvance(s, k, false); Remaining(s', k) < Remaining(s, k) && Unblocked(s', k)
  {
    assert ThreadOk(s, ledger, k);
    if s.inn == 0 { EarlySlotsAreFree(s, ledger); }
    if s.threads[k].PushCas? && s.inn == 0 && s.threads[k].i == 0 {
      PushKeepsInv(s, ledger, k, false);
      EarlySlotsAreFree(AfterAdvance(s, k, false), Record(s, ledger, Label(k, Proceed)));
    }
  }

  lemma PopAdvances(s: State, ledger: seq<Ticket>, k: nat)
    requires Inv(s, ledger) && k < |s.threads| && Seeking(s.threads[k]) && CanPop(s)
    ensures var s' := AfterAdvance(s, k, false); Remaining(s', k) < Remaining(s, k) && Unblocked(s', k)
  {
    assert ThreadOk(s, ledger, k);
  }

  lemma AdvanceKeepsInv(s: State, ledger: seq<Ticket>, k: nat)
    requires Inv(s, ledger) && k < |s.threads| && !s.threads[k].Idle?
    ensures Inv(AfterAdvance(s, k, false), Record(s, ledger, Label(k, Proceed)))
  {
    if Pushing(s.threads[k]) { PushKeepsInv(s, ledger, k, false); } else { PopKeepsInv(s, ledger, k, false); }
  }

  lemma {:induction false} UnblockedFinishes(s: State, ledger: seq<Ticket>, k: nat) returns (n: nat)
    requires Inv(s, ledger) && k < |s.threads|
    requires s.threads[k].Idle? || Unblocked(s, k)
    ensures n <= Remaining(s, k) && Solo(s, k, n).threads[k].Idle?
    decreases Remaining(s, k)
  {
    if s.threads[k].Idle? {
      n := 0;
    } else {
      if Owner(s.threads[k]) {
        OwnerAdvances(s, k);
      } else if Offering(s.threads[k]) {
        PushAdvances(s, ledger, k);
      } else {
        PopAdvances(s, ledger, k);
      }
      AdvanceKeepsInv(s, ledger, k);
      n := UnblockedFinishes(AfterAdvance(s, k, false), Record(s, ledger, Label(k, Proceed)), k);
      n := n + 1;
    }
  }

  // ----- Calls that are going to be refused -----

  /** Steps left until the refusal. */
  function UntilRefused(s: State, k: nat): nat
    requires k < |s.threads|
  {
    var skipOut := if s.out == 0 then 20 else 0;
    match s.threads[k]
    case PushLoadIn(_, _) => 4
    case PushReloadIn(_, _, _, first) => if first then 3 else 9
    case PushTestFull(_, _, _, j, first) => if first && j - s.out >= s.size then 2 else if first then 10 else 7
    case PushTestFree(_, _, _) => 6
    case PushCas(_, _, _) => 5
    case PopLoadOut(_) => skipOut + 4
    case PopSkipZero(_) => if s.out == 0 then 23 else 5
    case PopReloadOut(_, _, first) => skipOut + if !first then 9 else if s.inn == s.out then 3 else 11
    case PopTestEmpty(_, _, j, first) => if first && j == s.inn then 1 else skipOut + if first then 10 else 7
    case PopTestFree(_, _) => skipOut + 6
    case PopCas(_, _) => skipOut + 5
    case _ => 0
  }

  lemma PushComesToRefusal(s: State, ledger: seq<Ticket>, k: nat)
    requires Inv(s, ledger) && k < |s.threads| && Refusable(s, k) && Pushing(s.threads[k])
    ensures var s' := AfterAdvance(s, k, false);
            s'.threads[k].Idle? || (Refusable(s', k) && UntilRefused(s', k) < UntilRefused(s, k))
  {
    assert ThreadOk(s, ledger, k);
  }

  lemma PopComesToRefusal(s: State, ledger: seq<Ticket>, k: nat)
    requires Inv(s, ledger) && k < |s.threads| && Refusable(s, k) && !Pushing(s.threads[k])
    ensures var s' := AfterAdvance(s, k, false);
            s'.threads[k].Idle? || (Refusable(s', k) && UntilRefused(s', k) < UntilRefused(s, k))
  {
    assert ThreadOk(s, ledger, k);
    if s.threads[k].PopCas? && s.threads[k].o == s.out { CurrentTakeIsOpen(s, ledger, k); }
  }

  lemma {:induction false} RefusableFinishes(s: State, ledger: seq<Ticket>, k: nat) returns (n: nat)
    requires Inv(s, ledger) && k < |s.threads| && (s.threads[k].Idle? || Refusable(s, k))
    ensures Solo(s, k, n).threads[k].Idle?
    decreases if s.threads[k].Idle? then 0 else 1 + UntilRefused(s, k)
  {
    if s.threads[k].Idle? {
      n := 0;
    } else {
      if Pushing(s.threads[k]) { PushComesToRefusal(s, ledger, k); } else { PopComesToRefusal(s, ledger, k); }
      AdvanceKeepsInv(s, ledger, k);
      n := RefusableFinishes(AfterAdvance(s, k, false), Record(s, ledger, Label(k, Proceed)), k);
      n := n + 1;
    }
  }

  // ----- Calls that do not return -----

  ghost predicate Blocked(s: State, k: nat)
    requires s.Shape() && k < |s.threads|
  {
    !s.threads[k].Idle? && !Unblocked(s, k) && !Refusable(s, k)
  }

  lemma CurrentClaimIsOpen(s: State, ledger: seq<Ticket>, k: nat)
    requires Inv(s, ledger) && k < |s.threads| && s.threads[k].PushCas? && s.threads[k].i == s.inn
    ensures CanPush(s)
  {
    assert ThreadOk(s, ledger, k);
    LapSharesSlot(s.size, s.inn);
    assert SlotOk(s, ledger, s.inn - s.size);
  }

  lemma CurrentTakeIsOpen(s: State, ledger: seq<Ticket>, k: nat)
    requires Inv(s, ledger) && k < |s.threads| && s.threads[k].PopCas? && s.threads[k].o == s.out
    ensures CanPop(s)
  {
    assert ThreadOk(s, ledger, k);
    assert SlotOk(s, ledger, s.out);
  }

  lemma BlockedPushSpins(s: State, ledger: seq<Ticket>, k: nat)
    requires Inv(s, ledger) && k < |s.threads| && Blocked(s, k) && Pushing(s.threads[k])
    ensures Blocked(AfterAdvance(s, k, false), k)
    ensures Record(s, ledger, Label(k, Proceed)) == ledger
  {
    assert ThreadOk(s, ledger, k);
    if s.threads[k].PushCas? && s.threads[k].i == s.inn { CurrentClaimIsOpen(s, ledger, k); }
  }

  lemma BlockedLoadSpins(s: State, ledger: seq<Ticket>, k: nat)
    requires Inv(s, ledger) && k < |s.threads| && Blocked(s, k)
    requires s.threads[k].PopLoadOut? || s.threads[k].PopSkipZero? || s.threads[k].PopReloadOut?
    ensures Blocked(AfterAdvance(s, k, false), k)
    ensures Record(s, ledger, Label(k, Proceed)) == ledger
  {
    assert ThreadOk(s, ledger, k);
  }

  lemma BlockedTestSpins(s: State, ledger: seq<Ticket>, k: nat)
    requires Inv(s, ledger) && k < |s.threads| && Blocked(s, k)
    requires s.threads[k].PopTestEmpty?
    ensures Blocked(AfterAdvance(s, k, false), k)
    ensures Record(s, ledger, Label(k, Proceed)) == ledger
  {
    assert ThreadOk(s, ledger, k);
  }

  lemma BlockedTakeSpins(s: State, ledger: seq<Ticket>, k: nat)
    requires Inv(s, ledger) && k < |s.threads| && Blocked(s, k)
    requires s.threads[k].PopTestFree? || s.threads[k].PopCas?
    ensures Blocked(AfterAdvance(s, k, false), k)
    ensures Record(s, ledger, Label(k, Proceed)) == ledger
  {
    assert ThreadOk(s, ledger, k);
    var th := s.threads[k];
    if th.o == s.out {
      if th.PopCas? { CurrentTakeIsOpen(s, ledger, k); } else { FilledSlotIsWritten(s, ledger); }
    }
  }

  lemma BlockedPopSpins(s: State, ledger: seq<Ticket>, k: nat)
    requires Inv(s, ledger) && k < |s.threads| && Blocked(s, k) && !Pushing(s.threads[k])
    ensures Blocked(AfterAdvance(s, k, false), k)
    ensures Record(s, ledger, Label(k, Proceed)) == ledger
  {
    if s.threads[k].PopTestFree? || s.threads[k].PopCas? {
      BlockedTakeSpins(s, ledger, k);
    } else if s.threads[k].PopTestEmpty? {
      BlockedTestSpins(s, ledger, k);
    } else {
      BlockedLoadSpins(s, ledger, k);
    }
  }

  /** A blocked thread may at most move `out` past ticket 0, and stays blocked. */
  lemma BlockedSpins(s: State, ledger: seq<Ticket>, k: nat)
    requires Inv(s, ledger) && k < |s.threads| && Blocked(s, k)
    ensures Blocked(AfterAdvance(s, k, false), k)
    ensures Record(s, ledger, Label(k, Proceed)) == ledger
  {
    if Pushing(s.threads[k]) { BlockedPushSpins(s, ledger, k); } else { BlockedPopSpins(s, ledger, k); }
  }

  lemma {:induction false} BlockedNeverFinishes(s: State, ledger: seq<Ticket>, k: nat, n: nat)
    requires Inv(s, ledger) && k < |s.threads| && Blocked(s, k)
    ensures !Solo(s, k, n).threads[k].Idle?
    decreases n
  {
    if n > 0 {
      BlockedSpins(s, ledger, k);
      AdvanceKeepsInv(s, ledger, k);
      BlockedNeverFinishes(AfterAdvance(s, k, false), ledger, k, n - 1);
    }
  }

  // ----- When a call returns -----

  ghost predicate Reached(s: State, size: nat, n: nat, run: seq<Label>) {
    PowerOfTwo(size) && size >= 4 && s == Exec(Initial(size, n), run)
  }

  /** In every reachable state a call, run alone, returns exactly when the real counters and the next slot allow its
      operation, or when it must not wait and is going to be refused. */
  lemma FinishesIffUnblocked(s: State, size: nat, n: nat, run: seq<Label>, k: nat)
    requires Reached(s, size, n, run)
    requires k < n && !s.threads[k].Idle?
    ensures Finishes(s, k) <==> Unblocked(s, k) || Refusable(s, k)
  {
    var ledger := Ledger(Initial(size, n), run);
    InitialInv(size, n);
    ExecKeepsInv(Initial(size, n), run);
    if Unblocked(s, k) {
      var m := UnblockedFinishes(s, ledger, k);
    } else if Refusable(s, k) {
      var m := RefusableFinishes(s, ledger, k);
    } else {
      forall m: nat ensures !Solo(s, k, m).threads[k].Idle? {
        BlockedNeverFinishes(s, ledger, k, m);
      }
    }
  }

  /** A call that must not wait, at its start: a push returns exactly when the ring is full or its next slot is ready, a
      pop exactly when nothing is left or its next slot is ready.  Otherwise it retries for as long as it runs alone. */
  lemma TryCallsReturnIff(s: State, size: nat, n: nat, run: seq<Label>, k: nat)
    requires Reached(s, size, n, run) && k < n
    ensures s.threads[k].PushLoadIn? && !s.threads[k].wait ==> (Finishes(s, k) <==> Full(s) || CanPush(s))
    ensures s.threads[k].PopLoadOut? && !s.threads[k].wait ==>
              (Finishes(s, k) <==> s.inn == s.out || (s.out == 0 && s.inn == 1) || CanPop(s))
  {
    if !s.threads[k].Idle? { FinishesIffUnblocked(s, size, n, run, k); }
  }

  ghost predicate InCall(s: State, k: nat) {
    k < |s.threads| && !s.threads[k].Idle?
  }

  /** No item is left, not even behind ticket 0. */
  ghost predicate Drained(s: State) {
    s.inn <= if s.out == 0 then 1 else s.out
  }

  /** When nobody owns a slot, the next slot of each kind is ready. */
  lemma NoOwnerNoObstacle(s: State, ledger: seq<Ticket>)
    requires Inv(s, ledger)
    requires forall k: nat | k < |s.threads| :: !Owner(s.threads[k])
    ensures !Full(s) ==> CanPush(s)
    ensures !Drained(s) ==> CanPop(s)
  {
    if !Full(s) {
      var t := s.inn - s.size;
      LapSharesSlot(s.size, s.inn);
      assert SlotOk(s, ledger, t);
      if t >= -1 { assert TicketOk(s, ledger, t); }
    }
    if !Drained(s) {
      var o := if s.out == 0 then 1 else s.out;
      assert SlotOk(s, ledger, o) && TicketOk(s, ledger, o);
    }
  }

  /** With no other call in progress, a call that must not wait returns, except a pop that finds `out` past `in`. */
  lemma LoneTryCallReturnsIff(s: State, size: nat, n: nat, run: seq<Label>, k: nat)
    requires Reached(s, size, n, run) && k < n && forall j: nat | InCall(s, j) :: j == k
    ensures s.threads[k].PushLoadIn? && !s.threads[k].wait ==> Finishes(s, k)
    ensures s.threads[k].PopLoadOut? && !s.threads[k].wait ==> (Finishes(s, k) <==> s.out <= s.inn)
  {
    var ledger := Ledger(Initial(size, n), run);
    InitialInv(size, n);
    ExecKeepsInv(Initial(size, n), run);
    TryCallsReturnIff(s, size, n, run, k);
    if s.threads[k].PushLoadIn? || s.threads[k].PopLoadOut? {
      assert forall j: nat | j < |s.threads| && Owner(s.threads[j]) :: InCall(s, j);
      NoOwnerNoObstacle(s, ledger);
    }
  }

  // ----- Deadlock -----

  /** Only producers are left at a full queue, or only consumers at a drained one, and none of them is going to be
      refused. */
  ghost predicate Stuck(s: State) {
    || (Full(s) && forall k: nat | InCall(s, k) :: Offering(s.threads[k]) && !Refusable(s, k))
    || (Drained(s) && forall k: nat | InCall(s, k) :: Seeking(s.threads[k]) && !Refusable(s, k))
  }

  /** Nobody at a full queue can push, and nobody at a drained one can pop. */
  lemma StuckHasNoWay(s: State, ledger: seq<Ticket>, k: nat)
    requires Inv(s, ledger) && Stuck(s) && InCall(s, k)
    ensures !Unblocked(s, k) && !Refusable(s, k)
  {
  }

  /** When the queue is not stuck and nobody owns a slot, some call finds its way. */
  lemma SomeoneHasWay(s: State, ledger: seq<Ticket>, k: nat) returns (j: nat)
    requires Inv(s, ledger) && !Stuck(s) && InCall(s, k)
    ensures InCall(s, j) && (Unblocked(s, j) || Refusable(s, j))
  {
    j := k;
    if i: nat :| InCall(s, i) && Owner(s.threads[i]) {
      j := i;
    } else {
      NoOwnerNoObstacle(s, ledger);
      if Full(s) {
        j :| InCall(s, j) && !(Offering(s.threads[j]) && !Refusable(s, j));
      } else if Drained(s) {
        j :| InCall(s, j) && !(Seeking(s.threads[j]) && !Refusable(s, j));
      }
    }
  }

  /** Deadlock freedom, exactly: in every reachable state with a call in progress, some such call, run alone, returns,
      if and only if the queue is not stuck. */
  lemma DeadlockFree(s: State, size: nat, n: nat, run: seq<Label>)
    requires Reached(s, size, n, run)
    requires exists k: nat :: InCall(s, k)
    ensures (exists k: nat :: InCall(s, k) && Finishes(s, k)) <==> !Stuck(s)
  {
    var ledger := Ledger(Initial(size, n), run);
    InitialInv(size, n);
    ExecKeepsInv(Initial(size, n), run);
    if Stuck(s) {
      forall k: nat | InCall(s, k) ensures !Finishes(s, k) {
        StuckHasNoWay(s, ledger, k);
        FinishesIffUnblocked(s, size, n, run, k);
      }
    } else {
      var k: nat :| InCall(s, k);
      var j := SomeoneHasWay(s, ledger, k);
      FinishesIffUnblocked(s, size, n, run, j);
      assert InCall(s, j) && Finishes(s, j);
    }
  }
}
