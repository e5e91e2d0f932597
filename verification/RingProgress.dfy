/** When a thread of the ring queue, run alone, finishes its call; and why the queue never deadlocks. */
module RingProgress {
  import opened Masks
  import opened RingQueue
  import opened RingInvariant

  /** Thread k takes n steps by itself, without spurious compare-and-swap failures. */
  function Solo(s: State, k: nat, n: nat): (s': State)
    requires s.Shape() && k < |s.threads|
    ensures s'.Shape() && |s'.threads| == |s.threads|
    decreases n
  {
    if n == 0 then s else Solo(AfterAdvance(s, k, false), k, n - 1)
  }

  ghost predicate Finishes(s: State, k: nat)
    requires s.Shape() && k < |s.threads|
  {
    exists n: nat :: Solo(s, k, n).threads[k].Idle?
  }

  ghost predicate Offering(th: Thread) {
    th.PushLoadIn? || th.PushTestFull? || th.PushTestSlot? || th.PushCas?
  }

  ghost predicate Seeking(th: Thread) {
    th.PopLoadOut? || th.PopTestEmpty? || th.PopTestSlot? || th.PopCas?
  }

  ghost predicate CanPush(s: State)
    requires s.Shape()
  {
    s.inn - s.out < s.size && s.buffer[Slot(s.size, s.inn)] == 0
  }

  ghost predicate CanPop(s: State)
    requires s.Shape()
  {
    s.out < s.inn && s.buffer[Slot(s.size, s.out)] != 0
  }

  ghost predicate Unblocked(s: State, k: nat)
    requires s.Shape() && k < |s.threads|
  {
    var th := s.threads[k];
    Owner(th) || (Offering(th) && CanPush(s)) || (Seeking(th) && CanPop(s))
  }

  /** Steps left until the call returns, counting one retry for a stale local ticket. */
  function Remaining(s: State, k: nat): nat
    requires k < |s.threads|
  {
    match s.threads[k]
    case Idle => 0
    case PushStore(_, _) => 1
    case PushCas(_, i) => if i == s.inn then 2 else 6
    case PushTestSlot(_, i) => if i == s.inn then 3 else 7
    case PushTestFull(_, i) => if i == s.inn then 4 else 8
    case PushLoadIn(_) => 5
    case PopRelease(_, _) => 1
    case PopRead(_) => 2
    case PopCas(o) => if o == s.out then 3 else 7
    case PopTestSlot(o) => if o == s.out then 4 else 8
    case PopTestEmpty(o) => if o == s.out then 5 else 9
    case PopLoadOut => 6
  }

  lemma UnblockedAdvances(s: State, ledger: seq<Ticket>, k: nat)
    requires Inv(s, ledger) && k < |s.threads| && Unblocked(s, k)
    ensures var s' := AfterAdvance(s, k, false);
            Remaining(s', k) < Remaining(s, k) && (s'.threads[k].Idle? || Unblocked(s', k))
  {
    assert ThreadOk(s, ledger, k);
  }

  lemma {:induction false} UnblockedFinishes(s: State, ledger: seq<Ticket>, k: nat) returns (n: nat)
    requires Inv(s, ledger) && k < |s.threads| && (s.threads[k].Idle? || Unblocked(s, k))
    ensures n <= 9 && n <= Remaining(s, k) && Solo(s, k, n).threads[k].Idle?
    decreases Remaining(s, k)
  {
    if s.threads[k].Idle? {
      n := 0;
    } else {
      UnblockedAdvances(s, ledger, k);
      AdvanceKeepsInv(s, ledger, k, false);
      n := UnblockedFinishes(AfterAdvance(s, k, false), Record(s, ledger, Label(k, Proceed)), k);
      n := n + 1;
    }
  }

  ghost predicate Blocked(s: State, k: nat)
    requires s.Shape() && k < |s.threads|
  {
    var th := s.threads[k];
    (Offering(th) && !CanPush(s)) || (Seeking(th) && !CanPop(s))
  }

  /** A blocked thread changes nothing but its own locals, and stays blocked. */
  lemma BlockedSpins(s: State, ledger: seq<Ticket>, k: nat)
    requires Inv(s, ledger) && k < |s.threads| && Blocked(s, k)
    ensures Blocked(AfterAdvance(s, k, false), k)
    ensures Record(s, ledger, Label(k, Proceed)) == ledger
  {
    assert ThreadOk(s, ledger, k);
    if s.threads[k].PushCas? && s.threads[k].i == s.inn { FreeSlotIsReleased(s, ledger); }
    if s.threads[k].PopCas? && s.threads[k].o == s.out { FilledSlotIsWritten(s, ledger); }
  }

  lemma {:induction false} BlockedNeverFinishes(s: State, ledger: seq<Ticket>, k: nat, n: nat)
    requires Inv(s, ledger) && k < |s.threads| && Blocked(s, k)
    ensures !Solo(s, k, n).threads[k].Idle?
    decreases n
  {
    if n > 0 {
      BlockedSpins(s, ledger, k);
      AdvanceKeepsInv(s, ledger, k, false);
      BlockedNeverFinishes(AfterAdvance(s, k, false), ledger, k, n - 1);
    }
  }

  ghost predicate Reached(s: State, size: nat, n: nat, run: seq<Label>) {
    PowerOfTwo(size) && s == Exec(Initial(size, n), run)
  }

  /** In every reachable state, a thread inside a call finishes when run alone exactly when the real
      counters and the next slot allow its operation: a stale local ticket never keeps it waiting. */
  lemma FinishesIffUnblocked(s: State, size: nat, n: nat, run: seq<Label>, k: nat)
    requires Reached(s, size, n, run)
    requires k < n && !s.threads[k].Idle?
    ensures Finishes(s, k) <==> Unblocked(s, k)
  {
    var ledger := Ledger(Initial(size, n), run);
    InitialInv(size, n);
    ExecKeepsInv(Initial(size, n), run);
    if Unblocked(s, k) {
      var m := UnblockedFinishes(s, ledger, k);
    } else {
      forall m: nat ensures !Solo(s, k, m).threads[k].Idle? {
        BlockedNeverFinishes(s, ledger, k, m);
      }
    }
  }

  /** The two wait loops spin only on the truth: a push waits exactly when its ticket is current and
      the queue is full, a pop exactly when its ticket is current and the queue is empty. */
  lemma WaitsAreHonest(s: State, size: nat, n: nat, run: seq<Label>, k: nat)
    requires Reached(s, size, n, run)
    requires k < n
    ensures s.threads[k].PushTestFull? ==>
              (AfterAdvance(s, k, false) == s <==> s.threads[k].i == s.inn && s.inn - s.out == size)
    ensures s.threads[k].PopTestEmpty? ==>
              (AfterAdvance(s, k, false) == s <==> s.threads[k].o == s.out == s.inn)
  {
    InitialInv(size, n);
    ExecKeepsInv(Initial(size, n), run);
    assert ThreadOk(s, Ledger(Initial(size, n), run), k);
  }

  ghost predicate InCall(s: State, k: nat) {
    k < |s.threads| && !s.threads[k].Idle?
  }

  /** Only producers wait at a full queue, or only consumers wait at an empty one. */
  ghost predicate Stuck(s: State) {
    || (s.inn - s.out == s.size && forall k: nat | InCall(s, k) :: Offering(s.threads[k]))
    || (s.inn == s.out && forall k: nat | InCall(s, k) :: Seeking(s.threads[k]))
  }

  /** When nobody owns a slot, the next slot of each kind is ready. */
  lemma NoOwnerNoObstacle(s: State, ledger: seq<Ticket>)
    requires Inv(s, ledger)
    requires forall k: nat | k < |s.threads| :: !Owner(s.threads[k])
    ensures s.inn - s.out < s.size ==> CanPush(s)
    ensures s.out < s.inn ==> CanPop(s)
  {
    if s.inn - s.out < s.size {
      FreeSlotIsReleased(s, ledger);
      if s.inn >= s.size { assert TicketOk(s, ledger, s.inn - s.size); }
    }
    if s.out < s.inn {
      FilledSlotIsWritten(s, ledger);
      assert TicketOk(s, ledger, s.out);
    }
  }

  /** Deadlock freedom, exactly: in every reachable state with a thread inside a call, some such
      thread run alone finishes its call, if and only if the queue is not stuck. */
  lemma DeadlockFree(s: State, size: nat, n: nat, run: seq<Label>)
    requires Reached(s, size, n, run)
    requires exists k: nat :: InCall(s, k)
    ensures (exists k: nat :: InCall(s, k) && Finishes(s, k)) <==> !Stuck(s)
  {
    var ledger := Ledger(Initial(size, n), run);
    InitialInv(size, n);
    ExecKeepsInv(Initial(size, n), run);
    if Stuck(s) {
      forall k: nat | InCall(s, k) ensures !Finishes(s, k) {
        FinishesIffUnblocked(s, size, n, run, k);
      }
    } else {
      var k: nat :| InCall(s, k);
      if j: nat :| InCall(s, j) && Owner(s.threads[j]) {
        k := j;
      } else {
        NoOwnerNoObstacle(s, ledger);
        if s.inn - s.out == s.size {
          k :| InCall(s, k) && !Offering(s.threads[k]);
        } else if s.inn == s.out {
          k :| InCall(s, k) && !Seeking(s.threads[k]);
        }
      }
      FinishesIffUnblocked(s, size, n, run, k);
      assert InCall(s, k) && Finishes(s, k);
    }
  }
}
