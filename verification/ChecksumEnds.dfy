/** The checksum program can always be brought to its end: whatever the schedule did so far, some
    continuation of it lets every thread return. */
module ChecksumEnds {
  import opened Masks
  import opened RingQueue
  import opened RingInvariant
  import opened RingProgress
  import opened Checksum
  import opened ChecksumProof

  /** How much a thread may still do before it needs another ticket. */
  function Weight(p: Prog, th: Thread): nat {
    match p
    case Done(_) => 0
    case Adding(_) => 1
    case Subtracting(_) => 1
    case Ending(_) => if th.Idle? then 3 else InCallWeight(th)
    case _ => if th.Idle? then 4 else InCallWeight(th)
  }

  function InCallWeight(th: Thread): nat {
    if th.PushStore? || th.PopRead? || th.PopRelease? then 5 else 2
  }

  function Weights(w: Program): (xs: seq<int>)
    requires w.Shape()
    ensures |xs| == |w.progs|
    ensures forall k | 0 <= k < |xs| :: xs[k] == Weight(w.progs[k], w.q.threads[k])
  {
    seq(|w.progs|, k requires 0 <= k < |w.progs| == |w.q.threads| => Weight(w.progs[k], w.q.threads[k]))
  }

  function Goal(items: int): nat {
    if items < 0 then 0 else items
  }

  /** The number of tickets that a complete run hands out. */
  function Tickets(pairs: nat, items: int): int {
    pairs * (1 + Goal(items))
  }

  /** Tickets still to be pushed and popped count four each, on top of the threads' own weights. */
  function Potential(w: Program, pairs: nat): int
    requires w.Shape()
  {
    4 * (2 * Tickets(pairs, w.items) - w.q.inn - w.q.out) + Sum(Weights(w))
  }

  lemma SharesAtMost(items: int, producer: bool, p: Prog, pl: Place, ledger: seq<Ticket>)
    requires Fits(items, producer, p, pl) && Counted(items, producer, p)
    ensures Share(Made, producer, p, pl, ledger) + Share(Ended, producer, p, pl, ledger) <=
              if producer then 1 + Goal(items) else 0
  {
  }

  /** No more tickets are handed out than a complete run needs. */
  lemma TicketsBounded(w: Program, ledger: seq<Ticket>, pairs: nat)
    requires ProgramInv(w, ledger) && |w.progs| == 2 * pairs
    ensures w.q.out <= w.q.inn <= Tickets(pairs, w.items)
  {
    var made, ended, most := Shares(Made, w, ledger), Shares(Ended, w, ledger), 1 + Goal(w.items);
    var both := seq(2 * pairs, k requires 0 <= k < 2 * pairs => made[k] + ended[k]);
    var full := seq(2 * pairs, k => if k % 2 == 1 then most else 0);
    forall k | 0 <= k < 2 * pairs ensures both[k] <= full[k] {
      assert ProgOk(w, k);
      SharesAtMost(w.items, IsProducer(k), w.progs[k], PlaceAt(w, k), ledger);
    }
    SumOfDifferences(made, both, ended);
    SumMonotone(both, full);
    SumOfPairs(full, pairs, most, 0);
    CountBoth(ledger, |ledger|);
  }

  lemma PotentialIsNatural(w: Program, ledger: seq<Ticket>, pairs: nat)
    requires ProgramInv(w, ledger) && |w.progs| == 2 * pairs
    ensures Potential(w, pairs) >= 0
  {
    TicketsBounded(w, ledger, pairs);
    var zeros := seq(2 * pairs, _ => 0);
    SumOfZeros(zeros);
    SumMonotone(zeros, Weights(w));
  }

  /** What one turn of thread k does to the potential. */
  lemma PotentialMoves(w: Program, t: Turn, pairs: nat)
    requires w.Shape() && t.thread < |w.progs|
    ensures var k, w' := t.thread, Turned(w, t);
            Potential(w', pairs) == Potential(w, pairs)
              - 4 * (w'.q.inn - w.q.inn) - 4 * (w'.q.out - w.q.out)
              + Weight(w'.progs[k], w'.q.threads[k]) - Weight(w.progs[k], w.q.threads[k])
  {
    var k, w' := t.thread, Turned(w, t);
    TurnFrames(w, t);
    assert Weights(w') == Weights(w)[k := Weight(w'.progs[k], w'.q.threads[k])];
    SumUpdate(Weights(w), k, Weight(w'.progs[k], w'.q.threads[k]));
  }

  /** A turn outside the queue, or into it, is paid for by the thread's own weight. */
  lemma IdleTurnPays(w: Program, k: nat, pairs: nat)
    requires w.Shape() && k < |w.progs| && ProgOk(w, k)
    requires w.q.threads[k].Idle? && !w.progs[k].Done?
    ensures Potential(Turned(w, Turn(k, false)), pairs) < Potential(w, pairs)
  {
    PotentialMoves(w, Turn(k, false), pairs);
  }

  lemma CallTurnAdvances(w: Program, k: nat)
    requires w.Shape() && k < |w.progs| && ProgOk(w, k) && !w.q.threads[k].Idle?
    ensures Turned(w, Turn(k, false)).q == AfterAdvance(w.q, k, false)
    ensures Turned(w, Turn(k, false)).progs[k] ==
              ProgAfter(w.items, w.progs[k], EventOf(w.q, Label(k, Proceed)))
  {
  }

  /** A claim raises the thread's weight by three, a return lowers it, and nothing else changes it. */
  lemma WeightMoves(items: int, producer: bool, p: Prog, q: State, k: nat)
    requires q.Shape() && k < |q.threads| && !q.threads[k].Idle?
    requires Fits(items, producer, p, PlaceOf(q.threads[k]))
    ensures var q' := AfterAdvance(q, k, false);
            var before := Weight(p, q.threads[k]);
            var after := Weight(ProgAfter(items, p, EventOf(q, Label(k, Proceed))), q'.threads[k]);
            if q'.threads[k].Idle? then q'.inn == q.inn && q'.out == q.out && after < before
            else after == before + 3 * (q'.inn - q.inn) + 3 * (q'.out - q.out) &&
                 q'.inn >= q.inn && q'.out >= q.out
  {
  }

  /** A thread that nothing blocks comes closer to its return: a claim is paid for by its ticket, the
      return by the thread's weight. */
  lemma CallTurnPays(w: Program, ledger: seq<Ticket>, k: nat, pairs: nat)
    requires ProgramInv(w, ledger) && k < |w.progs| && !w.q.threads[k].Idle? && Unblocked(w.q, k)
    ensures var w' := Turned(w, Turn(k, false));
            && Potential(w', pairs) <= Potential(w, pairs)
            && (w'.q.threads[k].Idle? ==> Potential(w', pairs) < Potential(w, pairs))
            && (!w'.q.threads[k].Idle? ==> Unblocked(w'.q, k) && Remaining(w'.q, k) < Remaining(w.q, k))
  {
    assert ProgOk(w, k);
    PotentialMoves(w, Turn(k, false), pairs);
    CallTurnAdvances(w, k);
    WeightMoves(w.items, IsProducer(k), w.progs[k], w.q, k);
    UnblockedAdvances(w.q, ledger, k);
  }

  lemma PlayNext(w: Program, turns: seq<Turn>, t: Turn)
    requires w.Shape()
    ensures Play(w, turns + [t]) == Turned(Play(w, turns), t)
  {
    assert (turns + [t])[..|turns|] == turns;
  }

  /** A thread that nothing blocks returns from its call when it runs alone, and that lowers the
      potential. */
  lemma {:induction false} CallEnds(w0: Program, turns: seq<Turn>, k: nat, pairs: nat) returns (end: seq<Turn>)
    requires ProgramInv(w0, []) && k < |w0.progs|
    requires var q := Play(w0, turns).q; !q.threads[k].Idle? && Unblocked(q, k)
    ensures turns <= end && Potential(Play(w0, end), pairs) < Potential(Play(w0, turns), pairs)
    decreases Remaining(Play(w0, turns).q, k)
  {
    var w, t := Play(w0, turns), Turn(k, false);
    PlayKeepsInv(w0, turns);
    CallTurnPays(w, Ledger(w0.q, Labels(w0, turns)), k, pairs);
    PlayNext(w0, turns, t);
    end := turns + [t];
    if !Turned(w, t).q.threads[k].Idle? {
      end := CallEnds(w0, end, k, pairs);
    }
  }

  ghost predicate Starting(w: Program, size: nat, pairs: nat, items: int) {
    PowerOfTwo(size) && w == Start(size, pairs, items)
  }

  /** While some thread is not done, some continuation lowers the potential. */
  lemma SomeoneWorks(w0: Program, size: nat, pairs: nat, items: int, turns: seq<Turn>) returns (end: seq<Turn>)
    requires Starting(w0, size, pairs, items) && !Finished(Play(w0, turns))
    ensures turns <= end && 0 <= Potential(Play(w0, end), pairs) < Potential(Play(w0, turns), pairs)
  {
    var w := Play(w0, turns);
    StartInv(size, pairs, items);
    PlayKeepsInv(w0, turns);
    ProgramNeverDeadlocks(size, pairs, items, turns);
    var k: nat :| CanWork(w, k);
    if w.q.threads[k].Idle? {
      IdleTurnPays(w, k, pairs);
      PlayNext(w0, turns, Turn(k, false));
      end := turns + [Turn(k, false)];
    } else {
      QueueFollows(w0, turns);
      FinishesIffUnblocked(w.q, size, 2 * pairs, Labels(w0, turns), k);
      end := CallEnds(w0, turns, k, pairs);
    }
    ReachedPotential(w0, size, pairs, items, end);
  }

  lemma ReachedPotential(w0: Program, size: nat, pairs: nat, items: int, turns: seq<Turn>)
    requires Starting(w0, size, pairs, items)
    ensures Potential(Play(w0, turns), pairs) >= 0
  {
    StartInv(size, pairs, items);
    PlayKeepsInv(w0, turns);
    PotentialIsNatural(Play(w0, turns), Ledger(w0.q, Labels(w0, turns)), pairs);
  }

  lemma {:induction false} FinishFrom(w0: Program, size: nat, pairs: nat, items: int, turns: seq<Turn>, left: nat)
      returns (end: seq<Turn>)
    requires Starting(w0, size, pairs, items) && Potential(Play(w0, turns), pairs) <= left
    ensures turns <= end && Finished(Play(w0, end))
    decreases left
  {
    end := turns;
    if !Finished(Play(w0, turns)) {
      var more := SomeoneWorks(w0, size, pairs, items, turns);
      end := FinishFrom(w0, size, pairs, items, more, left - 1);
    }
  }

  /** From every reachable state of the program, some continuation of turns lets every thread return:
      complete runs exist for every size, every number of pairs and every number of items, and no
      schedule leads into states that only repeat themselves. */
  lemma EveryRunCanFinish(size: nat, pairs: nat, items: int, turns: seq<Turn>) returns (rest: seq<Turn>)
    requires PowerOfTwo(size)
    ensures Finished(Play(Start(size, pairs, items), turns + rest))
  {
    var w0 := Start(size, pairs, items);
    ReachedPotential(w0, size, pairs, items, turns);
    var end := FinishFrom(w0, size, pairs, items, turns, Potential(Play(w0, turns), pairs));
    rest := end[|turns|..];
    assert turns + rest == end;
  }

  /** A complete run exists for every size, number of pairs and number of items, and its checksum is
      zero. */
  lemma CompleteRunExists(size: nat, pairs: nat, items: int) returns (turns: seq<Turn>)
    requires PowerOfTwo(size)
    ensures Finished(Play(Start(size, pairs, items), turns)) && Play(Start(size, pairs, items), turns).total == 0
  {
    turns := EveryRunCanFinish(size, pairs, items, []);
    assert [] + turns == turns;
    ChecksumIsZero(size, pairs, items, turns);
  }
}
