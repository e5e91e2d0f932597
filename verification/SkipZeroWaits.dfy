/** When a call that must not wait does wait, in the skip-zero queue: exactly with the tickets that `full` and `empty`
    reload or that the other side may skip. */
module SkipZeroWaits {
  import opened Masks
  import opened SkipZeroQueue
  import opened SkipZeroInvariant
  import opened SkipZeroRefinement
  import opened SkipZeroSchedules
  import opened SkipZeroProgress

  /** Thread k is in the wait loop of a push that must not wait, with ticket i, and its next test does not let it
      out. */
  ghost predicate TryPushWaits(s: State, k: nat, i: int)
    requires s.Shape()
  {
    && k < |s.threads| && s.threads[k].PushTestFull? && !s.threads[k].wait && !s.threads[k].first && s.threads[k].i == i
    && !AfterAdvance(s, k, false).threads[k].PushTestFree?
  }

  ghost predicate TryPopWaits(s: State, k: nat, o: int)
    requires s.Shape()
  {
    && k < |s.threads| && s.threads[k].PopTestEmpty? && !s.threads[k].wait && !s.threads[k].first && s.threads[k].o == o
    && !AfterAdvance(s, k, false).threads[k].PopTestFree?
  }

  // ----- Ticket 1 on the popping side -----

  /** Thread 0 moves `in` past ticket 0, while thread 2 is in its wait loop with ticket 1. */
  ghost predicate PushSkips(j: nat, s: State) {
    s.size >= 4 &&
    match j
    case 0 => Shows(s, true, true, 0, 1, Idle, PopRead(-1), PopTestEmpty(false, 1, 1, false))
    case 1 => Shows(s, true, true, 0, 1, PushLoadIn(ITEM, true), PopRead(-1), PopTestEmpty(false, 1, 1, false))
    case 2 =>
      Shows(s, true, true, 0, 1, PushTestFull(ITEM, true, 0, 0, true), PopRead(-1), PopTestEmpty(false, 1, 1, false))
    case 3 =>
      Shows(s, true, true, 0, 1, PushTestFull(ITEM, true, 0, 0, false), PopRead(-1), PopTestEmpty(false, 1, 1, false))
    case 4 => Shows(s, true, true, 0, 1, PushTestFree(ITEM, true, 0), PopRead(-1), PopTestEmpty(false, 1, 1, false))
    case 5 => Shows(s, true, true, 0, 1, PushCas(ITEM, true, 0), PopRead(-1), PopTestEmpty(false, 1, 1, false))
    case 6 => Shows(s, true, true, 1, 1, PushLoadIn(ITEM, true), PopRead(-1), PopTestEmpty(false, 1, 1, false))
    case _ => false
  }

  lemma PushSkipsFrom0(j: nat, s: State)
    requires 0 <= j < 3 && PushSkips(j, s)
    ensures var l := Calling(Label(0, CallPush(ITEM, true)), j);
            PushSkips(j + 1, Next(s, l)) && !EventOf(s, l).PopReturned?
  {
    LastSlot(s.size);
    match j
    case 0 =>
    case 1 =>
    case 2 =>
    case _ =>
  }

  lemma PushSkipsFrom3(j: nat, s: State)
    requires 3 <= j < 6 && PushSkips(j, s)
    ensures var l := Calling(Label(0, CallPush(ITEM, true)), j);
            PushSkips(j + 1, Next(s, l)) && !EventOf(s, l).PopReturned?
  {
    LastSlot(s.size);
    match j
    case 3 =>
    case 4 =>
    case 5 =>
    case _ =>
  }

  lemma SkipPush(init: State, run: seq<Label>) returns (run': seq<Label>)
    requires init.Shape() && PushSkips(0, Exec(init, run))
    ensures PushSkips(6, Exec(init, run')) && Deliveries(init, run') == Deliveries(init, run)
  {
    var call := Label(0, CallPush(ITEM, true));
    var p: (nat, State) -> bool := (j: nat, t: State) => PushSkips(j, t);
    forall j: nat, t: State | j < 6 && t.Shape() && p(j, t)
      ensures p(j + 1, Next(t, Calling(call, j))) && !EventOf(t, Calling(call, j)).PopReturned?
    {
      if j < 3 {
        PushSkipsFrom0(j, t);
      } else {
        PushSkipsFrom3(j, t);
      }
    }
    var s;
    run', s := Carry(init, run, call, p, 6, 6);
  }

  /** Ticket 1 was loaded while `in` was 0, so the queue did not look empty; then `in` became 1. */
  lemma PopWaitsAtOne(size: nat) returns (run: seq<Label>)
    requires PowerOfTwo(size) && size >= 4
    ensures TryPopWaits(Exec(Initial(size, 3), run), 2, 1)
  {
    run := Opening(size);
    run := SkipPush(Initial(size, 3), run);
  }

  // ----- Ticket -1 on the popping side -----

  /** Thread 2 passes its refusal test with ticket -1. */
  ghost predicate PopEnters(j: nat, s: State) {
    match j
    case 0 => Shows(s, true, true, 0, -1, Idle, Idle, Idle)
    case 1 => Shows(s, true, true, 0, -1, Idle, Idle, PopLoadOut(false))
    case 2 => Shows(s, true, true, 0, -1, Idle, Idle, PopReloadOut(false, -1, true))
    case 3 => Shows(s, true, true, 0, -1, Idle, Idle, PopTestEmpty(false, -1, -1, true))
    case 4 => Shows(s, true, true, 0, -1, Idle, Idle, PopReloadOut(false, -1, false))
    case _ => false
  }

  lemma PopEntersFrom0(j: nat, s: State)
    requires 0 <= j < 4 && PopEnters(j, s)
    ensures var l := Calling(Label(2, CallPop(false)), j);
            PopEnters(j + 1, Next(s, l)) && !EventOf(s, l).PopReturned?
  {
    LastSlot(s.size);
    match j
    case 0 =>
    case 1 =>
    case 2 =>
    case 3 =>
    case _ =>
  }

  lemma EnterPop(init: State, run: seq<Label>) returns (run': seq<Label>)
    requires init.Shape() && PopEnters(0, Exec(init, run))
    ensures PopEnters(4, Exec(init, run')) && Deliveries(init, run') == Deliveries(init, run)
  {
    var call := Label(2, CallPop(false));
    var p: (nat, State) -> bool := (j: nat, t: State) => PopEnters(j, t);
    forall j: nat, t: State | j < 4 && t.Shape() && p(j, t)
      ensures p(j + 1, Next(t, Calling(call, j))) && !EventOf(t, Calling(call, j)).PopReturned?
    {
      PopEntersFrom0(j, t);
    }
    var s;
    run', s := Carry(init, run, call, p, 4, 4);
  }

  /** Thread 2 tested ticket -1 against an item that thread 1 then takes; `empty` reloads, and finds nothing. */
  lemma PopWaitsAtMinusOne(size: nat) returns (run: seq<Label>)
    requires PowerOfTwo(size) && size >= 4
    ensures TryPopWaits(Exec(Initial(size, 3), run), 2, -1)
  {
    var init := Initial(size, 3);
    run := PushOne(init, [], Idle);
    run := EnterPop(init, run);
    run := ClaimOne(init, run, PopReloadOut(false, -1, false));
    ExecExtends(init, run, Label(2, Proceed));
    PopReloads(Exec(init, run));
    run := run + [Label(2, Proceed)];
  }

  lemma PopReloads(s: State)
    requires Claiming1(8, s, PopReloadOut(false, -1, false))
    ensures TryPopWaits(Next(s, Label(2, Proceed)), 2, -1)
  {
  }

  // ----- Ticket -1 on the pushing side -----

  /** Thread 1 passes its refusal test with ticket -1. */
  ghost predicate PushEnters(j: nat, s: State) {
    match j
    case 0 => Shows(s, false, false, -1, -1, Idle, Idle, Idle)
    case 1 => Shows(s, false, false, -1, -1, Idle, PushLoadIn(ITEM, false), Idle)
    case 2 => Shows(s, false, false, -1, -1, Idle, PushReloadIn(ITEM, false, -1, true), Idle)
    case 3 => Shows(s, false, false, -1, -1, Idle, PushTestFull(ITEM, false, -1, -1, true), Idle)
    case 4 => Shows(s, false, false, -1, -1, Idle, PushReloadIn(ITEM, false, -1, false), Idle)
    case _ => false
  }

  lemma PushEntersFrom0(j: nat, s: State)
    requires 0 <= j < 4 && PushEnters(j, s)
    ensures var l := Calling(Label(1, CallPush(ITEM, false)), j);
            PushEnters(j + 1, Next(s, l)) && !EventOf(s, l).PopReturned?
  {
    LastSlot(s.size);
    match j
    case 0 =>
    case 1 =>
    case 2 =>
    case 3 =>
    case _ =>
  }

  lemma EnterPush(init: State, run: seq<Label>) returns (run': seq<Label>)
    requires init.Shape() && PushEnters(0, Exec(init, run))
    ensures PushEnters(4, Exec(init, run')) && Deliveries(init, run') == Deliveries(init, run)
  {
    var call := Label(1, CallPush(ITEM, false));
    var p: (nat, State) -> bool := (j: nat, t: State) => PushEnters(j, t);
    forall j: nat, t: State | j < 4 && t.Shape() && p(j, t)
      ensures p(j + 1, Next(t, Calling(call, j))) && !EventOf(t, Calling(call, j)).PopReturned?
    {
      PushEntersFrom0(j, t);
    }
    var s;
    run', s := Carry(init, run, call, p, 4, 4);
  }

  /** Thread 0 moves `in` past ticket 0, wherever thread 1 is. */
  ghost predicate FillSkips(j: nat, s: State, t1: Thread) {
    s.size >= 4 &&
    match j
    case 0 => Shows(s, true, true, 0, -1, Idle, t1, Idle)
    case 1 => Shows(s, true, true, 0, -1, PushLoadIn(ITEM, true), t1, Idle)
    case 2 => Shows(s, true, true, 0, -1, PushTestFull(ITEM, true, 0, 0, true), t1, Idle)
    case 3 => Shows(s, true, true, 0, -1, PushTestFull(ITEM, true, 0, 0, false), t1, Idle)
    case 4 => Shows(s, true, true, 0, -1, PushTestFree(ITEM, true, 0), t1, Idle)
    case 5 => Shows(s, true, true, 0, -1, PushCas(ITEM, true, 0), t1, Idle)
    case 6 => Shows(s, true, true, 1, -1, PushLoadIn(ITEM, true), t1, Idle)
    case _ => false
  }

  lemma FillSkipsFrom0(j: nat, s: State, t1: Thread)
    requires 0 <= j < 3 && FillSkips(j, s, t1)
    ensures var l := Calling(Label(0, CallPush(ITEM, true)), j);
            FillSkips(j + 1, Next(s, l), t1) && !EventOf(s, l).PopReturned?
  {
    LastSlot(s.size);
    match j
    case 0 =>
    case 1 =>
    case 2 =>
    case _ =>
  }

  lemma FillSkipsFrom3(j: nat, s: State, t1: Thread)
    requires 3 <= j < 6 && FillSkips(j, s, t1)
    ensures var l := Calling(Label(0, CallPush(ITEM, true)), j);
            FillSkips(j + 1, Next(s, l), t1) && !EventOf(s, l).PopReturned?
  {
    LastSlot(s.size);
    match j
    case 3 =>
    case 4 =>
    case 5 =>
    case _ =>
  }

  /** Thread 0 pushes under ticket m, wherever thread 1 is; slots m and up, but the last, are still free. */
  ghost predicate Filling(m: nat, j: nat, s: State, t1: Thread) {
    && s.Shape() && s.size >= 4 && |s.threads| == 3 && s.threads[1] == t1 && 1 <= m < s.size - 1 && s.out == -1
    && s.inn == (if j <= 5 then m else m + 1)
    && (forall x | (if j <= 7 then m else m + 1) <= x < s.size - 1 :: s.isfree[x])
    && match j
       case 0 => s.threads[0] == Idle
       case 1 => s.threads[0] == PushLoadIn(ITEM, true)
       case 2 => s.threads[0] == PushTestFull(ITEM, true, m, m, true)
       case 3 => s.threads[0] == PushTestFull(ITEM, true, m, m, false)
       case 4 => s.threads[0] == PushTestFree(ITEM, true, m)
       case 5 => s.threads[0] == PushCas(ITEM, true, m)
       case 6 => s.threads[0] == PushStore(ITEM, m)
       case 7 => s.threads[0] == PushPublish(ITEM, m)
       case 8 => s.threads[0] == Idle
       case _ => false
  }

  lemma OwnSlot(size: nat, m: nat)
    requires PowerOfTwo(size) && m < size
    ensures Slot(size, m) == m
  {
    ModuloUnique(m, size, 0, m);
  }

  lemma FillingFrom0(m: nat, j: nat, s: State, t1: Thread)
    requires 0 <= j < 4 && Filling(m, j, s, t1)
    ensures var l := Calling(Label(0, CallPush(ITEM, true)), j);
            Filling(m, j + 1, Next(s, l), t1) && !EventOf(s, l).PopReturned?
  {
    OwnSlot(s.size, m);
    match j
    case 0 =>
    case 1 =>
    case 2 =>
    case 3 =>
    case _ =>
  }

  lemma FillingFrom4(m: nat, j: nat, s: State, t1: Thread)
    requires 4 <= j < 8 && Filling(m, j, s, t1)
    ensures var l := Calling(Label(0, CallPush(ITEM, true)), j);
            Filling(m, j + 1, Next(s, l), t1) && !EventOf(s, l).PopReturned?
  {
    OwnSlot(s.size, m);
    match j
    case 4 =>
    case 5 =>
    case 6 =>
    case 7 =>
    case _ =>
  }

  lemma FillOne(init: State, run: seq<Label>, m: nat, t1: Thread) returns (run': seq<Label>)
    requires init.Shape() && Filling(m, 0, Exec(init, run), t1)
    ensures Filling(m, 8, Exec(init, run'), t1) && Deliveries(init, run') == Deliveries(init, run)
  {
    var call := Label(0, CallPush(ITEM, true));
    var p: (nat, State) -> bool := (j: nat, t: State) => Filling(m, j, t, t1);
    forall j: nat, t: State | j < 8 && t.Shape() && p(j, t)
      ensures p(j + 1, Next(t, Calling(call, j))) && !EventOf(t, Calling(call, j)).PopReturned?
    {
      if j < 4 {
        FillingFrom0(m, j, t, t1);
      } else {
        FillingFrom4(m, j, t, t1);
      }
    }
    var s;
    run', s := Carry(init, run, call, p, 8, 8);
  }

  lemma FillSkip(init: State, run: seq<Label>, t1: Thread) returns (run': seq<Label>)
    requires init.Shape() && FillSkips(0, Exec(init, run), t1)
    ensures FillSkips(6, Exec(init, run'), t1) && Deliveries(init, run') == Deliveries(init, run)
  {
    var call := Label(0, CallPush(ITEM, true));
    var p: (nat, State) -> bool := (j: nat, t: State) => FillSkips(j, t, t1);
    forall j: nat, t: State | j < 6 && t.Shape() && p(j, t)
      ensures p(j + 1, Next(t, Calling(call, j))) && !EventOf(t, Calling(call, j)).PopReturned?
    {
      if j < 3 {
        FillSkipsFrom0(j, t, t1);
      } else {
        FillSkipsFrom3(j, t, t1);
      }
    }
    var s;
    run', s := Carry(init, run, call, p, 6, 6);
  }

  /** The rest of the push that skipped ticket 0. */
  lemma FillFirst(init: State, run: seq<Label>, t1: Thread) returns (run': seq<Label>)
    requires init.Shape() && Filling(1, 1, Exec(init, run), t1)
    ensures Filling(1, 8, Exec(init, run'), t1) && Deliveries(init, run') == Deliveries(init, run)
  {
    var call := Label(0, Proceed);
    var p: (nat, State) -> bool := (j: nat, t: State) => Filling(1, j + 1, t, t1);
    forall j: nat, t: State | j < 7 && t.Shape() && p(j, t)
      ensures p(j + 1, Next(t, Calling(call, j))) && !EventOf(t, Calling(call, j)).PopReturned?
    {
      if j + 1 < 4 { FillingFrom0(1, j + 1, t, t1); } else { FillingFrom4(1, j + 1, t, t1); }
    }
    var s;
    run', s := Carry(init, run, call, p, 7, 7);
  }

  /** Pushes until `in` is m + 1. */
  lemma {:induction false} FillTo(init: State, run: seq<Label>, m: nat, t1: Thread) returns (run': seq<Label>)
    requires init.Shape() && Filling(1, 8, Exec(init, run), t1) && 1 <= m < init.size - 1
    ensures Filling(m, 8, Exec(init, run'), t1)
    decreases m
  {
    if m == 1 {
      run' := run;
    } else {
      run' := FillTo(init, run, m - 1, t1);
      run' := FillOne(init, run', m, t1);
    }
  }

  /** Thread 1 tested ticket -1 when the queue was empty; size - 1 tickets later `full` reloads, and finds it full. */
  lemma PushWaitsAtMinusOne(size: nat) returns (run: seq<Label>)
    requires PowerOfTwo(size) && size >= 4
    ensures TryPushWaits(Exec(Initial(size, 3), run), 1, -1)
  {
    var init, t1 := Initial(size, 3), PushReloadIn(ITEM, false, -1, false);
    run := EnterPush(init, []);
    run := PushOne(init, run, t1);
    run := FillSkip(init, run, t1);
    run := FillFirst(init, run, t1);
    run := FillTo(init, run, size - 2, t1);
    ExecExtends(init, run, Label(1, Proceed));
    PushReloads(Exec(init, run));
    run := run + [Label(1, Proceed)];
  }

  lemma PushReloads(s: State)
    requires s.size >= 4 && Filling(s.size - 2, 8, s, PushReloadIn(ITEM, false, -1, false))
    ensures TryPushWaits(Next(s, Label(1, Proceed)), 1, -1)
  {
  }

  // ----- Exactly these -----

  ghost predicate TryPushCanWait(size: nat, i: int)
    requires PowerOfTwo(size)
  {
    exists n: nat, run: seq<Label>, k: nat :: TryPushWaits(Exec(Initial(size, n), run), k, i)
  }

  ghost predicate TryPopCanWait(size: nat, o: int)
    requires PowerOfTwo(size)
  {
    exists n: nat, run: seq<Label>, k: nat :: TryPopWaits(Exec(Initial(size, n), run), k, o)
  }

  /** A call that must not wait can be kept in its wait loop if and only if it loaded ticket -1, or 1 on the popping
      side. */
  lemma TryCallsWaitIff(size: nat, ticket: int)
    requires PowerOfTwo(size) && size >= 4
    ensures TryPushCanWait(size, ticket) <==> ticket == -1
    ensures TryPopCanWait(size, ticket) <==> ticket == -1 || ticket == 1
  {
    if TryPushCanWait(size, ticket) {
      var n: nat, run, k: nat :| TryPushWaits(Exec(Initial(size, n), run), k, ticket);
      TryCallsDoNotWait(size, n, run, k);
    }
    if TryPopCanWait(size, ticket) {
      var n: nat, run, k: nat :| TryPopWaits(Exec(Initial(size, n), run), k, ticket);
      TryCallsDoNotWait(size, n, run, k);
    }
    var a := PushWaitsAtMinusOne(size);
    var b := PopWaitsAtMinusOne(size);
    var c := PopWaitsAtOne(size);
    assert TryPushCanWait(size, -1) && TryPopCanWait(size, -1) && TryPopCanWait(size, 1);
  }

  // ----- What a caller can check before the call -----

  /** The thread holds no ticket from before lo or hi. */
  ghost predicate LoadedFrom(th: Thread, lo: int, hi: int) {
    match th
    case PushReloadIn(_, _, i, _) => i >= lo
    case PushTestFull(_, _, i, _, _) => i >= lo
    case PopReloadOut(_, o, _) => o >= hi
    case PopTestEmpty(_, o, _, _) => o >= hi
    case _ => true
  }

  /** The counters have reached lo and hi, and thread k holds no older ticket. */
  ghost predicate LoadedLate(s: State, k: nat, lo: int, hi: int) {
    k < |s.threads| && s.inn >= lo && s.out >= hi && LoadedFrom(s.threads[k], lo, hi)
  }

  lemma CountersGrow(s: State, j: nat, lose: bool)
    requires s.Shape() && j < |s.threads|
    ensures AfterAdvance(s, j, lose).inn >= s.inn && AfterAdvance(s, j, lose).out >= s.out
  {
    match s.threads[j]
    case PushCas(_, _, _) =>
    case PopSkipZero(_) =>
    case PopCas(_, _) =>
    case _ =>
  }

  lemma PushLoadsLate(s: State, k: nat, lose: bool, lo: int, hi: int)
    requires s.Shape() && k < |s.threads| && SkipZeroQueue.Pushing(s.threads[k]) && LoadedLate(s, k, lo, hi)
    ensures LoadedFrom(AfterAdvance(s, k, lose).threads[k], lo, hi)
  {
    match s.threads[k]
    case PushLoadIn(_, _) =>
    case PushReloadIn(_, _, _, _) =>
    case PushTestFull(_, _, _, _, _) =>
    case PushTestFree(_, _, _) =>
    case PushCas(_, _, _) =>
    case _ =>
  }

  lemma PopLoadsLate(s: State, k: nat, lose: bool, lo: int, hi: int)
    requires s.Shape() && k < |s.threads| && !SkipZeroQueue.Pushing(s.threads[k]) && LoadedLate(s, k, lo, hi)
    ensures LoadedFrom(AfterAdvance(s, k, lose).threads[k], lo, hi)
  {
    match s.threads[k]
    case PopLoadOut(_) =>
    case PopSkipZero(_) =>
    case PopReloadOut(_, _, _) =>
    case PopTestEmpty(_, _, _, _) =>
    case PopTestFree(_, _) =>
    case PopCas(_, _) =>
    case _ =>
  }

  lemma AdvanceStaysLate(s: State, j: nat, lose: bool, k: nat, lo: int, hi: int)
    requires s.Shape() && j < |s.threads| && LoadedLate(s, k, lo, hi)
    ensures LoadedLate(AfterAdvance(s, j, lose), k, lo, hi)
  {
    CountersGrow(s, j, lose);
    if j == k {
      if SkipZeroQueue.Pushing(s.threads[k]) {
        PushLoadsLate(s, k, lose, lo, hi);
      } else {
        PopLoadsLate(s, k, lose, lo, hi);
      }
    } else {
      AdvanceStays(s, j, lose, k);
    }
  }

  lemma LoadedStaysLate(s: State, l: Label, k: nat, lo: int, hi: int)
    requires s.Shape() && LoadedLate(s, k, lo, hi)
    ensures LoadedLate(Next(s, l), k, lo, hi)
  {
    if l.thread < |s.threads| {
      match l.action
      case Proceed => AdvanceStaysLate(s, l.thread, false, k, lo, hi);
      case LoseCas => AdvanceStaysLate(s, l.thread, true, k, lo, hi);
      case _ =>
    }
  }

  lemma {:induction false} LoadedLater(init: State, before: seq<Label>, run: seq<Label>, k: nat)
    requires init.Shape() && before <= run && k < |init.threads| && Exec(init, before).threads[k].Idle?
    ensures var s := Exec(init, before); LoadedLate(Exec(init, run), k, s.inn, s.out)
    decreases |run|
  {
    if |before| < |run| {
      var s := Exec(init, before);
      LoadedLater(init, before, run[..|run| - 1], k);
      LoadedStaysLate(Exec(init, run[..|run| - 1]), run[|run| - 1], k, s.inn, s.out);
    } else {
      assert before == run;
    }
  }

  /** A push with wait false that is called once `in` is at least 0 passes its wait loop at once, and so does a pop that
      is called once `out` is at least 2. */
  lemma LateCallsDoNotWait(size: nat, n: nat, before: seq<Label>, run: seq<Label>, k: nat)
    requires PowerOfTwo(size) && size >= 4 && k < n && before <= run
    requires Exec(Initial(size, n), before).threads[k].Idle?
    ensures Exec(Initial(size, n), before).inn >= 0 ==> forall i :: !TryPushWaits(Exec(Initial(size, n), run), k, i)
    ensures Exec(Initial(size, n), before).out >= 2 ==> forall o :: !TryPopWaits(Exec(Initial(size, n), run), k, o)
  {
    LoadedLater(Initial(size, n), before, run, k);
    TryCallsDoNotWait(size, n, run, k);
  }

  lemma LateIsRefusable(t: State, ledger: seq<Ticket>, k: nat, lo: int, hi: int)
    requires SkipZeroInvariant.Inv(t, ledger) && LoadedLate(t, k, lo, hi)
    requires Offering(t.threads[k]) || Seeking(t.threads[k])
    requires !t.threads[k].wait && if Offering(t.threads[k]) then lo >= 0 else hi >= 2
    ensures Refusable(t, k) <==> if Offering(t.threads[k]) then Full(t) else t.inn == t.out
  {
    assert ThreadOk(t, ledger, k);
  }

  /** Wherever such a call has got to, it returns when run alone exactly when the ring is full (empty) or its next slot
      is ready. */
  lemma LateCallsReturnIff(size: nat, n: nat, before: seq<Label>, run: seq<Label>, k: nat)
    requires PowerOfTwo(size) && size >= 4 && k < n && before <= run
    requires Exec(Initial(size, n), before).threads[k].Idle?
    ensures var s, t := Exec(Initial(size, n), before), Exec(Initial(size, n), run);
            && (s.inn >= 0 && Offering(t.threads[k]) && !t.threads[k].wait ==>
                  (Finishes(t, k) <==> Full(t) || CanPush(t)))
            && (s.out >= 2 && Seeking(t.threads[k]) && !t.threads[k].wait ==>
                  (Finishes(t, k) <==> t.inn == t.out || CanPop(t)))
  {
    var s, t := Exec(Initial(size, n), before), Exec(Initial(size, n), run);
    InitialInv(size, n);
    ExecKeepsInv(Initial(size, n), run);
    LoadedLater(Initial(size, n), before, run, k);
    if s.inn >= 0 && Offering(t.threads[k]) && !t.threads[k].wait {
      LateIsRefusable(t, Ledger(Initial(size, n), run), k, s.inn, s.out);
      FinishesIffUnblocked(t, size, n, run, k);
    }
    if s.out >= 2 && Seeking(t.threads[k]) && !t.threads[k].wait {
      LateIsRefusable(t, Ledger(Initial(size, n), run), k, s.inn, s.out);
      FinishesIffUnblocked(t, size, n, run, k);
    }
  }

  // ----- The retry loop around the wait loop -----

  /** A single thread that pushes one item and pops three times, never willing to wait. */
  function LoneLabel(j: nat): Label {
    Label(0, if j == 0 then CallPush(ITEM, false)
             else if j == 10 || j == 20 || j == 24 then CallPop(false) else Proceed)
  }

  ghost predicate LoneState(s: State, filled: bool, inn: int, out: int, th: Thread) {
    && s.inn == inn && s.out == out && s.threads == [th] && s.Shape() && s.size >= 4
    && (s.isfree[s.size - 1] <==> !filled) && forall x | 0 <= x < s.size - 1 :: s.isfree[x]
  }

  ghost predicate LonePush(j: nat, s: State) {
    match j
    case 0 => LoneState(s, false, -1, -1, Idle)
    case 1 => LoneState(s, false, -1, -1, PushLoadIn(ITEM, false))
    case 2 => LoneState(s, false, -1, -1, PushReloadIn(ITEM, false, -1, true))
    case 3 => LoneState(s, false, -1, -1, PushTestFull(ITEM, false, -1, -1, true))
    case 4 => LoneState(s, false, -1, -1, PushReloadIn(ITEM, false, -1, false))
    case 5 => LoneState(s, false, -1, -1, PushTestFull(ITEM, false, -1, -1, false))
    case 6 => LoneState(s, false, -1, -1, PushTestFree(ITEM, false, -1))
    case 7 => LoneState(s, false, -1, -1, PushCas(ITEM, false, -1))
    case 8 => LoneState(s, false, 0, -1, PushStore(ITEM, -1))
    case 9 => LoneState(s, false, 0, -1, PushPublish(ITEM, -1))
    case 10 => LoneState(s, true, 0, -1, Idle)
    case _ => false
  }

  ghost predicate LonePop(j: nat, s: State) {
    match j
    case 10 => LoneState(s, true, 0, -1, Idle)
    case 11 => LoneState(s, true, 0, -1, PopLoadOut(false))
    case 12 => LoneState(s, true, 0, -1, PopReloadOut(false, -1, true))
    case 13 => LoneState(s, true, 0, -1, PopTestEmpty(false, -1, -1, true))
    case 14 => LoneState(s, true, 0, -1, PopReloadOut(false, -1, false))
    case 15 => LoneState(s, true, 0, -1, PopTestEmpty(false, -1, -1, false))
    case 16 => LoneState(s, true, 0, -1, PopTestFree(false, -1))
    case 17 => LoneState(s, true, 0, -1, PopCas(false, -1))
    case 18 => LoneState(s, true, 0, 0, PopRead(-1))
    case 19 =>
      |s.threads| == 1 && s.threads[0].PopRelease? && s.threads[0].o == -1 && LoneState(s, true, 0, 0, s.threads[0])
    case 20 => LoneState(s, false, 0, 0, Idle)
    case _ => false
  }

  ghost predicate LoneSkip(j: nat, s: State) {
    match j
    case 20 => LoneState(s, false, 0, 0, Idle)
    case 21 => LoneState(s, false, 0, 0, PopLoadOut(false))
    case 22 => LoneState(s, false, 0, 0, PopSkipZero(false))
    case 23 => LoneState(s, false, 0, 1, PopTestEmpty(false, 0, 0, true))
    case 24 => LoneState(s, false, 0, 1, Idle)
    case 25 => LoneState(s, false, 0, 1, PopLoadOut(false))
    case _ => false
  }

  ghost predicate Lone(j: nat, s: State) {
    if j < 10 then LonePush(j, s) else if j < 20 then LonePop(j, s) else LoneSkip(j, s)
  }

  lemma LonePushStep(j: nat, s: State)
    requires j < 10 && LonePush(j, s)
    ensures LonePush(j + 1, Next(s, LoneLabel(j)))
  {
    LastSlot(s.size);
  }

  lemma LonePopStep(j: nat, s: State)
    requires 10 <= j < 20 && LonePop(j, s)
    ensures LonePop(j + 1, Next(s, LoneLabel(j)))
  {
    LastSlot(s.size);
  }

  lemma LoneSkipStep(j: nat, s: State)
    requires 20 <= j < 25 && LoneSkip(j, s)
    ensures LoneSkip(j + 1, Next(s, LoneLabel(j)))
  {
  }

  lemma LoneStep(j: nat, s: State)
    requires j < 25 && Lone(j, s)
    ensures s.Shape() && Lone(j + 1, Next(s, LoneLabel(j)))
  {
    if j < 10 { LonePushStep(j, s); } else if j < 20 { LonePopStep(j, s); } else { LoneSkipStep(j, s); }
  }

  lemma {:induction false} LoneRun(size: nat, j: nat) returns (run: seq<Label>)
    requires PowerOfTwo(size) && size >= 4 && j <= 25
    ensures Lone(j, Exec(Initial(size, 1), run))
    decreases j
  {
    run := [];
    if j > 0 {
      run := LoneRun(size, j - 1);
      LoneStep(j - 1, Exec(Initial(size, 1), run));
      ExecExtends(Initial(size, 1), run, LoneLabel(j - 1));
      run := run + [LoneLabel(j - 1)];
    }
  }

  /** The retry loop of a pop with ticket 1 at `out` = 1 and `in` = 0. */
  ghost predicate Retrying(s: State) {
    && |s.threads| == 1 && LoneState(s, false, 0, 1, s.threads[0])
    && (s.threads[0] == PopLoadOut(false) || s.threads[0] == PopTestFree(false, 1) ||
        (s.threads[0].PopTestEmpty? && s.threads[0] == PopTestEmpty(false, 1, 1, s.threads[0].first)))
  }

  lemma RetryGoesOn(s: State)
    requires Retrying(s)
    ensures Retrying(AfterAdvance(s, 0, false)) && forall o :: !TryPopWaits(s, 0, o)
  {
    ModuloUnique(1, s.size, 0, 1);
  }

  lemma {:induction false} RetriesOutsideWait(s: State, m: nat)
    requires Retrying(s)
    ensures forall o :: !TryPopWaits(Solo(s, 0, m), 0, o)
    decreases m
  {
    RetryGoesOn(s);
    if m > 0 { RetriesOutsideWait(AfterAdvance(s, 0, false), m - 1); }
  }

  /** A pop that must not wait can retry for ever in a queue that is empty and that nobody else uses: after one push and
      one pop, a refused pop leaves `out` at 1 and `in` at 0, and the next pop finds neither an empty queue nor an item.
      It is never kept in its wait loop. */
  lemma LoneTryPopSpins(size: nat) returns (run: seq<Label>)
    requires PowerOfTwo(size) && size >= 4
    ensures var s := Exec(Initial(size, 1), run);
            && s.inn == 0 && s.out == 1 && s.threads == [PopLoadOut(false)] && !Finishes(s, 0)
            && forall m: nat, o: int :: !TryPopWaits(Solo(s, 0, m), 0, o)
  {
    run := LoneRun(size, 25);
    var s := Exec(Initial(size, 1), run);
    LoneTryCallReturnsIff(s, size, 1, run, 0);
    forall m: nat, o: int ensures !TryPopWaits(Solo(s, 0, m), 0, o) { RetriesOutsideWait(s, m); }
  }
}
