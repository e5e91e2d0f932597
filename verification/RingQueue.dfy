/** The minimal lock-free ring queue (nutshell/queue.h) as a transition system: every load, test,
    compare-and-swap and store of `push` and `pop` is one step, and the steps of any number of
    threads interleave freely. Memory is sequentially consistent and tickets are unbounded. */
module RingQueue {
  import opened Masks

  /** A thread's program counter with the locals that are live there.  Each constructor names the
      shared access that the thread performs next. */
  datatype Thread =
    | Idle
    | PushLoadIn(item: int)             // i = in
    | PushTestFull(item: int, i: int)   // i - out == size
    | PushTestSlot(item: int, i: int)   // buffer[i & mask]
    | PushCas(item: int, i: int)        // in.compare_exchange_weak(i, i + 1)
    | PushStore(item: int, i: int)      // buffer[i & mask] = item
    | PopLoadOut                        // o = out
    | PopTestEmpty(o: int)              // o == in
    | PopTestSlot(o: int)               // buffer[o & mask]
    | PopCas(o: int)                    // out.compare_exchange_weak(o, o + 1)
    | PopRead(o: int)                   // r = buffer[o & mask]
    | PopRelease(o: int, r: int)        // buffer[o & mask] = 0

  /** What the scheduler may ask of a thread: start a call when idle, take its next step, or lose
      a weak compare-and-swap for no reason. */
  datatype Action = CallPush(item: int) | CallPop | Proceed | LoseCas

  datatype Label = Label(thread: nat, action: Action)

  datatype State = State(size: nat, buffer: seq<int>, inn: int, out: int, threads: seq<Thread>)
  {
    ghost predicate Shape() {
      PowerOfTwo(size) && |buffer| == size
    }
  }

  function Initial(size: nat, n: nat): State {
    State(size, seq(size, _ => 0), 0, 0, seq(n, _ => Idle))
  }

  /** One step of one thread.  A label that does not apply leaves the state unchanged, so every
      sequence of labels is a schedule.  Item 0 marks a free slot and cannot be pushed. */
  function Next(s: State, l: Label): (s': State)
    requires s.Shape()
    ensures s'.Shape() && s'.size == s.size && |s'.threads| == |s.threads|
  {
    if l.thread >= |s.threads| then s else
    match l.action
    case CallPush(item) =>
      if s.threads[l.thread].Idle? && item != 0 then At(s, l.thread, PushLoadIn(item)) else s
    case CallPop =>
      if s.threads[l.thread].Idle? then At(s, l.thread, PopLoadOut) else s
    case Proceed => AfterAdvance(s, l.thread, false)
    case LoseCas => AfterAdvance(s, l.thread, true)
  }

  /** Thread k moves to program point th. */
  function At(s: State, k: nat, th: Thread): State
    requires k < |s.threads|
  {
    s.(threads := s.threads[k := th])
  }

  function AfterAdvance(s: State, k: nat, lose: bool): (s': State)
    requires s.Shape() && k < |s.threads|
    ensures s'.Shape() && s'.size == s.size && |s'.threads| == |s.threads|
  {
    match s.threads[k]
    case Idle => s
    case PushLoadIn(item) => At(s, k, PushTestFull(item, s.inn))
    case PushTestFull(item, i) =>
      if i - s.out == s.size then s else At(s, k, PushTestSlot(item, i))
    case PushTestSlot(item, i) =>
      if s.buffer[Slot(s.size, i)] != 0 then At(s, k, PushLoadIn(item)) else At(s, k, PushCas(item, i))
    case PushCas(item, i) =>
      if s.inn == i && !lose then At(s.(inn := i + 1), k, PushStore(item, i))
      else At(s, k, PushLoadIn(item))
    case PushStore(item, i) => At(s.(buffer := s.buffer[Slot(s.size, i) := item]), k, Idle)
    case PopLoadOut => At(s, k, PopTestEmpty(s.out))
    case PopTestEmpty(o) =>
      if o == s.inn then s else At(s, k, PopTestSlot(o))
    case PopTestSlot(o) =>
      if s.buffer[Slot(s.size, o)] == 0 then At(s, k, PopLoadOut) else At(s, k, PopCas(o))
    case PopCas(o) =>
      if s.out == o && !lose then At(s.(out := o + 1), k, PopRead(o)) else At(s, k, PopLoadOut)
    case PopRead(o) => At(s, k, PopRelease(o, s.buffer[Slot(s.size, o)]))
    case PopRelease(o, r) => At(s.(buffer := s.buffer[Slot(s.size, o) := 0]), k, Idle)
  }

  /** What a caller can see of one step. */
  datatype Event = Silent | PushCalled(item: int) | PushReturned | PopCalled | PopReturned(value: int)

  function EventOf(s: State, l: Label): Event {
    if l.thread >= |s.threads| then Silent else
    match (l.action, s.threads[l.thread])
    case (CallPush(item), Idle) => if item != 0 then PushCalled(item) else Silent
    case (CallPop, Idle) => PopCalled
    case (CallPush(_), _) => Silent
    case (CallPop, _) => Silent
    case (_, PushStore(_, _)) => PushReturned
    case (_, PopRelease(_, r)) => PopReturned(r)
    case (_, _) => Silent
  }

  /** The state after a schedule. */
  function Exec(s: State, run: seq<Label>): (s': State)
    requires s.Shape()
    ensures s'.Shape() && s'.size == s.size && |s'.threads| == |s.threads|
  {
    if run == [] then s else Next(Exec(s, run[..|run| - 1]), run[|run| - 1])
  }

  // ----- The queue object: the same steps as updates of its fields -----

  predicate InPush(th: Thread) {
    th.PushLoadIn? || th.PushTestFull? || th.PushTestSlot? || th.PushCas? || th.PushStore?
  }

  class Queue {
    var buffer: array<int>
    var size: nat
    var mask: nat
    var inn: int
    var out: int
    var threads: seq<Thread>  // the locals and program counters of the threads that use the queue

    ghost predicate Valid()
      reads this
    {
      PowerOfTwo(size) && buffer.Length == size && mask == size - 1
    }

    ghost function View(): (s: State)
      reads this, buffer
      requires Valid()
      ensures s.Shape()
    {
      State(size, buffer[..], inn, out, threads)
    }

    constructor (size: nat, n: nat)
      requires PowerOfTwo(size)
      ensures Valid() && fresh(buffer)
      ensures View() == Initial(size, n)
    {
      buffer := new int[size](_ => 0);
      this.size, mask := size, size - 1;
      inn, out := 0, 0;
      threads := seq(n, _ => Idle);
    }

    /** Performs the next shared access of thread k on the fields. */
    method Advance(k: nat, lose: bool)
      requires Valid() && k < |threads|
      modifies this, buffer
      ensures Valid() && buffer == old(buffer)
      ensures View() == AfterAdvance(old(View()), k, lose)
    {
      if InPush(threads[k]) {
        AdvancePush(k, lose);
      } else if !threads[k].Idle? {
        AdvancePop(k, lose);
      }
    }

    /** The next shared access of thread k inside `push`. */
    method AdvancePush(k: nat, lose: bool)
      requires Valid() && k < |threads| && InPush(threads[k])
      modifies this, buffer
      ensures Valid() && buffer == old(buffer)
      ensures View() == AfterAdvance(old(View()), k, lose)
    {
      var th := threads[k];
      match th {
      case PushLoadIn(item) =>
        var i := inn;
        th := PushTestFull(item, i);
      case PushTestFull(item, i) =>
        if i - out != size {
          th := PushTestSlot(item, i);
        }
      case PushTestSlot(item, i) =>
        MaskIsModulo(i, size);
        th := if buffer[And(i, mask)] != 0 then PushLoadIn(item) else PushCas(item, i);
      case PushCas(item, i) =>
        if inn == i && !lose {
          inn := i + 1;
          th := PushStore(item, i);
        } else {
          th := PushLoadIn(item);
        }
      case PushStore(item, i) =>
        MaskIsModulo(i, size);
        buffer[And(i, mask)] := item;
        th := Idle;
      }
      threads := threads[k := th];
    }

    /** The next shared access of thread k inside `pop`. */
    method AdvancePop(k: nat, lose: bool)
      requires Valid() && k < |threads| && !InPush(threads[k]) && !threads[k].Idle?
      modifies this, buffer
      ensures Valid() && buffer == old(buffer)
      ensures View() == AfterAdvance(old(View()), k, lose)
    {
      var th := threads[k];
      match th {
      case PopLoadOut =>
        var o := out;
        th := PopTestEmpty(o);
      case PopTestEmpty(o) =>
        if o != inn {
          th := PopTestSlot(o);
        }
      case PopTestSlot(o) =>
        MaskIsModulo(o, size);
        th := if buffer[And(o, mask)] == 0 then PopLoadOut else PopCas(o);
      case PopCas(o) =>
        if out == o && !lose {
          out := o + 1;
          th := PopRead(o);
        } else {
          th := PopLoadOut;
        }
      case PopRead(o) =>
        MaskIsModulo(o, size);
        var r := buffer[And(o, mask)];
        th := PopRelease(o, r);
      case PopRelease(o, r) =>
        MaskIsModulo(o, size);
        buffer[And(o, mask)] := 0;
        th := Idle;
      }
      threads := threads[k := th];
    }

    /** Obeys one scheduler label. */
    method Step(l: Label)
      requires Valid()
      modifies this, buffer
      ensures Valid() && buffer == old(buffer)
      ensures View() == Next(old(View()), l)
    {
      if l.thread < |threads| {
        match l.action
        case CallPush(item) =>
          if threads[l.thread].Idle? && item != 0 {
            threads := threads[l.thread := PushLoadIn(item)];
          }
        case CallPop =>
          if threads[l.thread].Idle? {
            threads := threads[l.thread := PopLoadOut];
          }
        case Proceed => Advance(l.thread, false);
        case LoseCas => Advance(l.thread, true);
      }
    }

    /** Runs a whole schedule. */
    method Run(run: seq<Label>)
      requires Valid()
      modifies this, buffer
      ensures Valid() && buffer == old(buffer)
      ensures View() == Exec(old(View()), run)
    {
      for j := 0 to |run|
        invariant Valid() && buffer == old(buffer)
        invariant View() == Exec(old(View()), run[..j])
      {
        assert run[..j + 1][..j] == run[..j];
        Step(run[j]);
      }
      assert run[..|run|] == run;
    }
  }
}
