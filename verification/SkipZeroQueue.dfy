/** The production queue (cpp/lib/queue.h) as a transition system: a separate array of free flags,
    tickets that start at -1 and skip 0, and calls that may refuse instead of waiting.  Every shared
    access is one step; `running()` holds throughout. */
module SkipZeroQueue {
  import opened Masks

  /** Program counters with live locals.  `wait` is the caller's flag; `first` tells the refusal test
      from the wait loop that follows it; k is what `full` or `empty` compares after reloading a
      negative ticket. */
  datatype Thread =
    | Idle
    | PushLoadIn(item: int, wait: bool)                                 // i = in
    | PushReloadIn(item: int, wait: bool, i: int, first: bool)          // full: if (i < 0) i = in
    | PushTestFull(item: int, wait: bool, i: int, k: int, first: bool)  // full: (i - out) > mask
    | PushTestFree(item: int, wait: bool, i: int)                       // isfree[i & mask]
    | PushCas(item: int, wait: bool, i: int)                            // in.compare_exchange_weak(i, i + 1)
    | PushStore(item: int, i: int)                                      // buffer[i & mask] = item
    | PushPublish(item: int, i: int)                                    // isfree[i & mask] = 0
    | PopLoadOut(wait: bool)                                            // o = out
    | PopSkipZero(wait: bool)                                           // out.compare_exchange_weak(0, 1)
    | PopReloadOut(wait: bool, o: int, first: bool)                     // empty: if (o < 0) o = out
    | PopTestEmpty(wait: bool, o: int, k: int, first: bool)             // empty: o == in
    | PopTestFree(wait: bool, o: int)                                   // isfree[o & mask]
    | PopCas(wait: bool, o: int)                                        // out.compare_exchange_weak(o, o + 1)
    | PopRead(o: int)                                                   // item = buffer[o & mask]
    | PopRelease(o: int, r: int)                                        // isfree[o & mask] = 1

  datatype Action = CallPush(item: int, wait: bool) | CallPop(wait: bool) | Proceed | LoseCas

  datatype Label = Label(thread: nat, action: Action)

  datatype State = State(size: nat, buffer: seq<int>, isfree: seq<bool>, inn: int, out: int, threads: seq<Thread>)
  {
    ghost predicate Shape() {
      PowerOfTwo(size) && |buffer| == size && |isfree| == size
    }
  }

  function Initial(size: nat, n: nat): State {
    State(size, seq(size, _ => 0), seq(size, _ => true), -1, -1, seq(n, _ => Idle))
  }

  function At(s: State, k: nat, th: Thread): State
    requires k < |s.threads|
  {
    s.(threads := s.threads[k := th])
  }

  /** Entering `full(i)`. */
  function AskFull(item: int, wait: bool, i: int, first: bool): Thread {
    if i < 0 then PushReloadIn(item, wait, i, first) else PushTestFull(item, wait, i, i, first)
  }

  /** Entering `empty(o)`. */
  function AskEmpty(wait: bool, o: int, first: bool): Thread {
    if o < 0 then PopReloadOut(wait, o, first) else PopTestEmpty(wait, o, o, first)
  }

  function AfterAdvance(s: State, j: nat, lose: bool): (s': State)
    requires s.Shape() && j < |s.threads|
    ensures s'.Shape() && s'.size == s.size && |s'.threads| == |s.threads|
  {
    match s.threads[j]
    case Idle => s
    case PushLoadIn(item, wait) => At(s, j, AskFull(item, wait, s.inn, true))
    case PushReloadIn(item, wait, i, first) => At(s, j, PushTestFull(item, wait, i, s.inn, first))
    case PushTestFull(item, wait, i, k, first) =>
      if k - s.out > s.size - 1
      then (if first && !wait then At(s, j, Idle) else At(s, j, AskFull(item, wait, i, false)))
      else if first then At(s, j, AskFull(item, wait, i, false))
      else At(s, j, PushTestFree(item, wait, i))
    case PushTestFree(item, wait, i) =>
      At(s, j, if s.isfree[Slot(s.size, i)] then PushCas(item, wait, i) else PushLoadIn(item, wait))
    case PushCas(item, wait, i) =>
      if s.inn != i || lose then At(s, j, PushLoadIn(item, wait))
      else At(s.(inn := i + 1), j, if i == 0 then PushLoadIn(item, wait) else PushStore(item, i))
    case PushStore(item, i) => At(s.(buffer := s.buffer[Slot(s.size, i) := item]), j, PushPublish(item, i))
    case PushPublish(item, i) => At(s.(isfree := s.isfree[Slot(s.size, i) := false]), j, Idle)
    case PopLoadOut(wait) => At(s, j, if s.out == 0 then PopSkipZero(wait) else AskEmpty(wait, s.out, true))
    case PopSkipZero(wait) =>
      if s.out != 0 || lose then At(s, j, PopLoadOut(wait)) else At(s.(out := 1), j, AskEmpty(wait, 0, true))
    case PopReloadOut(wait, o, first) => At(s, j, PopTestEmpty(wait, o, s.out, first))
    case PopTestEmpty(wait, o, k, first) =>
      if k == s.inn then (if first && !wait then At(s, j, Idle) else At(s, j, AskEmpty(wait, o, false)))
      else if first then At(s, j, AskEmpty(wait, o, false))
      else At(s, j, PopTestFree(wait, o))
    case PopTestFree(wait, o) =>
      At(s, j, if s.isfree[Slot(s.size, o)] then PopLoadOut(wait) else PopCas(wait, o))
    case PopCas(wait, o) =>
      if s.out != o || lose then At(s, j, PopLoadOut(wait)) else At(s.(out := o + 1), j, PopRead(o))
    case PopRead(o) => At(s, j, PopRelease(o, s.buffer[Slot(s.size, o)]))
    case PopRelease(o, r) => At(s.(isfree := s.isfree[Slot(s.size, o) := true]), j, Idle)
  }

  /** One step of one thread; a label that does not apply changes nothing. */
  function Next(s: State, l: Label): (s': State)
    requires s.Shape()
    ensures s'.Shape() && s'.size == s.size && |s'.threads| == |s.threads|
  {
    if l.thread >= |s.threads| then s else
    match l.action
    case CallPush(item, wait) => if s.threads[l.thread].Idle? then At(s, l.thread, PushLoadIn(item, wait)) else s
    case CallPop(wait) => if s.threads[l.thread].Idle? then At(s, l.thread, PopLoadOut(wait)) else s
    case Proceed => AfterAdvance(s, l.thread, false)
    case LoseCas => AfterAdvance(s, l.thread, true)
  }

  /** What callers see.  A successful call returns its ticket; a refused one returns 0. */
  datatype Event =
    | Silent
    | PushCalled(item: int, wait: bool) | PushReturned(ticket: int) | PushRefused
    | PopCalled(wait: bool) | PopReturned(ticket: int, value: int) | PopRefused

  function EventOf(s: State, l: Label): Event {
    if l.thread >= |s.threads| then Silent else
    var th := s.threads[l.thread];
    match l.action
    case CallPush(item, wait) => if th.Idle? then PushCalled(item, wait) else Silent
    case CallPop(wait) => if th.Idle? then PopCalled(wait) else Silent
    case _ =>
      match th
      case PushTestFull(_, wait, _, k, first) =>
      if k - s.out > s.size - 1 && first && !wait then PushRefused else Silent
      case PushPublish(_, i) => PushReturned(i)
      case PopTestEmpty(wait, _, k, first) => if k == s.inn && first && !wait then PopRefused else Silent
      case PopRelease(o, r) => PopReturned(o, r)
      case _ => Silent
  }

  function Exec(s: State, run: seq<Label>): (s': State)
    requires s.Shape()
    ensures s'.Shape() && s'.size == s.size && |s'.threads| == |s.threads|
  {
    if run == [] then s else Next(Exec(s, run[..|run| - 1]), run[|run| - 1])
  }

  predicate Pushing(th: Thread) {
    || th.PushLoadIn? || th.PushReloadIn? || th.PushTestFull? || th.PushTestFree?
    || th.PushCas? || th.PushStore? || th.PushPublish?
  }

  // ----- The queue object -----

  class Queue {
    var buffer: array<int>
    var isfree: array<bool>
    var inn: int
    var out: int
    var mask: nat
    var threads: seq<Thread>

    ghost predicate Valid()
      reads this
    {
      && PowerOfTwo(mask + 1)
      && buffer.Length == isfree.Length == mask + 1
    }

    ghost function View(): (s: State)
      reads this, buffer, isfree
      requires Valid()
      ensures s.Shape()
    {
      State(mask + 1, buffer[..], isfree[..], inn, out, threads)
    }

    /** Rounds the requested size up to the next power of two. */
    constructor (size: int, n: nat)
      ensures Valid() && fresh(buffer) && fresh(isfree)
      ensures View() == Initial(mask + 1, n)
      ensures size <= mask + 1 && (mask + 1 == 1 || mask + 1 < 2 * size)
    {
      var m: nat := 1;
      while m < size
        invariant PowerOfTwo(m) && (m == 1 || m < 2 * size)
        decreases size - m
      {
        m := m * 2;
      }
      buffer := new int[m](_ => 0);
      isfree := new bool[m](_ => true);
      out, inn := -1, -1;
      mask := m - 1;
      threads := seq(n, _ => Idle);
    }

    /** Performs the next shared access of thread j inside `push`. */
    method AdvancePush(j: nat, lose: bool)
      requires Valid() && j < |threads|
      requires Pushing(threads[j])
      modifies this, buffer, isfree
      ensures Valid() && buffer == old(buffer) && isfree == old(isfree)
      ensures View() == AfterAdvance(old(View()), j, lose)
    {
      var th := threads[j];
      match th {
      case PushLoadIn(item, wait) =>
        var i := inn;
        th := AskFull(item, wait, i, true);
      case PushReloadIn(item, wait, i, first) =>
        th := PushTestFull(item, wait, i, inn, first);
      case PushTestFull(item, wait, i, k, first) =>
        var full := k - out > mask;
        if first && full && !wait {
          th := Idle;
        } else if first || full {
          th := AskFull(item, wait, i, false);
        } else {
          th := PushTestFree(item, wait, i);
        }
      case PushTestFree(item, wait, i) =>
        MaskIsModulo(i, mask + 1);
        th := if !isfree[And(i, mask)] then PushLoadIn(item, wait) else PushCas(item, wait, i);
      case PushCas(item, wait, i) =>
        if inn == i && !lose {
          inn := i + 1;
          th := if i == 0 then PushLoadIn(item, wait) else PushStore(item, i);
        } else {
          th := PushLoadIn(item, wait);
        }
      case PushStore(item, i) =>
        MaskIsModulo(i, mask + 1);
        buffer[And(i, mask)] := item;
        th := PushPublish(item, i);
      case PushPublish(item, i) =>
        MaskIsModulo(i, mask + 1);
        isfree[And(i, mask)] := false;
        th := Idle;
      }
      threads := threads[j := th];
    }

    /** Performs the next shared access of thread j inside `pop`. */
    method AdvancePop(j: nat, lose: bool)
      requires Valid() && j < |threads|
      requires !threads[j].Idle? && !Pushing(threads[j])
      modifies this, buffer, isfree
      ensures Valid() && buffer == old(buffer) && isfree == old(isfree)
      ensures View() == AfterAdvance(old(View()), j, lose)
    {
      var th := threads[j];
      if th.PopTestFree? || th.PopCas? || th.PopRead? || th.PopRelease? {
        AdvanceTake(j, lose);
        return;
      }
      match th {
      case PopLoadOut(wait) =>
        var o := out;
        th := if o == 0 then PopSkipZero(wait) else AskEmpty(wait, o, true);
      case PopSkipZero(wait) =>
        if out == 0 && !lose {
          out := 1;
          th := AskEmpty(wait, 0, true);
        } else {
          th := PopLoadOut(wait);
        }
      case PopReloadOut(wait, o, first) =>
        th := PopTestEmpty(wait, o, out, first);
      case PopTestEmpty(wait, o, k, first) =>
        var empty := k == inn;
        if first && empty && !wait {
          th := Idle;
        } else if first || empty {
          th := AskEmpty(wait, o, false);
        } else {
          th := PopTestFree(wait, o);
        }
      }
      threads := threads[j := th];
    }

    /** The part of `pop` after its wait loop. */
    method AdvanceTake(j: nat, lose: bool)
      requires Valid() && j < |threads|
      requires var th := threads[j]; th.PopTestFree? || th.PopCas? || th.PopRead? || th.PopRelease?
      modifies this, buffer, isfree
      ensures Valid() && buffer == old(buffer) && isfree == old(isfree)
      ensures View() == AfterAdvance(old(View()), j, lose)
    {
      var th := threads[j];
      match th {
      case PopTestFree(wait, o) =>
        MaskIsModulo(o, mask + 1);
        th := if isfree[And(o, mask)] then PopLoadOut(wait) else PopCas(wait, o);
      case PopCas(wait, o) =>
        if out == o && !lose {
          out := o + 1;
          th := PopRead(o);
        } else {
          th := PopLoadOut(wait);
        }
      case PopRead(o) =>
        MaskIsModulo(o, mask + 1);
        th := PopRelease(o, buffer[And(o, mask)]);
      case PopRelease(o, _) =>
        MaskIsModulo(o, mask + 1);
        isfree[And(o, mask)] := true;
        assert isfree[..] == old(isfree[..])[Slot(mask + 1, o) := true];
        th := Idle;
      }
      threads := threads[j := th];
    }

    method Advance(j: nat, lose: bool)
      requires Valid() && j < |threads|
      modifies this, buffer, isfree
      ensures Valid() && buffer == old(buffer) && isfree == old(isfree)
      ensures View() == AfterAdvance(old(View()), j, lose)
    {
      if Pushing(threads[j]) {
        AdvancePush(j, lose);
      } else if !threads[j].Idle? {
        AdvancePop(j, lose);
      }
    }

    /** Obeys one scheduler label. */
    method Step(l: Label)
      requires Valid()
      modifies this, buffer, isfree
      ensures Valid() && buffer == old(buffer) && isfree == old(isfree)
      ensures View() == Next(old(View()), l)
    {
      if l.thread < |threads| {
        match l.action
        case CallPush(item, wait) =>
          if threads[l.thread].Idle? {
            threads := threads[l.thread := PushLoadIn(item, wait)];
          }
        case CallPop(wait) =>
          if threads[l.thread].Idle? {
            threads := threads[l.thread := PopLoadOut(wait)];
          }
        case Proceed => Advance(l.thread, false);
        case LoseCas => Advance(l.thread, true);
      }
    }
  }
}
