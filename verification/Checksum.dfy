/** The checksum program (nutshell/main.cc): pairs of producers and consumers share one ring queue,
    producers add what they pushed to `total`, consumers subtract what they popped. */
module Checksum {
  import opened Masks
  import opened RingQueue
  import opened RingInvariant

  /** Where a thread is in `producer` or `consumer`, with its locals. */
  datatype Prog =
    | Producing(i: int, sum: int)  // at the loop test, or inside Q.push(i)
    | Ending(sum: int)             // before or inside Q.push(-1)
    | Adding(sum: int)             // total += sum
    | Consuming(sum: int)          // before or inside Q.pop()
    | Subtracting(sum: int)        // total -= sum
    | Done(sum: int)

  datatype Program = Program(items: int, q: State, progs: seq<Prog>, total: int)
  {
    ghost predicate Shape() {
      q.Shape() && |progs| == |q.threads|
    }
  }

  /** `main` starts each pair as a consumer followed by a producer. */
  ghost predicate IsProducer(k: nat) {
    k % 2 == 1
  }

  function Start(size: nat, pairs: nat, items: int): Program {
    Program(items, Initial(size, 2 * pairs),
            seq(2 * pairs, k => if k % 2 == 1 then Producing(1, 0) else Consuming(0)), 0)
  }

  /** Which thread moves, and whether it loses a weak compare-and-swap. */
  datatype Turn = Turn(thread: nat, lose: bool)

  /** The queue step that a turn makes; a thread number no thread has when it makes none. */
  function QueueLabel(w: Program, t: Turn): Label
    requires |w.progs| == |w.q.threads|
  {
    var none := Label(|w.progs|, Proceed);
    if t.thread >= |w.progs| then none else
    match w.progs[t.thread]
    case Producing(i, _) => if i <= w.items then CallOrAdvance(w, t, CallPush(i)) else none
    case Ending(_) => CallOrAdvance(w, t, CallPush(-1))
    case Consuming(_) => CallOrAdvance(w, t, CallPop)
    case _ => none
  }

  function CallOrAdvance(w: Program, t: Turn, call: Action): Label
    requires t.thread < |w.q.threads|
  {
    Label(t.thread, if w.q.threads[t.thread].Idle? then call else Advancing(t.lose))
  }

  /** The program point after a queue event. */
  function ProgAfter(items: int, p: Prog, e: Event): Prog {
    match p
    case Producing(i, sum) =>
      if e.PushReturned? then Producing(i + 1, sum + 1) else if i <= items then p else Ending(sum)
    case Ending(sum) => if e.PushReturned? then Adding(sum) else p
    case Adding(sum) => Done(sum)
    case Consuming(sum) =>
      if !e.PopReturned? then p else if e.value > 0 then Consuming(sum + 1) else Subtracting(sum)
    case Subtracting(sum) => Done(sum)
    case Done(_) => p
  }

  function Turned(w: Program, t: Turn): (w': Program)
    requires w.Shape()
    ensures w'.Shape() && |w'.progs| == |w.progs| && w'.items == w.items
  {
    if t.thread >= |w.progs| then w else
    var p := w.progs[t.thread];
    var l := QueueLabel(w, t);
    Program(w.items, Next(w.q, l), w.progs[t.thread := ProgAfter(w.items, p, EventOf(w.q, l))],
            if p.Adding? then w.total + p.sum else if p.Subtracting? then w.total - p.sum else w.total)
  }

  function Play(w: Program, turns: seq<Turn>): (w': Program)
    requires w.Shape()
    ensures w'.Shape() && |w'.progs| == |w.progs| && w'.items == w.items
  {
    if turns == [] then w else Turned(Play(w, turns[..|turns| - 1]), turns[|turns| - 1])
  }

  /** The schedule that the queue sees. */
  function Labels(w: Program, turns: seq<Turn>): (run: seq<Label>)
    requires w.Shape()
    ensures |run| == |turns|
  {
    if turns == [] then [] else
    var before := turns[..|turns| - 1];
    Labels(w, before) + [QueueLabel(Play(w, before), turns[|turns| - 1])]
  }

  lemma {:induction false} QueueFollows(w: Program, turns: seq<Turn>)
    requires w.Shape()
    ensures Play(w, turns).q == Exec(w.q, Labels(w, turns))
    decreases |turns|
  {
    if turns != [] {
      var before := turns[..|turns| - 1];
      QueueFollows(w, before);
      assert Labels(w, turns)[..|turns| - 1] == Labels(w, before);
    }
  }

  /** The program as an object that owns a queue. */
  class Main {
    const items: int
    const queue: Queue
    var progs: seq<Prog>
    var total: int

    ghost predicate Valid()
      reads this, queue
    {
      queue.Valid() && |progs| == |queue.threads|
    }

    ghost function View(): (w: Program)
      reads this, queue, queue.buffer
      requires Valid()
      ensures w.Shape()
    {
      Program(items, queue.View(), progs, total)
    }

    constructor (size: nat, pairs: nat, items: int)
      requires PowerOfTwo(size)
      ensures Valid() && fresh(queue) && fresh(queue.buffer)
      ensures View() == Start(size, pairs, items)
    {
      this.items, total := items, 0;
      queue := new Queue(size, 2 * pairs);
      progs := seq(2 * pairs, k => if k % 2 == 1 then Producing(1, 0) else Consuming(0));
    }

    /** Thread k runs up to and including its next shared access. */
    method Step(k: nat, lose: bool)
      requires Valid() && k < |progs|
      modifies this, queue, queue.buffer
      ensures Valid() && queue.buffer == old(queue.buffer)
      ensures View() == Turned(old(View()), Turn(k, lose))
    {
      var th := queue.threads[k];
      match progs[k]
      case Producing(i, sum) =>
        if i <= items {
          queue.Step(Label(k, if th.Idle? then CallPush(i) else Advancing(lose)));
          if th.PushStore? { progs := progs[k := Producing(i + 1, sum + 1)]; }
        } else {
          progs := progs[k := Ending(sum)];
        }
      case Ending(sum) =>
        queue.Step(Label(k, if th.Idle? then CallPush(-1) else Advancing(lose)));
        if th.PushStore? { progs := progs[k := Adding(sum)]; }
      case Adding(sum) =>
        total := total + sum;
        progs := progs[k := Done(sum)];
      case Consuming(sum) =>
        queue.Step(Label(k, if th.Idle? then CallPop else Advancing(lose)));
        if th.PopRelease? {
          progs := progs[k := if th.r > 0 then Consuming(sum + 1) else Subtracting(sum)];
        }
      case Subtracting(sum) =>
        total := total - sum;
        progs := progs[k := Done(sum)];
      case Done(_) =>
    }
  }
}
