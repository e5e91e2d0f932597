/** The checksum of nutshell/main.cc is zero after every complete run, and the program never deadlocks. */
module ChecksumProof {
  import opened Masks
  import opened RingQueue
  import opened RingInvariant
  import opened RingRefinement
  import opened RingProgress
  import opened Checksum

  const EndMark: int := -1

  /** What the proof counts: items and end marks pushed, items and end marks popped, and what reached
      `total`. */
  datatype Gauge = Made | Ended | Eaten | Stopped | Settled

  function Sum(xs: seq<int>): int {
    if xs == [] then 0 else Sum(xs[..|xs| - 1]) + xs[|xs| - 1]
  }

  lemma {:induction false} SumUpdate(xs: seq<int>, k: nat, x: int)
    requires k < |xs|
    ensures Sum(xs[k := x]) == Sum(xs) - xs[k] + x
    decreases |xs|
  {
    var n := |xs| - 1;
    if k == n {
      assert xs[k := x][..n] == xs[..n];
    } else {
      SumUpdate(xs[..n], k, x);
      assert xs[k := x][..n] == xs[..n][k := x];
    }
  }

  /** The number of end marks (or of items) among the first m tickets. */
  function Count(ledger: seq<Ticket>, m: nat, ends: bool): nat
    requires m <= |ledger|
  {
    if m == 0 then 0 else Count(ledger, m - 1, ends) + if (ledger[m - 1].item < 0) == ends then 1 else 0
  }

  lemma {:induction m} CountDepends(ledger: seq<Ticket>, ledger': seq<Ticket>, m: nat, ends: bool)
    requires m <= |ledger| && m <= |ledger'|
    requires forall t | 0 <= t < m :: ledger[t].item == ledger'[t].item
    ensures Count(ledger, m, ends) == Count(ledger', m, ends)
  {
  }

  lemma {:induction false} CountMonotone(ledger: seq<Ticket>, m: nat, m': nat, ends: bool)
    requires m <= m' <= |ledger|
    ensures Count(ledger, m, ends) <= Count(ledger, m', ends)
    ensures forall t | m <= t < m' && (ledger[t].item < 0) == ends :: Count(ledger, m, ends) < Count(ledger, m', ends)
    decreases m' - m
  {
    if m < m' { CountMonotone(ledger, m, m' - 1, ends); }
  }

  function Book(g: Gauge, w: Program, ledger: seq<Ticket>): int
    requires 0 <= w.q.out <= |ledger|
  {
    match g
    case Made => Count(ledger, |ledger|, false)
    case Ended => Count(ledger, |ledger|, true)
    case Eaten => Count(ledger, w.q.out, false)
    case Stopped => Count(ledger, w.q.out, true)
    case Settled => w.total
  }

  /** The producer's loop ran to its end. */
  ghost predicate RanAll(items: int, sum: int) {
    if items < 0 then sum == 0 else sum == items
  }

  function One(b: bool): int {
    if b then 1 else 0
  }

  /** Where a thread stands in its queue call, and which ticket it holds. */
  datatype Place = Outside | InPush(item: int, claimed: bool) | InPop | Holding(o: int)

  function PlaceOf(th: Thread): Place {
    match th
    case Idle => Outside
    case PushLoadIn(item) => InPush(item, false)
    case PushTestFull(item, _) => InPush(item, false)
    case PushTestSlot(item, _) => InPush(item, false)
    case PushCas(item, _) => InPush(item, false)
    case PushStore(item, _) => InPush(item, true)
    case PopRead(o) => Holding(o)
    case PopRelease(o, _) => Holding(o)
    case _ => InPop
  }

  function PlaceAt(w: Program, k: nat): Place
    requires w.Shape() && k < |w.progs|
  {
    PlaceOf(w.q.threads[k])
  }

  ghost predicate Claimed(pl: Place) {
    pl.InPush? && pl.claimed
  }

  ghost predicate MarkAt(ledger: seq<Ticket>, t: int) {
    0 <= t < |ledger| && ledger[t].item < 0
  }

  /** What a thread contributes, read off its program point; a claim counts from its
      compare-and-swap on, before the call returns. */
  ghost function Share(g: Gauge, producer: bool, p: Prog, pl: Place, ledger: seq<Ticket>): int {
    match g
    case Made =>
      if p.Producing? then p.sum + One(Claimed(pl))
      else if p.Ending? || p.Adding? || (p.Done? && producer) then p.sum else 0
    case Ended => if p.Ending? then One(Claimed(pl)) else One(p.Adding? || (p.Done? && producer))
    case Eaten =>
      if p.Consuming? then p.sum + One(pl.Holding? && !MarkAt(ledger, pl.o))
      else if p.Subtracting? || (p.Done? && !producer) then p.sum else 0
    case Stopped =>
      if p.Consuming? then One(pl.Holding? && MarkAt(ledger, pl.o)) else One(p.Subtracting? || (p.Done? && !producer))
    case Settled => if !p.Done? then 0 else if producer then p.sum else -p.sum
  }

  /** The thread's place agrees with its program point. */
  ghost predicate Fits(items: int, producer: bool, p: Prog, pl: Place) {
    match p
    case Producing(i, _) => producer && i >= 1 && (pl == Outside || (i <= items && pl.InPush? && pl.item == i))
    case Ending(_) => producer && (pl == Outside || (pl.InPush? && pl.item == EndMark))
    case Adding(_) => producer && pl == Outside
    case Consuming(_) => !producer && !pl.InPush?
    case Subtracting(_) => !producer && pl == Outside
    case Done(_) => pl == Outside
  }

  /** The loop counter of a producer, and its sum when the loop has ended. */
  ghost predicate Counted(items: int, producer: bool, p: Prog) {
    match p
    case Producing(i, sum) => sum == i - 1 && (i == 1 || i <= items + 1)
    case Ending(sum) => RanAll(items, sum)
    case Adding(sum) => RanAll(items, sum)
    case Done(sum) => producer ==> RanAll(items, sum)
    case _ => true
  }

  ghost function ShareOf(g: Gauge, w: Program, ledger: seq<Ticket>, k: nat): int
    requires w.Shape() && k < |w.progs|
  {
    Share(g, IsProducer(k), w.progs[k], PlaceAt(w, k), ledger)
  }

  ghost function Shares(g: Gauge, w: Program, ledger: seq<Ticket>): (xs: seq<int>)
    requires w.Shape()
    ensures |xs| == |w.progs| && forall k | 0 <= k < |xs| :: xs[k] == ShareOf(g, w, ledger, k)
  {
    seq(|w.progs|, k requires 0 <= k < |w.progs| => ShareOf(g, w, ledger, k))
  }

  ghost predicate ProgOk(w: Program, k: nat)
    requires w.Shape() && k < |w.progs|
  {
    Fits(w.items, IsProducer(k), w.progs[k], PlaceAt(w, k)) && Counted(w.items, IsProducer(k), w.progs[k])
  }

  /** End marks are the only negative items, and each is the last ticket of its producer. */
  ghost predicate TicketsOk(n: nat, ledger: seq<Ticket>) {
    && (forall t | 0 <= t < |ledger| ::
          && (ledger[t].item > 0 || ledger[t].item == EndMark)
          && ledger[t].pusher < n && IsProducer(ledger[t].pusher))
    && (forall t, u | 0 <= t < u < |ledger| && ledger[t].pusher == ledger[u].pusher :: ledger[t].item > 0)
  }

  ghost predicate MarkOf(ledger: seq<Ticket>, t: int, k: nat) {
    0 <= t < |ledger| && ledger[t].pusher == k && ledger[t].item == EndMark
  }

  ghost predicate HasMark(ledger: seq<Ticket>, k: nat) {
    exists t :: MarkOf(ledger, t, k)
  }

  /** A producer has an end mark in the ledger exactly from its claim on. */
  ghost predicate MarksOk(w: Program, ledger: seq<Ticket>)
    requires w.Shape()
  {
    forall k: nat | k < |w.progs| && IsProducer(k) ::
      ShareOf(Ended, w, ledger, k) == 1 <==> HasMark(ledger, k)
  }

  ghost predicate ProgramInv(w: Program, ledger: seq<Ticket>) {
    && w.Shape() && Inv(w.q, ledger)
    && (forall k: nat | k < |w.progs| :: ProgOk(w, k))
    && TicketsOk(|w.progs|, ledger)
    && MarksOk(w, ledger)
    && forall g: Gauge :: Sum(Shares(g, w, ledger)) == Book(g, w, ledger)
  }

  // ----- One turn, seen from the moving thread -----

  ghost predicate Grows(ledger: seq<Ticket>, ledger': seq<Ticket>) {
    && |ledger| <= |ledger'|
    && forall t | 0 <= t < |ledger| :: ledger'[t].item == ledger[t].item && ledger'[t].pusher == ledger[t].pusher
  }

  /** A turn inside `push`: the thread stays in the call for the same item, owns a ticket from its
      claim on, and leaves by its store. */
  ghost predicate PushTurn(pl: Place, pl': Place, item: int, e: Event) {
    && (pl' == Outside || (pl'.InPush? && pl'.item == item))
    && !e.PopReturned? && (e == PushReturned <==> Claimed(pl))
    && (Claimed(pl) ==> pl' == Outside)
  }

  /** A turn inside `pop`: the thread owns a ticket from its compare-and-swap on, and leaves with the
      item of that ticket. */
  ghost predicate PopTurn(pl: Place, pl': Place, ledger: seq<Ticket>, e: Event) {
    && !pl'.InPush? && e != PushReturned
    && (e.PopReturned? ==> pl.Holding? && pl' == Outside && 0 <= pl.o < |ledger| && e == PopReturned(ledger[pl.o].item))
    && (pl.Holding? && !e.PopReturned? ==> pl' == pl)
  }

  lemma CountedMoves(items: int, producer: bool, p: Prog, pl: Place, e: Event)
    requires Fits(items, producer, p, pl) && Counted(items, producer, p)
    requires e.PushReturned? ==> Claimed(pl)
    ensures Counted(items, producer, ProgAfter(items, p, e))
  {
  }

  /** How the books change when a thread takes its turn. */
  ghost function Gain(g: Gauge, p: Prog, claims: bool, takes: bool, mark: bool): int {
    match g
    case Made => One(p.Producing? && claims)
    case Ended => One(p.Ending? && claims)
    case Eaten => One(p.Consuming? && takes && !mark)
    case Stopped => One(p.Consuming? && takes && mark)
    case Settled => if p.Adding? then p.sum else if p.Subtracting? then -p.sum else 0
  }

  lemma ProducerMoves(g: Gauge, items: int, p: Prog, pl: Place, pl': Place, e: Event,
                      ledger: seq<Ticket>, ledger': seq<Ticket>)
    requires (p.Producing? || p.Ending?) && Fits(items, true, p, pl)
    requires if p.Producing? && p.i > items then pl' == pl && e == Silent
             else PushTurn(pl, pl', if p.Producing? then p.i else EndMark, e)
    ensures Fits(items, true, ProgAfter(items, p, e), pl')
    ensures Share(g, true, ProgAfter(items, p, e), pl', ledger') ==
              Share(g, true, p, pl, ledger) + Gain(g, p, Claimed(pl'), false, false)
  {
  }

  lemma ConsumerMoves(g: Gauge, items: int, p: Prog, pl: Place, pl': Place, e: Event,
                      ledger: seq<Ticket>, ledger': seq<Ticket>)
    requires p.Consuming? && Fits(items, false, p, pl)
    requires PopTurn(pl, pl', ledger, e) && Grows(ledger, ledger')
    requires pl.Holding? ==> 0 <= pl.o < |ledger| && ledger[pl.o].item != 0
    requires pl'.Holding? ==> 0 <= pl'.o < |ledger|
    ensures Fits(items, false, ProgAfter(items, p, e), pl')
    ensures Share(g, false, ProgAfter(items, p, e), pl', ledger') == Share(g, false, p, pl, ledger) +
              Gain(g, p, false, pl'.Holding? && !pl.Holding?, pl'.Holding? && MarkAt(ledger, pl'.o))
  {
  }

  lemma SettlerMoves(g: Gauge, items: int, producer: bool, p: Prog, ledger: seq<Ticket>)
    requires p.Adding? || p.Subtracting? || p.Done?
    requires Fits(items, producer, p, Outside)
    ensures Fits(items, producer, ProgAfter(items, p, Silent), Outside)
    ensures Share(g, producer, ProgAfter(items, p, Silent), Outside, ledger) ==
              Share(g, producer, p, Outside, ledger) + Gain(g, p, false, false, false)
  {
  }

  // ----- What the queue does in one turn -----

  lemma PushingQueue(q: State, ledger: seq<Ticket>, k: nat, lose: bool, item: int)
    requires q.Shape() && k < |q.threads| && item != 0 && |ledger| == q.inn
    requires var pl := PlaceOf(q.threads[k]); pl == Outside || (pl.InPush? && pl.item == item)
    ensures var l := Label(k, if q.threads[k].Idle? then CallPush(item) else Advancing(lose));
            var q', ledger' := Next(q, l), Record(q, ledger, l);
            && PushTurn(PlaceOf(q.threads[k]), PlaceOf(q'.threads[k]), item, EventOf(q, l))
            && q'.out == q.out && Grows(ledger, ledger')
            && (if Claimed(PlaceOf(q'.threads[k])) then ledger' == ledger + [Ticket(item, k, Life.Claimed(k))]
                else |ledger'| == |ledger|)
  {
  }

  lemma PoppingQueue(q: State, ledger: seq<Ticket>, k: nat, lose: bool)
    requires q.Shape() && k < |q.threads| && !PlaceOf(q.threads[k]).InPush?
    requires |ledger| == q.inn && ThreadOk(q, ledger, k)
    ensures var l := Label(k, if q.threads[k].Idle? then CallPop else Advancing(lose));
            var q', ledger' := Next(q, l), Record(q, ledger, l);
            var pl, pl' := PlaceOf(q.threads[k]), PlaceOf(q'.threads[k]);
            && PopTurn(pl, pl', ledger, EventOf(q, l))
            && |ledger'| == |ledger| && Grows(ledger, ledger')
            && (pl'.Holding? ==> 0 <= pl'.o < |ledger|)
            && (pl.Holding? ==> 0 <= pl.o < |ledger|)
            && (if pl'.Holding? && !pl.Holding? then q'.out == q.out + 1 && pl'.o == q.out else q'.out == q.out)
  {
  }

  // ----- One turn of the whole program -----

  ghost predicate ClaimsNow(w: Program, w': Program, k: nat)
    requires w.Shape() && w'.Shape() && k < |w.progs| == |w'.progs|
  {
    (w.progs[k].Producing? || w.progs[k].Ending?) && Claimed(PlaceAt(w', k))
  }

  ghost predicate TakesNow(w: Program, w': Program, k: nat)
    requires w.Shape() && w'.Shape() && k < |w.progs| == |w'.progs|
  {
    w.progs[k].Consuming? && PlaceAt(w', k).Holding? && !PlaceAt(w, k).Holding?
  }

  ghost function GainOf(g: Gauge, w: Program, ledger: seq<Ticket>, w': Program, k: nat): int
    requires w.Shape() && w'.Shape() && k < |w.progs| == |w'.progs|
  {
    Gain(g, w.progs[k], ClaimsNow(w, w', k), TakesNow(w, w', k), MarkAt(ledger, w.q.out))
  }

  /** Only thread k moved. */
  ghost predicate Framed(w: Program, w': Program, k: nat)
    requires w.Shape() && w'.Shape() && k < |w.progs| == |w'.progs|
  {
    && w'.items == w.items
    && w'.q.threads == w.q.threads[k := w'.q.threads[k]]
    && w'.progs == w.progs[k := w'.progs[k]]
  }

  /** The counters, the ledger and the total changed as thread k's turn says. */
  ghost predicate Booked(w: Program, ledger: seq<Ticket>, w': Program, ledger': seq<Ticket>, k: nat)
    requires w.Shape() && w'.Shape() && k < |w.progs| == |w'.progs|
  {
    && w'.total == w.total + GainOf(Settled, w, ledger, w', k)
    && Grows(ledger, ledger')
    && (if ClaimsNow(w, w', k)
        then |ledger'| == |ledger| + 1 && ledger'[|ledger|].pusher == k &&
             ledger'[|ledger|].item == (if w.progs[k].Producing? then w.progs[k].i else EndMark)
        else |ledger'| == |ledger|)
    && w'.q.out == w.q.out + One(TakesNow(w, w', k))
  }

  ghost predicate Shared(w: Program, ledger: seq<Ticket>, w': Program, ledger': seq<Ticket>, k: nat)
    requires w.Shape() && w'.Shape() && k < |w.progs| == |w'.progs|
  {
    forall g: Gauge :: ShareOf(g, w', ledger', k) == ShareOf(g, w, ledger, k) + GainOf(g, w, ledger, w', k)
  }

  lemma TurnFrames(w: Program, t: Turn)
    requires w.Shape() && t.thread < |w.progs|
    ensures Framed(w, Turned(w, t), t.thread)
  {
  }

  lemma ProducerTurn(w: Program, ledger: seq<Ticket>, t: Turn)
    requires w.Shape() && |ledger| == w.q.inn && t.thread < |w.progs| && ProgOk(w, t.thread)
    requires w.progs[t.thread].Producing? || w.progs[t.thread].Ending?
    ensures var w', ledger' := Turned(w, t), Record(w.q, ledger, QueueLabel(w, t));
            && ProgOk(w', t.thread)
            && Booked(w, ledger, w', ledger', t.thread)
            && Shared(w, ledger, w', ledger', t.thread)
  {
    var k, l, p := t.thread, QueueLabel(w, t), w.progs[t.thread];
    var pl, pl', ledger' := PlaceAt(w, k), PlaceOf(Next(w.q, l).threads[k]), Record(w.q, ledger, l);
    if p.Ending? || p.i <= w.items {
      PushingQueue(w.q, ledger, k, t.lose, if p.Producing? then p.i else EndMark);
    }
    forall g: Gauge
      ensures ShareOf(g, Turned(w, t), ledger', k) == ShareOf(g, w, ledger, k) + GainOf(g, w, ledger, Turned(w, t), k)
    {
      ProducerMoves(g, w.items, p, pl, pl', EventOf(w.q, l), ledger, ledger');
    }
    ProducerMoves(Made, w.items, p, pl, pl', EventOf(w.q, l), ledger, ledger');
    CountedMoves(w.items, true, p, pl, EventOf(w.q, l));
  }

  lemma ConsumerTurn(w: Program, ledger: seq<Ticket>, t: Turn)
    requires w.Shape() && |ledger| == w.q.inn && t.thread < |w.progs| && ProgOk(w, t.thread)
    requires w.progs[t.thread].Consuming? && ThreadOk(w.q, ledger, t.thread)
    requires forall u | 0 <= u < |ledger| :: ledger[u].item != 0
    ensures var w', ledger' := Turned(w, t), Record(w.q, ledger, QueueLabel(w, t));
            && ProgOk(w', t.thread)
            && Booked(w, ledger, w', ledger', t.thread)
            && Shared(w, ledger, w', ledger', t.thread)
  {
    var k, l, p := t.thread, QueueLabel(w, t), w.progs[t.thread];
    var pl, pl', ledger' := PlaceAt(w, k), PlaceOf(Next(w.q, l).threads[k]), Record(w.q, ledger, l);
    PoppingQueue(w.q, ledger, k, t.lose);
    forall g: Gauge
      ensures ShareOf(g, Turned(w, t), ledger', k) == ShareOf(g, w, ledger, k) + GainOf(g, w, ledger, Turned(w, t), k)
    {
      ConsumerMoves(g, w.items, p, pl, pl', EventOf(w.q, l), ledger, ledger');
    }
    ConsumerMoves(Eaten, w.items, p, pl, pl', EventOf(w.q, l), ledger, ledger');
  }

  lemma SettlerTurn(w: Program, ledger: seq<Ticket>, t: Turn)
    requires w.Shape() && t.thread < |w.progs| && ProgOk(w, t.thread)
    requires w.progs[t.thread].Adding? || w.progs[t.thread].Subtracting? || w.progs[t.thread].Done?
    ensures var w', ledger' := Turned(w, t), Record(w.q, ledger, QueueLabel(w, t));
            && ProgOk(w', t.thread)
            && Booked(w, ledger, w', ledger', t.thread)
            && Shared(w, ledger, w', ledger', t.thread)
  {
    var k, l := t.thread, QueueLabel(w, t);
    assert Next(w.q, l) == w.q && Record(w.q, ledger, l) == ledger && EventOf(w.q, l) == Silent;
    forall g: Gauge
      ensures ShareOf(g, Turned(w, t), ledger, k) == ShareOf(g, w, ledger, k) + GainOf(g, w, ledger, Turned(w, t), k)
    {
      SettlerMoves(g, w.items, IsProducer(k), w.progs[k], ledger);
    }
    SettlerMoves(Settled, w.items, IsProducer(k), w.progs[k], ledger);
    CountedMoves(w.items, IsProducer(k), w.progs[k], Outside, Silent);
  }

  lemma TurnMoves(w: Program, ledger: seq<Ticket>, t: Turn)
    requires ProgramInv(w, ledger) && t.thread < |w.progs|
    ensures var w', ledger' := Turned(w, t), Record(w.q, ledger, QueueLabel(w, t));
            && ProgOk(w', t.thread)
            && Booked(w, ledger, w', ledger', t.thread)
            && Shared(w, ledger, w', ledger', t.thread)
  {
    assert ProgOk(w, t.thread) && ThreadOk(w.q, ledger, t.thread);
    match w.progs[t.thread]
    case Producing(_, _) => ProducerTurn(w, ledger, t);
    case Ending(_) => ProducerTurn(w, ledger, t);
    case Consuming(_) => ConsumerTurn(w, ledger, t);
    case _ => SettlerTurn(w, ledger, t);
  }

  /** The threads that do not move keep their shares, although the ledger grows. */
  lemma OtherShares(w: Program, ledger: seq<Ticket>, w': Program, ledger': seq<Ticket>, k: nat)
    requires w.Shape() && Inv(w.q, ledger) && w'.Shape() && k < |w.progs| == |w'.progs|
    requires Framed(w, w', k) && Grows(ledger, ledger')
    ensures forall g: Gauge, j: nat | j < |w.progs| && j != k :: ShareOf(g, w', ledger', j) == ShareOf(g, w, ledger, j)
  {
    forall g: Gauge, j: nat | j < |w.progs| && j != k
      ensures ShareOf(g, w', ledger', j) == ShareOf(g, w, ledger, j)
    {
      assert ThreadOk(w.q, ledger, j);
      assert w'.progs[j] == w.progs[j] && w'.q.threads[j] == w.q.threads[j];
    }
  }

  /** Counting over a ledger that grew by at most one ticket. */
  lemma CountGrows(ledger: seq<Ticket>, ledger': seq<Ticket>, o: nat, o': nat, ends: bool)
    requires o <= |ledger| <= |ledger'| && o <= o' <= |ledger'| && Grows(ledger, ledger')
    requires |ledger'| <= |ledger| + 1 && o' <= o + 1
    ensures Count(ledger', |ledger'|, ends) == Count(ledger, |ledger|, ends) +
              One(|ledger'| > |ledger| && (ledger'[|ledger|].item < 0) == ends)
    ensures Count(ledger', o', ends) == Count(ledger, o, ends) + One(o' > o && (ledger'[o].item < 0) == ends)
  {
    CountDepends(ledger, ledger', |ledger|, ends);
    CountDepends(ledger, ledger', o, ends);
  }

  /** The books change by the mover's gain. */
  lemma BookStep(g: Gauge, w: Program, ledger: seq<Ticket>, w': Program, ledger': seq<Ticket>, k: nat)
    requires ProgramInv(w, ledger) && w'.Shape() && k < |w.progs| == |w'.progs|
    requires Inv(w'.q, ledger') && Booked(w, ledger, w', ledger', k)
    ensures Book(g, w', ledger') == Book(g, w, ledger) + GainOf(g, w, ledger, w', k)
  {
    assert ProgOk(w, k);
    if g != Settled {
      CountGrows(ledger, ledger', w.q.out, w'.q.out, g == Ended || g == Stopped);
    }
  }

  /** A producer whose end mark is not out yet has pushed only items. */
  lemma NoMarkYet(w: Program, ledger: seq<Ticket>, k: nat)
    requires w.Shape() && TicketsOk(|w.progs|, ledger) && MarksOk(w, ledger)
    requires k < |w.progs| && IsProducer(k) && ShareOf(Ended, w, ledger, k) != 1
    ensures forall t | 0 <= t < |ledger| && ledger[t].pusher == k :: ledger[t].item > 0
  {
    forall t | 0 <= t < |ledger| && ledger[t].pusher == k ensures ledger[t].item > 0 {
      assert !HasMark(ledger, k) && !MarkOf(ledger, t, k);
    }
  }

  lemma ClaimStarts(w: Program, w': Program, k: nat, ledger: seq<Ticket>)
    requires w.Shape() && w'.Shape() && k < |w.progs| == |w'.progs| && ProgOk(w, k)
    requires ClaimsNow(w, w', k) && !Claimed(PlaceAt(w, k))
    ensures IsProducer(k) && ShareOf(Ended, w, ledger, k) == 0
    ensures w.progs[k].Producing? ==> w.progs[k].i > 0
  {
  }

  lemma TicketAdded(n: nat, ledger: seq<Ticket>, ledger': seq<Ticket>, k: nat)
    requires TicketsOk(n, ledger) && Grows(ledger, ledger') && |ledger'| == |ledger| + 1
    requires k < n && IsProducer(k) && ledger'[|ledger|].pusher == k
    requires ledger'[|ledger|].item > 0 || ledger'[|ledger|].item == EndMark
    requires forall t | 0 <= t < |ledger| && ledger[t].pusher == k :: ledger[t].item > 0
    ensures TicketsOk(n, ledger')
  {
  }

  lemma TicketsKept(n: nat, ledger: seq<Ticket>, ledger': seq<Ticket>)
    requires TicketsOk(n, ledger) && Grows(ledger, ledger') && |ledger'| == |ledger|
    ensures TicketsOk(n, ledger')
  {
  }

  lemma TicketsStep(w: Program, ledger: seq<Ticket>, w': Program, ledger': seq<Ticket>, k: nat)
    requires w.Shape() && TicketsOk(|w.progs|, ledger) && MarksOk(w, ledger)
    requires w'.Shape() && k < |w.progs| == |w'.progs| && ProgOk(w, k)
    requires Booked(w, ledger, w', ledger', k) && (ClaimsNow(w, w', k) ==> !Claimed(PlaceAt(w, k)))
    ensures TicketsOk(|w.progs|, ledger')
  {
    if ClaimsNow(w, w', k) {
      ClaimStarts(w, w', k, ledger);
      NoMarkYet(w, ledger, k);
      TicketAdded(|w.progs|, ledger, ledger', k);
    } else {
      TicketsKept(|w.progs|, ledger, ledger');
    }
  }

  /** New tickets are the only new end marks. */
  lemma MarksGrow(ledger: seq<Ticket>, ledger': seq<Ticket>, j: nat)
    requires Grows(ledger, ledger')
    ensures HasMark(ledger, j) ==> HasMark(ledger', j)
    ensures |ledger'| == |ledger| ==> (HasMark(ledger', j) <==> HasMark(ledger, j))
    ensures |ledger'| == |ledger| + 1 ==> (HasMark(ledger', j) <==> HasMark(ledger, j) || MarkOf(ledger', |ledger|, j))
  {
    if t :| MarkOf(ledger, t, j) { assert MarkOf(ledger', t, j); }
    if t :| MarkOf(ledger', t, j) { assert t < |ledger| ==> MarkOf(ledger, t, j); }
  }

  lemma EndedStep(w: Program, ledger: seq<Ticket>, w': Program, ledger': seq<Ticket>, k: nat)
    requires w.Shape() && w'.Shape() && k < |w.progs| == |w'.progs| && ProgOk(w, k)
    requires Shared(w, ledger, w', ledger', k) && (ClaimsNow(w, w', k) ==> !Claimed(PlaceAt(w, k)))
    ensures ShareOf(Ended, w', ledger', k) == 1 <==>
              ShareOf(Ended, w, ledger, k) == 1 || (ClaimsNow(w, w', k) && w.progs[k].Ending?)
  {
  }

  lemma MarksStep(w: Program, ledger: seq<Ticket>, w': Program, ledger': seq<Ticket>, k: nat, marks: bool)
    requires w.Shape() && MarksOk(w, ledger)
    requires w'.Shape() && k < |w.progs| == |w'.progs|
    requires Grows(ledger, ledger') && |ledger'| <= |ledger| + 1
    requires |ledger'| == |ledger| + 1 ==> ledger'[|ledger|].pusher == k
    requires marks <==> |ledger'| == |ledger| + 1 && ledger'[|ledger|].item == EndMark
    requires ShareOf(Ended, w', ledger', k) == 1 <==> ShareOf(Ended, w, ledger, k) == 1 || marks
    requires forall j: nat | j < |w.progs| && j != k :: ShareOf(Ended, w', ledger', j) == ShareOf(Ended, w, ledger, j)
    ensures MarksOk(w', ledger')
  {
    forall j: nat | j < |w'.progs| && IsProducer(j)
      ensures ShareOf(Ended, w', ledger', j) == 1 <==> HasMark(ledger', j)
    {
      MarksGrow(ledger, ledger', j);
    }
  }

  lemma ClaimIsFresh(w: Program, t: Turn)
    requires w.Shape() && t.thread < |w.progs| && ProgOk(w, t.thread)
    ensures ClaimsNow(w, Turned(w, t), t.thread) ==> !Claimed(PlaceAt(w, t.thread))
  {
  }

  lemma SumTurn(w: Program, ledger: seq<Ticket>, t: Turn)
    requires ProgramInv(w, ledger) && t.thread < |w.progs|
    ensures var w', ledger' := Turned(w, t), Record(w.q, ledger, QueueLabel(w, t));
            Inv(w'.q, ledger') && forall g: Gauge :: Sum(Shares(g, w', ledger')) == Book(g, w', ledger')
  {
    var k, w', ledger' := t.thread, Turned(w, t), Record(w.q, ledger, QueueLabel(w, t));
    NextKeepsInv(w.q, ledger, QueueLabel(w, t));
    TurnFrames(w, t);
    TurnMoves(w, ledger, t);
    OtherShares(w, ledger, w', ledger', k);
    forall g: Gauge ensures Sum(Shares(g, w', ledger')) == Book(g, w', ledger') {
      assert Shares(g, w', ledger') == Shares(g, w, ledger)[k := ShareOf(g, w', ledger', k)];
      SumUpdate(Shares(g, w, ledger), k, ShareOf(g, w', ledger', k));
      BookStep(g, w, ledger, w', ledger', k);
    }
  }

  lemma TicketsTurn(w: Program, ledger: seq<Ticket>, t: Turn)
    requires ProgramInv(w, ledger) && t.thread < |w.progs|
    ensures TicketsOk(|w.progs|, Record(w.q, ledger, QueueLabel(w, t)))
  {
    assert ProgOk(w, t.thread);
    TurnMoves(w, ledger, t);
    ClaimIsFresh(w, t);
    TicketsStep(w, ledger, Turned(w, t), Record(w.q, ledger, QueueLabel(w, t)), t.thread);
  }

  lemma MarksTurn(w: Program, ledger: seq<Ticket>, t: Turn)
    requires ProgramInv(w, ledger) && t.thread < |w.progs|
    ensures MarksOk(Turned(w, t), Record(w.q, ledger, QueueLabel(w, t)))
  {
    var k, w', ledger' := t.thread, Turned(w, t), Record(w.q, ledger, QueueLabel(w, t));
    assert ProgOk(w, k);
    TurnFrames(w, t);
    TurnMoves(w, ledger, t);
    ClaimIsFresh(w, t);
    OtherShares(w, ledger, w', ledger', k);
    EndedStep(w, ledger, w', ledger', k);
    if ClaimsNow(w, w', k) { ClaimStarts(w, w', k, ledger); }
    MarksStep(w, ledger, w', ledger', k, ClaimsNow(w, w', k) && w.progs[k].Ending?);
  }

  lemma ProgsTurn(w: Program, ledger: seq<Ticket>, t: Turn)
    requires ProgramInv(w, ledger) && t.thread < |w.progs|
    ensures forall j: nat | j < |w.progs| :: ProgOk(Turned(w, t), j)
  {
    var k, w' := t.thread, Turned(w, t);
    TurnFrames(w, t);
    TurnMoves(w, ledger, t);
    forall j: nat | j < |w.progs| ensures ProgOk(w', j) {
      assert j != k ==> ProgOk(w, j) && w'.progs[j] == w.progs[j] && w'.q.threads[j] == w.q.threads[j];
    }
  }

  /** Every turn of every thread keeps the program invariant. */
  lemma TurnKeepsInv(w: Program, ledger: seq<Ticket>, t: Turn)
    requires ProgramInv(w, ledger)
    ensures ProgramInv(Turned(w, t), Record(w.q, ledger, QueueLabel(w, t)))
  {
    if t.thread < |w.progs| {
      SumTurn(w, ledger, t);
      TicketsTurn(w, ledger, t);
      MarksTurn(w, ledger, t);
      ProgsTurn(w, ledger, t);
    }
  }

  // ----- Whole runs -----

  lemma {:induction false} SumOfZeros(xs: seq<int>)
    requires forall k | 0 <= k < |xs| :: xs[k] == 0
    ensures Sum(xs) == 0
    decreases |xs|
  {
    if xs != [] { SumOfZeros(xs[..|xs| - 1]); }
  }

  lemma StartInv(size: nat, pairs: nat, items: int)
    requires PowerOfTwo(size)
    ensures ProgramInv(Start(size, pairs, items), [])
  {
    var w := Start(size, pairs, items);
    InitialInv(size, 2 * pairs);
    forall g: Gauge ensures Sum(Shares(g, w, [])) == Book(g, w, []) {
      SumOfZeros(Shares(g, w, []));
    }
  }

  lemma {:induction false} PlayKeepsInv(w: Program, turns: seq<Turn>)
    requires ProgramInv(w, [])
    ensures ProgramInv(Play(w, turns), Ledger(w.q, Labels(w, turns)))
    decreases |turns|
  {
    if turns != [] {
      var before, run := turns[..|turns| - 1], Labels(w, turns);
      PlayKeepsInv(w, before);
      TurnKeepsInv(Play(w, before), Ledger(w.q, Labels(w, before)), turns[|turns| - 1]);
      QueueFollows(w, before);
      assert run[..|run| - 1] == Labels(w, before);
    }
  }

  ghost predicate Finished(w: Program) {
    forall k | 0 <= k < |w.progs| :: w.progs[k].Done?
  }

  /** The total over pairs of which one kind holds x and the other 0. */
  lemma {:induction false} SumOfPairs(xs: seq<int>, pairs: nat, odd: int, even: int)
    requires |xs| == 2 * pairs
    requires forall k | 0 <= k < |xs| :: xs[k] == if k % 2 == 1 then odd else even
    ensures Sum(xs) == pairs * (odd + even)
    decreases |xs|
  {
    if pairs > 0 {
      var n := |xs|;
      SumOfPairs(xs[..n - 2], pairs - 1, odd, even);
      assert xs[..n - 1][..n - 2] == xs[..n - 2];
      assert Sum(xs[..n - 1]) == Sum(xs[..n - 2]) + even;
      assert pairs * (odd + even) == (pairs - 1) * (odd + even) + odd + even;
    }
  }

  lemma {:induction false} SumOfDifferences(xs: seq<int>, ys: seq<int>, zs: seq<int>)
    requires |xs| == |ys| == |zs|
    requires forall k | 0 <= k < |xs| :: xs[k] == ys[k] - zs[k]
    ensures Sum(xs) == Sum(ys) - Sum(zs)
    decreases |xs|
  {
    if xs != [] {
      var n := |xs| - 1;
      SumOfDifferences(xs[..n], ys[..n], zs[..n]);
    }
  }

  lemma {:induction false} CountBoth(ledger: seq<Ticket>, m: nat)
    requires m <= |ledger|
    ensures Count(ledger, m, false) + Count(ledger, m, true) == m
    decreases m
  {
    if m > 0 { CountBoth(ledger, m - 1); }
  }

  /** When as many end marks were popped as pushed, nothing is left: the last ticket belongs to a
      producer whose end mark comes after all its items. */
  lemma NothingLeft(w: Program, ledger: seq<Ticket>)
    requires ProgramInv(w, ledger) && Finished(w)
    requires Count(ledger, |ledger|, true) == Count(ledger, w.q.out, true)
    ensures w.q.out == w.q.inn
  {
    if w.q.out < w.q.inn {
      var last := |ledger| - 1;
      var p := ledger[last].pusher;
      assert ShareOf(Ended, w, ledger, p) == 1;
      assert HasMark(ledger, p);
      var t :| MarkOf(ledger, t, p);
      CountMonotone(ledger, w.q.out, |ledger|, true);
      assert false;
    }
  }

  lemma BookOfPairs(g: Gauge, w: Program, ledger: seq<Ticket>, pairs: nat, odd: int, even: int)
    requires ProgramInv(w, ledger) && |w.progs| == 2 * pairs
    requires forall k | 0 <= k < |w.progs| :: ShareOf(g, w, ledger, k) == if k % 2 == 1 then odd else even
    ensures Book(g, w, ledger) == pairs * (odd + even)
  {
    SumOfPairs(Shares(g, w, ledger), pairs, odd, even);
  }

  lemma ItemsMade(w: Program, ledger: seq<Ticket>, pairs: nat)
    requires ProgramInv(w, ledger) && Finished(w) && |w.progs| == 2 * pairs
    ensures Book(Made, w, ledger) == pairs * if w.items < 0 then 0 else w.items
  {
    var goal := if w.items < 0 then 0 else w.items;
    forall k | 0 <= k < |w.progs| ensures ShareOf(Made, w, ledger, k) == if k % 2 == 1 then goal else 0 {
      assert ProgOk(w, k);
    }
    BookOfPairs(Made, w, ledger, pairs, goal, 0);
  }

  lemma TotalIsDifference(w: Program, ledger: seq<Ticket>)
    requires ProgramInv(w, ledger) && Finished(w)
    ensures Book(Settled, w, ledger) == Book(Made, w, ledger) - Book(Eaten, w, ledger)
  {
    SumOfDifferences(Shares(Settled, w, ledger), Shares(Made, w, ledger), Shares(Eaten, w, ledger));
  }

  lemma FinalBooks(w: Program, ledger: seq<Ticket>, pairs: nat)
    requires ProgramInv(w, ledger) && Finished(w) && |w.progs| == 2 * pairs
    ensures Book(Ended, w, ledger) == Book(Stopped, w, ledger)
    ensures Book(Made, w, ledger) + Book(Ended, w, ledger) == pairs * (1 + if w.items < 0 then 0 else w.items)
    ensures Book(Settled, w, ledger) == Book(Made, w, ledger) - Book(Eaten, w, ledger)
  {
    var goal := if w.items < 0 then 0 else w.items;
    ItemsMade(w, ledger, pairs);
    MarksComplete(Ended, w, ledger, pairs);
    MarksComplete(Stopped, w, ledger, pairs);
    TotalIsDifference(w, ledger);
    assert pairs * (1 + goal) == pairs * goal + pairs;
  }

  lemma BooksBalance(w: Program, ledger: seq<Ticket>, pairs: nat)
    requires ProgramInv(w, ledger) && Finished(w) && |w.progs| == 2 * pairs
    ensures w.total == 0 && w.q.inn == w.q.out == pairs * (1 + if w.items < 0 then 0 else w.items)
    ensures forall k | 0 <= k < |w.progs| :: w.q.threads[k].Idle?
  {
    FinalBooks(w, ledger, pairs);
    NothingLeft(w, ledger);
    CountBoth(ledger, |ledger|);
    forall k | 0 <= k < |w.progs| ensures w.q.threads[k].Idle? {
      assert ProgOk(w, k);
    }
  }

  /** In every complete run, with any schedule, `total` is zero, everything pushed was popped, and the
      ring is clean again. */
  lemma ChecksumIsZero(size: nat, pairs: nat, items: int, turns: seq<Turn>)
    requires PowerOfTwo(size)
    requires Finished(Play(Start(size, pairs, items), turns))
    ensures var w := Play(Start(size, pairs, items), turns);
            && w.total == 0
            && w.q.inn == w.q.out == pairs * (1 + if items < 0 then 0 else items)
    ensures var q := Exec(Initial(size, 2 * pairs), Labels(Start(size, pairs, items), turns));
            && q == Play(Start(size, pairs, items), turns).q
            && forall t | q.inn - size <= t < q.inn :: q.buffer[Slot(size, t)] == 0
  {
    var w0 := Start(size, pairs, items);
    StartInv(size, pairs, items);
    PlayKeepsInv(w0, turns);
    BooksBalance(Play(w0, turns), Ledger(w0.q, Labels(w0, turns)), pairs);
    QueueFollows(w0, turns);
    QuiescentQueue(size, 2 * pairs, Labels(w0, turns));
  }

  // ----- Each consumer takes exactly one end mark -----

  /** How many items (or end marks) thread k has been given. */
  function Given(ds: seq<Delivery>, k: nat, ends: bool): nat {
    if ds == [] then 0 else
    var d := ds[|ds| - 1];
    Given(ds[..|ds| - 1], k, ends) + if d.popper == k && (d.value < 0) == ends then 1 else 0
  }

  ghost predicate LogOk(p: Prog, ds: seq<Delivery>, k: nat) {
    match p
    case Consuming(sum) => Given(ds, k, false) == sum && Given(ds, k, true) == 0
    case Subtracting(sum) => Given(ds, k, false) == sum && Given(ds, k, true) == 1
    case Done(sum) => Given(ds, k, false) == sum && Given(ds, k, true) == 1
    case _ => false
  }

  lemma LogStep(w: Program, ledger: seq<Ticket>, t: Turn, ds: seq<Delivery>, ds': seq<Delivery>, k: nat)
    requires ProgramInv(w, ledger) && k < |w.progs| && !IsProducer(k) && LogOk(w.progs[k], ds, k)
    requires t.thread < |w.progs|
    requires var th := w.q.threads[t.thread];
             ds' == ds + if th.PopRelease? && QueueLabel(w, t).thread == t.thread
                         then [Delivery(th.o, th.r, t.thread)] else []
    ensures LogOk(Turned(w, t).progs[k], ds', k)
  {
    assert ProgOk(w, t.thread) && ThreadOk(w.q, ledger, t.thread);
    if |ds'| > |ds| { assert ds'[..|ds|] == ds; } else { assert ds' == ds; }
  }

  /** A turn delivers at most what the moving thread's pop returns. */
  lemma TurnDelivers(w: Program, turns: seq<Turn>)
    requires w.Shape() && turns != []
    ensures var before, t := turns[..|turns| - 1], turns[|turns| - 1];
            var w1, ds := Play(w, before), Deliveries(w.q, Labels(w, before));
            Deliveries(w.q, Labels(w, turns)) ==
            ds + if t.thread < |w1.q.threads| && w1.q.threads[t.thread].PopRelease? &&
                    QueueLabel(w1, t).thread == t.thread
                 then [Delivery(w1.q.threads[t.thread].o, w1.q.threads[t.thread].r, t.thread)] else []
  {
    var before, run := turns[..|turns| - 1], Labels(w, turns);
    QueueFollows(w, before);
    assert run[..|run| - 1] == Labels(w, before);
  }

  lemma {:induction false} LogsKept(w: Program, turns: seq<Turn>, k: nat)
    requires ProgramInv(w, []) && k < |w.progs| && !IsProducer(k) && w.progs[k] == Consuming(0)
    ensures LogOk(Play(w, turns).progs[k], Deliveries(w.q, Labels(w, turns)), k)
    decreases |turns|
  {
    if turns != [] {
      var before, t := turns[..|turns| - 1], turns[|turns| - 1];
      LogsKept(w, before, k);
      PlayKeepsInv(w, before);
      TurnDelivers(w, turns);
      var w1, ds, ds' := Play(w, before), Deliveries(w.q, Labels(w, before)), Deliveries(w.q, Labels(w, turns));
      assert |w1.q.threads| == |w1.progs| == |w.progs|;
      if t.thread < |w.progs| {
        LogStep(w1, Ledger(w.q, Labels(w, before)), t, ds, ds', k);
      } else {
        assert ds' == ds;
      }
      assert Play(w, turns) == Turned(w1, t);
    }
  }

  /** A consumer that has finished was given exactly one end mark, and as many items as it counted. */
  lemma ConsumersStopOnce(size: nat, pairs: nat, items: int, turns: seq<Turn>, k: nat)
    requires PowerOfTwo(size) && k < 2 * pairs && !IsProducer(k)
    requires Play(Start(size, pairs, items), turns).progs[k].Done?
    ensures var w0 := Start(size, pairs, items);
            var ds := Deliveries(w0.q, Labels(w0, turns));
            Given(ds, k, true) == 1 && Given(ds, k, false) == Play(w0, turns).progs[k].sum
  {
    StartInv(size, pairs, items);
    LogsKept(Start(size, pairs, items), turns, k);
  }

  /** A producer's end mark is its last ticket: every item of a producer precedes its own -1. */
  lemma EndMarkComesLast(size: nat, pairs: nat, items: int, turns: seq<Turn>, t: int, u: int)
    requires PowerOfTwo(size)
    requires var w0 := Start(size, pairs, items); var ledger := Ledger(w0.q, Labels(w0, turns));
             0 <= t < |ledger| && 0 <= u < |ledger| && t != u &&
             ledger[t].pusher == ledger[u].pusher && ledger[u].item < 0
    ensures var w0 := Start(size, pairs, items);
            t < u && Ledger(w0.q, Labels(w0, turns))[t].item > 0
  {
    StartInv(size, pairs, items);
    PlayKeepsInv(Start(size, pairs, items), turns);
  }

  // ----- The program never deadlocks -----

  /** Thread k has work left, and can do some of it by itself: take a step outside the queue, or
      finish its queue call. */
  ghost predicate CanWork(w: Program, k: nat)
    requires w.Shape()
  {
    k < |w.progs| && !w.progs[k].Done? && (w.q.threads[k].Idle? || Finishes(w.q, k))
  }

  lemma {:induction false} SumAtMost(xs: seq<int>, ys: seq<int>, k: nat)
    requires k < |xs| == |ys| && xs[k] < ys[k]
    requires forall j | 0 <= j < |xs| :: xs[j] <= ys[j]
    ensures Sum(xs) < Sum(ys)
    decreases |xs|
  {
    var n := |xs| - 1;
    if k < n { SumAtMost(xs[..n], ys[..n], k); } else { SumMonotone(xs[..n], ys[..n]); }
  }

  lemma {:induction false} SumMonotone(xs: seq<int>, ys: seq<int>)
    requires |xs| == |ys| && forall j | 0 <= j < |xs| :: xs[j] <= ys[j]
    ensures Sum(xs) <= Sum(ys)
    decreases |xs|
  {
    if xs != [] { SumMonotone(xs[..|xs| - 1], ys[..|xs| - 1]); }
  }

  /** A finished side has handled all end marks, an unfinished one has not. */
  lemma MarksMissing(g: Gauge, w: Program, ledger: seq<Ticket>, pairs: nat, k: nat)
    requires ProgramInv(w, ledger) && |w.progs| == 2 * pairs && k < |w.progs|
    requires g == Ended || g == Stopped
    requires IsProducer(k) == (g == Ended) && ShareOf(g, w, ledger, k) == 0
    ensures Book(g, w, ledger) < pairs
  {
    var odd, even := if g == Ended then 1 else 0, if g == Ended then 0 else 1;
    var full := seq(2 * pairs, j => if j % 2 == 1 then odd else even);
    forall j | 0 <= j < 2 * pairs ensures Shares(g, w, ledger)[j] <= full[j] {
      assert ProgOk(w, j);
    }
    SumAtMost(Shares(g, w, ledger), full, k);
    SumOfPairs(full, pairs, odd, even);
  }

  lemma MarksComplete(g: Gauge, w: Program, ledger: seq<Ticket>, pairs: nat)
    requires ProgramInv(w, ledger) && |w.progs| == 2 * pairs
    requires g == Ended || g == Stopped
    requires forall k | 0 <= k < |w.progs| && IsProducer(k) == (g == Ended) :: w.progs[k].Done?
    ensures Book(g, w, ledger) == pairs
  {
    forall k | 0 <= k < |w.progs|
      ensures ShareOf(g, w, ledger, k) == if (k % 2 == 1) == (g == Ended) then 1 else 0
    {
      assert ProgOk(w, k);
    }
    BookOfPairs(g, w, ledger, pairs, if g == Ended then 1 else 0, if g == Ended then 0 else 1);
  }

  /** In every reachable state of the program with a thread that is not done, some thread can work:
      producers are never left alone with a full queue, nor consumers with an empty one. */
  lemma ProgramNeverDeadlocks(size: nat, pairs: nat, items: int, turns: seq<Turn>)
    requires PowerOfTwo(size)
    requires !Finished(Play(Start(size, pairs, items), turns))
    ensures exists k: nat :: CanWork(Play(Start(size, pairs, items), turns), k)
  {
    var w0 := Start(size, pairs, items);
    var w, run := Play(w0, turns), Labels(w0, turns);
    var ledger := Ledger(w0.q, run);
    StartInv(size, pairs, items);
    PlayKeepsInv(w0, turns);
    QueueFollows(w0, turns);
    var k: nat :| k < |w.progs| && !w.progs[k].Done?;
    if !w.q.threads[k].Idle? {
      assert InCall(w.q, k);
      DeadlockFree(w.q, size, 2 * pairs, run);
      if Stuck(w.q) {
        StuckHasIdleWorker(w, ledger, pairs, k);
      } else {
        var j: nat :| InCall(w.q, j) && Finishes(w.q, j);
        assert ProgOk(w, j);
        assert CanWork(w, j);
      }
    } else {
      assert CanWork(w, k);
    }
  }

  lemma StuckHasIdleWorker(w: Program, ledger: seq<Ticket>, pairs: nat, k: nat)
    requires ProgramInv(w, ledger) && |w.progs| == 2 * pairs && Stuck(w.q) && InCall(w.q, k)
    ensures exists j: nat :: CanWork(w, j)
  {
    assert ProgOk(w, k);
    if forall j: nat :: !CanWork(w, j) {
      forall j: nat | j < |w.progs| && !w.progs[j].Done? ensures InCall(w.q, j) {
        assert !CanWork(w, j);
      }
      forall j: nat | j < |w.progs| && w.progs[j].Done? ensures !InCall(w.q, j) {
        assert ProgOk(w, j);
      }
      if Offering(w.q.threads[k]) {
        OnlyProducersStuck(w, ledger, pairs, k);
      } else {
        OnlyConsumersStuck(w, ledger, pairs, k);
      }
    }
  }

  /** Producers alone cannot be stuck: every end mark would have been popped before some were pushed. */
  lemma OnlyProducersStuck(w: Program, ledger: seq<Ticket>, pairs: nat, k: nat)
    requires ProgramInv(w, ledger) && |w.progs| == 2 * pairs
    requires forall j: nat | j < |w.progs| :: InCall(w.q, j) <==> !w.progs[j].Done?
    requires InCall(w.q, k) && Offering(w.q.threads[k])
    ensures exists j: nat :: InCall(w.q, j) && !Offering(w.q.threads[j])
  {
    if forall j: nat | InCall(w.q, j) :: Offering(w.q.threads[j]) {
      forall j: nat | j < |w.progs| && !IsProducer(j) ensures w.progs[j].Done? {
        assert ProgOk(w, j);
      }
      assert ProgOk(w, k);
      MarksComplete(Stopped, w, ledger, pairs);
      MarksMissing(Ended, w, ledger, pairs, k);
      CountMonotone(ledger, w.q.out, |ledger|, true);
    }
  }

  /** Consumers alone cannot be stuck at an empty queue: every producer's end mark has been popped. */
  lemma OnlyConsumersStuck(w: Program, ledger: seq<Ticket>, pairs: nat, k: nat)
    requires ProgramInv(w, ledger) && |w.progs| == 2 * pairs && w.q.inn == w.q.out
    requires forall j: nat | j < |w.progs| :: InCall(w.q, j) <==> !w.progs[j].Done?
    requires InCall(w.q, k) && Seeking(w.q.threads[k])
    ensures exists j: nat :: InCall(w.q, j) && !Seeking(w.q.threads[j])
  {
    if forall j: nat | InCall(w.q, j) :: Seeking(w.q.threads[j]) {
      forall j: nat | j < |w.progs| && IsProducer(j) ensures w.progs[j].Done? {
        assert ProgOk(w, j);
      }
      assert ProgOk(w, k);
      MarksComplete(Ended, w, ledger, pairs);
      MarksMissing(Stopped, w, ledger, pairs, k);
    }
  }
}
