/**
 * The background event shipper: producers enqueue, one worker takes items in order, batches events, flushes
 * the batch before anything that is not an event, and retries each HTTP submission a bounded number of times.
 */
module Shipper {
  import opened Wrappers

  datatype Payload = StartExecution(id: nat) | EndExecution(id: nat) | Event(id: nat)

  /** A queue entry: something to send, or a flush barrier holding the signal to set. */
  datatype Item = Work(payload: Payload) | Barrier(signal: nat)

  /** One HTTP submission. */
  datatype Submission = Batch(events: seq<Payload>) | Single(payload: Payload)

  datatype Response = Status(code: int) | NetworkError

  datatype Outcome = Delivered | Rejected | Exhausted

  datatype Finished = Finished(sub: Submission, outcome: Outcome)

  // ----- what became of the items

  function Works(items: seq<Item>): seq<Payload> {
    if items == [] then []
    else
      Works(items[..|items| - 1]) + match items[|items| - 1] case Work(p) => [p] case Barrier(_) => []
  }

  function PayloadsOf(sub: Submission): seq<Payload> {
    match sub case Batch(events) => events case Single(p) => [p]
  }

  function Flatten(finished: seq<Finished>): seq<Payload> {
    if finished == [] then [] else Flatten(finished[..|finished| - 1]) + PayloadsOf(finished[|finished| - 1].sub)
  }

  function Count(finished: seq<Finished>, o: Outcome): nat {
    if finished == [] then 0
    else Count(finished[..|finished| - 1], o) + if finished[|finished| - 1].outcome == o then 1 else 0
  }

  lemma WorksAppend(items: seq<Item>, item: Item)
    ensures Works(items + [item]) == Works(items) + match item case Work(p) => [p] case Barrier(_) => []
  {
    assert (items + [item])[..|items|] == items;
  }

  lemma FlattenAppend(finished: seq<Finished>, f: Finished)
    ensures Flatten(finished + [f]) == Flatten(finished) + PayloadsOf(f.sub)
    ensures forall o :: Count(finished + [f], o) == Count(finished, o) + if f.outcome == o then 1 else 0
  {
    assert (finished + [f])[..|finished|] == finished;
  }

  /** Every submission that finished is counted under exactly one outcome. */
  lemma {:induction false} CountsAddUp(finished: seq<Finished>)
    ensures Count(finished, Delivered) + Count(finished, Rejected) + Count(finished, Exhausted) == |finished|
  {
    if finished != [] {
      CountsAddUp(finished[..|finished| - 1]);
    }
  }

  // ----- one submission with its retries

  /** A server error or no answer at all; anything else settles the submission. */
  predicate Transient(r: Response) {
    r.NetworkError? || r.code >= 500
  }

  /** The wait before each retry is looked up in a table of three. */
  const BACKOFFS := 3

  datatype Delivery = Settled(outcome: Outcome) | WorkerDied

  /** What a submission comes to, from the given attempt on. */
  function DeliveryFrom(maxRetries: int, respond: nat -> Response, attempt: nat): Delivery
    decreases maxRetries - attempt
  {
    if attempt > maxRetries then Settled(Exhausted)
    else
      var r := respond(attempt);
      if !Transient(r) then Settled(if r.code < 400 then Delivered else Rejected)
      else if attempt < maxRetries && attempt >= BACKOFFS then WorkerDied
      else DeliveryFrom(maxRetries, respond, attempt + 1)
  }

  ghost predicate TransientBefore(respond: nat -> Response, n: int) {
    forall a: nat :: a < n ==> Transient(respond(a))
  }

  /** The first n answers were none at all or server errors. */
  ghost predicate NoneSettled(respond: nat -> Response, n: int) {
    forall a: nat :: a < n ==> respond(a) == NetworkError || (respond(a).Status? && respond(a).code >= 500)
  }

  /**
   * In terms of the answers: an answer below 400 after none but failures is a delivery, one from 400 to 499 a
   * rejection; failures only exhaust the submission, or kill the worker when a fourth retry has no wait to look up.
   */
  lemma SubmissionOutcome(maxRetries: int, respond: nat -> Response)
    ensures var d := DeliveryFrom(maxRetries, respond, 0);
      && (d == WorkerDied <==> maxRetries > 3 && NoneSettled(respond, 4))
      && (d == Settled(Exhausted) <==> maxRetries <= 3 && NoneSettled(respond, maxRetries + 1))
      && (d == Settled(Delivered) ==> exists a: nat ::
            a <= maxRetries && NoneSettled(respond, a) && respond(a).Status? && respond(a).code < 400)
      && (d == Settled(Rejected) ==> exists a: nat ::
            a <= maxRetries && NoneSettled(respond, a) && respond(a).Status? && 400 <= respond(a).code < 500)
  {
    DeliveryMeans(maxRetries, respond, 0);
    forall n: int
      ensures NoneSettled(respond, n) <==> TransientBefore(respond, n)
    {
    }
  }

  /** The first settling answer decides; only a fourth transient one with retries still to go kills the worker. */
  lemma {:induction false} DeliveryMeans(maxRetries: int, respond: nat -> Response, attempt: nat)
    requires TransientBefore(respond, attempt) && attempt <= BACKOFFS + 1
    requires maxRetries > BACKOFFS ==> attempt <= BACKOFFS
    ensures var d := DeliveryFrom(maxRetries, respond, attempt);
      && (d.WorkerDied? <==> maxRetries > BACKOFFS && TransientBefore(respond, BACKOFFS + 1))
      && (d == Settled(Exhausted) <==> maxRetries <= BACKOFFS && TransientBefore(respond, maxRetries + 1))
      && (d == Settled(Delivered) || d == Settled(Rejected) ==>
            exists a: nat :: a <= maxRetries && TransientBefore(respond, a) && !Transient(respond(a))
                          && (d == Settled(Delivered) <==> respond(a).code < 400))
    decreases maxRetries - attempt
  {
    if attempt <= maxRetries {
      if Transient(respond(attempt)) {
        assert TransientBefore(respond, attempt + 1);
        if attempt < BACKOFFS || attempt == maxRetries {
          DeliveryMeans(maxRetries, respond, attempt + 1);
        }
      } else {
        assert !TransientBefore(respond, attempt + 1);
        assert attempt < BACKOFFS + 1 ==> !TransientBefore(respond, BACKOFFS + 1);
      }
    }
  }

  // ----- the shipper

  /** A producer's call: submit something, or ask for a flush barrier. */
  datatype Request = Submit(payload: Payload) | AskFlush

  /** What the outside world does around one HTTP submission: its answers, and the calls arriving after each. */
  datatype Call = Call(respond: nat -> Response, arrive: nat -> seq<Request>)

  /** What it does around one turn of the worker's loop. */
  datatype Turn = Turn(before: seq<Request>, shutdown: bool, meanwhile: seq<Request>, flush: Call, send: Call)

  /** Nobody calls while the submission is under way. */
  ghost predicate QuietCall(call: Call) {
    forall a: nat :: call.arrive(a) == []
  }

  ghost predicate QuietTurn(turn: Turn) {
    turn.before == [] && turn.meanwhile == [] && QuietCall(turn.flush) && QuietCall(turn.send)
  }

  function Sent(subs: seq<Submission>): seq<Payload> {
    if subs == [] then [] else PayloadsOf(subs[0]) + Sent(subs[1..])
  }

  /**
   * What a turn sends and keeps is what was pending and then what it took, in that order. Only an event below the
   * batch size is kept; a timeout, a barrier and anything that is not an event leave nothing pending, and what is
   * not an event goes out alone and last.
   */
  lemma TurnMeans(queue: seq<Item>, pending: seq<Payload>, batchSize: int)
    ensures Sent(Submissions(queue, pending, batchSize)) + Kept(queue, pending, batchSize)
         == pending + if queue != [] && queue[0].Work? then [queue[0].payload] else []
    ensures queue == [] || queue[0].Barrier? ==>
              Kept(queue, pending, batchSize) == [] && |Submissions(queue, pending, batchSize)| <= 1
    ensures queue != [] && queue[0].Work? && queue[0].payload.Event? ==>
              (Submissions(queue, pending, batchSize) == [] <==> |pending| + 1 < batchSize)
    ensures queue != [] && queue[0].Work? && !queue[0].payload.Event? ==>
              var subs := Submissions(queue, pending, batchSize);
              |subs| == (if pending == [] then 1 else 2) && subs[|subs| - 1] == Single(queue[0].payload)
  {
    assert forall s: Submission :: Sent([s]) == PayloadsOf(s) + Sent([]);
    assert forall s: Submission, r: Submission :: [s, r][1..] == [r];
  }

  ghost predicate Undisturbed(turns: seq<Turn>) {
    forall i :: 0 <= i < |turns| ==> QuietTurn(turns[i])
  }

  lemma QuietAt(turns: seq<Turn>, i: nat)
    requires i < |turns|
    ensures Undisturbed(turns) ==> QuietTurn(turns[i]) && turns[i].before == [] && turns[i].meanwhile == []
  {
  }

  /** The submissions one turn makes, given the queue it finds and the batch pending. */
  function Submissions(queue: seq<Item>, pending: seq<Payload>, batchSize: int): seq<Submission> {
    var batch := if pending == [] then [] else [Batch(pending)];
    if queue == [] then batch
    else
      match queue[0]
      case Barrier(_) => batch
      case Work(Event(e)) => if |pending| + 1 >= batchSize then [Batch(pending + [Event(e)])] else []
      case Work(p) => batch + [Single(p)]
  }

  /** The batch pending after the turn. */
  function Kept(queue: seq<Item>, pending: seq<Payload>, batchSize: int): seq<Payload> {
    if queue != [] && queue[0].Work? && queue[0].payload.Event? && |pending| + 1 < batchSize
    then pending + [queue[0].payload] else []
  }

  /** `subs` have finished since, in this order and nothing else. */
  ghost predicate Finishing(before: seq<Finished>, after: seq<Finished>, subs: seq<Submission>) {
    && |after| == |before| + |subs| && before <= after
    && forall i :: 0 <= i < |subs| ==> after[|before| + i].sub == subs[i]
  }

  lemma FinishingOne(before: seq<Finished>, f: Finished)
    ensures Finishing(before, before + [f], [f.sub])
  {
  }

  lemma FinishingNone(before: seq<Finished>)
    ensures Finishing(before, before, [])
  {
  }

  lemma FinishingThen(a: seq<Finished>, b: seq<Finished>, subs: seq<Submission>, f: Finished)
    requires Finishing(a, b, subs)
    ensures Finishing(a, b + [f], subs + [f.sub])
  {
    var c, more := b + [f], subs + [f.sub];
    forall i | 0 <= i < |more|
      ensures c[|a| + i].sub == more[i]
    {
      if i < |subs| {
        assert c[|a| + i] == b[|a| + i];
      }
    }
  }

  // ----- barriers

  /**
   * `accepted` is everything enqueued, `taken` how much of it the worker has taken off, `done` what has finished
   * sending. A set signal means everything accepted before its barrier is done.
   */
  ghost predicate Honest(accepted: seq<Item>, taken: nat, done: seq<Payload>, signalled: set<nat>, next: nat) {
    && (forall i :: 0 <= i < |accepted| && accepted[i].Barrier? ==> accepted[i].signal < next)
    && (forall i, j :: 0 <= i < j < |accepted| && accepted[i].Barrier? ==> accepted[i] != accepted[j])
    && (forall s :: s in signalled ==> s < next)
    && (forall i :: 0 <= i < |accepted| ==> BarrierKept(accepted, i, taken, done, signalled))
  }

  ghost predicate BarrierKept(accepted: seq<Item>, i: nat, taken: nat, done: seq<Payload>, signalled: set<nat>)
    requires i < |accepted|
  {
    accepted[i].Barrier? && accepted[i].signal in signalled ==> i < taken && Works(accepted[..i]) <= done
  }

  lemma HonestAccept(
      accepted: seq<Item>, item: Item, taken: nat, done: seq<Payload>, signalled: set<nat>, next: nat, next': nat)
    requires Honest(accepted, taken, done, signalled, next) && next <= next'
    requires item.Barrier? ==> next <= item.signal < next'
    ensures Honest(accepted + [item], taken, done, signalled, next')
  {
    var longer := accepted + [item];
    forall i | 0 <= i < |longer|
      ensures BarrierKept(longer, i, taken, done, signalled)
    {
      if i < |accepted| {
        assert BarrierKept(accepted, i, taken, done, signalled);
        assert longer[..i] == accepted[..i];
      }
    }
  }

  lemma HonestProgress(
      accepted: seq<Item>, taken: nat, taken': nat, done: seq<Payload>, done': seq<Payload>, signalled: set<nat>,
      next: nat)
    requires Honest(accepted, taken, done, signalled, next) && taken <= taken' && done <= done'
    ensures Honest(accepted, taken', done', signalled, next)
  {
    forall i | 0 <= i < |accepted|
      ensures BarrierKept(accepted, i, taken', done', signalled)
    {
      assert BarrierKept(accepted, i, taken, done, signalled);
    }
  }

  lemma HonestSignal(accepted: seq<Item>, taken: nat, done: seq<Payload>, signalled: set<nat>, next: nat)
    requires Honest(accepted, taken, done, signalled, next)
    requires 0 < taken <= |accepted| && accepted[taken - 1].Barrier? && done == Works(accepted[..taken])
    ensures Honest(accepted, taken, done, signalled + {accepted[taken - 1].signal}, next)
  {
    assert accepted[..taken][..taken - 1] == accepted[..taken - 1];
    var more := signalled + {accepted[taken - 1].signal};
    forall i | 0 <= i < |accepted|
      ensures BarrierKept(accepted, i, taken, done, more)
    {
      assert BarrierKept(accepted, i, taken, done, signalled);
    }
  }

  // ----- order and accounting

  /**
   * First in, first out, nothing lost and nothing twice: what finished, what is in flight, the pending batch and
   * what was just taken off the queue are, one after the other, what was taken.
   */
  ghost predicate InOrder(
      taken: seq<Item>, finished: seq<Finished>, inFlight: seq<Payload>, pending: seq<Payload>, holding: seq<Payload>)
  {
    Flatten(finished) + inFlight + pending + holding == Works(taken)
  }

  lemma Regroup(
      taken: seq<Item>, finished: seq<Finished>, a: seq<Payload>, b: seq<Payload>, c: seq<Payload>, a': seq<Payload>,
      b': seq<Payload>, c': seq<Payload>)
    requires InOrder(taken, finished, a, b, c) && a + b + c == a' + b' + c'
    ensures InOrder(taken, finished, a', b', c')
  {
    hide Flatten, Works;
    assert Flatten(finished) + a + b + c == Flatten(finished) + (a + b + c);
    assert Flatten(finished) + a' + b' + c' == Flatten(finished) + (a' + b' + c');
  }

  lemma InOrderFinish(taken: seq<Item>, finished: seq<Finished>, f: Finished, b: seq<Payload>, c: seq<Payload>)
    requires InOrder(taken, finished, PayloadsOf(f.sub), b, c)
    ensures InOrder(taken, finished + [f], [], b, c)
  {
    FlattenAppend(finished, f);
    hide Flatten, Works;
    assert Flatten(finished) + PayloadsOf(f.sub) + [] == Flatten(finished) + PayloadsOf(f.sub);
  }

  lemma InOrderTake(taken: seq<Item>, item: Item, finished: seq<Finished>, pending: seq<Payload>)
    requires InOrder(taken, finished, [], pending, [])
    ensures InOrder(taken + [item], finished, [], pending, match item case Work(p) => [p] case Barrier(_) => [])
  {
    WorksAppend(taken, item);
    hide Flatten, Works;
    assert Flatten(finished) + [] + pending + [] == Flatten(finished) + [] + pending;
  }

  lemma AllSent(taken: seq<Item>, finished: seq<Finished>)
    requires InOrder(taken, finished, [], [], [])
    ensures Flatten(finished) == Works(taken)
  {
    hide Flatten, Works;
    assert Flatten(finished) + [] + [] + [] == Flatten(finished);
  }

  /** Each counter is the number of submissions that came to that outcome, and batches hold 1 to `limit` events. */
  ghost predicate Accounted(finished: seq<Finished>, limit: int, delivered: nat, rejected: nat, exhausted: nat) {
    && delivered == Count(finished, Delivered)
    && rejected == Count(finished, Rejected)
    && exhausted == Count(finished, Exhausted)
    && forall i :: 0 <= i < |finished| && finished[i].sub.Batch? ==> 1 <= |finished[i].sub.events| <= limit
  }

  lemma AccountedFinish(finished: seq<Finished>, f: Finished, limit: int, delivered: nat, rejected: nat, exhausted: nat)
    requires Accounted(finished, limit, delivered, rejected, exhausted)
    requires f.sub.Batch? ==> 1 <= |f.sub.events| <= limit
    ensures Accounted(
              finished + [f], limit, delivered + (if f.outcome == Delivered then 1 else 0),
              rejected + (if f.outcome == Rejected then 1 else 0),
              exhausted + (if f.outcome == Exhausted then 1 else 0))
  {
    FlattenAppend(finished, f);
  }

  class EventShipper {
    const batchSize: int
    const maxQueue: int
    const maxRetries: int
    var queue: seq<Item>
    var stopped: bool
    var pending: seq<Payload>
    var dropped: nat
    var delivered: nat
    var rejected: nat
    var exhausted: nat
    var nextSignal: nat
    var signalled: set<nat>
    var alive: bool
    ghost var accepted: seq<Item>       // everything ever enqueued, in order
    ghost var finished: seq<Finished>   // submissions that are over, in order
    ghost var inFlight: seq<Payload>    // what the submission under way carries
    ghost var holding: seq<Payload>     // taken off the queue, not yet acted on
    ghost var offered: nat              // submit calls made
    ghost var acceptedAtStop: seq<Item> // what had been enqueued when shutdown was first called

    /** How many items the worker has taken off the queue. */
    ghost function Taken(): int
      reads this
    {
      |accepted| - |queue|
    }

    function BatchLimit(): int {
      if batchSize > 1 then batchSize else 1
    }

    ghost predicate Consistent()
      reads this
    {
      // the queue is the untaken rest of what was accepted
      && 0 <= Taken() && queue == accepted[Taken()..]
      && InOrder(accepted[..Taken()], finished, inFlight, pending, holding)
      && |pending| < BatchLimit()
      && (maxQueue > 0 ==> |queue| <= maxQueue)
      && Accounted(finished, BatchLimit(), delivered, rejected, exhausted)
      && offered == |Works(accepted)| + dropped
      && (maxRetries <= BACKOFFS ==> alive)
      && Honest(accepted, Taken(), Flatten(finished), signalled, nextSignal)
      && acceptedAtStop <= accepted
    }

    /** The state at the head of the worker's loop. */
    ghost predicate AtHead()
      reads this
    {
      Consistent() && inFlight == [] && holding == []
    }

    constructor (batchSize: int, maxQueue: int, maxRetries: int)
      ensures AtHead() && accepted == [] && finished == [] && alive && !stopped && pending == []
      ensures this.batchSize == batchSize && this.maxQueue == maxQueue && this.maxRetries == maxRetries
    {
      this.batchSize, this.maxQueue, this.maxRetries := batchSize, maxQueue, maxRetries;
      queue, pending, stopped, alive := [], [], false, true;
      dropped, delivered, rejected, exhausted := 0, 0, 0, 0;
      nextSignal, signalled := 0, {};
      accepted, finished, inFlight, holding, offered, acceptedAtStop := [], [], [], [], 0, [];
    }

    /** queue.Queue: a bound that is not positive is no bound. */
    predicate Full()
      reads this
    {
      maxQueue > 0 && |queue| >= maxQueue
    }

    /** put_nowait of an item there is room for. */
    method Enqueue(item: Item)
      requires Consistent() && (item.Barrier? ==> item.signal == nextSignal)
      requires maxQueue <= 0 || |queue| < maxQueue
      modifies this
      ensures Consistent() && accepted == old(accepted) + [item] && Taken() == old(Taken())
      ensures dropped == old(dropped) && finished == old(finished) && inFlight == old(inFlight)
      ensures holding == old(holding) && pending == old(pending) && alive == old(alive) && stopped == old(stopped)
      ensures acceptedAtStop == old(acceptedAtStop)
      ensures signalled == old(signalled)
    {
      hide Honest, InOrder, Accounted, Flatten, Works;
      var next := if item.Barrier? then nextSignal + 1 else nextSignal;
      HonestAccept(accepted, item, Taken(), Flatten(finished), signalled, nextSignal, next);
      WorksAppend(accepted, item);
      ghost var n := Taken();
      assert (accepted + [item])[..n] == accepted[..n];
      nextSignal := next;
      queue := queue + [item];
      accepted := accepted + [item];
      offered := offered + if item.Work? then 1 else 0;
    }

    /** _submit: enqueue, or drop and count the drop when the queue is full. */
    method SubmitPayload(p: Payload)
      requires Consistent()
      modifies this
      ensures Consistent() && Taken() == old(Taken())
      ensures maxQueue <= 0 || |old(queue)| < maxQueue ==>
                accepted == old(accepted) + [Work(p)] && dropped == old(dropped)
      ensures maxQueue > 0 && |old(queue)| >= maxQueue ==>
                accepted == old(accepted) && dropped == old(dropped) + 1
      ensures finished == old(finished) && inFlight == old(inFlight) && holding == old(holding)
      ensures pending == old(pending) && alive == old(alive) && stopped == old(stopped) && signalled == old(signalled)
      ensures acceptedAtStop == old(acceptedAtStop)
    {
      hide Honest, InOrder, Accounted, Flatten, Works;
      if Full() {
        dropped := dropped + 1;
        offered := offered + 1;
      } else {
        Enqueue(Work(p));
      }
    }

    /** flush: a barrier with a fresh signal; None when the queue is full. */
    method Flush() returns (signal: Option<nat>)
      requires Consistent()
      modifies this
      ensures Consistent() && Taken() == old(Taken())
      ensures signal.None? <==> maxQueue > 0 && |old(queue)| >= maxQueue
      ensures accepted == old(accepted) + (if signal.Some? then [Barrier(signal.value)] else [])
      ensures signal.Some? ==> signal.value !in signalled
      ensures dropped == old(dropped) && finished == old(finished) && inFlight == old(inFlight)
      ensures holding == old(holding) && pending == old(pending) && alive == old(alive) && stopped == old(stopped)
      ensures acceptedAtStop == old(acceptedAtStop)
      ensures signalled == old(signalled)
    {
      if Full() {
        return None;
      }
      signal := Some(nextSignal);
      Enqueue(Barrier(nextSignal));
    }

    /** shutdown: only raises the flag, once; the worker drains what is queued. */
    method Shutdown()
      requires Consistent()
      modifies this`stopped, this`acceptedAtStop
      ensures Consistent() && stopped
      ensures acceptedAtStop == if old(stopped) then old(acceptedAtStop) else accepted
    {
      if stopped {
        return;
      }
      stopped, acceptedAtStop := true, accepted;
    }

    /** Producers' calls landing while the worker is between two of its own steps. */
    method Arrivals(requests: seq<Request>)
      requires Consistent()
      modifies this
      ensures Consistent() && old(accepted) <= accepted && Taken() == old(Taken())
      ensures requests == [] ==> accepted == old(accepted)
      ensures finished == old(finished) && inFlight == old(inFlight) && holding == old(holding)
      ensures pending == old(pending) && alive == old(alive) && stopped == old(stopped) && signalled == old(signalled)
      ensures acceptedAtStop == old(acceptedAtStop)
    {
      hide Honest, InOrder, Accounted, Flatten, Works;
      for i := 0 to |requests|
        invariant Consistent() && old(accepted) <= accepted && Taken() == old(Taken())
        invariant i == 0 ==> accepted == old(accepted)
        invariant finished == old(finished) && inFlight == old(inFlight) && holding == old(holding)
        invariant pending == old(pending) && alive == old(alive) && stopped == old(stopped)
        invariant acceptedAtStop == old(acceptedAtStop)
        invariant signalled == old(signalled)
      {
        match requests[i] {
          case Submit(p) => SubmitPayload(p);
          case AskFlush => var _ := Flush();
        }
      }
    }

    /** _send_with_retry: the submission finishes under one outcome, or the worker dies on a missing backoff. */
    method SendWithRetry(sub: Submission, call: Call)
      requires Consistent() && alive && inFlight == PayloadsOf(sub)
      requires sub.Batch? ==> 1 <= |sub.events| <= BatchLimit()
      modifies this
      ensures Consistent() && old(accepted) <= accepted && Taken() == old(Taken())
      ensures QuietCall(call) ==> accepted == old(accepted)
      ensures pending == old(pending) && holding == old(holding) && stopped == old(stopped)
      ensures acceptedAtStop == old(acceptedAtStop)
      ensures signalled == old(signalled)
      ensures match DeliveryFrom(maxRetries, call.respond, 0)
              case Settled(o) => alive && inFlight == [] && finished == old(finished) + [Finished(sub, o)]
              case WorkerDied => !alive && inFlight == old(inFlight) && finished == old(finished)
    {
      hide Honest, InOrder, Accounted, Flatten, Works;
      var attempt := 0;
      while attempt <= maxRetries
        invariant 0 <= attempt
        invariant Consistent() && old(accepted) <= accepted && Taken() == old(Taken())
        invariant QuietCall(call) ==> accepted == old(accepted)
        invariant pending == old(pending) && holding == old(holding) && stopped == old(stopped)
        invariant acceptedAtStop == old(acceptedAtStop)
        invariant signalled == old(signalled)
        invariant alive && inFlight == PayloadsOf(sub) && finished == old(finished)
        invariant DeliveryFrom(maxRetries, call.respond, attempt) == DeliveryFrom(maxRetries, call.respond, 0)
        decreases maxRetries - attempt
      {
        var r := call.respond(attempt);
        Arrivals(call.arrive(attempt));
        if !Transient(r) {
          Settle(sub, if r.code < 400 then Delivered else Rejected);
          return;
        }
        if attempt < maxRetries && attempt >= BACKOFFS {
          alive := false;
          return;
        }
        attempt := attempt + 1;
      }
      Settle(sub, Exhausted);
    }

    /** A submission is over: count it. */
    method Settle(sub: Submission, o: Outcome)
      requires Consistent() && alive && inFlight == PayloadsOf(sub)
      requires sub.Batch? ==> 1 <= |sub.events| <= BatchLimit()
      modifies this
      ensures Consistent() && alive && inFlight == [] && finished == old(finished) + [Finished(sub, o)]
      ensures delivered == old(delivered) + if o == Delivered then 1 else 0
      ensures rejected == old(rejected) + if o == Rejected then 1 else 0
      ensures exhausted == old(exhausted) + if o == Exhausted then 1 else 0
      ensures accepted == old(accepted) && Taken() == old(Taken())
      ensures pending == old(pending) && holding == old(holding) && stopped == old(stopped)
      ensures acceptedAtStop == old(acceptedAtStop)
      ensures signalled == old(signalled)
    {
      hide Honest, InOrder, Accounted, Flatten, Works;
      ghost var f := Finished(sub, o);
      FlattenAppend(finished, f);
      HonestProgress(accepted, Taken(), Taken(), Flatten(finished), Flatten(finished + [f]), signalled, nextSignal);
      InOrderFinish(accepted[..Taken()], finished, f, pending, holding);
      AccountedFinish(finished, f, BatchLimit(), delivered, rejected, exhausted);
      match o {
        case Delivered => delivered := delivered + 1;
        case Rejected => rejected := rejected + 1;
        case Exhausted => exhausted := exhausted + 1;
      }
      finished := finished + [Finished(sub, o)];
      inFlight := [];
    }

    /** _send_events followed by emptying the batch. */
    method SendPending(call: Call)
      requires Consistent() && alive && inFlight == [] && 1 <= |pending|
      modifies this
      ensures Consistent() && old(accepted) <= accepted && Taken() == old(Taken())
      ensures QuietCall(call) ==> accepted == old(accepted)
      ensures pending == [] && holding == old(holding) && stopped == old(stopped) && signalled == old(signalled)
      ensures acceptedAtStop == old(acceptedAtStop)
      ensures alive ==> inFlight == [] && Finishing(old(finished), finished, [Batch(old(pending))])
    {
      hide Honest, InOrder, Accounted, Flatten, Works, Finishing, QuietCall;
      var events := pending;
      Regroup(accepted[..Taken()], finished, [], pending, holding, events, [], holding);
      inFlight, pending := events, [];
      SendWithRetry(Batch(events), call);
      if alive {
        FinishingOne(old(finished), finished[|finished| - 1]);
      }
    }

    /** queue.get: the oldest item. */
    method Dequeue() returns (item: Item)
      requires AtHead() && queue != []
      modifies this
      ensures Consistent() && inFlight == [] && Taken() == old(Taken()) + 1
      ensures accepted == old(accepted) && accepted[Taken() - 1] == item
      ensures holding == match item case Work(p) => [p] case Barrier(_) => []
      ensures pending == old(pending) && finished == old(finished)
      ensures alive == old(alive) && stopped == old(stopped) && signalled == old(signalled)
      ensures acceptedAtStop == old(acceptedAtStop)
    {
      hide Honest, InOrder, Accounted, Flatten, Works;
      item := queue[0];
      ghost var n := Taken();
      HonestProgress(accepted, n, n + 1, Flatten(finished), Flatten(finished), signalled, nextSignal);
      InOrderTake(accepted[..n], item, finished, pending);
      assert accepted[..n + 1] == accepted[..n] + [item];
      queue := queue[1..];
      holding := match item case Work(p) => [p] case Barrier(_) => [];
    }

    /** An event joins the batch; a full batch goes out at once. */
    method AddToBatch(p: Payload, call: Call)
      requires Consistent() && alive && inFlight == [] && holding == [p]
      modifies this
      ensures Consistent() && (alive ==> AtHead())
      ensures old(accepted) <= accepted && Taken() == old(Taken())
      ensures QuietCall(call) ==> accepted == old(accepted)
      ensures stopped == old(stopped) && acceptedAtStop == old(acceptedAtStop) && signalled == old(signalled)
      ensures |old(pending)| + 1 < batchSize ==>
                alive && pending == old(pending) + [p] && finished == old(finished)
      ensures |old(pending)| + 1 >= batchSize && alive ==>
                pending == [] && Finishing(old(finished), finished, [Batch(old(pending) + [p])])
    {
      hide Honest, InOrder, Accounted, Flatten, Works, Finishing, QuietCall;
      var events := pending + [p];
      if |events| >= batchSize {
        Regroup(accepted[..Taken()], finished, [], pending, holding, events, [], []);
        inFlight, pending, holding := events, [], [];
        SendWithRetry(Batch(events), call);
        if alive {
          FinishingOne(old(finished), finished[|finished| - 1]);
        }
      } else {
        Regroup(accepted[..Taken()], finished, [], pending, holding, [], events, []);
        pending, holding := events, [];
      }
    }

    /** The barrier's signal is set once nothing taken before it is left unsent. */
    method SetSignal(s: nat)
      requires AtHead() && pending == [] && 0 < Taken() && accepted[Taken() - 1] == Barrier(s)
      modifies this`signalled
      ensures AtHead() && signalled == old(signalled) + {s}
    {
      hide Honest, InOrder, Accounted, Flatten, Works;
      AllSent(accepted[..Taken()], finished);
      HonestSignal(accepted, Taken(), Flatten(finished), signalled, nextSignal);
      signalled := signalled + {s};
    }

    /** One turn of the loop of _run, once past the stop check. */
    method TakeOne(turn: Turn)
      requires AtHead() && alive
      modifies this
      ensures Consistent() && (alive ==> AtHead()) && old(accepted) <= accepted && stopped == old(stopped)
      ensures acceptedAtStop == old(acceptedAtStop)
      ensures Taken() == old(Taken()) + if old(queue) == [] then 0 else 1
      ensures QuietTurn(turn) ==> accepted == old(accepted)
      ensures alive ==> Finishing(old(finished), finished, Submissions(old(queue), old(pending), batchSize))
      ensures alive ==> pending == Kept(old(queue), old(pending), batchSize)
      ensures alive ==>
                signalled == old(signalled)
                  + if old(queue) != [] && old(queue)[0].Barrier? then {old(queue)[0].signal} else {}
    {
      hide Honest, InOrder, Accounted, Flatten, Works, Finishing, QuietCall;
      FinishingNone(finished);
      if queue == [] {
        if pending != [] {
          SendPending(turn.flush);
        }
        return;
      }
      var item := Dequeue();
      assert item == old(queue)[0];
      if item.Work? && item.payload.Event? {
        AddToBatch(item.payload, turn.flush);
        return;
      }
      if pending != [] {
        SendPending(turn.flush);
      }
      if !alive {
        return;
      }
      if item.Barrier? {
        SetSignal(item.signal);
      } else {
        Regroup(accepted[..Taken()], finished, [], [], holding, [item.payload], [], []);
        inFlight, holding := [item.payload], [];
        SendLast(old(finished), if old(pending) == [] then [] else [Batch(old(pending))], item.payload, turn.send);
      }
    }

    /** The submission that ends a turn, after those it has already made. */
    method SendLast(ghost before: seq<Finished>, ghost subs: seq<Submission>, p: Payload, call: Call)
      requires Consistent() && alive && inFlight == [p] && pending == [] && holding == []
      requires Finishing(before, finished, subs)
      modifies this
      ensures Consistent() && (alive ==> AtHead()) && old(accepted) <= accepted && stopped == old(stopped)
      ensures acceptedAtStop == old(acceptedAtStop)
      ensures Taken() == old(Taken()) && pending == [] && signalled == old(signalled)
      ensures QuietCall(call) ==> accepted == old(accepted)
      ensures alive ==> Finishing(before, finished, subs + [Single(p)])
    {
      hide Honest, InOrder, Accounted, Flatten, Works, Finishing, QuietCall;
      SendWithRetry(Single(p), call);
      if alive {
        FinishingThen(before, old(finished), subs, finished[|finished| - 1]);
      }
    }

    /**
     * _run over any script of outside events. `exited` tells whether the loop saw the stop flag with an empty
     * queue, and `atExit` is what was accepted by then: whatever producers did meanwhile, everything accepted
     * before the stop is in it and has finished. A stopped worker that nobody disturbs gets there, one turn for
     * each queued item.
     */
    method RunLoop(turns: seq<Turn>) returns (exited: bool, ghost atExit: seq<Item>)
      requires AtHead() && alive
      modifies this
      ensures Consistent() && (alive ==> AtHead()) && old(accepted) <= accepted
      ensures atExit <= accepted && (exited ==> stopped)
      ensures exited ==> old(accepted) <= atExit && acceptedAtStop <= atExit
      ensures exited && turns != [] && QuietCall(turns[|turns| - 1].flush) ==> atExit == accepted && queue == []
      ensures old(stopped) ==> acceptedAtStop == old(acceptedAtStop)
      ensures exited && alive ==> pending == [] && Flatten(finished) == Works(atExit)
      ensures exited && alive ==> Works(acceptedAtStop) <= Flatten(finished)
      ensures alive && old(stopped) && Undisturbed(turns) && |turns| > |old(queue)| ==>
                exited && atExit == old(accepted)
    {
      hide Honest, InOrder, Accounted, Flatten, Works, Finishing, QuietTurn, QuietCall, Submissions, Kept;
      exited, atExit := false, [];
      for i := 0 to |turns|
        invariant AtHead() && alive && old(accepted) <= accepted
        invariant old(stopped) ==> stopped && acceptedAtStop == old(acceptedAtStop)
        invariant Undisturbed(turns) ==> accepted == old(accepted)
        invariant Undisturbed(turns) && old(stopped) ==> |queue| + i <= |old(queue)|
      {
        QuietAt(turns, i);
        Arrivals(turns[i].before);
        if turns[i].shutdown {
          Shutdown();
        }
        if stopped && queue == [] {
          exited := true;
          break;
        }
        Arrivals(turns[i].meanwhile);
        TakeOne(turns[i]);
        if !alive {
          return;
        }
      }
      if exited {
        atExit := accepted;
        FinalFlush(if turns == [] then Call(_ => NetworkError, _ => []) else turns[|turns| - 1].flush);
      }
    }

    /** After the loop: what is still pending goes out, and then everything accepted before is finished. */
    method FinalFlush(call: Call)
      requires AtHead() && alive && queue == []
      modifies this
      ensures Consistent() && (alive ==> AtHead()) && old(accepted) <= accepted && stopped == old(stopped)
      ensures acceptedAtStop == old(acceptedAtStop)
      ensures QuietCall(call) ==> accepted == old(accepted)
      ensures Taken() == old(Taken())
      ensures alive ==> pending == [] && Flatten(finished) == Works(old(accepted))
      ensures alive && stopped ==> Works(acceptedAtStop) <= Flatten(finished)
    {
      hide Honest, InOrder, Accounted, Flatten, Works, Finishing, QuietCall;
      assert accepted[..Taken()] == accepted;
      if stopped {
        WorksPrefix(acceptedAtStop, accepted);
      }
      if pending != [] {
        SendPending(call);
      }
      assert accepted[..Taken()] == old(accepted);
      if alive {
        AllSent(old(accepted), finished);
      }
    }

    // ----- what the invariant says

    /** Sent, being sent, waiting and queued, in this order, are what was accepted, in that order. */
    lemma Conservation()
      requires Consistent()
      ensures Flatten(finished) + inFlight + pending + holding + Works(queue) == Works(accepted)
      ensures offered == |Works(accepted)| + dropped
      ensures delivered + rejected + exhausted == |finished|
    {
      hide Honest;
      CountsAddUp(finished);
      WorksConcat(accepted[..Taken()], queue);
      assert accepted == accepted[..Taken()] + queue;
    }

    /** A caller whose flush signal is set: everything accepted before its barrier has finished sending. */
    lemma FlushMeans(i: nat)
      requires Consistent() && i < |accepted| && accepted[i].Barrier? && accepted[i].signal in signalled
      ensures Works(accepted[..i]) <= Flatten(finished)
    {
      assert BarrierKept(accepted, i, Taken(), Flatten(finished), signalled);
    }
  }

  lemma WorksPrefix(a: seq<Item>, b: seq<Item>)
    requires a <= b
    ensures Works(a) <= Works(b)
  {
    WorksConcat(a, b[|a|..]);
    assert a + b[|a|..] == b;
  }

  lemma {:induction false} WorksConcat(a: seq<Item>, b: seq<Item>)
    ensures Works(a + b) == Works(a) + Works(b)
  {
    if b == [] {
      assert a + b == a;
    } else {
      var n := |b| - 1;
      WorksConcat(a, b[..n]);
      assert a + b == (a + b[..n]) + [b[n]];
      WorksAppend(a + b[..n], b[n]);
    }
  }
}
