/** The polling loop that serves one notification stream, and its place in the delivery protocol. */
module StreamLoop {
  import opened Wrappers
  import opened PyText
  import opened EventTable
  import opened DirectLog
  import opened Delivery

  function IdAfter(cursor: string, rows: seq<Row>): string {
    if rows == [] then cursor else rows[|rows| - 1].id
  }

  /**
   The rows a stream writes: `polls` are the tables seen by successive reads until the deadline, `None` being
   a read that raises, and `budget` is the number of event writes that succeed before one fails.
   */
  function Served(profiles: seq<string>, polls: seq<Option<seq<Row>>>, cursor: string, budget: nat): seq<Row>
    decreases |polls|
  {
    if polls == [] || polls[0].None? then []
    else
      var batch := ReadBatch(polls[0].value, profiles, cursor, BATCH_LIMIT);
      if budget < |batch| then batch[..budget]
      else batch + Served(profiles, polls[1..], IdAfter(cursor, batch), budget - |batch|)
  }

  /** A read that raises ends the stream: what would be polled later is not served. */
  lemma {:induction false} ReadErrorEndsTheStream(profiles: seq<string>, polls: seq<Option<seq<Row>>>,
                                                  later: seq<Option<seq<Row>>>, cursor: string, budget: nat)
    ensures Served(profiles, polls + [None] + later, cursor, budget) == Served(profiles, polls, cursor, budget)
    decreases |polls|
  {
    var all := polls + [None] + later;
    if polls != [] && polls[0].Some? {
      assert all[0] == polls[0] && all[1..] == polls[1..] + [None] + later;
      var batch := ReadBatch(polls[0].value, profiles, cursor, BATCH_LIMIT);
      if |batch| <= budget {
        ReadErrorEndsTheStream(profiles, polls[1..], later, IdAfter(cursor, batch), budget - |batch|);
      }
    }
  }

  /** The write loop of one batch: event after event goes out, until `budget` writes have succeeded. */
  method WriteEvents(events: seq<Row>, cursor: string, budget: nat)
    returns (written: seq<Row>, last: string, stopped: bool)
    ensures stopped <==> budget < |events|
    ensures written == if stopped then events[..budget] else events
    ensures last == IdAfter(cursor, written)
  {
    written, last := [], cursor;
    for i := 0 to |events|
      invariant i <= budget
      invariant written == events[..i]
      invariant last == IdAfter(cursor, written)
    {
      if i == budget {
        return written, last, true;
      }
      written := written + [events[i]];
      last := events[i].id;
    }
    return written, last, false;
  }

  /** The loop's variables before poll number `poll`: what is sent, and what the remaining polls will add. */
  ghost predicate Serving(profiles: seq<string>, polls: seq<Option<seq<Row>>>, afterEventId: string, budget: nat,
                          poll: nat, sent: seq<Row>, cursor: string)
  {
    && poll <= |polls| && |sent| <= budget
    && cursor == IdAfter(afterEventId, sent)
    && Served(profiles, polls, afterEventId, budget)
         == sent + Served(profiles, polls[poll..], cursor, budget - |sent|)
  }

  lemma ServingStarts(profiles: seq<string>, polls: seq<Option<seq<Row>>>, afterEventId: string, budget: nat)
    ensures Serving(profiles, polls, afterEventId, budget, 0, [], afterEventId)
  {
    assert polls[0..] == polls;
    assert [] + Served(profiles, polls, afterEventId, budget) == Served(profiles, polls, afterEventId, budget);
  }

  lemma ServingEnds(profiles: seq<string>, polls: seq<Option<seq<Row>>>, afterEventId: string, budget: nat,
                    poll: nat, sent: seq<Row>, cursor: string)
    requires Serving(profiles, polls, afterEventId, budget, poll, sent, cursor)
    requires poll == |polls| || polls[poll].None?
    ensures sent == Served(profiles, polls, afterEventId, budget)
  {
    assert Served(profiles, polls[poll..], cursor, budget - |sent|) == [];
  }

  /** One batch is written, in full or as far as the budget goes. */
  lemma ServingNext(profiles: seq<string>, polls: seq<Option<seq<Row>>>, afterEventId: string, budget: nat,
                    poll: nat, sent: seq<Row>, cursor: string)
    requires Serving(profiles, polls, afterEventId, budget, poll, sent, cursor)
    requires poll < |polls| && polls[poll].Some?
    ensures var batch := ReadBatch(polls[poll].value, profiles, cursor, BATCH_LIMIT);
            if budget - |sent| < |batch| then
              Served(profiles, polls, afterEventId, budget) == sent + batch[..budget - |sent|]
            else
              Serving(profiles, polls, afterEventId, budget, poll + 1, sent + batch, IdAfter(cursor, batch))
  {
    var batch, left := ReadBatch(polls[poll].value, profiles, cursor, BATCH_LIMIT), budget - |sent|;
    assert polls[poll..][1..] == polls[poll + 1..];
    if |batch| <= left {
      Associate(sent, batch, Served(profiles, polls[poll + 1..], IdAfter(cursor, batch), left - |batch|));
    }
  }

  lemma IdAfterBoth(cursor: string, a: seq<Row>, b: seq<Row>)
    ensures IdAfter(IdAfter(cursor, a), b) == IdAfter(cursor, a + b)
  {
  }

  /** The loop of `_send_direct_notification_stream`. */
  method ServeStream(profiles: seq<string>, polls: seq<Option<seq<Row>>>, afterEventId: string, budget: nat)
    returns (sent: seq<Row>, cursor: string)
    ensures sent == Served(profiles, polls, afterEventId, budget)
    ensures cursor == IdAfter(afterEventId, sent)
    ensures |sent| <= budget
  {
    sent, cursor := [], afterEventId;
    var poll := 0;
    ServingStarts(profiles, polls, afterEventId, budget);
    while poll < |polls| && polls[poll].Some?
      invariant poll <= |polls|
      invariant Serving(profiles, polls, afterEventId, budget, poll, sent, cursor)
    {
      var events := ReadBatch(polls[poll].value, profiles, cursor, BATCH_LIMIT);
      ServingNext(profiles, polls, afterEventId, budget, poll, sent, cursor);
      var written, last, stopped := WriteEvents(events, cursor, budget - |sent|);
      IdAfterBoth(afterEventId, sent, written);
      sent, cursor := sent + written, last;
      if stopped {
        return;
      }
      poll := poll + 1;
    }
    ServingEnds(profiles, polls, afterEventId, budget, poll, sent, cursor);
  }

  // ---- The loop is a run of the protocol ----

  function Repeat(step: Step, n: nat): seq<Step> {
    if n == 0 then [] else [step] + Repeat(step, n - 1)
  }

  function Publishes(offers: seq<Offer>): seq<Step> {
    if offers == [] then [] else [Step.Publish(offers[0])] + Publishes(offers[1..])
  }

  /** The store after a group of publishes. */
  function BookAfter(policy: Policy, book: Book, offers: seq<Offer>): Book
    decreases |offers|
  {
    if offers == [] then book else BookAfter(policy, Record(policy, book, offers[0]), offers[1..])
  }

  /** The tables a stream polls when group `i` of `rounds` is published just before poll `i`. */
  function Views(policy: Policy, book: Book, rounds: seq<seq<Offer>>): seq<Option<seq<Row>>>
    decreases |rounds|
  {
    if rounds == [] then []
    else
      var next := BookAfter(policy, book, rounds[0]);
      [Some(next.log.rows)] + Views(policy, next, rounds[1..])
  }

  lemma {:induction false} RunAppend(on: Setting, s: Session, a: seq<Step>, b: seq<Step>)
    ensures Run(on, s, a + b) == Run(on, Run(on, s, a), b)
    decreases |a|
  {
    if a == [] {
      assert a + b == b;
    } else {
      assert (a + b)[1..] == a[1..] + b;
      RunAppend(on, Next(on, s, a[0]), a[1..], b);
    }
  }

  lemma {:induction false} PublishesRun(on: Setting, s: Session, offers: seq<Offer>)
    ensures Run(on, s, Publishes(offers)) == s.(book := BookAfter(on.policy, s.book, offers))
    decreases |offers|
  {
    if offers != [] {
      var steps := Publishes(offers);
      assert steps[1..] == Publishes(offers[1..]);
      PublishesRun(on, Next(on, s, steps[0]), offers[1..]);
    }
  }

  lemma {:induction false} WritesRun(on: Setting, s: Session, n: nat)
    requires s.connection.Open? && n <= |s.connection.batch|
    ensures var batch := s.connection.batch;
            Run(on, s, Repeat(Write, n))
              == s.(wire := s.wire + batch[..n],
                    connection := Open(IdAfter(s.connection.cursor, batch[..n]), batch[n..]))
    decreases n
  {
    var batch, steps := s.connection.batch, Repeat(Write, n);
    if n == 0 {
      assert s.wire + batch[..0] == s.wire && batch[0..] == batch;
    } else {
      assert steps[0] == Write && steps[1..] == Repeat(Write, n - 1);
      WritesRun(on, Next(on, s, Write), n - 1);
      assert batch[..n] == [batch[0]] + batch[1..][..n - 1];
      assert s.wire + [batch[0]] + batch[1..][..n - 1] == s.wire + batch[..n];
      assert batch[1..][n - 1..] == batch[n..];
    }
  }

  /** One round of the loop: the publishes before a poll, the poll, and the writes that succeed. */
  function Round(offers: seq<Offer>, writes: nat): seq<Step> {
    Publishes(offers) + ([Poll] + Repeat(Write, writes))
  }

  lemma RoundRun(on: Setting, s: Session, offers: seq<Offer>, writes: nat)
    requires s.connection.Open? && s.connection.batch == []
    requires var rows := BookAfter(on.policy, s.book, offers).log.rows;
             writes <= |ReadBatch(rows, on.profiles, s.connection.cursor, BATCH_LIMIT)|
    ensures var book := BookAfter(on.policy, s.book, offers);
            var batch := ReadBatch(book.log.rows, on.profiles, s.connection.cursor, BATCH_LIMIT);
            Run(on, s, Round(offers, writes))
              == Session(book, Open(IdAfter(s.connection.cursor, batch[..writes]), batch[writes..]),
                         s.wire + batch[..writes], s.received)
  {
    var published := s.(book := BookAfter(on.policy, s.book, offers));
    PublishesRun(on, s, offers);
    RunAppend(on, s, Publishes(offers), [Poll] + Repeat(Write, writes));
    assert ([Poll] + Repeat(Write, writes))[1..] == Repeat(Write, writes);
    WritesRun(on, Next(on, published, Poll), writes);
  }

  /** The protocol steps of a whole loop. */
  function LoopSteps(on: Setting, book: Book, cursor: string, rounds: seq<seq<Offer>>, budget: nat): seq<Step>
    decreases |rounds|
  {
    if rounds == [] then []
    else
      var next := BookAfter(on.policy, book, rounds[0]);
      var batch := ReadBatch(next.log.rows, on.profiles, cursor, BATCH_LIMIT);
      if budget < |batch| then Round(rounds[0], budget)
      else Round(rounds[0], |batch|) + LoopSteps(on, next, IdAfter(cursor, batch), rounds[1..], budget - |batch|)
  }

  lemma ServedUnfolds(on: Setting, book: Book, cursor: string, rounds: seq<seq<Offer>>, budget: nat)
    requires rounds != []
    ensures var next := BookAfter(on.policy, book, rounds[0]);
            var batch := ReadBatch(next.log.rows, on.profiles, cursor, BATCH_LIMIT);
            Served(on.profiles, Views(on.policy, book, rounds), cursor, budget)
              == if budget < |batch| then batch[..budget]
                 else batch + Served(on.profiles, Views(on.policy, next, rounds[1..]),
                                     IdAfter(cursor, batch), budget - |batch|)
  {
    var next := BookAfter(on.policy, book, rounds[0]);
    var views := Views(on.policy, book, rounds);
    assert views[0] == Some(next.log.rows) && views[1..] == Views(on.policy, next, rounds[1..]);
  }

  /** The session after a round whose writes all succeed. */
  function Written(on: Setting, s: Session, offers: seq<Offer>): Session
    requires s.connection.Open?
  {
    var book := BookAfter(on.policy, s.book, offers);
    var batch := ReadBatch(book.log.rows, on.profiles, s.connection.cursor, BATCH_LIMIT);
    Session(book, Open(IdAfter(s.connection.cursor, batch), []), s.wire + batch, s.received)
  }

  lemma FullRound(on: Setting, s: Session, offers: seq<Offer>, batch: seq<Row>)
    requires s.connection.Open? && s.connection.batch == []
    requires batch == ReadBatch(BookAfter(on.policy, s.book, offers).log.rows,
                                on.profiles, s.connection.cursor, BATCH_LIMIT)
    ensures Run(on, s, Round(offers, |batch|)) == Written(on, s, offers)
  {
    RoundRun(on, s, offers, |batch|);
    assert batch[..|batch|] == batch && batch[|batch|..] == [];
  }

  lemma LoopContinues(on: Setting, s: Session, rounds: seq<seq<Offer>>, budget: nat, batch: seq<Row>)
    requires s.connection.Open? && s.connection.batch == [] && rounds != []
    requires batch == ReadBatch(BookAfter(on.policy, s.book, rounds[0]).log.rows,
                                on.profiles, s.connection.cursor, BATCH_LIMIT)
    requires |batch| <= budget
    ensures var next := Written(on, s, rounds[0]);
            Run(on, s, LoopSteps(on, s.book, s.connection.cursor, rounds, budget))
              == Run(on, next, LoopSteps(on, next.book, next.connection.cursor, rounds[1..], budget - |batch|))
  {
    var next := Written(on, s, rounds[0]);
    FullRound(on, s, rounds[0], batch);
    RunAppend(on, s, Round(rounds[0], |batch|),
              LoopSteps(on, next.book, next.connection.cursor, rounds[1..], budget - |batch|));
  }

  /**
   The loop is a run: whatever is published between its polls and wherever its writes fail, the rows it
   writes are what a run of publish, poll and write steps puts on the wire, so that every result about runs
   holds for them.
   */
  lemma {:induction false} ServedIsARun(on: Setting, s: Session, rounds: seq<seq<Offer>>, budget: nat)
    requires s.connection.Open? && s.connection.batch == []
    ensures var end := Run(on, s, LoopSteps(on, s.book, s.connection.cursor, rounds, budget));
            && end.wire == s.wire + Served(on.profiles, Views(on.policy, s.book, rounds), s.connection.cursor, budget)
            && end.received == s.received
    decreases |rounds|
  {
    if rounds == [] {
      assert s.wire + [] == s.wire;
    } else {
      var cursor := s.connection.cursor;
      var next := BookAfter(on.policy, s.book, rounds[0]);
      var batch := ReadBatch(next.log.rows, on.profiles, cursor, BATCH_LIMIT);
      ServedUnfolds(on, s.book, cursor, rounds, budget);
      if budget < |batch| {
        RoundRun(on, s, rounds[0], budget);
      } else {
        LoopContinues(on, s, rounds, budget, batch);
        ServedIsARun(on, Written(on, s, rounds[0]), rounds[1..], budget - |batch|);
        var later := Served(on.profiles, Views(on.policy, next, rounds[1..]), IdAfter(cursor, batch), budget - |batch|);
        Associate(s.wire, batch, later);
      }
    }
  }

  // ---- A quiet store is drained ----

  /** With nothing published, the client takes over a batch row by row. */
  lemma {:induction false} BatchIsDelivered(on: Setting, s: Session) returns (steps: seq<Step>)
    requires s.connection.Open? && s.wire == []
    ensures Run(on, s, steps)
         == s.(received := s.received + s.connection.batch,
               connection := Open(IdAfter(s.connection.cursor, s.connection.batch), []))
    ensures forall step :: step in steps ==> step.Write? || step.Receive?
    decreases |s.connection.batch|
  {
    var batch := s.connection.batch;
    if batch == [] {
      steps := [];
      assert s.received + batch == s.received;
    } else {
      var next := Next(on, Next(on, s, Write), Receive);
      assert [batch[0]][1..] == [];
      var rest := BatchIsDelivered(on, next);
      steps := [Write, Receive] + rest;
      RunAppend(on, s, [Write, Receive], rest);
      assert [Write, Receive][1..] == [Receive];
      assert Run(on, s, [Write, Receive]) == next;
      assert s.received + [batch[0]] + batch[1..] == s.received + batch;
    }
  }

  lemma {:induction false} OpenStreamDrains(on: Setting, s: Session) returns (steps: seq<Step>)
    requires Readable(s.book.log.rows)
    requires s.connection.Open? && s.connection.batch == [] && s.wire == []
    requires s.connection.cursor == LastId(s.received)
    ensures var rows := s.book.log.rows;
            Run(on, s, steps).received
              == s.received + Select(rows, InScope(on.profiles, Resolve(rows, LastId(s.received))))
    ensures Run(on, s, steps).book == s.book
    ensures forall step :: step in steps ==> step.Poll? || step.Write? || step.Receive?
    decreases |Select(s.book.log.rows, InScope(on.profiles, Resolve(s.book.log.rows, s.connection.cursor)))|
  {
    var rows, cursor := s.book.log.rows, s.connection.cursor;
    var polled := Next(on, s, Poll);
    var batch := polled.connection.batch;
    if batch == [] {
      steps := [];
      assert Select(rows, InScope(on.profiles, Resolve(rows, cursor))) == [];
    } else {
      BatchAdvances(rows, on.profiles, cursor, BATCH_LIMIT);
      var taken := BatchIsDelivered(on, polled);
      var next := Run(on, polled, taken);
      var rest := OpenStreamDrains(on, next);
      steps := [Poll] + (taken + rest);
      assert steps[1..] == taken + rest;
      RunAppend(on, polled, taken, rest);
      var later := Select(rows, InScope(on.profiles, Resolve(rows, batch[|batch| - 1].id)));
      Associate(s.received, batch, later);
    }
  }

  /**
   Catching up: from any session with readable rows, whatever is open or on its way, if nothing more is published
   then a reconnect and finitely many polls, writes and receipts hand the client exactly the retained in-scope
   rows after its own last id, each once and in order.
   */
  lemma QuietStoreIsDrained(on: Setting, s: Session) returns (steps: seq<Step>)
    requires Readable(s.book.log.rows)
    ensures var rows := s.book.log.rows;
            Run(on, s, steps).received
              == s.received + Select(rows, InScope(on.profiles, Resolve(rows, LastId(s.received))))
    ensures Run(on, s, steps).book == s.book
    ensures steps != [] && steps[0] == Connect
    ensures forall step :: step in steps[1..] ==> step.Poll? || step.Write? || step.Receive?
  {
    var rest := OpenStreamDrains(on, Next(on, s, Connect));
    steps := [Connect] + rest;
    assert steps[1..] == rest;
  }
}
