/** Why delivery needs its hypotheses: exactly when an event is skipped, and exactly when one is repeated. */
module DeliveryLimits {
  import opened Filters
  import opened EventTable
  import opened DirectLog
  import opened Delivery
  import opened StreamLoop

  // ---- What storing a held id again loses ----

  ghost predicate ResolvesHighest(rows: seq<Row>, id: string) {
    forall r :: r in rows ==> r.sequence <= Resolve(rows, id)
  }

  lemma CoversIffReceived(rows: seq<Row>, profiles: seq<string>, sent: seq<Row>)
    requires ResolvesHighest(rows, LastId(sent))
    ensures Covers(rows, profiles, sent) <==> forall r :: r in rows && r.profile in profiles ==> r in sent
  {
  }

  lemma NothingSelected(rows: seq<Row>, where: Where)
    requires forall r :: r in rows ==> !where.Holds(r)
    ensures Select(rows, where) == []
  {
    FilterNothing(rows, where.Holds);
  }

  lemma NothingAboveTheHighest(on: Setting, s: Session)
    requires ResolvesHighest(s.book.log.rows, LastId(s.received))
    ensures Next(on, Next(on, s, Connect), Poll).connection.batch == []
  {
    NothingSelected(s.book.log.rows, InScope(on.profiles, Resolve(s.book.log.rows, LastId(s.received))));
  }

  lemma NewRowResolvesHighest(policy: Policy, log: Log, offer: Offer)
    requires Consistent(log) && Published(policy, log, offer.event, offer.clock).accepted
    ensures var out := Published(policy, log, offer.event, offer.clock);
            && out.row in out.log.rows && out.row.sequence == log.issued + 1
            && Resolve(out.log.rows, offer.event.id) == out.row.sequence
            && ResolvesHighest(out.log.rows, offer.event.id)
  {
    var out := Published(policy, log, offer.event, offer.clock);
    PublishKeepsConsistent(policy, log, offer.event, offer.clock);
    AcceptedRowSurvivesItsPrune(policy, log, offer.event, offer.clock);
    assert out.row in out.log.rows;
    ResolveRetained(out.log.rows, out.row);
  }

  predicate HandsOver(steps: seq<Step>) {
    forall i :: 0 <= i < |steps| ==> steps[i].Write? || steps[i].Receive?
  }

  /** One frame of the pipeline reaches the client, after it is written if it is still to be written. */
  lemma HandOverOne(on: Setting, s: Session) returns (steps: seq<Step>)
    requires |s.received| < |Pipeline(s)|
    ensures HandsOver(steps)
    ensures var next := Run(on, s, steps);
            && next.book == s.book && Pipeline(next) == Pipeline(s)
            && |next.received| == |s.received| + 1
  {
    if s.wire == [] {
      steps := [Write, Receive];
      assert steps[1..] == [Receive];
      assert Run(on, s, steps) == Next(on, Next(on, s, Write), Receive);
    } else {
      steps := [Receive];
    }
  }

  /** Writes and receipts can bring the client to any point of the pipeline. */
  lemma {:induction false} HandOver(on: Setting, s: Session, k: nat) returns (steps: seq<Step>)
    requires |s.received| <= k <= |Pipeline(s)|
    ensures HandsOver(steps)
    ensures Run(on, s, steps).book == s.book && Run(on, s, steps).received == Pipeline(s)[..k]
    decreases k - |s.received|
  {
    if k == |s.received| {
      steps := [];
    } else {
      var first := HandOverOne(on, s);
      var rest := HandOver(on, Run(on, s, first), k);
      steps := first + rest;
      RunAppend(on, s, first, rest);
    }
  }

  /**
   Storing a new event under any held id, be it the client's last id or that of a row still on its way: writes
   and receipts alone then bring the client to a point from which a reconnect is sent nothing, and which covers
   the store exactly when the client has every retained in-scope event, the new one included. An in-scope new
   event is therefore always lost.
   */
  lemma ReusedIdSkipsExactly(on: Setting, s: Session, offer: Offer) returns (steps: seq<Step>)
    requires Chronicle(s.book) && FromHistory(s)
    requires ReusesHeldId(on, s, Step.Publish(offer))
    ensures HandsOver(steps)
    ensures var end := Run(on, Next(on, s, Step.Publish(offer)), steps);
            && Next(on, Next(on, end, Connect), Poll).connection.batch == []
            && (Covers(end.book.log.rows, on.profiles, end.received) <==>
                forall r :: r in end.book.log.rows && r.profile in on.profiles ==> r in end.received)
            && (offer.event.profile in on.profiles ==> !Covers(end.book.log.rows, on.profiles, end.received))
  {
    var k :| |s.received| <= k <= |Pipeline(s)| && LastId(Pipeline(s)[..k]) == offer.event.id;
    var next := Next(on, s, Step.Publish(offer));
    steps := HandOver(on, next, k);
    var end := Run(on, next, steps);
    assert Pipeline(next) == Pipeline(s);
    NewRowResolvesHighest(on.policy, s.book.log, offer);
    NothingAboveTheHighest(on, end);
    CoversIffReceived(end.book.log.rows, on.profiles, end.received);
    forall r | r in end.received ensures r.sequence <= s.book.log.issued {
      assert r in Pipeline(s) && r in s.book.history;
    }
  }

  /** From this session on, every run that stores no held id again leaves the client covered. */
  ghost predicate StaysCovered(on: Setting, s: Session) {
    forall steps :: NeverReusesHeldId(on, s, steps) ==>
      Covers(Run(on, s, steps).book.log.rows, on.profiles, Run(on, s, steps).received)
  }

  lemma {:induction false} HandingOverReusesNothing(on: Setting, s: Session, steps: seq<Step>)
    requires HandsOver(steps)
    ensures NeverReusesHeldId(on, s, steps)
    decreases |steps|
  {
    if steps != [] {
      HandingOverReusesNothing(on, Next(on, s, steps[0]), steps[1..]);
    }
  }

  lemma NothingSkippedStaysCovered(on: Setting, s: Session)
    requires NothingSkipped(on, s)
    ensures StaysCovered(on, s)
  {
    forall steps | NeverReusesHeldId(on, s, steps)
      ensures Covers(Run(on, s, steps).book.log.rows, on.profiles, Run(on, s, steps).received)
    {
      NothingIsSkipped(on, s, steps);
      var end := Run(on, s, steps);
      assert Pipeline(end)[..|end.received|] == end.received;
    }
  }

  /**
   The hypothesis of at-least-once delivery is tight: after an accepted in-scope publish, every run that stores
   no held id again leaves the client covered if and only if the id just stored was not held.
   */
  lemma CoveredIffNotHeld(on: Setting, s: Session, offer: Offer)
    requires NothingSkipped(on, s) && FromHistory(s)
    requires Published(on.policy, s.book.log, offer.event, offer.clock).accepted
    requires offer.event.profile in on.profiles
    ensures StaysCovered(on, Next(on, s, Step.Publish(offer))) <==> !Held(s, offer.event.id)
  {
    var next := Next(on, s, Step.Publish(offer));
    if Held(s, offer.event.id) {
      var steps := ReusedIdSkipsExactly(on, s, offer);
      HandingOverReusesNothing(on, next, steps);
    } else {
      PublishKeepsNothingSkipped(on, s, offer);
      NothingSkippedStaysCovered(on, next);
    }
  }

  /** The same for whole runs: an accepted in-scope publish ends the guarantee exactly when it reuses a held id. */
  lemma AtLeastOnceIsTight(on: Setting, steps: seq<Step>, offer: Offer)
    requires NeverReusesHeldId(on, START, steps)
    requires Published(on.policy, Run(on, START, steps).book.log, offer.event, offer.clock).accepted
    requires offer.event.profile in on.profiles
    ensures StaysCovered(on, Next(on, Run(on, START, steps), Step.Publish(offer)))
       <==> !ReusesHeldId(on, Run(on, START, steps), Step.Publish(offer))
  {
    assert NothingSkipped(on, START);
    NothingIsSkipped(on, START, steps);
    FromHistoryRun(on, START, steps);
    CoveredIffNotHeld(on, Run(on, START, steps), offer);
  }

  // ---- When a poll repeats ----

  lemma OnlyRowWithItsId(book: Book, gone: Row)
    requires Chronicle(book) && DistinctIds(book.history)
    requires gone in book.history && gone !in book.log.rows
    ensures forall r :: r in book.log.rows ==> r.id != gone.id
  {
    var i :| 0 <= i < |book.history| && book.history[i] == gone;
    forall r | r in book.log.rows ensures r.id != gone.id {
      var j :| 0 <= j < |book.history| && book.history[j] == r;
    }
  }

  /** A batch lies in scope, and begins with the oldest row in scope if there is one. */
  lemma BatchInScope(rows: seq<Row>, profiles: seq<string>, above: int, n: nat)
    requires Ascending(rows) && n > 0
    ensures var batch := Take(Select(rows, InScope(profiles, above)), n);
            && (forall r :: r in batch ==> r in rows && r.profile in profiles && r.sequence > above)
            && (forall r :: r in rows && r.profile in profiles && r.sequence > above ==>
                  batch != [] && batch[0].sequence <= r.sequence)
  {
    var scope := InScope(profiles, above);
    var all := Select(rows, scope);
    SelectMembers(rows, scope);
    SelectAscending(rows, scope);
    forall r | r in Take(all, n) ensures r in all {
      var i :| 0 <= i < |Take(all, n)| && Take(all, n)[i] == r;
      assert all[i] == r;
    }
    forall r | r in rows && r.profile in profiles && r.sequence > above
      ensures all != [] && all[0].sequence <= r.sequence
    {
      assert r in all;
    }
  }

  /**
   When a poll repeats: if ids are never reused, a poll reads a row no newer than the last one sent exactly
   when that last row has expired while an older in-scope row is still retained.
   */
  lemma PollRepeatsExactlyWhen(on: Setting, s: Session, last: Row)
    requires Chronicle(s.book) && FromHistory(s) && DistinctIds(s.book.history)
    requires s.connection.Open? && s.connection.batch == [] && CursorIsLastWritten(s)
    requires s.received + s.wire != [] && last == (s.received + s.wire)[|s.received + s.wire| - 1]
    ensures var batch := Next(on, s, Poll).connection.batch;
            (exists r :: r in batch && r.sequence <= last.sequence) <==>
            (last !in s.book.log.rows
             && exists r :: r in s.book.log.rows && r.profile in on.profiles && r.sequence <= last.sequence)
  {
    var rows := s.book.log.rows;
    var batch := Next(on, s, Poll).connection.batch;
    assert last in Pipeline(s) by { assert last in s.received + s.wire; }
    assert last.id == s.connection.cursor && last in s.book.history && last.id != "";
    if last in rows {
      ResolveRetained(rows, last);
      BatchInScope(rows, on.profiles, last.sequence, BATCH_LIMIT);
    } else {
      OnlyRowWithItsId(s.book, last);
      ResolveExpired(rows, last.id);
      BatchInScope(rows, on.profiles, 0, BATCH_LIMIT);
      if r :| r in rows && r.profile in on.profiles && r.sequence <= last.sequence {
        assert batch[0].sequence <= r.sequence && batch[0] in batch;
      }
    }
  }
}
