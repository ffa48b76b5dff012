/** What the rows of the DIRECT store say: the events that were offered, the times they carry, and what is read. */
module PublishLaws {
  import opened EventTable
  import opened DirectLog
  import opened Delivery

  // ---- The row of an accepted event ----

  /** The row holds the event's own fields, and its creation time is the event's or, without one, the clock's. */
  ghost predicate Carries(row: Row, offer: Offer) {
    && row.id == offer.event.id
    && row.dedupe == offer.event.dedupe
    && row.profile == offer.event.profile
    && row.body == offer.event.body
    && (offer.event.createdAt.Some? ==> row.createdAt == offer.event.createdAt.value)
    && (offer.event.createdAt.None? ==> row.createdAt == offer.clock)
  }

  lemma NewestAreMembers(rows: seq<Row>, n: nat)
    ensures forall r :: r in Newest(rows, n) ==> r in rows
    ensures |Newest(rows, n)| < n ==> Newest(rows, n) == rows
  {
  }

  /** An accepted publish stores a row that carries the event, as the newest row of the table. */
  lemma AcceptedRowCarriesTheEvent(policy: Policy, log: Log, offer: Offer)
    requires Consistent(log) && Published(policy, log, offer.event, offer.clock).accepted
    ensures var out := Published(policy, log, offer.event, offer.clock);
            && Carries(out.row, offer)
            && out.log.rows != [] && out.log.rows[|out.log.rows| - 1] == out.row
  {
    AcceptedRowSurvivesItsPrune(policy, log, offer.event, offer.clock);
  }

  lemma PrunedAreYoung(policy: Policy, rows: seq<Row>, now: real)
    requires Ascending(rows)
    ensures var kept, cutoff := Pruned(rows, now, policy), now - policy.retentionSeconds as real;
            && (forall r :: r in kept ==> r.createdAt >= cutoff)
            && (|kept| < policy.maxEvents ==> forall r :: r in rows && r.createdAt >= cutoff ==> r in kept)
  {
    var since := CreatedSince(now - policy.retentionSeconds as real);
    PrunedIsNewest(rows, now, policy);
    SelectMembers(rows, since);
    NewestAreMembers(Select(rows, since), policy.maxEvents);
  }

  /**
   Its prune is relative to that row's creation time: no older row than the retention allows is kept, and a row
   within it is dropped only when the bound is reached.
   */
  lemma PruneIsRelativeToTheRow(policy: Policy, log: Log, offer: Offer)
    requires Consistent(log) && Published(policy, log, offer.event, offer.clock).accepted
    ensures var out := Published(policy, log, offer.event, offer.clock);
            var cutoff := out.row.createdAt - policy.retentionSeconds as real;
            && (forall r :: r in out.log.rows ==> r.createdAt >= cutoff)
            && (|out.log.rows| < policy.maxEvents ==>
                  forall r :: r in log.rows && r.createdAt >= cutoff ==> r in out.log.rows)
  {
    var row := NewRow(log, offer.event, offer.clock);
    InsertKeepsOrderAndKeys(log, offer.event, offer.clock);
    PrunedAreYoung(policy, log.rows + [row], row.createdAt);
    assert forall r :: r in log.rows ==> r in log.rows + [row];
  }

  // ---- Whole histories ----

  /** The offers that a run accepted, in order. */
  function AcceptedOffers(policy: Policy, offers: seq<Offer>): seq<Offer> {
    if offers == [] then []
    else
      var front, last := offers[..|offers| - 1], offers[|offers| - 1];
      var accepted := AcceptedOffers(policy, front);
      if Published(policy, Replay(policy, front).log, last.event, last.clock).accepted then accepted + [last]
      else accepted
  }

  /** Over every run the history lists exactly the accepted events, each with its own fields and time. */
  lemma {:induction false} HistoryIsTheAcceptedEvents(policy: Policy, offers: seq<Offer>)
    ensures |Replay(policy, offers).history| == |AcceptedOffers(policy, offers)|
    ensures forall i :: 0 <= i < |AcceptedOffers(policy, offers)| ==>
              Carries(Replay(policy, offers).history[i], AcceptedOffers(policy, offers)[i])
  {
    if offers != [] {
      var front, last := offers[..|offers| - 1], offers[|offers| - 1];
      HistoryIsTheAcceptedEvents(policy, front);
      SequencesAreNeverReused(policy, front);
      if Published(policy, Replay(policy, front).log, last.event, last.clock).accepted {
        AcceptedRowCarriesTheEvent(policy, Replay(policy, front).log, last);
      }
    }
  }

  ghost predicate StampedInOrder(offers: seq<Offer>) {
    && (forall i :: 0 <= i < |offers| ==> offers[i].event.createdAt.None?)
    && (forall i, j :: 0 <= i < j < |offers| ==> offers[i].clock <= offers[j].clock)
  }

  lemma {:induction false} AcceptedKeepOrder(policy: Policy, offers: seq<Offer>)
    requires StampedInOrder(offers)
    ensures StampedInOrder(AcceptedOffers(policy, offers))
    ensures forall i :: 0 <= i < |AcceptedOffers(policy, offers)| ==>
              AcceptedOffers(policy, offers)[i].clock <= offers[|offers| - 1].clock
  {
    if offers != [] {
      var front := offers[..|offers| - 1];
      AcceptedKeepOrder(policy, front);
      if front != [] {
        assert front[|front| - 1] == offers[|offers| - 2];
      }
    }
  }

  /**
   A publisher that leaves the time to the store, under a clock that does not go back: every row carries the
   clock reading of its publish, the history is in time order, and the table is the one-shot window of it.
   */
  lemma ClockedPublishesAreWindowed(policy: Policy, offers: seq<Offer>)
    requires StampedInOrder(offers)
    ensures var book := Replay(policy, offers);
            && |book.history| == |AcceptedOffers(policy, offers)|
            && (forall i :: 0 <= i < |book.history| ==>
                  book.history[i].createdAt == AcceptedOffers(policy, offers)[i].clock)
            && InTimeOrder(book.history)
            && book.log.rows == Window(policy, book.history)
  {
    HistoryIsTheAcceptedEvents(policy, offers);
    AcceptedKeepOrder(policy, offers);
    var history, accepted := Replay(policy, offers).history, AcceptedOffers(policy, offers);
    assert forall i :: 0 <= i < |history| ==> Carries(history[i], accepted[i]);
    IncrementalPruningIsWindow(policy, offers);
  }

  // ---- How much a read returns ----

  function Min(a: int, b: int): int {
    if a < b then a else b
  }

  /** A read returns the first rows in scope: as many as asked for between 1 and 500, never more than 500. */
  lemma ReadsReturnTheLimit(rows: seq<Row>, profiles: seq<string>, cursor: string, limit: int)
    ensures var all := Select(rows, InScope(profiles, Resolve(rows, cursor)));
            var batch := ReadBatch(rows, profiles, cursor, limit);
            && batch <= all
            && (1 <= limit <= 500 ==> |batch| == Min(limit, |all|))
            && (limit > 500 ==> |batch| == Min(500, |all|))
            && (limit < 1 ==> |batch| == Min(1, |all|))
  {
  }

  /** The same for a read after a sequence. */
  lemma TakesTheLimit(all: seq<Row>, limit: int)
    ensures var taken := Take(all, BoundedLimit(limit));
            && taken <= all
            && (1 <= limit <= 500 ==> |taken| == Min(limit, |all|))
            && (limit > 500 ==> |taken| == Min(500, |all|))
            && (limit < 1 ==> |taken| == Min(1, |all|))
  {
  }

  /** A poll of an open stream with nothing left to write reads 100 rows, or all there are. */
  lemma PollsReadAHundred(on: Setting, s: Session)
    requires s.connection.Open? && s.connection.batch == []
    ensures var all := Select(s.book.log.rows, InScope(on.profiles, Resolve(s.book.log.rows, s.connection.cursor)));
            && Next(on, s, Poll).connection.Open?
            && Next(on, s, Poll).connection.batch <= all
            && |Next(on, s, Poll).connection.batch| == Min(100, |all|)
  {
    ReadsReturnTheLimit(s.book.log.rows, on.profiles, s.connection.cursor, BATCH_LIMIT);
  }
}
