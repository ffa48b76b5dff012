/** When event ids are never reused and timestamps never go back, delivery is exactly once and in order. */
module DeliveryOrder {
  import opened Filters
  import opened EventTable
  import opened DirectLog
  import opened Delivery

  /** The retained rows are everything accepted from index `first` on. */
  ghost predicate RetainsFrom(book: Book, first: nat) {
    first <= |book.history| && book.log.rows == book.history[first..]
  }

  /** What every row ever accepted satisfies in a well-behaved run. */
  ghost predicate WellBehaved(history: seq<Row>) {
    DistinctIds(history) && InTimeOrder(history)
  }

  lemma WindowIsSuffix(policy: Policy, history: seq<Row>) returns (first: nat)
    requires InTimeOrder(history)
    ensures first <= |history| && Window(policy, history) == history[first..]
  {
    first := 0;
    if history != [] {
      var k := CutIndex(history, history[|history| - 1].createdAt - policy.retentionSeconds as real);
      WindowOfAll(policy, history, k);
      first := Max(Max(0, |history| - policy.maxEvents), k);
    }
  }

  lemma SuffixIsNewer(history: seq<Row>, first: nat, gone: Row, kept: Row)
    requires first <= |history| && DistinctIds(history)
    requires forall i :: 0 <= i < |history| ==> history[i].sequence == i + 1
    requires gone in history && gone !in history[first..] && kept in history[first..]
    ensures kept.id != gone.id && kept.sequence > gone.sequence
  {
    var i :| 0 <= i < |history| && history[i] == gone;
    var j :| 0 <= j < |history[first..]| && history[first..][j] == kept;
    forall t | first <= t < |history| ensures history[t] != gone {
      assert history[first..][t - first] == history[t];
    }
    assert history[first + j] == kept;
  }

  /** The expired-cursor fallback is harmless: it reads the same rows as the lost sequence would. */
  lemma FallbackReadsTheSame(book: Book, first: nat, profiles: seq<string>, last: Row)
    requires Chronicle(book) && RetainsFrom(book, first) && DistinctIds(book.history)
    requires last in book.history && last.id != ""
    ensures Select(book.log.rows, InScope(profiles, Resolve(book.log.rows, last.id)))
         == Select(book.log.rows, InScope(profiles, last.sequence))
  {
    var rows := book.log.rows;
    if last in rows {
      ResolveRetained(rows, last);
    } else {
      forall r | r in rows ensures r.id != last.id && r.sequence > last.sequence {
        SuffixIsNewer(book.history, first, last, r);
      }
      ResolveExpired(rows, last.id);
      FilterAgrees(rows, InScope(profiles, 0).Holds, InScope(profiles, last.sequence).Holds);
    }
  }

  ghost predicate InOrder(on: Setting, s: Session) {
    && Chronicle(s.book) && FromHistory(s)
    && s.book.log.rows == Window(on.policy, s.book.history)
    && CursorIsLastWritten(s)
    && Ascending(Pipeline(s))
    && forall r :: r in Pipeline(s) ==> r.profile in on.profiles
  }

  lemma AscendingAppend(a: seq<Row>, b: seq<Row>)
    requires Ascending(a) && Ascending(b)
    requires a != [] ==> forall r :: r in b ==> r.sequence > a[|a| - 1].sequence
    ensures Ascending(a + b)
  {
    assert forall i :: 0 <= i < |b| ==> b[i] in b;
  }

  lemma AscendingPrefix(a: seq<Row>, b: seq<Row>)
    requires Ascending(b) && a <= b
    ensures Ascending(a)
  {
    assert forall i :: 0 <= i < |a| ==> a[i] == b[i];
  }

  lemma TakenInScope(rows: seq<Row>, profiles: seq<string>, above: int, n: nat)
    requires Ascending(rows)
    ensures var batch := Take(Select(rows, InScope(profiles, above)), n);
            Ascending(batch) && forall r :: r in batch ==> r.profile in profiles && r.sequence > above
  {
    var all := Select(rows, InScope(profiles, above));
    SelectMembers(rows, InScope(profiles, above));
    SelectAscending(rows, InScope(profiles, above));
    AscendingPrefix(Take(all, n), all);
    forall r | r in Take(all, n) ensures r in all {
      var i :| 0 <= i < |Take(all, n)| && Take(all, n)[i] == r;
      assert all[i] == r;
    }
  }

  /** Whatever the cursor resolves to, a poll reads in-scope rows newer than everything sent. */
  lemma BatchIsNew(book: Book, first: nat, profiles: seq<string>, sent: seq<Row>)
    requires Chronicle(book) && RetainsFrom(book, first) && DistinctIds(book.history)
    requires forall r :: r in sent ==> r in book.history && r.id != ""
    ensures var batch := ReadBatch(book.log.rows, profiles, LastId(sent), BATCH_LIMIT);
            && Ascending(batch)
            && (forall r :: r in batch ==> r.profile in profiles)
            && (sent != [] ==> forall r :: r in batch ==> r.sequence > sent[|sent| - 1].sequence)
  {
    if sent == [] {
      TakenInScope(book.log.rows, profiles, Resolve(book.log.rows, LastId(sent)), BATCH_LIMIT);
    } else {
      var last := sent[|sent| - 1];
      assert last in sent;
      FallbackReadsTheSame(book, first, profiles, last);
      TakenInScope(book.log.rows, profiles, last.sequence, BATCH_LIMIT);
    }
  }

  lemma PollKeepsOrder(on: Setting, s: Session)
    requires InOrder(on, s) && WellBehaved(s.book.history)
    ensures InOrder(on, Next(on, s, Poll))
  {
    var next := Next(on, s, Poll);
    FromHistoryStep(on, s, Poll);
    if s.connection.Open? && s.connection.batch == [] {
      var sent := s.received + s.wire;
      assert Pipeline(s) == sent;
      var first := WindowIsSuffix(on.policy, s.book.history);
      BatchIsNew(s.book, first, on.profiles, sent);
      AscendingAppend(sent, next.connection.batch);
      assert Pipeline(next) == sent + next.connection.batch;
    }
  }

  lemma PrefixMembers(a: seq<Row>, b: seq<Row>)
    requires a <= b
    ensures forall r :: r in a ==> r in b
  {
  }

  lemma OtherStepsKeepOrder(on: Setting, s: Session, step: Step)
    requires InOrder(on, s) && !step.Publish? && !step.Poll?
    ensures InOrder(on, Next(on, s, step))
  {
    var next := Next(on, s, step);
    OtherStepsOnlyDrop(on, s, step);
    AscendingPrefix(Pipeline(next), Pipeline(s));
    PrefixMembers(Pipeline(next), Pipeline(s));
  }

  lemma StepKeepsOrder(on: Setting, s: Session, step: Step)
    requires InOrder(on, s) && WellBehaved(Next(on, s, step).book.history)
    ensures InOrder(on, Next(on, s, step))
  {
    if step.Publish? {
      FromHistoryStep(on, s, step);
      RecordKeepsWindow(on.policy, s.book, step.offer);
      assert Pipeline(Next(on, s, step)) == Pipeline(s);
    } else if step.Poll? {
      PollKeepsOrder(on, s);
    } else {
      OtherStepsKeepOrder(on, s, step);
    }
  }

  lemma {:induction false} RunKeepsOrder(on: Setting, s: Session, steps: seq<Step>)
    requires InOrder(on, s) && WellBehaved(Run(on, s, steps).book.history)
    ensures InOrder(on, Run(on, s, steps))
    decreases |steps|
  {
    if steps != [] {
      var next := Next(on, s, steps[0]);
      HistoryOnlyGrows(on, next, steps[1..]);
      var all := Run(on, s, steps).book.history;
      assert forall i :: 0 <= i < |next.book.history| ==> next.book.history[i] == all[i];
      StepKeepsOrder(on, s, steps[0]);
      RunKeepsOrder(on, next, steps[1..]);
    }
  }

  /** What the client has is in order, in scope, and complete up to its last row. */
  ghost predicate InOrderWithoutGaps(on: Setting, s: Session) {
    && Ascending(s.received)
    && (forall r :: r in s.received ==> r in s.book.history && r.profile in on.profiles)
    && (s.received != [] ==>
          forall r | r in s.book.log.rows && r.profile in on.profiles
                     && r.sequence <= s.received[|s.received| - 1].sequence :: r in s.received)
  }

  /** The client's last row either still resolves to itself, or only newer rows are retained. */
  lemma LastRowStillBounds(on: Setting, s: Session, last: Row)
    requires InOrder(on, s) && WellBehaved(s.book.history) && last in Pipeline(s)
    ensures forall r :: r in s.book.log.rows && r.sequence <= last.sequence ==>
              r.sequence <= Resolve(s.book.log.rows, last.id)
  {
    if last in s.book.log.rows {
      ResolveRetained(s.book.log.rows, last);
    } else {
      var first := WindowIsSuffix(on.policy, s.book.history);
      forall r | r in s.book.log.rows ensures r.sequence > last.sequence {
        SuffixIsNewer(s.book.history, first, last, r);
      }
    }
  }

  lemma OrderAndCoverageLeaveNoGaps(on: Setting, s: Session)
    requires InOrder(on, s) && WellBehaved(s.book.history)
    requires Covers(s.book.log.rows, on.profiles, s.received)
    ensures InOrderWithoutGaps(on, s)
  {
    AscendingPrefix(s.received, Pipeline(s));
    assert forall r :: r in s.received ==> r in Pipeline(s);
    if s.received != [] {
      assert s.received[|s.received| - 1] in s.received;
      LastRowStillBounds(on, s, s.received[|s.received| - 1]);
    }
  }

  /**
   Exactly-once, in order, without gaps: if no two accepted events share an id and timestamps never decrease
   in sequence order, then over the whole run, across every reconnect, the received sequences strictly
   increase, and every retained in-scope event up to the last received one has been received.
   */
  lemma ExactlyOnceInOrder(on: Setting, steps: seq<Step>)
    requires WellBehaved(Run(on, START, steps).book.history)
    ensures InOrderWithoutGaps(on, Run(on, START, steps))
  {
    assert InOrder(on, START);
    RunKeepsOrder(on, START, steps);
    DistinctIdsAreNotReused(on, START, steps);
    AtLeastOnce(on, steps);
    OrderAndCoverageLeaveNoGaps(on, Run(on, START, steps));
  }
}
