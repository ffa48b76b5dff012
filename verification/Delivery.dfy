/**
 Delivery of notifications to one device: a publisher, the server's cursor stream and a client that
 reconnects with the last event id it received, interleaved step by step over one store.
 */
module Delivery {
  import opened PyText
  import opened EventTable
  import opened DirectLog

  const BATCH_LIMIT := 100

  /** The server's end of a stream: its cursor, and the rows it has read but not yet written. */
  datatype Connection = Closed | Open(cursor: string, batch: seq<Row>)

  /** `wire` holds frames written but not yet received; `received` is everything the client ever got. */
  datatype Session = Session(book: Book, connection: Connection, wire: seq<Row>, received: seq<Row>)

  datatype Step =
    | Publish(offer: Offer)
    | Connect                // the client opens a stream with its last received id; old frames are lost
    | Poll                   // the server reads the next batch
    | Write                  // the server writes one event
    | Stop(flushed: bool)    // deadline, read error or failed write, whose frame may still go out
    | Receive                // the client takes one frame

  datatype Setting = Setting(policy: Policy, profiles: seq<string>)

  function LastId(rows: seq<Row>): string {
    if rows == [] then "" else rows[|rows| - 1].id
  }

  function Next(on: Setting, s: Session, step: Step): Session {
    match step
    case Publish(offer) => s.(book := Record(on.policy, s.book, offer))
    case Connect => s.(connection := Open(LastId(s.received), []), wire := [])
    case Poll =>
      if s.connection.Open? && s.connection.batch == [] then
        s.(connection := Open(s.connection.cursor,
                              ReadBatch(s.book.log.rows, on.profiles, s.connection.cursor, BATCH_LIMIT)))
      else s
    case Write =>
      if s.connection.Open? && s.connection.batch != [] then
        var event := s.connection.batch[0];
        s.(connection := Open(event.id, s.connection.batch[1..]), wire := s.wire + [event])
      else s
    case Stop(flushed) =>
      if flushed && s.connection.Open? && s.connection.batch != [] then
        s.(connection := Closed, wire := s.wire + [s.connection.batch[0]])
      else s.(connection := Closed)
    case Receive =>
      if s.wire != [] then s.(received := s.received + [s.wire[0]], wire := s.wire[1..]) else s
  }

  function Run(on: Setting, s: Session, steps: seq<Step>): Session
    decreases |steps|
  {
    if steps == [] then s else Run(on, Next(on, s, steps[0]), steps[1..])
  }

  const START := Session(EMPTY_BOOK, Closed, [], [])

  // ---- At least once ----

  /** Everything on its way to the client, in order, after what the client has. */
  function Pipeline(s: Session): seq<Row> {
    s.received + s.wire + if s.connection.Open? then s.connection.batch else []
  }

  /** Every retained in-scope row up to the one the id of `sent`'s last row resolves to is in `sent`. */
  ghost predicate Covers(rows: seq<Row>, profiles: seq<string>, sent: seq<Row>) {
    forall r :: r in rows && r.profile in profiles && r.sequence <= Resolve(rows, LastId(sent)) ==> r in sent
  }

  ghost predicate CoversFrom(rows: seq<Row>, profiles: seq<string>, pipeline: seq<Row>, from: nat) {
    forall k :: from <= k <= |pipeline| ==> Covers(rows, profiles, pipeline[..k])
  }

  /** The stream's cursor is the id of the last row written, and the empty cursor before that. */
  predicate CursorIsLastWritten(s: Session) {
    s.connection.Open? ==> s.connection.cursor == LastId(s.received + s.wire)
  }

  /** The stream's cursor is the last written id, and no point of the pipeline skips a retained row. */
  ghost predicate NothingSkipped(on: Setting, s: Session) {
    && Chronicle(s.book)
    && CursorIsLastWritten(s)
    && CoversFrom(s.book.log.rows, on.profiles, Pipeline(s), |s.received|)
  }

  /** An id is held while it is the client's last id, or the id of a row still on its way. */
  ghost predicate Held(s: Session, id: string) {
    exists k :: |s.received| <= k <= |Pipeline(s)| && LastId(Pipeline(s)[..k]) == id
  }

  /** The one thing the publisher must not do: store a new event under an id that is held. */
  ghost predicate ReusesHeldId(on: Setting, s: Session, step: Step) {
    && step.Publish?
    && Published(on.policy, s.book.log, step.offer.event, step.offer.clock).accepted
    && Held(s, step.offer.event.id)
  }

  ghost predicate NeverReusesHeldId(on: Setting, s: Session, steps: seq<Step>)
    decreases |steps|
  {
    steps == [] || (!ReusesHeldId(on, s, steps[0]) && NeverReusesHeldId(on, Next(on, s, steps[0]), steps[1..]))
  }

  /** An accepted publish leaves what an id resolves to unchanged, or expires it, unless it stores that id. */
  lemma ResolveAfterPublish(policy: Policy, log: Log, event: Event, clock: real, id: string)
    requires Consistent(log) && Published(policy, log, event, clock).accepted && id != event.id
    ensures var after := Resolve(Published(policy, log, event, clock).log.rows, id);
            after == 0 || after == Resolve(log.rows, id)
  {
    var out := Published(policy, log, event, clock);
    PublishKeepsConsistent(policy, log, event, clock);
    AcceptedRowSurvivesItsPrune(policy, log, event, clock);
    if r :| r in out.log.rows && r.id == id {
      ResolveRetained(out.log.rows, r);
      ResolveRetained(log.rows, r);
    } else {
      ResolveExpired(out.log.rows, id);
    }
  }

  lemma ResolveInRange(log: Log, id: string)
    requires Consistent(log)
    ensures Resolve(log.rows, id) <= log.issued
  {
    if id != "" {
      SelectMembers(log.rows, HasId(id));
      var named := Select(log.rows, HasId(id));
      assert named != [] ==> named[0] in named;
    }
  }

  lemma CoversAfterPublish(policy: Policy, profiles: seq<string>, log: Log, event: Event, clock: real, sent: seq<Row>)
    requires Consistent(log) && Published(policy, log, event, clock).accepted
    requires Covers(log.rows, profiles, sent) && LastId(sent) != event.id
    ensures Covers(Published(policy, log, event, clock).log.rows, profiles, sent)
  {
    PublishKeepsConsistent(policy, log, event, clock);
    AcceptedRowSurvivesItsPrune(policy, log, event, clock);
    ResolveAfterPublish(policy, log, event, clock, LastId(sent));
    ResolveInRange(log, LastId(sent));
  }

  lemma PrefixHas(all: seq<Row>, k: nat, r: Row)
    requires 0 < k <= |all| && Ascending(all) && r in all && r.sequence <= all[k - 1].sequence
    ensures r in all[..k]
  {
    var i :| 0 <= i < |all| && all[i] == r;
    assert all[..k][i] == r;
  }

  /** Rows that a scoped read returns are covered as they are taken over, one by one. */
  lemma TakenAreCovered(rows: seq<Row>, profiles: seq<string>, sent: seq<Row>, k: nat)
    requires Readable(rows) && Covers(rows, profiles, sent)
    requires 0 < k <= |Select(rows, InScope(profiles, Resolve(rows, LastId(sent))))|
    ensures var all := Select(rows, InScope(profiles, Resolve(rows, LastId(sent))));
            && all[k - 1] in rows
            && forall r :: r in rows && r.profile in profiles && r.sequence <= all[k - 1].sequence ==>
                 r in sent || r in all[..k]
  {
    var above := Resolve(rows, LastId(sent));
    var scope := InScope(profiles, above);
    var all := Select(rows, scope);
    SelectMembers(rows, scope);
    SelectAscending(rows, scope);
    assert all[k - 1] in all;
    forall r | r in rows && r.profile in profiles && r.sequence <= all[k - 1].sequence && r !in sent
      ensures r in all[..k]
    {
      PrefixHas(all, k, r);
    }
  }

  /** Reading a batch extends the covered prefix row by row. */
  lemma CoversBatch(rows: seq<Row>, profiles: seq<string>, sent: seq<Row>, k: nat)
    requires Readable(rows) && Covers(rows, profiles, sent)
    requires k <= |ReadBatch(rows, profiles, LastId(sent), BATCH_LIMIT)|
    ensures Covers(rows, profiles, sent + ReadBatch(rows, profiles, LastId(sent), BATCH_LIMIT)[..k])
  {
    var all := Select(rows, InScope(profiles, Resolve(rows, LastId(sent))));
    var batch := ReadBatch(rows, profiles, LastId(sent), BATCH_LIMIT);
    if k > 0 {
      assert batch[..k] == all[..k];
      TakenAreCovered(rows, profiles, sent, k);
      ResolveRetained(rows, all[k - 1]);
      assert LastId(sent + batch[..k]) == all[k - 1].id;
    } else {
      assert sent + batch[..k] == sent;
    }
  }

  /** What a poll appends to the pipeline keeps every point of it covered. */
  lemma CoversFromPoll(rows: seq<Row>, profiles: seq<string>, sent: seq<Row>, from: nat)
    requires Readable(rows) && from <= |sent| && CoversFrom(rows, profiles, sent, from)
    ensures CoversFrom(rows, profiles, sent + ReadBatch(rows, profiles, LastId(sent), BATCH_LIMIT), from)
  {
    var batch := ReadBatch(rows, profiles, LastId(sent), BATCH_LIMIT);
    assert sent[..|sent|] == sent;
    forall k | from <= k <= |sent + batch| ensures Covers(rows, profiles, (sent + batch)[..k]) {
      PrefixOfSum(sent, batch, k);
      if k > |sent| {
        CoversBatch(rows, profiles, sent, k - |sent|);
      }
    }
  }

  lemma PollKeepsNothingSkipped(on: Setting, s: Session)
    requires NothingSkipped(on, s) && s.connection.Open? && s.connection.batch == []
    ensures NothingSkipped(on, Next(on, s, Poll))
  {
    assert Pipeline(s) == s.received + s.wire;
    CoversFromPoll(s.book.log.rows, on.profiles, s.received + s.wire, |s.received|);
  }

  lemma PublishKeepsNothingSkipped(on: Setting, s: Session, offer: Offer)
    requires NothingSkipped(on, s) && !ReusesHeldId(on, s, Step.Publish(offer))
    ensures NothingSkipped(on, Next(on, s, Step.Publish(offer)))
  {
    RecordKeepsChronicle(on.policy, s.book, offer);
    var next := Next(on, s, Step.Publish(offer));
    if Published(on.policy, s.book.log, offer.event, offer.clock).accepted {
      assert Pipeline(next) == Pipeline(s);
      forall k | |s.received| <= k <= |Pipeline(s)|
        ensures Covers(next.book.log.rows, on.profiles, Pipeline(s)[..k])
      {
        CoversAfterPublish(on.policy, on.profiles, s.book.log, offer.event, offer.clock, Pipeline(s)[..k]);
      }
    }
  }

  /** Steps other than publish and poll move or drop rows, and leave a prefix of the pipeline. */
  lemma OtherStepsOnlyDrop(on: Setting, s: Session, step: Step)
    requires !step.Publish? && !step.Poll? && CursorIsLastWritten(s)
    ensures var next := Next(on, s, step);
            && Pipeline(next) <= Pipeline(s) && |s.received| <= |next.received|
            && next.book == s.book && CursorIsLastWritten(next)
  {
    var next := Next(on, s, step);
    if step.Write? && s.connection.Open? && s.connection.batch != [] {
      assert next.received + next.wire == s.received + s.wire + [s.connection.batch[0]];
    } else if step.Receive? {
      assert next.received + next.wire == s.received + s.wire;
    }
  }

  lemma OtherStepsKeepNothingSkipped(on: Setting, s: Session, step: Step)
    requires NothingSkipped(on, s) && !step.Publish? && !step.Poll?
    ensures NothingSkipped(on, Next(on, s, step))
  {
    var next := Next(on, s, step);
    OtherStepsOnlyDrop(on, s, step);
    assert forall k :: |next.received| <= k <= |Pipeline(next)| ==> Pipeline(next)[..k] == Pipeline(s)[..k];
  }

  /** Every run in which no held id is reused leaves no retained in-scope event behind. */
  lemma {:induction false} NothingIsSkipped(on: Setting, s: Session, steps: seq<Step>)
    requires NothingSkipped(on, s) && NeverReusesHeldId(on, s, steps)
    ensures NothingSkipped(on, Run(on, s, steps))
    decreases |steps|
  {
    if steps != [] {
      if steps[0].Publish? {
        PublishKeepsNothingSkipped(on, s, steps[0].offer);
      } else if steps[0].Poll? {
        if s.connection.Open? && s.connection.batch == [] {
          PollKeepsNothingSkipped(on, s);
        }
      } else {
        OtherStepsKeepNothingSkipped(on, s, steps[0]);
      }
      NothingIsSkipped(on, Next(on, s, steps[0]), steps[1..]);
    }
  }

  /** An idle stream is one whose poll finds nothing while nothing is on its way. */
  ghost predicate Idle(on: Setting, s: Session) {
    && s.connection.Open? && s.connection.batch == [] && s.wire == []
    && Next(on, s, Poll).connection.batch == []
  }

  lemma IdleHasEverything(on: Setting, s: Session)
    requires CursorIsLastWritten(s) && Idle(on, s) && Covers(s.book.log.rows, on.profiles, s.received)
    ensures forall r :: r in s.book.log.rows && r.profile in on.profiles ==> r in s.received
  {
    var scope := InScope(on.profiles, Resolve(s.book.log.rows, s.connection.cursor));
    SelectMembers(s.book.log.rows, scope);
    assert Select(s.book.log.rows, scope) == [];
    assert s.received + s.wire == s.received;
  }

  /**
   At-least-once delivery: in every run in which no held id is reused, every retained in-scope event up to
   the one the client's cursor resolves to has been received; and whenever the stream is idle, the client has
   received every retained in-scope event.
   */
  lemma AtLeastOnce(on: Setting, steps: seq<Step>)
    requires NeverReusesHeldId(on, START, steps)
    ensures var s := Run(on, START, steps);
            && Covers(s.book.log.rows, on.profiles, s.received)
            && (Idle(on, s) ==> forall r :: r in s.book.log.rows && r.profile in on.profiles ==> r in s.received)
  {
    assert NothingSkipped(on, START);
    NothingIsSkipped(on, START, steps);
    var s := Run(on, START, steps);
    assert Pipeline(s)[..|s.received|] == s.received;
    if Idle(on, s) {
      IdleHasEverything(on, s);
    }
  }

  /** Ids that are never stored twice are in particular never reused while held. */
  ghost predicate DistinctIds(history: seq<Row>) {
    forall i, j :: 0 <= i < j < |history| ==> history[i].id != history[j].id
  }

  lemma {:induction false} HistoryOnlyGrows(on: Setting, s: Session, steps: seq<Step>)
    ensures s.book.history <= Run(on, s, steps).book.history
    decreases |steps|
  {
    if steps != [] {
      HistoryOnlyGrows(on, Next(on, s, steps[0]), steps[1..]);
    }
  }

  ghost predicate FromHistory(s: Session) {
    forall r :: r in Pipeline(s) ==> r in s.book.history && r.id != ""
  }

  lemma FromHistoryStep(on: Setting, s: Session, step: Step)
    requires Chronicle(s.book) && FromHistory(s)
    ensures Chronicle(Next(on, s, step).book) && FromHistory(Next(on, s, step))
  {
    var next := Next(on, s, step);
    if step.Publish? {
      RecordKeepsChronicle(on.policy, s.book, step.offer);
      assert s.book.history <= next.book.history;
    } else if step.Poll? && next != s {
      SelectMembers(s.book.log.rows, InScope(on.profiles, Resolve(s.book.log.rows, s.connection.cursor)));
      forall r | r in Pipeline(next) ensures r in s.book.history && r.id != "" {
        assert r in Pipeline(s) || r in s.book.log.rows;
      }
    } else {
      assert forall r :: r in Pipeline(next) ==> r in Pipeline(s);
    }
  }

  lemma {:induction false} FromHistoryRun(on: Setting, s: Session, steps: seq<Step>)
    requires Chronicle(s.book) && FromHistory(s)
    ensures Chronicle(Run(on, s, steps).book) && FromHistory(Run(on, s, steps))
    decreases |steps|
  {
    if steps != [] {
      FromHistoryStep(on, s, steps[0]);
      FromHistoryRun(on, Next(on, s, steps[0]), steps[1..]);
    }
  }

  lemma UnusedIdIsNotHeld(s: Session, id: string)
    requires FromHistory(s) && id != "" && forall r :: r in s.book.history ==> r.id != id
    ensures !Held(s, id)
  {
    forall k | |s.received| <= k <= |Pipeline(s)| ensures LastId(Pipeline(s)[..k]) != id {
      if k > 0 {
        assert Pipeline(s)[k - 1] in Pipeline(s);
      }
    }
  }

  lemma {:induction false} DistinctIdsAreNotReused(on: Setting, s: Session, steps: seq<Step>)
    requires Chronicle(s.book) && FromHistory(s) && DistinctIds(Run(on, s, steps).book.history)
    ensures NeverReusesHeldId(on, s, steps)
    decreases |steps|
  {
    if steps != [] {
      var next := Next(on, s, steps[0]);
      FromHistoryStep(on, s, steps[0]);
      DistinctIdsAreNotReused(on, next, steps[1..]);
      HistoryOnlyGrows(on, next, steps[1..]);
      if steps[0].Publish? && Published(on.policy, s.book.log, steps[0].offer.event, steps[0].offer.clock).accepted {
        var all, count, id := Run(on, s, steps).book.history, |s.book.history|, steps[0].offer.event.id;
        assert all[count].id == id;
        forall r | r in s.book.history ensures r.id != id {
          var i :| 0 <= i < count && s.book.history[i] == r;
          assert all[i] == next.book.history[i] == r;
        }
        UnusedIdIsNotHeld(s, id);
      }
    }
  }
}
