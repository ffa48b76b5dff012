/** Two concrete runs from an empty store: one in which an event is lost, and one in which an event is repeated. */
module DeliveryExamples {
  import opened Wrappers
  import opened Filters
  import opened EventTable
  import opened DirectLog
  import opened Delivery
  import opened StreamLoop
  import opened DeliveryLimits

  lemma SelectOne(row: Row, where: Where)
    ensures Select([row], where) == if where.Holds(row) then [row] else []
  {
    FilterPush([], row, where.Holds);
    assert [] + [row] == [row];
  }

  lemma SelectPush(rows: seq<Row>, row: Row, where: Where)
    ensures Select(rows + [row], where) == if where.Holds(row) then Select(rows, where) + [row] else Select(rows, where)
  {
    FilterPush(rows, row, where.Holds);
  }

  /** Some events are published, and the client catches up. */
  lemma PublishThenDrain(on: Setting, s: Session, offers: seq<Offer>) returns (steps: seq<Step>)
    requires Readable(BookAfter(on.policy, s.book, offers).log.rows)
    ensures var rows, end := BookAfter(on.policy, s.book, offers).log.rows, Run(on, s, steps);
            && end.book == BookAfter(on.policy, s.book, offers)
            && end.received == s.received + Select(rows, InScope(on.profiles, Resolve(rows, LastId(s.received))))
  {
    PublishesRun(on, s, offers);
    var drain := QuietStoreIsDrained(on, s.(book := BookAfter(on.policy, s.book, offers)));
    steps := Publishes(offers) + drain;
    RunAppend(on, s, Publishes(offers), drain);
  }

  lemma StepThen(on: Setting, s: Session, step: Step, rest: seq<Step>)
    ensures Run(on, s, [step] + rest) == Run(on, Next(on, s, step), rest)
  {
    assert ([step] + rest)[1..] == rest;
  }

  lemma BookAfterOne(policy: Policy, book: Book, offer: Offer)
    ensures BookAfter(policy, book, [offer]) == Record(policy, book, offer)
  {
  }

  // ---- An event is lost ----

  const ONE_EVENT := Setting(Bounds(60, 1), ["p"])

  const SEEN := Offer(Event("a", "1", "p", Some(0.0), ""), 0.0)
  const OTHER := Offer(Event("b", "2", "p", Some(0.0), ""), 0.0)
  const SEEN_AGAIN := Offer(Event("a", "3", "p", Some(0.0), ""), 0.0)

  lemma OneRowIsConsistent(row: Row, issued: nat)
    requires 1 <= row.sequence <= issued && row.id != ""
    ensures Consistent(Log([row], issued)) && Readable([row])
  {
  }

  /** A store of one event holds nothing but the row it accepted last. */
  lemma OnlyTheNewRow(policy: Policy, log: Log, offer: Offer)
    requires policy.maxEvents == 1
    requires Consistent(log) && Published(policy, log, offer.event, offer.clock).accepted
    ensures Published(policy, log, offer.event, offer.clock).log.rows == [NewRow(log, offer.event, offer.clock)]
  {
    AcceptedRowSurvivesItsPrune(policy, log, offer.event, offer.clock);
  }

  lemma NewKeysAreAccepted(policy: Policy, log: Log, row: Row, offer: Offer)
    requires log.rows == [row] && row.id != offer.event.id && row.dedupe != offer.event.dedupe
    ensures Published(policy, log, offer.event, offer.clock).accepted
  {
    SelectOne(row, EitherKey(offer.event.id, offer.event.dedupe));
  }

  lemma OneIsKept(policy: Policy, row: Row)
    ensures Pruned([row], row.createdAt, policy) == [row]
  {
    SelectOne(row, CreatedSince(row.createdAt - policy.retentionSeconds as real));
  }

  lemma FirstIsStored(policy: Policy, offer: Offer)
    ensures var row := NewRow(Log([], 0), offer.event, offer.clock);
            Record(policy, EMPTY_BOOK, offer) == Book(Log([row], 1), [row])
  {
    var row := NewRow(Log([], 0), offer.event, offer.clock);
    OneIsKept(policy, row);
    assert [] + [row] == [row];
  }

  lemma LastReceivedIsHeld(s: Session)
    ensures Held(s, LastId(s.received))
  {
    assert Pipeline(s)[..|s.received|] == s.received;
  }

  lemma OneIsRead(profiles: seq<string>, row: Row)
    requires row.profile in profiles && row.sequence >= 1
    ensures [] + Select([row], InScope(profiles, Resolve([row], LastId([])))) == [row]
  {
    SelectOne(row, InScope(profiles, 0));
    assert [] + [row] == [row];
  }

  /** The first event of an empty store is published and delivered. */
  lemma FirstIsDelivered(on: Setting, offer: Offer) returns (steps: seq<Step>)
    requires offer.event.profile in on.profiles
    ensures var row, end := NewRow(Log([], 0), offer.event, offer.clock), Run(on, START, steps);
            && end.book == Book(Log([row], 1), [row]) && end.received == [row]
  {
    var row := NewRow(Log([], 0), offer.event, offer.clock);
    FirstIsStored(on.policy, offer);
    BookAfterOne(on.policy, EMPTY_BOOK, offer);
    OneRowIsConsistent(row, 1);
    OneIsRead(on.profiles, row);
    steps := PublishThenDrain(on, START, [offer]);
  }

  /** Another event displaces the delivered one: the id of the delivered one is free again, and still held. */
  lemma DisplacedIdIsHeld(on: Setting, s: Session, row: Row, second: Offer, again: Offer)
    requires on.policy.maxEvents == 1
    requires s.book == Book(Log([row], 1), [row]) && s.received == [row] && row.sequence == 1
    requires row.id != "" && row.id != second.event.id && row.dedupe != second.event.dedupe
    requires again.event.id == row.id && again.event.dedupe != second.event.dedupe
    ensures ReusesHeldId(on, Next(on, s, Step.Publish(second)), Step.Publish(again))
  {
    var end := Next(on, s, Step.Publish(second));
    OneRowIsConsistent(row, 1);
    NewKeysAreAccepted(on.policy, s.book.log, row, second);
    OnlyTheNewRow(on.policy, s.book.log, second);
    NewKeysAreAccepted(on.policy, end.book.log, NewRow(s.book.log, second.event, second.clock), again);
    LastReceivedIsHeld(end);
  }

  /** A run that loses an event: it is retained and in scope, and a reconnect is sent nothing. */
  lemma AnEventIsLost() returns (steps: seq<Step>)
    ensures var end := Run(ONE_EVENT, START, steps);
            && Next(ONE_EVENT, Next(ONE_EVENT, end, Connect), Poll).connection.batch == []
            && exists r :: r in end.book.log.rows && r.profile in ONE_EVENT.profiles && r !in end.received
  {
    var on := ONE_EVENT;
    var first := FirstIsDelivered(on, SEEN);
    var delivered := Run(on, START, first);
    DisplacedIdIsHeld(on, delivered, NewRow(Log([], 0), SEEN.event, SEEN.clock), OTHER, SEEN_AGAIN);
    FromHistoryRun(on, START, first);
    var s := Next(on, delivered, Step.Publish(OTHER));
    FromHistoryStep(on, delivered, Step.Publish(OTHER));
    var rest := ReusedIdSkipsExactly(on, s, SEEN_AGAIN);
    steps := first + ([Step.Publish(OTHER)] + ([Step.Publish(SEEN_AGAIN)] + rest));
    RunAppend(on, START, first, [Step.Publish(OTHER)] + ([Step.Publish(SEEN_AGAIN)] + rest));
    StepThen(on, delivered, Step.Publish(OTHER), [Step.Publish(SEEN_AGAIN)] + rest);
    StepThen(on, s, Step.Publish(SEEN_AGAIN), rest);
  }

  // ---- An event is repeated ----

  const TEN_EVENTS := Setting(Bounds(60, 10), ["p"])

  const LATE := Offer(Event("a", "1", "p", Some(100.0), ""), 0.0)
  const EARLY := Offer(Event("b", "2", "p", Some(0.0), ""), 0.0)
  const MIDDLE := Offer(Event("c", "3", "p", Some(70.0), ""), 0.0)

  const LATE_ROW := Row(1, "a", "1", "p", 100.0, "")
  const EARLY_ROW := Row(2, "b", "2", "p", 0.0, "")
  const MIDDLE_ROW := Row(3, "c", "3", "p", 70.0, "")

  const TWO_ROWS := [LATE_ROW] + [EARLY_ROW]

  lemma EarlyIsStored()
    ensures Record(TEN_EVENTS.policy, Book(Log([LATE_ROW], 1), [LATE_ROW]), EARLY) == Book(Log(TWO_ROWS, 2), TWO_ROWS)
  {
    SelectOne(LATE_ROW, EitherKey("b", "2"));
    SelectOne(LATE_ROW, CreatedSince(-60.0));
    SelectPush([LATE_ROW], EARLY_ROW, CreatedSince(-60.0));
  }

  lemma TwoAreStored()
    ensures BookAfter(TEN_EVENTS.policy, EMPTY_BOOK, [LATE, EARLY]) == Book(Log(TWO_ROWS, 2), TWO_ROWS)
  {
    FirstIsStored(TEN_EVENTS.policy, LATE);
    EarlyIsStored();
    assert [LATE, EARLY][1..] == [EARLY];
    BookAfterOne(TEN_EVENTS.policy, Book(Log([LATE_ROW], 1), [LATE_ROW]), EARLY);
  }

  /** The third event expires the second and leaves the first, which is older in sequence. */
  lemma TheSecondExpires()
    ensures Record(TEN_EVENTS.policy, Book(Log(TWO_ROWS, 2), TWO_ROWS), MIDDLE)
         == Book(Log([LATE_ROW] + [MIDDLE_ROW], 3), TWO_ROWS + [MIDDLE_ROW])
  {
    SelectOne(LATE_ROW, EitherKey("c", "3"));
    SelectPush([LATE_ROW], EARLY_ROW, EitherKey("c", "3"));
    SelectOne(LATE_ROW, CreatedSince(10.0));
    SelectPush([LATE_ROW], EARLY_ROW, CreatedSince(10.0));
    SelectPush(TWO_ROWS, MIDDLE_ROW, CreatedSince(10.0));
  }

  lemma AllInScope()
    ensures var scope := InScope(TEN_EVENTS.profiles, 0);
            && Select(TWO_ROWS, scope) == TWO_ROWS
            && Select([LATE_ROW] + [MIDDLE_ROW], scope) == [LATE_ROW] + [MIDDLE_ROW]
    ensures Resolve([LATE_ROW] + [MIDDLE_ROW], "b") == 0
  {
    var scope := InScope(TEN_EVENTS.profiles, 0);
    SelectOne(LATE_ROW, scope);
    SelectPush([LATE_ROW], EARLY_ROW, scope);
    SelectPush([LATE_ROW], MIDDLE_ROW, scope);
    SelectOne(LATE_ROW, HasId("b"));
    SelectPush([LATE_ROW], MIDDLE_ROW, HasId("b"));
  }

  lemma RowsAreReadable()
    ensures Readable(TWO_ROWS) && Readable([LATE_ROW] + [MIDDLE_ROW])
    ensures DistinctIds(TWO_ROWS + [MIDDLE_ROW]) && LastId(TWO_ROWS) == "b"
  {
  }

  lemma FirstAndThird<T>(w: T, x: T, y: T, z: T)
    ensures var s := [w] + [x] + ([y] + [z]);
            |s| == 4 && s[0] == w && s[2] == y
  {
  }

  /** What the client has after catching up twice. */
  lemma DrainTwice(on: Setting, offers: seq<Offer>, last: Offer, before: Book, after: Book) returns (steps: seq<Step>)
    requires BookAfter(on.policy, EMPTY_BOOK, offers) == before && Record(on.policy, before, last) == after
    requires Readable(before.log.rows) && Readable(after.log.rows)
    ensures var end, first := Run(on, START, steps), Select(before.log.rows, InScope(on.profiles, 0));
            && end.book == after
            && end.received
                 == first + Select(after.log.rows, InScope(on.profiles, Resolve(after.log.rows, LastId(first))))
  {
    var first := PublishThenDrain(on, START, offers);
    var delivered := Run(on, START, first);
    var sent := Select(before.log.rows, InScope(on.profiles, 0));
    assert [] + sent == sent;
    BookAfterOne(on.policy, before, last);
    var second := PublishThenDrain(on, delivered, [last]);
    steps := first + second;
    RunAppend(on, START, first, second);
  }

  /** A run without a repeated id, but with timestamps that go back, in which one row is received twice. */
  lemma AnEventIsRepeated() returns (steps: seq<Step>)
    ensures var end := Run(TEN_EVENTS, START, steps);
            && DistinctIds(end.book.history)
            && |end.received| == 4 && end.received[0] == end.received[2]
  {
    TwoAreStored();
    TheSecondExpires();
    AllInScope();
    RowsAreReadable();
    FirstAndThird(LATE_ROW, EARLY_ROW, LATE_ROW, MIDDLE_ROW);
    steps := DrainTwice(TEN_EVENTS, [LATE, EARLY], MIDDLE, Book(Log(TWO_ROWS, 2), TWO_ROWS),
                        Book(Log([LATE_ROW] + [MIDDLE_ROW], 3), TWO_ROWS + [MIDDLE_ROW]));
  }
}
