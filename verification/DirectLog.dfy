/**
 The DIRECT notification store: a table with two unique keys and a sequence that is
 never reused, pruned by age and then by count inside every accepted insert.
 */
module DirectLog {
  import opened Wrappers
  import opened PyText
  import opened Filters
  import opened EventTable

  const DEFAULT_RETENTION_SECONDS := 7 * 24 * 60 * 60
  const DEFAULT_MAX_EVENTS := 10_000

  datatype Bounds = Bounds(retentionSeconds: int, maxEvents: int)

  /** What the constructor leaves of the configured bounds. */
  type Policy = b: Bounds | b.retentionSeconds >= 60 && b.maxEvents >= 1 witness Bounds(60, 1)

  predicate IsIdentifierChar(c: char) {
    IsAsciiAlnum(c) || c == '.' || c == '_' || c == ':' || c == '-'
  }

  /** `[A-Za-z0-9._:-]{1,160}` as a full match. */
  predicate IsIdentifier(s: string) {
    1 <= |s| <= 160 && forall c :: c in s ==> IsIdentifierChar(c)
  }

  datatype RawEvent = Event(id: string, dedupe: string, profile: string, createdAt: Option<real>, body: string)

  /** An event as `validate_event` returns it: its identifiers are checked, `created_at` is optional. */
  type Event = e: RawEvent | IsIdentifier(e.id) && IsIdentifier(e.dedupe) && IsIdentifier(e.profile)
    witness Event("e", "d", "p", None, "")

  /** The table and the largest sequence AUTOINCREMENT has handed out. */
  datatype Log = Log(rows: seq<Row>, issued: nat)

  /** What `publish` returns, the state it leaves, and whether the insert was accepted. */
  datatype Outcome = Outcome(log: Log, row: Row, accepted: bool)

  ghost predicate UniqueKeys(rows: seq<Row>) {
    forall i, j :: 0 <= i < j < |rows| ==> rows[i].id != rows[j].id && rows[i].dedupe != rows[j].dedupe
  }

  ghost predicate Consistent(log: Log) {
    && Ascending(log.rows)
    && UniqueKeys(log.rows)
    && forall row :: row in log.rows ==> 1 <= row.sequence <= log.issued && row.id != ""
  }

  function NewRow(log: Log, event: Event, clock: real): Row {
    var createdAt := if event.createdAt.Some? then event.createdAt.value else clock;
    Row(log.issued + 1, event.id, event.dedupe, event.profile, createdAt, event.body)
  }

  /** The two DELETE statements of `_prune`, keeping what they do not delete. */
  function Pruned(rows: seq<Row>, now: real, policy: Policy): seq<Row> {
    var young := Select(rows, CreatedSince(now - policy.retentionSeconds as real));
    if |young| > policy.maxEvents then
      Select(young, SequenceAbove(young[|young| - 1 - policy.maxEvents].sequence))
    else
      young
  }

  function Published(policy: Policy, log: Log, event: Event, clock: real): Outcome {
    var clash := Select(log.rows, EitherKey(event.id, event.dedupe));
    if clash != [] then
      Outcome(log, clash[0], false)
    else
      var row := NewRow(log, event, clock);
      Outcome(Log(Pruned(log.rows + [row], row.createdAt, policy), row.sequence), row, true)
  }

  // ---- What one publish promises ----

  lemma PrunedIsNewest(rows: seq<Row>, now: real, policy: Policy)
    requires Ascending(rows)
    ensures Pruned(rows, now, policy)
         == Newest(Select(rows, CreatedSince(now - policy.retentionSeconds as real)), policy.maxEvents)
  {
    var since := CreatedSince(now - policy.retentionSeconds as real);
    var young := Select(rows, since);
    SelectAscending(rows, since);
    if |young| > policy.maxEvents {
      SelectAbove(young, |young| - 1 - policy.maxEvents);
    }
  }

  lemma {:induction false} FilterUnique(rows: seq<Row>, f: Row -> bool)
    requires UniqueKeys(rows)
    ensures UniqueKeys(Filter(rows, f))
  {
    if rows != [] {
      var front, last := rows[..|rows| - 1], rows[|rows| - 1];
      FilterUnique(front, f);
      FilterMembers(front, f);
      forall r | r in Filter(front, f) ensures r.id != last.id && r.dedupe != last.dedupe {
        var i :| 0 <= i < |front| && front[i] == r;
        assert rows[i] == r;
      }
    }
  }

  /** Pruning keeps order and uniqueness, and never adds a row. */
  lemma PrunedIsSubtable(rows: seq<Row>, now: real, policy: Policy)
    requires Ascending(rows) && UniqueKeys(rows)
    ensures var kept := Pruned(rows, now, policy);
            Ascending(kept) && UniqueKeys(kept) && forall r :: r in kept ==> r in rows
  {
    var since := CreatedSince(now - policy.retentionSeconds as real);
    SelectAscending(rows, since);
    FilterUnique(rows, since.Holds);
    SelectMembers(rows, since);
    PrunedIsNewest(rows, now, policy);
  }

  /** Adding the row an insert would create to a table that holds neither of its keys. */
  lemma InsertKeepsOrderAndKeys(log: Log, event: Event, clock: real)
    requires Consistent(log) && Select(log.rows, EitherKey(event.id, event.dedupe)) == []
    ensures Ascending(log.rows + [NewRow(log, event, clock)])
    ensures UniqueKeys(log.rows + [NewRow(log, event, clock)])
  {
    var keys := EitherKey(event.id, event.dedupe);
    SelectMembers(log.rows, keys);
    forall i | 0 <= i < |log.rows| ensures !keys.Holds(log.rows[i]) && log.rows[i].sequence <= log.issued {
      assert log.rows[i] in log.rows;
    }
  }

  lemma PublishKeepsConsistent(policy: Policy, log: Log, event: Event, clock: real)
    requires Consistent(log)
    ensures Consistent(Published(policy, log, event, clock).log)
  {
    if Select(log.rows, EitherKey(event.id, event.dedupe)) == [] {
      var row := NewRow(log, event, clock);
      InsertKeepsOrderAndKeys(log, event, clock);
      PrunedIsSubtable(log.rows + [row], row.createdAt, policy);
    }
  }

  /** At most two rows of a table with unique keys carry one of two given keys. */
  lemma AtMostTwoMatch(rows: seq<Row>, id: string, dedupe: string)
    requires UniqueKeys(rows)
    ensures |Select(rows, EitherKey(id, dedupe))| <= 2
  {
    var keys := EitherKey(id, dedupe);
    var clash := Select(rows, keys);
    SelectMembers(rows, keys);
    if |clash| > 2 {
      assert clash[0] in clash && clash[1] in clash && clash[2] in clash;
      FilterUnique(rows, keys.Holds);
      assert false;
    }
  }

  /**
   Two-key idempotence: an insert is accepted exactly when no retained row carries either key.
   Otherwise nothing changes, one or two rows match, and the lowest-sequence match is returned.
   */
  lemma PublishIsIdempotentOnBothKeys(policy: Policy, log: Log, event: Event, clock: real)
    requires Consistent(log)
    ensures var out := Published(policy, log, event, clock);
            var matching := set r | r in log.rows && (r.id == event.id || r.dedupe == event.dedupe);
            && (out.accepted <==> matching == {})
            && (!out.accepted ==>
                  && out.log == log
                  && 1 <= |matching| <= 2
                  && out.row in matching
                  && forall r :: r in matching ==> out.row.sequence <= r.sequence)
  {
    var keys := EitherKey(event.id, event.dedupe);
    var clash := Select(log.rows, keys);
    var matching := set r | r in log.rows && (r.id == event.id || r.dedupe == event.dedupe);
    SelectMembers(log.rows, keys);
    assert forall r :: r in clash <==> r in matching;
    if clash != [] {
      SelectAscending(log.rows, keys);
      AtMostTwoMatch(log.rows, event.id, event.dedupe);
      assert clash[0] in matching;
      if |clash| == 1 {
        assert matching == {clash[0]};
      } else {
        assert matching == {clash[0], clash[1]};
      }
    }
  }

  /** With no assumption on timestamps: a publish never prunes its own row, and bounds the table. */
  lemma AcceptedRowSurvivesItsPrune(policy: Policy, log: Log, event: Event, clock: real)
    requires Consistent(log) && Published(policy, log, event, clock).accepted
    ensures var out := Published(policy, log, event, clock);
            && 1 <= |out.log.rows| <= policy.maxEvents
            && out.log.rows[|out.log.rows| - 1] == out.row
            && out.row.sequence == out.log.issued == log.issued + 1
            && forall r :: r in out.log.rows ==> r in log.rows || r == out.row
  {
    var row := NewRow(log, event, clock);
    var since := CreatedSince(row.createdAt - policy.retentionSeconds as real);
    InsertKeepsOrderAndKeys(log, event, clock);
    PrunedIsNewest(log.rows + [row], row.createdAt, policy);
    PrunedIsSubtable(log.rows + [row], row.createdAt, policy);
    FilterPush(log.rows, row, since.Holds);
  }

  // ---- Whole histories ----

  /** One call of `publish`, with the clock reading it would stamp. */
  datatype Offer = Offer(event: Event, clock: real)

  /** The store together with every row ever accepted. */
  datatype Book = Book(log: Log, history: seq<Row>)

  const EMPTY_BOOK := Book(Log([], 0), [])

  function Record(policy: Policy, book: Book, offer: Offer): Book {
    var out := Published(policy, book.log, offer.event, offer.clock);
    if out.accepted then Book(out.log, book.history + [out.row]) else book
  }

  function Replay(policy: Policy, offers: seq<Offer>): Book {
    if offers == [] then EMPTY_BOOK else Record(policy, Replay(policy, offers[..|offers| - 1]), offers[|offers| - 1])
  }

  /** The history numbers its rows 1, 2, 3, ... and contains every retained row. */
  ghost predicate Chronicle(book: Book) {
    && Consistent(book.log)
    && |book.history| == book.log.issued
    && (forall i :: 0 <= i < |book.history| ==> book.history[i].sequence == i + 1)
    && (forall r :: r in book.log.rows ==> r in book.history)
  }

  lemma ChronicleExtends(book: Book, log: Log, row: Row)
    requires Chronicle(book) && Consistent(log)
    requires row.sequence == log.issued == book.log.issued + 1
    requires forall r :: r in log.rows ==> r in book.log.rows || r == row
    ensures Chronicle(Book(log, book.history + [row]))
  {
  }

  lemma RecordKeepsChronicle(policy: Policy, book: Book, offer: Offer)
    requires Chronicle(book)
    ensures Chronicle(Record(policy, book, offer))
  {
    var out := Published(policy, book.log, offer.event, offer.clock);
    if out.accepted {
      PublishKeepsConsistent(policy, book.log, offer.event, offer.clock);
      AcceptedRowSurvivesItsPrune(policy, book.log, offer.event, offer.clock);
      ChronicleExtends(book, out.log, out.row);
    }
  }

  /**
   Over every sequence of publishes, the keys of retained rows stay unique, the table stays within its
   bound, and the accepted rows are numbered consecutively, so that no sequence is ever handed out twice.
   */
  lemma {:induction false} SequencesAreNeverReused(policy: Policy, offers: seq<Offer>)
    ensures Chronicle(Replay(policy, offers))
    ensures |Replay(policy, offers).log.rows| <= policy.maxEvents
  {
    if offers != [] {
      var before, offer := offers[..|offers| - 1], offers[|offers| - 1];
      SequencesAreNeverReused(policy, before);
      var book := Replay(policy, before);
      RecordKeepsChronicle(policy, book, offer);
      if Published(policy, book.log, offer.event, offer.clock).accepted {
        AcceptedRowSurvivesItsPrune(policy, book.log, offer.event, offer.clock);
      }
    }
  }

  ghost predicate InTimeOrder(history: seq<Row>) {
    forall i, j :: 0 <= i < j < |history| ==> history[i].createdAt <= history[j].createdAt
  }

  /** The one-shot filter: among the newest `max_events` accepted rows, those within the retention. */
  function Window(policy: Policy, history: seq<Row>): seq<Row> {
    if history == [] then []
    else
      var cutoff := history[|history| - 1].createdAt - policy.retentionSeconds as real;
      Select(Newest(history, policy.maxEvents), CreatedSince(cutoff))
  }

  /** The rows older than the cutoff are exactly the first `k`. */
  ghost predicate CutAt(history: seq<Row>, cutoff: real, k: nat) {
    && k <= |history|
    && (forall i :: 0 <= i < k ==> history[i].createdAt < cutoff)
    && (forall i :: k <= i < |history| ==> history[i].createdAt >= cutoff)
  }

  lemma CutIndex(history: seq<Row>, cutoff: real) returns (k: nat)
    requires InTimeOrder(history)
    ensures CutAt(history, cutoff, k)
  {
    k := Threshold(history, CreatedSince(cutoff).Holds);
  }

  lemma SelectFrom(history: seq<Row>, cutoff: real, from: nat, k: nat)
    requires from <= |history| && CutAt(history, cutoff, k)
    ensures Select(history[from..], CreatedSince(cutoff)) == history[Max(from, k)..]
  {
    FilterTail(history, from, CreatedSince(cutoff).Holds, k);
  }

  /** Later cutoffs cut later. */
  lemma CutGrows(history: seq<Row>, cutoff: real, later: real, before: nat, k: nat)
    requires CutAt(history, cutoff, before) && cutoff <= later
    requires forall i :: k <= i < |history| ==> history[i].createdAt >= later
    ensures before <= k
  {
    if before > 0 {
      assert history[before - 1].createdAt < later;
    }
  }

  /** The window starts no later than the cutoff of a later row, or than the count bound. */
  lemma WindowStart(policy: Policy, history: seq<Row>, now: real, k: nat) returns (first: nat)
    requires InTimeOrder(history)
    requires history != [] ==> history[|history| - 1].createdAt <= now
    requires forall i :: k <= i < |history| ==> history[i].createdAt >= now - policy.retentionSeconds as real
    ensures first <= |history| && Window(policy, history) == history[first..]
    ensures first <= Max(Max(0, |history| - policy.maxEvents), k)
  {
    first := 0;
    if history != [] {
      var cutoff := history[|history| - 1].createdAt - policy.retentionSeconds as real;
      var before := CutIndex(history, cutoff);
      SelectFrom(history, cutoff, Max(0, |history| - policy.maxEvents), before);
      first := Max(Max(0, |history| - policy.maxEvents), before);
      CutGrows(history, cutoff, now - policy.retentionSeconds as real, before, k);
    }
  }

  lemma TailAscending(all: seq<Row>, from: nat)
    requires from <= |all| && Ascending(all)
    ensures Ascending(all[from..])
  {
  }

  lemma NewestOfTail(all: seq<Row>, from: nat, n: nat)
    requires from <= |all|
    ensures Newest(all[from..], n) == all[Max(Max(0, |all| - n), from)..]
  {
  }

  /** Pruning a suffix of a history in time order keeps a shorter suffix. */
  lemma PrunedTail(policy: Policy, all: seq<Row>, now: real, from: nat, k: nat)
    requires from <= |all| && Ascending(all) && CutAt(all, now - policy.retentionSeconds as real, k)
    ensures Pruned(all[from..], now, policy) == all[Max(Max(0, |all| - policy.maxEvents), Max(from, k))..]
  {
    var cutoff, oldest := now - policy.retentionSeconds as real, Max(from, k);
    assert Pruned(all[from..], now, policy) == Newest(all[oldest..], policy.maxEvents) by {
      TailAscending(all, from);
      PrunedIsNewest(all[from..], now, policy);
      SelectFrom(all, cutoff, from, k);
    }
    NewestOfTail(all, oldest, policy.maxEvents);
  }

  lemma WindowOfAll(policy: Policy, all: seq<Row>, k: nat)
    requires all != [] && CutAt(all, all[|all| - 1].createdAt - policy.retentionSeconds as real, k)
    ensures Window(policy, all) == all[Max(Max(0, |all| - policy.maxEvents), k)..]
  {
    SelectFrom(all, all[|all| - 1].createdAt - policy.retentionSeconds as real, Max(0, |all| - policy.maxEvents), k);
  }

  lemma TailPush(all: seq<Row>, first: nat)
    requires first < |all|
    ensures all[..|all| - 1][first..] + [all[|all| - 1]] == all[first..]
  {
  }

  lemma WindowGrows(policy: Policy, all: seq<Row>, k: nat) returns (first: nat)
    requires all != [] && InTimeOrder(all)
    requires CutAt(all, all[|all| - 1].createdAt - policy.retentionSeconds as real, k)
    ensures first < |all| && Window(policy, all[..|all| - 1]) + [all[|all| - 1]] == all[first..]
    ensures first <= Max(Max(0, |all| - policy.maxEvents), k)
  {
    var history, row := all[..|all| - 1], all[|all| - 1];
    assert InTimeOrder(history);
    first := WindowStart(policy, history, row.createdAt, k);
    TailPush(all, first);
  }

  /** Inserting the last row of a history into the window of the rows before it gives the window of all. */
  lemma WindowStep(policy: Policy, all: seq<Row>)
    requires all != [] && InTimeOrder(all) && Ascending(all)
    ensures Pruned(Window(policy, all[..|all| - 1]) + [all[|all| - 1]], all[|all| - 1].createdAt, policy)
         == Window(policy, all)
  {
    var now := all[|all| - 1].createdAt;
    var k := CutIndex(all, now - policy.retentionSeconds as real);
    var first := WindowGrows(policy, all, k);
    PrunedTail(policy, all, now, first, k);
    WindowOfAll(policy, all, k);
  }

  lemma WindowPush(policy: Policy, history: seq<Row>, row: Row)
    requires InTimeOrder(history + [row]) && Ascending(history + [row])
    ensures Pruned(Window(policy, history) + [row], row.createdAt, policy) == Window(policy, history + [row])
  {
    var all := history + [row];
    assert all[..|all| - 1] == history;
    WindowStep(policy, all);
  }

  /** What one accepted publish does to the window, given that the whole history is in time order. */
  lemma RecordKeepsWindow(policy: Policy, book: Book, offer: Offer)
    requires Chronicle(book) && book.log.rows == Window(policy, book.history)
    requires InTimeOrder(Record(policy, book, offer).history)
    ensures Record(policy, book, offer).log.rows == Window(policy, Record(policy, book, offer).history)
  {
    var out := Published(policy, book.log, offer.event, offer.clock);
    if out.accepted {
      RecordKeepsChronicle(policy, book, offer);
      WindowPush(policy, book.history, out.row);
    }
  }

  /**
   Incremental pruning refines the one-shot filter: whenever the accepted rows carry non-decreasing
   timestamps, the table after any run is exactly the window of its history.
   */
  lemma {:induction false} IncrementalPruningIsWindow(policy: Policy, offers: seq<Offer>)
    requires InTimeOrder(Replay(policy, offers).history)
    ensures Replay(policy, offers).log.rows == Window(policy, Replay(policy, offers).history)
  {
    if offers != [] {
      var before, offer := offers[..|offers| - 1], offers[|offers| - 1];
      var book, next := Replay(policy, before), Replay(policy, offers);
      assert book.history <= next.history;
      assert forall i :: 0 <= i < |book.history| ==> book.history[i] == next.history[i];
      IncrementalPruningIsWindow(policy, before);
      SequencesAreNeverReused(policy, before);
      RecordKeepsWindow(policy, book, offer);
    }
  }

  // ---- Reading ----

  /** The sequence a cursor stands for: that of the retained row with this id, and 0 for none. */
  function Resolve(rows: seq<Row>, cursor: string): nat {
    if cursor == "" then 0
    else
      var named := Select(rows, HasId(cursor));
      if named == [] then 0 else named[0].sequence
  }

  function BoundedLimit(limit: int): nat {
    if limit < 1 then 1 else if limit > 500 then 500 else limit
  }

  function Take(rows: seq<Row>, n: nat): seq<Row> {
    if |rows| <= n then rows else rows[..n]
  }

  function ReadBatch(rows: seq<Row>, profiles: seq<string>, cursor: string, limit: int): seq<Row> {
    Take(Select(rows, InScope(profiles, Resolve(rows, cursor))), BoundedLimit(limit))
  }

  ghost predicate Readable(rows: seq<Row>) {
    Ascending(rows) && UniqueKeys(rows) && forall r :: r in rows ==> r.id != "" && r.sequence >= 1
  }

  /** Under unique ids a retained row resolves to its own sequence. */
  lemma ResolveRetained(rows: seq<Row>, row: Row)
    requires UniqueKeys(rows) && row in rows && row.id != ""
    ensures Resolve(rows, row.id) == row.sequence
  {
    var named := Select(rows, HasId(row.id));
    SelectMembers(rows, HasId(row.id));
    assert row in named && named[0] in named;
  }

  lemma ResolveExpired(rows: seq<Row>, cursor: string)
    requires forall r :: r in rows ==> r.id != cursor
    ensures Resolve(rows, cursor) == 0
  {
    FilterNothing(rows, HasId(cursor).Holds);
  }

  /** After the last row of a batch, the next read continues where the batch ended. */
  lemma BatchAdvances(rows: seq<Row>, profiles: seq<string>, cursor: string, limit: int)
    requires Readable(rows)
    requires ReadBatch(rows, profiles, cursor, limit) != []
    ensures var batch := ReadBatch(rows, profiles, cursor, limit);
            var all := Select(rows, InScope(profiles, Resolve(rows, cursor)));
            var next := batch[|batch| - 1].id;
            && all == batch + Select(rows, InScope(profiles, Resolve(rows, next)))
  {
    var above := Resolve(rows, cursor);
    var all := Select(rows, InScope(profiles, above));
    var batch := ReadBatch(rows, profiles, cursor, limit);
    var i := |batch| - 1;
    SelectMembers(rows, InScope(profiles, above));
    assert all[i] == batch[i] && all[i] in all;
    ResolveRetained(rows, batch[i]);
    SelectContinues(rows, profiles, above, i);
  }

  /** Reading batch after batch, each time from the last id returned, until a batch is empty. */
  function Paged(rows: seq<Row>, profiles: seq<string>, cursor: string, limit: int): seq<Row>
    requires Readable(rows)
    decreases |Select(rows, InScope(profiles, Resolve(rows, cursor)))|
  {
    var batch := ReadBatch(rows, profiles, cursor, limit);
    if batch == [] then []
    else
      BatchAdvances(rows, profiles, cursor, limit);
      batch + Paged(rows, profiles, batch[|batch| - 1].id, limit)
  }

  /** On a fixed table, paging ends and lists exactly what one unbounded read would, for any limit. */
  lemma {:induction false} PagingEqualsOneRead(rows: seq<Row>, profiles: seq<string>, cursor: string, limit: int)
    requires Readable(rows)
    ensures Paged(rows, profiles, cursor, limit) == Select(rows, InScope(profiles, Resolve(rows, cursor)))
    decreases |Select(rows, InScope(profiles, Resolve(rows, cursor)))|
  {
    var batch := ReadBatch(rows, profiles, cursor, limit);
    if batch != [] {
      BatchAdvances(rows, profiles, cursor, limit);
      PagingEqualsOneRead(rows, profiles, batch[|batch| - 1].id, limit);
    }
  }

  // ---- The profiles a read is scoped to ----

  datatype ReadError = ProfileRequired | ProfileInvalid | EventIdInvalid

  /** The non-blank values, stripped, each at its first occurrence. */
  function FirstNames(values: seq<string>): seq<string> {
    if values == [] then []
    else
      var front, name := FirstNames(values[..|values| - 1]), Strip(values[|values| - 1]);
      if name == "" || name in front then front else front + [name]
  }

  /** No name is listed twice, and exactly the non-blank values are listed. */
  lemma {:induction false} FirstNamesAreDistinct(values: seq<string>)
    ensures forall i, j :: 0 <= i < j < |FirstNames(values)| ==> FirstNames(values)[i] != FirstNames(values)[j]
    ensures forall p :: p in FirstNames(values) <==> p != "" && exists v :: v in values && Strip(v) == p
  {
    if values != [] {
      FirstNamesAreDistinct(values[..|values| - 1]);
      FrontAndLast(values);
    }
  }

  /** Later values only append: names stand in the order of their first occurrences. */
  lemma {:induction false} FirstNamesKeepOrder(values: seq<string>, k: nat)
    requires k <= |values|
    ensures FirstNames(values[..k]) <= FirstNames(values)
    decreases |values| - k
  {
    if k == |values| {
      assert values[..k] == values;
    } else {
      assert values[..k + 1][..k] == values[..k];
      FirstNamesKeepOrder(values, k + 1);
    }
  }

  lemma NoNamesIffBlank(values: seq<string>)
    ensures FirstNames(values) == [] <==> forall v :: v in values ==> Strip(v) == ""
  {
    FirstNamesAreDistinct(values);
    if FirstNames(values) != [] {
      assert FirstNames(values)[0] in FirstNames(values);
    } else {
      forall v | v in values ensures Strip(v) == "" {
        assert Strip(v) !in FirstNames(values);
      }
    }
  }

  predicate IsBlankOrIdentifier(value: string) {
    Strip(value) == "" || IsIdentifier(Strip(value))
  }

  lemma NamesAreIdentifiers(values: seq<string>)
    requires forall v :: v in values ==> IsBlankOrIdentifier(v)
    ensures forall p :: p in FirstNames(values) ==> IsIdentifier(p)
  {
    FirstNamesAreDistinct(values);
  }

  lemma FirstNamesNext(values: seq<string>, i: nat)
    requires i < |values|
    ensures var front, name := FirstNames(values[..i]), Strip(values[i]);
            FirstNames(values[..i + 1]) == if name == "" || name in front then front else front + [name]
    ensures forall v :: v in values[..i + 1] <==> v in values[..i] || v == values[i]
  {
    assert values[..i + 1][..i] == values[..i];
    FrontAndLast(values[..i + 1]);
  }

  /** The loop over `profile_ids`: it fails exactly when some non-blank value is no identifier. */
  method ScopeOf(values: seq<string>) returns (r: Result<seq<string>, ReadError>)
    ensures r.Success? <==> forall v :: v in values ==> IsBlankOrIdentifier(v)
    ensures r.Success? ==> r.value == FirstNames(values)
    ensures r.Failure? ==> r.error == ProfileInvalid
  {
    var profiles: seq<string> := [];
    for i := 0 to |values|
      invariant profiles == FirstNames(values[..i])
      invariant forall v :: v in values[..i] ==> IsBlankOrIdentifier(v)
    {
      var profile := Strip(values[i]);
      NamesAreIdentifiers(values[..i]);
      FirstNamesNext(values, i);
      if profile != "" && profile !in profiles {
        if !IsIdentifier(profile) {
          assert !IsBlankOrIdentifier(values[i]);
          return Failure(ProfileInvalid);
        }
        profiles := profiles + [profile];
      }
    }
    assert values[..|values|] == values;
    return Success(profiles);
  }

  // ---- The store ----

  class DirectNotificationStore {
    const retentionSeconds: int
    const maxEvents: int
    var rows: seq<Row>
    var issued: nat

    ghost function Contents(): Log
      reads this
    {
      Log(rows, issued)
    }

    ghost predicate Valid()
      reads this
    {
      retentionSeconds >= 60 && maxEvents >= 1 && Consistent(Contents())
    }

    ghost function Configured(): Policy
      requires retentionSeconds >= 60 && maxEvents >= 1
    {
      Bounds(retentionSeconds, maxEvents)
    }

    constructor (retentionSeconds: int := DEFAULT_RETENTION_SECONDS, maxEvents: int := DEFAULT_MAX_EVENTS)
      ensures Valid() && Contents() == EMPTY_BOOK.log
      ensures this.retentionSeconds >= 60 && this.retentionSeconds >= retentionSeconds
      ensures this.retentionSeconds == 60 || this.retentionSeconds == retentionSeconds
      ensures this.maxEvents >= 1 && this.maxEvents >= maxEvents
      ensures this.maxEvents == 1 || this.maxEvents == maxEvents
    {
      this.retentionSeconds := if retentionSeconds < 60 then 60 else retentionSeconds;
      this.maxEvents := if maxEvents < 1 then 1 else maxEvents;
      rows, issued := [], 0;
    }

    method Prune(now: real)
      requires retentionSeconds >= 60 && maxEvents >= 1
      modifies `rows
      ensures rows == Pruned(old(rows), now, Configured())
    {
      rows := Select(rows, CreatedSince(now - retentionSeconds as real));
      if |rows| > maxEvents {
        var oldestRetained := rows[|rows| - 1 - maxEvents];
        rows := Select(rows, SequenceAbove(oldestRetained.sequence));
      }
    }

    /** Inserts the event and prunes; on a key clash returns the stored row and changes nothing. */
    method Publish(event: Event, clock: real) returns (stored: Row)
      requires Valid()
      modifies this
      ensures Valid()
      ensures var out := Published(Configured(), old(Contents()), event, clock);
              Contents() == out.log && stored == out.row
    {
      ghost var before := Contents();
      var clash := Select(rows, EitherKey(event.id, event.dedupe));
      if clash == [] {
        var createdAt := if event.createdAt.Some? then event.createdAt.value else clock;
        issued := issued + 1;
        stored := Row(issued, event.id, event.dedupe, event.profile, createdAt, event.body);
        rows := rows + [stored];
        assert stored == NewRow(before, event, clock);
        Prune(createdAt);
      } else {
        stored := clash[0];
      }
      PublishKeepsConsistent(Configured(), before, event, clock);
    }

    method ReadAfter(profileId: string, sequence: int, limit: int) returns (r: Result<seq<Row>, ReadError>)
      ensures r.Failure? <==> Strip(profileId) == ""
      ensures r.Success? ==>
                r.value == Take(Select(rows, InScope([Strip(profileId)], if sequence < 0 then 0 else sequence)),
                                BoundedLimit(limit))
    {
      var profile := Strip(profileId);
      if profile == "" {
        return Failure(ProfileRequired);
      }
      var bounded := BoundedLimit(limit);
      var selected := Select(rows, InScope([profile], if sequence < 0 then 0 else sequence));
      return Success(Take(selected, bounded));
    }

    method ReadAfterEventId(profileIds: seq<string>, eventId: string, limit: int)
      returns (r: Result<seq<Row>, ReadError>)
      ensures r.Success? <==>
                && (forall v :: v in profileIds ==> IsBlankOrIdentifier(v))
                && (exists v :: v in profileIds && Strip(v) != "")
                && (Strip(eventId) == "" || IsIdentifier(Strip(eventId)))
      ensures r.Success? ==> r.value == ReadBatch(rows, FirstNames(profileIds), Strip(eventId), limit)
      ensures r.Failure? ==>
                r.error == if !forall v :: v in profileIds ==> IsBlankOrIdentifier(v) then ProfileInvalid
                           else if forall v :: v in profileIds ==> Strip(v) == "" then ProfileRequired
                           else EventIdInvalid
    {
      var scope := ScopeOf(profileIds);
      if scope.Failure? {
        return Failure(scope.error);
      }
      var profiles := scope.value;
      NoNamesIffBlank(profileIds);
      if profiles == [] {
        return Failure(ProfileRequired);
      }
      var cursor := Strip(eventId);
      if cursor != "" && !IsIdentifier(cursor) {
        return Failure(EventIdInvalid);
      }
      r := Success(ReadBatch(rows, profiles, cursor, limit));
    }
  }
}
