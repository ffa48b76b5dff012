/**
 Pairing over whole histories. Each operation is one transaction, except that authenticating reads a device
 row and then, separately, stamps its last use; every interleaving of these steps is a sequence of them.
 */
module PairingRuns {
  import opened Wrappers
  import opened PyText
  import opened Pairing

  datatype Op =
    | Create(baseUrl: string, apiToken: string, ttl: int, issuedAt: int, profileIds: seq<string>, newCode: string)
    | Redeem(code: string, at: int, deviceId: string, deviceToken: string)
    | Read(token: string)
    | Stamp(touched: string, usedAt: int)
    | Withdraw(revoked: string, revokedAt: int)

  const EMPTY := Db(map[], [])

  function Apply(hash: string -> string, db: Db, op: Op): Db {
    match op
    case Create(baseUrl, apiToken, ttl, issuedAt, profileIds, newCode) =>
      TicketCreated(hash, db, baseUrl, apiToken, ttl, issuedAt, profileIds, newCode).0
    case Redeem(code, at, deviceId, deviceToken) => Exchanged(hash, db, code, at, deviceId, deviceToken).0
    case Read(token) => db
    case Stamp(touched, usedAt) => db.(devices := Touch(db.devices, touched, usedAt))
    case Withdraw(revoked, revokedAt) => Revoked(hash, db, revoked, revokedAt).0
  }

  function After(hash: string -> string, db: Db, ops: seq<Op>): Db
    decreases |ops|
  {
    if ops == [] then db else After(hash, Apply(hash, db, ops[0]), ops[1..])
  }

  // ---- Tickets and the devices they became ----

  ghost predicate TicketsHold(db: Db) {
    forall key :: key in db.tickets ==>
      && 30 <= db.tickets[key].expiresAt - db.tickets[key].createdAt <= 3600
      && (db.tickets[key].usedAt.Some? ==> db.tickets[key].usedAt.value < db.tickets[key].expiresAt)
      && Scope(db.tickets[key].profiles) == db.tickets[key].profiles
  }

  /** A device carries what its ticket granted, and was made when the ticket was used. */
  ghost predicate CameFrom(db: Db, device: Device, key: string) {
    && key in db.tickets
    && db.tickets[key].usedAt == Some(device.createdAt)
    && db.tickets[key].baseUrl == device.baseUrl
    && db.tickets[key].profiles == device.profiles
  }

  /** `origin[i]` is the ticket that device row `i` came from: one device for every used ticket. */
  ghost predicate Paired(db: Db, origin: seq<string>) {
    && |origin| == |db.devices|
    && (forall i :: 0 <= i < |origin| ==> CameFrom(db, db.devices[i], origin[i]))
    && (forall i, j :: 0 <= i < j < |origin| ==> origin[i] != origin[j])
    && (forall key :: key in db.tickets && db.tickets[key].usedAt.Some? ==> key in origin)
  }

  ghost predicate UniqueDevices(devices: seq<Device>) {
    forall i, j :: 0 <= i < j < |devices| ==>
      devices[i].deviceId != devices[j].deviceId && devices[i].tokenHash != devices[j].tokenHash
  }

  /** Everything but a successful redemption leaves the identity and origin of every device row alone. */
  ghost predicate SameRows(a: seq<Device>, b: seq<Device>) {
    && |a| == |b|
    && forall i :: 0 <= i < |a| ==>
         a[i].(lastUsedAt := 0, revokedAt := None) == b[i].(lastUsedAt := 0, revokedAt := None)
  }

  lemma UpdatesKeepRows(hash: string -> string, db: Db, op: Op)
    requires op.Read? || op.Stamp? || op.Withdraw?
    ensures SameRows(db.devices, Apply(hash, db, op).devices) && Apply(hash, db, op).tickets == db.tickets
  {
  }

  lemma SameRowsKeepPairs(db: Db, next: Db, origin: seq<string>)
    requires Paired(db, origin) && SameRows(db.devices, next.devices) && next.tickets == db.tickets
    ensures Paired(next, origin)
  {
    forall i | 0 <= i < |origin| ensures CameFrom(next, next.devices[i], origin[i]) {
      assert CameFrom(db, db.devices[i], origin[i]);
      assert db.devices[i].(lastUsedAt := 0, revokedAt := None) == next.devices[i].(lastUsedAt := 0, revokedAt := None);
    }
  }

  lemma NewTicketKeepsPairs(db: Db, key: string, ticket: Ticket, origin: seq<string>)
    requires TicketsHold(db) && Paired(db, origin) && key !in db.tickets
    requires 30 <= ticket.expiresAt - ticket.createdAt <= 3600 && ticket.usedAt.None?
    requires Scope(ticket.profiles) == ticket.profiles
    ensures TicketsHold(db.(tickets := db.tickets[key := ticket]))
    ensures Paired(db.(tickets := db.tickets[key := ticket]), origin)
  {
    var next := db.(tickets := db.tickets[key := ticket]);
    forall i | 0 <= i < |origin| ensures CameFrom(next, next.devices[i], origin[i]) {
      assert CameFrom(db, db.devices[i], origin[i]);
    }
  }

  lemma InsertKeepsPairs(hash: string -> string, db: Db, url: string, token: string, ttl: int, now: int,
                         profileIds: seq<string>, code: string, origin: seq<string>)
    requires TicketsHold(db) && Paired(db, origin) && 30 <= ttl <= 3600
    ensures var next := Inserted(hash, db, url, token, ttl, now, profileIds, code).0;
            TicketsHold(next) && Paired(next, origin)
  {
    if hash(code) !in db.tickets {
      ScopeTwice(profileIds);
      NewTicketKeepsPairs(db, hash(code), Ticket(url, hash(token), Scope(profileIds), now, now + ttl, None), origin);
    }
  }

  lemma SpendingKeepsTickets(db: Db, key: string, now: int, deviceId: string, tokenHash: string)
    requires TicketsHold(db) && key in db.tickets && now < db.tickets[key].expiresAt
    ensures TicketsHold(Spent(db, key, now, deviceId, tokenHash))
  {
  }

  lemma SpendingAddsPair(db: Db, key: string, now: int, deviceId: string, tokenHash: string, origin: seq<string>)
    requires TicketsHold(db) && Paired(db, origin)
    requires key in db.tickets && db.tickets[key].usedAt.None?
    ensures Paired(Spent(db, key, now, deviceId, tokenHash), origin + [key])
  {
    var next := Spent(db, key, now, deviceId, tokenHash);
    assert CameFrom(next, next.devices[|origin|], key);
    forall i | 0 <= i < |origin| ensures origin[i] != key && CameFrom(next, next.devices[i], origin[i]) {
      assert CameFrom(db, db.devices[i], origin[i]);
    }
  }

  lemma UniqueAfter(hash: string -> string, db: Db, op: Op)
    requires UniqueDevices(db.devices)
    ensures UniqueDevices(Apply(hash, db, op).devices)
  {
    if op.Read? || op.Stamp? || op.Withdraw? {
      UpdatesKeepRows(hash, db, op);
    }
  }

  lemma RedeemKeepsPairs(hash: string -> string, db: Db, op: Op, origin: seq<string>) returns (next: seq<string>)
    requires op.Redeem? && TicketsHold(db) && Paired(db, origin)
    ensures TicketsHold(Apply(hash, db, op)) && Paired(Apply(hash, db, op), next)
  {
    next := origin;
    if Exchanged(hash, db, op.code, op.at, op.deviceId, op.deviceToken).1.Success? {
      var key := hash(Strip(op.code));
      SpendingKeepsTickets(db, key, op.at, op.deviceId, hash(op.deviceToken));
      SpendingAddsPair(db, key, op.at, op.deviceId, hash(op.deviceToken), origin);
      next := origin + [key];
    }
  }

  lemma StepKeepsPairs(hash: string -> string, db: Db, op: Op, origin: seq<string>) returns (next: seq<string>)
    requires TicketsHold(db) && Paired(db, origin)
    ensures TicketsHold(Apply(hash, db, op)) && Paired(Apply(hash, db, op), next)
  {
    next := origin;
    match op
    case Create(baseUrl, apiToken, ttl, issuedAt, profileIds, newCode) =>
      if Fault(baseUrl, apiToken, ttl).None? {
        InsertKeepsPairs(hash, db, TrimSlashes(Strip(baseUrl)), Strip(apiToken), ttl, issuedAt, profileIds, newCode,
                         origin);
      }
    case Redeem(_, _, _, _) => next := RedeemKeepsPairs(hash, db, op, origin);
    case _ =>
      UpdatesKeepRows(hash, db, op);
      SameRowsKeepPairs(db, Apply(hash, db, op), origin);
  }

  lemma {:induction false} PairsFrom(hash: string -> string, db: Db, ops: seq<Op>, from: seq<string>)
    returns (origin: seq<string>)
    requires TicketsHold(db) && Paired(db, from)
    ensures TicketsHold(After(hash, db, ops)) && Paired(After(hash, db, ops), origin)
    decreases |ops|
  {
    origin := from;
    if ops != [] {
      origin := StepKeepsPairs(hash, db, ops[0], from);
      origin := PairsFrom(hash, Apply(hash, db, ops[0]), ops[1..], origin);
    }
  }

  lemma {:induction false} UniqueFrom(hash: string -> string, db: Db, ops: seq<Op>)
    requires UniqueDevices(db.devices)
    ensures UniqueDevices(After(hash, db, ops).devices)
    decreases |ops|
  {
    if ops != [] {
      UniqueAfter(hash, db, ops[0]);
      UniqueFrom(hash, Apply(hash, db, ops[0]), ops[1..]);
    }
  }

  lemma {:induction false} DistinctCount<T>(s: seq<T>)
    requires forall i, j :: 0 <= i < j < |s| ==> s[i] != s[j]
    ensures |set x | x in s| == |s|
  {
    if s != [] {
      var front, last := s[..|s| - 1], s[|s| - 1];
      DistinctCount(front);
      assert (set x | x in s) == (set x | x in front) + {last};
    }
  }

  lemma CountPairs(db: Db, origin: seq<string>)
    requires Paired(db, origin)
    ensures |db.devices| == |set key | key in db.tickets && db.tickets[key].usedAt.Some?|
  {
    var used := set key | key in db.tickets && db.tickets[key].usedAt.Some?;
    assert forall i :: 0 <= i < |origin| ==> CameFrom(db, db.devices[i], origin[i]);
    assert (set key | key in origin) == used;
    DistinctCount(origin);
  }

  /**
   Every run from an empty database, whatever codes, ids and tokens are drawn, keeps a one-to-one
   correspondence between device rows and used tickets, in which each device has its ticket's address and
   scope and the ticket's time of use; every ticket lives 30 to 3600 seconds and is only used before it
   expires; and device ids and token hashes stay unique.
   */
  lemma DevicesAreUsedTickets(hash: string -> string, ops: seq<Op>) returns (origin: seq<string>)
    ensures var db := After(hash, EMPTY, ops);
            && TicketsHold(db) && Paired(db, origin) && UniqueDevices(db.devices)
            && |db.devices| == |set key | key in db.tickets && db.tickets[key].usedAt.Some?|
  {
    assert Paired(EMPTY, []);
    origin := PairsFrom(hash, EMPTY, ops, []);
    UniqueFrom(hash, EMPTY, ops);
    CountPairs(After(hash, EMPTY, ops), origin);
  }

  // ---- Creation, exchange and authentication ----

  /**
   A ticket is created exactly for valid arguments and a fresh code hash; it is unused and all else stays. A refusal
   names the first thing wrong.
   */
  lemma CreationAddsOneTicket(hash: string -> string, db: Db, baseUrl: string, apiToken: string, ttl: int, now: int,
                              profileIds: seq<string>, code: string)
    ensures var out := TicketCreated(hash, db, baseUrl, apiToken, ttl, now, profileIds, code);
            && (out.1.Success? <==>
                  && IsBaseUrl(TrimSlashes(Strip(baseUrl))) && 8 <= |Strip(apiToken)| <= 4096
                  && 30 <= ttl <= 3600 && hash(code) !in db.tickets)
            && (out.1.Failure? ==>
                  && out.0 == db
                  && out.1.error == if !IsBaseUrl(TrimSlashes(Strip(baseUrl))) then PairingUrlInvalid
                                    else if |Strip(apiToken)| < 8 || |Strip(apiToken)| > 4096 then PairingTokenInvalid
                                    else if ttl < 30 || ttl > 3600 then TtlOutOfRange
                                    else IntegrityError)
            && (out.1.Success? ==>
                  && out.0.devices == db.devices
                  && out.0.tickets.Keys == db.tickets.Keys + {hash(code)}
                  && (forall key :: key in db.tickets ==> out.0.tickets[key] == db.tickets[key])
                  && out.0.tickets[hash(code)].usedAt.None? && out.0.tickets[hash(code)].createdAt == now
                  && out.0.tickets[hash(code)].apiTokenHash == hash(Strip(apiToken))
                  && out.0.tickets[hash(code)].expiresAt == now + ttl == out.1.value.expiresAt
                  && out.0.tickets[hash(code)].baseUrl == TrimSlashes(Strip(baseUrl))
                  && out.0.tickets[hash(code)].profiles == Scope(profileIds))
  {
  }

  /**
   An exchange succeeds exactly when the code names a ticket that is unused and not yet expired and neither
   random value collides; it then spends the ticket and adds one device with the ticket's scope. Any failure
   changes nothing at all, and names the first condition that is not met.
   */
  lemma ExchangeIsAllOrNothing(hash: string -> string, db: Db, code: string, now: int,
                               deviceId: string, deviceToken: string)
    requires TicketsHold(db)
    ensures var out := Exchanged(hash, db, code, now, deviceId, deviceToken);
            var key := hash(Strip(code));
            && (out.1.Success? <==>
                  && IsPairingCode(Strip(code)) && key in db.tickets
                  && db.tickets[key].usedAt.None? && now < db.tickets[key].expiresAt
                  && !Collides(db.devices, deviceId, hash(deviceToken)))
            && (out.1.Failure? ==>
                  && out.0 == db
                  && out.1.error == if !IsPairingCode(Strip(code)) || key !in db.tickets then PairingInvalid
                                    else if db.tickets[key].usedAt.Some? then PairingUsed
                                    else if now >= db.tickets[key].expiresAt then PairingExpired
                                    else IntegrityError)
            && (out.1.Success? ==>
                  && out.1.value.profiles == db.tickets[key].profiles
                  && out.0.tickets.Keys == db.tickets.Keys
                  && out.0.tickets[key].usedAt == Some(now)
                  && (forall other :: other in db.tickets && other != key ==> out.0.tickets[other] == db.tickets[other])
                  && out.0.devices[..|db.devices|] == db.devices && |out.0.devices| == |db.devices| + 1
                  && CameFrom(out.0, out.0.devices[|db.devices|], key)
                  && out.0.devices[|db.devices|].deviceId == deviceId
                  && out.0.devices[|db.devices|].tokenHash == hash(deviceToken)
                  && out.0.devices[|db.devices|].lastUsedAt == now
                  && out.0.devices[|db.devices|].revokedAt.None?)
  {
  }

  predicate GoodFor(device: Device, tokenHash: string, profile: string) {
    Active(device, tokenHash) && (Scope(device.profiles) == [] || profile in Scope(device.profiles))
  }

  lemma {:induction false} OnlyActiveRow(devices: seq<Device>, i: nat, tokenHash: string)
    requires UniqueDevices(devices) && i < |devices| && Active(devices[i], tokenHash)
    ensures FirstActive(devices, tokenHash) == Some(devices[i])
  {
    if i > 0 {
      assert devices[0].tokenHash != devices[i].tokenHash;
      OnlyActiveRow(devices[1..], i - 1, tokenHash);
    }
  }

  /**
   A well-formed token authenticates for a profile exactly when one row that is not revoked has its hash, and
   the row's scope is empty or holds the profile, a blank profile standing for "default".
   */
  lemma {:induction false} AuthenticatesIff(hash: string -> string, db: Db, token: string, profileId: string)
    requires UniqueDevices(db.devices)
    ensures Authenticates(hash, db, token, profileId) <==>
              && IsDeviceToken(Strip(token))
              && (exists i :: 0 <= i < |db.devices|
                              && GoodFor(db.devices[i], hash(Strip(token)), CurrentProfile(profileId)))
  {
    if i :| 0 <= i < |db.devices| && Active(db.devices[i], hash(Strip(token))) {
      OnlyActiveRow(db.devices, i, hash(Strip(token)));
    }
  }

  // ---- The life of a code ----

  /** The step spends the ticket with this code hash. */
  predicate Spends(hash: string -> string, db: Db, op: Op, key: string) {
    && op.Redeem? && hash(Strip(op.code)) == key
    && Exchanged(hash, db, op.code, op.at, op.deviceId, op.deviceToken).1.Success?
  }

  /** No exchange of a code with this hash succeeds in the history; any number of them may fail. */
  predicate NeverSpent(hash: string -> string, db: Db, ops: seq<Op>, key: string)
    decreases |ops|
  {
    ops == [] || (!Spends(hash, db, ops[0], key) && NeverSpent(hash, Apply(hash, db, ops[0]), ops[1..], key))
  }

  /** A step that does not spend a ticket leaves it as it is. */
  lemma UnspentStays(hash: string -> string, db: Db, op: Op, key: string)
    requires key in db.tickets && !Spends(hash, db, op, key)
    ensures key in Apply(hash, db, op).tickets && Apply(hash, db, op).tickets[key] == db.tickets[key]
  {
  }

  lemma SpendingUses(hash: string -> string, db: Db, op: Op, key: string)
    requires Spends(hash, db, op, key)
    ensures key in Apply(hash, db, op).tickets && Apply(hash, db, op).tickets[key].usedAt.Some?
  {
  }

  lemma {:induction false} UsedForever(hash: string -> string, db: Db, ops: seq<Op>, key: string)
    requires key in db.tickets && db.tickets[key].usedAt.Some?
    ensures key in After(hash, db, ops).tickets && After(hash, db, ops).tickets[key] == db.tickets[key]
    decreases |ops|
  {
    if ops != [] {
      UnspentStays(hash, db, ops[0], key);
      UsedForever(hash, Apply(hash, db, ops[0]), ops[1..], key);
    }
  }

  /** Over any history, an unused ticket keeps every field until it is spent, and is used exactly when it was. */
  lemma {:induction false} TicketOverTime(hash: string -> string, db: Db, ops: seq<Op>, key: string)
    requires key in db.tickets && db.tickets[key].usedAt.None?
    ensures key in After(hash, db, ops).tickets
    ensures NeverSpent(hash, db, ops, key) ==> After(hash, db, ops).tickets[key] == db.tickets[key]
    ensures !NeverSpent(hash, db, ops, key) ==> After(hash, db, ops).tickets[key].usedAt.Some?
    decreases |ops|
  {
    if ops != [] {
      var next := Apply(hash, db, ops[0]);
      if Spends(hash, db, ops[0], key) {
        SpendingUses(hash, db, ops[0], key);
        UsedForever(hash, next, ops[1..], key);
      } else {
        UnspentStays(hash, db, ops[0], key);
        TicketOverTime(hash, next, ops[1..], key);
      }
    }
  }

  lemma PairingCodeIsStripped(code: string)
    requires IsPairingCode(code)
    ensures Strip(code) == code
  {
    assert code[0] in code && code[|code| - 1] in code;
  }

  /** What an exchange of a code answers, given the ticket it finds. */
  lemma ExchangeAnswers(hash: string -> string, db: Db, code: string, now: int, deviceId: string, deviceToken: string)
    requires IsPairingCode(Strip(code)) && hash(Strip(code)) in db.tickets
    requires Scope(db.tickets[hash(Strip(code))].profiles) == db.tickets[hash(Strip(code))].profiles
    ensures var ticket := db.tickets[hash(Strip(code))];
            Exchanged(hash, db, code, now, deviceId, deviceToken).1
              == if ticket.usedAt.Some? then Failure(PairingUsed)
                 else if now >= ticket.expiresAt then Failure(PairingExpired)
                 else if Collides(db.devices, deviceId, hash(deviceToken)) then Failure(IntegrityError)
                 else Success(Grant(ticket.baseUrl, deviceId, deviceToken, ticket.profiles))
  {
  }

  /**
   The life of a code, from `create_ticket` to `exchange`, whatever happens in between, failed exchanges of the
   same code included: the exchange answers "used" exactly when an exchange of it has succeeded, otherwise
   "expired" exactly from `issued_at + ttl` on, otherwise fails only if its random values collide, and otherwise
   grants the address and the scope the ticket was created with.
   */
  lemma CodeIsGoodUntilSpentOrExpired(hash: string -> string, db: Db, baseUrl: string, apiToken: string, ttl: int,
                                      issuedAt: int, profileIds: seq<string>, code: string, ops: seq<Op>,
                                      now: int, deviceId: string, deviceToken: string)
    requires TicketCreated(hash, db, baseUrl, apiToken, ttl, issuedAt, profileIds, code).1.Success?
    requires IsPairingCode(code)
    ensures var created := TicketCreated(hash, db, baseUrl, apiToken, ttl, issuedAt, profileIds, code).0;
            var end := After(hash, created, ops);
            Exchanged(hash, end, code, now, deviceId, deviceToken).1
              == if !NeverSpent(hash, created, ops, hash(code)) then Failure(PairingUsed)
                 else if now >= issuedAt + ttl then Failure(PairingExpired)
                 else if Collides(end.devices, deviceId, hash(deviceToken)) then Failure(IntegrityError)
                 else Success(Grant(TrimSlashes(Strip(baseUrl)), deviceId, deviceToken, Scope(profileIds)))
  {
    var created := TicketCreated(hash, db, baseUrl, apiToken, ttl, issuedAt, profileIds, code).0;
    CreationAddsOneTicket(hash, db, baseUrl, apiToken, ttl, issuedAt, profileIds, code);
    PairingCodeIsStripped(code);
    TicketOverTime(hash, created, ops, hash(code));
    if NeverSpent(hash, created, ops, hash(code)) {
      ScopeTwice(profileIds);
      ExchangeAnswers(hash, After(hash, created, ops), code, now, deviceId, deviceToken);
    }
  }

  /** Single use: once a code has been exchanged, every later exchange of it fails, whatever runs in between. */
  lemma NoCodeSucceedsTwice(hash: string -> string, db: Db, code: string, first: int, id1: string, token1: string,
                            ops: seq<Op>, again: string, second: int, id2: string, token2: string)
    requires Exchanged(hash, db, code, first, id1, token1).1.Success?
    requires Strip(again) == Strip(code)
    ensures var later := After(hash, Exchanged(hash, db, code, first, id1, token1).0, ops);
            Exchanged(hash, later, again, second, id2, token2) == (later, Failure(PairingUsed))
  {
    UsedForever(hash, Exchanged(hash, db, code, first, id1, token1).0, ops, hash(Strip(code)));
  }

  // ---- Revocation ----

  ghost predicate RevokedRow(devices: seq<Device>, i: nat, tokenHash: string) {
    i < |devices| && devices[i].tokenHash == tokenHash && devices[i].revokedAt.Some?
  }

  lemma {:induction false} RevokedRowStays(hash: string -> string, db: Db, ops: seq<Op>, i: nat, tokenHash: string)
    requires RevokedRow(db.devices, i, tokenHash) && UniqueDevices(db.devices)
    ensures RevokedRow(After(hash, db, ops).devices, i, tokenHash) && UniqueDevices(After(hash, db, ops).devices)
    decreases |ops|
  {
    if ops != [] {
      UniqueAfter(hash, db, ops[0]);
      RevokedRowStays(hash, Apply(hash, db, ops[0]), ops[1..], i, tokenHash);
    }
  }

  lemma RevokedRowBlocks(devices: seq<Device>, i: nat, tokenHash: string)
    requires RevokedRow(devices, i, tokenHash) && UniqueDevices(devices)
    ensures FirstActive(devices, tokenHash).None?
  {
    forall j | 0 <= j < |devices| ensures !Active(devices[j], tokenHash) {
      if j != i {
        assert devices[j].tokenHash != devices[i].tokenHash;
      }
    }
  }

  /**
   Permanent revocation: once a token has been revoked, no later run, even one that draws the same token
   again, authenticates it for any profile, and revoking it again reports false.
   */
  lemma RevocationIsPermanent(hash: string -> string, db: Db, token: string, at: int, ops: seq<Op>,
                              profileId: string, later: int)
    requires UniqueDevices(db.devices) && Revoked(hash, db, token, at).1
    ensures var end := After(hash, Revoked(hash, db, token, at).0, ops);
            !Authenticates(hash, end, token, profileId) && !Revoked(hash, end, token, later).1
  {
    var key := hash(Strip(token));
    var revoked := Revoked(hash, db, token, at).0;
    var i :| 0 <= i < |db.devices| && Active(db.devices[i], key);
    UniqueAfter(hash, db, Withdraw(token, at));
    RevokedRowStays(hash, revoked, ops, i, key);
    RevokedRowBlocks(After(hash, revoked, ops).devices, i, key);
  }

  /** Two databases that differ at most in whether, and when, rows with this token hash were revoked. */
  ghost predicate SameBut(a: Db, b: Db, tokenHash: string) {
    && a.tickets == b.tickets
    && |a.devices| == |b.devices|
    && forall i :: 0 <= i < |a.devices| ==>
         a.devices[i] == b.devices[i]
         || (a.devices[i].tokenHash == tokenHash
             && a.devices[i].(revokedAt := None) == b.devices[i].(revokedAt := None))
  }

  lemma SameCollisions(a: Db, b: Db, tokenHash: string, deviceId: string, newHash: string)
    requires SameBut(a, b, tokenHash)
    ensures Collides(a.devices, deviceId, newHash) <==> Collides(b.devices, deviceId, newHash)
  {
    if i :| 0 <= i < |a.devices| && (a.devices[i].deviceId == deviceId || a.devices[i].tokenHash == newHash) {
      assert b.devices[i].deviceId == deviceId || b.devices[i].tokenHash == newHash;
    }
    if i :| 0 <= i < |b.devices| && (b.devices[i].deviceId == deviceId || b.devices[i].tokenHash == newHash) {
      assert a.devices[i].deviceId == deviceId || a.devices[i].tokenHash == newHash;
    }
  }

  lemma StepKeepsSameBut(hash: string -> string, a: Db, b: Db, op: Op, tokenHash: string)
    requires SameBut(a, b, tokenHash)
    ensures SameBut(Apply(hash, a, op), Apply(hash, b, op), tokenHash)
  {
    if op.Redeem? {
      SameCollisions(a, b, tokenHash, op.deviceId, hash(op.deviceToken));
    }
  }

  lemma {:induction false} RunKeepsSameBut(hash: string -> string, a: Db, b: Db, ops: seq<Op>, tokenHash: string)
    requires SameBut(a, b, tokenHash)
    ensures SameBut(After(hash, a, ops), After(hash, b, ops), tokenHash)
    decreases |ops|
  {
    if ops != [] {
      StepKeepsSameBut(hash, a, b, ops[0], tokenHash);
      RunKeepsSameBut(hash, Apply(hash, a, ops[0]), Apply(hash, b, ops[0]), ops[1..], tokenHash);
    }
  }

  lemma {:induction false} SameAnswers(a: seq<Device>, b: seq<Device>, tokenHash: string, other: string)
    requires |a| == |b| && other != tokenHash
    requires forall i :: 0 <= i < |a| ==>
               a[i] == b[i]
               || (a[i].tokenHash == tokenHash && a[i].(revokedAt := None) == b[i].(revokedAt := None))
    ensures FirstActive(a, other) == FirstActive(b, other)
  {
    if a != [] {
      SameAnswers(a[1..], b[1..], tokenHash, other);
    }
  }

  /**
   Isolated revocation: inserting a revocation anywhere into any history never changes the answer any other
   token gets afterwards, for any profile, as long as the two tokens do not share a hash.
   */
  lemma RevocationIsIsolated(hash: string -> string, db: Db, token: string, at: int, ops: seq<Op>,
                             other: string, profileId: string)
    requires hash(Strip(other)) != hash(Strip(token))
    ensures var with, without := After(hash, Revoked(hash, db, token, at).0, ops), After(hash, db, ops);
            && Lookup(hash, with, other) == Lookup(hash, without, other)
            && Authenticates(hash, with, other, profileId) == Authenticates(hash, without, other, profileId)
  {
    var key := hash(Strip(token));
    RunKeepsSameBut(hash, Revoked(hash, db, token, at).0, db, ops, key);
    SameAnswers(After(hash, Revoked(hash, db, token, at).0, ops).devices, After(hash, db, ops).devices,
                key, hash(Strip(other)));
  }
}
