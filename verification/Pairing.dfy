/** Pairing tickets and device tokens: two tables changed under transactions. */
module Pairing {
  import opened Wrappers
  import opened PyText

  datatype PairingError =
    | PairingUrlInvalid
    | PairingTokenInvalid
    | TtlOutOfRange
    | PairingInvalid
    | PairingUsed
    | PairingExpired
    | IntegrityError

  datatype Ticket = Ticket(
    baseUrl: string,
    apiTokenHash: string,
    profiles: seq<string>,
    createdAt: int,
    expiresAt: int,
    usedAt: Option<int>)

  datatype Device = Device(
    deviceId: string,
    tokenHash: string,
    baseUrl: string,
    profiles: seq<string>,
    createdAt: int,
    lastUsedAt: int,
    revokedAt: Option<int>)

  /** Tickets by code hash, and device rows in insertion order. */
  datatype Db = Db(tickets: map<string, Ticket>, devices: seq<Device>)

  /** What `create_ticket` and `exchange` return. */
  datatype Invitation = Invitation(pairingUrl: string, expiresAt: int)
  datatype Grant = Grant(baseUrl: string, deviceId: string, deviceToken: string, profiles: seq<string>)

  // ---- Validation ----

  function TrimSlashes(s: string): string {
    if s != "" && s[|s| - 1] == '/' then TrimSlashes(s[..|s| - 1]) else s
  }

  /** Only slashes at the end are trimmed, and all of them. */
  lemma {:induction false} OnlySlashesAreTrimmed(s: string) returns (slashes: string)
    ensures s == TrimSlashes(s) + slashes && forall i :: 0 <= i < |slashes| ==> slashes[i] == '/'
    ensures TrimSlashes(s) == "" || TrimSlashes(s)[|TrimSlashes(s)| - 1] != '/'
  {
    slashes := "";
    if s != "" && s[|s| - 1] == '/' {
      var front := OnlySlashesAreTrimmed(s[..|s| - 1]);
      slashes := front + "/";
      Associate(TrimSlashes(s), front, "/");
      assert s == s[..|s| - 1] + "/";
    }
  }

  predicate IsHost(s: string) {
    s != "" && forall c :: c in s ==> c != '/' && c != '?' && c != '#' && c != '@'
  }

  predicate IsBaseUrl(s: string) {
    || (StartsWith(s, "http://") && IsHost(s[7..]))
    || (StartsWith(s, "https://") && IsHost(s[8..]))
  }

  /** `[A-Za-z0-9_-]{32,128}` as a full match. */
  predicate IsPairingCode(s: string) {
    32 <= |s| <= 128 && forall c :: c in s ==> IsUrlSafeChar(c)
  }

  predicate IsDeviceToken(s: string) {
    StartsWith(s, "hmd_") && IsPairingCode(s[4..])
  }

  /** The valid profile ids among the stripped values, each at its first occurrence. */
  function Scope(values: seq<string>): seq<string> {
    if values == [] then []
    else
      var front, id := Scope(values[..|values| - 1]), Strip(values[|values| - 1]);
      if id !in front && IsProfileId(id) then front + [id] else front
  }

  /** The code is URL-safe, so quoting leaves it as it is. */
  function PairingUrl(baseUrl: string, code: string): string {
    baseUrl + "/api/mobile/pair?code=" + code + "&v=1"
  }

  // ---- Operations on the tables ----

  /** The first thing wrong with the arguments of a new ticket, in the order they are checked. */
  function Fault(baseUrl: string, apiToken: string, ttl: int): Option<PairingError> {
    if !IsBaseUrl(TrimSlashes(Strip(baseUrl))) then Some(PairingUrlInvalid)
    else if |Strip(apiToken)| < 8 || |Strip(apiToken)| > 4096 then Some(PairingTokenInvalid)
    else if ttl < 30 || ttl > 3600 then Some(TtlOutOfRange)
    else None
  }

  /** The INSERT of a ticket, which the PRIMARY KEY on `code_hash` may refuse. */
  function Inserted(hash: string -> string, db: Db, url: string, token: string, ttl: int, now: int,
                    profileIds: seq<string>, code: string): (Db, Result<Invitation, PairingError>)
  {
    if hash(code) in db.tickets then (db, Failure(IntegrityError))
    else
      var ticket := Ticket(url, hash(token), Scope(profileIds), now, now + ttl, None);
      (db.(tickets := db.tickets[hash(code) := ticket]), Success(Invitation(PairingUrl(url, code), now + ttl)))
  }

  function TicketCreated(hash: string -> string, db: Db, baseUrl: string, apiToken: string, ttl: int, now: int,
                         profileIds: seq<string>, code: string): (Db, Result<Invitation, PairingError>)
  {
    match Fault(baseUrl, apiToken, ttl)
    case Some(error) => (db, Failure(error))
    case None => Inserted(hash, db, TrimSlashes(Strip(baseUrl)), Strip(apiToken), ttl, now, profileIds, code)
  }

  /** The PRIMARY KEY on `device_id` and the UNIQUE constraint on `token_hash`. */
  predicate Collides(devices: seq<Device>, deviceId: string, tokenHash: string) {
    exists i :: 0 <= i < |devices| && (devices[i].deviceId == deviceId || devices[i].tokenHash == tokenHash)
  }

  /** The ticket is marked as used, and a device row takes over its address and scope. */
  function Spent(db: Db, key: string, now: int, deviceId: string, tokenHash: string): Db
    requires key in db.tickets
  {
    var ticket := db.tickets[key];
    var device := Device(deviceId, tokenHash, ticket.baseUrl, Scope(ticket.profiles), now, now, None);
    Db(db.tickets[key := ticket.(usedAt := Some(now))], db.devices + [device])
  }

  function Exchanged(hash: string -> string, db: Db, code: string, now: int, deviceId: string, deviceToken: string)
    : (Db, Result<Grant, PairingError>)
  {
    var key := hash(Strip(code));
    if !IsPairingCode(Strip(code)) || key !in db.tickets then (db, Failure(PairingInvalid))
    else
      var ticket := db.tickets[key];
      if ticket.usedAt.Some? then (db, Failure(PairingUsed))
      else if ticket.expiresAt <= now then (db, Failure(PairingExpired))
      else if Collides(db.devices, deviceId, hash(deviceToken)) then (db, Failure(IntegrityError))
      else
        (Spent(db, key, now, deviceId, hash(deviceToken)),
         Success(Grant(ticket.baseUrl, deviceId, deviceToken, Scope(ticket.profiles))))
  }

  predicate Active(device: Device, tokenHash: string) {
    device.tokenHash == tokenHash && device.revokedAt.None?
  }

  /** The first row with this token hash that is not revoked. */
  function FirstActive(devices: seq<Device>, tokenHash: string): (r: Option<Device>)
    ensures r.Some? ==> r.value in devices && Active(r.value, tokenHash)
    ensures r.None? <==> forall i :: 0 <= i < |devices| ==> !Active(devices[i], tokenHash)
  {
    if devices == [] then None
    else if Active(devices[0], tokenHash) then Some(devices[0])
    else FirstActive(devices[1..], tokenHash)
  }

  function Lookup(hash: string -> string, db: Db, token: string): Option<Device> {
    if IsDeviceToken(Strip(token)) then FirstActive(db.devices, hash(Strip(token))) else None
  }

  /** The profiles a token is good for; an empty list means all of them. */
  function DeviceProfiles(hash: string -> string, db: Db, token: string): Option<seq<string>> {
    match Lookup(hash, db, token)
    case None => None
    case Some(device) => Some(Scope(device.profiles))
  }

  function CurrentProfile(profileId: string): string {
    if Strip(profileId) == "" then "default" else Strip(profileId)
  }

  /** A missing profile id reads as "default", which stripping leaves as it is. */
  lemma CurrentProfileIs(profileId: string)
    ensures var current := Strip(if profileId == "" then "default" else profileId);
            CurrentProfile(profileId) == if current == "" then "default" else current
  {
    assert Strip("") == "";
    assert !IsSpace("default"[0]) && !IsSpace("default"[6]);
  }

  predicate Authenticates(hash: string -> string, db: Db, token: string, profileId: string) {
    match DeviceProfiles(hash, db, token)
    case None => false
    case Some(profiles) => profiles == [] || CurrentProfile(profileId) in profiles
  }

  function Touch(devices: seq<Device>, deviceId: string, now: int): (r: seq<Device>)
    ensures |r| == |devices|
    ensures forall i :: 0 <= i < |r| ==>
              r[i] == if devices[i].deviceId == deviceId then devices[i].(lastUsedAt := now) else devices[i]
  {
    seq(|devices|, i requires 0 <= i < |devices| =>
      if devices[i].deviceId == deviceId then devices[i].(lastUsedAt := now) else devices[i])
  }

  function RevokeRows(devices: seq<Device>, tokenHash: string, now: int): (r: seq<Device>)
    ensures |r| == |devices|
    ensures forall i :: 0 <= i < |r| ==>
              r[i] == if Active(devices[i], tokenHash) then devices[i].(revokedAt := Some(now)) else devices[i]
  {
    seq(|devices|, i requires 0 <= i < |devices| =>
      if Active(devices[i], tokenHash) then devices[i].(revokedAt := Some(now)) else devices[i])
  }

  function Revoked(hash: string -> string, db: Db, token: string, now: int): (Db, bool) {
    if !IsDeviceToken(Strip(token)) then (db, false)
    else
      var key := hash(Strip(token));
      (db.(devices := RevokeRows(db.devices, key, now)), FirstActive(db.devices, key).Some?)
  }

  // ---- Profile scopes ----

  ghost predicate Names(values: seq<string>, id: string) {
    exists i :: 0 <= i < |values| && Strip(values[i]) == id
  }

  lemma NamesLast(values: seq<string>, id: string)
    requires values != []
    ensures Names(values, id) <==> Names(values[..|values| - 1], id) || Strip(values[|values| - 1]) == id
  {
    var front := values[..|values| - 1];
    assert forall i :: 0 <= i < |front| ==> front[i] == values[i];
    if i :| 0 <= i < |front| && Strip(front[i]) == id {
      assert Strip(values[i]) == id;
    }
  }

  /** A scope lists exactly the valid stripped values. */
  lemma {:induction false} ScopeHoldsTheValidIds(values: seq<string>, id: string)
    ensures id in Scope(values) <==> IsProfileId(id) && Names(values, id)
  {
    if values != [] {
      ScopeHoldsTheValidIds(values[..|values| - 1], id);
      NamesLast(values, id);
    }
  }

  lemma {:induction false} ScopeHasNoDuplicates(values: seq<string>)
    ensures forall i, j :: 0 <= i < j < |Scope(values)| ==> Scope(values)[i] != Scope(values)[j]
    ensures forall i :: 0 <= i < |Scope(values)| ==> IsProfileId(Scope(values)[i])
  {
    if values != [] {
      ScopeHasNoDuplicates(values[..|values| - 1]);
    }
  }

  /** Later values only append: a scope is in the order of first occurrences. */
  lemma {:induction false} ScopeKeepsFirstOccurrences(values: seq<string>, k: nat)
    requires k <= |values|
    ensures Scope(values[..k]) <= Scope(values)
    decreases |values| - k
  {
    if k == |values| {
      assert values[..k] == values;
    } else {
      assert values[..k + 1][..k] == values[..k];
      ScopeKeepsFirstOccurrences(values, k + 1);
    }
  }

  lemma {:induction false} ScopeOfScope(ids: seq<string>)
    requires forall i :: 0 <= i < |ids| ==> IsProfileId(ids[i])
    requires forall i, j :: 0 <= i < j < |ids| ==> ids[i] != ids[j]
    ensures Scope(ids) == ids
  {
    if ids != [] {
      var front, id := ids[..|ids| - 1], ids[|ids| - 1];
      ScopeOfScope(front);
      ProfileIdIsStripped(id);
      assert ids == front + [id];
    }
  }

  /** Normalising profiles is idempotent. */
  lemma {:induction false} ScopeTwice(values: seq<string>)
    ensures Scope(Scope(values)) == Scope(values)
  {
    ScopeHasNoDuplicates(values);
    ScopeOfScope(Scope(values));
  }

  // ---- The store ----

  class PairingStore {
    const hash: string -> string
    var tickets: map<string, Ticket>
    var devices: seq<Device>

    ghost function Contents(): Db
      reads this
    {
      Db(tickets, devices)
    }

    constructor (hash: string -> string)
      ensures Contents() == Db(map[], []) && this.hash == hash
    {
      this.hash := hash;
      tickets, devices := map[], [];
    }

    static method NormalizeProfiles(values: seq<string>) returns (r: seq<string>)
      ensures r == Scope(values)
    {
      r := [];
      for i := 0 to |values|
        invariant r == Scope(values[..i])
      {
        assert values[..i + 1][..i] == values[..i];
        var profileId := Strip(values[i]);
        if profileId != "" && profileId !in r && IsProfileId(profileId) {
          r := r + [profileId];
        }
      }
      assert values[..|values|] == values;
    }

    method Insert(url: string, token: string, ttl: int, now: int, profileIds: seq<string>, code: string)
      returns (r: Result<Invitation, PairingError>)
      modifies `tickets
      ensures (Contents(), r) == Inserted(hash, old(Contents()), url, token, ttl, now, profileIds, code)
    {
      var codeHash := hash(code);
      if codeHash in tickets {
        return Failure(IntegrityError);
      }
      var profiles := NormalizeProfiles(profileIds);
      var ticket := Ticket(url, hash(token), profiles, now, now + ttl, None);
      tickets := tickets[codeHash := ticket];
      r := Success(Invitation(PairingUrl(url, code), now + ttl));
    }

    /** `code` is the random code that `secrets` mints. */
    method CreateTicket(baseUrl: string, apiToken: string, ttl: int, now: int, profileIds: seq<string>, code: string)
      returns (r: Result<Invitation, PairingError>)
      modifies `tickets
      ensures (Contents(), r)
           == TicketCreated(hash, old(Contents()), baseUrl, apiToken, ttl, now, profileIds, code)
    {
      var url := TrimSlashes(Strip(baseUrl));
      if !IsBaseUrl(url) {
        return Failure(PairingUrlInvalid);
      }
      var token := Strip(apiToken);
      if |token| < 8 || |token| > 4096 {
        return Failure(PairingTokenInvalid);
      }
      if ttl < 30 || ttl > 3600 {
        return Failure(TtlOutOfRange);
      }
      r := Insert(url, token, ttl, now, profileIds, code);
    }

    /** `deviceId` and `deviceToken` are the random values that `secrets` mints; a failure rolls back. */
    method Exchange(code: string, now: int, deviceId: string, deviceToken: string)
      returns (r: Result<Grant, PairingError>)
      modifies this
      ensures (Contents(), r) == Exchanged(hash, old(Contents()), code, now, deviceId, deviceToken)
    {
      var normalized := Strip(code);
      if !IsPairingCode(normalized) {
        return Failure(PairingInvalid);
      }
      var ticketsBefore, devicesBefore := tickets, devices;
      var key := hash(normalized);
      if key !in tickets {
        return Failure(PairingInvalid);
      }
      var row := tickets[key];
      if row.usedAt.Some? {
        return Failure(PairingUsed);
      }
      if row.expiresAt <= now {
        return Failure(PairingExpired);
      }
      tickets := tickets[key := row.(usedAt := Some(now))];
      var profiles := NormalizeProfiles(row.profiles);
      if Collides(devices, deviceId, hash(deviceToken)) {
        tickets, devices := ticketsBefore, devicesBefore;
        return Failure(IntegrityError);
      }
      devices := devices + [Device(deviceId, hash(deviceToken), row.baseUrl, profiles, now, now, None)];
      r := Success(Grant(row.baseUrl, deviceId, deviceToken, profiles));
    }

    method DeviceProfileIds(token: string, now: int) returns (r: Option<seq<string>>)
      modifies `devices
      ensures r == DeviceProfiles(hash, old(Contents()), token)
      ensures match Lookup(hash, old(Contents()), token)
              case None => devices == old(devices)
              case Some(device) => devices == Touch(old(devices), device.deviceId, now)
    {
      var normalized := Strip(token);
      if !IsDeviceToken(normalized) {
        return None;
      }
      var row := FirstActive(devices, hash(normalized));
      if row.None? {
        return None;
      }
      var profiles := NormalizeProfiles(row.value.profiles);
      devices := Touch(devices, row.value.deviceId, now);
      r := Some(profiles);
    }

    method AuthenticateDeviceToken(token: string, profileId: string, now: int) returns (ok: bool)
      modifies `devices
      ensures ok == Authenticates(hash, old(Contents()), token, profileId)
      ensures match Lookup(hash, old(Contents()), token)
              case None => devices == old(devices)
              case Some(device) => devices == Touch(old(devices), device.deviceId, now)
    {
      var profiles := DeviceProfileIds(token, now);
      if profiles.None? {
        return false;
      }
      var current := Strip(if profileId == "" then "default" else profileId);
      CurrentProfileIs(profileId);
      if current == "" {
        current := "default";
      }
      ok := profiles.value == [] || current in profiles.value;
    }

    method RevokeDeviceToken(token: string, now: int) returns (revoked: bool)
      modifies `devices
      ensures (Contents(), revoked) == Revoked(hash, old(Contents()), token, now)
    {
      var normalized := Strip(token);
      if !IsDeviceToken(normalized) {
        return false;
      }
      revoked := FirstActive(devices, hash(normalized)).Some?;
      devices := RevokeRows(devices, hash(normalized), now);
    }
  }
}
