/** From the pairing URL to the device token: what is minted, read back, authenticated and revoked. */
module TokenLife {
  import opened Wrappers
  import opened PyText
  import opened ByteStrings
  import opened Base64
  import opened Pairing
  import opened PairingRuns

  // ---- Minted codes and tokens ----

  lemma DigitIsUrlSafe(n: Sextet)
    ensures IsUrlSafeChar(Digit(UrlSafe, n))
  {
  }

  lemma {:induction false} DigitsAreUrlSafe(data: Bytes)
    ensures forall c :: c in Digits(UrlSafe, data) ==> IsUrlSafeChar(c)
  {
    if |data| <= 2 {
      if |data| > 0 {
        DigitIsUrlSafe(First(data[0]));
        DigitIsUrlSafe(Second(data[0], if |data| == 2 then data[1] else 0));
        DigitIsUrlSafe(Third(if |data| == 2 then data[1] else 0, 0));
      }
    } else {
      DigitIsUrlSafe(First(data[0]));
      DigitIsUrlSafe(Second(data[0], data[1]));
      DigitIsUrlSafe(Third(data[1], data[2]));
      DigitIsUrlSafe(Fourth(data[2]));
      DigitsAreUrlSafe(data[3..]);
    }
  }

  lemma AfterPrefix(rest: string)
    ensures ("hmd_" + rest)[4..] == rest && StartsWith("hmd_" + rest, "hmd_")
  {
  }

  /** `secrets.token_urlsafe(32)`: whatever the 32 bytes, it is a pairing code and, prefixed, a device token. */
  lemma MintedIsValid(raw: Bytes)
    requires |raw| == 32
    ensures IsPairingCode(Base64Url(raw)) && IsDeviceToken("hmd_" + Base64Url(raw))
  {
    Base64UrlIsDigits(raw);
    Base64UrlLength(raw);
    DigitsAreUrlSafe(raw);
    AfterPrefix(Base64Url(raw));
  }

  // ---- The pairing URL ----

  /** The value of the first query parameter, if that is `code`. */
  function CodeIn(url: string): string {
    var query := FirstIndex(url, '?');
    if !StartsWith(url[query..], "?code=") then ""
    else
      var rest := url[query..][6..];
      rest[..FirstIndex(rest, '&')]
  }

  lemma LackedByBoth<T>(a: seq<T>, b: seq<T>, x: T)
    requires x !in a && x !in b
    ensures x !in a + b
  {
  }

  lemma BaseHasNoQuery(baseUrl: string)
    requires IsBaseUrl(baseUrl)
    ensures '?' !in baseUrl + "/api/mobile/pair"
  {
    if StartsWith(baseUrl, "https://") && IsHost(baseUrl[8..]) {
      LackedByBoth("https://", baseUrl[8..], '?');
      assert baseUrl == "https://" + baseUrl[8..];
    } else {
      LackedByBoth("http://", baseUrl[7..], '?');
      assert baseUrl == "http://" + baseUrl[7..];
    }
    LackedByBoth(baseUrl, "/api/mobile/pair", '?');
  }

  lemma UntilAmpersand(code: string, rest: string)
    requires '&' !in code
    ensures (code + "&" + rest)[..FirstIndex(code + "&" + rest, '&')] == code
  {
    var s := code + "&" + rest;
    assert s[..|code|] == code;
    FirstIndexIs(s, '&', |code|);
  }

  lemma AtQuery(head: string, query: string)
    requires '?' !in head && query != "" && query[0] == '?'
    ensures (head + query)[FirstIndex(head + query, '?')..] == query
  {
    assert (head + query)[..|head|] == head;
    FirstIndexIs(head + query, '?', |head|);
    DropFront(head, query);
  }

  lemma CodeInQuery(head: string, code: string)
    requires '?' !in head && '&' !in code
    ensures CodeIn(head + ("?code=" + (code + "&" + "v=1"))) == code
  {
    var tail := code + "&" + "v=1";
    AtQuery(head, "?code=" + tail);
    DropFront("?code=", tail);
    UntilAmpersand(code, "v=1");
  }

  lemma UrlParts(baseUrl: string, code: string)
    ensures PairingUrl(baseUrl, code) == baseUrl + "/api/mobile/pair" + ("?code=" + (code + "&" + "v=1"))
  {
  }

  /** The code is read back from the pairing URL, which leads to the server's own address. */
  lemma UrlCarriesTheCode(baseUrl: string, code: string)
    requires IsBaseUrl(baseUrl) && IsPairingCode(code)
    ensures CodeIn(PairingUrl(baseUrl, code)) == code
    ensures StartsWith(PairingUrl(baseUrl, code), baseUrl + "/api/mobile/pair")
  {
    BaseHasNoQuery(baseUrl);
    UrlParts(baseUrl, code);
    CodeInQuery(baseUrl + "/api/mobile/pair", code);
  }

  /**
   The invitation as a whole: the code a client reads in the URL it was given is answered, after any history, as
   used, expired or with a grant, exactly as the code that was minted.
   */
  lemma InvitationIsRedeemable(hash: string -> string, db: Db, baseUrl: string, apiToken: string, ttl: int,
                               issuedAt: int, profileIds: seq<string>, code: string, ops: seq<Op>,
                               now: int, deviceId: string, deviceToken: string)
    requires TicketCreated(hash, db, baseUrl, apiToken, ttl, issuedAt, profileIds, code).1.Success?
    requires IsPairingCode(code)
    ensures var (created, answer) := TicketCreated(hash, db, baseUrl, apiToken, ttl, issuedAt, profileIds, code);
            var end, read := After(hash, created, ops), CodeIn(answer.value.pairingUrl);
            && answer.value.expiresAt == issuedAt + ttl
            && Exchanged(hash, end, read, now, deviceId, deviceToken).1
                 == if !NeverSpent(hash, created, ops, hash(code)) then Failure(PairingUsed)
                    else if now >= answer.value.expiresAt then Failure(PairingExpired)
                    else if Collides(end.devices, deviceId, hash(deviceToken)) then Failure(IntegrityError)
                    else Success(Grant(TrimSlashes(Strip(baseUrl)), deviceId, deviceToken, Scope(profileIds)))
  {
    UrlCarriesTheCode(TrimSlashes(Strip(baseUrl)), code);
    CodeIsGoodUntilSpentOrExpired(hash, db, baseUrl, apiToken, ttl, issuedAt, profileIds, code, ops,
                                  now, deviceId, deviceToken);
  }

  // ---- The device token ----

  /** "hmd_" and 32 to 128 URL-safe characters. */
  predicate IsMinted(token: string) {
    && |token| >= 4 && token[..4] == "hmd_"
    && 32 <= |token| - 4 <= 128
    && forall i :: 4 <= i < |token| ==> IsUrlSafeChar(token[i])
  }

  lemma MintedIsToken(token: string)
    ensures IsMinted(token) <==> IsDeviceToken(token)
  {
    if |token| >= 4 {
      assert forall i :: 4 <= i < |token| ==> token[i] == token[4..][i - 4];
      if IsMinted(token) {
        assert StartsWith(token, "hmd_");
      }
    }
  }

  /** Row `i` is a live device with this token hash and scope. */
  ghost predicate LiveRow(db: Db, i: nat, tokenHash: string, profiles: seq<string>) {
    && i < |db.devices| && Active(db.devices[i], tokenHash) && db.devices[i].profiles == profiles
  }

  /** No step revokes a token with this hash. */
  ghost predicate NeverRevoked(hash: string -> string, ops: seq<Op>, tokenHash: string) {
    forall i :: 0 <= i < |ops| && ops[i].Withdraw? ==> hash(Strip(ops[i].revoked)) != tokenHash
  }

  lemma StepKeepsLiveRow(hash: string -> string, db: Db, op: Op, i: nat, tokenHash: string, profiles: seq<string>)
    requires LiveRow(db, i, tokenHash, profiles)
    requires op.Withdraw? ==> hash(Strip(op.revoked)) != tokenHash
    ensures LiveRow(Apply(hash, db, op), i, tokenHash, profiles)
  {
  }

  lemma {:induction false} RunKeepsLiveRow(hash: string -> string, db: Db, ops: seq<Op>, i: nat, tokenHash: string,
                                           profiles: seq<string>)
    requires LiveRow(db, i, tokenHash, profiles) && NeverRevoked(hash, ops, tokenHash)
    ensures LiveRow(After(hash, db, ops), i, tokenHash, profiles)
    decreases |ops|
  {
    if ops != [] {
      StepKeepsLiveRow(hash, db, ops[0], i, tokenHash, profiles);
      RunKeepsLiveRow(hash, Apply(hash, db, ops[0]), ops[1..], i, tokenHash, profiles);
    }
  }

  lemma ExchangeMakesLiveRow(hash: string -> string, db: Db, code: string, now: int, deviceId: string, token: string)
    requires UniqueDevices(db.devices) && TicketsHold(db)
    requires Exchanged(hash, db, code, now, deviceId, token).1.Success?
    ensures var (next, grant) := Exchanged(hash, db, code, now, deviceId, token);
            && LiveRow(next, |db.devices|, hash(token), grant.value.profiles)
            && UniqueDevices(next.devices)
            && Scope(grant.value.profiles) == grant.value.profiles
  {
    ExchangeIsAllOrNothing(hash, db, code, now, deviceId, token);
    UniqueAfter(hash, db, Redeem(code, now, deviceId, token));
  }

  /**
   The life of a token: after the exchange that granted it, whatever happens short of its own revocation, it stands
   for exactly the granted scope. It authenticates for every profile of that scope and for no other, or for every
   profile if the scope is empty, a blank profile standing for "default"; and revoking it reports true.
   */
  lemma TokenIsGoodUntilRevoked(hash: string -> string, db: Db, code: string, now: int, deviceId: string, token: string,
                                ops: seq<Op>, presented: string, profileId: string, later: int)
    requires UniqueDevices(db.devices) && TicketsHold(db)
    requires Exchanged(hash, db, code, now, deviceId, token).1.Success?
    requires IsMinted(token) && Strip(presented) == token
    requires NeverRevoked(hash, ops, hash(token))
    ensures var (next, grant) := Exchanged(hash, db, code, now, deviceId, token);
            var end, scope := After(hash, next, ops), grant.value.profiles;
            && DeviceProfiles(hash, end, presented) == Some(scope)
            && (Authenticates(hash, end, presented, profileId) <==>
                  scope == [] || (if Strip(profileId) == "" then "default" else Strip(profileId)) in scope)
            && Revoked(hash, end, presented, later).1
  {
    var (next, grant) := Exchanged(hash, db, code, now, deviceId, token);
    var end, i := After(hash, next, ops), |db.devices|;
    ExchangeMakesLiveRow(hash, db, code, now, deviceId, token);
    RunKeepsLiveRow(hash, next, ops, i, hash(token), grant.value.profiles);
    UniqueFrom(hash, next, ops);
    OnlyActiveRow(end.devices, i, hash(token));
    MintedIsToken(token);
  }

  /** A revocation reports true exactly when a live row has the token's hash; it leaves no such row. */
  lemma RevokesExactly(hash: string -> string, db: Db, token: string, now: int)
    ensures var (next, revoked) := Revoked(hash, db, token, now);
            && (revoked <==> IsMinted(Strip(token))
                             && exists i :: 0 <= i < |db.devices| && Active(db.devices[i], hash(Strip(token))))
            && Lookup(hash, next, token).None?
  {
    MintedIsToken(Strip(token));
  }

  /** A token that was never granted, or is not of the minted form, authenticates for nothing. */
  lemma UnknownTokensAreRefused(hash: string -> string, db: Db, token: string, profileId: string)
    requires IsMinted(Strip(token)) ==>
               forall i :: 0 <= i < |db.devices| ==> db.devices[i].tokenHash != hash(Strip(token))
    ensures !Authenticates(hash, db, token, profileId) && DeviceProfiles(hash, db, token).None?
  {
    MintedIsToken(Strip(token));
  }
}
