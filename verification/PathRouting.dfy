/** Translation of protocol paths to Agent paths, and the profile a device token is checked for. */
module PathRouting {
  import opened Wrappers
  import opened PyText

  /**
   The library routines, as arbitrary functions: percent-decoding, percent-encoding of one reserved character,
   and `str.lower`.
   */
  datatype Library = Library(unquote: string -> string, encode: char -> string, lower: string -> string)

  const PROFILE_PREFIX := "/hermes-link/v1/profiles/"

  const PROTOCOL_EXACT_PATHS: map<string, string> := map[
    "/hermes-link/v1/models" := "/v1/models",
    "/hermes-link/v1/models/config" := "/api/model/config",
    "/hermes-link/v1/models/options" := "/api/model/options",
    "/hermes-link/v1/chat/completions" := "/v1/chat/completions",
    "/hermes-link/v1/chat/cancel" := "/api/mobile/chat/cancel",
    "/hermes-link/v1/pairing" := "/api/mobile/pair",
    "/hermes-link/v1/pairing/device" := "/api/mobile/pair/device",
    "/hermes-link/v1/cloud/identity" := "/api/mobile/cloud/identity",
    "/hermes-link/v1/cloud/configure" := "/api/mobile/cloud/configure",
    "/hermes-link/v1/cloud/binding" := "/api/mobile/cloud/binding"]

  const JOBS := "/hermes-link/v1/jobs"
  const SESSIONS := "/hermes-link/v1/sessions"
  const PUSH_DEVICES := "/hermes-link/v1/notifications/devices"

  // ---- The profile segment ----

  /** The groups of `^/hermes-link/v1/profiles/([^/]+)(/.*)$`: a dot does not match a newline. */
  function ProfileMatch(path: string): Option<(string, string)> {
    if !StartsWith(path, PROFILE_PREFIX) then None
    else
      var rest := path[|PROFILE_PREFIX|..];
      var i := FirstIndex(rest, '/');
      if 0 < i < |rest| && '\n' !in rest[i..] then Some((rest[..i], rest[i..])) else None
  }

  predicate IsUnreserved(c: char) {
    IsNameChar(c) || c == '~'
  }

  /** `quote(s, safe='')` */
  function Quote(lib: Library, s: string): string {
    if s == "" then ""
    else (if IsUnreserved(s[0]) then [s[0]] else lib.encode(s[0])) + Quote(lib, s[1..])
  }

  // ---- Translation ----

  /** `path` is the prefix itself or continues it with a slash. */
  predicate Under(path: string, prefix: string) {
    path == prefix || StartsWith(path, prefix + "/")
  }

  /** The Agent path of a path without profile segment. */
  function Target(path: string): Option<string> {
    if path in PROTOCOL_EXACT_PATHS then Some(PROTOCOL_EXACT_PATHS[path])
    else if Under(path, JOBS) then Some("/api/jobs" + path[|JOBS|..])
    else if Under(path, SESSIONS) then Some("/api/sessions" + path[|SESSIONS|..])
    else if Under(path, PUSH_DEVICES) then Some("/api/mobile/push/devices" + path[|PUSH_DEVICES|..])
    else None
  }

  function ProtocolToAgentPath(lib: Library, path: string): Option<string> {
    match ProfileMatch(path)
    case None => Target(path)
    case Some((segment, suffix)) =>
      var profileId := Strip(lib.unquote(segment));
      if !IsProfileId(profileId) then None
      else
        match Target("/hermes-link/v1" + suffix)
        case None => None
        case Some(target) => Some("/p/" + Quote(lib, profileId) + target)
  }

  /** The profile a device token must be good for; empty when the path names an invalid one. */
  function AuthorizedProfile(lib: Library, path: string): string {
    match ProfileMatch(path)
    case None => "default"
    case Some((segment, _)) =>
      var profileId := Strip(lib.unquote(segment));
      if IsProfileId(profileId) then profileId else ""
  }

  // ---- Headers ----

  datatype AuthorizationError = DeviceTokenInvalid | UpstreamUnavailable

  const FORWARDED := ["Authorization", "Content-Type", "Last-Event-ID", "X-Hermes-Session-Id"]

  predicate HasHeader(headers: map<string, string>, name: string) {
    name in headers && headers[name] != ""
  }

  /** The token of a bearer authorization, or the empty string. */
  function BearerToken(lib: Library, headers: map<string, string>): string {
    if !HasHeader(headers, "Authorization") then ""
    else
      var value := headers["Authorization"];
      var i := FirstIndex(value, ' ');
      if i == |value| || lib.lower(value[..i]) != "bearer" then "" else Strip(value[i + 1..])
  }

  lemma ForwardedNames(name: string)
    ensures name in FORWARDED <==>
              name in {"Authorization", "Content-Type", "Last-Event-ID", "X-Hermes-Session-Id"}
  {
  }

  /** The four headers that go upstream, of those that are present and not empty. */
  ghost predicate GoesUpstream(headers: map<string, string>, name: string) {
    && name in {"Authorization", "Content-Type", "Last-Event-ID", "X-Hermes-Session-Id"}
    && name in headers && headers[name] != ""
  }

  method ForwardAgentHeaders(headers: map<string, string>) returns (forwarded: map<string, string>)
    ensures forall name :: name in forwarded <==> GoesUpstream(headers, name)
    ensures forall name :: name in forwarded ==> name in headers && forwarded[name] == headers[name]
  {
    forwarded := map[];
    for i := 0 to |FORWARDED|
      invariant forall name :: name in forwarded <==> name in FORWARDED[..i] && HasHeader(headers, name)
      invariant forall name :: name in forwarded ==> name in headers && forwarded[name] == headers[name]
    {
      assert FORWARDED[..i + 1] == FORWARDED[..i] + [FORWARDED[i]];
      if HasHeader(headers, FORWARDED[i]) {
        forwarded := forwarded[FORWARDED[i] := headers[FORWARDED[i]]];
      }
    }
    assert FORWARDED[..|FORWARDED|] == FORWARDED;
    forall name ensures name in forwarded <==> GoesUpstream(headers, name) {
      ForwardedNames(name);
    }
  }

  /** A device token is checked for the path's profile and replaced by the Agent key; other tokens pass. */
  method PrepareAgentHeaders(lib: Library, headers: map<string, string>, path: string,
                             authenticate: (string, string) -> bool, upstreamToken: string)
    returns (r: Result<map<string, string>, AuthorizationError>)
    ensures var token, profile := BearerToken(lib, headers), AuthorizedProfile(lib, path);
            if !StartsWith(token, "hmd_") then
              && r.Success?
              && (forall name :: name in r.value <==> GoesUpstream(headers, name))
              && (forall name :: name in r.value ==> r.value[name] == headers[name])
            else if profile == "" || !authenticate(token, profile) then
              r == Failure(DeviceTokenInvalid)
            else if |Strip(upstreamToken)| < 8 then
              r == Failure(UpstreamUnavailable)
            else
              && r.Success?
              && (forall name :: name in r.value <==> GoesUpstream(headers, name))
              && (forall name :: name in r.value && name != "Authorization" ==> r.value[name] == headers[name])
              && r.value["Authorization"] == "Bearer " + Strip(upstreamToken)
  {
    var forwarded := ForwardAgentHeaders(headers);
    var token := BearerToken(lib, headers);
    if !StartsWith(token, "hmd_") {
      return Success(forwarded);
    }
    var profileId := AuthorizedProfile(lib, path);
    if profileId == "" || !authenticate(token, profileId) {
      return Failure(DeviceTokenInvalid);
    }
    var resolved := Strip(upstreamToken);
    if |resolved| < 8 {
      return Failure(UpstreamUnavailable);
    }
    forwarded := forwarded["Authorization" := "Bearer " + resolved];
    r := Success(forwarded);
  }
}
