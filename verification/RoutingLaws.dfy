/** Routing and authorisation agree, and different requests never reach the same Agent path. */
module RoutingLaws {
  import opened Wrappers
  import opened PyText
  import opened PathRouting
  import Pairing

  // ---- Paths without profile ----

  /** The table an Agent path comes from, told by a few of its characters. */
  datatype Route = ExactRoute | JobsRoute | SessionsRoute | PushDevicesRoute

  function RouteOf(target: string): Route {
    if |target| > 5 && target[5] == 'j' then JobsRoute
    else if |target| > 5 && target[5] == 's' then SessionsRoute
    else if |target| > 13 && target[7] == 'b' && target[12] == 'p' && target[13] == 'u' then PushDevicesRoute
    else ExactRoute
  }

  lemma ExactTargetsAreExact(path: string)
    requires path in PROTOCOL_EXACT_PATHS
    ensures RouteOf(PROTOCOL_EXACT_PATHS[path]) == ExactRoute
    ensures StartsWith(PROTOCOL_EXACT_PATHS[path], "/") && PROTOCOL_EXACT_PATHS[path][1] != 'p'
  {
  }

  /** No two exact paths share a target. */
  lemma ExactTargetsDiffer(a: string, b: string)
    requires a in PROTOCOL_EXACT_PATHS && b in PROTOCOL_EXACT_PATHS
    requires PROTOCOL_EXACT_PATHS[a] == PROTOCOL_EXACT_PATHS[b]
    ensures a == b
  {
  }

  /** A translated path is an exact one, or a public prefix replaced by its internal one. */
  lemma TargetParts(path: string)
    requires Target(path).Some?
    ensures match RouteOf(Target(path).value)
            case ExactRoute => path in PROTOCOL_EXACT_PATHS && Target(path).value == PROTOCOL_EXACT_PATHS[path]
            case JobsRoute => Under(path, JOBS) && Target(path).value == "/api/jobs" + path[|JOBS|..]
            case SessionsRoute => Under(path, SESSIONS) && Target(path).value == "/api/sessions" + path[|SESSIONS|..]
            case PushDevicesRoute =>
              Under(path, PUSH_DEVICES) && Target(path).value == "/api/mobile/push/devices" + path[|PUSH_DEVICES|..]
    ensures StartsWith(Target(path).value, "/") && |Target(path).value| > 1 && Target(path).value[1] != 'p'
  {
    if path in PROTOCOL_EXACT_PATHS {
      ExactTargetsAreExact(path);
    }
  }

  lemma SameRest(a: string, b: string, public: string, internal: string)
    requires Under(a, public) && Under(b, public)
    requires internal + a[|public|..] == internal + b[|public|..]
    ensures a == b
  {
    assert a[|public|..] == (internal + a[|public|..])[|internal|..];
    assert b[|public|..] == (internal + b[|public|..])[|internal|..];
    assert a == public + a[|public|..] && b == public + b[|public|..];
  }

  /** Without profile, translation is injective. */
  lemma TargetIsInjective(a: string, b: string)
    requires Target(a).Some? && Target(a) == Target(b)
    ensures a == b
  {
    TargetParts(a);
    TargetParts(b);
    match RouteOf(Target(a).value)
    case ExactRoute => ExactTargetsDiffer(a, b);
    case JobsRoute => SameRest(a, b, JOBS, "/api/jobs");
    case SessionsRoute => SameRest(a, b, SESSIONS, "/api/sessions");
    case PushDevicesRoute => SameRest(a, b, PUSH_DEVICES, "/api/mobile/push/devices");
  }

  // ---- Paths with profile ----

  /** What the Agent sees in a path: the profile after `/p/`, or the default one, and the rest. */
  function AgentProfile(agentPath: string): string {
    if StartsWith(agentPath, "/p/") then agentPath[3..][..FirstIndex(agentPath[3..], '/')] else "default"
  }

  function AgentRest(agentPath: string): string {
    if StartsWith(agentPath, "/p/") then agentPath[3..][FirstIndex(agentPath[3..], '/')..] else agentPath
  }

  /** The path without its profile segment. */
  function Normalized(path: string): string {
    match ProfileMatch(path)
    case None => path
    case Some((_, suffix)) => "/hermes-link/v1" + suffix
  }

  /** Quoting leaves a valid profile id as it is. */
  lemma {:induction false} QuoteProfile(lib: Library, id: string)
    requires forall c :: c in id ==> IsNameChar(c)
    ensures Quote(lib, id) == id
  {
    if id != "" {
      assert id[0] in id && forall c :: c in id[1..] ==> c in id;
      QuoteProfile(lib, id[1..]);
      assert id == [id[0]] + id[1..];
    }
  }

  lemma PrefixedParts(id: string, target: string)
    requires IsProfileId(id) && StartsWith(target, "/")
    ensures AgentProfile("/p/" + id + target) == id && AgentRest("/p/" + id + target) == target
    ensures StartsWith("/p/" + id + target, "/p/")
  {
    var s := id + target;
    assert "/p/" + id + target == "/p/" + s;
    assert ("/p/" + s)[3..] == s;
    assert s[..|id|] == id && s[|id|..] == target;
    FirstIndexIs(s, '/', |id|);
  }

  /**
   Routing agrees with authorisation: for every path that is translated, the profile a device token is checked
   for is the profile the Agent reads from the path it receives, and the rest is the translation of the path
   without its profile segment.
   */
  lemma RoutedProfileIsAuthorized(lib: Library, path: string)
    requires ProtocolToAgentPath(lib, path).Some?
    ensures var agentPath := ProtocolToAgentPath(lib, path).value;
            && AgentProfile(agentPath) == AuthorizedProfile(lib, path) != ""
            && Some(AgentRest(agentPath)) == Target(Normalized(path))
            && (StartsWith(agentPath, "/p/") <==> ProfileMatch(path).Some?)
  {
    match ProfileMatch(path)
    case None => TargetParts(path);
    case Some((segment, suffix)) =>
      var id := Strip(lib.unquote(segment));
      QuoteProfile(lib, id);
      TargetParts("/hermes-link/v1" + suffix);
      PrefixedParts(id, Target("/hermes-link/v1" + suffix).value);
  }

  /**
   Two paths reach the same Agent path exactly when both or neither carry a profile segment, the decoded
   profiles are the same, and the paths without their profile segments are the same.
   */
  lemma SameAgentPathIff(lib: Library, a: string, b: string)
    requires ProtocolToAgentPath(lib, a).Some? && ProtocolToAgentPath(lib, b).Some?
    ensures ProtocolToAgentPath(lib, a) == ProtocolToAgentPath(lib, b) <==>
              && (ProfileMatch(a).Some? <==> ProfileMatch(b).Some?)
              && AuthorizedProfile(lib, a) == AuthorizedProfile(lib, b)
              && Normalized(a) == Normalized(b)
  {
    RoutedProfileIsAuthorized(lib, a);
    RoutedProfileIsAuthorized(lib, b);
    if ProtocolToAgentPath(lib, a) == ProtocolToAgentPath(lib, b) {
      TargetIsInjective(Normalized(a), Normalized(b));
    }
  }

  lemma DefaultIsStripped()
    ensures Strip("default") == "default"
  {
  }

  /**
   End to end: whenever a request with a device token is translated and its token authenticates for the checked
   profile, the profile the Agent will serve is in the scope of the device, or the device is good for all.
   */
  lemma ServedProfileIsInScope(lib: Library, hash: string -> string, db: Pairing.Db, token: string, path: string)
    requires ProtocolToAgentPath(lib, path).Some?
    requires Pairing.Authenticates(hash, db, token, AuthorizedProfile(lib, path))
    ensures var scope := Pairing.DeviceProfiles(hash, db, token);
            scope.Some? && (scope.value == [] || AgentProfile(ProtocolToAgentPath(lib, path).value) in scope.value)
  {
    RoutedProfileIsAuthorized(lib, path);
    var profile := AuthorizedProfile(lib, path);
    if ProfileMatch(path).Some? {
      ProfileIdIsStripped(profile);
    } else {
      DefaultIsStripped();
    }
  }
}
