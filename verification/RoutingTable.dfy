/** The whole routing table: which Agent path each protocol path reaches, with and without a profile. */
module RoutingTable {
  import opened Wrappers
  import opened PyText
  import opened PathRouting
  import opened RoutingLaws

  /** The operations with a path of their own. */
  ghost predicate IsExactRoute(path: string, agent: string) {
    || (path == "/hermes-link/v1/models" && agent == "/v1/models")
    || (path == "/hermes-link/v1/models/config" && agent == "/api/model/config")
    || (path == "/hermes-link/v1/models/options" && agent == "/api/model/options")
    || (path == "/hermes-link/v1/chat/completions" && agent == "/v1/chat/completions")
    || (path == "/hermes-link/v1/chat/cancel" && agent == "/api/mobile/chat/cancel")
    || (path == "/hermes-link/v1/pairing" && agent == "/api/mobile/pair")
    || (path == "/hermes-link/v1/pairing/device" && agent == "/api/mobile/pair/device")
    || (path == "/hermes-link/v1/cloud/identity" && agent == "/api/mobile/cloud/identity")
    || (path == "/hermes-link/v1/cloud/configure" && agent == "/api/mobile/cloud/configure")
    || (path == "/hermes-link/v1/cloud/binding" && agent == "/api/mobile/cloud/binding")
  }

  /** A resource and everything below it. */
  ghost predicate IsBelow(path: string, public: string, agent: string, internal: string) {
    && StartsWith(path, public)
    && var rest := path[|public|..];
    && (rest == "" || rest[0] == '/')
    && agent == internal + rest
  }

  ghost predicate IsRoute(path: string, agent: string) {
    || IsExactRoute(path, agent)
    || IsBelow(path, "/hermes-link/v1/jobs", agent, "/api/jobs")
    || IsBelow(path, "/hermes-link/v1/sessions", agent, "/api/sessions")
    || IsBelow(path, "/hermes-link/v1/notifications/devices", agent, "/api/mobile/push/devices")
  }

  lemma ExactRoutes(path: string, agent: string)
    ensures path in PROTOCOL_EXACT_PATHS && PROTOCOL_EXACT_PATHS[path] == agent <==> IsExactRoute(path, agent)
  {
  }

  lemma UnderIsBelow(path: string, public: string, agent: string, internal: string)
    ensures Under(path, public) && agent == internal + path[|public|..] <==> IsBelow(path, public, agent, internal)
  {
    if StartsWith(path, public) {
      var rest := path[|public|..];
      assert path == public + rest;
      assert path == public <==> rest == "";
      if StartsWith(path, public + "/") {
        assert rest[0] == (public + "/")[|public|];
      }
      if rest != "" && rest[0] == '/' {
        assert path[..|public| + 1] == public + "/";
      }
    }
  }

  // "/hermes-link/v1/" has 16 characters; the next one tells the tables apart.

  lemma ExactInitial(path: string)
    requires path in PROTOCOL_EXACT_PATHS
    ensures |path| > 16 && path[16] in {'m', 'c', 'p'}
  {
  }

  lemma BelowInitial(path: string, public: string, agent: string, internal: string)
    requires IsBelow(path, public, agent, internal) && |public| > 16
    ensures |path| > 16 && path[16] == public[16]
  {
  }

  lemma PrefixInitials()
    ensures |JOBS| > 16 && JOBS[16] == 'j'
    ensures |SESSIONS| > 16 && SESSIONS[16] == 's'
    ensures |PUSH_DEVICES| > 16 && PUSH_DEVICES[16] == 'n'
  {
  }

  lemma UnderInitial(path: string, public: string)
    requires |public| > 16
    ensures Under(path, public) ==> |path| > 16 && path[16] == public[16]
  {
    if StartsWith(path, public + "/") {
      assert path[16] == (public + "/")[16];
    }
  }

  lemma UnderInitials(path: string)
    ensures Under(path, JOBS) ==> |path| > 16 && path[16] == 'j'
    ensures Under(path, SESSIONS) ==> |path| > 16 && path[16] == 's'
    ensures Under(path, PUSH_DEVICES) ==> |path| > 16 && path[16] == 'n'
  {
    PrefixInitials();
    UnderInitial(path, JOBS);
    UnderInitial(path, SESSIONS);
    UnderInitial(path, PUSH_DEVICES);
  }

  /** The prefixes, in the order in which they are tried. */
  lemma BelowOne(path: string, agent: string)
    requires path !in PROTOCOL_EXACT_PATHS
    ensures Target(path) == Some(agent) <==>
              || IsBelow(path, JOBS, agent, "/api/jobs")
              || IsBelow(path, SESSIONS, agent, "/api/sessions")
              || IsBelow(path, PUSH_DEVICES, agent, "/api/mobile/push/devices")
  {
    PrefixInitials();
    UnderIsBelow(path, JOBS, agent, "/api/jobs");
    UnderIsBelow(path, SESSIONS, agent, "/api/sessions");
    UnderIsBelow(path, PUSH_DEVICES, agent, "/api/mobile/push/devices");
    UnderInitials(path);
  }

  lemma ExactRouteIsExact(path: string, agent: string)
    ensures IsExactRoute(path, agent) ==> path in PROTOCOL_EXACT_PATHS
  {
    ExactRoutes(path, agent);
  }

  /** A path without profile is translated exactly by the table: every route, and nothing else. */
  lemma TargetExactly(path: string, agent: string)
    ensures Target(path) == Some(agent) <==> IsRoute(path, agent)
  {
    ExactRoutes(path, agent);
    if path in PROTOCOL_EXACT_PATHS {
      ExactInitial(path);
      PrefixInitials();
      if IsBelow(path, JOBS, agent, "/api/jobs") {
        BelowInitial(path, JOBS, agent, "/api/jobs");
      }
      if IsBelow(path, SESSIONS, agent, "/api/sessions") {
        BelowInitial(path, SESSIONS, agent, "/api/sessions");
      }
      if IsBelow(path, PUSH_DEVICES, agent, "/api/mobile/push/devices") {
        BelowInitial(path, PUSH_DEVICES, agent, "/api/mobile/push/devices");
      }
    } else {
      BelowOne(path, agent);
      ExactRouteIsExact(path, agent);
    }
  }

  // ---- The profile segment ----

  /** The path names a profile: a segment after the prefix, and a rest that begins with a slash, on one line. */
  ghost predicate HasProfile(path: string, segment: string, suffix: string) {
    && path == "/hermes-link/v1/profiles/" + segment + suffix
    && segment != "" && '/' !in segment
    && suffix != "" && suffix[0] == '/' && '\n' !in suffix
  }

  lemma MatchHasProfile(path: string, segment: string, suffix: string)
    requires ProfileMatch(path) == Some((segment, suffix))
    ensures HasProfile(path, segment, suffix)
  {
    var rest := path[|PROFILE_PREFIX|..];
    assert rest == segment + suffix;
    assert path == PROFILE_PREFIX + rest;
    Associate("/hermes-link/v1/profiles/", segment, suffix);
  }

  lemma ProfileIsMatched(path: string, segment: string, suffix: string)
    requires HasProfile(path, segment, suffix)
    ensures ProfileMatch(path) == Some((segment, suffix))
  {
    Associate("/hermes-link/v1/profiles/", segment, suffix);
    DropFront(PROFILE_PREFIX, segment + suffix);
    assert (segment + suffix)[..|segment|] == segment;
    FirstIndexIs(segment + suffix, '/', |segment|);
    DropFront(segment, suffix);
    assert StartsWith(path, PROFILE_PREFIX);
  }

  lemma ProfileMatchExactly(path: string, segment: string, suffix: string)
    ensures ProfileMatch(path) == Some((segment, suffix)) <==> HasProfile(path, segment, suffix)
  {
    if HasProfile(path, segment, suffix) {
      ProfileIsMatched(path, segment, suffix);
    }
    if ProfileMatch(path) == Some((segment, suffix)) {
      MatchHasProfile(path, segment, suffix);
    }
  }

  lemma WithProfile(lib: Library, path: string, segment: string, suffix: string, agent: string)
    requires ProfileMatch(path) == Some((segment, suffix))
    ensures ProtocolToAgentPath(lib, path) == Some(agent) <==>
              var id := Strip(lib.unquote(segment));
              IsProfileId(id) && exists target :: IsRoute("/hermes-link/v1" + suffix, target)
                                                  && agent == "/p/" + id + target
  {
    var id := Strip(lib.unquote(segment));
    if IsProfileId(id) {
      QuoteProfile(lib, id);
      var inner := "/hermes-link/v1" + suffix;
      forall target ensures Target(inner) == Some(target) <==> IsRoute(inner, target) {
        TargetExactly(inner, target);
      }
    }
  }

  /**
   Routing, exactly. A path that names a profile reaches the Agent path of the rest under that profile if the
   decoded and stripped segment is a profile id, and nothing otherwise; any other path is translated by the table.
   */
  lemma RoutesExactly(lib: Library, path: string, agent: string)
    ensures forall segment, suffix :: HasProfile(path, segment, suffix) ==>
              (ProtocolToAgentPath(lib, path) == Some(agent) <==>
                 var id := Strip(lib.unquote(segment));
                 IsProfileId(id) && exists target :: IsRoute("/hermes-link/v1" + suffix, target)
                                                     && agent == "/p/" + id + target)
    ensures (forall segment, suffix :: !HasProfile(path, segment, suffix)) ==>
              (ProtocolToAgentPath(lib, path) == Some(agent) <==> IsRoute(path, agent))
  {
    forall segment, suffix | HasProfile(path, segment, suffix)
      ensures ProtocolToAgentPath(lib, path) == Some(agent) <==>
                var id := Strip(lib.unquote(segment));
                IsProfileId(id) && exists target :: IsRoute("/hermes-link/v1" + suffix, target)
                                                    && agent == "/p/" + id + target
    {
      ProfileMatchExactly(path, segment, suffix);
      WithProfile(lib, path, segment, suffix, agent);
    }
    if forall segment, suffix :: !HasProfile(path, segment, suffix) {
      if ProfileMatch(path).Some? {
        ProfileMatchExactly(path, ProfileMatch(path).value.0, ProfileMatch(path).value.1);
      }
      TargetExactly(path, agent);
    }
  }

  /**
   The profile a token is checked for: the decoded and stripped segment if it is a profile id, none if it is not,
   and "default" for a path that names no profile.
   */
  lemma AuthorizedExactly(lib: Library, path: string)
    ensures forall segment, suffix :: HasProfile(path, segment, suffix) ==>
              var id := Strip(lib.unquote(segment));
              AuthorizedProfile(lib, path) == if IsProfileId(id) then id else ""
    ensures (forall segment, suffix :: !HasProfile(path, segment, suffix)) ==>
              AuthorizedProfile(lib, path) == "default"
  {
    forall segment, suffix | HasProfile(path, segment, suffix)
      ensures ProfileMatch(path) == Some((segment, suffix))
    {
      ProfileMatchExactly(path, segment, suffix);
    }
    if ProfileMatch(path).Some? {
      ProfileMatchExactly(path, ProfileMatch(path).value.0, ProfileMatch(path).value.1);
    }
  }
}
