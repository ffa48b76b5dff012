/** What the bearer token of a request is, and which headers go upstream. */
module HeaderLaws {
  import opened PyText
  import opened PathRouting

  /** A scheme, a space and a token: the stripped token, if the scheme is "bearer" in any case. */
  lemma BearerExactly(lib: Library, headers: map<string, string>, scheme: string, token: string)
    requires "Authorization" in headers && headers["Authorization"] == scheme + " " + token && ' ' !in scheme
    ensures BearerToken(lib, headers) == if lib.lower(scheme) == "bearer" then Strip(token) else ""
  {
    var value := headers["Authorization"];
    assert value == scheme + (" " + token);
    assert value[..|scheme|] == scheme;
    FirstIndexIs(value, ' ', |scheme|);
    assert value[|scheme| + 1..] == token;
  }

  /** Without the header, or without a space in it, there is no token. */
  lemma NoBearer(lib: Library, headers: map<string, string>)
    requires "Authorization" in headers ==> ' ' !in headers["Authorization"]
    ensures BearerToken(lib, headers) == ""
  {
  }
}
