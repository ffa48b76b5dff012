/** The identifier patterns of the program, character by character. */
module TextPatterns {
  import opened PyText
  import DirectLog
  import Pairing
  import TraceEvents

  // ---- Characters ----

  lemma UpperLetters(c: char)
    ensures c in UPPER <==> 'A' <= c <= 'Z'
  {
  }

  lemma LowerLetters(c: char)
    ensures c in LOWER <==> 'a' <= c <= 'z'
  {
  }

  lemma Digits(c: char)
    ensures c in NUMERALS <==> '0' <= c <= '9'
  {
  }

  /** A letter, a numeral, or one of `others`. */
  ghost predicate IsDrawn(c: char, others: string) {
    c in UPPER || c in LOWER || c in NUMERALS || c in others
  }

  lemma CharacterClasses(c: char)
    ensures IsNameChar(c) <==> IsDrawn(c, "._-")
    ensures IsUrlSafeChar(c) <==> IsDrawn(c, "_-")
    ensures DirectLog.IsIdentifierChar(c) <==> IsDrawn(c, "._:-")
  {
    UpperLetters(c);
    LowerLetters(c);
    Digits(c);
  }

  /** The 29 characters that Python takes for white space. */
  lemma WhiteSpace(c: char)
    ensures IsSpace(c) <==> c in {
              '\U{9}', '\U{A}', '\U{B}', '\U{C}', '\U{D}', '\U{1C}', '\U{1D}', '\U{1E}', '\U{1F}', ' ',
              '\U{85}', '\U{A0}', '\U{1680}', '\U{2000}', '\U{2001}', '\U{2002}', '\U{2003}', '\U{2004}',
              '\U{2005}', '\U{2006}', '\U{2007}', '\U{2008}', '\U{2009}', '\U{200A}', '\U{2028}', '\U{2029}',
              '\U{202F}', '\U{205F}', '\U{3000}'}
  {
  }

  // ---- Texts ----

  /** Between `low` and `high` letters, numerals and characters of `others`. */
  ghost predicate IsMadeOf(s: string, low: nat, high: nat, others: string) {
    low <= |s| <= high && forall i :: 0 <= i < |s| ==> IsDrawn(s[i], others)
  }

  lemma ClassesOfText(s: string)
    ensures forall i :: 0 <= i < |s| ==>
              && (IsNameChar(s[i]) <==> IsDrawn(s[i], "._-"))
              && (IsUrlSafeChar(s[i]) <==> IsDrawn(s[i], "_-"))
              && (DirectLog.IsIdentifierChar(s[i]) <==> IsDrawn(s[i], "._:-"))
  {
    forall i | 0 <= i < |s|
      ensures IsNameChar(s[i]) <==> IsDrawn(s[i], "._-")
      ensures IsUrlSafeChar(s[i]) <==> IsDrawn(s[i], "_-")
      ensures DirectLog.IsIdentifierChar(s[i]) <==> IsDrawn(s[i], "._:-")
    {
      CharacterClasses(s[i]);
    }
  }

  lemma ProfileIds(s: string)
    ensures IsProfileId(s) <==> IsMadeOf(s, 1, 64, "._-")
  {
    ClassesOfText(s);
    assert forall i :: 0 <= i < |s| ==> s[i] in s;
  }

  lemma TraceIds(s: string)
    ensures TraceEvents.IsTraceId(s) <==> IsMadeOf(s, 1, 128, "._-")
  {
    ClassesOfText(s);
    assert forall i :: 0 <= i < |s| ==> s[i] in s;
  }

  lemma Identifiers(s: string)
    ensures DirectLog.IsIdentifier(s) <==> IsMadeOf(s, 1, 160, "._:-")
  {
    ClassesOfText(s);
    assert forall i :: 0 <= i < |s| ==> s[i] in s;
  }

  lemma PairingCodes(s: string)
    ensures Pairing.IsPairingCode(s) <==> IsMadeOf(s, 32, 128, "_-")
  {
    ClassesOfText(s);
    assert forall i :: 0 <= i < |s| ==> s[i] in s;
  }

  /** Tool names have no capital letters. */
  lemma TraceTools(s: string)
    ensures TraceEvents.IsTraceTool(s) <==>
              1 <= |s| <= 40 && forall i :: 0 <= i < |s| ==> s[i] in LOWER || s[i] in NUMERALS || s[i] in "._-"
  {
    forall i | 0 <= i < |s|
      ensures (s[i] in LOWER <==> 'a' <= s[i] <= 'z') && (s[i] in NUMERALS <==> '0' <= s[i] <= '9')
    {
      LowerLetters(s[i]);
      Digits(s[i]);
    }
    assert forall i :: 0 <= i < |s| ==> s[i] in s;
  }

  /** A host, as addresses may have: no path, query, fragment or user. */
  ghost predicate IsPlainHost(host: string) {
    host != "" && forall i :: 0 <= i < |host| ==> host[i] !in "/?#@"
  }

  lemma Hosts(host: string)
    ensures Pairing.IsHost(host) <==> IsPlainHost(host)
  {
    assert forall i :: 0 <= i < |host| ==> host[i] in host;
  }

  /** An address is "http://" or "https://" and a plain host, and nothing else. */
  lemma BaseUrls(host: string)
    requires IsPlainHost(host)
    ensures Pairing.IsBaseUrl("http://" + host) && Pairing.IsBaseUrl("https://" + host)
  {
    Hosts(host);
    DropFront("http://", host);
    DropFront("https://", host);
  }

  lemma BaseUrlParts(s: string) returns (scheme: string, host: string)
    requires Pairing.IsBaseUrl(s)
    ensures s == scheme + host && scheme in {"http://", "https://"} && IsPlainHost(host)
  {
    if StartsWith(s, "https://") && Pairing.IsHost(s[8..]) {
      scheme, host := "https://", s[8..];
    } else {
      scheme, host := "http://", s[7..];
    }
    Hosts(host);
  }
}
