/** The string operations of Python that the modelled code relies on. */
module PyText {

  /** The characters that `str.strip` and `str.split` treat as white space. */
  predicate IsSpace(c: char) {
    || '\U{9}' <= c <= '\U{D}'
    || '\U{1C}' <= c <= ' '
    || c == '\U{85}' || c == '\U{A0}' || c == '\U{1680}'
    || '\U{2000}' <= c <= '\U{200A}'
    || c == '\U{2028}' || c == '\U{2029}' || c == '\U{202F}' || c == '\U{205F}' || c == '\U{3000}'
  }

  function TrimLeft(s: string): (r: string)
    ensures r == [] || !IsSpace(r[0])
    ensures s != [] && !IsSpace(s[0]) ==> r == s
    ensures forall c :: c in r ==> c in s
  {
    if s == [] || !IsSpace(s[0]) then s else TrimLeft(s[1..])
  }

  function TrimRight(s: string): (r: string)
    ensures r == [] || !IsSpace(r[|r| - 1])
    ensures s != [] && !IsSpace(s[|s| - 1]) ==> r == s
    ensures r <= s
    ensures s != [] && !IsSpace(s[0]) ==> r != []
  {
    if s == [] || !IsSpace(s[|s| - 1]) then s else TrimRight(s[..|s| - 1])
  }

  /** `s.strip()`: neither end of the result is white space. */
  function Strip(s: string): (r: string)
    ensures r != [] ==> !IsSpace(r[0]) && !IsSpace(r[|r| - 1])
    ensures (s == [] || (!IsSpace(s[0]) && !IsSpace(s[|s| - 1]))) ==> r == s
    ensures forall c :: c in r ==> c in s
  {
    TrimRight(TrimLeft(s))
  }

  lemma {:induction false} TrimLeftKeeps(s: string, c: char)
    requires c in s && !IsSpace(c)
    ensures c in TrimLeft(s)
  {
    if IsSpace(s[0]) {
      assert s == [s[0]] + s[1..];
      TrimLeftKeeps(s[1..], c);
    }
  }

  /** A string strips to nothing exactly when it holds nothing but white space. */
  lemma BlankIff(s: string)
    ensures Strip(s) == [] <==> forall c :: c in s ==> IsSpace(c)
  {
    var left := TrimLeft(s);
    if left != [] {
      assert left[0] in s;
    }
    if c :| c in s && !IsSpace(c) {
      TrimLeftKeeps(s, c);
    }
  }

  predicate StartsWith(s: string, prefix: string) {
    prefix <= s
  }

  const UPPER := "ABCDEFGHIJKLMNOPQRSTUVWXYZ"
  const LOWER := "abcdefghijklmnopqrstuvwxyz"
  const NUMERALS := "0123456789"

  predicate IsAsciiAlnum(c: char) {
    'A' <= c <= 'Z' || 'a' <= c <= 'z' || '0' <= c <= '9'
  }

  /** The character class `[A-Za-z0-9._-]` of profile and trace identifiers. */
  predicate IsNameChar(c: char) {
    IsAsciiAlnum(c) || c == '.' || c == '_' || c == '-'
  }

  /** The character class `[A-Za-z0-9_-]` of URL-safe random tokens. */
  predicate IsUrlSafeChar(c: char) {
    IsAsciiAlnum(c) || c == '_' || c == '-'
  }

  /** `[A-Za-z0-9._-]{1,64}` as a full match. */
  predicate IsProfileId(s: string) {
    1 <= |s| <= 64 && forall c :: c in s ==> IsNameChar(c)
  }

  lemma ProfileIdIsStripped(s: string)
    requires IsProfileId(s)
    ensures Strip(s) == s
  {
    assert s[0] in s && s[|s| - 1] in s;
  }

  /** All pieces joined, in order. */
  function Concat(pieces: seq<string>): string {
    if pieces == [] then "" else pieces[0] + Concat(pieces[1..])
  }

  lemma FrontAndLast<T>(s: seq<T>)
    requires s != []
    ensures forall x :: x in s <==> x in s[..|s| - 1] || x == s[|s| - 1]
  {
    assert s == s[..|s| - 1] + [s[|s| - 1]];
  }

  lemma Associate<T>(a: seq<T>, b: seq<T>, c: seq<T>)
    ensures a + (b + c) == a + b + c
  {
  }

  lemma Regroup<T>(a: seq<T>, b: seq<T>, c: seq<T>, d: seq<T>)
    ensures a + b + c + d == a + (b + (c + d))
  {
  }

  lemma DropFront<T>(a: seq<T>, b: seq<T>)
    ensures (a + b)[|a|..] == b
  {
  }

  lemma PrefixOfSum<T>(a: seq<T>, b: seq<T>, k: nat)
    requires k <= |a + b|
    ensures (a + b)[..k] == if k <= |a| then a[..k] else a + b[..k - |a|]
  {
  }

  lemma ConcatSingle(piece: string)
    ensures Concat([piece]) == piece
  {
    assert Concat([piece][1..]) == "";
  }

  /** `s.split(separator)` for a one-character separator. */
  function SplitOn(s: string, separator: char): (pieces: seq<string>)
    ensures pieces != []
    ensures separator !in s ==> pieces == [s]
    ensures forall i :: 0 <= i < |pieces| ==> separator !in pieces[i]
  {
    if s == [] then [""]
    else
      var rest := SplitOn(s[1..], separator);
      if s[0] == separator then [""] + rest else
        assert separator !in s ==> s == [s[0]] + s[1..];
        [[s[0]] + rest[0]] + rest[1..]
  }

  lemma {:induction false} SplitOnFirst(a: string, b: string, separator: char)
    requires separator !in a
    ensures SplitOn(a + [separator] + b, separator) == [a] + SplitOn(b, separator)
  {
    var s := a + [separator] + b;
    if a == [] {
      assert s[1..] == b;
    } else {
      assert s[1..] == a[1..] + [separator] + b;
      assert s[0] == a[0] && a[0] in a;
      SplitOnFirst(a[1..], b, separator);
      assert [a[0]] + a[1..] == a;
    }
  }

  /** The index of the first `c`, or the length. */
  function FirstIndex(s: string, c: char): (i: nat)
    ensures i <= |s| && (i < |s| ==> s[i] == c)
    ensures c !in s[..i]
  {
    if s == "" || s[0] == c then 0
    else
      var i := FirstIndex(s[1..], c);
      assert s[..1 + i] == [s[0]] + s[1..][..i];
      1 + i
  }

  lemma {:induction false} FirstIndexIs(s: string, c: char, i: nat)
    requires i < |s| && s[i] == c && c !in s[..i]
    ensures FirstIndex(s, c) == i
  {
    if i > 0 {
      assert s[..i][0] == s[0] && s[1..][..i - 1] == s[..i][1..];
      FirstIndexIs(s[1..], c, i - 1);
    }
  }

  // ---- Joining and splitting ----

  /** `separator.join(parts)` */
  function JoinWith(separator: string, parts: seq<string>): string {
    if parts == [] then ""
    else if |parts| == 1 then parts[0]
    else parts[0] + separator + JoinWith(separator, parts[1..])
  }

  lemma JoinCons(separator: string, first: string, rest: seq<string>)
    requires rest != []
    ensures JoinWith(separator, [first] + rest) == first + separator + JoinWith(separator, rest)
  {
    assert ([first] + rest)[1..] == rest;
  }

  lemma {:induction false} JoinSnoc(separator: string, parts: seq<string>, last: string)
    ensures JoinWith(separator, parts + [last])
         == if parts == [] then last else JoinWith(separator, parts) + separator + last
  {
    if parts == [] {
      assert parts + [last] == [last];
    } else {
      assert parts + [last] == [parts[0]] + (parts[1..] + [last]);
      JoinCons(separator, parts[0], parts[1..] + [last]);
      JoinSnoc(separator, parts[1..], last);
      if |parts| > 1 {
        assert parts == [parts[0]] + parts[1..];
        JoinCons(separator, parts[0], parts[1..]);
        Regroup(parts[0] + separator, JoinWith(separator, parts[1..]), separator, last);
        Associate(JoinWith(separator, parts[1..]), separator, last);
      }
    }
  }

  lemma {:induction false} JoinIsEmpty(separator: string, parts: seq<string>)
    requires forall i :: 0 <= i < |parts| ==> parts[i] != ""
    ensures JoinWith(separator, parts) == "" <==> parts == []
  {
  }

  /** Joining the pieces of a split gives the text back. */
  lemma {:induction false} JoinOfSplit(s: string, separator: char)
    ensures JoinWith([separator], SplitOn(s, separator)) == s
  {
    if s != [] {
      JoinOfSplit(s[1..], separator);
      var rest := SplitOn(s[1..], separator);
      assert s == [s[0]] + s[1..];
      if s[0] == separator {
        JoinCons([separator], "", rest);
        assert "" + [separator] + JoinWith([separator], rest) == s;
      } else if |rest| == 1 {
        assert [[s[0]] + rest[0]] + rest[1..] == [[s[0]] + rest[0]];
      } else {
        assert rest == [rest[0]] + rest[1..];
        JoinCons([separator], rest[0], rest[1..]);
        JoinCons([separator], [s[0]] + rest[0], rest[1..]);
        Associate([s[0]], rest[0] + [separator], JoinWith([separator], rest[1..]));
        Associate([s[0]], rest[0], [separator]);
      }
    }
  }

  /** Pieces without the separator are the ones a split of their join finds. */
  lemma {:induction false} SplitOfJoin(parts: seq<string>, separator: char)
    requires parts != [] && forall i :: 0 <= i < |parts| ==> separator !in parts[i]
    ensures SplitOn(JoinWith([separator], parts), separator) == parts
  {
    if |parts| > 1 {
      SplitOfJoin(parts[1..], separator);
      SplitOnFirst(parts[0], JoinWith([separator], parts[1..]), separator);
      assert parts == [parts[0]] + parts[1..];
    } else {
      assert parts == [parts[0]];
    }
  }

  // ---- White space ----

  predicate IsBlank(s: string) {
    forall i :: 0 <= i < |s| ==> IsSpace(s[i])
  }

  /** A word: characters, none of them white space. */
  predicate IsWord(s: string) {
    s != "" && forall i :: 0 <= i < |s| ==> !IsSpace(s[i])
  }

  lemma BlankJoin(a: string, b: string)
    requires IsBlank(a) && IsBlank(b)
    ensures IsBlank(a + b)
  {
  }

  lemma FirstAndRest<T>(s: seq<T>)
    requires s != []
    ensures [s[0]] + s[1..] == s
  {
  }

  lemma RestAndLast<T>(s: seq<T>)
    requires s != []
    ensures s[..|s| - 1] + [s[|s| - 1]] == s
  {
  }

  lemma {:induction false} TrimLeftDrops(s: string) returns (gap: string)
    ensures IsBlank(gap) && gap + TrimLeft(s) == s
  {
    if s == "" || !IsSpace(s[0]) {
      gap := "";
      DropFront("", s);
    } else {
      var front := [s[0]];
      var rest := TrimLeftDrops(s[1..]);
      gap := front + rest;
      BlankJoin(front, rest);
      Associate(front, rest, TrimLeft(s[1..]));
      FirstAndRest(s);
    }
  }

  lemma {:induction false} TrimRightDrops(s: string) returns (gap: string)
    ensures IsBlank(gap) && TrimRight(s) + gap == s
  {
    if s == "" || !IsSpace(s[|s| - 1]) {
      gap := "";
    } else {
      var last := [s[|s| - 1]];
      var rest := TrimRightDrops(s[..|s| - 1]);
      gap := rest + last;
      BlankJoin(rest, last);
      Associate(TrimRight(s[..|s| - 1]), rest, last);
      RestAndLast(s);
    }
  }

  /** Stripping drops white space at the two ends, and nothing else. */
  lemma StripDropsSpace(s: string) returns (before: string, after: string)
    ensures IsBlank(before) && IsBlank(after)
    ensures s == before + Strip(s) + after
    ensures Strip(s) != "" ==> !IsSpace(Strip(s)[0]) && !IsSpace(Strip(s)[|Strip(s)| - 1])
  {
    before := TrimLeftDrops(s);
    after := TrimRightDrops(TrimLeft(s));
    Associate(before, Strip(s), after);
  }

  /** The length of the word a text begins with. */
  function WordLength(s: string): (n: nat)
    ensures n <= |s| && forall i :: 0 <= i < n ==> !IsSpace(s[i])
    ensures n < |s| ==> IsSpace(s[n])
  {
    if s == "" || IsSpace(s[0]) then 0 else 1 + WordLength(s[1..])
  }

  lemma {:induction false} TrimLeftShrinks(s: string)
    ensures |TrimLeft(s)| <= |s|
  {
    if s != "" && IsSpace(s[0]) {
      TrimLeftShrinks(s[1..]);
    }
  }

  /** `s.split()` */
  function Words(s: string): seq<string>
    decreases |s|
  {
    var t := TrimLeft(s);
    if t == "" then []
    else
      TrimLeftShrinks(s);
      [t[..WordLength(t)]] + Words(t[WordLength(t)..])
  }

  lemma {:induction false} TrimLeftOfGap(gap: string, rest: string)
    requires IsBlank(gap) && (rest == "" || !IsSpace(rest[0]))
    ensures TrimLeft(gap + rest) == rest
  {
    if gap == "" {
      assert gap + rest == rest;
    } else {
      assert (gap + rest)[1..] == gap[1..] + rest;
      TrimLeftOfGap(gap[1..], rest);
    }
  }

  lemma {:induction false} WordLengthIs(word: string, rest: string)
    requires (forall i :: 0 <= i < |word| ==> !IsSpace(word[i])) && (rest == "" || IsSpace(rest[0]))
    ensures WordLength(word + rest) == |word|
  {
    if word == "" {
      assert word + rest == rest;
    } else {
      assert (word + rest)[1..] == word[1..] + rest;
      WordLengthIs(word[1..], rest);
    }
  }

  lemma FirstWord(word: string, rest: string)
    requires IsWord(word) && (rest == "" || IsSpace(rest[0]))
    ensures Words(word + rest) == [word] + Words(rest)
  {
    WordLengthIs(word, rest);
    assert (word + rest)[..|word|] == word;
    DropFront(word, rest);
  }

  lemma GapIsSkipped(gap: string, rest: string)
    requires IsBlank(gap) && (rest == "" || !IsSpace(rest[0]))
    ensures Words(gap + rest) == Words(rest)
  {
    TrimLeftOfGap(gap, rest);
  }

  /** White space holds no word, and a word between white space is found whole: this determines the split. */
  lemma WordsAre(gap: string, word: string, rest: string)
    requires IsBlank(gap)
    ensures Words(gap) == []
    ensures IsWord(word) && (rest == "" || IsSpace(rest[0])) ==> Words(gap + word + rest) == [word] + Words(rest)
  {
    TrimLeftOfGap(gap, "");
    assert gap + "" == gap;
    if IsWord(word) && (rest == "" || IsSpace(rest[0])) {
      Associate(gap, word, rest);
      GapIsSkipped(gap, word + rest);
      FirstWord(word, rest);
    }
  }
}
