/** Base64 as Python's `binascii` encodes and decodes it (RFC 4648, sections 4 and 5). */
module Base64 {
  import opened Wrappers
  import opened PyText
  import opened ByteStrings

  /** Section 4 ends its alphabet in `+/`, section 5 in `-_`. */
  datatype Alphabet = Standard | UrlSafe

  newtype Sextet = b: int | 0 <= b < 64

  function Digit(alphabet: Alphabet, n: Sextet): (c: char)
    ensures c != '=' && !IsSpace(c) && c as int < 128
  {
    if n < 26 then ('A' as int + n as int) as char
    else if n < 52 then ('a' as int + n as int - 26) as char
    else if n < 62 then ('0' as int + n as int - 52) as char
    else if n == 62 then (if alphabet.Standard? then '+' else '-')
    else (if alphabet.Standard? then '/' else '_')
  }

  /** Decoding URL-safe text maps `-_` to `+/` first, so that all four are digits there. */
  function Value(alphabet: Alphabet, c: char): Option<Sextet> {
    if 'A' <= c <= 'Z' then Some((c as int - 'A' as int) as Sextet)
    else if 'a' <= c <= 'z' then Some((c as int - 'a' as int + 26) as Sextet)
    else if '0' <= c <= '9' then Some((c as int - '0' as int + 52) as Sextet)
    else if c == '+' || (alphabet.UrlSafe? && c == '-') then Some(62)
    else if c == '/' || (alphabet.UrlSafe? && c == '_') then Some(63)
    else None
  }

  lemma ValueOfDigit(alphabet: Alphabet, n: Sextet)
    ensures Value(alphabet, Digit(alphabet, n)) == Some(n)
  {
  }

  // ---- Encoding ----

  function First(a: Byte): Sextet { (a as int / 4) as Sextet }

  function Second(a: Byte, b: Byte): Sextet { (a as int % 4 * 16 + b as int / 16) as Sextet }

  function Third(b: Byte, c: Byte): Sextet { (b as int % 16 * 4 + c as int / 64) as Sextet }

  function Fourth(c: Byte): Sextet { (c as int % 64) as Sextet }

  function Group(alphabet: Alphabet, a: Byte, b: Byte, c: Byte): (s: string)
    ensures |s| == 4 && s[3] != '=' && !IsSpace(s[0]) && !IsSpace(s[3])
  {
    [Digit(alphabet, First(a)), Digit(alphabet, Second(a, b)),
     Digit(alphabet, Third(b, c)), Digit(alphabet, Fourth(c))]
  }

  /** Three bytes become four digits; a shorter last group is filled with padding. */
  function Encode(alphabet: Alphabet, data: Bytes): string {
    if |data| == 0 then ""
    else if |data| == 1 then
      [Digit(alphabet, First(data[0])), Digit(alphabet, Second(data[0], 0)), '=', '=']
    else if |data| == 2 then
      [Digit(alphabet, First(data[0])), Digit(alphabet, Second(data[0], data[1])),
       Digit(alphabet, Third(data[1], 0)), '=']
    else
      Group(alphabet, data[0], data[1], data[2]) + Encode(alphabet, data[3..])
  }

  // ---- Decoding ----

  /** The decoder's variables: position in the quad, bits kept from the last digit, padding seen, and output. */
  datatype Decoder = Decoder(quad: nat, left: int, pads: nat, padding: bool, out: Bytes)
  {
    predicate Valid() {
      && quad <= 3
      && (quad == 0 ==> left == 0)
      && (quad == 1 ==> 0 <= left < 64)
      && (quad == 2 ==> 0 <= left < 16)
      && (quad == 3 ==> 0 <= left < 4)
    }

    /** Takes one digit. */
    function Push(v: Sextet): (d: Decoder)
      requires Valid()
      ensures d.Valid()
    {
      var n := v as int;
      match quad
      case 0 => Decoder(1, n, 0, padding, out)
      case 1 => Decoder(2, n % 16, 0, padding, out + [(left * 4 + n / 16) as Byte])
      case 2 => Decoder(3, n % 4, 0, padding, out + [(left * 16 + n / 4) as Byte])
      case _ => Decoder(0, 0, 0, padding, out + [(left * 64 + n) as Byte])
    }
  }

  const START := Decoder(0, 0, 0, false, [])

  /**
   The loop of `binascii.a2b_base64`. In strict mode nothing but digits followed by padding is accepted; otherwise
   other characters are skipped. A completed quad that ends in padding ends the text.
   */
  function Decoded(alphabet: Alphabet, strict: bool, s: string, d: Decoder): Option<Bytes>
    requires d.Valid()
  {
    if s == "" then
      if d.quad == 0 then Some(d.out) else None
    else if s[0] == '=' then
      if d.quad >= 2 && d.quad + d.pads + 1 >= 4 then
        if strict && |s| > 1 then None else Some(d.out)
      else
        Decoded(alphabet, strict, s[1..], d.(padding := true, pads := if d.quad >= 2 then d.pads + 1 else d.pads))
    else
      match Value(alphabet, s[0])
      case None => if strict then None else Decoded(alphabet, strict, s[1..], d)
      case Some(v) => if strict && d.padding then None else Decoded(alphabet, strict, s[1..], d.Push(v))
  }

  predicate IsAscii(s: string) {
    forall c :: c in s ==> c as int < 128
  }

  /** `a2b_base64` of a text, which must be ASCII; in strict mode it must not start with padding. */
  function Decode(alphabet: Alphabet, strict: bool, s: string): Option<Bytes> {
    if !IsAscii(s) || (strict && s != "" && s[0] == '=') then None else Decoded(alphabet, strict, s, START)
  }

  // ---- The URL-safe alphabet is a translation ----

  function TranslateChar(c: char): char {
    if c == '-' then '+' else if c == '_' then '/' else c
  }

  /** `s.translate` of the URL-safe alphabet to the standard one. */
  function Translate(s: string): string {
    if s == "" then "" else [TranslateChar(s[0])] + Translate(s[1..])
  }

  lemma ValueTranslated(c: char)
    ensures Value(UrlSafe, c) == Value(Standard, TranslateChar(c))
    ensures TranslateChar(c) == '=' <==> c == '='
  {
  }

  lemma {:induction false} DecodedTranslated(strict: bool, s: string, d: Decoder)
    requires d.Valid()
    ensures Decoded(UrlSafe, strict, s, d) == Decoded(Standard, strict, Translate(s), d)
  {
    if s != "" {
      assert Translate(s)[1..] == Translate(s[1..]);
      ValueTranslated(s[0]);
      if s[0] == '=' {
        var pads := if d.quad >= 2 then d.pads + 1 else d.pads;
        DecodedTranslated(strict, s[1..], d.(padding := true, pads := pads));
      } else if Value(UrlSafe, s[0]).Some? {
        DecodedTranslated(strict, s[1..], d.Push(Value(UrlSafe, s[0]).value));
      } else {
        DecodedTranslated(strict, s[1..], d);
      }
    }
  }

  lemma AsciiCons(c: char, s: string)
    ensures IsAscii([c] + s) <==> c as int < 128 && IsAscii(s)
  {
    assert ([c] + s)[0] in [c] + s;
    assert forall x :: x in s ==> x in [c] + s;
  }

  lemma {:induction false} TranslateKeepsAscii(s: string)
    ensures |Translate(s)| == |s| && (IsAscii(Translate(s)) <==> IsAscii(s))
  {
    if s != "" {
      TranslateKeepsAscii(s[1..]);
      AsciiCons(s[0], s[1..]);
      AsciiCons(TranslateChar(s[0]), Translate(s[1..]));
      assert s == [s[0]] + s[1..];
    }
  }

  /** Decoding URL-safe text is decoding the translated text in the standard alphabet, whatever the text. */
  lemma UrlSafeIsTranslated(strict: bool, s: string)
    ensures Decode(UrlSafe, strict, s) == Decode(Standard, strict, Translate(s))
  {
    TranslateKeepsAscii(s);
    DecodedTranslated(strict, s, START);
  }

  // ---- Round trip ----

  lemma PushDigit(alphabet: Alphabet, strict: bool, v: Sextet, rest: string, d: Decoder)
    requires d.Valid() && !d.padding
    ensures Decoded(alphabet, strict, [Digit(alphabet, v)] + rest, d) == Decoded(alphabet, strict, rest, d.Push(v))
  {
    ValueOfDigit(alphabet, v);
    assert ([Digit(alphabet, v)] + rest)[1..] == rest;
  }

  lemma PushFirstTwo(a: Byte, b: Byte, out: Bytes)
    ensures Decoder(0, 0, 0, false, out).Push(First(a)).Push(Second(a, b))
         == Decoder(2, b as int / 16, 0, false, out + [a])
  {
  }

  lemma Quarters(high: nat, low: nat)
    requires low < 4
    ensures (high * 4 + low) / 4 == high && (high * 4 + low) % 4 == low
  {
  }

  lemma PushThird(b: Byte, c: Byte, out: Bytes)
    ensures Decoder(2, b as int / 16, 0, false, out).Push(Third(b, c)) == Decoder(3, c as int / 64, 0, false, out + [b])
  {
    var high, low := b as int % 16, c as int / 64;
    Quarters(high, low);
    assert Third(b, c) as int == high * 4 + low;
    assert b as int / 16 * 16 + high == b as int;
  }

  lemma PushFourth(c: Byte, out: Bytes)
    ensures Decoder(3, c as int / 64, 0, false, out).Push(Fourth(c)) == Decoder(0, 0, 0, false, out + [c])
  {
  }

  /** The first two digits of a group give back its first byte, and keep the rest of its bits. */
  lemma TwoDigits(alphabet: Alphabet, strict: bool, a: Byte, b: Byte, rest: string, out: Bytes)
    ensures Decoded(alphabet, strict, [Digit(alphabet, First(a)), Digit(alphabet, Second(a, b))] + rest,
                    Decoder(0, 0, 0, false, out))
         == Decoded(alphabet, strict, rest, Decoder(2, b as int / 16, 0, false, out + [a]))
  {
    var start, later := Decoder(0, 0, 0, false, out), [Digit(alphabet, Second(a, b))] + rest;
    PushDigit(alphabet, strict, First(a), later, start);
    PushDigit(alphabet, strict, Second(a, b), rest, start.Push(First(a)));
    PushFirstTwo(a, b, out);
    assert [Digit(alphabet, First(a)), Digit(alphabet, Second(a, b))] + rest == [Digit(alphabet, First(a))] + later;
  }

  lemma ThirdDigit(alphabet: Alphabet, strict: bool, b: Byte, c: Byte, rest: string, out: Bytes)
    ensures Decoded(alphabet, strict, [Digit(alphabet, Third(b, c))] + rest, Decoder(2, b as int / 16, 0, false, out))
         == Decoded(alphabet, strict, rest, Decoder(3, c as int / 64, 0, false, out + [b]))
  {
    PushDigit(alphabet, strict, Third(b, c), rest, Decoder(2, b as int / 16, 0, false, out));
    PushThird(b, c, out);
  }

  lemma FourthDigit(alphabet: Alphabet, strict: bool, c: Byte, rest: string, out: Bytes)
    ensures Decoded(alphabet, strict, [Digit(alphabet, Fourth(c))] + rest, Decoder(3, c as int / 64, 0, false, out))
         == Decoded(alphabet, strict, rest, Decoder(0, 0, 0, false, out + [c]))
  {
    PushDigit(alphabet, strict, Fourth(c), rest, Decoder(3, c as int / 64, 0, false, out));
    PushFourth(c, out);
  }

  lemma FourApart<T>(w: T, x: T, y: T, z: T, rest: seq<T>)
    ensures [w, x, y, z] + rest == [w, x] + ([y] + ([z] + rest))
  {
  }

  lemma ThreeTogether<T>(out: seq<T>, a: T, b: T, c: T)
    ensures out + [a] + [b] + [c] == out + [a, b, c]
  {
  }

  /** A whole group of four digits gives back its three bytes. */
  lemma FullGroup(alphabet: Alphabet, strict: bool, a: Byte, b: Byte, c: Byte, rest: string, out: Bytes)
    ensures Decoded(alphabet, strict, Group(alphabet, a, b, c) + rest, Decoder(0, 0, 0, false, out))
         == Decoded(alphabet, strict, rest, Decoder(0, 0, 0, false, out + [a, b, c]))
  {
    var last := [Digit(alphabet, Fourth(c))] + rest;
    var third := [Digit(alphabet, Third(b, c))] + last;
    TwoDigits(alphabet, strict, a, b, third, out);
    ThirdDigit(alphabet, strict, b, c, last, out + [a]);
    FourthDigit(alphabet, strict, c, rest, out + [a] + [b]);
    ThreeTogether(out, a, b, c);
    FourApart(Digit(alphabet, First(a)), Digit(alphabet, Second(a, b)),
              Digit(alphabet, Third(b, c)), Digit(alphabet, Fourth(c)), rest);
  }

  /** A last group of one or two bytes is completed by its padding. */
  lemma LastGroup(alphabet: Alphabet, strict: bool, data: Bytes, out: Bytes)
    requires 1 <= |data| <= 2
    ensures Decoded(alphabet, strict, Encode(alphabet, data), Decoder(0, 0, 0, false, out)) == Some(out + data)
  {
    if |data| == 1 {
      TwoDigits(alphabet, strict, data[0], 0, "==", out);
      assert Encode(alphabet, data) == [Digit(alphabet, First(data[0])), Digit(alphabet, Second(data[0], 0))] + "==";
      assert "=="[1..] == "=";
      assert out + [data[0]] == out + data;
    } else {
      var a, b := data[0], data[1];
      var third := [Digit(alphabet, Third(b, 0))] + "=";
      TwoDigits(alphabet, strict, a, b, third, out);
      ThirdDigit(alphabet, strict, b, 0, "=", out + [a]);
      assert Encode(alphabet, data) == [Digit(alphabet, First(a)), Digit(alphabet, Second(a, b))] + third;
      assert out + [a] + [b] == out + data;
    }
  }

  lemma FirstThree<T>(s: seq<T>)
    requires |s| >= 3
    ensures [s[0], s[1], s[2]] + s[3..] == s
  {
  }

  lemma {:induction false} DecodedEncode(alphabet: Alphabet, strict: bool, data: Bytes, out: Bytes)
    ensures Decoded(alphabet, strict, Encode(alphabet, data), Decoder(0, 0, 0, false, out)) == Some(out + data)
  {
    if data == [] {
      assert out + data == out;
    } else if |data| <= 2 {
      LastGroup(alphabet, strict, data, out);
    } else {
      var group := [data[0], data[1], data[2]];
      FullGroup(alphabet, strict, data[0], data[1], data[2], Encode(alphabet, data[3..]), out);
      DecodedEncode(alphabet, strict, data[3..], out + group);
      FirstThree(data);
      Associate(out, group, data[3..]);
    }
  }

  lemma {:induction false} EncodingIsAscii(alphabet: Alphabet, data: Bytes)
    ensures IsAscii(Encode(alphabet, data))
  {
    if |data| > 2 {
      EncodingIsAscii(alphabet, data[3..]);
    }
  }

  /** Decoding undoes encoding, in either alphabet and in either mode. */
  lemma DecodeUndoesEncode(alphabet: Alphabet, strict: bool, data: Bytes)
    ensures Decode(alphabet, strict, Encode(alphabet, data)) == Some(data)
  {
    EncodingIsAscii(alphabet, data);
    DecodedEncode(alphabet, strict, data, []);
    assert [] + data == data;
  }

  // ---- Sizes ----

  lemma OneMoreGroup(n: nat)
    requires n >= 3
    ensures (n + 2) / 3 == (n - 3 + 2) / 3 + 1 && n / 3 == (n - 3) / 3 + 1 && n % 3 == (n - 3) % 3
  {
  }

  lemma {:induction false} EncodedLength(alphabet: Alphabet, data: Bytes)
    ensures |Encode(alphabet, data)| == (|data| + 2) / 3 * 4
  {
    if |data| <= 2 {
      assert (|data| + 2) / 3 == if |data| == 0 then 0 else 1;
    } else {
      var groups := (|data| - 3 + 2) / 3;
      EncodedLength(alphabet, data[3..]);
      OneMoreGroup(|data|);
      assert |Encode(alphabet, data)| == 4 + groups * 4;
    }
  }

  /** Every digit contributes at most three quarters of a byte, in any text the decoder accepts. */
  lemma {:induction false} DecodedLength(alphabet: Alphabet, strict: bool, s: string, d: Decoder)
    requires d.Valid() && Decoded(alphabet, strict, s, d).Some?
    ensures 4 * |Decoded(alphabet, strict, s, d).value|
              <= 4 * |d.out| + 3 * |s| + (if d.quad == 0 then 0 else 4 - d.quad)
  {
    if s != "" {
      if s[0] == '=' {
        if !(d.quad >= 2 && d.quad + d.pads + 1 >= 4) {
          var pads := if d.quad >= 2 then d.pads + 1 else d.pads;
          DecodedLength(alphabet, strict, s[1..], d.(padding := true, pads := pads));
        }
      } else {
        match Value(alphabet, s[0])
        case None => DecodedLength(alphabet, strict, s[1..], d);
        case Some(v) => DecodedLength(alphabet, strict, s[1..], d.Push(v));
      }
    }
  }

  lemma DecodeShrinks(alphabet: Alphabet, strict: bool, s: string)
    requires Decode(alphabet, strict, s).Some?
    ensures 4 * |Decode(alphabet, strict, s).value| <= 3 * |s|
  {
    DecodedLength(alphabet, strict, s, START);
  }

  // ---- Unpadded base64url ----

  function StripPadding(s: string): string {
    if s != "" && s[|s| - 1] == '=' then StripPadding(s[..|s| - 1]) else s
  }

  /** `_base64url` */
  function Base64Url(data: Bytes): string {
    StripPadding(Encode(UrlSafe, data))
  }

  /** `s + "=" * (-len(s) % 4)` */
  function RestorePadding(s: string): string {
    match |s| % 4
    case 0 => s
    case 1 => s + "==="
    case 2 => s + "=="
    case _ => s + "="
  }

  lemma {:induction false} StripsToDigits(s: string, pads: string)
    requires s == "" || s[|s| - 1] != '='
    requires forall i :: 0 <= i < |pads| ==> pads[i] == '='
    ensures StripPadding(s + pads) == s
  {
    if pads == "" {
      assert s + pads == s;
    } else {
      var fewer := pads[..|pads| - 1];
      assert (s + pads)[..|s + pads| - 1] == s + fewer;
      StripsToDigits(s, fewer);
    }
  }

  /** The digits of an encoding. */
  function Digits(alphabet: Alphabet, data: Bytes): (s: string)
    ensures s == "" || (s[|s| - 1] != '=' && !IsSpace(s[0]) && !IsSpace(s[|s| - 1]))
  {
    if |data| == 0 then ""
    else if |data| == 1 then [Digit(alphabet, First(data[0])), Digit(alphabet, Second(data[0], 0))]
    else if |data| == 2 then
      [Digit(alphabet, First(data[0])), Digit(alphabet, Second(data[0], data[1])), Digit(alphabet, Third(data[1], 0))]
    else
      Group(alphabet, data[0], data[1], data[2]) + Digits(alphabet, data[3..])
  }

  function Padding(count: nat): (pads: string)
    ensures forall i :: 0 <= i < |pads| ==> pads[i] == '='
  {
    if count % 3 == 0 then "" else if count % 3 == 1 then "==" else "="
  }

  /** An encoding is its digits and at most two padding characters. */
  lemma {:induction false} EncodedParts(alphabet: Alphabet, data: Bytes)
    ensures Encode(alphabet, data) == Digits(alphabet, data) + Padding(|data|)
  {
    if |data| > 2 {
      EncodedParts(alphabet, data[3..]);
      OneMoreGroup(|data|);
      Associate(Group(alphabet, data[0], data[1], data[2]), Digits(alphabet, data[3..]), Padding(|data|));
    }
  }

  lemma {:induction false} DigitsLength(alphabet: Alphabet, data: Bytes)
    ensures |Digits(alphabet, data)| == 4 * (|data| / 3) + (if |data| % 3 == 0 then 0 else |data| % 3 + 1)
  {
    if |data| <= 2 {
      assert |data| / 3 == 0 && |data| % 3 == |data|;
    } else {
      DigitsLength(alphabet, data[3..]);
      OneMoreGroup(|data|);
    }
  }

  lemma RestOfFours(n: nat, rest: nat)
    requires rest < 4
    ensures (4 * n + rest) % 4 == rest
  {
  }

  lemma RestoresPadding(s: string, count: nat)
    requires |s| == 4 * (count / 3) + (if count % 3 == 0 then 0 else count % 3 + 1)
    ensures RestorePadding(s) == s + Padding(count)
  {
    RestOfFours(count / 3, if count % 3 == 0 then 0 else count % 3 + 1);
    assert s + "" == s;
  }

  lemma Base64UrlIsDigits(data: Bytes)
    ensures Base64Url(data) == Digits(UrlSafe, data)
  {
    EncodedParts(UrlSafe, data);
    StripsToDigits(Digits(UrlSafe, data), Padding(|data|));
  }

  lemma PaddingIsRestored(data: Bytes)
    ensures RestorePadding(Digits(UrlSafe, data)) == Encode(UrlSafe, data)
  {
    DigitsLength(UrlSafe, data);
    RestoresPadding(Digits(UrlSafe, data), |data|);
    EncodedParts(UrlSafe, data);
  }

  /** Restoring the padding recovers the padded encoding, so that every byte string survives base64url. */
  lemma Base64UrlRoundTrip(data: Bytes, strict: bool)
    ensures RestorePadding(Base64Url(data)) == Encode(UrlSafe, data)
    ensures Decode(UrlSafe, strict, RestorePadding(Base64Url(data))) == Some(data)
  {
    Base64UrlIsDigits(data);
    PaddingIsRestored(data);
    DecodeUndoesEncode(UrlSafe, strict, data);
  }

  /** The unpadded length is four thirds, rounded up: 43 characters for a 32-byte key. */
  lemma Base64UrlLength(data: Bytes)
    ensures |Base64Url(data)| == (4 * |data| + 2) / 3
    ensures |data| == 32 ==> |Base64Url(data)| == 43
  {
    Base64UrlIsDigits(data);
    DigitsLength(UrlSafe, data);
  }

  /** `_validate_public_key`: the stripped key, if it decodes to 32 bytes. */
  method ValidatePublicKey(value: string) returns (r: Option<string>)
    ensures r.Some? <==> Decode(UrlSafe, false, RestorePadding(Strip(value))).Some?
                         && |Decode(UrlSafe, false, RestorePadding(Strip(value))).value| == 32
    ensures r.Some? ==> r.value == Strip(value)
  {
    var publicKey := Strip(value);
    var decoded := Decode(UrlSafe, false, RestorePadding(publicKey));
    if decoded.None? || |decoded.value| != 32 {
      return None;
    }
    r := Some(publicKey);
  }

  /** Every 32-byte key is accepted in the form `_base64url` gives it, and kept as it is. */
  lemma EveryKeyIsValid(key: Bytes)
    requires |key| == 32
    ensures Strip(Base64Url(key)) == Base64Url(key)
    ensures Decode(UrlSafe, false, RestorePadding(Strip(Base64Url(key)))) == Some(key)
  {
    Base64UrlIsDigits(key);
    Base64UrlRoundTrip(key, false);
  }
}
