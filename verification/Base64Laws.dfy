/** The alphabets and the bit order of base64 (RFC 4648), and exactly which texts the strict decoder accepts. */
module Base64Laws {
  import opened Wrappers
  import opened PyText
  import opened ByteStrings
  import opened Base64

  // ---- Alphabets and bits ----

  lemma UpperLetters(i: nat)
    requires i < 26
    ensures UPPER[i] as int == 65 + i
  {
  }

  lemma LowerLetters(i: nat)
    requires i < 26
    ensures LOWER[i] as int == 97 + i
  {
  }

  lemma Numerals(i: nat)
    requires i < 10
    ensures NUMERALS[i] as int == 48 + i
  {
  }

  /** Tables 1 and 2 of RFC 4648. */
  lemma DigitsOfTheTables(alphabet: Alphabet, n: Sextet)
    ensures Digit(alphabet, n)
         == if n < 26 then UPPER[n]
            else if n < 52 then LOWER[n - 26]
            else if n < 62 then NUMERALS[n - 52]
            else if n == 62 then (match alphabet case Standard => '+' case UrlSafe => '-')
            else (match alphabet case Standard => '/' case UrlSafe => '_')
  {
    if n < 26 {
      UpperLetters(n as int);
    } else if n < 52 {
      LowerLetters(n as int - 26);
    } else if n < 62 {
      Numerals(n as int - 52);
    }
  }

  /** The four digits of a group spell the 24 bits of its three bytes, most significant first. */
  lemma GroupsAreBigEndian(a: Byte, b: Byte, c: Byte)
    ensures First(a) as int * 262144 + Second(a, b) as int * 4096 + Third(b, c) as int * 64 + Fourth(c) as int
         == a as int * 65536 + b as int * 256 + c as int
  {
    assert a as int == a as int / 4 * 4 + a as int % 4;
    assert b as int == b as int / 16 * 16 + b as int % 16;
    assert c as int == c as int / 64 * 64 + c as int % 64;
  }

  // ---- The strict decoder ----

  predicate IsDigit(alphabet: Alphabet, c: char) {
    Value(alphabet, c).Some?
  }

  /** How many digits a text begins with. */
  function DigitCount(alphabet: Alphabet, s: string): (k: nat)
    ensures k <= |s|
    ensures forall i :: 0 <= i < k ==> IsDigit(alphabet, s[i])
    ensures k < |s| ==> !IsDigit(alphabet, s[k])
  {
    if s == "" || !IsDigit(alphabet, s[0]) then 0 else 1 + DigitCount(alphabet, s[1..])
  }

  ghost predicate IsPadding(s: string) {
    forall i :: 0 <= i < |s| ==> s[i] == '='
  }

  /** How much padding completes a text whose last quad has this many digits. */
  predicate Completes(digits: nat, padding: nat) {
    || digits % 4 == 0
    || (digits % 4 == 2 && padding == 2)
    || (digits % 4 == 3 && padding == 1)
  }

  lemma {:induction false} PaddingDecoded(alphabet: Alphabet, s: string, d: Decoder)
    requires d.Valid() && IsPadding(s) && d.pads <= 1
    requires d.pads == 1 ==> d.quad == 2
    ensures Decoded(alphabet, true, s, d).Some? <==>
              d.quad == 0 || (d.quad == 2 && |s| + d.pads == 2) || (d.quad == 3 && |s| == 1)
  {
    if s != "" && !(d.quad >= 2 && d.quad + d.pads + 1 >= 4) {
      PaddingDecoded(alphabet, s[1..], d.(padding := true, pads := if d.quad >= 2 then d.pads + 1 else d.pads));
    }
  }

  lemma PaddingHasNoDigit(alphabet: Alphabet)
    ensures !IsDigit(alphabet, '=')
  {
  }

  lemma RestNotPadding(s: string)
    requires !IsPadding(s) && s[0] == '='
    ensures !IsPadding(s[1..])
  {
    var i :| 0 <= i < |s| && s[i] != '=';
    assert s[1..][i - 1] != '=';
  }

  lemma {:induction false} NothingAfterPadding(alphabet: Alphabet, s: string, d: Decoder)
    requires d.Valid() && d.padding && !IsPadding(s)
    ensures Decoded(alphabet, true, s, d).None?
  {
    if s[0] == '=' {
      RestNotPadding(s);
      if !(d.quad >= 2 && d.quad + d.pads + 1 >= 4) {
        NothingAfterPadding(alphabet, s[1..], d.(pads := if d.quad >= 2 then d.pads + 1 else d.pads));
      }
    }
  }

  /** A text that does not begin with a digit is refused unless it is all padding. */
  lemma NoDigitDecoded(alphabet: Alphabet, s: string, d: Decoder)
    requires d.Valid() && !d.padding && d.pads == 0
    requires DigitCount(alphabet, s) == 0
    ensures Decoded(alphabet, true, s, d).Some? <==> IsPadding(s) && Completes(d.quad, |s|)
  {
    if IsPadding(s) {
      PaddingDecoded(alphabet, s, d);
    } else if s[0] == '=' {
      RestNotPadding(s);
      if !(d.quad >= 2 && d.quad + d.pads + 1 >= 4) {
        var pads := if d.quad >= 2 then d.pads + 1 else d.pads;
        NothingAfterPadding(alphabet, s[1..], d.(padding := true, pads := pads));
      }
    }
  }

  lemma NextQuad(d: Decoder, v: Sextet)
    requires d.Valid()
    ensures d.Push(v).quad == (d.quad + 1) % 4 && d.Push(v).pads == 0 && d.Push(v).padding == d.padding
  {
  }

  /** Counting a digit by the quad or by the text is the same. */
  lemma CompletesNext(quad: nat, k: nat, padding: nat)
    requires quad <= 3 && k > 0
    ensures Completes((quad + 1) % 4 + (k - 1), padding) <==> Completes(quad + k, padding)
  {
    if quad == 3 {
      assert (quad + k) % 4 == (k - 1) % 4;
    }
  }

  lemma DigitDecoded(alphabet: Alphabet, s: string, d: Decoder)
    requires d.Valid() && !d.padding && DigitCount(alphabet, s) > 0
    ensures Decoded(alphabet, true, s, d) == Decoded(alphabet, true, s[1..], d.Push(Value(alphabet, s[0]).value))
    ensures DigitCount(alphabet, s[1..]) == DigitCount(alphabet, s) - 1
  {
    PaddingHasNoDigit(alphabet);
  }

  lemma {:induction false} StrictDecoded(alphabet: Alphabet, s: string, d: Decoder)
    requires d.Valid() && !d.padding && d.pads == 0
    ensures var k := DigitCount(alphabet, s);
            Decoded(alphabet, true, s, d).Some? <==> IsPadding(s[k..]) && Completes(d.quad + k, |s| - k)
  {
    var k := DigitCount(alphabet, s);
    if k == 0 {
      assert s[0..] == s;
      NoDigitDecoded(alphabet, s, d);
    } else {
      var next := d.Push(Value(alphabet, s[0]).value);
      DigitDecoded(alphabet, s, d);
      NextQuad(d, Value(alphabet, s[0]).value);
      StrictDecoded(alphabet, s[1..], next);
      assert s[1..][k - 1..] == s[k..];
      CompletesNext(d.quad, k, |s| - k);
    }
  }

  lemma DigitsAreAscii(alphabet: Alphabet, s: string)
    requires IsPadding(s[DigitCount(alphabet, s)..])
    ensures IsAscii(s)
  {
    var k := DigitCount(alphabet, s);
    forall c | c in s ensures c as int < 128 {
      var i :| 0 <= i < |s| && s[i] == c;
      if i >= k {
        assert s[k..][i - k] == c;
      } else {
        assert IsDigit(alphabet, c);
      }
    }
  }

  /**
   The strict decoder accepts exactly the texts of digits followed by padding in which the padding completes the
   last quad; padding after complete quads is not counted, but there must be a digit before it.
   */
  lemma StrictAccepts(alphabet: Alphabet, s: string)
    ensures var k := DigitCount(alphabet, s);
            Decode(alphabet, true, s).Some? <==>
              IsPadding(s[k..]) && Completes(k, |s| - k) && (k > 0 || s == "")
  {
    var k := DigitCount(alphabet, s);
    StrictDecoded(alphabet, s, START);
    if IsPadding(s[k..]) {
      DigitsAreAscii(alphabet, s);
      if k == 0 && s != "" {
        assert s[k..][0] == s[0];
      }
    }
    if k > 0 {
      PaddingHasNoDigit(alphabet);
    }
  }

  // ---- Strict and lenient ----

  lemma {:induction false} StrictDecodedIsLenient(alphabet: Alphabet, s: string, d: Decoder)
    requires d.Valid() && Decoded(alphabet, true, s, d).Some?
    ensures Decoded(alphabet, false, s, d) == Decoded(alphabet, true, s, d)
  {
    if s != "" {
      if s[0] == '=' {
        if !(d.quad >= 2 && d.quad + d.pads + 1 >= 4) {
          var pads := if d.quad >= 2 then d.pads + 1 else d.pads;
          StrictDecodedIsLenient(alphabet, s[1..], d.(padding := true, pads := pads));
        }
      } else {
        StrictDecodedIsLenient(alphabet, s[1..], d.Push(Value(alphabet, s[0]).value));
      }
    }
  }

  /** What the strict decoder accepts, the lenient one reads the same. */
  lemma StrictIsLenient(alphabet: Alphabet, s: string)
    requires Decode(alphabet, true, s).Some?
    ensures Decode(alphabet, false, s) == Decode(alphabet, true, s)
  {
    StrictDecodedIsLenient(alphabet, s, START);
  }

  /** The digits and the padding of a text, without anything else. */
  function Clean(alphabet: Alphabet, s: string): string {
    if s == "" then ""
    else (if s[0] == '=' || IsDigit(alphabet, s[0]) then [s[0]] else "") + Clean(alphabet, s[1..])
  }

  lemma {:induction false} NoiseIsSkipped(alphabet: Alphabet, s: string, d: Decoder)
    requires d.Valid()
    ensures Decoded(alphabet, false, s, d) == Decoded(alphabet, false, Clean(alphabet, s), d)
  {
    if s != "" {
      var rest := Clean(alphabet, s[1..]);
      if s[0] == '=' {
        assert ([s[0]] + rest)[1..] == rest;
        if !(d.quad >= 2 && d.quad + d.pads + 1 >= 4) {
          var pads := if d.quad >= 2 then d.pads + 1 else d.pads;
          NoiseIsSkipped(alphabet, s[1..], d.(padding := true, pads := pads));
        }
      } else if IsDigit(alphabet, s[0]) {
        assert ([s[0]] + rest)[1..] == rest;
        NoiseIsSkipped(alphabet, s[1..], d.Push(Value(alphabet, s[0]).value));
      } else {
        assert "" + rest == rest;
        NoiseIsSkipped(alphabet, s[1..], d);
      }
    }
  }

  lemma {:induction false} CleanIsAscii(alphabet: Alphabet, s: string)
    ensures IsAscii(Clean(alphabet, s))
  {
    if s != "" {
      CleanIsAscii(alphabet, s[1..]);
    }
  }

  /** The lenient decoder refuses text that is not ASCII, and reads any other by its digits and padding alone. */
  lemma NoiseIsIgnored(alphabet: Alphabet, s: string)
    ensures Decode(alphabet, false, s)
         == if exists c :: c in s && c as int >= 128 then None else Decode(alphabet, false, Clean(alphabet, s))
  {
    NoiseIsSkipped(alphabet, s, START);
    CleanIsAscii(alphabet, s);
  }

  // ---- Encoding undoes decoding ----

  lemma DigitOfValue(c: char)
    requires IsDigit(Standard, c)
    ensures Digit(Standard, Value(Standard, c).value) == c
  {
  }

  /** The bytes that four digits stand for give these digits back. */
  lemma BytesOfDigits(w: Sextet, x: Sextet, y: Sextet, z: Sextet)
    returns (a: Byte, b: Byte, c: Byte)
    ensures First(a) == w && Second(a, b) == x && Third(b, c) == y && Fourth(c) == z
  {
    a := (w as int * 4 + x as int / 16) as Byte;
    b := (x as int % 16 * 16 + y as int / 4) as Byte;
    c := (y as int % 4 * 64 + z as int) as Byte;
  }

  /** Any text of whole groups of digits is the encoding of what it decodes to. */
  lemma {:induction false} EncodeUndoesDecode(s: string) returns (data: Bytes)
    requires |s| % 4 == 0 && forall i :: 0 <= i < |s| ==> IsDigit(Standard, s[i])
    ensures Decode(Standard, true, s) == Some(data) && Encode(Standard, data) == s
  {
    if s == "" {
      data := [];
    } else {
      var a, b, c := BytesOfDigits(Value(Standard, s[0]).value, Value(Standard, s[1]).value,
                                   Value(Standard, s[2]).value, Value(Standard, s[3]).value);
      var rest := EncodeUndoesDecode(s[4..]);
      DigitOfValue(s[0]);
      DigitOfValue(s[1]);
      DigitOfValue(s[2]);
      DigitOfValue(s[3]);
      data := [a, b, c] + rest;
      assert data[3..] == rest;
      assert Group(Standard, a, b, c) == s[..4];
      assert s == s[..4] + s[4..];
      DecodeUndoesEncode(Standard, true, data);
    }
  }
}
