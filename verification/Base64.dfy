/** Base64 with the standard alphabet and padding (section 4 of RFC 4648), over texts of bytes. */
module Base64 {
  /** A byte is a character below 256. */
  predicate IsBytes(s: string) {
    forall i :: 0 <= i < |s| ==> s[i] as int < 256
  }

  type Digit = n: int | 0 <= n < 64

  function DigitChar(n: Digit): char {
    if n < 26 then ('A' as int + n) as char
    else if n < 52 then ('a' as int + n - 26) as char
    else if n < 62 then ('0' as int + n - 52) as char
    else if n == 62 then '+' else '/'
  }

  /** The digit a character stands for, or -1. */
  function CharDigit(c: char): (r: int)
    ensures r == -1 || (0 <= r < 64 && DigitChar(r) == c)
  {
    if 'A' <= c <= 'Z' then c as int - 'A' as int
    else if 'a' <= c <= 'z' then c as int - 'a' as int + 26
    else if '0' <= c <= '9' then c as int - '0' as int + 52
    else if c == '+' then 62
    else if c == '/' then 63
    else -1
  }

  lemma DigitOfChar(n: Digit)
    ensures CharDigit(DigitChar(n)) == n && DigitChar(n) != '=' && ' ' < DigitChar(n) < '\U{7F}'
  {
  }

  type Byte = n: int | 0 <= n < 256

  function ByteAt(s: string, i: nat): Byte
    requires IsBytes(s) && i < |s|
  {
    s[i] as int
  }

  // ---- Encoding ----

  function D0(a: Byte): Digit { a / 4 }

  function D1(a: Byte, b: Byte): Digit { a % 4 * 16 + b / 16 }

  function D2(b: Byte, c: Byte): Digit { b % 16 * 4 + c / 64 }

  function D3(c: Byte): Digit { c % 64 }

  function Encode(s: string): string
    requires IsBytes(s)
  {
    if s == [] then []
    else
      var a := ByteAt(s, 0);
      if |s| == 1 then [DigitChar(D0(a)), DigitChar(D1(a, 0)), '=', '=']
      else
        var b := ByteAt(s, 1);
        if |s| == 2 then [DigitChar(D0(a)), DigitChar(D1(a, b)), DigitChar(D2(b, 0)), '=']
        else
          var c := ByteAt(s, 2);
          [DigitChar(D0(a)), DigitChar(D1(a, b)), DigitChar(D2(b, c)), DigitChar(D3(c))] + Encode(s[3..])
  }

  predicate Printable(s: string) {
    forall i :: 0 <= i < |s| ==> ' ' < s[i] < '\U{7F}'
  }

  /** Encoded text is plain: no spaces, no line breaks. */
  lemma {:induction false} EncodePrintable(s: string)
    requires IsBytes(s)
    ensures Printable(Encode(s)) && |Encode(s)| % 4 == 0 && (s != [] ==> Encode(s) != [])
  {
    hide DigitChar, D0, D1, D2, D3;
    assert forall d: Digit :: ' ' < DigitChar(d) < '\U{7F}' by {
      forall d: Digit {
        DigitOfChar(d);
      }
    }
    if |s| > 2 {
      EncodePrintable(s[3..]);
    }
  }

  // ---- Decoding ----

  datatype Decoded = Invalid | Decoded(bytes: string)

  /** Line breaks inside the text are skipped. */
  function WithoutBreaks(s: string): string {
    if s == [] then [] else (if s[0] == '\r' || s[0] == '\n' then [] else [s[0]]) + WithoutBreaks(s[1..])
  }

  function FirstByte(d0: Digit, d1: Digit): char {
    (d0 * 4 + d1 / 16) as char
  }

  function SecondByte(d1: Digit, d2: Digit): char {
    (d1 % 16 * 16 + d2 / 4) as char
  }

  function ThirdByte(d2: Digit, d3: Digit): char {
    (d2 % 4 * 64 + d3) as char
  }

  /** Quanta of four characters; only the last may be padded, and its unused bits are not looked at. */
  function DecodeQuanta(s: string): Decoded {
    if s == [] then Decoded([])
    else if |s| < 4 then Invalid
    else
      var d0, d1, d2, d3 := CharDigit(s[0]), CharDigit(s[1]), CharDigit(s[2]), CharDigit(s[3]);
      if d0 < 0 || d1 < 0 then Invalid
      else if s[2] == '=' && s[3] == '=' then (if |s| == 4 then Decoded([FirstByte(d0, d1)]) else Invalid)
      else if d2 < 0 then Invalid
      else if s[3] == '=' then (if |s| == 4 then Decoded([FirstByte(d0, d1), SecondByte(d1, d2)]) else Invalid)
      else if d3 < 0 then Invalid
      else match DecodeQuanta(s[4..])
        case Invalid => Invalid
        case Decoded(rest) => Decoded([FirstByte(d0, d1), SecondByte(d1, d2), ThirdByte(d2, d3)] + rest)
  }

  function Decode(s: string): Decoded {
    DecodeQuanta(WithoutBreaks(s))
  }

  // ---- Round trip ----

  lemma {:induction false} NoBreaks(s: string)
    requires '\r' !in s && '\n' !in s
    ensures WithoutBreaks(s) == s
  {
    if s != [] {
      NoBreaks(s[1..]);
      assert s == [s[0]] + s[1..];
    }
  }

  lemma BytesOfDigits(a: Byte, b: Byte, c: Byte)
    ensures FirstByte(D0(a), D1(a, b)) as int == a
    ensures SecondByte(D1(a, b), D2(b, c)) as int == b
    ensures ThirdByte(D2(b, c), D3(c)) as int == c
  {
  }

  lemma {:induction false} QuantaRoundTrip(s: string)
    requires IsBytes(s)
    ensures DecodeQuanta(Encode(s)) == Decoded(s)
  {
    hide DigitChar, CharDigit, D0, D1, D2, D3, FirstByte, SecondByte, ThirdByte;
    if s != [] {
      var a, b, c := ByteAt(s, 0), if |s| > 1 then ByteAt(s, 1) else 0, if |s| > 2 then ByteAt(s, 2) else 0;
      BytesOfDigits(a, b, c);
      DigitOfChar(D0(a));
      DigitOfChar(D1(a, b));
      DigitOfChar(D2(b, c));
      DigitOfChar(D3(c));
      if |s| > 2 {
        assert IsBytes(s[3..]) && Encode(s)[4..] == Encode(s[3..]);
        QuantaRoundTrip(s[3..]);
        assert s == [s[0], s[1], s[2]] + s[3..];
      }
    }
  }

  /** Decoding undoes encoding, for every list of bytes. */
  lemma RoundTrip(s: string)
    requires IsBytes(s)
    ensures Decode(Encode(s)) == Decoded(s)
  {
    hide Encode, DecodeQuanta;
    EncodePrintable(s);
    NoBreaks(Encode(s));
    QuantaRoundTrip(s);
  }

  /** Only texts whose unused bits are zero decode to bytes that encode to the same text. */
  predicate Canonical(s: string) {
    && (|s| >= 4 && s[|s| - 2] == '=' ==> CharDigit(s[|s| - 3]) % 16 == 0)
    && (|s| >= 4 && s[|s| - 2] != '=' && s[|s| - 1] == '=' ==> CharDigit(s[|s| - 2]) % 4 == 0)
  }

  lemma DigitsOfBytes(d0: Digit, d1: Digit, d2: Digit, d3: Digit)
    ensures FirstByte(d0, d1) as int < 256 && SecondByte(d1, d2) as int < 256 && ThirdByte(d2, d3) as int < 256
    ensures D0(FirstByte(d0, d1) as int) == d0
    ensures D1(FirstByte(d0, d1) as int, SecondByte(d1, d2) as int) == d1
    ensures D2(SecondByte(d1, d2) as int, ThirdByte(d2, d3) as int) == d2
    ensures D3(ThirdByte(d2, d3) as int) == d3
    ensures D1(FirstByte(d0, d1) as int, 0) == d1 <==> d1 % 16 == 0
    ensures D2(SecondByte(d1, d2) as int, 0) == d2 <==> d2 % 4 == 0
  {
  }

  lemma DigitCharInjective(a: Digit, b: Digit)
    ensures DigitChar(a) == DigitChar(b) <==> a == b
  {
    DigitOfChar(a);
    DigitOfChar(b);
  }

  /** A text that decodes is the encoding of its bytes if and only if its unused bits are zero. */
  lemma {:induction false} EncodeUndoesDecode(s: string)
    requires DecodeQuanta(s).Decoded?
    ensures IsBytes(DecodeQuanta(s).bytes)
    ensures Encode(DecodeQuanta(s).bytes) == s <==> Canonical(s)
  {
    hide DigitChar, CharDigit, D0, D1, D2, D3, FirstByte, SecondByte, ThirdByte, Canonical;
    if s == [] {
      CanonicalTail(s);
    } else if s[3] == '=' {
      PaddedQuantum(s);
    } else {
      var d0, d1, d2, d3 := CharDigit(s[0]), CharDigit(s[1]), CharDigit(s[2]), CharDigit(s[3]);
      var bytes, rest := DecodeQuanta(s).bytes, DecodeQuanta(s[4..]).bytes;
      EncodeUndoesDecode(s[4..]);
      DigitsOfBytes(d0, d1, d2, d3);
      assert bytes[3..] == rest;
      assert s == [s[0], s[1], s[2], s[3]] + s[4..];
      assert Encode(bytes) == [s[0], s[1], s[2], s[3]] + Encode(rest);
      CanonicalTail(s);
    }
  }

  lemma CanonicalTail(s: string)
    requires s == [] || (DecodeQuanta(s).Decoded? && s[3] != '=')
    ensures if s == [] then Canonical(s) else Canonical(s) == Canonical(s[4..])
  {
    hide CharDigit;
    if s != [] {
      var t := s[4..];
      assert |t| == 0 || |t| >= 4;
      assert t != [] ==> t[|t| - 1] == s[|s| - 1] && t[|t| - 2] == s[|s| - 2] && t[|t| - 3] == s[|s| - 3];
      assert CharDigit('=') == -1 by { EqualsIsNoDigit(); }
    }
  }

  lemma EqualsIsNoDigit()
    ensures CharDigit('=') == -1
  {
  }

  lemma PaddedQuantum(s: string)
    requires |s| >= 4 && DecodeQuanta(s).Decoded? && s[3] == '='
    ensures IsBytes(DecodeQuanta(s).bytes)
    ensures Encode(DecodeQuanta(s).bytes) == s <==> Canonical(s)
  {
    hide DigitChar, CharDigit, D0, D1, D2, D3, FirstByte, SecondByte, ThirdByte;
    EqualsIsNoDigit();
    var d0, d1, d2 := CharDigit(s[0]), CharDigit(s[1]), CharDigit(s[2]);
    assert s == [s[0], s[1], s[2], s[3]];
    DigitsOfBytes(d0, d1, if d2 < 0 then 0 else d2, 0);
    var a := FirstByte(d0, d1) as int;
    DigitCharInjective(D1(a, 0), d1);
    if s[2] != '=' {
      var b := SecondByte(d1, d2) as int;
      DigitCharInjective(D2(b, 0), d2);
    }
  }

  // ---- The encoding of section 4 of RFC 4648 ----

  /** A to Z, a to z, 0 to 9, `+` and `/`, in this order. */
  lemma AlphabetExact(n: Digit)
    ensures DigitChar(0) == 'A' && DigitChar(26) == 'a' && DigitChar(52) == '0' && DigitChar(62) == '+' && DigitChar(63) == '/'
    ensures n !in {0, 26, 52, 62, 63} ==> DigitChar(n) as int == DigitChar(n - 1) as int + 1
    ensures CharDigit(DigitChar(n)) == n
  {
  }

  /** Three bytes and their four digits are the same number, and what is padded counts as zero. */
  lemma QuantumIsNumber(a: Byte, b: Byte, c: Byte)
    ensures D0(a) * 262144 + D1(a, b) * 4096 + D2(b, c) * 64 + D3(c) == a * 65536 + b * 256 + c
    ensures D0(a) * 262144 + D1(a, b) * 4096 + D2(b, 0) * 64 == a * 65536 + b * 256
    ensures D0(a) * 262144 + D1(a, 0) * 4096 == a * 65536
  {
  }

  /** Line feeds and carriage returns in an encoding do not matter, wherever they stand. */
  lemma {:induction false} BreaksDoNotMatter(a: string, b: string, c: char)
    requires c == '\r' || c == '\n'
    ensures Decode(a + [c] + b) == Decode(a + b)
  {
    WithoutBreaksConcat(a + [c], b);
    WithoutBreaksConcat(a, [c]);
    WithoutBreaksConcat(a, b);
    assert [c][1..] == [] && WithoutBreaks([c]) == [];
    assert WithoutBreaks(a) + [] == WithoutBreaks(a);
  }

  lemma {:induction false} WithoutBreaksConcat(a: string, b: string)
    ensures WithoutBreaks(a + b) == WithoutBreaks(a) + WithoutBreaks(b)
  {
    if a == [] {
      assert a + b == b;
    } else {
      assert (a + b)[1..] == a[1..] + b;
      WithoutBreaksConcat(a[1..], b);
    }
  }
}
