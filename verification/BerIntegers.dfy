/** BER integers in 64-bit words (section 8.3 of X.690). */
module BerIntegers {
  import opened Ber

  const TWO_63 := 0x8000_0000_0000_0000
  const TWO_64 := 0x1_0000_0000_0000_0000
  const TWO_55 := 0x80_0000_0000_0000

  type Int64 = v: int | -TWO_63 <= v < TWO_63

  /** A Go int after overflow. */
  function Wrap(x: int): Int64 {
    var u := x % TWO_64;
    if u < TWO_63 then u else u - TWO_64
  }

  // ---- Reading ----

  /** `value = value<<8 | b` over the bytes. */
  function Shifted(bytes: seq<Byte>): Int64 {
    if bytes == [] then 0 else Wrap(Shifted(bytes[..|bytes| - 1]) * 256 + bytes[|bytes| - 1])
  }

  datatype IntResult = Empty | Int(value: Int64)

  /** Packet.Int */
  method ReadInt(bytes: seq<Byte>) returns (r: IntResult)
    ensures r == if bytes == [] then Empty else Int(Shifted(bytes))
  {
    if bytes == [] {
      return Empty;
    }
    var value: Int64 := 0;
    for i := 0 to |bytes|
      invariant value == Shifted(bytes[..i])
    {
      assert bytes[..i + 1][..i] == bytes[..i];
      value := Wrap(value * 256 + bytes[i]);
    }
    assert bytes[..|bytes|] == bytes;
    return Int(value);
  }

  // ---- Writing ----

  /** A leading zero byte goes while the byte after it is below 128. */
  function Strip(buf: seq<Byte>): seq<Byte> {
    if |buf| > 1 && buf[0] == 0 && buf[1] < 0x80 then Strip(buf[1..]) else buf
  }

  function SignedBytes(v: Int64): seq<Byte> {
    if v == 0 then [0] else Strip(Fixed(v % TWO_64, 8))
  }

  /** signedIntegerBytes */
  method WriteInt(value: Int64) returns (bytes: seq<Byte>)
    ensures bytes == SignedBytes(value)
  {
    hide Fixed;
    if value == 0 {
      return [0];
    }
    var buf := Fixed(value % TWO_64, 8);
    var start := 0;
    while start < |buf| - 1 && buf[start] == 0 && buf[start + 1] < 0x80
      invariant start < |buf| && Strip(buf) == Strip(buf[start..])
    {
      assert buf[start..][1..] == buf[start + 1..];
      start := start + 1;
    }
    return buf[start..];
  }

  // ---- Round trip ----

  lemma WrapCongruent(x: int, y: int, k: int)
    requires x == y + k * TWO_64
    ensures Wrap(x) == Wrap(y)
  {
  }

  /** Shifting with wrap-around keeps the number modulo 2 to the 64. */
  lemma {:induction false} ShiftedWraps(bytes: seq<Byte>)
    ensures Shifted(bytes) == Wrap(Value(bytes))
  {
    hide Wrap;
    if bytes != [] {
      var init, last := bytes[..|bytes| - 1], bytes[|bytes| - 1];
      ShiftedWraps(init);
      var k := WrapDistance(Value(init));
      WrapCongruent(Value(init) * 256 + last, Wrap(Value(init)) * 256 + last, 256 * k);
    } else {
      WrapSmall(0);
    }
  }

  lemma WrapDistance(x: int) returns (k: int)
    ensures x == Wrap(x) + k * TWO_64
  {
    k := if x % TWO_64 < TWO_63 then x / TWO_64 else x / TWO_64 + 1;
  }

  lemma WrapSmall(x: int)
    ensures Wrap(x) == x <==> -TWO_63 <= x < TWO_63
  {
  }

  lemma {:induction false} StripKeepsValue(buf: seq<Byte>)
    requires buf != []
    ensures Value(Strip(buf)) == Value(buf) && Strip(buf) != [] && |Strip(buf)| <= |buf|
    ensures buf[0] < 0x80 ==> Strip(buf)[0] < 0x80
    ensures buf[0] >= 0x80 ==> Strip(buf) == buf
    ensures var r := Strip(buf); |r| == 1 || r[0] != 0 || r[1] >= 0x80
  {
    if |buf| > 1 && buf[0] == 0 && buf[1] < 0x80 {
      StripKeepsValue(buf[1..]);
      assert buf == Zeros(1) + buf[1..];
      ValueAfterZeros(1, buf[1..]);
    }
  }

  /** Every 64-bit integer is read back as it was written. */
  lemma IntRoundTrip(v: Int64)
    ensures SignedBytes(v) != [] && Shifted(SignedBytes(v)) == v
  {
    hide Fixed, Value, Strip, Power256;
    ShiftedWraps(SignedBytes(v));
    if v == 0 {
      ZeroByte();
    } else {
      Power256Values();
      ValueOfFixed(v % TWO_64, 8);
      StripKeepsValue(Fixed(v % TWO_64, 8));
    }
    WrapCongruent(v % TWO_64, v, -(v / TWO_64));
    WrapSmall(v);
  }

  lemma ZeroByte()
    ensures Value([0]) == 0
  {
  }

  // ---- Two's complement ----

  /** The number a byte string stands for. */
  function TwosComplement(bytes: seq<Byte>): int
    requires bytes != []
  {
    if bytes[0] < 0x80 then Value(bytes) else Value(bytes) - Power256(|bytes|)
  }

  /** A number lies between its first byte and the next, at the place of that byte. */
  lemma {:induction false} FirstByteBounds(bytes: seq<Byte>)
    requires bytes != []
    ensures bytes[0] * Power256(|bytes| - 1) <= Value(bytes) < (bytes[0] + 1) * Power256(|bytes| - 1)
  {
    hide Power256;
    var n := |bytes|;
    if n == 1 {
      PowerStep(0);
      ValueExtend([], bytes[0]);
      assert [] + [bytes[0]] == bytes;
    } else {
      var init := bytes[..n - 1];
      FirstByteBounds(init);
      PowerStep(n - 2);
      ScaledBounds(bytes[0], Power256(n - 2), Value(init), bytes[n - 1]);
    }
  }

  lemma PowerStep(k: nat)
    ensures Power256(0) == 1 && Power256(k + 1) == 256 * Power256(k)
  {
  }

  lemma ScaledBounds(b: Byte, p: nat, x: nat, last: Byte)
    requires b * p <= x < (b + 1) * p
    ensures b * (256 * p) <= x * 256 + last < (b + 1) * (256 * p)
  {
    assert b * (256 * p) == 256 * (b * p);
    assert (b + 1) * (256 * p) == 256 * ((b + 1) * p);
  }

  lemma ScaleMonotone(a: nat, b: nat, p: nat)
    requires a <= b
    ensures a * p <= b * p
  {
  }

  /** Where the two's complement numbers of n bytes lie. */
  lemma TwosComplementBounds(bytes: seq<Byte>)
    requires bytes != []
    ensures -(0x80 * Power256(|bytes| - 1)) <= TwosComplement(bytes) < 0x80 * Power256(|bytes| - 1)
    ensures TwosComplement(bytes) >= 0 <==> bytes[0] < 0x80
  {
    hide Power256, Value;
    FirstByteBounds(bytes);
    PowerStep(|bytes| - 1);
    ValueBound(bytes);
    var p := Power256(|bytes| - 1);
    if bytes[0] < 0x80 {
      ScaleMonotone(bytes[0] + 1, 0x80, p);
    } else {
      ScaleMonotone(0x80, bytes[0], p);
    }
  }

  /** A form no leading byte can be taken from is at least this large. */
  lemma StrippedIsLarge(r: seq<Byte>)
    requires |r| > 1 && (r[0] != 0 || r[1] >= 0x80)
    ensures Value(r) >= 0x80 * Power256(|r| - 2)
  {
    hide Power256, Value;
    PowerStep(|r| - 2);
    if r[0] != 0 {
      FirstByteBounds(r);
      ScaleMonotone(1, r[0], Power256(|r| - 1));
    } else {
      assert r == Zeros(1) + r[1..];
      ValueAfterZeros(1, r[1..]);
      FirstByteBounds(r[1..]);
      ScaleMonotone(0x80, r[1], Power256(|r| - 2));
    }
  }

  /** A non-negative integer is written in the shortest two's complement form. */
  lemma NonNegativeIsShortest(v: Int64, s: seq<Byte>)
    requires v >= 0 && s != [] && TwosComplement(s) == v
    ensures SignedBytes(v) != [] && TwosComplement(SignedBytes(v)) == v && |SignedBytes(v)| <= |s|
  {
    hide Power256, Value, Fixed, Strip;
    var r := SignedBytes(v);
    TwosComplementBounds(s);
    if v == 0 {
      ZeroByte();
    } else {
      Power256Values();
      ValueOfFixed(v, 8);
      StripKeepsValue(Fixed(v, 8));
      TopBitClear(v);
      if |r| > |s| {
        StrippedIsLarge(r);
        Power256Monotone(|s| - 1, |r| - 2);
      }
    }
  }

  lemma TopBitClear(v: Int64)
    requires v >= 0
    ensures Fixed(v, 8)[0] < 0x80
  {
    hide Power256, Value, Fixed;
    Power256Values();
    ValueOfFixed(v, 8);
    PowerStep(7);
    FirstByteBounds(Fixed(v, 8));
    if Fixed(v, 8)[0] >= 0x80 {
      ScaleMonotone(0x80, Fixed(v, 8)[0], Power256(7));
    }
  }

  lemma TopBitSet(v: Int64)
    requires v < 0
    ensures Fixed(v % TWO_64, 8)[0] >= 0x80
  {
    hide Power256, Value, Fixed;
    Power256Values();
    var buf := Fixed(v % TWO_64, 8);
    ValueOfFixed(v % TWO_64, 8);
    PowerStep(7);
    FirstByteBounds(buf);
    if buf[0] < 0x80 {
      ScaleMonotone(buf[0] + 1, 0x80, Power256(7));
    }
  }

  /** A negative integer always takes eight bytes: the shortest form only below -2 to the 55. */
  lemma NegativeTakesEight(v: Int64)
    requires v < 0
    ensures |SignedBytes(v)| == 8 && TwosComplement(SignedBytes(v)) == v
    ensures (forall s: seq<Byte> :: s != [] && TwosComplement(s) == v ==> |s| >= 8) <==> v < -TWO_55
  {
    hide Power256, Value, Fixed, Strip;
    Power256Values();
    TopBitSet(v);
    StripKeepsValue(Fixed(v % TWO_64, 8));
    ValueOfFixed(v % TWO_64, 8);
    if v >= -TWO_55 {
      SevenBytesSuffice(v);
    } else {
      forall s: seq<Byte> | s != [] && TwosComplement(s) == v ensures |s| >= 8 {
        SevenBytesReach(s);
      }
    }
  }

  lemma PowerSeven()
    ensures Power256(6) == 0x1_0000_0000_0000 && Power256(7) == 2 * TWO_55
  {
    Power256Values();
    assert Power256(8) == 256 * Power256(7) == 256 * (256 * Power256(6));
  }

  lemma SevenBytesSuffice(v: Int64)
    requires -TWO_55 <= v < 0
    ensures exists s: seq<Byte> :: s != [] && TwosComplement(s) == v && |s| < 8
  {
    hide Power256, Value, Fixed;
    PowerSeven();
    PowerStep(6);
    var u := v + 2 * TWO_55;
    var s := Fixed(u, 7);
    ValueOfFixed(u, 7);
    FirstByteBounds(s);
    assert s[0] >= 0x80;
    assert TwosComplement(s) == v;
  }

  lemma SevenBytesReach(s: seq<Byte>)
    requires s != [] && TwosComplement(s) < -TWO_55
    ensures |s| >= 8
  {
    hide Power256, Value;
    PowerSeven();
    TwosComplementBounds(s);
    if |s| < 8 {
      Power256Monotone(|s| - 1, 6);
    }
  }

  // ---- What Int makes of other encodings ----

  lemma {:induction false} PowerMultiple(n: nat) returns (k: nat)
    requires n >= 8
    ensures Power256(n) == k * TWO_64
  {
    if n == 8 {
      Power256Values();
      k := 1;
    } else {
      var j := PowerMultiple(n - 1);
      k := 256 * j;
    }
  }

  /**
   Int does not extend the sign: below eight bytes it is right only for numbers whose top bit is clear,
   and from eight bytes on exactly for the numbers that fit.
   */
  lemma IntIsTwosComplement(s: seq<Byte>)
    requires s != []
    ensures Shifted(s) == TwosComplement(s) <==>
      if |s| < 8 then s[0] < 0x80 else -TWO_63 <= TwosComplement(s) < TWO_63
  {
    hide Power256, Value, Shifted, Wrap;
    ShiftedWraps(s);
    PowerSeven();
    if |s| < 8 {
      ValueBound(s);
      Power256Monotone(|s|, 7);
      WrapSmall(Value(s));
      PowerPositive(|s|);
    } else {
      var k := PowerMultiple(|s|);
      WrapCongruent(Value(s), TwosComplement(s), if s[0] < 0x80 then 0 else k);
      WrapSmall(TwosComplement(s));
    }
  }

  lemma PowerPositive(k: nat)
    ensures Power256(k) > 0
  {
  }
}
