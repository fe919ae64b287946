/** Making every true boolean of a message 0xff, in place (section 5.1 of RFC 4511). */
module BerBooleans {
  import opened Ber

  const TAG_BOOLEAN: Byte := 0x01

  // ---- Lengths, without the check for shortest form ----

  function ParseLength(data: seq<Byte>): (r: LengthResult)
    ensures r.Length? ==> 2 <= r.header <= |data|
  {
    if |data| < 2 then BadLength
    else if data[1] < 0x80 then Length(data[1], 2)
    else
      var n := data[1] - 0x80;
      if n == 0 || n > 4 || |data| < 2 + n then BadLength else Length(Value(data[2..2 + n]), 2 + n)
  }

  /** parseBERLength */
  method ScanBerLength(data: seq<Byte>) returns (r: LengthResult)
    ensures r == ParseLength(data)
  {
    if |data| < 2 {
      return BadLength;
    }
    var lengthByte := data[1];
    if lengthByte < 0x80 {
      return Length(lengthByte, 2);
    }
    var numLengthBytes := lengthByte - 0x80;
    if numLengthBytes == 0 || numLengthBytes > 4 || |data| < 2 + numLengthBytes {
      return BadLength;
    }
    var length: nat := 0;
    for i := 0 to numLengthBytes
      invariant length == Value(data[2..2 + i])
    {
      ValueExtend(data[2..2 + i], data[2 + i]);
      assert data[2..2 + i + 1] == data[2..2 + i] + [data[2 + i]];
      length := length * 256 + data[2 + i];
    }
    return Length(length, 2 + numLengthBytes);
  }

  /** The length depends on the header alone. */
  lemma SameHeader(a: seq<Byte>, b: seq<Byte>)
    requires ParseLength(a).Length? && ParseLength(a).header <= |b|
    requires a[..ParseLength(a).header] == b[..ParseLength(a).header]
    ensures ParseLength(b) == ParseLength(a)
  {
    var h := ParseLength(a).header;
    assert a[0] == a[..h][0] && a[1] == a[..h][1] && b[1] == b[..h][1];
    assert a[2..h] == a[..h][2..] && b[2..h] == b[..h][2..];
  }

  /** The reader's stricter length is the same where it is accepted. */
  lemma ReadLengthParses(data: seq<Byte>)
    requires ReadLength(data).Length?
    ensures ParseLength(data) == ReadLength(data)
  {
  }

  // ---- The pass ----

  /** The value of a packet after the pass. */
  function NormValue(tag: Byte, value: seq<Byte>): (r: seq<Byte>)
    ensures |r| == |value|
    decreases |value|, 1
  {
    if IsConstructed(tag) then Norm(value)
    else if tag == TAG_BOOLEAN && |value| == 1 && value[0] != 0 then [0xff]
    else value
  }

  /** What the pass makes of a run of packets; it stops at the first that is cut short. */
  function Norm(data: seq<Byte>): (r: seq<Byte>)
    ensures |r| == |data|
    decreases |data|, 0
  {
    var parsed := ParseLength(data);
    if parsed.BadLength? || parsed.header + parsed.length > |data| then data
    else
      var n := parsed.header + parsed.length;
      data[..parsed.header] + NormValue(data[0], data[parsed.header..n]) + Norm(data[n..])
  }

  /** The pass on the packets from `n` on can go on by itself. */
  ghost predicate SplitsAt(data: seq<Byte>, n: nat) {
    n <= |data| && Norm(data)[n..] == Norm(data[n..])
  }

  /** normalizeBERBooleansInRange: overwrites the array in the range and nothing else. */
  method NormalizeInRange(data: array<Byte>, start: nat, end: nat)
    requires start <= end <= data.Length
    modifies data
    ensures data[start..end] == Norm(old(data[start..end]))
    ensures forall i :: 0 <= i < start || end <= i < data.Length ==> data[i] == old(data[i])
    decreases end - start, 2
  {
    hide Norm, SplitsAt;
    ghost var was := data[start..end];
    var offset := start;
    SplitsAtStart(was);
    while offset < end
      invariant start <= offset <= end && SplitsAt(was, offset - start)
      invariant forall i :: start <= i < offset ==> data[i] == Norm(was)[i - start]
      invariant forall i :: offset <= i < end ==> data[i] == was[i - start]
      invariant forall i :: 0 <= i < start || end <= i < data.Length ==> data[i] == old(data[i])
      decreases end - offset
    {
      assert data[offset..end] == was[offset - start..];
      var more, next := NormalizeOne(data, offset, end);
      if !more {
        Untouched(was, offset - start);
        assert data[start..end] == Norm(was);
        return;
      }
      SplitFurther(was, offset - start, next - offset);
      offset := next;
    }
    assert data[start..end] == Norm(was);
  }

  lemma SplitsAtStart(data: seq<Byte>)
    ensures SplitsAt(data, 0)
  {
    hide Norm;
    assert data[0..] == data && Norm(data)[0..] == Norm(data);
  }

  /** If the pass leaves the rest alone, it leaves it alone in the whole. */
  lemma Untouched(data: seq<Byte>, m: nat)
    requires SplitsAt(data, m) && Norm(data[m..]) == data[m..]
    ensures forall i :: m <= i < |data| ==> Norm(data)[i] == data[i]
  {
    hide Norm;
    forall i | m <= i < |data| ensures Norm(data)[i] == data[i] {
      assert Norm(data)[m..][i - m] == data[m..][i - m];
    }
  }

  lemma SplitFurther(was: seq<Byte>, m: nat, n: nat)
    requires SplitsAt(was, m) && SplitsAt(was[m..], n)
    ensures SplitsAt(was, m + n)
    ensures forall i :: 0 <= i < n ==> Norm(was)[m + i] == Norm(was[m..])[i]
  {
    hide Norm;
    DropDrop(was, m, n);
    DropDrop(Norm(was), m, n);
    forall i | 0 <= i < n ensures Norm(was)[m + i] == Norm(was[m..])[i] {
      assert Norm(was)[m..][i] == Norm(was)[m + i];
    }
  }

  lemma DropDrop(s: seq<Byte>, m: nat, n: nat)
    requires m + n <= |s|
    ensures s[m..][n..] == s[m + n..] && s[..m + n] == s[..m] + s[m..][..n]
  {
  }

  lemma SliceOfSlice(s: seq<Byte>, a: nat, b: nat, c: nat, d: nat)
    requires a <= b <= |s| && c <= d <= b - a
    ensures s[a..b][c..d] == s[a + c..a + d]
  {
    var x, y := s[a..b][c..d], s[a + c..a + d];
    forall i | 0 <= i < |x| ensures x[i] == y[i] {
      assert s[a..b][c + i] == s[a + (c + i)];
    }
  }

  /** One turn of the loop: the packet at `offset`, unless there is none. */
  method NormalizeOne(data: array<Byte>, offset: nat, end: nat) returns (more: bool, next: nat)
    requires offset < end <= data.Length
    modifies data
    ensures !more ==> data[..] == old(data[..]) && Norm(data[offset..end]) == data[offset..end]
    ensures more ==> offset < next <= end && SplitsAt(old(data[offset..end]), next - offset)
    ensures more ==> forall i :: offset <= i < next ==> data[i] == Norm(old(data[offset..end]))[i - offset]
    ensures forall i :: 0 <= i < offset ==> data[i] == old(data[i])
    ensures more ==> forall i :: next <= i < data.Length ==> data[i] == old(data[i])
    decreases end - offset, 1
  {
    hide Norm, NormValue, ParseLength;
    ghost var rest := data[offset..end];
    NormStep(rest);
    var parsed := ScanBerLength(data[offset..end]);
    if parsed.BadLength? || offset + parsed.header + parsed.length > end {
      return false, offset;
    }
    var valueStart := offset + parsed.header;
    var valueEnd := valueStart + parsed.length;
    NormAtHeader(rest, parsed.length, parsed.header);
    SliceOfSlice(data[..], offset, end, parsed.header, parsed.header + parsed.length);
    ghost var value := rest[parsed.header..parsed.header + parsed.length];
    assert data[valueStart..valueEnd] == value && rest[0] == data[offset];
    ghost var tag := data[offset];
    NormalizeValue(data, data[offset], valueStart, valueEnd);
    forall i | offset <= i < valueEnd ensures data[i] == Norm(rest)[i - offset] {
      if i >= valueStart {
        assert data[i] == data[valueStart..valueEnd][i - valueStart] == NormValue(tag, value)[i - valueStart];
      }
    }
    return true, valueEnd;
  }

  lemma NormAtHeader(data: seq<Byte>, length: nat, h: nat)
    requires ParseLength(data) == Length(length, h) && h + length <= |data|
    ensures SplitsAt(data, h + length)
    ensures forall i :: 0 <= i < h ==> Norm(data)[i] == data[i]
    ensures forall i :: h <= i < h + length ==> Norm(data)[i] == NormValue(data[0], data[h..h + length])[i - h]
  {
    hide Norm, NormValue, ParseLength;
    NormParts(data, length, h);
    var r := Norm(data);
    forall i | 0 <= i < h ensures r[i] == data[i] {
      assert r[..h][i] == data[..h][i];
    }
    forall i | h <= i < h + length ensures r[i] == NormValue(data[0], data[h..h + length])[i - h] {
      assert r[h..h + length][i - h] == r[i];
    }
  }

  /** The two changes to a value: a true boolean is made 0xff, a constructed value is gone through. */
  method NormalizeValue(data: array<Byte>, tag: Byte, start: nat, end: nat)
    requires start <= end <= data.Length
    modifies data
    ensures data[start..end] == NormValue(tag, old(data[start..end]))
    ensures forall i :: 0 <= i < start || end <= i < data.Length ==> data[i] == old(data[i])
    decreases end - start, 3
  {
    hide Norm;
    if tag == TAG_BOOLEAN && end - start == 1 && data[start] != 0 {
      data[start] := 0xff;
    }
    if IsConstructed(tag) {
      NormalizeInRange(data, start, end);
    }
  }

  method NormalizeBooleans(data: array<Byte>)
    modifies data
    ensures data[..] == Norm(old(data[..]))
  {
    assert data[..] == data[0..data.Length];
    NormalizeInRange(data, 0, data.Length);
    assert data[..] == data[0..data.Length];
  }

  lemma NormStep(data: seq<Byte>)
    ensures var parsed := ParseLength(data);
      if parsed.BadLength? || parsed.header + parsed.length > |data| then Norm(data) == data
      else
        var n := parsed.header + parsed.length;
        Norm(data) == data[..parsed.header] + NormValue(data[0], data[parsed.header..n]) + Norm(data[n..])
  {
  }

  lemma Cut(data: seq<Byte>, h: nat, n: nat)
    requires h + n <= |data|
    ensures data == data[..h] + data[h..h + n] + data[h + n..]
  {
  }

  // ---- Twice is once ----

  /** A packet laid out as header, value and rest. */
  lemma NormParts(data: seq<Byte>, length: nat, h: nat)
    requires ParseLength(data) == Length(length, h) && h + length <= |data|
    ensures var r := Norm(data);
      && ParseLength(r) == Length(length, h) && r[..h] == data[..h] && r[0] == data[0]
      && r[h..h + length] == NormValue(data[0], data[h..h + length]) && r[h + length..] == Norm(data[h + length..])
  {
    hide ParseLength, NormValue, Norm;
    NormStep(data);
    var a, b, c := data[..h], NormValue(data[0], data[h..h + length]), Norm(data[h + length..]);
    var r := a + b + c;
    assert r[..h] == a && r[h..h + length] == b && r[h + length..] == c && r[0] == a[0];
    SameHeader(data, r);
  }

  /** The pass is idempotent, on any bytes whatever. */
  lemma {:induction false} NormIdempotent(data: seq<Byte>)
    ensures Norm(Norm(data)) == Norm(data)
    decreases |data|, 0
  {
    hide ParseLength, NormValue, Norm;
    NormStep(data);
    if ParseLength(data).Length? {
      var length, h := ParseLength(data).length, ParseLength(data).header;
      if h + length <= |data| {
        var r := Norm(data);
        NormParts(data, length, h);
        NormStep(r);
        NormValueIdempotent(data[0], data[h..h + length]);
        NormIdempotent(data[h + length..]);
      }
    }
  }

  lemma {:induction false} NormValueIdempotent(tag: Byte, value: seq<Byte>)
    ensures NormValue(tag, NormValue(tag, value)) == NormValue(tag, value)
    decreases |value|, 1
  {
    hide Norm;
    if IsConstructed(tag) {
      NormIdempotent(value);
    }
  }

  // ---- Nothing else changes ----

  /** The tag 0x01, then a length of one in the short form or in a long form of up to four bytes. */
  ghost predicate IsBooleanHeader(head: seq<Byte>) {
    && 2 <= |head| <= 6 && head[0] == 0x01 && head[|head| - 1] == 1
    && (|head| == 2 || (head[1] == 0x80 + (|head| - 2) && forall i :: 2 <= i < |head| - 1 ==> head[i] == 0))
  }

  ghost predicate EndsInBooleanHeader(s: seq<Byte>) {
    exists k :: 0 <= k <= |s| && IsBooleanHeader(s[k..])
  }

  /** A byte that changes is a non-zero byte made 0xff, right after the header of a boolean. */
  ghost predicate OnlyBooleans(before: seq<Byte>, after: seq<Byte>) {
    |after| == |before| && forall i :: 0 <= i < |before| && after[i] != before[i] ==>
      after[i] == 0xff && before[i] != 0 && EndsInBooleanHeader(before[..i])
  }

  lemma HeaderAfterMore(a: seq<Byte>, b: seq<Byte>)
    requires EndsInBooleanHeader(b)
    ensures EndsInBooleanHeader(a + b)
  {
    var k :| 0 <= k <= |b| && IsBooleanHeader(b[k..]);
    assert (a + b)[|a| + k..] == b[k..];
  }

  lemma OnlyBooleansJoin(head: seq<Byte>, a: seq<Byte>, a': seq<Byte>, b: seq<Byte>, b': seq<Byte>)
    requires OnlyBooleans(head + a, head + a') && OnlyBooleans(b, b') && |a| == |a'|
    ensures OnlyBooleans(head + a + b, head + a' + b')
  {
    hide EndsInBooleanHeader;
    var n := |head + a|;
    var before, after := head + a + b, head + a' + b';
    forall i | 0 <= i < |before| && after[i] != before[i]
      ensures after[i] == 0xff && before[i] != 0 && EndsInBooleanHeader(before[..i])
    {
      if i < n {
        assert (head + a)[i] == before[i] && (head + a')[i] == after[i];
        assert (head + a)[..i] == before[..i];
      } else {
        assert b[i - n] == before[i] && b'[i - n] == after[i];
        HeaderAfterMore(head + a, b[..i - n]);
        assert before[..i] == head + a + b[..i - n];
      }
    }
  }

  lemma {:induction false} NormChangesBooleans(data: seq<Byte>)
    ensures OnlyBooleans(data, Norm(data))
    decreases |data|, 0
  {
    hide NormValue, Norm, OnlyBooleans;
    NormStep(data);
    SameBytes(data);
    if ParseLength(data).Length? {
      var length, h := ParseLength(data).length, ParseLength(data).header;
      if h + length <= |data| {
        var value, rest := data[h..h + length], data[h + length..];
        Cut(data, h, length);
        if length == 1 && data[0] == TAG_BOOLEAN {
          LengthOne(data);
        }
        HeaderAndValue(data[..h], value, data[0]);
        NormChangesBooleans(rest);
        OnlyBooleansJoin(data[..h], value, NormValue(data[0], value), rest, Norm(rest));
      }
    }
  }

  lemma {:induction false} ValueOne(bytes: seq<Byte>)
    requires Value(bytes) <= 1
    ensures bytes != [] ==> bytes[|bytes| - 1] == Value(bytes)
    ensures forall i :: 0 <= i < |bytes| - 1 ==> bytes[i] == 0
  {
    if bytes != [] {
      var init := bytes[..|bytes| - 1];
      assert Value(init) == 0;
      ValueOne(init);
      assert forall i :: 0 <= i < |init| ==> bytes[i] == init[i];
    }
  }

  /** What a header with length one looks like. */
  lemma LengthOne(data: seq<Byte>)
    requires ParseLength(data).Length? && ParseLength(data).length == 1 && data[0] == 0x01
    ensures IsBooleanHeader(data[..ParseLength(data).header])
  {
    if data[1] >= 0x80 {
      var h := ParseLength(data).header;
      var bytes := data[2..h];
      ValueOne(bytes);
      assert forall i :: 2 <= i < h ==> data[..h][i] == bytes[i - 2];
    }
  }

  lemma SameBytes(data: seq<Byte>)
    ensures OnlyBooleans(data, data)
  {
  }

  lemma {:induction false} HeaderAndValue(head: seq<Byte>, value: seq<Byte>, tag: Byte)
    requires |head| >= 2 && (|value| == 1 && tag == TAG_BOOLEAN ==> IsBooleanHeader(head))
    ensures OnlyBooleans(head + value, head + NormValue(tag, value))
    decreases |value|, 1
  {
    hide Norm, IsBooleanHeader;
    if IsConstructed(tag) {
      NormChangesBooleans(value);
      var after := Norm(value);
      assert head + value == [] + head + value;
      SameBytes(head);
      assert head + [] == head;
      OnlyBooleansJoin(head, [], [], value, after);
    } else if tag == TAG_BOOLEAN && |value| == 1 {
      assert (head + value)[..|head|] == head && head[0..] == head;
    }
  }

  // ---- What the decoder then sees ----

  /** A packet with its true booleans, at any depth, made 0xff. */
  function NormPacket(p: Packet): (r: Packet)
    requires IsTree(p)
    ensures IsTree(r) && r.tag == p.tag && |r.value| == |p.value|
    decreases p, 1
  {
    if IsConstructed(p.tag) then
      var children := NormPackets(p.children);
      Packet(p.tag, Concat(children), children)
    else if p.tag == TAG_BOOLEAN && |p.value| == 1 && p.value[0] != 0 then Packet(p.tag, [0xff], [])
    else p
  }

  function NormPackets(packets: seq<Packet>): (r: seq<Packet>)
    requires AllTrees(packets)
    ensures AllTrees(r) && |r| == |packets| && |Concat(r)| == |Concat(packets)|
    ensures forall i :: 0 <= i < |packets| ==> r[i] == NormPacket(packets[i])
    decreases packets, 0
  {
    if packets == [] then [] else [NormPacket(packets[0])] + NormPackets(packets[1..])
  }

  predicate AllTrees(packets: seq<Packet>) {
    AllFit(packets) && forall c :: c in packets ==> IsTree(c)
  }

  /** One written packet at the front. */
  lemma NormOfTlv(tag: Byte, value: seq<Byte>, rest: seq<Byte>)
    requires |value| < Power256(4) && |value| < Power256(8) && |NormValue(tag, value)| == |value|
    ensures Norm(Tlv(tag, value) + rest) == Tlv(tag, NormValue(tag, value)) + Norm(rest)
  {
    hide Norm, NormValue, Power256, LengthBytes, ReadLength, ParseLength;
    var data := Tlv(tag, value) + rest;
    var h := 1 + |LengthBytes(|value|)|;
    LengthRoundTrip(tag, |value|, value + rest);
    assert data == [tag] + LengthBytes(|value|) + (value + rest);
    ReadLengthParses(data);
    NormStep(data);
    assert data[..h] == [tag] + LengthBytes(|value|) && data[h..h + |value|] == value && data[h + |value|..] == rest;
  }

  /** On written packets the pass does to the bytes what NormPackets does to the trees. */
  lemma {:induction false} NormOfPackets(packets: seq<Packet>)
    requires AllTrees(packets)
    ensures Norm(Concat(packets)) == Concat(NormPackets(packets))
    decreases packets, 0
  {
    hide Norm, NormValue, Power256, Tlv, IsTree;
    if packets == [] {
      NormNothing();
    } else {
      var p, rest := packets[0], packets[1..];
      TreeFits(p);
      Power256Values();
      NormOfTlv(p.tag, p.value, Concat(rest));
      NormOfValue(p);
      NormOfPackets(rest);
    }
  }

  lemma NormNothing()
    ensures Norm([]) == []
  {
  }

  lemma {:induction false} NormOfValue(p: Packet)
    requires IsTree(p)
    ensures NormValue(p.tag, p.value) == NormPacket(p).value
    decreases p, 1
  {
    hide Norm;
    if IsConstructed(p.tag) {
      NormOfPackets(p.children);
    }
  }

  /** Bytes that hold one packet hold, after the pass, the same packet with its true booleans made 0xff. */
  lemma NormReads(data: seq<Byte>)
    requires ReadPacket(data).Read? && ReadPacket(data).length == |data|
    ensures IsTree(ReadPacket(data).packet)
    ensures ReadPacket(Norm(data)) == Read(NormPacket(ReadPacket(data).packet), |data|)
  {
    hide Norm, NormValue, Power256, Tlv, ReadPacket, NormPacket, IsTree;
    var p := ReadPacket(data).packet;
    ReadThenWrite(data);
    TreeFits(p);
    Power256Values();
    assert data[..|data|] == data == Tlv(p.tag, p.value) + [];
    NormOfTlv(p.tag, p.value, []);
    NormOfValue(p);
    NormNothing();
    var r := NormPacket(p);
    TreeFits(r);
    assert Norm(data) == Tlv(r.tag, r.value) + [];
    WriteThenRead(r, []);
  }

  /** The pass never changes what a boolean means. */
  lemma NormKeepsTruth(p: Packet)
    requires IsTree(p) && p.tag == TAG_BOOLEAN && |p.value| == 1
    ensures |NormPacket(p).value| == 1 && (NormPacket(p).value[0] != 0 <==> p.value[0] != 0)
    ensures NormPacket(p).value[0] == 0 || NormPacket(p).value[0] == 0xff
  {
  }

  /** Bytes that hold one boolean hold, after the pass, the boolean of the same truth in its one encoding. */
  lemma BooleanReads(data: seq<Byte>)
    requires ReadPacket(data).Read? && ReadPacket(data).length == |data|
    requires var p := ReadPacket(data).packet; p.tag == 0x01 && |p.value| == 1
    ensures var r := ReadPacket(Norm(data));
      r.Read? && r.length == |data| && r.packet.tag == 0x01
      && r.packet.value == [if ReadPacket(data).packet.value[0] == 0 then 0 else 0xff]
  {
    hide Norm, ReadPacket;
    NormReads(data);
    NormKeepsTruth(ReadPacket(data).packet);
  }
}
