/** BER packets: tags, lengths and nesting (section 8.1 of X.690, restricted by section 5.1 of RFC 4511). */
module Ber {
  type Byte = n: int | 0 <= n < 256

  const MAX_PACKET_SIZE := 0x100_0000

  /** A packet; the value of a constructed one is the encoding of its children. */
  datatype Packet = Packet(tag: Byte, value: seq<Byte>, children: seq<Packet>)

  predicate IsConstructed(tag: Byte) {
    tag / 32 % 2 == 1
  }

  // ---- Big-endian numbers ----

  function Value(bytes: seq<Byte>): nat {
    if bytes == [] then 0 else Value(bytes[..|bytes| - 1]) * 256 + bytes[|bytes| - 1]
  }

  /** The shortest big-endian form. */
  function Minimal(n: nat): (bytes: seq<Byte>)
    ensures bytes != [] && (n > 0 ==> bytes[0] != 0)
  {
    if n < 256 then [n] else Minimal(n / 256) + [n % 256]
  }

  /** binary.BigEndian.PutUint64, for k bytes. */
  function Fixed(n: nat, k: nat): (bytes: seq<Byte>)
    ensures |bytes| == k
  {
    if k == 0 then [] else Fixed(n / 256, k - 1) + [n % 256]
  }

  function Power256(k: nat): (r: nat)
    ensures r >= 1
  {
    if k == 0 then 1 else 256 * Power256(k - 1)
  }

  lemma ValueExtend(bytes: seq<Byte>, b: Byte)
    ensures Value(bytes + [b]) == Value(bytes) * 256 + b
  {
    assert (bytes + [b])[..|bytes|] == bytes;
  }

  lemma {:induction false} ValueOfMinimal(n: nat)
    ensures Value(Minimal(n)) == n
  {
    if n < 256 {
      ValueExtend([], n);
      assert [] + [n as Byte] == [n];
    } else {
      ValueOfMinimal(n / 256);
      ValueExtend(Minimal(n / 256), n % 256);
    }
  }

  lemma {:induction false} ValuePositive(bytes: seq<Byte>)
    requires bytes != [] && bytes[0] != 0
    ensures Value(bytes) > 0
  {
    if |bytes| > 1 {
      ValuePositive(bytes[..|bytes| - 1]);
    }
  }

  /** A form without a leading zero is the shortest one. */
  lemma {:induction false} MinimalOfValue(bytes: seq<Byte>)
    requires bytes != [] && bytes[0] != 0
    ensures Minimal(Value(bytes)) == bytes
  {
    var init, last := bytes[..|bytes| - 1], bytes[|bytes| - 1];
    assert bytes == init + [last];
    if init == [] {
      ValueExtend([], last);
      assert [] + [last] == bytes;
    } else {
      ValuePositive(init);
      MinimalOfValue(init);
      assert Value(bytes) / 256 == Value(init) && Value(bytes) % 256 == last;
    }
  }

  lemma {:induction false} ValueBound(bytes: seq<Byte>)
    ensures Value(bytes) < Power256(|bytes|)
  {
    if bytes != [] {
      ValueBound(bytes[..|bytes| - 1]);
    }
  }

  lemma {:induction false} ValueOfFixed(n: nat, k: nat)
    requires n < Power256(k)
    ensures Value(Fixed(n, k)) == n
  {
    if k > 0 {
      ValueOfFixed(n / 256, k - 1);
      ValueExtend(Fixed(n / 256, k - 1), n % 256);
    }
  }

  function Zeros(k: nat): (zeros: seq<Byte>)
    ensures |zeros| == k && forall i :: 0 <= i < k ==> zeros[i] == 0
  {
    seq(k, _ => 0)
  }

  /** Leading zeros add nothing. */
  lemma {:induction false} ValueAfterZeros(k: nat, bytes: seq<Byte>)
    ensures Value(Zeros(k) + bytes) == Value(bytes)
    decreases |bytes|, k
  {
    if bytes == [] {
      assert Zeros(k) + bytes == Zeros(k);
      if k > 0 {
        assert Zeros(k)[..k - 1] == Zeros(k - 1) == Zeros(k - 1) + [];
        ValueAfterZeros(k - 1, []);
      }
    } else {
      var init := bytes[..|bytes| - 1];
      assert (Zeros(k) + bytes)[..k + |init|] == Zeros(k) + init;
      ValueAfterZeros(k, init);
    }
  }

  /** Cutting the leading zeros off a fixed-size form leaves the shortest one. */
  lemma StrippedIsMinimal(n: nat, k: nat, start: nat)
    requires 0 < n < Power256(k) && start < k && Fixed(n, k)[start] != 0
    requires forall i :: 0 <= i < start ==> Fixed(n, k)[i] == 0
    ensures Fixed(n, k)[start..] == Minimal(n)
  {
    var buf := Fixed(n, k);
    ValueOfFixed(n, k);
    assert buf == Zeros(start) + buf[start..];
    ValueAfterZeros(start, buf[start..]);
    MinimalOfValue(buf[start..]);
  }

  lemma NotAllZero(n: nat, k: nat)
    requires 0 < n < Power256(k)
    ensures exists i :: 0 <= i < k && Fixed(n, k)[i] != 0
  {
    if forall i :: 0 <= i < k ==> Fixed(n, k)[i] == 0 {
      ValueOfFixed(n, k);
      assert Fixed(n, k) == Zeros(k) + [];
      ValueAfterZeros(k, []);
    }
  }

  // ---- Lengths ----

  /** Short form below 128; otherwise the number of bytes and the shortest form. */
  function LengthBytes(length: nat): (bytes: seq<Byte>)
    requires length < Power256(8)
    ensures bytes != []
  {
    if length < 0x80 then [length]
    else
      MinimalSize(length, 8);
      [0x80 + |Minimal(length)|] + Minimal(length)
  }

  lemma {:induction false} MinimalSize(n: nat, k: nat)
    requires n < Power256(k) && k > 0
    ensures |Minimal(n)| <= k
  {
    if n >= 256 {
      MinimalSize(n / 256, k - 1);
    }
  }

  lemma LongForm(length: nat, start: nat)
    requires 0x80 <= length < Power256(8) && start < 8 && Fixed(length, 8)[start] != 0
    requires forall i :: 0 <= i < start ==> Fixed(length, 8)[i] == 0
    ensures LengthBytes(length) == [0x80 + (8 - start)] + Fixed(length, 8)[start..]
  {
    hide Fixed, Minimal, Power256;
    StrippedIsMinimal(length, 8, start);
  }

  /** appendLength */
  method AppendLength(out: seq<Byte>, length: nat) returns (r: seq<Byte>)
    requires length < Power256(8)
    ensures r == out + LengthBytes(length)
  {
    hide Fixed, Power256, LengthBytes;
    if length < 0x80 {
      ShortForm(length);
      return out + [length];
    }
    var buf := Fixed(length, 8);
    NotAllZero(length, 8);
    var start := 0;
    while start < |buf| - 1 && buf[start] == 0
      invariant start < |buf| && forall i :: 0 <= i < start ==> buf[i] == 0
    {
      start := start + 1;
    }
    LongForm(length, start);
    var lengthBytes := buf[start..];
    r := out + [0x80 + |lengthBytes|];
    r := r + lengthBytes;
    assert r == out + ([0x80 + |lengthBytes|] + lengthBytes);
  }

  lemma ShortForm(length: nat)
    requires length < 0x80 && length < Power256(8)
    ensures LengthBytes(length) == [length]
  {
  }

  /** lengthSize: the room the length field takes. */
  method LengthSize(length: nat) returns (r: nat)
    requires length < Power256(8)
    ensures r == |LengthBytes(length)|
  {
    if length < 0x80 {
      return 1;
    }
    var size, n := 0, length;
    while n > 0
      invariant size + (if n > 0 then |Minimal(n)| else 0) == |Minimal(length)|
    {
      n := n / 256;
      size := size + 1;
    }
    r := 1 + size;
  }

  datatype LengthResult = BadLength | Length(length: nat, header: nat)

  /** readLength: only shortest forms of at most four bytes. */
  function ReadLength(data: seq<Byte>): (r: LengthResult)
    ensures r.Length? ==> 2 <= r.header <= |data| && r.header <= 6
  {
    if |data| < 2 then BadLength
    else if data[1] < 0x80 then Length(data[1], 2)
    else
      var n := data[1] - 0x80;
      if n == 0 || n > 4 || |data| < 2 + n || data[2] == 0 then BadLength
      else
        var length := Value(data[2..2 + n]);
        if length < 0x80 then BadLength else Length(length, 2 + n)
  }

  /** The length loop. */
  method ScanLength(data: seq<Byte>) returns (r: LengthResult)
    ensures r == ReadLength(data)
  {
    hide Value;
    if |data| < 2 {
      return BadLength;
    }
    var lengthByte := data[1];
    if lengthByte < 0x80 {
      return Length(lengthByte, 2);
    }
    var lengthBytes := lengthByte - 0x80;
    if lengthBytes == 0 || lengthBytes > 4 || |data| < 2 + lengthBytes || data[2] == 0 {
      return BadLength;
    }
    var length: nat := 0;
    ValueOfNothing(data);
    for i := 0 to lengthBytes
      invariant length == Value(data[2..2 + i])
    {
      ValueOfSlice(data, i);
      length := length * 256 + data[2 + i];
    }
    if length < 0x80 {
      return BadLength;
    }
    r := Length(length, 2 + lengthBytes);
  }

  lemma ValueOfNothing(data: seq<Byte>)
    requires |data| >= 2
    ensures Value(data[2..2]) == 0
  {
  }

  lemma ValueOfSlice(data: seq<Byte>, i: nat)
    requires 2 + i < |data|
    ensures Value(data[2..2 + i + 1]) == Value(data[2..2 + i]) * 256 + data[2 + i]
  {
    assert data[2..2 + i + 1] == data[2..2 + i] + [data[2 + i]];
    ValueExtend(data[2..2 + i], data[2 + i]);
  }

  lemma Power256Values()
    ensures Power256(1) == 0x100 && Power256(4) == 0x1_0000_0000 && Power256(8) == 0x1_0000_0000_0000_0000
  {
    assert Power256(2) == 0x1_0000;
    assert Power256(3) == 0x100_0000;
    assert Power256(5) == 0x100_0000_0000;
    assert Power256(6) == 0x1_0000_0000_0000;
    assert Power256(7) == 0x100_0000_0000_0000;
  }

  /** A written length is read back, whatever follows. */
  lemma LengthRoundTrip(tag: Byte, length: nat, rest: seq<Byte>)
    requires length < Power256(4) && length < Power256(8)
    ensures ReadLength([tag] + LengthBytes(length) + rest) == Length(length, 1 + |LengthBytes(length)|)
  {
    hide Power256, Value;
    var data := [tag] + LengthBytes(length) + rest;
    if length >= 0x80 {
      var m := Minimal(length);
      MinimalSize(length, 4);
      MinimalSize(length, 8);
      assert data == [tag, 0x80 + |m|] + m + rest;
      assert data[2..2 + |m|] == m && data[2] == m[0];
      ValueOfMinimal(length);
    }
  }

  /** A length that is read is the one that would be written. */
  lemma LengthIsWritten(data: seq<Byte>)
    requires ReadLength(data).Length?
    ensures var r := ReadLength(data);
      r.length < Power256(8) && data[..r.header] == [data[0]] + LengthBytes(r.length)
  {
    hide Power256, Value, Minimal;
    Power256Values();
    var r := ReadLength(data);
    if data[1] < 0x80 {
      assert data[..2] == [data[0], data[1]];
    } else {
      var n := data[1] - 0x80;
      var bytes := data[2..2 + n];
      ValueBound(bytes);
      Power256Monotone(n, 8);
      MinimalOfValue(bytes);
      assert data[..2 + n] == [data[0], data[1]] + bytes;
    }
  }

  lemma {:induction false} Power256Monotone(a: nat, b: nat)
    requires a <= b
    ensures Power256(a) <= Power256(b)
  {
    if a < b {
      Power256Monotone(a, b - 1);
    }
  }

  // ---- Packets ----

  /** TLV */
  function Tlv(tag: Byte, value: seq<Byte>): (bytes: seq<Byte>)
    requires |value| < Power256(8)
    ensures |bytes| >= 2 + |value|
  {
    [tag] + LengthBytes(|value|) + value
  }

  method WriteTlv(tag: Byte, value: seq<Byte>) returns (out: seq<Byte>)
    requires |value| < Power256(8)
    ensures out == Tlv(tag, value)
  {
    out := [tag];
    out := AppendLength(out, |value|);
    out := out + value;
  }

  /** The packets one after the other, as Sequence and Set concatenate their children. */
  function Concat(packets: seq<Packet>): seq<Byte>
    requires AllFit(packets)
  {
    if packets == [] then [] else Tlv(packets[0].tag, packets[0].value) + Concat(packets[1..])
  }

  predicate AllFit(packets: seq<Packet>) {
    forall i :: 0 <= i < |packets| ==> Fits(packets[i])
  }

  predicate Fits(p: Packet) {
    |p.value| <= MAX_PACKET_SIZE < Power256(8)
  }

  /** A tree: contents fit 16 MiB, and the value of a constructed packet is the encoding of its children. */
  predicate IsTree(p: Packet) {
    Fits(p) &&
    if IsConstructed(p.tag) then (forall c :: c in p.children ==> IsTree(c)) && ChildrenFit(p) && p.value == Concat(p.children)
    else p.children == []
  }

  predicate ChildrenFit(p: Packet) {
    AllFit(p.children)
  }

  datatype PacketResult = BadPacket | Read(packet: Packet, length: nat)

  datatype PacketsResult = BadPackets | ReadAll(packets: seq<Packet>)

  /** ReadPacket: one packet from the front. */
  function ReadPacket(data: seq<Byte>): (r: PacketResult)
    ensures r.Read? ==> 2 <= r.length <= |data|
    decreases |data|, 0
  {
    match ReadLength(data)
    case BadLength => BadPacket
    case Length(length, header) =>
      if length > MAX_PACKET_SIZE || header + length > |data| then BadPacket
      else
        var value := data[header..header + length];
        if !IsConstructed(data[0]) then Read(Packet(data[0], value, []), header + length)
        else match ReadPackets(value)
          case BadPackets => BadPacket
          case ReadAll(children) => Read(Packet(data[0], value, children), header + length)
  }

  /** ReadPackets: packets until the end. */
  function ReadPackets(data: seq<Byte>): PacketsResult
    decreases |data|, 1
  {
    if data == [] then ReadAll([])
    else match ReadPacket(data)
      case BadPacket => BadPackets
      case Read(p, n) =>
        match ReadPackets(data[n..])
        case BadPackets => BadPackets
        case ReadAll(packets) => ReadAll([p] + packets)
  }

  /** The two methods, as the reader's code has them. */
  method ReadOne(data: seq<Byte>) returns (r: PacketResult)
    ensures r == ReadPacket(data)
    decreases |data|, 0
  {
    var length := ScanLength(data);
    if length.BadLength? || length.length > MAX_PACKET_SIZE || length.header + length.length > |data| {
      return BadPacket;
    }
    var total := length.header + length.length;
    var packet := Packet(data[0], data[length.header..total], []);
    if IsConstructed(packet.tag) {
      var children := ReadMany(packet.value);
      if children.BadPackets? {
        return BadPacket;
      }
      packet := packet.(children := children.packets);
    }
    return Read(packet, total);
  }

  method ReadMany(data0: seq<Byte>) returns (r: PacketsResult)
    ensures r == ReadPackets(data0)
    decreases |data0|, 1
  {
    hide ReadPacket;
    var packets, data := [], data0;
    while data != []
      invariant |data| <= |data0|
      invariant ReadPackets(data0) == match ReadPackets(data)
        case BadPackets => BadPackets
        case ReadAll(more) => ReadAll(packets + more)
      decreases |data|
    {
      var one := ReadOne(data);
      if one.BadPacket? {
        return BadPackets;
      }
      ghost var rest := ReadPackets(data[one.length..]);
      assert rest.ReadAll? ==> packets + ([one.packet] + rest.packets) == (packets + [one.packet]) + rest.packets;
      packets := packets + [one.packet];
      data := data[one.length..];
    }
    assert packets + [] == packets;
    return ReadAll(packets);
  }

  // ---- Reading undoes writing ----

  /** The encoding of a tree, followed by anything, is read as that tree and its exact length. */
  lemma {:induction false} WriteThenRead(p: Packet, rest: seq<Byte>)
    requires IsTree(p)
    ensures var bytes := Tlv(p.tag, p.value); ReadPacket(bytes + rest) == Read(p, |bytes|)
    decreases p, 1
  {
    hide ReadLength, LengthBytes, Power256;
    Power256Values();
    var bytes := Tlv(p.tag, p.value);
    var data := bytes + rest;
    LengthRoundTrip(p.tag, |p.value|, p.value + rest);
    assert data == [p.tag] + LengthBytes(|p.value|) + (p.value + rest);
    var header := 1 + |LengthBytes(|p.value|)|;
    assert data[header..header + |p.value|] == p.value;
    if IsConstructed(p.tag) {
      WriteThenReadAll(p.children);
    }
  }

  lemma {:induction false} WriteThenReadAll(packets: seq<Packet>)
    requires AllFit(packets) && forall c :: c in packets ==> IsTree(c)
    ensures ReadPackets(Concat(packets)) == ReadAll(packets)
    decreases packets, 0
  {
    hide IsTree, Tlv, ReadPacket;
    if packets != [] {
      var bytes, rest := Tlv(packets[0].tag, packets[0].value), Concat(packets[1..]);
      WriteThenRead(packets[0], rest);
      WriteThenReadAll(packets[1..]);
      assert (bytes + rest)[|bytes|..] == rest;
    }
  }

  // ---- Writing undoes reading ----

  /** Whatever is read is a tree, and writing it gives back exactly the bytes consumed. */
  lemma {:induction false} ReadThenWrite(data: seq<Byte>)
    requires ReadPacket(data).Read?
    ensures var p, n := ReadPacket(data).packet, ReadPacket(data).length;
      IsTree(p) && Tlv(p.tag, p.value) == data[..n]
    decreases |data|, 0
  {
    hide ReadLength, LengthBytes, Power256;
    Power256Values();
    var p, n := ReadPacket(data).packet, ReadPacket(data).length;
    var header := ReadLength(data).header;
    LengthIsWritten(data);
    assert data[..n] == data[..header] + data[header..n];
    if IsConstructed(p.tag) {
      ReadThenWriteAll(p.value);
    }
  }

  lemma {:induction false} ReadThenWriteAll(data: seq<Byte>)
    requires ReadPackets(data).ReadAll?
    ensures var packets := ReadPackets(data).packets;
      AllFit(packets) && (forall c :: c in packets ==> IsTree(c)) && Concat(packets) == data
    decreases |data|, 1
  {
    hide IsTree, Tlv, ReadPacket;
    if data != [] {
      var p, n := ReadPacket(data).packet, ReadPacket(data).length;
      ReadThenWrite(data);
      ReadThenWriteAll(data[n..]);
      TreeFits(p);
      var rest := ReadPackets(data[n..]).packets;
      assert ([p] + rest)[1..] == rest;
      assert data == data[..n] + data[n..];
    }
  }

  lemma TreeFits(p: Packet)
    requires IsTree(p)
    ensures Fits(p)
  {
  }

  /** Reading and writing are inverse: a packet is read from some bytes if and only if it is a tree written there. */
  lemma ReadExactlyWritten(data: seq<Byte>, p: Packet, n: nat)
    requires n <= |data|
    ensures ReadPacket(data) == Read(p, n) <==> IsTree(p) && Tlv(p.tag, p.value) == data[..n]
  {
    hide ReadPacket, IsTree, Tlv;
    if ReadPacket(data) == Read(p, n) {
      ReadThenWrite(data);
    }
    if IsTree(p) {
      TreeFits(p);
    }
    if IsTree(p) && Tlv(p.tag, p.value) == data[..n] {
      WriteThenRead(p, data[n..]);
      assert data[..n] + data[n..] == data;
    }
  }

  // ---- Which tags have children, and how long a value may be ----

  /** Tags with bit 6 set, in the four classes. */
  predicate HasChildren(tag: Byte) {
    0x20 <= tag <= 0x3f || 0x60 <= tag <= 0x7f || 0xa0 <= tag <= 0xbf || 0xe0 <= tag <= 0xff
  }

  lemma ConstructedTags(tag: Byte)
    ensures IsConstructed(tag) <==> HasChildren(tag)
  {
  }

  /** Of every accepted packet the children put together are the value, if its tag is a constructed one; else it has none. */
  lemma ChildrenExact(data: seq<Byte>)
    requires ReadPacket(data).Read?
    ensures var p := ReadPacket(data).packet;
      && p.tag == data[0]
      && if 0x20 <= p.tag <= 0x3f || 0x60 <= p.tag <= 0x7f || 0xa0 <= p.tag <= 0xbf || 0xe0 <= p.tag <= 0xff
         then AllFit(p.children) && p.value == Concat(p.children) else p.children == []
  {
    hide ReadLength, Tlv, ReadPackets;
    ReadThenWrite(data);
    ConstructedTags(data[0]);
  }

  /** A SEQUENCE of any packets that can be written reads back as exactly these, whatever follows. */
  lemma SequenceReads(children: seq<Packet>, rest: seq<Byte>)
    requires AllFit(children) && (forall c :: c in children ==> IsTree(c)) && |Concat(children)| <= 0x100_0000
    ensures |Concat(children)| < Power256(8)
    ensures var bytes := Tlv(0x30, Concat(children));
      ReadPacket(bytes + rest) == Read(Packet(0x30, Concat(children), children), |bytes|)
  {
    hide ReadPacket, Tlv, Concat;
    Power256Values();
    assert IsConstructed(0x30);
    WriteThenRead(Packet(0x30, Concat(children), children), rest);
  }

  /** A value may have up to 16777216 bytes, and no more. */
  lemma SizeLimitExact(tag: Byte, value: seq<Byte>, rest: seq<Byte>)
    requires !HasChildren(tag) && |value| < 0x1_0000_0000
    ensures |value| < Power256(8)
    ensures ReadPacket(Tlv(tag, value) + rest).Read? <==> |value| <= 16777216
  {
    hide ReadLength, LengthBytes, Power256;
    Power256Values();
    ConstructedTags(tag);
    LengthRoundTrip(tag, |value|, value + rest);
    assert Tlv(tag, value) + rest == [tag] + LengthBytes(|value|) + (value + rest);
  }
}
