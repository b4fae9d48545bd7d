/** The Lab 2 datagram format: `Serialize`, `DeserializePacket` and the checksum field that overlaps
    the low length byte (index 21) and the first payload byte (index 22). */
module PacketCodec {
  import opened Basics
  import opened GoInts
  import opened InternetChecksum

  const MAX_PAYLOAD: nat := 65512

  /** The value of a packet object at one moment. */
  datatype PacketRecord = PacketRecord(
    kind: byte, seqNum: uint32, ackNum: uint32, data: seq<byte>,
    checksum: uint16, window: uint16, flags: byte, timestamp: int64)

  datatype DecodeError =
    | TooShort
    | BadLength
    | ChecksumMismatch
    | Panicked  // a slice expression of the source is out of range

  datatype Result<+T> = Ok(value: T) | Err(error: DecodeError)

  // ---------- big-endian fields ----------

  function Pow256(n: nat): (p: nat)
    ensures p > 0
  {
    if n == 0 then 1 else 256 * Pow256(n - 1)
  }

  function BigEndian(v: nat, width: nat): (bs: seq<byte>)
    ensures |bs| == width
  {
    if width == 0 then [] else BigEndian(v / 256, width - 1) + [v % 256]
  }

  function FromBigEndian(bs: seq<byte>): nat {
    if bs == [] then 0 else 256 * FromBigEndian(bs[..|bs| - 1]) + bs[|bs| - 1]
  }

  lemma {:induction false} BigEndianRoundTrip(v: nat, width: nat)
    requires v < Pow256(width)
    ensures FromBigEndian(BigEndian(v, width)) == v
  {
    if width > 0 {
      BigEndianRoundTrip(v / 256, width - 1);
      assert BigEndian(v, width)[..width - 1] == BigEndian(v / 256, width - 1);
    }
  }

  /** Byte `i` of a big-endian field is the value's digit of weight 256 to the number of bytes behind it. */
  lemma {:induction false} BigEndianByte(v: nat, width: nat, i: nat)
    requires i < width
    ensures BigEndian(v, width)[i] == v / Pow256(width - 1 - i) % 256
  {
    if i < width - 1 {
      BigEndianByte(v / 256, width - 1, i);
      DividedTwice(v, 256, Pow256(width - 2 - i), Pow256(width - 1 - i));
    }
  }

  /** The first byte of a field weighs 256 to the number of bytes behind it: the value is the positional sum. */
  lemma {:induction false} FromBigEndianHead(bs: seq<byte>)
    requires bs != []
    ensures FromBigEndian(bs) == bs[0] * Pow256(|bs| - 1) + FromBigEndian(bs[1..])
  {
    var n := |bs| - 1;
    if n == 0 {
      assert bs[..0] == [] && bs[1..] == [];
    } else {
      FromBigEndianHead(bs[..n]);
      assert bs[..n][1..] == bs[1..][..n - 1];
      assert 256 * (bs[0] * Pow256(n - 1)) == bs[0] * Pow256(n);
    }
  }

  lemma {:induction false} FromBigEndianBound(bs: seq<byte>)
    ensures FromBigEndian(bs) < Pow256(|bs|)
  {
    if bs != [] {
      FromBigEndianBound(bs[..|bs| - 1]);
    }
  }

  lemma TwoBytes(bs: seq<byte>)
    requires |bs| == 2
    ensures FromBigEndian(bs) == 256 * (bs[0] as int) + bs[1]
  {
    assert bs[..1][..0] == [] && bs[..1][0] == bs[0];
    assert FromBigEndian(bs[..1]) == bs[0];
  }

  /** `uint64(t)` for an int64 `t`, and back. */
  function ToUint64(t: int64): nat { t % TWO_64 }

  // ---------- the format ----------

  function FirstByte(p: PacketRecord): byte {
    if p.data == [] then 0 else p.data[0]
  }

  function Header(p: PacketRecord): (bs: seq<byte>)
    ensures |bs| == 20
  {
    [p.kind] + BigEndian(p.seqNum, 4) + BigEndian(p.ackNum, 4) + BigEndian(p.window, 2)
    + [p.flags] + BigEndian(ToUint64(p.timestamp), 8)
  }

  /** The buffer before the checksum is stored: 23 bytes of which the last is left for no field at all. */
  function Raw(p: PacketRecord): (bs: seq<byte>)
    ensures |bs| == 23 + |p.data|
  {
    Header(p) + BigEndian(|p.data| % 0x1_0000, 2) + p.data + [0]
  }

  /** The datagram: the checksum overwrites bytes 21 and 22. */
  function Encode(p: PacketRecord): seq<byte> {
    var c := Checksum(Raw(p));
    Raw(p)[21 := c / 256][22 := c % 256]
  }

  /** What the receiver makes of the slice `d`; `spare` is what lies behind it in its backing array,
      which the source's `data[21:23]` reaches when `d` has 22 bytes. */
  function Decode(d: seq<byte>, spare: seq<byte>): Result<PacketRecord> {
    if |d| < 22 then Err(TooShort)
    else if |d| == 22 && spare == [] then Err(Panicked)
    else
      var dataLen := FromBigEndian(d[20..22]);
      if dataLen > |d| - 22 then Err(BadLength)
      else if 22 + dataLen >= 0x1_0000 then Err(Panicked)
      else if Checksum(d) != StoredChecksum(d, spare) then Err(ChecksumMismatch)
      else Ok(Parsed(d, spare, dataLen))
  }

  function StoredChecksum(d: seq<byte>, spare: seq<byte>): (c: uint16)
    requires |d| >= 22 && |d| + |spare| >= 23
    ensures |d| >= 23 ==> c == 256 * (d[21] as int) + d[22]
  {
    TwoBytes((d + spare)[21..23]);
    FromBigEndian((d + spare)[21..23])
  }

  function Parsed(d: seq<byte>, spare: seq<byte>, dataLen: nat): (p: PacketRecord)
    requires |d| >= 22 && |d| + |spare| >= 23 && 22 + dataLen <= |d|
    ensures p.checksum == StoredChecksum(d, spare)
  {
    FromBigEndianBound(d[1..5]);
    FromBigEndianBound(d[5..9]);
    FromBigEndianBound(d[9..11]);
    assert Pow256(4) == 256 * (256 * (256 * (256 * Pow256(0)))) && Pow256(2) == 256 * (256 * Pow256(0));
    PacketRecord(
      d[0], FromBigEndian(d[1..5]), FromBigEndian(d[5..9]), d[22..22 + dataLen],
      StoredChecksum(d, spare), FromBigEndian(d[9..11]), d[11], WrapInt64(FromBigEndian(d[12..20])))
  }

  // ---------- layout ----------

  lemma HeaderLayout(p: PacketRecord)
    ensures var h := Header(p);
      && h[0] == p.kind && h[1..5] == BigEndian(p.seqNum, 4) && h[5..9] == BigEndian(p.ackNum, 4)
      && h[9..11] == BigEndian(p.window, 2) && h[11] == p.flags
      && h[12..20] == BigEndian(ToUint64(p.timestamp), 8)
  {
  }

  lemma TwoByteField(v: uint16)
    ensures BigEndian(v, 2) == [v / 256, v % 256]
  {
    assert BigEndian(v, 2) == BigEndian(v / 256, 1) + [v % 256];
    assert BigEndian(v / 256, 1) == BigEndian(v / 256 / 256, 0) + [v / 256 % 256];
  }

  lemma RawLayout(p: PacketRecord)
    ensures var r := Raw(p);
      && r[..20] == Header(p)
      && r[20] == |p.data| % 0x1_0000 / 256 && r[21] == |p.data| % 256
      && r[22] == FirstByte(p) && r[22..22 + |p.data|] == p.data
  {
    hide BigEndian, Header;
    var len := |p.data| % 0x1_0000;
    TwoByteField(len);
    assert Raw(p) == Header(p) + [len / 256, len % 256] + p.data + [0];
  }

  lemma PowersOf256()
    ensures Pow256(2) == 0x1_0000 && Pow256(4) == TWO_32 && Pow256(8) == TWO_64
  {
  }

  lemma TimestampRoundTrip(t: int64)
    ensures 0 <= ToUint64(t) < TWO_64 && WrapInt64(ToUint64(t)) == t
  {
  }

  lemma HeaderFields(p: PacketRecord, d: seq<byte>, spare: seq<byte>, dataLen: nat)
    requires |d| >= 22 && |d| + |spare| >= 23 && 22 + dataLen <= |d|
    requires d[..20] == Header(p)
    ensures Parsed(d, spare, dataLen)
         == p.(checksum := StoredChecksum(d, spare), data := d[22..22 + dataLen])
  {
    HeaderLayout(p);
    var h := Header(p);
    assert d[0] == h[0] && d[11] == h[11];
    assert d[1..5] == h[1..5] && d[5..9] == h[5..9] && d[9..11] == h[9..11] && d[12..20] == h[12..20];
    PowersOf256();
    BigEndianRoundTrip(p.seqNum, 4);
    BigEndianRoundTrip(p.ackNum, 4);
    BigEndianRoundTrip(p.window, 2);
    BigEndianRoundTrip(ToUint64(p.timestamp), 8);
    TimestampRoundTrip(p.timestamp);
  }

  lemma EncodeLayout(p: PacketRecord)
    ensures var e, c := Encode(p), Checksum(Raw(p));
      && |e| == 23 + |p.data|
      && e[..20] == Header(p)
      && e[20] == |p.data| % 0x1_0000 / 256
      && e[21] == c / 256 && e[22] == c % 256
      && (p.data != [] ==> e[22..22 + |p.data|] == [c % 256] + p.data[1..])
  {
    RawLayout(p);
    var e := Encode(p);
    assert e[..20] == Raw(p)[..20];
    if p.data != [] {
      assert e[23..22 + |p.data|] == Raw(p)[23..22 + |p.data|] == p.data[1..] by {
        assert Raw(p)[22..22 + |p.data|][1..] == Raw(p)[23..22 + |p.data|];
      }
    }
  }

  // ---------- the format byte by byte ----------

  lemma FourByteField(v: uint32)
    ensures BigEndian(v, 4) == [v / 0x100_0000, v / 0x1_0000 % 256, v / 0x100 % 256, v % 256]
  {
    hide BigEndian;
    PowersOf256();
    assert Pow256(0) == 1 && Pow256(1) == 0x100 && Pow256(2) == 0x1_0000 && Pow256(3) == 0x100_0000;
    BigEndianByte(v, 4, 0);
    BigEndianByte(v, 4, 1);
    BigEndianByte(v, 4, 2);
    BigEndianByte(v, 4, 3);
  }

  /** Every byte of a datagram, as a number. */
  lemma EncodedBytes(p: PacketRecord)
    ensures var e, c := Encode(p), Checksum(Raw(p));
      && |e| == 23 + |p.data|
      && e[0] == p.kind
      && e[1] == p.seqNum / 0x100_0000 && e[2] == p.seqNum / 0x1_0000 % 256
      && e[3] == p.seqNum / 0x100 % 256 && e[4] == p.seqNum % 256
      && e[5] == p.ackNum / 0x100_0000 && e[6] == p.ackNum / 0x1_0000 % 256
      && e[7] == p.ackNum / 0x100 % 256 && e[8] == p.ackNum % 256
      && e[9] == p.window / 256 && e[10] == p.window % 256
      && e[11] == p.flags
      && (forall i :: 12 <= i < 20 ==> e[i] == ToUint64(p.timestamp) / Pow256(19 - i) % 256)
      && e[20] == |p.data| % 0x1_0000 / 256 && e[21] == c / 256 && e[22] == c % 256
      && (forall i :: 1 <= i < |p.data| ==> e[22 + i] == p.data[i])
      && (p.data != [] ==> e[22 + |p.data|] == 0)
  {
    hide BigEndian, Header;
    var e, h := Encode(p), Header(p);
    EncodeLayout(p);
    assert forall i :: 0 <= i < 20 ==> e[i] == h[i];
    HeaderBytes(p);
    PayloadBytes(p);
  }

  lemma HeaderBytes(p: PacketRecord)
    ensures var h := Header(p);
      && h[0] == p.kind && h[11] == p.flags
      && h[1] == p.seqNum / 0x100_0000 && h[2] == p.seqNum / 0x1_0000 % 256
      && h[3] == p.seqNum / 0x100 % 256 && h[4] == p.seqNum % 256
      && h[5] == p.ackNum / 0x100_0000 && h[6] == p.ackNum / 0x1_0000 % 256
      && h[7] == p.ackNum / 0x100 % 256 && h[8] == p.ackNum % 256
      && h[9] == p.window / 256 && h[10] == p.window % 256
      && (forall i :: 12 <= i < 20 ==> h[i] == ToUint64(p.timestamp) / Pow256(19 - i) % 256)
  {
    hide BigEndian, Pow256;
    HeaderLayout(p);
    var h, stamp := Header(p), BigEndian(ToUint64(p.timestamp), 8);
    FourByteField(p.seqNum);
    FourByteField(p.ackNum);
    TwoByteField(p.window);
    forall i | 12 <= i < 20 ensures h[i] == ToUint64(p.timestamp) / Pow256(19 - i) % 256 {
      assert h[i] == h[12..20][i - 12];
      BigEndianByte(ToUint64(p.timestamp), 8, i - 12);
    }
    assert h[1] == h[1..5][0] && h[2] == h[1..5][1] && h[3] == h[1..5][2] && h[4] == h[1..5][3];
    assert h[5] == h[5..9][0] && h[6] == h[5..9][1] && h[7] == h[5..9][2] && h[8] == h[5..9][3];
    assert h[9] == h[9..11][0] && h[10] == h[9..11][1];
  }

  lemma PayloadBytes(p: PacketRecord)
    ensures var e := Encode(p);
      && |e| == 23 + |p.data|
      && (forall i :: 1 <= i < |p.data| ==> e[22 + i] == p.data[i])
      && (p.data != [] ==> e[22 + |p.data|] == 0)
  {
    hide BigEndian, Header;
    RawLayout(p);
    var r := Raw(p);
    forall i | 1 <= i < |p.data| ensures r[22 + i] == p.data[i] {
      assert r[22 + i] == r[22..22 + |p.data|][i];
    }
  }

  /** The 32-bit number at index `i`. */
  function Number32(d: seq<byte>, i: nat): nat
    requires i + 4 <= |d|
  {
    0x100_0000 * (d[i] as int) + 0x1_0000 * (d[i + 1] as int) + 0x100 * (d[i + 2] as int) + d[i + 3]
  }

  lemma FourBytes(bs: seq<byte>)
    requires |bs| == 4
    ensures FromBigEndian(bs) == Number32(bs, 0)
  {
    TwoBytes(bs[..2]);
    assert bs[..3][..2] == bs[..2] && bs[..4][..3] == bs[..3] && bs[..4] == bs;
    assert FromBigEndian(bs[..3]) == 256 * FromBigEndian(bs[..2]) + bs[2];
  }

  lemma EightBytes(bs: seq<byte>)
    requires |bs| == 8
    ensures FromBigEndian(bs) == TWO_32 * Number32(bs, 0) + Number32(bs, 4)
  {
    FourBytes(bs[..4]);
    assert bs[..5][..4] == bs[..4] && bs[..6][..5] == bs[..5] && bs[..7][..6] == bs[..6] && bs[..8] == bs;
    assert FromBigEndian(bs[..5]) == 256 * FromBigEndian(bs[..4]) + bs[4];
    assert FromBigEndian(bs[..6]) == 256 * FromBigEndian(bs[..5]) + bs[5];
    assert FromBigEndian(bs[..7]) == 256 * FromBigEndian(bs[..6]) + bs[6];
    assert bs[..8][..7] == bs[..7];
  }

  lemma ParsedBytes(d: seq<byte>, spare: seq<byte>, dataLen: nat)
    requires |d| >= 22 && |d| + |spare| >= 23 && 22 + dataLen <= |d|
    ensures var q := Parsed(d, spare, dataLen);
      && q.kind == d[0] && q.seqNum == Number32(d, 1) && q.ackNum == Number32(d, 5)
      && q.window == 256 * (d[9] as int) + d[10] && q.flags == d[11]
      && q.timestamp == WrapInt64(TWO_32 * Number32(d, 12) + Number32(d, 16))
      && q.data == d[22..22 + dataLen]
  {
    hide FromBigEndian;
    FourBytes(d[1..5]);
    FourBytes(d[5..9]);
    TwoBytes(d[9..11]);
    EightBytes(d[12..20]);
  }

  /** Every field of what the receiver returns, in terms of the datagram's bytes, and every error by its cause. */
  lemma DecodedBytes(d: seq<byte>, spare: seq<byte>)
    ensures |d| < 22 ==> Decode(d, spare) == Err(TooShort)
    ensures |d| == 22 && spare == [] ==> Decode(d, spare) == Err(Panicked)
    ensures |d| >= 22 && |d| + |spare| >= 23 ==>
              var r, dataLen, all := Decode(d, spare), 256 * (d[20] as int) + d[21], d + spare;
              if 22 + dataLen > |d| then r == Err(BadLength)
              else if 22 + dataLen > 65535 then r == Err(Panicked)
              else if Checksum(d) != 256 * (all[21] as int) + all[22] then r == Err(ChecksumMismatch)
              else
                && r.Ok?
                && r.value.kind == d[0] && r.value.seqNum == Number32(d, 1) && r.value.ackNum == Number32(d, 5)
                && r.value.window == 256 * (d[9] as int) + d[10] && r.value.flags == d[11]
                && r.value.timestamp == WrapInt64(TWO_32 * Number32(d, 12) + Number32(d, 16))
                && r.value.data == d[22..22 + dataLen] && r.value.checksum == 256 * (all[21] as int) + all[22]
  {
    hide FromBigEndian, Checksum, Parsed, Number32;
    if |d| >= 22 && |d| + |spare| >= 23 {
      TwoBytes(d[20..22]);
      StoredBytes(d, spare);
      var dataLen := FromBigEndian(d[20..22]);
      if 22 + dataLen <= |d| {
        ParsedBytes(d, spare, dataLen);
      }
    }
  }

  lemma StoredBytes(d: seq<byte>, spare: seq<byte>)
    requires |d| >= 22 && |d| + |spare| >= 23
    ensures StoredChecksum(d, spare) == 256 * ((d + spare)[21] as int) + (d + spare)[22]
  {
    TwoBytes((d + spare)[21..23]);
  }

  // ---------- when decoding inverts encoding ----------

  /** The checksum happens to equal the two bytes it overwrites. */
  predicate SlotsCoincide(p: PacketRecord) {
    Checksum(Raw(p)) == 256 * (|p.data| % 256) + FirstByte(p)
  }

  /** The one other way to pass: the checksum is 0 over bytes 255, 255, and the datagram is not all zero. */
  predicate SlotsVanish(p: PacketRecord) {
    && Checksum(Raw(p)) == 0
    && |p.data| % 256 == 255
    && FirstByte(p) == 255
    && WordSum(Raw(p)) != 65535
  }

  lemma ResidueEquality(a: nat, b: nat)
    ensures Residue(a) == Residue(b) <==> a % 65535 == b % 65535 && (a == 0 <==> b == 0)
  {
    if a > 0 && b > 0 {
      assert a % 65535 == ((a - 1) % 65535 + 1) % 65535;
      assert b % 65535 == ((b - 1) % 65535 + 1) % 65535;
    }
  }

  /** Where the sums of two datagrams differ by less than two moduli, congruence is one of three equalities. */
  lemma CongruentSums(s: nat, s': nat, x: uint16, y: uint16)
    requires s' == s + x - y
    ensures s' % 65535 == s % 65535 <==> x == y || (x == 0 && y == 65535) || (x == 65535 && y == 0)
  {
  }

  lemma SlotUpdate(raw: seq<byte>, x: byte, y: byte)
    requires |raw| >= 23
    ensures WordSum(raw[21 := x][22 := y]) == WordSum(raw) + (x + 256 * y) - (raw[21] + 256 * (raw[22] as int))
  {
    WordSumUpdate(raw, 21, x);
    WordSumUpdate(raw[21 := x], 22, y);
  }

  /** The word sum's share of bytes 21 and 22 before (`OldSlots`) and after (`NewSlots`) the checksum is stored. */
  function OldSlots(p: PacketRecord): uint16 { |p.data| % 256 + 256 * FirstByte(p) as int }
  function NewSlots(p: PacketRecord): uint16 { SwapWord(Checksum(Raw(p))) }

  lemma EncodedSum(p: PacketRecord)
    ensures WordSum(Encode(p)) == WordSum(Raw(p)) + NewSlots(p) - OldSlots(p)
  {
    var c := Checksum(Raw(p));
    RawLayout(p);
    SlotUpdate(Raw(p), c / 256, c % 256);
  }

  /** The receiver's recomputation agrees with the stored checksum exactly in the two slot cases. */
  lemma ChecksumAgrees(p: PacketRecord)
    requires |p.data| <= MAX_PAYLOAD
    ensures Checksum(Encode(p)) == Checksum(Raw(p)) <==> SlotsCoincide(p) || SlotsVanish(p)
  {
    var s, s' := WordSum(Raw(p)), WordSum(Encode(p));
    NoWrapAround(Raw(p));
    NoWrapAround(Encode(p));
    EncodedSum(p);
    ResidueEquality(s, s');
    CongruentSums(s, s', NewSlots(p), OldSlots(p));
    SlotsInWords(p);
  }

  /** The two slot cases, read off the stored and overwritten 16-bit values. */
  lemma SlotsInWords(p: PacketRecord)
    ensures SlotsCoincide(p) <==> NewSlots(p) == OldSlots(p)
    ensures Checksum(Raw(p)) == 0 <==> NewSlots(p) == 0
    ensures NewSlots(p) == 65535 <==> Checksum(Raw(p)) == 65535
    ensures OldSlots(p) == 65535 <==> |p.data| % 256 == 255 && FirstByte(p) == 255
    ensures OldSlots(p) == 0 <==> |p.data| % 256 == 0 && FirstByte(p) == 0
  {
    hide Checksum, Raw, SwapWord;
    SlotArithmetic(Checksum(Raw(p)), |p.data| % 256, FirstByte(p));
  }

  lemma SlotArithmetic(c: uint16, x: byte, y: byte)
    ensures c == 256 * (x as int) + y <==> SwapWord(c) == x + 256 * (y as int)
    ensures (SwapWord(c) == 0 <==> c == 0) && (SwapWord(c) == 65535 <==> c == 65535)
    ensures x + 256 * (y as int) == 65535 <==> x == 255 && y == 255
    ensures x + 256 * (y as int) == 0 <==> x == 0 && y == 0
  {
    assert c == 256 * (c / 256) + c % 256;
  }

  /** The data length the receiver reads: the low byte is the checksum's high byte. */
  function ReceivedLength(p: PacketRecord): nat { |p.data| / 256 * 256 + Checksum(Raw(p)) / 256 }

  lemma EncodedLength(p: PacketRecord, spare: seq<byte>)
    requires |p.data| <= MAX_PAYLOAD
    ensures FromBigEndian(Encode(p)[20..22]) == ReceivedLength(p)
    ensures StoredChecksum(Encode(p), spare) == Checksum(Raw(p))
  {
    EncodeLayout(p);
    var e := Encode(p);
    assert e[20] == |p.data| / 256;
    TwoBytes(e[20..22]);
    StoredWords(p);
  }

  lemma StoredWords(p: PacketRecord)
    ensures Checksum(Raw(p)) == 256 * (Checksum(Raw(p)) / 256) + Checksum(Raw(p)) % 256
  {
  }

  /** The receiver's two tests on a serialized packet: the corrupted length byte, then the checksum. */
  lemma DecodeEncoded(p: PacketRecord, spare: seq<byte>)
    requires |p.data| <= MAX_PAYLOAD
    ensures Decode(Encode(p), spare).Ok?
       <==> ReceivedLength(p) <= |p.data| + 1 && Checksum(Encode(p)) == Checksum(Raw(p))
  {
    EncodedLength(p, spare);
  }

  /** Whenever the receiver accepts, every header field comes back, with the checksum that was stored and as many
      payload bytes as the altered length says. */
  lemma DecodedFields(p: PacketRecord, spare: seq<byte>)
    requires |p.data| <= MAX_PAYLOAD
    requires Decode(Encode(p), spare).Ok?
    ensures var q := Decode(Encode(p), spare).value;
      && q == p.(checksum := Checksum(Raw(p)), data := q.data)
      && |q.data| == ReceivedLength(p)
      && q.data == Encode(p)[22..22 + |q.data|]
  {
    EncodedLength(p, spare);
    EncodeLayout(p);
    HeaderFields(p, Encode(p), spare, ReceivedLength(p));
  }

  /** Main result on acceptance: for every payload a datagram can carry, the receiver accepts what the
      sender serialized exactly in the two slot cases. */
  lemma AcceptanceExact(p: PacketRecord, spare: seq<byte>)
    requires |p.data| <= MAX_PAYLOAD
    ensures Decode(Encode(p), spare).Ok? <==> SlotsCoincide(p) || SlotsVanish(p)
  {
    DecodeEncoded(p, spare);
    ChecksumAgrees(p);
  }

  /** Coinciding slots mean storing the checksum changes nothing. */
  lemma CoincidingSlots(p: PacketRecord)
    requires SlotsCoincide(p)
    ensures Encode(p) == Raw(p)
  {
    RawLayout(p);
    var c := Checksum(Raw(p));
    assert c / 256 == Raw(p)[21] && c % 256 == Raw(p)[22];
  }

  /** Main result on the round trip: it holds if and only if the stored checksum equals the two bytes it
      overwrites.  A sender can test this before sending. */
  lemma RoundTripExact(p: PacketRecord, spare: seq<byte>)
    requires |p.data| <= MAX_PAYLOAD
    ensures Decode(Encode(p), spare) == Ok(p.(checksum := Checksum(Raw(p)))) <==> SlotsCoincide(p)
  {
    AcceptanceExact(p, spare);
    if Decode(Encode(p), spare).Ok? {
      DecodedFields(p, spare);
    }
    if SlotsCoincide(p) {
      CoincidingSlots(p);
      RawLayout(p);
    }
  }

  /** For a packet with a non-zero type byte, acceptance as one congruence modulo 65535. */
  lemma AcceptanceModular(p: PacketRecord, spare: seq<byte>)
    requires |p.data| <= MAX_PAYLOAD && p.kind >= 1
    ensures Decode(Encode(p), spare).Ok? <==> NewSlots(p) % 65535 == OldSlots(p) % 65535
  {
    AcceptanceExact(p, spare);
    SlotsInWords(p);
    NonZeroKind(p);
    CongruentSums(OldSlots(p), NewSlots(p), NewSlots(p), OldSlots(p));
  }

  lemma {:induction false} SumAtLeastTwo(ws: seq<uint16>, i: nat, j: nat)
    requires i < j < |ws|
    ensures Sum(ws) >= (ws[i] as int) + ws[j]
  {
    if j < |ws| - 1 {
      SumAtLeastTwo(ws[..|ws| - 1], i, j);
    } else {
      SumAtLeast(ws[..j], i);
    }
  }

  lemma NonZeroKind(p: PacketRecord)
    requires p.kind >= 1 && |p.data| <= MAX_PAYLOAD
    ensures Checksum(Raw(p)) != 65535
    ensures |p.data| % 256 == 255 && FirstByte(p) == 255 ==> WordSum(Raw(p)) != 65535
  {
    RawLayout(p);
    NoWrapAround(Raw(p));
    var r, ws := Raw(p), Words(Raw(p));
    assert r[0] == p.kind;
    assert ws[0] == Word(r, 0) >= 256;
    SumAtLeast(ws, 0);
    assert ws[10] == Word(r, 20) && ws[11] == Word(r, 22);
    if |p.data| % 256 == 255 && FirstByte(p) == 255 {
      assert ws[10] >= 255 && ws[11] >= 65280;
      var head := ws[..11];
      SumAtLeastTwo(head, 0, 10);
      SumAtLeast(ws, 11);
      assert Sum(ws[..12]) == Sum(ws[..11]) + ws[11] by { SumNext(ws, 11); }
      SumPrefix(ws, 12);
    }
  }

  // ---------- what the format promises is false of some packets ----------

  function Zeros(n: nat): (bs: seq<byte>) { seq(n, _ => 0) }

  lemma ZerosSum(n: nat)
    ensures WordSum(Zeros(n)) == 0
  {
    SumZeroPadding([], Zeros(n));
    assert [] + Zeros(n) == Zeros(n);
  }

  function Plain(kind: byte, seqNum: uint32, data: seq<byte>): PacketRecord {
    PacketRecord(kind, seqNum, 0, data, 0, 0, 0, 0)
  }

  lemma {:induction false} BigEndianZero(width: nat)
    ensures BigEndian(0, width) == Zeros(width)
  {
    if width > 0 {
      BigEndianZero(width - 1);
    }
  }

  lemma ShiftedField(mid: uint16)
    ensures BigEndian(256 * mid, 4) == [0, mid / 256, mid % 256, 0]
  {
    assert BigEndian(256 * mid, 4) == BigEndian(mid, 3) + [0];
    assert BigEndian(mid, 3) == BigEndian(mid / 256, 2) + [mid % 256];
    assert BigEndian(mid / 256, 2) == BigEndian(0, 1) + [mid / 256];
    assert BigEndian(0, 1) == BigEndian(0, 0) + [0];
  }

  lemma PlainHeader(kind: byte, mid: uint16, data: seq<byte>)
    ensures Header(Plain(kind, 256 * mid, data)) == [kind, 0, mid / 256, mid % 256] + Zeros(16)
  {
    BigEndianZero(4);
    BigEndianZero(2);
    BigEndianZero(8);
    ShiftedField(mid);
    assert Zeros(16) == [0] + Zeros(4) + Zeros(2) + [0] + Zeros(8);
  }

  /** Six writes into a zeroed buffer, and what they add up to. */
  function Spikes(n: nat, a: byte, b: byte, c: byte, d: byte, e: byte, f: byte): seq<byte>
    requires n >= 23
  {
    Zeros(n)[0 := a][2 := b][3 := c][20 := d][21 := e][22 := f]
  }

  lemma SpikesSum(n: nat, a: byte, b: byte, c: byte, d: byte, e: byte, f: byte)
    requires n >= 23
    ensures WordSum(Spikes(n, a, b, c, d, e, f)) == 256 * a + 256 * b + c + 256 * d + e + 256 * f
  {
    var z := Zeros(n);
    var z1 := z[0 := a];
    var z2 := z1[2 := b];
    var z3 := z2[3 := c];
    var z4 := z3[20 := d];
    ZerosSum(n);
    WordSumUpdate(z, 0, a);
    WordSumUpdate(z1, 2, b);
    WordSumUpdate(z2, 3, c);
    WordSumUpdate(z3, 20, d);
    WordSumUpdate(z4, 21, e);
    WordSumUpdate(z4[21 := e], 22, f);
  }

  lemma PlainRaw(kind: byte, mid: uint16, data: seq<byte>)
    requires |data| < 0x1_0000
    requires forall k :: 1 <= k < |data| ==> data[k] == 0
    ensures var p := Plain(kind, 256 * mid, data);
      Raw(p) == Spikes(|data| + 23, kind, mid / 256, mid % 256, |data| / 256, |data| % 256, FirstByte(p))
  {
    var p := Plain(kind, 256 * mid, data);
    var r := Raw(p);
    RawLayout(p);
    PlainHeader(kind, mid, data);
    forall k | 4 <= k < 20 ensures r[k] == 0 {
      assert r[k] == r[..20][k];
    }
    assert r[0] == r[..20][0] && r[1] == r[..20][1] && r[2] == r[..20][2] && r[3] == r[..20][3];
    forall k | 22 < k < 22 + |data| ensures r[k] == 0 {
      assert r[k] == r[22..22 + |data|][k - 22];
    }
  }

  /** The word sum of a packet whose only non-zero bytes are its type, sequence number and first payload byte. */
  lemma PlainSum(kind: byte, mid: uint16, data: seq<byte>)
    requires |data| < 0x1_0000
    requires forall k :: 1 <= k < |data| ==> data[k] == 0
    ensures var p := Plain(kind, 256 * mid, data);
      WordSum(Raw(p)) == 256 * (kind as int) + mid + |data| + 256 * (FirstByte(p) as int)
  {
    var p := Plain(kind, 256 * mid, data);
    PlainRaw(kind, mid, data);
    SpikesSum(|data| + 23, kind, mid / 256, mid % 256, |data| / 256, |data| % 256, FirstByte(p));
  }

  /** An empty DATA packet with sequence number 0 is refused by its own receiver. */
  lemma RoundTripCanFail()
    ensures Decode(Encode(Plain(1, 0, [])), []) == Err(BadLength)
  {
    var p := Plain(1, 0, []);
    PlainSum(1, 0, []);
    NoWrapAround(Raw(p));
    EncodedLength(p, []);
  }

  /** An empty DATA packet with sequence number 0x00FEFF00 comes back unchanged. */
  lemma RoundTripCanSucceed()
    ensures Decode(Encode(Plain(1, 0x00FE_FF00, [])), []) == Ok(Plain(1, 0x00FE_FF00, []))
  {
    hide Decode, Encode, Raw, Checksum;
    var p := Plain(1, 0x00FE_FF00, []);
    assert Checksum(Raw(p)) == 0 by {
      PlainSum(1, 0xFEFF, []);
      NoWrapAround(Raw(p));
    }
    assert p.(checksum := 0) == p;
    RoundTripExact(p, []);
  }

  /** The other acceptance case is real: 255 payload bytes are accepted as none at all. */
  lemma AcceptanceCanTruncate()
    ensures var p := Plain(1, 0x00FE_FF00, [255] + Zeros(254));
      Decode(Encode(p), []) == Ok(p.(data := []))
  {
    var data := [255] + Zeros(254);
    var p := Plain(1, 0x00FE_FF00, data);
    PlainSum(1, 0xFEFF, data);
    NoWrapAround(Raw(p));
    AcceptanceExact(p, []);
    DecodedFields(p, []);
  }

  // ---------- every payload but those gets through with some number ----------

  lemma PlainLayout(kind: byte, mid: uint16, data: seq<byte>)
    ensures Raw(Plain(kind, 256 * mid, data))
         == [kind, 0, mid / 256, mid % 256] + (Zeros(16) + BigEndian(|data| % 0x1_0000, 2) + data + [0])
  {
    hide BigEndian, Header, Zeros;
    PlainHeader(kind, mid, data);
    Regroup([kind, 0, mid / 256, mid % 256], Zeros(16), BigEndian(|data| % 0x1_0000, 2), data, [0]);
  }

  lemma Regroup(head: seq<byte>, a: seq<byte>, b: seq<byte>, c: seq<byte>, d: seq<byte>)
    ensures head + a + b + c + d == head + (a + b + c + d)
  {
  }

  lemma HeadSum(kind: byte, a: byte, b: byte, rest: seq<byte>)
    ensures WordSum([kind, 0, a, b] + rest) == WordSum([kind, 0, 0, 0] + rest) + 256 * (a as int) + b
  {
    hide WordSum;
    var r: seq<byte> := [kind, 0, 0, 0] + rest;
    assert [kind, 0, a, b] + rest == r[2 := a][3 := b];
    WordSumUpdate(r, 2, a);
    WordSumUpdate(r[2 := a], 3, b);
  }

  lemma Renumbered(kind: byte, mid: uint16, data: seq<byte>)
    ensures WordSum(Raw(Plain(kind, 256 * mid, data))) == WordSum(Raw(Plain(kind, 0, data))) + mid
  {
    hide Raw, WordSum, BigEndian;
    PlainLayout(kind, 0, data);
    PlainLayout(kind, mid, data);
    HeadSum(kind, mid / 256, mid % 256, Zeros(16) + BigEndian(|data| % 0x1_0000, 2) + data + [0]);
  }

  /** The 16-bit number that brings a positive sum to a given residue. */
  lemma Completed(s: nat, target: uint16) returns (mid: uint16)
    requires s > 0 && target > 0
    ensures Residue(s + mid) == target
  {
    var rest: int := (target as int - s) % 65535;
    mid := rest;
    assert (s + mid) % 65535 == target % 65535;
    ResidueEquality(s + mid, target);
  }

  lemma PositiveSum(p: PacketRecord)
    requires p.kind >= 1 && |p.data| <= MAX_PAYLOAD
    ensures WordSum(Raw(p)) > 0
  {
    NonZeroKind(p);
    NoWrapAround(Raw(p));
  }

  /** For every payload outside the truncated family (length 255 modulo 256, first byte 255) and every non-zero
      type there is a sequence number at which the packet round-trips. */
  lemma SomeNumberRoundTrips(kind: byte, data: seq<byte>, spare: seq<byte>) returns (seqNum: uint32)
    requires kind >= 1 && |data| <= MAX_PAYLOAD
    requires !(|data| % 256 == 255 && data[0] == 255)
    ensures var p := Plain(kind, seqNum, data);
      Decode(Encode(p), spare) == Ok(p.(checksum := Checksum(Raw(p))))
  {
    hide Decode, Encode, Raw, WordSum;
    var p0 := Plain(kind, 0, data);
    PositiveSum(p0);
    var mid := Completed(WordSum(Raw(p0)), 65535 - (256 * (|data| % 256) + FirstByte(p0)));
    seqNum := 256 * (mid as int);
    var p := Plain(kind, seqNum, data);
    Renumbered(kind, mid, data);
    NoWrapAround(Raw(p));
    RoundTripExact(p, spare);
  }

  /** For every payload of the truncated family there is a sequence number at which the receiver accepts it altered. */
  lemma SomeNumberAlters(kind: byte, data: seq<byte>) returns (seqNum: uint32)
    requires kind >= 1 && |data| <= MAX_PAYLOAD
    requires |data| % 256 == 255 && data[0] == 255
    ensures SlotsVanish(Plain(kind, seqNum, data))
  {
    hide Decode, Encode, Raw, WordSum;
    var p0 := Plain(kind, 0, data);
    PositiveSum(p0);
    var mid := Completed(WordSum(Raw(p0)), 65535);
    seqNum := 256 * (mid as int);
    Renumbered(kind, mid, data);
    NoWrapAround(Raw(Plain(kind, seqNum, data)));
    NonZeroKind(Plain(kind, seqNum, data));
  }

  // ---------- corruption of a single byte ----------

  /** The length tests a datagram must pass before its checksum is looked at. */
  predicate LengthFits(d: seq<byte>) {
    |d| >= 22 && FromBigEndian(d[20..22]) <= |d| - 22 && 22 + FromBigEndian(d[20..22]) < 0x1_0000
  }

  predicate Flipped(a: byte, b: byte) {
    (a == 0 && b == 255) || (a == 255 && b == 0)
  }

  /** 257 times a byte difference is a multiple of 65535 = 255 * 257 only for a difference of 255. */
  lemma SlotDelta(delta: int)
    requires -255 <= delta <= 255 && delta != 0
    ensures (257 * delta) % 65535 == 0 <==> delta == 255 || delta == -255
    ensures (256 * delta) % 65535 != 0 && delta % 65535 != 0
  {
  }

  /** Sum and stored checksum `st` agree before a change by `t` in all; when do they agree after it? */
  lemma CheckAfter(s: nat, s': nat, st: uint16, st': uint16, t: int)
    requires Residue(s) + st == 65535 && s' + st' == s + st + t
    ensures Residue(s') + st' == 65535
       <==> t % 65535 == 0 && Residue(s') + st' != 0 && Residue(s') + st' != 131070
  {
  }

  lemma StoredVersusSum(d: seq<byte>, spare: seq<byte>)
    requires |d| >= 22 && |d| + |spare| >= 23
    ensures WordSum(d) == 0 ==> StoredChecksum(d, spare) < 256
    ensures StoredChecksum(d, spare) == 65535 ==> WordSum(d) > 0
    ensures StoredChecksum(d, spare) == 256 * ((d + spare)[21] as int) + (d + spare)[22]
  {
    assert Words(d)[10] == Word(d, 20);
    SumAtLeast(Words(d), 10);
    StoredBytes(d, spare);
  }

  /** How much the stored checksum moves per unit of byte `k`. */
  function StoredWeight(k: nat): nat {
    if k == 21 then 256 else if k == 22 then 1 else 0
  }

  lemma StoredAfterUpdate(d: seq<byte>, k: nat, v: byte, spare: seq<byte>)
    requires k < |d| && |d| >= 22 && |d| + |spare| >= 23
    ensures StoredChecksum(d[k := v], spare) == StoredChecksum(d, spare) + StoredWeight(k) * (v - d[k])
  {
    StoredVersusSum(d, spare);
    StoredVersusSum(d[k := v], spare);
  }

  /** Which single-byte changes keep sum and stored checksum in agreement. */
  lemma AgreementAfterUpdate(d: seq<byte>, k: nat, v: byte, spare: seq<byte>)
    requires 22 <= |d| <= 131074 && |d| + |spare| >= 23 && k < |d| && v != d[k]
    requires Checksum(d) == StoredChecksum(d, spare)
    ensures var d' := d[k := v];
      (Checksum(d') == StoredChecksum(d', spare)
       <==> (k == 21 || k == 22) && Flipped(d[k], v) && WordSum(d') > 0 && StoredChecksum(d', spare) != 65535)
  {
    var d', delta := d[k := v], v - d[k];
    NoWrapAround(d);
    NoWrapAround(d');
    WordSumUpdate(d, k, v);
    StoredAfterUpdate(d, k, v, spare);
    StoredVersusSum(d', spare);
    SlotDelta(delta);
    var t := Weight(k) * delta + StoredWeight(k) * delta;
    CheckAfter(WordSum(d), WordSum(d'), StoredChecksum(d, spare), StoredChecksum(d', spare), t);
    if k == 21 || k == 22 {
      assert t == 257 * delta;
    } else if k % 2 == 0 {
      assert t == 256 * delta;
    } else {
      assert t == delta;
    }
  }

  predicate Accepts(d: seq<byte>, spare: seq<byte>) {
    Decode(d, spare).Ok?
  }

  /** Main result on corruption: of an accepted datagram, a copy that differs in exactly one byte is
      accepted if and only if the byte is a checksum byte flipped between 0x00 and 0xFF, the length tests
      still pass, and the flip leaves neither an all-zero datagram nor a stored 0xFFFF. */
  lemma OneByteCorruption(d: seq<byte>, k: nat, v: byte, spare: seq<byte>)
    requires |d| <= 131074 && k < |d| && v != d[k]
    requires Accepts(d, spare)
    ensures var d' := d[k := v];
      (Accepts(d', spare)
       <==> (k == 21 || k == 22) && Flipped(d[k], v) && LengthFits(d')
            && WordSum(d') > 0 && StoredChecksum(d', spare) != 65535)
  {
    AgreementAfterUpdate(d, k, v, spare);
  }

  /** The undetected flips exist: two accepted datagrams that differ in byte 22 only. */
  lemma UndetectedFlip()
    ensures var d := Spikes(23, 255, 0, 0, 0, 0, 0)[1 := 255];
      Accepts(d, []) && Accepts(d[22 := 255], [])
  {
    var z := Spikes(23, 255, 0, 0, 0, 0, 0);
    SpikesSum(23, 255, 0, 0, 0, 0, 0);
    WordSumUpdate(z, 1, 255);
    var d := z[1 := 255];
    assert d[20] == d[21] == d[22] == 0;
    NoWrapAround(d);
    TwoBytes(d[20..22]);
    assert Accepts(d, []);
    TwoBytes(d[22 := 255][20..22]);
    WordSumUpdate(d, 22, 255);
    OneByteCorruption(d, 22, 255, []);
  }

  // ---------- packet objects ----------

  /** `binary.BigEndian.PutUint16/32/64`: writes `width` bytes of `value` at offset `at`. */
  method PutBigEndian(buf: array<byte>, at: nat, width: nat, value: nat)
    requires at + width <= buf.Length
    modifies buf
    ensures buf[at..at + width] == BigEndian(value, width)
    ensures buf[..at + width] == old(buf[..at]) + BigEndian(value, width)
    ensures forall i :: 0 <= i < buf.Length && !(at <= i < at + width) ==> buf[i] == old(buf[i])
  {
    var v, k := value, width;
    while k > 0
      invariant 0 <= k <= width
      invariant forall i :: 0 <= i < buf.Length && !(at <= i < at + width) ==> buf[i] == old(buf[i])
      invariant BigEndian(value, width) == BigEndian(v, k) + buf[at + k..at + width]
    {
      k := k - 1;
      ghost var tail := buf[at + k + 1..at + width];
      buf[at + k] := v % 256;
      assert buf[at + k..at + width] == [v % 256] + tail;
      v := v / 256;
    }
    assert buf[..at + width] == buf[..at] + buf[at..at + width];
  }

  class Packet {
    const kind: byte
    const seqNum: uint32
    const ackNum: uint32
    const data: seq<byte>
    const window: uint16
    const flags: byte
    var checksum: uint16
    var timestamp: int64

    function Record(): PacketRecord
      reads this
    {
      PacketRecord(kind, seqNum, ackNum, data, checksum, window, flags, timestamp)
    }

    constructor (r: PacketRecord)
      ensures Record() == r
    {
      kind, seqNum, ackNum, data := r.kind, r.seqNum, r.ackNum, r.data;
      checksum, window, flags, timestamp := r.checksum, r.window, r.flags, r.timestamp;
    }

    /** Fills a fresh buffer field by field, then stores the checksum over bytes 21 and 22. */
    method Serialize() returns (buf: array<byte>)
      modifies this`checksum
      ensures fresh(buf)
      ensures buf[..] == Encode(old(Record()))
      ensures Record() == old(Record()).(checksum := Checksum(Raw(old(Record()))))
    {
      ghost var r := Record();
      buf := new byte[23 + |data|](_ => 0);
      FillHeader(buf);
      FillData(buf);
      var c, _ := CalculateChecksum(buf[..]);
      checksum := c;
      buf[21], buf[22] := c / 256, c % 256;
    }

    method FillHeader(buf: array<byte>)
      requires buf.Length >= 20
      modifies buf
      ensures buf[..20] == Header(Record())
      ensures buf[20..] == old(buf[20..])
    {
      FillNumbers(buf);
      ghost var front := buf[..11];
      buf[11] := flags;
      assert buf[..12] == front + [flags];
      PutBigEndian(buf, 12, 8, timestamp % TWO_64);
    }

    /** The type byte and the three numbers behind it. */
    method FillNumbers(buf: array<byte>)
      requires buf.Length >= 20
      modifies buf
      ensures buf[..11] == [kind] + BigEndian(seqNum, 4) + BigEndian(ackNum, 4) + BigEndian(window, 2)
      ensures buf[11..] == old(buf[11..])
    {
      buf[0] := kind;
      assert buf[..1] == [kind];
      PutBigEndian(buf, 1, 4, seqNum);
      PutBigEndian(buf, 5, 4, ackNum);
      PutBigEndian(buf, 9, 2, window);
    }

    method FillData(buf: array<byte>)
      requires buf.Length == 23 + |data| && buf[buf.Length - 1] == 0
      requires buf[..20] == Header(Record())
      modifies buf
      ensures buf[..] == Raw(Record())
    {
      PutBigEndian(buf, 20, 2, |data| % 0x1_0000);
      assert buf[..22] == buf[..20] + buf[20..22];
      ghost var front := buf[..22];
      forall i | 0 <= i < |data| {
        buf[22 + i] := data[i];
      }
      assert buf[..22] == front && buf[22..22 + |data|] == data;
      assert buf[..] == buf[..22] + buf[22..22 + |data|] + [buf[buf.Length - 1]];
    }

    /** Recomputes the checksum over the whole datagram, with the field zeroed meanwhile and restored after. */
    method VerifyChecksum(d: seq<byte>) returns (ok: bool)
      modifies this`checksum
      ensures checksum == old(checksum)
      ensures ok <==> Checksum(d) == checksum
    {
      var original := checksum;
      checksum := 0;
      var calculated, _ := CalculateChecksum(d);
      checksum := original;
      ok := calculated == original;
    }
  }

  method DeserializePacket(d: seq<byte>, spare: seq<byte>) returns (r: Result<Packet>)
    ensures match Decode(d, spare)
            case Ok(p) => r.Ok? && fresh(r.value) && r.value.Record() == p
            case Err(e) => r == Err(e)
  {
    hide Parsed, FromBigEndian, Checksum, StoredChecksum;
    if |d| < 22 {
      return Err(TooShort);
    }
    if |d| + |spare| < 23 {
      return Err(Panicked);
    }
    var dataLen := FromBigEndian(d[20..22]);
    assert dataLen < 0x1_0000 by { TwoBytes(d[20..22]); }
    if dataLen > |d| - 22 {
      return Err(BadLength);
    }
    if (22 + dataLen) % 0x1_0000 < 22 {
      return Err(Panicked);
    }
    var p := new Packet(Parsed(d, spare, dataLen));
    var ok := p.VerifyChecksum(d);
    if !ok {
      return Err(ChecksumMismatch);
    }
    return Ok(p);
  }
}
