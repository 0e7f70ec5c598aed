/**
 * The WebSocket frame header of frame.hpp (section 5.2 of RFC 6455): the two-byte basic header, the extended
 * header of up to twelve bytes, the functions that build them and the functions that read them back.
 *
 * `_htonll`, `_ntohll` and `ntohs` are conversions between a number and its bytes in network order.
 */
module FrameHeader {
  import opened Wrappers
  import opened Masking

  const BASIC_HEADER_LENGTH := 2
  const MAX_HEADER_LENGTH := 14
  const MAX_EXTENDED_HEADER_LENGTH := 12

  const PAYLOAD_SIZE_BASIC := 125
  const PAYLOAD_SIZE_EXTENDED := 0xFFFF
  const PAYLOAD_SIZE_CODE_16BIT: bv8 := 0x7E
  const PAYLOAD_SIZE_CODE_64BIT: bv8 := 0x7F

  datatype BasicHeader = BasicHeader(b0: bv8, b1: bv8)

  datatype ExtendedHeader = ExtendedHeader(bytes: seq<bv8>) {
    predicate Valid() {
      |bytes| == MAX_EXTENDED_HEADER_LENGTH
    }
  }

  /** What a header says about its frame. */
  datatype Info = Info(fin: bool, rsv1: bool, rsv2: bool, rsv3: bool, opcode: bv8, size: UInt64, key: Option<Key>) {
    /** "WebSocket Opcodes are 4 bits." */
    predicate Valid() {
      opcode <= 0xF
    }
  }

  // ---------- numbers as bytes in network order ----------

  function ByteOf(n: nat): bv8
    requires n < 256
  {
    n as bv8
  }

  function NumberOf(b: bv8): (n: nat)
    ensures n < 256
  {
    b as nat
  }

  function NetworkOrder(n: nat, length: nat): (bytes: seq<bv8>)
    ensures |bytes| == length
  {
    if length == 0 then [] else NetworkOrder(n / 256, length - 1) + [ByteOf(n % 256)]
  }

  function FromNetworkOrder(bytes: seq<bv8>): nat {
    if bytes == [] then 0
    else FromNetworkOrder(bytes[..|bytes| - 1]) * 256 + NumberOf(bytes[|bytes| - 1])
  }

  lemma NumberOfByte(b: bv8)
    ensures NumberOf(b) == b as nat && ByteOf(NumberOf(b)) == b
  {
  }

  lemma ByteAgain(b: bv8)
    ensures ByteOf(NumberOf(b)) == b
  {
  }

  lemma NextByte(b: bv8)
    requires b as nat < 255
    ensures (b + 1) as nat == b as nat + 1
  {
  }

  /** Every number below 256 is the value of a byte, counting up from 0. */
  lemma {:induction false} ByteWithValue(n: nat) returns (b: bv8)
    requires n < 256
    ensures b as nat == n
  {
    b := 0;
    if n > 0 {
      var previous := ByteWithValue(n - 1);
      NextByte(previous);
      b := previous + 1;
    }
  }

  lemma ByteOfNumber(n: nat)
    requires n < 256
    ensures NumberOf(ByteOf(n)) == n
  {
    var b := ByteWithValue(n);
    NumberOfByte(b);
    assert ByteOf(n) == b;
  }

  lemma ByteOrder(b: bv8, c: bv8)
    ensures b <= c <==> b as nat <= c as nat
  {
  }

  function Range(length: nat): (p: nat)
    ensures p > 0
  {
    if length == 0 then 1 else Range(length - 1) * 256
  }

  lemma NetworkOrderStep(n: nat, length: nat)
    requires length > 0
    ensures NetworkOrder(n, length) == NetworkOrder(n / 256, length - 1) + [ByteOf(n % 256)]
    ensures Range(length) == Range(length - 1) * 256
  {
  }

  lemma FromNetworkOrderStep(front: seq<bv8>, last: bv8)
    ensures FromNetworkOrder(front + [last]) == FromNetworkOrder(front) * 256 + NumberOf(last)
  {
    assert (front + [last])[..|front|] == front;
  }

  lemma {:induction false} NumberRoundTrip(n: nat, length: nat)
    requires n < Range(length)
    ensures FromNetworkOrder(NetworkOrder(n, length)) == n
  {
    if length > 0 {
      hide *;
      NetworkOrderStep(n, length);
      HighPart(n, Range(length - 1));
      NumberRoundTrip(n / 256, length - 1);
      OneMoreDigit(n, length);
    }
  }

  lemma HighPart(n: nat, range: nat)
    requires n < range * 256
    ensures n / 256 < range
  {
  }

  lemma OneMoreDigit(n: nat, length: nat)
    requires length > 0 && FromNetworkOrder(NetworkOrder(n / 256, length - 1)) == n / 256
    ensures FromNetworkOrder(NetworkOrder(n, length)) == n
  {
    hide *;
    NetworkOrderStep(n, length);
    FromNetworkOrderStep(NetworkOrder(n / 256, length - 1), ByteOf(n % 256));
    ByteOfNumber(n % 256);
  }

  lemma {:induction false} BytesRoundTrip(bytes: seq<bv8>)
    ensures FromNetworkOrder(bytes) < Range(|bytes|)
    ensures NetworkOrder(FromNetworkOrder(bytes), |bytes|) == bytes
  {
    if bytes != [] {
      hide *;
      BytesRoundTrip(bytes[..|bytes| - 1]);
      OneMoreByte(bytes[..|bytes| - 1], bytes[|bytes| - 1]);
      assert bytes[..|bytes| - 1] + [bytes[|bytes| - 1]] == bytes;
    }
  }

  lemma OneMoreByte(front: seq<bv8>, last: bv8)
    requires FromNetworkOrder(front) < Range(|front|)
    requires NetworkOrder(FromNetworkOrder(front), |front|) == front
    ensures FromNetworkOrder(front + [last]) < Range(|front| + 1)
    ensures NetworkOrder(FromNetworkOrder(front + [last]), |front| + 1) == front + [last]
  {
    hide *;
    var n := FromNetworkOrder(front + [last]);
    FromNetworkOrderStep(front, last);
    LastDigit(FromNetworkOrder(front), NumberOf(last), Range(|front|));
    NetworkOrderStep(n, |front| + 1);
    ByteAgain(last);
  }

  /** Two bytes as a number, most significant first. */
  function Number16(w: seq<bv8>): nat
    requires |w| == 2
  {
    0x100 * NumberOf(w[0]) + NumberOf(w[1])
  }

  /** Four bytes as a number, most significant first. */
  function Number32(w: seq<bv8>): nat
    requires |w| == 4
  {
    0x100_0000 * NumberOf(w[0]) + 0x1_0000 * NumberOf(w[1]) + 0x100 * NumberOf(w[2]) + NumberOf(w[3])
  }

  /** Eight bytes as a number, most significant first. */
  function Number64(w: seq<bv8>): nat
    requires |w| == 8
  {
    0x1_0000_0000 * Number32(w[..4]) + Number32(w[4..])
  }

  lemma FrontByte(w: seq<bv8>, k: nat)
    requires k < |w|
    ensures FromNetworkOrder(w[..k + 1]) == FromNetworkOrder(w[..k]) * 256 + NumberOf(w[k])
    ensures FromNetworkOrder(w[..0]) == 0
  {
    FromNetworkOrderStep(w[..k], w[k]);
    assert w[..k] + [w[k]] == w[..k + 1];
  }

  lemma NetworkOrderIs16(w: seq<bv8>)
    requires |w| == 2
    ensures FromNetworkOrder(w) == Number16(w)
  {
    hide FromNetworkOrder, NumberOf;
    FrontByte(w, 0);
    FrontByte(w, 1);
    assert w[..2] == w;
  }

  lemma FourMoreBytes(w: seq<bv8>, k: nat)
    requires k + 4 <= |w|
    ensures FromNetworkOrder(w[..k + 4]) == 0x1_0000_0000 * FromNetworkOrder(w[..k]) + Number32(w[k..k + 4])
  {
    hide FromNetworkOrder, NumberOf;
    FrontByte(w, k);
    FrontByte(w, k + 1);
    FrontByte(w, k + 2);
    FrontByte(w, k + 3);
  }

  lemma NetworkOrderIs64(w: seq<bv8>)
    requires |w| == 8
    ensures FromNetworkOrder(w) == Number64(w)
  {
    hide FromNetworkOrder, NumberOf, Number32;
    FrontByte(w, 0);
    FourMoreBytes(w, 0);
    FourMoreBytes(w, 4);
    assert w[..8] == w && w[4..8] == w[4..];
  }

  lemma LastDigit(high: nat, low: nat, range: nat)
    requires low < 256 && high < range
    ensures (high * 256 + low) / 256 == high && (high * 256 + low) % 256 == low
    ensures high * 256 + low < range * 256
  {
  }

  /** The last bytes of a number are the bytes of the number written shorter. */
  lemma {:induction false} ShorterNumber(n: nat, length: nat, k: nat)
    requires k <= length
    ensures NetworkOrder(n, length)[length - k..] == NetworkOrder(n, k)
  {
    if k > 0 {
      ShorterNumber(n / 256, length - 1, k - 1);
    }
  }

  // ---------- building a header ----------

  function Bit(on: bool, mask: bv8): bv8 {
    if on then mask else 0
  }

  function SizeCode(size: nat): bv8 {
    if size <= PAYLOAD_SIZE_BASIC then size as bv8
    else if size <= PAYLOAD_SIZE_EXTENDED then PAYLOAD_SIZE_CODE_16BIT
    else PAYLOAD_SIZE_CODE_64BIT
  }

  function BasicOf(info: Info): BasicHeader {
    BasicHeader(
      Bit(info.fin, 0x80) | Bit(info.rsv1, 0x40) | Bit(info.rsv2, 0x20) | Bit(info.rsv3, 0x10) | (info.opcode & 0x0F),
      Bit(info.key.Some?, 0x80) | SizeCode(info.size))
  }

  /** Of the eight bytes of the size, how many `copy_payload` leaves out. */
  function PayloadOffset(size: nat): nat {
    if size <= PAYLOAD_SIZE_BASIC then 8 else if size <= PAYLOAD_SIZE_EXTENDED then 6 else 0
  }

  function Padded(bytes: seq<bv8>): (e: ExtendedHeader)
    requires |bytes| <= MAX_EXTENDED_HEADER_LENGTH
    ensures e.Valid()
  {
    ExtendedHeader(bytes + seq(MAX_EXTENDED_HEADER_LENGTH - |bytes|, _ => 0))
  }

  function SizeField(size: nat): seq<bv8> {
    NetworkOrder(size, 8)[PayloadOffset(size)..]
  }

  function KeyField(key: Option<Key>): seq<bv8> {
    if key.Some? then key.value else []
  }

  function ExtendedOf(info: Info): (e: ExtendedHeader)
    ensures e.Valid()
  {
    Padded(SizeField(info.size) + KeyField(info.key))
  }

  method BasicValue(size: UInt64) returns (value: bv8)
    ensures value == SizeCode(size)
  {
    if size <= PAYLOAD_SIZE_BASIC {
      value := size as bv8;
    } else if size <= PAYLOAD_SIZE_EXTENDED {
      value := PAYLOAD_SIZE_CODE_16BIT;
    } else {
      value := PAYLOAD_SIZE_CODE_64BIT;
    }
  }

  method MakeBasicHeader(op: bv8, size: UInt64, fin: bool, mask: bool, rsv1: bool, rsv2: bool, rsv3: bool) returns (h: BasicHeader)
    ensures forall key: Option<Key> :: key.Some? == mask ==> h == BasicOf(Info(fin, rsv1, rsv2, rsv3, op, size, key))
  {
    hide SizeCode;
    var b0: bv8, b1: bv8 := 0, 0;
    if fin {
      b0 := b0 | 0x80;
    }
    if rsv1 {
      b0 := b0 | 0x40;
    }
    if rsv2 {
      b0 := b0 | 0x20;
    }
    if rsv3 {
      b0 := b0 | 0x10;
    }
    b0 := b0 | (op & 0x0F);
    if mask {
      b1 := b1 | 0x80;
    }
    var basicValue := BasicValue(size);
    b1 := b1 | basicValue;
    h := BasicHeader(b0, b1);
  }

  /** `std::copy(from, from + |source|, target + at)` */
  method CopyBytes(source: seq<bv8>, target: array<bv8>, at: nat)
    requires at + |source| <= target.Length
    modifies target
    ensures target[..] == Patched(old(target[..]), at, source)
  {
    ghost var was := target[..];
    for i := 0 to |source|
      invariant Wrote(was, target, at, source, i)
    {
      target[at + i] := source[i];
    }
    AllWritten(was, target, at, source);
  }

  method CopyPayload(bytes: array<bv8>, payloadSize: UInt64) returns (written: nat)
    requires bytes.Length == MAX_EXTENDED_HEADER_LENGTH
    modifies bytes
    ensures written == |SizeField(payloadSize)| && bytes[..] == Patched(old(bytes[..]), 0, SizeField(payloadSize))
  {
    var payloadOffset := 0;
    if payloadSize <= PAYLOAD_SIZE_BASIC {
      payloadOffset := 8;
    } else if payloadSize <= PAYLOAD_SIZE_EXTENDED {
      payloadOffset := 6;
    }
    CopyBytes(NetworkOrder(payloadSize, 8)[payloadOffset..], bytes, 0);
    written := 8 - payloadOffset;
  }

  method MakeExtendedHeader(payloadSize: UInt64, maskingKey: Option<Key>) returns (e: ExtendedHeader)
    ensures e.Valid()
    ensures e.bytes == Padded(SizeField(payloadSize) + KeyField(maskingKey)).bytes
  {
    var bytes := new bv8[MAX_EXTENDED_HEADER_LENGTH](_ => 0);
    assert bytes[..] == Blank();
    hide Blank, SizeField, Patched;
    var offset := CopyPayload(bytes, payloadSize);
    if maskingKey.Some? {
      CopyBytes(maskingKey.value, bytes, offset);
    }
    FilledHeader(payloadSize, maskingKey, bytes[..]);
    e := ExtendedHeader(bytes[..]);
  }

  function Blank(): (bytes: seq<bv8>)
    ensures |bytes| == MAX_EXTENDED_HEADER_LENGTH
  {
    seq(MAX_EXTENDED_HEADER_LENGTH, _ => 0)
  }

  lemma FilledHeader(size: nat, key: Option<Key>, bytes: seq<bv8>)
    requires var sized := Patched(Blank(), 0, SizeField(size));
             bytes == if key.Some? then Patched(sized, |SizeField(size)|, key.value) else sized
    ensures bytes == Padded(SizeField(size) + KeyField(key)).bytes
  {
  }

  // ---------- reading a header ----------

  predicate GetFin(h: BasicHeader) {
    h.b0 & 0x80 == 0x80
  }

  predicate GetRsv1(h: BasicHeader) {
    h.b0 & 0x40 == 0x40
  }

  predicate GetRsv2(h: BasicHeader) {
    h.b0 & 0x20 == 0x20
  }

  predicate GetRsv3(h: BasicHeader) {
    h.b0 & 0x10 == 0x10
  }

  function GetOpcode(h: BasicHeader): bv8 {
    h.b0 & 0x0F
  }

  predicate GetMasked(h: BasicHeader) {
    h.b1 & 0x80 == 0x80
  }

  function GetBasicSize(h: BasicHeader): bv8 {
    h.b1 & 0x7F
  }

  function GetMaskingKeyOffset(h: BasicHeader): (n: nat)
    ensures n <= 8
  {
    if GetBasicSize(h) == PAYLOAD_SIZE_CODE_16BIT then 2
    else if GetBasicSize(h) == PAYLOAD_SIZE_CODE_64BIT then 8
    else 0
  }

  function GetHeaderLen(h: BasicHeader): (n: nat)
    ensures BASIC_HEADER_LENGTH <= n <= MAX_HEADER_LENGTH
  {
    BASIC_HEADER_LENGTH + GetMaskingKeyOffset(h) + if GetMasked(h) then 4 else 0
  }

  function PrepareHeader(h: BasicHeader, e: ExtendedHeader): seq<bv8>
    requires e.Valid()
  {
    [h.b0, h.b1] + e.bytes[..GetHeaderLen(h) - BASIC_HEADER_LENGTH]
  }

  function GetMaskingKey(h: BasicHeader, e: ExtendedHeader): Key
    requires e.Valid()
  {
    if !GetMasked(h) then [0, 0, 0, 0]
    else e.bytes[GetMaskingKeyOffset(h)..GetMaskingKeyOffset(h) + 4]
  }

  function GetExtendedSize(e: ExtendedHeader): nat
    requires e.Valid()
  {
    FromNetworkOrder(e.bytes[..2])
  }

  function GetJumboSize(e: ExtendedHeader): nat
    requires e.Valid()
  {
    FromNetworkOrder(e.bytes[..8])
  }

  function GetPayloadSize(h: BasicHeader, e: ExtendedHeader): nat
    requires e.Valid()
  {
    var val := GetBasicSize(h);
    if val <= 125 then val as nat
    else if val == PAYLOAD_SIZE_CODE_16BIT then GetExtendedSize(e)
    else GetJumboSize(e)
  }

  // ---------- the two agree ----------

  lemma FlagBits(fin: bool, rsv1: bool, rsv2: bool, rsv3: bool, opcode: bv8)
    ensures var b := Bit(fin, 0x80) | Bit(rsv1, 0x40) | Bit(rsv2, 0x20) | Bit(rsv3, 0x10) | (opcode & 0x0F);
            && (b & 0x80 == 0x80) == fin && (b & 0x40 == 0x40) == rsv1
            && (b & 0x20 == 0x20) == rsv2 && (b & 0x10 == 0x10) == rsv3
            && b & 0x0F == opcode & 0x0F
  {
  }

  lemma FlagBitsBack(b: bv8)
    ensures Bit(b & 0x80 == 0x80, 0x80) | Bit(b & 0x40 == 0x40, 0x40) | Bit(b & 0x20 == 0x20, 0x20)
          | Bit(b & 0x10 == 0x10, 0x10) | ((b & 0x0F) & 0x0F) == b
    ensures b & 0x0F <= 0xF
  {
  }

  /** The two header bytes in figures: section 5.2 of RFC 6455. */
  lemma HeaderBytesInFigures(info: Info)
    requires info.Valid()
    ensures BasicOf(info).b0 == (if info.fin then 128 else 0) + (if info.rsv1 then 64 else 0) + (if info.rsv2 then 32 else 0)
                                + (if info.rsv3 then 16 else 0) + info.opcode
    ensures BasicOf(info).b1 == (if info.key.Some? then 128 else 0) + BasicOf(info).b1 % 128
    ensures NumberOf(BasicOf(info).b1 % 128) == if info.size <= 125 then info.size else if info.size <= 65535 then 126 else 127
  {
    FlagsAdd(info.fin, info.rsv1, info.rsv2, info.rsv3, info.opcode);
    SizeCodes(info.size);
    MaskAdds(info.key.Some?, SizeCode(info.size));
    SizeCodeNumber(info.size);
    hide SizeCode, Bit, NumberOf;
  }

  lemma SizeCodeNumber(size: nat)
    ensures NumberOf(SizeCode(size)) == if size <= 125 then size else if size <= 65535 then 126 else 127
  {
    if size <= PAYLOAD_SIZE_BASIC {
      SmallSize(size);
    }
  }

  lemma FlagsAdd(fin: bool, rsv1: bool, rsv2: bool, rsv3: bool, opcode: bv8)
    requires opcode <= 0xF
    ensures Bit(fin, 0x80) | Bit(rsv1, 0x40) | Bit(rsv2, 0x20) | Bit(rsv3, 0x10) | (opcode & 0x0F)
         == (if fin then 128 else 0) + (if rsv1 then 64 else 0) + (if rsv2 then 32 else 0) + (if rsv3 then 16 else 0) + opcode
  {
  }

  lemma MaskAdds(mask: bool, code: bv8)
    requires code <= 0x7F
    ensures var b := Bit(mask, 0x80) | code;
            b % 128 == code && b == (if mask then 128 else 0) + code
  {
  }

  lemma FourBits(opcode: bv8)
    requires opcode <= 0xF
    ensures opcode & 0x0F == opcode
  {
  }

  lemma MaskBit(mask: bool, code: bv8)
    requires code <= 0x7F
    ensures var b := Bit(mask, 0x80) | code;
            (b & 0x80 == 0x80) == mask && b & 0x7F == code
  {
  }

  lemma MaskBitBack(b: bv8)
    ensures Bit(b & 0x80 == 0x80, 0x80) | (b & 0x7F) == b && b & 0x7F <= 0x7F
  {
  }

  lemma SmallSize(size: nat)
    requires size <= PAYLOAD_SIZE_BASIC
    ensures (size as bv8) <= 125 && (size as bv8) as nat == size
  {
    ByteOfNumber(size);
    ByteOrder(size as bv8, 125);
  }

  lemma SizeCodes(size: nat)
    ensures SizeCode(size) <= 0x7F
    ensures SizeCode(size) <= 125 <==> size <= PAYLOAD_SIZE_BASIC
    ensures SizeCode(size) == 0x7E <==> PAYLOAD_SIZE_BASIC < size <= PAYLOAD_SIZE_EXTENDED
    ensures SizeCode(size) == 0x7F <==> PAYLOAD_SIZE_EXTENDED < size
  {
    if size <= PAYLOAD_SIZE_BASIC {
      SmallSize(size);
    }
  }

  /** The start of the extended header is the size field, then the key. */
  lemma ExtendedFields(info: Info)
    ensures var e, sized := ExtendedOf(info).bytes, |SizeField(info.size)|;
            && sized == 8 - PayloadOffset(info.size)
            && e[..sized] == SizeField(info.size)
            && (info.key.Some? ==> e[sized..sized + 4] == info.key.value)
            && e[..sized + |KeyField(info.key)|] == SizeField(info.size) + KeyField(info.key)
  {
  }

  lemma SizeFieldValue(size: UInt64)
    ensures size <= PAYLOAD_SIZE_BASIC ==> SizeField(size) == []
    ensures PAYLOAD_SIZE_BASIC < size <= PAYLOAD_SIZE_EXTENDED ==> |SizeField(size)| == 2 && FromNetworkOrder(SizeField(size)) == size
    ensures PAYLOAD_SIZE_EXTENDED < size ==> |SizeField(size)| == 8 && FromNetworkOrder(SizeField(size)) == size
  {
    assert Range(2) == 0x10000;
    assert Range(8) == 0x1_0000_0000_0000_0000 by { assert Range(4) == 0x1_0000_0000; }
    ShorterNumber(size, 8, 8 - PayloadOffset(size));
    if size <= PAYLOAD_SIZE_EXTENDED {
      NumberRoundTrip(size, 2);
    }
    NumberRoundTrip(size, 8);
  }

  lemma BasicGetters(info: Info)
    requires info.Valid()
    ensures var h := BasicOf(info);
            && GetFin(h) == info.fin && GetRsv1(h) == info.rsv1 && GetRsv2(h) == info.rsv2 && GetRsv3(h) == info.rsv3
            && GetOpcode(h) == info.opcode
            && GetMasked(h) == info.key.Some?
            && GetBasicSize(h) == SizeCode(info.size)
            && GetMaskingKeyOffset(h) == |SizeField(info.size)|
            && GetHeaderLen(h) == 2 + |SizeField(info.size)| + |KeyField(info.key)|
  {
    FlagBits(info.fin, info.rsv1, info.rsv2, info.rsv3, info.opcode);
    FourBits(info.opcode);
    SizeCodes(info.size);
    MaskBit(info.key.Some?, SizeCode(info.size));
    SizeFieldLength(info.size);
    hide SizeCode, Bit, SizeField, PayloadOffset;
  }

  lemma SizeFieldLength(size: nat)
    ensures |SizeField(size)| == if size <= PAYLOAD_SIZE_BASIC then 0 else if size <= PAYLOAD_SIZE_EXTENDED then 2 else 8
  {
  }

  lemma SizeGetter(info: Info)
    requires info.Valid()
    ensures GetPayloadSize(BasicOf(info), ExtendedOf(info)) == info.size
  {
    BasicGetters(info);
    SizeCodes(info.size);
    SizeFieldValue(info.size);
    ExtendedFields(info);
    if info.size <= PAYLOAD_SIZE_BASIC {
      SmallSize(info.size);
    }
    hide BasicOf, ExtendedOf, GetBasicSize;
  }

  /** Every getter returns what the header was built from. */
  lemma HeaderRoundTrip(info: Info)
    requires info.Valid()
    ensures var h, e := BasicOf(info), ExtendedOf(info);
            && GetFin(h) == info.fin && GetRsv1(h) == info.rsv1 && GetRsv2(h) == info.rsv2 && GetRsv3(h) == info.rsv3
            && GetOpcode(h) == info.opcode
            && GetMasked(h) == info.key.Some?
            && GetPayloadSize(h, e) == info.size
            && GetMaskingKey(h, e) == (if info.key.Some? then info.key.value else [0, 0, 0, 0])
    ensures PrepareHeader(BasicOf(info), ExtendedOf(info))
         == [BasicOf(info).b0, BasicOf(info).b1] + SizeField(info.size) + KeyField(info.key)
    ensures |PrepareHeader(BasicOf(info), ExtendedOf(info))| == GetHeaderLen(BasicOf(info))
  {
    hide *;
    BasicGetters(info);
    SizeGetter(info);
    KeyGetter(info);
    PreparedBytes(info);
  }

  lemma KeyGetter(info: Info)
    requires info.Valid()
    ensures GetMaskingKey(BasicOf(info), ExtendedOf(info)) == if info.key.Some? then info.key.value else [0, 0, 0, 0]
  {
    BasicGetters(info);
    ExtendedFields(info);
    hide BasicOf, ExtendedOf, SizeField, GetMaskingKeyOffset, GetMasked;
  }

  lemma PreparedBytes(info: Info)
    requires info.Valid()
    ensures var h, e := BasicOf(info), ExtendedOf(info);
            && PrepareHeader(h, e) == [h.b0, h.b1] + SizeField(info.size) + KeyField(info.key)
            && |PrepareHeader(h, e)| == GetHeaderLen(h)
  {
    BasicGetters(info);
    ExtendedFields(info);
    hide BasicOf, ExtendedOf, SizeField, KeyField, GetHeaderLen;
  }

  /** What the getters read from any basic header and the bytes behind it. */
  function InfoOf(h: BasicHeader, e: ExtendedHeader): Info
    requires e.Valid()
  {
    SizeInRange(h, e);
    Info(GetFin(h), GetRsv1(h), GetRsv2(h), GetRsv3(h), GetOpcode(h), GetPayloadSize(h, e),
         if GetMasked(h) then Some(GetMaskingKey(h, e)) else None)
  }

  lemma SizeInRange(h: BasicHeader, e: ExtendedHeader)
    requires e.Valid()
    ensures GetPayloadSize(h, e) < 0x1_0000_0000_0000_0000
    ensures GetMaskingKeyOffset(h) == 0 <==> GetBasicSize(h) <= 125
    ensures GetMaskingKeyOffset(h) == 0 ==> GetPayloadSize(h, e) <= PAYLOAD_SIZE_BASIC
    ensures GetMaskingKeyOffset(h) == 2 ==> GetPayloadSize(h, e) <= PAYLOAD_SIZE_EXTENDED
  {
    ByteOrder(GetBasicSize(h), 125);
    SevenBits(GetBasicSize(h), h.b1);
    BytesRoundTrip(e.bytes[..2]);
    BytesRoundTrip(e.bytes[..8]);
    assert Range(2) == 0x10000;
    assert Range(8) == 0x1_0000_0000_0000_0000 by { assert Range(4) == 0x1_0000_0000; }
  }

  lemma SevenBits(code: bv8, b: bv8)
    requires code == b & 0x7F
    ensures code <= 125 || code == 0x7E || code == 0x7F
  {
  }

  /** The header built is never longer than any other header that says the same ("the minimal number of bytes"). */
  lemma HeaderIsShortest(info: Info, h: BasicHeader, e: ExtendedHeader)
    requires info.Valid() && e.Valid() && InfoOf(h, e) == info
    ensures GetHeaderLen(BasicOf(info)) <= GetHeaderLen(h)
  {
    HeaderRoundTrip(info);
    SizeCodes(info.size);
    MaskBit(info.key.Some?, SizeCode(info.size));
    SizeInRange(h, e);
  }

  /** The length form a header uses is the one its size calls for. */
  predicate MinimalLength(h: BasicHeader, e: ExtendedHeader)
    requires e.Valid()
  {
    && (GetBasicSize(h) == PAYLOAD_SIZE_CODE_16BIT ==> GetPayloadSize(h, e) > PAYLOAD_SIZE_BASIC)
    && (GetBasicSize(h) == PAYLOAD_SIZE_CODE_64BIT ==> GetPayloadSize(h, e) > PAYLOAD_SIZE_EXTENDED)
  }

  lemma SizeCodeBack(h: BasicHeader, e: ExtendedHeader)
    requires e.Valid()
    ensures SizeCode(GetPayloadSize(h, e)) == GetBasicSize(h) <==> MinimalLength(h, e)
  {
    SizeInRange(h, e);
    SevenBits(GetBasicSize(h), h.b1);
    NumberOfByte(GetBasicSize(h));
    ByteOrder(GetBasicSize(h), 125);
    SizeCodes(GetPayloadSize(h, e));
  }

  lemma SizeFieldBack(h: BasicHeader, e: ExtendedHeader)
    requires e.Valid() && MinimalLength(h, e)
    ensures SizeField(GetPayloadSize(h, e)) == e.bytes[..GetMaskingKeyOffset(h)]
  {
    var size := GetPayloadSize(h, e);
    SizeInRange(h, e);
    SevenBits(GetBasicSize(h), h.b1);
    ShorterNumber(size, 8, 8 - PayloadOffset(size));
    BytesRoundTrip(e.bytes[..2]);
    BytesRoundTrip(e.bytes[..8]);
  }

  lemma BasicBack(h: BasicHeader, e: ExtendedHeader)
    requires e.Valid() && MinimalLength(h, e)
    ensures BasicOf(InfoOf(h, e)) == h
  {
    hide SizeCode, MinimalLength, GetPayloadSize, GetMaskingKey;
    FlagBitsBack(h.b0);
    MaskBitBack(h.b1);
    SizeCodeBack(h, e);
  }

  lemma InfoValid(h: BasicHeader, e: ExtendedHeader)
    requires e.Valid()
    ensures InfoOf(h, e).Valid()
  {
    FlagBitsBack(h.b0);
  }

  /** The bytes of any header: the two basic ones, the size field and the key. */
  lemma HeaderParts(h: BasicHeader, e: ExtendedHeader)
    requires e.Valid()
    ensures PrepareHeader(h, e) == [h.b0, h.b1] + e.bytes[..GetMaskingKeyOffset(h)] + KeyField(InfoOf(h, e).key)
  {
    var at := GetMaskingKeyOffset(h);
    hide GetMaskingKeyOffset, GetPayloadSize;
    if GetMasked(h) {
      assert e.bytes[..at] + e.bytes[at..at + 4] == e.bytes[..at + 4];
    }
  }

  lemma SameSize(h: BasicHeader, e: ExtendedHeader)
    requires e.Valid()
    ensures InfoOf(h, e).size == GetPayloadSize(h, e)
  {
  }

  lemma MinimalIsRebuilt(h: BasicHeader, e: ExtendedHeader)
    requires e.Valid() && MinimalLength(h, e)
    ensures PrepareHeader(BasicOf(InfoOf(h, e)), ExtendedOf(InfoOf(h, e))) == PrepareHeader(h, e)
  {
    hide *;
    InfoValid(h, e);
    BasicBack(h, e);
    HeaderRoundTrip(InfoOf(h, e));
    SameSize(h, e);
    SizeFieldBack(h, e);
    HeaderParts(h, e);
  }

  lemma RebuiltIsMinimal(h: BasicHeader, e: ExtendedHeader)
    requires e.Valid()
    requires PrepareHeader(BasicOf(InfoOf(h, e)), ExtendedOf(InfoOf(h, e))) == PrepareHeader(h, e)
    ensures MinimalLength(h, e)
  {
    var info := InfoOf(h, e);
    InfoValid(h, e);
    BasicGetters(info);
    SizeCodeBack(h, e);
    var ours, theirs := PrepareHeader(BasicOf(info), ExtendedOf(info)), PrepareHeader(h, e);
    assert ours[1] == BasicOf(info).b1 && theirs[1] == h.b1;
    hide BasicOf, ExtendedOf, SizeField, MinimalLength, GetPayloadSize, SizeCode;
  }

  /** Reading a header and building it again gives the same bytes exactly when its length form was minimal. */
  lemma RebuiltIffMinimal(h: BasicHeader, e: ExtendedHeader)
    requires e.Valid()
    ensures PrepareHeader(BasicOf(InfoOf(h, e)), ExtendedOf(InfoOf(h, e))) == PrepareHeader(h, e) <==> MinimalLength(h, e)
  {
    hide MinimalLength, BasicOf, ExtendedOf, InfoOf, PrepareHeader;
    if MinimalLength(h, e) {
      MinimalIsRebuilt(h, e);
    }
    if PrepareHeader(BasicOf(InfoOf(h, e)), ExtendedOf(InfoOf(h, e))) == PrepareHeader(h, e) {
      RebuiltIsMinimal(h, e);
    }
  }
}
