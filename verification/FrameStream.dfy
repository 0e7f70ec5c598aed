/**
 * A byte stream of WebSocket frames. The writer puts a prepared header before each (masked) payload; the reader
 * uses only what the getters of frame.hpp say about the bytes received so far. The message processor that calls
 * them is not part of this model: the reader below is the loop the getters are documented for.
 */
module FrameStream {
  import opened Wrappers
  import opened Masking
  import opened FrameHeader

  datatype Frame = Frame(fin: bool, rsv1: bool, rsv2: bool, rsv3: bool, opcode: bv8, key: Option<Key>, payload: seq<bv8>) {
    predicate Valid() {
      opcode <= 0xF && |payload| < 0x1_0000_0000_0000_0000
    }

    function Header(): Info
      requires Valid()
    {
      Info(fin, rsv1, rsv2, rsv3, opcode, |payload|, key)
    }
  }

  function MaskedUnder(key: Option<Key>, data: seq<bv8>): (r: seq<bv8>)
    ensures |r| == |data|
  {
    if key.Some? then Masked(data, key.value, 0) else data
  }

  function HeaderBytes(info: Info): seq<bv8> {
    PrepareHeader(BasicOf(info), ExtendedOf(info))
  }

  function WriteFrame(f: Frame): seq<bv8>
    requires f.Valid()
  {
    HeaderBytes(f.Header()) + MaskedUnder(f.key, f.payload)
  }

  function WriteAll(frames: seq<Frame>): seq<bv8>
    requires forall f :: f in frames ==> f.Valid()
  {
    if frames == [] then [] else WriteFrame(frames[0]) + WriteAll(frames[1..])
  }

  datatype ReadResult = Incomplete | Complete(frame: Frame, rest: seq<bv8>)

  /** The two header parts at the front of the wire; needs the whole header to have arrived. */
  function Front(wire: seq<bv8>): (r: (BasicHeader, ExtendedHeader))
    requires |wire| >= 2 && |wire| >= GetHeaderLen(BasicHeader(wire[0], wire[1]))
    ensures r.1.Valid()
  {
    var h := BasicHeader(wire[0], wire[1]);
    (h, Padded(wire[2..GetHeaderLen(h)]))
  }

  predicate HasHeader(wire: seq<bv8>) {
    |wire| >= 2 && |wire| >= GetHeaderLen(BasicHeader(wire[0], wire[1]))
  }

  function ReadFrame(wire: seq<bv8>): (r: ReadResult)
    ensures r.Complete? ==> r.frame.Valid() && |r.rest| < |wire|
  {
    if !HasHeader(wire) then Incomplete
    else
      var (h, e) := Front(wire);
      var info := InfoOf(h, e);
      var start := GetHeaderLen(h);
      InfoValid(h, e);
      if |wire| < start + info.size then Incomplete
      else
        Complete(Frame(info.fin, info.rsv1, info.rsv2, info.rsv3, info.opcode, info.key,
                       MaskedUnder(info.key, wire[start..start + info.size])),
                 wire[start + info.size..])
  }

  function ReadAll(wire: seq<bv8>): (r: (seq<Frame>, seq<bv8>))
    ensures forall f :: f in r.0 ==> f.Valid()
    decreases |wire|
  {
    match ReadFrame(wire)
    case Incomplete => ([], wire)
    case Complete(frame, rest) =>
      var (frames, left) := ReadAll(rest);
      ([frame] + frames, left)
  }

  lemma MaskedUnderTwice(key: Option<Key>, data: seq<bv8>)
    ensures MaskedUnder(key, MaskedUnder(key, data)) == data
  {
  }

  /** However the wire continues, its front is the header that was written. */
  lemma FrontOfHeader(info: Info, tail: seq<bv8>)
    requires info.Valid()
    ensures var wire := HeaderBytes(info) + tail;
            && HasHeader(wire)
            && Front(wire).0 == BasicOf(info)
            && InfoOf(Front(wire).0, Front(wire).1) == info
            && GetHeaderLen(BasicOf(info)) == |HeaderBytes(info)|
  {
    var wire := HeaderBytes(info) + tail;
    var h, e := BasicOf(info), ExtendedOf(info);
    HeaderRoundTrip(info);
    BasicGetters(info);
    ExtendedFields(info);
    assert wire[0] == h.b0 && wire[1] == h.b1;
    assert BasicHeader(wire[0], wire[1]) == h;
    assert wire[2..GetHeaderLen(h)] == SizeField(info.size) + KeyField(info.key);
    assert Front(wire).1 == e;
  }

  // One step of each definition, for proofs that hide the bodies.

  lemma WriteAllUnfolds(frames: seq<Frame>)
    requires forall f :: f in frames ==> f.Valid()
    ensures WriteAll(frames) == if frames == [] then [] else WriteFrame(frames[0]) + WriteAll(frames[1..])
  {
  }

  lemma ReadAllUnfolds(wire: seq<bv8>)
    ensures match ReadFrame(wire)
            case Incomplete => ReadAll(wire) == ([], wire)
            case Complete(frame, rest) => |rest| < |wire| && ReadAll(wire) == ([frame] + ReadAll(rest).0, ReadAll(rest).1)
  {
  }

  function FrameFrom(info: Info, body: seq<bv8>): Frame {
    Frame(info.fin, info.rsv1, info.rsv2, info.rsv3, info.opcode, info.key, MaskedUnder(info.key, body))
  }

  lemma ReadFrameUnfolds(wire: seq<bv8>)
    ensures ReadFrame(wire).Complete? ==> HasHeader(wire)
    ensures HasHeader(wire) ==>
              var (h, e) := Front(wire);
              var end := GetHeaderLen(h) + InfoOf(h, e).size;
              ReadFrame(wire) == if |wire| < end then Incomplete
                                 else Complete(FrameFrom(InfoOf(h, e), wire[GetHeaderLen(h)..end]), wire[end..])
  {
  }

  lemma WriteFrameUnfolds(f: Frame)
    requires f.Valid()
    ensures WriteFrame(f) == HeaderBytes(f.Header()) + MaskedUnder(f.key, f.payload)
    ensures f.Header().Valid() && f.Header().size == |f.payload|
    ensures FrameFrom(f.Header(), MaskedUnder(f.key, f.payload)) == f
  {
    MaskedUnderTwice(f.key, f.payload);
    hide MaskedUnder, HeaderBytes;
  }

  /** A written frame is read back, and exactly its bytes are consumed. */
  lemma ReadsBack(f: Frame, tail: seq<bv8>)
    requires f.Valid()
    ensures ReadFrame(WriteFrame(f) + tail) == Complete(f, tail)
  {
    hide *;
    WriteFrameUnfolds(f);
    var head, masked := HeaderBytes(f.Header()), MaskedUnder(f.key, f.payload);
    var wire := WriteFrame(f) + tail;
    assert wire == head + (masked + tail);
    assert wire[|head|..|head| + |masked|] == masked && wire[|head| + |masked|..] == tail;
    FrontOfHeader(f.Header(), masked + tail);
    ReadFrameUnfolds(wire);
  }

  // ---------- the frame as it stands on the wire ----------

  /** How many bytes hold the size, by the second byte of the frame (section 5.2 of RFC 6455). */
  function SizeBytes(b1: bv8): nat {
    if b1 & 0x7F == 126 then 2 else if b1 & 0x7F == 127 then 8 else 0
  }

  function PayloadStart(b1: bv8): (n: nat)
    ensures n >= 2 + SizeBytes(b1)
  {
    2 + SizeBytes(b1) + if b1 & 0x80 == 0x80 then 4 else 0
  }

  function SizeOn(wire: seq<bv8>): nat
    requires |wire| >= 2 && |wire| >= 2 + SizeBytes(wire[1])
  {
    if wire[1] & 0x7F == 126 then Number16(wire[2..4])
    else if wire[1] & 0x7F == 127 then Number64(wire[2..10])
    else NumberOf(wire[1] & 0x7F)
  }

  /** A whole frame has arrived. */
  predicate Whole(wire: seq<bv8>) {
    && |wire| >= 2 && |wire| >= PayloadStart(wire[1])
    && |wire| >= PayloadStart(wire[1]) + SizeOn(wire)
  }

  predicate FlagsStand(wire: seq<bv8>, f: Frame)
    requires |wire| >= 2
  {
    && f.fin == (wire[0] & 0x80 == 0x80) && f.rsv1 == (wire[0] & 0x40 == 0x40)
    && f.rsv2 == (wire[0] & 0x20 == 0x20) && f.rsv3 == (wire[0] & 0x10 == 0x10)
    && f.opcode == wire[0] & 0x0F
  }

  predicate KeyStands(wire: seq<bv8>, key: Option<Key>)
    requires Whole(wire)
  {
    var at := 2 + SizeBytes(wire[1]);
    if wire[1] & 0x80 == 0x80 then key == Some(wire[at..at + 4]) else key == None
  }

  /** Byte i of the payload is the byte on the wire, combined with byte i mod 4 of the key in front of it if there is one. */
  predicate ByteStands(wire: seq<bv8>, i: nat, b: bv8)
    requires Whole(wire) && i < SizeOn(wire)
  {
    var at, start := 2 + SizeBytes(wire[1]), PayloadStart(wire[1]);
    b == if wire[1] & 0x80 == 0x80 then wire[start + i] ^ wire[at + i % 4] else wire[start + i]
  }

  predicate PayloadStands(wire: seq<bv8>, payload: seq<bv8>)
    requires Whole(wire)
  {
    && |payload| == SizeOn(wire)
    && (forall i :: 0 <= i < |payload| ==> ByteStands(wire, i, payload[i]))
  }

  lemma FrontStands(wire: seq<bv8>)
    ensures HasHeader(wire) <==> |wire| >= 2 && |wire| >= PayloadStart(wire[1])
    ensures HasHeader(wire) ==> GetHeaderLen(Front(wire).0) == PayloadStart(wire[1])
    ensures HasHeader(wire) ==> Front(wire).0 == BasicHeader(wire[0], wire[1])
  {
  }

  lemma SizeStands(wire: seq<bv8>)
    requires HasHeader(wire)
    ensures |wire| >= 2 + SizeBytes(wire[1])
    ensures InfoOf(Front(wire).0, Front(wire).1).size == SizeOn(wire)
  {
    FrontSize(wire);
    hide *;
    var (h, e) := Front(wire);
    PayloadSizeCases(h, e);
    SizeOnCases(wire);
    if wire[1] & 0x7F == 126 {
      NetworkOrderIs16(wire[2..4]);
    } else if wire[1] & 0x7F == 127 {
      NetworkOrderIs64(wire[2..10]);
    }
  }

  lemma FrontSize(wire: seq<bv8>)
    requires HasHeader(wire)
    ensures |wire| >= 2 + SizeBytes(wire[1]) && |wire| >= 2
    ensures var (h, e) := Front(wire);
            && e.Valid() && h.b1 == wire[1] && InfoOf(h, e).size == GetPayloadSize(h, e)
            && (wire[1] & 0x7F == 126 ==> |wire| >= 4 && e.bytes[..2] == wire[2..4])
            && (wire[1] & 0x7F == 127 ==> |wire| >= 10 && e.bytes[..8] == wire[2..10])
  {
    hide GetPayloadSize, GetMaskingKey;
  }

  lemma PayloadSizeCases(h: BasicHeader, e: ExtendedHeader)
    requires e.Valid()
    ensures h.b1 & 0x7F == 126 ==> GetPayloadSize(h, e) == FromNetworkOrder(e.bytes[..2])
    ensures h.b1 & 0x7F == 127 ==> GetPayloadSize(h, e) == FromNetworkOrder(e.bytes[..8])
    ensures h.b1 & 0x7F != 126 && h.b1 & 0x7F != 127 ==> GetPayloadSize(h, e) == NumberOf(h.b1 & 0x7F)
  {
    SevenBits(h.b1 & 0x7F, h.b1);
    NumberOfByte(h.b1 & 0x7F);
    hide FromNetworkOrder, NumberOf;
  }

  lemma SizeOnCases(wire: seq<bv8>)
    requires |wire| >= 2 && |wire| >= 2 + SizeBytes(wire[1])
    ensures wire[1] & 0x7F == 126 ==> |wire| >= 4 && SizeOn(wire) == Number16(wire[2..4])
    ensures wire[1] & 0x7F == 127 ==> |wire| >= 10 && SizeOn(wire) == Number64(wire[2..10])
    ensures wire[1] & 0x7F != 126 && wire[1] & 0x7F != 127 ==> SizeOn(wire) == NumberOf(wire[1] & 0x7F)
  {
    hide Number16, Number64, NumberOf;
  }

  lemma KeyIsRead(wire: seq<bv8>)
    requires Whole(wire) && HasHeader(wire)
    ensures KeyStands(wire, InfoOf(Front(wire).0, Front(wire).1).key)
  {
    var (h, e) := Front(wire);
    var at := SizeBytes(wire[1]);
    if GetMasked(h) {
      assert e.bytes[at..at + 4] == wire[2 + at..2 + at + 4];
    }
    hide FromNetworkOrder, Number16, Number64, NumberOf, SizeOn;
  }

  lemma PayloadIsRead(wire: seq<bv8>, key: Option<Key>)
    requires Whole(wire) && KeyStands(wire, key)
    ensures var start := PayloadStart(wire[1]);
            PayloadStands(wire, MaskedUnder(key, wire[start..start + SizeOn(wire)]))
  {
    hide SizeOn, PayloadStart, MaskedUnder, KeyStands, ByteStands;
    var payload := MaskedUnder(key, wire[PayloadStart(wire[1])..PayloadStart(wire[1]) + SizeOn(wire)]);
    forall i | 0 <= i < |payload|
      ensures ByteStands(wire, i, payload[i])
    {
      ByteIsRead(wire, key, i);
    }
  }

  lemma ByteIsRead(wire: seq<bv8>, key: Option<Key>, i: nat)
    requires Whole(wire) && KeyStands(wire, key) && i < SizeOn(wire)
    ensures ByteStands(wire, i, MaskedUnder(key, wire[PayloadStart(wire[1])..PayloadStart(wire[1]) + SizeOn(wire)])[i])
  {
    hide SizeOn, SizeBytes, NumberOf, Masked;
    var at, start := 2 + SizeBytes(wire[1]), PayloadStart(wire[1]);
    var data := wire[start..start + SizeOn(wire)];
    assert data[i] == wire[start + i];
    if key.Some? {
      MaskedAt(data, key.value, i);
      assert key.value[i % 4] == wire[at + i % 4];
    }
  }

  lemma MaskedAt(data: seq<bv8>, key: Key, i: nat)
    requires i < |data|
    ensures Masked(data, key, 0)[i] == data[i] ^ key[i % 4]
  {
    assert KeyIndex(0 + i) == i % 4;
  }

  /** What the reader returns, in terms of the bytes alone: it needs exactly the whole frame, takes every field from its
      place, and leaves the bytes behind the frame. */
  lemma ReadsWhatStands(wire: seq<bv8>)
    ensures ReadFrame(wire).Complete? <==> Whole(wire)
    ensures Whole(wire) ==>
              var (f, rest) := (ReadFrame(wire).frame, ReadFrame(wire).rest);
              && FlagsStand(wire, f) && KeyStands(wire, f.key) && PayloadStands(wire, f.payload)
              && rest == wire[PayloadStart(wire[1]) + SizeOn(wire)..]
  {
    FrontStands(wire);
    ReadFrameUnfolds(wire);
    hide ReadFrame, HasHeader, Front, GetHeaderLen, MaskedUnder, PayloadStands, KeyStands, SizeOn, SizeBytes, PayloadStart;
    if HasHeader(wire) {
      SizeStands(wire);
      if Whole(wire) {
        KeyIsRead(wire);
        PayloadIsRead(wire, InfoOf(Front(wire).0, Front(wire).1).key);
        hide GetPayloadSize, GetMaskingKey, GetMasked;
      }
    }
  }

  /** What the writer puts on the wire: nothing but the frame, its payload combined with the key it carries, its size in
      the shortest form. */
  lemma WritesWhatStands(f: Frame)
    requires f.Valid()
    ensures var wire := WriteFrame(f);
            && Whole(wire) && |wire| == PayloadStart(wire[1]) + |f.payload|
            && FlagsStand(wire, f) && KeyStands(wire, f.key) && PayloadStands(wire, f.payload)
            && SizeBytes(wire[1]) == if |f.payload| <= 125 then 0 else if |f.payload| <= 65535 then 2 else 8
  {
    hide *;
    var wire := WriteFrame(f);
    assert wire + [] == wire;
    ReadsBack(f, []);
    ReadsWhatStands(wire);
    ReadIsAll(wire);
    SizeFormWritten(f);
  }

  lemma ReadIsAll(wire: seq<bv8>)
    requires Whole(wire)
    ensures wire[PayloadStart(wire[1]) + SizeOn(wire)..] == [] ==> |wire| == PayloadStart(wire[1]) + SizeOn(wire)
    ensures forall payload :: PayloadStands(wire, payload) ==> |payload| == SizeOn(wire)
  {
  }

  lemma SizeFormWritten(f: Frame)
    requires f.Valid()
    ensures |WriteFrame(f)| >= 2
    ensures SizeBytes(WriteFrame(f)[1]) == if |f.payload| <= 125 then 0 else if |f.payload| <= 65535 then 2 else 8
  {
    var info := f.Header();
    assert WriteFrame(f)[1] == BasicOf(info).b1;
    hide BasicOf, WriteFrame, HeaderBytes, SizeCode;
    BasicGetters(info);
    SizeCodes(info.size);
  }

  lemma StandingByte(wire: seq<bv8>, key: Option<Key>, payload: seq<bv8>, i: nat)
    requires Whole(wire) && KeyStands(wire, key) && PayloadStands(wire, payload) && i < |payload|
    ensures wire[PayloadStart(wire[1]) + i] == match key
                                               case Some(k) => payload[i] ^ k[i % 4]
                                               case None => payload[i]
  {
    hide SizeOn, SizeBytes, NumberOf;
    var at, start := 2 + SizeBytes(wire[1]), PayloadStart(wire[1]);
    assert ByteStands(wire, i, payload[i]);
    if key.Some? {
      assert key.value[i % 4] == wire[at + i % 4];
      XorBack(wire[start + i], wire[at + i % 4]);
    }
  }

  /** The payload of a written frame, byte by byte: masked under its key, or as it is. */
  lemma PayloadOnWire(f: Frame, i: nat)
    requires f.Valid() && i < |f.payload|
    ensures var start := |WriteFrame(f)| - |f.payload|;
            start >= 0 && WriteFrame(f)[start + i] == match f.key
                                                      case Some(key) => f.payload[i] ^ key[i % 4]
                                                      case None => f.payload[i]
  {
    hide *;
    WritesWhatStands(f);
    StandingByte(WriteFrame(f), f.key, f.payload, i);
  }

  lemma XorBack(a: bv8, b: bv8)
    ensures (a ^ b) ^ b == a
  {
  }

  /** A stream of frames is self-delimiting: it is read back as exactly those frames, then whatever follows. */
  lemma {:induction false} ReadAllBack(frames: seq<Frame>, tail: seq<bv8>)
    requires forall f :: f in frames ==> f.Valid()
    ensures ReadAll(WriteAll(frames) + tail) == (frames + ReadAll(tail).0, ReadAll(tail).1)
  {
    hide *;
    WriteAllUnfolds(frames);
    if frames == [] {
      assert WriteAll(frames) + tail == tail;
      assert frames + ReadAll(tail).0 == ReadAll(tail).0;
    } else {
      var first, rest := WriteFrame(frames[0]), WriteAll(frames[1..]);
      assert WriteAll(frames) + tail == first + (rest + tail) by { JoinsRight(first, rest, tail); }
      ReadsFirst(frames[0], rest + tail);
      ReadAllBack(frames[1..], tail);
      FirstAndRest(frames, ReadAll(tail).0);
    }
  }

  lemma JoinsRight(a: seq<bv8>, b: seq<bv8>, c: seq<bv8>)
    ensures (a + b) + c == a + (b + c)
  {
  }

  lemma FirstAndRest(frames: seq<Frame>, more: seq<Frame>)
    requires frames != []
    ensures [frames[0]] + (frames[1..] + more) == frames + more
  {
  }

  lemma ReadsFirst(f: Frame, tail: seq<bv8>)
    requires f.Valid()
    ensures ReadAll(WriteFrame(f) + tail) == ([f] + ReadAll(tail).0, ReadAll(tail).1)
  {
    hide *;
    ReadsBack(f, tail);
    ReadAllUnfolds(WriteFrame(f) + tail);
  }

  lemma FrontStays(wire: seq<bv8>, more: seq<bv8>)
    requires HasHeader(wire)
    ensures HasHeader(wire + more) && Front(wire + more) == Front(wire)
  {
    var start := GetHeaderLen(BasicHeader(wire[0], wire[1]));
    assert (wire + more)[2..start] == wire[2..start];
  }

  /** Bytes that arrive later never change a frame already complete. */
  lemma CompleteStays(wire: seq<bv8>, more: seq<bv8>)
    requires ReadFrame(wire).Complete?
    ensures ReadFrame(wire + more) == Complete(ReadFrame(wire).frame, ReadFrame(wire).rest + more)
  {
    hide *;
    ReadFrameUnfolds(wire);
    FrontStays(wire, more);
    ReadFrameUnfolds(wire + more);
    var (h, e) := Front(wire);
    var start, end := GetHeaderLen(h), GetHeaderLen(h) + InfoOf(h, e).size;
    assert (wire + more)[start..end] == wire[start..end];
    assert (wire + more)[end..] == wire[end..] + more;
  }

  /** Reading may stop anywhere: the frames are those of the whole stream, however its bytes arrive. */
  lemma {:induction false} ReadInPieces(wire: seq<bv8>, more: seq<bv8>)
    ensures var (frames, left) := ReadAll(wire);
            ReadAll(wire + more) == (frames + ReadAll(left + more).0, ReadAll(left + more).1)
    decreases |wire|
  {
    hide *;
    ReadAllUnfolds(wire);
    if ReadFrame(wire).Complete? {
      var frame, rest := ReadFrame(wire).frame, ReadFrame(wire).rest;
      CompleteStays(wire, more);
      ReadAllUnfolds(wire + more);
      ReadInPieces(rest, more);
      var left := ReadAll(rest).1;
      assert [frame] + (ReadAll(rest).0 + ReadAll(left + more).0) == [frame] + ReadAll(rest).0 + ReadAll(left + more).0;
    } else {
      assert [] + ReadAll(wire + more).0 == ReadAll(wire + more).0;
    }
  }

  /** No cut of a frame is mistaken for a frame. */
  lemma CutFrameIsIncomplete(f: Frame, k: nat)
    requires f.Valid() && k < |WriteFrame(f)|
    ensures ReadFrame(WriteFrame(f)[..k]).Incomplete?
  {
    hide *;
    var cut, missing := WriteFrame(f)[..k], WriteFrame(f)[k..];
    if ReadFrame(cut).Complete? {
      CompleteStays(cut, missing);
      assert cut + missing == WriteFrame(f) == WriteFrame(f) + [];
      ReadsBack(f, []);
    }
  }

  /** A stream cut anywhere gives the frames that arrived whole, and keeps the bytes of the one that did not. */
  lemma {:induction false} CutStream(frames: seq<Frame>, k: nat) returns (whole: nat)
    requires forall f :: f in frames ==> f.Valid()
    requires k <= |WriteAll(frames)|
    ensures whole <= |frames|
    ensures var (read, left) := ReadAll(WriteAll(frames)[..k]);
            && read == frames[..whole]
            && WriteAll(frames[..whole]) + left == WriteAll(frames)[..k]
            && (whole < |frames| ==> |left| < |WriteFrame(frames[whole])|)
  {
    hide *;
    whole := 0;
    WriteAllUnfolds(frames);
    WriteAllUnfolds([]);
    assert frames[..0] == [];
    var wire := WriteAll(frames)[..k];
    if frames == [] {
      EmptyIsIncomplete();
      ReadAllUnfolds(wire);
      assert wire == [];
    } else {
      var first, rest := WriteFrame(frames[0]), WriteAll(frames[1..]);
      if k < |first| {
        assert wire == first[..k];
        CutFrameIsIncomplete(frames[0], k);
        ReadAllUnfolds(wire);
        assert [] + wire == wire;
      } else {
        var others := CutStream(frames[1..], k - |first|);
        CutAfterFirst(frames, k, others);
        whole := others + 1;
      }
    }
  }

  lemma EmptyIsIncomplete()
    ensures ReadFrame([]).Incomplete?
  {
  }

  lemma CutAfterFirst(frames: seq<Frame>, k: nat, others: nat)
    requires frames != [] && forall f :: f in frames ==> f.Valid()
    requires |WriteFrame(frames[0])| <= k <= |WriteAll(frames)|
    requires others <= |frames[1..]| && k - |WriteFrame(frames[0])| <= |WriteAll(frames[1..])|
    requires var (read, left) := ReadAll(WriteAll(frames[1..])[..k - |WriteFrame(frames[0])|]);
             && read == frames[1..][..others]
             && WriteAll(frames[1..][..others]) + left == WriteAll(frames[1..])[..k - |WriteFrame(frames[0])|]
    ensures var (read, left) := ReadAll(WriteAll(frames)[..k]);
            && read == frames[..others + 1]
            && WriteAll(frames[..others + 1]) + left == WriteAll(frames)[..k]
            && left == ReadAll(WriteAll(frames[1..])[..k - |WriteFrame(frames[0])|]).1
  {
    hide *;
    WriteAllUnfolds(frames);
    var first := WriteFrame(frames[0]);
    var cut := WriteAll(frames[1..])[..k - |first|];
    assert WriteAll(frames)[..k] == first + cut;
    ReadsFirst(frames[0], cut);
    var whole := frames[..others + 1];
    assert whole[0] == frames[0] && whole[1..] == frames[1..][..others];
    assert whole == [frames[0]] + frames[1..][..others];
    WriteAllUnfolds(whole);
  }

  lemma HeaderOfFront(wire: seq<bv8>)
    requires HasHeader(wire)
    ensures PrepareHeader(Front(wire).0, Front(wire).1) == wire[..GetHeaderLen(Front(wire).0)]
  {
  }

  lemma FrameFromHeader(info: Info, body: seq<bv8>)
    requires info.Valid() && info.size == |body|
    ensures FrameFrom(info, body).Valid() && FrameFrom(info, body).Header() == info
    ensures WriteFrame(FrameFrom(info, body)) == HeaderBytes(info) + body
  {
    MaskedUnderTwice(info.key, body);
  }

  /** A frame read from any wire, written again, gives the same bytes exactly when its length form was minimal. */
  lemma RewrittenIffMinimal(wire: seq<bv8>)
    requires ReadFrame(wire).Complete?
    ensures WriteFrame(ReadFrame(wire).frame) + ReadFrame(wire).rest == wire
       <==> MinimalLength(Front(wire).0, Front(wire).1)
  {
    hide *;
    ReadFrameUnfolds(wire);
    var (h, e) := Front(wire);
    var info := InfoOf(h, e);
    var start, end := GetHeaderLen(h), GetHeaderLen(h) + info.size;
    InfoValid(h, e);
    RebuiltIffMinimal(h, e);
    HeaderOfFront(wire);
    FrameFromHeader(info, wire[start..end]);
    assert wire == wire[..start] + (wire[start..end] + wire[end..]);
    assert HeaderBytes(info) + wire[start..end] + wire[end..] == HeaderBytes(info) + (wire[start..end] + wire[end..]);
    SameFront(HeaderBytes(info), wire[..start], wire[start..end] + wire[end..]);
    HeaderBytesUnfolds(info);
  }

  lemma HeaderBytesUnfolds(info: Info)
    ensures HeaderBytes(info) == PrepareHeader(BasicOf(info), ExtendedOf(info))
  {
  }

  lemma SameFront(a: seq<bv8>, b: seq<bv8>, tail: seq<bv8>)
    ensures a + tail == b + tail <==> a == b
  {
    if a + tail == b + tail {
      assert |a + tail| == |b + tail|;
      assert a == (a + tail)[..|a|];
      assert b == (b + tail)[..|b|];
    }
  }
}
