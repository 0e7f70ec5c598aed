/**
 * The streaming UTF-8 validator of utf8_validator.hpp: the table-driven step, the `validator` class and `validate`,
 * and what the automaton accepts, rejects and decodes.
 */
module Utf8Validator {
  import opened Utf8Table
  import opened Utf8Grammar

  const UTF8_ACCEPT := 0
  const UTF8_REJECT := 1
  const UINT32_RANGE := 0x1_0000_0000

  /** `0xff >> type` */
  function ShiftedFF(t: nat): nat {
    if t == 0 then 0xFF else ShiftedFF(t - 1) / 2
  }

  /** `mask & b` for a mask of low ones */
  function LowBits(mask: nat, b: nat): nat {
    b % (mask + 1)
  }

  /** Every index into the table is in bounds, and every state it gives is one of the nine. */
  lemma EntriesInRange(state: nat, b: Byte)
    requires state <= 8
    ensures Utf8d(b) < 12
    ensures 256 + state * 16 + Utf8d(b) < TABLE_SIZE && Utf8d(256 + state * 16 + Utf8d(b)) <= 8
  {
    hide Utf8d;
    TypeOfByte(b);
    NextState(state, Utf8d(b));
  }

  /** `utf8d[256 + state * 16 + utf8d[b]]` */
  function NextOf(state: nat, b: Byte): (next: nat)
    requires state <= 8
    ensures next <= 8
  {
    hide *;
    EntriesInRange(state, b);
    Utf8d(256 + state * 16 + Utf8d(b))
  }

  /** The free function `decode`; `|` joins bits that do not overlap, so it is a sum, and `<<` drops bits above 32. */
  function CodepOf(state: nat, codep: nat, b: Byte): nat {
    if state != UTF8_ACCEPT then LowBits(0x3F, b) + codep * 64 % UINT32_RANGE
    else LowBits(ShiftedFF(Utf8d(b)), b)
  }

  datatype Dfa = Dfa(state: nat, codep: nat)

  function Decode(d: Dfa, b: Byte): (r: Dfa)
    requires d.state <= 8
    ensures r.state <= 8
  {
    Dfa(NextOf(d.state, b), CodepOf(d.state, d.codep, b))
  }

  /** The loop of `validator::decode`: it stops at the first rejected byte. */
  function Feed(d: Dfa, s: seq<Byte>): (r: Dfa)
    requires d.state <= 8
    ensures r.state <= 8
    decreases |s|
  {
    hide *;
    if s == [] then d
    else
      var e := Decode(d, s[0]);
      if e.state == UTF8_REJECT then e else Feed(e, s[1..])
  }

  /** The state after all the bytes. */
  function RunState(state: nat, s: seq<Byte>): (r: nat)
    requires state <= 8
    ensures r <= 8
    decreases |s|
  {
    hide *;
    if s == [] then state else RunState(NextOf(state, s[0]), s[1..])
  }

  class Validator {
    var state: nat
    var codepoint: nat

    ghost predicate Valid()
      reads this
    {
      state <= 8
    }

    function Current(): Dfa
      reads this
    {
      Dfa(state, codepoint)
    }

    constructor ()
      ensures Valid() && Current() == Dfa(UTF8_ACCEPT, 0)
    {
      state, codepoint := UTF8_ACCEPT, 0;
    }

    method Consume(b: Byte) returns (ok: bool)
      requires Valid()
      modifies this
      ensures Valid() && Current() == Decode(old(Current()), b)
      ensures ok <==> state != UTF8_REJECT
    {
      state, codepoint := NextOf(state, b), CodepOf(state, codepoint, b);
      ok := state != UTF8_REJECT;
    }

    method DecodeBytes(bytes: seq<Byte>) returns (ok: bool)
      requires Valid()
      modifies this
      ensures Valid() && Current() == Feed(old(Current()), bytes)
      ensures ok <==> bytes == [] || state != UTF8_REJECT
    {
      hide Decode;
      for i := 0 to |bytes|
        invariant Valid() && Feed(Current(), bytes[i..]) == Feed(old(Current()), bytes)
        invariant i > 0 ==> state != UTF8_REJECT
      {
        assert bytes[i..][1..] == bytes[i + 1..];
        ok := Consume(bytes[i]);
        if !ok {
          return;
        }
      }
      ok := true;
    }

    method Complete() returns (complete: bool)
      ensures complete <==> state == UTF8_ACCEPT
    {
      complete := state == UTF8_ACCEPT;
    }

    method Reset()
      modifies this
      ensures Valid() && Current() == Dfa(UTF8_ACCEPT, 0)
    {
      state, codepoint := UTF8_ACCEPT, 0;
    }
  }

  // ---------- the language of the automaton ----------

  /** What may follow in each state: the rest of the character under way, then well-formed text. */
  ghost predicate Rest(state: nat, s: seq<Byte>) {
    match state
    case 0 => WellFormed(s)
    case 2 => |s| >= 1 && Tail(s[0]) && WellFormed(s[1..])
    case 3 => |s| >= 2 && Tail(s[0]) && Tail(s[1]) && WellFormed(s[2..])
    case 4 => |s| >= 2 && 0xA0 <= s[0] <= 0xBF && Tail(s[1]) && WellFormed(s[2..])
    case 5 => |s| >= 2 && 0x80 <= s[0] <= 0x9F && Tail(s[1]) && WellFormed(s[2..])
    case 6 => |s| >= 3 && 0x90 <= s[0] <= 0xBF && Tail(s[1]) && Tail(s[2]) && WellFormed(s[3..])
    case 7 => |s| >= 3 && Tail(s[0]) && Tail(s[1]) && Tail(s[2]) && WellFormed(s[3..])
    case 8 => |s| >= 3 && 0x80 <= s[0] <= 0x8F && Tail(s[1]) && Tail(s[2]) && WellFormed(s[3..])
    case _ => false
  }

  /** The next state in terms of byte ranges. */
  lemma NextOfByte(state: nat, b: Byte)
    requires state <= 8
    ensures InType(b, Utf8d(b)) && NextOf(state, b) == Next(state, Utf8d(b))
  {
    TypeOfByte(b);
    NextState(state, Utf8d(b));
  }

  lemma RejectStays(b: Byte)
    ensures NextOf(UTF8_REJECT, b) == UTF8_REJECT
  {
    NextOfByte(UTF8_REJECT, b);
  }

  // Well-formed text is one character and then well-formed text.

  lemma LeadState(b: Byte)
    ensures var next := NextOf(0, b);
            && (next == 0 <==> b <= 0x7F)
            && (next == 2 <==> 0xC2 <= b <= 0xDF)
            && (next == 3 <==> 0xE1 <= b <= 0xEC || 0xEE <= b <= 0xEF)
            && (next == 4 <==> b == 0xE0) && (next == 5 <==> b == 0xED)
            && (next == 6 <==> b == 0xF0) && (next == 7 <==> 0xF1 <= b <= 0xF3) && (next == 8 <==> b == 0xF4)
  {
    NextOfByte(0, b);
    hide NextOf, Utf8d;
  }

  lemma TailState(state: nat, b: Byte)
    requires 2 <= state <= 8
    ensures NextOf(state, b)
         == if state == 2 && Tail(b) then 0
            else if state == 3 && Tail(b) then 2
            else if state == 4 && 0xA0 <= b <= 0xBF then 2
            else if state == 5 && 0x80 <= b <= 0x9F then 2
            else if state == 6 && 0x90 <= b <= 0xBF then 3
            else if state == 7 && Tail(b) then 3
            else if state == 8 && 0x80 <= b <= 0x8F then 3
            else 1
  {
    NextOfByte(state, b);
    hide NextOf, Utf8d;
  }

  /** After a first character of k bytes the automaton is owed the other k - 1. */
  lemma CharOwed(c: seq<Byte>, rest: seq<Byte>)
    requires Utf8Char(c) && WellFormed(rest)
    ensures Rest(NextOf(0, c[0]), c[1..] + rest)
  {
    LeadState(c[0]);
    hide NextOf, WellFormed;
    var t := c[1..] + rest;
    assert t[|c| - 1..] == rest;
    assert |c| >= 2 ==> t[0] == c[1];
    assert |c| >= 3 ==> t[1] == c[2];
    assert |c| >= 4 ==> t[2] == c[3];
    assert |c| == 1 ==> t == rest;
  }

  lemma OwedIsChar(b: Byte, t: seq<Byte>) returns (k: nat)
    requires Rest(NextOf(0, b), t)
    ensures k <= |t| && k <= 3 && Utf8Char([b] + t[..k]) && WellFormed(t[k..])
  {
    LeadState(b);
    hide NextOf, WellFormed;
    var next := NextOf(0, b);
    if next == 0 {
      k := 0;
      assert [b] + t[..0] == [b] && t[0..] == t;
    } else if next == 2 {
      k := 1;
      assert [b] + t[..1] == [b, t[0]];
    } else if next <= 5 {
      k := 2;
      assert [b] + t[..2] == [b, t[0], t[1]];
    } else {
      k := 3;
      assert [b] + t[..3] == [b, t[0], t[1], t[2]];
    }
  }

  lemma WellFormedStep(s: seq<Byte>)
    requires s != []
    ensures WellFormed(s) <==> Rest(NextOf(0, s[0]), s[1..])
  {
    hide *;
    if WellFormed(s) {
      var k := FirstChar(s);
      CharOwed(s[..k], s[k..]);
      assert s[..k][0] == s[0] && s[..k][1..] + s[k..] == s[1..];
    }
    if Rest(NextOf(0, s[0]), s[1..]) {
      var k := OwedIsChar(s[0], s[1..]);
      PrependChar([s[0]] + s[1..][..k], s[1..][k..]);
      assert [s[0]] + s[1..][..k] + s[1..][k..] == s;
    }
  }

  /** One byte takes what may follow one state to what may follow the next. */
  lemma RestStep(state: nat, s: seq<Byte>)
    requires state <= 8 && s != []
    ensures Rest(state, s) <==> Rest(NextOf(state, s[0]), s[1..])
  {
    if state == 0 {
      WellFormedStep(s);
    } else if state == 1 {
      RejectStays(s[0]);
    } else {
      TailState(state, s[0]);
      hide NextOf, WellFormed;
      assert |s| >= 2 ==> s[1..][1..] == s[2..];
      assert |s| >= 3 ==> s[1..][2..] == s[3..] && s[1..][0] == s[1] && s[1..][1] == s[2];
      assert |s| >= 2 ==> s[1..][0] == s[1];
    }
    hide *;
  }

  /** Every state accepts exactly the text that may follow it. */
  lemma {:induction false} AcceptsIff(state: nat, s: seq<Byte>)
    requires state <= 8
    ensures RunState(state, s) == UTF8_ACCEPT <==> Rest(state, s)
    decreases |s|
  {
    if s == [] {
      hide NextOf;
    } else {
      RestStep(state, s);
      AcceptsIff(NextOf(state, s[0]), s[1..]);
      hide NextOf, Rest;
    }
  }

  // ---------- stopping at the first rejection, and chunks ----------

  lemma {:induction false} RejectAbsorbs(s: seq<Byte>)
    ensures RunState(UTF8_REJECT, s) == UTF8_REJECT
    decreases |s|
  {
    hide NextOf;
    if s != [] {
      RejectStays(s[0]);
      RejectAbsorbs(s[1..]);
    }
  }

  /** Stopping early does not change the state. */
  lemma {:induction false} FeedRuns(d: Dfa, s: seq<Byte>)
    requires d.state <= 8
    ensures Feed(d, s).state == RunState(d.state, s)
    decreases |s|
  {
    hide NextOf, CodepOf;
    if s != [] {
      var e := Decode(d, s[0]);
      if e.state == UTF8_REJECT {
        RejectAbsorbs(s[1..]);
      } else {
        FeedRuns(e, s[1..]);
      }
    }
  }

  /** `validate` returns true exactly for the strings of the grammar, which are the encodings of scalar values. */
  method Validate(s: seq<Byte>) returns (valid: bool)
    ensures valid <==> WellFormed(s)
    ensures valid <==> exists vs: seq<nat> :: Encodes(vs, s)
  {
    hide Feed, RunState, WellFormed, Encodes;
    WellFormedIffEncoded(s);
    var v := new Validator();
    var ok := v.DecodeBytes(s);
    FeedRuns(Dfa(UTF8_ACCEPT, 0), s);
    StartAccepts(s);
    assert v.state == v.Current().state;
    if !ok {
      return false;
    }
    valid := v.Complete();
  }

  lemma StartAccepts(s: seq<Byte>)
    ensures RunState(UTF8_ACCEPT, s) == UTF8_ACCEPT <==> WellFormed(s)
  {
    AcceptsIff(UTF8_ACCEPT, s);
    hide WellFormed, RunState, NextOf;
  }

  lemma {:induction false} RunInTwo(state: nat, a: seq<Byte>, b: seq<Byte>)
    requires state <= 8
    ensures RunState(state, a + b) == RunState(RunState(state, a), b)
    decreases |a|
  {
    hide NextOf;
    if a == [] {
      assert a + b == b;
    } else {
      assert (a + b)[1..] == a[1..] + b;
      RunInTwo(NextOf(state, a[0]), a[1..], b);
    }
  }

  /** A shortest way to complete the character under way. */
  function Completion(state: nat): seq<Byte> {
    match state
    case 2 => [0x80]
    case 3 => [0x80, 0x80]
    case 4 => [0xA0, 0x80]
    case 5 => [0x80, 0x80]
    case 6 => [0x90, 0x80, 0x80]
    case 7 => [0x80, 0x80, 0x80]
    case 8 => [0x80, 0x80, 0x80]
    case _ => []
  }

  lemma CompletionWorks(state: nat)
    requires state <= 8 && state != UTF8_REJECT
    ensures Rest(state, Completion(state))
  {
  }

  ghost predicate IsPrefixOfText(s: seq<Byte>) {
    exists t: seq<Byte> :: WellFormed(s + t)
  }

  /** Earliest rejection: a string is rejected exactly when no continuation makes it well formed. */
  lemma RejectsEarliest(s: seq<Byte>)
    ensures RunState(UTF8_ACCEPT, s) != UTF8_REJECT <==> IsPrefixOfText(s)
  {
    hide WellFormed, RunState, NextOf, Rest, Completion;
    var state := RunState(UTF8_ACCEPT, s);
    if state != UTF8_REJECT {
      var t := Completion(state);
      CompletionWorks(state);
      AcceptsIff(state, t);
      RunInTwo(UTF8_ACCEPT, s, t);
      StartAccepts(s + t);
      assert WellFormed(s + t);
    }
    if IsPrefixOfText(s) {
      var t: seq<Byte> :| WellFormed(s + t);
      StartAccepts(s + t);
      RunInTwo(UTF8_ACCEPT, s, t);
      RejectAbsorbs(t);
    }
  }

  function Concat(chunks: seq<seq<Byte>>): seq<Byte> {
    if chunks == [] then [] else chunks[0] + Concat(chunks[1..])
  }

  /** `validator::decode` called chunk by chunk, whatever it returned for the chunk before. */
  function FeedChunks(d: Dfa, chunks: seq<seq<Byte>>): (r: Dfa)
    requires d.state <= 8
    ensures r.state <= 8
    decreases |chunks|
  {
    hide *;
    if chunks == [] then d else FeedChunks(Feed(d, chunks[0]), chunks[1..])
  }

  lemma {:induction false} FeedInTwo(d: Dfa, a: seq<Byte>, b: seq<Byte>)
    requires d.state <= 8 && Feed(d, a).state != UTF8_REJECT
    ensures Feed(d, a + b) == Feed(Feed(d, a), b)
    decreases |a|
  {
    hide Decode;
    if a == [] {
      assert a + b == b;
    } else {
      assert (a + b)[1..] == a[1..] + b;
      FeedInTwo(Decode(d, a[0]), a[1..], b);
    }
  }

  /** Any cut into chunks ends in the state of the whole string, and, unless rejected, with the same code point. */
  lemma {:induction false} ChunksDoNotMatter(d: Dfa, chunks: seq<seq<Byte>>)
    requires d.state <= 8
    ensures FeedChunks(d, chunks).state == Feed(d, Concat(chunks)).state
    ensures FeedChunks(d, chunks).state != UTF8_REJECT ==> FeedChunks(d, chunks) == Feed(d, Concat(chunks))
    decreases |chunks|
  {
    hide Feed;
    if chunks == [] {
      FeedNothing(d);
    } else {
      var first, rest := chunks[0], Concat(chunks[1..]);
      var e := Feed(d, first);
      ChunksDoNotMatter(e, chunks[1..]);
      if e.state == UTF8_REJECT {
        FeedRuns(e, rest);
        FeedRuns(d, first);
        FeedRuns(d, first + rest);
        RunInTwo(d.state, first, rest);
        RejectAbsorbs(rest);
        hide RunState;
      } else {
        FeedInTwo(d, first, rest);
      }
    }
  }

  lemma FeedNothing(d: Dfa)
    requires d.state <= 8
    ensures Feed(d, []) == d
  {
  }

  // ---------- the code points ----------

  /** The code point held at each return to the accepting state. */
  function Emit(d: Dfa, s: seq<Byte>): seq<nat>
    requires d.state <= 8
    decreases |s|
  {
    hide *;
    if s == [] then []
    else
      var e := Decode(d, s[0]);
      if e.state == UTF8_REJECT then []
      else (if e.state == UTF8_ACCEPT then [e.codep] else []) + Emit(e, s[1..])
  }

  lemma EmitStep(d: Dfa, b: Byte, s: seq<Byte>)
    requires d.state <= 8
    ensures var e := Decode(d, b);
            Emit(d, [b] + s) == if e.state == UTF8_REJECT then []
                                else (if e.state == UTF8_ACCEPT then [e.codep] else []) + Emit(e, s)
  {
    hide Decode;
    assert ([b] + s)[1..] == s;
  }

  /** The marker bits of a lead byte. */
  function Marker(b: nat): (m: nat)
    ensures m <= b
  {
    if b < 0xC0 then 0 else if b < 0xE0 then 0xC0 else if b < 0xF0 then 0xE0 else 0xF0
  }

  lemma ShiftedFFs()
    ensures ShiftedFF(0) == 255 && ShiftedFF(1) == 127 && ShiftedFF(2) == 63 && ShiftedFF(3) == 31 && ShiftedFF(4) == 15
    ensures ShiftedFF(5) == 7 && ShiftedFF(6) == 3 && ShiftedFF(10) == 0 && ShiftedFF(11) == 0
  {
    assert ShiftedFF(7) == 1 && ShiftedFF(8) == 0 && ShiftedFF(9) == 0;
  }

  /** A lead byte that is not rejected leaves its payload bits. */
  lemma DecodeLead(codep: nat, b: Byte)
    requires NextOf(0, b) != UTF8_REJECT
    ensures Decode(Dfa(0, codep), b) == Dfa(NextOf(0, b), Payload(b, Marker(b)))
  {
    hide Utf8d, ShiftedFF, NextOf, InType, LowBits, Payload, Marker;
    NextOfByte(0, b);
    LeadBits(b, Utf8d(b));
  }

  lemma LeadBits(b: Byte, t: nat)
    requires InType(b, t) && Next(0, t) != UTF8_REJECT
    ensures LowBits(ShiftedFF(t), b) == Payload(b, Marker(b))
  {
    ShiftedFFs();
    hide ShiftedFF;
    Remainders(b);
  }

  lemma Remainders(b: Byte)
    ensures b % 256 == b && b % 1 == 0
    ensures 0xC0 <= b < 0xE0 ==> b % 64 == b - 0xC0
    ensures 0xE0 <= b < 0xF0 ==> b % 32 == b - 0xE0
    ensures b == 0xED ==> b % 16 == 0xD
    ensures b == 0xF4 ==> b % 8 == 4
    ensures 0xF0 <= b < 0xF4 ==> b % 4 == b - 0xF0
  {
  }

  /** A tail byte adds six bits, and nothing is shifted out. */
  lemma DecodeTail(state: nat, codep: nat, b: Byte)
    requires 2 <= state <= 8 && Tail(b) && codep * 64 < UINT32_RANGE
    ensures Decode(Dfa(state, codep), b) == Dfa(NextOf(state, b), codep * 64 + Payload(b, 0x80))
  {
    hide NextOf;
  }

  lemma EmitTail1(codep: nat, b: Byte, s: seq<Byte>)
    requires Tail(b) && codep * 64 < UINT32_RANGE
    ensures var v := codep * 64 + Payload(b, 0x80);
            Emit(Dfa(2, codep), [b] + s) == [v] + Emit(Dfa(0, v), s)
  {
    hide Decode, Emit, NextOf, CodepOf;
    TailState(2, b);
    DecodeTail(2, codep, b);
    EmitStep(Dfa(2, codep), b, s);
  }

  lemma EmitTail2(state: nat, codep: nat, b: Byte, c: Byte, s: seq<Byte>)
    requires state <= 8 && NextOf(state, b) == 2 && 3 <= state && Tail(b) && Tail(c) && codep < 0x10000
    ensures var v := (codep * 64 + Payload(b, 0x80)) * 64 + Payload(c, 0x80);
            Emit(Dfa(state, codep), [b, c] + s) == [v] + Emit(Dfa(0, v), s)
  {
    hide Decode, Emit, NextOf;
    DecodeTail(state, codep, b);
    EmitStep(Dfa(state, codep), b, [c] + s);
    assert [b, c] + s == [b] + ([c] + s);
    EmitTail1(codep * 64 + Payload(b, 0x80), c, s);
  }

  lemma EmitTail3(state: nat, codep: nat, b: Byte, c: Byte, d: Byte, s: seq<Byte>)
    requires state <= 8 && NextOf(state, b) == 3 && 6 <= state && Tail(b) && Tail(c) && Tail(d) && codep < 8
    ensures var v := ((codep * 64 + Payload(b, 0x80)) * 64 + Payload(c, 0x80)) * 64 + Payload(d, 0x80);
            Emit(Dfa(state, codep), [b, c, d] + s) == [v] + Emit(Dfa(0, v), s)
  {
    hide Decode, Emit, NextOf;
    DecodeTail(state, codep, b);
    EmitStep(Dfa(state, codep), b, [c, d] + s);
    assert [b, c, d] + s == [b] + ([c, d] + s);
    TailState(3, c);
    EmitTail2(3, codep * 64 + Payload(b, 0x80), c, d, s);
  }

  /** Over one character the automaton emits exactly the value the character carries. */
  lemma EmitChar(codep: nat, c: seq<Byte>, s: seq<Byte>)
    requires Utf8Char(c)
    ensures Emit(Dfa(0, codep), c + s) == [Value(c)] + Emit(Dfa(0, Value(c)), s)
  {
    hide Decode, Emit, NextOf, CodepOf;
    var lead, tail := c[0], c[1..];
    LeadState(lead);
    DecodeLead(codep, lead);
    EmitStep(Dfa(0, codep), lead, tail + s);
    assert c + s == [lead] + (tail + s);
    var state, payload := NextOf(0, lead), Payload(lead, Marker(lead));
    if |c| == 1 {
      assert tail + s == s;
    } else if |c| == 2 {
      assert tail == [c[1]];
      EmitTail1(payload, c[1], s);
    } else if |c| == 3 {
      assert tail == [c[1], c[2]];
      TailState(state, c[1]);
      EmitTail2(state, payload, c[1], c[2], s);
    } else {
      assert tail == [c[1], c[2], c[3]];
      TailState(state, c[1]);
      EmitTail3(state, payload, c[1], c[2], c[3], s);
    }
  }

  /** Encoding scalar values and decoding them gives the same values, one at each return to the accepting state. */
  lemma {:induction false} DecodesEncoded(codep: nat, vs: seq<nat>)
    requires forall v :: v in vs ==> Scalar(v)
    ensures Emit(Dfa(0, codep), EncodeAll(vs)) == vs
    decreases |vs|
  {
    hide Emit, Encode, Scalar, Utf8Char, Value;
    if vs == [] {
      EmitNothing(codep);
    } else {
      EncodeIsChar(vs[0]);
      EmitChar(codep, Encode(vs[0]), EncodeAll(vs[1..]));
      DecodesEncoded(vs[0], vs[1..]);
    }
  }

  lemma EmitNothing(codep: nat)
    ensures Emit(Dfa(0, codep), []) == []
  {
  }

  /** Decoding well-formed text and encoding what was emitted gives the same text. */
  lemma EncodesDecoded(s: seq<Byte>)
    requires WellFormed(s)
    ensures var vs := Emit(Dfa(UTF8_ACCEPT, 0), s);
            (forall v :: v in vs ==> Scalar(v)) && EncodeAll(vs) == s
  {
    var vs := WellFormedHasValues(s);
    DecodesEncoded(0, vs);
    hide Emit, WellFormed, EncodeAll;
  }

  /** The code point that each state allows. */
  predicate CodepFits(d: Dfa) {
    match d.state
    case 0 => d.codep <= 0x10FFFF
    case 2 => d.codep <= 0x43FF
    case 3 => d.codep <= 0x10F
    case 4 => d.codep == 0
    case 5 => d.codep == 0xD
    case 6 => d.codep == 0
    case 7 => d.codep <= 3
    case 8 => d.codep == 4
    case _ => false
  }

  /** No step that is not rejected loses a bit: the code point stays far below 32 bits, so `<<` is exact. */
  lemma NoOverflow(d: Dfa, b: Byte)
    requires d.state <= 8 && CodepFits(d) && Decode(d, b).state != UTF8_REJECT
    ensures CodepFits(Decode(d, b))
    ensures d.state != UTF8_ACCEPT ==> Decode(d, b).codep == d.codep * 64 + b % 64
  {
    assert Decode(d, b).state == NextOf(d.state, b);
    hide Decode, NextOf, CodepOf;
    if d.state == UTF8_ACCEPT {
      LeadState(b);
      DecodeLead(d.codep, b);
    } else {
      TailState(d.state, b);
      DecodeTail(d.state, d.codep, b);
      TailRemainder(b);
    }
  }

  lemma TailRemainder(b: Byte)
    requires Tail(b)
    ensures b % 64 == Payload(b, 0x80)
  {
  }

  lemma {:induction false} FeedNeverOverflows(d: Dfa, s: seq<Byte>)
    requires d.state <= 8 && CodepFits(d) && Feed(d, s).state != UTF8_REJECT
    ensures CodepFits(Feed(d, s))
    decreases |s|
  {
    hide Decode, CodepFits;
    if s != [] {
      NoOverflow(d, s[0]);
      FeedNeverOverflows(Decode(d, s[0]), s[1..]);
    }
  }
}
