/**
 * UTF-8 as RFC 3629 defines it: the encoding of a scalar value (section 3) and the syntax of byte sequences
 * (section 4). Nothing here refers to the automaton.
 */
module Utf8Grammar {

  type Byte = b: nat | b < 256

  predicate Tail(b: nat) {
    0x80 <= b <= 0xBF
  }

  predicate Utf8Char2(c: seq<Byte>) {
    |c| == 2 && 0xC2 <= c[0] <= 0xDF && Tail(c[1])
  }

  predicate Utf8Char3(c: seq<Byte>) {
    && |c| == 3 && Tail(c[2])
    && (|| (c[0] == 0xE0 && 0xA0 <= c[1] <= 0xBF)
        || (0xE1 <= c[0] <= 0xEC && Tail(c[1]))
        || (c[0] == 0xED && 0x80 <= c[1] <= 0x9F)
        || (0xEE <= c[0] <= 0xEF && Tail(c[1])))
  }

  predicate Utf8Char4(c: seq<Byte>) {
    && |c| == 4 && Tail(c[2]) && Tail(c[3])
    && (|| (c[0] == 0xF0 && 0x90 <= c[1] <= 0xBF)
        || (0xF1 <= c[0] <= 0xF3 && Tail(c[1]))
        || (c[0] == 0xF4 && 0x80 <= c[1] <= 0x8F))
  }

  predicate Utf8Char(c: seq<Byte>) {
    (|c| == 1 && c[0] <= 0x7F) || Utf8Char2(c) || Utf8Char3(c) || Utf8Char4(c)
  }

  /** `UTF8-octets = *( UTF8-char )` */
  predicate WellFormed(s: seq<Byte>)
    decreases |s|
  {
    s == [] || exists k :: 1 <= k <= 4 && k <= |s| && Utf8Char(s[..k]) && WellFormed(s[k..])
  }

  /** Unicode scalar values: code points without the surrogates. */
  predicate Scalar(v: nat) {
    v <= 0x10FFFF && !(0xD800 <= v <= 0xDFFF)
  }

  /** A tail byte with the low six bits of n. */
  function TailByte(n: nat): Byte {
    var low: nat := n % 64;
    0x80 + low
  }

  /** A lead byte: its marker bits and the first payload bits. */
  function LeadByte(marker: nat, payload: nat): Byte
    requires marker + payload < 256
  {
    marker + payload
  }

  function Encode(v: nat): (c: seq<Byte>)
    requires Scalar(v)
    ensures 1 <= |c| <= 4
  {
    if v <= 0x7F then [v]
    else if v <= 0x7FF then [LeadByte(0xC0, v / 64), TailByte(v)]
    else if v <= 0xFFFF then [LeadByte(0xE0, v / 4096), TailByte(v / 64), TailByte(v)]
    else [LeadByte(0xF0, v / 262144), TailByte(v / 4096), TailByte(v / 64), TailByte(v)]
  }

  function EncodeAll(vs: seq<nat>): seq<Byte>
    requires forall v :: v in vs ==> Scalar(v)
  {
    if vs == [] then [] else Encode(vs[0]) + EncodeAll(vs[1..])
  }

  /** The payload bits of a byte with the given marker bits. */
  function Payload(b: nat, marker: nat): nat
    requires marker <= b
  {
    b - marker
  }

  /** The number a character carries: the payload of its lead byte, then six bits from each tail. */
  function Value(c: seq<Byte>): nat
    requires Utf8Char(c)
  {
    if |c| == 1 then c[0]
    else if |c| == 2 then Payload(c[0], 0xC0) * 64 + Payload(c[1], 0x80)
    else if |c| == 3 then (Payload(c[0], 0xE0) * 64 + Payload(c[1], 0x80)) * 64 + Payload(c[2], 0x80)
    else ((Payload(c[0], 0xF0) * 64 + Payload(c[1], 0x80)) * 64 + Payload(c[2], 0x80)) * 64 + Payload(c[3], 0x80)
  }

  /** v in base 64 */
  lemma Digits(v: nat, a: nat, b: nat, c: nat, d: nat)
    requires b < 64 && c < 64 && d < 64 && v == ((a * 64 + b) * 64 + c) * 64 + d
    ensures v % 64 == d && v / 64 % 64 == c && v / 4096 % 64 == b && v / 262144 == a
    ensures v / 64 == (a * 64 + b) * 64 + c && v / 4096 == a * 64 + b
  {
  }

  lemma InBase64(v: nat) returns (a: nat, b: nat, c: nat, d: nat)
    ensures b < 64 && c < 64 && d < 64 && v == ((a * 64 + b) * 64 + c) * 64 + d
    ensures v % 64 == d && v / 64 % 64 == c && v / 4096 % 64 == b && v / 262144 == a
    ensures v / 64 == (a * 64 + b) * 64 + c && v / 4096 == a * 64 + b
  {
    d := v % 64;
    c := v / 64 % 64;
    b := v / 64 / 64 % 64;
    a := v / 64 / 64 / 64;
    Digits(v, a, b, c, d);
  }

  lemma Char2HasValue(c: seq<Byte>)
    requires Utf8Char2(c)
    ensures Scalar(Value(c)) && Encode(Value(c)) == c
  {
    Digits(Value(c), 0, 0, Payload(c[0], 0xC0), Payload(c[1], 0x80));
  }

  lemma Char3HasValue(c: seq<Byte>)
    requires Utf8Char3(c)
    ensures Scalar(Value(c)) && Encode(Value(c)) == c
  {
    Digits(Value(c), 0, Payload(c[0], 0xE0), Payload(c[1], 0x80), Payload(c[2], 0x80));
    assert 0x7FF < Value(c) <= 0xFFFF;
  }

  lemma Char4HasValue(c: seq<Byte>)
    requires Utf8Char4(c)
    ensures Scalar(Value(c)) && Encode(Value(c)) == c
  {
    Digits(Value(c), Payload(c[0], 0xF0), Payload(c[1], 0x80), Payload(c[2], 0x80), Payload(c[3], 0x80));
    assert 0xFFFF < Value(c) <= 0x10FFFF;
  }

  // The characters of the grammar are exactly the encodings of scalar values.

  lemma CharHasValue(c: seq<Byte>)
    requires Utf8Char(c)
    ensures Scalar(Value(c)) && Encode(Value(c)) == c
  {
    if |c| == 1 {
    } else if |c| == 2 {
      Char2HasValue(c);
    } else if |c| == 3 {
      Char3HasValue(c);
    } else {
      Char4HasValue(c);
    }
    hide Encode, Scalar;
  }

  lemma Encode2IsChar(v: nat)
    requires 0x7F < v <= 0x7FF
    ensures Utf8Char2(Encode(v)) && Value(Encode(v)) == v
  {
    var a, b, c, d := InBase64(v);
    assert Encode(v) == [0xC0 + c, 0x80 + d];
  }

  lemma Encode3IsChar(v: nat)
    requires 0x7FF < v <= 0xFFFF && Scalar(v)
    ensures Utf8Char3(Encode(v)) && Value(Encode(v)) == v
  {
    var a, b, c, d := InBase64(v);
    assert Encode(v) == [0xE0 + b, 0x80 + c, 0x80 + d];
  }

  lemma Encode4IsChar(v: nat)
    requires 0xFFFF < v <= 0x10FFFF
    ensures Utf8Char4(Encode(v)) && Value(Encode(v)) == v
  {
    var a, b, c, d := InBase64(v);
    assert Encode(v) == [0xF0 + a, 0x80 + b, 0x80 + c, 0x80 + d];
  }

  lemma EncodeIsChar(v: nat)
    requires Scalar(v)
    ensures Utf8Char(Encode(v)) && Value(Encode(v)) == v
  {
    if v <= 0x7F {
    } else if v <= 0x7FF {
      Encode2IsChar(v);
    } else if v <= 0xFFFF {
      Encode3IsChar(v);
    } else {
      Encode4IsChar(v);
    }
  }

  lemma PrependChar(c: seq<Byte>, s: seq<Byte>)
    requires Utf8Char(c) && WellFormed(s)
    ensures WellFormed(c + s)
  {
    assert (c + s)[..|c|] == c && (c + s)[|c|..] == s;
  }

  lemma FirstChar(s: seq<Byte>) returns (k: nat)
    requires WellFormed(s) && s != []
    ensures 1 <= k <= 4 && k <= |s| && Utf8Char(s[..k]) && WellFormed(s[k..])
  {
    k :| 1 <= k <= 4 && k <= |s| && Utf8Char(s[..k]) && WellFormed(s[k..]);
  }

  lemma {:induction false} WellFormedHasValues(s: seq<Byte>) returns (vs: seq<nat>)
    requires WellFormed(s)
    ensures (forall v :: v in vs ==> Scalar(v)) && EncodeAll(vs) == s
    decreases |s|
  {
    hide *;
    vs := [];
    EncodeNone();
    if s != [] {
      var k := FirstChar(s);
      var rest := WellFormedHasValues(s[k..]);
      CharHasValue(s[..k]);
      vs := [Value(s[..k])] + rest;
      EncodeAllPrepends(Value(s[..k]), rest);
      assert s == s[..k] + s[k..];
    }
  }

  lemma EncodeNone()
    ensures EncodeAll([]) == []
  {
  }

  lemma EncodeAllPrepends(v: nat, vs: seq<nat>)
    requires Scalar(v) && forall w :: w in vs ==> Scalar(w)
    ensures forall w :: w in [v] + vs ==> Scalar(w)
    ensures EncodeAll([v] + vs) == Encode(v) + EncodeAll(vs)
  {
    assert ([v] + vs)[1..] == vs;
  }

  lemma {:induction false} EncodedIsWellFormed(vs: seq<nat>)
    requires forall v :: v in vs ==> Scalar(v)
    ensures WellFormed(EncodeAll(vs))
  {
    if vs != [] {
      EncodedIsWellFormed(vs[1..]);
      EncodeIsChar(vs[0]);
      PrependChar(Encode(vs[0]), EncodeAll(vs[1..]));
    }
  }

  /** The string is these scalar values, encoded. */
  ghost predicate Encodes(vs: seq<nat>, s: seq<Byte>) {
    (forall v :: v in vs ==> Scalar(v)) && EncodeAll(vs) == s
  }

  /** The grammar of section 4 and the encoding of section 3 define the same strings. */
  lemma WellFormedIffEncoded(s: seq<Byte>)
    ensures WellFormed(s) <==> exists vs: seq<nat> :: Encodes(vs, s)
  {
    hide WellFormed, EncodeAll, Scalar;
    if WellFormed(s) {
      var vs := WellFormedHasValues(s);
      assert Encodes(vs, s);
    }
    if vs: seq<nat> :| Encodes(vs, s) {
      EncodedIsWellFormed(vs);
    }
  }
}
