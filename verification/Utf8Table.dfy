/**
 * The lookup table of utf8_validator.hpp, line by line: the type of each byte, then one row of 16 next states for
 * each state. `Utf8d(i)` is entry i of the whole table.
 */
module Utf8Table {

  const ROW_00: seq<nat> := [0, 0, 0, 0, 0, 0, 0, 0, 0, 0, 0, 0, 0, 0, 0, 0, 0, 0, 0, 0, 0, 0, 0, 0, 0, 0, 0, 0, 0, 0, 0, 0] // 00..1f
  const ROW_20: seq<nat> := [0, 0, 0, 0, 0, 0, 0, 0, 0, 0, 0, 0, 0, 0, 0, 0, 0, 0, 0, 0, 0, 0, 0, 0, 0, 0, 0, 0, 0, 0, 0, 0] // 20..3f
  const ROW_40: seq<nat> := [0, 0, 0, 0, 0, 0, 0, 0, 0, 0, 0, 0, 0, 0, 0, 0, 0, 0, 0, 0, 0, 0, 0, 0, 0, 0, 0, 0, 0, 0, 0, 0] // 40..5f
  const ROW_60: seq<nat> := [0, 0, 0, 0, 0, 0, 0, 0, 0, 0, 0, 0, 0, 0, 0, 0, 0, 0, 0, 0, 0, 0, 0, 0, 0, 0, 0, 0, 0, 0, 0, 0] // 60..7f
  const ROW_80: seq<nat> := [1, 1, 1, 1, 1, 1, 1, 1, 1, 1, 1, 1, 1, 1, 1, 1, 9, 9, 9, 9, 9, 9, 9, 9, 9, 9, 9, 9, 9, 9, 9, 9] // 80..9f
  const ROW_A0: seq<nat> := [7, 7, 7, 7, 7, 7, 7, 7, 7, 7, 7, 7, 7, 7, 7, 7, 7, 7, 7, 7, 7, 7, 7, 7, 7, 7, 7, 7, 7, 7, 7, 7] // a0..bf
  const ROW_C0: seq<nat> := [8, 8, 2, 2, 2, 2, 2, 2, 2, 2, 2, 2, 2, 2, 2, 2, 2, 2, 2, 2, 2, 2, 2, 2, 2, 2, 2, 2, 2, 2, 2, 2] // c0..df
  const ROW_E0: seq<nat> := [10, 3, 3, 3, 3, 3, 3, 3, 3, 3, 3, 3, 3, 4, 3, 3] // e0..ef
  const ROW_F0: seq<nat> := [11, 6, 6, 6, 5, 8, 8, 8, 8, 8, 8, 8, 8, 8, 8, 8] // f0..ff
  const ROW_S0: seq<nat> := [0, 1, 2, 3, 5, 8, 7, 1, 1, 1, 4, 6, 1, 1, 1, 1] // s0
  const ROW_S1: seq<nat> := [1, 1, 1, 1, 1, 1, 1, 1, 1, 1, 1, 1, 1, 1, 1, 1, 1, 0, 1, 1, 1, 1, 1, 0, 1, 0, 1, 1, 1, 1, 1, 1] // s1..s2
  const ROW_S3: seq<nat> := [1, 2, 1, 1, 1, 1, 1, 2, 1, 2, 1, 1, 1, 1, 1, 1, 1, 1, 1, 1, 1, 1, 1, 2, 1, 1, 1, 1, 1, 1, 1, 1] // s3..s4
  const ROW_S5: seq<nat> := [1, 2, 1, 1, 1, 1, 1, 1, 1, 2, 1, 1, 1, 1, 1, 1, 1, 1, 1, 1, 1, 1, 1, 3, 1, 3, 1, 1, 1, 1, 1, 1] // s5..s6
  const ROW_S7: seq<nat> := [1, 3, 1, 1, 1, 1, 1, 3, 1, 3, 1, 1, 1, 1, 1, 1, 1, 3, 1, 1, 1, 1, 1, 1, 1, 1, 1, 1, 1, 1, 1, 1] // s7..s8

  const TABLE_SIZE := 400

  function TypeEntry(i: nat): nat
    requires i < 256
  {
    if i < 32 then ROW_00[i]
    else if i < 64 then ROW_20[i - 32]
    else if i < 96 then ROW_40[i - 64]
    else if i < 128 then ROW_60[i - 96]
    else if i < 160 then ROW_80[i - 128]
    else if i < 192 then ROW_A0[i - 160]
    else if i < 224 then ROW_C0[i - 192]
    else if i < 240 then ROW_E0[i - 224]
    else ROW_F0[i - 240]
  }

  function StateEntry(i: nat): nat
    requires i < TABLE_SIZE - 256
  {
    if i < 16 then ROW_S0[i]
    else if i < 48 then ROW_S1[i - 16]
    else if i < 80 then ROW_S3[i - 48]
    else if i < 112 then ROW_S5[i - 80]
    else ROW_S7[i - 112]
  }

  function Utf8d(i: nat): nat
    requires i < TABLE_SIZE
  {
    if i < 256 then TypeEntry(i) else StateEntry(i - 256)
  }

  /** The bytes the table sends to each type. */
  predicate InType(b: nat, t: nat) {
    match t
    case 0 => b <= 0x7F
    case 1 => 0x80 <= b <= 0x8F
    case 9 => 0x90 <= b <= 0x9F
    case 7 => 0xA0 <= b <= 0xBF
    case 8 => 0xC0 <= b <= 0xC1 || 0xF5 <= b <= 0xFF
    case 2 => 0xC2 <= b <= 0xDF
    case 10 => b == 0xE0
    case 3 => 0xE1 <= b <= 0xEC || 0xEE <= b <= 0xEF
    case 4 => b == 0xED
    case 11 => b == 0xF0
    case 6 => 0xF1 <= b <= 0xF3
    case 5 => b == 0xF4
    case _ => false
  }

  lemma Types00(b: nat)
    requires 0x0 <= b < 0x20
    ensures InType(b, ROW_00[b])
  {
    assert ROW_00[b] == 0;
  }

  lemma Types20(b: nat)
    requires 0x20 <= b < 0x40
    ensures InType(b, ROW_20[b - 0x20])
  {    assert ROW_20[b - 0x20] == 0;
  }

  lemma Types40(b: nat)
    requires 0x40 <= b < 0x60
    ensures InType(b, ROW_40[b - 0x40])
  {    assert ROW_40[b - 0x40] == 0;
  }

  lemma Types60(b: nat)
    requires 0x60 <= b < 0x80
    ensures InType(b, ROW_60[b - 0x60])
  {    assert ROW_60[b - 0x60] == 0;
  }

  lemma Types80(b: nat)
    requires 0x80 <= b < 0xa0
    ensures InType(b, ROW_80[b - 0x80])
  {
  }

  lemma TypesA0(b: nat)
    requires 0xa0 <= b < 0xc0
    ensures InType(b, ROW_A0[b - 0xa0])
  {    assert ROW_A0[b - 0xa0] == 7;
  }

  lemma TypesC0(b: nat)
    requires 0xc0 <= b < 0xe0
    ensures InType(b, ROW_C0[b - 0xc0])
  {
  }

  lemma TypesE0(b: nat)
    requires 0xe0 <= b < 0xf0
    ensures InType(b, ROW_E0[b - 0xe0])
  {
  }

  lemma TypesF0(b: nat)
    requires 0xf0 <= b < 0x100
    ensures InType(b, ROW_F0[b - 0xf0])
  {
  }

  lemma TypeOfByte(b: nat)
    requires b < 256
    ensures InType(b, Utf8d(b))
  {
    if b < 0x20 {
      Types00(b);
    } else if b < 0x40 {
      Types20(b);
    } else if b < 0x60 {
      Types40(b);
    } else if b < 0x80 {
      Types60(b);
    } else if b < 0xa0 {
      Types80(b);
    } else if b < 0xc0 {
      TypesA0(b);
    } else if b < 0xe0 {
      TypesC0(b);
    } else if b < 0xf0 {
      TypesE0(b);
    } else {
      TypesF0(b);
    }
    hide InType;
  }

  /** The next state of each state that is not rejecting, by type. */
  function Next(state: nat, t: nat): nat {
    match state
    case 0 => (match t
               case 0 => 0
               case 2 => 2
               case 3 => 3
               case 4 => 5
               case 5 => 8
               case 6 => 7
               case 10 => 4
               case 11 => 6
               case _ => 1)
    case 2 => if t == 1 || t == 7 || t == 9 then 0 else 1
    case 3 => if t == 1 || t == 7 || t == 9 then 2 else 1
    case 4 => if t == 7 then 2 else 1
    case 5 => if t == 1 || t == 9 then 2 else 1
    case 6 => if t == 7 || t == 9 then 3 else 1
    case 7 => if t == 1 || t == 7 || t == 9 then 3 else 1
    case 8 => if t == 1 then 3 else 1
    case _ => 1
  }

  lemma NextS0(t: nat)
    requires t < 12
    ensures StateEntry(t) == Next(0, t)
  {
    assert StateEntry(t) == ROW_S0[t];
  }

  lemma NextS1(t: nat)
    requires t < 12
    ensures StateEntry(16 + t) == Next(1, t) && StateEntry(32 + t) == Next(2, t)
  {
    assert StateEntry(16 + t) == ROW_S1[t] && StateEntry(32 + t) == ROW_S1[16 + t];
  }

  lemma NextS3(t: nat)
    requires t < 12
    ensures StateEntry(48 + t) == Next(3, t) && StateEntry(64 + t) == Next(4, t)
  {
    assert StateEntry(48 + t) == ROW_S3[t] && StateEntry(64 + t) == ROW_S3[16 + t];
  }

  lemma NextS5(t: nat)
    requires t < 12
    ensures StateEntry(80 + t) == Next(5, t) && StateEntry(96 + t) == Next(6, t)
  {
    assert StateEntry(80 + t) == ROW_S5[t] && StateEntry(96 + t) == ROW_S5[16 + t];
  }

  lemma NextS7(t: nat)
    requires t < 12
    ensures StateEntry(112 + t) == Next(7, t) && StateEntry(128 + t) == Next(8, t)
  {
    assert StateEntry(112 + t) == ROW_S7[t] && StateEntry(128 + t) == ROW_S7[16 + t];
  }

  lemma NextState(state: nat, t: nat)
    requires state <= 8 && t < 12
    ensures Utf8d(256 + state * 16 + t) == Next(state, t)
  {
    assert Utf8d(256 + state * 16 + t) == StateEntry(state * 16 + t) by { hide StateEntry, TypeEntry; }
    hide *;
    if state == 0 {
      NextS0(t);
    } else if state <= 2 {
      NextS1(t);
    } else if state <= 4 {
      NextS3(t);
    } else if state <= 6 {
      NextS5(t);
    } else {
      NextS7(t);
    }
  }
}
